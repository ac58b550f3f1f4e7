/** Two runs of the key-file protocol that leave an attacher waiting for ever, one for each way to die in
    the segment's mutex: with the mutex held, and with the word free but nobody woken. */
module KeyFileStranded {
  import opened KeyFile
  import FutexMutex

  lemma {:induction false} RunThen(proto: Protocol, s: State, run: seq<Action>, a: Action)
    requires IsRun(proto, s, run) && Enabled(Final(proto, s, run), a)
    ensures IsRun(proto, s, run + [a]) && Final(proto, s, run + [a]) == Apply(proto, Final(proto, s, run), a)
    decreases |run|
  {
    hide Apply, Enabled;
    if run == [] {
      assert [a][1..] == [] && [] + [a] == [a];
      assert IsRun(proto, Apply(proto, s, a), []);
    } else {
      assert (run + [a])[0] == run[0] && (run + [a])[1..] == run[1..] + [a];
      RunThen(proto, Apply(proto, s, run[0]), run[1..], a);
    }
  }

  /** A run that starts at s ends at t. */
  ghost predicate Reaches(proto: Protocol, s: State, t: State) {
    exists run :: IsRun(proto, s, run) && Final(proto, s, run) == t
  }

  lemma ReachesItself(proto: Protocol, s: State)
    ensures Reaches(proto, s, s)
  {
    assert IsRun(proto, s, []) && Final(proto, s, []) == s;
  }

  lemma Moves(proto: Protocol, s: State, t: State, a: Action, u: State)
    requires Reaches(proto, s, t) && Enabled(t, a) && Apply(proto, t, a) == u
    ensures Reaches(proto, s, u)
  {
    hide Apply, Enabled;
    var run :| IsRun(proto, s, run) && Final(proto, s, run) == t;
    RunThen(proto, s, run, a);
    assert IsRun(proto, s, run + [a]) && Final(proto, s, run + [a]) == u;
  }

  /** The segment after the manager's three stores, and with its mutex held or free. */
  function Made(segments: map<int, Segment>, key: int, word: int): map<int, Segment> {
    segments[key := Segment(3, 0, {0}, word)]
  }

  /** Process 0 creates the segment. */
  lemma CreatorFinishes(s: State, segments: map<int, Segment>, calls: nat, key: int)
    requires s == State(Empty, {}, segments, [Outside, Outside, Outside], 0, calls) && key > 0 && key !in segments
    ensures Reaches(ManagerInit, s, State(Key(key), {}, Made(segments, key, FutexMutex.UNLOCKED),
                                          [Done(key), Outside, Outside], 1, calls))
  {
    hide Reaches;
    var m := ManagerInit;
    ReachesItself(m, s);
    var s1 := s.(procs := [Opened, Outside, Outside]);
    Moves(m, s, s, Open(0), s1);
    var s2 := s.(procs := [Locked, Outside, Outside], lock := {0});
    Moves(m, s, s1, Lock(0), s2);
    var s3 := s2.(procs := [Creating, Outside, Outside]);
    Moves(m, s, s2, Read(0), s3);
    var s4 := s2.(procs := [Filling(key, 0), Outside, Outside], segments := segments[key := Segment(0, 0, {}, 0)]);
    Moves(m, s, s3, Create(0, key), s4);
    CreatorStores(s, s4, segments, key);
    var s7 := s2.(procs := [Writing(key), Outside, Outside], segments := Made(segments, key, FutexMutex.UNLOCKED));
    var s8 := s7.(procs := [Unlocking(key), Outside, Outside], file := Key(key), writes := 1);
    Moves(m, s, s7, Write(0), s8);
    Moves(m, s, s8, Unlock(0), s8.(procs := [Done(key), Outside, Outside], lock := {}));
  }

  lemma CreatorStores(s: State, s4: State, segments: map<int, Segment>, key: int)
    requires Reaches(ManagerInit, s, s4)
    requires s4.procs == [Filling(key, 0), Outside, Outside] && s4.segments == segments[key := Segment(0, 0, {}, 0)]
    ensures Reaches(ManagerInit, s, s4.(procs := [Writing(key), Outside, Outside],
                                        segments := Made(segments, key, FutexMutex.UNLOCKED)))
  {
    hide Reaches;
    var m := ManagerInit;
    var s5 := s4.(procs := [Filling(key, 1), Outside, Outside],
                  segments := segments[key := Segment(1, 0, {}, FutexMutex.UNLOCKED)]);
    Moves(m, s, s4, Store(0), s5);
    var s6 := s4.(procs := [Filling(key, 2), Outside, Outside],
                  segments := segments[key := Segment(2, 0, {0}, FutexMutex.UNLOCKED)]);
    Moves(m, s, s5, Store(0), s6);
    Moves(m, s, s6, Store(0), s4.(procs := [Writing(key), Outside, Outside],
                                  segments := Made(segments, key, FutexMutex.UNLOCKED)));
  }

  /** Process q comes as far as the segment's mutex. */
  lemma AttacherArrives(s: State, t: State, q: nat, key: int)
    requires Reaches(ManagerInit, s, t) && t.file == Key(key) && key > 0 && key in t.segments && t.lock == {}
    requires q < |t.procs| && t.procs[q].Outside?
    ensures Reaches(ManagerInit, s, t.(procs := t.procs[q := Trying(key, Registration)], lock := {q}))
  {
    hide Reaches;
    var m := ManagerInit;
    var t1 := t.(procs := t.procs[q := Opened]);
    Moves(m, s, t, Open(q), t1);
    var t2 := t.(procs := t.procs[q := Locked], lock := {q});
    assert t1.procs[q := Locked] == t2.procs;
    Moves(m, s, t1, Lock(q), t2);
    var t3 := t2.(procs := t.procs[q := Attaching(key)]);
    assert t2.procs[q := Attaching(key)] == t3.procs;
    Moves(m, s, t2, Read(q), t3);
    var t4 := t2.(procs := t.procs[q := Trying(key, Registration)]);
    assert t3.procs[q := Trying(key, Registration)] == t4.procs;
    Moves(m, s, t3, Attach(q), t4);
  }

  /** Or, while the mutex is held, to sleep there. */
  lemma AttacherFallsAsleep(s: State, t: State, key: int)
    requires Reaches(ManagerInit, s, t) && t.file == Key(key) && key > 0 && key in t.segments && t.lock == {}
    requires |t.procs| == 3 && t.procs[2].Outside? && t.segments[key].word == FutexMutex.LOCKED
    ensures Reaches(ManagerInit, s, t.(procs := [t.procs[0], t.procs[1], Sleeping(key, Registration)], lock := {2}))
  {
    hide Reaches;
    AttacherArrives(s, t, 2, key);
    var t1 := t.(procs := t.procs[2 := Trying(key, Registration)], lock := {2});
    var t2 := t1.(procs := [t.procs[0], t.procs[1], Sleeping(key, Registration)]);
    assert t1.procs[2 := Sleeping(key, Registration)] == t2.procs;
    Moves(ManagerInit, s, t1, Sleep(2), t2);
  }

  /** Nobody who sleeps is woken where the others are done or dead. */
  lemma Stranded(s: State, a: Pc, b: Pc, key: int)
    requires s.procs == [a, b, Sleeping(key, Registration)] && (a.Done? || a.Gone?) && b.Gone?
    ensures Stopped(s) && !Settled(s)
  {
    assert !Finished(s.procs[2]) && !s.procs[2].Gone?;
  }

  /** Process 1 takes the mutex to count itself in, and dies. */
  lemma HolderDies(s: State, segments: map<int, Segment>, calls: nat, key: int)
    requires Reaches(ManagerInit, s, State(Key(key), {}, Made(segments, key, FutexMutex.UNLOCKED),
                                           [Done(key), Outside, Outside], 1, calls)) && key > 0
    ensures Reaches(ManagerInit, s, State(Key(key), {}, Made(segments, key, FutexMutex.LOCKED),
                                          [Done(key), Gone(Holding(key, Registration)), Outside], 1, calls))
  {
    hide Reaches;
    var m := ManagerInit;
    var t0 := State(Key(key), {}, Made(segments, key, FutexMutex.UNLOCKED), [Done(key), Outside, Outside], 1, calls);
    AttacherArrives(s, t0, 1, key);
    var t1 := t0.(procs := [Done(key), Trying(key, Registration), Outside], lock := {1});
    assert t0.procs[1 := Trying(key, Registration)] == t1.procs;
    var t2 := t1.(procs := [Done(key), Holding(key, Registration), Outside],
                  segments := Made(segments, key, FutexMutex.LOCKED));
    Moves(m, s, t1, Take(1), t2);
    Moves(m, s, t2, Crash(1), t2.(procs := [Done(key), Gone(Holding(key, Registration)), Outside], lock := {}));
  }

  /** Process 1 counts itself in and dies with the mutex. Process 2 takes the file lock, which the kernel
      has dropped, and then waits for the mutex, which nobody drops. */
  lemma DeadHolderStrands(s: State, segments: map<int, Segment>, calls: nat, key: int)
    requires Start(s, segments, 3, calls) && key > 0 && key !in segments
    ensures exists t :: Reaches(ManagerInit, s, t) && Stopped(t) && !Settled(t) && Orphaned(t)
  {
    hide Reaches, Stopped, Settled, Orphaned;
    assert s.procs == [Outside, Outside, Outside];
    CreatorFinishes(s, segments, calls, key);
    HolderDies(s, segments, calls, key);
    var a, b, c := Done(key), Gone(Holding(key, Registration)), Sleeping(key, Registration);
    var t0 := State(Key(key), {}, Made(segments, key, FutexMutex.LOCKED), [a, b, Outside], 1, calls);
    AttacherFallsAsleep(s, t0, key);
    var t := t0.(procs := [a, b, c], lock := {2});
    Stranded(t, a, b, key);
    HoldsDead(t);
  }

  lemma HoldsDead(s: State)
    requires |s.procs| == 3 && s.procs[1].Gone? && s.procs[1].last.Holding?
    ensures Orphaned(s)
  {
    assert HoldsMutex(s.procs[1]);
  }

  /** Any process may die, here one that does not have the file lock. */
  lemma Dies(s: State, t: State, p: nat)
    requires Reaches(ManagerInit, s, t) && p < |t.procs| && Alive(t.procs[p]) && p !in t.lock
    requires InMutex(t.procs[p]) ==> t.procs[p].key in t.segments
    ensures Reaches(ManagerInit, s, t.(procs := t.procs[p := Gone(t.procs[p])]))
  {
    hide Reaches;
    assert t.lock - {p} == t.lock;
    Moves(ManagerInit, s, t, Crash(p), t.(procs := t.procs[p := Gone(t.procs[p])]));
  }

  /** Process 1 has left, and process 0 has taken the mutex in a call. */
  lemma CallerHolds(s: State, segments: map<int, Segment>, calls: nat, key: int)
    requires Reaches(ManagerInit, s, State(Key(key), {}, Made(segments, key, FutexMutex.UNLOCKED),
                                           [Done(key), Outside, Outside], 1, calls)) && calls > 0
    ensures Reaches(ManagerInit, s, State(Key(key), {}, Made(segments, key, FutexMutex.LOCKED),
                                          [Holding(key, Call), Gone(Outside), Outside], 1, calls - 1))
  {
    hide Reaches;
    var m := ManagerInit;
    var t0 := State(Key(key), {}, Made(segments, key, FutexMutex.UNLOCKED), [Done(key), Outside, Outside], 1, calls);
    var t1 := t0.(procs := [Done(key), Gone(Outside), Outside]);
    Dies(s, t0, 1);
    assert t0.procs[1 := Gone(Outside)] == t1.procs;
    var t2 := t1.(procs := [Trying(key, Call), Gone(Outside), Outside], calls := calls - 1);
    Moves(m, s, t1, Enter(0), t2);
    var t3 := t2.(procs := [Holding(key, Call), Gone(Outside), Outside],
                  segments := Made(segments, key, FutexMutex.LOCKED));
    Moves(m, s, t2, Take(0), t3);
  }

  /** It frees the word, and dies before FUTEX_WAKE. */
  lemma CallerDies(s: State, t: State, b: Pc, c: Pc, segments: map<int, Segment>, key: int)
    requires Reaches(ManagerInit, s, t) && t.segments == Made(segments, key, FutexMutex.LOCKED)
    requires t.procs == [Holding(key, Call), b, c] && 0 !in t.lock
    ensures Reaches(ManagerInit, s, t.(procs := [Gone(Waking(key, Call)), b, c],
                                       segments := Made(segments, key, FutexMutex.UNLOCKED)))
  {
    hide Reaches;
    var m := ManagerInit;
    var t1 := t.(procs := [Working(key, Call), b, c]);
    Moves(m, s, t, Work(0), t1);
    var t2 := t1.(procs := [Waking(key, Call), b, c], segments := Made(segments, key, FutexMutex.UNLOCKED));
    Moves(m, s, t1, Release(0), t2);
    Dies(s, t2, 0);
    assert t2.procs[0 := Gone(Waking(key, Call))] == [Gone(Waking(key, Call)), b, c];
  }

  /** Process 0 makes a call while process 2 comes to wait for the mutex, and dies after it has freed
      the word and before FUTEX_WAKE: process 2 sleeps at a free word. */
  lemma LostWakeStrands(s: State, segments: map<int, Segment>, calls: nat, key: int)
    requires Start(s, segments, 3, calls) && calls > 0 && key > 0 && key !in segments
    ensures exists t :: Reaches(ManagerInit, s, t) && Stopped(t) && !Settled(t) && !Orphaned(t)
  {
    hide Reaches, Stopped, Settled, Orphaned;
    assert s.procs == [Outside, Outside, Outside];
    CreatorFinishes(s, segments, calls, key);
    CallerHolds(s, segments, calls, key);
    var b, c := Gone(Outside), Sleeping(key, Registration);
    var held := Made(segments, key, FutexMutex.LOCKED);
    var t0 := State(Key(key), {}, held, [Holding(key, Call), b, Outside], 1, calls - 1);
    AttacherFallsAsleep(s, t0, key);
    var t1 := t0.(procs := [Holding(key, Call), b, c], lock := {2});
    CallerDies(s, t1, b, c, segments, key);
    var t2 := t1.(procs := [Gone(Waking(key, Call)), b, c], segments := Made(segments, key, FutexMutex.UNLOCKED));
    Stranded(t2, Gone(Waking(key, Call)), b, key);
    NobodyHolds(t2);
  }

  lemma NobodyHolds(s: State)
    requires |s.procs| == 3 && s.procs[2].Sleeping?
    requires s.procs[0].Gone? && s.procs[0].last.Waking? && s.procs[1] == Gone(Outside)
    ensures !Orphaned(s)
  {
  }
}
