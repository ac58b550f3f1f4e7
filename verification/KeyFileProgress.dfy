/** What the key-file protocol offers each process, whatever the others do: which step it can take where it
    stands, and what that step makes of the file, its lock, the segments and the processes. */
module KeyFileProgress {
  import opened KeyFile

  /** Process p moves, and nobody else. */
  function At(s: State, p: nat, pc: Pc): State
    requires p < |s.procs|
  {
    s.(procs := s.procs[p := pc])
  }

  /** Every process that is alive may crash where it is. The file lock goes, and nothing else: the mutex of the
      segment and its count stay as they are. */
  lemma MayCrash(proto: Protocol, s: State, p: nat)
    requires Inv(proto, s) && p < |s.procs| && !s.procs[p].Gone?
    ensures Enabled(s, Crash(p))
    ensures Apply(proto, s, Crash(p)) == At(s, p, Gone(s.procs[p])).(lock := s.lock - {p})
  {
    if InMutex(s.procs[p]) { AtTheKey(proto, s, p); }
  }

  /** init opens the file, and takes its lock once that is free. */
  lemma OpensAndLocks(proto: Protocol, s: State, p: nat)
    requires p < |s.procs|
    ensures s.procs[p].Outside? ==> Enabled(s, Open(p)) && Apply(proto, s, Open(p)) == At(s, p, Opened)
    ensures s.procs[p].Opened? && s.lock == {} ==>
              Enabled(s, Lock(p)) && Apply(proto, s, Lock(p)) == At(s, p, Locked).(lock := {p})
  {
  }

  /** What is read decides: nothing means creating, a key means attaching. Manager takes the key 0 for nothing, and
      throws for any other number of bytes, which FileMutex takes for a key. */
  lemma Reads(proto: Protocol, s: State, p: nat)
    requires p < |s.procs| && s.procs[p].Locked?
    ensures Enabled(s, Read(p))
    ensures var s' := Apply(proto, s, Read(p));
            match s.file
            case Empty => s' == At(s, p, Creating)
            case Key(key) => s' == At(s, p, if proto.ManagerInit? && key == 0 then Creating else Attaching(key))
            case Junk(partial) =>
              if proto.ManagerInit? then s' == At(s, p, Gone(Locked)).(lock := s.lock - {p})
              else s' == At(s, p, Attaching(partial))
  {
  }

  /** Any positive key may be drawn. A key that is taken ends init; any other gives a zero-filled segment. */
  lemma MayCreate(proto: Protocol, s: State, p: nat, key: int)
    requires p < |s.procs| && s.procs[p].Creating? && key > 0
    ensures Enabled(s, Create(p, key))
    ensures key in s.segments ==>
              Apply(proto, s, Create(p, key)) == At(s, p, Gone(Creating)).(lock := s.lock - {p})
    ensures key !in s.segments ==>
              Apply(proto, s, Create(p, key)) ==
                At(s, p, Filling(key, 0)).(segments := s.segments[key := Segment(0, p, {}, 0)])
  {
  }

  /** FileMutex makes one store, of the mutex word. BufferManager makes three: the word, the control block, which
      counts the creator, and the chain of descriptors. */
  lemma MayStore(proto: Protocol, s: State, p: nat)
    requires Inv(proto, s) && p < |s.procs| && s.procs[p].Filling?
    ensures Enabled(s, Store(p))
    ensures var Filling(key, stage) := s.procs[p];
            var s' := Apply(proto, s, Store(p));
            && (proto.FileMutexInit? ==>
                  && stage == 0
                  && s' == At(s, p, Writing(key)).(segments := s.segments[key := Segment(1, p, {}, 1)]))
            && (proto.ManagerInit? && stage == 0 ==>
                  s' == At(s, p, Filling(key, 1)).(segments := s.segments[key := Segment(1, p, {}, 1)]))
            && (proto.ManagerInit? && stage == 1 ==>
                  s' == At(s, p, Filling(key, 2)).(segments := s.segments[key := Segment(2, p, {p}, 1)]))
            && (proto.ManagerInit? && stage >= 2 ==>
                  s' == At(s, p, Writing(key)).(segments := s.segments[key := Segment(3, p, {p}, 1)]))
  {
    hide MutexOk, LockOk, FileOk;
    assert Knows(proto, s, p, s.procs[p]);
    hide AllKnow;
  }

  /** Then the key is written, and at the end the lock is dropped. */
  lemma WritesAndUnlocks(proto: Protocol, s: State, p: nat)
    requires p < |s.procs|
    ensures s.procs[p].Writing? ==>
              && Enabled(s, Write(p))
              && Apply(proto, s, Write(p)) ==
                   At(s, p, Unlocking(s.procs[p].key)).(file := Key(s.procs[p].key), writes := s.writes + 1)
    ensures s.procs[p].Unlocking? ==>
              && Enabled(s, Unlock(p))
              && Apply(proto, s, Unlock(p)) == At(s, p, Done(s.procs[p].key)).(lock := s.lock - {p})
  {
  }

  /** Attaching finds the segment with all its stores made, one or three; BufferManager goes on to its mutex. */
  lemma Attaches(proto: Protocol, s: State, p: nat)
    requires Inv(proto, s) && p < |s.procs| && s.procs[p].Attaching?
    ensures var key := s.procs[p].key;
            && Enabled(s, Attach(p)) && key in s.segments
            && s.segments[key].stage == (if proto.FileMutexInit? then 1 else 3)
            && (s.segments[key].word == 0 || s.segments[key].word == 1)
            && Apply(proto, s, Attach(p)) ==
                 At(s, p, if proto.FileMutexInit? then Unlocking(key) else Trying(key, Registration))
  {
    assert Knows(proto, s, p, s.procs[p]);
    hide LockOk, AllKnow;
  }

  /** lock(): at a free word the mutex is taken, at any other the process sleeps. */
  lemma Tries(proto: Protocol, s: State, p: nat)
    requires Inv(proto, s) && p < |s.procs| && s.procs[p].Trying?
    ensures var Trying(key, use) := s.procs[p];
            && key in s.segments
            && var seg := s.segments[key];
               if seg.word == 1 then
                 && Enabled(s, Take(p))
                 && Apply(proto, s, Take(p)) ==
                      At(s, p, Holding(key, use)).(segments := s.segments[key := seg.(word := 0)])
               else Enabled(s, Sleep(p)) && Apply(proto, s, Sleep(p)) == At(s, p, Sleeping(key, use))
  {
    AtTheKey(proto, s, p);
    hide Inv;
  }

  /** A holder counts itself in, or does its call, and frees the word. */
  lemma WorksAndReleases(proto: Protocol, s: State, p: nat)
    requires Inv(proto, s) && p < |s.procs| && (s.procs[p].Holding? || s.procs[p].Working?)
    ensures var key, use := s.procs[p].key, s.procs[p].use;
            && key in s.segments
            && var seg := s.segments[key];
               if s.procs[p].Holding? then
                 var registered := if use == Registration then seg.registered + {p} else seg.registered;
                 && Enabled(s, Work(p))
                 && Apply(proto, s, Work(p)) ==
                      At(s, p, Working(key, use)).(segments := s.segments[key := seg.(registered := registered)])
               else
                 && Enabled(s, Release(p))
                 && Apply(proto, s, Release(p)) ==
                      At(s, p, Waking(key, use)).(segments := s.segments[key := seg.(word := 1)])
  {
    AtTheKey(proto, s, p);
    hide Inv;
  }

  /** FUTEX_WAKE wakes any one of those that sleep at the segment, or nobody when nobody does. */
  lemma WakesOne(proto: Protocol, s: State, p: nat)
    requires Inv(proto, s) && p < |s.procs| && s.procs[p].Waking?
    ensures var Waking(key, use) := s.procs[p];
            var next := if use == Registration then Unlocking(key) else Done(key);
            && (forall z: nat :: z < |s.procs| && s.procs[z].Sleeping? && s.procs[z].key == key ==>
                  && Enabled(s, Wake(p, z))
                  && Apply(proto, s, Wake(p, z)) == At(At(s, p, next), z, Trying(key, s.procs[z].use)))
            && ((forall z: nat :: z < |s.procs| && s.procs[z].Sleeping? ==> s.procs[z].key != key) ==>
                  Enabled(s, WakeNone(p)) && Apply(proto, s, WakeNone(p)) == At(s, p, next))
  {
    AtTheKey(proto, s, p);
    hide Inv;
  }

  /** A sleeper may be interrupted: that ends init, or only the call. A process that is done may start a call. */
  lemma InterruptsAndCalls(proto: Protocol, s: State, p: nat)
    requires Inv(proto, s) && p < |s.procs|
    ensures s.procs[p].Sleeping? ==>
              && Enabled(s, Interrupt(p))
              && Apply(proto, s, Interrupt(p)) ==
                   if s.procs[p].use == Registration then At(s, p, Gone(s.procs[p])).(lock := s.lock - {p})
                   else At(s, p, Done(s.procs[p].key))
    ensures s.procs[p].Done? && s.calls > 0 ==>
              && Enabled(s, Enter(p))
              && Apply(proto, s, Enter(p)) == At(s, p, Trying(s.procs[p].key, Call)).(calls := s.calls - 1)
  {
    if InMutex(s.procs[p]) { AtTheKey(proto, s, p); }
    hide Inv;
  }
}
