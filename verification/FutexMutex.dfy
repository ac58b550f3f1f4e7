/** The futex mutex (src/IPC_Mutex.cpp) as a transition system: one shared word and
    any number of threads, each of which wants to lock and unlock a given number of times.
    One action is one atomic step: a compare-and-swap, or one kernel futex operation. */
module FutexMutex {
  const LOCKED := 0
  const UNLOCKED := 1

  datatype Pc =
    | Idle        // outside lock() and unlock()
    | Trying      // inside lock(), about to compare-and-swap
    | Failed      // the compare-and-swap failed, about to call FUTEX_WAIT
    | Sleeping    // queued in the kernel by FUTEX_WAIT
    | Holding     // lock() has returned
    | Released    // unlock()'s compare-and-swap succeeded, about to call FUTEX_WAKE
    | Terminated  // unlock()'s compare-and-swap failed: an exception leaves a noexcept function

  /** rounds counts the calls of lock() the thread has still to start. */
  datatype Thread = Thread(pc: Pc, rounds: nat)

  datatype State = State(word: int, threads: seq<Thread>)

  datatype Action =
    | Call(t: nat)               // enter lock()
    | Cas(t: nat)                // lock()'s compare-and-swap
    | Wait(t: nat)               // FUTEX_WAIT: sleep, or EAGAIN when the word has changed
    | Unlock(t: nat)             // unlock()'s compare-and-swap
    | WakeOne(t: nat, s: nat)    // FUTEX_WAKE, thread s is woken
    | WakeNone(t: nat)           // FUTEX_WAKE, nobody sleeps
    | Interrupt(t: nat)          // FUTEX_WAIT fails with EINTR: lock() throws
    | Spurious(t: nat)           // FUTEX_WAIT returns although nobody called FUTEX_WAKE

  predicate At(s: State, t: nat, pc: Pc) {
    t < |s.threads| && s.threads[t].pc == pc
  }

  ghost predicate Somebody(s: State, pc: Pc) {
    exists t: nat :: At(s, t, pc)
  }

  /** __sync_bool_compare_and_swap: whether it succeeded, and the word afterwards. */
  function CompareAndSwap(word: int, expected: int, desired: int): (bool, int) {
    if word == expected then (true, desired) else (false, word)
  }

  ghost predicate Enabled(s: State, a: Action) {
    match a
    case Call(t) => At(s, t, Idle) && s.threads[t].rounds > 0
    case Cas(t) => At(s, t, Trying)
    case Wait(t) => At(s, t, Failed)
    case Unlock(t) => At(s, t, Holding) || At(s, t, Idle)
    case WakeOne(t, z) => At(s, t, Released) && At(s, z, Sleeping)
    case WakeNone(t) => At(s, t, Released) && !Somebody(s, Sleeping)
    case Interrupt(t) => At(s, t, Sleeping)
    case Spurious(t) => At(s, t, Sleeping)
  }

  function Goto(s: State, t: nat, pc: Pc): State
    requires t < |s.threads|
  {
    s.(threads := s.threads[t := s.threads[t].(pc := pc)])
  }

  ghost function Apply(s: State, a: Action): State
    requires Enabled(s, a)
  {
    match a
    case Call(t) =>
      s.(threads := s.threads[t := Thread(Trying, s.threads[t].rounds - 1)])
    case Cas(t) =>
      var (ok, word) := CompareAndSwap(s.word, UNLOCKED, LOCKED);
      Goto(s, t, if ok then Holding else Failed).(word := word)
    case Wait(t) =>
      Goto(s, t, if s.word == LOCKED then Sleeping else Trying)
    case Unlock(t) =>
      var (ok, word) := CompareAndSwap(s.word, LOCKED, UNLOCKED);
      Goto(s, t, if ok then Released else Terminated).(word := word)
    case WakeOne(t, z) => Goto(Goto(s, t, Idle), z, Trying)
    case WakeNone(t) => Goto(s, t, Idle)
    case Interrupt(t) => Goto(s, t, Idle)
    case Spurious(t) => Goto(s, t, Trying)
  }

  /** Mutex(ptr, isNew): a creator stores the initial value, anyone else leaves the word alone. */
  function Construct(word: int, isNew: bool): int {
    if isNew then UNLOCKED else word
  }

  // ---------------------------------------------------------------- safety

  /** The word is LOCKED exactly when one thread holds the mutex, no two threads hold it,
      and unlock() has never taken its error branch. */
  ghost predicate Safe(s: State) {
    && (s.word == LOCKED || s.word == UNLOCKED)
    && (s.word == LOCKED <==> Somebody(s, Holding))
    && (forall t: nat, u: nat :: At(s, t, Holding) && At(s, u, Holding) ==> t == u)
    && !Somebody(s, Terminated)
  }

  /** A sleeper at a free word is always covered: some thread has still to call FUTEX_WAKE,
      or is about to compare-and-swap, or is about to get EAGAIN. */
  ghost predicate NoLostWakeup(s: State) {
    s.word == UNLOCKED && Somebody(s, Sleeping) ==>
      Somebody(s, Released) || Somebody(s, Trying) || Somebody(s, Failed)
  }

  ghost predicate Inv(s: State) {
    Safe(s) && NoLostWakeup(s)
  }

  /** Only a thread that holds the mutex unlocks it. */
  ghost predicate Disciplined(s: State, a: Action) {
    a.Unlock? ==> At(s, a.t, Holding)
  }

  /** One step keeps mutual exclusion exactly when it is not an unlock by a thread that
      does not hold the mutex: such an unlock either frees a held word or terminates. */
  lemma StepSafeIff(s: State, a: Action)
    requires Safe(s) && Enabled(s, a)
    ensures Safe(Apply(s, a)) <==> Disciplined(s, a)
  {
    var s' := Apply(s, a);
    match a {
      case Cas(t) =>
        if s.word == UNLOCKED { assert At(s', t, Holding); }
        assert forall u: nat :: u != t ==> (At(s', u, Holding) <==> At(s, u, Holding));
        assert forall u: nat :: u != t ==> (At(s', u, Terminated) <==> At(s, u, Terminated));
      case Unlock(t) =>
        assert forall u: nat :: u != t ==> (At(s', u, Holding) <==> At(s, u, Holding));
        assert forall u: nat :: u != t ==> (At(s', u, Terminated) <==> At(s, u, Terminated));
        if At(s, t, Idle) {
          if s.word == LOCKED {
            var h: nat :| At(s, h, Holding);
            assert At(s', h, Holding);
          } else {
            assert At(s', t, Terminated);
          }
        }
      case _ =>
        assert forall u: nat :: At(s', u, Holding) <==> At(s, u, Holding);
        assert forall u: nat :: At(s', u, Terminated) <==> At(s, u, Terminated);
    }
  }

  /** No step loses a wakeup, not even a thread that barges in ahead of the sleepers,
      a sleeper that is interrupted, or one the kernel wakes for no reason. */
  lemma StepNoLostWakeup(s: State, a: Action)
    requires Inv(s) && Enabled(s, a) && Disciplined(s, a)
    ensures NoLostWakeup(Apply(s, a))
  {
    var s' := Apply(s, a);
    match a {
      case Call(t) => assert At(s', t, Trying);
      case Wait(t) => if s.word == UNLOCKED { assert At(s', t, Trying); }
      case Unlock(t) => assert At(s', t, Released);
      case WakeOne(t, z) => assert At(s', z, Trying);
      case WakeNone(t) =>
        assert forall u: nat :: At(s', u, Sleeping) ==> At(s, u, Sleeping);
      case Interrupt(t) =>
        assert forall u: nat :: At(s', u, Sleeping) ==> At(s, u, Sleeping);
        assert forall u: nat, pc: Pc :: u != t && At(s, u, pc) ==> At(s', u, pc);
      case Spurious(t) => assert At(s', t, Trying);
      case Cas(t) =>
    }
  }

  // ------------------------------------------------------------- whole runs

  /** A run from s: every action is enabled where it happens, and only holders unlock. */
  ghost predicate IsRun(s: State, run: seq<Action>)
    decreases |run|
  {
    run == [] ||
    (Enabled(s, run[0]) && Disciplined(s, run[0]) && IsRun(Apply(s, run[0]), run[1..]))
  }

  ghost function Final(s: State, run: seq<Action>): State
    requires IsRun(s, run)
    decreases |run|
  {
    if run == [] then s else Final(Apply(s, run[0]), run[1..])
  }

  /** Mutual exclusion and no lost wakeup hold at the end of every run, hence after each of
      its steps, and the number of threads never changes. */
  lemma {:induction false} RunKeepsInv(s: State, run: seq<Action>)
    requires Inv(s) && IsRun(s, run)
    ensures Inv(Final(s, run)) && |Final(s, run).threads| == |s.threads|
    decreases |run|
  {
    if run != [] {
      StepSafeIff(s, run[0]);
      StepNoLostWakeup(s, run[0]);
      RunKeepsInv(Apply(s, run[0]), run[1..]);
    }
  }

  // ------------------------------------------------------------ termination

  /** Steps of progress a thread still owes: start, acquire, release and wake for every round. */
  function Work(th: Thread): nat {
    4 * th.rounds +
    match th.pc
    case Trying => 3 case Failed => 3 case Sleeping => 3
    case Holding => 2
    case Released => 1
    case Idle => 0 case Terminated => 0
  }

  /** How many failing steps a thread can take before the word changes. */
  function Rank(word: int, th: Thread): nat {
    match th.pc
    case Trying => if word == LOCKED then 2 else 0
    case Failed => 1
    case _ => 0
  }

  function TotalWork(ths: seq<Thread>): nat {
    if ths == [] then 0 else Work(ths[0]) + TotalWork(ths[1..])
  }

  function TotalRank(word: int, ths: seq<Thread>): nat {
    if ths == [] then 0 else Rank(word, ths[0]) + TotalRank(word, ths[1..])
  }

  lemma {:induction false} UpdateTotals(word: int, ths: seq<Thread>, t: nat, th: Thread)
    requires t < |ths|
    ensures TotalWork(ths[t := th]) == TotalWork(ths) - Work(ths[t]) + Work(th)
    ensures TotalRank(word, ths[t := th]) == TotalRank(word, ths) - Rank(word, ths[t]) + Rank(word, th)
  {
    if t == 0 {
      assert ths[t := th][1..] == ths[1..];
    } else {
      assert ths[t := th][1..] == ths[1..][t - 1 := th];
      UpdateTotals(word, ths[1..], t - 1, th);
    }
  }

  lemma {:induction false} TotalRankBound(word: int, ths: seq<Thread>)
    ensures TotalRank(word, ths) <= 2 * |ths|
  {
    if ths != [] { TotalRankBound(word, ths[1..]); }
  }

  function Measure(s: State): nat {
    (2 * |s.threads| + 1) * TotalWork(s.threads) + TotalRank(s.word, s.threads)
  }

  lemma LexicographicDecrease(n: nat, w: nat, r: nat, w': nat, r': nat)
    requires w' < w && r' <= 2 * n
    ensures (2 * n + 1) * w' + r' < (2 * n + 1) * w + r
  {
    assert (2 * n + 1) * w' <= (2 * n + 1) * (w - 1);
  }

  /** A step that neither makes progress nor undoes any: the word and the thread's work stay,
      and its rank tells what is left of its failing steps. */
  ghost predicate Idles(s: State, a: Action)
    requires Enabled(s, a)
  {
    a.Wait? || a.Spurious? || (a.Cas? && s.word == LOCKED)
  }

  lemma IdleThread(s: State, a: Action)
    requires Safe(s) && Enabled(s, a) && Idles(s, a)
    ensures a.t < |s.threads| == |Apply(s, a).threads|
    ensures var s', th := Apply(s, a), s.threads[a.t];
            && s'.word == s.word
            && s'.threads == s.threads[a.t := s'.threads[a.t]]
            && Work(s'.threads[a.t]) == Work(th)
            && Rank(s.word, s'.threads[a.t]) <= Rank(s.word, th) + (if a.Spurious? then 2 else -1)
  {
  }

  lemma IdleDecreases(s: State, a: Action)
    requires Safe(s) && Enabled(s, a) && Idles(s, a)
    ensures Measure(Apply(s, a)) <= Measure(s) + (if a.Spurious? then 2 else -1)
  {
    hide Safe, Enabled, Apply, Work, Rank, TotalWork, TotalRank, Idles;
    IdleThread(s, a);
    UpdateTotals(s.word, s.threads, a.t, Apply(s, a).threads[a.t]);
  }

  /** A thread that makes progress owes one step less. */
  lemma BusyThread(s: State, a: Action)
    requires Safe(s) && Enabled(s, a) && Disciplined(s, a) && !Idles(s, a) && !a.WakeOne?
    ensures a.t < |s.threads| == |Apply(s, a).threads|
    ensures var s', th := Apply(s, a), s.threads[a.t];
            && s'.threads == s.threads[a.t := s'.threads[a.t]]
            && Work(s'.threads[a.t]) < Work(th)
  {
    if a.Unlock? { assert s.word == LOCKED; }
    hide Safe;
  }

  lemma WakeOneWork(s: State, a: Action)
    requires Enabled(s, a) && a.WakeOne?
    ensures TotalWork(Apply(s, a).threads) < TotalWork(s.threads)
    ensures |Apply(s, a).threads| == |s.threads|
  {
    hide TotalWork, TotalRank;
    var ths := s.threads;
    var mid := ths[a.t := ths[a.t].(pc := Idle)];
    UpdateTotals(s.word, ths, a.t, mid[a.t]);
    UpdateTotals(s.word, mid, a.s, mid[a.s].(pc := Trying));
  }

  lemma BusyDecreases(s: State, a: Action)
    requires Safe(s) && Enabled(s, a) && Disciplined(s, a) && !Idles(s, a)
    ensures Measure(Apply(s, a)) < Measure(s)
  {
    hide Safe, Enabled, Apply, Work, Rank, TotalWork, TotalRank, Idles, Disciplined;
    var s' := Apply(s, a);
    if a.WakeOne? {
      WakeOneWork(s, a);
    } else {
      BusyThread(s, a);
      UpdateTotals(s.word, s.threads, a.t, s'.threads[a.t]);
    }
    TotalRankBound(s'.word, s'.threads);
    LexicographicDecrease(|s.threads|, TotalWork(s.threads), TotalRank(s.word, s.threads),
                          TotalWork(s'.threads), TotalRank(s'.word, s'.threads));
  }

  /** Every step other than a spurious return of FUTEX_WAIT makes the measure smaller. */
  lemma StepDecreases(s: State, a: Action)
    requires Safe(s) && Enabled(s, a) && Disciplined(s, a)
    ensures Measure(Apply(s, a)) <= Measure(s) + (if a.Spurious? then 2 else -1)
  {
    hide Safe, Enabled, Apply, Measure, Disciplined;
    if Idles(s, a) { IdleDecreases(s, a); } else { BusyDecreases(s, a); }
  }

  function SpuriousReturns(run: seq<Action>): nat {
    if run == [] then 0 else (if run[0].Spurious? then 1 else 0) + SpuriousReturns(run[1..])
  }

  /** Every run is finite: its length is bounded by the measure of its first state and the
      number of spurious returns in it. */
  lemma {:induction false} RunLength(s: State, run: seq<Action>)
    requires Safe(s) && IsRun(s, run)
    ensures |run| + Measure(Final(s, run)) <= Measure(s) + 3 * SpuriousReturns(run)
    decreases |run|
  {
    if run != [] {
      StepSafeIff(s, run[0]);
      StepDecreases(s, run[0]);
      RunLength(Apply(s, run[0]), run[1..]);
    }
  }

  // ------------------------------------------------- what a stopped run has done

  /** No thread can take a step of its own: the kernel may still interrupt a sleeper. */
  ghost predicate Stopped(s: State) {
    forall a: Action :: Enabled(s, a) && Disciplined(s, a) ==> a.Interrupt? || a.Spurious?
  }

  ghost predicate AllDone(s: State) {
    s.word == UNLOCKED && forall t: nat :: t < |s.threads| ==> s.threads[t] == Thread(Idle, 0)
  }

  /** A step some thread can take of its own as long as not everything is done. */
  lemma NextStep(s: State) returns (a: Action)
    requires Inv(s) && !AllDone(s)
    ensures Enabled(s, a) && Disciplined(s, a) && !a.Interrupt? && !a.Spurious?
  {
    if s.word == LOCKED {
      var h: nat :| At(s, h, Holding);
      return Unlock(h);
    }
    var t: nat :| t < |s.threads| && s.threads[t] != Thread(Idle, 0);
    assert At(s, t, s.threads[t].pc);
    if s.threads[t].pc == Sleeping {
      assert Somebody(s, Sleeping);
      if Somebody(s, Released) { t :| At(s, t, Released); }
      else if Somebody(s, Trying) { t :| At(s, t, Trying); }
      else { t :| At(s, t, Failed); }
    }
    match s.threads[t].pc {
      case Idle => a := Call(t);
      case Trying => a := Cas(t);
      case Failed => a := Wait(t);
      case Released =>
        if Somebody(s, Sleeping) {
          var z: nat :| At(s, z, Sleeping);
          a := WakeOne(t, z);
        } else {
          a := WakeNone(t);
        }
    }
  }

  /** There is no deadlock: a state that keeps the invariant is stopped exactly when the
      word is free and every thread has finished all its rounds. */
  lemma StoppedIffAllDone(s: State)
    requires Inv(s)
    ensures Stopped(s) <==> AllDone(s)
  {
    if !AllDone(s) {
      var a := NextStep(s);
    }
  }

  /** Acquisitions a thread still has to make. */
  function Owed(th: Thread): nat {
    th.rounds + if th.pc in {Trying, Failed, Sleeping} then 1 else 0
  }

  /** How often thread t acquires the mutex in a run. */
  ghost function Acquired(s: State, run: seq<Action>, t: nat): nat
    requires IsRun(s, run)
    decreases |run|
  {
    if run == [] then 0 else
    (if run[0] == Cas(t) && s.word == UNLOCKED then 1 else 0) + Acquired(Apply(s, run[0]), run[1..], t)
  }

  /** How often a call of lock() by thread t ends in an exception. */
  function Interrupted(run: seq<Action>, t: nat): nat {
    if run == [] then 0 else (if run[0] == Interrupt(t) then 1 else 0) + Interrupted(run[1..], t)
  }

  /** Rounds are conserved: what a thread acquired, lost to an interrupt and still owes
      adds up to what it owed at the start. */
  lemma {:induction false} RoundsConserved(s: State, run: seq<Action>, t: nat)
    requires IsRun(s, run) && t < |s.threads|
    ensures t < |Final(s, run).threads|
    ensures Acquired(s, run, t) + Interrupted(run, t) + Owed(Final(s, run).threads[t]) == Owed(s.threads[t])
    decreases |run|
  {
    if run != [] { RoundsConserved(Apply(s, run[0]), run[1..], t); }
  }

  ghost predicate Start(s: State) {
    s.word == UNLOCKED && forall t: nat :: t < |s.threads| ==> s.threads[t].pc == Idle
  }

  /** The main result. From a fresh mutex, with any number of threads and any number of rounds
      each, every run is finite; and a run that cannot be continued has freed the mutex and
      let every thread acquire it as often as it wanted, except for interrupted calls. */
  lemma EveryRunCompletes(s: State, run: seq<Action>)
    requires Start(s) && IsRun(s, run)
    ensures |run| <= (2 * |s.threads| + 1) * TotalWork(s.threads) + 3 * SpuriousReturns(run)
    ensures Stopped(Final(s, run)) <==> AllDone(Final(s, run))
    ensures Stopped(Final(s, run)) ==>
              forall t: nat :: t < |s.threads| ==>
                Acquired(s, run, t) + Interrupted(run, t) == s.threads[t].rounds
  {
    StartIs(s);
    hide Safe, NoLostWakeup, Stopped, IsRun, Final, Enabled, Apply, Measure, TotalWork, Acquired, Interrupted;
    RunLength(s, run);
    RunKeepsInv(s, run);
    StoppedIffAllDone(Final(s, run));
    forall t: nat | t < |s.threads| && Stopped(Final(s, run))
      ensures Acquired(s, run, t) + Interrupted(run, t) == s.threads[t].rounds
    {
      RoundsConserved(s, run, t);
    }
  }

  lemma StartIs(s: State)
    requires Start(s)
    ensures Inv(s) && Measure(s) == (2 * |s.threads| + 1) * TotalWork(s.threads)
  {
    StartRank(s.threads);
    hide TotalWork, TotalRank;
  }

  lemma {:induction false} StartRank(ths: seq<Thread>)
    requires forall t: nat :: t < |ths| ==> ths[t].pc == Idle
    ensures TotalRank(UNLOCKED, ths) == 0
  {
    if ths != [] { StartRank(ths[1..]); }
  }

  /** Why a creator must store the initial value before anyone else looks: a fresh segment is
      zero, which reads LOCKED; without the store nobody ever acquires, in any run.
      With it the word is free, and constructing again without isNew changes nothing. */
  lemma {:induction false} ZeroWordIsHeldForever(s: State, run: seq<Action>)
    requires s.word == Construct(0, false)
    requires !Somebody(s, Holding) && IsRun(s, run)
    ensures Final(s, run).word == LOCKED && !Somebody(Final(s, run), Holding)
    ensures Construct(0, true) == UNLOCKED
    decreases |run|
  {
    if run != [] {
      var s' := Apply(s, run[0]);
      assert forall u: nat :: At(s', u, Holding) ==> At(s, u, Holding);
      ZeroWordIsHeldForever(s', run[1..]);
    }
  }
}
