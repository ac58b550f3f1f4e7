/** What lock() and unlock() (src/IPC_Mutex.cpp) offer each thread, whatever the others do: which step it can
    take where it stands, and what that step makes of the word and of the threads. */
module FutexProgress {
  import opened FutexMutex

  /** Only the word and thread t change. */
  predicate Becomes(s: State, t: nat, word: int, th: Thread, s': State) {
    t < |s.threads| == |s'.threads| && s'.word == word && s'.threads[t] == th
    && forall u: nat :: u < |s.threads| && u != t ==> s'.threads[u] == s.threads[u]
  }

  /** lock() is entered by any idle thread that wants it. */
  lemma Calls(s: State, t: nat)
    requires t < |s.threads| && s.threads[t].pc == Idle && s.threads[t].rounds > 0
    ensures Enabled(s, Call(t)) && Disciplined(s, Call(t))
    ensures Becomes(s, t, s.word, Thread(Trying, s.threads[t].rounds - 1), Apply(s, Call(t)))
  {
  }

  /** Its compare-and-swap can be made whatever the word is: it takes a free word, and fails at any other. */
  lemma Tries(s: State, t: nat)
    requires t < |s.threads| && s.threads[t].pc == Trying
    ensures Enabled(s, Cas(t)) && Disciplined(s, Cas(t))
    ensures s.word == 1 ==> Becomes(s, t, 0, Thread(Holding, s.threads[t].rounds), Apply(s, Cas(t)))
    ensures s.word != 1 ==> Becomes(s, t, s.word, Thread(Failed, s.threads[t].rounds), Apply(s, Cas(t)))
  {
  }

  /** FUTEX_WAIT puts the thread to sleep while the word is LOCKED, and otherwise sends it back. */
  lemma Waits(s: State, t: nat)
    requires t < |s.threads| && s.threads[t].pc == Failed
    ensures Enabled(s, Wait(t)) && Disciplined(s, Wait(t))
    ensures Becomes(s, t, s.word, Thread(if s.word == 0 then Sleeping else Trying, s.threads[t].rounds),
                    Apply(s, Wait(t)))
  {
  }

  /** A sleeper can be interrupted, which ends its call, or return for no reason. */
  lemma Sleeps(s: State, t: nat)
    requires t < |s.threads| && s.threads[t].pc == Sleeping
    ensures Enabled(s, Interrupt(t)) && Disciplined(s, Interrupt(t))
    ensures Becomes(s, t, s.word, Thread(Idle, s.threads[t].rounds), Apply(s, Interrupt(t)))
    ensures Enabled(s, Spurious(t)) && Disciplined(s, Spurious(t))
    ensures Becomes(s, t, s.word, Thread(Trying, s.threads[t].rounds), Apply(s, Spurious(t)))
  {
  }

  /** A holder frees the word. */
  lemma Frees(s: State, t: nat)
    requires t < |s.threads| && s.threads[t].pc == Holding
    ensures Enabled(s, Unlock(t)) && Disciplined(s, Unlock(t))
    ensures s.word == 0 ==> Becomes(s, t, 1, Thread(Released, s.threads[t].rounds), Apply(s, Unlock(t)))
  {
  }

  /** Then it wakes any one of the sleepers, or nobody when nobody sleeps. */
  lemma Wakes(s: State, t: nat)
    requires t < |s.threads| && s.threads[t].pc == Released
    ensures forall z: nat :: z < |s.threads| && s.threads[z].pc == Sleeping ==>
              && Enabled(s, WakeOne(t, z)) && Disciplined(s, WakeOne(t, z))
              && var mid := s.(threads := s.threads[t := Thread(Idle, s.threads[t].rounds)]);
                 Becomes(mid, z, s.word, Thread(Trying, s.threads[z].rounds), Apply(s, WakeOne(t, z)))
    ensures (forall z: nat :: z < |s.threads| ==> s.threads[z].pc != Sleeping) ==>
              && Enabled(s, WakeNone(t)) && Disciplined(s, WakeNone(t))
              && Becomes(s, t, s.word, Thread(Idle, s.threads[t].rounds), Apply(s, WakeNone(t)))
  {
  }

  /** No thread waits for another to let it take its next step, except asleep: in every state a thread that is not
      finished, not terminated and not asleep has a step of its own. */
  lemma EachGoesOn(s: State, t: nat) returns (a: Action)
    requires t < |s.threads| && s.threads[t].pc != Terminated && s.threads[t].pc != Sleeping
    requires s.threads[t].pc == Idle ==> s.threads[t].rounds > 0
    ensures Enabled(s, a) && Disciplined(s, a) && a.t == t && !a.Interrupt? && !a.Spurious?
    ensures |Apply(s, a).threads| == |s.threads| && Apply(s, a).threads[t] != s.threads[t]
  {
    match s.threads[t].pc {
      case Idle => Calls(s, t); a := Call(t);
      case Trying => Tries(s, t); a := Cas(t);
      case Failed => Waits(s, t); a := Wait(t);
      case Holding => Frees(s, t); a := Unlock(t);
      case Released =>
        Wakes(s, t);
        if z: nat :| z < |s.threads| && s.threads[z].pc == Sleeping {
          a := WakeOne(t, z);
        } else {
          a := WakeNone(t);
        }
    }
  }

  /** lock() at a held word, when nobody moves in between: the compare-and-swap fails, and the thread sleeps. */
  lemma ContendedLockSleeps(s: State, t: nat)
    requires t < |s.threads| && s.threads[t].pc == Trying && s.word == LOCKED
    ensures IsRun(s, [Cas(t), Wait(t)])
    ensures Becomes(s, t, LOCKED, Thread(Sleeping, s.threads[t].rounds), Final(s, [Cas(t), Wait(t)]))
  {
    Tries(s, t);
    var s1 := Apply(s, Cas(t));
    Waits(s1, t);
    assert IsRun(s, []) && Final(s, []) == s;
    hide Enabled, Apply, IsRun, Final;
    Moves(s, [], Cas(t), s, s1);
    Moves(s, [Cas(t)], Wait(t), s1, Apply(s1, Wait(t)));
    assert [] + [Cas(t)] == [Cas(t)] && [Cas(t)] + [Wait(t)] == [Cas(t), Wait(t)];
  }

  // --------------------------------------------------------- a run in which a thread sleeps and is woken

  lemma {:induction false} RunThen(s: State, run: seq<Action>, a: Action)
    requires IsRun(s, run) && Enabled(Final(s, run), a) && Disciplined(Final(s, run), a)
    ensures IsRun(s, run + [a]) && Final(s, run + [a]) == Apply(Final(s, run), a)
    decreases |run|
  {
    hide Apply, Enabled, Disciplined;
    if run == [] {
      assert [a][1..] == [] && [] + [a] == [a];
      assert IsRun(Apply(s, a), []);
    } else {
      assert (run + [a])[0] == run[0] && (run + [a])[1..] == run[1..] + [a];
      RunThen(Apply(s, run[0]), run[1..], a);
    }
  }

  /** The same state with other words for the first two threads. */
  function With(s: State, word: int, a: Pc, m: nat, b: Pc, n: nat): State
    requires |s.threads| >= 2
  {
    State(word, s.threads[0 := Thread(a, m)][1 := Thread(b, n)])
  }

  lemma Moves(s: State, run: seq<Action>, a: Action, from: State, to: State)
    requires IsRun(s, run) && Final(s, run) == from && Enabled(from, a) && Disciplined(from, a) && Apply(from, a) == to
    ensures IsRun(s, run + [a]) && Final(s, run + [a]) == to
  {
    hide Enabled, Apply, Disciplined, IsRun, Final;
    RunThen(s, run, a);
  }

  /** From any fresh mutex that two threads want: one locks, the other comes, fails and sleeps, the first unlocks and
      wakes it, and it acquires the mutex. */
  lemma SleeperIsWoken(s: State)
    requires Start(s) && |s.threads| >= 2 && s.threads[0].rounds > 0 && s.threads[1].rounds > 0
    ensures var asleep := [Call(0), Cas(0), Call(1), Cas(1), Wait(1)];
            var woken := asleep + [Unlock(0), WakeOne(0, 1)];
            && IsRun(s, asleep) && At(Final(s, asleep), 0, Holding) && At(Final(s, asleep), 1, Sleeping)
            && IsRun(s, woken) && At(Final(s, woken), 0, Idle) && At(Final(s, woken), 1, Trying)
            && IsRun(s, woken + [Cas(1)]) && At(Final(s, woken + [Cas(1)]), 1, Holding)
  {
    hide IsRun, Final;
    var asleep := GoesToSleep(s);
    var m, n := s.threads[0].rounds - 1, s.threads[1].rounds - 1;
    var s5 := With(s, LOCKED, Holding, m, Sleeping, n);
    Frees(s5, 0);
    Moves(s, asleep, Unlock(0), s5, With(s, UNLOCKED, Released, m, Sleeping, n));
    Wakes(With(s, UNLOCKED, Released, m, Sleeping, n), 0);
    Moves(s, asleep + [Unlock(0)], WakeOne(0, 1), With(s, UNLOCKED, Released, m, Sleeping, n),
          With(s, UNLOCKED, Idle, m, Trying, n));
    assert asleep + [Unlock(0)] + [WakeOne(0, 1)] == asleep + [Unlock(0), WakeOne(0, 1)];
    Tries(With(s, UNLOCKED, Idle, m, Trying, n), 1);
    Moves(s, asleep + [Unlock(0), WakeOne(0, 1)], Cas(1), With(s, UNLOCKED, Idle, m, Trying, n),
          With(s, LOCKED, Idle, m, Holding, n));
  }

  lemma GoesToSleep(s: State) returns (run: seq<Action>)
    requires Start(s) && |s.threads| >= 2 && s.threads[0].rounds > 0 && s.threads[1].rounds > 0
    ensures run == [Call(0), Cas(0), Call(1), Cas(1), Wait(1)] && IsRun(s, run)
    ensures Final(s, run) == With(s, LOCKED, Holding, s.threads[0].rounds - 1, Sleeping, s.threads[1].rounds - 1)
  {
    assert IsRun(s, []) && Final(s, []) == s;
    hide IsRun, Final;
    var m, n := s.threads[0].rounds - 1, s.threads[1].rounds - 1;
    var s1, s2 := With(s, UNLOCKED, Trying, m, Idle, n + 1), With(s, LOCKED, Holding, m, Idle, n + 1);
    assert s.threads[0 := Thread(Trying, m)] == s1.threads;
    Moves(s, [], Call(0), s, s1);
    Moves(s, [Call(0)], Cas(0), s1, s2);
    run := [Call(0)] + [Cas(0)];
    var s3 := With(s, LOCKED, Holding, m, Trying, n);
    Moves(s, run, Call(1), s2, s3);
    var s4 := With(s, LOCKED, Holding, m, Failed, n);
    Moves(s, run + [Call(1)], Cas(1), s3, s4);
    run := run + [Call(1)] + [Cas(1)];
    Moves(s, run, Wait(1), s4, With(s, LOCKED, Holding, m, Sleeping, n));
    run := run + [Wait(1)];
  }
}
