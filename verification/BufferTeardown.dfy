/** The manager's destructor in the process that leaves last: what its loop does to the table a run
    has left. The destructor recognises descriptors in use by their names. */
module BufferTeardown {
  import opened Common
  import opened CNames
  import opened DescriptorLists
  import opened BufferTable
  import opened BufferBook
  import opened BufferRuns

  // ---------------------------------------- free descriptors have no name and no key, in every run

  ghost predicate NoNames(maxLen: nat, ds: Descriptors, l: seq<int>) {
    forall j :: j in l && 0 <= j < |ds| ==> Name(ds[j].id, maxLen) == [] && ds[j].shmKey == 0
  }

  ghost predicate FreeBlank(s: State) {
    forall free, full :: Wf(s.t, free, full) ==> NoNames(s.maxLen, s.t.ds, free)
  }

  lemma FreeBlankFrom(s: State, free: seq<int>, full: seq<int>)
    requires Wf(s.t, free, full) && NoNames(s.maxLen, s.t.ds, free)
    ensures FreeBlank(s)
  {
    hide Wf, NoNames;
    forall free', full' | Wf(s.t, free', full') ensures NoNames(s.maxLen, s.t.ds, free') {
      ListsAreUnique(s.t, free, full, free', full');
    }
  }

  lemma BlankName(d: Descriptor, maxLen: nat)
    ensures Name(Blank(d).id, maxLen) == [] && Blank(d).shmKey == 0
  {
  }

  lemma CountKeepsBlank(s: State, s': State, i: int, count: nat, free: seq<int>, full: seq<int>)
    requires Wf(s.t, free, full) && NoNames(s.maxLen, s.t.ds, free) && 0 <= i < |s.t.ds|
    requires s'.maxLen == s.maxLen && s'.t == WithPayload(s.t, i, s.t.ds[i].(refCount := count))
    ensures FreeBlank(s')
  {
    PayloadKeepsLists(s.t, i, s.t.ds[i].(refCount := count), free, full);
    assert NoNames(s.maxLen, s'.t.ds, free);
    hide Wf, NoNames, WithPayload;
    FreeBlankFrom(s', free, full);
  }

  lemma ReleaseKeepsBlank(code: Code, s: State, h: nat, free: seq<int>, full: seq<int>)
    requires Shaped(ViewOf(s, 0)) && Explains(s, free, full) && NoNames(s.maxLen, s.t.ds, free)
    requires IsLive(s, h) && MayRelease(code, s, h)
    ensures FreeBlank(Release(code, s, h))
  {
    hide Wf, Explains, Shaped, Release, Put, WithPayload, InRange, Name, BookOf;
    ExplainsLists(s, free, full);
    LiveHandle(s, h, free, full);
    ReleaseIs(code, s, h);
    var i := s.handles[h].at.desc;
    var s' := Release(code, s, h);
    if s.t.ds[i].refCount == 1 {
      var free', full' := DropLast(code, s, i, free, full);
      BlankName(s.t.ds[i], s.maxLen);
      FreeBlankFrom(s', free', full');
    } else {
      CountKeepsBlank(s, s', i, s.t.ds[i].refCount - 1, free, full);
    }
  }

  lemma DropKeepsBlank(code: Code, s: State, h: nat, free: seq<int>, full: seq<int>)
    requires Shaped(ViewOf(s, 0)) && Explains(s, free, full) && NoNames(s.maxLen, s.t.ds, free)
    requires HasFields(s, h) && MayDrop(s, s.handles[h].at.desc)
    ensures FreeBlank(Release(code, s, h))
  {
    hide Wf, Explains, Shaped, Release, Name, BookOf;
    var i := s.handles[h].at.desc;
    FullIffReferred(s, i, free, full);
    var free' := DropIs(code, s, h, free, full);
    BlankName(s.t.ds[i], s.maxLen);
    FreeBlankFrom(Release(code, s, h), free', full);
  }

  lemma FreeKeepsBlank(code: Code, s: State, h: nat, free: seq<int>, full: seq<int>)
    requires Shaped(ViewOf(s, 0)) && Explains(s, free, full) && NoNames(s.maxLen, s.t.ds, free)
    requires HasFields(s, h) && MayFree(code, s, h)
    ensures FreeBlank(Release(code, s, h))
  {
    hide Explains, Shaped, Release, FreeBlank, NoNames, MayRelease, MayDrop;
    if s.handles[h].Live? {
      ReleaseKeepsBlank(code, s, h, free, full);
    } else {
      DropKeepsBlank(code, s, h, free, full);
    }
  }

  lemma ShareKeepsBlank(s: State, h: nat, o: nat, free: seq<int>, full: seq<int>)
    requires Wf(s.t, free, full) && NoNames(s.maxLen, s.t.ds, free) && HasFields(s, o)
    ensures FreeBlank(Share(s, h, o))
  {
    hide Wf, NoNames, WithPayload, Share;
    ShareIs(s, h, o);
    var i := s.handles[o].at.desc;
    CountKeepsBlank(s, Share(s, h, o), i, s.t.ds[i].refCount + 1, free, full);
  }

  lemma GetKeepsBlank(code: Code, s: State, op: Op, free: seq<int>, full: seq<int>)
    requires op.GetBuffer? && Enabled(s, op) && Guard(code, s, op) && Shaped(ViewOf(s, op.p))
    requires Explains(s, free, full) && NoNames(s.maxLen, s.t.ds, free)
    ensures FreeBlank(Step(code, s, op))
  {
    hide Wf, Explains, Shaped, Step, Create, Map, Lookup, WithPayload, Name, Take, BookOf, NewDescriptor;
    StepGets(code, s, op);
    ShapedInRange(s, op.p);
    ExplainsLists(s, free, full);
    LookupInBook(s, op.p, op.id, free, full);
    NothingFree(s.t, free, full);
    var i := Lookup(ViewOf(s, op.p), op.id);
    var s' := Step(code, s, op);
    if i >= 0 {
      MapIs(s, op.p, i, op.attached, free, full);
      if s'.t == s.t {
        FreeBlankFrom(s', free, full);
      } else {
        CountKeepsBlank(s, s', i, s.t.ds[i].refCount + 1, free, full);
      }
    } else {
      CreateIs(s, op.p, op.id, op.bytes, op.key, op.attached, free, full);
      if op.bytes == 0 || free == [] {
        FreeBlankFrom(s', free, full);
      } else {
        var d := NewDescriptor(s, op.id, Take(s.t).0.ds[free[0]].id, op.bytes, op.key);
        TakenKeepsBlank(s, s', d.(refCount := 1), free, full);
      }
    }
  }

  lemma TakenKeepsBlank(s: State, s': State, d: Descriptor, free: seq<int>, full: seq<int>)
    requires InRange(s.t) && Wf(s.t, free, full) && NoNames(s.maxLen, s.t.ds, free) && free != []
    requires Take(s.t).1 == free[0] && 0 <= free[0] < |s.t.ds|
    requires s'.maxLen == s.maxLen && s'.t == WithPayload(Take(s.t).0, free[0], d)
    ensures FreeBlank(s')
  {
    hide Wf, Take, InRange, Name;
    TakeForNew(s, d, free, full);
    TakeWf(s.t, free, full);
    HeadNotInRest(s.t, free, full);
    assert forall j :: j in free[1..] ==> j in free;
    FreeBlankFrom(s', free[1..], [free[0]] + full);
  }

  lemma HeadNotInRest(t: Table, free: seq<int>, full: seq<int>)
    requires Wf(t, free, full) && free != []
    ensures free[0] !in free[1..]
  {
  }

  /** Every call keeps it, under the same guard as the main invariant. */
  lemma StepKeepsBlank(code: Code, s: State, op: Op)
    requires Inv(s) && FreeBlank(s) && Enabled(s, op) && Guard(code, s, op)
    ensures FreeBlank(Step(code, s, op))
  {
    hide Consistent, Share, Release, Get, MayFree, StillThere, Lookup, NoNames, Wf, Shaped;
    var free, full :| Explains(s, free, full);
    hide Explains, Inv;
    match op {
      case Default(h, p) => FreeBlankFrom(Step(code, s, op), free, full);
      case SetWord(key, word) => FreeBlankFrom(Step(code, s, op), free, full);
      case GetBuffer(_, p, _, _, _, _) => ShapedForAll(s, 0, p); GetKeepsBlank(code, s, op, free, full);
      case Copy(h, o) => ShareKeepsBlank(s, h, o, free, full);
      case AssignThrow(h, o) => FreeBlankFrom(Step(code, s, op), free, full);
      case Destroy(h) => FreeKeepsBlank(code, s, h, free, full);
      case AssignFree(h) => FreeKeepsBlank(code, s, h, free, full);
      case AssignCopy(h, o) => ShareKeepsBlank(s, h, o, free, full);
    }
  }

  // ------------------------------------------------------------------ the loop

  lemma TeardownStep(v: View, i: int, free: seq<int>, full: seq<int>) returns (free': seq<int>, full': seq<int>)
    requires Shaped(v) && Wf(v.t, free, full) && i in full && 0 <= i < |v.t.ds|
    ensures var v' := Detach(Repaired, v, i);
            && Wf(v'.t, free', full') && free' == [i] + free
            && (forall j :: j in full' <==> j in full && j != i)
            && (forall j :: 0 <= j < |v.t.ds| && j != i ==> v'.t.ds[j].id == v.t.ds[j].id)
            && Name(v'.t.ds[i].id, v.maxLen) == [] && v'.t.ds[i].shmKey == 0
            && (forall j :: 0 <= j < |v.t.ds| && j != i ==> v'.t.ds[j].shmKey == v.t.ds[j].shmKey)
  {
    hide Wf, Shaped, Put, Name;
    var a, b := FindNode(v.t, free, full, i);
    free', full' := [i] + free, a + b;
    PutWf(Repaired, v.t, free, a, i, b);
    BlankName(v.t.ds[i], v.maxLen);
  }

  /** With the repair, the loop takes exactly the named descriptors off the full list. */
  lemma {:induction false} TeardownLoop(v: View, i: nat, free: seq<int>, full: seq<int>)
    returns (free': seq<int>, full': seq<int>)
    requires Shaped(v) && Wf(v.t, free, full) && i <= |v.t.ds|
    requires NoNames(v.maxLen, v.t.ds, free)
    ensures Wf(TeardownFrom(Repaired, v, i).t, free', full')
    ensures forall j :: j in full' <==> j in full && 0 <= j < |v.t.ds| && (j < i || NameAt(v, j) == [])
    decreases |v.t.ds| - i
  {
    InTable(v.t, free, full);
    hide Wf, Detach, Name;
    if i == |v.t.ds| {
      free', full' := free, full;
    } else {
      NameTest(v, i);
      if CharAt(v.t.ds[i].id, 0) == NUL {
        free', full' := TeardownLoop(v, i + 1, free, full);
      } else {
        var free1, full1 := TeardownStep(v, i, free, full);
        free', full' := TeardownLoop(Detach(Repaired, v, i), i + 1, free1, full1);
      }
    }
  }

  lemma InTable(t: Table, free: seq<int>, full: seq<int>)
    requires Wf(t, free, full)
    ensures forall j :: 0 <= j < |t.ds| <==> j in free || j in full
    ensures t.nextFull == -1 <==> full == []
  {
    FullInRange(t, free, full);
  }

  lemma NameTest(v: View, i: int)
    requires Shaped(v) && 0 <= i < |v.t.ds|
    ensures CharAt(v.t.ds[i].id, 0) == NUL <==> NameAt(v, i) == []
  {
  }

  /** As written, the loop never moves the head of the full list. */
  lemma {:induction false} TeardownKeepsHead(v: View, i: nat)
    requires Shaped(v) && i <= |v.t.ds|
    ensures TeardownFrom(AsWritten, v, i).t.nextFull == v.t.nextFull
    decreases |v.t.ds| - i
  {
    if i < |v.t.ds| {
      if CharAt(v.t.ds[i].id, 0) == NUL {
        TeardownKeepsHead(v, i + 1);
      } else {
        TeardownKeepsHead(Detach(AsWritten, v, i), i + 1);
      }
    }
  }

  /** From any table a run can leave, teardown ends with an empty full list exactly when, repaired, no
      buffer in use has the empty name, and, as written, no buffer was in use to begin with. When the
      repaired loop empties the full list, the free list holds every descriptor once. */
  lemma TeardownEmptiesIff(code: Code, s: State, p: nat, free: seq<int>, full: seq<int>)
    requires Inv(s) && FreeBlank(s) && Explains(s, free, full)
    ensures Shaped(ViewOf(s, p))
    ensures forall j :: j in full ==> 0 <= j < |s.t.ds|
    ensures var t' := TeardownFrom(code, ViewOf(s, p), 0).t;
            && (t'.nextFull == -1 <==>
                  if code.Repaired? then forall j :: j in full ==> NameAt(ViewOf(s, p), j) != [] else full == [])
            && (code.Repaired? && t'.nextFull == -1 ==> exists free' :: Wf(t', free', []) && |free'| == |s.t.ds|)
  {
    ShapedForAll(s, 0, p);
    var v := ViewOf(s, p);
    ExplainsLists(s, free, full);
    InTable(s.t, free, full);
    hide Inv, Explains, Wf, Shaped, TeardownFrom, Name;
    if code.AsWritten? {
      TeardownKeepsHead(v, 0);
    } else {
      var free', full' := TeardownLoop(v, 0, free, full);
      var t' := TeardownFrom(code, v, 0).t;
      InTable(t', free', full');
      if full' == [] {
        FreeIsAll(t', free');
      } else {
        assert full'[0] in full';
      }
    }
  }

  lemma FreeIsAll(t: Table, free: seq<int>)
    requires Wf(t, free, [])
    ensures |free| == |t.ds|
  {
    PartitionCounts(|t.ds|, free, []);
  }

  lemma {:induction false} RunKeepsBlank(code: Code, s: State, ops: seq<Op>)
    requires Inv(s) && FreeBlank(s) && IsRun(code, s, ops)
    ensures Inv(Final(code, s, ops)) && FreeBlank(Final(code, s, ops))
    decreases |ops|
  {
    hide Inv, Step, Guard, Enabled, FreeBlank;
    if ops != [] {
      StepKeepsIff(code, s, ops[0]);
      StepKeepsBlank(code, s, ops[0]);
      RunKeepsBlank(code, Step(code, s, ops[0]), ops[1..]);
    }
  }

  /** The same after every run from a fresh table: with the repair and without empty names, whatever
      handles are still alive, teardown returns every descriptor. */
  lemma EveryRunTearsDown(n: nat, maxLen: nat, segments: map<int, Segment>, next: nat, ops: seq<Op>, p: nat)
    requires n > 0 && maxLen > 0 && SegmentsOk(map[], segments, next)
    requires IsRun(Repaired, Fresh(n, maxLen, segments, next), ops)
    ensures var s := Final(Repaired, Fresh(n, maxLen, segments, next), ops);
            && Shaped(ViewOf(s, p))
            && ((forall j :: 0 <= j < |s.t.ds| && s.t.ds[j].refCount > 0 ==> NameAt(ViewOf(s, p), j) != []) ==>
                  exists free :: Wf(TeardownFrom(Repaired, ViewOf(s, p), 0).t, free, []) && |free| == |s.t.ds|)
  {
    FreshInv(n, maxLen, segments, next);
    FreshBlank(n, maxLen, segments, next);
    RunKeepsBlank(Repaired, Fresh(n, maxLen, segments, next), ops);
    var s := Final(Repaired, Fresh(n, maxLen, segments, next), ops);
    var free, full :| Explains(s, free, full);
    hide Explains, Wf, Inv, FreeBlank, Shaped, TeardownFrom, Final, IsRun, Name;
    ExplainsCovers(s, free, full);
    TeardownEmptiesIff(Repaired, s, p, free, full);
  }

  lemma FreshBlank(n: nat, maxLen: nat, segments: map<int, Segment>, next: nat)
    requires n > 0 && maxLen > 0
    ensures FreeBlank(Fresh(n, maxLen, segments, next))
  {
    var s := Fresh(n, maxLen, segments, next);
    InitialWf(n, maxLen);
    FreeBlankFrom(s, UpTo(n), []);
  }
}
