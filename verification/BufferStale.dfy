/** A run that ends with a stale object: two processes share a buffer, both let go of it, and the next buffer
    in the same descriptor is handed to one of them at the address of the first. */
module BufferStale {
  import opened Common
  import opened CNames
  import opened DescriptorLists
  import opened BufferTable
  import opened BufferBook
  import opened BufferRuns
  import opened BufferDirectory
  import opened BufferCurrency
  import FutexMutex

  /** A new name, and a descriptor and a key for it. */
  lemma Creates(code: Code, s: State, op: Op, free: seq<int>, full: seq<int>)
    requires Shaped(ViewOf(s, 0)) && Explains(s, free, full) && free != []
    requires op.GetBuffer? && op.h !in s.handles && 0 < op.bytes < SIZE_T && op.attached && op.key !in s.segments
    requires forall j :: j in BookOf(s.maxLen, s.t, full) ==>
               BookOf(s.maxLen, s.t, full)[j].name != Name(op.id, s.maxLen)
    ensures Enabled(s, op) && Guard(code, s, op)
    ensures var s', i := Step(code, s, op), free[0];
            && Shaped(ViewOf(s', 0)) && Explains(s', free[1..], [i] + full) && s'.maxLen == s.maxLen
            && i !in BookOf(s.maxLen, s.t, full)
            && BookOf(s'.maxLen, s'.t, [i] + full) ==
                 BookOf(s.maxLen, s.t, full)[i := Record(op.key, op.bytes, 1, Name(op.id, s.maxLen))]
            && s'.segments == s.segments[op.key := Segment(s.nextNumber, SegmentBytes(op.bytes), FutexMutex.UNLOCKED)]
            && s'.nextNumber == s.nextNumber + 1
            && s'.caches == s.caches[op.p := CacheOf(s.caches, op.p)[i := s.nextNumber]]
            && s'.handles == s.handles[op.h := Live(op.p, Attached(i, op.bytes, s.nextNumber, true))]
  {
    hide Explains, Wf, BookOf, Shaped, Lookup, SegmentBytes, Name, Step, Handed;
    EnabledShaped(s, op);
    LookupInBook(s, op.p, op.id, free, full);
    assert Enabled(s, op) && Guard(code, s, op);
    CreateBook(code, s, op, free, full);
    ExplainsInv(s, 0, free, full);
    StepKeepsIff(code, s, op);
    InvOk(Step(code, s, op), free[1..], [free[0]] + full);
  }

  /** The name of the buffer in descriptor i, asked for by another process. */
  lemma Maps(code: Code, s: State, op: Op, i: int, free: seq<int>, full: seq<int>)
    requires Shaped(ViewOf(s, 0)) && Explains(s, free, full) && i in BookOf(s.maxLen, s.t, full)
    requires op.GetBuffer? && op.h !in s.handles && op.bytes < SIZE_T && op.attached
    requires BookOf(s.maxLen, s.t, full)[i].name == Name(op.id, s.maxLen)
    ensures Enabled(s, op) && Guard(code, s, op)
    ensures 0 <= i < |s.t.ds| && s.t.ds[i].shmKey == BookOf(s.maxLen, s.t, full)[i].key
    ensures s.t.ds[i].shmKey in s.segments
    ensures var s', number, book := Step(code, s, op), NumberFor(s, op.p, i), BookOf(s.maxLen, s.t, full);
            && Shaped(ViewOf(s', 0)) && Explains(s', free, full) && SameSegments(s, s')
            && BookOf(s'.maxLen, s'.t, full) == book[i := book[i].(count := book[i].count + 1)]
            && s'.caches == s.caches[op.p := CacheOf(s.caches, op.p)[i := number]]
            && s'.handles == s.handles[op.h := Live(op.p, Attached(i, book[i].size, number, false))]
  {
    hide Explains, Wf, BookOf, Shaped, Lookup, SegmentBytes, Name, Step, NumberFor, Map, RecordOf;
    EnabledShaped(s, op);
    LookupIs(s, op.p, op.id, i, free, full);
    assert Enabled(s, op) && Guard(code, s, op);
    ExplainsLists(s, free, full);
    MapBook(code, s, op, i, free, full);
    MapIs(s, op.p, i, true, free, full);
    ExplainsInv(s, 0, free, full);
    StepKeepsIff(code, s, op);
    InvOk(Step(code, s, op), free, full);
  }

  lemma LookupIs(s: State, p: nat, id: seq<char>, i: int, free: seq<int>, full: seq<int>)
    requires Shaped(ViewOf(s, p)) && Explains(s, free, full) && i in BookOf(s.maxLen, s.t, full)
    requires BookOf(s.maxLen, s.t, full)[i].name == Name(id, s.maxLen)
    ensures Lookup(ViewOf(s, p), id) == i && i in full && 0 <= i < |s.t.ds|
  {
    hide Explains, Wf, BookOf, Shaped, Lookup, Name;
    LookupInBook(s, p, id, free, full);
    ConsistentNames(s, free, full);
  }

  /** An object dies, with the repaired return to the free list. */
  lemma Destroys(s: State, h: nat, free: seq<int>, full: seq<int>) returns (free': seq<int>, full': seq<int>)
    requires Shaped(ViewOf(s, 0)) && Explains(s, free, full) && h in s.handles && s.handles[h].Live?
    ensures Enabled(s, Destroy(h)) && Guard(Repaired, s, Destroy(h))
    ensures var s', i, p := Step(Repaired, s, Destroy(h)), s.handles[h].at.desc, s.handles[h].proc;
            var book := BookOf(s.maxLen, s.t, full);
            && Shaped(ViewOf(s', 0)) && Explains(s', free', full') && s'.maxLen == s.maxLen
            && s'.nextNumber == s.nextNumber && s'.handles == s.handles - {h} && i in book
            && if book[i].count == 1 then
                 && BookOf(s.maxLen, s'.t, full') == book - {i} && free' == [i] + free
                 && s'.segments == s.segments - {book[i].key}
                 && s'.caches == s.caches[p := CacheOf(s.caches, p) - {i}]
               else
                 && BookOf(s.maxLen, s'.t, full') == book[i := book[i].(count := book[i].count - 1)]
                 && free' == free && s'.segments == s.segments && s'.caches == s.caches[p := CacheOf(s.caches, p)]
  {
    hide Explains, Wf, BookOf, Shaped, Release, NameOfHandle;
    LiveInTable(s, h, free, full);
    ExplainsInv(s, 0, free, full);
    StepKeepsIff(Repaired, s, Destroy(h));
    free', full' := ReleaseBook(Repaired, s, h, free, full);
    InvOk(Step(Repaired, s, Destroy(h)), free', full');
  }

  lemma {:induction false} RunAppend(code: Code, s: State, ops: seq<Op>, more: seq<Op>)
    requires IsRun(code, s, ops) && IsRun(code, Final(code, s, ops), more)
    ensures IsRun(code, s, ops + more) && Final(code, s, ops + more) == Final(code, Final(code, s, ops), more)
    decreases |ops|
  {
    hide Step, Guard, Enabled;
    if ops == [] {
      assert ops + more == more;
    } else {
      assert (ops + more)[0] == ops[0] && (ops + more)[1..] == ops[1..] + more;
      RunAppend(code, Step(code, s, ops[0]), ops[1..], more);
    }
  }

  lemma RunOne(code: Code, s: State, op: Op)
    requires Enabled(s, op) && Guard(code, s, op)
    ensures IsRun(code, s, [op]) && Final(code, s, [op]) == Step(code, s, op)
  {
    hide Step, Guard, Enabled;
    assert [op][1..] == [];
    assert IsRun(code, Step(code, s, op), []);
  }

  lemma RunTwo(code: Code, s: State, op: Op, op': Op)
    requires Enabled(s, op) && Guard(code, s, op)
    requires Enabled(Step(code, s, op), op') && Guard(code, Step(code, s, op), op')
    ensures IsRun(code, s, [op, op']) && Final(code, s, [op, op']) == Step(code, Step(code, s, op), op')
  {
    hide Step, Guard, Enabled;
    RunOne(code, s, op);
    RunOne(code, Step(code, s, op), op');
    RunAppend(code, s, [op], [op']);
    assert [op] + [op'] == [op, op'];
  }

  /** p gets a new buffer, and q gets it too. */
  function BothGet(p: nat, q: nat, a: nat, b: nat, id: seq<char>, bytes: nat, key: int): seq<Op> {
    [GetBuffer(a, p, id, bytes, key, true), GetBuffer(b, q, id, bytes, key, true)]
  }

  /** Then q and, after it, p destroy their objects. */
  function SharedOnce(p: nat, q: nat, a: nat, b: nat, id: seq<char>, bytes: nat, key: int): seq<Op> {
    BothGet(p, q, a, b, id, bytes, key) + [Destroy(b), Destroy(a)]
  }

  /** Nobody has a buffer of that name, and a, b name no objects. */
  ghost predicate NewTo(s: State, full: seq<int>, a: nat, b: nat, id: seq<char>, bytes: nat, key: int) {
    && a != b && a !in s.handles && b !in s.handles && 0 < bytes < SIZE_T && key !in s.segments
    && forall j :: j in BookOf(s.maxLen, s.t, full) ==> BookOf(s.maxLen, s.t, full)[j].name != Name(id, s.maxLen)
  }

  /** Sharing a buffer once and giving it back restores everything but the cache of the process that was not
      the last: that keeps the number of a segment that is gone. */
  lemma SharedOnceLeavesStale(s: State, p: nat, q: nat, a: nat, b: nat, id: seq<char>, bytes: nat, key: int,
                              free: seq<int>, full: seq<int>) returns (full': seq<int>)
    requires Shaped(ViewOf(s, 0)) && Explains(s, free, full) && free != [] && p != q
    requires NewTo(s, full, a, b, id, bytes, key) && free[0] !in CacheOf(s.caches, q)
    ensures IsRun(Repaired, s, SharedOnce(p, q, a, b, id, bytes, key))
    ensures var s' := Final(Repaired, s, SharedOnce(p, q, a, b, id, bytes, key));
            && Shaped(ViewOf(s', 0)) && Explains(s', free, full') && s'.maxLen == s.maxLen
            && BookOf(s'.maxLen, s'.t, full') == BookOf(s.maxLen, s.t, full)
            && s'.segments == s.segments && s'.handles == s.handles && s'.nextNumber == s.nextNumber + 1
            && CacheOf(s'.caches, q) == CacheOf(s.caches, q)[free[0] := s.nextNumber]
  {
    hide Explains, Wf, BookOf, Shaped, Name, Step, Guard, Enabled, IsRun, Final, SegmentBytes, CacheOf;
    var i := free[0];
    var gets := BothGet(p, q, a, b, id, bytes, key);
    Shares(Repaired, s, p, q, a, b, id, bytes, key, free, full);
    var s2 := Final(Repaired, s, gets);
    full' := BothDestroy(s2, p, q, a, b, i, bytes, s.nextNumber, free[1..], [i] + full);
    RunAppend(Repaired, s, gets, [Destroy(b), Destroy(a)]);
    assert [i] + free[1..] == free;
    assert s2.segments - {key} == s.segments;
    assert s2.handles - {b} - {a} == s.handles;
    var book := BookOf(s.maxLen, s.t, full);
    assert book[i := Record(key, bytes, 2, Name(id, s.maxLen))] - {i} == book;
  }

  lemma Shares(code: Code, s: State, p: nat, q: nat, a: nat, b: nat, id: seq<char>, bytes: nat, key: int,
               free: seq<int>, full: seq<int>)
    requires Shaped(ViewOf(s, 0)) && Explains(s, free, full) && free != [] && p != q
    requires NewTo(s, full, a, b, id, bytes, key)
    ensures IsRun(code, s, BothGet(p, q, a, b, id, bytes, key))
    ensures var s', i := Final(code, s, BothGet(p, q, a, b, id, bytes, key)), free[0];
            var cached := if i in CacheOf(s.caches, q) then CacheOf(s.caches, q)[i] else s.nextNumber;
            && Shaped(ViewOf(s', 0)) && Explains(s', free[1..], [i] + full) && s'.maxLen == s.maxLen
            && i !in BookOf(s.maxLen, s.t, full)
            && BookOf(s'.maxLen, s'.t, [i] + full) ==
                 BookOf(s.maxLen, s.t, full)[i := Record(key, bytes, 2, Name(id, s.maxLen))]
            && s'.segments == s.segments[key := Segment(s.nextNumber, SegmentBytes(bytes), FutexMutex.UNLOCKED)]
            && s'.nextNumber == s.nextNumber + 1
            && CacheOf(s'.caches, q) == CacheOf(s.caches, q)[i := cached]
            && s'.handles == s.handles[a := Live(p, Attached(i, bytes, s.nextNumber, true))]
                                      [b := Live(q, Attached(i, bytes, cached, false))]
  {
    hide Explains, Wf, BookOf, Shaped, Name, Step, Guard, Enabled, IsRun, Final, SegmentBytes;
    var i := free[0];
    var op1, op2 := GetBuffer(a, p, id, bytes, key, true), GetBuffer(b, q, id, bytes, key, true);
    Creates(code, s, op1, free, full);
    var s1 := Step(code, s, op1);
    Maps(code, s1, op2, i, free[1..], [i] + full);
    RunTwo(code, s, op1, op2);
  }

  lemma BothDestroy(s: State, p: nat, q: nat, a: nat, b: nat, i: int, size: nat, number: nat,
                    free: seq<int>, full: seq<int>)
    returns (full': seq<int>)
    requires Shaped(ViewOf(s, 0)) && Explains(s, free, full) && a != b && p != q
    requires i in BookOf(s.maxLen, s.t, full) && BookOf(s.maxLen, s.t, full)[i].count == 2
    requires a in s.handles && s.handles[a] == Live(p, Attached(i, size, number, true))
    requires b in s.handles && s.handles[b] == Live(q, Attached(i, size, number, false))
    ensures IsRun(Repaired, s, [Destroy(b), Destroy(a)])
    ensures var s' := Final(Repaired, s, [Destroy(b), Destroy(a)]);
            && Shaped(ViewOf(s', 0)) && Explains(s', [i] + free, full') && s'.maxLen == s.maxLen
            && BookOf(s'.maxLen, s'.t, full') == BookOf(s.maxLen, s.t, full) - {i}
            && s'.segments == s.segments - {BookOf(s.maxLen, s.t, full)[i].key}
            && s'.handles == s.handles - {b} - {a} && s'.nextNumber == s.nextNumber
            && CacheOf(s'.caches, q) == CacheOf(s.caches, q)
  {
    hide Explains, Wf, BookOf, Shaped, Name, Step, Guard, Enabled, IsRun, Final;
    var free1, full1 := Destroys(s, b, free, full);
    var s1 := Step(Repaired, s, Destroy(b));
    var free2, full2 := Destroys(s1, a, free1, full1);
    full' := full2;
    RunTwo(Repaired, s, Destroy(b), Destroy(a));
    var book := BookOf(s.maxLen, s.t, full);
    assert book[i := book[i].(count := 1)] - {i} == book - {i};
  }

  /** The next buffer of that descriptor, created by p and got by q, is another one for q than for p. */
  lemma StaleIsHandedOut(code: Code, s: State, p: nat, q: nat, a: nat, b: nat, id: seq<char>, bytes: nat, key: int,
                         free: seq<int>, full: seq<int>)
    requires Shaped(ViewOf(s, 0)) && Explains(s, free, full) && free != [] && p != q
    requires NewTo(s, full, a, b, id, bytes, key)
    requires free[0] in CacheOf(s.caches, q) && CacheOf(s.caches, q)[free[0]] != s.nextNumber
    ensures var ops := BothGet(p, q, a, b, id, bytes, key);
            && IsRun(code, s, ops)
            && var s' := Final(code, s, ops);
               && IsLive(s', a) && PointsAtCurrent(s', a)
               && IsLive(s', b) && !PointsAtCurrent(s', b)
               && s'.handles[b].at.desc == s'.handles[a].at.desc
               && s'.handles[b].at.number == CacheOf(s.caches, q)[free[0]]
  {
    hide Explains, Wf, BookOf, Shaped, Name, Step, Guard, Enabled, IsRun, Final, SegmentBytes, PointsAtCurrent;
    hide BothGet;
    var i := free[0];
    Shares(code, s, p, q, a, b, id, bytes, key, free, full);
    var s2 := Final(code, s, BothGet(p, q, a, b, id, bytes, key));
    LiveInTable(s2, a, free[1..], [i] + full);
    LiveInTable(s2, b, free[1..], [i] + full);
    PointsIff(s2, a, free[1..], [i] + full);
    PointsIff(s2, b, free[1..], [i] + full);
  }

  /** From any state a run can reach, with room for one more buffer in a descriptor q has not cached: after a
      buffer has been shared by p and q and returned, the next one is handed to q at the address of the first. */
  lemma SharedTwiceIsStale(s: State, p: nat, q: nat, a: nat, b: nat, id: seq<char>, bytes: nat, key: int,
                           a': nat, b': nat, id': seq<char>, bytes': nat, key': int, free: seq<int>, full: seq<int>)
    requires Shaped(ViewOf(s, 0)) && Explains(s, free, full) && free != [] && p != q
    requires NewTo(s, full, a, b, id, bytes, key) && NewTo(s, full, a', b', id', bytes', key')
    requires free[0] !in CacheOf(s.caches, q)
    ensures var ops := SharedOnce(p, q, a, b, id, bytes, key) +
                       BothGet(p, q, a', b', id', bytes', key');
            && IsRun(Repaired, s, ops)
            && var s' := Final(Repaired, s, ops);
               && IsLive(s', a') && PointsAtCurrent(s', a')
               && IsLive(s', b') && !PointsAtCurrent(s', b')
               && s'.handles[b'].at.desc == s'.handles[a'].at.desc
  {
    hide Explains, Wf, BookOf, Shaped, Name, Step, Guard, Enabled, IsRun, Final, PointsAtCurrent, SharedOnce, IsLive;
    var full1 := SharedOnceLeavesStale(s, p, q, a, b, id, bytes, key, free, full);
    var s1 := Final(Repaired, s, SharedOnce(p, q, a, b, id, bytes, key));
    StaleIsHandedOut(Repaired, s1, p, q, a', b', id', bytes', key', free, full1);
    RunAppend(Repaired, s, SharedOnce(p, q, a, b, id, bytes, key), BothGet(p, q, a', b', id', bytes', key'));
  }

  /** In particular from every fresh table. */
  lemma StaleFromFresh(n: nat, maxLen: nat, segments: Segments, next: nat, key: int)
    requires n > 0 && maxLen > 0 && SegmentsOk(map[], segments, next) && key !in segments
    ensures exists ops :: IsRun(Repaired, Fresh(n, maxLen, segments, next), ops) &&
                          exists h :: IsLive(Final(Repaired, Fresh(n, maxLen, segments, next), ops), h) &&
                                      !PointsAtCurrent(Final(Repaired, Fresh(n, maxLen, segments, next), ops), h)
  {
    hide IsRun, Final, PointsAtCurrent, SharedOnce, BothGet, IsLive;
    var s := Fresh(n, maxLen, segments, next);
    FreshExplained(n, maxLen, segments, next);
    SharedTwiceIsStale(s, 0, 1, 0, 1, "a", 1, key, 2, 3, "a", 1, key, UpTo(n), []);
    var ops := SharedOnce(0, 1, 0, 1, "a", 1, key) + BothGet(0, 1, 2, 3, "a", 1, key);
    assert IsLive(Final(Repaired, s, ops), 3) && !PointsAtCurrent(Final(Repaired, s, ops), 3);
  }
}
