/** Runs of the allocator: any sequence of allocations, deallocations of live regions in any
    order, and client writes inside live regions. The last section ties the steps to the methods of
    Allocator.Allocator. */
module AllocatorRuns {
  import opened Common
  import opened BitWords
  import opened FirstFit
  import opened BitBuffer
  import opened Allocator

  /** The elements handed out by one call of allocate(). */
  datatype Region = Region(idx: nat, num: nat)

  /** shift tells which positions of the bitmap share a mask. */
  datatype State = State(shift: Code, e: nat, v: seq<bool>, mem: seq<bv8>, live: seq<Region>)

  datatype Op =
    | Allocate(num: nat)
    | Deallocate(k: nat)                     // the k-th live region
    | Store(k: nat, offset: nat, byte: bv8)  // a client writes inside the k-th live region

  predicate Has(r: Region, i: int) {
    r.idx <= i < r.idx + r.num
  }

  predicate HasByte(e: nat, r: Region, b: int) {
    r.idx * e <= b < (r.idx + r.num) * e
  }

  /** mem with the bytes of num elements of size e from element idx on set to zero. */
  function Zeroed(mem: seq<bv8>, e: nat, idx: nat, num: nat): (r: seq<bv8>)
    ensures |r| == |mem|
    ensures forall b :: 0 <= b < |mem| ==> r[b] == if idx * e <= b < (idx + num) * e then 0 else mem[b]
  {
    seq(|mem|, b requires 0 <= b < |mem| => if idx * e <= b < (idx + num) * e then 0 else mem[b])
  }

  /** What the source's int loops are defined for. */
  ghost predicate Enabled(s: State, op: Op) {
    match op
    case Allocate(num) => num <= |s.v| && Found(s.v, num) >= 0 ==> AllocateFits(num)
    case Deallocate(k) => k < |s.live| && DeallocateFits(s.live[k].idx, s.live[k].num)
    case Store(k, offset, _) => k < |s.live| && offset < s.live[k].num * s.e
                                && s.live[k].idx * s.e + offset < |s.mem|
  }

  /** A deallocated region is no longer its client's, even when deallocate() throws. */
  ghost function Step(code: Code, s: State, op: Op): (s': State)
    requires Enabled(s, op)
    ensures s'.shift == s.shift && s'.e == s.e && |s'.v| == |s.v| && |s'.mem| == |s.mem|
  {
    match op
    case Allocate(num) =>
      var idx := Found(s.v, num);
      if num > |s.v| || idx < 0 then s
      else s.(v := Filled(s.shift, s.v, idx, num, false), live := s.live + [Region(idx, num)])
    case Deallocate(k) =>
      var r := s.live[k];
      State(s.shift, s.e,
            Filled(s.shift, s.v, FreeFrom(code, r.idx), r.num, true),
            if FreeThrows(code, |s.v|, r.idx, r.num) then s.mem else Zeroed(s.mem, s.e, r.idx, r.num),
            s.live[..k] + s.live[k + 1..])
    case Store(k, offset, byte) =>
      s.(mem := s.mem[s.live[k].idx * s.e + offset := byte])
  }

  // ---------------------------------------------------------------- invariant

  ghost predicate Owned(live: seq<Region>, i: int) {
    exists k :: 0 <= k < |live| && Has(live[k], i)
  }

  /** Position i shares its bit with an element of region r. */
  ghost predicate Covers(shift: Code, r: Region, i: nat) {
    exists j: nat :: Has(r, j) && Aliases(shift, j, i)
  }

  ghost predicate Taken(shift: Code, live: seq<Region>, i: nat) {
    exists k :: 0 <= k < |live| && Covers(shift, live[k], i)
  }

  /** No two live regions share an element, nor even a bit. */
  ghost predicate Disjoint(shift: Code, live: seq<Region>) {
    forall j, k, i: nat ::
      0 <= j < |live| && 0 <= k < |live| && Covers(shift, live[j], i) && Covers(shift, live[k], i) ==> j == k
  }

  /** The FULL bits are exactly those of elements of live regions. */
  ghost predicate BitsTell(shift: Code, v: seq<bool>, live: seq<Region>) {
    forall i: nat :: i < |v| ==> (v[i] <==> !Taken(shift, live, i))
  }

  /** A byte of an element that belongs to no live region is zero, and so is what is left
      after the last element. */
  ghost predicate FreeIsZero(e: nat, mem: seq<bv8>, live: seq<Region>)
    requires e > 0
  {
    forall b :: 0 <= b < |mem| && !Owned(live, b / e) ==> mem[b] == 0
  }

  function FreeBits(v: seq<bool>): nat {
    if v == [] then 0 else (if v[0] then 1 else 0) + FreeBits(v[1..])
  }

  function LiveElements(live: seq<Region>): nat {
    if live == [] then 0 else live[0].num + LiveElements(live[1..])
  }

  ghost predicate Within(n: nat, live: seq<Region>) {
    forall k :: 0 <= k < |live| ==> live[k].idx + live[k].num <= n
  }

  /** Every position has a bit of its own. */
  predicate Exact(shift: Code, n: nat) {
    shift.Repaired? || n <= 32
  }

  /** Live regions lie inside the storage and are pairwise disjoint, bits and bytes tell which
      elements are live; and where every position has a bit of its own, free bits and live
      elements add up to the whole. */
  ghost predicate Inv(s: State) {
    && s.e > 0 && |s.v| * s.e <= |s.mem|
    && Within(|s.v|, s.live)
    && Disjoint(s.shift, s.live)
    && BitsTell(s.shift, s.v, s.live)
    && FreeIsZero(s.e, s.mem, s.live)
    && (Exact(s.shift, |s.v|) ==> FreeBits(s.v) + LiveElements(s.live) == |s.v|)
  }

  /** What an allocation needs for the index to survive in an int, or else to look like none; and what a
      deallocation needs to free the right bits, and to clear what it has to. */
  ghost predicate Guard(code: Code, s: State, op: Op)
    requires Enabled(s, op)
  {
    match op
    case Allocate(num) => num <= |s.v| ==> Survives(s.v, num)
    case Deallocate(k) => FreesRight(code, s, s.live[k])
    case Store(_, _, _) => true
  }

  /** Of the bits that are FULL, the ones the region covers are those deallocate() sets; and where set()
      throws before the region is cleared, it reads zero already. */
  ghost predicate FreesRight(code: Code, s: State, r: Region) {
    && (forall i: nat :: i < |s.v| && !s.v[i] ==>
          (Hit(s.shift, |s.v|, FreeFrom(code, r.idx), r.num, i) <==> Hit(s.shift, |s.v|, r.idx, r.num, i)))
    && (FreeThrows(code, |s.v|, r.idx, r.num) ==> ReadsZero(s.mem, s.e, r))
  }

  ghost predicate ReadsZero(mem: seq<bv8>, e: nat, r: Region) {
    forall b :: 0 <= b < |mem| && HasByte(e, r, b) ==> mem[b] == 0
  }

  /** Whatever the shift, bits and bytes: the repaired loop, a region at the start of the storage, or one without
      elements. */
  predicate FreesPlainly(code: Code, r: Region) {
    code.Repaired? || r.idx == 0 || r.num == 0
  }

  ghost predicate Survives(v: seq<bool>, num: nat) {
    Found(v, num) == First(v, num) || Found(v, num) < 0
  }

  /** Below 2^32 positions, every index survives or looks like none; below 2^31 the loops are defined too, for
      every number there can be and every region inside. */
  lemma SmallSurvives(s: State, num: nat)
    requires |s.v| < 0x1_0000_0000
    ensures num <= |s.v| ==> Survives(s.v, num)
    ensures |s.v| < 0x8000_0000 ==>
              && Enabled(s, Allocate(num))
              && forall k: nat :: k < |s.live| && s.live[k].idx + s.live[k].num <= |s.v| ==> Enabled(s, Deallocate(k))
  {
    Int32KeepsIff(First(s.v, num));
  }

  /** What a client stores is there, and nothing else changes. */
  lemma StoreIs(code: Code, s: State, k: nat, offset: nat, byte: bv8)
    requires k < |s.live| && offset < s.live[k].num * s.e && s.live[k].idx * s.e + offset < |s.mem|
    ensures Enabled(s, Store(k, offset, byte))
    ensures var s' := Step(code, s, Store(k, offset, byte));
            && s'.v == s.v && s'.live == s.live
            && forall b :: 0 <= b < |s.mem| ==>
                 s'.mem[b] == if b == s.live[k].idx * s.e + offset then byte else s.mem[b]
  {
  }

  /** What a deallocation does to the bits and bytes, in numbers. */
  lemma DeallocateIs(code: Code, s: State, k: nat)
    requires Enabled(s, Deallocate(k))
    ensures var s', r := Step(code, s, Deallocate(k)), s.live[k];
            var from := if code.AsWritten? then 2 * r.idx else r.idx;
            && FreesThese(s.shift, s.v, from, r.num, s'.v)
            && (forall b :: 0 <= b < |s.mem| ==>
                  s'.mem[b] ==
                    if r.num > 0 && from + r.num > |s.v| then s.mem[b]
                    else if r.idx * s.e <= b < (r.idx + r.num) * s.e then 0 else s.mem[b])
  {
    hide Filled, Zeroed, FreesThese, FreeFrom, FreeThrows;
    FreesThoseIs(s.shift, code, s.v, s.live[k].idx, s.live[k].num);
  }

  // ------------------------------------------------------------------- counting

  /** Counting under a change of the positions from .. from + num - 1 alone. */
  lemma {:induction false} RangeCount(v: seq<bool>, from: nat, num: nat, val: bool, w: seq<bool>)
    requires from + num <= |v| == |w| && forall i :: from <= i < from + num ==> v[i] == !val && w[i] == val
    requires forall i :: 0 <= i < |v| && !(from <= i < from + num) ==> w[i] == v[i]
    ensures FreeBits(w) + (if val then 0 else num) == FreeBits(v) + if val then num else 0
    decreases |v|
  {
    if from > 0 {
      RangeCount(v[1..], from - 1, num, val, w[1..]);
    } else if num > 0 {
      RangeCount(v[1..], 0, num - 1, val, w[1..]);
    } else {
      assert w == v;
    }
  }

  lemma HitExact(shift: Code, n: nat, from: nat, num: nat, k: nat)
    requires Exact(shift, n) && k < n
    ensures Hit(shift, n, from, num, k) <==> from <= k < from + num
  {
    AliasLaws(shift, k, k, k);
    if j: nat :| from <= j < from + num && j < n && Aliases(shift, j, k) { AliasLaws(shift, j, k, k); }
  }

  lemma FilledCount(shift: Code, v: seq<bool>, from: nat, num: nat, val: bool)
    requires Exact(shift, |v|)
    requires from + num <= |v| && forall i :: from <= i < from + num ==> v[i] == !val
    ensures FreeBits(Filled(shift, v, from, num, val)) + (if val then 0 else num) ==
              FreeBits(v) + if val then num else 0
  {
    forall k: nat | k < |v| ensures Hit(shift, |v|, from, num, k) <==> from <= k < from + num {
      HitExact(shift, |v|, from, num, k);
    }
    hide Hit, Filled;
    RangeCount(v, from, num, val, Filled(shift, v, from, num, val));
  }

  lemma {:induction false} LiveAppend(live: seq<Region>, r: Region)
    ensures LiveElements(live + [r]) == LiveElements(live) + r.num
  {
    if live == [] {
      assert live + [r] == [r];
    } else {
      assert (live + [r])[1..] == live[1..] + [r];
      LiveAppend(live[1..], r);
    }
  }

  lemma {:induction false} LiveRemove(live: seq<Region>, k: nat)
    requires k < |live|
    ensures LiveElements(live[..k] + live[k + 1..]) == LiveElements(live) - live[k].num
  {
    if k == 0 {
      assert live[..0] + live[1..] == live[1..];
    } else {
      assert (live[..k] + live[k + 1..])[1..] == live[1..][..k - 1] + live[1..][k..];
      LiveRemove(live[1..], k - 1);
    }
  }

  lemma {:induction false} AllFreeCount(v: seq<bool>)
    requires forall i :: 0 <= i < |v| ==> v[i]
    ensures FreeBits(v) == |v|
  {
    if v != [] { AllFreeCount(v[1..]); }
  }

  // ---------------------------------------------------------- elements and bytes

  /** A byte belongs to a region exactly when the element it is part of does. */
  lemma ByteElement(e: nat, r: Region, b: nat)
    requires e > 0
    ensures HasByte(e, r, b) <==> Has(r, b / e)
  {
    if b / e < r.idx { MulLe(b / e + 1, r.idx, e); } else { MulLe(r.idx, b / e, e); }
    if b / e < r.idx + r.num { MulLe(b / e + 1, r.idx + r.num, e); } else { MulLe(r.idx + r.num, b / e, e); }
  }

  lemma ZeroedByElement(mem: seq<bv8>, e: nat, idx: nat, num: nat, b: nat)
    requires e > 0 && b < |mem|
    ensures Zeroed(mem, e, idx, num)[b] == if idx <= b / e < idx + num then 0 else mem[b]
  {
    ByteElement(e, Region(idx, num), b);
  }

  // ------------------------------------------------------------------ single steps

  lemma AddedOwns(shift: Code, live: seq<Region>, r: Region, i: int)
    ensures Owned(live + [r], i) <==> Owned(live, i) || Has(r, i)
    ensures i >= 0 ==> (Taken(shift, live + [r], i) <==> Taken(shift, live, i) || Covers(shift, r, i))
  {
    hide Has, Covers;
    var live' := live + [r];
    if Owned(live, i) { var k :| 0 <= k < |live| && Has(live[k], i); assert Has(live'[k], i); }
    if Has(r, i) { assert Has(live'[|live|], i); }
    if i >= 0 {
      if Taken(shift, live, i) {
        var k :| 0 <= k < |live| && Covers(shift, live[k], i);
        assert Covers(shift, live'[k], i);
      }
      if Covers(shift, r, i) { assert Covers(shift, live'[|live|], i); }
    }
  }

  lemma AddedDisjoint(shift: Code, live: seq<Region>, r: Region)
    requires Disjoint(shift, live) && forall i: nat :: Covers(shift, r, i) ==> !Taken(shift, live, i)
    ensures Disjoint(shift, live + [r])
  {
    hide Covers;
    var live' := live + [r];
    forall j, k, i: nat |
      0 <= j < |live'| && 0 <= k < |live'| && Covers(shift, live'[j], i) && Covers(shift, live'[k], i)
      ensures j == k
    {
    }
  }

  /** A region covers the positions its writes show at. */
  lemma CoversIsHit(shift: Code, n: nat, r: Region, i: nat)
    requires r.idx + r.num <= n
    ensures Covers(shift, r, i) <==> Hit(shift, n, r.idx, r.num, i)
  {
    if Covers(shift, r, i) {
      var j: nat :| Has(r, j) && Aliases(shift, j, i);
      assert r.idx <= j < r.idx + r.num && j < n;
    }
    if Hit(shift, n, r.idx, r.num, i) {
      var j: nat :| r.idx <= j < r.idx + r.num && j < n && Aliases(shift, j, i);
      assert Has(r, j);
    }
  }

  /** What aliases a taken position is taken too. */
  lemma TakenAlias(shift: Code, live: seq<Region>, i: nat, j: nat)
    requires Taken(shift, live, i) && Aliases(shift, i, j)
    ensures Taken(shift, live, j)
  {
    var k :| 0 <= k < |live| && Covers(shift, live[k], i);
    var m: nat :| Has(live[k], m) && Aliases(shift, m, i);
    AliasLaws(shift, m, i, j);
    assert Covers(shift, live[k], j);
  }

  /** An element is taken, and its region covers it. */
  lemma OwnedTaken(shift: Code, live: seq<Region>, i: nat)
    requires Owned(live, i)
    ensures Taken(shift, live, i)
  {
    var k :| 0 <= k < |live| && Has(live[k], i);
    AliasLaws(shift, i, i, i);
    assert Covers(shift, live[k], i);
  }

  lemma FreeRunUncovered(s: State, r: Region, i: nat)
    requires Inv(s) && FreeRun(s.v, r.idx, r.num) && Covers(s.shift, r, i)
    ensures !Taken(s.shift, s.live, i)
  {
    var j: nat :| Has(r, j) && Aliases(s.shift, j, i);
    AliasLaws(s.shift, i, j, j);
    assert s.v[j];
    if Taken(s.shift, s.live, i) { TakenAlias(s.shift, s.live, i, j); }
  }

  lemma AddedTells(shift: Code, v: seq<bool>, live: seq<Region>, r: Region)
    requires BitsTell(shift, v, live) && r.idx + r.num <= |v|
    ensures BitsTell(shift, Filled(shift, v, r.idx, r.num, false), live + [r])
  {
    hide Taken, Covers, Hit, Filled;
    forall i: nat | i < |v|
      ensures Filled(shift, v, r.idx, r.num, false)[i] <==> !Taken(shift, live + [r], i)
    {
      AddedOwns(shift, live, r, i);
      CoversIsHit(shift, |v|, r, i);
    }
  }

  lemma AllocateKeeps(code: Code, s: State, num: nat)
    requires Inv(s) && Enabled(s, Allocate(num)) && Guard(code, s, Allocate(num))
    ensures Inv(Step(code, s, Allocate(num)))
  {
    var idx := Found(s.v, num);
    if num <= |s.v| && idx >= 0 {
      var r := Region(idx, num);
      assert FreeRun(s.v, idx, num);
      forall i: nat | Covers(s.shift, r, i) ensures !Taken(s.shift, s.live, i) { FreeRunUncovered(s, r, i); }
      hide Filled, Covers, Taken, Owned, Has, First, Disjoint, BitsTell;
      AddedDisjoint(s.shift, s.live, r);
      AddedTells(s.shift, s.v, s.live, r);
      if Exact(s.shift, |s.v|) { FilledCount(s.shift, s.v, idx, num, false); }
      LiveAppend(s.live, r);
      forall i ensures Owned(s.live, i) ==> Owned(s.live + [r], i) {
        AddedOwns(s.shift, s.live, r, i);
      }
    }
  }

  /** An index that wraps to another one is that of a region some element of which is taken. */
  lemma WrappedOverlaps(code: Code, s: State, num: nat)
    requires Inv(s) && Enabled(s, Allocate(num)) && !Guard(code, s, Allocate(num))
    ensures !Inv(Step(code, s, Allocate(num)))
  {
    var idx, s' := Found(s.v, num), Step(code, s, Allocate(num));
    var first := First(s.v, num);
    Int32KeepsIff(first);
    assert FreeRun(s.v, first, num);
    assert !FreeRun(s.v, idx, num);
    var i: nat :| idx <= i < idx + num && !s.v[i];
    hide First, Filled, Hit;
    assert Taken(s.shift, s.live, i);
    var k :| 0 <= k < |s.live| && Covers(s.shift, s.live[k], i);
    AliasLaws(s.shift, i, i, i);
    assert Has(Region(idx, num), i);
    assert Covers(s.shift, s'.live[|s.live|], i) && Covers(s.shift, s'.live[k], i);
  }

  lemma RemovedOwns(shift: Code, live: seq<Region>, k: nat, i: nat)
    requires k < |live| && Disjoint(shift, live)
    ensures Taken(shift, live[..k] + live[k + 1..], i) <==> Taken(shift, live, i) && !Covers(shift, live[k], i)
    ensures Owned(live[..k] + live[k + 1..], i) <==> Owned(live, i) && !Has(live[k], i)
  {
    hide Covers, Has, Owned;
    RemovedOwnsElement(shift, live, k, i);
    var rest := live[..k] + live[k + 1..];
    if Taken(shift, live, i) && !Covers(shift, live[k], i) {
      var j :| 0 <= j < |live| && Covers(shift, live[j], i);
      assert Covers(shift, rest[if j < k then j else j - 1], i);
    }
    if Taken(shift, rest, i) {
      var j :| 0 <= j < |rest| && Covers(shift, rest[j], i);
      assert Covers(shift, live[if j < k then j else j + 1], i);
    }
  }

  lemma RemovedOwnsElement(shift: Code, live: seq<Region>, k: nat, i: nat)
    requires k < |live| && Disjoint(shift, live)
    ensures Owned(live[..k] + live[k + 1..], i) <==> Owned(live, i) && !Has(live[k], i)
  {
    HasCovers(shift, i);
    hide Covers, Has, Taken;
    var rest := live[..k] + live[k + 1..];
    if Owned(live, i) && !Has(live[k], i) {
      var j :| 0 <= j < |live| && Has(live[j], i);
      assert Has(rest[if j < k then j else j - 1], i);
    }
    if Owned(rest, i) {
      var j :| 0 <= j < |rest| && Has(rest[j], i);
      assert Has(live[if j < k then j else j + 1], i);
    }
  }

  lemma HasCovers(shift: Code, i: nat)
    ensures forall r: Region :: Has(r, i) ==> Covers(shift, r, i)
  {
    AliasLaws(shift, i, i, i);
  }

  lemma RemovedDisjoint(shift: Code, live: seq<Region>, k: nat)
    requires k < |live| && Disjoint(shift, live)
    ensures Disjoint(shift, live[..k] + live[k + 1..])
  {
    hide Covers;
    var rest := live[..k] + live[k + 1..];
    forall i, j, x: nat | 0 <= i < |rest| && 0 <= j < |rest| && Covers(shift, rest[i], x) && Covers(shift, rest[j], x)
      ensures i == j
    {
      assert Covers(shift, live[if i < k then i else i + 1], x) && Covers(shift, live[if j < k then j else j + 1], x);
    }
  }

  lemma ZeroedIsZero(e: nat, mem: seq<bv8>, live: seq<Region>, live': seq<Region>, r: Region)
    requires e > 0 && FreeIsZero(e, mem, live)
    requires forall i: nat :: Owned(live', i) <==> Owned(live, i) && !Has(r, i)
    ensures FreeIsZero(e, Zeroed(mem, e, r.idx, r.num), live')
  {
    hide Owned, Zeroed;
    forall b: nat | b < |mem| && !Owned(live', b / e) ensures Zeroed(mem, e, r.idx, r.num)[b] == 0 {
      ZeroedByElement(mem, e, r.idx, r.num, b);
    }
  }

  lemma RemovedTells(shift: Code, v: seq<bool>, live: seq<Region>, k: nat)
    requires k < |live| && Disjoint(shift, live) && BitsTell(shift, v, live)
    requires live[k].idx + live[k].num <= |v|
    ensures BitsTell(shift, Filled(shift, v, live[k].idx, live[k].num, true), live[..k] + live[k + 1..])
  {
    hide Taken, Covers, Hit, Filled, Disjoint;
    var r := live[k];
    forall i: nat | i < |v|
      ensures Filled(shift, v, r.idx, r.num, true)[i] <==> !Taken(shift, live[..k] + live[k + 1..], i)
    {
      RemovedOwns(shift, live, k, i);
      CoversIsHit(shift, |v|, r, i);
    }
  }

  lemma LiveIsFull(s: State, k: nat)
    requires Inv(s) && k < |s.live|
    ensures s.live[k].idx + s.live[k].num <= |s.v|
    ensures forall i :: s.live[k].idx <= i < s.live[k].idx + s.live[k].num ==> !s.v[i]
  {
    forall i: nat | Has(s.live[k], i) ensures Taken(s.shift, s.live, i) {
      assert Owned(s.live, i);
      OwnedTaken(s.shift, s.live, i);
    }
  }

  /** A deallocation frees the bits of its region, and changes nothing else, exactly when the bits it sets
      among the FULL ones are those. */
  lemma FreedIff(shift: Code, v: seq<bool>, from: nat, r: Region)
    ensures Filled(shift, v, from, r.num, true) == Filled(shift, v, r.idx, r.num, true) <==>
            forall i: nat :: i < |v| && !v[i] ==>
              (Hit(shift, |v|, from, r.num, i) <==> Hit(shift, |v|, r.idx, r.num, i))
  {
    hide Hit;
    var a, b := Filled(shift, v, from, r.num, true), Filled(shift, v, r.idx, r.num, true);
    if forall i: nat :: i < |v| && !v[i] ==> (Hit(shift, |v|, from, r.num, i) <==> Hit(shift, |v|, r.idx, r.num, i)) {
      forall i: nat | i < |v| ensures a[i] == b[i] {}
    }
  }

  /** Clearing a region changes nothing exactly when it reads zero. */
  lemma ClearedIff(mem: seq<bv8>, e: nat, r: Region)
    ensures Zeroed(mem, e, r.idx, r.num) == mem <==> ReadsZero(mem, e, r)
  {
  }

  /** A guarded deallocation is the plain one. */
  lemma GuardedIs(code: Code, s: State, k: nat)
    requires Enabled(s, Deallocate(k)) && Guard(code, s, Deallocate(k))
    ensures var r := s.live[k];
            Step(code, s, Deallocate(k)) ==
              State(s.shift, s.e, Filled(s.shift, s.v, r.idx, r.num, true), Zeroed(s.mem, s.e, r.idx, r.num),
                    s.live[..k] + s.live[k + 1..])
  {
    var r := s.live[k];
    hide Filled, Zeroed, Hit, ReadsZero;
    FreedIff(s.shift, s.v, FreeFrom(code, r.idx), r);
    ClearedIff(s.mem, s.e, r);
  }

  lemma DeallocateKeeps(code: Code, s: State, k: nat)
    requires Inv(s) && Enabled(s, Deallocate(k)) && Guard(code, s, Deallocate(k))
    ensures Inv(Step(code, s, Deallocate(k)))
  {
    var r := s.live[k];
    GuardedIs(code, s, k);
    LiveIsFull(s, k);
    hide Disjoint, Owned, BitsTell, FreeIsZero, FreeBits, LiveElements, Filled, Zeroed, Hit, Step, Guard;
    var s' := Step(code, s, Deallocate(k));
    if Exact(s.shift, |s.v|) { FilledCount(s.shift, s.v, r.idx, r.num, true); }
    LiveRemove(s.live, k);
    RemovedDisjoint(s.shift, s.live, k);
    RemovedTells(s.shift, s.v, s.live, k);
    forall i: nat ensures Owned(s'.live, i) <==> Owned(s.live, i) && !Has(r, i) {
      RemovedOwns(s.shift, s.live, k, i);
    }
    ZeroedIsZero(s.e, s.mem, s.live, s'.live, r);
  }

  /** The bits and bytes of a table in order are determined by its live regions: another deallocation leaves a
      bit FULL that nobody owns, or one FREE that somebody owns, or a byte of the region as it was. */
  lemma DeallocateBreaks(code: Code, s: State, k: nat)
    requires Inv(s) && Enabled(s, Deallocate(k)) && !Guard(code, s, Deallocate(k))
    ensures !Inv(Step(code, s, Deallocate(k)))
  {
    var r, s' := s.live[k], Step(code, s, Deallocate(k));
    if i: nat :| i < |s.v| && !s.v[i] &&
                 (Hit(s.shift, |s.v|, FreeFrom(code, r.idx), r.num, i) != Hit(s.shift, |s.v|, r.idx, r.num, i)) {
      hide Hit, Covers, Taken, Disjoint, FreeIsZero, Owned;
      RemovedOwns(s.shift, s.live, k, i);
      CoversIsHit(s.shift, |s.v|, r, i);
      assert s'.v[i] <==> Taken(s.shift, s'.live, i);
    } else {
      var b: nat :| b < |s.mem| && HasByte(s.e, r, b) && s.mem[b] != 0;
      ByteElement(s.e, r, b);
      RemovedOwns(s.shift, s.live, k, b / s.e);
      assert !Owned(s'.live, b / s.e) && s'.mem[b] != 0;
    }
  }

  /** The plain cases meet the guard, and where every position has a bit of its own they are the only ones. */
  lemma FreesPlainlyIff(code: Code, s: State, r: Region)
    requires r.idx + r.num <= |s.v| && forall i :: r.idx <= i < r.idx + r.num ==> !s.v[i]
    ensures FreesPlainly(code, r) ==> FreesRight(code, s, r)
    ensures Exact(s.shift, |s.v|) ==> (FreesRight(code, s, r) <==> FreesPlainly(code, r))
  {
    if !FreesPlainly(code, r) && Exact(s.shift, |s.v|) {
      HitExact(s.shift, |s.v|, 2 * r.idx, r.num, r.idx);
      HitExact(s.shift, |s.v|, r.idx, r.num, r.idx);
      assert !s.v[r.idx];
    }
  }

  lemma StoreKeeps(code: Code, s: State, op: Op)
    requires Inv(s) && op.Store? && Enabled(s, op)
    ensures Inv(Step(code, s, op)) && Guard(code, s, op)
  {
    var r := s.live[op.k];
    var b := r.idx * s.e + op.offset;
    assert (r.idx + r.num) * s.e == r.idx * s.e + r.num * s.e;
    ByteElement(s.e, r, b);
    assert Has(s.live[op.k], b / s.e);
  }

  /** A step keeps the invariant exactly when its guard holds, whichever the shift and the loop. */
  lemma StepKeepsIff(code: Code, s: State, op: Op)
    requires Inv(s) && Enabled(s, op)
    ensures Inv(Step(code, s, op)) <==> Guard(code, s, op)
  {
    hide Inv, Step, Guard;
    var holds := Guard(code, s, op);
    match op {
      case Allocate(num) => if holds { AllocateKeeps(code, s, num); } else { WrappedOverlaps(code, s, num); }
      case Store(_, _, _) => StoreKeeps(code, s, op);
      case Deallocate(k) => if holds { DeallocateKeeps(code, s, k); } else { DeallocateBreaks(code, s, k); }
    }
  }

  // ---------------------------------------------------------------------- runs

  ghost predicate IsRun(code: Code, s: State, ops: seq<Op>)
    decreases |ops|
  {
    ops == [] || (Enabled(s, ops[0]) && Guard(code, s, ops[0]) && IsRun(code, Step(code, s, ops[0]), ops[1..]))
  }

  ghost function Final(code: Code, s: State, ops: seq<Op>): State
    requires IsRun(code, s, ops)
    decreases |ops|
  {
    if ops == [] then s else Final(code, Step(code, s, ops[0]), ops[1..])
  }

  /** The state the constructor leaves on a zero-filled segment of some number of bytes. */
  ghost function Fresh(shift: Code, e: nat, bytes: nat): State
    requires e > 0
  {
    State(shift, e, seq(bytes / e, _ => true), seq(bytes, _ => 0), [])
  }

  lemma FreshInv(shift: Code, e: nat, bytes: nat)
    requires e > 0
    ensures Inv(Fresh(shift, e, bytes))
  {
    AllFreeCount(Fresh(shift, e, bytes).v);
    MulLe(bytes / e, bytes / e, e);
  }

  lemma {:induction false} RunKeepsInv(code: Code, s: State, ops: seq<Op>)
    requires Inv(s) && IsRun(code, s, ops)
    ensures Inv(Final(code, s, ops))
    ensures Final(code, s, ops).shift == s.shift && Final(code, s, ops).e == s.e
    ensures |Final(code, s, ops).v| == |s.v| && |Final(code, s, ops).mem| == |s.mem|
    decreases |ops|
  {
    hide Inv, Step, Guard, Enabled;
    if ops != [] {
      StepKeepsIff(code, s, ops[0]);
      RunKeepsInv(code, Step(code, s, ops[0]), ops[1..]);
    }
  }

  /** No position from p to p + num - 1 shares its bit with a live element. */
  ghost predicate Available(s: State, p: nat, num: nat) {
    p + num <= |s.v| && forall i: nat :: p <= i < p + num ==> !Taken(s.shift, s.live, i)
  }

  /** What an allocation promises to its client. */
  ghost predicate SafeAllocation(s: State, num: nat, s': State) {
    var idx := First(s.v, num);
    if num <= |s.v| && 0 <= idx <= INT_MAX then
      && s'.live == s.live + [Region(idx, num)]
      && (idx + num) * s.e <= |s'.mem|
      && (forall k, i :: 0 <= k < |s.live| && idx <= i < idx + num ==> !Has(s.live[k], i))
      && (forall b :: idx * s.e <= b < (idx + num) * s.e && b < |s'.mem| ==> s'.mem[b] == 0)
      && (forall p: nat :: p < idx ==> !Available(s, p, num))
    else
      s' == s && forall p: nat :: p <= INT_MAX ==> !Available(s, p, num)
  }

  lemma AllocationIsSafe(code: Code, s: State, num: nat)
    requires Inv(s) && Enabled(s, Allocate(num)) && Guard(code, s, Allocate(num))
    ensures SafeAllocation(s, num, Step(code, s, Allocate(num)))
  {
    var idx := First(s.v, num);
    Int32KeepsIff(idx);
    forall p: nat | Available(s, p, num) ensures 0 <= idx <= p {
      assert FreeRun(s.v, p, num);
    }
    if num <= |s.v| && idx >= 0 {
      AllocatedIsNew(s, num);
    }
  }

  lemma AllocatedIsNew(s: State, num: nat)
    requires Inv(s) && num <= |s.v| && First(s.v, num) >= 0
    ensures var idx := First(s.v, num);
            && (idx + num) * s.e <= |s.mem|
            && (forall k, i :: 0 <= k < |s.live| && idx <= i < idx + num ==> !Has(s.live[k], i))
            && (forall b :: idx * s.e <= b < (idx + num) * s.e && b < |s.mem| ==> s.mem[b] == 0)
  {
    var idx := First(s.v, num);
    var r := Region(idx, num);
    assert FreeRun(s.v, idx, num);
    hide First, Disjoint, Covers, Has;
    MulLe(idx + num, |s.v|, s.e);
    forall i: nat | idx <= i < idx + num ensures !Owned(s.live, i) {
      assert s.v[i];
      if Owned(s.live, i) { OwnedTaken(s.shift, s.live, i); }
    }
    forall k, i | 0 <= k < |s.live| && idx <= i < idx + num ensures !Has(s.live[k], i) {
      assert !Owned(s.live, i);
    }
    hide Owned, Taken;
    forall b: nat | HasByte(s.e, r, b) && b < |s.mem| ensures s.mem[b] == 0 {
      ByteElement(s.e, r, b);
      HasMeans(r, b / s.e);
    }
  }

  lemma HasMeans(r: Region, i: int)
    ensures Has(r, i) <==> r.idx <= i < r.idx + r.num
  {
  }

  /** Safety over every run, whichever shift is used: whatever has happened since the constructor, an
      allocation that succeeds returns a region inside the storage, in bytes too, that shares
      nothing with a live region and reads zero, and no available region starts earlier; one that
      fails finds no available region of that length that starts where an int can say. */
  lemma EveryAllocationIsSafe(shift: Code, code: Code, e: nat, bytes: nat, ops: seq<Op>, num: nat)
    requires e > 0 && IsRun(code, Fresh(shift, e, bytes), ops)
    ensures var s := Final(code, Fresh(shift, e, bytes), ops);
            && Inv(s) && |s.mem| == bytes && s.e == e
            && (Enabled(s, Allocate(num)) && Guard(code, s, Allocate(num)) ==>
                  SafeAllocation(s, num, Step(code, s, Allocate(num))))
  {
    FreshInv(shift, e, bytes);
    RunKeepsInv(code, Fresh(shift, e, bytes), ops);
    hide Inv, SafeAllocation, Enabled, Guard, Step;
    var s := Final(code, Fresh(shift, e, bytes), ops);
    if Enabled(s, Allocate(num)) && Guard(code, s, Allocate(num)) { AllocationIsSafe(code, s, num); }
  }

  /** No element is ever lost: over every run, free bits and live elements add up to the whole.
      As written, the shift loses elements as soon as there are more than 32: allocating the
      first one marks the 33rd as well. */
  lemma NothingLostIff(shift: Code, e: nat, bytes: nat)
    requires e > 0
    ensures (forall ops :: IsRun(Repaired, Fresh(shift, e, bytes), ops) ==>
               var s := Final(Repaired, Fresh(shift, e, bytes), ops);
               FreeBits(s.v) + LiveElements(s.live) == bytes / e)
            <==> Exact(shift, bytes / e)
  {
    hide IsRun, Final, FreeBits, LiveElements, Disjoint, BitsTell, FreeIsZero, Within;
    var s0 := Fresh(shift, e, bytes);
    FreshInv(shift, e, bytes);
    if Exact(shift, bytes / e) {
      forall ops | IsRun(Repaired, s0, ops)
        ensures var s := Final(Repaired, s0, ops); FreeBits(s.v) + LiveElements(s.live) == bytes / e
      {
        RunKeepsInv(Repaired, s0, ops);
      }
    } else {
      FirstAllocationLoses(e, bytes);
    }
  }

  lemma FirstAllocationLoses(e: nat, bytes: nat)
    requires e > 0 && bytes / e > 32
    ensures IsRun(Repaired, Fresh(AsWritten, e, bytes), [Allocate(1)])
    ensures var s := Final(Repaired, Fresh(AsWritten, e, bytes), [Allocate(1)]);
            FreeBits(s.v) + LiveElements(s.live) < bytes / e
  {
    var s0, ops := Fresh(AsWritten, e, bytes), [Allocate(1)];
    assert ops[1..] == [];
    assert FreeRun(s0.v, 0, 1);
    FirstIsUnique(s0.v, 1, 0);
    Int32KeepsIff(0);
    var s := Step(Repaired, s0, ops[0]);
    assert Final(Repaired, s0, ops) == s;
    assert s.live == [Region(0, 1)];
    assert Aliases(AsWritten, 0, 0) && Aliases(AsWritten, 0, 32);
    assert Hit(AsWritten, |s0.v|, 0, 1, 0) && Hit(AsWritten, |s0.v|, 0, 1, 32);
    assert !s.v[0] && !s.v[32];
    FullBits(s.v, 0, 32);
    assert LiveElements([Region(0, 1)]) == 1 + LiveElements([]);
  }

  lemma {:induction false} OneFull(v: seq<bool>, i: nat)
    requires i < |v| && !v[i]
    ensures FreeBits(v) < |v|
  {
    if i == 0 { AtMostAll(v[1..]); } else { OneFull(v[1..], i - 1); }
  }

  lemma {:induction false} AtMostAll(v: seq<bool>)
    ensures FreeBits(v) <= |v|
  {
    if v != [] { AtMostAll(v[1..]); }
  }

  lemma {:induction false} FullBits(v: seq<bool>, i: nat, j: nat)
    requires i < j < |v| && !v[i] && !v[j]
    ensures FreeBits(v) + 1 < |v|
  {
    if i == 0 { OneFull(v[1..], j - 1); } else { FullBits(v[1..], i - 1, j - 1); }
  }

  /** Whatever the order of the frees, once everything is freed the bitmap and the storage are
      as the constructor left them. */
  lemma AllFreedIsFresh(shift: Code, code: Code, e: nat, bytes: nat, ops: seq<Op>)
    requires e > 0 && IsRun(code, Fresh(shift, e, bytes), ops)
    requires Final(code, Fresh(shift, e, bytes), ops).live == []
    ensures Final(code, Fresh(shift, e, bytes), ops) == Fresh(shift, e, bytes)
  {
    FreshInv(shift, e, bytes);
    RunKeepsInv(code, Fresh(shift, e, bytes), ops);
    var s := Final(code, Fresh(shift, e, bytes), ops);
    assert forall i: nat :: !Taken(shift, s.live, i);
    assert forall i :: !Owned(s.live, i);
    assert s.v == Fresh(shift, e, bytes).v;
    assert s.mem == Fresh(shift, e, bytes).mem;
  }

  /** Deallocating a region just allocated restores the whole state, whatever the client stored in
      it, exactly when the guard of the deallocation holds. */
  lemma DeallocateUndoesAllocate(code: Code, s: State, num: nat, mem: seq<bv8>)
    requires Inv(s) && Enabled(s, Allocate(num)) && num <= |s.v|
    requires Found(s.v, num) == First(s.v, num) >= 0 && DeallocateFits(First(s.v, num), num)
    requires |mem| == |s.mem|
    requires forall b: nat :: b < |mem| && !Has(Region(First(s.v, num), num), b / s.e) ==> mem[b] == s.mem[b]
    ensures var s1 := Step(code, s, Allocate(num)).(mem := mem);
            && Enabled(s1, Deallocate(|s.live|))
            && (Step(code, s1, Deallocate(|s.live|)) == s <==> Guard(code, s1, Deallocate(|s.live|)))
  {
    var idx := First(s.v, num);
    var r := Region(idx, num);
    var s1 := Step(code, s, Allocate(num)).(mem := mem);
    var s2 := Step(code, s1, Deallocate(|s.live|));
    assert FreeRun(s.v, idx, num);
    assert s2.live == s.live;
    hide First, Found, Owned, Disjoint, Filled, Zeroed, Hit, Inv, ReadsZero;
    FreedIff(s.shift, s1.v, FreeFrom(code, idx), r);
    BitsRestored(s, r);
    ClearedIff(mem, s.e, r);
    MemoryRestored(s, r, mem);
  }

  lemma BitsRestored(s: State, r: Region)
    requires Inv(s) && FreeRun(s.v, r.idx, r.num)
    ensures Filled(s.shift, Filled(s.shift, s.v, r.idx, r.num, false), r.idx, r.num, true) == s.v
  {
    hide Filled, Hit, Covers, Owned, Disjoint;
    var w := Filled(s.shift, s.v, r.idx, r.num, false);
    forall i: nat | i < |s.v| ensures Filled(s.shift, w, r.idx, r.num, true)[i] == s.v[i] {
      CoversIsHit(s.shift, |s.v|, r, i);
      if Covers(s.shift, r, i) { FreeRunUncovered(s, r, i); }
    }
  }

  lemma MemoryRestored(s: State, r: Region, mem: seq<bv8>)
    requires Inv(s) && FreeRun(s.v, r.idx, r.num) && |mem| == |s.mem|
    requires forall b: nat :: b < |mem| && !Has(r, b / s.e) ==> mem[b] == s.mem[b]
    ensures Zeroed(mem, s.e, r.idx, r.num) == s.mem
  {
    hide Zeroed, Covers, Disjoint, Taken;
    forall b: nat | b < |mem| ensures Zeroed(mem, s.e, r.idx, r.num)[b] == s.mem[b] {
      ZeroedByElement(mem, s.e, r.idx, r.num, b);
      if Has(r, b / s.e) {
        assert s.v[b / s.e];
        if Owned(s.live, b / s.e) { OwnedTaken(s.shift, s.live, b / s.e); }
      }
    }
  }

  // ------------------------------------------------------------- the steps and the methods

  /** What the object stands for while its clients hold the live regions. */
  ghost function StateOf(a: Allocator, live: seq<Region>): State
    requires a.Valid()
    reads a, a.storage, a.model, a.model.storage
  {
    State(a.model.code, a.e, a.Bits(), a.storage[..], live)
  }

  /** The pointer to a region. */
  function PointerTo(base: nat, e: nat, r: Region): nat {
    base + r.idx * e
  }

  /** Clearing by bytes what deallocate() is given is clearing by elements. */
  lemma ClearedIsZeroed(mem: seq<bv8>, e: nat, r: Region)
    ensures Cleared(mem, r.idx * e, r.num * e) == Zeroed(mem, e, r.idx, r.num)
  {
    assert (r.idx + r.num) * e == r.idx * e + r.num * e;
  }

  /** The pointer leads back to the region, whose bytes are inside the storage. */
  lemma PointerLeadsBack(s: State, base: nat, k: nat)
    requires Inv(s) && k < |s.live|
    ensures var r := s.live[k];
            var p := PointerTo(base, s.e, r);
            && base <= p && (p - base) / s.e == r.idx && p - base + r.num * s.e <= |s.mem|
            && Cleared(s.mem, p - base, r.num * s.e) == Zeroed(s.mem, s.e, r.idx, r.num)
  {
    hide Disjoint, BitsTell, FreeIsZero, Cleared, Zeroed;
    var r := s.live[k];
    PointerRoundTrip(base, s.e, r.idx);
    ClearedIsZeroed(s.mem, s.e, r);
    MulLe(r.idx + r.num, |s.v|, s.e);
    assert (r.idx + r.num) * s.e == r.idx * s.e + r.num * s.e;
  }

  /** allocate() on the object is a step of the run, and its result the pointer to the new region. */
  method AllocateIsStep(a: Allocator, live: seq<Region>, num: nat) returns (r: Result<Option<nat>>)
    requires a.Valid() && num < SIZE_T && Enabled(StateOf(a, live), Allocate(num))
    modifies a.model.storage
    ensures a.Valid()
    ensures var s := old(StateOf(a, live));
            var s' := Step(a.code, s, Allocate(num));
            && StateOf(a, s'.live) == s'
            && r == if num > |s.v| then Throw(NumberOutOfRange)
                    else if s'.live == live then Ok(None)
                    else Ok(Some(PointerTo(a.base, a.e, s'.live[|live|])))
  {
    hide Found, Filled;
    r := a.Allocate(num);
  }

  /** deallocate(), given the pointer to a live region and its length, is a step of the run. */
  method DeallocateIsStep(a: Allocator, live: seq<Region>, k: nat) returns (r: Result<()>)
    requires a.Valid() && Inv(StateOf(a, live)) && Enabled(StateOf(a, live), Deallocate(k))
    modifies a.storage, a.model.storage
    ensures a.Valid()
    ensures var s' := Step(a.code, old(StateOf(a, live)), Deallocate(k));
            StateOf(a, s'.live) == s'
    ensures r.Throw? <==> FreeThrows(a.code, a.NumElements(), live[k].idx, live[k].num)
  {
    hide Filled, Cleared, Zeroed, Inv, PointerTo;
    PointerLeadsBack(StateOf(a, live), a.base, k);
    r := a.Deallocate(PointerTo(a.base, a.e, live[k]), live[k].num);
  }
}
