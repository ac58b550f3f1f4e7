/** The shared descriptor table (src/IPC_BufferManager.cpp): two doubly linked lists, of free and
    of full descriptors, threaded by index through one array. */
module DescriptorLists {
  import opened Common
  import opened CNames

  datatype Descriptor = Descriptor(shmKey: int, bytes: nat, refCount: nat, nextIdx: int, prevIdx: int, id: seq<char>)

  /** The array and the two heads of the control block. */
  datatype Table = Table(ds: seq<Descriptor>, nextFree: int, nextFull: int)

  type Descriptors = seq<Descriptor>

  function SetNext(ds: Descriptors, i: int, next: int): (r: Descriptors)
    requires 0 <= i < |ds|
    ensures |r| == |ds|
  {
    ds[i := ds[i].(nextIdx := next)]
  }

  function SetPrev(ds: Descriptors, i: int, prev: int): (r: Descriptors)
    requires 0 <= i < |ds|
    ensures |r| == |ds|
  {
    ds[i := ds[i].(prevIdx := prev)]
  }

  /** What memset leaves. */
  function Blank(d: Descriptor): Descriptor {
    Descriptor(0, 0, 0, 0, 0, seq(|d.id|, _ => NUL))
  }

  /** All fields are zero, every character of the name too. */
  lemma BlankIs(d: Descriptor)
    ensures var b := Blank(d);
            && b.shmKey == 0 && b.bytes == 0 && b.refCount == 0 && b.nextIdx == 0 && b.prevIdx == 0
            && |b.id| == |d.id| && forall c :: 0 <= c < |b.id| ==> b.id[c] == '\0'
  {
  }

  /** Everything in a descriptor but its links. */
  predicate SamePayload(d: Descriptor, d': Descriptor) {
    d.shmKey == d'.shmKey && d.bytes == d'.bytes && d.refCount == d'.refCount && d.id == d'.id
  }

  predicate IndexOrEnd(i: int, n: nat) {
    -1 <= i < n
  }

  /** No link points outside the array: enough for the statements to be executed. */
  ghost predicate InRange(t: Table) {
    && IndexOrEnd(t.nextFree, |t.ds|) && IndexOrEnd(t.nextFull, |t.ds|)
    && forall i :: 0 <= i < |t.ds| ==> IndexOrEnd(t.ds[i].nextIdx, |t.ds|) && IndexOrEnd(t.ds[i].prevIdx, |t.ds|)
  }

  // ------------------------------------------------------- the two operations, statement by statement

  /** The statements both operations start with: the neighbours of i are linked past it. */
  function Unlink(ds: Descriptors, i: int): (r: Descriptors)
    requires 0 <= i < |ds| && IndexOrEnd(ds[i].prevIdx, |ds|) && IndexOrEnd(ds[i].nextIdx, |ds|)
    ensures |r| == |ds| && forall j :: 0 <= j < |ds| ==> SamePayload(ds[j], r[j])
  {
    var ds1 := if ds[i].prevIdx != -1 then SetNext(ds, ds[i].prevIdx, ds[i].nextIdx) else ds;
    if ds1[i].nextIdx != -1 then SetPrev(ds1, ds1[i].nextIdx, ds1[i].prevIdx) else ds1
  }

  /** getFreeDescriptor: the table afterwards and the index taken, or -1. */
  ghost function Take(t: Table): (r: (Table, int))
    requires InRange(t)
    ensures InRange(r.0) && |r.0.ds| == |t.ds| && IndexOrEnd(r.1, |t.ds|)
    ensures forall j :: 0 <= j < |t.ds| ==> |r.0.ds[j].id| == |t.ds[j].id|
  {
    if t.nextFree == -1 then (t, -1) else
    var i := t.nextFree;
    var ds := Unlink(t.ds, i);
    var nextFree := ds[i].nextIdx;
    var ds1 := if t.nextFull != -1 then SetPrev(SetPrev(ds, t.nextFull, i), i, -1) else ds;
    (Table(SetNext(ds1, i, t.nextFull), nextFree, i), i)
  }

  /** putFreeDescriptor. As written, the head of the full list is never moved; the repair moves
      it past a descriptor that has no predecessor. */
  ghost function Put(code: Code, t: Table, i: int): (r: Table)
    requires InRange(t) && 0 <= i < |t.ds|
    ensures InRange(r) && |r.ds| == |t.ds|
    ensures forall j :: 0 <= j < |t.ds| ==> |r.ds[j].id| == |t.ds[j].id|
  {
    var ds := Unlink(t.ds, i);
    var nextFull := if code.Repaired? && t.ds[i].prevIdx == -1 then t.ds[i].nextIdx else t.nextFull;
    var ds1 := ds[i := Blank(ds[i])];
    var ds2 := if t.nextFree == -1 then SetNext(ds1, i, -1) else SetNext(SetPrev(ds1, t.nextFree, i), i, t.nextFree);
    Table(SetPrev(ds2, i, -1), i, nextFull)
  }

  // ------------------------------------------------------------- what a table stands for

  function NextIn(l: seq<int>, k: nat): int
    requires k < |l|
  {
    if k + 1 < |l| then l[k + 1] else -1
  }

  function PrevIn(l: seq<int>, k: nat): int
    requires k < |l|
  {
    if k > 0 then l[k - 1] else -1
  }

  /** The k-th node of the list l points to its two neighbours. */
  predicate Linked(ds: Descriptors, l: seq<int>, k: nat) {
    k < |l| && 0 <= l[k] < |ds| && ds[l[k]].nextIdx == NextIn(l, k) && ds[l[k]].prevIdx == PrevIn(l, k)
  }

  /** l is the list that starts at head: every link forward has its exact inverse backward. */
  ghost predicate IsList(ds: Descriptors, head: int, l: seq<int>) {
    && head == (if l == [] then -1 else l[0])
    && (forall k: nat :: k < |l| ==> Linked(ds, l, k))
  }

  ghost predicate Distinct(l: seq<int>) {
    forall j, k :: 0 <= j < |l| && 0 <= k < |l| && l[j] == l[k] ==> j == k
  }

  /** The two lists are acyclic and disjoint, and together cover the indices below n. */
  ghost predicate Partition(n: nat, free: seq<int>, full: seq<int>) {
    && Distinct(free) && Distinct(full)
    && (forall i :: i in free ==> i !in full)
    && (forall i :: 0 <= i < n <==> i in free || i in full)
  }

  ghost predicate Wf(t: Table, free: seq<int>, full: seq<int>) {
    && IsList(t.ds, t.nextFree, free)
    && IsList(t.ds, t.nextFull, full)
    && Partition(|t.ds|, free, full)
  }

  /** Some pair of lists explains the table. */
  ghost predicate WellFormed(t: Table) {
    exists free, full :: Wf(t, free, full)
  }

  lemma HeadOfFull(t: Table, free: seq<int>, full: seq<int>)
    requires Wf(t, free, full)
    ensures t.nextFull == if full == [] then -1 else full[0]
  {
  }

  lemma NextOfFull(t: Table, free: seq<int>, full: seq<int>, k: nat)
    requires Wf(t, free, full) && k < |full|
    ensures 0 <= full[k] < |t.ds| && t.ds[full[k]].nextIdx == if k + 1 < |full| then full[k + 1] else -1
  {
    assert Linked(t.ds, full, k);
  }

  /** Where a node sits on a list. */
  lemma FindIn(ds: Descriptors, head: int, l: seq<int>, i: int) returns (a: seq<int>, b: seq<int>)
    requires IsList(ds, head, l) && Distinct(l) && i in l
    ensures l == a + [i] + b && 0 <= i < |ds|
    ensures a == [] <==> ds[i].prevIdx == -1
    ensures a == [] ==> i == l[0]
    ensures forall j :: j in a + b <==> j in l && j != i
  {
    var k: nat :| k < |l| && l[k] == i;
    a, b := l[..k], l[k + 1..];
    assert Linked(ds, l, k);
    if k > 0 { assert Linked(ds, l, k - 1); }
    hide Linked, IsList;
    OthersIn(l, k);
  }

  lemma OthersIn(l: seq<int>, k: nat)
    requires Distinct(l) && k < |l|
    ensures forall j :: j in l[..k] + l[k + 1..] <==> j in l && j != l[k]
  {
    var rest := l[..k] + l[k + 1..];
    forall j ensures j in rest <==> j in l && j != l[k] {
      if j in rest {
        var m :| 0 <= m < |rest| && rest[m] == j;
        assert l[if m < k then m else m + 1] == j;
      }
      if j in l && j != l[k] {
        var m :| 0 <= m < |l| && l[m] == j;
        assert rest[if m < k then m else m - 1] == j;
      }
    }
  }

  lemma ListInRange(ds: Descriptors, head: int, l: seq<int>, i: int)
    requires IsList(ds, head, l) && i in l
    ensures 0 <= i < |ds| && IndexOrEnd(ds[i].nextIdx, |ds|) && IndexOrEnd(ds[i].prevIdx, |ds|)
  {
    var k: nat :| k < |l| && l[k] == i;
    assert Linked(ds, l, k);
    if k + 1 < |l| { assert Linked(ds, l, k + 1); }
    if k > 0 { assert Linked(ds, l, k - 1); }
  }

  lemma WfInRange(t: Table, free: seq<int>, full: seq<int>)
    requires Wf(t, free, full)
    ensures InRange(t)
  {
    forall i | 0 <= i < |t.ds|
      ensures IndexOrEnd(t.ds[i].nextIdx, |t.ds|) && IndexOrEnd(t.ds[i].prevIdx, |t.ds|)
    {
      if i in free { ListInRange(t.ds, t.nextFree, free, i); } else { ListInRange(t.ds, t.nextFull, full, i); }
    }
    if free != [] { ListInRange(t.ds, t.nextFree, free, free[0]); }
    if full != [] { ListInRange(t.ds, t.nextFull, full, full[0]); }
  }

  /** The table determines its lists. */
  lemma {:induction false} ListsAgree(ds: Descriptors, head: int, l: seq<int>, m: seq<int>, k: nat)
    requires IsList(ds, head, l) && IsList(ds, head, m)
    requires k < |l|
    ensures k < |m| && l[k] == m[k]
  {
    if k > 0 {
      ListsAgree(ds, head, l, m, k - 1);
      assert Linked(ds, l, k - 1) && Linked(ds, m, k - 1) && Linked(ds, l, k);
    } else {
      assert Linked(ds, l, 0);
    }
  }

  lemma ListsAreUnique(t: Table, free: seq<int>, full: seq<int>, free': seq<int>, full': seq<int>)
    requires Wf(t, free, full) && Wf(t, free', full')
    ensures free == free' && full == full'
  {
    if |free| > 0 { ListsAgree(t.ds, t.nextFree, free, free', |free| - 1); }
    if |free'| > 0 { ListsAgree(t.ds, t.nextFree, free', free, |free'| - 1); }
    if |full| > 0 { ListsAgree(t.ds, t.nextFull, full, full', |full| - 1); }
    if |full'| > 0 { ListsAgree(t.ds, t.nextFull, full', full, |full'| - 1); }
    forall k: nat | k < |free| ensures free[k] == free'[k] { ListsAgree(t.ds, t.nextFree, free, free', k); }
    forall k: nat | k < |full| ensures full[k] == full'[k] { ListsAgree(t.ds, t.nextFull, full, full', k); }
  }

  function UpTo(n: nat): (l: seq<int>)
    ensures |l| == n && forall k :: 0 <= k < n ==> l[k] == k
  {
    seq(n, k => k)
  }

  /** Acyclic lists over a finite table: together they have exactly as many nodes as the table. */
  lemma PartitionCounts(n: nat, free: seq<int>, full: seq<int>)
    requires Partition(n, free, full)
    ensures |free| + |full| == n
  {
    var l := free + full;
    assert Distinct(l) by {
      forall j, k | 0 <= j < |l| && 0 <= k < |l| && l[j] == l[k] ensures j == k {
        assert (if j < |free| then free[j] in free else full[j - |free|] in full);
        assert (if k < |free| then free[k] in free else full[k - |free|] in full);
      }
    }
    var all := UpTo(n);
    forall i ensures i in l <==> i in all {
      assert i in l <==> i in free || i in full;
      if 0 <= i < n { assert all[i] == i; }
    }
    assert (set i | i in l) == (set i | i in all);
    DistinctCounts(l);
    DistinctCounts(all);
  }

  lemma {:induction false} DistinctCounts(l: seq<int>)
    requires Distinct(l)
    ensures |set i | i in l| == |l|
  {
    if l != [] {
      assert Distinct(l[1..]);
      DistinctCounts(l[1..]);
      assert l[0] !in l[1..];
      assert (set i | i in l) == (set i | i in l[1..]) + {l[0]};
    }
  }

  // ------------------------------------------------------------------- initialisation

  /** initDescriptors, with the heads initPointers stores. */
  function Initial(n: nat, maxLen: nat): Table
  {
    Table(seq(n, i => Descriptor(0, 0, 0, if i + 1 < n then i + 1 else -1, i - 1, seq(maxLen + 1, _ => NUL))), 0, -1)
  }

  lemma InitialWf(n: nat, maxLen: nat)
    requires n > 0
    ensures Wf(Initial(n, maxLen), UpTo(n), [])
  {
    var l := UpTo(n);
    forall i ensures i in l <==> 0 <= i < n {
      if 0 <= i < n { assert l[i] == i; }
    }
  }

  // ------------------------------------------------------------ lists under single changes

  /** A list does not notice changes to the links of nodes outside it. */
  lemma ListElsewhere(ds: Descriptors, ds': Descriptors, head: int, l: seq<int>)
    requires IsList(ds, head, l) && |ds'| == |ds|
    requires forall j :: j in l && 0 <= j < |ds| ==> ds'[j].nextIdx == ds[j].nextIdx && ds'[j].prevIdx == ds[j].prevIdx
    ensures IsList(ds', head, l)
  {
    forall k: nat | k < |l| ensures Linked(ds', l, k) {
      assert Linked(ds, l, k) && l[k] in l;
    }
  }

  /** Unlinking the node between a and b leaves the list a + b. */
  lemma UnlinkList(ds: Descriptors, head: int, a: seq<int>, i: int, b: seq<int>)
    requires IsList(ds, head, a + [i] + b) && Distinct(a + [i] + b)
    ensures 0 <= i < |ds| && IndexOrEnd(ds[i].prevIdx, |ds|) && IndexOrEnd(ds[i].nextIdx, |ds|)
    ensures ds[i].nextIdx == (if b == [] then -1 else b[0]) && (ds[i].prevIdx == -1 <==> a == [])
    ensures IsList(Unlink(ds, i), if a == [] then ds[i].nextIdx else head, a + b)
    ensures forall j :: 0 <= j < |ds| && j !in a + b ==> Unlink(ds, i)[j] == ds[j]
    ensures forall j :: 0 <= j < |ds| ==> SamePayload(ds[j], Unlink(ds, i)[j])
  {
    var l := a + [i] + b;
    assert l[|a|] == i && Linked(ds, l, |a|);
    ListInRange(ds, head, l, i);
    var ds' := Unlink(ds, i);
    if a != [] { assert Linked(ds, l, |a| - 1) && a[|a| - 1] in a + b; }
    if b != [] { assert Linked(ds, l, |a| + 1) && l[|a| + 1] == b[0] && b[0] in a + b; }
    forall k: nat | k < |a + b| ensures Linked(ds', a + b, k) {
      assert Linked(ds, l, if k < |a| then k else k + 1);
    }
  }

  /** Storing i as predecessor of the head, and the head as successor of i, puts i in front. */
  lemma PushList(ds: Descriptors, head: int, l: seq<int>, i: int, ds': Descriptors)
    requires IsList(ds, head, l) && Distinct(l) && i !in l && 0 <= i < |ds| == |ds'|
    requires ds'[i].nextIdx == head && ds'[i].prevIdx == -1
    requires forall j :: j in l && 0 <= j < |ds| ==>
               ds'[j].nextIdx == ds[j].nextIdx && ds'[j].prevIdx == if j == head then i else ds[j].prevIdx
    ensures IsList(ds', i, [i] + l)
  {
    var m := [i] + l;
    forall k: nat | k < |m| ensures Linked(ds', m, k) {
      if k > 0 { assert Linked(ds, l, k - 1) && l[k - 1] in l; }
    }
  }

  // ---------------------------------------------------------------------- taking

  /** After the unlinking, taking writes the links of the taken node and of the old head. */
  lemma TakeEffect(t: Table)
    requires InRange(t) && t.nextFree != -1
    ensures var (t', i) := Take(t);
            var ds := Unlink(t.ds, t.nextFree);
            && i == t.nextFree == t'.nextFull && t'.nextFree == ds[i].nextIdx
            && t'.ds[i].nextIdx == t.nextFull && t'.ds[i].prevIdx == (if t.nextFull == -1 then ds[i].prevIdx else -1)
            && (forall j :: 0 <= j < |t.ds| && j != i ==>
                  t'.ds[j].nextIdx == ds[j].nextIdx && t'.ds[j].prevIdx == if j == t.nextFull then i else ds[j].prevIdx)
            && (forall j :: 0 <= j < |t.ds| ==> SamePayload(ds[j], t'.ds[j]))
  {
    hide Unlink;
  }

  /** Taking moves the head of the free list to the head of the full list, and changes no payload.
      Nothing can be taken exactly when the free list is empty. */
  lemma TakeWf(t: Table, free: seq<int>, full: seq<int>)
    requires Wf(t, free, full)
    ensures InRange(t)
    ensures var (t', i) := Take(t);
            && (i == -1 <==> free == [])
            && (i == -1 ==> t' == t)
            && (i != -1 ==> i == free[0] && Wf(t', free[1..], [i] + full))
            && (forall j :: 0 <= j < |t.ds| ==> SamePayload(t.ds[j], t'.ds[j]))
  {
    WfInRange(t, free, full);
    if free != [] {
      assert free[0] in free;
      var rest := free[1..];
      forall j | j in rest ensures j in free && j != free[0] {
        var k :| 0 <= k < |rest| && rest[k] == j;
        assert free[k + 1] == j;
      }
      assert free == [] + [free[0]] + rest && [] + rest == rest;
      assert Linked(t.ds, free, 0);
      UnlinkList(t.ds, t.nextFree, [], free[0], rest);
      TakeFull(t, rest, full);
      TakeFree(t, rest, full);
      TakePartition(|t.ds|, free, full);
      TakeEffect(t);
      hide Unlink, Take, IsList, Partition;
    }
  }

  lemma TakeFull(t: Table, rest: seq<int>, full: seq<int>)
    requires InRange(t) && t.nextFree != -1 && t.ds[t.nextFree].prevIdx == -1
    requires IsList(t.ds, t.nextFull, full) && Distinct(full)
    requires t.nextFree !in full && t.nextFree !in rest && forall j :: j in rest ==> j !in full
    requires forall j :: 0 <= j < |t.ds| && j !in rest ==> Unlink(t.ds, t.nextFree)[j] == t.ds[j]
    ensures IsList(Take(t).0.ds, Take(t).0.nextFull, [t.nextFree] + full)
  {
    TakeEffect(t);
    hide Unlink, Linked, Take, Distinct;
    var ds := Unlink(t.ds, t.nextFree);
    ListElsewhere(t.ds, ds, t.nextFull, full);
    PushList(ds, t.nextFull, full, t.nextFree, Take(t).0.ds);
  }

  lemma TakeFree(t: Table, rest: seq<int>, full: seq<int>)
    requires InRange(t) && t.nextFree != -1 && t.nextFree !in rest
    requires full != [] ==> t.nextFull == full[0]
    requires full == [] ==> t.nextFull == -1
    requires forall j :: j in rest ==> j !in full
    requires IsList(Unlink(t.ds, t.nextFree), Unlink(t.ds, t.nextFree)[t.nextFree].nextIdx, rest)
    ensures IsList(Take(t).0.ds, Take(t).0.nextFree, rest)
  {
    TakeEffect(t);
    if full != [] { assert full[0] in full; }
    hide Unlink, Linked, Take;
    ListElsewhere(Unlink(t.ds, t.nextFree), Take(t).0.ds, Take(t).0.nextFree, rest);
  }

  lemma TakePartition(n: nat, free: seq<int>, full: seq<int>)
    requires Partition(n, free, full) && free != []
    ensures Partition(n, free[1..], [free[0]] + full)
  {
    var rest, full' := free[1..], [free[0]] + full;
    assert forall j :: j in free <==> j == free[0] || j in rest;
    assert forall j :: j in full' <==> j == free[0] || j in full;
    forall j, k | 0 <= j < |full'| && 0 <= k < |full'| && full'[j] == full'[k] ensures j == k {
      if j > 0 && k > 0 { assert full[j - 1] == full[k - 1]; }
      if j > 0 { assert full[j - 1] in full; }
      if k > 0 { assert full[k - 1] in full; }
    }
  }

  // -------------------------------------------------------------------- returning

  /** After the unlinking, returning blanks the node and writes its links and the old head's. */
  lemma PutEffect(code: Code, t: Table, i: int)
    requires InRange(t) && 0 <= i < |t.ds| && t.nextFree != i
    ensures var t' := Put(code, t, i);
            var ds := Unlink(t.ds, i);
            && t'.nextFree == i
            && t'.nextFull == (if code.Repaired? && t.ds[i].prevIdx == -1 then t.ds[i].nextIdx else t.nextFull)
            && t'.ds[i].nextIdx == t.nextFree && t'.ds[i].prevIdx == -1
            && (forall j :: 0 <= j < |t.ds| && j != i ==>
                  t'.ds[j].nextIdx == ds[j].nextIdx && t'.ds[j].prevIdx == if j == t.nextFree then i else ds[j].prevIdx)
            && (forall j :: 0 <= j < |t.ds| && j != i ==> SamePayload(ds[j], t'.ds[j]))
            && SamePayload(t'.ds[i], Blank(ds[i]))
  {
    hide Unlink;
  }

  /** Returning descriptor i, which sits between a and b on the full list, makes it the head of the
      free list and blank; every other payload stays. */
  lemma PutWf(code: Code, t: Table, free: seq<int>, a: seq<int>, i: int, b: seq<int>)
    requires Wf(t, free, a + [i] + b)
    requires code.Repaired? || a != []
    ensures InRange(t) && 0 <= i < |t.ds|
    ensures var t' := Put(code, t, i);
            && Wf(t', [i] + free, a + b)
            && (forall j :: 0 <= j < |t.ds| && j != i ==> SamePayload(t.ds[j], t'.ds[j]))
            && SamePayload(t'.ds[i], Blank(t.ds[i]))
  {
    var full := a + [i] + b;
    WfInRange(t, free, full);
    assert i in full;
    assert Distinct(full);
    if a == [] { assert full[0] == i; } else { assert full[0] == a[0]; }
    UnlinkList(t.ds, t.nextFull, a, i, b);
    PutPartition(|t.ds|, free, a, i, b);
    if free != [] { assert free[0] in free; }
    hide Unlink, Linked, Put, Partition;
    PutEffect(code, t, i);
    var ds := Unlink(t.ds, i);
    var t' := Put(code, t, i);
    ListElsewhere(t.ds, ds, t.nextFree, free);
    PushList(ds, t.nextFree, free, i, t'.ds);
    ListElsewhere(ds, t'.ds, t'.nextFull, a + b);
  }

  lemma PutPartition(n: nat, free: seq<int>, a: seq<int>, i: int, b: seq<int>)
    requires Partition(n, free, a + [i] + b)
    ensures Partition(n, [i] + free, a + b)
    ensures Distinct(free) && i !in a + b && i !in free
    ensures forall j :: j in a + b ==> j !in free
  {
    var full := a + [i] + b;
    assert full[|a|] == i;
    assert forall j :: j in full <==> j in a || j == i || j in b;
    forall j, k | 0 <= j < |a + b| && 0 <= k < |a + b| && (a + b)[j] == (a + b)[k] ensures j == k {
      assert full[if j < |a| then j else j + 1] == full[if k < |a| then k else k + 1];
    }
    forall k | 0 <= k < |a + b| ensures (a + b)[k] != i {
      assert full[if k < |a| then k else k + 1] == (a + b)[k];
    }
    forall j, k | 0 <= j < |free| + 1 && 0 <= k < |free| + 1 && ([i] + free)[j] == ([i] + free)[k] ensures j == k {
      assert i in full;
      if j > 0 { assert free[j - 1] in free; }
      if k > 0 { assert free[k - 1] in free; }
    }
  }

  /** Returning descriptor i once more, when it sits behind others on the free list already, moves it to the front
      and blanks it; the full list stays. */
  lemma PutAgainWf(code: Code, t: Table, a: seq<int>, i: int, b: seq<int>, full: seq<int>)
    requires Wf(t, a + [i] + b, full) && a != []
    ensures InRange(t) && 0 <= i < |t.ds|
    ensures var t' := Put(code, t, i);
            && Wf(t', [i] + (a + b), full)
            && (forall j :: 0 <= j < |t.ds| && j != i ==> SamePayload(t.ds[j], t'.ds[j]))
            && SamePayload(t'.ds[i], Blank(t.ds[i]))
  {
    var free := a + [i] + b;
    WfInRange(t, free, full);
    assert i in free;
    assert Distinct(free);
    assert free[0] == a[0] && free[|a|] == i;
    UnlinkList(t.ds, t.nextFree, a, i, b);
    PutAgainPartition(|t.ds|, a, i, b, full);
    assert (a + b)[0] == a[0] && a[0] in a + b;
    hide Unlink, Linked, Put, Partition;
    PutEffect(code, t, i);
    var ds := Unlink(t.ds, i);
    var t' := Put(code, t, i);
    ListElsewhere(t.ds, ds, t.nextFull, full);
    PushList(ds, t.nextFree, a + b, i, t'.ds);
    ListElsewhere(ds, t'.ds, t'.nextFull, full);
  }

  lemma PutAgainPartition(n: nat, a: seq<int>, i: int, b: seq<int>, full: seq<int>)
    requires Partition(n, a + [i] + b, full)
    ensures Partition(n, [i] + (a + b), full)
    ensures Distinct(a + b) && i !in a + b && i !in full
    ensures forall j :: j in full ==> j !in a + b
  {
    assert Partition(n, full, a + [i] + b);
    PutPartition(n, full, a, i, b);
    var free := [i] + (a + b);
    forall j, k | 0 <= j < |free| && 0 <= k < |free| && free[j] == free[k] ensures j == k {
      if j > 0 { assert (a + b)[j - 1] in a + b; }
      if k > 0 { assert (a + b)[k - 1] in a + b; }
    }
    assert forall j :: j in a + [i] + b <==> j in a + b || j == i;
    assert forall j :: j in free <==> j in a + b || j == i;
  }

  /** Returning the head of the free list once more makes it its own successor. */
  lemma PutFreeHeadBreaks(code: Code, t: Table, free: seq<int>, full: seq<int>)
    requires Wf(t, free, full) && free != []
    ensures InRange(t) && 0 <= free[0] < |t.ds|
    ensures !WellFormed(Put(code, t, free[0]))
  {
    WfInRange(t, free, full);
    assert free[0] in free;
    var t' := Put(code, t, free[0]);
    forall free', full' | IsList(t'.ds, t'.nextFree, free') ensures !Partition(|t'.ds|, free', full') {
      assert Linked(t'.ds, free', 0);
    }
  }

  /** As written, returning the head of the full list leaves a table no pair of lists explains:
      the descriptor heads both. */
  lemma PutHeadBreaks(t: Table, free: seq<int>, full: seq<int>)
    requires Wf(t, free, full) && full != []
    ensures InRange(t) && 0 <= full[0] < |t.ds|
    ensures !WellFormed(Put(AsWritten, t, full[0]))
  {
    WfInRange(t, free, full);
    assert full[0] in full;
    var t' := Put(AsWritten, t, full[0]);
    forall free', full' | IsList(t'.ds, t'.nextFree, free') && IsList(t'.ds, t'.nextFull, full')
      ensures !Partition(|t'.ds|, free', full')
    {
      assert full[0] in free' && full[0] in full';
    }
  }
}
