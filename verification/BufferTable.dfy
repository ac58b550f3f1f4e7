/** What BufferManager's calls do (src/IPC_BufferManager.cpp), as functions on what one process sees:
    the shared table, the kernel's segments, and the process's own cache of attached segments. */
module BufferTable {
  import opened Common
  import opened CNames
  import opened DescriptorLists
  import FutexMutex

  const FUTEX_BYTES := 4

  /** Keys name segments; the number of a segment is never used again, unlike its key.
      word is the mutex at its start. */
  datatype Segment = Segment(number: nat, bytes: nat, word: int)

  /** maxLen is the number of characters of a name that count. */
  datatype View = View(maxLen: nat, t: Table, segments: map<int, Segment>, nextNumber: nat, cache: map<int, nat>)

  /** The fields of a Buffer that is not default-constructed: its descriptor, its size, the
      segment its pointers point into, and whether it created the buffer. */
  datatype Attached = Attached(desc: int, size: nat, number: nat, isCreator: bool)

  ghost predicate Shaped(v: View) {
    v.maxLen > 0 && InRange(v.t) && forall i :: 0 <= i < |v.t.ds| ==> |v.t.ds[i].id| == v.maxLen + 1
  }

  function NameAt(v: View, i: int): seq<char>
    requires 0 <= i < |v.t.ds|
  {
    Name(v.t.ds[i].id, v.maxLen)
  }

  const WALKING := -2

  /** getDescriptor's walk, for a number of steps: an index, -1 at the end of the list, or
      WALKING when the steps do not get anywhere. */
  ghost function Walk(v: View, i: int, id: seq<char>, steps: nat): (r: int)
    requires Shaped(v) && IndexOrEnd(i, |v.t.ds|)
    ensures WALKING <= r < |v.t.ds|
    decreases steps
  {
    if i == -1 then -1
    else if steps == 0 then WALKING
    else if StrNEqual(CStr(id), v.t.ds[i].id, v.maxLen) then i
    else Walk(v, v.t.ds[i].nextIdx, id, steps - 1)
  }

  ghost function Lookup(v: View, id: seq<char>): (r: int)
    requires Shaped(v)
    ensures r < |v.t.ds|
  {
    Walk(v, v.t.nextFull, id, |v.t.ds|)
  }

  function WithPayload(t: Table, i: int, d: Descriptor): Table
    requires 0 <= i < |t.ds|
  {
    t.(ds := t.ds[i := d.(nextIdx := t.ds[i].nextIdx, prevIdx := t.ds[i].prevIdx)])
  }

  lemma ShapedPayload(v: View, i: int, count: nat)
    requires Shaped(v) && 0 <= i < |v.t.ds|
    ensures Shaped(v.(t := WithPayload(v.t, i, v.t.ds[i].(refCount := count))))
  {
  }

  function SizeOf(d: Descriptor): nat {
    (d.bytes - FUTEX_BYTES) % SIZE_T
  }

  function Increment(v: View, i: int): View
    requires 0 <= i < |v.t.ds|
  {
    v.(t := WithPayload(v.t, i, v.t.ds[i].(refCount := v.t.ds[i].refCount + 1)))
  }

  /** The branch of getBuffer that creates. key is the key allocShmKey found unused, which another program
      may have taken since; attached says whether the kernel is willing to create and attach a segment. */
  ghost function Create(v: View, id: seq<char>, bytes: nat, key: int, attached: bool): (r: (View, Result<Attached>))
    requires Shaped(v)
    ensures Shaped(r.0) && r.0.maxLen == v.maxLen && |r.0.t.ds| == |v.t.ds|
  {
    if bytes == 0 then (v, Throw(ZeroBytes)) else
    var (t1, i) := Take(v.t);
    if i == -1 then (v.(t := t1), Throw(NoFreeDescriptor)) else
    var d := Descriptor(key, (bytes + FUTEX_BYTES) % SIZE_T, 0, 0, 0, StrNCpy(t1.ds[i].id, CStr(id), v.maxLen));
    var v1 := v.(t := WithPayload(t1, i, d));
    if !attached || key in v.segments then (v1, Throw(SegmentFailed)) else
    var segment := Segment(v.nextNumber, d.bytes, FutexMutex.Construct(0, true));
    var v2 := v1.(segments := v.segments[key := segment], nextNumber := v.nextNumber + 1,
                  cache := v.cache[i := v.nextNumber]);
    (Increment(v2, i), Ok(Attached(i, SizeOf(d), v.nextNumber, true)))
  }

  /** A Mutex object on the word of the segment with that number, which it did not create. */
  function Constructed(segments: map<int, Segment>, number: nat): map<int, Segment> {
    map k | k in segments ::
      if segments[k].number == number then segments[k].(word := FutexMutex.Construct(segments[k].word, false))
      else segments[k]
  }

  lemma ConstructedIs(segments: map<int, Segment>, number: nat)
    ensures Constructed(segments, number) == segments
  {
    var c := Constructed(segments, number);
    forall k | k in segments ensures c[k] == segments[k] {
      assert segments[k].(word := segments[k].word) == segments[k];
    }
  }

  /** The branch of getBuffer that maps a buffer that exists. */
  ghost function Map(v: View, i: int, attached: bool): (r: (View, Result<Attached>))
    requires Shaped(v) && 0 <= i < |v.t.ds|
    ensures Shaped(r.0) && r.0.maxLen == v.maxLen && |r.0.t.ds| == |v.t.ds|
  {
    var d := v.t.ds[i];
    if i in v.cache then
      (Increment(v.(segments := Constructed(v.segments, v.cache[i])), i), Ok(Attached(i, SizeOf(d), v.cache[i], false)))
    else if !attached || d.shmKey !in v.segments then
      (v, Throw(SegmentFailed))
    else
      var number := v.segments[d.shmKey].number;
      (Increment(v.(segments := Constructed(v.segments, number), cache := v.cache[i := number]), i),
       Ok(Attached(i, SizeOf(d), number, false)))
  }

  /** getBuffer. */
  ghost function Get(v: View, id: seq<char>, bytes: nat, key: int, attached: bool): (r: (View, Result<Attached>))
    requires Shaped(v)
    ensures Shaped(r.0) && r.0.maxLen == v.maxLen && |r.0.t.ds| == |v.t.ds|
  {
    var i := Lookup(v, id);
    if i < 0 then Create(v, id, bytes, key, attached) else Map(v, i, attached)
  }

  /** --ref_count on an unsigned 64-bit field. */
  function Decremented(count: nat): nat {
    if count == 0 then SIZE_T - 1 else count - 1
  }

  /** detachDescriptor. */
  ghost function Detach(code: Code, v: View, i: int): (r: View)
    requires Shaped(v) && 0 <= i < |v.t.ds|
    ensures Shaped(r) && r.maxLen == v.maxLen && |r.t.ds| == |v.t.ds|
  {
    v.(t := Put(code, v.t, i), segments := v.segments - {v.t.ds[i].shmKey}, cache := v.cache - {i})
  }

  /** bufferFree. */
  ghost function Free(code: Code, v: View, i: int): (r: View)
    requires Shaped(v) && 0 <= i < |v.t.ds|
    ensures Shaped(r) && r.maxLen == v.maxLen && |r.t.ds| == |v.t.ds|
  {
    var v1 := v.(t := WithPayload(v.t, i, v.t.ds[i].(refCount := Decremented(v.t.ds[i].refCount))));
    if v1.t.ds[i].refCount == 0 then Detach(code, v1, i) else v1
  }

  /** The destructor's loop from index i on: every descriptor with a name is detached. */
  ghost function TeardownFrom(code: Code, v: View, i: nat): (r: View)
    requires Shaped(v) && i <= |v.t.ds|
    ensures Shaped(r) && |r.t.ds| == |v.t.ds|
    decreases |v.t.ds| - i
  {
    if i == |v.t.ds| then v
    else if CharAt(v.t.ds[i].id, 0) == NUL then TeardownFrom(code, v, i + 1)
    else TeardownFrom(code, Detach(code, v, i), i + 1)
  }

  // ------------------------------------------------------------------------ lookup

  /** The names on a list are those of different buffers. */
  ghost predicate DistinctNames(v: View, full: seq<int>)
    requires forall k :: 0 <= k < |full| ==> 0 <= full[k] < |v.t.ds|
  {
    forall j, k :: 0 <= j < |full| && 0 <= k < |full| && NameAt(v, full[j]) == NameAt(v, full[k]) ==> j == k
  }

  lemma FullInRange(t: Table, free: seq<int>, full: seq<int>)
    requires Wf(t, free, full)
    ensures forall k :: 0 <= k < |full| ==> 0 <= full[k] < |t.ds|
    ensures |full| <= |t.ds| && (|full| == |t.ds| <==> free == [])
  {
    forall k | 0 <= k < |full| ensures 0 <= full[k] < |t.ds| {
      assert full[k] in full;
    }
    PartitionCounts(|t.ds|, free, full);
  }

  /** From the k-th node on, the walk finds the first node with the name and reaches the end
      otherwise, if it has steps enough for the rest of the list. */
  lemma {:induction false} WalkFinds(v: View, full: seq<int>, k: nat, id: seq<char>, steps: nat)
    requires Shaped(v) && IsList(v.t.ds, v.t.nextFull, full)
    requires k <= |full| && |full| - k <= steps
    requires forall j :: 0 <= j < |full| ==> 0 <= full[j] < |v.t.ds|
    ensures var r := Walk(v, if k < |full| then full[k] else -1, id, steps);
            if r == -1 then forall j :: k <= j < |full| ==> NameAt(v, full[j]) != Name(id, v.maxLen)
            else r in full && NameAt(v, r) == Name(id, v.maxLen)
    decreases steps
  {
    if k < |full| {
      EqualIffSameName(id, v.t.ds[full[k]].id, v.maxLen);
      assert Linked(v.t.ds, full, k);
      if NameAt(v, full[k]) != Name(id, v.maxLen) { WalkFinds(v, full, k + 1, id, steps - 1); }
    }
  }

  /** On a well-formed table the lookup terminates, and returns a full descriptor exactly when
      that has the name. */
  lemma LookupFinds(v: View, free: seq<int>, full: seq<int>, id: seq<char>)
    requires Shaped(v) && Wf(v.t, free, full)
    ensures forall k :: 0 <= k < |full| ==> 0 <= full[k] < |v.t.ds|
    ensures var r := Lookup(v, id);
            && (r == -1 || (r in full && NameAt(v, r) == Name(id, v.maxLen)))
            && (r == -1 <==> forall j :: 0 <= j < |full| ==> NameAt(v, full[j]) != Name(id, v.maxLen))
            && (DistinctNames(v, full) ==>
                  forall j :: 0 <= j < |full| && NameAt(v, full[j]) == Name(id, v.maxLen) ==> r == full[j])
  {
    FullInRange(v.t, free, full);
    WalkFinds(v, full, 0, id, |v.t.ds|);
  }

  /** The same, character by character. */
  lemma LookupFindsAlike(v: View, free: seq<int>, full: seq<int>, id: seq<char>)
    requires Shaped(v) && Wf(v.t, free, full)
    ensures forall k :: 0 <= k < |full| ==> 0 <= full[k] < |v.t.ds|
    ensures var r := Lookup(v, id);
            && (r == -1 || (r in full && 0 <= r < |v.t.ds| && Alike(v.t.ds[r].id, id, v.maxLen)))
            && (r == -1 <==> forall j :: 0 <= j < |full| ==> !Alike(v.t.ds[full[j]].id, id, v.maxLen))
  {
    hide Wf, Lookup, Alike, Name;
    LookupFinds(v, free, full, id);
    FullInRange(v.t, free, full);
    forall k | 0 <= k < |full|
      ensures NameAt(v, full[k]) == Name(id, v.maxLen) <==> Alike(v.t.ds[full[k]].id, id, v.maxLen)
    {
      SameNameIff(v.t.ds[full[k]].id, id, v.maxLen);
    }
  }

  lemma LookupSign(v: View, id: seq<char>)
    requires Shaped(v) && WellFormed(v.t)
    ensures Lookup(v, id) >= -1
  {
    var free, full :| Wf(v.t, free, full);
    LookupFinds(v, free, full, id);
  }

  /** As written, once the head of the full list has been returned and taken again, it is its own
      successor: looking up any other name walks for ever. */
  lemma {:induction false} ReturnedHeadLoops(v: View, free: seq<int>, full: seq<int>, id: seq<char>, steps: nat)
    requires Shaped(v) && Wf(v.t, free, full) && full != []
    ensures InRange(v.t) && 0 <= full[0] < |v.t.ds|
    ensures var (t', i) := Take(Put(AsWritten, v.t, full[0]));
            var v' := v.(t := t');
            && i == full[0] == t'.nextFull && t'.ds[i].nextIdx == i
            && (Name(id, v.maxLen) != NameAt(v', i) ==> Walk(v', t'.nextFull, id, steps) == WALKING)
  {
    FullInRange(v.t, free, full);
    var i := full[0];
    assert i in full && i !in free;
    assert v.t.nextFree != i;
    PutEffect(AsWritten, v.t, i);
    var t1 := Put(AsWritten, v.t, i);
    TakeEffect(t1);
    var t' := Take(t1).0;
    EqualIffSameName(id, t'.ds[i].id, v.maxLen);
    if Name(id, v.maxLen) != NameAt(v.(t := t'), i) { SelfLoopWalks(v.(t := t'), i, id, steps); }
  }

  lemma {:induction false} SelfLoopWalks(v: View, i: int, id: seq<char>, steps: nat)
    requires Shaped(v) && 0 <= i < |v.t.ds| && v.t.ds[i].nextIdx == i
    requires Name(id, v.maxLen) != NameAt(v, i)
    ensures Walk(v, i, id, steps) == WALKING
    decreases steps
  {
    EqualIffSameName(id, v.t.ds[i].id, v.maxLen);
    if steps > 0 { SelfLoopWalks(v, i, id, steps - 1); }
  }
}
