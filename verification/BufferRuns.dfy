/** Runs of any number of processes that share one descriptor table: getBuffer, and copying,
    moving, assigning and destroying Buffer objects. A step is what happens under the manager's mutex at
    one go: a whole call, except that operator= takes the mutex twice. Where a signal interrupts the wait for
    the mutex, lock() throws: that changes nothing but for the second time in operator=, and ends the process in
    a destructor. */
module BufferRuns {
  import opened Common
  import opened CNames
  import opened DescriptorLists
  import opened BufferTable
  import opened BufferBook
  import FutexMutex

  datatype State = State(maxLen: nat, t: Table, segments: map<int, Segment>, nextNumber: nat,
                         caches: Caches, handles: Handles)

  datatype Op =
    | Default(h: nat, p: nat)        // Buffer b;
    | GetBuffer(h: nat, p: nat, id: seq<char>, bytes: nat, key: int, attached: bool)
    | Copy(h: nat, o: nat)           // copy or move construction: both leave the source alive
    | AssignFree(h: nat)             // operator=, first: bufferFree of what h refers to
    | AssignCopy(h: nat, o: nat)     // operator=, then: BufferInit and RefCountInc_ts
    | AssignThrow(h: nat, o: nat)    // or BufferInit, and RefCountInc_ts is interrupted
    | Destroy(h: nat)
    | SetWord(key: int, word: int)   // a client locks or unlocks a buffer

  function ViewOf(s: State, p: nat): View {
    View(s.maxLen, s.t, s.segments, s.nextNumber, CacheOf(s.caches, p))
  }

  function WithView(s: State, p: nat, v: View): State {
    s.(t := v.t, segments := v.segments, nextNumber := v.nextNumber, caches := s.caches[p := v.cache])
  }

  predicate IsLive(s: State, h: nat) {
    h in s.handles && s.handles[h].Live? && 0 <= s.handles[h].at.desc < |s.t.ds|
  }

  /** The object has the fields of an attached buffer, counted or not. */
  predicate HasFields(s: State, h: nat) {
    h in s.handles && !s.handles[h].Null? && 0 <= s.handles[h].at.desc < |s.t.ds|
  }

  /** The object goes through bufferFree when it dies or is assigned to. */
  predicate Frees(s: State, h: nat) {
    HasFields(s, h) && !s.handles[h].Freed?
  }

  /** What operator= may do after its first part, or without one. */
  predicate MayTakeOver(s: State, h: nat, o: nat) {
    && h in s.handles && (s.handles[h].Null? || s.handles[h].Freed?)
    && HasFields(s, o) && s.handles[h].proc == s.handles[o].proc
  }

  /** Names of new objects are fresh; a Buffer that refers to nothing is not destroyed or copied. */
  ghost predicate Enabled(s: State, op: Op) {
    && Shaped(ViewOf(s, 0))
    && match op
       case Default(h, _) => h !in s.handles
       case GetBuffer(h, _, _, bytes, _, _) => h !in s.handles && bytes < SIZE_T
       case Copy(h, o) => h !in s.handles && HasFields(s, o)
       case AssignFree(h) => Frees(s, h)
       case AssignCopy(h, o) => MayTakeOver(s, h, o)
       case AssignThrow(h, o) => MayTakeOver(s, h, o)
       case Destroy(h) => Frees(s, h)
       case SetWord(key, _) => key in s.segments
  }

  /** BufferInit and RefCountInc_ts. */
  function Share(s: State, h: nat, o: nat): State
    requires HasFields(s, o)
  {
    var p, at := s.handles[o].proc, s.handles[o].at;
    s.(t := Increment(ViewOf(s, p), at.desc).t, handles := s.handles[h := Live(p, at)])
  }

  ghost function Release(code: Code, s: State, h: nat): (s': State)
    requires Shaped(ViewOf(s, 0)) && HasFields(s, h)
    ensures Shaped(ViewOf(s', 0)) && |s'.t.ds| == |s.t.ds| && s'.handles == s.handles && s'.maxLen == s.maxLen
  {
    var p := s.handles[h].proc;
    assert Shaped(ViewOf(s, p));
    WithView(s, p, Free(code, ViewOf(s, p), s.handles[h].at.desc))
  }

  ghost function Step(code: Code, s: State, op: Op): State
    requires Enabled(s, op)
  {
    match op
    case Default(h, p) => s.(handles := s.handles[h := Null(p)])
    case GetBuffer(h, p, id, bytes, key, attached) =>
      assert Shaped(ViewOf(s, p));
      var (v, r) := Get(ViewOf(s, p), id, bytes, key, attached);
      var s' := WithView(s, p, v);
      if r.Ok? then s'.(handles := s.handles[h := Live(p, r.value)]) else s'
    case Copy(h, o) => Share(s, h, o)
    case AssignFree(h) =>
      var s' := Release(code, s, h);
      s'.(handles := s'.handles[h := Freed(s'.handles[h].proc, s'.handles[h].at)])
    case AssignCopy(h, o) => Share(s, h, o)
    case AssignThrow(h, o) => s.(handles := s.handles[h := Uncounted(s.handles[o].proc, s.handles[o].at)])
    case Destroy(h) =>
      var s' := Release(code, s, h);
      s'.(handles := s'.handles - {h})
    case SetWord(key, word) => s.(segments := s.segments[key := s.segments[key].(word := word)])
  }

  // ---------------------------------------------------------------- invariant

  /** The table is a pair of well-formed lists, and the records on the full list are
      consistent with segments and handles. */
  ghost predicate Explains(s: State, free: seq<int>, full: seq<int>) {
    && Wf(s.t, free, full)
    && Consistent(BookOf(s.maxLen, s.t, full), s.segments, s.nextNumber, s.handles)
  }

  ghost predicate Inv(s: State) {
    Shaped(ViewOf(s, 0)) && exists free, full :: Explains(s, free, full)
  }

  /** As written, the last handle on a descriptor may go when that is not the head of the full list. */
  predicate MayRelease(code: Code, s: State, h: nat)
    requires IsLive(s, h)
  {
    var d := s.t.ds[s.handles[h].at.desc];
    code.AsWritten? && d.refCount == 1 ==> d.prevIdx != -1
  }

  /** What was never counted may go when nobody uses its descriptor, which is free, so that only the count of a
      free descriptor is lowered. Should that become 0, which takes as many such steps as a size_t has values,
      the descriptor is returned once more: it must not be the next one to be taken, nor have the key of a
      segment in use. */
  ghost predicate MayDrop(s: State, i: int)
    requires 0 <= i < |s.t.ds|
  {
    && (forall g :: !RefersTo(s.handles, g, i))
    && (s.t.ds[i].refCount == 1 ==>
          && s.t.ds[i].prevIdx != -1
          && forall g :: IsLive(s, g) ==> s.t.ds[s.handles[g].at.desc].shmKey != s.t.ds[i].shmKey)
  }

  ghost predicate MayFree(code: Code, s: State, h: nat)
    requires HasFields(s, h)
  {
    if s.handles[h].Live? then MayRelease(code, s, h) else MayDrop(s, s.handles[h].at.desc)
  }

  /** A segment that is to be created can be; a released descriptor is not the head of the full list, as
      written; what was never counted does not count for others; and what is copied, or taken over by
      operator=, still stands for a buffer that is alive. */
  ghost predicate Guard(code: Code, s: State, op: Op)
    requires Enabled(s, op)
  {
    match op
    case GetBuffer(_, p, id, bytes, key, attached) =>
      assert Shaped(ViewOf(s, p));
      Lookup(ViewOf(s, p), id) < 0 && bytes > 0 && s.t.nextFree != -1 ==> attached && key !in s.segments
    case Copy(_, o) => StillThere(s, s.handles[o].at)
    case AssignFree(h) => MayFree(code, s, h)
    case AssignCopy(_, o) => StillThere(s, s.handles[o].at)
    case Destroy(h) => MayFree(code, s, h)
    case _ => true
  }

  /** Some handle is alive on the descriptor, and its buffer has the size that at gives. */
  ghost predicate StillThere(s: State, at: Attached)
    requires 0 <= at.desc < |s.t.ds|
  {
    (exists g :: RefersTo(s.handles, g, at.desc)) && SizeOf(s.t.ds[at.desc]) == at.size
  }

  // ------------------------------------------- payload changes: lists stay, one record changes

  lemma PayloadKeepsLists(t: Table, i: int, d: Descriptor, free: seq<int>, full: seq<int>)
    requires 0 <= i < |t.ds|
    ensures Wf(WithPayload(t, i, d), free, full) <==> Wf(t, free, full)
  {
    var t' := WithPayload(t, i, d);
    forall l: seq<int>, k: nat ensures Linked(t'.ds, l, k) <==> Linked(t.ds, l, k) {}
  }

  lemma PayloadBook(maxLen: nat, t: Table, i: int, d: Descriptor, full: seq<int>)
    requires 0 <= i < |t.ds|
    ensures i in full ==>
              BookOf(maxLen, WithPayload(t, i, d), full) == BookOf(maxLen, t, full)[i := RecordOf(maxLen, d)]
    ensures i !in full ==> BookOf(maxLen, WithPayload(t, i, d), full) == BookOf(maxLen, t, full)
  {
  }

  lemma BookKeys(s: State, free: seq<int>, full: seq<int>)
    requires Wf(s.t, free, full)
    ensures forall i :: i in full <==> i in BookOf(s.maxLen, s.t, full)
    ensures forall i :: i in full ==> 0 <= i < |s.t.ds|
  {
  }

  lemma Counted(s: State, i: int, count: nat, free: seq<int>, full: seq<int>)
    requires Shaped(ViewOf(s, 0)) && Wf(s.t, free, full) && i in full && 0 <= i < |s.t.ds|
    ensures var t' := WithPayload(s.t, i, s.t.ds[i].(refCount := count));
            var book := BookOf(s.maxLen, s.t, full);
            && i in book
            && Wf(t', free, full) && Shaped(ViewOf(s.(t := t'), 0))
            && BookOf(s.maxLen, t', full) == book[i := book[i].(count := count)]
  {
    var d := s.t.ds[i].(refCount := count);
    PayloadKeepsLists(s.t, i, d, free, full);
    PayloadBook(s.maxLen, s.t, i, d, full);
    BookKeys(s, free, full);
    hide Wf, Name, WithPayload;
    assert InRange(s.t);
    assert Shaped(ViewOf(s.(t := WithPayload(s.t, i, d)), 0)) by { PayloadShaped(s, i, d); }
  }

  lemma PayloadShaped(s: State, i: int, d: Descriptor)
    requires Shaped(ViewOf(s, 0)) && 0 <= i < |s.t.ds| && |d.id| == s.maxLen + 1
    ensures Shaped(ViewOf(s.(t := WithPayload(s.t, i, d)), 0))
  {
  }

  // ---------------------------------------------------------------- copying

  lemma LiveHandle(s: State, h: nat, free: seq<int>, full: seq<int>)
    requires Explains(s, free, full) && h in s.handles && s.handles[h].Live?
    ensures var i := s.handles[h].at.desc;
            && i in full && 0 <= i < |s.t.ds| && i in BookOf(s.maxLen, s.t, full)
            && BookOf(s.maxLen, s.t, full)[i] == RecordOf(s.maxLen, s.t.ds[i])
            && HandleOk(BookOf(s.maxLen, s.t, full), s.handles[h])
            && s.t.ds[i].refCount > 0
  {
    BookKeys(s, free, full);
    var book := BookOf(s.maxLen, s.t, full);
    assert HandleOk(book, s.handles[h]);
    hide Wf, SegmentsOk, NamesOk;
  }

  lemma ShareKeeps(s: State, h: nat, o: nat, free: seq<int>, full: seq<int>)
    requires Shaped(ViewOf(s, 0)) && Explains(s, free, full) && HasFields(s, o) && NotLive(s.handles, h)
    requires HandleOk(BookOf(s.maxLen, s.t, full), Live(s.handles[o].proc, s.handles[o].at))
    ensures Explains(Share(s, h, o), free, full) && Shaped(ViewOf(Share(s, h, o), 0))
  {
    hide Consistent, BookOf, Wf, HandleOk, WithPayload, Share, Shaped, SizeOf;
    var p, at := s.handles[o].proc, s.handles[o].at;
    InBook(s, Live(p, at), free, full);
    ShareIs(s, h, o);
    Counted(s, at.desc, s.t.ds[at.desc].refCount + 1, free, full);
    AddHandle(BookOf(s.maxLen, s.t, full), s.segments, s.nextNumber, s.handles, h, p, at);
  }

  lemma InBook(s: State, hd: Handle, free: seq<int>, full: seq<int>)
    requires Wf(s.t, free, full)
    ensures hd.Live? ==>
              (HandleOk(BookOf(s.maxLen, s.t, full), hd) <==>
                 && hd.at.desc in full && 0 <= hd.at.desc < |s.t.ds| && hd.at.size == SizeOf(s.t.ds[hd.at.desc]))
    ensures hd.Live? && hd.at.desc in full && 0 <= hd.at.desc < |s.t.ds| ==>
              BookOf(s.maxLen, s.t, full)[hd.at.desc].count == s.t.ds[hd.at.desc].refCount
  {
    BookKeys(s, free, full);
    hide Wf, SizeOf;
  }

  lemma ShareIs(s: State, h: nat, o: nat)
    requires HasFields(s, o)
    ensures var i := s.handles[o].at.desc;
            Share(s, h, o) == s.(t := WithPayload(s.t, i, s.t.ds[i].(refCount := s.t.ds[i].refCount + 1)),
                                 handles := s.handles[h := Live(s.handles[o].proc, s.handles[o].at)])
    ensures s.handles[o].Live? ==> s.handles[o] == Live(s.handles[o].proc, s.handles[o].at)
  {
  }

  // ---------------------------------------------------------------- releasing

  lemma FindNode(t: Table, free: seq<int>, full: seq<int>, i: int) returns (a: seq<int>, b: seq<int>)
    requires Wf(t, free, full) && i in full
    ensures full == a + [i] + b && 0 <= i < |t.ds|
    ensures a == [] <==> t.ds[i].prevIdx == -1
    ensures a == [] ==> i == full[0]
    ensures forall j :: j in a + b <==> j in full && j != i
  {
    a, b := FindIn(t.ds, t.nextFull, full, i);
  }

  lemma RemovedBook(maxLen: nat, t: Table, t': Table, full: seq<int>, i: int, full': seq<int>)
    requires |t'.ds| == |t.ds| && forall j :: j in full' <==> j in full && j != i
    requires forall j :: 0 <= j < |t.ds| && j != i ==> SamePayload(t.ds[j], t'.ds[j])
    ensures BookOf(maxLen, t', full') == BookOf(maxLen, t, full) - {i}
  {
  }

  /** The table after bufferFree has dropped one count. */
  function Dropped(t: Table, i: int): Table
    requires 0 <= i < |t.ds|
  {
    WithPayload(t, i, t.ds[i].(refCount := Decremented(t.ds[i].refCount)))
  }

  lemma DropLast(code: Code, s: State, i: int, free: seq<int>, full: seq<int>)
    returns (free': seq<int>, full': seq<int>)
    requires Shaped(ViewOf(s, 0)) && Wf(s.t, free, full) && i in full && 0 <= i < |s.t.ds|
    requires code.Repaired? || s.t.ds[i].prevIdx != -1
    ensures InRange(Dropped(s.t, i))
    ensures var t' := Put(code, Dropped(s.t, i), i);
            && Wf(t', free', full') && i !in full' && free' == [i] + free
            && BookOf(s.maxLen, t', full') == BookOf(s.maxLen, s.t, full) - {i}
            && (forall j :: 0 <= j < |s.t.ds| && j != i ==> SamePayload(s.t.ds[j], t'.ds[j]))
            && SamePayload(t'.ds[i], Blank(s.t.ds[i]))
  {
    var a, b := FindNode(s.t, free, full, i);
    free', full' := [i] + free, a + b;
    var t1 := Dropped(s.t, i);
    PayloadKeepsLists(s.t, i, t1.ds[i], free, full);
    assert forall j :: 0 <= j < |t1.ds| && j != i ==> t1.ds[j] == s.t.ds[j];
    PutWf(code, t1, free, a, i, b);
    hide Wf, Put, BookOf;
    RemovedBook(s.maxLen, s.t, Put(code, t1, i), full, i, full');
  }

  lemma ReleaseIs(code: Code, s: State, h: nat)
    requires Shaped(ViewOf(s, 0)) && HasFields(s, h)
    ensures var i, p := s.handles[h].at.desc, s.handles[h].proc;
            var t1 := Dropped(s.t, i);
            && InRange(t1)
            && Release(code, s, h) ==
                 if s.t.ds[i].refCount == 1
                 then s.(t := Put(code, t1, i), segments := s.segments - {s.t.ds[i].shmKey},
                         caches := s.caches[p := CacheOf(s.caches, p) - {i}])
                 else s.(t := t1, caches := s.caches[p := CacheOf(s.caches, p)])
  {
    hide Put;
  }

  lemma ReleaseSome(code: Code, s: State, h: nat, handles': Handles, free: seq<int>, full: seq<int>)
    requires Shaped(ViewOf(s, 0)) && Explains(s, free, full) && IsLive(s, h) && Without(s.handles, h, handles')
    requires s.t.ds[s.handles[h].at.desc].refCount > 1
    ensures Explains(Release(code, s, h).(handles := handles'), free, full)
  {
    var i := s.handles[h].at.desc;
    LiveHandle(s, h, free, full);
    DropHandle(BookOf(s.maxLen, s.t, full), s.segments, s.nextNumber, s.handles, h, handles');
    Counted(s, i, s.t.ds[i].refCount - 1, free, full);
    ReleaseIs(code, s, h);
    hide Consistent, BookOf, Wf, HandleOk, Put, Release, Shaped, Without;
  }

  lemma ReleaseLast(code: Code, s: State, h: nat, handles': Handles, free: seq<int>, full: seq<int>)
    returns (free': seq<int>, full': seq<int>)
    requires Shaped(ViewOf(s, 0)) && Explains(s, free, full) && IsLive(s, h) && MayRelease(code, s, h)
    requires Without(s.handles, h, handles') && s.t.ds[s.handles[h].at.desc].refCount == 1
    ensures Explains(Release(code, s, h).(handles := handles'), free', full')
    ensures s.handles[h].at.desc !in full'
  {
    LiveHandle(s, h, free, full);
    DropRecord(BookOf(s.maxLen, s.t, full), s.segments, s.nextNumber, s.handles, h, handles');
    free', full' := DropLast(code, s, s.handles[h].at.desc, free, full);
    ReleaseIs(code, s, h);
    hide Consistent, BookOf, Wf, HandleOk, Put, Release, Shaped, RefersTo, Without;
  }

  /** bufferFree for a handle that then refers to nothing. */
  lemma ReleaseKeeps(code: Code, s: State, h: nat, handles': Handles, free: seq<int>, full: seq<int>)
    returns (free': seq<int>, full': seq<int>)
    requires Shaped(ViewOf(s, 0)) && Explains(s, free, full) && IsLive(s, h) && MayRelease(code, s, h)
    requires Without(s.handles, h, handles')
    ensures Explains(Release(code, s, h).(handles := handles'), free', full')
    ensures Shaped(ViewOf(Release(code, s, h).(handles := handles'), 0))
  {
    LiveHandle(s, h, free, full);
    hide Explains, Release, MayRelease, Without;
    if s.t.ds[s.handles[h].at.desc].refCount == 1 {
      free', full' := ReleaseLast(code, s, h, handles', free, full);
    } else {
      ReleaseSome(code, s, h, handles', free, full);
      free', full' := free, full;
    }
  }

  // ------------------------------------------------- releasing what was never counted

  /** Returning a free descriptor once more. */
  lemma DropAgain(code: Code, s: State, i: int, free: seq<int>, full: seq<int>)
    returns (free': seq<int>)
    requires Shaped(ViewOf(s, 0)) && Wf(s.t, free, full) && i in free && 0 <= i < |s.t.ds| && s.t.ds[i].prevIdx != -1
    ensures InRange(Dropped(s.t, i))
    ensures var t' := Put(code, Dropped(s.t, i), i);
            && Wf(t', free', full) && (forall j :: j in free' <==> j in free)
            && BookOf(s.maxLen, t', full) == BookOf(s.maxLen, s.t, full)
            && (forall j :: 0 <= j < |s.t.ds| && j != i ==> SamePayload(s.t.ds[j], t'.ds[j]))
            && SamePayload(t'.ds[i], Blank(s.t.ds[i]))
  {
    var a, b := FindIn(s.t.ds, s.t.nextFree, free, i);
    free' := [i] + (a + b);
    var t1 := Dropped(s.t, i);
    PayloadKeepsLists(s.t, i, t1.ds[i], free, full);
    assert forall j :: 0 <= j < |t1.ds| && j != i ==> t1.ds[j] == s.t.ds[j];
    PutAgainWf(code, t1, a, i, b, full);
    NotBoth(s.t, free, full, i);
    hide Wf, Put, BookOf;
    SameBook(s.maxLen, s.t, Put(code, t1, i), full, i);
  }

  lemma NotBoth(t: Table, free: seq<int>, full: seq<int>, i: int)
    requires Wf(t, free, full) && 0 <= i < |t.ds|
    ensures i in free <==> i !in full
  {
  }

  lemma SameBook(maxLen: nat, t: Table, t': Table, full: seq<int>, i: int)
    requires |t'.ds| == |t.ds| && i !in full
    requires forall j :: 0 <= j < |t.ds| && j != i ==> SamePayload(t.ds[j], t'.ds[j])
    ensures BookOf(maxLen, t', full) == BookOf(maxLen, t, full)
  {
  }

  /** A descriptor is full exactly when somebody refers to it. */
  lemma FullIffReferred(s: State, i: int, free: seq<int>, full: seq<int>)
    requires Explains(s, free, full) && 0 <= i < |s.t.ds|
    ensures i in full <==> exists g :: RefersTo(s.handles, g, i)
  {
    CountsConserved(s, free, full);
    ExplainsCovers(s, free, full);
    hide Explains, HandleOk, BookOf, HandlesTo, Wf;
  }

  /** The keys of the book are those of the descriptors that live handles refer to. */
  lemma KeyInUseIff(s: State, key: int, free: seq<int>, full: seq<int>)
    requires Explains(s, free, full)
    ensures (forall j :: j in BookOf(s.maxLen, s.t, full) ==> BookOf(s.maxLen, s.t, full)[j].key != key) <==>
            forall g :: IsLive(s, g) ==> s.t.ds[s.handles[g].at.desc].shmKey != key
  {
    ExplainsLists(s, free, full);
    BookKeys(s, free, full);
    CountsConserved(s, free, full);
    ExplainsCovers(s, free, full);
    hide Explains, HandleOk, HandlesTo, Wf, SizeOf, Name;
    var book := BookOf(s.maxLen, s.t, full);
    forall j | j in book ensures exists g :: IsLive(s, g) && s.handles[g].at.desc == j {
      var g :| RefersTo(s.handles, g, j);
      assert IsLive(s, g) && s.handles[g].at.desc == j;
    }
  }

  /** Where nobody uses the descriptor, bufferFree leaves the book and the full list as they are. */
  lemma DropIs(code: Code, s: State, h: nat, free: seq<int>, full: seq<int>) returns (free': seq<int>)
    requires Shaped(ViewOf(s, 0)) && Explains(s, free, full) && HasFields(s, h)
    requires s.handles[h].at.desc !in full
    requires s.t.ds[s.handles[h].at.desc].refCount == 1 ==> s.t.ds[s.handles[h].at.desc].prevIdx != -1
    ensures var s', i, p := Release(code, s, h), s.handles[h].at.desc, s.handles[h].proc;
            && Wf(s'.t, free', full) && (forall j :: j in free' <==> j in free) && |s'.t.ds| == |s.t.ds|
            && BookOf(s.maxLen, s'.t, full) == BookOf(s.maxLen, s.t, full)
            && s'.maxLen == s.maxLen && s'.nextNumber == s.nextNumber && s'.handles == s.handles
            && (forall j :: 0 <= j < |s.t.ds| && j != i ==> SamePayload(s.t.ds[j], s'.t.ds[j]))
            && if s.t.ds[i].refCount == 1 then
                 && s'.segments == s.segments - {s.t.ds[i].shmKey} && SamePayload(s'.t.ds[i], Blank(s.t.ds[i]))
                 && s'.caches == s.caches[p := CacheOf(s.caches, p) - {i}]
               else
                 && s'.segments == s.segments && s'.t.ds[i].id == s.t.ds[i].id && s'.t.ds[i].shmKey == s.t.ds[i].shmKey
                 && s'.caches == s.caches[p := CacheOf(s.caches, p)]
  {
    hide Consistent, Shaped, BookOf, Put, Release;
    var i := s.handles[h].at.desc;
    NotBoth(s.t, free, full, i);
    ReleaseIs(code, s, h);
    if s.t.ds[i].refCount == 1 {
      free' := DropAgain(code, s, i, free, full);
    } else {
      free' := free;
      PayloadKeepsLists(s.t, i, s.t.ds[i].(refCount := Decremented(s.t.ds[i].refCount)), free, full);
      PayloadBook(s.maxLen, s.t, i, s.t.ds[i].(refCount := Decremented(s.t.ds[i].refCount)), full);
    }
  }

  /** bufferFree for an object that was never counted keeps everything in order exactly when it may be dropped. */
  lemma DropIff(code: Code, s: State, h: nat, handles': Handles, free: seq<int>, full: seq<int>)
    requires Shaped(ViewOf(s, 0)) && Explains(s, free, full) && HasFields(s, h) && !s.handles[h].Live?
    requires Without(s.handles, h, handles')
    ensures Inv(Release(code, s, h).(handles := handles')) <==> MayDrop(s, s.handles[h].at.desc)
  {
    hide Explains, Shaped, Release, Without, BookOf, Wf, InRange, WellFormed;
    var i := s.handles[h].at.desc;
    FullIffReferred(s, i, free, full);
    KeyInUseIff(s, s.t.ds[i].shmKey, free, full);
    ExplainsLists(s, free, full);
    NotBoth(s.t, free, full, i);
    if i in full {
      DropFromUse(code, s, h, handles', free, full);
    } else if s.t.ds[i].refCount == 1 && s.t.ds[i].prevIdx == -1 {
      DropHead(code, s, h, free, full);
      UnlistedBreaks(Release(code, s, h).(handles := handles'));
    } else {
      DropFree(code, s, h, handles', free, full);
    }
  }

  lemma DropHead(code: Code, s: State, h: nat, free: seq<int>, full: seq<int>)
    requires Shaped(ViewOf(s, 0)) && Wf(s.t, free, full) && HasFields(s, h)
    requires s.handles[h].at.desc in free
    requires s.t.ds[s.handles[h].at.desc].refCount == 1 && s.t.ds[s.handles[h].at.desc].prevIdx == -1
    ensures !WellFormed(Release(code, s, h).t)
  {
    hide Release, Shaped, InRange, Put, WellFormed, Consistent;
    var i := s.handles[h].at.desc;
    ReleaseIs(code, s, h);
    var t1 := Dropped(s.t, i);
    var a, b := FindIn(s.t.ds, s.t.nextFree, free, i);
    PayloadKeepsLists(s.t, i, t1.ds[i], free, full);
    PutFreeHeadBreaks(code, t1, free, full);
  }

  lemma DropFree(code: Code, s: State, h: nat, handles': Handles, free: seq<int>, full: seq<int>)
    requires Shaped(ViewOf(s, 0)) && Explains(s, free, full) && HasFields(s, h) && !s.handles[h].Live?
    requires Without(s.handles, h, handles') && s.handles[h].at.desc !in full
    requires s.t.ds[s.handles[h].at.desc].refCount == 1 ==> s.t.ds[s.handles[h].at.desc].prevIdx != -1
    ensures var i, book := s.handles[h].at.desc, BookOf(s.maxLen, s.t, full);
            Inv(Release(code, s, h).(handles := handles')) <==>
              (s.t.ds[i].refCount == 1 ==> forall j :: j in book ==> book[j].key != s.t.ds[i].shmKey)
  {
    hide Shaped, Release, Without, BookOf, Wf, NamesOk, SegmentsOk, CountsOk, HandlesOk;
    var i, book := s.handles[h].at.desc, BookOf(s.maxLen, s.t, full);
    var s' := Release(code, s, h).(handles := handles');
    var free' := DropIs(code, s, h, free, full);
    DropUncounted(book, s.segments, s.nextNumber, s.handles, h, handles');
    DropSegment(book, s.segments, s.nextNumber, s.t.ds[i].shmKey);
    ShapedHandles(Release(code, s, h), handles');
    OnlyExplanation(s', free', full);
  }

  /** A table whose lists are known is in order exactly when these lists explain it. */
  lemma OnlyExplanation(s: State, free: seq<int>, full: seq<int>)
    requires Shaped(ViewOf(s, 0)) && Wf(s.t, free, full)
    ensures Inv(s) <==> Consistent(BookOf(s.maxLen, s.t, full), s.segments, s.nextNumber, s.handles)
  {
    hide Wf, Consistent, BookOf, Shaped;
    if Inv(s) {
      var free', full' :| Explains(s, free', full');
      ListsAreUnique(s.t, free, full, free', full');
    } else {
      assert !Explains(s, free, full);
    }
  }

  /** The count of a buffer in use no longer is that of its handles. */
  lemma DropFromUse(code: Code, s: State, h: nat, handles': Handles, free: seq<int>, full: seq<int>)
    requires Shaped(ViewOf(s, 0)) && Explains(s, free, full) && HasFields(s, h) && !s.handles[h].Live?
    requires Without(s.handles, h, handles') && s.handles[h].at.desc in full
    ensures !Inv(Release(code, s, h).(handles := handles'))
  {
    hide Shaped, Release, Without, BookOf, Wf, HandlesTo, Put, InRange, WellFormed, NamesOk, SegmentsOk, HandlesOk;
    var i, book := s.handles[h].at.desc, BookOf(s.maxLen, s.t, full);
    var s' := Release(code, s, h).(handles := handles');
    FullRecord(s, i, full);
    DropUncounted(book, s.segments, s.nextNumber, s.handles, h, handles');
    ReleaseIs(code, s, h);
    ShapedHandles(Release(code, s, h), handles');
    if s.t.ds[i].refCount > 1 {
      Counted(s, i, s.t.ds[i].refCount - 1, free, full);
      OnlyExplanation(s', free, full);
    } else if code.AsWritten? && s.t.ds[i].prevIdx == -1 {
      LastHeadBreaks(s, i, free, full);
      UnlistedBreaks(s');
    } else {
      var free', full' := DropLast(code, s, i, free, full);
      FullIffReferred(s, i, free, full);
      var g :| RefersTo(s.handles, g, i);
      WithoutKeeps(s.handles, h, handles', g, i);
      OnlyExplanation(s', free', full');
      LostReference(BookOf(s'.maxLen, s'.t, full'), handles', g, i);
    }
  }

  lemma WithoutKeeps(handles: Handles, h: nat, handles': Handles, g: nat, i: int)
    requires Without(handles, h, handles') && h in handles && !handles[h].Live? && RefersTo(handles, g, i)
    ensures RefersTo(handles', g, i)
  {
  }

  lemma LostReference(book: Book, handles: Handles, g: nat, i: int)
    requires RefersTo(handles, g, i) && i !in book
    ensures !HandlesOk(book, handles)
  {
    assert !HandleOk(book, handles[g]);
  }

  // ---------------------------------------------------------------- getBuffer

  lemma LookupInBook(s: State, p: nat, id: seq<char>, free: seq<int>, full: seq<int>)
    requires Shaped(ViewOf(s, p)) && Explains(s, free, full)
    ensures var i := Lookup(ViewOf(s, p), id);
            var book := BookOf(s.maxLen, s.t, full);
            && (i == -1 || (i in full && 0 <= i < |s.t.ds| && i in book && book[i].name == Name(id, s.maxLen)
                            && book[i] == RecordOf(s.maxLen, s.t.ds[i])))
            && (i == -1 ==> forall j :: j in book ==> book[j].name != Name(id, s.maxLen))
  {
    LookupFinds(ViewOf(s, p), free, full, id);
    BookKeys(s, free, full);
    hide Consistent, Wf, Lookup, Name;
  }

  /** The segment process p gets for the full descriptor i: the one it has cached, or the current one. */
  function NumberFor(s: State, p: nat, i: int): nat
    requires 0 <= i < |s.t.ds| && s.t.ds[i].shmKey in s.segments
  {
    if i in CacheOf(s.caches, p) then CacheOf(s.caches, p)[i] else s.segments[s.t.ds[i].shmKey].number
  }

  /** What mapping an existing buffer amounts to: a segment for the cache, and one more count. */
  lemma MapIs(s: State, p: nat, i: int, attached: bool, free: seq<int>, full: seq<int>)
    requires Shaped(ViewOf(s, p)) && Explains(s, free, full) && i in full && 0 <= i < |s.t.ds|
    ensures s.t.ds[i].shmKey in s.segments
    ensures var (v, r) := Map(ViewOf(s, p), i, attached);
            var number := NumberFor(s, p, i);
            if i in CacheOf(s.caches, p) || attached then
              && r == Ok(Attached(i, SizeOf(s.t.ds[i]), number, false))
              && WithView(s, p, v) ==
                   s.(t := WithPayload(s.t, i, s.t.ds[i].(refCount := s.t.ds[i].refCount + 1)),
                      caches := s.caches[p := CacheOf(s.caches, p)[i := number]])
            else
              r == Throw(SegmentFailed) && WithView(s, p, v) == s.(caches := s.caches[p := CacheOf(s.caches, p)])
  {
    BookKeys(s, free, full);
    var book := BookOf(s.maxLen, s.t, full);
    assert i in book && book[i].key == s.t.ds[i].shmKey;
    ConstructedIs(s.segments, NumberFor(s, p, i));
    if i in CacheOf(s.caches, p) {
      assert CacheOf(s.caches, p)[i := s.caches[p][i]] == CacheOf(s.caches, p);
    }
    hide NamesOk, CountsOk, HandlesOk, Wf, Shaped;
  }

  lemma FullRecord(s: State, i: int, full: seq<int>)
    requires i in full && 0 <= i < |s.t.ds|
    ensures i in BookOf(s.maxLen, s.t, full)
    ensures BookOf(s.maxLen, s.t, full)[i] == RecordOf(s.maxLen, s.t.ds[i])
    ensures var r := RecordOf(s.maxLen, s.t.ds[i]);
            r.key == s.t.ds[i].shmKey && r.size == SizeOf(s.t.ds[i]) && r.count == s.t.ds[i].refCount
  {
  }

  lemma ShapedInRange(s: State, p: nat)
    requires Shaped(ViewOf(s, p))
    ensures InRange(s.t)
  {
  }

  lemma ShapedForAll(s: State, p: nat, q: nat)
    requires Shaped(ViewOf(s, p))
    ensures Shaped(ViewOf(s, q))
  {
  }

  lemma MapKeeps(s: State, p: nat, h: nat, i: int, attached: bool, free: seq<int>, full: seq<int>)
    requires Shaped(ViewOf(s, p)) && Explains(s, free, full) && h !in s.handles
    requires i in full && 0 <= i < |s.t.ds|
    ensures var (v, r) := Map(ViewOf(s, p), i, attached);
            var s1 := WithView(s, p, v);
            Explains(if r.Ok? then s1.(handles := s.handles[h := Live(p, r.value)]) else s1, free, full)
  {
    hide Consistent, BookOf, Wf, Shaped, WithPayload, SizeOf, Map, RecordOf;
    MapIs(s, p, i, attached, free, full);
    var number := NumberFor(s, p, i);
    MappedKeeps(s, p, h, i, number, s.caches[p := CacheOf(s.caches, p)[i := number]], free, full);
  }

  lemma MappedKeeps(s: State, p: nat, h: nat, i: int, number: nat, caches': Caches, free: seq<int>, full: seq<int>)
    requires Shaped(ViewOf(s, p)) && Explains(s, free, full) && h !in s.handles
    requires i in full && 0 <= i < |s.t.ds|
    ensures Explains(s.(t := WithPayload(s.t, i, s.t.ds[i].(refCount := s.t.ds[i].refCount + 1)), caches := caches',
                        handles := s.handles[h := Live(p, Attached(i, SizeOf(s.t.ds[i]), number, false))]),
                     free, full)
  {
    hide Consistent, BookOf, Wf, Shaped, WithPayload, SizeOf, RecordOf;
    ShapedForAll(s, p, 0);
    FullRecord(s, i, full);
    Counted(s, i, s.t.ds[i].refCount + 1, free, full);
    AddHandle(BookOf(s.maxLen, s.t, full), s.segments, s.nextNumber, s.handles,
              h, p, Attached(i, SizeOf(s.t.ds[i]), number, false));
  }

  lemma SizeSurvives(bytes: nat)
    requires bytes < SIZE_T
    ensures ((bytes + FUTEX_BYTES) % SIZE_T - FUTEX_BYTES) % SIZE_T == bytes
  {
  }

  lemma AddedBook(maxLen: nat, t: Table, t': Table, full: seq<int>, i: int, d: Descriptor)
    requires |t'.ds| == |t.ds| && 0 <= i < |t.ds| && i !in full
    requires forall j :: 0 <= j < |t.ds| && j != i ==> SamePayload(t.ds[j], t'.ds[j])
    requires SamePayload(t'.ds[i], d)
    ensures BookOf(maxLen, t', [i] + full) == BookOf(maxLen, t, full)[i := RecordOf(maxLen, d)]
  {
  }

  lemma FreeHead(t: Table, free: seq<int>, full: seq<int>)
    requires Wf(t, free, full) && free != []
    ensures 0 <= free[0] < |t.ds| && free[0] !in full && t.nextFree == free[0]
  {
    assert free[0] in free;
  }

  /** The table getBuffer leaves when it takes a descriptor for a new buffer. */
  lemma TakeForNew(s: State, d: Descriptor, free: seq<int>, full: seq<int>)
    requires InRange(s.t) && Wf(s.t, free, full) && free != []
    ensures var (t1, i) := Take(s.t);
            && i == free[0] && i !in full && 0 <= i < |s.t.ds|
            && var t2 := WithPayload(t1, i, d);
               && Wf(t2, free[1..], [i] + full)
               && BookOf(s.maxLen, t2, [i] + full) == BookOf(s.maxLen, s.t, full)[i := RecordOf(s.maxLen, d)]
  {
    FreeHead(s.t, free, full);
    hide Wf, Take, BookOf, InRange, RecordOf;
    TakeWf(s.t, free, full);
    var (t1, i) := Take(s.t);
    PayloadKeepsLists(t1, i, d, free[1..], [i] + full);
    AddedBook(s.maxLen, s.t, WithPayload(t1, i, d), full, i, d);
  }

  /** The descriptor of a new buffer, before its count is raised. */
  function NewDescriptor(s: State, id: seq<char>, field: seq<char>, bytes: nat, key: int): Descriptor
    requires |field| == s.maxLen + 1
  {
    Descriptor(key, (bytes + FUTEX_BYTES) % SIZE_T, 0, 0, 0, StrNCpy(field, CStr(id), s.maxLen))
  }

  lemma NewRecord(s: State, id: seq<char>, field: seq<char>, bytes: nat, key: int, count: nat)
    requires |field| == s.maxLen + 1 && bytes < SIZE_T
    ensures RecordOf(s.maxLen, NewDescriptor(s, id, field, bytes, key).(refCount := count)) ==
              Record(key, bytes, count, Name(id, s.maxLen))
  {
    CopyStoresName(field, id, s.maxLen);
    hide Name, StrNCpy, CStr;
  }

  /** The branch of getBuffer that creates, when a descriptor is free. */
  lemma CreateIs(s: State, p: nat, id: seq<char>, bytes: nat, key: int, attached: bool, free: seq<int>, full: seq<int>)
    requires Shaped(ViewOf(s, p)) && Wf(s.t, free, full) && bytes < SIZE_T
    ensures var (v, r) := Create(ViewOf(s, p), id, bytes, key, attached);
            var (t1, i) := Take(s.t);
            if bytes == 0 || free == [] then
              && r == Throw(if bytes == 0 then ZeroBytes else NoFreeDescriptor)
              && WithView(s, p, v) == s.(caches := s.caches[p := CacheOf(s.caches, p)])
            else
              && free != [] && i == free[0] && 0 <= i < |t1.ds| && |t1.ds[i].id| == s.maxLen + 1
              && var d := NewDescriptor(s, id, t1.ds[i].id, bytes, key);
                 if attached && key !in s.segments then
                   && r == Ok(Attached(i, bytes, s.nextNumber, true))
                   && WithView(s, p, v) ==
                        s.(t := WithPayload(t1, i, d.(refCount := 1)),
                           segments := s.segments[key := Segment(s.nextNumber, d.bytes, FutexMutex.UNLOCKED)],
                           nextNumber := s.nextNumber + 1,
                           caches := s.caches[p := CacheOf(s.caches, p)[i := s.nextNumber]])
                 else
                   && r == Throw(SegmentFailed)
                   && WithView(s, p, v) == s.(t := WithPayload(t1, i, d), caches := s.caches[p := CacheOf(s.caches, p)])
  {
    hide Take, Wf, StrNCpy, CStr, InRange;
    ShapedInRange(s, p);
    TakeWf(s.t, free, full);
    SizeSurvives(bytes);
  }

  lemma CreateKeeps(s: State, p: nat, h: nat, id: seq<char>, bytes: nat, key: int, free: seq<int>, full: seq<int>)
    returns (free': seq<int>, full': seq<int>)
    requires Shaped(ViewOf(s, p)) && Explains(s, free, full) && h !in s.handles
    requires bytes < SIZE_T && key !in s.segments
    requires forall j :: j in BookOf(s.maxLen, s.t, full) ==> BookOf(s.maxLen, s.t, full)[j].name != Name(id, s.maxLen)
    ensures var (v, r) := Create(ViewOf(s, p), id, bytes, key, true);
            var s1 := WithView(s, p, v);
            && Explains(if r.Ok? then s1.(handles := s.handles[h := Live(p, r.value)]) else s1, free', full')
            && (r.Ok? <==> bytes > 0 && free != [])
  {
    assert InRange(s.t);
    hide Consistent, BookOf, Wf, Shaped, WithPayload, SizeOf, Create, Take, InRange, NewDescriptor;
    CreateIs(s, p, id, bytes, key, true, free, full);
    var book := BookOf(s.maxLen, s.t, full);
    if bytes == 0 || free == [] {
      free', full' := free, full;
    } else {
      var (t1, i) := Take(s.t);
      free', full' := free[1..], [i] + full;
      var d := NewDescriptor(s, id, t1.ds[i].id, bytes, key);
      TakeForNew(s, d.(refCount := 1), free, full);
      NewRecord(s, id, t1.ds[i].id, bytes, key, 1);
      NotInBook(s, i, full);
      assert d.bytes == SegmentBytes(bytes) by { NewBytes(s, id, t1.ds[i].id, bytes, key); }
      AddRecord(book, s.segments, s.nextNumber, s.handles, i, Record(key, bytes, 1, Name(id, s.maxLen)),
                Segment(s.nextNumber, d.bytes, FutexMutex.UNLOCKED), p, h, Attached(i, bytes, s.nextNumber, true));
    }
  }

  lemma NewBytes(s: State, id: seq<char>, field: seq<char>, bytes: nat, key: int)
    requires |field| == s.maxLen + 1
    ensures NewDescriptor(s, id, field, bytes, key).bytes == SegmentBytes(bytes)
  {
  }

  lemma NotInBook(s: State, i: int, full: seq<int>)
    requires i !in full
    ensures i !in BookOf(s.maxLen, s.t, full)
  {
  }

  // ------------------------------------------------------- steps that break the invariant

  /** No pair of lists that explains the table fits the handles and the counts. */
  ghost predicate Dangling(s: State) {
    forall free, full :: Wf(s.t, free, full) ==>
      || (exists h :: h in s.handles && s.handles[h].Live? && !HandleOk(BookOf(s.maxLen, s.t, full), s.handles[h]))
      || (exists i :: i in full && 0 <= i < |s.t.ds| && s.t.ds[i].refCount == 0)
  }

  lemma ExplainsCovers(s: State, free: seq<int>, full: seq<int>)
    requires Explains(s, free, full)
    ensures forall h :: h in s.handles && s.handles[h].Live? ==>
              s.handles[h].at.desc in full && HandleOk(BookOf(s.maxLen, s.t, full), s.handles[h])
    ensures forall i :: i in full && 0 <= i < |s.t.ds| ==> s.t.ds[i].refCount > 0
  {
    BookKeys(s, free, full);
    forall h | h in s.handles && s.handles[h].Live?
      ensures s.handles[h].at.desc in full && HandleOk(BookOf(s.maxLen, s.t, full), s.handles[h])
    {
      LiveHandle(s, h, free, full);
    }
    forall i | i in full && 0 <= i < |s.t.ds| ensures s.t.ds[i].refCount > 0 {
      FullRecord(s, i, full);
    }
  }

  lemma DanglingBreaks(s: State)
    requires Dangling(s)
    ensures !Inv(s)
  {
    forall free, full ensures !Explains(s, free, full) {
      if Explains(s, free, full) { ExplainsCovers(s, free, full); }
    }
  }

  /** The last handle goes against the guard: no lists explain the table that is left. */
  lemma BadReleaseBreaks(code: Code, s: State, h: nat, free: seq<int>, full: seq<int>)
    requires Shaped(ViewOf(s, 0)) && Explains(s, free, full) && IsLive(s, h) && !MayRelease(code, s, h)
    ensures !WellFormed(Release(code, s, h).t)
  {
    hide Release, Explains, Shaped, Wf, InRange, Put, WellFormed;
    LiveHandle(s, h, free, full);
    ExplainsLists(s, free, full);
    ReleaseIs(code, s, h);
    LastHeadBreaks(s, s.handles[h].at.desc, free, full);
  }

  lemma LastHeadBreaks(s: State, i: int, free: seq<int>, full: seq<int>)
    requires Shaped(ViewOf(s, 0)) && Wf(s.t, free, full) && i in full && 0 <= i < |s.t.ds|
    requires s.t.ds[i].prevIdx == -1
    ensures InRange(Dropped(s.t, i)) && !WellFormed(Put(AsWritten, Dropped(s.t, i), i))
  {
    hide Shaped, Wf, Put, WellFormed;
    var t1 := Dropped(s.t, i);
    var a, b := FindNode(s.t, free, full, i);
    PayloadKeepsLists(s.t, i, t1.ds[i], free, full);
    PutHeadBreaks(t1, free, full);
  }

  lemma UnlistedBreaks(s: State)
    requires !WellFormed(s.t)
    ensures !Inv(s)
  {
    forall free, full ensures !Explains(s, free, full) {
      if Explains(s, free, full) { ExplainsLists(s, free, full); }
    }
  }

  /** Taking over what no longer stands for the buffer counts a reference to a descriptor that is free, or
      to another buffer's. */
  lemma LateShareDangles(s: State, h: nat, o: nat, free: seq<int>, full: seq<int>)
    requires Explains(s, free, full) && HasFields(s, o)
    requires !HandleOk(BookOf(s.maxLen, s.t, full), Live(s.handles[o].proc, s.handles[o].at))
    ensures Dangling(Share(s, h, o))
  {
    hide Share, Consistent, Wf, WithPayload, HandleOk, BookOf, SizeOf;
    ShareIs(s, h, o);
    var hd := Live(s.handles[o].proc, s.handles[o].at);
    var i := s.handles[o].at.desc;
    var d := s.t.ds[i].(refCount := s.t.ds[i].refCount + 1);
    var s' := Share(s, h, o);
    InBook(s, hd, free, full);
    forall free', full' | Wf(s'.t, free', full') ensures !HandleOk(BookOf(s'.maxLen, s'.t, full'), s'.handles[h]) {
      PayloadKeepsLists(s.t, i, d, free', full');
      ListsAreUnique(s.t, free, full, free', full');
      InBook(s', hd, free', full');
      SamePayloadSize(s.t, i, d);
    }
    assert h in s'.handles && s'.handles[h].Live?;
  }

  lemma SamePayloadSize(t: Table, i: int, d: Descriptor)
    requires 0 <= i < |t.ds|
    ensures |WithPayload(t, i, d).ds| == |t.ds| && SizeOf(WithPayload(t, i, d).ds[i]) == SizeOf(d)
    ensures SizeOf(t.ds[i].(refCount := d.refCount)) == SizeOf(t.ds[i])
  {
  }

  lemma ExplainsInv(s: State, p: nat, free: seq<int>, full: seq<int>)
    requires Shaped(ViewOf(s, p)) && Explains(s, free, full)
    ensures Inv(s)
  {
    ShapedForAll(s, p, 0);
  }

  lemma ExplainsLists(s: State, free: seq<int>, full: seq<int>)
    requires Explains(s, free, full)
    ensures Wf(s.t, free, full)
  {
  }

  lemma CountUpAndDown(t: Table, i: int)
    requires 0 <= i < |t.ds| && t.ds[i].refCount > 0
    ensures var t1 := Dropped(t, i);
            WithPayload(t1, i, t1.ds[i].(refCount := t1.ds[i].refCount + 1)) == t
  {
    var t1 := Dropped(t, i);
    assert WithPayload(t1, i, t1.ds[i].(refCount := t1.ds[i].refCount + 1)).ds == t.ds;
  }

  lemma FailedCreateDangles(s: State, p: nat, id: seq<char>, bytes: nat, key: int, attached: bool,
                            free: seq<int>, full: seq<int>)
    requires Shaped(ViewOf(s, p)) && Explains(s, free, full) && 0 < bytes < SIZE_T && free != []
    requires !attached || key in s.segments
    ensures var (v, r) := Create(ViewOf(s, p), id, bytes, key, attached);
            r.Throw? && Dangling(WithView(s, p, v))
  {
    CreateIs(s, p, id, bytes, key, attached, free, full);
    var t2 := WithView(s, p, Create(ViewOf(s, p), id, bytes, key, attached).0).t;
    var (t1, i) := Take(s.t);
    var d := NewDescriptor(s, id, t1.ds[i].id, bytes, key);
    TakeForNew(s, d, free, full);
    hide Create, Take, NewDescriptor, StrNCpy;
    forall free', full' | Wf(t2, free', full') ensures i in full' && 0 <= i < |t2.ds| && t2.ds[i].refCount == 0 {
      ListsAreUnique(t2, free[1..], [i] + full, free', full');
      assert ([i] + full)[0] == i;
    }
  }

  /** What a refused creation leaves: the descriptor is taken, named and keyed, and nobody counts on it; there is no
      segment, no handle, nothing cached, and nothing else has changed. */
  lemma RefusedCreation(code: Code, s: State, op: Op, free: seq<int>, full: seq<int>)
    requires op.GetBuffer? && Explains(s, free, full) && Enabled(s, op) && !Guard(code, s, op)
    ensures var s' := Step(code, s, op);
            && s'.segments == s.segments && s'.nextNumber == s.nextNumber && s'.handles == s.handles
            && (forall q :: CacheOf(s'.caches, q) == CacheOf(s.caches, q))
            && free != [] && Wf(s'.t, free[1..], [free[0]] + full) && 0 <= free[0] < |s.t.ds| == |s'.t.ds|
            && (forall j :: 0 <= j < |s.t.ds| && j != free[0] ==> SamePayload(s.t.ds[j], s'.t.ds[j]))
            && var d := s'.t.ds[free[0]];
               && d.shmKey == op.key && d.refCount == 0 && d.bytes == SegmentBytes(op.bytes)
               && Alike(d.id, op.id, s.maxLen)
  {
    hide Wf, Create, Map, Lookup, BookOf, Shaped, Step, Take, StrNCpy, Consistent, Alike, Name, CStr;
    var p, id := op.p, op.id;
    StepGets(code, s, op);
    NothingFree(s.t, free, full);
    CreateIs(s, p, id, op.bytes, op.key, op.attached, free, full);
    ShapedInRange(s, p);
    var (t1, i) := Take(s.t);
    var d := NewDescriptor(s, id, t1.ds[i].id, op.bytes, op.key);
    TakeForNew(s, d, free, full);
    TakeWf(s.t, free, full);
    CopyStoresName(t1.ds[i].id, id, s.maxLen);
    SameNameIff(d.id, id, s.maxLen);
  }

  /** Locking and unlocking a buffer changes the word of its segment, to any value. */
  lemma SetWordIs(code: Code, s: State, key: int, word: int)
    requires Enabled(s, SetWord(key, word))
    ensures var s' := Step(code, s, SetWord(key, word));
            && s' == s.(segments := s'.segments) && s'.segments.Keys == s.segments.Keys
            && s'.segments[key] == Segment(s.segments[key].number, s.segments[key].bytes, word)
            && forall k :: k in s.segments && k != key ==> s'.segments[k] == s.segments[k]
  {
  }

  /** Every call a client can make is a step, in every state in order: getBuffer with any name, size and answer of
      the kernel, and copying, assigning to, assigning from and destroying any handle that is alive. */
  lemma CallsAreSteps(s: State, h: nat, o: nat, p: nat)
    requires Inv(s)
    ensures h !in s.handles ==> Enabled(s, Default(h, p))
    ensures h !in s.handles ==> forall id, bytes: nat, key, attached :: bytes < 0x1_0000_0000_0000_0000 ==>
              Enabled(s, GetBuffer(h, p, id, bytes, key, attached))
    ensures o in s.handles && s.handles[o].Live? ==>
              && Enabled(s, Destroy(o)) && Enabled(s, AssignFree(o))
              && (h !in s.handles ==> Enabled(s, Copy(h, o)))
              && (&& h in s.handles && s.handles[h].proc == s.handles[o].proc
                  && (s.handles[h].Null? || s.handles[h].Freed?) ==>
                    Enabled(s, AssignCopy(h, o)) && Enabled(s, AssignThrow(h, o)))
    ensures forall key, word :: key in s.segments ==> Enabled(s, SetWord(key, word))
  {
    hide Wf, Consistent, BookOf, Shaped;
    var free, full :| Explains(s, free, full);
    if o in s.handles && s.handles[o].Live? { LiveHandle(s, o, free, full); }
  }

  // ------------------------------------------------------------------ every step

  /** getBuffer's effect on the whole state. */
  ghost function Gotten(s: State, h: nat, p: nat, vr: (View, Result<Attached>)): State {
    var s' := WithView(s, p, vr.0);
    if vr.1.Ok? then s'.(handles := s'.handles[h := Live(p, vr.1.value)]) else s'
  }

  lemma StepGets(code: Code, s: State, op: Op)
    requires op.GetBuffer? && Enabled(s, op)
    ensures Shaped(ViewOf(s, op.p))
    ensures var i := Lookup(ViewOf(s, op.p), op.id);
            && i < |s.t.ds|
            && Step(code, s, op) == Gotten(s, op.h, op.p,
                                           if i < 0 then Create(ViewOf(s, op.p), op.id, op.bytes, op.key, op.attached)
                                           else Map(ViewOf(s, op.p), i, op.attached))
            && Shaped(ViewOf(Step(code, s, op), 0))
  {
    hide Create, Map, Lookup, Shaped;
    ShapedForAll(s, 0, op.p);
    var v := Get(ViewOf(s, op.p), op.id, op.bytes, op.key, op.attached).0;
    ShapedSame(v, ViewOf(Step(code, s, op), 0));
  }

  lemma ShapedSame(v: View, w: View)
    requires Shaped(v) && w.maxLen == v.maxLen && w.t == v.t
    ensures Shaped(w)
  {
  }

  /** No call of getBuffer touches the mutex of a segment that exists: attaching never resets a held
      word, and a new segment starts unlocked. */
  lemma GetBufferKeepsWords(code: Code, s: State, op: Op)
    requires op.GetBuffer? && Enabled(s, op)
    ensures var s' := Step(code, s, op);
            && (forall k :: k in s.segments ==> k in s'.segments && s'.segments[k] == s.segments[k])
            && (forall k :: k in s'.segments && k !in s.segments ==> s'.segments[k].word == FutexMutex.UNLOCKED)
  {
    StepGets(code, s, op);
    forall number: nat ensures Constructed(s.segments, number) == s.segments { ConstructedIs(s.segments, number); }
    hide Shaped, Lookup, Take, Step, Constructed;
  }

  /** A call that cannot create changes nothing but, at most, an empty cache. */
  lemma NothingCreated(s: State, p: nat, h: nat, id: seq<char>, bytes: nat, key: int, attached: bool,
                       free: seq<int>, full: seq<int>)
    requires Shaped(ViewOf(s, p)) && Explains(s, free, full) && bytes < SIZE_T
    requires bytes == 0 || free == []
    ensures Explains(Gotten(s, h, p, Create(ViewOf(s, p), id, bytes, key, attached)), free, full)
  {
    hide Shaped, Wf, Create, Take, Consistent, BookOf;
    CreateIs(s, p, id, bytes, key, attached, free, full);
  }

  lemma GetBufferIff(code: Code, s: State, op: Op, free: seq<int>, full: seq<int>)
    requires op.GetBuffer? && Explains(s, free, full) && Enabled(s, op)
    ensures Inv(Step(code, s, op)) <==> Guard(code, s, op)
  {
    var GetBuffer(h, p, id, bytes, key, attached) := op;
    StepGets(code, s, op);
    hide Explains, Wf, Create, Map, Lookup, BookOf, Shaped, Step;
    ExplainsLists(s, free, full);
    LookupInBook(s, p, id, free, full);
    var i := Lookup(ViewOf(s, p), id);
    NothingFree(s.t, free, full);
    if i >= 0 {
      MapKeeps(s, p, h, i, attached, free, full);
    } else if bytes == 0 || free == [] {
      NothingCreated(s, p, h, id, bytes, key, attached, free, full);
    } else if attached && key !in s.segments {
      var free', full' := CreateKeeps(s, p, h, id, bytes, key, free, full);
    } else {
      FailedCreateDangles(s, p, id, bytes, key, attached, free, full);
      DanglingBreaks(Step(code, s, op));
    }
  }

  lemma NothingFree(t: Table, free: seq<int>, full: seq<int>)
    requires Wf(t, free, full)
    ensures t.nextFree == -1 <==> free == []
  {
    if free != [] { FreeHead(t, free, full); }
  }

  lemma WithoutGone(handles: Handles, h: nat)
    ensures Without(handles, h, handles - {h})
  {
  }

  lemma WithoutFreed(handles: Handles, h: nat, p: nat, at: Attached)
    ensures Without(handles, h, handles[h := Freed(p, at)])
  {
  }

  /** bufferFree for an object that is then gone, or freed, counted or not. */
  lemma FreeIff(code: Code, s: State, h: nat, handles': Handles, free: seq<int>, full: seq<int>)
    requires Shaped(ViewOf(s, 0)) && Explains(s, free, full) && HasFields(s, h) && Without(s.handles, h, handles')
    ensures Inv(Release(code, s, h).(handles := handles')) <==> MayFree(code, s, h)
  {
    hide Explains, Release, Shaped, MayRelease, MayDrop, Wf, Without, WellFormed;
    if !s.handles[h].Live? {
      DropIff(code, s, h, handles', free, full);
    } else if MayRelease(code, s, h) {
      var free', full' := ReleaseKeeps(code, s, h, handles', free, full);
    } else {
      BadReleaseBreaks(code, s, h, free, full);
      UnlistedBreaks(Release(code, s, h).(handles := handles'));
    }
  }

  /** What at says is right exactly when some handle is alive on its descriptor and the size is the same. */
  lemma StillThereIff(s: State, p: nat, at: Attached, free: seq<int>, full: seq<int>)
    requires Explains(s, free, full) && 0 <= at.desc < |s.t.ds|
    ensures HandleOk(BookOf(s.maxLen, s.t, full), Live(p, at)) <==> StillThere(s, at)
  {
    ExplainsLists(s, free, full);
    InBook(s, Live(p, at), free, full);
    CountsConserved(s, free, full);
    ExplainsCovers(s, free, full);
    hide Explains, HandleOk, BookOf, SizeOf, Wf, HandlesTo;
  }

  lemma ShareIff(s: State, h: nat, o: nat, free: seq<int>, full: seq<int>)
    requires Shaped(ViewOf(s, 0)) && Explains(s, free, full) && HasFields(s, o) && NotLive(s.handles, h)
    ensures Inv(Share(s, h, o)) <==> StillThere(s, s.handles[o].at)
  {
    hide Explains, Shaped, Share, Wf, HandleOk, StillThere, BookOf;
    StillThereIff(s, s.handles[o].proc, s.handles[o].at, free, full);
    if StillThere(s, s.handles[o].at) {
      ShareKeeps(s, h, o, free, full);
    } else {
      LateShareDangles(s, h, o, free, full);
      DanglingBreaks(Share(s, h, o));
    }
  }

  lemma TakeOverKeeps(s: State, h: nat, p: nat, at: Attached, free: seq<int>, full: seq<int>)
    requires Explains(s, free, full) && h in s.handles && !s.handles[h].Live?
    ensures Explains(s.(handles := s.handles[h := Uncounted(p, at)]), free, full)
  {
    hide Wf, Consistent, BookOf;
    assert Without(s.handles, h, s.handles[h := Uncounted(p, at)]);
    DropUncounted(BookOf(s.maxLen, s.t, full), s.segments, s.nextNumber, s.handles, h,
                  s.handles[h := Uncounted(p, at)]);
  }

  // ------------------------------------------------------------------ assignment

  /** With nothing in between, assigning over another live handle is destroying it and copying anew. */
  lemma AssignIsDestroyThenCopy(code: Code, s: State, h: nat, o: nat)
    requires Enabled(s, AssignFree(h)) && h != o && IsLive(s, o) && s.handles[h].proc == s.handles[o].proc
    ensures var freed := Step(code, s, AssignFree(h));
            var destroyed := Step(code, s, Destroy(h));
            && Enabled(freed, AssignCopy(h, o)) && Enabled(destroyed, Copy(h, o))
            && Step(code, freed, AssignCopy(h, o)) == Step(code, destroyed, Copy(h, o))
  {
    hide Release, Shaped;
    var freed, destroyed := Step(code, s, AssignFree(h)), Step(code, s, Destroy(h));
    ShapedHandles(Release(code, s, h), destroyed.handles);
    ShapedHandles(Release(code, s, h), freed.handles);
    var hd := Live(s.handles[o].proc, s.handles[o].at);
    assert freed.handles[h := hd] == destroyed.handles[h := hd];
  }

  /** h = h: the second part of operator= finds the buffer alive exactly when h was not its only handle. */
  lemma SelfAssignIff(code: Code, s: State, h: nat)
    requires Inv(s) && Enabled(s, AssignFree(h)) && Guard(code, s, AssignFree(h)) && IsLive(s, h)
    ensures var freed := Step(code, s, AssignFree(h));
            && Enabled(freed, AssignCopy(h, h))
            && (Guard(code, freed, AssignCopy(h, h)) <==> s.t.ds[s.handles[h].at.desc].refCount > 1)
  {
    hide Consistent, Wf, Shaped, Step;
    var free, full :| Explains(s, free, full);
    FreedIs(code, s, h);
    FreedStillThere(code, s, h, free, full);
  }

  /** The first part of operator= leaves the object's fields as they are. */
  lemma FreedIs(code: Code, s: State, h: nat)
    requires Enabled(s, AssignFree(h))
    ensures var s' := Step(code, s, AssignFree(h));
            && |s'.t.ds| == |s.t.ds| && h in s'.handles
            && s'.handles == s.handles[h := Freed(s.handles[h].proc, s.handles[h].at)]
            && s' == Release(code, s, h).(handles := s'.handles)
            && Without(s.handles, h, s'.handles)
            && Shaped(ViewOf(s', 0)) && Enabled(s', AssignCopy(h, h))
  {
    hide Release, Shaped, Without;
    WithoutFreed(s.handles, h, s.handles[h].proc, s.handles[h].at);
    ShapedHandles(Release(code, s, h), s.handles[h := Freed(s.handles[h].proc, s.handles[h].at)]);
  }

  lemma FreedStillThere(code: Code, s: State, h: nat, free: seq<int>, full: seq<int>)
    requires Explains(s, free, full) && Enabled(s, AssignFree(h)) && IsLive(s, h) && MayRelease(code, s, h)
    ensures |Step(code, s, AssignFree(h)).t.ds| == |s.t.ds|
    ensures var there := StillThere(Step(code, s, AssignFree(h)), s.handles[h].at);
            there <==> s.t.ds[s.handles[h].at.desc].refCount > 1
  {
    hide Explains, Shaped, Release, Wf, SizeOf, Without, Step, HandleOk, BookOf, StillThere, MayRelease;
    LiveHandle(s, h, free, full);
    FreedIs(code, s, h);
    var freed, p, at := Step(code, s, AssignFree(h)), s.handles[h].proc, s.handles[h].at;
    AfterFree(code, s, h, free, full);
    if s.t.ds[at.desc].refCount == 1 {
      var free', full' := ReleaseLast(code, s, h, freed.handles, free, full);
      ExplainsLists(freed, free', full');
      StillThereIff(freed, p, at, free', full');
      InBook(freed, Live(p, at), free', full');
    } else {
      ReleaseSome(code, s, h, freed.handles, free, full);
      ExplainsLists(freed, free, full);
      StillThereIff(freed, p, at, free, full);
      InBook(freed, Live(p, at), free, full);
    }
  }

  lemma AfterFree(code: Code, s: State, h: nat, free: seq<int>, full: seq<int>)
    requires Explains(s, free, full) && Enabled(s, AssignFree(h)) && IsLive(s, h)
    ensures var i := s.handles[h].at.desc;
            && s.handles[h].at.size == SizeOf(s.t.ds[i])
            && (s.t.ds[i].refCount > 1 ==> SizeOf(Step(code, s, AssignFree(h)).t.ds[i]) == SizeOf(s.t.ds[i]))
  {
    hide Explains, Shaped, Release, Wf, SizeOf, Put, HandleOk, BookOf;
    LiveHandle(s, h, free, full);
    ExplainsLists(s, free, full);
    InBook(s, s.handles[h], free, full);
    ReleaseIs(code, s, h);
    var i := s.handles[h].at.desc;
    SamePayloadSize(s.t, i, s.t.ds[i].(refCount := Decremented(s.t.ds[i].refCount)));
  }

  /** With nothing in between, and another handle alive, h = h changes nothing. */
  lemma SelfAssignIsNothing(code: Code, s: State, h: nat)
    requires Inv(s) && Enabled(s, AssignFree(h)) && IsLive(s, h) && s.t.ds[s.handles[h].at.desc].refCount > 1
    ensures var freed := Step(code, s, AssignFree(h));
            Enabled(freed, AssignCopy(h, h)) && SameButCaches(Step(code, freed, AssignCopy(h, h)), s)
  {
    hide Release, Share, Shaped, Without, Inv, Put, Dropped, WithPayload;
    FreedIs(code, s, h);
    var freed := Step(code, s, AssignFree(h));
    ReleaseIs(code, s, h);
    ShareIs(freed, h, h);
    CountUpAndDown(s.t, s.handles[h].at.desc);
    assert freed.handles[h := s.handles[h]] == s.handles;
  }

  /** The same state, whether or not a process that has nothing cached is written down as such. */
  ghost predicate SameButCaches(s: State, s': State) {
    s == s'.(caches := s.caches) && forall p :: CacheOf(s.caches, p) == CacheOf(s'.caches, p)
  }

  /** Since operator= lets go of the mutex in between, a second handle is no protection: when it is destroyed
      there, by any thread, h = h ends up counting a reference to a descriptor that is free. */
  lemma SelfAssignRaces(code: Code, s: State, h: nat, g: nat)
    requires Inv(s) && IsLive(s, h) && IsLive(s, g) && g != h && s.handles[g].at.desc == s.handles[h].at.desc
    requires s.t.ds[s.handles[h].at.desc].refCount == 2
    requires code.Repaired? || s.t.ds[s.handles[h].at.desc].prevIdx != -1
    ensures Enabled(s, AssignFree(h)) && Guard(code, s, AssignFree(h))
    ensures var freed := Step(code, s, AssignFree(h));
            && Enabled(freed, Destroy(g)) && Guard(code, freed, Destroy(g))
            && var gone := Step(code, freed, Destroy(g));
               Inv(gone) && Enabled(gone, AssignCopy(h, h)) && !Guard(code, gone, AssignCopy(h, h))
  {
    hide Consistent, Shaped, Release, Wf, Step, Put;
    var free, full :| Explains(s, free, full);
    FreedIs(code, s, h);
    FreedOnce(code, s, h, free, full);
    LastGone(code, Step(code, s, AssignFree(h)), h, g, free, full);
  }

  lemma FreedOnce(code: Code, s: State, h: nat, free: seq<int>, full: seq<int>)
    requires Explains(s, free, full) && Enabled(s, AssignFree(h)) && IsLive(s, h)
    requires s.t.ds[s.handles[h].at.desc].refCount == 2
    ensures var s', i := Step(code, s, AssignFree(h)), s.handles[h].at.desc;
            && Explains(s', free, full) && |s'.t.ds| == |s.t.ds|
            && s'.t.ds[i].refCount == 1 && s'.t.ds[i].prevIdx == s.t.ds[i].prevIdx
  {
    hide Explains, Shaped, Release, Wf, Step, Put, Without;
    FreedIs(code, s, h);
    ReleaseIs(code, s, h);
    ReleaseSome(code, s, h, Step(code, s, AssignFree(h)).handles, free, full);
  }

  lemma LastGone(code: Code, s: State, h: nat, g: nat, free: seq<int>, full: seq<int>)
    requires Explains(s, free, full) && Enabled(s, Destroy(g)) && Guard(code, s, Destroy(g)) && h != g && IsLive(s, g)
    requires HasFields(s, h) && s.handles[h].Freed? && s.handles[h].at.desc == s.handles[g].at.desc
    requires s.t.ds[s.handles[g].at.desc].refCount == 1
    ensures var gone := Step(code, s, Destroy(g));
            Inv(gone) && Enabled(gone, AssignCopy(h, h)) && !Guard(code, gone, AssignCopy(h, h))
  {
    hide Explains, Shaped, Release, Wf, SizeOf, Inv, Without, MayRelease;
    WithoutGone(s.handles, g);
    ExplainsInv(s, 0, free, full);
    StepKeepsIff(code, s, Destroy(g));
    var gone := Step(code, s, Destroy(g));
    var free', full' := ReleaseLast(code, s, g, gone.handles, free, full);
    ShapedHandles(Release(code, s, g), gone.handles);
    ExplainsCovers(gone, free', full');
  }

  /** When its second lock() is interrupted, operator= leaves an object that was never counted. Everything is still in
      order, but it can be destroyed, or assigned to, only once no handle refers to the buffer any more: as long as
      the original is alive, that takes away a reference of another. */
  lemma InterruptedAssignDangles(code: Code, s: State, h: nat, o: nat)
    requires Inv(s) && Enabled(s, AssignThrow(h, o)) && IsLive(s, o)
    ensures var s' := Step(code, s, AssignThrow(h, o));
            && Inv(s') && Enabled(s', Destroy(h)) && Enabled(s', AssignFree(h))
            && !Inv(Step(code, s', Destroy(h))) && !Inv(Step(code, s', AssignFree(h)))
  {
    hide Inv, Shaped, Release;
    StepKeepsIff(code, s, AssignThrow(h, o));
    var s' := Step(code, s, AssignThrow(h, o));
    ShapedHandles(s, s'.handles);
    assert RefersTo(s'.handles, o, s'.handles[h].at.desc);
    StepKeepsIff(code, s', Destroy(h));
    StepKeepsIff(code, s', AssignFree(h));
  }

  lemma ShapedHandles(s: State, handles: Handles)
    requires Shaped(ViewOf(s, 0))
    ensures Shaped(ViewOf(s.(handles := handles), 0))
  {
  }

  lemma DefaultKeeps(s: State, h: nat, p: nat, free: seq<int>, full: seq<int>)
    requires Explains(s, free, full) && h !in s.handles
    ensures Explains(s.(handles := s.handles[h := Null(p)]), free, full)
  {
    hide Wf, NamesOk, SegmentsOk;
    forall i ensures HandlesTo(s.handles[h := Null(p)], i) == HandlesTo(s.handles, i) {
      HandlesAdded(s.handles, h, Null(p), i);
    }
    hide HandlesTo;
  }

  lemma SetWordKeeps(s: State, key: int, word: int, free: seq<int>, full: seq<int>)
    requires Explains(s, free, full) && key in s.segments
    ensures Explains(s.(segments := s.segments[key := s.segments[key].(word := word)]), free, full)
  {
    hide Wf, NamesOk, CountsOk, HandlesOk, BookOf;
  }

  /** The main result for one step: it keeps the lists, the names, the segments, the counts and the handles
      of all processes in order exactly when its guard holds. */
  lemma StepKeepsIff(code: Code, s: State, op: Op)
    requires Inv(s) && Enabled(s, op)
    ensures Inv(Step(code, s, op)) <==> Guard(code, s, op)
  {
    hide Consistent, Share, Wf, Release, Get, MayFree, StillThere, Without, Lookup, Shaped;
    var free, full :| Explains(s, free, full);
    hide Explains;
    match op {
      case Default(h, p) => DefaultKeeps(s, h, p, free, full);
      case GetBuffer(_, _, _, _, _, _) => GetBufferIff(code, s, op, free, full);
      case Copy(h, o) => ShareIff(s, h, o, free, full);
      case AssignFree(h) =>
        WithoutFreed(s.handles, h, s.handles[h].proc, s.handles[h].at);
        FreeIff(code, s, h, s.handles[h := Freed(s.handles[h].proc, s.handles[h].at)], free, full);
      case AssignCopy(h, o) => ShareIff(s, h, o, free, full);
      case AssignThrow(h, o) => TakeOverKeeps(s, h, s.handles[o].proc, s.handles[o].at, free, full);
      case Destroy(h) =>
        WithoutGone(s.handles, h);
        FreeIff(code, s, h, s.handles - {h}, free, full);
      case SetWord(key, word) =>
        SetWordKeeps(s, key, word, free, full);
        ShapedSame(ViewOf(s, 0), ViewOf(Step(code, s, op), 0));
    }
  }

  // ---------------------------------------------------------------------- runs

  ghost predicate IsRun(code: Code, s: State, ops: seq<Op>)
    decreases |ops|
  {
    ops == [] || (Enabled(s, ops[0]) && Guard(code, s, ops[0]) && IsRun(code, Step(code, s, ops[0]), ops[1..]))
  }

  ghost function Final(code: Code, s: State, ops: seq<Op>): State
    requires IsRun(code, s, ops)
    decreases |ops|
  {
    if ops == [] then s else Final(code, Step(code, s, ops[0]), ops[1..])
  }

  /** What init leaves: a chained table of n descriptors, and nobody holds anything. Other
      programs may have segments of their own. */
  function Fresh(n: nat, maxLen: nat, segments: map<int, Segment>, next: nat): State {
    State(maxLen, Initial(n, maxLen), segments, next, map[], map[])
  }

  lemma FreshExplained(n: nat, maxLen: nat, segments: map<int, Segment>, next: nat)
    requires n > 0 && maxLen > 0 && SegmentsOk(map[], segments, next)
    ensures var s := Fresh(n, maxLen, segments, next);
            && Shaped(ViewOf(s, 0)) && Explains(s, UpTo(n), []) && BookOf(s.maxLen, s.t, []) == map[]
  {
    var s := Fresh(n, maxLen, segments, next);
    InitialWf(n, maxLen);
    WfInRange(s.t, UpTo(n), []);
    assert BookOf(maxLen, s.t, []) == map[];
  }

  lemma FreshInv(n: nat, maxLen: nat, segments: map<int, Segment>, next: nat)
    requires n > 0 && maxLen > 0 && SegmentsOk(map[], segments, next)
    ensures Inv(Fresh(n, maxLen, segments, next))
  {
    FreshExplained(n, maxLen, segments, next);
  }

  lemma {:induction false} RunKeepsInv(code: Code, s: State, ops: seq<Op>)
    requires Inv(s) && IsRun(code, s, ops)
    ensures Inv(Final(code, s, ops))
    decreases |ops|
  {
    hide Inv, Step, Guard, Enabled;
    if ops != [] {
      StepKeepsIff(code, s, ops[0]);
      RunKeepsInv(code, Step(code, s, ops[0]), ops[1..]);
    }
  }

  /** The bytes of a segment are those of the data and the mutex together exactly when size_t can say so;
      otherwise there is not even room for the mutex. */
  predicate HoldsIff(bytes: nat, size: nat) {
    && (bytes == size + 4 <==> size < 0xFFFF_FFFF_FFFF_FFFC)
    && (bytes >= 4 <==> size < 0xFFFF_FFFF_FFFF_FFFC)
  }

  /** References are conserved: after any run, across all processes, a descriptor is full exactly
      when some handle refers to it, its ref_count is the number of those handles, and every handle has
      the size its buffer was created with, and a segment that holds it. */
  ghost predicate Conserved(s: State, full: seq<int>) {
    && (forall i :: i in full ==> 0 <= i < |s.t.ds|)
    && (forall i :: i in full <==> exists h :: RefersTo(s.handles, h, i))
    && (forall i :: i in full && 0 <= i < |s.t.ds| ==> s.t.ds[i].refCount == |HandlesTo(s.handles, i)|)
    && (forall h :: IsLive(s, h) ==>
          var d := s.t.ds[s.handles[h].at.desc];
          && s.handles[h].at.size == SizeOf(d)
          && d.shmKey in s.segments && HoldsIff(s.segments[d.shmKey].bytes, s.handles[h].at.size))
  }

  lemma ExplainsConserved(s: State, free: seq<int>, full: seq<int>)
    requires Explains(s, free, full)
    ensures Conserved(s, full)
  {
    hide Explains, Wf, SizeOf, BookOf, HandlesTo, HoldsIff, HandleOk;
    ExplainsCovers(s, free, full);
    CountsConserved(s, free, full);
    forall h | IsLive(s, h)
      ensures var d := s.t.ds[s.handles[h].at.desc];
              && s.handles[h].at.size == SizeOf(d)
              && d.shmKey in s.segments && HoldsIff(s.segments[d.shmKey].bytes, s.handles[h].at.size)
    {
      HandleHolds(s, h, free, full);
    }
  }

  lemma HandleHolds(s: State, h: nat, free: seq<int>, full: seq<int>)
    requires Explains(s, free, full) && IsLive(s, h)
    ensures var d := s.t.ds[s.handles[h].at.desc];
            && s.handles[h].at.size == SizeOf(d)
            && d.shmKey in s.segments && HoldsIff(s.segments[d.shmKey].bytes, s.handles[h].at.size)
  {
    LiveHandle(s, h, free, full);
    InBook(s, s.handles[h], free, full);
    SegmentFitsIff(s.handles[h].at.size);
    hide Wf, NamesOk, CountsOk, SegmentBytes;
  }

  lemma CountsConserved(s: State, free: seq<int>, full: seq<int>)
    requires Explains(s, free, full)
    ensures forall i :: i in full ==> 0 <= i < |s.t.ds|
    ensures forall i :: i in full && 0 <= i < |s.t.ds| ==>
              s.t.ds[i].refCount == |HandlesTo(s.handles, i)| && exists h :: RefersTo(s.handles, h, i)
  {
    var book := BookOf(s.maxLen, s.t, full);
    BookKeys(s, free, full);
    hide Wf, SizeOf, NamesOk, SegmentsOk;
    forall i | i in full && 0 <= i < |s.t.ds|
      ensures s.t.ds[i].refCount == |HandlesTo(s.handles, i)| && exists h :: RefersTo(s.handles, h, i)
    {
      assert i in book && |HandlesTo(s.handles, i)| > 0;
      var h :| h in HandlesTo(s.handles, i);
      assert RefersTo(s.handles, h, i);
    }
  }

  lemma EveryRunConserves(code: Code, n: nat, maxLen: nat, segments: map<int, Segment>, next: nat, ops: seq<Op>)
    requires n > 0 && maxLen > 0 && SegmentsOk(map[], segments, next)
    requires IsRun(code, Fresh(n, maxLen, segments, next), ops)
    ensures var s := Final(code, Fresh(n, maxLen, segments, next), ops);
            exists free, full :: Wf(s.t, free, full) && Conserved(s, full)
  {
    FreshInv(n, maxLen, segments, next);
    RunKeepsInv(code, Fresh(n, maxLen, segments, next), ops);
    var s := Final(code, Fresh(n, maxLen, segments, next), ops);
    var free, full :| Explains(s, free, full);
    ExplainsConserved(s, free, full);
  }
}
