/** Which segments the kernel has: over every run those of other programs and one for each buffer in use, and
    after the destructor's loop those of other programs and of buffers the loop does not recognise. */
module BufferSegments {
  import opened Common
  import opened CNames
  import opened DescriptorLists
  import opened BufferTable
  import opened BufferBook
  import opened BufferRuns
  import opened BufferDirectory
  import opened BufferTeardown
  import FutexMutex

  type Segments = map<int, Segment>

  // ------------------------------------------------------------------- the destructor's loop

  /** What the loop takes for a descriptor in use: the first character of its name is not NUL. */
  predicate Named(ds: Descriptors, j: int) {
    0 <= j < |ds| && |ds[j].id| > 0 && ds[j].id[0] != '\0'
  }

  /** Whatever the links are, returning a descriptor blanks it and leaves the payload of the others. */
  lemma PutPayload(code: Code, t: Table, i: int)
    requires InRange(t) && 0 <= i < |t.ds|
    ensures var t' := Put(code, t, i);
            && (forall j :: 0 <= j < |t.ds| && j != i ==> SamePayload(t.ds[j], t'.ds[j]))
            && SamePayload(t'.ds[i], Blank(t.ds[i]))
  {
    hide Unlink;
  }

  lemma DetachIs(code: Code, v: View, i: int)
    requires Shaped(v) && 0 <= i < |v.t.ds|
    ensures var v' := Detach(code, v, i);
            && v'.segments == v.segments - {v.t.ds[i].shmKey} && v'.cache == v.cache - {i}
            && v'.nextNumber == v.nextNumber
            && (forall j :: 0 <= j < |v.t.ds| && j != i ==>
                  v'.t.ds[j].shmKey == v.t.ds[j].shmKey && v'.t.ds[j].id == v.t.ds[j].id)
  {
    hide Put;
    PutPayload(code, v.t, i);
  }

  /** From index i on, the loop removes the segments and the cached addresses of the descriptors with a name, and
      no others: as written and repaired, and on any table. */
  lemma {:induction false} TeardownRemoves(code: Code, v: View, i: nat)
    requires Shaped(v) && i <= |v.t.ds|
    ensures var v' := TeardownFrom(code, v, i);
            && (forall k :: k in v'.segments <==>
                  k in v.segments && forall j :: i <= j < |v.t.ds| && Named(v.t.ds, j) ==> v.t.ds[j].shmKey != k)
            && (forall k :: k in v'.segments && k in v.segments ==> v'.segments[k] == v.segments[k])
            && (forall d :: d in v'.cache <==> d in v.cache && !(i <= d && Named(v.t.ds, d)))
            && (forall d :: d in v'.cache && d in v.cache ==> v'.cache[d] == v.cache[d])
    decreases |v.t.ds| - i
  {
    hide Detach, Shaped;
    if i < |v.t.ds| {
      FirstCharacter(v, i);
      if CharAt(v.t.ds[i].id, 0) == NUL {
        TeardownRemoves(code, v, i + 1);
      } else {
        DetachIs(code, v, i);
        var v1 := Detach(code, v, i);
        TeardownRemoves(code, v1, i + 1);
        assert forall j :: i < j < |v.t.ds| ==> (Named(v1.t.ds, j) <==> Named(v.t.ds, j));
        assert Named(v.t.ds, i);
      }
    }
  }

  lemma FirstCharacter(v: View, i: int)
    requires Shaped(v) && 0 <= i < |v.t.ds|
    ensures Named(v.t.ds, i) <==> CharAt(v.t.ds[i].id, 0) != NUL
    ensures Named(v.t.ds, i) <==> NameAt(v, i) != []
  {
  }

  // ------------------------------------------------------------- the segments, book by book

  ghost predicate KeyOf(book: Book, k: int) {
    exists i :: i in book && book[i].key == k
  }

  /** own are the segments of other programs: they stay, but for what their mutex words become, and beside them
      there is exactly one for each record. */
  ghost predicate Accounted(book: Book, segments: Segments, own: Segments) {
    && (forall k :: k in segments <==> k in own || KeyOf(book, k))
    && (forall k :: k in own ==>
          && k in segments && !KeyOf(book, k)
          && segments[k].number == own[k].number && segments[k].bytes == own[k].bytes)
  }

  lemma CountAccounts(book: Book, segments: Segments, own: Segments, i: int, count: nat)
    requires Accounted(book, segments, own) && i in book
    ensures Accounted(book[i := book[i].(count := count)], segments, own)
  {
    var book' := book[i := book[i].(count := count)];
    forall k ensures KeyOf(book', k) <==> KeyOf(book, k) {
      if KeyOf(book, k) { var j :| j in book && book[j].key == k; assert j in book' && book'[j].key == k; }
      if KeyOf(book', k) { var j :| j in book' && book'[j].key == k; assert j in book && book[j].key == k; }
    }
    hide KeyOf;
  }

  lemma EnterAccounts(book: Book, segments: Segments, own: Segments, i: int, r: Record, segment: Segment)
    requires Accounted(book, segments, own) && i !in book && r.key !in segments
    ensures Accounted(book[i := r], segments[r.key := segment], own)
  {
    var book' := book[i := r];
    forall k ensures KeyOf(book', k) <==> KeyOf(book, k) || k == r.key {
      if KeyOf(book, k) { var j :| j in book && book[j].key == k; assert j in book' && book'[j].key == k; }
      if k == r.key { assert i in book' && book'[i].key == k; }
      if KeyOf(book', k) { var j :| j in book' && book'[j].key == k; assert j != i ==> j in book && book[j].key == k; }
    }
    hide KeyOf;
  }

  lemma DropAccounts(book: Book, segments: Segments, next: nat, own: Segments, i: int)
    requires Accounted(book, segments, own) && SegmentsOk(book, segments, next) && i in book
    ensures Accounted(book - {i}, segments - {book[i].key}, own)
  {
    var book' := book - {i};
    forall k ensures KeyOf(book', k) <==> KeyOf(book, k) && k != book[i].key {
      if KeyOf(book, k) && k != book[i].key {
        var j :| j in book && book[j].key == k;
        assert j in book' && book'[j].key == k;
      }
      if KeyOf(book', k) { var j :| j in book' && book'[j].key == k; assert j in book && book[j].key == k; }
    }
    assert KeyOf(book, book[i].key);
    hide KeyOf, SegmentsOk;
  }

  /** Nobody has a segment without a record or an owner. */
  lemma NothingAccounts(book: Book, segments: Segments, own: Segments, k: int)
    requires Accounted(book, segments, own) && k !in own && forall j :: j in book ==> book[j].key != k
    ensures segments - {k} == segments
  {
    assert !KeyOf(book, k);
    assert k !in segments;
  }

  lemma WordAccounts(book: Book, segments: Segments, own: Segments, key: int, word: int)
    requires Accounted(book, segments, own) && key in segments
    ensures Accounted(book, segments[key := segments[key].(word := word)], own)
  {
    hide KeyOf;
  }

  // ------------------------------------------------------------- the segments, step by step

  ghost predicate SegmentsAccounted(s: State, own: Segments) {
    forall free, full :: Wf(s.t, free, full) ==> Accounted(BookOf(s.maxLen, s.t, full), s.segments, own)
  }

  lemma AccountedAt(s: State, own: Segments, free: seq<int>, full: seq<int>)
    requires Wf(s.t, free, full)
    ensures SegmentsAccounted(s, own) <==> Accounted(BookOf(s.maxLen, s.t, full), s.segments, own)
  {
    hide Wf, Accounted, BookOf;
    forall free', full' | Wf(s.t, free', full') ensures full' == full {
      ListsAreUnique(s.t, free, full, free', full');
    }
  }

  lemma RecordsInOrder(s: State, free: seq<int>, full: seq<int>)
    requires Explains(s, free, full)
    ensures SegmentsOk(BookOf(s.maxLen, s.t, full), s.segments, s.nextNumber)
  {
    hide SegmentsOk, NamesOk, CountsOk, HandlesOk, BookOf, Wf;
  }

  lemma GetAccounts(code: Code, s: State, op: Op, own: Segments, free: seq<int>, full: seq<int>)
    requires op.GetBuffer? && Explains(s, free, full) && Enabled(s, op) && Guard(code, s, op)
    requires Accounted(BookOf(s.maxLen, s.t, full), s.segments, own)
    ensures SegmentsAccounted(Step(code, s, op), own)
  {
    hide Explains, Wf, BookOf, Shaped, Step, Lookup, SegmentBytes, Handed, Name, SizeOf, Accounted, SegmentsAccounted;
    ExplainsLists(s, free, full);
    EnabledShaped(s, op);
    NothingFree(s.t, free, full);
    LookupInBook(s, op.p, op.id, free, full);
    var book, i, s' := BookOf(s.maxLen, s.t, full), Lookup(ViewOf(s, op.p), op.id), Step(code, s, op);
    if i >= 0 {
      MapBook(code, s, op, i, free, full);
      AccountedAt(s', own, free, full);
      CountAccounts(book, s.segments, own, i, book[i].count + 1);
    } else {
      CreateBook(code, s, op, free, full);
      if op.bytes > 0 && free != [] {
        AccountedAt(s', own, free[1..], [free[0]] + full);
        EnterAccounts(book, s.segments, own, free[0], Record(op.key, op.bytes, 1, Name(op.id, s.maxLen)),
                      Segment(s.nextNumber, SegmentBytes(op.bytes), FutexMutex.UNLOCKED));
      } else {
        AccountedAt(s', own, free, full);
      }
    }
  }

  lemma ShareAccounts(s: State, h: nat, o: nat, own: Segments, free: seq<int>, full: seq<int>)
    requires Shaped(ViewOf(s, 0)) && Explains(s, free, full) && HasFields(s, o) && StillThere(s, s.handles[o].at)
    requires Accounted(BookOf(s.maxLen, s.t, full), s.segments, own)
    ensures SegmentsAccounted(Share(s, h, o), own)
  {
    hide Explains, Wf, BookOf, Shaped, Share, StillThere, NameOfHandle, Accounted, SegmentsAccounted;
    ShareBook(s, h, o, free, full);
    var book, i := BookOf(s.maxLen, s.t, full), s.handles[o].at.desc;
    AccountedAt(Share(s, h, o), own, free, full);
    CountAccounts(book, s.segments, own, i, book[i].count + 1);
  }

  lemma ReleaseAccounts(code: Code, s: State, h: nat, own: Segments, free: seq<int>, full: seq<int>)
    requires Shaped(ViewOf(s, 0)) && IsLive(s, h) && MayRelease(code, s, h) && Explains(s, free, full)
    requires Accounted(BookOf(s.maxLen, s.t, full), s.segments, own)
    ensures SegmentsAccounted(Release(code, s, h), own)
  {
    hide Explains, Wf, BookOf, Shaped, Release, SegmentsOk, MayRelease, NameOfHandle, Accounted, SegmentsAccounted;
    RecordsInOrder(s, free, full);
    var free', full' := ReleaseBook(code, s, h, free, full);
    var book, i := BookOf(s.maxLen, s.t, full), s.handles[h].at.desc;
    AccountedAt(Release(code, s, h), own, free', full');
    if book[i].count == 1 {
      DropAccounts(book, s.segments, s.nextNumber, own, i);
    } else {
      CountAccounts(book, s.segments, own, i, book[i].count - 1);
    }
  }

  lemma DropUncountedAccounts(code: Code, s: State, h: nat, own: Segments, free: seq<int>, full: seq<int>)
    requires Shaped(ViewOf(s, 0)) && HasFields(s, h) && MayDrop(s, s.handles[h].at.desc) && Explains(s, free, full)
    requires NoNames(s.maxLen, s.t.ds, free) && 0 !in own
    requires Accounted(BookOf(s.maxLen, s.t, full), s.segments, own)
    ensures SegmentsAccounted(Release(code, s, h), own)
  {
    hide Wf, BookOf, Shaped, Release, Accounted, SegmentsAccounted, Name, Consistent;
    var i, book := s.handles[h].at.desc, BookOf(s.maxLen, s.t, full);
    FullIffReferred(s, i, free, full);
    KeyInUseIff(s, s.t.ds[i].shmKey, free, full);
    NotBoth(s.t, free, full, i);
    var free' := DropIs(code, s, h, free, full);
    AccountedAt(Release(code, s, h), own, free', full);
    if s.t.ds[i].refCount == 1 { NothingAccounts(book, s.segments, own, s.t.ds[i].shmKey); }
  }

  lemma FreeAccounts(code: Code, s: State, h: nat, own: Segments, free: seq<int>, full: seq<int>)
    requires Shaped(ViewOf(s, 0)) && HasFields(s, h) && MayFree(code, s, h) && Explains(s, free, full)
    requires NoNames(s.maxLen, s.t.ds, free) && 0 !in own
    requires Accounted(BookOf(s.maxLen, s.t, full), s.segments, own)
    ensures SegmentsAccounted(Release(code, s, h), own)
  {
    hide Explains, Wf, BookOf, Shaped, Release, MayRelease, MayDrop, Accounted, SegmentsAccounted, NoNames;
    if s.handles[h].Live? {
      ReleaseAccounts(code, s, h, own, free, full);
    } else {
      DropUncountedAccounts(code, s, h, own, free, full);
    }
  }

  lemma AccountedHandles(s: State, own: Segments, handles: Handles)
    requires SegmentsAccounted(s, own)
    ensures SegmentsAccounted(s.(handles := handles), own)
  {
  }

  lemma SetWordAccounts(s: State, key: int, word: int, own: Segments, free: seq<int>, full: seq<int>)
    requires Wf(s.t, free, full) && Accounted(BookOf(s.maxLen, s.t, full), s.segments, own) && key in s.segments
    ensures SegmentsAccounted(s.(segments := s.segments[key := s.segments[key].(word := word)]), own)
  {
    hide Wf, BookOf, Accounted, SegmentsAccounted;
    AccountedAt(s.(segments := s.segments[key := s.segments[key].(word := word)]), own, free, full);
    WordAccounts(BookOf(s.maxLen, s.t, full), s.segments, own, key, word);
  }

  /** No step of any process leaks a segment, or removes one of another program. */
  lemma StepAccounts(code: Code, s: State, op: Op, own: Segments)
    requires Inv(s) && FreeBlank(s) && SegmentsAccounted(s, own) && 0 !in own && Enabled(s, op) && Guard(code, s, op)
    ensures SegmentsAccounted(Step(code, s, op), own)
  {
    hide Consistent, Wf, BookOf, Shaped, Lookup, Get, Share, Release, StillThere, MayFree, Accounted, NoNames;
    var free, full :| Explains(s, free, full);
    AccountedAt(s, own, free, full);
    assert NoNames(s.maxLen, s.t.ds, free);
    hide Explains, Inv, SegmentsAccounted, FreeBlank;
    match op {
      case Default(_, _) => AccountedHandles(s, own, Step(code, s, op).handles);
      case AssignThrow(_, _) => AccountedHandles(s, own, Step(code, s, op).handles);
      case SetWord(key, word) => ExplainsLists(s, free, full); SetWordAccounts(s, key, word, own, free, full);
      case GetBuffer(_, _, _, _, _, _) => GetAccounts(code, s, op, own, free, full);
      case Copy(h, o) => ShareAccounts(s, h, o, own, free, full);
      case AssignCopy(h, o) => ShareAccounts(s, h, o, own, free, full);
      case AssignFree(h) =>
        FreeAccounts(code, s, h, own, free, full);
        AccountedHandles(Release(code, s, h), own, Step(code, s, op).handles);
      case Destroy(h) =>
        FreeAccounts(code, s, h, own, free, full);
        AccountedHandles(Release(code, s, h), own, Step(code, s, op).handles);
    }
  }

  lemma {:induction false} RunAccounts(code: Code, s: State, ops: seq<Op>, own: Segments)
    requires Inv(s) && FreeBlank(s) && SegmentsAccounted(s, own) && 0 !in own && IsRun(code, s, ops)
    ensures var s' := Final(code, s, ops);
            Inv(s') && FreeBlank(s') && SegmentsAccounted(s', own)
    decreases |ops|
  {
    hide Inv, Step, Guard, Enabled, FreeBlank, SegmentsAccounted;
    if ops != [] {
      StepKeepsIff(code, s, ops[0]);
      StepKeepsBlank(code, s, ops[0]);
      StepAccounts(code, s, ops[0], own);
      RunAccounts(code, Step(code, s, ops[0]), ops[1..], own);
    }
  }

  // ------------------------------------------------------------------ the main results

  /** Some live handle is on the buffer with that key. */
  ghost predicate KeyInUse(s: State, k: int) {
    exists h :: IsLive(s, h) && s.t.ds[s.handles[h].at.desc].shmKey == k
  }

  /** The segments of other programs are as they were, but for their words. */
  predicate Kept(own: Segments, segments: Segments) {
    forall k :: k in own ==>
      k in segments && segments[k].number == own[k].number && segments[k].bytes == own[k].bytes
  }

  lemma AccountedIs(s: State, own: Segments, free: seq<int>, full: seq<int>)
    requires Explains(s, free, full) && SegmentsAccounted(s, own)
    ensures forall k :: k in s.segments <==> k in own || KeyInUse(s, k)
    ensures forall k :: KeyInUse(s, k) ==> k !in own
    ensures Kept(own, s.segments)
  {
    hide Consistent, Wf, BookOf, IsLive;
    AccountedAt(s, own, free, full);
    hide SegmentsAccounted;
    var book := BookOf(s.maxLen, s.t, full);
    forall k ensures KeyOf(book, k) <==> KeyInUse(s, k) {
      KeyInUseIff(s, k, free, full);
    }
  }

  /** After every run from a fresh table, with whatever segments other programs have (key 0 is IPC_PRIVATE and
      finds none): the kernel has those, and exactly one for each buffer that some process has a handle on.
      The last handle takes the segment with it. */
  lemma EveryRunReturnsSegments(code: Code, n: nat, maxLen: nat, own: Segments, next: nat, ops: seq<Op>)
    requires n > 0 && maxLen > 0 && SegmentsOk(map[], own, next) && 0 !in own
    requires IsRun(code, Fresh(n, maxLen, own, next), ops)
    ensures var s := Final(code, Fresh(n, maxLen, own, next), ops);
            && (forall k :: k in s.segments <==> k in own || KeyInUse(s, k))
            && (forall k :: KeyInUse(s, k) ==> k !in own)
            && Kept(own, s.segments)
  {
    var s := RunsInOrder(code, n, maxLen, own, next, ops);
    hide Consistent, Wf, Shaped, SegmentsAccounted, KeyInUse, Kept, IsRun, Final, Fresh, FreeBlank;
    var free, full :| Explains(s, free, full);
    AccountedIs(s, own, free, full);
  }

  lemma RunsInOrder(code: Code, n: nat, maxLen: nat, own: Segments, next: nat, ops: seq<Op>) returns (s: State)
    requires n > 0 && maxLen > 0 && SegmentsOk(map[], own, next) && 0 !in own
    requires IsRun(code, Fresh(n, maxLen, own, next), ops)
    ensures s == Final(code, Fresh(n, maxLen, own, next), ops)
    ensures Inv(s) && FreeBlank(s) && SegmentsAccounted(s, own)
  {
    hide Consistent, Wf, Shaped, SegmentsAccounted, IsRun, Final, FreeBlank, BookOf, Inv, Explains, Initial;
    FreshExplained(n, maxLen, own, next);
    FreshInv(n, maxLen, own, next);
    FreshBlank(n, maxLen, own, next);
    var s0 := Fresh(n, maxLen, own, next);
    ExplainsLists(s0, UpTo(n), []);
    AccountedAt(s0, own, UpTo(n), []);
    RunAccounts(code, s0, ops, own);
    s := Final(code, s0, ops);
  }

  /** Some full descriptor with a name has that key. */
  ghost predicate NamedKey(s: State, full: seq<int>, k: int) {
    exists j :: j in full && Named(s.t.ds, j) && s.t.ds[j].shmKey == k
  }

  /** From any table a run can leave: the destructor's loop, as written and repaired, removes exactly the segments of
      the full descriptors with a name, and the cached addresses of the descriptors with a name; the others stay
      as they are. */
  lemma TeardownReturnsSegments(code: Code, s: State, p: nat, free: seq<int>, full: seq<int>)
    requires Inv(s) && FreeBlank(s) && Explains(s, free, full)
    ensures Shaped(ViewOf(s, p))
    ensures var v' := TeardownFrom(code, ViewOf(s, p), 0);
            && (forall k :: k in v'.segments <==>
                  k in s.segments && !NamedKey(s, full, k))
            && (forall k :: k in v'.segments && k in s.segments ==> v'.segments[k] == s.segments[k])
            && (forall d :: d in v'.cache <==> d in CacheOf(s.caches, p) && !(d in full && Named(s.t.ds, d)))
            && (forall d :: d in v'.cache && d in CacheOf(s.caches, p) ==> v'.cache[d] == CacheOf(s.caches, p)[d])
  {
    ShapedForAll(s, 0, p);
    ExplainsLists(s, free, full);
    InTable(s.t, free, full);
    hide Consistent, Wf, Shaped, TeardownFrom, Name;
    TeardownRemoves(code, ViewOf(s, p), 0);
    forall j | Named(s.t.ds, j) ensures j in full {
      FirstCharacter(ViewOf(s, p), j);
      assert NoNames(s.maxLen, s.t.ds, free);
    }
    hide FreeBlank, Inv, Explains;
  }

  /** Over every run: after the loop the kernel has the segments of other programs, and those of buffers in use
      whose name is empty. */
  lemma EveryRunTearsDownSegments(code: Code, n: nat, maxLen: nat, own: Segments, next: nat, ops: seq<Op>, p: nat)
    requires n > 0 && maxLen > 0 && SegmentsOk(map[], own, next) && 0 !in own
    requires IsRun(code, Fresh(n, maxLen, own, next), ops)
    ensures var s := Final(code, Fresh(n, maxLen, own, next), ops);
            && Shaped(ViewOf(s, p))
            && var v' := TeardownFrom(code, ViewOf(s, p), 0);
               && (forall k :: k in v'.segments <==> k in own || UnnamedKey(s, k))
               && Kept(own, v'.segments)
  {
    var s := RunsInOrder(code, n, maxLen, own, next, ops);
    hide Consistent, Wf, Shaped, SegmentsAccounted, IsRun, Final, Fresh, FreeBlank, TeardownFrom, Named;
    var free, full :| Explains(s, free, full);
    TeardownReturnsSegments(code, s, p, free, full);
    AccountedIs(s, own, free, full);
    hide Inv;
    forall k ensures NamedKey(s, full, k) <==> KeyInUse(s, k) && !UnnamedKey(s, k) {
      KeyOnce(s, k, free, full);
    }
  }

  ghost predicate UnnamedKey(s: State, k: int) {
    exists h :: IsLive(s, h) && s.t.ds[s.handles[h].at.desc].shmKey == k && !Named(s.t.ds, s.handles[h].at.desc)
  }

  /** A key has one descriptor, with a live handle on it. */
  lemma KeyOnce(s: State, k: int, free: seq<int>, full: seq<int>)
    requires Explains(s, free, full)
    ensures NamedKey(s, full, k) <==> KeyInUse(s, k) && !UnnamedKey(s, k)
  {
    CountsConserved(s, free, full);
    RecordsInOrder(s, free, full);
    ExplainsCovers(s, free, full);
    hide Explains, HandleOk, HandlesTo, Wf, SizeOf, Name, Named, SegmentBytes;
    var book := BookOf(s.maxLen, s.t, full);
    forall i, j | i in full && j in full && s.t.ds[i].shmKey == s.t.ds[j].shmKey ensures i == j {
      FullRecord(s, i, full);
      FullRecord(s, j, full);
    }
    if j :| j in full && Named(s.t.ds, j) && s.t.ds[j].shmKey == k {
      var g :| RefersTo(s.handles, g, j);
      assert IsLive(s, g) && s.handles[g].at.desc == j;
    }
  }
}
