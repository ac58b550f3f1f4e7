/** Which segment a Buffer object points into. A process keeps the address of a segment it has attached until
    it frees the last handle on the buffer itself. When another process does, the entry stays, and the next
    buffer in the same descriptor is looked for at the old address. */
module BufferCurrency {
  import opened Common
  import opened CNames
  import opened DescriptorLists
  import opened BufferTable
  import opened BufferBook
  import opened BufferRuns
  import opened BufferDirectory
  import FutexMutex

  type Segments = map<int, Segment>

  /** The number is that of the segment descriptor i has now. */
  ghost predicate Current(book: Book, segments: Segments, i: int, number: nat) {
    i in book && book[i].key in segments && segments[book[i].key].number == number
  }

  /** The fields point into the segment their descriptor has now. */
  ghost predicate NamesCurrent(s: State, at: Attached)
    requires 0 <= at.desc < |s.t.ds|
  {
    var d := s.t.ds[at.desc];
    d.shmKey in s.segments && s.segments[d.shmKey].number == at.number
  }

  ghost predicate PointsAtCurrent(s: State, h: nat)
    requires IsLive(s, h)
  {
    NamesCurrent(s, s.handles[h].at)
  }

  lemma PointsIff(s: State, h: nat, free: seq<int>, full: seq<int>)
    requires Explains(s, free, full) && IsLive(s, h)
    ensures var at := s.handles[h].at;
            && at.desc in BookOf(s.maxLen, s.t, full)
            && (PointsAtCurrent(s, h) <==> Current(BookOf(s.maxLen, s.t, full), s.segments, at.desc, at.number))
  {
    LiveHandle(s, h, free, full);
    hide Consistent, Wf, SizeOf, Name;
  }

  // --------------------------------------------------- a segment stays as long as its descriptor

  /** Descriptors that are in both books have the same segment in both. */
  ghost predicate SegmentsStay(book: Book, segments: Segments, book': Book, segments': Segments) {
    forall i, number :: i in book && i in book' ==>
      (Current(book', segments', i, number) <==> Current(book, segments, i, number))
  }

  lemma CountStays(book: Book, segments: Segments, i: int, count: nat)
    requires i in book
    ensures SegmentsStay(book, segments, book[i := book[i].(count := count)], segments)
  {
  }

  lemma DropStays(book: Book, segments: Segments, next: nat, i: int)
    requires SegmentsOk(book, segments, next) && i in book
    ensures SegmentsStay(book, segments, book - {i}, segments - {book[i].key})
  {
    hide SegmentBytes;
  }

  lemma EnterStays(book: Book, segments: Segments, next: nat, i: int, r: Record, segment: Segment)
    requires SegmentsOk(book, segments, next) && i !in book && r.key !in segments
    ensures SegmentsStay(book, segments, book[i := r], segments[r.key := segment])
  {
    hide SegmentBytes;
  }

  lemma WordStays(book: Book, segments: Segments, key: int, word: int)
    requires key in segments
    ensures SegmentsStay(book, segments, book, segments[key := segments[key].(word := word)])
  {
  }

  lemma BookInOrder(s: State, free: seq<int>, full: seq<int>)
    requires Explains(s, free, full)
    ensures Consistent(BookOf(s.maxLen, s.t, full), s.segments, s.nextNumber, s.handles)
    ensures SegmentsOk(BookOf(s.maxLen, s.t, full), s.segments, s.nextNumber)
  {
    hide SegmentsOk, NamesOk, CountsOk, HandlesOk, BookOf, Wf;
  }

  lemma StepStays(code: Code, s: State, op: Op, free: seq<int>, full: seq<int>)
    returns (free': seq<int>, full': seq<int>)
    requires Explains(s, free, full) && Enabled(s, op) && Guard(code, s, op)
    ensures var s' := Step(code, s, op);
            && Wf(s'.t, free', full')
            && SegmentsStay(BookOf(s.maxLen, s.t, full), s.segments, BookOf(s'.maxLen, s'.t, full'), s'.segments)
  {
    hide Explains, Wf, BookOf, Shaped, Lookup, Get, Release, Share, SegmentsStay, SegmentsOk, SizeOf, MayFree;
    hide StillThere, NameOfHandle;
    ExplainsLists(s, free, full);
    BookInOrder(s, free, full);
    var book := BookOf(s.maxLen, s.t, full);
    free', full' := free, full;
    match op {
      case Default(_, _) => NothingStays(book, s.segments);
      case SetWord(key, word) => WordStays(book, s.segments, key, word);
      case GetBuffer(_, _, _, _, _, _) => free', full' := GetStays(code, s, op, free, full);
      case AssignThrow(_, _) => NothingStays(book, s.segments);
      case Copy(h, o) => ShareStays(s, h, o, free, full);
      case AssignCopy(h, o) => ShareStays(s, h, o, free, full);
      case AssignFree(h) => free', full' := FreeStays(code, s, h, free, full);
      case Destroy(h) => free', full' := FreeStays(code, s, h, free, full);
    }
  }

  lemma NothingStays(book: Book, segments: Segments)
    ensures SegmentsStay(book, segments, book, segments)
  {
  }

  lemma ShareStays(s: State, h: nat, o: nat, free: seq<int>, full: seq<int>)
    requires Shaped(ViewOf(s, 0)) && Explains(s, free, full) && HasFields(s, o) && StillThere(s, s.handles[o].at)
    ensures var s' := Share(s, h, o);
            && Wf(s'.t, free, full)
            && SegmentsStay(BookOf(s.maxLen, s.t, full), s.segments, BookOf(s'.maxLen, s'.t, full), s'.segments)
  {
    hide Explains, Wf, BookOf, Shaped, Share, SegmentsStay, StillThere, NameOfHandle;
    ShareBook(s, h, o, free, full);
    var book, i := BookOf(s.maxLen, s.t, full), s.handles[o].at.desc;
    CountStays(book, s.segments, i, book[i].count + 1);
  }

  lemma ReleaseStays(code: Code, s: State, h: nat, free: seq<int>, full: seq<int>)
    returns (free': seq<int>, full': seq<int>)
    requires Shaped(ViewOf(s, 0)) && IsLive(s, h) && MayRelease(code, s, h) && Explains(s, free, full)
    ensures var s' := Release(code, s, h);
            && Wf(s'.t, free', full')
            && SegmentsStay(BookOf(s.maxLen, s.t, full), s.segments, BookOf(s'.maxLen, s'.t, full'), s'.segments)
  {
    hide Explains, Wf, BookOf, Shaped, Release, SegmentsStay, SegmentsOk, MayRelease, NameOfHandle;
    BookInOrder(s, free, full);
    free', full' := ReleaseBook(code, s, h, free, full);
    var book, i := BookOf(s.maxLen, s.t, full), s.handles[h].at.desc;
    if book[i].count == 1 {
      DropStays(book, s.segments, s.nextNumber, i);
    } else {
      CountStays(book, s.segments, i, book[i].count - 1);
    }
  }

  lemma DropSegmentStays(book: Book, segments: Segments, key: int)
    requires forall i :: i in book ==> book[i].key != key
    ensures SegmentsStay(book, segments, book, segments - {key})
  {
  }

  lemma FreeStays(code: Code, s: State, h: nat, free: seq<int>, full: seq<int>)
    returns (free': seq<int>, full': seq<int>)
    requires Shaped(ViewOf(s, 0)) && HasFields(s, h) && MayFree(code, s, h) && Explains(s, free, full)
    ensures var s' := Release(code, s, h);
            && Wf(s'.t, free', full')
            && SegmentsStay(BookOf(s.maxLen, s.t, full), s.segments, BookOf(s'.maxLen, s'.t, full'), s'.segments)
  {
    hide Explains, Wf, BookOf, Shaped, Release, SegmentsStay, MayRelease;
    if s.handles[h].Live? {
      free', full' := ReleaseStays(code, s, h, free, full);
    } else {
      var i := s.handles[h].at.desc;
      var book := BookOf(s.maxLen, s.t, full);
      FullIffReferred(s, i, free, full);
      KeyInUseIff(s, s.t.ds[i].shmKey, free, full);
      free' := DropIs(code, s, h, free, full);
      full' := full;
      NothingStays(book, s.segments);
      if s.t.ds[i].refCount == 1 { DropSegmentStays(book, s.segments, s.t.ds[i].shmKey); }
    }
  }

  lemma GetStays(code: Code, s: State, op: Op, free: seq<int>, full: seq<int>)
    returns (free': seq<int>, full': seq<int>)
    requires op.GetBuffer? && Explains(s, free, full) && Enabled(s, op) && Guard(code, s, op)
    ensures var s' := Step(code, s, op);
            && Wf(s'.t, free', full')
            && SegmentsStay(BookOf(s.maxLen, s.t, full), s.segments, BookOf(s'.maxLen, s'.t, full'), s'.segments)
  {
    hide Explains, Wf, BookOf, Shaped, Step, SegmentsStay, SegmentsOk, Lookup, SegmentBytes, Handed, Name;
    BookInOrder(s, free, full);
    ExplainsLists(s, free, full);
    EnabledShaped(s, op);
    NothingFree(s.t, free, full);
    LookupInBook(s, op.p, op.id, free, full);
    var book, i := BookOf(s.maxLen, s.t, full), Lookup(ViewOf(s, op.p), op.id);
    free', full' := free, full;
    NothingStays(book, s.segments);
    if i >= 0 {
      MapBook(code, s, op, i, free, full);
      CountStays(book, s.segments, i, book[i].count + 1);
    } else {
      CreateBook(code, s, op, free, full);
      if op.bytes > 0 && free != [] {
        free', full' := free[1..], [free[0]] + full;
        EnterStays(book, s.segments, s.nextNumber, free[0], Record(op.key, op.bytes, 1, Name(op.id, s.maxLen)),
                   Segment(s.nextNumber, SegmentBytes(op.bytes), FutexMutex.UNLOCKED));
      }
    }
  }

  // ------------------------------------------------------------ what a handle points into

  /** Which object a step creates, changes or destroys. */
  predicate Writes(op: Op, h: nat) {
    !op.SetWord? && op.h == h
  }

  lemma HandleKept(code: Code, s: State, op: Op, h: nat)
    requires Enabled(s, op) && !Writes(op, h) && h in s.handles
    ensures var s' := Step(code, s, op);
            h in s'.handles && s'.handles[h] == s.handles[h]
  {
    hide Release, Get, Shaped;
  }

  /** What a live object points into is settled when it is handed out: no step of any process that leaves
      the object alone turns a current pointer into a stale one, or back. */
  lemma StaysAsHandedOut(code: Code, s: State, op: Op, h: nat)
    requires Inv(s) && Enabled(s, op) && Guard(code, s, op) && IsLive(s, h) && !Writes(op, h)
    ensures var s' := Step(code, s, op);
            IsLive(s', h) && (PointsAtCurrent(s', h) <==> PointsAtCurrent(s, h))
  {
    hide Step, Guard, Enabled, Consistent, Wf, Shaped, PointsAtCurrent, Writes;
    var free, full :| Explains(s, free, full);
    StepKeepsIff(code, s, op);
    HandleKept(code, s, op, h);
    var free', full' := StepStays(code, s, op, free, full);
    InvOk(Step(code, s, op), free', full');
    hide Inv, Explains;
    LiveInTable(Step(code, s, op), h, free', full');
    PointsIff(s, h, free, full);
    PointsIff(Step(code, s, op), h, free', full');
  }

  lemma LiveInTable(s: State, h: nat, free: seq<int>, full: seq<int>)
    requires Explains(s, free, full) && h in s.handles && s.handles[h].Live?
    ensures IsLive(s, h)
  {
    LiveHandle(s, h, free, full);
  }

  /** So it is over any run. */
  lemma {:induction false} RunStaysAsHandedOut(code: Code, s: State, ops: seq<Op>, h: nat)
    requires Inv(s) && IsRun(code, s, ops) && IsLive(s, h)
    requires forall k :: 0 <= k < |ops| ==> !Writes(ops[k], h)
    ensures var s' := Final(code, s, ops);
            IsLive(s', h) && (PointsAtCurrent(s', h) <==> PointsAtCurrent(s, h))
    decreases |ops|
  {
    hide Inv, Step, Guard, Enabled, IsLive, PointsAtCurrent, Writes;
    if ops != [] {
      StaysAsHandedOut(code, s, ops[0], h);
      StepKeepsIff(code, s, ops[0]);
      RunStaysAsHandedOut(code, Step(code, s, ops[0]), ops[1..], h);
    }
  }

  /** getBuffer hands out the current segment exactly when it creates the buffer, or has nothing cached
      for its descriptor, or has the current segment cached. */
  lemma HandsOutCurrentIff(code: Code, s: State, op: Op)
    requires op.GetBuffer? && Inv(s) && Enabled(s, op) && Guard(code, s, op)
    requires Shaped(ViewOf(s, op.p)) && Handed(s, op).Ok?
    ensures var i := Lookup(ViewOf(s, op.p), op.id);
            var s', cache := Step(code, s, op), CacheOf(s.caches, op.p);
            && IsLive(s', op.h) && s'.handles[op.h] == Live(op.p, Handed(s, op).value)
            && (i >= 0 ==> s.t.ds[i].shmKey in s.segments)
            && (PointsAtCurrent(s', op.h) <==>
                  (i >= 0 && i in cache ==> s.segments[s.t.ds[i].shmKey].number == cache[i]))
  {
    hide Step, Guard, Enabled, Consistent, Wf, Shaped, PointsAtCurrent, Lookup, Handed;
    var free, full :| Explains(s, free, full);
    HandsOutIs(code, s, op, free, full);
  }

  lemma HandsOutIs(code: Code, s: State, op: Op, free: seq<int>, full: seq<int>)
    requires op.GetBuffer? && Explains(s, free, full) && Enabled(s, op) && Guard(code, s, op)
    requires Shaped(ViewOf(s, op.p)) && Handed(s, op).Ok?
    ensures var i := Lookup(ViewOf(s, op.p), op.id);
            var s', cache := Step(code, s, op), CacheOf(s.caches, op.p);
            && IsLive(s', op.h) && s'.handles[op.h] == Live(op.p, Handed(s, op).value)
            && (i >= 0 ==> s.t.ds[i].shmKey in s.segments)
            && (PointsAtCurrent(s', op.h) <==>
                  (i >= 0 && i in cache ==> s.segments[s.t.ds[i].shmKey].number == cache[i]))
  {
    hide Explains, Wf, BookOf, Shaped, Step, Lookup, SegmentBytes, Handed, Name, PointsAtCurrent, SizeOf;
    ExplainsLists(s, free, full);
    NothingFree(s.t, free, full);
    LookupInBook(s, op.p, op.id, free, full);
    ExplainsInv(s, op.p, free, full);
    StepKeepsIff(code, s, op);
    var s', book, i := Step(code, s, op), BookOf(s.maxLen, s.t, full), Lookup(ViewOf(s, op.p), op.id);
    if i >= 0 {
      MapBook(code, s, op, i, free, full);
      InvOk(s', free, full);
      PointsIff(s', op.h, free, full);
    } else {
      CreateBook(code, s, op, free, full);
      InvOk(s', free[1..], [free[0]] + full);
      LiveInTable(s', op.h, free[1..], [free[0]] + full);
      PointsIff(s', op.h, free[1..], [free[0]] + full);
    }
  }

  /** A copy, or what operator= takes over, has the fields of the original, whole, and points into the current
      segment exactly when they name it. */
  lemma CopiesCurrentIff(code: Code, s: State, op: Op)
    requires op.Copy? || op.AssignCopy?
    requires Inv(s) && Enabled(s, op) && Guard(code, s, op)
    ensures var s' := Step(code, s, op);
            && HasFields(s, op.o) && IsLive(s', op.h)
            && s'.handles[op.h] == Live(s.handles[op.o].proc, s.handles[op.o].at)
            && (PointsAtCurrent(s', op.h) <==> NamesCurrent(s, s.handles[op.o].at))
  {
    hide Step, Guard, Enabled, Consistent, Wf, Shaped, NamesCurrent;
    var free, full :| Explains(s, free, full);
    CopyIs(code, s, op);
    ShareNames(s, op.h, op.o);
  }

  lemma ShareNames(s: State, h: nat, o: nat)
    requires HasFields(s, o)
    ensures var s' := Share(s, h, o);
            && IsLive(s', h) && s'.handles[h] == Live(s.handles[o].proc, s.handles[o].at)
            && (PointsAtCurrent(s', h) <==> NamesCurrent(s, s.handles[o].at))
  {
  }

  // ------------------------------------------------------------------ the caches

  ghost predicate CachesOk(book: Book, segments: Segments, caches: Caches) {
    forall p, i :: p in caches && i in caches[p] ==> Current(book, segments, i, caches[p][i])
  }

  /** The process has cached what its object points into. */
  predicate Known(caches: Caches, hd: Handle) {
    hd.Live? ==>
      hd.at.desc in CacheOf(caches, hd.proc) && CacheOf(caches, hd.proc)[hd.at.desc] == hd.at.number
  }

  ghost predicate AllKnown(caches: Caches, handles: Handles) {
    forall h :: h in handles ==> Known(caches, handles[h])
  }

  /** Every process has cached current segments only, and those of all its objects. */
  ghost predicate UpToDate(book: Book, segments: Segments, caches: Caches, handles: Handles) {
    CachesOk(book, segments, caches) && AllKnown(caches, handles)
  }

  ghost predicate Synced(s: State) {
    forall free, full :: Wf(s.t, free, full) ==>
      UpToDate(BookOf(s.maxLen, s.t, full), s.segments, s.caches, s.handles)
  }

  lemma SyncedAt(s: State, free: seq<int>, full: seq<int>)
    requires Wf(s.t, free, full)
    ensures Synced(s) <==> UpToDate(BookOf(s.maxLen, s.t, full), s.segments, s.caches, s.handles)
  {
    hide Wf, UpToDate, BookOf;
    forall free', full' | Wf(s.t, free', full') ensures full' == full {
      ListsAreUnique(s.t, free, full, free', full');
    }
  }

  /** Counts, and a process of which it is written down that it has cached nothing. */
  lemma CachesCounted(book: Book, segments: Segments, caches: Caches, i: int, count: nat)
    requires i in book
    ensures CachesOk(book[i := book[i].(count := count)], segments, caches) <==> CachesOk(book, segments, caches)
  {
    var book' := book[i := book[i].(count := count)];
    forall j, number ensures Current(book', segments, j, number) <==> Current(book, segments, j, number) {}
    hide Current;
  }

  lemma CachesTouched(book: Book, segments: Segments, caches: Caches, handles: Handles, p: nat)
    ensures var caches' := caches[p := CacheOf(caches, p)];
            UpToDate(book, segments, caches', handles) <==> UpToDate(book, segments, caches, handles)
  {
    hide Current;
    var caches' := caches[p := CacheOf(caches, p)];
    forall hd: Handle ensures Known(caches', hd) <==> Known(caches, hd) {}
    forall q, i ensures (q in caches && i in caches[q]) <==> (q in caches' && i in caches'[q]) {}
    assert forall q, i :: q in caches && i in caches[q] ==> caches'[q][i] == caches[q][i];
  }

  /** A process attaches the current segment of a full descriptor, and gets an object for it. */
  lemma CachesMapped(book: Book, segments: Segments, caches: Caches, handles: Handles, p: nat, h: nat, at: Attached)
    requires UpToDate(book, segments, caches, handles) && Current(book, segments, at.desc, at.number)
    ensures UpToDate(book, segments, caches[p := CacheOf(caches, p)[at.desc := at.number]], handles[h := Live(p, at)])
  {
    var caches', handles' := caches[p := CacheOf(caches, p)[at.desc := at.number]], handles[h := Live(p, at)];
    forall g | g in handles' ensures Known(caches', handles'[g]) {
      if g != h {
        assert Known(caches, handles[g]);
        if handles[g].Live? && handles[g].proc == p && handles[g].at.desc == at.desc {
          assert Current(book, segments, at.desc, caches[p][at.desc]);
        }
      }
    }
    forall q, i | q in caches' && i in caches'[q] ensures Current(book, segments, i, caches'[q][i]) {
      if q != p || i != at.desc { assert Current(book, segments, i, caches[q][i]); }
    }
  }

  /** A new record and segment do not make any cached segment stale. */
  lemma CachesEntered(book: Book, segments: Segments, next: nat, caches: Caches, handles: Handles,
                      i: int, r: Record, segment: Segment)
    requires UpToDate(book, segments, caches, handles) && SegmentsOk(book, segments, next)
    requires i !in book && r.key !in segments
    ensures UpToDate(book[i := r], segments[r.key := segment], caches, handles)
  {
    hide SegmentBytes, Known;
    forall q, j | q in caches && j in caches[q]
      ensures Current(book[i := r], segments[r.key := segment], j, caches[q][j])
    {
      assert Current(book, segments, j, caches[q][j]);
    }
  }

  /** The last object on descriptor i goes: the other processes must not have it cached. */
  lemma CachesErased(book: Book, segments: Segments, next: nat, caches: Caches, handles: Handles,
                     h: nat, handles': Handles)
    requires UpToDate(book, segments, caches, handles) && SegmentsOk(book, segments, next)
    requires h in handles && handles[h].Live? && handles[h].at.desc in book && Without(handles, h, handles')
    requires forall g :: g in handles && g != h ==> !RefersTo(handles, g, handles[h].at.desc)
    ensures var i, p := handles[h].at.desc, handles[h].proc;
            UpToDate(book - {i}, segments - {book[i].key}, caches[p := CacheOf(caches, p) - {i}], handles') <==>
            forall q :: q in caches && q != p ==> i !in caches[q]
  {
    hide SegmentBytes;
    var i, p := handles[h].at.desc, handles[h].proc;
    var book', segments', caches' := book - {i}, segments - {book[i].key}, caches[p := CacheOf(caches, p) - {i}];
    forall g | g in handles' ensures Known(caches', handles'[g]) {
      if g != h { assert Known(caches, handles[g]) && !RefersTo(handles, g, i); }
    }
    if forall q :: q in caches && q != p ==> i !in caches[q] {
      forall q, j | q in caches' && j in caches'[q] ensures Current(book', segments', j, caches'[q][j]) {
        assert Current(book, segments, j, caches[q][j]);
      }
    } else {
      var q :| q in caches && q != p && i in caches[q];
      assert q in caches' && i in caches'[q] && !Current(book', segments', i, caches'[q][i]);
    }
  }

  lemma KnownWithout(caches: Caches, handles: Handles, h: nat, handles': Handles)
    requires AllKnown(caches, handles) && Without(handles, h, handles')
    ensures AllKnown(caches, handles')
  {
    hide Known;
    forall g | g in handles' ensures Known(caches, handles'[g]) {
      if g != h { assert Known(caches, handles[g]); } else { NotLiveKnown(caches, handles'[g]); }
    }
  }

  lemma NotLiveKnown(caches: Caches, hd: Handle)
    requires !hd.Live?
    ensures Known(caches, hd)
  {
  }

  lemma KnownAdded(caches: Caches, handles: Handles, h: nat, hd: Handle)
    requires AllKnown(caches, handles)
    ensures AllKnown(caches, handles[h := hd]) <==> Known(caches, hd)
  {
    hide Known;
    assert h in handles[h := hd] && handles[h := hd][h] == hd;
  }

  // ------------------------------------------------------------- the caches, step by step

  /** The last object on a buffer goes while no other process has the buffer cached, and what is copied, or taken
      over by operator=, is still what the process has cached. */
  ghost predicate CacheGuard(s: State, op: Op)
    requires Enabled(s, op)
  {
    match op
    case Copy(_, o) => Known(s.caches, Live(s.handles[o].proc, s.handles[o].at))
    case AssignFree(h) => IsLive(s, h) ==> CachedHereOnly(s, h)
    case AssignCopy(_, o) => Known(s.caches, Live(s.handles[o].proc, s.handles[o].at))
    case Destroy(h) => IsLive(s, h) ==> CachedHereOnly(s, h)
    case _ => true
  }

  ghost predicate CachedHereOnly(s: State, h: nat)
    requires IsLive(s, h)
  {
    var i := s.handles[h].at.desc;
    s.t.ds[i].refCount == 1 ==> forall q :: q in s.caches && q != s.handles[h].proc ==> i !in s.caches[q]
  }

  lemma GetSynced(code: Code, s: State, op: Op, free: seq<int>, full: seq<int>)
    requires op.GetBuffer? && Explains(s, free, full) && Enabled(s, op) && Guard(code, s, op)
    requires UpToDate(BookOf(s.maxLen, s.t, full), s.segments, s.caches, s.handles)
    ensures Synced(Step(code, s, op))
  {
    hide Explains, Wf, BookOf, Shaped, Step, Lookup, SegmentBytes, Handed, Name, SizeOf, UpToDate, SegmentsOk, Synced;
    BookInOrder(s, free, full);
    ExplainsLists(s, free, full);
    EnabledShaped(s, op);
    NothingFree(s.t, free, full);
    LookupInBook(s, op.p, op.id, free, full);
    var book, i, s' := BookOf(s.maxLen, s.t, full), Lookup(ViewOf(s, op.p), op.id), Step(code, s, op);
    CachesTouched(book, s.segments, s.caches, s.handles, op.p);
    if i >= 0 {
      MapBook(code, s, op, i, free, full);
      SyncedAt(s', free, full);
      if Handed(s, op).Ok? {
        var at := Handed(s, op).value;
        MappedIsCurrent(s, op.p, i, book);
        CachesMapped(book, s.segments, s.caches, s.handles, op.p, op.h, at);
        UpToDateCounted(book, s'.segments, s'.caches, s'.handles, i, book[i].count + 1);
      }
    } else {
      CreateBook(code, s, op, free, full);
      if op.bytes > 0 && free != [] {
        var r := Record(op.key, op.bytes, 1, Name(op.id, s.maxLen));
        var segment := Segment(s.nextNumber, SegmentBytes(op.bytes), FutexMutex.UNLOCKED);
        CachesEntered(book, s.segments, s.nextNumber, s.caches, s.handles, free[0], r, segment);
        CachesMapped(book[free[0] := r], s'.segments, s.caches, s.handles, op.p, op.h, Handed(s, op).value);
        SyncedAt(s', free[1..], [free[0]] + full);
      } else {
        SyncedAt(s', free, full);
      }
    }
  }

  lemma MappedIsCurrent(s: State, p: nat, i: int, book: Book)
    requires i in book && 0 <= i < |s.t.ds| && book[i].key == s.t.ds[i].shmKey && book[i].key in s.segments
    requires UpToDate(book, s.segments, s.caches, s.handles)
    ensures Current(book, s.segments, i, NumberFor(s, p, i))
  {
    hide AllKnown;
    if i in CacheOf(s.caches, p) { assert Current(book, s.segments, i, s.caches[p][i]); }
  }

  lemma UpToDateCounted(book: Book, segments: Segments, caches: Caches, handles: Handles, i: int, count: nat)
    requires i in book
    ensures UpToDate(book[i := book[i].(count := count)], segments, caches, handles) <==>
            UpToDate(book, segments, caches, handles)
  {
    hide CachesOk, AllKnown;
    CachesCounted(book, segments, caches, i, count);
  }

  lemma ReleaseSynced(code: Code, s: State, h: nat, handles': Handles, free: seq<int>, full: seq<int>)
    requires Shaped(ViewOf(s, 0)) && IsLive(s, h) && MayRelease(code, s, h) && Explains(s, free, full)
    requires Without(s.handles, h, handles')
    requires UpToDate(BookOf(s.maxLen, s.t, full), s.segments, s.caches, s.handles)
    ensures Synced(Release(code, s, h).(handles := handles')) <==> CachedHereOnly(s, h)
  {
    hide Explains, Wf, BookOf, Shaped, Release, SegmentsOk, MayRelease, NameOfHandle, UpToDate, Without, Synced;
    hide Consistent, SizeOf, Name;
    BookInOrder(s, free, full);
    LiveHandle(s, h, free, full);
    ExplainsLists(s, free, full);
    InBook(s, s.handles[h], free, full);
    var free', full' := ReleaseBook(code, s, h, free, full);
    var s', i, p := Release(code, s, h).(handles := handles'), s.handles[h].at.desc, s.handles[h].proc;
    var book := BookOf(s.maxLen, s.t, full);
    SyncedAt(s', free', full');
    if book[i].count == 1 {
      DropRecord(book, s.segments, s.nextNumber, s.handles, h, handles');
      CachesErased(book, s.segments, s.nextNumber, s.caches, s.handles, h, handles');
    } else {
      LessIsUpToDate(book, s.segments, s.caches, s.handles, h, handles');
      UpToDateCounted(book, s.segments, s.caches, handles', i, book[i].count - 1);
      CachesTouched(book[i := book[i].(count := book[i].count - 1)], s.segments, s.caches, handles', p);
    }
  }

  lemma LessIsUpToDate(book: Book, segments: Segments, caches: Caches, handles: Handles, h: nat, handles': Handles)
    requires UpToDate(book, segments, caches, handles) && Without(handles, h, handles')
    ensures UpToDate(book, segments, caches, handles')
  {
    hide CachesOk, Known, Without;
    KnownWithout(caches, handles, h, handles');
  }

  lemma ShareSynced(s: State, h: nat, o: nat, free: seq<int>, full: seq<int>)
    requires Shaped(ViewOf(s, 0)) && Explains(s, free, full) && HasFields(s, o) && StillThere(s, s.handles[o].at)
    requires UpToDate(BookOf(s.maxLen, s.t, full), s.segments, s.caches, s.handles)
    ensures Synced(Share(s, h, o)) <==> Known(s.caches, Live(s.handles[o].proc, s.handles[o].at))
  {
    hide Explains, Wf, BookOf, Shaped, Share, StillThere, NameOfHandle, Synced, CachesOk, AllKnown, Known;
    ShareBook(s, h, o, free, full);
    var book, i, s' := BookOf(s.maxLen, s.t, full), s.handles[o].at.desc, Share(s, h, o);
    SyncedAt(s', free, full);
    UpToDateCounted(book, s.segments, s.caches, s'.handles, i, book[i].count + 1);
    KnownAdded(s.caches, s.handles, h, Live(s.handles[o].proc, s.handles[o].at));
  }

  /** What was never counted concerns no cache but, at most, that of its own process. */
  lemma DropSynced(code: Code, s: State, h: nat, handles': Handles, free: seq<int>, full: seq<int>)
    requires Shaped(ViewOf(s, 0)) && HasFields(s, h) && !s.handles[h].Live? && Explains(s, free, full)
    requires MayDrop(s, s.handles[h].at.desc) && Without(s.handles, h, handles')
    requires UpToDate(BookOf(s.maxLen, s.t, full), s.segments, s.caches, s.handles)
    ensures Synced(Release(code, s, h).(handles := handles'))
  {
    hide Explains, Wf, BookOf, Shaped, Release, UpToDate, Without, Synced, SizeOf, Name;
    var s', i, p := Release(code, s, h).(handles := handles'), s.handles[h].at.desc, s.handles[h].proc;
    var book := BookOf(s.maxLen, s.t, full);
    FullIffReferred(s, i, free, full);
    KeyInUseIff(s, s.t.ds[i].shmKey, free, full);
    NotInBook(s, i, full);
    var free' := DropIs(code, s, h, free, full);
    SyncedAt(s', free', full);
    LessIsUpToDate(book, s.segments, s.caches, s.handles, h, handles');
    CachesTouched(book, s.segments, s.caches, handles', p);
    if s.t.ds[i].refCount == 1 {
      CachesDropped(book, s.segments, s.caches, handles', p, i, s.t.ds[i].shmKey);
    }
  }

  lemma CachesDropped(book: Book, segments: Segments, caches: Caches, handles: Handles, p: nat, i: int, key: int)
    requires UpToDate(book, segments, caches, handles) && i !in book
    requires forall j :: j in book ==> book[j].key != key
    ensures UpToDate(book, segments - {key}, caches[p := CacheOf(caches, p) - {i}], handles)
  {
    assert forall j :: j in CacheOf(caches, p) ==> Current(book, segments, j, CacheOf(caches, p)[j]);
    assert i !in CacheOf(caches, p);
    assert CacheOf(caches, p) - {i} == CacheOf(caches, p);
    CachesTouched(book, segments, caches, handles, p);
    var caches' := caches[p := CacheOf(caches, p)];
    hide Known;
    forall q, j | q in caches' && j in caches'[q] ensures Current(book, segments - {key}, j, caches'[q][j]) {
      assert Current(book, segments, j, caches'[q][j]);
    }
  }

  lemma FreeSynced(code: Code, s: State, h: nat, handles': Handles, free: seq<int>, full: seq<int>)
    requires Shaped(ViewOf(s, 0)) && HasFields(s, h) && MayFree(code, s, h) && Explains(s, free, full)
    requires Without(s.handles, h, handles')
    requires UpToDate(BookOf(s.maxLen, s.t, full), s.segments, s.caches, s.handles)
    ensures Synced(Release(code, s, h).(handles := handles')) <==> (IsLive(s, h) ==> CachedHereOnly(s, h))
  {
    hide Explains, BookOf, Shaped, Release, MayRelease, MayDrop, UpToDate, Without, Synced, CachedHereOnly;
    if s.handles[h].Live? {
      ReleaseSynced(code, s, h, handles', free, full);
    } else {
      DropSynced(code, s, h, handles', free, full);
    }
  }

  lemma TakeOverSynced(s: State, h: nat, p: nat, at: Attached, free: seq<int>, full: seq<int>)
    requires Wf(s.t, free, full)
    requires UpToDate(BookOf(s.maxLen, s.t, full), s.segments, s.caches, s.handles)
    ensures Synced(s.(handles := s.handles[h := Uncounted(p, at)]))
  {
    hide Wf, BookOf, Synced, CachesOk, AllKnown, Known;
    SyncedAt(s.(handles := s.handles[h := Uncounted(p, at)]), free, full);
    NotLiveKnown(s.caches, Uncounted(p, at));
    KnownAdded(s.caches, s.handles, h, Uncounted(p, at));
  }

  lemma DefaultSynced(s: State, h: nat, p: nat, free: seq<int>, full: seq<int>)
    requires Wf(s.t, free, full)
    requires UpToDate(BookOf(s.maxLen, s.t, full), s.segments, s.caches, s.handles)
    ensures Synced(s.(handles := s.handles[h := Null(p)]))
  {
    hide Wf, BookOf, Synced, CachesOk, AllKnown, Known;
    SyncedAt(s.(handles := s.handles[h := Null(p)]), free, full);
    NotLiveKnown(s.caches, Null(p));
    KnownAdded(s.caches, s.handles, h, Null(p));
  }

  lemma SetWordSynced(s: State, key: int, word: int, free: seq<int>, full: seq<int>)
    requires Wf(s.t, free, full) && key in s.segments
    requires UpToDate(BookOf(s.maxLen, s.t, full), s.segments, s.caches, s.handles)
    ensures Synced(s.(segments := s.segments[key := s.segments[key].(word := word)]))
  {
    hide Wf, BookOf, Synced, AllKnown, Known;
    var s' := s.(segments := s.segments[key := s.segments[key].(word := word)]);
    SyncedAt(s', free, full);
    var book := BookOf(s.maxLen, s.t, full);
    forall q, j | q in s.caches && j in s.caches[q] ensures Current(book, s'.segments, j, s.caches[q][j]) {
      assert Current(book, s.segments, j, s.caches[q][j]);
    }
  }

  /** The second result for one step: it leaves every process with current segments only, those of all its
      objects among them, exactly when its second guard holds. */
  lemma StepKeepsSyncedIff(code: Code, s: State, op: Op)
    requires Inv(s) && Synced(s) && Enabled(s, op) && Guard(code, s, op)
    ensures Synced(Step(code, s, op)) <==> CacheGuard(s, op)
  {
    hide Consistent, Wf, Shaped, UpToDate, BookOf, Lookup, Get, Share, Release, StillThere, MayFree, CachedHereOnly;
    hide Known, SizeOf, Without;
    var free, full :| Explains(s, free, full);
    SyncedAt(s, free, full);
    hide Explains, Inv, Synced;
    match op {
      case Default(h, p) => DefaultSynced(s, h, p, free, full);
      case SetWord(key, word) => SetWordSynced(s, key, word, free, full);
      case GetBuffer(_, _, _, _, _, _) => GetSynced(code, s, op, free, full);
      case Copy(h, o) => ShareSynced(s, h, o, free, full);
      case AssignCopy(h, o) => ShareSynced(s, h, o, free, full);
      case AssignThrow(h, o) => TakeOverSynced(s, h, s.handles[o].proc, s.handles[o].at, free, full);
      case AssignFree(h) =>
        WithoutFreed(s.handles, h, s.handles[h].proc, s.handles[h].at);
        FreeSynced(code, s, h, Step(code, s, op).handles, free, full);
      case Destroy(h) =>
        WithoutGone(s.handles, h);
        FreeSynced(code, s, h, Step(code, s, op).handles, free, full);
    }
  }

  // ------------------------------------------------------------------------- runs

  ghost predicate KeepsCaches(code: Code, s: State, ops: seq<Op>)
    requires IsRun(code, s, ops)
    decreases |ops|
  {
    ops == [] || (CacheGuard(s, ops[0]) && KeepsCaches(code, Step(code, s, ops[0]), ops[1..]))
  }

  ghost predicate AlwaysSynced(code: Code, s: State, ops: seq<Op>)
    requires IsRun(code, s, ops)
    decreases |ops|
  {
    Synced(s) && (ops == [] || AlwaysSynced(code, Step(code, s, ops[0]), ops[1..]))
  }

  /** All caches are current at every moment of a run exactly when every step meets its second guard. */
  lemma {:induction false} AlwaysSyncedIff(code: Code, s: State, ops: seq<Op>)
    requires Inv(s) && Synced(s) && IsRun(code, s, ops)
    ensures AlwaysSynced(code, s, ops) <==> KeepsCaches(code, s, ops)
    ensures KeepsCaches(code, s, ops) ==> Synced(Final(code, s, ops))
    decreases |ops|
  {
    hide Inv, Synced, Step, Guard, Enabled, CacheGuard;
    if ops != [] {
      StepKeepsIff(code, s, ops[0]);
      StepKeepsSyncedIff(code, s, ops[0]);
      if Synced(Step(code, s, ops[0])) { AlwaysSyncedIff(code, Step(code, s, ops[0]), ops[1..]); }
    }
  }

  ghost predicate CachesCurrent(s: State) {
    forall p, i :: p in s.caches && i in s.caches[p] ==>
      && 0 <= i < |s.t.ds|
      && NamesCurrent(s, Attached(i, SizeOf(s.t.ds[i]), s.caches[p][i], false))
  }

  /** Then every object points into the segment of the buffer it was asked for, and so does what is cached. */
  lemma SyncedPoints(s: State, free: seq<int>, full: seq<int>)
    requires Explains(s, free, full) && Synced(s)
    ensures forall h :: IsLive(s, h) ==> PointsAtCurrent(s, h)
    ensures CachesCurrent(s)
    ensures forall p, i :: p in s.caches && i in s.caches[p] ==> i in full
  {
    hide Explains, Wf, SizeOf, Name, PointsAtCurrent, Synced;
    ExplainsLists(s, free, full);
    SyncedAt(s, free, full);
    BookKeys(s, free, full);
    var book := BookOf(s.maxLen, s.t, full);
    forall h | IsLive(s, h) ensures PointsAtCurrent(s, h) {
      PointsIff(s, h, free, full);
      KnownIsCurrent(book, s, h);
    }
    forall p, i | p in s.caches && i in s.caches[p] ensures Current(book, s.segments, i, s.caches[p][i]) {}
  }

  lemma KnownIsCurrent(book: Book, s: State, h: nat)
    requires UpToDate(book, s.segments, s.caches, s.handles) && IsLive(s, h)
    ensures Current(book, s.segments, s.handles[h].at.desc, s.handles[h].at.number)
  {
    assert Known(s.caches, s.handles[h]);
    hide Current;
  }

  lemma FreshSynced(n: nat, maxLen: nat, segments: Segments, next: nat)
    requires n > 0 && maxLen > 0
    ensures Synced(Fresh(n, maxLen, segments, next))
  {
    InitialWf(n, maxLen);
    SyncedAt(Fresh(n, maxLen, segments, next), UpTo(n), []);
  }

  lemma EveryHandleIsCurrent(code: Code, n: nat, maxLen: nat, segments: Segments, next: nat, ops: seq<Op>)
    requires n > 0 && maxLen > 0 && SegmentsOk(map[], segments, next)
    requires IsRun(code, Fresh(n, maxLen, segments, next), ops)
    requires KeepsCaches(code, Fresh(n, maxLen, segments, next), ops)
    ensures var s := Final(code, Fresh(n, maxLen, segments, next), ops);
            CachesCurrent(s) && forall h :: IsLive(s, h) ==> PointsAtCurrent(s, h)
  {
    hide Consistent, Wf, Shaped, Synced, PointsAtCurrent, CachesCurrent, IsLive;
    var s0 := Fresh(n, maxLen, segments, next);
    FreshInv(n, maxLen, segments, next);
    FreshSynced(n, maxLen, segments, next);
    RunKeepsInv(code, s0, ops);
    AlwaysSyncedIff(code, s0, ops);
    hide Fresh, IsRun, KeepsCaches, Final;
    var s := Final(code, s0, ops);
    var free, full :| Explains(s, free, full);
    SyncedPoints(s, free, full);
  }

  // ------------------------------------------------------------------ one process alone

  ghost predicate OnlyBy(s: State, p: nat) {
    && (forall q :: q in s.caches ==> q == p)
    && (forall h :: h in s.handles ==> s.handles[h].proc == p)
  }

  /** A step of process p; what is copied or taken over is alive. */
  predicate PlainStep(s: State, op: Op, p: nat) {
    match op
    case Default(_, q) => q == p
    case GetBuffer(_, q, _, _, _, _) => q == p
    case Copy(_, o) => IsLive(s, o)
    case AssignCopy(_, o) => IsLive(s, o)
    case _ => true
  }

  lemma PlainMeetsGuard(s: State, op: Op, p: nat, free: seq<int>, full: seq<int>)
    requires Explains(s, free, full) && Synced(s) && OnlyBy(s, p) && Enabled(s, op) && PlainStep(s, op, p)
    ensures CacheGuard(s, op)
  {
    hide Consistent, Wf, Shaped, CachesOk;
    SyncedAt(s, free, full);
    if op.Copy? || op.AssignCopy? {
      assert Known(s.caches, s.handles[op.o]);
      assert s.handles[op.o] == Live(s.handles[op.o].proc, s.handles[op.o].at);
    }
  }

  lemma PlainStaysAlone(code: Code, s: State, op: Op, p: nat)
    requires OnlyBy(s, p) && Enabled(s, op) && PlainStep(s, op, p)
    ensures OnlyBy(Step(code, s, op), p)
  {
    hide Shaped, Get, Free;
  }

  ghost predicate PlainRun(code: Code, s: State, ops: seq<Op>, p: nat)
    requires IsRun(code, s, ops)
    decreases |ops|
  {
    ops == [] || (PlainStep(s, ops[0], p) && PlainRun(code, Step(code, s, ops[0]), ops[1..], p))
  }

  lemma {:induction false} PlainRunIsSynced(code: Code, s: State, ops: seq<Op>, p: nat)
    requires Inv(s) && Synced(s) && OnlyBy(s, p) && IsRun(code, s, ops) && PlainRun(code, s, ops, p)
    ensures var s' := Final(code, s, ops);
            Inv(s') && Synced(s') && OnlyBy(s', p)
    decreases |ops|
  {
    hide Shaped, Synced, OnlyBy, Step, Guard, Enabled, CacheGuard, PlainStep, Explains;
    if ops != [] {
      var free, full :| Explains(s, free, full);
      PlainMeetsGuard(s, ops[0], p, free, full);
      PlainStaysAlone(code, s, ops[0], p);
      StepKeepsIff(code, s, ops[0]);
      StepKeepsSyncedIff(code, s, ops[0]);
      hide Inv;
      PlainRunIsSynced(code, Step(code, s, ops[0]), ops[1..], p);
    }
  }

  lemma CachesExactlyFull(s: State, p: nat, free: seq<int>, full: seq<int>)
    requires Explains(s, free, full) && Synced(s) && OnlyBy(s, p)
    ensures forall i :: i in full <==> i in CacheOf(s.caches, p)
  {
    hide Consistent, Wf, SizeOf, CachesOk, PointsAtCurrent, CachesCurrent, HandlesTo;
    SyncedPoints(s, free, full);
    SyncedAt(s, free, full);
    hide Synced;
    CountsConserved(s, free, full);
    forall i | i in full ensures i in CacheOf(s.caches, p) {
      var h :| RefersTo(s.handles, h, i);
      assert Known(s.caches, s.handles[h]);
    }
  }

  /** Where only one process uses the table, then after every run, however often descriptors are returned and
      taken again, its cache has an entry for exactly the full descriptors, and each is the current segment. */
  lemma OneProcessCachesAll(code: Code, n: nat, maxLen: nat, segments: Segments, next: nat, ops: seq<Op>, p: nat)
    requires n > 0 && maxLen > 0 && SegmentsOk(map[], segments, next)
    requires IsRun(code, Fresh(n, maxLen, segments, next), ops)
    requires PlainRun(code, Fresh(n, maxLen, segments, next), ops, p)
    ensures var s := Final(code, Fresh(n, maxLen, segments, next), ops);
            && CachesCurrent(s)
            && exists free, full :: Wf(s.t, free, full) && forall i :: i in full <==> i in CacheOf(s.caches, p)
  {
    hide Consistent, Wf, Shaped, Synced, CachesCurrent;
    var s0 := Fresh(n, maxLen, segments, next);
    FreshInv(n, maxLen, segments, next);
    FreshSynced(n, maxLen, segments, next);
    assert OnlyBy(s0, p);
    PlainRunIsSynced(code, s0, ops, p);
    hide Fresh, IsRun, PlainRun, Final;
    var s := Final(code, s0, ops);
    var free, full :| Explains(s, free, full);
    SyncedPoints(s, free, full);
    CachesExactlyFull(s, p, free, full);
    assert Wf(s.t, free, full);
  }
}
