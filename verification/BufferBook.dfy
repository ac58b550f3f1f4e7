/** The bookkeeping behind the descriptor table, free of links: which descriptors are full and what
    they record, which segments exist, and which handles are alive. */
module BufferBook {
  import opened Common
  import opened CNames
  import opened DescriptorLists
  import opened BufferTable

  /** What a full descriptor records. */
  datatype Record = Record(key: int, size: nat, count: nat, name: seq<char>)

  type Book = map<int, Record>

  function RecordOf(maxLen: nat, d: Descriptor): Record {
    Record(d.shmKey, SizeOf(d), d.refCount, Name(d.id, maxLen))
  }

  /** The records of the descriptors on the full list. */
  ghost function BookOf(maxLen: nat, t: Table, full: seq<int>): Book {
    map i | i in full && 0 <= i < |t.ds| :: RecordOf(maxLen, t.ds[i])
  }

  /** A Buffer object of some process: default-constructed; attached; inside operator=, which has freed what
      the object referred to and has not yet overwritten its fields; or left by an operator= whose second
      lock() was interrupted, with the fields of another object but not counted. */
  datatype Handle =
    | Null(proc: nat)
    | Live(proc: nat, at: Attached)
    | Freed(proc: nat, at: Attached)
    | Uncounted(proc: nat, at: Attached)

  type Handles = map<nat, Handle>
  type Caches = map<nat, map<int, nat>>

  function CacheOf(caches: Caches, p: nat): map<int, nat> {
    if p in caches then caches[p] else map[]
  }

  predicate RefersTo(handles: Handles, h: nat, i: int) {
    h in handles && handles[h].Live? && handles[h].at.desc == i
  }

  ghost function HandlesTo(handles: Handles, i: int): set<nat> {
    set h | h in handles && RefersTo(handles, h, i)
  }

  // ---------------------------------------------------------------- consistency

  ghost predicate NamesOk(book: Book) {
    forall i, j :: i in book && j in book && book[i].name == book[j].name ==> i == j
  }

  /** The bytes of the segment of a buffer: room for the data behind the mutex, in a size_t. */
  function SegmentBytes(size: nat): nat {
    (size + FUTEX_BYTES) % SIZE_T
  }

  /** The segment has room for the data and the mutex exactly for sizes that leave size_t room for both. */
  lemma SegmentFitsIff(size: nat)
    requires size < 0x1_0000_0000_0000_0000
    ensures SegmentBytes(size) >= size <==> size < 0xFFFF_FFFF_FFFF_FFFC
    ensures size < 0xFFFF_FFFF_FFFF_FFFC ==> SegmentBytes(size) == size + 4
    ensures size >= 0xFFFF_FFFF_FFFF_FFFC ==> SegmentBytes(size) < 4
  {
  }

  /** Every full descriptor has a segment of its own, with the bytes for the size it records. */
  ghost predicate SegmentsOk(book: Book, segments: map<int, Segment>, next: nat) {
    && (forall i :: i in book ==>
          book[i].key in segments && segments[book[i].key].bytes == SegmentBytes(book[i].size))
    && (forall i, j :: i in book && j in book && book[i].key == book[j].key ==> i == j)
    && (forall k :: k in segments ==> segments[k].number < next)
    && (forall k, l :: k in segments && l in segments && segments[k].number == segments[l].number ==> k == l)
  }

  /** ref_count is the number of live handles, and positive. */
  ghost predicate CountsOk(book: Book, handles: Handles) {
    forall i :: i in book ==> book[i].count == |HandlesTo(handles, i)| && book[i].count > 0
  }

  /** A live handle refers to a full descriptor and knows the size given at creation. */
  ghost predicate HandleOk(book: Book, hd: Handle) {
    hd.Live? ==> hd.at.desc in book && hd.at.size == book[hd.at.desc].size
  }

  ghost predicate HandlesOk(book: Book, handles: Handles) {
    forall h :: h in handles ==> HandleOk(book, handles[h])
  }

  ghost predicate Consistent(book: Book, segments: map<int, Segment>, next: nat, handles: Handles) {
    && NamesOk(book)
    && SegmentsOk(book, segments, next)
    && CountsOk(book, handles)
    && HandlesOk(book, handles)
  }

  // ----------------------------------------------------------------- one more handle

  predicate NotLive(handles: Handles, h: nat) {
    h in handles ==> !handles[h].Live?
  }

  lemma HandlesAdded(handles: Handles, h: nat, hd: Handle, i: int)
    requires NotLive(handles, h)
    ensures hd.Live? && hd.at.desc == i ==>
              HandlesTo(handles[h := hd], i) == HandlesTo(handles, i) + {h} && h !in HandlesTo(handles, i)
    ensures !(hd.Live? && hd.at.desc == i) ==> HandlesTo(handles[h := hd], i) == HandlesTo(handles, i)
  {
  }

  lemma CountsAdded(book: Book, handles: Handles, h: nat, p: nat, at: Attached)
    requires CountsOk(book, handles) && at.desc in book && NotLive(handles, h)
    ensures CountsOk(book[at.desc := book[at.desc].(count := book[at.desc].count + 1)], handles[h := Live(p, at)])
  {
    var hd := Live(p, at);
    forall i | i in book
      ensures |HandlesTo(handles[h := hd], i)| == |HandlesTo(handles, i)| + if i == at.desc then 1 else 0
    {
      HandlesAdded(handles, h, hd, i);
    }
  }

  /** A count is nothing to names, segments and handles. */
  lemma CountIsApart(book: Book, segments: map<int, Segment>, next: nat, i: int, count: nat)
    requires NamesOk(book) && SegmentsOk(book, segments, next) && i in book
    ensures var book' := book[i := book[i].(count := count)];
            && NamesOk(book') && SegmentsOk(book', segments, next)
            && forall hd: Handle :: HandleOk(book', hd) <==> HandleOk(book, hd)
  {
  }

  /** One more handle on a full descriptor. */
  lemma AddHandle(book: Book, segments: map<int, Segment>, next: nat, handles: Handles, h: nat, p: nat, at: Attached)
    requires Consistent(book, segments, next, handles)
    requires HandleOk(book, Live(p, at)) && NotLive(handles, h)
    ensures at.desc in book
    ensures Consistent(book[at.desc := book[at.desc].(count := book[at.desc].count + 1)],
                       segments, next, handles[h := Live(p, at)])
  {
    hide NamesOk, SegmentsOk, CountsOk;
    CountsAdded(book, handles, h, p, at);
    CountIsApart(book, segments, next, at.desc, book[at.desc].count + 1);
    hide HandleOk;
  }

  /** A new full descriptor, with a name, key and segment of its own, and its first handle. */
  lemma AddRecord(book: Book, segments: map<int, Segment>, next: nat, handles: Handles,
                  i: int, r: Record, segment: Segment, p: nat, h: nat, at: Attached)
    requires Consistent(book, segments, next, handles)
    requires i !in book && NotLive(handles, h)
    requires forall j :: j in book ==> book[j].name != r.name
    requires r.key !in segments && segment.number == next && segment.bytes == SegmentBytes(r.size) && r.count == 1
    requires at.desc == i && at.size == r.size
    ensures Consistent(book[i := r], segments[r.key := segment], next + 1, handles[h := Live(p, at)])
  {
    hide SegmentBytes;
    var book', handles' := book[i := r], handles[h := Live(p, at)];
    forall j | j in book' ensures book'[j].count == |HandlesTo(handles', j)| && book'[j].count > 0 {
      HandlesAdded(handles, h, Live(p, at), j);
      if j == i {
        assert HandlesTo(handles, i) == {} by {
          forall g | g in handles ensures !RefersTo(handles, g, i) { assert HandleOk(book, handles[g]); }
        }
      }
    }
    hide HandlesTo;
    AddRecordMaps(book, segments, next, handles, i, r, segment, p, h, at);
  }

  lemma AddRecordMaps(book: Book, segments: map<int, Segment>, next: nat, handles: Handles,
                      i: int, r: Record, segment: Segment, p: nat, h: nat, at: Attached)
    requires SegmentsOk(book, segments, next) && HandlesOk(book, handles)
    requires i !in book && r.key !in segments && segment.number == next && segment.bytes == SegmentBytes(r.size)
    requires at.desc == i && at.size == r.size
    ensures SegmentsOk(book[i := r], segments[r.key := segment], next + 1)
    ensures HandlesOk(book[i := r], handles[h := Live(p, at)])
  {
    hide SegmentBytes;
  }

  // ----------------------------------------------------------------- one handle less

  /** The handles' are the handles without the reference of h: h is gone, or freed. */
  ghost predicate Without(handles: Handles, h: nat, handles': Handles) {
    && NotLive(handles', h)
    && (forall g :: g in handles' && g != h ==> g in handles && handles'[g] == handles[g])
    && (forall g :: g in handles && g != h ==> g in handles')
  }

  lemma HandlesRemoved(handles: Handles, h: nat, handles': Handles, i: int)
    requires h in handles && Without(handles, h, handles')
    ensures HandlesTo(handles', i) == HandlesTo(handles, i) - {h}
    ensures h in HandlesTo(handles, i) <==> RefersTo(handles, h, i)
  {
  }

  /** An object that is not counted is nothing to the book. */
  lemma DropUncounted(book: Book, segments: map<int, Segment>, next: nat, handles: Handles, h: nat, handles': Handles)
    requires Consistent(book, segments, next, handles)
    requires h in handles && !handles[h].Live? && Without(handles, h, handles')
    ensures Consistent(book, segments, next, handles')
    ensures forall i :: HandlesTo(handles', i) == HandlesTo(handles, i)
  {
    hide NamesOk, SegmentsOk;
    forall i ensures HandlesTo(handles', i) == HandlesTo(handles, i) {
      HandlesRemoved(handles, h, handles', i);
    }
    HandlesLeft(book, handles, h, handles');
    hide HandlesTo, HandleOk;
  }

  /** A segment goes that belongs to no record. */
  lemma DropSegment(book: Book, segments: map<int, Segment>, next: nat, key: int)
    requires SegmentsOk(book, segments, next)
    ensures SegmentsOk(book, segments - {key}, next) <==> forall i :: i in book ==> book[i].key != key
  {
    hide SegmentBytes;
  }

  /** A handle dies that is not the last one. */
  lemma DropHandle(book: Book, segments: map<int, Segment>, next: nat, handles: Handles, h: nat, handles': Handles)
    requires Consistent(book, segments, next, handles)
    requires h in handles && handles[h].Live? && Without(handles, h, handles')
    ensures handles[h].at.desc in book
    ensures var i := handles[h].at.desc;
            book[i].count > 1 ==>
              Consistent(book[i := book[i].(count := book[i].count - 1)], segments, next, handles')
  {
    hide NamesOk, SegmentsOk;
    assert HandleOk(book, handles[h]);
    CountsDropped(book, handles, h, handles');
    CountIsApart(book, segments, next, handles[h].at.desc, book[handles[h].at.desc].count - 1);
    HandlesLeft(book, handles, h, handles');
    hide HandleOk, CountsOk, HandlesOk;
    var i := handles[h].at.desc;
    var book' := book[i := book[i].(count := book[i].count - 1)];
    assert HandlesOk(book', handles') by { HandlesAlike(book, book', handles'); }
  }

  lemma HandlesLeft(book: Book, handles: Handles, h: nat, handles': Handles)
    requires HandlesOk(book, handles) && Without(handles, h, handles')
    ensures HandlesOk(book, handles')
  {
    forall g | g in handles' ensures HandleOk(book, handles'[g]) {
      if g != h { assert HandleOk(book, handles[g]); }
    }
  }

  lemma HandlesAlike(book: Book, book': Book, handles: Handles)
    requires HandlesOk(book, handles) && forall hd: Handle :: HandleOk(book', hd) <==> HandleOk(book, hd)
    ensures HandlesOk(book', handles)
  {
    hide HandleOk;
  }

  lemma CountsDropped(book: Book, handles: Handles, h: nat, handles': Handles)
    requires CountsOk(book, handles) && h in handles && handles[h].Live? && handles[h].at.desc in book
    requires Without(handles, h, handles')
    ensures var i := handles[h].at.desc;
            && book[i].count > 0
            && (book[i].count > 1 ==> CountsOk(book[i := book[i].(count := book[i].count - 1)], handles'))
            && CountsOk(book - {i}, handles')
            && (book[i].count == 1 ==> forall g :: g in handles && g != h ==> !RefersTo(handles, g, i))
  {
    var i := handles[h].at.desc;
    forall j | j in book ensures |HandlesTo(handles', j)| == |HandlesTo(handles, j)| - if j == i then 1 else 0 {
      HandlesRemoved(handles, h, handles', j);
    }
    if book[i].count == 1 {
      HandlesRemoved(handles, h, handles', i);
      forall g | g in handles && g != h ensures !RefersTo(handles, g, i) {
        assert |HandlesTo(handles, i) - {h}| == 0;
        assert RefersTo(handles, g, i) ==> g in HandlesTo(handles, i) - {h};
      }
    }
  }

  /** The last handle dies, and its descriptor and segment with it: no other handle refers to them,
      whichever processes have had handles on them. */
  lemma DropRecord(book: Book, segments: map<int, Segment>, next: nat, handles: Handles, h: nat, handles': Handles)
    requires Consistent(book, segments, next, handles)
    requires h in handles && handles[h].Live? && Without(handles, h, handles')
    requires handles[h].at.desc in book && book[handles[h].at.desc].count == 1
    ensures forall g :: g in handles && g != h ==> !RefersTo(handles, g, handles[h].at.desc)
    ensures var i := handles[h].at.desc;
            Consistent(book - {i}, segments - {book[i].key}, next, handles')
  {
    var i := handles[h].at.desc;
    hide CountsOk, HandlesTo;
    CountsDropped(book, handles, h, handles');
    RecordGone(book, segments, next, handles, i, h, handles');
  }

  lemma RecordGone(book: Book, segments: map<int, Segment>, next: nat, handles: Handles,
                   i: int, h: nat, handles': Handles)
    requires NamesOk(book) && SegmentsOk(book, segments, next) && HandlesOk(book, handles)
    requires i in book && Without(handles, h, handles')
    requires forall g :: g in handles && g != h ==> !RefersTo(handles, g, i)
    ensures NamesOk(book - {i}) && SegmentsOk(book - {i}, segments - {book[i].key}, next)
    ensures HandlesOk(book - {i}, handles')
  {
    hide SegmentBytes;
    forall g | g in handles' ensures HandleOk(book - {i}, handles'[g]) {
      if g != h { assert HandleOk(book, handles[g]) && !RefersTo(handles, g, i); }
    }
  }
}
