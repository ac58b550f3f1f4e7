/** The plain map the descriptor table stands for: from the part of a name that counts to the size of
    the buffer and the number of handles on it. Every call is an operation on that map. */
module BufferDirectory {
  import opened Common
  import opened CNames
  import opened DescriptorLists
  import opened BufferTable
  import opened BufferBook
  import opened BufferRuns
  import FutexMutex

  datatype Entry = Entry(size: nat, count: nat)

  type Directory = map<seq<char>, Entry>

  ghost function Names(book: Book): (d: Directory)
    requires NamesOk(book)
    ensures forall i :: i in book ==> book[i].name in d && d[book[i].name] == Entry(book[i].size, book[i].count)
    ensures forall n :: n in d ==> exists i :: i in book && book[i].name == n
  {
    map n | n in (set i | i in book :: book[i].name) :: EntryNamed(book, n)
  }

  ghost function EntryNamed(book: Book, n: seq<char>): Entry
    requires exists i :: i in book && book[i].name == n
  {
    var i :| i in book && book[i].name == n;
    Entry(book[i].size, book[i].count)
  }

  /** The lists of a well-formed table; they are unique. */
  ghost function FullOf(t: Table): (full: seq<int>)
    requires WellFormed(t)
    ensures exists free :: Wf(t, free, full)
  {
    var free, full :| Wf(t, free, full);
    full
  }

  ghost predicate InOrder(s: State) {
    Inv(s) && WellFormed(s.t) && NamesOk(BookOf(s.maxLen, s.t, FullOf(s.t)))
  }

  /** The map a state stands for. */
  ghost function DirectoryOf(s: State): Directory
    requires InOrder(s)
  {
    Names(BookOf(s.maxLen, s.t, FullOf(s.t)))
  }

  lemma InvOk(s: State, free: seq<int>, full: seq<int>)
    requires Inv(s) && Wf(s.t, free, full)
    ensures InOrder(s) && FullOf(s.t) == full && Explains(s, free, full)
    ensures DirectoryOf(s) == Names(BookOf(s.maxLen, s.t, full))
  {
    hide Wf, Consistent, Shaped;
    var free1, full1 :| Explains(s, free1, full1);
    ListsAreUnique(s.t, free, full, free1, full1);
    var free2 :| Wf(s.t, free2, FullOf(s.t));
    ListsAreUnique(s.t, free, full, free2, FullOf(s.t));
    ConsistentNames(s, free, full);
  }

  lemma ConsistentNames(s: State, free: seq<int>, full: seq<int>)
    requires Explains(s, free, full)
    ensures NamesOk(BookOf(s.maxLen, s.t, full))
  {
  }

  // ------------------------------------------------------- how records and entries correspond

  lemma NamesPut(book: Book, i: int, r: Record)
    requires NamesOk(book) && NamesOk(book[i := r])
    requires i in book ==> book[i].name == r.name
    ensures Names(book[i := r]) == Names(book)[r.name := Entry(r.size, r.count)]
  {
    hide Names;
    var book' := book[i := r];
    var d, d' := Names(book'), Names(book)[r.name := Entry(r.size, r.count)];
    NamesHas(book', i);
    forall n ensures n in d <==> n in d' {
      if n in d { var j := NamesOnly(book', n); if j != i { NamesHas(book, j); } }
      if n in Names(book) { var j := NamesOnly(book, n); if j != i { NamesHas(book', j); } }
    }
    forall n | n in d ensures d[n] == d'[n] {
      var j := NamesOnly(book', n);
      if j != i { NamesHas(book, j); }
    }
  }

  lemma NamesOnly(book: Book, n: seq<char>) returns (i: int)
    requires NamesOk(book) && n in Names(book)
    ensures i in book && book[i].name == n && Names(book)[n] == Entry(book[i].size, book[i].count)
  {
    i :| i in book && book[i].name == n;
  }

  lemma NamesDrop(book: Book, i: int)
    requires NamesOk(book) && i in book
    ensures NamesOk(book - {i}) && Names(book - {i}) == Names(book) - {book[i].name}
  {
    hide Names;
    var book' := book - {i};
    var d, d' := Names(book'), Names(book) - {book[i].name};
    forall n ensures n in d <==> n in d' {
      if n in d { var j := NamesOnly(book', n); NamesHas(book, j); }
      if n in d' { var j := NamesOnly(book, n); NamesHas(book', j); }
    }
    forall n | n in d ensures d[n] == d'[n] {
      var j := NamesOnly(book', n);
      NamesHas(book, j);
    }
  }

  lemma {:induction false} NamesCount(book: Book)
    requires NamesOk(book)
    ensures |Names(book)| == |book|
    decreases |book|
  {
    var keys := book.Keys;
    if keys == {} {
      assert |book| == |keys| && Names(book).Keys == {};
    } else {
      NamesCountStep(book);
      NamesCount(book - {Pick(book.Keys)});
    }
  }

  ghost function Pick<K>(keys: set<K>): (i: K)
    requires keys != {}
    ensures i in keys
  {
    var i :| i in keys;
    i
  }

  lemma NamesCountStep(book: Book)
    requires NamesOk(book) && book.Keys != {}
    ensures var rest := book - {Pick(book.Keys)};
            |rest| == |book| - 1 && NamesOk(rest) && |Names(book)| == |Names(rest)| + 1
  {
    var i := Pick(book.Keys);
    NamesDrop(book, i);
    hide Names, NamesOk;
    assert (book - {i}).Keys == book.Keys - {i};
    NamesHas(book, i);
    assert (Names(book) - {book[i].name}).Keys == Names(book).Keys - {book[i].name};
  }

  lemma NamesHas(book: Book, i: int)
    requires NamesOk(book) && i in book
    ensures book[i].name in Names(book) && Names(book)[book[i].name] == Entry(book[i].size, book[i].count)
  {
  }

  lemma BookCount(maxLen: nat, t: Table, free: seq<int>, full: seq<int>)
    requires Wf(t, free, full)
    ensures |BookOf(maxLen, t, full)| == |full|
    ensures |full| <= |t.ds| && (|full| == |t.ds| <==> free == [])
  {
    FullInRange(t, free, full);
    DistinctCounts(full);
    assert BookOf(maxLen, t, full).Keys == set i | i in full;
  }

  /** The map has as many entries as the table has full descriptors. */
  lemma DirectorySize(s: State, free: seq<int>, full: seq<int>)
    requires Inv(s) && Wf(s.t, free, full)
    ensures InOrder(s) && |DirectoryOf(s)| <= |s.t.ds|
    ensures |DirectoryOf(s)| == |s.t.ds| <==> free == []
  {
    InvOk(s, free, full);
    hide Wf, Explains, BookOf, Inv;
    NamesCount(BookOf(s.maxLen, s.t, full));
    BookCount(s.maxLen, s.t, free, full);
  }

  // ------------------------------------------------------------------ the calls

  ghost function Handed(s: State, op: Op): Result<Attached>
    requires op.GetBuffer? && Enabled(s, op) && Shaped(ViewOf(s, op.p))
  {
    Get(ViewOf(s, op.p), op.id, op.bytes, op.key, op.attached).1
  }

  /** getBuffer on the map: an existing name is handed out with the size it was created with,
      whatever the caller asked for; a new name is entered with the size asked for; it fails
      for 0 bytes, for a full map, or when the kernel refuses to attach. */
  ghost predicate GetOnMap(d: Directory, capacity: nat, name: seq<char>, bytes: nat, attached: bool,
                           r: Result<Attached>, d': Directory) {
    if name in d then
      match r
      case Ok(at) => at.size == d[name].size && !at.isCreator
                     && d' == d[name := Entry(d[name].size, d[name].count + 1)]
      case Throw(e) => e == SegmentFailed && !attached && d' == d
    else if bytes == 0 then r == Throw(ZeroBytes) && d' == d
    else if |d| == capacity then r == Throw(NoFreeDescriptor) && d' == d
    else r.Ok? && r.value.size == bytes && r.value.isCreator && d' == d[name := Entry(bytes, 1)]
  }

  ghost predicate SameSegments(s: State, s': State) {
    s'.segments == s.segments && s'.nextNumber == s.nextNumber && |s'.t.ds| == |s.t.ds| && s'.maxLen == s.maxLen
  }

  /** Mapping an existing buffer, on the records: the process gets the segment it has cached, or the current one. */
  lemma MapBook(code: Code, s: State, op: Op, i: int, free: seq<int>, full: seq<int>)
    requires op.GetBuffer? && Enabled(s, op) && Shaped(ViewOf(s, op.p)) && Explains(s, free, full)
    requires i == Lookup(ViewOf(s, op.p), op.id) >= 0 && i in full && 0 <= i < |s.t.ds|
    ensures var s', r := Step(code, s, op), Handed(s, op);
            var book := BookOf(s.maxLen, s.t, full);
            && i in book && Wf(s'.t, free, full) && book[i].key == s.t.ds[i].shmKey && book[i].key in s.segments
            && SameSegments(s, s')
            && (r.Ok? ==>
                  && r.value == Attached(i, book[i].size, NumberFor(s, op.p, i), false)
                  && BookOf(s'.maxLen, s'.t, full) == book[i := book[i].(count := book[i].count + 1)]
                  && s'.caches == s.caches[op.p := CacheOf(s.caches, op.p)[i := r.value.number]]
                  && s'.handles == s.handles[op.h := Live(op.p, r.value)])
            && (r.Throw? ==>
                  && r.error == SegmentFailed && !op.attached && BookOf(s'.maxLen, s'.t, full) == book
                  && s'.caches == s.caches[op.p := CacheOf(s.caches, op.p)] && s'.handles == s.handles)
  {
    hide Shaped, Explains, Wf, BookOf, Lookup, Step, Map, WithPayload, RecordOf, SizeOf;
    StepGets(code, s, op);
    ShapedForAll(s, op.p, 0);
    ExplainsLists(s, free, full);
    MapIs(s, op.p, i, op.attached, free, full);
    FullRecord(s, i, full);
    Counted(s, i, s.t.ds[i].refCount + 1, free, full);
  }

  lemma MapOnMap(code: Code, s: State, op: Op, i: int, free: seq<int>, full: seq<int>)
    requires op.GetBuffer? && Enabled(s, op) && Shaped(ViewOf(s, op.p))
    requires Explains(s, free, full) && Inv(Step(code, s, op))
    requires i == Lookup(ViewOf(s, op.p), op.id) >= 0 && i in full && 0 <= i < |s.t.ds|
    requires RecordOf(s.maxLen, s.t.ds[i]).name == Name(op.id, s.maxLen)
    ensures InOrder(s) && InOrder(Step(code, s, op))
    ensures GetOnMap(DirectoryOf(s), |s.t.ds|, Name(op.id, s.maxLen), op.bytes, op.attached, Handed(s, op),
                     DirectoryOf(Step(code, s, op)))
  {
    hide Inv, Shaped, Explains, Wf, BookOf, Lookup, Step, Names, NamesOk, Name, RecordOf, DirectoryOf, Handed, InOrder;
    hide Enabled;
    ExplainsInv(s, op.p, free, full);
    ExplainsLists(s, free, full);
    MapBook(code, s, op, i, free, full);
    FullRecord(s, i, full);
    InvOk(s, free, full);
    InvOk(Step(code, s, op), free, full);
    ConsistentNames(s, free, full);
    ConsistentNames(Step(code, s, op), free, full);
    var book := BookOf(s.maxLen, s.t, full);
    NamesHas(book, i);
    if Handed(s, op).Ok? {
      NamesPut(book, i, book[i].(count := book[i].count + 1));
    }
  }

  /** Creating a buffer, on the records. */
  lemma CreateBook(code: Code, s: State, op: Op, free: seq<int>, full: seq<int>)
    requires op.GetBuffer? && Enabled(s, op) && Shaped(ViewOf(s, op.p)) && Explains(s, free, full)
    requires Lookup(ViewOf(s, op.p), op.id) < 0
    requires (op.attached && op.key !in s.segments) || op.bytes == 0 || free == []
    ensures var s', r := Step(code, s, op), Handed(s, op);
            var book := BookOf(s.maxLen, s.t, full);
            if op.bytes == 0 || free == [] then
              && r == Throw(if op.bytes == 0 then ZeroBytes else NoFreeDescriptor)
              && Wf(s'.t, free, full) && BookOf(s'.maxLen, s'.t, full) == book
              && SameSegments(s, s')
              && s'.caches == s.caches[op.p := CacheOf(s.caches, op.p)] && s'.handles == s.handles
            else
              && r == Ok(Attached(free[0], op.bytes, s.nextNumber, true))
              && s'.segments == s.segments[op.key := Segment(s.nextNumber, SegmentBytes(op.bytes), FutexMutex.UNLOCKED)]
              && s'.nextNumber == s.nextNumber + 1 && |s'.t.ds| == |s.t.ds| && s'.maxLen == s.maxLen
              && s'.caches == s.caches[op.p := CacheOf(s.caches, op.p)[free[0] := s.nextNumber]]
              && s'.handles == s.handles[op.h := Live(op.p, r.value)]
              && free[0] !in book && Wf(s'.t, free[1..], [free[0]] + full)
              && BookOf(s'.maxLen, s'.t, [free[0]] + full) ==
                   book[free[0] := Record(op.key, op.bytes, 1, Name(op.id, s.maxLen))]
  {
    ShapedInRange(s, op.p);
    hide Shaped, Explains, Wf, BookOf, Lookup, Step, Create, Take, WithPayload, RecordOf, NewDescriptor, InRange;
    StepGets(code, s, op);
    ExplainsLists(s, free, full);
    CreateIs(s, op.p, op.id, op.bytes, op.key, op.attached, free, full);
    if op.bytes > 0 && free != [] {
      var (t1, i) := Take(s.t);
      var d := NewDescriptor(s, op.id, t1.ds[i].id, op.bytes, op.key);
      TakeForNew(s, d.(refCount := 1), free, full);
      NewRecord(s, op.id, t1.ds[i].id, op.bytes, op.key, 1);
      NotInBook(s, i, full);
      NewBytes(s, op.id, t1.ds[i].id, op.bytes, op.key);
    }
  }

  lemma CreateOnMap(code: Code, s: State, op: Op, free: seq<int>, full: seq<int>)
    requires op.GetBuffer? && Enabled(s, op) && Shaped(ViewOf(s, op.p))
    requires Explains(s, free, full) && Inv(Step(code, s, op))
    requires Lookup(ViewOf(s, op.p), op.id) < 0
    requires (op.attached && op.key !in s.segments) || op.bytes == 0 || free == []
    requires forall j :: j in BookOf(s.maxLen, s.t, full) ==>
               BookOf(s.maxLen, s.t, full)[j].name != Name(op.id, s.maxLen)
    ensures InOrder(s) && InOrder(Step(code, s, op))
    ensures GetOnMap(DirectoryOf(s), |s.t.ds|, Name(op.id, s.maxLen), op.bytes, op.attached, Handed(s, op),
                     DirectoryOf(Step(code, s, op)))
  {
    hide Inv, Shaped, Explains, Wf, BookOf, Lookup, Step, Names, NamesOk, Name, DirectoryOf, Handed, InOrder, Enabled;
    ExplainsInv(s, op.p, free, full);
    ExplainsLists(s, free, full);
    CreateBook(code, s, op, free, full);
    InvOk(s, free, full);
    DirectorySize(s, free, full);
    ConsistentNames(s, free, full);
    var book := BookOf(s.maxLen, s.t, full);
    NamesLack(book, Name(op.id, s.maxLen));
    var s' := Step(code, s, op);
    if op.bytes == 0 || free == [] {
      InvOk(s', free, full);
      ConsistentNames(s', free, full);
    } else {
      InvOk(s', free[1..], [free[0]] + full);
      ConsistentNames(s', free[1..], [free[0]] + full);
      NamesPut(book, free[0], Record(op.key, op.bytes, 1, Name(op.id, s.maxLen)));
    }
  }

  lemma NamesLack(book: Book, name: seq<char>)
    requires NamesOk(book) && forall j :: j in book ==> book[j].name != name
    ensures name !in Names(book)
  {
  }

  /** getBuffer refines the map, for every state a run can reach. */
  lemma GetBufferRefines(code: Code, s: State, op: Op)
    requires op.GetBuffer? && Inv(s) && Enabled(s, op) && Guard(code, s, op)
    ensures InOrder(s) && InOrder(Step(code, s, op)) && Shaped(ViewOf(s, op.p))
    ensures GetOnMap(DirectoryOf(s), |s.t.ds|, Name(op.id, s.maxLen), op.bytes, op.attached, Handed(s, op),
                     DirectoryOf(Step(code, s, op)))
  {
    StepKeepsIff(code, s, op);
    var free, full :| Explains(s, free, full);
    hide Explains, Wf, Create, Map, Lookup, BookOf, Shaped, Step, Name, DirectoryOf, Handed, InOrder, Inv;
    EnabledShaped(s, op);
    ExplainsLists(s, free, full);
    NothingFree(s.t, free, full);
    LookupInBook(s, op.p, op.id, free, full);
    var i := Lookup(ViewOf(s, op.p), op.id);
    if i >= 0 {
      FullRecord(s, i, full);
      MapOnMap(code, s, op, i, free, full);
    } else {
      CreateOnMap(code, s, op, free, full);
    }
  }

  lemma EnabledShaped(s: State, op: Op)
    requires op.GetBuffer? && Enabled(s, op)
    ensures Shaped(ViewOf(s, op.p))
  {
    ShapedForAll(s, 0, op.p);
  }

  // ------------------------------------------------------- copying and destroying

  /** The name of the buffer whose fields the object has. */
  ghost function NameOfHandle(s: State, h: nat): seq<char>
    requires HasFields(s, h)
  {
    Name(s.t.ds[s.handles[h].at.desc].id, s.maxLen)
  }

  lemma ShareBook(s: State, h: nat, o: nat, free: seq<int>, full: seq<int>)
    requires Shaped(ViewOf(s, 0)) && Explains(s, free, full) && HasFields(s, o) && StillThere(s, s.handles[o].at)
    ensures var s', i := Share(s, h, o), s.handles[o].at.desc;
            var book := BookOf(s.maxLen, s.t, full);
            && i in book && book[i].name == NameOfHandle(s, o) && Wf(s'.t, free, full)
            && SameSegments(s, s') && s'.caches == s.caches
            && s'.handles == s.handles[h := Live(s.handles[o].proc, s.handles[o].at)]
            && BookOf(s'.maxLen, s'.t, full) == book[i := book[i].(count := book[i].count + 1)]
  {
    hide Explains, Wf, BookOf, Shaped, Name, SizeOf, WithPayload, Share, StillThere, HandleOk;
    var i := s.handles[o].at.desc;
    ExplainsLists(s, free, full);
    StillThereIff(s, s.handles[o].proc, s.handles[o].at, free, full);
    InBook(s, Live(s.handles[o].proc, s.handles[o].at), free, full);
    FullRecord(s, i, full);
    ShareIs(s, h, o);
    SamePayloadSize(s.t, i, s.t.ds[i].(refCount := s.t.ds[i].refCount + 1));
    Counted(s, i, s.t.ds[i].refCount + 1, free, full);
  }

  /** Copying a handle, or taking over its fields in operator=, raises the count of its name. */
  lemma CopyRefines(code: Code, s: State, op: Op)
    requires op.Copy? || op.AssignCopy?
    requires Inv(s) && Enabled(s, op) && Guard(code, s, op)
    ensures InOrder(s) && InOrder(Step(code, s, op)) && HasFields(s, op.o)
    ensures var d, n := DirectoryOf(s), NameOfHandle(s, op.o);
            n in d && DirectoryOf(Step(code, s, op)) == d[n := Entry(d[n].size, d[n].count + 1)]
  {
    hide Step, InOrder, Guard, Enabled, DirectoryOf, NameOfHandle, Explains, Shaped, StillThere, HasFields, Share;
    var free, full :| Explains(s, free, full);
    StepKeepsIff(code, s, op);
    CopyIs(code, s, op);
    ShareOnMap(s, op.h, op.o, free, full);
  }

  lemma CopyIs(code: Code, s: State, op: Op)
    requires op.Copy? || op.AssignCopy?
    requires Enabled(s, op) && Guard(code, s, op)
    ensures Shaped(ViewOf(s, 0)) && HasFields(s, op.o) && StillThere(s, s.handles[op.o].at)
    ensures Step(code, s, op) == Share(s, op.h, op.o) && NotLive(s.handles, op.h)
  {
    hide Explains, Shaped, StillThere, Share;
  }

  lemma ShareOnMap(s: State, h: nat, o: nat, free: seq<int>, full: seq<int>)
    requires Shaped(ViewOf(s, 0)) && Explains(s, free, full) && HasFields(s, o) && StillThere(s, s.handles[o].at)
    requires Inv(Share(s, h, o))
    ensures InOrder(s) && InOrder(Share(s, h, o))
    ensures var d, n := DirectoryOf(s), NameOfHandle(s, o);
            n in d && DirectoryOf(Share(s, h, o)) == d[n := Entry(d[n].size, d[n].count + 1)]
  {
    hide Explains, Wf, BookOf, Shaped, Share, Name, Names, NamesOk, DirectoryOf, InOrder, Inv, SizeOf, NameOfHandle;
    hide StillThere;
    ExplainsInv(s, 0, free, full);
    var s', i := Share(s, h, o), s.handles[o].at.desc;
    ShareBook(s, h, o, free, full);
    ExplainsLists(s, free, full);
    InvOk(s, free, full);
    InvOk(s', free, full);
    ConsistentNames(s, free, full);
    ConsistentNames(s', free, full);
    var book := BookOf(s.maxLen, s.t, full);
    NamesHas(book, i);
    NamesPut(book, i, book[i].(count := book[i].count + 1));
  }

  lemma ReleaseBook(code: Code, s: State, h: nat, free: seq<int>, full: seq<int>)
    returns (free': seq<int>, full': seq<int>)
    requires Shaped(ViewOf(s, 0)) && IsLive(s, h) && MayRelease(code, s, h) && Explains(s, free, full)
    ensures var s', i := Release(code, s, h), s.handles[h].at.desc;
            var book := BookOf(s.maxLen, s.t, full);
            && i in book && book[i].count > 0 && book[i].name == NameOfHandle(s, h) && Wf(s'.t, free', full')
            && s'.maxLen == s.maxLen && |s'.t.ds| == |s.t.ds| && s'.nextNumber == s.nextNumber
            && s'.handles == s.handles
            && (i in full' <==> book[i].count != 1)
            && if book[i].count == 1 then
                 && BookOf(s.maxLen, s'.t, full') == book - {i} && free' == [i] + free
                 && s'.segments == s.segments - {book[i].key}
                 && s'.caches == s.caches[s.handles[h].proc := CacheOf(s.caches, s.handles[h].proc) - {i}]
               else
                 && BookOf(s.maxLen, s'.t, full') == book[i := book[i].(count := book[i].count - 1)]
                 && free' == free && full' == full && s'.segments == s.segments
                 && s'.caches == s.caches[s.handles[h].proc := CacheOf(s.caches, s.handles[h].proc)]
  {
    hide Explains, Wf, BookOf, Shaped, Name, WithPayload, Put, Release, InRange, SizeOf;
    var i := s.handles[h].at.desc;
    ExplainsLists(s, free, full);
    LiveHandle(s, h, free, full);
    FullRecord(s, i, full);
    ReleaseIs(code, s, h);
    if s.t.ds[i].refCount == 1 {
      free', full' := DropLast(code, s, i, free, full);
    } else {
      free', full' := free, full;
      Counted(s, i, s.t.ds[i].refCount - 1, free, full);
    }
  }

  /** Destroying a handle, or freeing it in operator=, lowers the count of its name, and removes the
      name, and returns the descriptor, exactly when it was the last handle. */
  lemma DestroyRefines(code: Code, s: State, op: Op)
    requires op.Destroy? || op.AssignFree?
    requires Inv(s) && Enabled(s, op) && Guard(code, s, op) && IsLive(s, op.h)
    ensures InOrder(s) && InOrder(Step(code, s, op))
    ensures var d, n, i := DirectoryOf(s), NameOfHandle(s, op.h), s.handles[op.h].at.desc;
            && n in d && d[n].count > 0
            && DirectoryOf(Step(code, s, op)) ==
                 (if d[n].count == 1 then d - {n} else d[n := Entry(d[n].size, d[n].count - 1)])
            && (i in FullOf(Step(code, s, op).t) <==> d[n].count != 1)
  {
    hide Explains, Shaped, Release, MayRelease, InOrder, DirectoryOf, NameOfHandle, FullOf;
    var free, full :| Explains(s, free, full);
    StepKeepsIff(code, s, op);
    ReleaseOnMap(code, s, op.h, Step(code, s, op), free, full);
  }

  /** The steps that leave the map as it is: among them those of objects that were never counted. */
  predicate IsQuiet(s: State, op: Op) {
    op.Default? || op.SetWord? || op.AssignThrow? || ((op.Destroy? || op.AssignFree?) && !IsLive(s, op.h))
  }

  lemma QuietBook(code: Code, s: State, op: Op, free: seq<int>, full: seq<int>) returns (free': seq<int>)
    requires IsQuiet(s, op) && Explains(s, free, full) && Enabled(s, op) && Guard(code, s, op)
    ensures var s' := Step(code, s, op);
            Wf(s'.t, free', full) && s'.maxLen == s.maxLen && |s'.t.ds| == |s.t.ds|
            && BookOf(s'.maxLen, s'.t, full) == BookOf(s.maxLen, s.t, full)
  {
    hide Explains, Wf, BookOf, Shaped, Release;
    ExplainsLists(s, free, full);
    free' := free;
    if op.Destroy? || op.AssignFree? {
      FullIffReferred(s, s.handles[op.h].at.desc, free, full);
      free' := DropIs(code, s, op.h, free, full);
    }
  }

  lemma QuietRefines(code: Code, s: State, op: Op)
    requires IsQuiet(s, op) && Inv(s) && Enabled(s, op) && Guard(code, s, op)
    ensures InOrder(s) && InOrder(Step(code, s, op)) && DirectoryOf(Step(code, s, op)) == DirectoryOf(s)
  {
    hide Consistent, Wf, BookOf, Shaped, Step, Guard, Enabled, IsQuiet, DirectoryOf, InOrder, Names, NamesOk;
    var free, full :| Explains(s, free, full);
    StepKeepsIff(code, s, op);
    var free' := QuietBook(code, s, op, free, full);
    InvOk(s, free, full);
    InvOk(Step(code, s, op), free', full);
  }

  lemma ReleaseOnMap(code: Code, s: State, h: nat, s': State, free: seq<int>, full: seq<int>)
    requires Shaped(ViewOf(s, 0)) && IsLive(s, h) && MayRelease(code, s, h) && Explains(s, free, full)
    requires Inv(s') && s' == Release(code, s, h).(handles := s'.handles)
    ensures InOrder(s) && InOrder(s')
    ensures var d, n, i := DirectoryOf(s), NameOfHandle(s, h), s.handles[h].at.desc;
            && n in d && d[n].count > 0
            && DirectoryOf(s') == (if d[n].count == 1 then d - {n} else d[n := Entry(d[n].size, d[n].count - 1)])
            && (i in FullOf(s'.t) <==> d[n].count != 1)
  {
    hide Explains, Wf, BookOf, Shaped, Release, Name, Names, NamesOk, DirectoryOf, InOrder, Inv, SizeOf, NameOfHandle;
    hide MayRelease;
    ExplainsInv(s, 0, free, full);
    var free', full' := ReleaseBook(code, s, h, free, full);
    var i := s.handles[h].at.desc;
    ExplainsLists(s, free, full);
    InvOk(s, free, full);
    InvOk(s', free', full');
    ConsistentNames(s, free, full);
    ConsistentNames(s', free', full');
    var book := BookOf(s.maxLen, s.t, full);
    NamesHas(book, i);
    if book[i].count == 1 {
      NamesDrop(book, i);
    } else {
      NamesPut(book, i, book[i].(count := book[i].count - 1));
    }
  }
}
