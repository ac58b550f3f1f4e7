/** The descriptor table over whole runs, as its clients see it: a plain map from names to sizes and counts, and
    the name each handle stands for. Every run of every process is a run of that ledger. */
module BufferLedger {
  import opened Common
  import opened CNames
  import opened DescriptorLists
  import opened BufferTable
  import opened BufferBook
  import opened BufferRuns
  import opened BufferDirectory
  import opened BufferCurrency

  /** names has the live handles, of all processes. */
  datatype Ledger = Ledger(entries: Directory, names: map<nat, seq<char>>)

  function Raised(d: Directory, n: seq<char>): Directory
    requires n in d
  {
    d[n := Entry(d[n].size, d[n].count + 1)]
  }

  /** The last handle takes its name with it. */
  function Lowered(d: Directory, n: seq<char>): Directory
    requires n in d
  {
    if d[n].count <= 1 then d - {n} else d[n := Entry(d[n].size, d[n].count - 1)]
  }

  /** What a step does to the ledger. A copy is one of a name that has an entry: that of the original, when it is
      alive. What was never counted changes nothing. */
  ghost predicate LedgerStep(a: Ledger, capacity: nat, maxLen: nat, op: Op, b: Ledger) {
    match op
    case GetBuffer(h, _, id, bytes, _, attached) =>
      h !in a.names && exists r: Result<Attached> ::
        && GetOnMap(a.entries, capacity, Name(id, maxLen), bytes, attached, r, b.entries)
        && b.names == if r.Ok? then a.names[h := Name(id, maxLen)] else a.names
    case Copy(h, o) => Shares(a, h, o, b)
    case AssignCopy(h, o) => Shares(a, h, o, b)
    case AssignFree(h) => Lets(a, h, b)
    case Destroy(h) => Lets(a, h, b)
    case _ => b == a
  }

  ghost predicate Shares(a: Ledger, h: nat, o: nat, b: Ledger) {
    h !in a.names
    && exists n :: n in a.entries && (o in a.names ==> n == a.names[o])
                   && b == Ledger(Raised(a.entries, n), a.names[h := n])
  }

  ghost predicate Lets(a: Ledger, h: nat, b: Ledger) {
    if h in a.names then
      a.names[h] in a.entries && b == Ledger(Lowered(a.entries, a.names[h]), a.names - {h})
    else b == a
  }

  ghost predicate LedgerRun(a: Ledger, capacity: nat, maxLen: nat, ops: seq<Op>, b: Ledger)
    decreases |ops|
  {
    if ops == [] then b == a
    else exists m :: LedgerStep(a, capacity, maxLen, ops[0], m) && LedgerRun(m, capacity, maxLen, ops[1..], b)
  }

  // ------------------------------------------------------------- what a state stands for

  ghost function NamesIn(book: Book, handles: Handles): map<nat, seq<char>> {
    map h | h in handles && handles[h].Live? && handles[h].at.desc in book :: book[handles[h].at.desc].name
  }

  ghost function LedgerOf(s: State): Ledger
    requires InOrder(s)
  {
    Ledger(DirectoryOf(s), NamesIn(BookOf(s.maxLen, s.t, FullOf(s.t)), s.handles))
  }

  lemma LedgerIs(s: State, free: seq<int>, full: seq<int>)
    requires Inv(s) && Wf(s.t, free, full)
    ensures InOrder(s) && Explains(s, free, full)
    ensures var book := BookOf(s.maxLen, s.t, full);
            NamesOk(book) && LedgerOf(s) == Ledger(Names(book), NamesIn(book, s.handles))
  {
    hide Wf, Explains, BookOf, Names, NamesIn, NamesOk, DirectoryOf, FullOf, Inv;
    InvOk(s, free, full);
    ConsistentNames(s, free, full);
  }

  /** Live handles have names. */
  lemma LiveNamed(s: State, h: nat, free: seq<int>, full: seq<int>)
    requires Explains(s, free, full)
    ensures h in NamesIn(BookOf(s.maxLen, s.t, full), s.handles) <==> h in s.handles && s.handles[h].Live?
  {
    if h in s.handles && s.handles[h].Live? { LiveHandle(s, h, free, full); }
    hide Explains, BookOf;
  }

  // ------------------------------------------------------------ names, book by book

  lemma NamesAdded(book: Book, i: int, r: Record, handles: Handles, h: nat, p: nat, at: Attached)
    requires at.desc == i && NotLive(handles, h)
    requires i in book ==> book[i].name == r.name
    requires i !in book ==> forall g :: g in handles ==> !RefersTo(handles, g, i)
    ensures NamesIn(book[i := r], handles[h := Live(p, at)]) == NamesIn(book, handles)[h := r.name]
  {
  }

  lemma NamesWithout(book: Book, book': Book, handles: Handles, h: nat, handles': Handles)
    requires Without(handles, h, handles')
    requires forall g :: g in handles && g != h && handles[g].Live? ==>
               var i := handles[g].at.desc;
               (i in book <==> i in book') && (i in book && i in book' ==> book'[i].name == book[i].name)
    ensures NamesIn(book', handles') == NamesIn(book, handles) - {h}
  {
    var a, b := NamesIn(book', handles'), NamesIn(book, handles) - {h};
    forall g ensures g in a <==> g in b {}
    forall g | g in a ensures a[g] == b[g] {}
  }

  // ------------------------------------------------------------------ the steps

  lemma GetOnLedger(code: Code, s: State, op: Op)
    requires op.GetBuffer? && Inv(s) && Enabled(s, op) && Guard(code, s, op)
    ensures InOrder(s) && InOrder(Step(code, s, op))
    ensures LedgerStep(LedgerOf(s), |s.t.ds|, s.maxLen, op, LedgerOf(Step(code, s, op)))
  {
    hide Step, Guard, Enabled, Consistent, Wf, BookOf, Shaped, Names, NamesOk, Name, InOrder, LedgerOf, NamesIn;
    hide DirectoryOf, GetOnMap, Handed;
    var free, full :| Explains(s, free, full);
    GetBufferRefines(code, s, op);
    var free', full' := GetNames(code, s, op, free, full);
    StepKeepsIff(code, s, op);
    LedgerIs(s, free, full);
    LedgerIs(Step(code, s, op), free', full');
    InvOk(s, free, full);
    InvOk(Step(code, s, op), free', full');
    LiveNamed(s, op.h, free, full);
    NewHandle(s, op);
    assert GetOnMap(LedgerOf(s).entries, |s.t.ds|, Name(op.id, s.maxLen), op.bytes, op.attached, Handed(s, op),
                    LedgerOf(Step(code, s, op)).entries);
  }

  lemma NewHandle(s: State, op: Op)
    requires op.GetBuffer? && Enabled(s, op)
    ensures op.h !in s.handles
  {
  }

  lemma GetNames(code: Code, s: State, op: Op, free: seq<int>, full: seq<int>)
    returns (free': seq<int>, full': seq<int>)
    requires op.GetBuffer? && Explains(s, free, full) && Enabled(s, op) && Guard(code, s, op)
    ensures Shaped(ViewOf(s, op.p))
    ensures var s', r := Step(code, s, op), Handed(s, op);
            var names := NamesIn(BookOf(s.maxLen, s.t, full), s.handles);
            && Wf(s'.t, free', full')
            && NamesIn(BookOf(s'.maxLen, s'.t, full'), s'.handles) ==
                 if r.Ok? then names[op.h := Name(op.id, s.maxLen)] else names
  {
    hide Explains, Wf, BookOf, Shaped, Step, Lookup, SegmentBytes, Handed, Name, NamesIn, SizeOf;
    EnabledShaped(s, op);
    ExplainsLists(s, free, full);
    NothingFree(s.t, free, full);
    LookupInBook(s, op.p, op.id, free, full);
    var book, i, s' := BookOf(s.maxLen, s.t, full), Lookup(ViewOf(s, op.p), op.id), Step(code, s, op);
    free', full' := free, full;
    if i >= 0 {
      MapBook(code, s, op, i, free, full);
      if Handed(s, op).Ok? {
        NamesAdded(book, i, book[i].(count := book[i].count + 1), s.handles, op.h, op.p, Handed(s, op).value);
      }
    } else {
      CreateBook(code, s, op, free, full);
      if op.bytes > 0 && free != [] {
        free', full' := free[1..], [free[0]] + full;
        UnusedDescriptor(s, free[0], free, full);
        NamesAdded(book, free[0], Record(op.key, op.bytes, 1, Name(op.id, s.maxLen)), s.handles,
                   op.h, op.p, Handed(s, op).value);
      }
    }
  }

  lemma UnusedDescriptor(s: State, i: int, free: seq<int>, full: seq<int>)
    requires Explains(s, free, full) && i !in BookOf(s.maxLen, s.t, full)
    ensures forall g :: g in s.handles ==> !RefersTo(s.handles, g, i)
  {
    forall g | g in s.handles ensures !RefersTo(s.handles, g, i) {
      if RefersTo(s.handles, g, i) { LiveHandle(s, g, free, full); }
    }
  }

  lemma ShareOnLedger(code: Code, s: State, op: Op)
    requires op.Copy? || op.AssignCopy?
    requires Inv(s) && Enabled(s, op) && Guard(code, s, op)
    ensures InOrder(s) && InOrder(Step(code, s, op))
    ensures LedgerStep(LedgerOf(s), |s.t.ds|, s.maxLen, op, LedgerOf(Step(code, s, op)))
  {
    hide Guard, Enabled, Consistent, Wf, BookOf, Shaped, Names, NamesOk, Name, InOrder, LedgerOf, NamesIn;
    hide DirectoryOf, Share, StillThere, NameOfHandle, Get, Release;
    var free, full :| Explains(s, free, full);
    CopyIs(code, s, op);
    StepKeepsIff(code, s, op);
    hide Step;
    SharedNames(s, op.h, op.o, free, full);
    LedgerIs(s, free, full);
    LedgerIs(Step(code, s, op), free, full);
    LiveNamed(s, op.h, free, full);
    var n := NameOfHandle(s, op.o);
    var a, b := LedgerOf(s), LedgerOf(Step(code, s, op));
    assert n in a.entries && b == Ledger(Raised(a.entries, n), a.names[op.h := n]);
  }

  lemma SharedNames(s: State, h: nat, o: nat, free: seq<int>, full: seq<int>)
    requires Shaped(ViewOf(s, 0)) && Explains(s, free, full) && HasFields(s, o) && StillThere(s, s.handles[o].at)
    requires NotLive(s.handles, h)
    ensures var s', n := Share(s, h, o), NameOfHandle(s, o);
            var book, book' := BookOf(s.maxLen, s.t, full), BookOf(s'.maxLen, s'.t, full);
            && Wf(s'.t, free, full) && NamesOk(book) && NamesOk(book') && n in Names(book)
            && Names(book') == Raised(Names(book), n)
            && NamesIn(book', s'.handles) == NamesIn(book, s.handles)[h := n]
            && (o in NamesIn(book, s.handles) ==> NamesIn(book, s.handles)[o] == n)
  {
    hide Explains, Wf, BookOf, Shaped, Share, Name, Names, NamesOk, SizeOf, NameOfHandle, StillThere;
    var i := s.handles[o].at.desc;
    var book, s' := BookOf(s.maxLen, s.t, full), Share(s, h, o);
    ShareBook(s, h, o, free, full);
    ConsistentNames(s, free, full);
    SameNamesOk(book, i, book[i].count + 1);
    NamesHas(book, i);
    NamesPut(book, i, book[i].(count := book[i].count + 1));
    hide NamesIn;
    NamesAdded(book, i, book[i].(count := book[i].count + 1), s.handles, h, s.handles[o].proc, s.handles[o].at);
    NamesOf(book, s.handles, o);
  }

  lemma NamesOf(book: Book, handles: Handles, o: nat)
    ensures o in NamesIn(book, handles) ==>
              o in handles && !handles[o].Null? && handles[o].at.desc in book &&
              NamesIn(book, handles)[o] == book[handles[o].at.desc].name
  {
  }

  lemma SameNamesOk(book: Book, i: int, count: nat)
    requires NamesOk(book) && i in book
    ensures NamesOk(book[i := book[i].(count := count)])
  {
  }

  lemma FreeOnLedger(code: Code, s: State, op: Op)
    requires op.Destroy? || op.AssignFree?
    requires Inv(s) && Enabled(s, op) && Guard(code, s, op) && IsLive(s, op.h)
    ensures InOrder(s) && InOrder(Step(code, s, op))
    ensures LedgerStep(LedgerOf(s), |s.t.ds|, s.maxLen, op, LedgerOf(Step(code, s, op)))
  {
    hide Consistent, Wf, BookOf, Shaped, Names, NamesOk, Name, InOrder, LedgerOf, NamesIn, DirectoryOf, Release;
    hide Without, MayRelease;
    var free, full :| Explains(s, free, full);
    StepKeepsIff(code, s, op);
    WithoutGone(s.handles, op.h);
    WithoutFreed(s.handles, op.h, s.handles[op.h].proc, s.handles[op.h].at);
    var s' := Step(code, s, op);
    var free', full' := FreedNames(code, s, op.h, s', free, full);
    hide Step, Guard, Enabled;
    LedgerIs(s, free, full);
    LedgerIs(s', free', full');
  }

  lemma FreedNames(code: Code, s: State, h: nat, s': State, free: seq<int>, full: seq<int>)
    returns (free': seq<int>, full': seq<int>)
    requires Shaped(ViewOf(s, 0)) && Explains(s, free, full) && IsLive(s, h) && MayRelease(code, s, h)
    requires s' == Release(code, s, h).(handles := s'.handles) && Without(s.handles, h, s'.handles)
    ensures var book, book' := BookOf(s.maxLen, s.t, full), BookOf(s'.maxLen, s'.t, full');
            var names := NamesIn(book, s.handles);
            && Wf(s'.t, free', full') && NamesOk(book) && NamesOk(book')
            && h in names && names[h] in Names(book)
            && Names(book') == Lowered(Names(book), names[h])
            && NamesIn(book', s'.handles) == names - {h}
  {
    hide Explains, Wf, BookOf, Shaped, Release, Name, Names, NamesOk, SizeOf, NameOfHandle, MayRelease, NamesIn;
    hide Without;
    var i, book := s.handles[h].at.desc, BookOf(s.maxLen, s.t, full);
    free', full' := ReleaseBook(code, s, h, free, full);
    ConsistentNames(s, free, full);
    LiveNamed(s, h, free, full);
    NamesOf(book, s.handles, h);
    NamesHas(book, i);
    if book[i].count == 1 {
      NamesDrop(book, i);
      LastReference(s, h, free, full);
      NamesDropped(book, i, s.handles, h, s'.handles);
    } else {
      SameNamesOk(book, i, book[i].count - 1);
      NamesPut(book, i, book[i].(count := book[i].count - 1));
      NamesCounted(book, i, book[i].count - 1, s.handles, h, s'.handles);
    }
  }

  lemma NamesDropped(book: Book, i: int, handles: Handles, h: nat, handles': Handles)
    requires Without(handles, h, handles') && forall g :: g in handles && g != h ==> !RefersTo(handles, g, i)
    ensures NamesIn(book - {i}, handles') == NamesIn(book, handles) - {h}
  {
    hide Without;
    NamesWithout(book, book - {i}, handles, h, handles');
  }

  lemma NamesCounted(book: Book, i: int, count: nat, handles: Handles, h: nat, handles': Handles)
    requires Without(handles, h, handles') && i in book
    ensures NamesIn(book[i := book[i].(count := count)], handles') == NamesIn(book, handles) - {h}
  {
    hide Without;
    NamesWithout(book, book[i := book[i].(count := count)], handles, h, handles');
  }

  lemma LastReference(s: State, h: nat, free: seq<int>, full: seq<int>)
    requires Explains(s, free, full) && IsLive(s, h)
    requires s.handles[h].at.desc in BookOf(s.maxLen, s.t, full)
    requires BookOf(s.maxLen, s.t, full)[s.handles[h].at.desc].count == 1
    ensures forall g :: g in s.handles && g != h ==> !RefersTo(s.handles, g, s.handles[h].at.desc)
  {
    hide Wf, BookOf, Without;
    WithoutGone(s.handles, h);
    DropRecord(BookOf(s.maxLen, s.t, full), s.segments, s.nextNumber, s.handles, h, s.handles - {h});
  }

  lemma QuietOnLedger(code: Code, s: State, op: Op)
    requires IsQuiet(s, op) && Inv(s) && Enabled(s, op) && Guard(code, s, op)
    ensures InOrder(s) && InOrder(Step(code, s, op))
    ensures LedgerOf(Step(code, s, op)) == LedgerOf(s)
    ensures LedgerStep(LedgerOf(s), |s.t.ds|, s.maxLen, op, LedgerOf(Step(code, s, op)))
  {
    hide Consistent, Wf, BookOf, Shaped, Names, NamesOk, Name, InOrder, LedgerOf, NamesIn, DirectoryOf, Release;
    hide MayDrop;
    var free, full :| Explains(s, free, full);
    StepKeepsIff(code, s, op);
    var s' := Step(code, s, op);
    var free' := QuietBook(code, s, op, free, full);
    if !op.SetWord? {
      QuietHandles(code, s, op);
      QuietNames(BookOf(s.maxLen, s.t, full), s.handles, op.h, s'.handles);
    }
    LedgerIs(s, free, full);
    LedgerIs(s', free', full);
    if op.Destroy? || op.AssignFree? {
      LiveNamed(s, op.h, free, full);
      NotLiveOutside(s, op.h);
    }
  }

  lemma NotLiveOutside(s: State, h: nat)
    requires HasFields(s, h) && !IsLive(s, h)
    ensures !s.handles[h].Live?
  {
  }

  /** Objects that are not counted have no name in the ledger. */
  lemma QuietNames(book: Book, handles: Handles, h: nat, handles': Handles)
    requires NotLive(handles, h) && Without(handles, h, handles')
    ensures NamesIn(book, handles') == NamesIn(book, handles)
  {
    hide Without;
    NamesWithout(book, book, handles, h, handles');
    assert h !in NamesIn(book, handles);
  }

  lemma QuietHandles(code: Code, s: State, op: Op)
    requires IsQuiet(s, op) && Enabled(s, op) && !op.SetWord?
    ensures NotLive(s.handles, op.h) && Without(s.handles, op.h, Step(code, s, op).handles)
  {
    hide Release, Shaped;
  }

  /** Every step of every process is a step of the ledger. */
  lemma StepRefines(code: Code, s: State, op: Op)
    requires Inv(s) && Enabled(s, op) && Guard(code, s, op)
    ensures InOrder(s) && Inv(Step(code, s, op)) && InOrder(Step(code, s, op))
    ensures LedgerStep(LedgerOf(s), |s.t.ds|, s.maxLen, op, LedgerOf(Step(code, s, op)))
  {
    hide Step, Guard, Enabled, Inv, InOrder, LedgerOf, LedgerStep;
    StepKeepsIff(code, s, op);
    if op.GetBuffer? {
      GetOnLedger(code, s, op);
    } else if op.Copy? || op.AssignCopy? {
      ShareOnLedger(code, s, op);
    } else if (op.Destroy? || op.AssignFree?) && IsLive(s, op.h) {
      FreeOnLedger(code, s, op);
    } else {
      QuietOnLedger(code, s, op);
    }
  }

  /** The sizes never change. */
  lemma SizesKept(code: Code, s: State, op: Op)
    requires Enabled(s, op)
    ensures |Step(code, s, op).t.ds| == |s.t.ds| && Step(code, s, op).maxLen == s.maxLen
  {
    hide Get, Release, Shaped;
    if op.GetBuffer? { ShapedForAll(s, 0, op.p); }
  }

  lemma InvInOrder(s: State)
    requires Inv(s)
    ensures InOrder(s)
  {
    hide Consistent, Wf, Shaped, InOrder;
    var free, full :| Explains(s, free, full);
    InvOk(s, free, full);
  }

  lemma {:induction false} RunRefines(code: Code, s: State, ops: seq<Op>)
    requires Inv(s) && IsRun(code, s, ops)
    ensures InOrder(s) && InOrder(Final(code, s, ops))
    ensures LedgerRun(LedgerOf(s), |s.t.ds|, s.maxLen, ops, LedgerOf(Final(code, s, ops)))
    decreases |ops|
  {
    hide Step, Guard, Enabled, Inv, InOrder, LedgerOf, LedgerStep;
    InvInOrder(s);
    if ops != [] {
      var s' := Step(code, s, ops[0]);
      StepRefines(code, s, ops[0]);
      SizesKept(code, s, ops[0]);
      RunRefines(code, s', ops[1..]);
      assert LedgerStep(LedgerOf(s), |s.t.ds|, s.maxLen, ops[0], LedgerOf(s'));
    }
  }

  lemma FreshLedger(n: nat, maxLen: nat, segments: map<int, Segment>, next: nat)
    requires n > 0 && maxLen > 0 && SegmentsOk(map[], segments, next)
    ensures var s := Fresh(n, maxLen, segments, next);
            && Inv(s) && |s.t.ds| == n && InOrder(s) && LedgerOf(s) == Ledger(map[], map[])
  {
    hide Wf, BookOf, Consistent, Shaped, Initial, InOrder, LedgerOf;
    FreshExplained(n, maxLen, segments, next);
    FreshInv(n, maxLen, segments, next);
    var s := Fresh(n, maxLen, segments, next);
    assert |s.t.ds| == n by { InitialSize(n, maxLen); }
    hide Inv, Fresh;
    LedgerIs(s, UpTo(n), []);
  }

  lemma InitialSize(n: nat, maxLen: nat)
    ensures |Initial(n, maxLen).ds| == n
  {
  }

  // --------------------------------------------------------------- the ledger by itself

  ghost function Holders(names: map<nat, seq<char>>, n: seq<char>): set<nat> {
    set h | h in names && names[h] == n
  }

  /** An entry counts the handles that have its name, there is no entry without one, and no more than capacity. */
  ghost predicate Balanced(a: Ledger, capacity: nat) {
    && |a.entries| <= capacity
    && (forall n :: n in a.entries ==> a.entries[n].count == |Holders(a.names, n)| && a.entries[n].count > 0)
    && (forall h :: h in a.names ==> a.names[h] in a.entries)
  }

  lemma HoldersAdded(names: map<nat, seq<char>>, h: nat, n: seq<char>, m: seq<char>)
    requires h !in names
    ensures Holders(names[h := n], m) == if m == n then Holders(names, m) + {h} else Holders(names, m)
    ensures h !in Holders(names, m)
  {
  }

  lemma HoldersDropped(names: map<nat, seq<char>>, h: nat, m: seq<char>)
    requires h in names
    ensures Holders(names - {h}, m) == if m == names[h] then Holders(names, m) - {h} else Holders(names, m)
    ensures h in Holders(names, names[h])
  {
  }

  lemma RaisedBalances(a: Ledger, h: nat, n: seq<char>, capacity: nat)
    requires Balanced(a, capacity) && h !in a.names && n in a.entries
    ensures Balanced(Ledger(Raised(a.entries, n), a.names[h := n]), capacity)
  {
    assert Raised(a.entries, n).Keys == a.entries.Keys;
    hide Holders;
    var b := Ledger(Raised(a.entries, n), a.names[h := n]);
    forall m | m in b.entries ensures b.entries[m].count == |Holders(b.names, m)| && b.entries[m].count > 0 {
      HoldersAdded(a.names, h, n, m);
    }
  }

  lemma EnteredBalances(a: Ledger, h: nat, n: seq<char>, size: nat, capacity: nat)
    requires Balanced(a, capacity) && h !in a.names && n !in a.entries && |a.entries| != capacity
    ensures Balanced(Ledger(a.entries[n := Entry(size, 1)], a.names[h := n]), capacity)
  {
    EnteredSize(a.entries, n, Entry(size, 1));
    NobodyHolds(a, capacity, n);
    hide Holders;
    var b := Ledger(a.entries[n := Entry(size, 1)], a.names[h := n]);
    forall m | m in b.entries ensures b.entries[m].count == |Holders(b.names, m)| && b.entries[m].count > 0 {
      HoldersAdded(a.names, h, n, m);
    }
  }

  lemma NobodyHolds(a: Ledger, capacity: nat, n: seq<char>)
    requires Balanced(a, capacity) && n !in a.entries
    ensures Holders(a.names, n) == {}
  {
  }

  lemma EnteredSize(d: Directory, n: seq<char>, e: Entry)
    requires n !in d
    ensures |d[n := e]| == |d| + 1
  {
    assert d[n := e].Keys == d.Keys + {n};
  }

  lemma LoweredBalances(a: Ledger, h: nat, capacity: nat)
    requires Balanced(a, capacity) && h in a.names
    ensures a.names[h] in a.entries
    ensures Balanced(Ledger(Lowered(a.entries, a.names[h]), a.names - {h}), capacity)
  {
    hide Holders, Lowered;
    var n := a.names[h];
    LoweredSize(a.entries, n);
    OthersNamed(a, h, capacity);
    var b := Ledger(Lowered(a.entries, n), a.names - {h});
    forall m | m in b.entries ensures b.entries[m].count == |Holders(b.names, m)| && b.entries[m].count > 0 {
      LoweredAt(a.entries, n, m);
      LessHeld(a.names, h, m);
    }
  }

  lemma LessHeld(names: map<nat, seq<char>>, h: nat, m: seq<char>)
    requires h in names
    ensures |Holders(names - {h}, m)| == |Holders(names, m)| - if m == names[h] then 1 else 0
  {
    HoldersDropped(names, h, m);
    hide Holders;
  }

  lemma LoweredAt(d: Directory, n: seq<char>, m: seq<char>)
    requires n in d && m in Lowered(d, n)
    ensures m in d && Lowered(d, n)[m].count == d[m].count - (if m == n then 1 else 0) && (m == n ==> d[m].count > 1)
  {
  }

  lemma LoweredSize(d: Directory, n: seq<char>)
    requires n in d
    ensures |Lowered(d, n)| <= |d|
  {
    SubsetSize(Lowered(d, n).Keys, d.Keys);
  }

  /** When the last handle with a name goes, no other handle has that name. */
  lemma OthersNamed(a: Ledger, h: nat, capacity: nat)
    requires Balanced(a, capacity) && h in a.names
    ensures forall g :: g in a.names && g != h ==> a.names[g] in Lowered(a.entries, a.names[h])
  {
    var n := a.names[h];
    HoldersDropped(a.names, h, n);
    if a.entries[n].count <= 1 { assert |Holders(a.names, n) - {h}| == 0; }
    forall g | g in a.names && g != h ensures a.names[g] in Lowered(a.entries, n) {
      assert a.names[g] == n ==> g in Holders(a.names, n) - {h};
    }
  }

  lemma SubsetSize<T>(a: set<T>, b: set<T>)
    requires a <= b
    ensures |a| <= |b|
  {
    assert b == a + (b - a);
  }

  /** Every step of the ledger keeps the balance. */
  lemma StepBalances(a: Ledger, capacity: nat, maxLen: nat, op: Op, b: Ledger)
    requires Balanced(a, capacity) && LedgerStep(a, capacity, maxLen, op, b)
    ensures Balanced(b, capacity)
  {
    hide Balanced, Holders, Name, Raised, Lowered;
    match op {
      case GetBuffer(h, _, id, bytes, _, attached) =>
        var n := Name(id, maxLen);
        if n in a.entries && b != a {
          RaisedBalances(a, h, n, capacity);
          RaisedIs(a.entries, n);
        } else if b != a {
          EnteredBalances(a, h, n, bytes, capacity);
        }
      case Copy(h, o) => SharedBalances(a, h, o, b, capacity);
      case AssignCopy(h, o) => SharedBalances(a, h, o, b, capacity);
      case AssignFree(h) => if h in a.names { LoweredBalances(a, h, capacity); }
      case Destroy(h) => if h in a.names { LoweredBalances(a, h, capacity); }
      case _ =>
    }
  }

  lemma RaisedIs(d: Directory, n: seq<char>)
    requires n in d
    ensures Raised(d, n) == d[n := Entry(d[n].size, d[n].count + 1)]
  {
  }

  lemma SharedBalances(a: Ledger, h: nat, o: nat, b: Ledger, capacity: nat)
    requires Balanced(a, capacity) && Shares(a, h, o, b)
    ensures Balanced(b, capacity)
  {
    hide Balanced, Raised;
    var n :| n in a.entries && b == Ledger(Raised(a.entries, n), a.names[h := n]);
    RaisedBalances(a, h, n, capacity);
  }

  lemma {:induction false} RunBalances(a: Ledger, capacity: nat, maxLen: nat, ops: seq<Op>, b: Ledger)
    requires Balanced(a, capacity) && LedgerRun(a, capacity, maxLen, ops, b)
    ensures Balanced(b, capacity)
    decreases |ops|
  {
    hide Balanced, LedgerStep;
    if ops != [] {
      var m :| LedgerStep(a, capacity, maxLen, ops[0], m) && LedgerRun(m, capacity, maxLen, ops[1..], b);
      StepBalances(a, capacity, maxLen, ops[0], m);
      RunBalances(m, capacity, maxLen, ops[1..], b);
    }
  }

  // ------------------------------------------------------------------ the main result

  /** Every run from a fresh table is a run of the ledger from nothing, and ends with the ledger in balance. */
  lemma EveryRunRefines(code: Code, n: nat, maxLen: nat, segments: map<int, Segment>, next: nat, ops: seq<Op>)
    requires n > 0 && maxLen > 0 && SegmentsOk(map[], segments, next)
    requires IsRun(code, Fresh(n, maxLen, segments, next), ops)
    ensures var s := Final(code, Fresh(n, maxLen, segments, next), ops);
            InOrder(s) && LedgerRun(Ledger(map[], map[]), n, maxLen, ops, LedgerOf(s)) && Balanced(LedgerOf(s), n)
  {
    hide Inv, InOrder, LedgerOf, LedgerRun, IsRun, Final;
    FreshLedger(n, maxLen, segments, next);
    var s0 := Fresh(n, maxLen, segments, next);
    RunRefines(code, s0, ops);
    RunBalances(Ledger(map[], map[]), n, maxLen, ops, LedgerOf(Final(code, s0, ops)));
  }

  // ------------------------------------------------------------- which handles are on the same buffer

  lemma NameStays(a: Ledger, capacity: nat, maxLen: nat, op: Op, b: Ledger, h: nat)
    requires LedgerStep(a, capacity, maxLen, op, b) && h in a.names && !Writes(op, h)
    ensures h in b.names && b.names[h] == a.names[h]
  {
  }

  /** A handle that is left alone stands for the same name all along. */
  lemma {:induction false} NameStaysAlong(a: Ledger, capacity: nat, maxLen: nat, ops: seq<Op>, b: Ledger, h: nat)
    requires LedgerRun(a, capacity, maxLen, ops, b) && h in a.names
    requires forall k :: 0 <= k < |ops| ==> !Writes(ops[k], h)
    ensures h in b.names && b.names[h] == a.names[h]
    decreases |ops|
  {
    hide LedgerStep, Writes;
    if ops != [] {
      var m :| LedgerStep(a, capacity, maxLen, ops[0], m) && LedgerRun(m, capacity, maxLen, ops[1..], b);
      NameStays(a, capacity, maxLen, ops[0], m, h);
      NameStaysAlong(m, capacity, maxLen, ops[1..], b, h);
    }
  }

  /** What getBuffer hands out stands for the name it was asked for. */
  lemma HandedName(code: Code, s: State, op: Op)
    requires op.GetBuffer? && Inv(s) && Enabled(s, op) && Guard(code, s, op) && IsLive(Step(code, s, op), op.h)
    ensures Inv(Step(code, s, op)) && InOrder(Step(code, s, op))
    ensures var names := LedgerOf(Step(code, s, op)).names;
            op.h in names && names[op.h] == Name(op.id, s.maxLen)
  {
    hide Step, Guard, Consistent, Wf, BookOf, Shaped, Enabled, InOrder, LedgerOf, NamesIn, Name, GetOnMap;
    StepRefines(code, s, op);
    var s' := Step(code, s, op);
    var free, full :| Explains(s', free, full);
    LedgerIs(s', free, full);
    LiveNamed(s', op.h, free, full);
  }

  /** Two live handles are on the same descriptor exactly when they stand for the same name. */
  lemma SameNameSameBuffer(s: State, g: nat, h: nat)
    requires Inv(s) && InOrder(s) && IsLive(s, g) && IsLive(s, h)
    ensures g in LedgerOf(s).names && h in LedgerOf(s).names
    ensures s.handles[g].at.desc == s.handles[h].at.desc <==> LedgerOf(s).names[g] == LedgerOf(s).names[h]
  {
    hide Consistent, Wf, BookOf, Shaped, InOrder, LedgerOf, NamesIn, Names;
    var free, full :| Explains(s, free, full);
    LedgerIs(s, free, full);
    LiveNamed(s, g, free, full);
    LiveNamed(s, h, free, full);
    NamesOf(BookOf(s.maxLen, s.t, full), s.handles, g);
    NamesOf(BookOf(s.maxLen, s.t, full), s.handles, h);
  }

  /** Two calls of getBuffer, by any processes at any two moments of any run, while the first handle is alive: they
      get the same descriptor exactly when their names agree in every character that counts. */
  lemma SameBufferIff(code: Code, s: State, first: Op, ops: seq<Op>, second: Op)
    requires first.GetBuffer? && second.GetBuffer? && Inv(s)
    requires Enabled(s, first) && Guard(code, s, first) && IsLive(Step(code, s, first), first.h)
    requires IsRun(code, Step(code, s, first), ops) && forall k :: 0 <= k < |ops| ==> !Writes(ops[k], first.h)
    requires var s2 := Final(code, Step(code, s, first), ops);
             Enabled(s2, second) && Guard(code, s2, second) && IsLive(Step(code, s2, second), second.h)
    ensures var s3 := Step(code, Final(code, Step(code, s, first), ops), second);
            && IsLive(s3, first.h)
            && (s3.handles[first.h].at.desc == s3.handles[second.h].at.desc <==> Alike(first.id, second.id, s.maxLen))
  {
    hide Step, Guard, Enabled, Inv, IsRun, Final, IsLive, LedgerRun, LedgerStep, InOrder, LedgerOf, Alike, Name, Writes;
    var s1 := Step(code, s, first);
    HandedName(code, s, first);
    RunRefines(code, s1, ops);
    RunKeepsInv(code, s1, ops);
    var s2 := Final(code, s1, ops);
    NameStaysAlong(LedgerOf(s1), |s1.t.ds|, s1.maxLen, ops, LedgerOf(s2), first.h);
    SecondBuffer(code, s2, first.h, second);
    SizesKept(code, s, first);
    RunSizes(code, s1, ops);
    SameNameIff(first.id, second.id, s.maxLen);
  }

  lemma SecondBuffer(code: Code, s: State, h: nat, op: Op)
    requires op.GetBuffer? && Inv(s) && InOrder(s) && Enabled(s, op) && Guard(code, s, op)
    requires IsLive(Step(code, s, op), op.h) && h in LedgerOf(s).names
    ensures var s' := Step(code, s, op);
            && IsLive(s', h)
            && (s'.handles[h].at.desc == s'.handles[op.h].at.desc <==>
                  LedgerOf(s).names[h] == Name(op.id, s.maxLen))
  {
    NotNew(s, h, op);
    hide Step, Guard, Enabled, Inv, IsLive, LedgerStep, InOrder, LedgerOf, Name;
    var s' := Step(code, s, op);
    StepRefines(code, s, op);
    HandedName(code, s, op);
    NameStays(LedgerOf(s), |s.t.ds|, s.maxLen, op, LedgerOf(s'), h);
    NamedIsLive(s', h);
    SameNameSameBuffer(s', h, op.h);
  }

  lemma NotNew(s: State, h: nat, op: Op)
    requires op.GetBuffer? && Inv(s) && InOrder(s) && Enabled(s, op) && h in LedgerOf(s).names
    ensures !Writes(op, h)
  {
    hide Consistent, Wf, BookOf, Shaped;
    NamedIsLive(s, h);
  }

  lemma NamedIsLive(s: State, h: nat)
    requires Inv(s) && InOrder(s) && h in LedgerOf(s).names
    ensures IsLive(s, h)
  {
    hide Consistent, Wf, BookOf, Shaped, InOrder, LedgerOf, NamesIn, Names;
    var free, full :| Explains(s, free, full);
    LedgerIs(s, free, full);
    LiveNamed(s, h, free, full);
    LiveInTable(s, h, free, full);
  }

  lemma {:induction false} RunSizes(code: Code, s: State, ops: seq<Op>)
    requires IsRun(code, s, ops)
    ensures Final(code, s, ops).maxLen == s.maxLen
    decreases |ops|
  {
    hide Step, Guard, Enabled;
    if ops != [] {
      SizesKept(code, s, ops[0]);
      RunSizes(code, Step(code, s, ops[0]), ops[1..]);
    }
  }
}
