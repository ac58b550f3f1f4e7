/** The table of named mutexes (src/IPC_MutexManager.cpp): slots are taken one after the other
    and never given back. Calls are taken one at a time, since getMutex has no lock of its own. */
module MutexManager {
  import opened Common
  import opened CNames
  import FutexMutex

  datatype Slot = Slot(ftx: int, id: seq<char>)

  /** The fixed sizes: how many slots, and how many characters of a name count. */
  datatype Sizes = Sizes(capacity: nat, maxLen: nat)

  /** Every slot has room for a name and its final NUL. */
  ghost predicate Shaped(z: Sizes, slots: seq<Slot>) {
    z.maxLen > 0 && |slots| == z.capacity &&
    forall i :: 0 <= i < |slots| ==> |slots[i].id| == z.maxLen + 1
  }

  function NameOf(z: Sizes, slot: Slot): seq<char> {
    Name(slot.id, z.maxLen)
  }

  /** The first slot with a given name; the number of slots if there is none. */
  function FirstNamed(z: Sizes, slots: seq<Slot>, name: seq<char>): (r: nat)
    ensures r <= |slots|
    ensures r < |slots| ==> NameOf(z, slots[r]) == name
    ensures forall j :: 0 <= j < r ==> NameOf(z, slots[j]) != name
  {
    if slots == [] || NameOf(z, slots[0]) == name then 0 else
    var r := FirstNamed(z, slots[1..], name);
    assert forall j :: 0 < j < |slots| ==> slots[j] == slots[1..][j - 1];
    r + 1
  }

  /** What getMutex does to the table, and the slot whose word the returned mutex uses. */
  ghost function GetSpec(z: Sizes, slots: seq<Slot>, id: seq<char>): (r: (seq<Slot>, Result<nat>))
    requires Shaped(z, slots)
    ensures Shaped(z, r.0)
  {
    var found := FirstNamed(z, slots, Name(id, z.maxLen));
    if found < |slots| then
      // a Mutex object on a word in use
      (slots[found := slots[found].(ftx := FutexMutex.Construct(slots[found].ftx, false))], Ok(found)) else
    var free := FirstNamed(z, slots, []);
    if free == |slots| then (slots, Throw(TooManyMutexes)) else
    var slot := Slot(FutexMutex.Construct(slots[free].ftx, true),
                     StrNCpy(slots[free].id, CStr(id), z.maxLen));
    (slots[free := slot], Ok(free))
  }

  class Manager {
    const z: Sizes
    const slots: array<Slot>   // the contents of m_buf

    ghost predicate Valid()
      reads this, slots
    {
      Shaped(z, slots[..])
    }

    /** A new segment is zero. */
    constructor (z: Sizes)
      requires z.maxLen > 0
      ensures Valid() && fresh(slots) && this.z == z
      ensures forall i :: 0 <= i < slots.Length ==> slots[i].ftx == 0 && NameOf(z, slots[i]) == []
    {
      this.z := z;
      slots := new Slot[z.capacity](_ => Slot(0, seq(z.maxLen + 1, _ => NUL)));
    }

    method FindDescriptor(id: seq<char>) returns (r: Option<nat>)
      requires Valid()
      ensures r.None? ==> forall i :: 0 <= i < slots.Length ==> NameOf(z, slots[i]) != Name(id, z.maxLen)
      ensures r.Some? ==>
                && r.value < slots.Length && NameOf(z, slots[r.value]) == Name(id, z.maxLen)
                && forall i :: 0 <= i < r.value ==> NameOf(z, slots[i]) != Name(id, z.maxLen)
      ensures r.None? ==> forall i :: 0 <= i < slots.Length ==> !Alike(slots[i].id, id, z.maxLen)
      ensures r.Some? ==>
                && Alike(slots[r.value].id, id, z.maxLen)
                && forall i :: 0 <= i < r.value ==> !Alike(slots[i].id, id, z.maxLen)
    {
      for i := 0 to slots.Length
        invariant forall j :: 0 <= j < i ==>
                    NameOf(z, slots[j]) != Name(id, z.maxLen) && !Alike(slots[j].id, id, z.maxLen)
      {
        EqualIffSameName(id, slots[i].id, z.maxLen);
        SameNameIff(slots[i].id, id, z.maxLen);
        if StrNEqual(CStr(id), slots[i].id, z.maxLen) {
          return Some(i);
        }
      }
      return None;
    }

    method FindFreeDescriptor() returns (r: Option<nat>)
      requires Valid()
      ensures r.None? ==> forall i :: 0 <= i < slots.Length ==> NameOf(z, slots[i]) != []
      ensures r.Some? ==>
                && r.value < slots.Length && NameOf(z, slots[r.value]) == []
                && forall i :: 0 <= i < r.value ==> NameOf(z, slots[i]) != []
    {
      for i := 0 to slots.Length
        invariant forall j :: 0 <= j < i ==> NameOf(z, slots[j]) != []
      {
        if slots[i].id[0] == NUL {
          return Some(i);
        }
      }
      return None;
    }

    method GetMutex(id: seq<char>) returns (r: Result<nat>)
      requires Valid()
      modifies slots
      ensures Valid()
      ensures (slots[..], r) == GetSpec(z, old(slots[..]), id)
    {
      ghost var before := slots[..];
      var found := FindDescriptor(id);
      if found.Some? {
        var i := found.value;
        slots[i] := slots[i].(ftx := FutexMutex.Construct(slots[i].ftx, false));
        r := Ok(i);
        assert slots[..] == before[i := slots[i]];
      } else {
        var free := FindFreeDescriptor();
        if free.None? {
          r := Throw(TooManyMutexes);
        } else {
          var i := free.value;
          slots[i] := slots[i].(id := StrNCpy(slots[i].id, CStr(id), z.maxLen));
          slots[i] := slots[i].(ftx := FutexMutex.Construct(slots[i].ftx, true));
          r := Ok(i);
          assert slots[..] == before[i := slots[i]];
        }
      }
    }
  }

  // ---------------------------------------------------------------- whole runs

  /** Used slots form a prefix, and no two of them have the same name. */
  ghost predicate Inv(z: Sizes, slots: seq<Slot>) {
    && Shaped(z, slots)
    && (forall i, j :: 0 <= i < j < |slots| && NameOf(z, slots[j]) != [] ==>
          NameOf(z, slots[i]) != [] && NameOf(z, slots[i]) != NameOf(z, slots[j]))
  }

  /** Between calls the owners of the mutexes lock and unlock them. */
  datatype Op = Get(id: seq<char>) | SetWord(slot: nat, word: int)

  ghost function Step(z: Sizes, slots: seq<Slot>, op: Op): (r: seq<Slot>)
    requires Shaped(z, slots)
    ensures Shaped(z, r)
  {
    match op
    case Get(id) => GetSpec(z, slots, id).0
    case SetWord(i, w) => if i < |slots| then slots[i := slots[i].(ftx := w)] else slots
  }

  /** Locking and unlocking changes one word, to any value. */
  lemma SetWordIs(z: Sizes, slots: seq<Slot>, i: nat, word: int)
    requires Shaped(z, slots)
    ensures var slots' := Step(z, slots, SetWord(i, word));
            forall j :: 0 <= j < |slots| ==> slots'[j] == Slot(if j == i then word else slots[j].ftx, slots[j].id)
  {
  }

  /** A call changes at most one slot, a free one that it names and sets to UNLOCKED; every
      other slot, its lock state included, stays. It throws exactly when the name is
      new and every slot has a name already. */
  lemma GetEffect(z: Sizes, slots: seq<Slot>, id: seq<char>)
    requires Inv(z, slots)
    ensures var (slots', r) := GetSpec(z, slots, id);
            var name := Name(id, z.maxLen);
            && Inv(z, slots')
            && (r.Throw? <==> forall i :: 0 <= i < |slots| ==> NameOf(z, slots[i]) != [] && NameOf(z, slots[i]) != name)
            && (r.Throw? ==> slots' == slots)
            && (r.Ok? ==>
                  && r.value < |slots| && NameOf(z, slots'[r.value]) == name
                  && (forall i :: 0 <= i < |slots| && i != r.value ==> slots'[i] == slots[i])
                  && (NameOf(z, slots[r.value]) != name ==>
                        NameOf(z, slots[r.value]) == [] && slots'[r.value].ftx == FutexMutex.UNLOCKED)
                  && (NameOf(z, slots[r.value]) == name ==> slots' == slots))
  {
    var free := FirstNamed(z, slots, []);
    if free < |slots| { CopyStoresName(slots[free].id, id, z.maxLen); }
  }

  ghost function Run(z: Sizes, slots: seq<Slot>, ops: seq<Op>): (r: seq<Slot>)
    requires Shaped(z, slots)
    ensures Shaped(z, r)
    decreases |ops|
  {
    if ops == [] then slots else Run(z, Step(z, slots, ops[0]), ops[1..])
  }

  /** Over any run the invariant stays and a slot that has a name keeps it. */
  lemma {:induction false} RunKeeps(z: Sizes, slots: seq<Slot>, ops: seq<Op>)
    requires Inv(z, slots)
    ensures Inv(z, Run(z, slots, ops))
    ensures forall i :: 0 <= i < |slots| && NameOf(z, slots[i]) != [] ==>
              NameOf(z, Run(z, slots, ops)[i]) == NameOf(z, slots[i])
    decreases |ops|
  {
    if ops != [] {
      if ops[0].Get? { GetEffect(z, slots, ops[0].id); }
      RunKeeps(z, Step(z, slots, ops[0]), ops[1..]);
    }
  }

  /** The main result: two calls at any two moments of any run get the same word exactly when
      their names agree in every character that counts, provided the first name is not empty. */
  lemma StableInjection(z: Sizes, slots: seq<Slot>, first: seq<char>, ops: seq<Op>, second: seq<char>)
    requires Inv(z, slots) && first != [] && first[0] != '\0'
    requires GetSpec(z, slots, first).1.Ok?
    ensures var (slots1, r1) := GetSpec(z, slots, first);
            var (_, r2) := GetSpec(z, Run(z, slots1, ops), second);
            && (r1 == r2 <==> Alike(first, second, z.maxLen))
            && (r1 == r2 <==> Name(first, z.maxLen) == Name(second, z.maxLen))
  {
    SameNameIff(first, second, z.maxLen);
    hide Alike;
    GetEffect(z, slots, first);
    var (slots1, r1) := GetSpec(z, slots, first);
    RunKeeps(z, slots1, ops);
    GetEffect(z, Run(z, slots1, ops), second);
  }

  /** A name of no characters gets a slot that stays free, with the word it had: in a new segment that is LOCKED,
      and nobody has locked it. Any new name gets the same slot next, and unlocks it, whatever the
      first caller has made of its word, a mutex it holds included. */
  lemma EmptyNameCollides(z: Sizes, slots: seq<Slot>, first: seq<char>, word: int, second: seq<char>)
    requires Inv(z, slots) && (first == [] || first[0] == '\0')
    requires FirstNamed(z, slots, []) < |slots|
    requires FirstNamed(z, slots, Name(second, z.maxLen)) == |slots|
    ensures Name(first, z.maxLen) != Name(second, z.maxLen)
    ensures var (slots1, r1) := GetSpec(z, slots, first);
            && slots1 == slots && r1.Ok? && r1.value < |slots| && GetSpec(z, slots1, second).1 == r1
            && ((forall i :: 0 <= i < |slots| && NameOf(z, slots[i]) == [] ==> slots[i].ftx == FutexMutex.LOCKED) ==>
                  slots1[r1.value].ftx == FutexMutex.LOCKED)
    ensures var r1 := GetSpec(z, slots, first).1;
            var (slots2, r2) := GetSpec(z, Step(z, slots, SetWord(r1.value, word)), second);
            r2 == r1 && slots2[r1.value].ftx == FutexMutex.UNLOCKED
  {
    var free := FirstNamed(z, slots, []);
    var held := Step(z, slots, SetWord(free, word));
    FirstNamedSame(z, slots, held, []);
    FirstNamedSame(z, slots, held, Name(second, z.maxLen));
  }

  /** There is a name no slot has yet. */
  ghost predicate SomeNewName(z: Sizes, slots: seq<Slot>) {
    exists id: seq<char> :: FirstNamed(z, slots, Name(id, z.maxLen)) == |slots|
  }

  lemma {:induction false} FirstNamedSame(z: Sizes, slots: seq<Slot>, slots': seq<Slot>, name: seq<char>)
    requires |slots| == |slots'| && forall i :: 0 <= i < |slots| ==> slots[i].id == slots'[i].id
    ensures FirstNamed(z, slots, name) == FirstNamed(z, slots', name)
  {
    if slots != [] { FirstNamedSame(z, slots[1..], slots'[1..], name); }
  }

  /** Where every name has a slot and one slot is free, no call names anything any more. */
  lemma {:induction false} NoNewNames(z: Sizes, slots: seq<Slot>, ops: seq<Op>)
    requires Inv(z, slots) && FirstNamed(z, slots, []) < |slots| && !SomeNewName(z, slots)
    ensures forall i :: 0 <= i < |slots| ==> Run(z, slots, ops)[i].id == slots[i].id
    decreases |ops|
  {
    if ops != [] {
      var slots' := Step(z, slots, ops[0]);
      assert forall i :: 0 <= i < |slots| ==> slots'[i].id == slots[i].id;
      forall name: seq<char> ensures FirstNamed(z, slots', name) == FirstNamed(z, slots, name) {
        FirstNamedSame(z, slots, slots', name);
      }
      if ops[0].Get? { GetEffect(z, slots, ops[0].id); }
      NoNewNames(z, slots', ops[1..]);
    }
  }

  /** The call keeps its promise to the caller who asks for `first`: later calls get the same word
      exactly for the same name. */
  ghost predicate Stable(z: Sizes, slots: seq<Slot>, first: seq<char>)
    requires Shaped(z, slots)
  {
    var (slots1, r1) := GetSpec(z, slots, first);
    forall ops: seq<Op>, second: seq<char> ::
      GetSpec(z, Run(z, slots1, ops), second).1 == r1 <==> Name(first, z.maxLen) == Name(second, z.maxLen)
  }

  lemma NameStart(s: seq<char>, n: nat)
    requires n > 0
    ensures Name(s, n) == [] <==> s == [] || s[0] == '\0'
  {
  }

  lemma NamedIsStable(z: Sizes, slots: seq<Slot>, first: seq<char>)
    requires Inv(z, slots) && GetSpec(z, slots, first).1.Ok? && Name(first, z.maxLen) != []
    ensures Stable(z, slots, first)
  {
    assert Shaped(z, slots);
    hide Inv, Name, FirstNamed;
    var (slots1, r1) := GetSpec(z, slots, first);
    NameStart(first, z.maxLen);
    forall ops: seq<Op>, second: seq<char>
      ensures GetSpec(z, Run(z, slots1, ops), second).1 == r1 <==> Name(first, z.maxLen) == Name(second, z.maxLen)
    {
      StableInjection(z, slots, first, ops, second);
    }
  }

  lemma UnnamedIsStable(z: Sizes, slots: seq<Slot>, first: seq<char>)
    requires Inv(z, slots) && GetSpec(z, slots, first).1.Ok? && Name(first, z.maxLen) == []
    requires !SomeNewName(z, slots)
    ensures Stable(z, slots, first)
  {
    var (slots1, r1) := GetSpec(z, slots, first);
    forall ops: seq<Op>, second: seq<char>
      ensures GetSpec(z, Run(z, slots1, ops), second).1 == r1 <==> Name(first, z.maxLen) == Name(second, z.maxLen)
    {
      assert slots1 == slots && FirstNamed(z, slots, Name(second, z.maxLen)) < |slots|;
      NoNewNames(z, slots, ops);
      FirstNamedSame(z, slots, Run(z, slots, ops), Name(second, z.maxLen));
    }
  }

  /** The exact condition: the name is not empty, or no new name is left that could take the slot. */
  lemma StableIff(z: Sizes, slots: seq<Slot>, first: seq<char>)
    requires Inv(z, slots) && GetSpec(z, slots, first).1.Ok?
    ensures Stable(z, slots, first) <==> Name(first, z.maxLen) != [] || !SomeNewName(z, slots)
  {
    if Name(first, z.maxLen) != [] {
      NamedIsStable(z, slots, first);
    } else if SomeNewName(z, slots) {
      var id: seq<char> :| FirstNamed(z, slots, Name(id, z.maxLen)) == |slots|;
      NameStart(first, z.maxLen);
      EmptyNameCollides(z, slots, first, 0, id);
      assert Run(z, slots, []) == slots;
    } else {
      UnnamedIsStable(z, slots, first);
    }
  }
}
