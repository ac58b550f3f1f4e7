/** The bitmap allocator (include/cppgenerics/IPC_Allocator.h): one bit per element of a storage
    buffer, first fit, pointers converted to element indices and back. */
module Allocator {
  import opened Common
  import opened BitWords
  import opened FirstFit
  import opened BitBuffer

  const INT_MAX := 0x7FFF_FFFF

  /** What find() returns for a number of elements there can be. */
  ghost function Found(v: seq<bool>, num: nat): (idx: int)
    ensures idx == ToInt32(First(v, num))
  {
    ToInt32(First(v, num))
  }

  /** allocate()'s loop variable is an int that does not overflow; the index it is added to is a long. */
  predicate AllocateFits(num: nat) {
    num <= INT_MAX
  }

  /** deallocate()'s loop variable, which starts at the index and is raised once past its last value, is one too. */
  predicate DeallocateFits(idx: nat, num: nat) {
    idx + num <= INT_MAX
  }

  /** Whether writing the existing positions from .. from + num - 1 shows at position k. */
  ghost predicate Hit(shift: Code, n: nat, from: nat, num: nat, k: nat) {
    exists j: nat :: from <= j < from + num && j < n && Aliases(shift, j, k)
  }

  /** v with the existing positions from .. from + num - 1 set to val, and what aliases them. */
  ghost function Filled(shift: Code, v: seq<bool>, from: nat, num: nat, val: bool): (r: seq<bool>)
    ensures |r| == |v|
    ensures forall k: nat :: k < |v| ==> r[k] == if Hit(shift, |v|, from, num, k) then val else v[k]
  {
    seq(|v|, k requires 0 <= k < |v| => if Hit(shift, |v|, from, num, k) then val else v[k])
  }

  /** From v to w, exactly the bits that alias an existing position from .. from + num - 1 have become FREE. */
  ghost predicate FreesThese(shift: Code, v: seq<bool>, from: nat, num: nat, w: seq<bool>) {
    |w| == |v| && forall j: nat :: j < |v| ==>
      (w[j] <==> v[j] || exists i: nat :: from <= i < from + num && i < |v| && Aliases(shift, i, j))
  }

  /** The effect of one more write. */
  lemma FilledMore(shift: Code, v: seq<bool>, from: nat, num: nat, val: bool, w: seq<bool>, w': seq<bool>)
    requires from + num < |v| && w == Filled(shift, v, from, num, val) && |w'| == |v|
    requires forall k: nat :: k < |v| ==> w'[k] == if Aliases(shift, from + num, k) then val else w[k]
    ensures w' == Filled(shift, v, from, num + 1, val)
  {
    hide Aliases;
    forall k: nat | k < |v|
      ensures Hit(shift, |v|, from, num + 1, k) <==> Hit(shift, |v|, from, num, k) || Aliases(shift, from + num, k)
    {
      if Hit(shift, |v|, from, num, k) {
        var j: nat :| from <= j < from + num && j < |v| && Aliases(shift, j, k);
        assert from <= j < from + num + 1;
      }
    }
  }

  lemma FilledNone(shift: Code, v: seq<bool>, from: nat, val: bool)
    ensures Filled(shift, v, from, 0, val) == v
  {
  }

  /** Positions that do not exist add nothing. */
  lemma FilledBeyond(shift: Code, v: seq<bool>, from: nat, num: nat, more: nat, val: bool)
    requires from + num >= |v| && num <= more
    ensures Filled(shift, v, from, num, val) == Filled(shift, v, from, more, val)
  {
    forall k: nat | k < |v| ensures Hit(shift, |v|, from, num, k) <==> Hit(shift, |v|, from, more, k) {
      if j: nat :| from <= j < from + more && j < |v| && Aliases(shift, j, k) {
        assert from <= j < from + num;
      }
    }
  }

  /** mem with count bytes from an offset on set to zero. */
  function Cleared(mem: seq<bv8>, from: nat, count: nat): (r: seq<bv8>)
    ensures |r| == |mem|
    ensures forall b :: 0 <= b < |mem| ==> r[b] == if from <= b < from + count then 0 else mem[b]
  {
    seq(|mem|, b requires 0 <= b < |mem| => if from <= b < from + count then 0 else mem[b])
  }

  /** The first bit deallocate() sets: as written, its loop variable starts at idx and is added to idx. */
  function FreeFrom(code: Code, idx: nat): nat {
    if code.Repaired? then idx else 2 * idx
  }

  /** Whether one of deallocate()'s calls of set() throws, before the storage is cleared. */
  predicate FreeThrows(code: Code, n: nat, idx: nat, num: nat) {
    num > 0 && FreeFrom(code, idx) + num > n
  }

  /** Which bits and when it throws, in numbers. */
  lemma FreesThoseIs(shift: Code, code: Code, v: seq<bool>, idx: nat, num: nat)
    ensures var from := if code.AsWritten? then 2 * idx else idx;
            && FreesThese(shift, v, from, num, Filled(shift, v, FreeFrom(code, idx), num, true))
            && (FreeThrows(code, |v|, idx, num) <==> num > 0 && from + num > |v|)
  {
    hide Aliases;
  }

  /** A pointer made from an index gives the index back, whatever the element size. */
  lemma PointerRoundTrip(base: nat, e: nat, idx: nat)
    requires e > 0
    ensures (base + idx * e - base) / e == idx && (base + idx * e - base) % e == 0
  {
    DivMod(e, idx, 0);
  }

  lemma DivMod(e: nat, q: nat, r: nat)
    requires r < e
    ensures (q * e + r) / e == q && (q * e + r) % e == r
  {
    var a := q * e + r;
    assert a == (a / e) * e + a % e;
    if a / e < q { MulLe(a / e + 1, q, e); }
    if a / e > q { MulLe(q + 1, a / e, e); }
  }

  lemma MulLe(x: int, y: int, e: nat)
    requires x <= y
    ensures x * e <= y * e
  {
  }

  class Allocator {
    const code: Code              // deallocate()'s loop
    const e: nat                  // sizeof(T)
    const base: nat               // where the storage is mapped
    const storage: array<bv8>     // the bytes of m_storageBuffer
    const model: BitBuffer

    function NumElements(): nat
      requires e > 0
    {
      storage.Length / e
    }

    /** The bitmap has one bit per element. */
    ghost predicate Valid()
      reads this, model, model.storage
    {
      && e > 0 && 0 < NumElements()
      && model.Valid() && model.storage != null
      && model.numElements == NumElements()
    }

    ghost function Bits(): (v: seq<bool>)
      requires Valid()
      reads this, model, model.storage
      ensures |v| == NumElements()
    {
      model.Bits()
    }

    /** Sizes the bitmap by the storage and initialises it; getBuffer() refuses a bitmap of 0 bytes. */
    constructor (shift: Code, code: Code, e: nat, base: nat, storage: array<bv8>, units: array<bv64>)
      requires e > 0 && 0 < storage.Length / e < SIZE_T
      requires 8 * units.Length == SizeBytes(storage.Length / e)
      modifies units
      ensures Valid() && fresh(model) && model.storage == units && model.code == shift
      ensures this.code == code && this.e == e && this.base == base && this.storage == storage
      ensures Bits() == seq(NumElements(), _ => true)
      ensures NumElements() <= 64 * units.Length < NumElements() + 64
    {
      SizeIsLeast(storage.Length / e, units.Length);
      this.code := code;
      this.e := e;
      this.base := base;
      this.storage := storage;
      var model := new BitBuffer(shift, storage.Length / e, units);
      this.model := model;
      new;
      this.model.Init();
    }

    /** In stores of more than 2^31 - 1 elements, the index found may not survive in the int. */
    method Allocate(num: nat) returns (r: Result<Option<nat>>)
      requires Valid() && num < SIZE_T
      requires num <= NumElements() && Found(Bits(), num) >= 0 ==> AllocateFits(num)
      modifies model.storage
      ensures Valid()
      ensures var v := old(Bits());
              var idx := Found(v, num);
              if num > |v| then r == Throw(NumberOutOfRange) && Bits() == v
              else if idx < 0 then r == Ok(None) && Bits() == v
              else r == Ok(Some(base + idx * e)) && Bits() == Filled(model.code, v, idx, num, false)
    {
      hide View, First, Aliases, Hit, Filled;
      ghost var v := Bits();
      var found := model.Find(num);
      if found.Throw? {
        return Throw(NumberOutOfRange);
      }
      var idx := found.value;
      Int32KeepsIff(First(v, num));
      if idx < 0 {
        return Ok(None);
      }
      FilledNone(model.code, v, idx, false);
      for i := 0 to num
        invariant Valid() && Bits() == Filled(model.code, v, idx, i, false)
      {
        ghost var w := Bits();
        var done := model.Set(idx + i, false);
        FilledMore(model.code, v, idx, i, false, w, Bits());
      }
      var bytesOffset := idx * e;
      return Ok(Some(base + bytesOffset));
    }

    /** p may point anywhere behind the start of the storage, as long as what is cleared is inside. The loop as
        written sets the bits from twice the index on. */
    method Deallocate(p: nat, num: nat) returns (r: Result<()>)
      requires Valid() && base <= p && DeallocateFits((p - base) / e, num)
      requires !FreeThrows(code, NumElements(), (p - base) / e, num) ==> p - base + num * e <= storage.Length
      modifies storage, model.storage
      ensures Valid()
      ensures var idx := (p - base) / e;
              && Bits() == Filled(model.code, old(Bits()), FreeFrom(code, idx), num, true)
              && (r == if FreeThrows(code, NumElements(), idx, num) then Throw(IndexOutOfRange) else Ok(()))
              && storage[..] == if r.Ok? then Cleared(old(storage[..]), p - base, num * e) else old(storage[..])
      ensures var idx := (p - base) / e;
              var from := if code.AsWritten? then 2 * idx else idx;
              && (r.Throw? <==> num > 0 && from + num > NumElements())
              && FreesThese(model.code, old(Bits()), from, num, Bits())
    {
      hide View, Cleared, Filled, FreeFrom, FreeThrows, FreesThese;
      var idx := (p - base) / e;
      ghost var v := Bits();
      r := SetFree(idx, num);
      FreesThoseIs(model.code, code, v, idx, num);
      if r.Ok? {
        Clear(p - base, num * e);
      }
    }

    /** The loop of deallocate(). */
    method SetFree(idx: nat, num: nat) returns (r: Result<()>)
      requires Valid() && DeallocateFits(idx, num)
      modifies model.storage
      ensures Valid()
      ensures Bits() == Filled(model.code, old(Bits()), FreeFrom(code, idx), num, true)
      ensures r == if FreeThrows(code, NumElements(), idx, num) then Throw(IndexOutOfRange) else Ok(())
    {
      hide View, Aliases, Hit, Filled;
      ghost var v := Bits();
      ghost var from := FreeFrom(code, idx);
      FilledNone(model.code, v, from, true);
      var i := idx;
      while i < idx + num
        invariant idx <= i <= idx + num
        invariant Valid() && Bits() == Filled(model.code, v, from, i - idx, true)
        invariant i > idx ==> from + (i - idx) <= NumElements()
      {
        ghost var w := Bits();
        var done := model.Set(if code.Repaired? then i else idx + i, true);
        if done.Throw? {
          FilledBeyond(model.code, v, from, i - idx, num, true);
          return Throw(IndexOutOfRange);
        }
        FilledMore(model.code, v, from, i - idx, true, w, Bits());
        i := i + 1;
      }
      return Ok(());
    }

    /** The call of memset(). */
    method Clear(offset: nat, count: nat)
      requires offset + count <= storage.Length
      modifies storage
      ensures storage[..] == Cleared(old(storage[..]), offset, count)
    {
      forall b | offset <= b < offset + count {
        storage[b] := 0;
      }
    }
  }
}
