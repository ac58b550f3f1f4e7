/** The bit buffer (src/BitBuffer.cpp): a fixed number of bits packed in an array of units,
    1 for FREE and 0 for FULL. */
module BitBuffer {
  import opened Common
  import opened Unit64
  import opened BitWords
  import opened FirstFit

  /** checkIdx lets an index pass; the subtraction is one of unsigned 64-bit numbers. */
  predicate IdxPasses(idx: nat, n: nat) {
    !(idx > (n - 1) % SIZE_T)
  }

  /** checkIdx accepts exactly the positions that exist, unless there are none. */
  lemma IdxPassesIff(n: nat)
    requires n < SIZE_T
    ensures (forall idx: nat :: idx < SIZE_T ==> (IdxPasses(idx, n) <==> idx < n)) <==> n > 0
    ensures n == 0 ==> forall idx: nat :: idx < 0x1_0000_0000_0000_0000 ==> IdxPasses(idx, n)
  {
    if n == 0 { assert IdxPasses(0, n); }
  }

  /** A value stored in an int. */
  function ToInt32(x: int): int {
    (x + 0x8000_0000) % 0x1_0000_0000 - 0x8000_0000
  }

  /** find() returns through an int; that changes the result exactly when it needs more than 31 bits. */
  lemma Int32KeepsIff(x: int)
    requires -1 <= x
    ensures ToInt32(x) == x <==> x < 0x8000_0000
    ensures 0x8000_0000 <= x < 0x1_0000_0000 ==> ToInt32(x) < 0
    ensures -1 <= ToInt32(x) ==> ToInt32(x) <= x
    ensures -0x8000_0000 <= ToInt32(x) < 0x8000_0000
    ensures x - ToInt32(x) == 0x1_0000_0000 * ((x + 0x8000_0000) / 0x1_0000_0000)
  {
  }

  class BitBuffer {
    const code: Code
    var storage: array?<bv64>
    var selfAllocated: bool
    var numElements: nat
    var numUnits: nat
    var lastUnitBits: nat

    ghost predicate Valid()
      reads this
    {
      && numElements < SIZE_T
      && numUnits == Units(numElements)
      && lastUnitBits == numElements % UNIT_BITS
      && (storage != null ==> storage.Length >= numUnits)
      && (selfAllocated ==> storage != null)
    }

    /** The units in use. */
    ghost function Words(): (ws: seq<bv64>)
      requires Valid() && storage != null
      reads this, storage
      ensures |ws| == numUnits
    {
      storage[..numUnits]
    }

    ghost function Bits(): (v: seq<bool>)
      requires Valid() && storage != null
      reads this, storage
      ensures |v| == numElements
    {
      View(code, Words(), numElements)
    }

    /** The caller's storage, if any, has at least getSizeBytes(numElements) bytes. */
    constructor (code: Code, numElements: nat, storage: array?<bv64>)
      requires numElements < SIZE_T
      requires storage != null ==> 8 * storage.Length >= SizeBytes(numElements)
      ensures Valid() && !selfAllocated && this.storage == storage
      ensures storage != null ==> forall i: nat :: i < numElements ==> i / 64 < storage.Length
      ensures this.numElements == numElements && this.code == code
    {
      if storage != null { SizeHolds(numElements, storage.Length); }
      this.code := code;
      this.storage := storage;
      this.selfAllocated := false;
      this.numElements := numElements;
      this.lastUnitBits := numElements % UNIT_BITS;
      this.numUnits := if numElements % UNIT_BITS != 0 then numElements / UNIT_BITS + 1 else numElements / UNIT_BITS;
    }

    /** Everything reads FREE afterwards; units outside the buffer stay. */
    method Init()
      requires Valid()
      modifies this`storage, this`selfAllocated, storage
      ensures Valid() && storage != null
      ensures if old(storage) == null then fresh(storage) && selfAllocated
              else storage == old(storage) && selfAllocated == old(selfAllocated)
      ensures Words() == Initial(code, numElements)
      ensures Bits() == seq(numElements, _ => true)
      ensures old(storage) != null ==>
                forall u :: numUnits <= u < storage.Length ==> storage[u] == old(storage[u])
    {
      if storage == null {
        selfAllocated := true;
        storage := new bv64[numUnits * UNIT_BYTES];
      }
      Fill(storage);
      hide Initial, View;
      assert Words() == Initial(code, numElements);
      InitialAllFree(code, numElements);
    }

    /** init()'s stores: all ones, then the last unit bit by bit. */
    method Fill(a: array<bv64>)
      requires Valid() && numUnits <= a.Length
      modifies a
      ensures a[..numUnits] == Initial(code, numElements)
      ensures forall u :: numUnits <= u < a.Length ==> a[u] == old(a[u])
    {
      hide Or, Mask;
      forall u | 0 <= u < numUnits {
        a[u] := ALL_ONES;
      }
      if lastUnitBits != 0 {
        var last := numUnits - 1;
        a[last] := 0;
        for i := 0 to lastUnitBits
          invariant a[last] == LastUnit(code, i)
          invariant forall u :: 0 <= u < last ==> a[u] == ALL_ONES
          invariant forall u :: numUnits <= u < a.Length ==> a[u] == old(a[u])
        {
          a[last] := SetMask(a[last], Mask(code, i));
        }
      }
      hide LastUnit;
    }

    /** A buffer of no bits lets every index through, so that only the storage itself can hold it. */
    method Get(idx: nat) returns (r: Result<bool>)
      requires Valid() && storage != null && idx < SIZE_T
      requires numElements > 0 || idx / UNIT_BITS < storage.Length
      ensures numElements > 0 ==> r == if idx < numElements then Ok(Bits()[idx]) else Throw(IndexOutOfRange)
      ensures numElements == 0 ==> r == Ok(Read(code, storage[..], idx))
    {
      if !IdxPasses(idx, numElements) {
        return Throw(IndexOutOfRange);
      }
      r := Ok(Test(storage[idx / UNIT_BITS], Mask(code, idx % UNIT_BITS)));
    }

    /** A bad index throws and changes nothing. A good one rewrites one unit, which shows at the
        position and at those that alias it; where the writes are exact, at the position alone. */
    method Set(idx: nat, val: bool) returns (r: Result<()>)
      requires Valid() && storage != null && idx < SIZE_T
      requires numElements > 0 || idx / UNIT_BITS < storage.Length
      modifies storage
      ensures Valid()
      ensures r == if idx < numElements || numElements == 0 then Ok(()) else Throw(IndexOutOfRange)
      ensures storage[..] == if r.Ok? then Written(code, old(storage[..]), idx, val) else old(storage[..])
      ensures idx < numElements ==>
                forall j: nat :: j < numElements ==> Bits()[j] == if Aliases(code, idx, j) then val else old(Bits())[j]
      ensures r.Throw? ==> Bits() == old(Bits())
    {
      if !IdxPasses(idx, numElements) {
        return Throw(IndexOutOfRange);
      }
      hide Mask, And, Or;
      ghost var words := Words();
      ghost var before := storage[..];
      var unitIdx := idx / UNIT_BITS;
      var bitIdx := idx % UNIT_BITS;
      if val {
        storage[unitIdx] := SetMask(storage[unitIdx], Mask(code, bitIdx));
      } else {
        storage[unitIdx] := ClearMask(storage[unitIdx], Mask(code, bitIdx));
      }
      assert storage[..] == Written(code, before, idx, val);
      if idx < numElements {
        assert Words() == Written(code, words, idx, val);
        hide View, Written;
        WriteView(code, words, numElements, idx, val);
      }
      return Ok(());
    }

    /** The single pass with a counter finds the first free run, as far as an int can say so. */
    method Find(num: nat) returns (r: Result<int>)
      requires Valid() && storage != null && num < SIZE_T
      ensures r == if num <= numElements then Ok(ToInt32(First(Bits(), num))) else Throw(NumberOutOfRange)
    {
      if num > numElements {
        return Throw(NumberOutOfRange);
      }
      ghost var v := Bits();
      assert Scan(v, num, 0, -1, 0);
      hide View, First, Scan;
      var foundNum: nat := 0;
      var foundUnitIdx := -1;
      var curIdx: nat := 0;
      while foundNum < num && curIdx < numElements
        invariant foundNum <= num && curIdx <= numElements
        invariant Scan(v, num, foundNum, foundUnitIdx, curIdx)
        decreases numElements - curIdx
      {
        ScanStep(v, num, foundNum, foundUnitIdx, curIdx);
        var bit := Get(curIdx);
        if bit.value {
          foundNum := foundNum + 1;
          foundUnitIdx := curIdx;
        } else {
          foundNum := 0;
        }
        curIdx := curIdx + 1;
      }
      var out := -1;
      if foundNum == num {
        out := ToInt32(foundUnitIdx + 1 - num);
      }
      ScanDone(v, num, foundNum, foundUnitIdx, curIdx);
      return Ok(out);
    }

    // ------------------------------------------------------------- copying and moving

    /** createOther: storage of its own is copied, storage of a caller is shared. */
    method CreateOther(o: BitBuffer)
      requires o.Valid() && o.code == code
      modifies this
      ensures Valid() && numElements == old(o.numElements) && selfAllocated == old(o.selfAllocated)
      ensures selfAllocated ==> fresh(storage) && storage.Length == numUnits
      ensures selfAllocated && o != this ==> storage[..] == old(o.storage[..o.numUnits])
      ensures !selfAllocated ==> storage == old(o.storage)
    {
      numElements := o.numElements;
      numUnits := o.numUnits;
      lastUnitBits := o.lastUnitBits;
      selfAllocated := o.selfAllocated;
      if o.selfAllocated {
        storage := new bv64[numUnits];
        forall u | 0 <= u < numUnits {
          storage[u] := o.storage[u];
        }
      } else {
        storage := o.storage;
      }
    }

    /** A copy of a buffer with storage of its own is independent of it. */
    constructor CopyOf(o: BitBuffer)
      requires o.Valid()
      ensures Valid() && code == o.code && numElements == o.numElements && selfAllocated == o.selfAllocated
      ensures if selfAllocated then fresh(storage) else storage == o.storage
      ensures storage != null && o.storage != null ==> Words() == o.Words() && Bits() == o.Bits()
    {
      code := o.code;
      storage := null;
      new;
      CreateOther(o);
    }

    /** A move hands storage over: afterwards at most one of the two buffers frees it. */
    constructor MoveOf(o: BitBuffer)
      requires o.Valid()
      modifies o`selfAllocated
      ensures Valid() && o.Valid() && !o.selfAllocated
      ensures code == o.code && numElements == o.numElements
      ensures storage == o.storage && selfAllocated == old(o.selfAllocated)
      ensures storage != null ==> Words() == old(o.Words()) && Bits() == old(o.Bits())
    {
      code := o.code;
      storage := null;
      new;
      var was := o.selfAllocated;
      o.selfAllocated := false;
      CreateOther(o);
      selfAllocated := was;
    }
  }
}
