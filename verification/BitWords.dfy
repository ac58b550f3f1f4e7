/** Bits packed in 64-bit units (include/cppgenerics/BitBuffer.h): which mask selects a bit, and
    what reading and writing through it does to the sequence of bits a buffer stands for. */
module BitWords {
  import opened Common
  import opened Unit64

  const UNIT_BITS := 64
  const UNIT_BYTES := 8

  /** 1 << b in the unit's own width. */
  function Bit(b: nat): bv64 {
    if b == 0 then 1 else Double(Bit(b - 1))
  }

  /** Every bit above b. */
  function Above(b: nat): bv64 {
    if b == 0 then Double(ALL_ONES) else Double(Above(b - 1))
  }

  /** The mask of bit b of a unit. As written, 1 << b is a shift of a 32-bit int: the machine
      takes the count modulo 32, and the result is sign-extended to 64 bits, so that bit 31
      brings every higher bit with it. */
  function Mask(code: Code, b: nat): bv64 {
    if code.Repaired? then Bit(b) else if b % 32 == 31 then Above(30) else Bit(b % 32)
  }

  // ------------------------------------------------------------ the bits of a unit

  lemma FourFurther(b: nat)
    ensures Bit(b + 4) == Sixteen(Bit(b))
  {
    hide *;
    OneFurther(b);
    OneFurther(b + 1);
    OneFurther(b + 2);
    OneFurther(b + 3);
    SixteenTimes(Bit(b));
  }

  lemma OneFurther(b: nat)
    ensures Bit(b + 1) == Double(Bit(b)) && Above(b + 1) == Double(Above(b))
  {
  }

  lemma TopBit()
    ensures Bit(63) == TOP
  {
    FourFurther(0); FourFurther(4); FourFurther(8); FourFurther(12); FourFurther(16);
    FourFurther(20); FourFurther(24); FourFurther(28); FourFurther(32); FourFurther(36);
    FourFurther(40); FourFurther(44); FourFurther(48); FourFurther(52); FourFurther(56);
    assert Bit(60) == 0x1000_0000_0000_0000;
    OneFurther(60); OneFurther(61); OneFurther(62);
  }

  lemma FourAbove(b: nat)
    ensures Above(b + 4) == Sixteen(Above(b))
  {
    hide *;
    OneFurther(b);
    OneFurther(b + 1);
    OneFurther(b + 2);
    OneFurther(b + 3);
    SixteenTimes(Above(b));
  }

  /** The masks at the ends of the two halves of a unit, as numbers. */
  lemma MaskNumbers()
    ensures Mask(Repaired, 0) == 0x1 && Mask(Repaired, 31) == 0x8000_0000
    ensures Mask(Repaired, 32) == 0x1_0000_0000 && Mask(Repaired, 63) == 0x8000_0000_0000_0000
    ensures Mask(AsWritten, 0) == 0x1 && Mask(AsWritten, 30) == 0x4000_0000
    ensures Mask(AsWritten, 31) == 0xFFFF_FFFF_8000_0000
    ensures Mask(AsWritten, 32) == 0x1 && Mask(AsWritten, 63) == 0xFFFF_FFFF_8000_0000
  {
    FourFurther(0); FourFurther(4); FourFurther(8); FourFurther(12); FourFurther(16); FourFurther(20); FourFurther(24);
    OneFurther(28); OneFurther(29); OneFurther(30); OneFurther(31);
    OneFurther(0); OneFurther(1);
    FourAbove(2); FourAbove(6); FourAbove(10); FourAbove(14); FourAbove(18); FourAbove(22); FourAbove(26);
    TopBit();
    assert Bit(28) == 0x1000_0000;
    assert Above(2) == 0xFFFF_FFFF_FFFF_FFF8;
    assert Above(30) == 0xFFFF_FFFF_8000_0000;
  }

  // ------------------------------------------------------------ facts about masks

  /** Different bits have different masks. */
  lemma {:induction false} BitsMeet(b: nat, c: nat)
    requires b <= c < UNIT_BITS
    ensures Test(Bit(b), Bit(c)) <==> b == c
    decreases c, b
  {
    if b == 0 {
      if c > 0 { OneFurther(c - 1); DoubleOdd(Bit(c - 1)); }
    } else {
      OneFurther(b - 1);
      OneFurther(c - 1);
      BitBelowTop(b - 1);
      BitsMeet(b - 1, c - 1);
      hide *;
      DoubleTest(Bit(b - 1), Bit(c - 1));
    }
  }

  lemma {:induction false} BitBelowTop(b: nat)
    requires b < 63
    ensures !Test(Bit(b), TOP)
  {
    TopBit();
    BitsApart(b, 63);
  }

  lemma {:induction false} BitsApart(b: nat, c: nat)
    requires b < c
    ensures !Test(Bit(b), Bit(c))
  {
    if b == 0 {
      OneFurther(c - 1);
      DoubleOdd(Bit(c - 1));
    } else {
      OneFurther(b - 1);
      OneFurther(c - 1);
      BitsApart(b - 1, c - 1);
      hide *;
      DoubleTest(Bit(b - 1), Bit(c - 1));
    }
  }

  /** Above(c) holds exactly the bits above c. */
  lemma {:induction false} AboveMeets(b: nat, c: nat)
    requires b < UNIT_BITS
    ensures Test(Bit(b), Above(c)) <==> c < b
    decreases b
  {
    if b == 0 {
      if c > 0 { OneFurther(c - 1); }
      DoubleOdd(if c == 0 then ALL_ONES else Above(c - 1));
    } else {
      OneFurther(b - 1);
      BitBelowTop(b - 1);
      if c == 0 {
        BitsMeet(b - 1, b - 1);
        TestUnits(Bit(b - 1));
        TestCommutes(ALL_ONES, Bit(b - 1));
        assert Above(0) == Double(ALL_ONES);
        hide *;
        DoubleTest(Bit(b - 1), ALL_ONES);
      } else {
        OneFurther(c - 1);
        AboveMeets(b - 1, c - 1);
        hide *;
        DoubleTest(Bit(b - 1), Above(c - 1));
      }
    }
  }

  /** Whether the masks of two bits of a unit are the same. */
  predicate SameMask(code: Code, b: nat, c: nat) {
    if code.Repaired? then b == c else b % 32 == c % 32
  }

  /** Masks are the same or share nothing. */
  lemma MasksMeet(code: Code, b: nat, c: nat)
    requires b < UNIT_BITS && c < UNIT_BITS
    ensures SameMask(code, b, c) ==> Mask(code, b) == Mask(code, c)
    ensures Test(Mask(code, b), Mask(code, c)) <==> SameMask(code, b, c)
  {
    var x, y := if code.Repaired? then b else b % 32, if code.Repaired? then c else c % 32;
    MaskIs(code, b, x);
    MaskIs(code, c, y);
    assert SameMask(code, b, c) <==> x == y;
    hide *;
    if x <= y { BitsMeet(x, y); } else { BitsMeet(y, x); TestCommutes(Bit(x), Bit(y)); }
    AboveMeets(x, 30);
    AboveMeets(y, 30);
    TestCommutes(Bit(y), Above(30));
    AboveSelf();
  }

  lemma MaskIs(code: Code, b: nat, x: nat)
    requires x == if code.Repaired? then b else b % 32
    ensures Mask(code, b) == if code.AsWritten? && x == 31 then Above(30) else Bit(x)
  {
  }

  lemma AboveSelf()
    ensures Test(Above(30), Above(30))
  {
    AboveMeets(31, 30);
    hide Bit, Above;
  }

  // ------------------------------------------------- the bits a sequence of units stands for

  /** The constructor's unit count. */
  function Units(n: nat): nat {
    n / UNIT_BITS + if n % UNIT_BITS != 0 then 1 else 0
  }

  /** getSizeBytes. */
  function SizeBytes(n: nat): nat {
    var units := n / UNIT_BITS;
    (if n % UNIT_BITS != 0 then units + 1 else units) * UNIT_BYTES
  }

  /** getSizeBytes is the least number of bytes of 8 bits that has room for n bits and makes whole units of
      8 bytes; these are the units the constructor counts. */
  lemma SizeIsLeast(n: nat, units: nat)
    ensures SizeBytes(n) % 8 == 0 && n <= 8 * SizeBytes(n) < n + 64
    ensures SizeBytes(n) == 8 * Units(n)
    ensures n <= 64 * units <==> SizeBytes(n) <= 8 * units
  {
  }

  /** Storage of that many bytes has, as units of 8 bytes, every unit in which a bit is. */
  lemma SizeHolds(n: nat, length: nat)
    requires 8 * length >= SizeBytes(n)
    ensures Units(n) <= length && n <= 64 * length
    ensures forall i: nat :: i < n ==> i / 64 < Units(n)
  {
  }

  predicate Read(code: Code, ws: seq<bv64>, i: nat)
    requires i / UNIT_BITS < |ws|
  {
    Test(ws[i / UNIT_BITS], Mask(code, i % UNIT_BITS))
  }

  /** The new contents of one unit. */
  function WriteUnit(code: Code, w: bv64, b: nat, val: bool): bv64 {
    if val then SetMask(w, Mask(code, b)) else ClearMask(w, Mask(code, b))
  }

  function Written(code: Code, ws: seq<bv64>, i: nat, val: bool): (r: seq<bv64>)
    requires i / UNIT_BITS < |ws|
    ensures |r| == |ws|
  {
    ws[i / UNIT_BITS := WriteUnit(code, ws[i / UNIT_BITS], i % UNIT_BITS, val)]
  }

  /** What get() shows, position by position. */
  function View(code: Code, ws: seq<bv64>, n: nat): (v: seq<bool>)
    requires n <= |ws| * UNIT_BITS
    ensures |v| == n && forall i :: 0 <= i < n ==> v[i] == Read(code, ws, i)
  {
    seq(n, i requires 0 <= i < n => Read(code, ws, i))
  }

  /** Whether writing bit i also writes what is read as bit j. */
  predicate Aliases(code: Code, i: nat, j: nat) {
    i / UNIT_BITS == j / UNIT_BITS && SameMask(code, i % UNIT_BITS, j % UNIT_BITS)
  }

  /** Bits alias in numbers: with the repaired shift none do, as written those of a unit that are 32 apart. */
  lemma AliasesIff(i: nat, j: nat)
    ensures Aliases(Repaired, i, j) <==> i == j
    ensures Aliases(AsWritten, i, j) <==> i / 64 == j / 64 && i % 32 == j % 32
  {
    HalfUnit(i);
    HalfUnit(j);
  }

  lemma HalfUnit(i: nat)
    ensures i % 64 % 32 == i % 32
  {
    Remainder(i, 2 * (i / 64) + i % 64 / 32, i % 64 % 32);
  }

  lemma Remainder(a: nat, q: nat, r: nat)
    requires a == 32 * q + r && r < 32
    ensures a % 32 == r
  {
  }

  lemma WriteUnitThenTest(code: Code, w: bv64, b: nat, val: bool, c: nat)
    requires b < UNIT_BITS && c < UNIT_BITS
    ensures Test(WriteUnit(code, w, b, val), Mask(code, c)) <==>
              if SameMask(code, b, c) then val else Test(w, Mask(code, c))
  {
    hide *;
    var m, k := Mask(code, b), Mask(code, c);
    MasksMeet(code, b, c);
    UnitIs(code, w, b, val);
    SetTest(w, m, k);
    ClearSelf(w, m);
    if !SameMask(code, b, c) { ClearTest(w, m, k); }
  }

  lemma UnitIs(code: Code, w: bv64, b: nat, val: bool)
    ensures WriteUnit(code, w, b, val) == if val then SetMask(w, Mask(code, b)) else ClearMask(w, Mask(code, b))
  {
    hide Mask, SetMask, ClearMask;
  }

  /** A write shows at the position written and at those it aliases, and nowhere else. */
  lemma WriteThenRead(code: Code, ws: seq<bv64>, i: nat, val: bool, j: nat)
    requires i / UNIT_BITS < |ws| && j / UNIT_BITS < |ws|
    ensures Read(code, Written(code, ws, i, val), j) == if Aliases(code, i, j) then val else Read(code, ws, j)
  {
    hide Test, WriteUnit, SameMask, Mask;
    WriteUnitThenTest(code, ws[i / UNIT_BITS], i % UNIT_BITS, val, j % UNIT_BITS);
  }

  lemma WriteView(code: Code, ws: seq<bv64>, n: nat, i: nat, val: bool)
    requires i < n <= |ws| * UNIT_BITS
    ensures forall j: nat :: j < n ==>
              View(code, Written(code, ws, i, val), n)[j] == if Aliases(code, i, j) then val else View(code, ws, n)[j]
  {
    hide Read, WriteUnit, Aliases;
    forall j: nat | j < n
      ensures View(code, Written(code, ws, i, val), n)[j] == if Aliases(code, i, j) then val else View(code, ws, n)[j]
    {
      WriteThenRead(code, ws, i, val, j);
    }
  }

  /** Aliasing is an equivalence, and trivial where the shift is repaired or there are few bits. */
  lemma AliasLaws(code: Code, i: nat, j: nat, k: nat)
    ensures Aliases(code, i, i)
    ensures Aliases(code, i, j) <==> Aliases(code, j, i)
    ensures Aliases(code, i, j) && Aliases(code, j, k) ==> Aliases(code, i, k)
    ensures (code.Repaired? || (i < 32 && j < 32)) && Aliases(code, i, j) ==> i == j
  {
  }

  /** Where no two positions alias, a write changes exactly one position of the view. */
  lemma WriteExact(code: Code, ws: seq<bv64>, n: nat, i: nat, val: bool)
    requires code.Repaired? || n <= 32
    requires i < n <= |ws| * UNIT_BITS
    ensures View(code, Written(code, ws, i, val), n) == View(code, ws, n)[i := val]
  {
    hide Read, WriteUnit;
    forall j: nat | j < n
      ensures View(code, Written(code, ws, i, val), n)[j] == View(code, ws, n)[i := val][j]
    {
      WriteThenRead(code, ws, i, val, j);
    }
  }

  /** Every write to a buffer of n bits, whatever it holds, changes exactly one position. */
  ghost predicate WritesAreExact(code: Code, n: nat) {
    forall ws: seq<bv64>, i: nat, val: bool :: |ws| == Units(n) && i < n ==>
      View(code, Written(code, ws, i, val), n) == View(code, ws, n)[i := val]
  }

  /** As written, that holds exactly for buffers of at most 32 bits: beyond, bits 0 and 32 share a mask. */
  lemma WritesAreExactIff(code: Code, n: nat)
    ensures WritesAreExact(code, n) <==> code.Repaired? || n <= 32
  {
    hide Read, WriteUnit;
    if code.Repaired? || n <= 32 {
      forall ws: seq<bv64>, i: nat, val: bool | |ws| == Units(n) && i < n
        ensures View(code, Written(code, ws, i, val), n) == View(code, ws, n)[i := val]
      {
        WriteExact(code, ws, n, i, val);
      }
    } else {
      var ws: seq<bv64> := seq(Units(n), _ => 0);
      WriteThenRead(code, ws, 0, true, 32);
      WriteThenRead(code, ws, 0, false, 32);
      var u, v := Written(code, ws, 0, true), Written(code, ws, 0, false);
      assert View(code, u, n)[32] && !View(code, v, n)[32];
      assert View(code, ws, n)[0 := true][32] == View(code, ws, n)[0 := false][32];
    }
  }

  // ------------------------------------------------------------- initialisation and the tail

  /** init()'s loop over the last unit. */
  function LastUnit(code: Code, k: nat): bv64 {
    if k == 0 then 0 else SetMask(LastUnit(code, k - 1), Mask(code, k - 1))
  }

  lemma LastUnitStep(code: Code, k: nat, m: bv64)
    ensures Test(LastUnit(code, k + 1), m) <==> Test(LastUnit(code, k), m) || Test(Mask(code, k), m)
    ensures !Test(LastUnit(code, 0), m)
  {
    hide Test, SetMask, Mask;
    SetTest(LastUnit(code, k), Mask(code, k), m);
    TestUnits(m);
  }

  /** The units after init(). */
  function Initial(code: Code, n: nat): (ws: seq<bv64>)
    ensures |ws| == Units(n)
  {
    seq(Units(n), u => if u == n / UNIT_BITS then LastUnit(code, n % UNIT_BITS) else ALL_ONES)
  }

  lemma {:induction false} LastUnitHas(code: Code, k: nat, c: nat)
    requires c < k <= UNIT_BITS
    ensures Test(LastUnit(code, k), Mask(code, c))
  {
    hide *;
    LastUnitStep(code, k - 1, Mask(code, c));
    if c < k - 1 { LastUnitHas(code, k - 1, c); } else { MaskSelf(code, c); }
  }

  lemma MaskSelf(code: Code, b: nat)
    requires b < UNIT_BITS
    ensures Test(Mask(code, b), Mask(code, b))
  {
    hide Test, Mask;
    MasksMeet(code, b, b);
  }

  /** After init() everything reads FREE, whichever shift is used. */
  lemma InitialAllFree(code: Code, n: nat)
    ensures View(code, Initial(code, n), n) == seq(n, _ => true)
  {
    hide Test, Mask, LastUnit;
    forall i: nat | i < n ensures Read(code, Initial(code, n), i) {
      if i / UNIT_BITS == n / UNIT_BITS {
        LastUnitHas(code, n % UNIT_BITS, i % UNIT_BITS);
      } else {
        MaskSelf(code, i % UNIT_BITS);
        TestUnits(Mask(code, i % UNIT_BITS));
      }
    }
  }

  /** The bits of the last unit that stand for no element are zero. */
  ghost predicate TailZero(ws: seq<bv64>, n: nat) {
    forall b: nat :: n % UNIT_BITS <= b < UNIT_BITS && n % UNIT_BITS != 0 && n / UNIT_BITS < |ws| ==>
      !Test(ws[n / UNIT_BITS], Bit(b))
  }

  /** The masks below a limit stay below it if the limit is at most 31 or the shift is repaired. */
  lemma MaskBelow(code: Code, c: nat, b: nat)
    requires c < b < UNIT_BITS && (code.Repaired? || c < 31)
    ensures !Test(Mask(code, c), Bit(b))
  {
    hide *;
    MaskIs(code, c, c);
    BitsMeet(c, b);
  }

  lemma {:induction false} LastUnitTail(code: Code, k: nat, b: nat)
    requires k <= b < UNIT_BITS && (code.Repaired? || k <= 31)
    ensures !Test(LastUnit(code, k), Bit(b))
  {
    hide *;
    if k == 0 {
      LastUnitStep(code, 0, Bit(b));
    } else {
      LastUnitStep(code, k - 1, Bit(b));
      LastUnitTail(code, k - 1, b);
      MaskBelow(code, k - 1, b);
    }
  }

  lemma {:induction false} LastUnitFlooded(k: nat, b: nat)
    requires 32 <= k && 31 <= b < UNIT_BITS
    ensures Test(LastUnit(AsWritten, k), Bit(b))
  {
    hide *;
    MaskIs(AsWritten, 31, 31);
    LastUnitStep(AsWritten, k - 1, Bit(b));
    if k == 32 {
      AboveMeets(b, 30);
      TestCommutes(Bit(b), Above(30));
    } else {
      LastUnitFlooded(k - 1, b);
    }
  }

  /** As written, init() leaves the tail zero exactly when the last unit holds at most 31 elements;
      with 32 or more it sets every bit of the tail. */
  lemma InitialTailIff(code: Code, n: nat)
    ensures TailZero(Initial(code, n), n) <==> code.Repaired? || n % UNIT_BITS <= 31
  {
    hide Test, LastUnit, Bit;
    var k := n % UNIT_BITS;
    if code.Repaired? || k <= 31 {
      forall b: nat | k <= b < UNIT_BITS && k != 0
        ensures !Test(Initial(code, n)[n / UNIT_BITS], Bit(b))
      {
        LastUnitTail(code, k, b);
      }
    } else {
      LastUnitFlooded(k, 63);
    }
  }

  /** Under the same condition no write of an element disturbs the tail. */
  lemma WriteKeepsTail(code: Code, ws: seq<bv64>, n: nat, i: nat, val: bool)
    requires i < n && |ws| == Units(n) && (code.Repaired? || n % UNIT_BITS <= 31)
    requires TailZero(ws, n)
    ensures TailZero(Written(code, ws, i, val), n)
  {
    hide Test, Bit, Mask, WriteUnit;
    var u := n / UNIT_BITS;
    if i / UNIT_BITS == u && n % UNIT_BITS != 0 {
      forall b: nat | n % UNIT_BITS <= b < UNIT_BITS
        ensures !Test(Written(code, ws, i, val)[u], Bit(b))
      {
        UnitKeepsBit(code, ws[u], i % UNIT_BITS, val, b);
      }
    }
  }

  lemma UnitKeepsBit(code: Code, w: bv64, c: nat, val: bool, b: nat)
    requires c < b < UNIT_BITS && (code.Repaired? || c < 31)
    ensures Test(WriteUnit(code, w, c, val), Bit(b)) <==> Test(w, Bit(b))
  {
    hide *;
    UnitIs(code, w, c, val);
    MaskBelow(code, c, b);
    SetTest(w, Mask(code, c), Bit(b));
    ClearTest(w, Mask(code, c), Bit(b));
  }

  // ---------------------------------------------------------------------- runs

  datatype Write = Write(idx: nat, val: bool)

  /** set() throws for a position that does not exist, and changes nothing. */
  function WriteAll(code: Code, n: nat, ws: seq<bv64>, writes: seq<Write>): (r: seq<bv64>)
    requires |ws| == Units(n)
    ensures |r| == |ws|
    decreases |writes|
  {
    if writes == [] then ws else
    WriteAll(code, n, if writes[0].idx < n then Written(code, ws, writes[0].idx, writes[0].val) else ws, writes[1..])
  }

  function UpdateAll(v: seq<bool>, writes: seq<Write>): (r: seq<bool>)
    ensures |r| == |v|
    decreases |writes|
  {
    if writes == [] then v else
    UpdateAll(if writes[0].idx < |v| then v[writes[0].idx := writes[0].val] else v, writes[1..])
  }

  lemma {:induction false} WritesRefine(code: Code, n: nat, ws: seq<bv64>, writes: seq<Write>)
    requires |ws| == Units(n) && (code.Repaired? || n <= 32)
    ensures View(code, WriteAll(code, n, ws, writes), n) == UpdateAll(View(code, ws, n), writes)
    decreases |writes|
  {
    hide View, Written;
    if writes != [] {
      if writes[0].idx < n { WriteExact(code, ws, n, writes[0].idx, writes[0].val); }
      var next := if writes[0].idx < n then Written(code, ws, writes[0].idx, writes[0].val) else ws;
      WritesRefine(code, n, next, writes[1..]);
    }
  }

  lemma {:induction false} WritesKeepTail(code: Code, n: nat, ws: seq<bv64>, writes: seq<Write>)
    requires |ws| == Units(n) && TailZero(ws, n) && (code.Repaired? || n % UNIT_BITS <= 31)
    ensures TailZero(WriteAll(code, n, ws, writes), n)
    decreases |writes|
  {
    hide Written, TailZero;
    if writes != [] {
      if writes[0].idx < n { WriteKeepsTail(code, ws, n, writes[0].idx, writes[0].val); }
      var next := if writes[0].idx < n then Written(code, ws, writes[0].idx, writes[0].val) else ws;
      WritesKeepTail(code, n, next, writes[1..]);
    }
  }

  /** A buffer of n bits behaves as n independent booleans, all FREE at first, over every run of writes. */
  ghost predicate BehavesAsBits(code: Code, n: nat) {
    forall writes: seq<Write> ::
      View(code, WriteAll(code, n, Initial(code, n), writes), n) == UpdateAll(seq(n, _ => true), writes)
  }

  /** With the shift repaired always; as written exactly up to 32 bits. */
  lemma BehavesAsBitsIff(code: Code, n: nat)
    ensures BehavesAsBits(code, n) <==> code.Repaired? || n <= 32
  {
    hide View, Written, Initial;
    InitialAllFree(code, n);
    if code.Repaired? || n <= 32 {
      forall writes: seq<Write>
        ensures View(code, WriteAll(code, n, Initial(code, n), writes), n) == UpdateAll(seq(n, _ => true), writes)
      {
        WritesRefine(code, n, Initial(code, n), writes);
      }
    } else {
      FirstWriteAliases(n);
    }
  }

  lemma FirstWriteAliases(n: nat)
    requires n > 32
    ensures !BehavesAsBits(AsWritten, n)
  {
    hide View, Written, Initial, Read;
    var writes := [Write(0, false)];
    var ws := Initial(AsWritten, n);
    WriteThenRead(AsWritten, ws, 0, false, 32);
    assert writes[1..] == [];
    assert WriteAll(AsWritten, n, ws, writes) == Written(AsWritten, ws, 0, false);
    assert !View(AsWritten, Written(AsWritten, ws, 0, false), n)[32];
    assert UpdateAll(seq(n, _ => true), writes) == seq(n, _ => true)[0 := false];
    assert UpdateAll(seq(n, _ => true), writes)[32];
  }

  /** The tail is zero after every run of writes exactly under the condition that init() leaves it zero. */
  lemma TailStaysZeroIff(code: Code, n: nat)
    ensures (forall writes: seq<Write> :: TailZero(WriteAll(code, n, Initial(code, n), writes), n))
            <==> code.Repaired? || n % UNIT_BITS <= 31
  {
    hide Written, Initial, TailZero;
    InitialTailIff(code, n);
    if code.Repaired? || n % UNIT_BITS <= 31 {
      forall writes: seq<Write> ensures TailZero(WriteAll(code, n, Initial(code, n), writes), n) {
        WritesKeepTail(code, n, Initial(code, n), writes);
      }
    } else {
      assert WriteAll(code, n, Initial(code, n), []) == Initial(code, n);
    }
  }
}
