/** The machine operations on one 64-bit unit, and the laws the bitmap relies on. The operations
    have names so that a proof can hide how they compute. */
module Unit64 {

  const ALL_ONES: bv64 := 0xFFFF_FFFF_FFFF_FFFF

  function And(x: bv64, y: bv64): bv64 { x & y }
  function Or(x: bv64, y: bv64): bv64 { x | y }
  function Not(x: bv64): bv64 { !x }
  function Double(x: bv64): bv64 { x << 1 }
  function Sixteen(x: bv64): bv64 { x << 4 }

  predicate Test(w: bv64, m: bv64) { And(w, m) != 0 }
  function SetMask(w: bv64, m: bv64): bv64 { Or(w, m) }
  function ClearMask(w: bv64, m: bv64): bv64 { And(w, Not(m)) }

  // -------------------------------------------- laws of the operations, bit by bit

  lemma OrShares(x: bv64, y: bv64, z: bv64)
    requires And(x, z) == 0 && And(y, z) == 0
    ensures And(Or(x, y), z) == 0
  {
  }

  lemma OrSharesOnly(x: bv64, y: bv64, z: bv64)
    requires And(Or(x, y), z) == 0
    ensures And(x, z) == 0 && And(y, z) == 0
  {
  }

  lemma AndNot(x: bv64, y: bv64)
    ensures And(x, y) == 0 ==> And(Not(x), y) == y
    ensures And(Not(x), x) == 0
  {
  }

  lemma AndAssociates(x: bv64, y: bv64, z: bv64)
    ensures And(And(x, y), z) == And(x, And(y, z))
  {
  }

  lemma AndCommutes(x: bv64, y: bv64)
    ensures And(x, y) == And(y, x)
  {
  }

  lemma AndUnits(x: bv64)
    ensures And(0, x) == 0 == And(x, 0)
    ensures And(x, x) == x == And(ALL_ONES, x)
  {
  }

  lemma DoubleLaws(x: bv64, y: bv64)
    ensures And(Double(x), Double(y)) == Double(And(x, y))
    ensures And(1, Double(x)) == 0
    ensures Double(0) == 0
  {
  }

  const TOP: bv64 := 0x8000_0000_0000_0000

  lemma NothingLost(x: bv64)
    requires And(x, TOP) == 0
    ensures Double(x) == 0 <==> x == 0
  {
  }

  lemma SixteenTimes(x: bv64)
    ensures Double(Double(Double(Double(x)))) == Sixteen(x)
  {
  }

  // ------------------------------------------------------------------ testing

  lemma SetTest(w: bv64, m: bv64, k: bv64)
    ensures Test(SetMask(w, m), k) <==> Test(w, k) || Test(m, k)
  {
    hide And, Or;
    if And(Or(w, m), k) == 0 { OrSharesOnly(w, m, k); }
    if And(w, k) == 0 && And(m, k) == 0 { OrShares(w, m, k); }
  }

  lemma ClearTest(w: bv64, m: bv64, k: bv64)
    requires !Test(m, k)
    ensures Test(ClearMask(w, m), k) <==> Test(w, k)
  {
    hide And, Not;
    AndNot(m, k);
    AndAssociates(w, Not(m), k);
  }

  lemma ClearSelf(w: bv64, m: bv64)
    ensures !Test(ClearMask(w, m), m)
  {
    hide And, Not;
    AndNot(m, m);
    AndAssociates(w, Not(m), m);
    AndUnits(w);
  }

  lemma TestUnits(m: bv64)
    ensures !Test(0, m)
    ensures Test(ALL_ONES, m) <==> Test(m, m)
  {
    hide And;
    AndUnits(m);
  }

  lemma TestCommutes(x: bv64, y: bv64)
    ensures Test(x, y) <==> Test(y, x)
  {
    hide And;
    AndCommutes(x, y);
  }

  lemma DoubleOdd(x: bv64)
    ensures !Test(1, Double(x))
  {
    hide And, Double;
    DoubleLaws(x, x);
  }

  /** Doubling keeps which bits two units share, but for a bit that falls off the top. */
  lemma DoubleTest(x: bv64, y: bv64)
    ensures Test(Double(x), Double(y)) ==> Test(x, y)
    ensures !Test(x, TOP) && Test(x, y) ==> Test(Double(x), Double(y))
  {
    hide And, Double;
    DoubleLaws(x, y);
    if And(x, TOP) == 0 {
      AndAssociates(x, y, TOP);
      AndCommutes(y, TOP);
      AndAssociates(x, TOP, y);
      AndUnits(y);
      NothingLost(And(x, y));
    }
  }
}
