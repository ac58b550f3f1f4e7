/** What find() (src/BitBuffer.cpp) searches for: the first run of free positions of a given length. */
module FirstFit {

  /** Positions r to r + num - 1 exist and are all free. */
  ghost predicate FreeRun(v: seq<bool>, r: nat, num: nat) {
    r + num <= |v| && forall i :: r <= i < r + num ==> v[i]
  }

  /** The least start of a free run from position r on, or -1. */
  ghost function FirstFrom(v: seq<bool>, num: nat, r: nat): (out: int)
    requires r <= |v| + 1
    ensures out == -1 || (r <= out && FreeRun(v, out, num))
    ensures forall s: nat :: r <= s && FreeRun(v, s, num) ==> 0 <= out <= s
    decreases |v| + 1 - r
  {
    if r + num > |v| then -1 else if FreeRun(v, r, num) then r else FirstFrom(v, num, r + 1)
  }

  /** Sound, complete and first-fit: a position is the result exactly when a free run starts
      there and at no smaller position, and -1 exactly when there is no free run at all. */
  ghost function First(v: seq<bool>, num: nat): (out: int)
    ensures -1 <= out
    ensures out >= 0 ==> FreeRun(v, out, num)
    ensures forall s: nat :: FreeRun(v, s, num) ==> 0 <= out <= s
  {
    FirstFrom(v, num, 0)
  }

  /** The contract of First leaves no freedom. */
  lemma FirstIsUnique(v: seq<bool>, num: nat, r: int)
    requires r >= -1 && (r >= 0 ==> FreeRun(v, r, num))
    requires forall s: nat :: FreeRun(v, s, num) ==> 0 <= r <= s
    ensures r == First(v, num)
  {
    if First(v, num) >= 0 { assert FreeRun(v, First(v, num), num); }
    if r >= 0 { assert FreeRun(v, r, num); }
  }

  /** What the scan knows at position cur: the last found positions are free, the run cannot be
      extended to the left, and no free run of length num starts before it. */
  ghost predicate Scan(v: seq<bool>, num: nat, found: nat, last: int, cur: nat) {
    && found <= cur <= |v| && found <= num
    && (found > 0 || num == 0 ==> last == cur - 1)
    && (num == 0 ==> cur == 0)
    && (forall i :: cur - found <= i < cur ==> v[i])
    && (forall s: nat :: FreeRun(v, s, num) ==> s >= cur - found)
  }

  lemma ScanStep(v: seq<bool>, num: nat, found: nat, last: int, cur: nat)
    requires Scan(v, num, found, last, cur) && found < num && cur < |v|
    ensures if v[cur] then Scan(v, num, found + 1, cur, cur + 1) else Scan(v, num, 0, last, cur + 1)
  {
    if !v[cur] {
      forall s: nat | FreeRun(v, s, num) ensures s >= cur + 1 {
      }
    }
  }

  lemma ScanDone(v: seq<bool>, num: nat, found: nat, last: int, cur: nat)
    requires Scan(v, num, found, last, cur) && (found == num || cur == |v|)
    ensures First(v, num) == if found == num then last + 1 - num else -1
  {
    if found == num {
      assert FreeRun(v, last + 1 - num, num);
      FirstIsUnique(v, num, last + 1 - num);
    } else {
      FirstIsUnique(v, num, -1);
    }
  }
}
