/** Names as the two tables keep them: a std::string seen through c_str(), copied with
    strncpy and compared with strncmp, both limited to n characters. */
module CNames {

  const NUL := '\0'

  /** What c_str() shows of a sequence of characters: everything before the first NUL. */
  function CStr(s: seq<char>): seq<char> {
    if s == [] || s[0] == NUL then [] else [s[0]] + CStr(s[1..])
  }

  /** The part of a name that counts: at most n characters, none of them NUL. */
  function Name(s: seq<char>, n: nat): seq<char> {
    if n == 0 || s == [] || s[0] == NUL then [] else [s[0]] + Name(s[1..], n - 1)
  }

  function CharAt(s: seq<char>, i: nat): char {
    if i < |s| then s[i] else NUL
  }

  function Rest(s: seq<char>): seq<char> {
    if s == [] then [] else s[1..]
  }

  /** Whether strncmp(a, b, n) returns 0. */
  predicate StrNEqual(a: seq<char>, b: seq<char>, n: nat)
    decreases n
  {
    if n == 0 then true
    else if CharAt(a, 0) != CharAt(b, 0) then false
    else if CharAt(a, 0) == NUL then true
    else StrNEqual(Rest(a), Rest(b), n - 1)
  }

  /** The n bytes strncpy(dst, src, n) stores: the characters of src, then NULs. */
  function Padded(src: seq<char>, n: nat): (r: seq<char>)
    ensures |r| == n
    decreases n
  {
    if n == 0 then [] else [CharAt(src, 0)] + Padded(if CharAt(src, 0) == NUL then [] else Rest(src), n - 1)
  }

  function StrNCpy(dst: seq<char>, src: seq<char>, n: nat): (r: seq<char>)
    requires n <= |dst|
    ensures |r| == |dst|
  {
    Padded(src, n) + dst[n..]
  }

  // ------------------------------------------------- the same, character by character

  /** Neither the end of s nor a NUL comes before position i. */
  predicate Reaches(s: seq<char>, i: nat) {
    i <= |s| && forall j :: 0 <= j < i ==> s[j] != '\0'
  }

  /** Two sequences show different characters at position i, the end counting as a NUL. */
  predicate DiffersAt(a: seq<char>, b: seq<char>, i: nat) {
    (if i < |a| then a[i] else '\0') != (if i < |b| then b[i] else '\0')
  }

  /** No difference among the first n characters comes before, or at, a NUL or an end. */
  ghost predicate Alike(a: seq<char>, b: seq<char>, n: nat) {
    forall i: nat :: i < n && Reaches(a, i) && Reaches(b, i) ==> !DiffersAt(a, b, i)
  }

  /** Alikeness of two sequences with the same first character is that of the rest. */
  lemma AlikeRest(a: seq<char>, b: seq<char>, n: nat)
    requires n > 0 && a != [] && b != [] && a[0] == b[0] && a[0] != '\0'
    ensures Alike(a, b, n) <==> Alike(a[1..], b[1..], n - 1)
  {
    if Alike(a, b, n) {
      forall i: nat | i < n - 1 && Reaches(a[1..], i) && Reaches(b[1..], i) ensures !DiffersAt(a[1..], b[1..], i) {
        assert Reaches(a, i + 1) && Reaches(b, i + 1);
        assert !DiffersAt(a, b, i + 1);
      }
    }
    if Alike(a[1..], b[1..], n - 1) {
      forall i: nat | i < n && Reaches(a, i) && Reaches(b, i) ensures !DiffersAt(a, b, i) {
        if i > 0 {
          assert Reaches(a[1..], i - 1) && Reaches(b[1..], i - 1);
          assert !DiffersAt(a[1..], b[1..], i - 1);
        }
      }
    }
  }

  /** What the first characters alone decide. */
  lemma AlikeFirst(a: seq<char>, b: seq<char>, n: nat)
    requires n > 0
    ensures DiffersAt(a, b, 0) ==> !Alike(a, b, n)
    ensures !DiffersAt(a, b, 0) && (a == [] || a[0] == '\0') ==> Alike(a, b, n)
  {
    assert Reaches(a, 0) && Reaches(b, 0);
  }

  /** strncmp finds no difference exactly when there is none. */
  lemma {:induction false} StrNEqualIff(a: seq<char>, b: seq<char>, n: nat)
    ensures StrNEqual(a, b, n) <==> Alike(a, b, n)
    decreases n
  {
    if n > 0 {
      AlikeFirst(a, b, n);
      if !DiffersAt(a, b, 0) && a != [] && a[0] != '\0' {
        AlikeRest(a, b, n);
        StrNEqualIff(a[1..], b[1..], n - 1);
      }
    }
  }

  /** Names have the same part that counts exactly when they are alike. */
  lemma {:induction false} SameNameIff(a: seq<char>, b: seq<char>, n: nat)
    ensures Name(a, n) == Name(b, n) <==> Alike(a, b, n)
    decreases n
  {
    if n > 0 {
      AlikeFirst(a, b, n);
      assert Name(a, n) != [] ==> Name(a, n)[0] == a[0];
      assert Name(b, n) != [] ==> Name(b, n)[0] == b[0];
      if !DiffersAt(a, b, 0) && a != [] && a[0] != '\0' {
        AlikeRest(a, b, n);
        SameNameIff(a[1..], b[1..], n - 1);
        assert Name(a, n)[1..] == Name(a[1..], n - 1);
        assert Name(b, n)[1..] == Name(b[1..], n - 1);
      }
    }
  }

  /** The part of a name that counts: as many of its characters as there are before the first NUL, but
      no more than n. */
  lemma {:induction false} NameIs(s: seq<char>, n: nat)
    ensures var k := |Name(s, n)|;
            && k <= n && k <= |s| && Name(s, n) == s[..k] && Reaches(s, k)
            && (k == n || k == |s| || s[k] == '\0')
    decreases n
  {
    if n > 0 && s != [] && s[0] != NUL {
      NameIs(s[1..], n - 1);
      var k := |Name(s[1..], n - 1)|;
      assert s[..k + 1] == [s[0]] + s[1..][..k];
      forall j | 0 <= j < k + 1 ensures s[j] != '\0' {
        if j > 0 { assert s[1..][j - 1] != '\0'; }
      }
    }
  }

  /** strncpy, character by character: the source up to its first NUL, then NULs; beyond n nothing changes. */
  lemma CopiedIs(dst: seq<char>, src: seq<char>, n: nat, i: nat)
    requires n <= |dst| && i < |dst|
    ensures StrNCpy(dst, CStr(src), n)[i] ==
              if i >= n then dst[i] else if i < |src| && Reaches(src, i + 1) then src[i] else '\0'
  {
    hide CStr, Padded, Reaches, StrNCpy;
    StoredAt(dst, CStr(src), n, i);
    if i < n { PaddedIs(src, n, i); }
  }

  lemma StoredAt(dst: seq<char>, src: seq<char>, n: nat, i: nat)
    requires n <= |dst| && i < |dst|
    ensures StrNCpy(dst, src, n)[i] == if i < n then Padded(src, n)[i] else dst[i]
  {
  }

  lemma {:induction false} PaddedIs(src: seq<char>, n: nat, i: nat)
    requires i < n
    ensures Padded(CStr(src), n)[i] == if i < |src| && Reaches(src, i + 1) then src[i] else '\0'
    decreases n
  {
    if src != [] && src[0] != NUL {
      assert Rest(CStr(src)) == CStr(src[1..]);
      if i > 0 {
        PaddedIs(src[1..], n - 1, i - 1);
        ReachesRest(src, i);
      }
    } else {
      NothingPadded(n, i);
      assert CStr(src) == [];
    }
  }

  lemma ReachesRest(s: seq<char>, i: nat)
    requires s != [] && s[0] != '\0'
    ensures Reaches(s, i + 1) <==> Reaches(s[1..], i)
  {
    if Reaches(s[1..], i) {
      forall j | 0 <= j < i + 1 ensures s[j] != '\0' {
        if j > 0 { assert s[1..][j - 1] != '\0'; }
      }
    }
  }

  lemma {:induction false} NothingPadded(n: nat, i: nat)
    requires i < n
    ensures Padded([], n)[i] == '\0'
  {
    if i > 0 { NothingPadded(n - 1, i - 1); }
  }

  // ------------------------------------------------------ what comparing and copying amount to

  /** strncmp of the C strings of two names compares exactly the parts that count. */
  lemma {:induction false} EqualIffSameName(a: seq<char>, b: seq<char>, n: nat)
    ensures StrNEqual(CStr(a), b, n) <==> Name(a, n) == Name(b, n)
    decreases n
  {
    if n > 0 && a != [] && b != [] && a[0] == b[0] && a[0] != NUL {
      assert Rest(CStr(a)) == CStr(a[1..]);
      EqualIffSameName(a[1..], b[1..], n - 1);
      assert Name(a, n)[1..] == Name(a[1..], n - 1);
      assert Name(b, n)[1..] == Name(b[1..], n - 1);
    }
  }

  lemma {:induction false} PaddedName(src: seq<char>, n: nat, tail: seq<char>)
    ensures Name(Padded(CStr(src), n) + tail, n) == Name(src, n)
    decreases n
  {
    var r := Padded(CStr(src), n) + tail;
    if n > 0 && src != [] && src[0] != NUL {
      PaddedName(src[1..], n - 1, tail);
      assert Rest(CStr(src)) == CStr(src[1..]);
      assert r[1..] == Padded(CStr(src[1..]), n - 1) + tail;
    }
  }

  /** Whatever the field held before, after strncpy it holds the part of the name that counts. */
  lemma CopyStoresName(dst: seq<char>, src: seq<char>, n: nat)
    requires n <= |dst|
    ensures Name(StrNCpy(dst, CStr(src), n), n) == Name(src, n)
  {
    PaddedName(src, n, dst[n..]);
  }
}
