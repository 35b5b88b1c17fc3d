/**
 * Default spreadsheet column names: a bijective base-26 encoding of the
 * column position (0 -> "A", 25 -> "Z", 26 -> "AA"), made unique against the
 * names already taken by appending " (2)", " (3)", ...
 */
module Naming {

  /** A non-empty string of the capital letters A..Z. */
  predicate IsLetters(s: string) {
    |s| > 0 && forall i :: 0 <= i < |s| ==> 'A' <= s[i] <= 'Z'
  }

  /** The letters for position `n`: the last letter is n mod 26, the rest name n / 26 - 1. */
  function Letters(n: nat): string
    decreases n
  {
    if n < 26 then [(65 + n) as char]
    else Letters(n / 26 - 1) + [(65 + n % 26) as char]
  }

  /** The position a letter string stands for: the inverse of Letters. */
  function LettersValue(s: string): int
    requires IsLetters(s)
    decreases |s|
  {
    if |s| == 1 then s[0] as int - 65
    else (LettersValue(s[..|s| - 1]) + 1) * 26 + (s[|s| - 1] as int - 65)
  }

  lemma {:induction false} LettersValueNonNegative(s: string)
    requires IsLetters(s)
    ensures LettersValue(s) >= 0
    ensures |s| > 1 ==> LettersValue(s) >= 26
    decreases |s|
  {
    if |s| > 1 {
      LettersValueNonNegative(s[..|s| - 1]);
    }
  }

  /** Letters(n) is a letter string that decodes back to n. */
  lemma {:induction false} LettersRoundTrip(n: nat)
    ensures IsLetters(Letters(n))
    ensures LettersValue(Letters(n)) == n
    decreases n
  {
    if n >= 26 {
      var m := n / 26 - 1;
      LettersRoundTrip(m);
      var s := Letters(n);
      assert s[..|s| - 1] == Letters(m);
    }
  }

  /** Every letter string is the name of exactly the position it decodes to. */
  lemma {:induction false} LettersOnto(s: string)
    requires IsLetters(s)
    ensures LettersValue(s) >= 0 && Letters(LettersValue(s)) == s
    decreases |s|
  {
    LettersValueNonNegative(s);
    if |s| > 1 {
      var t := s[..|s| - 1];
      LettersOnto(t);
      LettersValueNonNegative(t);
      var v := LettersValue(s);
      var d := s[|s| - 1] as int - 65;
      assert v == (LettersValue(t) + 1) * 26 + d && 0 <= d < 26;
      assert v / 26 - 1 == LettersValue(t) && v % 26 == d;
      assert s == t + [s[|s| - 1]];
    }
  }

  /** Distinct positions get distinct letter names. */
  lemma LettersInjective(m: nat, n: nat)
    ensures Letters(m) == Letters(n) ==> m == n
  {
    LettersRoundTrip(m);
    LettersRoundTrip(n);
  }

  lemma LettersExamples()
    ensures Letters(0) == "A" && Letters(25) == "Z"
    ensures Letters(26) == "AA" && Letters(27) == "AB" && Letters(701) == "ZZ" && Letters(702) == "AAA"
  {
  }

  /** A non-empty string of the decimal digits 0..9. */
  predicate IsDigits(s: string) {
    |s| > 0 && forall i :: 0 <= i < |s| ==> '0' <= s[i] <= '9'
  }

  /** Decimal rendering of a natural number, as Python's str() gives it. */
  function NatStr(n: nat): string
    decreases n
  {
    if n < 10 then [(48 + n) as char]
    else NatStr(n / 10) + [(48 + n % 10) as char]
  }

  function DigitsValue(s: string): nat
    requires IsDigits(s)
    decreases |s|
  {
    if |s| == 1 then s[0] as int - 48
    else DigitsValue(s[..|s| - 1]) * 10 + (s[|s| - 1] as int - 48)
  }

  lemma {:induction false} NatStrRoundTrip(n: nat)
    ensures IsDigits(NatStr(n))
    ensures DigitsValue(NatStr(n)) == n
    decreases n
  {
    if n >= 10 {
      NatStrRoundTrip(n / 10);
      var s := NatStr(n);
      assert s[..|s| - 1] == NatStr(n / 10);
    }
  }

  /** The k-th name tried for `base`: `base` itself first, then "base (k)" from k = 2 on. */
  function Candidate(base: string, k: nat): string {
    if k < 2 then base else base + " (" + NatStr(k) + ")"
  }

  lemma CandidateInjective(base: string, j: nat, k: nat)
    requires j >= 1 && k >= 1
    ensures Candidate(base, j) == Candidate(base, k) ==> j == k
  {
    if Candidate(base, j) == Candidate(base, k) && j >= 2 && k >= 2 {
      var s := Candidate(base, j);
      var b := |base| + 2;
      assert NatStr(j) == s[b..|s| - 1];
      assert NatStr(k) == s[b..|s| - 1];
      NatStrRoundTrip(j);
      NatStrRoundTrip(k);
    }
  }

  /** The first candidate index from `k` on whose name is not taken. */
  function FreeIndex(base: string, taken: set<string>, k: nat): (r: nat)
    ensures r >= k
    decreases taken
  {
    if Candidate(base, k) !in taken then k
    else FreeIndex(base, taken - {Candidate(base, k)}, k + 1)
  }

  /** FreeIndex is the least index from `k` on whose candidate is free. */
  lemma {:induction false} FreeIndexLeast(base: string, taken: set<string>, k: nat)
    requires k >= 1
    ensures Candidate(base, FreeIndex(base, taken, k)) !in taken
    ensures forall i :: k <= i < FreeIndex(base, taken, k) ==> Candidate(base, i) in taken
    decreases taken
  {
    var c := Candidate(base, k);
    if c in taken {
      var rest := taken - {c};
      FreeIndexLeast(base, rest, k + 1);
      var r := FreeIndex(base, rest, k + 1);
      CandidateInjective(base, k, r);
    }
  }

  /** Any index that is free and has every earlier candidate taken is the FreeIndex. */
  lemma FreeIndexUnique(base: string, taken: set<string>, k: nat, r: nat)
    requires 1 <= k <= r
    requires Candidate(base, r) !in taken
    requires forall i :: k <= i < r ==> Candidate(base, i) in taken
    ensures r == FreeIndex(base, taken, k)
  {
    FreeIndexLeast(base, taken, k);
  }

  /** The name given to a new column at `index` when `taken` are the names in use. */
  function DefaultName(index: nat, taken: set<string>): string {
    Candidate(Letters(index), FreeIndex(Letters(index), taken, 1))
  }

  /**
   * The default name is never taken; it is the plain letters when those are
   * free, and otherwise the letters with the smallest free suffix " (k)", k >= 2.
   */
  lemma DefaultNameFree(index: nat, taken: set<string>)
    ensures DefaultName(index, taken) !in taken
    ensures Letters(index) !in taken ==> DefaultName(index, taken) == Letters(index)
    ensures Letters(index) in taken ==>
      var k := FreeIndex(Letters(index), taken, 1);
      k >= 2 && DefaultName(index, taken) == Letters(index) + " (" + NatStr(k) + ")" &&
      forall i :: 2 <= i < k ==> Letters(index) + " (" + NatStr(i) + ")" in taken
  {
    var base := Letters(index);
    FreeIndexLeast(base, taken, 1);
    var k := FreeIndex(base, taken, 1);
    if base in taken {
      assert k != 1;
      forall i | 2 <= i < k ensures base + " (" + NatStr(i) + ")" in taken {
        assert Candidate(base, i) in taken;
      }
    }
  }

  lemma DefaultNameExamples()
    ensures DefaultName(0, {}) == "A"
    ensures DefaultName(26, {"AA"}) == "AA (2)"
    ensures DefaultName(26, {"AA", "AA (2)"}) == "AA (3)"
  {
    assert Letters(26) == "AA";
    assert NatStr(2) == "2" && NatStr(3) == "3";
    assert "AA" + " (" + "2" + ")" == "AA (2)";
    assert "AA" + " (" + "3" + ")" == "AA (3)";
    assert Candidate("AA", 2) == "AA (2)" && Candidate("AA", 3) == "AA (3)";
    assert {"AA", "AA (2)"} - {"AA"} == {"AA (2)"};
    assert {"AA (2)"} - {"AA (2)"} == {};
    assert FreeIndex("AA", {}, 3) == 3;
    assert FreeIndex("AA", {"AA (2)"}, 2) == 3;
  }
}
