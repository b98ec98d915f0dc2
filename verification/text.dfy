/** Character-level building blocks of the three line patterns: ASCII decimal
    digits, their values, literal occurrences, and the leftmost-position search
    that an unanchored regular-expression search performs. */
module Text {
  import opened Wrappers

  predicate IsDigit(c: char) {
    '0' <= c <= '9'
  }

  predicate AllDigits(s: string) {
    forall i :: 0 <= i < |s| ==> IsDigit(s[i])
  }

  function DigitValue(c: char): (d: nat)
    requires IsDigit(c)
    ensures d < 10
  {
    c as int - '0' as int
  }

  function DigitChar(d: nat): (c: char)
    requires d < 10
    ensures IsDigit(c) && DigitValue(c) == d
  {
    ('0' as int + d) as char
  }

  /** The value of a string of decimal digits, most significant first, as
      Python's `int()` and `float()` read it (leading zeros allowed). */
  function DigitsValue(s: string): nat
    requires AllDigits(s)
    decreases |s|
  {
    if |s| == 0 then 0 else 10 * DigitsValue(s[..|s| - 1]) + DigitValue(s[|s| - 1])
  }

  /** Appending a digit shifts the value one decimal place. */
  lemma DigitsValueSnoc(s: string, c: char)
    requires AllDigits(s) && IsDigit(c)
    ensures AllDigits(s + [c])
    ensures DigitsValue(s + [c]) == 10 * DigitsValue(s) + DigitValue(c)
  {
    assert (s + [c])[..|s|] == s;
  }

  function Pow10(n: nat): (r: nat)
    ensures r >= 1
  {
    if n == 0 then 1 else 10 * Pow10(n - 1)
  }

  /** A digit string of length `n` is worth less than `10^n`. */
  lemma {:induction false} DigitsValueBound(s: string)
    requires AllDigits(s)
    ensures DigitsValue(s) < Pow10(|s|)
    decreases |s|
  {
    if |s| > 0 {
      var init := s[..|s| - 1];
      DigitsValueBound(init);
      assert DigitsValue(s) <= 10 * (Pow10(|init|) - 1) + 9;
    }
  }

  /** The value of two digit strings written one after the other: the first
      shifted left by the length of the second, plus the second. */
  lemma {:induction false} DigitsValueConcat(a: string, b: string)
    requires AllDigits(a) && AllDigits(b)
    ensures AllDigits(a + b)
    ensures DigitsValue(a + b) == DigitsValue(a) * Pow10(|b|) + DigitsValue(b)
    decreases |b|
  {
    if |b| == 0 {
      assert a + b == a;
    } else {
      var init, c := b[..|b| - 1], b[|b| - 1];
      assert b == init + [c];
      assert a + b == (a + init) + [c];
      DigitsValueConcat(a, init);
      DigitsValueSnoc(a + init, c);
      DigitsValueSnoc(init, c);
      ShiftDigit(DigitsValue(a + b), DigitsValue(a), Pow10(|init|), DigitsValue(init), DigitValue(c),
                 DigitsValue(b), Pow10(|b|));
    }
  }

  /** The arithmetic of appending one digit to the second string. */
  lemma ShiftDigit(v: int, x: int, p: int, y: int, d: int, w: int, q: int)
    requires v == 10 * (x * p + y) + d && w == 10 * y + d && q == 10 * p
    ensures v == x * q + w
  {
  }

  /** A leading zero does not change the value: "05" and "5" both read as 5. */
  lemma {:induction false} LeadingZeroIgnored(s: string)
    requires AllDigits(s)
    ensures AllDigits("0" + s)
    ensures DigitsValue("0" + s) == DigitsValue(s)
    decreases |s|
  {
    var z := "0" + s;
    assert forall i :: 0 <= i < |z| ==> IsDigit(z[i]);
    if |s| > 0 {
      assert z[..|z| - 1] == "0" + s[..|s| - 1];
      LeadingZeroIgnored(s[..|s| - 1]);
    }
  }

  /** The length of the maximal run of digits that starts at position `p`:
      what a greedy `\d+` consumes there. */
  function DigitRun(s: string, p: nat): (n: nat)
    requires p <= |s|
    ensures p + n <= |s|
    ensures forall i :: p <= i < p + n ==> IsDigit(s[i])
    ensures p + n == |s| || !IsDigit(s[p + n])
    decreases |s| - p
  {
    if p < |s| && IsDigit(s[p]) then 1 + DigitRun(s, p + 1) else 0
  }

  /** A digit string that stands in `s` at `p` and is not followed by another
      digit is the whole digit run there. */
  lemma {:induction false} DigitRunOfLiteral(s: string, p: nat, d: string)
    requires AllDigits(d) && p + |d| <= |s| && s[p..p + |d|] == d
    requires p + |d| == |s| || !IsDigit(s[p + |d|])
    ensures DigitRun(s, p) == |d|
    decreases |d|
  {
    if |d| > 0 {
      assert s[p] == d[0];
      assert s[p + 1..p + |d|] == d[1..];
      DigitRunOfLiteral(s, p + 1, d[1..]);
    }
  }

  /** The literal `lit` occurs in `s` starting at position `p`. */
  predicate LiteralAt(s: string, p: nat, lit: string) {
    p + |lit| <= |s| && s[p..p + |lit|] == lit
  }

  /** Two adjacent literal occurrences are an occurrence of their concatenation. */
  lemma LiteralAtConcat(s: string, p: nat, a: string, b: string)
    ensures LiteralAt(s, p, a + b) <==> LiteralAt(s, p, a) && LiteralAt(s, p + |a|, b)
  {
    if LiteralAt(s, p, a) && LiteralAt(s, p + |a|, b) {
      assert s[p..p + |a + b|] == s[p..p + |a|] + s[p + |a|..p + |a| + |b|];
    }
    if LiteralAt(s, p, a + b) {
      assert s[p..p + |a|] == (a + b)[..|a|];
      assert s[p + |a|..p + |a| + |b|] == (a + b)[|a|..];
    }
  }

  /** Three adjacent literal occurrences are an occurrence of their
      concatenation. */
  lemma LiteralAt3(s: string, p: nat, a: string, b: string, c: string)
    ensures LiteralAt(s, p, a + b + c) <==>
      LiteralAt(s, p, a) && LiteralAt(s, p + |a|, b) && LiteralAt(s, p + |a| + |b|, c)
  {
    LiteralAtConcat(s, p, a + b, c);
    LiteralAtConcat(s, p, a, b);
  }

  /** `fields` with `seps[i]` written between `fields[i]` and `fields[i + 1]`. */
  function Joined(fields: seq<string>, seps: string): (s: string)
    requires |fields| == |seps| + 1
    decreases |seps|
  {
    if |seps| == 0 then fields[0] else fields[0] + [seps[0]] + Joined(fields[1..], seps[1..])
  }

  /** The least position in `from..end` at which `at` matches: the position
      an unanchored search reports when `at` is the pattern anchored at a
      position. */
  function Leftmost<T>(at: nat -> Option<T>, from: nat, end: nat): (k: Option<nat>)
    ensures k.Some? ==> from <= k.value <= end && at(k.value).Some?
    ensures k.Some? ==> forall j :: from <= j < k.value ==> at(j).None?
    ensures k.None? ==> forall j :: from <= j <= end ==> at(j).None?
    decreases end + 1 - from
  {
    if from > end then None
    else if at(from).Some? then Some(from)
    else Leftmost(at, from + 1, end)
  }
}
