/** String predicates used for column discovery, and decimal rendering of question numbers. */
module Strings {

  /** Python's `s.startswith(prefix)`. */
  predicate StartsWith(s: string, prefix: string) {
    |prefix| <= |s| && s[..|prefix|] == prefix
  }

  /** Python's `s.endswith(suffix)`. */
  predicate EndsWith(s: string, suffix: string) {
    |suffix| <= |s| && s[|s| - |suffix|..] == suffix
  }

  /** Python's `part in s` for strings. */
  predicate Contains(s: string, part: string)
    decreases |s|
  {
    StartsWith(s, part) || (|s| > 0 && Contains(s[1..], part))
  }

  /** `part` occurs in `s` starting at position `i`. */
  predicate OccursAt(s: string, part: string, i: nat) {
    i + |part| <= |s| && s[i..i + |part|] == part
  }

  /** `part in s` holds exactly when `part` occurs at some position of `s`. */
  lemma {:induction false} ContainsAt(s: string, part: string)
    ensures Contains(s, part) <==> exists i: nat :: OccursAt(s, part, i)
    decreases |s|
  {
    if |s| > 0 {
      ContainsAt(s[1..], part);
      if StartsWith(s, part) {
        assert s[0..|part|] == s[..|part|];
        assert OccursAt(s, part, 0);
      }
      if exists i: nat :: OccursAt(s[1..], part, i) {
        var i: nat :| OccursAt(s[1..], part, i);
        assert s[i + 1..i + 1 + |part|] == s[1..][i..i + |part|];
        assert OccursAt(s, part, i + 1);
      }
      if exists i: nat :: OccursAt(s, part, i) {
        var i: nat :| OccursAt(s, part, i);
        if i > 0 {
          assert s[1..][i - 1..i - 1 + |part|] == s[i..i + |part|];
          assert OccursAt(s[1..], part, i - 1);
        } else {
          assert s[0..|part|] == s[..|part|];
        }
      }
    } else if Contains(s, part) {
      assert OccursAt(s, part, 0);
    }
  }

  predicate IsDigit(c: char) {
    '0' <= c <= '9'
  }

  predicate NoDigits(s: string) {
    forall k :: 0 <= k < |s| ==> !IsDigit(s[k])
  }

  function Digit(d: nat): (c: char)
    requires d < 10
    ensures IsDigit(c)
  {
    ('0' as int + d) as char
  }

  function DigitValue(c: char): int {
    c as int - '0' as int
  }

  /** `str(n)` for a non-negative integer: decimal digits, no sign, no leading zero. */
  function Decimal(n: nat): (r: string)
    ensures |r| >= 1
    ensures forall k :: 0 <= k < |r| ==> IsDigit(r[k])
    decreases n
  {
    if n < 10 then [Digit(n)] else Decimal(n / 10) + [Digit(n % 10)]
  }

  /** Reads a string of decimal digits back as a number (the inverse of `Decimal`). */
  function ParseDecimal(s: string): int
    decreases |s|
  {
    if s == [] then 0 else ParseDecimal(s[..|s| - 1]) * 10 + DigitValue(s[|s| - 1])
  }

  lemma {:induction false} DecimalRoundTrip(n: nat)
    ensures ParseDecimal(Decimal(n)) == n
    decreases n
  {
    if n >= 10 {
      var init := Decimal(n / 10);
      var s := init + [Digit(n % 10)];
      assert s[..|s| - 1] == init;
      DecimalRoundTrip(n / 10);
    }
  }

  lemma DecimalInjective(a: nat, b: nat)
    ensures Decimal(a) == Decimal(b) <==> a == b
  {
    if Decimal(a) == Decimal(b) {
      DecimalRoundTrip(a);
      DecimalRoundTrip(b);
    }
  }

  /** An f-string column label such as `f"conf_{i}"`. */
  function Label(prefix: string, i: nat): (r: string)
    ensures |r| > |prefix| && IsDigit(r[|r| - 1])
  {
    prefix + Decimal(i)
  }

  /** Two labels built from digit-free prefixes are equal exactly when prefix and number agree. */
  lemma {:induction false} LabelInjective(p1: string, i: nat, p2: string, j: nat)
    requires NoDigits(p1) && NoDigits(p2)
    ensures Label(p1, i) == Label(p2, j) <==> p1 == p2 && i == j
  {
    var s1, s2 := Label(p1, i), Label(p2, j);
    if s1 == s2 {
      if |p1| < |p2| {
        LabelDigitAt(p1, i);
        assert false;
      } else if |p2| < |p1| {
        LabelDigitAt(p2, j);
        assert false;
      }
      assert p1 == s1[..|p1|] && p2 == s2[..|p2|];
      assert Decimal(i) == s1[|p1|..] && Decimal(j) == s2[|p2|..];
      DecimalInjective(i, j);
    }
  }

  lemma LabelDigitAt(prefix: string, i: nat)
    ensures IsDigit(Label(prefix, i)[|prefix|])
  {
    assert Label(prefix, i)[|prefix|] == Decimal(i)[0];
  }

  /** A name whose last character is not a digit is never a label. */
  lemma PlainNameIsNoLabel(name: string, prefix: string, i: nat)
    requires |name| > 0 && !IsDigit(name[|name| - 1])
    ensures name != Label(prefix, i)
  {
  }
}
