/**
 * Positional digit strings in base 2..16 with lower-case letters, the
 * rendering behind Python's `hex(n)` and the `{n:02d}` format field.
 */
module Numerals {

  /** The character of digit `d`: '0'..'9', then 'a'..'f'. */
  function DigitChar(d: nat): (c: char)
    requires d < 16
    ensures IsDigit(c, 16)
  {
    if d < 10 then ('0' as int + d) as char else ('a' as int + d - 10) as char
  }

  /** The value of a digit character, or -1 for any other character. */
  function DigitValue(c: char): int
  {
    if '0' <= c <= '9' then c as int - '0' as int
    else if 'a' <= c <= 'f' then c as int - 'a' as int + 10
    else -1
  }

  predicate IsDigit(c: char, base: nat)
  {
    0 <= DigitValue(c) < base
  }

  /** A digit string as Python renders a number: non-empty digits, no leading zero unless it is "0". */
  predicate Canonical(s: string, base: nat)
  {
    && |s| >= 1
    && (forall i :: 0 <= i < |s| ==> IsDigit(s[i], base))
    && (s[0] == '0' ==> |s| == 1)
  }

  lemma DivModFacts(n: nat, base: nat)
    requires 2 <= base
    ensures n == (n / base) * base + n % base
    ensures 0 <= n % base < base
    ensures n >= base ==> 1 <= n / base < n
  {
  }

  /** Most significant digit first, no leading zero (zero itself is "0"). */
  function Digits(n: nat, base: nat): (s: string)
    requires 2 <= base <= 16
    ensures 1 <= |s|
    ensures forall i :: 0 <= i < |s| ==> IsDigit(s[i], base)
    ensures n >= base ==> |s| >= 2
    ensures s[0] == '0' ==> n == 0
    ensures Canonical(s, base)
    decreases n
  {
    if n < base then [DigitChar(n)]
    else
      DivModFacts(n, base);
      Digits(n / base, base) + [DigitChar(n % base)]
  }

  /** The number a digit string denotes, read most significant digit first. */
  function Value(s: string, base: nat): int
  {
    if s == [] then 0
    else Value(s[..|s| - 1], base) * base + DigitValue(s[|s| - 1])
  }

  lemma {:induction false} ValueOfDigits(n: nat, base: nat)
    requires 2 <= base <= 16
    ensures Value(Digits(n, base), base) == n
    decreases n
  {
    var s := Digits(n, base);
    if n >= base {
      DivModFacts(n, base);
      ValueOfDigits(n / base, base);
      assert s[..|s| - 1] == Digits(n / base, base);
    }
  }

  /** Digit characters and their values correspond one to one. */
  lemma DigitRoundTrip(c: char, base: nat)
    requires base <= 16 && IsDigit(c, base)
    ensures DigitChar(DigitValue(c)) == c
    ensures DigitValue(c) == 0 <==> c == '0'
  {
  }

  lemma MulAtLeast(k: nat, b: nat)
    requires k >= 1
    ensures k * b >= b
  {
    assert k * b == (k - 1) * b + b;
  }

  /** A non-zero multiple of `b` is at least `b` away from zero. */
  lemma MulSign(k: int, b: nat)
    ensures k >= 1 ==> k * b >= b
    ensures k <= -1 ==> k * b <= -(b as int)
  {
    if k >= 1 {
      MulAtLeast(k, b);
    } else if k <= -1 {
      MulAtLeast(-k, b);
      assert (-k) * b == -(k * b);
    }
  }

  /** The only multiple of `b` strictly between `-b` and `b` is zero. */
  lemma SmallMultipleIsZero(k: int, b: nat)
    requires b >= 1 && -(b as int) < k * b < b
    ensures k == 0
  {
    MulSign(k, b);
  }

  lemma DivModUnique(q: nat, d: nat, base: nat)
    requires 2 <= base && d < base
    ensures (q * base + d) / base == q && (q * base + d) % base == d
  {
    var n := q * base + d;
    DivModFacts(n, base);
    var q', d' := n / base, n % base;
    assert (q - q') * base == q * base - q' * base;
    SmallMultipleIsZero(q - q', base);
  }

  /** A digit string with a non-zero first digit denotes at least 1. */
  lemma {:induction false} ValuePositive(s: string, base: nat)
    requires 2 <= base <= 16 && |s| >= 1
    requires forall i :: 0 <= i < |s| ==> IsDigit(s[i], base)
    ensures Value(s, base) >= 0
    ensures s[0] != '0' ==> Value(s, base) >= 1
    decreases |s|
  {
    DigitRoundTrip(s[|s| - 1], base);
    var p := s[..|s| - 1];
    if |s| > 1 {
      assert p[0] == s[0];
      ValuePositive(p, base);
      assert Value(s, base) == Value(p, base) * base + DigitValue(s[|s| - 1]);
      if Value(p, base) >= 1 {
        MulAtLeast(Value(p, base), base);
      } else {
        assert Value(p, base) == 0;
      }
    } else {
      assert p == [];
    }
  }

  /** Appending a digit to a number of at least one digit. */
  lemma DigitsAppend(q: nat, d: nat, base: nat)
    requires 2 <= base <= 16 && q >= 1 && d < base
    ensures Digits(q * base + d, base) == Digits(q, base) + [DigitChar(d)]
  {
    DivModUnique(q, d, base);
    MulAtLeast(q, base);
  }

  /** `Digits` is the only canonical rendering: any canonical digit string is `Digits` of its value. */
  lemma {:induction false} CanonicalIsDigits(s: string, base: nat)
    requires 2 <= base <= 16 && Canonical(s, base)
    ensures Value(s, base) >= 0 && s == Digits(Value(s, base), base)
    decreases |s|
  {
    ValuePositive(s, base);
    var c := s[|s| - 1];
    DigitRoundTrip(c, base);
    var p := s[..|s| - 1];
    if |s| == 1 {
      assert p == [];
    } else {
      assert p[0] == s[0] != '0';
      ValuePositive(p, base);
      CanonicalIsDigits(p, base);
      DigitsAppend(Value(p, base), DigitValue(c), base);
      assert s == p + [c];
    }
  }

  /** Python's `hex(n)` for a non-negative `n`: lower-case digits without leading zeros. */
  function Hex(n: nat): (s: string)
    ensures |s| >= 3 && s[..2] == "0x"
    ensures Canonical(s[2..], 16)
    ensures Value(s[2..], 16) == n
  {
    ValueOfDigits(n, 16);
    assert ("0x" + Digits(n, 16))[2..] == Digits(n, 16);
    "0x" + Digits(n, 16)
  }

  /** Python's `f"{n:02d}"` for a non-negative `n`: decimal, zero-padded to width two. */
  function Pad2(n: nat): (s: string)
    ensures |s| >= 2
    ensures n < 100 ==> |s| == 2
    ensures forall i :: 0 <= i < |s| ==> IsDigit(s[i], 10)
    ensures Value(s, 10) == n
    ensures s[0] == '0' ==> n < 10
  {
    ValueOfDigits(n, 10);
    if n < 10 then
      assert ['0'] + Digits(n, 10) == ['0', DigitChar(n)];
      assert Value(['0'], 10) == 0;
      ['0'] + Digits(n, 10)
    else
      assert n < 100 ==> n / 10 < 10;
      Digits(n, 10)
  }
}
