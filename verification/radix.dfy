/** Positional notation over the 62-character alphabet `0-9A-Za-z`, most
    significant digit first. Base 62 is what the short codes use; base 10
    is what Python's `str` uses for the port number of a short URL. */
module Radix {
  import Text

  const DecimalDigits: string := "0123456789"
  const UpperLetters: string := "ABCDEFGHIJKLMNOPQRSTUVWXYZ"
  const LowerLetters: string := "abcdefghijklmnopqrstuvwxyz"

  /** The digit alphabet of `base62_encode`, in digit order: the same
      62-character string the source spells out. */
  const Alphabet: string := DecimalDigits + UpperLetters + LowerLetters

  /** The position of `c` in `Alphabet`, computed from the character code;
      62 for a character outside the alphabet. */
  function DigitValue(c: char): (d: nat)
    ensures d <= 62
    ensures d < 62 <==> Text.IsAlnum(c)
  {
    if '0' <= c <= '9' then c as int - '0' as int
    else if 'A' <= c <= 'Z' then c as int - 'A' as int + 10
    else if 'a' <= c <= 'z' then c as int - 'a' as int + 36
    else 62
  }

  /** Reading a character of the alphabet back gives its position, so the
      alphabet lists 62 distinct characters. */
  lemma AlphabetDigits()
    ensures |Alphabet| == 62
    ensures forall d :: 0 <= d < 62 ==> DigitValue(Alphabet[d]) == d
  {
    assert forall d :: 0 <= d < 10 ==> DigitValue(DecimalDigits[d]) == d;
    assert forall d :: 0 <= d < 26 ==> DigitValue(UpperLetters[d]) == d + 10;
    assert forall d :: 0 <= d < 26 ==> DigitValue(LowerLetters[d]) == d + 36;
  }

  function DigitChar(d: nat): (c: char)
    requires d < 62
    ensures DigitValue(c) == d
  {
    AlphabetDigits();
    Alphabet[d]
  }

  /** `DigitChar` and `DigitValue` are inverse on the alphabet. */
  lemma DigitCharOfValue(c: char)
    requires Text.IsAlnum(c)
    ensures DigitChar(DigitValue(c)) == c
  {
    var a := DigitChar(DigitValue(c));
    assert DigitValue(a) == DigitValue(c);
    if '0' <= c <= '9' {
      assert '0' <= a <= '9';
    } else if 'A' <= c <= 'Z' {
      assert 'A' <= a <= 'Z';
    } else {
      assert 'a' <= a <= 'z';
    }
  }

  /** Every character is a digit in base `base`. */
  predicate IsNumeral(s: string, base: nat) {
    forall i :: 0 <= i < |s| ==> DigitValue(s[i]) < base
  }

  function Pow(base: nat, k: nat): (p: nat)
    ensures base >= 1 ==> p >= 1
  {
    if k == 0 then 1 else base * Pow(base, k - 1)
  }

  /** The digits of `n` in base `base`, most significant first, without
      leading zeros; zero has no digits. */
  function Digits(n: nat, base: nat): (s: string)
    requires 2 <= base <= 62
    ensures IsNumeral(s, base)
    ensures n > 0 ==> |s| > 0 && s[0] != '0'
    ensures n == 0 ==> s == []
  {
    if n == 0 then []
    else Digits(n / base, base) + [DigitChar(n % base)]
  }

  /** The number a numeral denotes in base `base`, most significant digit first. */
  function Value(s: string, base: nat): nat
    requires IsNumeral(s, base)
  {
    if s == [] then 0
    else Value(s[..|s| - 1], base) * base + DigitValue(s[|s| - 1])
  }

  /** A numeral without leading zeros: what `Digits` produces. */
  predicate Canonical(s: string) {
    s == [] || s[0] != '0'
  }

  /** Reading the digits of `n` back gives `n`. */
  lemma {:induction false} ValueOfDigits(n: nat, base: nat)
    requires 2 <= base <= 62
    ensures Value(Digits(n, base), base) == n
  {
    if n > 0 {
      DivMod(n, base);
      var s := Digits(n, base);
      var p := Digits(n / base, base);
      var c := DigitChar(n % base);
      assert s == p + [c];
      assert s[..|s| - 1] == p;
      ValueOfDigits(n / base, base);
      assert Value(s, base) == Value(p, base) * base + DigitValue(c);
    }
  }

  lemma DivMod(n: nat, base: nat)
    requires base >= 1
    ensures 0 <= n / base <= n && 0 <= n % base < base
    ensures (n / base) * base + n % base == n
  {
  }

  /** A canonical non-empty numeral denotes a positive number. */
  lemma {:induction false} CanonicalValuePositive(s: string, base: nat)
    requires 2 <= base <= 62
    requires IsNumeral(s, base) && s != [] && Canonical(s)
    ensures Value(s, base) > 0
  {
    var p := s[..|s| - 1];
    var d := DigitValue(s[|s| - 1]);
    assert Value(s, base) == Value(p, base) * base + d;
    if p == [] {
      assert s == [s[0]];
      assert d != 0;
    } else {
      assert p[0] == s[0];
      CanonicalValuePositive(p, base);
      MulPositive(Value(p, base), base);
    }
  }

  lemma MulPositive(a: nat, b: nat)
    requires a > 0 && b > 0
    ensures a * b > 0
  {
  }

  /** Writing out the number a canonical numeral denotes gives the numeral
      back: `Digits` is onto the canonical numerals. */
  lemma {:induction false} DigitsOfValue(s: string, base: nat)
    requires 2 <= base <= 62
    requires IsNumeral(s, base) && Canonical(s)
    ensures Digits(Value(s, base), base) == s
  {
    if s != [] {
      var p := s[..|s| - 1];
      var c := s[|s| - 1];
      CanonicalValuePositive(s, base);
      assert Canonical(p) by {
        if p != [] { assert p[0] == s[0]; }
      }
      DigitsOfValue(p, base);
      DigitsAppend(Value(p, base), base, DigitValue(c));
      DigitCharOfValue(c);
      assert s == p + [c];
    }
  }

  /** Appending digit `d` to the numeral of `v` multiplies by the base and adds `d`. */
  lemma DigitsAppend(v: nat, base: nat, d: nat)
    requires 2 <= base <= 62 && d < base
    requires v * base + d > 0
    ensures Digits(v * base + d, base) == Digits(v, base) + [DigitChar(d)]
  {
    QuotientOf(v, base, d);
  }

  lemma QuotientOf(q: nat, base: nat, r: nat)
    requires r < base
    ensures (q * base + r) / base == q && (q * base + r) % base == r
  {
    var n := q * base + r;
    var q' := n / base;
    DivMod(n, base);
    if q' < q {
      MulMonotone(q' + 1, q, base);
      assert false;
    }
    if q' > q {
      MulMonotone(q + 1, q', base);
      assert false;
    }
  }

  lemma MulMonotone(a: nat, c: nat, b: nat)
    requires a <= c
    ensures a * b <= c * b
  {
    assert c * b == a * b + (c - a) * b;
  }

  /** `n` has at most `k` digits exactly when it is below `base^k`. */
  lemma {:induction false} DigitsLength(n: nat, base: nat, k: nat)
    requires 2 <= base <= 62
    ensures |Digits(n, base)| <= k <==> n < Pow(base, k)
  {
    if n > 0 && k > 0 {
      DigitsLength(n / base, base, k - 1);
      DivBelowPower(n, base, Pow(base, k - 1));
    }
  }

  lemma DivBelowPower(n: nat, base: nat, p: nat)
    requires base >= 1
    ensures n / base < p <==> n < base * p
  {
    var q := n / base;
    assert n == base * q + n % base;
    if q < p {
      assert base * q <= base * (p - 1);
    } else {
      assert base * q >= base * p;
    }
  }
}
