/** `base62_encode` (app.py): a whole number written in base 62 over
    `0-9A-Za-z`, most significant digit first. */
module Base62 {
  import Text
  import Radix

  const Base: nat := 62

  /** `base62_encode(num)`. Zero is written "0"; a positive number is
      written without leading zeros; for a negative number the digit loop
      never runs and the result is empty. */
  function Encode(num: int): (s: string)
    ensures num == 0 ==> s == "0"
    ensures num > 0 ==> |s| > 0 && s[0] != '0'
    ensures num < 0 ==> s == ""
    ensures Radix.IsNumeral(s, Base) && Text.AllAlnum(s)
  {
    if num == 0 then "0"
    else if num < 0 then ""
    else Radix.Digits(num, Base)
  }

  /** The source's loop: repeatedly split off the last digit with `divmod`
      and prepend its character, until nothing is left. */
  method EncodeLoop(num: int) returns (encoded: string)
    ensures encoded == Encode(num)
  {
    if num == 0 {
      return "0";
    }
    var characters := Radix.Alphabet;
    Radix.AlphabetDigits();
    var base := |characters|;
    encoded := "";
    var n := num;
    while n > 0
      invariant num < 0 ==> n == num && encoded == ""
      invariant num > 0 ==> n >= 0 && Radix.Digits(n, Base) + encoded == Radix.Digits(num, Base)
      decreases if n > 0 then n else 0
    {
      var rem := n % base;
      n := n / base;
      assert characters[rem] == Radix.DigitChar(rem);
      encoded := [characters[rem]] + encoded;
    }
  }

  /** Reading `Encode(n)` back most significant digit first gives `n`. */
  function Decode(s: string): (n: nat)
    requires Radix.IsNumeral(s, Base)
  {
    Radix.Value(s, Base)
  }

  /** Round trip: decoding the encoding of a whole number returns it. */
  lemma DecodeEncode(n: nat)
    ensures Decode(Encode(n)) == n
  {
    if n > 0 {
      Radix.ValueOfDigits(n, Base);
    } else {
      var s := Encode(n);
      assert s == "0" && s[..0] == [];
      assert Radix.DigitValue(s[0]) == 0;
      assert Radix.Value(s, Base) == Radix.Value([], Base) * Base + 0;
    }
  }

  /** Distinct whole numbers have distinct encodings. */
  lemma EncodeInjective(a: nat, b: nat)
    ensures Encode(a) == Encode(b) <==> a == b
  {
    DecodeEncode(a);
    DecodeEncode(b);
  }

  /** The encodings are exactly the non-empty numerals over the alphabet
      without a leading zero, plus "0": each of these is the encoding of
      the number it denotes. */
  lemma EncodeDecode(s: string)
    requires Radix.IsNumeral(s, Base) && s != []
    requires s == "0" || s[0] != '0'
    ensures Encode(Decode(s)) == s
  {
    if s != "0" {
      Radix.CanonicalValuePositive(s, Base);
      Radix.DigitsOfValue(s, Base);
    }
  }

  /** For a positive number, the encoding has at most `k` characters
      exactly when the number is below 62^k. */
  lemma EncodeLength(n: nat, k: nat)
    requires n > 0
    ensures |Encode(n)| <= k <==> n < Radix.Pow(Base, k)
  {
    Radix.DigitsLength(n, Base, k);
  }

  /** The time component of a retry-path code: any value below 1,000,000
      encodes to one to four characters, because 62^4 = 14,776,336. */
  lemma EncodeBelowMillion(n: nat)
    requires n < 1000000
    ensures 1 <= |Encode(n)| <= 4
  {
    if n > 0 {
      assert Radix.Pow(Base, 4) == 14776336;
      EncodeLength(n, 4);
    }
  }
}
