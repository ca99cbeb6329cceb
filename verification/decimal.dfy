/** Decimal rendering of unsigned integers, as Rust's `{}` formats a `usize`,
    and the matching parser used to read a `Content-Length` value back. */
module Decimal {

  import opened Bytes

  /** ASCII '0'. */
  const Zero: byte := 48

  predicate IsDigit(b: byte) {
    Zero <= b <= Zero + 9
  }

  predicate AllDigits(s: seq<byte>) {
    forall i | 0 <= i < |s| :: IsDigit(s[i])
  }

  /** The shape `{}` gives an unsigned integer: at least one ASCII digit, and no
      leading zero unless the number is zero itself. */
  predicate IsCanonical(s: seq<byte>) {
    |s| > 0 && AllDigits(s) && (s[0] == Zero ==> |s| == 1)
  }

  function DigitValue(b: byte): (d: nat)
    requires IsDigit(b)
    ensures d < 10
  {
    (b - Zero) as nat
  }

  function DigitByte(d: nat): (b: byte)
    requires d < 10
    ensures IsDigit(b) && DigitValue(b) == d
  {
    Zero + d as byte
  }

  /** Most significant digit first, no padding and no sign. */
  function NatToDecimal(n: nat): (r: seq<byte>)
    ensures IsCanonical(r)
    ensures r[0] == Zero <==> n == 0
    decreases n
  {
    if n < 10 then [DigitByte(n)] else NatToDecimal(n / 10) + [DigitByte(n % 10)]
  }

  /** The number a string of decimal digits denotes (the empty string denotes 0). */
  function ParseDecimal(s: seq<byte>): nat
    requires AllDigits(s)
    decreases |s|
  {
    if |s| == 0 then 0 else 10 * ParseDecimal(s[..|s| - 1]) + DigitValue(s[|s| - 1])
  }

  /** Reading the rendered digits back gives the number that was rendered. */
  lemma {:induction false} ParseNatToDecimal(n: nat)
    ensures ParseDecimal(NatToDecimal(n)) == n
    decreases n
  {
    if n >= 10 {
      var s := NatToDecimal(n);
      assert s[..|s| - 1] == NatToDecimal(n / 10);
      ParseNatToDecimal(n / 10);
    }
  }

  /** A digit string that starts with a non-zero digit denotes a positive number. */
  lemma {:induction false} ParsePositive(s: seq<byte>)
    requires |s| > 0 && AllDigits(s) && s[0] != Zero
    ensures ParseDecimal(s) > 0
    decreases |s|
  {
    if |s| > 1 {
      ParsePositive(s[..|s| - 1]);
    }
  }

  /** Rendering a parsed canonical string gives the string back, so each number
      has exactly one canonical rendering and it is the one `{}` produces. */
  lemma {:induction false} NatToDecimalParse(s: seq<byte>)
    requires IsCanonical(s)
    ensures NatToDecimal(ParseDecimal(s)) == s
    decreases |s|
  {
    if |s| > 1 {
      var front := s[..|s| - 1];
      var d := DigitValue(s[|s| - 1]);
      assert IsCanonical(front);
      ParsePositive(front);
      NatToDecimalParse(front);
      var n := ParseDecimal(s);
      assert n == 10 * ParseDecimal(front) + d;
      assert n / 10 == ParseDecimal(front) && n % 10 == d;
      assert s == front + [s[|s| - 1]];
    }
  }

}
