/** Small shared vocabulary: nullable values, outcomes, and the text operations the
    repository applies to delivery keys and functional keys. */
module Common {

  /** A value that may be SQL NULL / a .NET null reference. */
  datatype Option<+T> = None | Some(value: T)

  /** An operation that either completes or throws the carried error. */
  datatype Outcome<+E> = Pass | Fail(error: E)

  /** An operation that either returns a value or throws the carried error. */
  datatype Result<+T, +E> = Ok(value: T) | Err(error: E)

  /** Invariant lower-casing, restricted to the ASCII letters. */
  function LowerChar(c: char): (r: char)
    ensures 'A' <= c <= 'Z' ==> 'a' <= r <= 'z' && r as int == c as int + 32
    ensures !('A' <= c <= 'Z') ==> r == c
  {
    if 'A' <= c <= 'Z' then (c as int + 32) as char else c
  }

  function Lower(s: string): (r: string)
    ensures |r| == |s|
    ensures forall i :: 0 <= i < |s| ==> r[i] == LowerChar(s[i])
  {
    seq(|s|, i requires 0 <= i < |s| => LowerChar(s[i]))
  }

  /** `string.Equals(a, b, StringComparison.OrdinalIgnoreCase)` on ASCII text. */
  predicate EqualsIgnoreCase(a: string, b: string)
  {
    Lower(a) == Lower(b)
  }

  /** The 32-bit integer range of a .NET `int`. */
  predicate IsInt32(x: int)
  {
    -0x8000_0000 <= x < 0x8000_0000
  }

  /** Unchecked .NET `int` arithmetic: the result is taken modulo 2^32 into the signed range. */
  function Wrap32(x: int): (r: int)
    ensures IsInt32(r)
    ensures (x - r) % 0x1_0000_0000 == 0
    ensures IsInt32(x) ==> r == x
  {
    (x + 0x8000_0000) % 0x1_0000_0000 - 0x8000_0000
  }

  function DigitChar(d: int): (c: char)
    requires 0 <= d < 10
    ensures '0' <= c <= '9'
  {
    ('0' as int + d) as char
  }

  /** Decimal text of a natural number, most significant digit first. */
  function NatString(n: nat): (s: string)
    ensures |s| > 0
    ensures forall i :: 0 <= i < |s| ==> '0' <= s[i] <= '9'
  {
    if n < 10 then [DigitChar(n)] else NatString(n / 10) + [DigitChar(n % 10)]
  }

  /** `int.ToString()` in the invariant culture. */
  function DecimalString(n: int): (s: string)
    ensures |s| > 0
    ensures (s[0] == '-') <==> n < 0
  {
    if n < 0 then "-" + NatString(-n) else NatString(n)
  }

  predicate AllDigits(s: string)
  {
    forall i :: 0 <= i < |s| ==> '0' <= s[i] <= '9'
  }

  /** `int.Parse` of unsigned decimal text, most significant digit first. */
  function ParseNat(s: string): (n: nat)
    requires AllDigits(s)
    ensures |s| == 1 ==> n == s[0] as int - '0' as int
  {
    if |s| == 0 then 0 else ParseNat(s[..|s| - 1]) * 10 + (s[|s| - 1] as int - '0' as int)
  }

  /** `int.Parse` of the text `DecimalString` writes: an optional minus sign, then digits. */
  function ParseDecimal(s: string): (n: int)
    requires |s| > 0 && (s[0] == '-' ==> AllDigits(s[1..])) && (s[0] != '-' ==> AllDigits(s))
    ensures s[0] != '-' ==> n >= 0
  {
    if s[0] == '-' then -(ParseNat(s[1..]) as int) else ParseNat(s)
  }

  /** Reading back the digits of a natural number gives the number. */
  lemma {:induction false} NatStringRoundTrip(n: nat)
    ensures ParseNat(NatString(n)) == n
    decreases n
  {
    if n >= 10 {
      var s := NatString(n);
      assert s[..|s| - 1] == NatString(n / 10);
      NatStringRoundTrip(n / 10);
    }
  }

  /** Reading back the decimal text of any integer gives the integer. */
  lemma DecimalStringRoundTrip(n: int)
    ensures var s := DecimalString(n);
            && |s| > 0 && (s[0] == '-' ==> AllDigits(s[1..])) && (s[0] != '-' ==> AllDigits(s))
            && ParseDecimal(s) == n
  {
    if n < 0 {
      var s := DecimalString(n);
      assert s[1..] == NatString(-n);
      NatStringRoundTrip(-n);
    } else {
      NatStringRoundTrip(n);
    }
  }
}
