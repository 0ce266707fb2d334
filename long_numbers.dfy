/**
 * Signed 64-bit integers (C# `long`) over Dafny's unbounded `int`: the range,
 * the unchecked wrap-around of `+` and `-`, and `long.TryParse` on the ASCII
 * digit strings a `\d+` group can capture.
 */
module LongNumbers {
  import opened Options

  const TwoTo63: int := 0x8000_0000_0000_0000
  const TwoTo64: int := 0x1_0000_0000_0000_0000
  const MaxLong: int := TwoTo63 - 1
  const MinLong: int := -TwoTo63

  predicate IsLong(x: int) {
    MinLong <= x <= MaxLong
  }

  /**
   * The value C# computes for `x` in an unchecked `long` context: `x`
   * brought into the signed 64-bit range by adding or removing 2^64.
   */
  function Wrap64(x: int): (r: int)
    ensures IsLong(r)
    ensures IsLong(x) ==> r == x
    ensures MaxLong < x <= MaxLong + TwoTo64 ==> r == x - TwoTo64
    decreases if x > MaxLong then x - MaxLong else if x < MinLong then MinLong - x else 0
  {
    if x > MaxLong then Wrap64(x - TwoTo64) else if x < MinLong then Wrap64(x + TwoTo64) else x
  }

  /** Wrapping keeps the value modulo 2^64. */
  lemma {:induction false} Wrap64Congruent(x: int)
    ensures (x - Wrap64(x)) % TwoTo64 == 0
    decreases if x > MaxLong then x - MaxLong else if x < MinLong then MinLong - x else 0
  {
    if x > MaxLong {
      Wrap64Congruent(x - TwoTo64);
    } else if x < MinLong {
      Wrap64Congruent(x + TwoTo64);
    }
  }

  predicate IsDigit(c: char) {
    '0' <= c <= '9'
  }

  function DigitValue(c: char): nat
    requires IsDigit(c)
  {
    c as int - '0' as int
  }

  function DigitChar(d: nat): char
    requires d < 10
  {
    ('0' as int + d) as char
  }

  predicate AllDigits(t: string) {
    forall i :: 0 <= i < |t| ==> IsDigit(t[i])
  }

  /** What `\d+` captures: a non-empty run of digits. */
  predicate IsNumeral(t: string) {
    |t| > 0 && AllDigits(t)
  }

  /** The decimal value of a digit string, most significant digit first; leading zeros add nothing. */
  function NumeralValue(t: string): nat
    requires AllDigits(t)
  {
    if |t| == 0 then 0 else NumeralValue(t[..|t| - 1]) * 10 + DigitValue(t[|t| - 1])
  }

  /**
   * `long.TryParse` applied to text made only of ASCII digits (what the
   * pattern's groups 2 and 3 hold): the empty text and a value above
   * `long.MaxValue` fail.
   */
  function TryParseLong(t: string): Option<int>
    requires AllDigits(t)
  {
    if |t| == 0 || NumeralValue(t) > MaxLong then None else Some(NumeralValue(t))
  }

  /** The canonical decimal numeral of `n` (no leading zeros). */
  function Decimal(n: nat): (t: string)
    ensures IsNumeral(t)
    decreases n
  {
    if n < 10 then [DigitChar(n)] else Decimal(n / 10) + [DigitChar(n % 10)]
  }

  /** `k` zero digits, as a file name may pad a volume number. */
  function Zeros(k: nat): (t: string)
    ensures |t| == k && AllDigits(t)
  {
    seq(k, _ => '0')
  }

  /** Reading back a canonical numeral gives the number. */
  lemma {:induction false} DecimalRoundTrip(n: nat)
    ensures NumeralValue(Decimal(n)) == n
    decreases n
  {
    if n >= 10 {
      DecimalRoundTrip(n / 10);
      var t := Decimal(n);
      assert t[..|t| - 1] == Decimal(n / 10);
    }
  }

  /** Leading zeros do not change a numeral's value. */
  lemma {:induction false} LeadingZerosIgnored(k: nat, t: string)
    requires AllDigits(t)
    ensures AllDigits(Zeros(k) + t)
    ensures NumeralValue(Zeros(k) + t) == NumeralValue(t)
    decreases |t|
  {
    var u := Zeros(k) + t;
    if |t| == 0 {
      assert u == Zeros(k);
      ZerosValue(k);
    } else {
      assert u[..|u| - 1] == Zeros(k) + t[..|t| - 1];
      LeadingZerosIgnored(k, t[..|t| - 1]);
    }
  }

  lemma {:induction false} ZerosValue(k: nat)
    ensures NumeralValue(Zeros(k)) == 0
  {
    if k > 0 {
      assert Zeros(k)[..k - 1] == Zeros(k - 1);
      ZerosValue(k - 1);
    }
  }

  /**
   * `long.TryParse` on a (possibly zero-padded) numeral succeeds exactly when
   * the value fits a `long`, and then yields that value.
   */
  lemma TryParsePadded(k: nat, n: nat)
    ensures AllDigits(Zeros(k) + Decimal(n))
    ensures TryParseLong(Zeros(k) + Decimal(n)) == if n <= MaxLong then Some(n) else None
  {
    LeadingZerosIgnored(k, Decimal(n));
    DecimalRoundTrip(n);
  }
}
