/**
 Python's `format(i, '02d')` for a non-negative integer: its decimal digits,
 left-padded with `'0'` to a width of at least two.
 */
module Format {

  predicate IsDigit(c: char) {
    '0' <= c <= '9'
  }

  predicate AllDigits(s: string) {
    forall i :: 0 <= i < |s| ==> IsDigit(s[i])
  }

  function DigitChar(d: nat): (c: char)
    requires d < 10
    ensures IsDigit(c) && c as int - '0' as int == d
  {
    ('0' as int + d) as char
  }

  /** The value a string of decimal digits denotes (leading zeros allowed). */
  function DigitsValue(s: string): nat
    requires AllDigits(s)
  {
    if s == [] then 0
    else DigitsValue(s[..|s| - 1]) * 10 + (s[|s| - 1] as int - '0' as int)
  }

  /** `str(n)`: the shortest decimal representation of `n`. */
  function Decimal(n: nat): (r: string)
    ensures |r| >= 1 && AllDigits(r)
    ensures |r| == 1 <==> n < 10
    ensures r[0] == '0' ==> n == 0
    decreases n
  {
    if n < 10 then [DigitChar(n)] else Decimal(n / 10) + [DigitChar(n % 10)]
  }

  /** Reading the decimal representation back gives the number. */
  lemma {:induction false} DecimalValue(n: nat)
    ensures DigitsValue(Decimal(n)) == n
    decreases n
  {
    if n >= 10 {
      DecimalValue(n / 10);
      var r := Decimal(n);
      assert r[..|r| - 1] == Decimal(n / 10);
    }
  }

  function Zeros(k: nat): (r: string)
    ensures |r| == k && AllDigits(r)
    ensures forall i :: 0 <= i < k ==> r[i] == '0'
  {
    seq(k, _ => '0')
  }

  /** Leading zeros do not change the value of a digit string. */
  lemma {:induction false} LeadingZerosValue(k: nat, s: string)
    requires AllDigits(s)
    ensures DigitsValue(Zeros(k) + s) == DigitsValue(s)
    decreases |s|, k
  {
    if s == [] {
      if k > 0 {
        assert Zeros(k) + s == Zeros(k);
        assert Zeros(k)[..k - 1] == Zeros(k - 1) + [];
        LeadingZerosValue(k - 1, []);
      }
    } else {
      var t := Zeros(k) + s;
      assert t[..|t| - 1] == Zeros(k) + s[..|s| - 1];
      LeadingZerosValue(k, s[..|s| - 1]);
    }
  }

  /** `format(i, '02d')`: the digits of `i`, zero-padded on the left to width 2. */
  function Pad2(i: nat): (r: string)
    ensures |r| >= 2 && AllDigits(r)
  {
    var d := Decimal(i);
    if |d| >= 2 then d else Zeros(2 - |d|) + d
  }

  /**
   The padded text is all digits, reads back as `i`, is at least two wide, is
   exactly two wide below 100, and is never padded beyond that.
   */
  lemma Pad2Spec(i: nat)
    ensures AllDigits(Pad2(i)) && DigitsValue(Pad2(i)) == i
    ensures |Pad2(i)| >= 2
    ensures i < 100 ==> |Pad2(i)| == 2
    ensures |Pad2(i)| > 2 ==> Pad2(i)[0] != '0'
  {
    var d := Decimal(i);
    DecimalValue(i);
    if |d| < 2 {
      LeadingZerosValue(2 - |d|, d);
    }
  }
}
