/** Digit strings and the numbers they spell: `toString`, `BigInt(...)`, and zero padding. */
module Digits {
  import opened BigInts

  predicate IsDigit(c: char) {
    '0' <= c <= '9'
  }

  predicate AllDigits(s: string) {
    forall i :: 0 <= i < |s| ==> IsDigit(s[i])
  }

  function DigitChar(d: nat): char
    requires d < 10
  {
    ('0' as int + d) as char
  }

  /** `n.toString()`. */
  function ToString(n: nat): (s: string)
    ensures |s| > 0
  {
    if n < 10 then [DigitChar(n)] else ToString(n / 10) + [DigitChar(n % 10)]
  }

  /** `BigInt(s)` of a digit string; `BigInt("")` is zero. */
  function ToBigInt(s: string): nat
    requires AllDigits(s)
  {
    if s == "" then 0 else ToBigInt(s[..|s| - 1]) * 10 + (s[|s| - 1] as int - '0' as int)
  }

  function Pow10(n: nat): (p: nat)
    ensures p > 0
  {
    if n == 0 then 1 else 10 * Pow10(n - 1)
  }

  function Repeat(c: char, n: nat): string {
    if n == 0 then "" else Repeat(c, n - 1) + [c]
  }

  function PadStart(s: string, width: nat): string {
    if |s| < width then Repeat('0', width - |s|) + s else s
  }

  function PadEnd(s: string, width: nat): string {
    if |s| < width then s + Repeat('0', width - |s|) else s
  }

  lemma {:induction false} ZeroDigits(n: nat)
    ensures |Repeat('0', n)| == n && AllDigits(Repeat('0', n)) && ToBigInt(Repeat('0', n)) == 0
  {
    if n > 0 {
      ZeroDigits(n - 1);
      assert Repeat('0', n)[..n - 1] == Repeat('0', n - 1);
    }
  }

  lemma {:induction false} ConcatenationShifts(s: string, t: string)
    requires AllDigits(s) && AllDigits(t)
    ensures AllDigits(s + t) && ToBigInt(s + t) == ToBigInt(s) * Pow10(|t|) + ToBigInt(t)
  {
    if t == "" {
      assert s + t == s;
    } else {
      var n := |t| - 1;
      assert (s + t)[..|s + t| - 1] == s + t[..n];
      ConcatenationShifts(s, t[..n]);
      OneMoreDigit(ToBigInt(s), Pow10(n), ToBigInt(t[..n]), t[n] as int - '0' as int);
    }
  }

  lemma OneMoreDigit(head: nat, shift: nat, tail: nat, digit: int)
    ensures (head * shift + tail) * 10 + digit == head * (10 * shift) + (tail * 10 + digit)
  {
  }

  lemma {:induction false} DigitsAreSmall(s: string)
    requires AllDigits(s)
    ensures ToBigInt(s) < Pow10(|s|)
  {
    if s != "" {
      DigitsAreSmall(s[..|s| - 1]);
    }
  }

  /** Printing a number and reading it back. */
  lemma {:induction false} ToStringReads(n: nat)
    ensures AllDigits(ToString(n)) && ToBigInt(ToString(n)) == n
  {
    if n >= 10 {
      ToStringReads(n / 10);
      assert ToString(n)[..|ToString(n)| - 1] == ToString(n / 10);
    } else {
      assert ToString(n)[..0] == "";
    }
  }

  lemma {:induction false} ToStringLength(n: nat, width: nat)
    requires width > 0
    ensures n < Pow10(width) ==> |ToString(n)| <= width
    ensures n == Pow10(width) ==> |ToString(n)| == width + 1
  {
    if n >= 10 {
      if width == 1 {
        assert Pow10(1) == 10;
        assert ToString(10) == ToString(1) + ToString(0);
      } else {
        ToStringLength(n / 10, width - 1);
      }
    }
  }

  lemma {:induction false} Pow10Splits(m: nat, n: nat)
    ensures Pow10(m + n) == Pow10(m) * Pow10(n)
  {
    if m > 0 {
      Pow10Splits(m - 1, n);
    }
  }

  lemma RemainderIs(n: nat, d: nat, q: nat, r: nat)
    requires d > 0 && n == q * d + r && r < d
    ensures n % d == r && n / d == q
  {
    FloorIs(n, d, q);
  }

  lemma PadStartKeeps(s: string, width: nat)
    requires AllDigits(s) && |s| <= width
    ensures var padded := PadStart(s, width);
      |padded| == width && AllDigits(padded) && ToBigInt(padded) == ToBigInt(s)
  {
    if |s| < width {
      var zeros := Repeat('0', width - |s|);
      ZeroDigits(width - |s|);
      ConcatenationShifts(zeros, s);
      assert ToBigInt(zeros) * Pow10(|s|) == 0;
    }
  }

  /** Padded on the left a number below the scale has exactly the scale's digits. */
  lemma PaddedDigits(n: nat, width: nat)
    requires width > 0 && n < Pow10(width)
    ensures var digits := PadStart(ToString(n), width);
      |digits| == width && AllDigits(digits) && ToBigInt(digits) == n
  {
    ToStringReads(n);
    ToStringLength(n, width);
    PadStartKeeps(ToString(n), width);
  }

  lemma PadEndShifts(s: string, width: nat)
    requires AllDigits(s) && |s| <= width
    ensures var padded := PadEnd(s, width);
      |padded| == width && AllDigits(padded) && ToBigInt(padded) == ToBigInt(s) * Pow10(width - |s|)
  {
    ZeroDigits(width - |s|);
    ConcatenationShifts(s, Repeat('0', width - |s|));
    assert s + Repeat('0', 0) == s;
  }

  /** Cutting digits off the end and padding with zeros drops the remainder at that place. */
  lemma CutAndPad(digits: string, k: nat)
    requires AllDigits(digits) && k <= |digits|
    ensures var padded := PadEnd(digits[..k], |digits|);
      && AllDigits(padded)
      && ToBigInt(padded) == ToBigInt(digits) - ToBigInt(digits) % Pow10(|digits| - k)
  {
    var head, tail := digits[..k], digits[k..];
    assert head + tail == digits;
    ConcatenationShifts(head, tail);
    DigitsAreSmall(tail);
    PadEndShifts(head, |digits|);
    RemainderIs(ToBigInt(digits), Pow10(|digits| - k), ToBigInt(head), ToBigInt(tail));
  }

  lemma RemainderOfMultiple(v: nat, w: nat, d: nat, n: nat)
    requires d > 0 && v == w * d + n
    ensures v % d == n % d
  {
    var q, r := n / d, n % d;
    assert n == d * q + r;
    assert (w + q) * d == w * d + d * q;
    RemainderIs(v, d, w + q, r);
  }

  /** A remainder at a place below the unit is the fraction's own. */
  lemma RemainderOfFraction(v: nat, whole: nat, frac: nat, width: nat, k: nat)
    requires k <= width && v == whole * Pow10(width) + frac
    ensures v % Pow10(width - k) == frac % Pow10(width - k)
  {
    Pow10Splits(k, width - k);
    MulAssociates(whole, Pow10(k), Pow10(width - k));
    RemainderOfMultiple(v, whole * Pow10(k), Pow10(width - k), frac);
  }

  lemma Scales()
    ensures Pow10(9) == 1_000_000_000 && Pow10(6) == 1_000_000 && Pow10(4) == 10_000
  {
    assert Pow10(3) == 1_000;
    Pow10Splits(3, 3);
    Pow10Splits(3, 6);
  }
}
