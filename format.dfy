/** Number-to-text conversions used when building element ids: JavaScript's
    decimal rendering of a non-negative integer, `Number.prototype.toString(16)`,
    and the 8-digit zero padding of `hash32`. */
module Format {

  function DecimalDigit(d: nat): (c: char)
    requires d < 10
  {
    ('0' as int + d) as char
  }

  /** A lower-case hexadecimal digit, as `toString(16)` writes it. */
  function HexDigit(d: nat): (c: char)
    requires d < 16
  {
    if d < 10 then ('0' as int + d) as char else ('a' as int + d - 10) as char
  }

  predicate IsDecimalDigit(c: char) {
    '0' <= c <= '9'
  }

  predicate IsLowerHexDigit(c: char) {
    IsDecimalDigit(c) || 'a' <= c <= 'f'
  }

  function DigitValue(c: char): (d: nat)
    requires IsLowerHexDigit(c)
    ensures d < 16
  {
    if '0' <= c <= '9' then c as int - '0' as int else c as int - 'a' as int + 10
  }

  /** `${n}` for a non-negative integer: decimal digits, no leading zero. */
  function DecimalString(n: nat): (s: string)
    ensures |s| >= 1
    ensures forall i :: 0 <= i < |s| ==> IsDecimalDigit(s[i])
    ensures |s| > 1 ==> s[0] != '0'
  {
    if n < 10 then [DecimalDigit(n)] else DecimalString(n / 10) + [DecimalDigit(n % 10)]
  }

  /** The number a string of decimal digits denotes. */
  function DecimalValue(s: string): nat
    requires forall i :: 0 <= i < |s| ==> IsDecimalDigit(s[i])
  {
    if s == [] then 0 else DecimalValue(s[..|s| - 1]) * 10 + DigitValue(s[|s| - 1])
  }

  /** Reading the decimal rendering back gives the number. */
  lemma {:induction false} DecimalRoundTrip(n: nat)
    ensures DecimalValue(DecimalString(n)) == n
  {
    var s := DecimalString(n);
    if n >= 10 {
      DecimalRoundTrip(n / 10);
      assert s[..|s| - 1] == DecimalString(n / 10);
    }
  }

  /** `n.toString(16)` for a non-negative integer: lower-case hexadecimal
      digits, no leading zero. */
  function HexString(n: nat): (s: string)
    ensures |s| >= 1
    ensures forall i :: 0 <= i < |s| ==> IsLowerHexDigit(s[i])
    ensures |s| > 1 ==> s[0] != '0'
  {
    if n < 16 then [HexDigit(n)] else HexString(n / 16) + [HexDigit(n % 16)]
  }

  /** The number a string of lower-case hexadecimal digits denotes. */
  function HexValue(s: string): nat
    requires forall i :: 0 <= i < |s| ==> IsLowerHexDigit(s[i])
  {
    if s == [] then 0 else HexValue(s[..|s| - 1]) * 16 + DigitValue(s[|s| - 1])
  }

  lemma {:induction false} HexRoundTrip(n: nat)
    ensures HexValue(HexString(n)) == n
  {
    var s := HexString(n);
    if n >= 16 {
      HexRoundTrip(n / 16);
      assert s[..|s| - 1] == HexString(n / 16);
    }
  }

  /** A number below 16^k has at most k hexadecimal digits. */
  lemma {:induction false} HexLength(n: nat, k: nat, bound: nat)
    requires k >= 1 && bound == Pow16(k) && n < bound
    ensures |HexString(n)| <= k
    decreases k
  {
    if n >= 16 {
      assert Pow16(1) == 16;
      assert k >= 2;
      assert n / 16 < Pow16(k - 1);
      HexLength(n / 16, k - 1, Pow16(k - 1));
    }
  }

  function Pow16(k: nat): nat {
    if k == 0 then 1 else 16 * Pow16(k - 1)
  }

  /** Leading zeros do not change the value. */
  lemma {:induction false} LeadingZeros(z: string, s: string)
    requires forall i :: 0 <= i < |z| ==> z[i] == '0'
    requires forall i :: 0 <= i < |s| ==> IsLowerHexDigit(s[i])
    ensures HexValue(z + s) == HexValue(s)
    decreases |s|
  {
    if s == [] {
      assert z + s == z;
      AllZeros(z);
    } else {
      assert (z + s)[..|z + s| - 1] == z + s[..|s| - 1];
      LeadingZeros(z, s[..|s| - 1]);
    }
  }

  lemma {:induction false} AllZeros(z: string)
    requires forall i :: 0 <= i < |z| ==> z[i] == '0'
    ensures HexValue(z) == 0
    decreases |z|
  {
    if z != [] {
      AllZeros(z[..|z| - 1]);
    }
  }

  /** `("0000000" + n.toString(16)).slice(-8)`. */
  function Hex8(h: nat): string
    requires h < 0x1_0000_0000
  {
    var s := "0000000" + HexString(h);
    s[|s| - 8..]
  }

  /** The padded hash is exactly 8 lower-case hexadecimal digits and denotes
      the 32-bit value it was made from. */
  lemma Hex8Properties(h: nat)
    requires h < 0x1_0000_0000
    ensures |Hex8(h)| == 8
    ensures forall i :: 0 <= i < 8 ==> IsLowerHexDigit(Hex8(h)[i])
    ensures HexValue(Hex8(h)) == h
  {
    var x := HexString(h);
    Pow16Eight();
    HexLength(h, 8, Pow16(8));
    var p := "0000000";
    assert forall i :: 0 <= i < |p| ==> p[i] == '0';
    PaddedValue(p, x, |x| - 1);
    HexRoundTrip(h);
  }

  /** Dropping some of the padding zeros keeps the digits and the value. */
  lemma PaddedValue(p: string, x: string, k: nat)
    requires k <= |p|
    requires forall i :: 0 <= i < |p| ==> p[i] == '0'
    requires forall i :: 0 <= i < |x| ==> IsLowerHexDigit(x[i])
    ensures (p + x)[k..] == p[k..] + x
    ensures forall i :: 0 <= i < |(p + x)[k..]| ==> IsLowerHexDigit((p + x)[k..][i])
    ensures HexValue((p + x)[k..]) == HexValue(x)
  {
    assert (p + x)[k..] == p[k..] + x;
    LeadingZeros(p[k..], x);
  }

  lemma Pow16Eight()
    ensures Pow16(8) == 0x1_0000_0000
  {
    assert Pow16(2) == 256;
    assert Pow16(4) == 65536 by {
      assert Pow16(4) == 16 * (16 * Pow16(2));
    }
    assert Pow16(6) == 16 * (16 * Pow16(4));
    assert Pow16(8) == 16 * (16 * Pow16(6));
  }
}
