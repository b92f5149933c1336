/**
 * The codec of static/inner.js: a fixed-width integer is split into
 * `listSize` digits of radix `maxSmallInteger` (least significant first),
 * recombined by Horner's rule, and rendered as a zero-padded hexadecimal
 * string of `ceil(numBits / 4)` characters.
 *
 * JavaScript numbers are modelled as unbounded integers: with the radix 128
 * and five digits every value stays below 2^35, well inside the range where
 * JavaScript arithmetic is exact.
 */
module Codec {

  import opened Arith

  /** `b` to the power `e`. */
  function Pow(b: int, e: nat): int
  {
    if e == 0 then 1 else b * Pow(b, e - 1)
  }

  lemma {:induction false} PowPositive(b: int, e: nat)
    requires b > 0
    ensures Pow(b, e) > 0
  {
    if e > 0 {
      PowPositive(b, e - 1);
    }
  }

  lemma {:induction false} PowAdd(b: int, x: nat, y: nat)
    ensures Pow(b, x + y) == Pow(b, x) * Pow(b, y)
    decreases y
  {
    if y > 0 {
      PowAdd(b, x, y - 1);
      MulAssoc(Pow(b, x), Pow(b, y - 1), b);
    }
  }

  lemma {:induction false} PowMul(b: int, x: nat, y: nat)
    ensures Pow(Pow(b, x), y) == Pow(b, x * y)
    decreases y
  {
    if y > 0 {
      PowMul(b, x, y - 1);
      assert x * y == x * (y - 1) + x;
      PowAdd(b, x * (y - 1), x);
    }
  }

  lemma {:induction false} PowMonotone(b: int, x: nat, y: nat)
    requires b >= 1 && x <= y
    ensures Pow(b, x) <= Pow(b, y)
    decreases y
  {
    if x < y {
      PowMonotone(b, x, y - 1);
      PowPositive(b, y - 1);
      MulLe(Pow(b, y - 1), 1, b);
    }
  }

  /**
   * `k * n` bits always fit the hexadecimal width: `(2^k)^n <= 16^ceil(k * n / 4)`.
   */
  lemma RadixFitsHexWidth(k: nat, n: nat)
    ensures Pow(Pow(2, k), n) <= Pow(16, HexWidth(n * k))
  {
    var w := HexWidth(n * k);
    PowMul(2, k, n);
    PowMul(2, 4, w);
    assert Pow(2, 4) == 16;
    assert k * n <= 4 * w;
    PowMonotone(2, k * n, 4 * w);
  }

  // ---------------------------------------------------------------------
  // Digits
  // ---------------------------------------------------------------------

  /** The integer a digit list stands for: the sum of `ds[i] * radix^i`. */
  function Value(ds: seq<int>, radix: int): int
  {
    if ds == [] then 0 else ds[0] + radix * Value(ds[1..], radix)
  }

  /** JavaScript's `%` on integers: the remainder takes the sign of the dividend. */
  function JsRem(a: int, b: int): (r: int)
    requires b > 0
    ensures a >= 0 ==> 0 <= r < b
    ensures a < 0 ==> -b < r <= 0
  {
    if a >= 0 then a % b else -((-a) % b)
  }

  /** One step of the digit loop: `(feed - remainder) / maxSmallInteger`, an exact division. */
  function Shift(a: int, b: int): int
    requires b > 0
  {
    (a - JsRem(a, b)) / b
  }

  lemma ShiftNonNegative(a: int, b: int)
    requires b > 0 && a >= 0
    ensures Shift(a, b) == a / b >= 0
  {
    DivModUnique(a - a % b, b, a / b, 0);
  }

  lemma ShiftExact(a: int, b: int)
    requires b > 0
    ensures a == b * Shift(a, b) + JsRem(a, b)
  {
    if a >= 0 {
      DivModUnique(a - a % b, b, a / b, 0);
    } else {
      var m := -a;
      assert m == b * (m / b) + m % b;
      assert a - JsRem(a, b) == b * (-(m / b));
      DivModUnique(a - JsRem(a, b), b, -(m / b), 0);
    }
  }

  /** The list `bigIntegerToList(v, n, radix)` builds. */
  function Digits(v: int, n: nat, radix: int): (ds: seq<int>)
    requires radix > 0
    ensures |ds| == n
    decreases n
  {
    if n == 0 then [] else [JsRem(v, radix)] + Digits(Shift(v, radix), n - 1, radix)
  }

  /** What `feed` holds once the digit loop has run `n` times. */
  function Leftover(v: int, n: nat, radix: int): int
    requires radix > 0
    decreases n
  {
    if n == 0 then v else Leftover(Shift(v, radix), n - 1, radix)
  }

  /** The digits and the leftover feed always account for the whole input. */
  lemma {:induction false} DigitsDecompose(v: int, n: nat, radix: int)
    requires radix > 0
    ensures Value(Digits(v, n, radix), radix) + Pow(radix, n) * Leftover(v, n, radix) == v
    decreases n
  {
    if n > 0 {
      var q := Shift(v, radix);
      var rest := Digits(q, n - 1, radix);
      var l := Leftover(q, n - 1, radix);
      DigitsDecompose(q, n - 1, radix);
      ShiftExact(v, radix);
      assert Digits(v, n, radix)[1..] == rest;
      var d, r, p := JsRem(v, radix), Value(rest, radix), Pow(radix, n - 1);
      assert Value(Digits(v, n, radix), radix) == d + radix * r;
      assert Pow(radix, n) == radix * p;
      MulAssoc(radix, p, l);
      MulDistrib(radix, r, p * l);
    }
  }

  /** For a non-negative input every digit lies in `[0, radix)` and so does the leftover's sign. */
  lemma {:induction false} DigitsInRange(v: int, n: nat, radix: int)
    requires radix > 0 && v >= 0
    ensures forall i :: 0 <= i < n ==> 0 <= Digits(v, n, radix)[i] < radix
    ensures Leftover(v, n, radix) >= 0
    decreases n
  {
    if n > 0 {
      ShiftNonNegative(v, radix);
      DigitsInRange(Shift(v, radix), n - 1, radix);
      forall i | 0 <= i < n
        ensures 0 <= Digits(v, n, radix)[i] < radix
      {
        if i > 0 {
          assert Digits(v, n, radix)[i] == Digits(Shift(v, radix), n - 1, radix)[i - 1];
        }
      }
    }
  }

  /** A list of in-range digits denotes a value in `[0, radix^|ds|)`. */
  lemma {:induction false} ValueBounds(ds: seq<int>, radix: int)
    requires radix > 0
    requires forall i :: 0 <= i < |ds| ==> 0 <= ds[i] < radix
    ensures 0 <= Value(ds, radix) < Pow(radix, |ds|)
  {
    if ds != [] {
      var rest := ds[1..];
      ValueBounds(rest, radix);
      var p := Pow(radix, |rest|);
      var w := Value(rest, radix);
      assert Value(ds, radix) == ds[0] + radix * w;
      assert Pow(radix, |ds|) == radix * p;
      MulLe(radix, w, p - 1);
      MulLe(radix, 0, w);
      assert radix * (p - 1) == radix * p - radix;
    }
  }

  /**
   * The round trip of the codec: the digits of a non-negative `v` recombine
   * to `v mod radix^n`, hence to `v` itself whenever `v < radix^n`.
   */
  lemma RoundTrip(v: int, n: nat, radix: int)
    requires radix > 0 && v >= 0
    ensures Pow(radix, n) > 0
    ensures |Digits(v, n, radix)| == n
    ensures forall i :: 0 <= i < n ==> 0 <= Digits(v, n, radix)[i] < radix
    ensures Value(Digits(v, n, radix), radix) == v % Pow(radix, n)
    ensures v < Pow(radix, n) ==> Value(Digits(v, n, radix), radix) == v
  {
    var ds, p, l := Digits(v, n, radix), Pow(radix, n), Leftover(v, n, radix);
    DigitsDecompose(v, n, radix);
    DigitsInRange(v, n, radix);
    ValueBounds(ds, radix);
    PowPositive(radix, n);
    DivModUnique(v, p, l, Value(ds, radix));
    if v < p {
      DivModUnique(v, p, 0, v);
    }
  }

  /** The other direction: splitting the value of in-range digits gives the digits back. */
  lemma {:induction false} DigitsOfValue(ds: seq<int>, radix: int)
    requires radix > 0
    requires forall i :: 0 <= i < |ds| ==> 0 <= ds[i] < radix
    ensures Digits(Value(ds, radix), |ds|, radix) == ds
  {
    if ds != [] {
      var rest := ds[1..];
      var v := Value(ds, radix);
      ValueBounds(rest, radix);
      DivModUnique(v, radix, Value(rest, radix), ds[0]);
      ShiftExact(v, radix);
      assert JsRem(v, radix) == ds[0] && Shift(v, radix) == Value(rest, radix);
      DigitsOfValue(rest, radix);
    }
  }

  /** `listToBigInteger`: Horner's rule over the first `listSize` entries, most significant first. */
  method ListToBigInteger(list: seq<int>, listSize: nat, maxSmallInteger: int) returns (result: int)
    requires listSize <= |list|
    ensures result == Value(list[..listSize], maxSmallInteger)
  {
    result := 0;
    var i := listSize;
    while i > 0
      invariant 0 <= i <= listSize
      invariant result == Value(list[i..listSize], maxSmallInteger)
    {
      i := i - 1;
      assert list[i..listSize][1..] == list[i + 1..listSize];
      result := result * maxSmallInteger + list[i];
    }
    assert list[..listSize] == list[0..listSize];
  }

  /** `bigIntegerToList`: peel off `listSize` remainders, least significant first. */
  method BigIntegerToList(bigInteger: int, listSize: nat, maxSmallInteger: int) returns (list: seq<int>)
    requires maxSmallInteger > 0
    ensures list == Digits(bigInteger, listSize, maxSmallInteger)
    ensures bigInteger >= 0 ==> forall i :: 0 <= i < |list| ==> 0 <= list[i] < maxSmallInteger
    ensures 0 <= bigInteger < Pow(maxSmallInteger, listSize) ==> Value(list, maxSmallInteger) == bigInteger
  {
    list := [];
    var feed := bigInteger;
    for i := 0 to listSize
      invariant |list| == i
      invariant list + Digits(feed, listSize - i, maxSmallInteger) == Digits(bigInteger, listSize, maxSmallInteger)
    {
      var remainder := JsRem(feed, maxSmallInteger);
      list := list + [remainder];
      feed := (feed - remainder) / maxSmallInteger;
    }
    if bigInteger >= 0 {
      RoundTrip(bigInteger, listSize, maxSmallInteger);
    }
  }

  // ---------------------------------------------------------------------
  // Hexadecimal rendering
  // ---------------------------------------------------------------------

  const HexDigits: string := "0123456789abcdef"

  function HexChar(d: int): char
    requires 0 <= d < 16
  {
    HexDigits[d]
  }

  /** The value of one lowercase hexadecimal character (0 for any other character). */
  function HexValue(c: char): int
  {
    if '0' <= c <= '9' then c as int - '0' as int
    else if 'a' <= c <= 'f' then c as int - 'a' as int + 10
    else 0
  }

  predicate IsHexDigit(c: char)
  {
    '0' <= c <= '9' || 'a' <= c <= 'f'
  }

  /** Reads a hexadecimal string, most significant character first. */
  function ParseHex(s: string): int
  {
    if s == [] then 0 else 16 * ParseHex(s[..|s| - 1]) + HexValue(s[|s| - 1])
  }

  /** JavaScript's `toString(16)` of a non-negative integer: no leading zeros. */
  function NatToHex(x: nat): (s: string)
    ensures |s| >= 1
  {
    if x < 16 then [HexChar(x)] else NatToHex(x / 16) + [HexChar(x % 16)]
  }

  /** JavaScript's `toString(16)` of any integer: a minus sign before the magnitude. */
  function ToHexString(x: int): (s: string)
    ensures |s| >= 1
  {
    if x < 0 then "-" + NatToHex(-x) else NatToHex(x)
  }

  /** `Math.ceil(numBits / 4)` for a whole number of bits. */
  function HexWidth(numBits: nat): nat
  {
    (numBits + 3) / 4
  }

  /** `bigIntegerToHex`: add `16^width`, render in hexadecimal, drop the first character. */
  function BigIntegerToHex(bigInteger: int, numBits: nat): string
  {
    ToHexString(bigInteger + Pow(16, HexWidth(numBits)))[1..]
  }

  /** Exactly `w` hexadecimal characters of `v`, most significant first, zeros on the left. */
  function PadHex(v: nat, w: nat): string
  {
    if w == 0 then [] else PadHex(v / 16, w - 1) + [HexChar(v % 16)]
  }

  lemma {:induction false} PadHexShape(v: nat, w: nat)
    requires v < Pow(16, w)
    ensures |PadHex(v, w)| == w
    ensures forall i :: 0 <= i < w ==> IsHexDigit(PadHex(v, w)[i])
    ensures ParseHex(PadHex(v, w)) == v
  {
    if w > 0 {
      var p := Pow(16, w - 1);
      DivModUnique(v, 16, v / 16, v % 16);
      DivBelow(v, 16, p);
      PadHexShape(v / 16, w - 1);
      var s := PadHex(v, w);
      assert s[..|s| - 1] == PadHex(v / 16, w - 1);
    }
  }

  /** Adding `16^w` to an in-range value puts a `1` in front of its `w`-digit padding. */
  lemma {:induction false} HexWithLeadingOne(v: nat, w: nat)
    requires v < Pow(16, w)
    ensures NatToHex(v + Pow(16, w)) == ['1'] + PadHex(v, w)
  {
    if w > 0 {
      var p := Pow(16, w - 1);
      var x := v + Pow(16, w);
      DivModUnique(v, 16, v / 16, v % 16);
      DivModUnique(x, 16, v / 16 + p, v % 16);
      DivBelow(v, 16, p);
      PowPositive(16, w - 1);
      HexWithLeadingOne(v / 16, w - 1);
    }
  }

  /**
   * The fixed width of `bigIntegerToHex`: for `0 <= v < 16^width` the result
   * has exactly `ceil(numBits / 4)` lowercase hexadecimal characters and
   * reads back as `v`.
   */
  lemma HexRoundTrip(v: int, numBits: nat)
    requires 0 <= v < Pow(16, HexWidth(numBits))
    ensures |BigIntegerToHex(v, numBits)| == HexWidth(numBits)
    ensures forall i :: 0 <= i < HexWidth(numBits) ==> IsHexDigit(BigIntegerToHex(v, numBits)[i])
    ensures ParseHex(BigIntegerToHex(v, numBits)) == v
  {
    var w := HexWidth(numBits);
    HexWithLeadingOne(v, w);
    assert BigIntegerToHex(v, numBits) == PadHex(v, w);
    PadHexShape(v, w);
  }

  lemma {:induction false} NatToHexLength(x: nat, k: nat)
    requires k >= 1 && x < Pow(16, k)
    ensures |NatToHex(x)| <= k
  {
    if x >= 16 {
      var p := Pow(16, k - 1);
      DivModUnique(x, 16, x / 16, x % 16);
      DivBelow(x, 16, p);
      NatToHexLength(x / 16, k - 1);
    }
  }

  /**
   * A negative value above `-16^width` (a receiver digit of -1 produces one)
   * is rendered with FEWER than `ceil(numBits / 4)` characters: the padding
   * trick of `bigIntegerToHex` only covers non-negative values.
   */
  lemma NegativeHexIsShort(v: int, numBits: nat)
    requires -Pow(16, HexWidth(numBits)) < v < 0
    ensures |BigIntegerToHex(v, numBits)| < HexWidth(numBits)
  {
    var w := HexWidth(numBits);
    if w == 0 {
      assert false;
    }
    NatToHexLength(v + Pow(16, w), w);
  }
}
