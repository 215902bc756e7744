/**
 * Rendering a quantity with an SI or binary prefix ("1.50G", "3.00Ki") into a
 * fixed-size character buffer, as the device listings do for sizes.
 *
 * The scaling loop multiplies a uintmax_t divisor by the base until the value
 * drops below it, stopping early when one more multiplication could overflow.
 * That early stop happens after the divisor has grown but before the prefix
 * index has, so a value too large to scale fully is divided by one more power
 * of the base than its prefix says (see ScaleMislabelled). GenPrefixAsWritten
 * models that loop, and qprefix and bprefix call it; GenPrefix is the
 * corrected form, with the prefix count advanced before that check.
 */
module SiPrefix {
  import opened Bytes

  /** UINTMAX_MAX on a platform with a 64-bit uintmax_t. */
  const UintMax: nat := 0xFFFF_FFFF_FFFF_FFFF
  /** Arithmetic on uintmax_t is modulo this. */
  const UintModulus: nat := 0x1_0000_0000_0000_0000

  const Prefixes: string := "KMGTPEY"
  /** The longest text meant to be produced for a table column, without its NUL. */
  const PrefixStrLen: nat := 7

  function Pow(b: nat, k: nat): (r: nat)
    ensures b >= 1 ==> r >= 1
  {
    if k == 0 then 1 else b * Pow(b, k - 1)
  }

  lemma {:induction false} PowMono(b: nat, i: nat, j: nat)
    requires b >= 1 && i <= j
    ensures Pow(b, i) <= Pow(b, j)
    decreases j
  {
    if i < j {
      PowMono(b, i, j - 1);
      MulMono(1, b, Pow(b, j - 1));
    }
  }

  lemma PowStrict(b: nat, i: nat, j: nat)
    requires b >= 2 && i < j
    ensures Pow(b, i) < Pow(b, j)
  {
    PowMono(b, i, j - 1);
    MulMono(2, b, Pow(b, j - 1));
  }

  /** x / d is below m exactly when x is below m * d. */
  lemma DivBelow(x: nat, d: nat, m: nat)
    requires d >= 1
    ensures x / d < m <==> x < m * d
  {
    DivBounds(x, d);
    if x / d < m {
      MulMono(x / d + 1, m, d);
    } else {
      MulMono(m, x / d, d);
    }
  }

  /** Multiplication of two uintmax_t values, which wraps around. */
  function MulWrap(a: nat, b: nat): nat {
    (a * b) % UintModulus
  }

  lemma MulWrapExact(a: nat, b: nat)
    requires a * b < UintModulus
    ensures MulWrap(a, b) == a * b
  {
  }

  /*
   * Reference definitions
   */

  /**
   * How the scaling loop ends when it is at consumed == c: the final value of
   * consumed, and e such that the final divisor is mult^e. The loop goes on
   * while the value is at least mult^(c+1) and fewer than 7 prefixes are
   * used; it breaks, one multiplication ahead of consumed, when mult^(c+3)
   * would not fit in a uintmax_t.
   */
  function LoopEnd(v: nat, mult: nat, c: nat): (r: (nat, nat))
    requires mult >= 1 && c <= 7
    ensures c <= r.0 <= 7 && (r.1 == r.0 + 1 || r.1 == r.0 + 2)
    decreases 7 - c
  {
    if v >= Pow(mult, c + 1) && c < 7 then
      if Pow(mult, c + 3) > UintMax then (c, c + 2) else LoopEnd(v, mult, c + 1)
    else (c, c + 1)
  }

  /**
   * How the loop can end: normally, when the value is below the next power
   * or every prefix is used; or on the overflow check, when the value reached
   * the next power but the power after the one just computed does not fit.
   * Every power the loop went past fits.
   */
  lemma {:induction false} LoopEndCases(v: nat, mult: nat, c: nat)
    requires mult >= 1 && c <= 7
    ensures var r := LoopEnd(v, mult, c);
      (r.1 == r.0 + 1 ==> r.0 == 7 || v < Pow(mult, r.0 + 1))
      && (r.1 == r.0 + 2 ==> r.0 < 7 && v >= Pow(mult, r.0 + 1) && Pow(mult, r.0 + 3) > UintMax)
      && (r.0 > c ==> v >= Pow(mult, r.0) && Pow(mult, r.0 + 2) <= UintMax)
    decreases 7 - c
  {
    if v >= Pow(mult, c + 1) && c < 7 && Pow(mult, c + 3) <= UintMax {
      LoopEndCases(v, mult, c + 1);
      if LoopEnd(v, mult, c + 1).0 == c + 1 {
        PowMono(mult, c + 3, c + 3);
      }
    }
  }

  /** The order of magnitude of v in base mult, capped at the largest prefix. */
  function Magnitude(v: nat, mult: nat): (m: nat)
    requires mult >= 2 && v >= 1
    ensures m <= 7 && Pow(mult, m) <= v && (m == 7 || v < Pow(mult, m + 1))
  {
    MagnitudeFrom(v, mult, 0)
  }

  function MagnitudeFrom(v: nat, mult: nat, c: nat): (m: nat)
    requires mult >= 2 && c <= 7 && Pow(mult, c) <= v
    ensures c <= m <= 7 && Pow(mult, m) <= v && (m == 7 || v < Pow(mult, m + 1))
    decreases 7 - c
  {
    if c < 7 && Pow(mult, c + 1) <= v then MagnitudeFrom(v, mult, c + 1) else c
  }

  /** Digits of n in base ten, most significant first, no leading zeros: %ju. */
  function NatStr(n: nat): (s: string)
    ensures |s| >= 1 && forall k :: 0 <= k < |s| ==> '0' <= s[k] <= '9'
  {
    if n < 10 then [Digit(n)] else NatStr(n / 10) + [Digit(n % 10)]
  }

  function Digit(d: nat): (c: char)
    requires d < 10
    ensures '0' <= c <= '9'
  {
    "0123456789"[d]
  }

  /** The value of a string of decimal digits. */
  function ParseDecimal(s: string): nat {
    if s == [] then 0 else 10 * ParseDecimal(s[..|s| - 1]) + DigitValue(s[|s| - 1])
  }

  function DigitValue(c: char): nat {
    if '0' <= c <= '9' then (c as int) - ('0' as int) else 0
  }

  /** At least two digits, zero-padded on the left: %02ju. */
  function Pad2(n: nat): (s: string)
    ensures n < 100 ==> |s| == 2
    ensures ParseDecimal(s) == n
  {
    NatStrRoundTrip(n);
    if n < 10 then ['0'] + NatStr(n) else NatStr(n)
  }

  /** The hundredths digits of x / d, as the prefix text shows them. */
  function Hundredths(x: nat, d: nat): (r: nat)
    requires d >= 1
    ensures r < 100
  {
    HundredthsBound(x, d);
    (x % d) / ((d + 99) / 100)
  }

  /** The text with a prefix: quotient, dot and two fraction digits unless omitted, letter, unit. */
  function WithPrefix(q: nat, frac: nat, omitdec: int, letter: char, uprefix: char): string {
    if frac != 0 || omitdec == 0 then NatStr(q) + "." + Pad2(frac) + [letter, uprefix]
    else NatStr(q) + [letter, uprefix]
  }

  /** Integer division of naturals. */
  function Quotient(x: nat, d: nat): (q: nat)
    requires d >= 1
  {
    x / d
  }

  /** The text of x scaled by the divisor d: its quotient and its hundredths. */
  function Scaled(x: nat, d: nat, omitdec: int, letter: char, uprefix: char): string
    requires d >= 1
  {
    WithPrefix(Quotient(x, d), Hundredths(x, d), omitdec, letter, uprefix)
  }

  /** The text without a prefix: quotient, dot and two remainder digits unless omitted. */
  function WithoutPrefix(q: nat, r: nat, omitdec: int): string {
    if r != 0 || omitdec == 0 then NatStr(q) + "." + Pad2(r) else NatStr(q)
  }

  /**
   * The text genprefix formats, before snprintf limits it to the buffer.
   * When the final divisor differs from the base, the value divided by
   * decimal is divided again by the divisor's predecessor power and shown
   * with the prefix at index consumed - 1; otherwise it is shown unscaled.
   */
  function PrefixText(val: u64, decimal: u32, omitdec: int, mult: u32, uprefix: char): (t: string)
    requires decimal >= 1 && mult >= 1 && Pow(mult, 3) <= UintMax
  {
    var v := val / decimal;
    var r := LoopEnd(v, mult, 0);
    if Pow(mult, r.1) != mult then
      PrefixIff(v, mult);
      var d := Pow(mult, r.1 - 1);
      Scaled(v, d, omitdec, Prefixes[r.0 - 1], uprefix)
    else WithoutPrefix(val / decimal, val % decimal, omitdec)
  }

  /**
   * What snprintf leaves in a buffer that held before: as much of text as fits
   * with room for a terminating NUL, then the NUL; the rest of the buffer as
   * it was. A zero-length buffer is left alone.
   */
  function Snprintf(before: seq<char>, text: string): (r: seq<char>)
    ensures |r| == |before|
    ensures |before| > 0 ==> r[Min(|text|, |before| - 1)] == '\0'
  {
    if |before| == 0 then before
    else
      var k := Min(|text|, |before| - 1);
      text[..k] + ['\0'] + before[k + 1..]
  }

  function Min(a: nat, b: nat): nat {
    if a <= b then a else b
  }

  /** A character sequence read as a C string: everything before the first NUL. */
  function CString(s: seq<char>): (r: string)
    ensures |r| <= |s| && r == s[..|r|]
    ensures |r| < |s| ==> s[|r|] == '\0'
    ensures forall k :: 0 <= k < |r| ==> r[k] != '\0'
  {
    if s == [] || s[0] == '\0' then [] else [s[0]] + CString(s[1..])
  }

  /*
   * genprefix, qprefix, bprefix
   */

  /**
   * The scaling loop of genprefix, with the prefix count advanced before the
   * overflow check: grows the divisor from mult while the value v reaches it
   * and prefixes remain, breaking when one more multiplication could
   * overflow. Every multiplication is done modulo UintModulus, as on a
   * uintmax_t, and none of them wraps around.
   */
  method ScaleLoop(v: u64, mult: u32) returns (consumed: nat, div: u64)
    requires mult >= 1 && Pow(mult, 2) <= UintMax
    ensures consumed == LoopEndIntended(v, mult, 0).0 && div == Pow(mult, LoopEndIntended(v, mult, 0).1)
  {
    consumed := 0;
    div := mult;
    while v >= div && consumed < |Prefixes|
      invariant consumed <= 7
      invariant div == Pow(mult, consumed + 1)
      invariant Pow(mult, consumed + 2) <= UintMax
      invariant LoopEndIntended(v, mult, consumed) == LoopEndIntended(v, mult, 0)
      decreases 7 - consumed
    {
      ghost var next := Pow(mult, consumed + 2);
      assert next == mult * div;
      MulWrapExact(div, mult);
      div := MulWrap(div, mult);
      assert div == next;
      consumed := consumed + 1;
      DivBelow(UintMax, div, mult);
      assert Pow(mult, consumed + 2) == mult * div;
      if UintMax / div < mult {
        break;
      }
    }
  }

  /** snprintf of a ready text into buf, whose length is the size passed to it. */
  method StoreText(buf: array<char>, text: string)
    modifies buf
    ensures buf[..] == Snprintf(old(buf[..]), text)
  {
    if buf.Length > 0 {
      var k := Min(|text|, buf.Length - 1);
      forall i | 0 <= i < k {
        buf[i] := text[i];
      }
      buf[k] := '\0';
      assert buf[..] == Snprintf(old(buf[..]), text) by {
        var expected := Snprintf(old(buf[..]), text);
        forall i | 0 <= i < buf.Length
          ensures buf[i] == expected[i]
        {
          if i > k {
            assert expected[i] == old(buf[..])[k + 1..][i - k - 1];
          }
        }
      }
    }
  }

  /**
   * Renders val / decimal with a prefix of base mult into buf, with the
   * prefix always naming the divisor used. The callers' obligations are a
   * non-zero decimal and mult (both are divisors) and a base whose square
   * fits in a uintmax_t (otherwise the first multiplication wraps around).
   */
  method GenPrefix(val: u64, decimal: u32, buf: array<char>, omitdec: int, mult: u32, uprefix: char)
    requires decimal >= 1 && mult >= 1 && Pow(mult, 2) <= UintMax
    modifies buf
    ensures buf[..] == Snprintf(old(buf[..]), PrefixTextIntended(val, decimal, omitdec, mult, uprefix))
  {
    var v := val / decimal;
    var consumed, div := ScaleLoop(v, mult);
    ghost var r := LoopEndIntended(v, mult, 0);
    IntendedTextCases(val, decimal, omitdec, mult, uprefix);
    var text: string;
    if div != mult {
      StepBack(mult, r.1);
      div := div / mult;
      assert div + 99 < UintModulus;  // the rounding's div + 99 does not wrap around
      text := Scaled(v, div, omitdec, Prefixes[consumed - 1], uprefix);
    } else {
      text := WithoutPrefix(val / decimal, val % decimal, omitdec);
    }
    StoreText(buf, text);
  }

  /** Undoing the loop's last multiplication leaves the previous power, with room for the rounding. */
  lemma StepBack(mult: nat, e: nat)
    requires mult >= 2 && e >= 1 && Pow(mult, e) <= UintMax
    ensures Pow(mult, e) / mult == Pow(mult, e - 1) >= 1
    ensures Pow(mult, e - 1) + 99 < UintModulus
  {
    var d := Pow(mult, e - 1);
    assert Pow(mult, e) == mult * d;
    DivUnique(mult * d, mult, d);
    MulMono(2, mult, d);
  }

  /** PrefixTextIntended by cases, in the terms the loop computes: with a prefix or without. */
  lemma IntendedTextCases(val: u64, decimal: u32, omitdec: int, mult: u32, uprefix: char)
    requires decimal >= 1 && mult >= 1 && Pow(mult, 2) <= UintMax
    ensures var v := val / decimal;
      var r := LoopEndIntended(v, mult, 0);
      if Pow(mult, r.1) != mult then
        1 <= r.0 && mult >= 2 && Pow(mult, r.1) <= UintMax
        && PrefixTextIntended(val, decimal, omitdec, mult, uprefix)
          == Scaled(v, Pow(mult, r.1 - 1), omitdec, Prefixes[r.0 - 1], uprefix)
      else
        PrefixTextIntended(val, decimal, omitdec, mult, uprefix) == WithoutPrefix(val / decimal, val % decimal, omitdec)
  {
    var v := val / decimal;
    var r := LoopEndIntended(v, mult, 0);
    IntendedFits(v, mult, 0);
    if mult == 1 {
      PowOne(r.1);
    } else if r.0 == 0 {
      assert Pow(mult, 1) == mult;
    } else {
      PowStrict(mult, 1, r.1);
    }
  }

  /** Decimal prefixes with no unit letter, through genprefix as written. */
  method QPrefix(val: u64, decimal: u32, buf: array<char>, omitdec: int)
    requires decimal >= 1
    modifies buf
    ensures buf[..] == Snprintf(old(buf[..]), PrefixText(val, decimal, omitdec, 1000, '\0'))
  {
    assert Pow(1000, 3) == 1_000_000_000;
    GenPrefixAsWritten(val, decimal, buf, omitdec, 1000, '\0');
  }

  /** Binary prefixes followed by 'i' (Ki, Mi, Gi, ...), through genprefix as written. */
  method BPrefix(val: u64, decimal: u32, buf: array<char>, omitdec: int)
    requires decimal >= 1
    modifies buf
    ensures buf[..] == Snprintf(old(buf[..]), PrefixText(val, decimal, omitdec, 1024, 'i'))
  {
    assert Pow(1024, 3) == 1_073_741_824;
    GenPrefixAsWritten(val, decimal, buf, omitdec, 1024, 'i');
  }

  /** qprefix as it is evidently meant to behave, through the corrected genprefix. */
  method QPrefixIntended(val: u64, decimal: u32, buf: array<char>, omitdec: int)
    requires decimal >= 1
    modifies buf
    ensures buf[..] == Snprintf(old(buf[..]), PrefixTextIntended(val, decimal, omitdec, 1000, '\0'))
  {
    assert Pow(1000, 2) == 1_000_000;
    GenPrefix(val, decimal, buf, omitdec, 1000, '\0');
  }

  /** bprefix as it is evidently meant to behave, through the corrected genprefix. */
  method BPrefixIntended(val: u64, decimal: u32, buf: array<char>, omitdec: int)
    requires decimal >= 1
    modifies buf
    ensures buf[..] == Snprintf(old(buf[..]), PrefixTextIntended(val, decimal, omitdec, 1024, 'i'))
  {
    assert Pow(1024, 2) == 1_048_576;
    GenPrefix(val, decimal, buf, omitdec, 1024, 'i');
  }

  /*
   * Properties
   */

  lemma HundredthsBound(x: nat, d: nat)
    requires d >= 1
    ensures (x % d) / ((d + 99) / 100) < 100
  {
    var q := (d + 99) / 100;
    assert q >= 1;
    DivBounds(d + 99, 100);
    assert d <= 100 * q;
    DivBelow(x % d, q, 100);
  }

  lemma {:induction false} NatStrRoundTrip(n: nat)
    ensures ParseDecimal(NatStr(n)) == n
  {
    if n >= 10 {
      NatStrRoundTrip(n / 10);
      var s := NatStr(n);
      assert s[..|s| - 1] == NatStr(n / 10);
      DigitRoundTrip(n % 10);
    } else {
      DigitRoundTrip(n);
    }
  }

  lemma DigitRoundTrip(d: nat)
    requires d < 10
    ensures DigitValue(Digit(d)) == d
  {
    assert "0123456789"[d] as int - '0' as int == d;
  }

  /** A number below 10^k has at most k digits. */
  lemma {:induction false} NatStrLength(n: nat, k: nat)
    requires k >= 1 && n < Pow(10, k)
    ensures |NatStr(n)| <= k
  {
    if n >= 10 {
      assert k >= 2;
      DivBelow(n, 10, Pow(10, k - 1));
      NatStrLength(n / 10, k - 1);
    }
  }

  /** A prefix is printed exactly when the scaled value reaches the base and the base is above 1. */
  lemma PrefixIff(v: nat, mult: nat)
    requires mult >= 1 && Pow(mult, 3) <= UintMax
    ensures var (c, e) := LoopEnd(v, mult, 0);
      (Pow(mult, e) != mult <==> v >= mult && mult >= 2)
      && (Pow(mult, e) != mult ==> 1 <= c <= 7 && e >= 2)
  {
    var (c, e) := LoopEnd(v, mult, 0);
    if mult == 1 {
      assert Pow(1, e) == 1 by {
        PowOne(e);
      }
    } else if v >= mult {
      assert LoopEnd(v, mult, 0) == LoopEnd(v, mult, 1);
      PowStrict(mult, 1, e);
    } else {
      assert e == 1;
    }
  }

  lemma {:induction false} PowOne(k: nat)
    ensures Pow(1, k) == 1
  {
    if k > 0 {
      PowOne(k - 1);
    }
  }

  /**
   * When the powers of mult up to two past v's magnitude fit in a uintmax_t,
   * the loop chooses v's magnitude: the prefix for mult^m, dividing by mult^m.
   */
  lemma {:induction false} LoopEndRepresentable(v: nat, mult: nat, c: nat)
    requires mult >= 2 && v >= 1 && c <= Magnitude(v, mult)
    requires Pow(mult, Magnitude(v, mult) + 2) <= UintMax
    ensures LoopEnd(v, mult, c) == (Magnitude(v, mult), Magnitude(v, mult) + 1)
    decreases 7 - c
  {
    var m := Magnitude(v, mult);
    if c < m {
      PowMono(mult, c + 1, m);
      PowMono(mult, c + 3, m + 2);
      LoopEndRepresentable(v, mult, c + 1);
    }
  }

  /**
   * The text with a correct prefix: for a value at least the base and small
   * enough that no overflow check fires, the integer part is the value
   * divided by mult^m for its magnitude m, the fraction is below 100, and the
   * letter is the m-th prefix.
   */
  lemma PrefixCorrect(val: u64, decimal: u32, omitdec: int, mult: u32, uprefix: char)
    requires decimal >= 1 && mult >= 2 && Pow(mult, 3) <= UintMax
    requires val / decimal >= mult
    requires Pow(mult, Magnitude(val / decimal, mult) + 2) <= UintMax
    ensures var v := val / decimal;
      var m := Magnitude(v, mult);
      var d := Pow(mult, m);
      1 <= m && (m == 7 || v / d < mult)
      && PrefixText(val, decimal, omitdec, mult, uprefix) == Scaled(v, d, omitdec, Prefixes[m - 1], uprefix)
  {
    var v := val / decimal;
    var m := Magnitude(v, mult);
    LoopEndRepresentable(v, mult, 0);
    PrefixIff(v, mult);
    var d := Pow(mult, m);
    if m < 7 {
      assert Pow(mult, m + 1) == mult * d;
      DivBelow(v, d, mult);
    }
  }

  /** With no prefix the text is the quotient, and two remainder digits unless omitted. */
  lemma NoPrefix(val: u64, decimal: u32, omitdec: int, mult: u32, uprefix: char)
    requires decimal >= 1 && mult >= 1 && Pow(mult, 3) <= UintMax
    requires val / decimal < mult || mult == 1
    ensures PrefixText(val, decimal, omitdec, mult, uprefix) == WithoutPrefix(val / decimal, val % decimal, omitdec)
  {
    PrefixIff(val / decimal, mult);
  }

  /**
   * For both bases in use, a value of at least mult^5 makes the loop break on
   * its overflow check with consumed == 4: the text is divided by mult^5 but
   * labelled with the fourth prefix, 'T'.
   */
  lemma ScaleMislabelled(v: nat, mult: nat)
    requires mult == 1000 || mult == 1024
    requires v >= Pow(mult, 5)
    ensures LoopEnd(v, mult, 0) == (4, 6)
    ensures Prefixes[4 - 1] == 'T'
  {
    BaseSixthPower(mult);
    BreaksAtFour(v, mult);
  }

  /** 1000 and 1024 both have a sixth power that fits in a uintmax_t and a seventh that does not. */
  lemma BaseSixthPower(mult: nat)
    requires mult == 1000 || mult == 1024
    ensures Pow(mult, 6) <= UintMax < Pow(mult, 7)
  {
    if mult == 1000 {
      assert Pow(1000, 6) == 1_000_000_000_000_000_000;
    } else {
      assert Pow(1024, 6) == 0x1000_0000_0000_0000;
    }
  }

  /** The loop's steps for a base whose sixth power is the largest that fits. */
  lemma BreaksAtFour(v: nat, mult: nat)
    requires mult >= 2 && Pow(mult, 6) <= UintMax < Pow(mult, 7)
    requires v >= Pow(mult, 5)
    ensures LoopEnd(v, mult, 0) == (4, 6)
  {
    PowMono(mult, 1, 5);
    PowMono(mult, 2, 5);
    PowMono(mult, 3, 5);
    PowMono(mult, 4, 5);
    PowMono(mult, 3, 6);
    PowMono(mult, 4, 6);
    PowMono(mult, 5, 6);
    assert LoopEnd(v, mult, 4) == (4, 6);
    assert LoopEnd(v, mult, 3) == LoopEnd(v, mult, 4);
    assert LoopEnd(v, mult, 2) == LoopEnd(v, mult, 3);
    assert LoopEnd(v, mult, 1) == LoopEnd(v, mult, 2);
    assert LoopEnd(v, mult, 0) == LoopEnd(v, mult, 1);
  }

  /** The smallest value shown wrongly: 10^15 bytes is one petabyte, shown as "1.00T". */
  lemma PetabyteShownAsT()
    ensures PrefixText(1_000_000_000_000_000, 1, 0, 1000, '\0') == "1.00T\0"
  {
    var v := 1_000_000_000_000_000;
    assert Pow(1000, 5) == v;
    ScaleMislabelled(v, 1000);
    assert Pow(1000, 6 - 1) == v;
    assert Hundredths(v, v) == 0;
    assert NatStr(v / v) == "1";
    assert Pad2(0) == "00";
  }

  /**
   * The scaling loop of genprefix as written: the overflow check comes
   * between the divisor's multiplication and the prefix count's increment.
   * No multiplication wraps around.
   */
  method ScaleLoopAsWritten(v: u64, mult: u32) returns (consumed: nat, div: u64)
    requires mult >= 1 && Pow(mult, 2) <= UintMax
    ensures consumed == LoopEnd(v, mult, 0).0 && div == Pow(mult, LoopEnd(v, mult, 0).1)
  {
    consumed := 0;
    div := mult;
    while v >= div && consumed < |Prefixes|
      invariant consumed <= 7
      invariant div == Pow(mult, consumed + 1)
      invariant Pow(mult, consumed + 2) <= UintMax
      invariant LoopEnd(v, mult, consumed) == LoopEnd(v, mult, 0)
      decreases 7 - consumed
    {
      ghost var next := Pow(mult, consumed + 2);
      assert next == mult * div;
      MulWrapExact(div, mult);
      div := MulWrap(div, mult);
      assert div == next;
      DivBelow(UintMax, div, mult);
      assert Pow(mult, consumed + 3) == mult * div;
      if UintMax / div < mult {
        break;
      }
      consumed := consumed + 1;
    }
  }

  /**
   * genprefix as written: the text of PrefixText, mislabelled from mult^5 on.
   * A base whose cube does not fit would make the early break leave consumed
   * at 0 and the prefix read out of bounds, so the base must be below that.
   */
  method GenPrefixAsWritten(val: u64, decimal: u32, buf: array<char>, omitdec: int, mult: u32, uprefix: char)
    requires decimal >= 1 && mult >= 1 && Pow(mult, 3) <= UintMax
    modifies buf
    ensures buf[..] == Snprintf(old(buf[..]), PrefixText(val, decimal, omitdec, mult, uprefix))
  {
    PowMono(mult, 2, 3);
    var v := val / decimal;
    var consumed, div := ScaleLoopAsWritten(v, mult);
    ghost var r := LoopEnd(v, mult, 0);
    WrittenTextCases(val, decimal, omitdec, mult, uprefix);
    var text: string;
    if div != mult {
      StepBack(mult, r.1);
      div := div / mult;
      assert div + 99 < UintModulus;  // the rounding's div + 99 does not wrap around
      text := Scaled(v, div, omitdec, Prefixes[consumed - 1], uprefix);
    } else {
      text := WithoutPrefix(val / decimal, val % decimal, omitdec);
    }
    StoreText(buf, text);
  }

  /** PrefixText by cases, in the terms the loop computes: with a prefix or without. */
  lemma WrittenTextCases(val: u64, decimal: u32, omitdec: int, mult: u32, uprefix: char)
    requires decimal >= 1 && mult >= 1 && Pow(mult, 3) <= UintMax
    ensures var v := val / decimal;
      var r := LoopEnd(v, mult, 0);
      if Pow(mult, r.1) != mult then
        1 <= r.0 && mult >= 2
        && PrefixText(val, decimal, omitdec, mult, uprefix)
          == Scaled(v, Pow(mult, r.1 - 1), omitdec, Prefixes[r.0 - 1], uprefix)
      else
        PrefixText(val, decimal, omitdec, mult, uprefix) == WithoutPrefix(val / decimal, val % decimal, omitdec)
  {
    PrefixIff(val / decimal, mult);
  }

  /*
   * The intended scaling
   */

  /**
   * The loop with the prefix count advanced before the overflow check, so
   * the prefix always names the divisor.
   */
  function LoopEndIntended(v: nat, mult: nat, c: nat): (r: (nat, nat))
    requires mult >= 1 && c <= 7
    ensures c <= r.0 <= 7 && r.1 == r.0 + 1
    ensures r.0 > c ==> v >= Pow(mult, r.0)
    decreases 7 - c
  {
    if v >= Pow(mult, c + 1) && c < 7 then
      if Pow(mult, c + 3) > UintMax then (c + 1, c + 2) else LoopEndIntended(v, mult, c + 1)
    else (c, c + 1)
  }

  /** PrefixText with the intended scaling. */
  function PrefixTextIntended(val: u64, decimal: u32, omitdec: int, mult: u32, uprefix: char): (t: string)
    requires decimal >= 1 && mult >= 1
  {
    var v := val / decimal;
    var (c, e) := LoopEndIntended(v, mult, 0);
    if c >= 1 && mult >= 2 then
      var d := Pow(mult, c);
      Scaled(v, d, omitdec, Prefixes[c - 1], uprefix)
    else WithoutPrefix(val / decimal, val % decimal, omitdec)
  }

  /**
   * With the intended scaling the divisor is always the power its prefix
   * names, and the value is at least that power: for 1000 and 1024 a value
   * of mult^5 or more gets 'P'.
   */
  lemma IntendedLabelMatches(v: nat, mult: nat)
    requires mult == 1000 || mult == 1024
    requires v >= Pow(mult, 5)
    ensures LoopEndIntended(v, mult, 0) == (5, 6) && Prefixes[5 - 1] == 'P'
  {
    BaseSixthPower(mult);
    PowMono(mult, 1, 5);
    PowMono(mult, 2, 5);
    PowMono(mult, 3, 5);
    PowMono(mult, 4, 5);
    PowMono(mult, 3, 6);
    PowMono(mult, 4, 6);
    PowMono(mult, 5, 6);
    assert LoopEndIntended(v, mult, 4) == (5, 6);
    assert LoopEndIntended(v, mult, 3) == LoopEndIntended(v, mult, 4);
    assert LoopEndIntended(v, mult, 2) == LoopEndIntended(v, mult, 3);
    assert LoopEndIntended(v, mult, 1) == LoopEndIntended(v, mult, 2);
    assert LoopEndIntended(v, mult, 0) == LoopEndIntended(v, mult, 1);
  }

  /** Where no overflow check fires, the intended and the written scaling agree. */
  lemma {:induction false} IntendedAgrees(v: nat, mult: nat, c: nat)
    requires mult >= 1 && c <= 7
    requires LoopEnd(v, mult, c).1 == LoopEnd(v, mult, c).0 + 1
    ensures LoopEndIntended(v, mult, c) == LoopEnd(v, mult, c)
    decreases 7 - c
  {
    if v >= Pow(mult, c + 1) && c < 7 && Pow(mult, c + 3) <= UintMax {
      IntendedAgrees(v, mult, c + 1);
    }
  }

  /** Once the loop's next power fits, every power it ends on fits as well. */
  lemma {:induction false} IntendedFits(v: nat, mult: nat, c: nat)
    requires mult >= 1 && c <= 7 && Pow(mult, c + 2) <= UintMax
    ensures Pow(mult, LoopEndIntended(v, mult, c).1) <= UintMax
    decreases 7 - c
  {
    if v >= Pow(mult, c + 1) && c < 7 && Pow(mult, c + 3) <= UintMax {
      IntendedFits(v, mult, c + 1);
    } else {
      PowMono(mult, LoopEndIntended(v, mult, c).1, c + 2);
    }
  }

  /** Intended scaling of one petabyte: "1.00P". */
  lemma PetabyteShownAsP()
    ensures PrefixTextIntended(1_000_000_000_000_000, 1, 0, 1000, '\0') == "1.00P\0"
  {
    var v := 1_000_000_000_000_000;
    assert Pow(1000, 5) == v;
    IntendedLabelMatches(v, 1000);
    assert Hundredths(v, v) == 0;
    assert NatStr(v / v) == "1";
    assert Pad2(0) == "00";
  }

  /** Below mult^5 the overflow check never fires for a base whose sixth power fits. */
  lemma NoBreakBelowFifth(v: nat, mult: nat)
    requires mult >= 1 && Pow(mult, 6) <= UintMax
    requires v < Pow(mult, 5)
    ensures LoopEnd(v, mult, 0).1 == LoopEnd(v, mult, 0).0 + 1
  {
    var r := LoopEnd(v, mult, 0);
    LoopEndCases(v, mult, 0);
    if r.0 <= 3 {
      PowMono(mult, r.0 + 3, 6);
    } else {
      PowMono(mult, 5, r.0 + 1);
    }
  }

  /** A scaled text ends with its prefix letter and the unit character. */
  lemma ScaledEnds(x: nat, d: nat, omitdec: int, letter: char, uprefix: char)
    requires d >= 1
    ensures var t := Scaled(x, d, omitdec, letter, uprefix);
      |t| >= 2 && t[|t| - 2] == letter && t[|t| - 1] == uprefix
  {
  }

  /**
   * For the two bases in use, the correction changes the text of exactly
   * the values of mult^5 and more.
   */
  lemma CorrectionScope(val: u64, decimal: u32, omitdec: int, mult: u32, uprefix: char)
    requires decimal >= 1 && (mult == 1000 || mult == 1024)
    ensures Pow(mult, 3) <= UintMax
    ensures PrefixTextIntended(val, decimal, omitdec, mult, uprefix) == PrefixText(val, decimal, omitdec, mult, uprefix)
      <==> val / decimal < Pow(mult, 5)
  {
    BaseSixthPower(mult);
    PowMono(mult, 3, 6);
    if val / decimal < Pow(mult, 5) {
      AgreeBelowFifth(val, decimal, omitdec, mult, uprefix);
    } else {
      DifferFromFifth(val, decimal, omitdec, mult, uprefix);
    }
  }

  lemma AgreeBelowFifth(val: u64, decimal: u32, omitdec: int, mult: u32, uprefix: char)
    requires decimal >= 1 && mult >= 2 && Pow(mult, 6) <= UintMax && Pow(mult, 3) <= UintMax
    requires val / decimal < Pow(mult, 5)
    ensures PrefixTextIntended(val, decimal, omitdec, mult, uprefix) == PrefixText(val, decimal, omitdec, mult, uprefix)
  {
    var v := val / decimal;
    var r := LoopEnd(v, mult, 0);
    NoBreakBelowFifth(v, mult);
    IntendedAgrees(v, mult, 0);
    PrefixIff(v, mult);
    if r.0 >= 1 {
      PowStrict(mult, 1, r.1);
    }
  }

  lemma DifferFromFifth(val: u64, decimal: u32, omitdec: int, mult: u32, uprefix: char)
    requires decimal >= 1 && (mult == 1000 || mult == 1024) && Pow(mult, 3) <= UintMax
    requires val / decimal >= Pow(mult, 5)
    ensures PrefixTextIntended(val, decimal, omitdec, mult, uprefix) != PrefixText(val, decimal, omitdec, mult, uprefix)
  {
    var v := val / decimal;
    ScaleMislabelled(v, mult);
    IntendedLabelMatches(v, mult);
    ScaledEnds(v, Pow(mult, 5), omitdec, 'T', uprefix);
    ScaledEnds(v, Pow(mult, 5), omitdec, 'P', uprefix);
  }

  /*
   * Fitting the column
   */

  /**
   * Every caller passes decimal 1 to qprefix; for sizes below 1000^6 the
   * text, read as a C string, is at most PREFIXSTRLEN characters.
   */
  lemma QPrefixFits(val: u64, omitdec: int)
    requires val < Pow(1000, 6)
    ensures |CString(PrefixText(val, 1, omitdec, 1000, '\0'))| <= PrefixStrLen
  {
    assert val / 1 == val;
    if val < Pow(1000, 5) {
      if val < 1000 {
        UnscaledFits(val, omitdec);
      } else {
        ScaledFits(val, 1, omitdec);
      }
    } else {
      PetaFits(val, omitdec);
    }
  }

  /**
   * Between 1000^5 and 1000^6 the text is at most three digits, decimals and
   * a letter: the mislabelled 'T', as the value is divided by 1000^5.
   */
  lemma PetaFits(val: u64, omitdec: int)
    requires Pow(1000, 5) <= val < Pow(1000, 6)
    ensures |CString(PrefixText(val, 1, omitdec, 1000, '\0'))| <= PrefixStrLen
  {
    assert val / 1 == val;
    assert Pow(1000, 3) == 1_000_000_000;
    ScaleMislabelled(val, 1000);
    PowStrict(1000, 1, 6);
    WrittenTextCases(val, 1, omitdec, 1000, '\0');
    var d := Pow(1000, 5);
    assert Pow(1000, 6) == 1000 * d;
    DivBelow(val, d, 1000);
    ScaledTextFits(Quotient(val, d), Hundredths(val, d), omitdec, 'T');
  }

  lemma UnscaledFits(val: u64, omitdec: int)
    requires val < 1000
    ensures |CString(PrefixText(val, 1, omitdec, 1000, '\0'))| <= PrefixStrLen
  {
    assert Pow(1000, 3) == 1_000_000_000;
    assert val / 1 == val && val % 1 == 0;
    NoPrefix(val, 1, omitdec, 1000, '\0');
    PlainTextFits(val, omitdec);
  }

  lemma ScaledFits(val: u64, decimal: u32, omitdec: int)
    requires decimal >= 1 && 1000 <= val / decimal < Pow(1000, 5)
    ensures |CString(PrefixText(val, decimal, omitdec, 1000, '\0'))| <= PrefixStrLen
  {
    assert Pow(1000, 3) == 1_000_000_000;
    var v := val / decimal;
    var m := Magnitude(v, 1000);
    QuintillionRoom(v, m);
    PrefixCorrect(val, decimal, omitdec, 1000, '\0');
    var d := Pow(1000, m);
    ScaledTextFits(Quotient(v, d), Hundredths(v, d), omitdec, Prefixes[m - 1]);
  }

  /** Below 1000^5 the magnitude is at most four, so the loop's power stays representable. */
  lemma QuintillionRoom(val: nat, m: nat)
    requires 1000 <= val < Pow(1000, 5) && m == Magnitude(val, 1000)
    ensures m <= 4 && Pow(1000, m + 2) <= UintMax
  {
    if m > 4 {
      PowMono(1000, 5, m);
    }
    PowMono(1000, m + 2, 6);
    assert Pow(1000, 6) <= UintMax;
  }

  /** Below one thousand, the unscaled text has at most three digits and two decimals. */
  lemma PlainTextFits(q: nat, omitdec: int)
    requires q < 1000
    ensures |CString(WithoutPrefix(q, 0, omitdec))| <= PrefixStrLen
  {
    assert Pow(10, 3) == 1000;
    NatStrLength(q, 3);
  }

  /** A scaled quotient below one thousand, its decimals and its letter fit the buffer before the NUL. */
  lemma ScaledTextFits(q: nat, frac: nat, omitdec: int, letter: char)
    requires q < 1000 && frac < 100 && letter != '\0'
    ensures |CString(WithPrefix(q, frac, omitdec, letter, '\0'))| <= PrefixStrLen
  {
    assert Pow(10, 3) == 1000;
    NatStrLength(q, 3);
    var shown := if frac != 0 || omitdec == 0
      then NatStr(q) + "." + Pad2(frac) + [letter]
      else NatStr(q) + [letter];
    assert WithPrefix(q, frac, omitdec, letter, '\0') == shown + ['\0'];
    assert |shown| <= 7;
    CStringStops(shown, '\0');
  }

  /** A NUL-free text followed by a NUL reads back as that text. */
  lemma {:induction false} CStringStops(s: string, nul: char)
    requires nul == '\0' && forall k :: 0 <= k < |s| ==> s[k] != '\0'
    ensures CString(s + [nul]) == s
  {
    if s != [] {
      assert (s + [nul])[1..] == s[1..] + [nul];
      CStringStops(s[1..], nul);
    }
  }

  /** A text of at most bsize - 1 characters survives snprintf into a bsize buffer whole. */
  lemma SnprintfKeepsShortText(before: seq<char>, text: string)
    requires |text| < |before|
    ensures Snprintf(before, text)[..|text|] == text
    ensures Snprintf(before, text)[|text|] == '\0'
  {
  }
}
