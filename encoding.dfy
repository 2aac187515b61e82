/**
 * Rendering of the hash accumulator as text: GMP's gmp_strval (digits of a
 * natural number in a base from 2 to 62) followed by the fixed-width
 * `substr(str_repeat("0", w) . s, -w)`.
 */
module Encoding {
  import opened Power
  import opened Wrappers

  /** The exceptions PHP raises on the hash path. */
  datatype HashError =
    | DivisionByZero  // `/` by zero: K*K - 1 == 0
    | InvalidBase     // gmp_strval with a base outside 2..62

  /** The digits of n in base b, most significant first, without leading zeros (0 is one digit). */
  function Digits(n: nat, b: nat): (ds: seq<nat>)
    requires b >= 2
    ensures 1 <= |ds|
    ensures forall i :: 0 <= i < |ds| ==> ds[i] < b
    ensures |ds| > 1 ==> ds[0] != 0
    decreases n
  {
    if n < b then [n]
    else
      DivStep(n, b);
      Digits(n / b, b) + [n % b]
  }

  /** The number a digit sequence denotes in base b (Horner's rule). */
  function DigitsValue(ds: seq<nat>, b: nat): nat
  {
    if ds == [] then 0 else DigitsValue(ds[..|ds| - 1], b) * b + ds[|ds| - 1]
  }

  /** Appending a digit shifts the value by one place. */
  lemma DigitsValueSnoc(init: seq<nat>, d: nat, b: nat)
    ensures DigitsValue(init + [d], b) == DigitsValue(init, b) * b + d
  {
    assert (init + [d])[..|init|] == init;
  }

  lemma DigitsStep(n: nat, b: nat)
    requires b >= 2 && n >= b
    ensures Digits(n, b) == Digits(n / b, b) + [n % b]
  {
  }

  /** Reading back the digits of n gives n. */
  lemma {:induction false} DigitsRoundTrip(n: nat, b: nat)
    requires b >= 2
    ensures DigitsValue(Digits(n, b), b) == n
    decreases n
  {
    if n >= b {
      DigitsStep(n, b);
      DivStep(n, b);
      DigitsValueSnoc(Digits(n / b, b), n % b, b);
      DigitsRoundTrip(n / b, b);
    }
  }

  lemma {:induction false} DigitsValueAppend(a: seq<nat>, c: seq<nat>, b: nat)
    ensures DigitsValue(a + c, b) == DigitsValue(a, b) * Pow(b, |c|) + DigitsValue(c, b)
  {
    if c == [] {
      assert a + c == a;
    } else {
      var c' := c[..|c| - 1];
      assert (a + c)[..|a + c| - 1] == a + c';
      DigitsValueAppend(a, c', b);
      Distributes(DigitsValue(a, b), Pow(b, |c'|), DigitsValue(c', b), b);
    }
  }

  /** m digits below b denote a number below b^m. */
  lemma {:induction false} DigitsValueBound(ds: seq<nat>, b: nat)
    requires b >= 2 && forall i :: 0 <= i < |ds| ==> ds[i] < b
    ensures DigitsValue(ds, b) < Pow(b, |ds|)
  {
    if ds != [] {
      var init := ds[..|ds| - 1];
      assert forall i :: 0 <= i < |init| ==> init[i] == ds[i];
      DigitsValueBound(init, b);
      var v, p, d := DigitsValue(init, b), Pow(b, |init|), ds[|ds| - 1];
      assert DigitsValue(ds, b) == v * b + d;
      assert Pow(b, |ds|) == b * p;
      DigitStep(v, p, d, b);
    }
  }

  lemma DigitStep(v: nat, p: nat, d: nat, b: nat)
    requires v < p && d < b
    ensures v * b + d < p * b
  {
    MulMonotone(v + 1, p, b);
  }

  lemma {:induction false} ZerosValue(m: nat, b: nat)
    ensures DigitsValue(seq(m, _ => 0), b) == 0
  {
    if m > 0 {
      assert seq(m, _ => 0)[..m - 1] == seq(m - 1, _ => 0);
      ZerosValue(m - 1, b);
    }
  }

  /** A number with more than one digit is at least b^(digits - 1). */
  lemma DigitsLowerBound(n: nat, b: nat)
    requires b >= 2
    ensures |Digits(n, b)| > 1 ==> Pow(b, |Digits(n, b)| - 1) <= n
  {
    var ds := Digits(n, b);
    if |ds| > 1 {
      var d, rest := ds[0], ds[1..];
      assert ds == [d] + rest;
      DigitsValueAppend([d], rest, b);
      assert DigitsValue([d], b) == d by {
        assert [d][..0] == [];
      }
      DigitsRoundTrip(n, b);
      MulAwayFromZero(d, Pow(b, |rest|));
      assert n == d * Pow(b, |rest|) + DigitsValue(rest, b);
    }
  }

  /** GMP's digit alphabet: 0-9a-z up to base 36, 0-9A-Za-z above. */
  function DigitChar(d: nat, b: nat): char
    requires d < b <= 62
  {
    if d < 10 then ('0' as int + d) as char
    else if b <= 36 then ('a' as int + d - 10) as char
    else if d < 36 then ('A' as int + d - 10) as char
    else ('a' as int + d - 36) as char
  }

  /** The digit a character stands for in base b (b itself when it is not a digit of b). */
  function CharValue(c: char, b: nat): nat
  {
    if '0' <= c <= '9' then c as int - '0' as int
    else if b <= 36 && 'a' <= c <= 'z' then c as int - 'a' as int + 10
    else if 36 < b && 'A' <= c <= 'Z' then c as int - 'A' as int + 10
    else if 36 < b && 'a' <= c <= 'z' then c as int - 'a' as int + 36
    else b
  }

  lemma CharRoundTrip(d: nat, b: nat)
    requires d < b <= 62
    ensures CharValue(DigitChar(d, b), b) == d
  {
  }

  function Chars(ds: seq<nat>, b: nat): (s: string)
    requires b <= 62 && forall i :: 0 <= i < |ds| ==> ds[i] < b
  {
    seq(|ds|, i requires 0 <= i < |ds| => DigitChar(ds[i], b))
  }

  /** gmp_strval(n, b) */
  function Render(n: nat, b: nat): string
    requires 2 <= b <= 62
  {
    Chars(Digits(n, b), b)
  }

  /** Every character of s is a digit of base b: lower-case hexadecimal for b = 16. */
  predicate IsDigitString(s: string, b: nat)
  {
    forall i :: 0 <= i < |s| ==> CharValue(s[i], b) < b
  }

  /** In base 16 the digits are exactly '0'..'9' and 'a'..'f'. */
  lemma HexAlphabet(s: string)
    ensures IsDigitString(s, 16) <==> forall i :: 0 <= i < |s| ==> '0' <= s[i] <= '9' || 'a' <= s[i] <= 'f'
  {
  }

  lemma CharsAreDigits(ds: seq<nat>, b: nat)
    requires b <= 62 && forall i :: 0 <= i < |ds| ==> ds[i] < b
    ensures IsDigitString(Chars(ds, b), b)
  {
    forall i | 0 <= i < |ds|
      ensures CharValue(Chars(ds, b)[i], b) < b
    {
      CharRoundTrip(ds[i], b);
    }
  }

  /** The number a string of base-b digits denotes. */
  function StringValue(s: string, b: nat): nat
  {
    DigitsValue(seq(|s|, i requires 0 <= i < |s| => CharValue(s[i], b)), b)
  }

  /** Rendering has at most w digits exactly when n < b^w. */
  lemma RenderFits(n: nat, b: nat, w: nat)
    requires 2 <= b <= 62 && w >= 1
    ensures |Render(n, b)| <= w <==> n < Pow(b, w)
  {
    var ds := Digits(n, b);
    DigitsRoundTrip(n, b);
    DigitsValueBound(ds, b);
    DigitsLowerBound(n, b);
    if |ds| < w {
      PowStrictlyIncreasing(b, |ds|, w);
    } else if |ds| > w {
      if |ds| - 1 > w {
        PowStrictlyIncreasing(b, w, |ds| - 1);
      }
    }
  }

  /**
   * substr(str_repeat(zero, w) . s, -w): left-padded to w when shorter,
   * its last w elements when longer; with w == 0 PHP's substr returns all of it.
   */
  function PadLast<T>(s: seq<T>, w: nat, zero: T): (r: seq<T>)
    ensures w >= 1 ==> |r| == w
    ensures 1 <= w && |s| <= w ==> r == seq(w - |s|, _ => zero) + s
    ensures 1 <= w <= |s| ==> r == s[|s| - w..]
    ensures w == 0 ==> r == s
  {
    var t := seq(w, _ => zero) + s;
    if w == 0 then t else t[|t| - w..]
  }

  /** Padding with '0' the rendering of digits is rendering the digits padded with 0. */
  lemma PadChars(ds: seq<nat>, w: nat, b: nat)
    requires 2 <= b <= 62 && w >= 1 && forall i :: 0 <= i < |ds| ==> ds[i] < b
    ensures forall i :: 0 <= i < |PadLast(ds, w, 0)| ==> PadLast(ds, w, 0)[i] < b
    ensures PadLast(Chars(ds, b), w, '0') == Chars(PadLast(ds, w, 0), b)
  {
    var p := PadLast(ds, w, 0);
    var cs := Chars(ds, b);
    forall i | 0 <= i < |p|
      ensures p[i] < b && PadLast(cs, w, '0')[i] == DigitChar(p[i], b)
    {
      if |ds| <= w {
        if i < w - |ds| {
          assert p[i] == 0;
        } else {
          assert p[i] == ds[i - (w - |ds|)];
        }
      } else {
        assert p[i] == ds[|ds| - w + i];
      }
    }
  }

  /** Reading back rendered digits gives their value. */
  lemma CharsValue(ds: seq<nat>, b: nat)
    requires 2 <= b <= 62 && forall i :: 0 <= i < |ds| ==> ds[i] < b
    ensures StringValue(Chars(ds, b), b) == DigitsValue(ds, b)
  {
    var s := Chars(ds, b);
    forall i | 0 <= i < |s|
      ensures CharValue(s[i], b) == ds[i]
    {
      CharRoundTrip(ds[i], b);
    }
    assert seq(|s|, i requires 0 <= i < |s| => CharValue(s[i], b)) == ds;
  }

  /** Leading zeros add nothing to a number. */
  lemma LeadingZerosValue(ds: seq<nat>, m: nat, b: nat)
    ensures DigitsValue(seq(m, _ => 0) + ds, b) == DigitsValue(ds, b)
  {
    var z := seq(m, _ => 0);
    DigitsValueAppend(z, ds, b);
    ZerosValue(m, b);
    assert DigitsValue(z, b) * Pow(b, |ds|) == 0;
  }

  /** Padding a number of at most w digits keeps its value, which is below b^w. */
  lemma PaddedShortValue(ds: seq<nat>, w: nat, b: nat)
    requires 2 <= b && 1 <= w && |ds| <= w
    requires forall i :: 0 <= i < |ds| ==> ds[i] < b
    ensures DigitsValue(PadLast(ds, w, 0), b) == DigitsValue(ds, b) % Pow(b, w)
  {
    assert PadLast(ds, w, 0) == seq(w - |ds|, _ => 0) + ds;
    LeadingZerosValue(ds, w - |ds|, b);
    DigitsValueBound(ds, b);
    if |ds| < w {
      PowStrictlyIncreasing(b, |ds|, w);
    }
    ModBelow(DigitsValue(ds, b), Pow(b, w));
  }

  /** Keeping the last w digits keeps the value modulo b^w. */
  lemma TruncatedValue(ds: seq<nat>, w: nat, b: nat)
    requires 2 <= b && 1 <= w < |ds|
    requires forall i :: 0 <= i < |ds| ==> ds[i] < b
    ensures DigitsValue(PadLast(ds, w, 0), b) == DigitsValue(ds, b) % Pow(b, w)
  {
    var hi, lo := ds[..|ds| - w], ds[|ds| - w..];
    assert ds == hi + lo;
    assert PadLast(ds, w, 0) == lo;
    DigitsValueAppend(hi, lo, b);
    DigitsValueBound(lo, b);
    DivModMulAdd(DigitsValue(hi, b), Pow(b, w), DigitsValue(lo, b));
  }

  /** Padding keeps the value, truncation to w digits keeps it modulo b^w. */
  lemma PaddedDigitsValue(ds: seq<nat>, w: nat, b: nat)
    requires 2 <= b && w >= 1 && forall i :: 0 <= i < |ds| ==> ds[i] < b
    ensures DigitsValue(PadLast(ds, w, 0), b) == DigitsValue(ds, b) % Pow(b, w)
  {
    if |ds| <= w {
      PaddedShortValue(ds, w, b);
    } else {
      TruncatedValue(ds, w, b);
    }
  }

  /** The fixed-width rendering of n in base b denotes n modulo b^w. */
  lemma PaddedRenderValue(n: nat, b: nat, w: nat)
    requires 2 <= b <= 62 && w >= 1
    ensures StringValue(PadLast(Render(n, b), w, '0'), b) == n % Pow(b, w)
  {
    var ds := Digits(n, b);
    PadChars(ds, w, b);
    CharsValue(PadLast(ds, w, 0), b);
    PaddedDigitsValue(ds, w, b);
    DigitsRoundTrip(n, b);
  }

  /** gmp_strval followed by the fixed-width substr yields only digits of the base. */
  lemma PaddedRenderDigits(n: nat, b: nat, w: nat)
    requires 2 <= b <= 62
    ensures IsDigitString(PadLast(Render(n, b), w, '0'), b)
  {
    var ds := Digits(n, b);
    if w == 0 {
      CharsAreDigits(ds, b);
    } else {
      PadChars(ds, w, b);
      CharsAreDigits(PadLast(ds, w, 0), b);
    }
  }

  /**
   * Lines 130-131 as written: the width is K*K/4 (PHP's float quotient,
   * truncated where it is used as an integer) and gmp_strval receives that
   * width as its BASE.
   */
  function Encode(acc: nat, k: nat): (r: Result<string, HashError>)
    ensures r.Success? <==> 2 <= k * k / 4 <= 62
    ensures r.Success? ==> |r.value| == k * k / 4 && IsDigitString(r.value, k * k / 4)
  {
    var w := k * k / 4;
    if 2 <= w <= 62 then
      PaddedRenderDigits(acc, w, w);
      Success(PadLast(Render(acc, w), w, '0'))
    else Failure(InvalidBase)
  }

  /** As written, the hash string keeps the accumulator only modulo w^w, w = K*K/4. */
  lemma EncodeValue(acc: nat, k: nat)
    requires Encode(acc, k).Success?
    ensures StringValue(Encode(acc, k).value, k * k / 4) == acc % Pow(k * k / 4, k * k / 4)
  {
    PaddedRenderValue(acc, k * k / 4, k * k / 4);
  }

  lemma Base4Of256()
    ensures Render(256, 4) == "10000"
  {
    assert Digits(256, 4) == [1, 0, 0, 0, 0] by {
      assert Digits(4, 4) == Digits(1, 4) + [0];
      assert Digits(16, 4) == Digits(4, 4) + [0];
      assert Digits(64, 4) == Digits(16, 4) + [0];
    }
  }

  /**
   * With K = 4 the hash has 16 bits but is written as 4 digits in base 4:
   * the accumulators 256 and 0 produce the same string "0000".
   */
  lemma EncodeCollision()
    ensures 256 < Pow(2, 4 * 4)
    ensures Encode(256, 4) == Encode(0, 4) == Success("0000")
  {
    Base4Of256();
    assert PadLast("10000", 4, '0') == "10000"[1..] == "0000";
    assert Render(0, 4) == "0";
    assert PadLast("0", 4, '0') == "000" + "0" == "0000";
    assert Pow(2, 16) == 65536 by {
      PowAdd(2, 8, 8);
      assert Pow(2, 8) == 256;
    }
  }

  /** The evidently intended encoding: K*K/4 hexadecimal digits. */
  function EncodeHex(acc: nat, k: nat): (r: string)
    ensures k >= 2 ==> |r| == k * k / 4
    ensures IsDigitString(r, 16)
  {
    PaddedRenderDigits(acc, 16, k * k / 4);
    PadLast(Render(acc, 16), k * k / 4, '0')
  }

  /** For even K every K*K-bit accumulator is written exactly, and read back unchanged. */
  lemma HexRoundTrip(acc: nat, k: nat)
    requires k >= 2 && k % 2 == 0
    requires acc < Pow(2, k * k)
    ensures StringValue(EncodeHex(acc, k), 16) == acc
  {
    var m := k / 2;
    assert k * k == 4 * (m * m);
    assert k * k / 4 == m * m;
    HexPow(m * m);
    PaddedRenderValue(acc, 16, m * m);
    DivModMulAdd(0, Pow(16, m * m), acc);
  }

  /** Hence two distinct K*K-bit accumulators never share a hexadecimal hash. */
  lemma HexInjective(a: nat, c: nat, k: nat)
    requires k >= 2 && k % 2 == 0
    requires a < Pow(2, k * k) && c < Pow(2, k * k)
    requires EncodeHex(a, k) == EncodeHex(c, k)
    ensures a == c
  {
    HexRoundTrip(a, k);
    HexRoundTrip(c, k);
  }

  /** In the default configuration K = 8 the base is 16 and the two encodings agree. */
  lemma DefaultIsHex(acc: nat)
    ensures Encode(acc, 8) == Success(EncodeHex(acc, 8))
  {
  }
}
