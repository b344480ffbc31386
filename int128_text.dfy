/**
 * Decimal text of an Int128 with a scale (src/common/Int128.cpp, `toString`). The
 * digits come from the magnitude; a scale between -34 and -1 places a decimal point,
 * one between 1 and 4 appends zeros, and any other non-zero scale is written as an
 * exponent suffix.
 */
module Int128Text {
  import opened Common
  import opened Arith
  import opened Int128

  predicate IsDigit(c: char) {
    '0' <= c <= '9'
  }

  predicate AllDigits(s: string) {
    forall i | 0 <= i < |s| :: IsDigit(s[i])
  }

  function DigitChar(d: int): (c: char)
    requires 0 <= d < 10
    ensures IsDigit(c) && c as int - '0' as int == d
  {
    (d + '0' as int) as char
  }

  function DigitValue(c: char): int
    requires IsDigit(c)
  {
    c as int - '0' as int
  }

  /** The decimal digits of `n`, most significant first, without leading zeros. */
  function Digits(n: nat): (s: string)
    ensures |s| >= 1 && AllDigits(s)
    ensures |s| > 1 ==> s[0] != '0'
  {
    if n < 10 then [DigitChar(n)] else Digits(n / 10) + [DigitChar(n % 10)]
  }

  function Zeros(n: nat): (s: string)
    ensures |s| == n && forall i | 0 <= i < n :: s[i] == '0'
  {
    if n == 0 then [] else Zeros(n - 1) + ['0']
  }

  /** The `w` lowest decimal digits of `n`, padded with zeros on the left. */
  function LowDigits(n: nat, w: nat): (s: string)
    ensures |s| == w && AllDigits(s)
  {
    if w == 0 then [] else LowDigits(n / 10, w - 1) + [DigitChar(n % 10)]
  }

  /** The number a string of decimal digits denotes. */
  function ParseDigits(s: string): nat
    requires AllDigits(s)
  {
    if s == [] then 0 else ParseDigits(s[..|s| - 1]) * 10 + DigitValue(s[|s| - 1])
  }

  function SignPrefix(x: int): string {
    if x < 0 then "-" else ""
  }

  /** A signed integer as ttmath's `ToStringBase` and `printf("%d")` write it. */
  function SignedText(x: int): string {
    SignPrefix(x) + Digits(Abs(x))
  }

  /**
   * The text `toString` is meant to produce: with a scale of -p (1 <= p <= 34) the
   * integer part is |v| / 10^p and the fraction its p lowest digits.
   */
  function Render(v: Int128, scale: int): string {
    SignPrefix(v) + Unsigned(Abs(v), scale)
  }

  /** The text of a magnitude `a` with a scale, before the sign is put back. */
  function Unsigned(a: nat, scale: int): string {
    if scale == 0 then Digits(a)
    else if scale < -34 || scale > 4 then Digits(a) + "E" + SignedText(scale)
    else if scale > 0 then Digits(a) + Zeros(scale)
    else Digits(Quotient(a, Pow10(-scale))) + "." + LowDigits(a, -scale)
  }

  // ---------------------------------------------------------------------------
  // What the digit strings denote

  lemma {:induction false} DigitsRoundTrip(n: nat)
    ensures ParseDigits(Digits(n)) == n
  {
    if n >= 10 {
      DigitsRoundTrip(n / 10);
      var s := Digits(n);
      assert s[..|s| - 1] == Digits(n / 10);
    }
  }

  lemma {:induction false} LowDigitsValue(n: nat, w: nat)
    ensures ParseDigits(LowDigits(n, w)) == n % Pow10(w)
  {
    if w > 0 {
      LowDigitsValue(n / 10, w - 1);
      var s := LowDigits(n, w);
      assert s[..|s| - 1] == LowDigits(n / 10, w - 1);
      DivModNested(n, 10, Pow10(w - 1));
    }
  }

  lemma ParseAppendDigit(t: string, c: char)
    requires AllDigits(t) && IsDigit(c)
    ensures AllDigits(t + [c])
    ensures ParseDigits(t + [c]) == ParseDigits(t) * 10 + DigitValue(c)
  {
    assert (t + [c])[..|t|] == t;
  }

  lemma {:induction false} AppendZeros(s: string, k: nat)
    requires AllDigits(s)
    ensures AllDigits(s + Zeros(k))
    ensures ParseDigits(s + Zeros(k)) == ParseDigits(s) * Pow10(k)
  {
    if k > 0 {
      var t0 := s + Zeros(k - 1);
      AppendZeros(s, k - 1);
      assert s + Zeros(k) == t0 + ['0'];
      ParseAppendDigit(t0, '0');
      ScaleByTen(ParseDigits(s), k - 1);
    } else {
      assert s + Zeros(k) == s;
    }
  }

  // ---------------------------------------------------------------------------
  // Where the point goes

  lemma {:induction false} LowDigitsOfZero(w: nat)
    ensures LowDigits(0, w) == Zeros(w)
  {
    if w > 0 {
      LowDigitsOfZero(w - 1);
    }
  }

  lemma {:induction false} ShortDigitsAreSmall(a: nat, p: nat)
    requires |Digits(a)| <= p
    ensures a < Pow10(p)
  {
    if a >= 10 {
      ShortDigitsAreSmall(a / 10, p - 1);
    }
  }

  /** A number with more than `p` digits splits into its quotient by 10^p and its `p` low digits. */
  lemma {:induction false} DigitsSplit(a: nat, p: nat)
    requires p < |Digits(a)|
    ensures 0 <= a / Pow10(p)
    ensures Digits(a) == Digits(a / Pow10(p)) + LowDigits(a, p)
  {
    DivBounds(a, Pow10(p));
    if p > 0 {
      DigitsSplit(a / 10, p - 1);
      DivModNested(a, 10, Pow10(p - 1));
      assert Pow10(p) == 10 * Pow10(p - 1);
    }
  }

  /** A number with at most `p` digits is its own digits padded to width `p`. */
  lemma {:induction false} DigitsPadded(a: nat, p: nat)
    requires |Digits(a)| <= p
    ensures LowDigits(a, p) == Zeros(p - |Digits(a)|) + Digits(a)
  {
    if a < 10 {
      LowDigitsOfZero(p - 1);
    } else {
      DigitsPadded(a / 10, p - 1);
    }
  }

  /**
   * Where the point goes in the digits of `a` for a scale of -p: with more than `p`
   * digits the split leaves the quotient by 10^p on the left, otherwise the digits
   * padded to `p` places are the whole fraction and the integer part is 0.
   */
  lemma PointPlacement(a: nat, p: nat) returns (ip: string, fp: string)
    requires 1 <= p <= 34
    ensures ip == Digits(Quotient(a, Pow10(p))) && fp == LowDigits(a, p)
    ensures Unsigned(a, -(p as int)) == ip + "." + fp
    ensures var d := Digits(a);
      (p < |d| ==> d[..|d| - p] == ip && d[|d| - p..] == fp) &&
      (p >= |d| ==> Zeros(p - |d|) + d == fp && ip == "0")
  {
    var q := Quotient(a, Pow10(p));
    ip, fp := Digits(q), LowDigits(a, p);
    var d := Digits(a);
    if p < |d| {
      DigitsSplit(a, p);
      assert d == ip + fp && |fp| == p;
      assert d[..|d| - p] == ip;
    } else {
      ShortDigitsAreSmall(a, p);
      DivModUnique(a, Pow10(p), 0, a);
      DigitsPadded(a, p);
    }
  }

  /** The text of a signed integer starts with a minus exactly when it is negative; the rest are the magnitude's digits. */
  lemma SignedTextParts(x: int)
    ensures var t := SignedText(x);
      |t| >= 1 && (t[0] == '-' <==> x < 0) &&
      (x < 0 ==> t[1..] == Digits(Abs(x))) && (x >= 0 ==> t == Digits(Abs(x)))
  {
    var d := Digits(Abs(x));
    assert IsDigit(d[0]);
    if x < 0 {
      assert SignedText(x) == "-" + d;
    }
  }

  /**
   * `toString(scale, string&)`: writes the value with ttmath, strips the sign, adds
   * the exponent, the zeros or the point, and puts the sign back.
   */
  method ToString(v: Int128, scale: int) returns (to: string)
    ensures to == Render(v, scale)
  {
    to := SignedText(v);
    SignedTextParts(v);
    var sgn := to[0] == '-';
    if sgn {
      to := to[1..];
    }
    assert to == Digits(Abs(v));
    if scale != 0 {
      if scale < -34 || scale > 4 {
        to := to + "E" + SignedText(scale);
        assert to == Unsigned(Abs(v), scale);
      } else if scale > 0 {
        to := to + Zeros(scale);
        assert to == Unsigned(Abs(v), scale);
      } else {
        var posScale := -scale;
        ghost var ip, fp := PointPlacement(Abs(v), posScale);
        if posScale > |to| {
          to := Zeros(posScale - |to|) + to;
        }
        if posScale == |to| {
          assert to == fp && ip == "0";
          assert "0." == ip + ".";
          to := "0." + to;
          assert to == ip + "." + fp;
        } else {
          assert to[..|to| - posScale] == ip && to[|to| - posScale..] == fp;
          to := to[..|to| - posScale] + "." + to[|to| - posScale..];
          assert to == ip + "." + fp;
        }
        assert to == Unsigned(Abs(v), scale);
      }
    }
    if sgn {
      to := "-" + to;
    }
  }

  /**
   * `toString(scale, length, to)`: the same text, refused with a truncation error
   * when it and its terminating NUL do not fit in `length` bytes.
   */
  method ToBuffer(v: Int128, scale: int, length: nat) returns (r: Result<string, Error>)
    ensures |Render(v, scale)| + 1 > length ==> r == Err(StringTruncation(length, |Render(v, scale)| + 1))
    ensures |Render(v, scale)| + 1 <= length ==> r == Ok(Render(v, scale) + ['\0'])
  {
    var buffer := ToString(v, scale);
    if |buffer| + 1 > length {
      return Err(StringTruncation(length, |buffer| + 1));
    }
    r := Ok(buffer + ['\0']);
  }

  /** The quotient by 10^p and the `p` low digits of `a` together denote `a`. */
  lemma SplitValue(a: nat, p: nat)
    ensures ParseDigits(Digits(Quotient(a, Pow10(p)))) * Pow10(p) + ParseDigits(LowDigits(a, p)) == a
  {
    var d := Pow10(p);
    var q := Quotient(a, d);
    DigitsRoundTrip(q);
    LowDigitsValue(a, p);
    DivBounds(a, d);
    assert q * d == d * q;
  }

  /** With a scale of -p the text reads back as |v| / 10^p before the point and |v| % 10^p, in p digits, after it. */
  lemma FixedPointValue(v: Int128, p: nat)
    requires 1 <= p <= 34
    ensures Render(v, -(p as int)) == SignPrefix(v) + (Digits(Quotient(Abs(v), Pow10(p))) + "." + LowDigits(Abs(v), p))
    ensures ParseDigits(Digits(Quotient(Abs(v), Pow10(p)))) * Pow10(p) + ParseDigits(LowDigits(Abs(v), p)) == Abs(v)
  {
    var ip, fp := PointPlacement(Abs(v), p);
    SplitValue(Abs(v), p);
  }

  /** With a scale of 1 to 4 the digits read back as |v| * 10^scale. */
  lemma ScaledUpValue(v: Int128, scale: int)
    requires 0 < scale <= 4
    ensures var t := Digits(Abs(v)) + Zeros(scale);
      Render(v, scale) == SignPrefix(v) + t && AllDigits(t) && ParseDigits(t) == Abs(v) * Pow10(scale)
  {
    AppendZeros(Digits(Abs(v)), scale);
    DigitsRoundTrip(Abs(v));
  }
}
