/**
 * The signed 128-bit integer of src/common/Int128.{h,cpp}: a two's-complement
 * value held by a fixed-width ttmath integer. Every operation that can leave the
 * 128-bit range raises an arithmetic status error instead of returning a value;
 * here that is the `Err` side of a `Result`.
 */
module Int128 {
  import opened Common
  import opened Arith

  const MinValue: int := -0x8000_0000_0000_0000_0000_0000_0000_0000
  const MaxValue: int := 0x7FFF_FFFF_FFFF_FFFF_FFFF_FFFF_FFFF_FFFF
  /** 2^128, the number of distinct 128-bit patterns. */
  const Modulus: int := 0x1_0000_0000_0000_0000_0000_0000_0000_0000

  const Int64Min: int := -0x8000_0000_0000_0000
  const Int64Max: int := 0x7FFF_FFFF_FFFF_FFFF
  const Int32Min: int := -0x8000_0000
  const Int32Max: int := 0x7FFF_FFFF

  predicate Fits(x: int) {
    MinValue <= x <= MaxValue
  }

  type Int128 = x: int | MinValue <= x <= MaxValue
  type Int64 = x: int | Int64Min <= x <= Int64Max
  type Int32 = x: int | Int32Min <= x <= Int32Max

  /** The status vectors raised under isc_arith_except. */
  datatype Error =
    | IntegerOverflow                              // isc_exception_integer_overflow
    | IntegerDivideByZero                          // isc_exception_integer_divide_by_zero
    | NumericOutOfRange                            // isc_numeric_out_of_range
    | StringTruncation(limit: nat, needed: nat)    // isc_string_truncation, isc_trunc_limits

  /** The bit pattern of `x` read back as a signed 128-bit value. */
  function Wrap(x: int): (r: Int128)
    ensures (x - r) % Modulus == 0
    ensures Fits(x) ==> r == x
    ensures MaxValue < x <= MaxValue + Modulus ==> r == x - Modulus
    ensures MinValue - Modulus <= x < MinValue ==> r == x + Modulus
  {
    var u := x % Modulus;
    if u > MaxValue then u - Modulus else u
  }

  /** The bit pattern of `x` read back as a signed 64-bit value. */
  function Wrap64(x: int): (r: Int64)
    ensures (x - r) % 0x1_0000_0000_0000_0000 == 0
    ensures Int64Min <= x <= Int64Max ==> r == x
  {
    var u := x % 0x1_0000_0000_0000_0000;
    if u > Int64Max then u - 0x1_0000_0000_0000_0000 else u
  }

  /** The bit pattern of `x` read back as a signed 32-bit value. */
  function Wrap32(x: int): (r: Int32)
    ensures (x - r) % 0x1_0000_0000 == 0
    ensures Int32Min <= x <= Int32Max ==> r == x
  {
    var u := x % 0x1_0000_0000;
    if u > Int32Max then u - 0x1_0000_0000 else u
  }

  /**
   * `add`: the fixed-width sum, with the carry rule of two's complement: two operands
   * of one sign whose wrapped sum has the other sign have overflowed.
   */
  function Add(a: Int128, b: Int128): (r: Result<Int128, Error>)
    ensures r == if Fits(a + b) then Ok(a + b) else Err(IntegerOverflow)
  {
    var s := Wrap(a + b);
    if (a < 0) == (b < 0) && (s < 0) != (a < 0) then Err(IntegerOverflow) else Ok(s)
  }

  /** `sub`: overflow when the operands differ in sign and the wrapped difference has the subtrahend's sign. */
  function Sub(a: Int128, b: Int128): (r: Result<Int128, Error>)
    ensures r == if Fits(a - b) then Ok(a - b) else Err(IntegerOverflow)
  {
    var s := Wrap(a - b);
    if (a < 0) != (b < 0) && (s < 0) != (a < 0) then Err(IntegerOverflow) else Ok(s)
  }

  /** `neg`: the only pattern whose sign cannot change is the one with just the top bit set. */
  function Neg(a: Int128): (r: Result<Int128, Error>)
    ensures r == if Fits(-(a as int)) then Ok(-(a as int)) else Err(IntegerOverflow)
    ensures r.Err? <==> a == MinValue
  {
    if a == MinValue then Err(IntegerOverflow) else Ok(Wrap(0 - a))
  }

  /** `abs`: non-negative values are kept, the others negated. */
  function AbsValue(a: Int128): (r: Result<Int128, Error>)
    ensures r.Err? <==> a == MinValue
    ensures r.Ok? ==> r.value == Abs(a)
  {
    if a >= 0 then Ok(a) else Neg(a)
  }

  lemma MagnitudeProduct(a: int, b: int)
    ensures Abs(a) * Abs(b) == Abs(a * b)
    ensures (a < 0) != (b < 0) ==> a * b == -(Abs(a) * Abs(b))
    ensures (a < 0) == (b < 0) ==> a * b == Abs(a) * Abs(b)
  {
    if a < 0 && b < 0 {
      assert a * b == (-a) * (-b);
    } else if a < 0 {
      assert a * b == -((-a) * b);
      MulMonotone(-a, 0, b);
    } else if b < 0 {
      assert a * b == -(a * (-b));
      MulMonotone(a, 0, -b);
    } else {
      MulMonotone(a, 0, b);
    }
  }

  /**
   * `mul`: the magnitudes are multiplied without sign; a carry out of 128 bits, or a
   * magnitude the signed result cannot hold, is an overflow.
   */
  function Mul(a: Int128, b: Int128): (r: Result<Int128, Error>)
    ensures r == if Fits(a * b) then Ok(a * b) else Err(IntegerOverflow)
  {
    var m := Abs(a) * Abs(b);
    var negative := (a < 0) != (b < 0);
    MagnitudeProduct(a, b);
    if m >= Modulus || m > MaxValue + (if negative then 1 else 0) then Err(IntegerOverflow)
    else Ok(if negative then -m else m)
  }

  /**
   * `div`: the quotient truncated toward zero. The `scale` argument takes no part.
   * The magnitude of MinValue divided by one is still MinValue's pattern, so
   * MinValue / -1 comes back as MinValue rather than as an error.
   */
  function Div(a: Int128, b: Int128, scale: int): (r: Result<Int128, Error>)
    ensures r.Err? <==> b == 0
    ensures r.Err? ==> r.error == IntegerDivideByZero
  {
    if b == 0 then Err(IntegerDivideByZero)
    else
      var q := Abs(a) / Abs(b);
      Ok(Wrap(if (a < 0) != (b < 0) then -q else q))
  }

  /** `mod`: the remainder of the truncating division, carrying the dividend's sign. */
  function Mod(a: Int128, b: Int128): (r: Result<Int128, Error>)
    ensures r.Err? <==> b == 0
    ensures r.Err? ==> r.error == IntegerDivideByZero
    ensures r.Ok? ==> Abs(r.value) < Abs(b)
  {
    if b == 0 then Err(IntegerDivideByZero)
    else
      var m := Abs(a) % Abs(b);
      Ok(if a < 0 then -m else m)
  }

  lemma MagnitudeDivision(x: nat, y: nat)
    requires y >= 1
    ensures x == y * (x / y) + x % y
    ensures 0 <= x / y <= x && 0 <= x % y < y
    ensures y >= 2 ==> 2 * (x / y) <= x
  {
    var q := x / y;
    assert x == y * q + x % y;
    MulMonotone(q, 1, y);
    if y >= 2 {
      MulMonotone(q, 2, y);
    }
  }

  lemma SignedReassembly(a: int, b: int, q0: nat, r0: nat)
    requires b != 0 && Abs(a) == Abs(b) * q0 + r0
    ensures a == (if (a < 0) != (b < 0) then -(q0 as int) else q0) * b + (if a < 0 then -(r0 as int) else r0)
  {
    if b < 0 {
      assert Abs(b) * q0 == -(q0 * b);
    } else {
      assert Abs(b) * q0 == q0 * b;
    }
  }

  /**
   * `div` and `mod` together: whenever the quotient is representable they return
   * the truncated quotient and the remainder that reassemble the dividend.
   */
  lemma DivModIdentity(a: Int128, b: Int128, scale: int)
    requires b != 0 && !(a == MinValue && b == -1)
    ensures Div(a, b, scale).Ok? && Mod(a, b).Ok?
    ensures a == Div(a, b, scale).value * b + Mod(a, b).value
    ensures Abs(Div(a, b, scale).value) == Abs(a) / Abs(b)
    ensures Mod(a, b).value != 0 ==> (Mod(a, b).value < 0 <==> a < 0)
  {
    var x, y := Abs(a), Abs(b);
    MagnitudeDivision(x, y);
    var q0: int, r0: int := x / y, x % y;
    var q := if (a < 0) != (b < 0) then -q0 else q0;
    assert Fits(q) by {
      if q0 > MaxValue {
        assert y == 1 && b == 1;
      }
    }
    assert Div(a, b, scale) == Ok(q);
    assert Mod(a, b) == Ok(if a < 0 then -r0 else r0);
    SignedReassembly(a, b, q0, r0);
  }

  /** The wrap-around of `div` on its one unrepresentable quotient. */
  lemma DivMinByMinusOne(scale: int)
    ensures Div(MinValue, -1, scale) == Ok(MinValue)
  {
  }

  /** `compare`: -1, 0 or 1 as the integer order says. */
  function Compare(a: Int128, b: Int128): (r: int)
    ensures r == -1 <==> a < b
    ensures r == 0 <==> a == b
    ensures r == 1 <==> a > b
  {
    if a < b then -1 else if a > b then 1 else 0
  }

  /** `operator>` and `operator==` agree with `compare`. */
  function Greater(a: Int128, b: Int128): (r: bool)
    ensures r <==> Compare(a, b) == 1
  {
    a > b
  }

  function Equal(a: Int128, b: Int128): (r: bool)
    ensures r <==> Compare(a, b) == 0
  {
    a == b
  }

  // ---------------------------------------------------------------------------
  // The rescaling guard

  /** 2^126 div 5, the largest magnitude that can still be multiplied by ten. */
  const I128Limit: int := 0x0CCC_CCCC_CCCC_CCCC_CCCC_CCCC_CCCC_CCCC

  lemma Pow2Of24()
    ensures Pow2(24) == 0x100_0000
  {
    assert Pow2(6) == 64;
    Pow2Add(6, 6);
    Pow2Add(12, 12);
  }

  lemma Pow2Of48()
    ensures Pow2(48) == 0x1_0000_0000_0000
  {
    Pow2Of24();
    Pow2Add(24, 24);
  }

  lemma Pow2Of96()
    ensures Pow2(96) == 0x1_0000_0000_0000_0000_0000_0000
  {
    Pow2Of48();
    Pow2Add(48, 48);
  }

  lemma Pow2Of120()
    ensures Pow2(120) == 0x100_0000_0000_0000_0000_0000_0000_0000
  {
    Pow2Of96();
    Pow2Of24();
    Pow2Add(96, 24);
  }

  lemma Pow2Of126()
    ensures Pow2(126) == 0x4000_0000_0000_0000_0000_0000_0000_0000
  {
    Pow2Of120();
    Pow2Add(120, 6);
    assert Pow2(6) == 64;
  }

  /**
   * The constructor of `I128limit`: one, doubled 126 times, divided by five. The
   * result is exactly the bound under which a multiplication by ten stays in range.
   */
  method ComputeI128Limit() returns (limit: int)
    ensures limit == Pow2(126) / 5
    ensures limit == I128Limit
    ensures forall x :: -limit <= x <= limit <==> Fits(10 * x)
  {
    var v := 1;
    var i := 0;
    while i < 126
      invariant 0 <= i <= 126
      invariant v == Pow2(i)
    {
      v := v * 2;
      i := i + 1;
    }
    limit := v / 5;
    Pow2Of126();
  }

  // ---------------------------------------------------------------------------
  // Decimal rescaling

  /** `v / 10^s`, rounded half away from zero. */
  function RoundHalfAway(v: int, s: nat): (r: int)
    requires s >= 1
    ensures Abs(r) <= Abs(v) / 10 + 1
  {
    var a, p := Abs(v), Pow10(s);
    QuotientShrinks(a, s);
    var q := a / p;
    var m := if 2 * (a % p) >= p then q + 1 else q;
    assert 0 <= m <= a / 10 + 1;
    if v < 0 then -m else m
  }

  /**
   * What `setScale` is meant to produce: a positive scale divides by 10^scale with
   * rounding, a negative scale multiplies by 10^-scale, and a product outside the
   * 128-bit range is an error.
   */
  function Rescaled(v: Int128, scale: int): Result<Int128, Error> {
    if scale > 0 then
      Ok(RoundHalfAway(v, scale))
    else if scale < 0 then
      var x := v * Pow10(-scale);
      if Fits(x) then Ok(x) else Err(NumericOutOfRange)
    else
      Ok(v)
  }

  /** One step of ttmath's signed `DivInt(10)`: quotient toward zero, remainder with the dividend's sign. */
  function TruncDiv10(v: int): int {
    if v < 0 then -((-v) / 10) else v / 10
  }

  function TruncRem10(v: int): int {
    if v < 0 then -((-v) % 10) else v % 10
  }

  lemma DivLe(a: nat, d: int)
    requires d >= 1
    ensures a / d <= a
  {
    assert a == d * (a / d) + a % d;
    MulMonotone(a / d, 1, d);
  }

  lemma QuotientShrinks(a: nat, s: nat)
    requires s >= 1
    ensures 0 <= a / Pow10(s) <= a / 10
  {
    DivBounds(a, Pow10(s));
    DivPow10(a, s - 1);
    DivLe(a, Pow10(s - 1));
  }

  lemma DivPow10(a: nat, k: nat)
    ensures a / Pow10(k) / 10 == a / Pow10(k + 1)
  {
    DivModNested(a, Pow10(k), 10);
    assert Pow10(k + 1) == Pow10(k) * 10;
  }

  lemma ModPow10(a: nat, k: nat)
    ensures a % Pow10(k + 1) == (a / Pow10(k)) % 10 * Pow10(k) + a % Pow10(k)
  {
    DivModNested(a, Pow10(k), 10);
    assert Pow10(k + 1) == Pow10(k) * 10;
  }

  /** The last digit divided away decides the rounding: it is above four exactly when the discarded part is at least half. */
  lemma LastDigitRounding(a: nat, s: nat)
    requires s >= 1
    ensures ((a / Pow10(s - 1)) % 10 > 4) == (2 * (a % Pow10(s)) >= Pow10(s))
  {
    var p := Pow10(s - 1);
    var d := (a / p) % 10;
    ModPow10(a, s - 1);
    assert a % Pow10(s) == d * p + a % p;
    assert Pow10(s) == 10 * p;
    if d > 4 {
      MulMonotone(p, 5, d);
      assert p * d >= 5 * p;
    } else {
      MulMonotone(p, d, 4);
      assert p * d <= 4 * p;
    }
  }

  lemma {:induction false} ScaleUpMonotone(x: int, i: nat, j: nat)
    requires i <= j
    ensures Abs(x * Pow10(i)) <= Abs(x * Pow10(j))
    decreases j - i
  {
    if i < j {
      ScaleUpMonotone(x, i, j - 1);
      ScaleByTen(x, j - 1);
    }
  }

  /** `value` with its last `k` decimal digits cut off, keeping its sign. */
  function Shifted(value: int, k: nat): int {
    var q: int := Quotient(Abs(value), Pow10(k));
    if value < 0 then -q else q
  }

  lemma ShiftStep(value: int, k: nat)
    ensures TruncDiv10(Shifted(value, k)) == Shifted(value, k + 1)
  {
    var a := Abs(value);
    var q: int, q1: int := Quotient(a, Pow10(k)), Quotient(a, Pow10(k + 1));
    DivPow10(a, k);
    assert q / 10 == q1;
    if value < 0 {
      assert Shifted(value, k) == -q && Shifted(value, k + 1) == -q1;
      if q > 0 {
        assert TruncDiv10(-q) == -(q / 10);
      }
    } else {
      assert Shifted(value, k) == q && Shifted(value, k + 1) == q1;
    }
  }

  /** Rounding on the remainder of the last division by ten is rounding half away from zero. */
  lemma RoundOnLastRemainder(value: int, s: nat)
    requires s >= 1
    ensures var q, rem := Shifted(value, s), TruncRem10(Shifted(value, s - 1));
      RoundHalfAway(value, s) == if rem > 4 then q + 1 else if rem < -4 then q - 1 else q
  {
    var a := Abs(value);
    var q, x := a / Pow10(s), a / Pow10(s - 1);
    LastDigitRounding(a, s);
    DivPow10(a, s - 1);
    assert Shifted(value, s) == if value < 0 then -q else q;
    assert Shifted(value, s - 1) == if value < 0 then -x else x;
    MagnitudeDivision(a, Pow10(s - 1));
    assert TruncRem10(if value < 0 then -x else x) == if value < 0 then -(x % 10) else x % 10;
  }

  /**
   * `setScale`: a positive scale divides `scale` times by ten, keeps the remainder of
   * the last division and rounds on it; a negative scale multiplies by ten, first
   * checking the value against I128Limit.
   */
  method SetScale(value: Int128, scale: int) returns (r: Result<Int128, Error>)
    ensures r == Rescaled(value, scale)
  {
    var v: int := value;
    if scale > 0 {
      var rem := 0;
      var n := scale;
      while n > 0
        invariant 0 <= n <= scale
        invariant v == Shifted(value, scale - n)
        invariant rem == if n == 0 then TruncRem10(Shifted(value, scale - 1)) else 0
      {
        n := n - 1;
        if n == 0 {
          rem := TruncRem10(v);
        }
        ShiftStep(value, scale - n - 1);
        v := TruncDiv10(v);
      }
      RoundOnLastRemainder(value, scale);
      if rem > 4 {
        v := v + 1;
      } else if rem < -4 {
        v := v - 1;
      }
      assert v == RoundHalfAway(value, scale);
      r := Ok(v);
    } else if scale < 0 {
      var n := scale;
      while n < 0
        invariant scale <= n <= 0
        invariant v == value * Pow10(n - scale)
        invariant Fits(v)
      {
        ScaleByTen(value, n - scale);
        if v > I128Limit || v < -I128Limit {
          ScaleUpMonotone(value, n - scale + 1, -scale);
          return Err(NumericOutOfRange);
        }
        v := v * 10;
        n := n + 1;
      }
      r := Ok(v);
    } else {
      r := Ok(v);
    }
  }

  /** `set(SINT64, scale)`: the 64-bit value, then rescaled. */
  method Set(value: Int64, scale: int) returns (r: Result<Int128, Error>)
    ensures r == Rescaled(value, scale)
  {
    r := SetScale(value, scale);
  }

  /** `operator=(SINT64)`: `set(value, 0)`, an exact copy. */
  method Assign(value: Int64) returns (r: Int128)
    ensures r == value
  {
    var s := Set(value, 0);
    r := s.value;
  }

  /** `toInteger`: the rescaled value when it fits in 32 bits. */
  method ToInteger(v: Int128, scale: int) returns (r: Result<Int32, Error>)
    ensures Rescaled(v, scale).Err? ==> r == Err(Rescaled(v, scale).error)
    ensures Rescaled(v, scale).Ok? ==>
      var x := Rescaled(v, scale).value;
      r == if Int32Min <= x <= Int32Max then Ok(x) else Err(IntegerOverflow)
  {
    var t := SetScale(v, scale);
    if t.Err? {
      return Err(t.error);
    }
    var x := t.value;
    if x < Int32Min || x > Int32Max {
      return Err(IntegerOverflow);
    }
    r := Ok(x);
  }
}
