/**
 * The 32-bit word view of an Int128 (src/common/Int128.cpp, `getTable32`,
 * `setTable32`, `toInt64`, `operator&=`) and the two extreme constants. The words
 * are the value's 128-bit two's-complement pattern, least significant first, as a
 * ttmath integer with 32-bit limbs holds them in its `table`.
 */
module Int128Words {
  import opened Common
  import opened Arith
  import opened Int128

  const WordBase: int := 0x1_0000_0000

  type Word32 = x: int | 0 <= x < 0x1_0000_0000

  /** The 128-bit pattern of `v`, read as an unsigned number. */
  function Pattern(v: Int128): (u: nat)
    ensures u < Modulus
    ensures (u - v) % Modulus == 0
  {
    if v < 0 then v + Modulus else v
  }

  /** `v.table` with 32-bit limbs. */
  function Words(v: Int128): (w: seq<Word32>)
    ensures |w| == 4
  {
    var u := Pattern(v);
    var u1 := u / WordBase;
    var u2 := u1 / WordBase;
    [u % WordBase, u1 % WordBase, u2 % WordBase, (u2 / WordBase) % WordBase]
  }

  /** The signed value whose limbs are `w`. */
  function FromWords(w: seq<Word32>): Int128
    requires |w| == 4
  {
    var u := w[0] + WordBase * (w[1] + WordBase * (w[2] + WordBase * w[3]));
    if u > MaxValue then u - Modulus else u
  }

  /** Splitting a value into words and joining them again gives the value back. */
  lemma FromWordsOfWords(v: Int128)
    ensures FromWords(Words(v)) == v
  {
    var u := Pattern(v);
    var u1 := u / WordBase;
    var u2 := u1 / WordBase;
    var u3 := u2 / WordBase;
    assert u == u % WordBase + WordBase * u1;
    assert u1 == u1 % WordBase + WordBase * u2;
    assert u2 == u2 % WordBase + WordBase * u3;
    assert u3 < WordBase;
    assert Words(v) == [u % WordBase, u1 % WordBase, u2 % WordBase, u3];
  }

  /** Joining four words and splitting the value again gives the words back. */
  lemma WordsOfFromWords(w: seq<Word32>)
    requires |w| == 4
    ensures Words(FromWords(w)) == w
  {
    var r2 := w[2] + WordBase * w[3];
    var r1 := w[1] + WordBase * r2;
    var u := w[0] + WordBase * r1;
    assert Pattern(FromWords(w)) == u;
    DivModUnique(u, WordBase, r1, w[0]);
    DivModUnique(r1, WordBase, r2, w[1]);
    DivModUnique(r2, WordBase, w[3], w[2]);
    DivModUnique(w[3], WordBase, 0, w[3]);
  }

  /** `getTable32`: copies the four limbs into the caller's array. */
  method GetTable32(v: Int128, dwords: array<int>)
    requires dwords.Length >= 4
    modifies dwords
    ensures dwords[..4] == Words(v)
    ensures dwords[4..] == old(dwords[4..])
  {
    var table := Words(v);
    for i := 0 to 4
      invariant dwords[..i] == table[..i]
      invariant dwords[4..] == old(dwords[4..])
    {
      dwords[i] := table[i];
    }
  }

  predicate IsWord(x: int) {
    0 <= x < WordBase
  }

  /** `setTable32`: the value whose limbs are the first four entries of `dwords`. */
  method SetTable32(dwords: array<int>) returns (v: Int128)
    requires dwords.Length >= 4
    requires forall i | 0 <= i < 4 :: IsWord(dwords[i])
    ensures Words(v) == dwords[..4]
  {
    var table: seq<Word32> := [];
    for i := 0 to 4
      invariant table == dwords[..i]
    {
      table := table + [dwords[i]];
    }
    v := FromWords(table);
    WordsOfFromWords(table);
  }

  /** `int(dwords[1])`: a limb read as a signed 32-bit integer. */
  function Signed32(w: Word32): Int32 {
    if w > Int32Max then w - WordBase else w
  }

  /** A value in the 64-bit range is its second limb, read as signed, shifted by 32 bits plus its first limb. */
  lemma Int64Reassembly(x: Int128)
    requires Int64Min <= x <= Int64Max
    ensures Signed32(Words(x)[1]) * WordBase + Words(x)[0] == x
  {
    var u := Pattern(x);
    var h, l := x / WordBase, x % WordBase;
    if x >= 0 {
      assert Words(x)[0] == l;
      assert Words(x)[1] == h % WordBase;
      assert h < 0x8000_0000;
    } else {
      var t := h + 0x1_0000_0000_0000_0000_0000_0000;
      DivModUnique(u, WordBase, t, l);
      DivModUnique(t, WordBase, 0xFFFF_FFFF_FFFF_FFFF, h + WordBase);
      assert Words(x)[0] == l;
      assert Words(x)[1] == h + WordBase;
    }
  }

  /** `toInt64`: rescales, refuses a value outside the 64-bit range, and reassembles it from its two low limbs. */
  method ToInt64(v: Int128, scale: int) returns (r: Result<Int64, Error>)
    ensures Rescaled(v, scale).Err? ==> r == Err(Rescaled(v, scale).error)
    ensures Rescaled(v, scale).Ok? ==>
      var x := Rescaled(v, scale).value;
      r == if Int64Min <= x <= Int64Max then Ok(x) else Err(IntegerOverflow)
  {
    var t := SetScale(v, scale);
    if t.Err? {
      return Err(t.error);
    }
    var x := t.value;
    if x < Int64Min || x > Int64Max {
      return Err(IntegerOverflow);
    }
    var dwords := new int[4];
    GetTable32(x, dwords);
    var rc := Signed32(dwords[1]);
    rc := rc * WordBase;
    rc := rc + dwords[0];
    Int64Reassembly(x);
    r := Ok(rc);
  }

  // ---------------------------------------------------------------------------
  // Masks

  /** The bitwise AND of the `n` low bits of `a` and `b`. */
  function AndBits(a: int, b: int, n: nat): nat
    decreases n
  {
    if n == 0 then 0
    else 2 * AndBits(a / 2, b / 2, n - 1) + (if a % 2 == 1 && b % 2 == 1 then 1 else 0)
  }

  lemma {:induction false} AndBitsBelow(a: nat, b: nat, n: nat)
    ensures AndBits(a, b, n) <= a && AndBits(a, b, n) <= b
    ensures AndBits(a, b, n) < Pow2(n)
  {
    if n > 0 {
      AndBitsBelow(a / 2, b / 2, n - 1);
    }
  }

  lemma {:induction false} AndBitsIdempotent(a: nat, b: nat, n: nat)
    ensures AndBits(AndBits(a, b, n), b, n) == AndBits(a, b, n)
  {
    if n > 0 {
      var r := AndBits(a, b, n);
      var h := AndBits(a / 2, b / 2, n - 1);
      assert r / 2 == h;
      AndBitsIdempotent(a / 2, b / 2, n - 1);
    }
  }

  /** Halving a number's `n` low bits gives the `n - 1` low bits of its half, and keeps its lowest bit. */
  lemma HalfOfLowBits(a: nat, n: nat)
    requires n >= 1
    ensures (a % Pow2(n)) / 2 == (a / 2) % Pow2(n - 1)
    ensures (a % Pow2(n)) % 2 == a % 2
  {
    var p := Pow2(n - 1);
    DivModNested(a, 2, p);
    assert Pow2(n) == 2 * p;
    DivModUnique(a % Pow2(n), 2, (a / 2) % p, a % 2);
  }

  /** Only the `n` low bits of each operand matter. */
  lemma {:induction false} AndBitsLow(a: nat, b: nat, n: nat)
    ensures AndBits(a, b, n) == AndBits(a % Pow2(n), b % Pow2(n), n)
    decreases n
  {
    if n > 0 {
      AndBitsLow(a / 2, b / 2, n - 1);
      HalfOfLowBits(a, n);
      HalfOfLowBits(b, n);
    }
  }

  lemma DoubleScale(k: nat, x: nat)
    requires k >= 1
    ensures 2 * (Pow2(k - 1) * x) == Pow2(k) * x
  {
  }

  /** The AND of `k + n` bits is the AND of the low `k` bits plus the AND of the next `n`. */
  lemma {:induction false} AndBitsSplit(a: int, b: int, k: nat, n: nat)
    ensures AndBits(a, b, k + n) == AndBits(a, b, k) + Pow2(k) * AndBits(a / Pow2(k), b / Pow2(k), n)
    decreases k
  {
    if k > 0 {
      var p := Pow2(k - 1);
      AndBitsSplit(a / 2, b / 2, k - 1, n);
      DivDiv(a, 2, p);
      DivDiv(b, 2, p);
      var x := AndBits(a / Pow2(k), b / Pow2(k), n);
      assert x == AndBits(a / 2 / p, b / 2 / p, n);
      var bit := if a % 2 == 1 && b % 2 == 1 then 1 else 0;
      assert AndBits(a, b, k + n) == 2 * AndBits(a / 2, b / 2, (k - 1) + n) + bit;
      assert AndBits(a, b, k) == 2 * AndBits(a / 2, b / 2, k - 1) + bit;
      DoubleScale(k, x);
    }
  }

  lemma Pow2Of32()
    ensures Pow2(32) == WordBase
  {
    assert Pow2(8) == 256;
    Pow2Add(8, 8);
    Pow2Add(16, 16);
  }

  lemma AndBitsLow32(a: nat, b: nat)
    ensures AndBits(a, b, 32) == AndBits(a % WordBase, b % WordBase, 32)
  {
    Pow2Of32();
    AndBitsLow(a, b, 32);
  }

  lemma AndBitsBelow32(a: nat, b: nat)
    ensures AndBits(a, b, 32) <= a && AndBits(a, b, 32) <= b && AndBits(a, b, 32) < WordBase
  {
    Pow2Of32();
    AndBitsBelow(a, b, 32);
  }

  lemma AndBitsSplit64(a: int, b: int)
    ensures AndBits(a, b, 64) == AndBits(a, b, 32) + WordBase * AndBits(a / WordBase, b / WordBase, 32)
  {
    Pow2Of32();
    AndBitsSplit(a, b, 32, 32);
  }

  /** The two 32-bit halves of a 64-bit mask. */
  lemma MaskHalves(mask: nat)
    requires mask < 0x1_0000_0000_0000_0000
    ensures mask == mask % WordBase + WordBase * (mask / WordBase)
    ensures 0 <= mask / WordBase < WordBase
    ensures (mask / WordBase) % WordBase == mask / WordBase
  {
    var h := mask / WordBase;
    assert mask == WordBase * h + mask % WordBase;
    DivModUnique(h, WordBase, 0, h);
  }

  lemma FromLowWords(lo: Word32, hi: Word32)
    ensures FromWords([lo, hi, 0, 0]) == lo + WordBase * hi
  {
  }

  /** The value whose two low limbs are the ANDs of `w0` and `w1` with `m0` and `m1`. */
  function MaskedLimbs(w0: Word32, w1: Word32, m0: Word32, m1: Word32): Int128 {
    AndBitsBelow32(w0, m0);
    AndBitsBelow32(w1, m1);
    var lo: Word32 := AndBits(w0, m0, 32);
    var hi: Word32 := AndBits(w1, m1, 32);
    FromWords([lo, hi, 0, 0])
  }

  lemma MaskedLimbsValue(w0: Word32, w1: Word32, m0: Word32, m1: Word32)
    ensures MaskedLimbs(w0, w1, m0, m1) == AndBits(w0, m0, 32) + WordBase * AndBits(w1, m1, 32)
    ensures 0 <= MaskedLimbs(w0, w1, m0, m1) <= m0 + WordBase * m1
  {
    var lo, hi := AndBits(w0, m0, 32), AndBits(w1, m1, 32);
    LimbBounds(w0, w1, m0, m1);
    FromLowWords(lo, hi);
  }

  lemma LimbBounds(w0: Word32, w1: Word32, m0: Word32, m1: Word32)
    ensures AndBits(w0, m0, 32) <= m0 && AndBits(w1, m1, 32) <= m1
    ensures 0 <= AndBits(w0, m0, 32) + WordBase * AndBits(w1, m1, 32) <= m0 + WordBase * m1
  {
    AndBitsBelow32(w0, m0);
    AndBitsBelow32(w1, m1);
    MulMonotone(WordBase, AndBits(w1, m1, 32), m1);
  }

  /** `operator&=(unsigned)`: the first limb ANDed with the mask, every other limb cleared. */
  function AndMask32(v: Int128, mask: Word32): Int128 {
    var w0 := Words(v)[0];
    AndBitsBelow32(w0, mask);
    var lo: Word32 := AndBits(w0, mask, 32);
    FromWords([lo, 0, 0, 0])
  }

  lemma WordIsOwnRemainder(x: Word32)
    ensures x % WordBase == x
  {
    DivModUnique(x, WordBase, 0, x);
  }

  /** The masked value is the AND of the value's low 32 bits with the mask, so it never exceeds the mask. */
  lemma AndMask32Value(v: Int128, mask: Word32)
    ensures 0 <= AndMask32(v, mask) <= mask
    ensures AndMask32(v, mask) == AndBits(Pattern(v), mask, 32)
  {
    var u, w0 := Pattern(v), Words(v)[0];
    AndBitsBelow32(w0, mask);
    var lo: Word32 := AndBits(w0, mask, 32);
    FromLowWords(lo, 0);
    assert AndMask32(v, mask) == lo;
    assert w0 == u % WordBase;
    AndBitsLow32(u, mask);
    WordIsOwnRemainder(mask);
  }

  /**
   * `operator&=(FB_UINT64)` with 32-bit limbs: the two low limbs ANDed with the two
   * halves of the mask, the two high limbs cleared.
   */
  function AndMask64(v: Int128, mask: nat): Int128
    requires mask < 0x1_0000_0000_0000_0000
  {
    MaskHalves(mask);
    MaskedLimbs(Words(v)[0], Words(v)[1], mask % WordBase, mask / WordBase)
  }

  /** The masked value is the AND of the value's low 64 bits with the mask, so it never exceeds the mask. */
  lemma AndMask64Value(v: Int128, mask: nat)
    requires mask < 0x1_0000_0000_0000_0000
    ensures 0 <= AndMask64(v, mask) <= mask
    ensures AndMask64(v, mask) == AndBits(Pattern(v), mask, 64)
  {
    MaskHalves(mask);
    MaskedLimbsValue(Words(v)[0], Words(v)[1], mask % WordBase, mask / WordBase);
    LowLimbAnd(v, mask);
    HighLimbAnd(v, mask);
    AndBitsSplit64(Pattern(v), mask);
  }

  lemma LowLimbAnd(v: Int128, mask: nat)
    ensures AndBits(Words(v)[0], mask % WordBase, 32) == AndBits(Pattern(v), mask, 32)
  {
    var u, w0 := Pattern(v), Words(v)[0];
    AndBitsLow32(w0, mask % WordBase);
    AndBitsLow32(u, mask);
  }

  lemma HighLimbAnd(v: Int128, mask: nat)
    requires mask < 0x1_0000_0000_0000_0000
    ensures AndBits(Words(v)[1], mask / WordBase, 32) == AndBits(Pattern(v) / WordBase, mask / WordBase, 32)
  {
    var u, w1 := Pattern(v), Words(v)[1];
    AndBitsLow32(u / WordBase, mask / WordBase);
    assert w1 == (u / WordBase) % WordBase;
    MaskHalves(mask);
  }

  /** Applying the same 64-bit mask twice changes nothing more. */
  lemma AndMask64Idempotent(v: Int128, mask: nat)
    requires mask < 0x1_0000_0000_0000_0000
    ensures AndMask64(AndMask64(v, mask), mask) == AndMask64(v, mask)
  {
    var r := AndMask64(v, mask);
    AndMask64Value(v, mask);
    AndMask64Value(r, mask);
    assert Pattern(r) == r;
    AndBitsIdempotent(Pattern(v), mask, 64);
  }

  // ---------------------------------------------------------------------------
  // Constants

  datatype MinMax = MkMax | MkMin

  /**
   * `CInt128(minmax)`: ttmath's `SetMax` sets every bit but the sign bit, `SetMin`
   * only the sign bit.
   */
  function Extreme(mm: MinMax): (r: Int128)
    ensures mm == MkMax ==> r >= 0 && !Fits(r + 1)
    ensures mm == MkMin ==> r < 0 && !Fits(r - 1)
  {
    match mm
    case MkMax => FromWords([0xFFFF_FFFF, 0xFFFF_FFFF, 0xFFFF_FFFF, 0x7FFF_FFFF])
    case MkMin => FromWords([0, 0, 0, 0x8000_0000])
  }

  /** `MAX_Int128` and `MIN_Int128`. */
  const MaxInt128: Int128 := Extreme(MkMax)
  const MinInt128: Int128 := Extreme(MkMin)
}
