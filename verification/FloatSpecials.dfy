/** The encodings of floating-point numbers by their numerals, and what becomes of infinities, NaNs
    and signs (cpp/conformance/pjson_conformance_driver.cpp, lines 593-845 and 1680-1709). */
module FloatSpecials {
  import opened ExactNarrow
  import opened FloatFormats
  import opened FloatWiden
  import opened FloatWidths
  import opened Powers
  import opened SoftFloat

  // ---------------------------------------------------------------- the three formats

  /** In units of 2^-k, `one` is the number 1, `step` the exponent of the least positive number and
      `infinity` the encoding above all finite ones. */
  predicate FormatIs(f: Format, one: nat, step: nat, infinity: nat, k: nat)
    requires ValidFormat(f) && MinExponent(f) + k >= 0 && step <= k
  {
    ValueIn(f, one, k) == Pow2(k) && ValueIn(f, 1, k) == Pow2(k - step) && Infinity(f) == infinity
  }

  lemma FormatBy(f: Format, one: nat, step: nat, infinity: nat, k: nat, top: nat)
    requires ValidFormat(f) && MinExponent(f) + step == 0 && step <= k && f.precision - 1 <= step
    requires Top(f) == top > 1 && one == (step - (f.precision - 1) + 1) * top
    requires infinity == (f.maxExponent - f.minNormal + 2) * top
    ensures FormatIs(f, one, step, infinity, k)
  {
    hide ValueIn, Pow2;
    BinValueIn(f, 0, 1, k);
    var e: nat := step - (f.precision - 1);
    OneMore(e, top);
    BinValueIn(f, e, top, k);
    Pow2Add(f.precision - 1, e + (MinExponent(f) + k));
    assert f.precision - 1 + (e + (MinExponent(f) + k)) == k;
    assert 1 * Pow2(0 + (MinExponent(f) + k)) == Pow2(k - step);
  }

  lemma OneMore(e: nat, top: nat)
    ensures (e + 1) * top == e * top + top
  {
  }

  lemma TopOf32()
    ensures Top(BINARY32) == 0x80_0000
  {
    hide Pow2;
    TwoToTen();
    Pow2Add(10, 10);
    Pow2Add(20, 3);
    assert Pow2(3) == 8 by { EightIs(); }
  }

  lemma EightIs()
    ensures Pow2(3) == 8
  {
  }

  /** The formats by the encodings of 1, of the least positive number's exponent and of infinity. */
  lemma FormatsAre(k: nat)
    requires k >= 1074
    ensures FormatIs(BINARY16, 0x3C00, 24, 0x7C00, k)
    ensures FormatIs(BINARY32, 0x3F80_0000, 149, 0x7F80_0000, k)
    ensures FormatIs(BINARY64, 0x3FF0_0000_0000_0000, 1074, 0x7FF0_0000_0000_0000, k)
  {
    hide FormatIs, Top;
    TopOf16();
    TopOf32();
    TopOf64();
    FormatBy(BINARY16, 0x3C00, 24, 0x7C00, k, 0x400);
    FormatBy(BINARY32, 0x3F80_0000, 149, 0x7F80_0000, k, 0x80_0000);
    FormatBy(BINARY64, 0x3FF0_0000_0000_0000, 1074, 0x7FF0_0000_0000_0000, k, TWO_52);
  }

  /** The sign is the highest bit of 2, 4, 8 or 16 bytes. */
  lemma SignIsHighest(w: nat, m: nat)
    requires 1 <= w <= 4
    ensures WithSign(w, false, m) == Sized(w, m)
    ensures WithSign(w, true, m) == Sized(w, m + Pow2(8 * Pow2(w) - 1))
  {
    hide Pow2;
    EightIs();
    SmallWidths();
    TwoToTen();
    Pow2Add(10, 2);
    Pow2Add(12, 3);
    Pow2Add(15, 1);
    Pow2Add(16, 15);
    Pow2Add(31, 1);
    Pow2Add(32, 31);
    Pow2Add(63, 1);
    Pow2Add(64, 63);
  }

  lemma SmallWidths()
    ensures Pow2(1) == 2 && Pow2(2) == 4 && Pow2(3) == 8 && Pow2(4) == 16
  {
  }

  // ---------------------------------------------------------------- infinities and NaNs

  /** Narrowing makes the binary16 infinity of the same sign from an infinity and the quiet binary16
      NaN without a sign from every NaN, and keeps the sign of a zero. */
  lemma NarrowF64Specials(x: Binary64)
    ensures x.bits == 0x7FF0_0000_0000_0000 ==> NarrowF64(x) == Sized(1, if x.sign then 0xFC00 else 0x7C00)
    ensures x.bits > 0x7FF0_0000_0000_0000 ==> NarrowF64(x) == Sized(1, 0x7E00)
    ensures x.bits == 0 ==> NarrowF64(x) == Sized(1, if x.sign then 0x8000 else 0)
  {
    hide Trial;
  }

  lemma NarrowF128Specials(x: Binary128)
    requires x.Valid()
    ensures x.exp == 0x7FFF && x.frac == 0 ==> NarrowF128(x) == Sized(1, if x.sign then 0xFC00 else 0x7C00)
    ensures x.exp == 0x7FFF && x.frac > 0 ==> NarrowF128(x) == Sized(1, 0x7E00)
    ensures x.exp == 0 && x.frac == 0 ==> NarrowF128(x) == Sized(1, if x.sign then 0x8000 else 0)
  {
    hide Trial, F128ToF64Exact;
  }

  /** Widening keeps infinity and the payload of a NaN; the other widening makes a NaN quiet and
      drops its payload. */
  lemma WidenSpecials(n: nat)
    requires 0x7C00 <= n < 0x8000
    ensures Widen16(n) == 0x7FF0_0000_0000_0000 + (n - 0x7C00) * Pow2(42)
    ensures Widen16Local(n) == if n == 0x7C00 then 0x7FF0_0000_0000_0000 else 0x7FF8_0000_0000_0000
  {
    hide Pow2;
    TwoTo42();
  }

  /** What the other widening makes of a subnormal: its fraction bits behind a leading one, under the
      exponent below the least normal one. */
  lemma LocalSubnormal(n: nat, k: nat)
    requires 0 < n < 0x400 && k >= 1074
    ensures ValueIn(BINARY64, Widen16Local(n), k) == (0x400 + n) * Pow2(k - 25)
  {
    hide Pow2, ValueIn, ElevenBits;
    ElevenBitsAre(0x400 + n, -15, k);
  }
}
