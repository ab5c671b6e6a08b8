/** Binary floating-point formats, and numbers encoded in them only when they are kept exactly
    (cpp/conformance/pjson_conformance_driver.cpp, lines 647-716 and 790-844). */
module FloatFormats {
  import opened ExactNarrow
  import opened Powers
  import opened SoftFloat
  import opened Wrappers

  /** The bits of the significand, and the exponents of the least normal and the largest number. */
  datatype Format = Format(precision: nat, minNormal: int, maxExponent: int)

  const BINARY16 := Format(11, -14, 15)
  const BINARY32 := Format(24, -126, 127)
  const BINARY64 := Format(53, -1022, 1023)

  predicate ValidFormat(f: Format) {
    f.precision >= 2 && f.minNormal <= f.maxExponent
  }

  /** The exponent of the least subnormal number. */
  function MinExponent(f: Format): int {
    f.minNormal - f.precision + 1
  }

  /** 2 to the power of the stored significand bits. */
  function Top(f: Format): (t: nat)
    requires f.precision >= 1
    ensures t >= 1
  {
    Pow2(f.precision - 1)
  }

  /** The encodings below this one are the finite numbers; it is infinity. */
  function Infinity(f: Format): nat
    requires ValidFormat(f)
  {
    InfinityIsNat(f.maxExponent - f.minNormal + 2, Top(f));
    (f.maxExponent - f.minNormal + 2) * Top(f)
  }

  lemma InfinityIsNat(a: nat, b: nat)
    ensures a * b >= 0
  {
  }

  function Fraction(f: Format, n: nat): nat
    requires f.precision >= 1
  {
    if n < Top(f) then n else Top(f) + n % Top(f)
  }

  function Scale(f: Format, n: nat): nat
    requires f.precision >= 1
  {
    if n < Top(f) then 0 else StoredExponent(n, Top(f)) - 1
  }

  function StoredExponent(n: nat, top: nat): (e: nat)
    requires 1 <= top <= n
    ensures e >= 1
  {
    DivAtLeastOne(n, top);
    n / top
  }

  lemma DivAtLeastOne(n: nat, d: nat)
    requires 1 <= d <= n
    ensures n / d >= 1
  {
  }

  /** The magnitude of an encoding, in units of 2^-k for a k that reaches the least subnormal. */
  function ValueIn(f: Format, n: nat, k: nat): nat
    requires f.precision >= 1 && MinExponent(f) + k >= 0
  {
    Product(Fraction(f, n), Pow2(Scale(f, n) + (MinExponent(f) + k)))
  }

  function Product(a: nat, b: nat): nat {
    InfinityIsNat(a, b);
    a * b
  }

  /** The odd number p times 2^e, if the format has it. */
  function OddTo(f: Format, p: nat, e: int): Option<nat>
    requires ValidFormat(f)
  {
    var bits := BitLength(p);
    var unbiased := e + bits - 1;
    var maxBits := if unbiased >= f.minNormal then f.precision else unbiased - MinExponent(f) + 1;
    if unbiased < MinExponent(f) || unbiased > f.maxExponent || bits > maxBits then None
    else if unbiased >= f.minNormal then
      Some(Packed(unbiased - f.minNormal + 1, Product(p, Pow2(f.precision - bits)), Top(f)))
    else Some(Product(p, Pow2(e - MinExponent(f))))
  }

  /** An exponent over the significand without its leading bit. */
  function Packed(exponent: nat, significand: nat, top: nat): nat
    requires top >= 1
  {
    InfinityIsNat(exponent, top);
    exponent * top + significand % top
  }

  // ---------------------------------------------------------------- the numbers of a format

  predicate InFormatBin(top: nat, e: nat, s: nat) {
    (e == 0 || s >= top) && s <= 2 * top
  }

  /** Within a bin, its upper end included, the fraction is s and the scale e, up to a carry. */
  lemma BinParts(f: Format, e: nat, s: nat)
    requires f.precision >= 1 && InFormatBin(Top(f), e, s)
    ensures e * Top(f) + s >= 0
    ensures s < 2 * Top(f) ==> Fraction(f, e * Top(f) + s) == s && Scale(f, e * Top(f) + s) == e
    ensures s == 2 * Top(f) ==> Fraction(f, e * Top(f) + s) == Top(f) && Scale(f, e * Top(f) + s) == e + 1
  {
    hide Pow2;
    var t := Top(f);
    InfinityIsNat(e, t);
    var n := e * t + s;
    if s >= t { Distribute(e, t); }
    if e > 0 { MulMono(1, e, t); }
    if t <= s < 2 * t {
      DivUnique(n, t, e + 1, s - t);
    } else if s == 2 * t {
      Distribute(e + 1, t);
      DivUnique(n, t, e + 2, 0);
    }
  }

  lemma BinValueIn(f: Format, e: nat, s: nat, k: nat)
    requires f.precision >= 1 && MinExponent(f) + k >= 0 && InFormatBin(Top(f), e, s)
    ensures e * Top(f) + s >= 0 && ValueIn(f, e * Top(f) + s, k) == s * Pow2(e + (MinExponent(f) + k))
  {
    hide Pow2, Top, Fraction, Scale;
    BinParts(f, e, s);
    if s == 2 * Top(f) {
      NextPower(e + (MinExponent(f) + k));
      Double(Top(f), Pow2(e + (MinExponent(f) + k)));
    }
  }

  lemma Double(a: nat, b: nat)
    ensures a * (2 * b) == 2 * a * b
  {
  }

  lemma FormatBinOf(f: Format, n: nat) returns (e: nat, s: nat)
    requires f.precision >= 1
    ensures InFormatBin(Top(f), e, s) && s < 2 * Top(f) && n == e * Top(f) + s
  {
    hide Pow2, Top;
    var t := Top(f);
    if n < t {
      e, s := 0, n;
      InfinityIsNat(0, t);
    } else {
      DivAtLeastOne(n, t);
      QuotientRestOf(n, t);
      e := n / t - 1;
      s := t + n % t;
      Distribute(e, t);
    }
  }

  lemma QuotientRestOf(n: nat, t: nat)
    requires t >= 1
    ensures n == n / t * t + n % t && n % t < t
  {
  }

  lemma IncreasesIn(f: Format, n: nat, k: nat)
    requires f.precision >= 1 && MinExponent(f) + k >= 0
    ensures ValueIn(f, n, k) < ValueIn(f, n + 1, k)
  {
    hide Pow2, Top, ValueIn;
    var e, s := FormatBinOf(f, n);
    BinValueIn(f, e, s, k);
    BinValueIn(f, e, s + 1, k);
    Distribute(s, Pow2(e + (MinExponent(f) + k)));
  }

  lemma {:induction false} MonotoneIn(f: Format, m: nat, n: nat, k: nat)
    requires f.precision >= 1 && MinExponent(f) + k >= 0 && m < n
    ensures ValueIn(f, m, k) < ValueIn(f, n, k)
    decreases n
  {
    hide ValueIn;
    IncreasesIn(f, n - 1, k);
    if m < n - 1 { MonotoneIn(f, m, n - 1, k); }
  }

  /** Different encodings are different numbers. */
  lemma SameValue(f: Format, m: nat, n: nat, k: nat)
    requires f.precision >= 1 && MinExponent(f) + k >= 0 && ValueIn(f, m, k) == ValueIn(f, n, k)
    ensures m == n
  {
    hide ValueIn;
    if m < n { MonotoneIn(f, m, n, k); } else if n < m { MonotoneIn(f, n, m, k); }
  }

  // ---------------------------------------------------------------- exact answers

  lemma ShiftedBounds(f: Format, p: nat, bits: nat, pad: nat)
    requires f.precision >= 2 && p > 0 && bits == BitLength(p) && bits + pad <= f.precision
    ensures p * Pow2(pad) < 2 * Top(f)
    ensures bits + pad == f.precision ==> p * Pow2(pad) >= Top(f)
    ensures bits + pad < f.precision ==> p * Pow2(pad) < Top(f)
  {
    hide Pow2, BitLength;
    BitLengthBounds(p);
    Pow2Add(bits, pad);
    Pow2Add(bits - 1, pad);
    MulMono(p + 1, Pow2(bits), Pow2(pad));
    Distribute(p, Pow2(pad));
    MulMono(Pow2(bits - 1), p, Pow2(pad));
    NextPower(f.precision - 1);
    Pow2Mono(bits + pad, f.precision);
    if bits + pad < f.precision { Pow2Mono(bits + pad, f.precision - 1); }
  }

  /** The packed form of a normal number is its place in a bin. */
  lemma PackedIs(x: nat, s: nat, top: nat)
    requires 1 <= top <= s < 2 * top && x >= 1
    ensures Packed(x, s, top) == (x - 1) * top + s
  {
    DivUnique(s, top, 1, s - top);
    Distribute(x - 1, top);
  }

  lemma BelowInfinity(f: Format, e: nat, s: nat)
    requires ValidFormat(f) && e <= f.maxExponent - f.minNormal && s < 2 * Top(f)
    ensures e * Top(f) + s < Infinity(f)
  {
    hide Pow2, Top;
    MulMono(e + 2, f.maxExponent - f.minNormal + 2, Top(f));
    Distribute(e, Top(f));
    Distribute(e + 1, Top(f));
  }

  /** An answer is a finite encoding with exactly the value. */
  lemma OddToIsSound(f: Format, p: nat, e: int, k: nat)
    requires ValidFormat(f) && MinExponent(f) + k >= 0 && p > 0 && OddTo(f, p, e).Some?
    ensures OddTo(f, p, e).value < Infinity(f) && e + k >= 0 && ValueIn(f, OddTo(f, p, e).value, k) == p * Pow2(e + k)
  {
    hide Pow2, BitLength, Top, ValueIn, Infinity;
    var bits := BitLength(p);
    BitLengthBounds(p);
    var unbiased := e + bits - 1;
    if unbiased >= f.minNormal {
      var pad := f.precision - bits;
      ShiftedBounds(f, p, bits, pad);
      var s, x := p * Pow2(pad), unbiased - f.minNormal;
      PackedIs(x + 1, s, Top(f));
      BinValueIn(f, x, s, k);
      BelowInfinity(f, x, s);
      assert pad + (x + (MinExponent(f) + k)) == e + k;
      Pow2Add(pad, x + (MinExponent(f) + k));
      Regroup(p, Pow2(pad), Pow2(x + (MinExponent(f) + k)));
    } else {
      var pad := e - MinExponent(f);
      ShiftedBounds(f, p, bits, pad);
      var s := p * Pow2(pad);
      BinValueIn(f, 0, s, k);
      BelowInfinity(f, 0, s);
      assert pad + (0 + (MinExponent(f) + k)) == e + k;
      Pow2Add(pad, MinExponent(f) + k);
      Regroup(p, Pow2(pad), Pow2(MinExponent(f) + k));
    }
  }

  lemma FractionSmall(f: Format, n: nat)
    requires f.precision >= 1
    ensures Fraction(f, n) < 2 * Top(f)
  {
    hide Pow2, Top;
  }

  lemma ScaleSmall(f: Format, n: nat)
    requires ValidFormat(f) && n < Infinity(f)
    ensures Scale(f, n) <= f.maxExponent - f.minNormal
  {
    hide Pow2, Top;
    var t := Top(f);
    if n >= t {
      QuotientRestOf(n, t);
      if n / t >= f.maxExponent - f.minNormal + 2 { MulMono(f.maxExponent - f.minNormal + 2, n / t, t); }
    }
  }

  /** A number of the format is found. */
  lemma OddToIsComplete(f: Format, p: nat, e: int, k: nat, n: nat)
    requires ValidFormat(f) && MinExponent(f) + k >= 0 && p % 2 == 1 && e + k >= 0
    requires n < Infinity(f) && ValueIn(f, n, k) == p * Pow2(e + k)
    ensures OddTo(f, p, e) == Some(n)
  {
    hide Pow2, BitLength, Top, Fraction, Scale, Packed, Product, Infinity;
    var m, b := Fraction(f, n), Scale(f, n) + (MinExponent(f) + k);
    ValueInIs(f, n, k);
    OddTakesAll(p, e + k, m, b);
    var bits := BitLength(p);
    BitLengthBounds(p);
    var pad := e + k - b;
    Pow2Add(bits - 1, pad);
    MulMono(Pow2(bits - 1), p, Pow2(pad));
    FractionSmall(f, n);
    ScaleSmall(f, n);
    NextPower(f.precision - 1);
    TopIs(f);
    Pow2Strict(bits - 1 + pad, f.precision);
    assert OddTo(f, p, e).Some?;
    OddToIsSound(f, p, e, k);
    SameValue(f, OddTo(f, p, e).value, n, k);
  }

  lemma ValueInIs(f: Format, n: nat, k: nat)
    requires f.precision >= 1 && MinExponent(f) + k >= 0
    ensures ValueIn(f, n, k) == Fraction(f, n) * Pow2(Scale(f, n) + (MinExponent(f) + k))
  {
    hide Pow2, Top, Fraction, Scale;
  }

  lemma TopIs(f: Format)
    requires f.precision >= 1
    ensures Top(f) == Pow2(f.precision - 1)
  {
  }
}
