/** The narrowest format that keeps a floating-point number
    (cpp/conformance/pjson_conformance_driver.cpp, lines 593-845 and 1680-1709). */
module FloatWidths {
  import opened ExactNarrow
  import opened FloatFormats
  import PjsonNumbers
  import opened Powers
  import opened SoftFloat
  import opened Wrappers

  /** The encoding of a number with its width: 2, 4, 8 or 16 bytes for widths 1 to 4. */
  datatype Sized = Sized(width: nat, bits: nat)

  function FormatOf(w: nat): (f: Format)
    ensures ValidFormat(f)
  {
    if w == 1 then BINARY16 else if w == 2 then BINARY32 else BINARY64
  }

  function SignBit(w: nat): nat {
    if w == 1 then 0x8000 else if w == 2 then 0x8000_0000 else if w == 3 then TWO_63 else PjsonNumbers.TWO_127
  }

  function WithSign(w: nat, sign: bool, magnitude: nat): Sized {
    Sized(w, (if sign then SignBit(w) else 0) + magnitude)
  }

  // ---------------------------------------------------------------- the code

  /** The binary64 as an odd number times a power of two, put into another format if that has it. */
  function NarrowTo(f: Format, n: nat): Option<nat>
    requires ValidFormat(f)
  {
    if Significand(n) == 0 then Some(0)
    else
      var tz := TrailingZeros(Significand(n));
      OddTo(f, Shr(Significand(n), tz), Shift(n) - 1074 + tz)
  }

  /** Converting to binary32 and back gives the same number exactly if binary32 has it. */
  function Trial(x: Binary64): Sized {
    match NarrowTo(BINARY16, x.bits)
    case Some(h) => WithSign(1, x.sign, h)
    case None =>
      match NarrowTo(BINARY32, x.bits)
      case Some(s) => WithSign(2, x.sign, s)
      case None => WithSign(3, x.sign, x.bits)
  }

  /** From width 3. */
  function NarrowF64(x: Binary64): Sized {
    if x.bits == 0 then WithSign(1, x.sign, 0)
    else if x.bits == INFINITY then WithSign(1, x.sign, 0x7C00)
    else if x.bits > INFINITY then Sized(1, 0x7E00)
    else Trial(x)
  }

  /** From width 4. */
  function NarrowF128(x: Binary128): Sized
    requires x.Valid()
  {
    if x.exp == 0 && x.frac == 0 then WithSign(1, x.sign, 0)
    else if x.exp == 0x7FFF && x.frac == 0 then WithSign(1, x.sign, 0x7C00)
    else if x.exp == 0x7FFF then Sized(1, 0x7E00)
    else
      match F128ToF64Exact(x)
      case None => WithSign(4, x.sign, x.exp * TWO_112 + x.frac)
      case Some(f) => Trial(f)
  }

  // ---------------------------------------------------------------- exactly the numbers of a format

  /** Some number of the format has the magnitude v, in units of 2^-k. */
  predicate InFormat(f: Format, v: nat, k: nat)
    requires ValidFormat(f) && MinExponent(f) + k >= 0
  {
    exists m: nat :: m < Infinity(f) && ValueIn(f, m, k) == v
  }

  lemma TopOf64()
    ensures Top(BINARY64) == TWO_52 && Infinity(BINARY64) == INFINITY
  {
    hide Pow2;
    FiftyPowers();
  }

  lemma Value64In(n: nat, k: nat)
    requires k >= 1074
    ensures ValueIn(BINARY64, n, k) == Significand(n) * Pow2(Shift(n) + (k - 1074))
  {
    hide Pow2, Top;
    TopOf64();
  }

  lemma OddForm64(n: nat, k: nat) returns (p: nat, e: int)
    requires k >= 1074 && Significand(n) > 0
    ensures p % 2 == 1 && e + k >= 0 && ValueIn(BINARY64, n, k) == p * Pow2(e + k)
    ensures forall f: Format | ValidFormat(f) :: NarrowTo(f, n) == OddTo(f, p, e)
  {
    hide Pow2, TrailingZeros, Shr, OddTo, ValueIn;
    var tz := TrailingZeros(Significand(n));
    p, e := Shr(Significand(n), tz), Shift(n) - 1074 + tz;
    OddPart(Significand(n));
    Value64In(n, k);
    Pow2Add(tz, Shift(n) + (k - 1074));
    Regroup(p, Pow2(tz), Pow2(Shift(n) + (k - 1074)));
    assert tz + (Shift(n) + (k - 1074)) == e + k;
  }

  lemma ZeroIn(f: Format, k: nat)
    requires ValidFormat(f) && MinExponent(f) + k >= 0
    ensures 0 < Infinity(f) && ValueIn(f, 0, k) == 0
  {
    hide Pow2;
    MulMono(1, f.maxExponent - f.minNormal + 2, Top(f));
  }

  lemma HasZero(f: Format, k: nat)
    requires ValidFormat(f) && MinExponent(f) + k >= 0
    ensures InFormat(f, 0, k)
  {
    hide ValueIn, Infinity;
    ZeroIn(f, k);
  }

  /** Narrowing answers exactly if the format has the number, and then with that number. */
  lemma NarrowToIff(f: Format, n: nat, k: nat)
    requires ValidFormat(f) && MinExponent(f) + k >= 0 && k >= 1074
    ensures NarrowTo(f, n).Some? <==> InFormat(f, ValueIn(BINARY64, n, k), k)
    ensures NarrowTo(f, n).Some? ==>
              NarrowTo(f, n).value < Infinity(f) && ValueIn(f, NarrowTo(f, n).value, k) == ValueIn(BINARY64, n, k)
  {
    hide Pow2, OddTo, ValueIn, Infinity;
    var v := ValueIn(BINARY64, n, k);
    if Significand(n) == 0 {
      ZeroIn(f, k);
      Value64In(n, k);
      assert InFormat(f, v, k);
    } else {
      hide NarrowTo;
      var p, e := OddForm64(n, k);
      if OddTo(f, p, e).Some? {
        OddToIsSound(f, p, e, k);
        assert InFormat(f, v, k);
      }
      if InFormat(f, v, k) {
        var m: nat :| m < Infinity(f) && ValueIn(f, m, k) == v;
        OddToIsComplete(f, p, e, k, m);
      }
    }
  }

  // ---------------------------------------------------------------- the narrowest width

  /** r has the sign and, in units of 2^-k, the magnitude v. */
  predicate Keeps(r: Sized, sign: bool, v: nat, k: nat)
    requires k >= 1074
  {
    exists m: nat :: m < Infinity(FormatOf(r.width)) && r == WithSign(r.width, sign, m) && ValueIn(FormatOf(r.width), m, k) == v
  }

  /** No narrower format has the magnitude. */
  predicate Narrowest(r: Sized, v: nat, k: nat)
    requires k >= 1074
  {
    1 <= r.width <= 3 && forall w :: 1 <= w < r.width ==> !InFormat(FormatOf(w), v, k)
  }

  lemma KeepsIt(w: nat, sign: bool, m: nat, v: nat, k: nat)
    requires k >= 1074 && m < Infinity(FormatOf(w)) && ValueIn(FormatOf(w), m, k) == v
    ensures Keeps(WithSign(w, sign, m), sign, v, k)
  {
    hide ValueIn, Infinity, FormatOf, SignBit;
    var r := WithSign(w, sign, m);
    assert r == WithSign(r.width, sign, m);
  }

  lemma TrialIsNarrowest(x: Binary64, k: nat)
    requires x.bits < INFINITY && k >= 1074
    ensures Keeps(Trial(x), x.sign, ValueIn(BINARY64, x.bits, k), k)
    ensures Narrowest(Trial(x), ValueIn(BINARY64, x.bits, k), k)
  {
    hide ValueIn, Infinity, InFormat, SignBit, Keeps, NarrowTo;
    var v := ValueIn(BINARY64, x.bits, k);
    NarrowToIff(BINARY16, x.bits, k);
    NarrowToIff(BINARY32, x.bits, k);
    TopOf64();
    match NarrowTo(BINARY16, x.bits) {
      case Some(h) => KeepsIt(1, x.sign, h, v, k);
      case None =>
        match NarrowTo(BINARY32, x.bits) {
          case Some(s) => KeepsIt(2, x.sign, s, v, k);
          case None => KeepsIt(3, x.sign, x.bits, v, k);
        }
    }
  }

  lemma ZeroIsNarrowest(sign: bool, k: nat)
    requires k >= 1074
    ensures Keeps(WithSign(1, sign, 0), sign, 0, k) && Narrowest(WithSign(1, sign, 0), 0, k)
  {
    hide ValueIn, Infinity, InFormat, SignBit, Keeps;
    ZeroIn(BINARY16, k);
    KeepsIt(1, sign, 0, 0, k);
  }

  /** A finite binary64 keeps its sign and value, in the narrowest width that has it. */
  lemma NarrowF64IsNarrowest(x: Binary64, k: nat)
    requires x.bits < INFINITY && k >= 1074
    ensures Keeps(NarrowF64(x), x.sign, ValueIn(BINARY64, x.bits, k), k)
    ensures Narrowest(NarrowF64(x), ValueIn(BINARY64, x.bits, k), k)
  {
    hide ValueIn, Infinity, InFormat, SignBit, Keeps, Narrowest, Trial;
    if x.bits == 0 {
      ZeroIn(BINARY64, k);
      ZeroIsNarrowest(x.sign, k);
    } else {
      TrialIsNarrowest(x, k);
    }
  }

  /** The units of the two models of binary64. */
  lemma SameUnits(n: nat)
    ensures ValueIn(BINARY64, n, UNIT + 1074) == Value64(n)
  {
    hide Pow2, ValueIn;
    Value64In(n, UNIT + 1074);
  }

  lemma IsBinary64InFormat(v: nat)
    ensures IsBinary64(v) <==> InFormat(BINARY64, v, UNIT + 1074)
  {
    hide ValueIn, Value64, Infinity;
    TopOf64();
    if IsBinary64(v) {
      var n: nat :| n < INFINITY && Value64(n) == v;
      SameUnits(n);
    }
    if InFormat(BINARY64, v, UNIT + 1074) {
      var n: nat :| n < Infinity(BINARY64) && ValueIn(BINARY64, n, UNIT + 1074) == v;
      SameUnits(n);
    }
  }

  /** A finite binary128 that no narrower format has stays as it is; any other keeps its sign and
      value in the narrowest. */
  lemma NarrowF128IsNarrowest(x: Binary128)
    requires x.Valid() && x.exp < 0x7FFF
    ensures NarrowF128(x) == WithSign(4, x.sign, x.exp * TWO_112 + x.frac)
            <==> !InFormat(BINARY64, Value128(x), UNIT + 1074)
    ensures InFormat(BINARY64, Value128(x), UNIT + 1074) ==>
              Keeps(NarrowF128(x), x.sign, Value128(x), UNIT + 1074)
              && Narrowest(NarrowF128(x), Value128(x), UNIT + 1074)
  {
    hide ValueIn, Infinity, InFormat, SignBit, Keeps, Trial, F128ToF64Exact, Value64, IsBinary64;
    IsBinary64InFormat(Value128(x));
    ZeroIsNarrowest(x.sign, UNIT + 1074);
    if Significand128(x) == 0 {
      ZeroIn(BINARY64, UNIT + 1074);
      HasZero(BINARY64, UNIT + 1074);
    } else {
      ExactAnswers(x);
      if F128ToF64Exact(x).Some? {
        var f := F128ToF64Exact(x).value;
        SameUnits(f.bits);
        TrialIsNarrowest(f, UNIT + 1074);
      }
    }
  }
}
