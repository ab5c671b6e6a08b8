/** Narrowing that answers only when the number is kept exactly
    (cpp/conformance/pjson_conformance_driver.cpp, lines 718-788). */
module ExactNarrow {
  import opened Powers
  import opened SoftFloat
  import opened Wrappers

  function TrailingZeros(n: nat): nat
    requires n > 0
  {
    if n % 2 == 1 then 0 else 1 + TrailingZeros(n / 2)
  }

  function BitLength(n: nat): nat {
    if n == 0 then 0 else 1 + BitLength(n / 2)
  }

  /** The significand with the implicit bit, and the power of two it counts. */
  function Significand128(x: Binary128): nat {
    if x.exp == 0 then x.frac else TWO_112 + x.frac
  }

  function Exponent128(x: Binary128): int {
    if x.exp == 0 then -16494 else x.exp - 16383 - 112
  }

  /** The odd number p times 2^e as a binary64, if it is one. */
  function OddToF64(sign: bool, p: nat, e: int): Option<Binary64> {
    var bits := BitLength(p);
    var unbiased := e + bits - 1;
    var maxBits := if unbiased >= -1022 then 53 else unbiased + 1075;
    if unbiased < -1074 || unbiased > 1023 || bits > maxBits then None
    else if unbiased >= -1022 then Some(PackToF64(sign, unbiased + 1023, Shl(p, 53 - bits) % TWO_52))
    else Some(PackToF64(sign, 0, Shl(p, e + 1074)))
  }

  function F128ToF64Exact(x: Binary128): Option<Binary64>
    requires x.Valid()
  {
    if x.exp == 0 && x.frac == 0 then Some(PackToF64(x.sign, 0, 0))
    else if x.exp == 0x7FFF then None
    else
      var tz := TrailingZeros(Significand128(x));
      OddToF64(x.sign, Shr(Significand128(x), tz), Exponent128(x) + tz)
  }

  // ---------------------------------------------------------------- odd parts

  lemma {:induction false} OddPart(n: nat)
    requires n > 0
    ensures var p := Shr(n, TrailingZeros(n)); p % 2 == 1 && n == p * Pow2(TrailingZeros(n))
    decreases n
  {
    if n % 2 == 0 {
      var tz, p := TrailingZeros(n / 2), Shr(n / 2, TrailingZeros(n / 2));
      OddPart(n / 2);
      TwiceProduct(p, Pow2(tz));
      assert n == p * Pow2(tz + 1);
      DivUnique(n, Pow2(tz + 1), p, 0);
    }
  }

  lemma {:induction false} BitLengthBounds(n: nat)
    requires n > 0
    ensures BitLength(n) >= 1 && Pow2(BitLength(n) - 1) <= n < Pow2(BitLength(n))
  {
    if n > 1 { BitLengthBounds(n / 2); }
  }

  /** An odd number times a power of two takes up all powers of two of the product. */
  lemma {:induction false} OddTakesAll(p: nat, a: nat, f: nat, b: nat)
    requires p % 2 == 1 && p * Pow2(a) == f * Pow2(b)
    ensures a >= b && f == p * Pow2(a - b)
    decreases b
  {
    if b > 0 {
      TwiceProduct(f, Pow2(b - 1));
      if a == 0 {
        NotOdd(p, f * Pow2(b - 1));
      } else {
        TwiceProduct(p, Pow2(a - 1));
        OddTakesAll(p, a - 1, f, b - 1);
      }
    }
  }

  lemma NotOdd(p: nat, m: nat)
    requires p % 2 == 1
    ensures p != 2 * m
  {
  }

  lemma {:induction false} Pow2Strict(a: nat, b: nat)
    requires Pow2(a) < Pow2(b)
    ensures a < b
  {
    if b <= a { Pow2Mono(b, a); }
  }

  /** The magnitude of x as an odd number times a power of two. */
  lemma OddForm(x: Binary128) returns (p: nat, tz: nat, a: nat)
    requires x.Valid() && x.exp < 0x7FFF && Significand128(x) > 0
    ensures tz == TrailingZeros(Significand128(x)) && p == Shr(Significand128(x), tz) && p % 2 == 1
    ensures Value128(x) == p * Pow2(a) && Exponent128(x) + tz == a - 16494
  {
    hide Pow2, TrailingZeros, Shr;
    var m, shift: nat := Significand128(x), Exponent128(x) + 16494;
    tz := TrailingZeros(m);
    p := Shr(m, tz);
    a := tz + shift;
    OddPart(m);
    ZeroPower();
    Pow2Add(tz, shift);
    Regroup(p, Pow2(tz), Pow2(shift));
  }

  lemma ZeroPower()
    ensures Pow2(0) == 1
  {
  }

  lemma FiftyPowers()
    ensures Pow2(52) == TWO_52 && Pow2(53) == TWO_53
  {
    hide Pow2;
    SmallPowers();
    TwoTo(50, TWO_50);
    Pow2Add(50, 2);
    NextPower(52);
  }

  // ---------------------------------------------------------------- sound

  /** The shifted odd number, and that it fits. */
  lemma ShiftFits(p: nat, bits: nat, pad: nat, limit: nat)
    requires p > 0 && bits == BitLength(p) && bits + pad <= limit <= 53
    ensures Shl(p, pad) == p * Pow2(pad) && p * Pow2(pad) < Pow2(limit) <= TWO_53
    ensures bits + pad == 53 ==> TWO_52 <= p * Pow2(pad)
  {
    hide Pow2, BitLength;
    BitLengthBounds(p);
    Pow2Add(bits, pad);
    Pow2Add(bits - 1, pad);
    MulMono(p + 1, Pow2(bits), Pow2(pad));
    Distribute(p, Pow2(pad));
    MulMono(Pow2(bits - 1), p, Pow2(pad));
    Pow2Mono(bits + pad, limit);
    FiftyPowers();
    Pow2Mono(limit, 53);
    SmallDiv(p * Pow2(pad), WORD);
  }

  /** An answer has the value of the odd number times its power of two. */
  lemma OddIsSound(sign: bool, p: nat, e: int, a: nat)
    requires p > 0 && e == a - 16494 && OddToF64(sign, p, e).Some?
    ensures var r := OddToF64(sign, p, e).value;
            r.sign == sign && r.bits < INFINITY && Value64(r.bits) == p * Pow2(a)
  {
    hide Pow2, BitLength, Value64;
    var bits := BitLength(p);
    BitLengthBounds(p);
    var unbiased := e + bits - 1;
    if unbiased >= -1022 {
      var pad := 53 - bits;
      ShiftFits(p, bits, pad, 53);
      var s, k := p * Pow2(pad), unbiased + 1022;
      SmallDiv(s - TWO_52, TWO_52);
      DivUnique(s, TWO_52, 1, s - TWO_52);
      BinValue(k, s);
      Pow2Add(pad, k + UNIT);
      Regroup(p, Pow2(pad), Pow2(k + UNIT));
      assert pad + (k + UNIT) == a;
    } else {
      var pad := e + 1074;
      ShiftFits(p, bits, pad, 52);
      FiftyPowers();
      BinValue(0, p * Pow2(pad));
      Pow2Add(pad, UNIT);
      Regroup(p, Pow2(pad), Pow2(UNIT));
    }
  }

  // ---------------------------------------------------------------- complete

  /** A binary64 with that value is found. */
  lemma OddIsComplete(sign: bool, p: nat, e: int, a: nat, n: nat)
    requires p % 2 == 1 && e == a - 16494 && n < INFINITY && Value64(n) == p * Pow2(a)
    ensures OddToF64(sign, p, e).Some?
  {
    hide Pow2, BitLength, Shl;
    var f, b := Significand(n), Shift(n) + UNIT;
    OddTakesAll(p, a, f, b);
    var bits := BitLength(p);
    BitLengthBounds(p);
    Pow2Add(bits - 1, a - b);
    MulMono(Pow2(bits - 1), p, Pow2(a - b));
    FiftyPowers();
    Pow2Strict(bits - 1 + (a - b), 53);
  }

  /** A binary64 of the same value is the nearest. */
  lemma ExactIsNearest(v: nat, n: nat)
    requires n <= INFINITY && Value64(n) == v
    ensures NearestEven(v, n)
  {
    hide Value64;
    forall m: nat | m <= INFINITY ensures Beats(v, n, m) {
      if m < n { Monotone(m, n); } else if n < m { Monotone(n, m); }
    }
  }

  predicate IsBinary64(v: nat) {
    exists n: nat :: n < INFINITY && Value64(n) == v
  }

  lemma ExactAnswers(x: Binary128)
    requires x.Valid() && x.exp < 0x7FFF && Significand128(x) > 0
    ensures F128ToF64Exact(x).Some? <==> IsBinary64(Value128(x))
    ensures F128ToF64Exact(x).Some? ==>
              var r := F128ToF64Exact(x).value;
              r.sign == x.sign && r.bits < INFINITY && Value64(r.bits) == Value128(x)
  {
    hide Pow2, Value64, OddToF64, Shr, TrailingZeros, Value128;
    var p, tz, a := OddForm(x);
    var e := Exponent128(x) + tz;
    if OddToF64(x.sign, p, e).Some? {
      OddIsSound(x.sign, p, e, a);
      assert IsBinary64(Value128(x));
    }
    if IsBinary64(Value128(x)) {
      var n: nat :| n < INFINITY && Value64(n) == Value128(x);
      OddIsComplete(x.sign, p, e, a, n);
    }
  }

  /** On finite numbers the exact narrowing answers exactly when the value is a binary64, subnormals
      included, and then its answer has that value and is the one rounding gives. */
  lemma ExactIffBinary64(x: Binary128)
    requires x.Valid() && x.exp < 0x7FFF
    ensures F128ToF64Exact(x).Some? <==> IsBinary64(Value128(x))
    ensures F128ToF64Exact(x).Some? ==>
              var r := F128ToF64Exact(x).value;
              r == F128ToF64(x) && Value64(r.bits) == Value128(x)
  {
    hide Value64, F128ToF64;
    RoundsCorrectly(x);
    SmallestIsBig();
    if Significand128(x) > 0 {
      hide F128ToF64Exact, Value128, IsBinary64, NearestEven;
      ExactAnswers(x);
      if F128ToF64Exact(x).Some? {
        var r := F128ToF64Exact(x).value;
        ExactIsNearest(Value128(x), r.bits);
        NearestIsUnique(Value128(x), r.bits, F128ToF64(x).bits);
      }
    } else {
      TinyRounds(x);
    }
  }
}
