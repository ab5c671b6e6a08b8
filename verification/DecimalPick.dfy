/** Choosing between a decimal and a floating-point number
    (cpp/conformance/pjson_conformance_driver.cpp, lines 543-556 and 2127-2217). */
module DecimalPick {
  import opened ByteStrings
  import opened ExactNarrow
  import opened FloatFormats
  import opened FloatWidths
  import opened Pjson
  import opened PjsonNumbers
  import opened Powers
  import opened SoftFloat
  import opened Wrappers

  // ---------------------------------------------------------------- the code

  /** Multiply by five n times, within 128 bits. */
  function MultiplyFives(p: int, n: nat): Option<int>
    decreases n
  {
    if n == 0 then Some(p)
    else if -TWO_127 <= 5 * p < TWO_127 then MultiplyFives(5 * p, n - 1)
    else None
  }

  /** Divide by five n times, without a rest. */
  function DivideFives(p: int, n: nat): Option<int>
    decreases n
  {
    if n == 0 then Some(p) else if p % 5 != 0 then None else DivideFives(p / 5, n - 1)
  }

  /** p times 2^q as a normal binary64, if p has at most 53 bits. */
  function PackExact(p: int, q: int): Option<Binary64> {
    var bits := BitLength(Abs(p));
    var unbiased := q - (53 - bits) + 52;
    if bits > 53 || unbiased < -1022 || unbiased > 1023 then None
    else Some(PackToF64(p < 0, unbiased + 1023, Product(Abs(p), Pow2(53 - bits)) % TWO_52))
  }

  function DecimalToF64Exact(m: int, s: int): Option<Binary64> {
    if m == 0 then Some(PackToF64(false, 0, 0))
    else
      match if s >= 0 then MultiplyFives(m, s) else DivideFives(m, -s)
      case None => None
      case Some(p) => PackExact(p, s)
  }

  /** The bytes of a number by its bits, at least one. */
  function ByteCount(n: nat): nat {
    if n == 0 then 1 else (BitLength(n) + 7) / 8
  }

  function DecimalSize(m: int, s: int): nat {
    var scale := VaruintSize(ZigzagEncode(s, U32_LIMIT));
    1 + ByteCount(ZigzagEncode(m, TWO_128)) + if scale == 0 then 5 else scale
  }

  function FloatSize(w: nat): nat {
    1 + Pow2(w)
  }

  function Pick(m: int, s: int): Value {
    match DecimalToF64Exact(m, s)
    case None => Decimal(m, s)
    case Some(f) =>
      var narrow := NarrowF64(f);
      if DecimalSize(m, s) < FloatSize(narrow.width) then Decimal(m, s) else Float(narrow.width, narrow.bits)
  }

  // ---------------------------------------------------------------- powers of five

  lemma {:induction false} MultiplyFivesIs(p: int, n: nat)
    requires -TWO_127 <= p < TWO_127
    ensures MultiplyFives(p, n).Some? <==> -TWO_127 <= p * Pow(5, n) < TWO_127
    ensures MultiplyFives(p, n).Some? ==> MultiplyFives(p, n).value == p * Pow(5, n)
    decreases n
  {
    if n > 0 {
      FiveOut(p, Pow(5, n - 1));
      if -TWO_127 <= 5 * p < TWO_127 {
        MultiplyFivesIs(5 * p, n - 1);
      } else {
        OutStaysOut(5 * p, Pow(5, n - 1));
      }
    }
  }

  lemma FiveOut(p: int, x: int)
    ensures p * (5 * x) == 5 * p * x
  {
  }

  lemma OutStaysOut(p: int, x: nat)
    requires x >= 1 && !(-TWO_127 <= p < TWO_127)
    ensures !(-TWO_127 <= p * x < TWO_127)
  {
    if p > 0 { MulMono(1, x, p); } else { MulMono(1, x, -p); }
  }

  lemma {:induction false} DivideFivesIs(p: int, n: nat)
    ensures DivideFives(p, n).Some? <==> p % Pow(5, n) == 0
    ensures DivideFives(p, n).Some? ==> p == DivideFives(p, n).value * Pow(5, n)
    decreases n
  {
    if n > 0 {
      FiveDivides(p, Pow(5, n - 1));
      if p % 5 == 0 {
        DivideFivesIs(p / 5, n - 1);
        if DivideFives(p, n).Some? {
          FiveOut(DivideFives(p, n).value, Pow(5, n - 1));
          Associated(DivideFives(p, n).value, Pow(5, n - 1));
        }
      }
    }
  }

  lemma FiveDivides(p: int, d: nat)
    requires d >= 1
    ensures p % (5 * d) == 0 <==> p % 5 == 0 && p / 5 % d == 0
  {
    if p % (5 * d) == 0 {
      var q := p / (5 * d);
      assert p == q * (5 * d);
      FiveOut(q, d);
      Associated(q, d);
      DivUnique(q * d, d, q, 0);
    } else if p % 5 == 0 && p / 5 % d == 0 {
      var q := p / 5 / d;
      assert p / 5 == q * d;
      FiveOut(q, d);
      Associated(q, d);
      DivUnique(p, 5 * d, q, 0);
    }
  }

  lemma Associated(q: int, d: int)
    ensures 5 * q * d == 5 * (q * d)
  {
  }

  // ---------------------------------------------------------------- the answer is exact

  /** v, in units of 2^-k, is the magnitude of m times 10^s. */
  predicate Denotes(v: nat, m: int, s: int, k: nat) {
    if s >= 0 then v == Product(Product(Abs(m), Pow(10, s)), Pow2(k))
    else Product(v, Pow(10, -s)) == Product(Abs(m), Pow2(k))
  }

  lemma PackExactIs(p: int, q: int, k: nat)
    requires p != 0 && k >= 1074 && PackExact(p, q).Some?
    ensures var r := PackExact(p, q).value;
            r.sign == (p < 0) && r.bits < INFINITY && q + k >= 0 && ValueIn(BINARY64, r.bits, k) == Abs(p) * Pow2(q + k)
  {
    hide Pow2, BitLength, ValueIn, Top;
    TopOf64();
    BitLengthBounds(Abs(p));
    assert OddTo(BINARY64, Abs(p), q) == Some(PackExact(p, q).value.bits);
    OddToIsSound(BINARY64, Abs(p), q, k);
  }

  lemma TenPower(e: nat)
    ensures Pow(10, e) == Pow2(e) * Pow(5, e)
  {
    var two, five := 2, 5;
    PowProduct(two, five, e);
    Pow2IsPow(e);
  }

  lemma AbsProduct(p: int, x: nat)
    ensures Abs(p * x) == Abs(p) * x
  {
    if p < 0 { MulMono(p, 0, x); } else { MulMono(0, p, x); }
  }

  lemma GroupUp(m: nat, five: nat, two: nat, unit: nat)
    ensures m * five * (two * unit) == m * (two * five) * unit
  {
    assert m * five * (two * unit) == m * (five * (two * unit)) == m * (five * two * unit);
  }

  lemma GroupDown(p: nat, five: nat, two: nat, unit: nat)
    ensures p * unit * (two * five) == p * five * (two * unit)
  {
    assert p * unit * (two * five) == p * (unit * (two * five)) == p * (five * (two * unit));
  }

  /** Whenever there is an answer, it is a finite binary64 of exactly the number. */
  lemma AnswerIsExact(m: int, s: int, k: nat)
    requires -TWO_127 <= m < TWO_127 && k >= 1074 && DecimalToF64Exact(m, s).Some?
    ensures var r := DecimalToF64Exact(m, s).value;
            r.sign == (m < 0) && r.bits < INFINITY && Denotes(ValueIn(BINARY64, r.bits, k), m, s, k)
  {
    hide Pow2, Pow, BitLength, ValueIn, Top, PackExact, MultiplyFives, DivideFives;
    if m == 0 {
      ZeroIn(BINARY64, k);
    } else if s >= 0 {
      MultiplyFivesIs(m, s);
      var p := MultiplyFives(m, s).value;
      AbsProduct(m, Pow(5, s));
      SignKept(m, Pow(5, s));
      PackExactIs(p, s, k);
      TenPower(s);
      Pow2Add(s, k);
      GroupUp(Abs(m), Pow(5, s), Pow2(s), Pow2(k));
    } else {
      DivideFivesIs(m, -s);
      var p := DivideFives(m, -s).value;
      AbsProduct(p, Pow(5, -s));
      SignKept(p, Pow(5, -s));
      PackExactIs(p, s, k);
      TenPower(-s);
      Pow2Add(-s, s + k);
      GroupDown(Abs(p), Pow(5, -s), Pow2(-s), Pow2(s + k));
    }
  }

  lemma SignKept(p: int, x: nat)
    requires x >= 1
    ensures p * x < 0 <==> p < 0
    ensures p * x == 0 <==> p == 0
  {
    if p > 0 { MulMono(1, x, p); } else { MulMono(1, x, -p); }
  }

  /** p times 2^s is a normal binary64 that takes no more than 53 bits for p. */
  predicate FitsNormal(p: int, s: int) {
    Abs(p) < TWO_53 && -1022 <= BitLength(Abs(p)) + s - 1 <= 1023
  }

  /** There is an answer for zero, and else exactly if m times 5^s is a whole number that fits. */
  lemma AnswersIff(m: int, s: int)
    requires -TWO_127 <= m < TWO_127
    ensures DecimalToF64Exact(m, s).Some? <==>
            m == 0
            || (s >= 0 && FitsNormal(m * Pow(5, s), s))
            || (s < 0 && m % Pow(5, -s) == 0 && FitsNormal(m / Pow(5, -s), s))
  {
    hide Pow2, Pow, BitLength;
    if m != 0 && s >= 0 {
      hide MultiplyFives;
      MultiplyFivesIs(m, s);
      SignKept(m, Pow(5, s));
      PackExactIff(m * Pow(5, s), s);
      if FitsNormal(m * Pow(5, s), s) { SmallFits(m * Pow(5, s)); }
    } else if m != 0 {
      hide DivideFives;
      DivideFivesIs(m, -s);
      if DivideFives(m, -s).Some? {
        var p := DivideFives(m, -s).value;
        SignKept(p, Pow(5, -s));
        PackExactIff(p, s);
        DivUnique(m, Pow(5, -s), p, 0);
      }
    }
  }

  lemma SmallFits(p: int)
    requires Abs(p) < TWO_53
    ensures -TWO_127 <= p < TWO_127
  {
  }

  lemma PackExactIff(p: int, q: int)
    requires p != 0
    ensures PackExact(p, q).Some? <==> FitsNormal(p, q)
  {
    hide Pow2, BitLength;
    BitLengthBounds(Abs(p));
    FiftyPowers();
    var b := BitLength(Abs(p));
    if b <= 53 { Pow2Mono(b, 53); } else { Pow2Mono(53, b - 1); }
  }

  // ---------------------------------------------------------------- the choice

  lemma FourBits(n: nat)
    requires n >= 16
    ensures BitLength(n) == 4 + BitLength(n / 16)
  {
    assert BitLength(n) == 1 + BitLength(n / 2);
    assert BitLength(n / 2) == 1 + BitLength(n / 2 / 2);
    assert n / 2 / 2 == n / 4 && n / 4 / 2 == n / 8 && n / 8 / 2 == n / 16;
    assert BitLength(n / 4) == 1 + BitLength(n / 8);
    assert BitLength(n / 8) == 1 + BitLength(n / 16);
  }

  lemma OneByte(n: nat)
    requires 0 < n < 256
    ensures 1 <= BitLength(n) <= 8 && |MinimalLe(n)| == 1
  {
    hide BitLength, Pow2;
    BitLengthBounds(n);
    Pow256Is8();
    var b := BitLength(n);
    if b > 8 { Pow2Mono(8, b - 1); }
    assert MinimalLe(n / 256) == [];
  }

  lemma Pow256Is8()
    ensures Pow2(8) == 256
  {
    assert Pow2(4) == 16;
    Pow2Add(4, 4);
  }

  /** The count by bits is the number of bytes that are written. */
  lemma {:induction false} ByteCountIs(n: nat)
    requires n > 0
    ensures ByteCount(n) == |MinimalLe(n)|
  {
    hide BitLength;
    if n < 256 {
      OneByte(n);
    } else {
      FourBits(n);
      FourBits(n / 16);
      assert n / 16 / 16 == n / 256;
      ByteCountIs(n / 256);
    }
  }

  lemma DecimalSizeIs(hash: seq<byte> -> byte, m: int, s: int)
    requires Encode(hash, Decimal(m, s)).Some?
    ensures |Encode(hash, Decimal(m, s)).value| == DecimalSize(m, s)
  {
    hide MinimalLe, ByteCount, ZigzagEncode;
    var zz := ZigzagEncode(m, TWO_128);
    if zz > 0 { ByteCountIs(zz); } else { ByteOfZero(); }
    VaruintRoundTrip(ZigzagEncode(s, U32_LIMIT), []);
  }

  lemma ByteOfZero()
    ensures ByteCount(0) == 1
  {
  }

  lemma FloatSizeIs(hash: seq<byte> -> byte, w: nat, bits: nat)
    requires 1 <= w <= 4
    ensures Encode(hash, Float(w, bits)).Some? && |Encode(hash, Float(w, bits)).value| == FloatSize(w)
  {
    hide CanonicalNaN;
    assert Pow2(1) == 2 && Pow2(2) == 4 && Pow2(3) == 8 && Pow2(4) == 16;
  }

  lemma WidthsOrdered(v: int, w: int)
    requires 0 <= v <= w
    ensures FloatSize(v) <= FloatSize(w)
  {
    Pow2Mono(v, w);
  }

  /** The choice is the decimal itself or a floating-point number of the same sign and value. */
  lemma PickIsExact(m: int, s: int, k: nat) returns (v: nat)
    requires -TWO_127 <= m < TWO_127 && k >= 1074
    ensures Pick(m, s) == Decimal(m, s)
            || (Pick(m, s).Float? && Denotes(v, m, s, k)
                && Keeps(Sized(Pick(m, s).width, Pick(m, s).bits), m < 0, v, k)
                && Narrowest(Sized(Pick(m, s).width, Pick(m, s).bits), v, k))
  {
    hide DecimalToF64Exact, NarrowF64, Denotes, Keeps, Narrowest, DecimalSize, FloatSize, ValueIn;
    v := 0;
    if DecimalToF64Exact(m, s).Some? {
      var f := DecimalToF64Exact(m, s).value;
      AnswerIsExact(m, s, k);
      NarrowF64IsNarrowest(f, k);
      v := ValueIn(BINARY64, f.bits, k);
    }
  }

  /** Where b can be encoded a can be, in no more bytes. */
  predicate NoLonger(hash: seq<byte> -> byte, a: Value, b: Value) {
    Encode(hash, b).Some? ==> Encode(hash, a).Some? && |Encode(hash, a).value| <= |Encode(hash, b).value|
  }

  /** The choice is no longer than the decimal and, when a binary64 of the number is found, no longer
      than any floating-point number of its value. */
  lemma ShortestWhenFound(hash: seq<byte> -> byte, m: int, s: int, k: nat)
    requires -TWO_127 <= m < TWO_127 && k >= 1074
    ensures NoLonger(hash, Pick(m, s), Decimal(m, s))
    ensures Encode(hash, Decimal(m, s)).Some? && DecimalToF64Exact(m, s).Some? ==>
              var v := ValueIn(BINARY64, DecimalToF64Exact(m, s).value.bits, k);
              forall r: Sized | 1 <= r.width <= 3 && Keeps(r, m < 0, v, k) :: NoLonger(hash, Pick(m, s), Float(r.width, r.bits))
  {
    hide DecimalToF64Exact, NarrowF64, Denotes, Keeps, Narrowest, DecimalSize, FloatSize, ValueIn, Encode;
    if Encode(hash, Decimal(m, s)).Some? {
      DecimalSizeIs(hash, m, s);
      if DecimalToF64Exact(m, s).Some? {
        var f := DecimalToF64Exact(m, s).value;
        AnswerIsExact(m, s, k);
        NarrowF64IsNarrowest(f, k);
        var v, narrow := ValueIn(BINARY64, f.bits, k), NarrowF64(f);
        WidthOf(narrow, v, k);
        FloatSizeIs(hash, narrow.width, narrow.bits);
        forall r: Sized | 1 <= r.width <= 3 && Keeps(r, m < 0, v, k)
          ensures NoLonger(hash, Pick(m, s), Float(r.width, r.bits))
        {
          FloatSizeIs(hash, r.width, r.bits);
          NarrowestIsLeast(narrow, r, m < 0, v, k);
          WidthsOrdered(narrow.width, r.width);
        }
      }
    }
  }

  lemma WidthOf(r: Sized, v: nat, k: nat)
    requires k >= 1074 && Narrowest(r, v, k)
    ensures 1 <= r.width <= 3
  {
  }

  lemma NarrowestIsLeast(r: Sized, other: Sized, sign: bool, v: nat, k: nat)
    requires k >= 1074 && Narrowest(r, v, k) && 1 <= other.width <= 3 && Keeps(other, sign, v, k)
    ensures r.width <= other.width
  {
    hide InFormat, Keeps;
    KeptIsThere(other, sign, v, k);
  }

  lemma KeptIsThere(r: Sized, sign: bool, v: nat, k: nat)
    requires k >= 1074 && Keeps(r, sign, v, k)
    ensures InFormat(FormatOf(r.width), v, k)
  {
    hide ValueIn, Infinity, FormatOf;
  }

  // ---------------------------------------------------------------- as it runs

  method BitsUsed(n: nat) returns (bits: nat)
    ensures bits == BitLength(n)
  {
    var t := n;
    bits := 0;
    while t > 0
      invariant bits + BitLength(t) == BitLength(n)
    {
      bits := bits + 1;
      t := t / 2;
    }
  }

  method FindF64(m: int, s: int) returns (r: Option<Binary64>)
    ensures r == DecimalToF64Exact(m, s)
  {
    hide BitLength, Pow2;
    if m == 0 {
      return Some(PackToF64(false, 0, 0));
    }
    var p := m;
    if s >= 0 {
      var i: nat := 0;
      while i < s
        invariant i <= s && MultiplyFives(p, s - i) == MultiplyFives(m, s)
      {
        var product := p * 5;
        if product < -TWO_127 || product >= TWO_127 {
          return None;
        }
        p := product;
        i := i + 1;
      }
    } else {
      var i: nat := 0;
      while i < -s
        invariant i <= -s && DivideFives(p, -s - i) == DivideFives(m, -s)
      {
        if p % 5 != 0 {
          return None;
        }
        p := p / 5;
        i := i + 1;
      }
    }
    var magnitude: nat := if p < 0 then -p else p;
    var bits := BitsUsed(magnitude);
    if bits > 53 {
      return None;
    }
    var unbiased := s - (53 - bits) + 52;
    if unbiased < -1022 || unbiased > 1023 {
      return None;
    }
    return Some(PackToF64(p < 0, unbiased + 1023, Product(magnitude, Pow2(53 - bits)) % TWO_52));
  }
}
