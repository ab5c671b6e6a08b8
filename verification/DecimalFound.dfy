/** Which decimals are found to be a binary64, and which are missed
    (cpp/conformance/pjson_conformance_driver.cpp, lines 2129-2217 and 2627-2632). */
module DecimalFound {
  import opened ByteStrings
  import opened DecimalPick
  import opened ExactNarrow
  import opened FloatFormats
  import opened FloatWidths
  import opened Pjson
  import opened PjsonNumbers
  import opened Powers
  import opened SoftFloat
  import opened Wrappers

  // ---------------------------------------------------------------- m times 5^s

  /** m times 5^s is a whole number. */
  predicate Whole(m: int, s: int) {
    s >= 0 || Abs(m) % Pow(5, -s) == 0
  }

  /** The magnitude of m times 5^s. */
  function Fives(m: int, s: int): nat {
    if s >= 0 then Product(Abs(m), Pow(5, s)) else Quotient(Abs(m), Pow(5, -s))
  }

  function Quotient(a: nat, d: nat): nat
    requires d >= 1
  {
    QuotientSign(a, d);
    a / d
  }

  /** A number without its factors of two. */
  function Odd(n: nat): nat
    requires n > 0
  {
    Shr(n, TrailingZeros(n))
  }

  lemma AbsDivides(m: int, d: nat)
    requires d >= 1
    ensures m % d == 0 <==> Abs(m) % d == 0
    ensures m % d == 0 ==> Abs(m / d) == Abs(m) / d
  {
    if m < 0 {
      if m % d == 0 {
        QuotientRest(m, d);
        Opposite(m / d, d);
        DivUnique(-m, d, -(m / d), 0);
      }
      if -m % d == 0 {
        QuotientRest(-m, d);
        Opposite(-m / d, d);
        DivUnique(m, d, -(-m / d), 0);
      }
      if m % d == 0 { NoSign(m, d); }
    } else {
      QuotientSign(m, d);
    }
  }

  lemma QuotientRest(m: int, d: nat)
    requires d >= 1
    ensures m == m / d * d + m % d
  {
  }

  lemma Opposite(q: int, d: int)
    ensures -q * d == -(q * d)
  {
  }

  lemma QuotientSign(m: int, d: nat)
    requires d >= 1 && m >= 0
    ensures m / d >= 0
  {
  }

  lemma NoSign(m: int, d: nat)
    requires d >= 1 && m < 0
    ensures m / d < 0
  {
    QuotientRest(m, d);
    if m / d >= 0 { MulMono(0, m / d, d); }
  }

  lemma FivesAbove(m: int, s: int)
    requires m != 0 && Whole(m, s)
    ensures Fives(m, s) > 0
    ensures s >= 0 ==> Fives(m, s) >= Pow(5, s) && Fives(m, s) >= Abs(m)
    ensures s < 0 ==> Abs(m) == Fives(m, s) * Pow(5, -s) >= Pow(5, -s) && Abs(m) >= Fives(m, s)
  {
    hide Pow;
    if s >= 0 {
      MulMono(1, Abs(m), Pow(5, s));
      MulMono(1, Pow(5, s), Abs(m));
    } else {
      QuotientRest(Abs(m), Pow(5, -s));
      QuotientSign(Abs(m), Pow(5, -s));
      var q := Abs(m) / Pow(5, -s);
      MulMono(1, q, Pow(5, -s));
      MulMono(1, Pow(5, -s), q);
    }
  }

  // ---------------------------------------------------------------- the exponents are small

  lemma LargeFives()
    ensures Pow(5, 23) > TWO_53 && Pow(5, 55) > TWO_127
  {
    hide Pow;
    FiveToEleven();
    PowAdd(5, 11, 11);
    PowAdd(5, 1, 22);
    PowAdd(5, 22, 22);
    PowAdd(5, 11, 44);
    assert Pow(5, 22) == 2384185791015625;
    assert Pow(5, 44) == 2384185791015625 * 2384185791015625;
  }

  lemma FiveToEleven()
    ensures Pow(5, 1) == 5 && Pow(5, 11) == 48828125
  {
    assert Pow(5, 4) == 625;
    assert Pow(5, 8) == 390625;
  }

  lemma FivesSmall(j: nat, bound: nat)
    requires Pow(5, j) <= bound
    ensures bound < TWO_53 ==> j <= 22
    ensures bound <= TWO_127 ==> j <= 54
  {
    hide Pow;
    LargeFives();
    if j > 23 { PowStrict(5, 23, j); }
    if j > 55 { PowStrict(5, 55, j); }
  }

  lemma BitLengthAtMost(n: nat, b: nat)
    requires 0 < n < Pow2(b)
    ensures 1 <= BitLength(n) <= b
  {
    hide Pow2, BitLength;
    BitLengthBounds(n);
    Pow2Strict(BitLength(n) - 1, b);
  }

  /** Found exactly if m times 5^s is whole and below 2^53: the tests of the exponent never fail. */
  lemma FoundIff(m: int, s: int)
    requires -TWO_127 <= m < TWO_127 && m != 0
    ensures DecimalToF64Exact(m, s).Some? <==> Whole(m, s) && Fives(m, s) < TWO_53
    ensures DecimalToF64Exact(m, s).Some? ==> -54 <= s <= 22
  {
    hide Pow, Pow2, BitLength, DecimalToF64Exact;
    AnswersIff(m, s);
    if s >= 0 { AbsProduct(m, Pow(5, s)); } else { AbsDivides(m, Pow(5, -s)); }
    if Whole(m, s) && Fives(m, s) < TWO_53 {
      FivesAbove(m, s);
      FiftyPowers();
      BitLengthAtMost(Fives(m, s), 53);
      if s >= 0 { FivesSmall(s, Fives(m, s)); } else { FivesSmall(-s, Abs(m)); }
    }
  }

  // ---------------------------------------------------------------- which decimals are a binary64

  /** Some number of the format has the magnitude of m times 10^s. */
  ghost predicate HasNumber(f: Format, m: int, s: int, k: nat)
    requires ValidFormat(f) && MinExponent(f) + k >= 0
  {
    exists v: nat :: Denotes(v, m, s, k) && InFormat(f, v, k)
  }

  /** The magnitude by its fives and twos. */
  lemma DenotesFives(m: int, s: int, k: nat)
    requires m != 0 && Whole(m, s) && s + k >= 0
    ensures Denotes(Product(Fives(m, s), Pow2(s + k)), m, s, k)
  {
    hide Pow, Pow2;
    if s >= 0 {
      TenPower(s);
      Pow2Add(s, k);
      GroupUp(Abs(m), Pow(5, s), Pow2(s), Pow2(k));
    } else {
      FivesAbove(m, s);
      TenPower(-s);
      Pow2Add(-s, s + k);
      GroupDown(Fives(m, s), Pow(5, -s), Pow2(-s), Pow2(s + k));
    }
  }

  lemma Cancel(x: nat, y: nat, d: nat)
    requires d >= 1 && x * d == y * d
    ensures x == y
  {
    DivUnique(x * d, d, x, 0);
    DivUnique(y * d, d, y, 0);
  }

  /** A decimal has one magnitude. */
  lemma DenotesOne(v: nat, w: nat, m: int, s: int, k: nat)
    requires Denotes(v, m, s, k) && Denotes(w, m, s, k)
    ensures v == w
  {
    hide Pow, Pow2;
    if s < 0 { Cancel(v, w, Pow(10, -s)); }
  }

  lemma {:induction false} FivesAreOdd(j: nat)
    ensures Pow(5, j) % 2 == 1
  {
    hide Pow;
    FivesNext(j);
    if j > 0 { FivesAreOdd(j - 1); }
  }

  lemma FivesNext(j: nat)
    ensures Pow(5, j) == if j == 0 then 1 else 5 * Pow(5, j - 1)
  {
  }

  /** An odd number that divides a multiple of a power of two divides the other factor. */
  lemma {:induction false} OddDivides(d: nat, q: nat, a: nat, k: nat)
    requires d % 2 == 1 && q * d == a * Pow2(k)
    ensures a % d == 0
    decreases k
  {
    if k == 0 {
      DivUnique(a, d, q, 0);
    } else {
      TwiceProduct(a, Pow2(k - 1));
      EvenFactor(q, d, a * Pow2(k - 1));
      OddDivides(d, q / 2, a, k - 1);
    }
  }

  lemma EvenFactor(q: nat, d: nat, x: nat)
    requires d % 2 == 1 && q * d == 2 * x
    ensures q / 2 * d == x
  {
    if q % 2 == 1 { OddTimesOdd(q, d); }
    assert q == 2 * (q / 2);
    assert q * d == 2 * (q / 2) * d == 2 * (q / 2 * d);
  }

  lemma OddTimesOdd(a: nat, b: nat)
    requires a % 2 == 1 && b % 2 == 1
    ensures a * b % 2 == 1
  {
    var x, y := a / 2, b / 2;
    assert a * b == (2 * x + 1) * (2 * y + 1) == 2 * (2 * x * y + x + y) + 1;
  }

  /** The magnitude of a decimal as a whole number times a power of two. */
  lemma WholeForm(v: nat, m: int, s: int, k: nat, f: nat, b: nat)
    requires m != 0 && Denotes(v, m, s, k) && v == f * Pow2(b)
    ensures Whole(m, s)
    ensures if s >= 0 then f * Pow2(b) == Fives(m, s) * Pow2(s + k) else f * Pow2(b - s) == Fives(m, s) * Pow2(k)
  {
    hide Pow, Pow2;
    if s >= 0 {
      TenPower(s);
      Pow2Add(s, k);
      GroupUp(Abs(m), Pow(5, s), Pow2(s), Pow2(k));
    } else {
      var j: nat := -s;
      TenPower(j);
      Pow2Add(b, j);
      var five, two := Pow(5, j), Pow2(j);
      Swapped(f, Pow2(b), two, five);
      FivesAreOdd(j);
      OddDivides(five, f * Pow2(b + j), Abs(m), k);
      FivesAbove(m, s);
      Swapped(Fives(m, s), five, Pow2(k), 1);
      Moved(Fives(m, s), five, Pow2(k));
      Cancel(f * Pow2(b + j), Fives(m, s) * Pow2(k), five);
    }
  }

  lemma Swapped(f: nat, x: nat, two: nat, five: nat)
    ensures f * x * (two * five) == f * (x * two) * five
  {
    assert f * x * (two * five) == f * (x * (two * five)) == f * (x * two * five);
  }

  lemma Moved(p: nat, five: nat, two: nat)
    ensures p * five * two == p * two * five
  {
    assert p * five * two == p * (five * two) == p * (two * five);
  }

  /** A format of at most 53 bits has only decimals whose fives have at most 53 bits without their twos. */
  lemma NumberFits(f: Format, m: int, s: int, k: nat)
    requires ValidFormat(f) && f.precision <= 53 && MinExponent(f) + k >= 0
    requires m != 0 && HasNumber(f, m, s, k)
    ensures Whole(m, s) && Fives(m, s) > 0 && Odd(Fives(m, s)) < TWO_53
  {
    hide Pow, Pow2, Top, Fraction, Scale, Infinity, ValueIn, Denotes, Whole, Fives, TrailingZeros, Shr;
    var v: nat :| Denotes(v, m, s, k) && InFormat(f, v, k);
    var n: nat :| n < Infinity(f) && ValueIn(f, n, k) == v;
    ValueInIs(f, n, k);
    var x, b := Fraction(f, n), Scale(f, n) + (MinExponent(f) + k);
    WholeForm(v, m, s, k, x, b);
    FivesAbove(m, s);
    OddAtMost(Fives(m, s), if s >= 0 then s + k else k, x, if s >= 0 then b else b - s);
    FractionSmall(f, n);
    NextPower(f.precision - 1);
    TopIs(f);
    Pow2Mono(f.precision, 53);
    FiftyPowers();
  }

  lemma OddAtMost(n: nat, a: nat, x: nat, b: nat)
    requires n > 0 && n * Pow2(a) == x * Pow2(b)
    ensures Odd(n) <= x
  {
    hide Pow2, TrailingZeros, Shr;
    OddPart(n);
    var p, tz := Odd(n), TrailingZeros(n);
    Pow2Add(tz, a);
    Regroup(p, Pow2(tz), Pow2(a));
    OddTakesAll(p, tz + a, x, b);
    MulMono(1, Pow2(tz + a - b), p);
  }

  lemma TrailingSmall(n: nat)
    requires 0 < n <= TWO_127
    ensures TrailingZeros(n) <= 127
  {
    hide Pow2, TrailingZeros, Shr;
    OddPart(n);
    var p, tz := Odd(n), TrailingZeros(n);
    MulMono(1, p, Pow2(tz));
    TwoTo127();
    if tz > 127 {
      Pow2Mono(128, tz);
      NextPower(127);
    }
  }

  lemma TwoTo127()
    ensures Pow2(127) == TWO_127
  {
    hide Pow2;
    FiftyPowers();
    Pow2Add(52, 52);
    Pow2Add(104, 8);
    Pow2Is256();
    Pow2Add(112, 8);
    Pow2Add(120, 7);
  }

  lemma Pow2Is256()
    ensures Pow2(7) == 128 && Pow2(8) == 256
  {
    assert Pow2(4) == 16;
  }

  /** The twos in m times 5^s for s >= 0 are those in m. */
  lemma OddOfFives(m: int, s: int)
    requires m != 0 && s >= 0
    ensures Fives(m, s) > 0 && TrailingZeros(Fives(m, s)) == TrailingZeros(Abs(m))
    ensures Odd(Fives(m, s)) == Odd(Abs(m)) * Pow(5, s)
  {
    hide Pow, Pow2, TrailingZeros, Shr;
    FivesAbove(m, s);
    OddPart(Abs(m));
    OddPart(Fives(m, s));
    var p, t := Odd(Abs(m)), TrailingZeros(Abs(m));
    var q, u := Odd(Fives(m, s)), TrailingZeros(Fives(m, s));
    FivesAreOdd(s);
    OddTimesOdd(p, Pow(5, s));
    Moved(p, Pow2(t), Pow(5, s));
    SameOdd(p * Pow(5, s), t, q, u);
  }

  lemma SameOdd(p: nat, t: nat, q: nat, u: nat)
    requires p % 2 == 1 && q % 2 == 1 && p * Pow2(t) == q * Pow2(u)
    ensures p == q && t == u
  {
    hide Pow2;
    OddTakesAll(p, t, q, u);
    OddTakesAll(q, u, p, t);
    ZeroPower();
  }

  /** The number as an odd number of at most 53 bits times a small power of two. */
  lemma SmallForm(m: int, s: int)
    requires -TWO_127 <= m < TWO_127 && m != 0 && Whole(m, s) && Fives(m, s) > 0 && Odd(Fives(m, s)) < TWO_53
    ensures -54 <= s <= 22 && TrailingZeros(Fives(m, s)) <= 127
    ensures var p := Odd(Fives(m, s)); p % 2 == 1 && 1 <= BitLength(p) <= 53
  {
    hide Pow, Pow2, TrailingZeros, Shr, BitLength;
    FivesAbove(m, s);
    OddPart(Fives(m, s));
    FiftyPowers();
    BitLengthAtMost(Odd(Fives(m, s)), 53);
    if s >= 0 {
      OddOfFives(m, s);
      OddPart(Abs(m));
      MulMono(1, Odd(Abs(m)), Pow(5, s));
      FivesSmall(s, Odd(Fives(m, s)));
      TrailingSmall(Abs(m));
    } else {
      FivesSmall(-s, Abs(m));
      TrailingSmall(Fives(m, s));
    }
  }

  /** The odd part and the power of two of the magnitude. */
  lemma OddFormDenotes(m: int, s: int, k: nat)
    requires m != 0 && Whole(m, s) && Fives(m, s) > 0 && s + k >= 0
    ensures var p, e := Odd(Fives(m, s)), TrailingZeros(Fives(m, s)) + s; Denotes(Product(p, Pow2(e + k)), m, s, k)
  {
    hide Pow, Pow2, TrailingZeros, Shr, Denotes, Whole, Fives;
    OddPart(Fives(m, s));
    var p, tz := Odd(Fives(m, s)), TrailingZeros(Fives(m, s));
    DenotesFives(m, s, k);
    Pow2Add(tz, s + k);
    Regroup(p, Pow2(tz), Pow2(s + k));
    assert tz + (s + k) == tz + s + k;
  }

  /** A decimal is a binary64 exactly if m times 5^s is whole and has at most 53 bits without its twos. */
  lemma Binary64Iff(m: int, s: int, k: nat)
    requires -TWO_127 <= m < TWO_127 && m != 0 && k >= 1074
    ensures Whole(m, s) ==> Fives(m, s) > 0
    ensures HasNumber(BINARY64, m, s, k) <==> Whole(m, s) && Odd(Fives(m, s)) < TWO_53
  {
    hide Pow, Pow2, Infinity, ValueIn, Denotes, Fives, Whole, TrailingZeros, Shr, BitLength, OddTo;
    if HasNumber(BINARY64, m, s, k) { NumberFits(BINARY64, m, s, k); }
    if Whole(m, s) {
      FivesAbove(m, s);
      if Odd(Fives(m, s)) < TWO_53 {
        SmallForm(m, s);
        var p, e := Odd(Fives(m, s)), TrailingZeros(Fives(m, s)) + s;
        assert OddTo(BINARY64, p, e).Some? by { Answers64(p, e); }
        OddToIsSound(BINARY64, p, e, k);
        OddFormDenotes(m, s, k);
        assert InFormat(BINARY64, Product(p, Pow2(e + k)), k);
      }
    }
  }

  lemma Answers64(p: nat, e: int)
    requires 1 <= BitLength(p) <= 53 && -54 <= e <= 149
    ensures OddTo(BINARY64, p, e).Some?
  {
    hide Pow2, BitLength, Product, Packed, Top;
  }

  // ---------------------------------------------------------------- what is missed

  /** The bits of m times 5^s are counted with its factors of two. */
  predicate Missed(m: int, s: int) {
    m != 0 && Whole(m, s) && Fives(m, s) >= TWO_53 && Odd(Fives(m, s)) < TWO_53
  }

  /** A binary64 that exists is not found exactly if the factors of two take m times 5^s to 2^53 or
      more. */
  lemma MissedIff(m: int, s: int, k: nat)
    requires -TWO_127 <= m < TWO_127 && k >= 1074
    ensures HasNumber(BINARY64, m, s, k) && DecimalToF64Exact(m, s).None? <==> Missed(m, s)
  {
    hide DecimalToF64Exact, Fives, Whole, Odd, HasNumber;
    if m == 0 {
      ZeroIsFound(s);
    } else {
      FoundIff(m, s);
      Binary64Iff(m, s, k);
      if Whole(m, s) { OddSmaller(Fives(m, s)); }
    }
  }

  lemma ZeroIsFound(s: int)
    ensures DecimalToF64Exact(0, s).Some?
  {
  }

  lemma OddSmaller(n: nat)
    requires n > 0
    ensures Odd(n) <= n
  {
    hide Pow2, TrailingZeros, Shr;
    OddPart(n);
    MulMono(1, Pow2(TrailingZeros(n)), Odd(n));
  }

  /** Of what a decimal fraction in canonical form is made of, nothing is missed. */
  lemma FractionsAreFound(m: int, s: int, k: nat)
    requires -TWO_127 <= m < TWO_127 && k >= 1074 && s < 0 && m % 10 != 0
    ensures !Missed(m, s)
    ensures DecimalToF64Exact(m, s).Some? <==> HasNumber(BINARY64, m, s, k)
  {
    hide DecimalToF64Exact, HasNumber, Odd;
    MissedIff(m, s, k);
    if Whole(m, s) {
      FractionIsOdd(m, s);
      OddOfOdd(Fives(m, s));
    }
    if DecimalToF64Exact(m, s).Some? {
      FoundIff(m, s);
      OddOfOdd(Fives(m, s));
      Binary64Iff(m, s, k);
    }
  }

  lemma FractionIsOdd(m: int, s: int)
    requires s < 0 && m % 10 != 0 && Whole(m, s)
    ensures Fives(m, s) % 2 == 1
  {
    FivesAbove(m, s);
    var p, five := Fives(m, s), Pow(5, -s - 1);
    assert Abs(m) == p * (5 * five);
    FiveOut(p, five);
    if p % 2 == 0 {
      Tens(p / 2, five);
      MultipleOfTen(m, p / 2 * five);
    }
  }

  lemma Tens(h: nat, five: nat)
    ensures 5 * (2 * h) * five == 10 * (h * five)
  {
  }

  lemma MultipleOfTen(m: int, q: nat)
    requires Abs(m) == 10 * q
    ensures m % 10 == 0
  {
  }

  lemma OddOfOdd(n: nat)
    requires n % 2 == 1
    ensures n > 0 && Odd(n) == n
  {
    assert TrailingZeros(n) == 0;
    assert Pow2(0) == 1;
  }

  // ---------------------------------------------------------------- the shortest form

  /** The least width that has the number. */
  function LeastWidth(m: int, s: int): nat
    requires m != 0 && Whole(m, s) && Fives(m, s) > 0
  {
    var p, e := Odd(Fives(m, s)), TrailingZeros(Fives(m, s)) + s;
    if OddTo(BINARY16, p, e).Some? then 1 else if OddTo(BINARY32, p, e).Some? then 2 else 3
  }

  /** r is a floating-point number of at most 8 bytes with the sign and value of m times 10^s. */
  ghost predicate IsFloat(r: Sized, m: int, s: int, k: nat)
    requires k >= 1074
  {
    1 <= r.width <= 3 && exists v: nat :: Denotes(v, m, s, k) && Keeps(r, m < 0, v, k)
  }

  /** The choice is encoded in no more bytes than any floating-point number of the value. */
  ghost predicate Shortest(hash: seq<byte> -> byte, m: int, s: int, k: nat)
    requires k >= 1074
  {
    forall r: Sized | IsFloat(r, m, s, k) :: NoLonger(hash, Pick(m, s), Float(r.width, r.bits))
  }

  lemma Encodable(hash: seq<byte> -> byte, m: int, s: int)
    requires -TWO_127 <= m < TWO_127 && -54 <= s <= 22
    ensures Encode(hash, Decimal(m, s)).Some?
  {
    hide MinimalLe;
    ZigzagIs(m, TWO_128);
    MinimalFits(ZigzagEncode(m, TWO_128));
    VaruintRoundTrip(ZigzagEncode(s, U32_LIMIT), []);
  }

  lemma FloatIsNumber(r: Sized, m: int, s: int, k: nat)
    requires k >= 1074 && IsFloat(r, m, s, k)
    ensures HasNumber(FormatOf(r.width), m, s, k)
  {
    hide Denotes, Keeps, InFormat, FormatOf;
    var v: nat :| Denotes(v, m, s, k) && Keeps(r, m < 0, v, k);
    KeptIsThere(r, m < 0, v, k);
  }

  /** No floating-point number is narrower than the least width, and one has it. */
  lemma LeastWidthIs(r: Sized, m: int, s: int, k: nat)
    requires -TWO_127 <= m < TWO_127 && m != 0 && k >= 1074 && IsFloat(r, m, s, k)
    ensures Whole(m, s) && Fives(m, s) > 0 && LeastWidth(m, s) <= r.width
  {
    hide Pow2, Denotes, Fives, Whole, TrailingZeros, Shr, BitLength, OddTo, InFormat, ValueIn, Infinity, IsFloat, FormatOf;
    IsWide(r, m, s, k);
    FloatIsNumber(r, m, s, k);
    Precisions(r.width);
    NumberFits(FormatOf(r.width), m, s, k);
    SmallForm(m, s);
    OddFormDenotes(m, s, k);
    var p, e := Odd(Fives(m, s)), TrailingZeros(Fives(m, s)) + s;
    var v: nat :| Denotes(v, m, s, k) && InFormat(FormatOf(r.width), v, k);
    DenotesOne(v, Product(p, Pow2(e + k)), m, s, k);
    FoundInFormat(FormatOf(r.width), p, e, k, v);
    WidthIs(r);
  }

  lemma WidthIs(r: Sized)
    ensures FormatOf(r.width) == if r.width == 1 then BINARY16 else if r.width == 2 then BINARY32 else BINARY64
  {
  }

  lemma Precisions(w: nat)
    ensures FormatOf(w).precision <= 53 && MinExponent(FormatOf(w)) >= -1074
  {
  }

  lemma FoundInFormat(f: Format, p: nat, e: int, k: nat, v: nat)
    requires ValidFormat(f) && MinExponent(f) + k >= 0 && p % 2 == 1 && e + k >= 0
    requires InFormat(f, v, k) && v == p * Pow2(e + k)
    ensures OddTo(f, p, e).Some?
  {
    hide OddTo, ValueIn, Infinity, Pow2;
    var n: nat :| n < Infinity(f) && ValueIn(f, n, k) == v;
    OddToIsComplete(f, p, e, k, n);
  }

  lemma LeastFloat(m: int, s: int, k: nat) returns (r: Sized)
    requires -TWO_127 <= m < TWO_127 && k >= 1074 && m != 0
    requires Whole(m, s) && Fives(m, s) > 0 && Odd(Fives(m, s)) < TWO_53
    ensures IsFloat(r, m, s, k) && r.width == LeastWidth(m, s)
  {
    hide Pow2, Denotes, Fives, Whole, TrailingZeros, Shr, BitLength, OddTo, ValueIn, Infinity, Keeps, SignBit;
    SmallForm(m, s);
    OddFormDenotes(m, s, k);
    var p, e := Odd(Fives(m, s)), TrailingZeros(Fives(m, s)) + s;
    Answers64(p, e);
    var w := LeastWidth(m, s);
    OddToIsSound(FormatOf(w), p, e, k);
    KeepsIt(w, m < 0, OddTo(FormatOf(w), p, e).value, Product(p, Pow2(e + k)), k);
    r := WithSign(w, m < 0, OddTo(FormatOf(w), p, e).value);
  }

  lemma ZeroIsShort(hash: seq<byte> -> byte, s: int, k: nat)
    requires k >= 1074
    ensures Shortest(hash, 0, s, k)
  {
    hide IsFloat, Encode;
    forall r: Sized | IsFloat(r, 0, s, k) ensures NoLonger(hash, Pick(0, s), Float(r.width, r.bits)) {
      IsWide(r, 0, s, k);
      PickZero(s);
      FloatSizeIs(hash, 1, 0);
      FloatSizeIs(hash, r.width, r.bits);
      WidthsOrdered(1, r.width);
    }
  }

  lemma IsWide(r: Sized, m: int, s: int, k: nat)
    requires k >= 1074 && IsFloat(r, m, s, k)
    ensures 1 <= r.width <= 3
  {
  }

  lemma PickZero(s: int)
    ensures Pick(0, s) == Float(1, 0)
  {
    ByteOfZero();
    ZeroZigzag();
    assert Pow2(1) == 2;
    if VaruintSize(ZigzagEncode(s, U32_LIMIT)) == 0 {}
  }

  lemma ZeroZigzag()
    ensures ZigzagEncode(0, TWO_128) == 0
  {
  }

  lemma FoundIsShortest(hash: seq<byte> -> byte, m: int, s: int, k: nat)
    requires -TWO_127 <= m < TWO_127 && k >= 1074 && m != 0 && DecimalToF64Exact(m, s).Some?
    ensures Shortest(hash, m, s, k)
  {
    hide DecimalToF64Exact, Pick, Denotes, Keeps, ValueIn, Encode, Whole, Fives;
    FoundIff(m, s);
    Encodable(hash, m, s);
    ShortestWhenFound(hash, m, s, k);
    AnswerIsExact(m, s, k);
    var v := ValueIn(BINARY64, DecimalToF64Exact(m, s).value.bits, k);
    forall r: Sized | IsFloat(r, m, s, k) ensures NoLonger(hash, Pick(m, s), Float(r.width, r.bits)) {
      var x: nat :| Denotes(x, m, s, k) && Keeps(r, m < 0, x, k);
      DenotesOne(x, v, m, s, k);
    }
  }

  /** The choice is no longer than the decimal. It is no longer than any floating-point number of the
      value, unless one is missed that is shorter than the decimal. */
  lemma PickIsShortest(hash: seq<byte> -> byte, m: int, s: int, k: nat)
    requires -TWO_127 <= m < TWO_127 && k >= 1074
    ensures NoLonger(hash, Pick(m, s), Decimal(m, s))
    ensures Missed(m, s) ==> Fives(m, s) > 0
    ensures Shortest(hash, m, s, k) <==> !(Missed(m, s) && FloatSize(LeastWidth(m, s)) < DecimalSize(m, s))
  {
    hide DecimalToF64Exact, Pick, Denotes, Keeps, ValueIn, Encode, Whole, Fives, Odd, LeastWidth, FloatSize, DecimalSize,
         NoLonger, HasNumber, IsFloat;
    ShortestWhenFound(hash, m, s, k);
    MissedIff(m, s, k);
    if m == 0 {
      ZeroIsShort(hash, s, k);
    } else if DecimalToF64Exact(m, s).Some? {
      FoundIsShortest(hash, m, s, k);
    } else if Missed(m, s) {
      MissedShortest(hash, m, s, k);
    } else {
      NoFloats(m, s, k);
    }
  }

  /** What no binary64 has no narrower number has either. */
  lemma NoFloats(m: int, s: int, k: nat)
    requires -TWO_127 <= m < TWO_127 && k >= 1074 && m != 0 && !HasNumber(BINARY64, m, s, k)
    ensures forall r: Sized :: !IsFloat(r, m, s, k)
  {
    hide HasNumber, IsFloat, Whole, Fives, Odd;
    Binary64Iff(m, s, k);
    forall r: Sized ensures !IsFloat(r, m, s, k) {
      if IsFloat(r, m, s, k) {
        FloatIsNumber(r, m, s, k);
        Precisions(r.width);
        NumberFits(FormatOf(r.width), m, s, k);
      }
    }
  }

  lemma MissedShortest(hash: seq<byte> -> byte, m: int, s: int, k: nat)
    requires -TWO_127 <= m < TWO_127 && k >= 1074 && Missed(m, s) && DecimalToF64Exact(m, s).None?
    ensures Fives(m, s) > 0
    ensures Shortest(hash, m, s, k) <==> DecimalSize(m, s) <= FloatSize(LeastWidth(m, s))
  {
    hide DecimalToF64Exact, Denotes, Keeps, ValueIn, Encode, Whole, Fives, Odd, LeastWidth, FloatSize, DecimalSize, IsFloat;
    assert Fives(m, s) > 0;
    SmallForm(m, s);
    Encodable(hash, m, s);
    DecimalSizeIs(hash, m, s);
    var least := LeastFloat(m, s, k);
    IsWide(least, m, s, k);
    FloatSizeIs(hash, least.width, least.bits);
    if DecimalSize(m, s) <= FloatSize(LeastWidth(m, s)) {
      forall r: Sized | IsFloat(r, m, s, k) ensures NoLonger(hash, Pick(m, s), Float(r.width, r.bits)) {
        IsWide(r, m, s, k);
        LeastWidthIs(r, m, s, k);
        WidthsOrdered(LeastWidth(m, s), r.width);
        FloatSizeIs(hash, r.width, r.bits);
      }
    }
    if Shortest(hash, m, s, k) {
      assert NoLonger(hash, Pick(m, s), Float(least.width, least.bits));
    }
  }

  // ---------------------------------------------------------------- a number that is missed

  /** 2^60 with scale 0: a binary32 of 5 bytes has it, and the decimal of 10 bytes is chosen. */
  lemma PowerIsMissed(hash: seq<byte> -> byte, k: nat)
    requires k >= 1074
    ensures DecimalToF64Exact(TWO_60, 0) == None && HasNumber(BINARY64, TWO_60, 0, k)
    ensures Pick(TWO_60, 0) == Decimal(TWO_60, 0) && DecimalSize(TWO_60, 0) == 10
    ensures !Shortest(hash, TWO_60, 0, k)
  {
    hide DecimalToF64Exact, HasNumber, Shortest, IsFloat, Encode, BitLength, TrailingZeros, Shr;
    PowerOfTwo();
    MissedIff(TWO_60, 0, k);
    PowerSizes();
    PickIsShortest(hash, TWO_60, 0, k);
  }

  lemma PowerOfTwo()
    ensures Fives(TWO_60, 0) == TWO_60 && TrailingZeros(TWO_60) == 60 && Odd(TWO_60) == 1 && Missed(TWO_60, 0)
  {
    hide TrailingZeros, Shr, Pow2;
    TwoTo(60, TWO_60);
    OddPart(TWO_60);
    SameOdd(1, 60, Odd(TWO_60), TrailingZeros(TWO_60));
  }

  lemma PowerSizes()
    requires Fives(TWO_60, 0) == TWO_60 && TrailingZeros(TWO_60) == 60 && Odd(TWO_60) == 1
    ensures DecimalSize(TWO_60, 0) == 10 && LeastWidth(TWO_60, 0) == 2 && FloatSize(2) == 5
  {
    hide TrailingZeros, Shr, Pow2, BitLength, Odd, Fives;
    TwoTo(60, TWO_60);
    NextPower(60);
    NextPower(61);
    var zz := 2 * TWO_60;
    BitLengthBounds(zz);
    Pow2Strict(BitLength(zz) - 1, 62);
    if BitLength(zz) <= 61 { Pow2Mono(BitLength(zz), 61); }
    BitLengthOfOne();
    SmallPower();
  }

  lemma BitLengthOfOne()
    ensures BitLength(1) == 1
  {
  }

  lemma SmallPower()
    ensures Pow2(2) == 4
  {
  }
}
