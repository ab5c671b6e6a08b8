/** Which form of a decimal number wins: the decimal only when it is strictly the shortest
    (cpp/conformance/pjson_conformance_driver.cpp, lines 2189-2217 and 2627-2632). */
module DecimalChoice {
  import opened ByteStrings
  import opened DecimalFound
  import opened DecimalPick
  import opened ExactNarrow
  import opened FloatFormats
  import opened FloatWiden
  import opened FloatWidths
  import NumberText
  import opened Pjson
  import opened PjsonNumbers
  import opened Powers
  import opened Wrappers

  /** a can be encoded, and in fewer bytes than b. */
  predicate Shorter(hash: seq<byte> -> byte, a: Value, b: Value) {
    && Encode(hash, a).Some?
    && (Encode(hash, b).Some? ==> |Encode(hash, a).value| < |Encode(hash, b).value|)
  }

  /** The decimal is shorter than every floating-point number of its sign and value. */
  ghost predicate DecimalWins(hash: seq<byte> -> byte, m: int, s: int, k: nat)
    requires k >= 1074
  {
    forall r: Sized | IsFloat(r, m, s, k) :: Shorter(hash, Decimal(m, s), Float(r.width, r.bits))
  }

  lemma ZeroIsFloat(s: int, k: nat)
    requires k >= 1074
    ensures IsFloat(Sized(1, 0), 0, s, k)
  {
    hide Keeps, Narrowest, Pow, Pow2;
    ZeroIsNarrowest(false, k);
    var v: nat := 0;
    assert Denotes(v, 0, s, k);
  }

  /** A zero is always the floating-point one, for its decimal has three bytes or more. */
  lemma ZeroLoses(hash: seq<byte> -> byte, s: int, k: nat)
    requires k >= 1074
    ensures !Pick(0, s).Decimal? && !DecimalWins(hash, 0, s, k)
  {
    hide IsFloat, Encode, Pick;
    PickZero(s);
    ZeroIsFloat(s, k);
    FloatSizeIs(hash, 1, 0);
    if Shorter(hash, Decimal(0, s), Float(1, 0)) {
      DecimalSizeIs(hash, 0, s);
      ZeroSize(s);
    }
  }

  lemma ZeroSize(s: int)
    ensures DecimalSize(0, s) >= FloatSize(1)
  {
    ByteOfZero();
    ZeroZigzag();
    assert Pow2(1) == 2;
  }

  /** The float found for a decimal is among those it is compared with, and is no wider than any. */
  lemma FoundFloat(m: int, s: int, k: nat) returns (narrow: Sized)
    requires -TWO_127 <= m < TWO_127 && k >= 1074 && m != 0 && DecimalToF64Exact(m, s).Some?
    ensures narrow == NarrowF64(DecimalToF64Exact(m, s).value) && IsFloat(narrow, m, s, k)
    ensures forall r: Sized | IsFloat(r, m, s, k) :: narrow.width <= r.width
  {
    hide DecimalToF64Exact, NarrowF64, Denotes, Keeps, Narrowest, ValueIn;
    AnswerIsExact(m, s, k);
    var f := DecimalToF64Exact(m, s).value;
    var v := ValueIn(BINARY64, f.bits, k);
    NarrowF64IsNarrowest(f, k);
    narrow := NarrowF64(f);
    WidthOf(narrow, v, k);
    forall r: Sized | IsFloat(r, m, s, k) ensures narrow.width <= r.width {
      var x: nat :| Denotes(x, m, s, k) && Keeps(r, m < 0, x, k);
      DenotesOne(x, v, m, s, k);
      NarrowestIsLeast(narrow, r, m < 0, v, k);
    }
  }

  lemma FoundChoice(hash: seq<byte> -> byte, m: int, s: int, k: nat)
    requires -TWO_127 <= m < TWO_127 && k >= 1074 && m != 0 && DecimalToF64Exact(m, s).Some?
    ensures Pick(m, s).Decimal? <==> DecimalWins(hash, m, s, k)
  {
    hide DecimalToF64Exact, NarrowF64, IsFloat, Encode, DecimalSize, FloatSize, Whole, Fives;
    FoundIff(m, s);
    Encodable(hash, m, s);
    DecimalSizeIs(hash, m, s);
    var narrow := FoundFloat(m, s, k);
    IsWide(narrow, m, s, k);
    FloatSizeIs(hash, narrow.width, narrow.bits);
    if Pick(m, s).Decimal? {
      forall r: Sized | IsFloat(r, m, s, k) ensures Shorter(hash, Decimal(m, s), Float(r.width, r.bits)) {
        IsWide(r, m, s, k);
        FloatSizeIs(hash, r.width, r.bits);
        WidthsOrdered(narrow.width, r.width);
      }
    }
    if DecimalWins(hash, m, s, k) {
      assert Shorter(hash, Decimal(m, s), Float(narrow.width, narrow.bits));
    }
  }

  /** The decimal is chosen exactly when it is strictly shorter than every floating-point number of
      the value, or the number is one that is missed; a tie goes to the floating-point number. */
  lemma ChoiceIff(hash: seq<byte> -> byte, m: int, s: int, k: nat)
    requires -TWO_127 <= m < TWO_127 && k >= 1074
    ensures Pick(m, s).Decimal? <==> Missed(m, s) || DecimalWins(hash, m, s, k)
  {
    hide DecimalToF64Exact, HasNumber, IsFloat, Missed, Shorter, DecimalSize, FloatSize, NarrowF64;
    MissedIff(m, s, k);
    if m == 0 {
      ZeroLoses(hash, s, k);
      ZeroIsFound(s);
    } else if DecimalToF64Exact(m, s).Some? {
      FoundChoice(hash, m, s, k);
    } else if !Missed(m, s) {
      NoFloats(m, s, k);
    }
  }

  // ---------------------------------------------------------------- a tie

  /** 1.5 is the binary16 0x3E00. */
  lemma OneAndAHalf(k: nat) returns (v: nat)
    requires k >= 1074
    ensures Denotes(v, 15, -1, k) && Keeps(Sized(1, 0x3E00), false, v, k)
  {
    hide Pow2, ValueIn, Keeps, Infinity;
    TopOf16();
    Value16In(0x3E00, k);
    v := 0x600 * Pow2(k - 10);
    KeepsIt(1, false, 0x3E00, v, k);
    TwoToTen();
    Pow2Add(10, k - 10);
    assert Pow(10, 1) == 10 by { PowOne(); }
  }

  lemma PowOne()
    ensures Pow(10, 1) == 10
  {
  }

  lemma SizeOfFifteen()
    ensures DecimalSize(15, -1) == 3 && FloatSize(1) == 3
  {
    assert ZigzagEncode(15, TWO_128) == 30;
    assert Pow2(1) == 2 && Pow2(4) == 16 && Pow2(5) == 32;
    BitLengthBounds(30);
  }

  /** A number kept at width 1 without a sign is the one of its value. */
  lemma KeptAtOne(bits: nat, other: nat, v: nat, k: nat)
    requires k >= 1074 && Keeps(Sized(1, bits), false, v, k) && Keeps(Sized(1, other), false, v, k)
    ensures bits == other
  {
    hide ValueIn, Infinity;
    SameValue(BINARY16, bits, other, k);
  }

  /** The decimal 15 * 10^-1 of three bytes and the binary16 of three bytes tie. */
  lemma TieGoesToFloat(hash: seq<byte> -> byte)
    ensures Pick(15, -1) == Float(1, 0x3E00) && Encode(hash, Pick(15, -1)) == Some([0x61, 0x00, 0x3E])
  {
    hide *;
    var v := OneAndAHalf(1074);
    TieIsNoDecimal(hash, v, 1074);
    TieIsTheFloat(v, 1074);
    WireOfTie(hash);
  }

  lemma TieIsNoDecimal(hash: seq<byte> -> byte, v: nat, k: nat)
    requires k >= 1074 && Denotes(v, 15, -1, k) && Keeps(Sized(1, 0x3E00), false, v, k)
    ensures !Pick(15, -1).Decimal?
  {
    hide Pick, Denotes, Keeps, DecimalSize, FloatSize, Missed, Encode;
    assert IsFloat(Sized(1, 0x3E00), 15, -1, k);
    SizeOfFifteen();
    if Shorter(hash, Decimal(15, -1), Float(1, 0x3E00)) {
      DecimalSizeIs(hash, 15, -1);
      FloatSizeIs(hash, 1, 0x3E00);
    }
    FractionsAreFound(15, -1, k);
    ChoiceIff(hash, 15, -1, k);
  }

  lemma TieIsTheFloat(v: nat, k: nat)
    requires k >= 1074 && Denotes(v, 15, -1, k) && Keeps(Sized(1, 0x3E00), false, v, k) && !Pick(15, -1).Decimal?
    ensures Pick(15, -1) == Float(1, 0x3E00)
  {
    hide Pick, Denotes, Keeps, Narrowest;
    var x := PickIsExact(15, -1, k);
    DenotesOne(x, v, 15, -1, k);
    var r := Sized(Pick(15, -1).width, Pick(15, -1).bits);
    NarrowestIsLeast(r, Sized(1, 0x3E00), false, v, k);
    WidthOf(r, v, k);
    KeptAtOne(r.bits, 0x3E00, v, k);
  }

  lemma WireOfTie(hash: seq<byte> -> byte)
    ensures Encode(hash, Float(1, 0x3E00)) == Some([0x61, 0x00, 0x3E])
  {
    assert !IsNaN(1, 0x3E00);
    assert Le(0x3E, 1) == [0x3E];
    assert Le(0x3E00, 2) == [0x00] + Le(0x3E, 1) == [0x00, 0x3E];
    assert EncodeFloat(1, 0x3E00) == Some([0x61] + Le(0x3E00, 2));
    assert [0x61] + [0x00, 0x3E] == [0x61, 0x00, 0x3E];
  }

  // ---------------------------------------------------------------- what the only caller passes

  lemma LastDigit(n: NumberText.Number)
    requires NumberText.IsCanonical(n) && n.frac != ""
    ensures NumberText.Magnitude(n) % 10 != 0
  {
    var all := n.whole + n.frac;
    assert all[|all| - 1] == n.frac[|n.frac| - 1];
  }

  /** A canonical text with a fraction that fits becomes the shortest of its decimal and all
      floating-point numbers of its value, and the decimal only if that is strictly shorter. */
  lemma TextFractionIsShortest(hash: seq<byte> -> byte, n: NumberText.Number, k: nat)
    requires NumberText.IsCanonical(n) && n.frac != "" && NumberText.Fits(n) && k >= 1074
    ensures NumberText.Build(n) == Decimal(NumberText.SignedMagnitude(n), -|n.frac|)
    ensures var m, s := NumberText.SignedMagnitude(n), -|n.frac|;
            && (DecimalToF64Exact(m, s).Some? <==> HasNumber(BINARY64, m, s, k))
            && NoLonger(hash, Pick(m, s), Decimal(m, s)) && Shortest(hash, m, s, k)
            && (Pick(m, s).Decimal? <==> DecimalWins(hash, m, s, k))
  {
    hide NumberText.Magnitude, DecimalToF64Exact, HasNumber, Pick, NoLonger, Shortest, Missed, LeastWidth, Fives,
         DecimalSize, FloatSize, DecimalWins;
    LastDigit(n);
    var m, s := NumberText.SignedMagnitude(n), -|n.frac|;
    FractionsAreFound(m, s, k);
    PickIsShortest(hash, m, s, k);
    ChoiceIff(hash, m, s, k);
  }
}
