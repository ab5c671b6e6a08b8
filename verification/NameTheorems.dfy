/** Main results about the name coder: exactly which names survive, and why a code is never a hash. */
module NameTheorems {
  import opened Powers
  import opened NameTables
  import opened NameCoder
  import opened NameRoundTrip
  import opened NameCodes

  // ---------------------------------------------------------------- marker safety

  lemma MarkerPlace()
    ensures Pow2(BitPlace(63)) == MARKER
  {
    assert Pow2(8) == 0x100;
    Pow2Add(8, 8);
    Pow2Add(16, 16);
    Pow2Add(32, 16);
    Pow2Add(48, 8);
  }

  /** The mark of a hash name is the 64th bit of the stream. */
  lemma MarkerIsLastBit(x: nat)
    ensures IsHashName(x) <==> StreamBit(x, CODE_LIMIT - 1)
  {
    MarkerPlace();
  }

  /** A compressed code never carries the mark of a hash name. */
  lemma CompressedIsNotHash(cf: seq<seq<nat>>, s: seq<int>)
    requires ValidTable(cf)
    ensures !IsHashName(CompressedCode(cf, s))
  {
    MarkerIsLastBit(Packed(FirstBits(NameBits(cf, s))));
    ReadBack(NameBits(cf, s));
    MarkerIsLastBit(0);
    NoBits(CODE_LIMIT - 1);
  }

  /** `isHashName` of the result tells whether the coder gave up. */
  lemma HashNameIffGivenUp(cf: seq<seq<nat>>, hash: seq<int> -> nat, s: seq<int>)
    requires ValidTable(cf) && s != [] && Compressible(s)
    ensures NameCode(cf, hash, s).Number?
    ensures IsHashName(NameCode(cf, hash, s).value) <==> CompressedCode(cf, s) == 0
  {
    hide IsHashName, CompressedCode, Marked, ValidTable;
    CompressedIsNotHash(cf, s);
    assert s[0] != HASH_SIGN;
    if CompressedCode(cf, s) == 0 { MarkedIsHash(hash(s)); }
  }

  /** Between symbols the interval spreads over the middle and more than a quarter of the
      range, so every symbol of positive width keeps a non-empty sub-interval. */
  lemma SettledSpreads(e: Coder, row: seq<nat>, c: Symbol)
    requires Settled(e) && |e.bits| < CODE_LIMIT && ValidRow(row)
    ensures e.low < ONE_HALF <= e.high && e.high - e.low + 1 > ONE_FOURTH
    ensures row[c] < row[c + 1] <==> Narrow(e, row, c).low <= Narrow(e, row, c).high
  {
    if row[c] < row[c + 1] {
      NarrowRegular(e, row, c);
    } else {
      assert row[c] == row[c + 1];
    }
  }

  // ---------------------------------------------------------------- which names survive

  predicate LowerCase(s: seq<int>) {
    forall i :: 0 <= i < |s| ==> 97 <= s[i] <= 122
  }

  /** The letters all have room, none is left over when 64 bits are out, the decoder's input lasts
      until the last one, and the final interval can be closed within the bits stored. */
  predicate Survives(cf: seq<seq<nat>>, s: seq<int>)
    requires ValidTable(cf)
  {
    && Positive(cf, 0, Symbols(s))
    && EncoderRun(cf, s).rest == []
    && ShiftsBeforeLast(cf, 0, START, Symbols(s)) < SHIFT_LIMIT
    && Fits(EncoderRun(cf, s).coder)
  }

  lemma {:induction false} PositiveToEnd(cf: seq<seq<nat>>, ctx: Symbol, syms: seq<Symbol>)
    requires ValidTable(cf) && Positive(cf, ctx, syms) && 0 !in syms && (syms == [] ==> ctx != 0)
    ensures Positive(cf, ctx, syms + [0])
    decreases |syms|
  {
    if syms == [] {
      assert syms + [0] == [0] && [0][1..] == [];
    } else {
      PositiveToEnd(cf, syms[0], syms[1..]);
      assert (syms + [0])[1..] == syms[1..] + [0];
    }
  }

  /** The decoder only ever takes transitions of positive width. */
  lemma {:induction false} DecodedIsPositive(cf: seq<seq<nat>>, x: nat, ctx: Symbol, w: Window)
    requires ValidTable(cf) && Ready(w)
    ensures Positive(cf, ctx, DecodeSymbols(cf, x, ctx, w))
    decreases SHIFT_LIMIT - w.used, if ctx == 0 then 1 else 0, w.high - w.low
  {
    if w.used < SHIFT_LIMIT {
      var c := NextSymbol(cf, ctx, w);
      if c != 0 {
        var z := Zoom(w, cf[ctx], c);
        if ctx != 0 { ZoomShrinks(w, cf[ctx], c); ZoomWithin(w, cf[ctx], c); }
        DecodedIsPositive(cf, x, c, Settle(x, z));
      }
    }
  }

  lemma SymbolsOfLetters(syms: seq<Symbol>)
    requires 0 !in syms
    ensures Symbols(Letters(syms)) == syms
    ensures LowerCase(Letters(syms))
  {
    LettersAndSymbols();
    forall i | 0 <= i < |syms| ensures Symbols(Letters(syms))[i] == syms[i] {
      assert syms[i] in syms;
    }
  }

  lemma LettersOfSymbols(s: seq<int>)
    requires LowerCase(s)
    ensures Letters(Symbols(s)) == s && Compressible(s)
  {
    LettersAndSymbols();
  }

  lemma StartFacts(x: nat)
    ensures Settled(START) && Tracking(x, START) == FirstWindow(x) && Ready(Tracking(x, START))
  {
    assert Num([]) == 0 && Pow2(0) == 1;
    assert Base(START) == 0;
  }

  /** The final interval fits exactly when the code is kept and lies inside it. */
  lemma FitsIffFollowed(cf: seq<seq<nat>>, s: seq<int>)
    requires ValidTable(cf) && s != [] && Compressible(s) && Positive(cf, 0, Symbols(s))
    requires EncoderRun(cf, s).rest == []
    ensures Fits(EncoderRun(cf, s).coder) <==>
            var x := CompressedCode(cf, s); x != 0 && Point(x, EncoderRun(cf, s).coder) >= EncoderRun(cf, s).coder.low
  {
    hide Fits, Settled, Positive, Packed, CodeSymbols, Closed, FirstBits;
    PositiveToEnd(cf, 0, Symbols(s));
    StartFacts(0);
    FinalSettled(cf, 0, START, Symbols(s) + [0]);
    KeptIffFits(EncoderRun(cf, s).coder);
  }

  /** Decoding a kept code gives the name's symbols exactly when the name survives. */
  lemma DecodesToSymbols(cf: seq<seq<nat>>, s: seq<int>)
    requires ValidTable(cf) && s != [] && Compressible(s) && CompressedCode(cf, s) != 0
    ensures var x := CompressedCode(cf, s);
            DecodeSymbols(cf, x, 0, FirstWindow(x)) == Symbols(s) <==> Survives(cf, s)
  {
    hide Fits, Packed, Closed, FirstBits, CodeSymbols, DecodeSymbols, Settled, Positive;
    var x, syms := CompressedCode(cf, s), Symbols(s);
    StartFacts(x);
    assert 0 !in syms;
    if Positive(cf, 0, syms) {
      PositiveToEnd(cf, 0, syms);
      FinalSettled(cf, 0, START, syms + [0]);
      CodeNotAbove(EncoderRun(cf, s).coder);
      DecodeTracks(cf, x, 0, START, syms);
      FitsIffFollowed(cf, s);
    } else {
      DecodedIsPositive(cf, x, 0, FirstWindow(x));
    }
  }

  /** A survivor's code is kept. */
  lemma SurvivorsAreKept(cf: seq<seq<nat>>, s: seq<int>)
    requires ValidTable(cf) && s != [] && Compressible(s) && Survives(cf, s)
    ensures CompressedCode(cf, s) != 0
  {
    FitsIffFollowed(cf, s);
  }

  lemma {:induction false} FinalSettled(cf: seq<seq<nat>>, ctx: Symbol, e: Coder, syms: seq<Symbol>)
    requires ValidTable(cf) && Settled(e) && Positive(cf, ctx, syms)
    ensures Settled(CodeSymbols(cf, ctx, e, syms).coder)
    ensures CodeSymbols(cf, ctx, e, syms).rest != [] ==> |CodeSymbols(cf, ctx, e, syms).coder.bits| >= CODE_LIMIT
    decreases |syms|
  {
    if syms != [] && |e.bits| < CODE_LIMIT {
      NextSettled(cf, ctx, e, syms[0]);
      FinalSettled(cf, syms[0], Next(cf, ctx, e, syms[0]), syms[1..]);
    }
  }

  lemma CodeDecodes(cf: seq<seq<nat>>, s: seq<int>)
    requires ValidTable(cf) && s != [] && Compressible(s) && CompressedCode(cf, s) != 0
    ensures NameOf(cf, CompressedCode(cf, s)) == s <==> LowerCase(s) && Survives(cf, s)
  {
    var x := CompressedCode(cf, s);
    CompressedIsNotHash(cf, s);
    DecodesToSymbols(cf, s);
    SymbolsOfLetters(DecodeSymbols(cf, x, 0, FirstWindow(x)));
    if LowerCase(s) { LettersOfSymbols(s); }
  }

  lemma MarkedIsHash(h: nat)
    ensures IsHashName(Marked(h)) && Marked(h) != 0
  {
    AddMultiple(h, MARKER, 1);
  }

  lemma HashNameStartsWithSign(cf: seq<seq<nat>>, x: nat)
    requires ValidTable(cf) && IsHashName(x)
    ensures NameOf(cf, x) == [HASH_SIGN] + NibbleLetters(x, NIBBLES)
  {
  }

  /** MAIN RESULT. For every name the coder takes up, `numberToName` undoes `nameToNumber`
      exactly when the name is in lower-case letters and survives. */
  lemma RoundTripExactly(cf: seq<seq<nat>>, hash: seq<int> -> nat, s: seq<int>)
    requires ValidTable(cf) && s != [] && Compressible(s)
    ensures NameOf(cf, NameCode(cf, hash, s).value) == s <==> LowerCase(s) && Survives(cf, s)
  {
    assert s[0] != HASH_SIGN by { assert SymbolOf(s[0]) != 0; }
    if CompressedCode(cf, s) != 0 {
      CodeDecodes(cf, s);
    } else {
      if Survives(cf, s) { SurvivorsAreKept(cf, s); }
      MarkedIsHash(hash(s));
      HashNameStartsWithSign(cf, Marked(hash(s)));
    }
  }

  /** A lower-case name whose letters all have room survives if it takes at most 63 bits,
      closing bits included. */
  lemma ShortNamesSurvive(cf: seq<seq<nat>>, hash: seq<int> -> nat, s: seq<int>)
    requires ValidTable(cf) && s != [] && LowerCase(s)
    requires Positive(cf, 0, Symbols(s)) && |NameBits(cf, s)| < CODE_LIMIT
    ensures NameOf(cf, NameCode(cf, hash, s).value) == s
    ensures !IsHashName(NameCode(cf, hash, s).value)
  {
    hide Pow2, Num, Packed, FirstBits;
    var syms := Symbols(s);
    LettersOfSymbols(s);
    assert 0 !in syms;
    PositiveToEnd(cf, 0, syms);
    StartFacts(0);
    FinalSettled(cf, 0, START, syms + [0]);
    var f := EncoderRun(cf, s).coder;
    ClosedBits(f);
    ShiftsGrowToEnd(cf, 0, START, syms);
    SurvivorsAreKept(cf, s);
    CompressedIsNotHash(cf, s);
    RoundTripExactly(cf, hash, s);
  }

  lemma {:induction false} ShiftsGrowToEnd(cf: seq<seq<nat>>, ctx: Symbol, e: Coder, syms: seq<Symbol>)
    requires ValidTable(cf) && Settled(e) && Positive(cf, ctx, syms + [0])
    requires Final(cf, ctx, e, syms).rest == []
    ensures ShiftsBeforeLast(cf, ctx, e, syms) <= Shifts(Final(cf, ctx, e, syms).coder)
    decreases |syms|
  {
    FinalStep(cf, ctx, e, syms);
    if |syms| > 1 {
      NextSettled(cf, ctx, e, syms[0]);
      ShiftsGrowToEnd(cf, syms[0], Next(cf, ctx, e, syms[0]), syms[1..]);
    } else {
      RunShifts(cf, ctx, e, syms + [0]);
    }
  }

  lemma {:induction false} RunShifts(cf: seq<seq<nat>>, ctx: Symbol, e: Coder, syms: seq<Symbol>)
    requires ValidTable(cf) && Settled(e) && Positive(cf, ctx, syms)
    ensures Shifts(e) <= Shifts(CodeSymbols(cf, ctx, e, syms).coder)
    decreases |syms|
  {
    if syms != [] && |e.bits| < CODE_LIMIT {
      NextSettled(cf, ctx, e, syms[0]);
      RunShifts(cf, syms[0], Next(cf, ctx, e, syms[0]), syms[1..]);
    }
  }

  /** No two surviving names share a code. */
  lemma SurvivorsHaveDistinctCodes(cf: seq<seq<nat>>, hash: seq<int> -> nat, s: seq<int>, t: seq<int>)
    requires ValidTable(cf) && s != [] && t != [] && LowerCase(s) && LowerCase(t)
    requires Survives(cf, s) && Survives(cf, t)
    requires NameCode(cf, hash, s) == NameCode(cf, hash, t)
    ensures s == t
  {
    LettersOfSymbols(s);
    LettersOfSymbols(t);
    RoundTripExactly(cf, hash, s);
    RoundTripExactly(cf, hash, t);
  }

  // ---------------------------------------------------------------- hash names

  lemma NibbleSplit(x: nat, p: nat)
    requires p > 0
    ensures x % (16 * p) == x % 16 + 16 * (x / 16 % p)
  {
    var q, r := x / 16 / p, x / 16 % p;
    assert x / 16 == q * p + r;
    assert q * (16 * p) == 16 * (q * p);
    DivUnique(x, 16 * p, q, 16 * r + x % 16);
  }

  lemma LetterNibble(k: nat)
    requires k < 16
    ensures 97 <= SYMBOL_TO_CHAR[k + 1] <= 122 && Nibble(SYMBOL_TO_CHAR[k + 1]) == k
  {
    LettersAndSymbols();
  }

  lemma NibbleAtShift(x: nat, i: nat)
    ensures NibbleAt(x, i + 1) == NibbleAt(x / 16, i)
    ensures NibbleAt(x, 0) == x % 16
  {
    assert Pow16(i + 1) == 16 * Pow16(i);
    DivDiv(x, 16, Pow16(i));
  }

  lemma ShiftNibbles(x: nat, n: nat)
    requires n > 0
    ensures NibbleLetters(x, n) == [SYMBOL_TO_CHAR[x % 16 + 1]] + NibbleLetters(x / 16, n - 1)
  {
    forall i: nat ensures NibbleAt(x, i + 1) == NibbleAt(x / 16, i) && NibbleAt(x, 0) == x % 16 {
      NibbleAtShift(x, i);
    }
  }

  lemma {:induction false} NibblesBack(x: nat, n: nat)
    ensures NibblesValue(NibbleLetters(x, n)) == x % Pow16(n)
  {
    if n > 0 {
      var tail := NibbleLetters(x / 16, n - 1);
      ShiftNibbles(x, n);
      LetterNibble(x % 16);
      NibblesBack(x / 16, n - 1);
      assert NibbleLetters(x, n)[1..] == tail;
      NibbleSplit(x, Pow16(n - 1));
    }
  }

  lemma NibblesLowerCase(x: nat, n: nat)
    ensures LowerCase(NibbleLetters(x, n))
  {
    LettersAndSymbols();
  }

  lemma SixteenNibbles()
    ensures Pow16(NIBBLES) == NOT_A_NAME + 1
  {
    assert Pow16(8) == 0x1_0000_0000;
    assert Pow16(12) == 0x1_0000 * Pow16(8);
    assert Pow16(NIBBLES) == 0x1_0000 * Pow16(12);
  }

  lemma SignedCode(cf: seq<seq<nat>>, hash: seq<int> -> nat, letters: seq<int>)
    requires ValidTable(cf) && |letters| == 16 && LowerCase(letters)
    ensures NameCode(cf, hash, [HASH_SIGN] + letters) == Number(NibblesValue(letters))
  {
    var s := [HASH_SIGN] + letters;
    assert s[1..] == letters;
    assert forall i :: 1 <= i < 17 ==> s[i] == letters[i - 1];
  }

  lemma AllNibbles(x: nat)
    requires x <= NOT_A_NAME
    ensures x % Pow16(NIBBLES) == x
  {
    SixteenNibbles();
  }

  /** Every hash number is the number of its own '#' name. */
  lemma HashNameRoundTrip(cf: seq<seq<nat>>, hash: seq<int> -> nat, x: nat)
    requires ValidTable(cf) && x <= NOT_A_NAME && IsHashName(x)
    ensures NameCode(cf, hash, NameOf(cf, x)) == Number(x)
  {
    var letters := NibbleLetters(x, NIBBLES);
    HashNameStartsWithSign(cf, x);
    NibblesBack(x, NIBBLES);
    NibblesLowerCase(x, NIBBLES);
    AllNibbles(x);
    SignedCode(cf, hash, letters);
  }
}
