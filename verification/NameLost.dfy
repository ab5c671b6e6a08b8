/** Names whose code loses its closing bits: a general criterion, and one such name. */
module NameLost {
  import opened NameTables
  import opened NameCoder
  import opened NameRoundTrip
  import opened NameCodes
  import opened NameTheorems

  /** When 64 bits are out before the closing bits, the stored code sits at or below the
      window's origin. */
  lemma CutCodeIsLow(f: Coder)
    requires |f.bits| >= CODE_LIMIT
    ensures Point(Packed(FirstBits(Closed(f).bits)), f) <= 0
  {
    var bits := Closed(f).bits;
    var x := Packed(FirstBits(bits));
    ReadBack(bits);
    assert forall i :: 0 <= i < |f.bits| ==> bits[i] == f.bits[i];
    PrefixBelowHead(x, f.bits, CODE_BITS + Shifts(f));
    HeadBeyond(f.bits, CODE_BITS + f.pending);
    BaseAbove(f);
  }

  /** A name is lost whenever its 64 bits are out before the closing bits and the final
      interval starts above its window's origin. */
  lemma LongNamesAreLost(cf: seq<seq<nat>>, hash: seq<int> -> nat, s: seq<int>)
    requires ValidTable(cf) && s != [] && Compressible(s)
    requires |EncoderRun(cf, s).coder.bits| >= CODE_LIMIT && EncoderRun(cf, s).coder.low > 0
    ensures NameOf(cf, NameCode(cf, hash, s).value) != s
  {
    RoundTripExactly(cf, hash, s);
    CutCodeIsLow(EncoderRun(cf, s).coder);
  }

  lemma {:induction false} RenormaliseKeepsBits(e: Coder)
    requires Bounded(e.low, e.high)
    ensures e.bits <= Renormalise(e).bits
    decreases if |e.bits| < CODE_LIMIT then CODE_LIMIT - |e.bits| else 0, MAX_CODE - (e.high - e.low)
  {
    if |e.bits| < CODE_LIMIT {
      if e.high < ONE_HALF {
        RenormaliseKeepsBits(Doubled(Put(e, false)));
      } else if e.low >= ONE_HALF {
        RenormaliseKeepsBits(Doubled(Put(e, true)));
      } else if e.low >= ONE_FOURTH && e.high < THREE_FOURTHS {
        RenormaliseKeepsBits(Doubled(Straddled(e)));
      }
    }
  }

  /** Bits once put are never changed. */
  lemma {:induction false} RunKeepsBits(cf: seq<seq<nat>>, ctx: Symbol, e: Coder, syms: seq<Symbol>)
    requires ValidTable(cf) && Bounded(e.low, e.high)
    ensures e.bits <= CodeSymbols(cf, ctx, e, syms).coder.bits
    decreases |syms|
  {
    if syms != [] && |e.bits| < CODE_LIMIT {
      NarrowBounded(e, cf[ctx], syms[0]);
      RenormaliseKeepsBits(Narrow(e, cf[ctx], syms[0]));
      RunKeepsBits(cf, syms[0], Renormalise(Narrow(e, cf[ctx], syms[0])), syms[1..]);
    }
  }

  // ---------------------------------------------------------------- a concrete run

  /** The encoder without its bits, of which only the number counts. */
  datatype Outline = Outline(low: int, high: int, pending: nat, count: nat)

  function OutlineOf(e: Coder): Outline {
    Outline(e.low, e.high, e.pending, |e.bits|)
  }

  predicate Stuck(o: Outline) {
    o.count >= CODE_LIMIT
    || !(o.high < ONE_HALF || o.low >= ONE_HALF || (o.low >= ONE_FOURTH && o.high < THREE_FOURTHS))
  }

  /** Renormalisation of an outline, `fuel` steps at most. */
  function Run(low: int, high: int, pending: nat, count: nat, fuel: nat): Outline
    decreases fuel
  {
    if fuel == 0 || count >= CODE_LIMIT then Outline(low, high, pending, count)
    else if high < ONE_HALF then Run(2 * low, 2 * high + 1, 0, count + 1 + pending, fuel - 1)
    else if low >= ONE_HALF then Run(2 * (low - ONE_HALF), 2 * (high - ONE_HALF) + 1, 0, count + 1 + pending, fuel - 1)
    else if low >= ONE_FOURTH && high < THREE_FOURTHS then
      Run(2 * (low - ONE_FOURTH), 2 * (high - ONE_FOURTH) + 1, pending + 1, count, fuel - 1)
    else Outline(low, high, pending, count)
  }

  lemma StepOutline(e: Coder)
    requires Regular(e) && Unsettled(e)
    ensures var o := OutlineOf(Step(e));
            && o.low == 2 * (e.low - Drop(e)) && o.high == 2 * (e.high - Drop(e)) + 1
            && (Drop(e) == ONE_FOURTH ==> o.pending == e.pending + 1 && o.count == |e.bits|)
            && (Drop(e) != ONE_FOURTH ==> o.pending == 0 && o.count == |e.bits| + 1 + e.pending)
    ensures Regular(Step(e))
  {
    StepBounds(e);
  }

  lemma RenormaliseUnfold(e: Coder)
    requires Regular(e)
    ensures Unsettled(e) ==> Regular(Step(e)) && Renormalise(e) == Renormalise(Step(e))
    ensures !Unsettled(e) ==> Renormalise(e) == e
  {
    if Unsettled(e) { StepBounds(e); }
  }

  lemma {:induction false} RunOutlines(e: Coder, fuel: nat)
    requires Regular(e) && Stuck(Run(e.low, e.high, e.pending, |e.bits|, fuel))
    ensures OutlineOf(Renormalise(e)) == Run(e.low, e.high, e.pending, |e.bits|, fuel)
    decreases fuel
  {
    hide Renormalise;
    RenormaliseUnfold(e);
    if fuel > 0 && Unsettled(e) {
      StepOutline(e);
      RunOutlines(Step(e), fuel - 1);
    }
  }

  /** One symbol of a run of the shipped model, from one outline to the next. */
  lemma CodeOne(ctx: Symbol, e: Coder, syms: seq<Symbol>, low: int, high: int, fuel: nat)
    requires ValidTable(MODEL_CF) && Regular(e) && syms != [] && |e.bits| < CODE_LIMIT
    requires low == e.low + (e.high - e.low + 1) * MODEL_CF[ctx][syms[0]] / TOTAL
    requires high == e.low + (e.high - e.low + 1) * MODEL_CF[ctx][syms[0] as int + 1] / TOTAL - 1
    requires 0 <= low <= high <= MAX_CODE && Stuck(Run(low, high, e.pending, |e.bits|, fuel))
    ensures var e' := Next(MODEL_CF, ctx, e, syms[0]);
            && Regular(e') && OutlineOf(e') == Run(low, high, e.pending, |e.bits|, fuel)
            && CodeSymbols(MODEL_CF, ctx, e, syms) == CodeSymbols(MODEL_CF, syms[0], e', syms[1..])
  {
    hide Run, Renormalise, MODEL_CF;
    var n := Narrow(e, MODEL_CF[ctx], syms[0]);
    NarrowBounded(e, MODEL_CF[ctx], syms[0]);
    assert n.low == low && n.high == high;
    RunOutlines(n, fuel);
    RenormaliseEdges(0, n);
  }

  /** The letters "qqqcw". */
  const QQQCW: seq<int> := [113, 113, 113, 99, 119]

  /** The run has reached coder `e` with the symbols `rest` still to code. */
  ghost predicate Reached(ctx: Symbol, e: Coder, o: Outline, rest: seq<Symbol>)
    requires ValidTable(MODEL_CF)
  {
    && Regular(e) && OutlineOf(e) == o
    && EncoderRun(MODEL_CF, QQQCW) == CodeSymbols(MODEL_CF, ctx, e, rest)
  }

  lemma FirstRun() ensures Run(129611, 130494, 0, 0, 7) == Outline(9600, 122751, 1, 6) {}
  lemma SecondRun() ensures Run(122524, 122529, 1, 6, 14) == Outline(0, 98303, 3, 18) {}
  lemma ThirdRun() ensures Run(98105, 98110, 3, 18, 14) == Outline(16384, 114687, 0, 35) {}
  lemma FourthRun() ensures Run(80624, 80632, 0, 35, 13) == Outline(0, 73727, 0, 48) {}
  lemma FifthRun() ensures Run(70413, 70419, 0, 48, 14) == Outline(16384, 131071, 2, 60) {}
  lemma LastRun() ensures Run(16384, 31751, 2, 60, 2) == Outline(65536, 127007, 0, 64) {}

  lemma FirstSlot()
    ensures 129611 == 0 + 131072 * MODEL_CF[0][25] / TOTAL
    ensures 130494 == 0 + 131072 * MODEL_CF[0][26] / TOTAL - 1
  {
    assert ROW0[25] == 32402 && ROW0[26] == 32623;
  }

  lemma SecondSlot()
    ensures 122524 == 9600 + 113152 * MODEL_CF[25][25] / TOTAL
    ensures 122529 == 9600 + 113152 * MODEL_CF[25][26] / TOTAL - 1
  {
    assert ROW25[25] == 32701 && ROW25[26] == 32703;
  }

  lemma ThirdSlot()
    ensures 98105 == 0 + 98304 * MODEL_CF[25][25] / TOTAL
    ensures 98110 == 0 + 98304 * MODEL_CF[25][26] / TOTAL - 1
  {
    assert ROW25[25] == 32701 && ROW25[26] == 32703;
  }

  lemma FourthSlot()
    ensures 80624 == 16384 + 98304 * MODEL_CF[25][10] / TOTAL
    ensures 80632 == 16384 + 98304 * MODEL_CF[25][11] / TOTAL - 1
  {
    assert ROW25[10] == 21413 && ROW25[11] == 21416;
  }

  lemma FifthSlot()
    ensures 70413 == 0 + 73728 * MODEL_CF[10][20] / TOTAL
    ensures 70419 == 0 + 73728 * MODEL_CF[10][21] / TOTAL - 1
  {
    assert ROW10[20] == 31294 && ROW10[21] == 31297;
  }

  lemma LastSlot()
    ensures 16384 == 16384 + 114688 * MODEL_CF[20][0] / TOTAL
    ensures 31751 == 16384 + 114688 * MODEL_CF[20][1] / TOTAL - 1
  {
    assert ROW20[0] == 0 && ROW20[1] == 4391;
  }

  lemma FirstSymbol() returns (e: Coder)
    requires ValidTable(MODEL_CF)
    ensures Reached(25, e, Outline(9600, 122751, 1, 6), [25, 25, 10, 20, 0])
  {
    hide Run, MODEL_CF, CodeSymbols, Renormalise;
    FirstRun();
    FirstSlot();
    var syms: seq<Symbol> := [25, 25, 25, 10, 20, 0];
    assert Symbols(QQQCW) + [0] == syms;
    var e0 := START;
    assert syms[1..] == [25, 25, 10, 20, 0];
    CodeOne(0, e0, syms, 129611, 130494, 7);
    e := Next(MODEL_CF, 0, e0, 25);
  }

  lemma SecondSymbol() returns (e: Coder)
    requires ValidTable(MODEL_CF)
    ensures Reached(25, e, Outline(0, 98303, 3, 18), [25, 10, 20, 0])
  {
    hide Run, MODEL_CF, CodeSymbols, Renormalise;
    SecondRun();
    SecondSlot();
    var e0 := FirstSymbol();
    var syms: seq<Symbol> := [25, 25, 10, 20, 0];
    assert syms[1..] == [25, 10, 20, 0];
    CodeOne(25, e0, syms, 122524, 122529, 14);
    e := Next(MODEL_CF, 25, e0, 25);
  }

  lemma ThirdSymbol() returns (e: Coder)
    requires ValidTable(MODEL_CF)
    ensures Reached(25, e, Outline(16384, 114687, 0, 35), [10, 20, 0])
  {
    hide Run, MODEL_CF, CodeSymbols, Renormalise;
    ThirdRun();
    ThirdSlot();
    var e0 := SecondSymbol();
    var syms: seq<Symbol> := [25, 10, 20, 0];
    assert syms[1..] == [10, 20, 0];
    CodeOne(25, e0, syms, 98105, 98110, 14);
    e := Next(MODEL_CF, 25, e0, 25);
  }

  lemma FourthSymbol() returns (e: Coder)
    requires ValidTable(MODEL_CF)
    ensures Reached(10, e, Outline(0, 73727, 0, 48), [20, 0])
  {
    hide Run, MODEL_CF, CodeSymbols, Renormalise;
    FourthRun();
    FourthSlot();
    var e0 := ThirdSymbol();
    var syms: seq<Symbol> := [10, 20, 0];
    assert syms[1..] == [20, 0];
    CodeOne(25, e0, syms, 80624, 80632, 13);
    e := Next(MODEL_CF, 25, e0, 10);
  }

  lemma FifthSymbol() returns (e: Coder)
    requires ValidTable(MODEL_CF)
    ensures Reached(20, e, Outline(16384, 131071, 2, 60), [0])
  {
    hide Run, MODEL_CF, CodeSymbols, Renormalise;
    FifthRun();
    FifthSlot();
    var e0 := FourthSymbol();
    var syms: seq<Symbol> := [20, 0];
    assert syms[1..] == [0];
    CodeOne(10, e0, syms, 70413, 70419, 14);
    e := Next(MODEL_CF, 10, e0, 20);
  }

  /** The first bit of the run is a one. */
  lemma FirstBitOfRun()
    requires ValidTable(MODEL_CF)
    ensures var bits := EncoderRun(MODEL_CF, QQQCW).coder.bits; |bits| > 0 && bits[0]
  {
    hide Run, MODEL_CF, CodeSymbols, Renormalise;
    FirstSlot();
    var syms: seq<Symbol> := [25, 25, 25, 10, 20, 0];
    assert Symbols(QQQCW) + [0] == syms;
    FirstRun();
    CodeOne(0, START, syms, 129611, 130494, 7);
    var n := Narrow(START, MODEL_CF[0], 25);
    assert Unsettled(n);
    RenormaliseUnfold(n);
    RenormaliseKeepsBits(Step(n));
    assert Step(n).bits[0];
    var e1 := Next(MODEL_CF, 0, START, 25);
    assert e1 == Renormalise(Step(n));
    RunKeepsBits(MODEL_CF, 25, e1, syms[1..]);
  }

  /** The last bit of the run, the 64th, is a zero. */
  lemma LastBitOfRun() returns (e: Coder)
    requires ValidTable(MODEL_CF)
    ensures e == EncoderRun(MODEL_CF, QQQCW).coder && EncoderRun(MODEL_CF, QQQCW).rest == []
    ensures |e.bits| == 64 && !e.bits[63] && e.low > 0
  {
    hide Run, MODEL_CF, Renormalise;
    var e5 := FifthSymbol();
    LastSlot();
    LastRun();
    assert [0][1..] == [];
    CodeOne(20, e5, [0], 16384, 31751, 2);
    e := Next(MODEL_CF, 20, e5, 0);
    var n := Narrow(e5, MODEL_CF[20], 0);
    assert Unsettled(n);
    RenormaliseUnfold(n);
    StepOutline(n);
    RenormaliseUnfold(Step(n));
    StepOutline(Step(n));
    RenormaliseUnfold(Step(Step(n)));
    assert e == Step(Step(n));
  }

  lemma CodeOfQqqcwKept()
    requires ValidTable(MODEL_CF)
    ensures CompressedCode(MODEL_CF, QQQCW) != 0
  {
    hide Packed;
    FirstBitOfRun();
    var e := LastBitOfRun();
    var bits := NameBits(MODEL_CF, QQQCW);
    assert bits[63] == e.bits[63] && bits[0] == e.bits[0];
    PackedBit(FirstBits(bits), 0);
    NoBits(0);
  }

  /** The shipped model codes "qqqcw" as a compressed name that decodes to another name. */
  lemma QqqcwIsLost(hash: seq<int> -> nat)
    ensures ValidTable(MODEL_CF)
    ensures var code := NameCode(MODEL_CF, hash, QQQCW);
            code.Number? && !IsHashName(code.value) && NameOf(MODEL_CF, code.value) != QQQCW
  {
    hide Packed, NameOf, CodeSymbols;
    ModelIsValid();
    var e := LastBitOfRun();
    assert Compressible(QQQCW);
    LongNamesAreLost(MODEL_CF, hash, QQQCW);
    CodeOfQqqcwKept();
    HashNameIffGivenUp(MODEL_CF, hash, QQQCW);
  }
}
