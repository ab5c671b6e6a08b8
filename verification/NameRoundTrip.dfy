/** The decoder follows the encoder: exactly which names survive a round trip. */
module NameRoundTrip {
  import opened Powers
  import opened NameTables
  import opened NameCoder

  // ---------------------------------------------------------------- encoder steps in numbers

  function Shifts(e: Coder): nat {
    |e.bits| + e.pending
  }

  /** The absolute position of the interval's origin, in units of the current window. */
  function Base(e: Coder): int {
    ONE_HALF * (Pow2(e.pending) * (2 * Num(e.bits) + 1) - 1)
  }

  /** Where the number x falls relative to the encoder's interval. */
  function Point(x: nat, e: Coder): int {
    Prefix(x, CODE_BITS + Shifts(e)) - Base(e)
  }

  predicate Regular(e: Coder) {
    0 <= e.low <= e.high <= MAX_CODE
  }

  predicate Unsettled(e: Coder) {
    |e.bits| < CODE_LIMIT
    && (e.high < ONE_HALF || e.low >= ONE_HALF || (e.low >= ONE_FOURTH && e.high < THREE_FOURTHS))
  }

  /** What one renormalisation step subtracts before doubling. */
  function Drop(e: Coder): int {
    if e.high < ONE_HALF then 0 else if e.low >= ONE_HALF then ONE_HALF else ONE_FOURTH
  }

  function Step(e: Coder): Coder {
    if e.high < ONE_HALF then Doubled(Put(e, false))
    else if e.low >= ONE_HALF then Doubled(Put(e, true))
    else Doubled(Straddled(e))
  }

  /** Appending a bit and `pending` copies of its opposite. */
  lemma PutNum(e: Coder, b: bool)
    ensures Num(Put(e, b).bits) == Pow2(e.pending) * (2 * Num(e.bits) + 1) + if b then 0 else -1
  {
    NumSnoc(e.bits, b);
    NumRepeat(e.bits + [b], !b, e.pending);
    OddMultiple(Num(e.bits), Pow2(e.pending));
  }

  lemma OddMultiple(n: nat, k: nat)
    ensures (2 * n + 1) * k == k * (2 * n + 1) && 2 * n * k + k == k * (2 * n + 1)
  {
  }

  lemma PutBase(e: Coder, b: bool)
    ensures Base(Put(e, b)) == 2 * (Base(e) + if b then ONE_HALF else 0)
    ensures Shifts(Put(e, b)) == Shifts(e) + 1
  {
    PutNum(e, b);
    assert Pow2(0) == 1;
  }

  lemma StraddleBase(e: Coder)
    ensures Base(Straddled(e)) == 2 * (Base(e) + ONE_FOURTH)
  {
    var k, n := Pow2(e.pending), 2 * Num(e.bits) + 1;
    assert Pow2(e.pending + 1) == 2 * k;
    assert 2 * k * n == 2 * (k * n);
  }

  lemma StepBase(e: Coder)
    requires Regular(e) && Unsettled(e)
    ensures Base(Step(e)) == 2 * (Base(e) + Drop(e)) && Shifts(Step(e)) == Shifts(e) + 1
  {
    if Drop(e) == ONE_FOURTH {
      StraddleBase(e);
      assert Step(e).bits == e.bits && Step(e).pending == e.pending + 1;
    } else {
      PutBase(e, e.low >= ONE_HALF);
      assert Step(e).bits == Put(e, e.low >= ONE_HALF).bits && Step(e).pending == 0;
    }
  }

  lemma StepFacts(x: nat, e: Coder)
    requires Regular(e) && Unsettled(e)
    ensures Regular(Step(e))
    ensures Step(e).low == 2 * (e.low - Drop(e)) && Step(e).high == 2 * (e.high - Drop(e)) + 1
    ensures Shifts(Step(e)) == Shifts(e) + 1
    ensures Point(x, Step(e)) == 2 * (Point(x, e) - Drop(e)) + if StreamBit(x, CODE_BITS + Shifts(e)) then 1 else 0
    ensures Renormalise(e) == Renormalise(Step(e))
  {
    StepBounds(e);
    StepBase(e);
    var n := CODE_BITS + Shifts(e);
    assert Prefix(x, n + 1) == 2 * Prefix(x, n) + if StreamBit(x, n) then 1 else 0;
  }

  lemma StepBounds(e: Coder)
    requires Regular(e) && Unsettled(e)
    ensures Regular(Step(e))
    ensures Step(e).low == 2 * (e.low - Drop(e)) && Step(e).high == 2 * (e.high - Drop(e)) + 1
  {
  }

  /** Renormalising moves neither end of the interval: x stays on its side of both. */
  lemma {:induction false} RenormaliseEdges(x: nat, e: Coder)
    requires Regular(e)
    ensures var r := Renormalise(e);
            && Regular(r) && Shifts(r) >= Shifts(e)
            && (Point(x, r) >= r.low <==> Point(x, e) >= e.low)
            && (Point(x, r) <= r.high <==> Point(x, e) <= e.high)
            && (|r.bits| < CODE_LIMIT ==> !Unsettled(r))
    decreases MAX_CODE - (e.high - e.low)
  {
    if Unsettled(e) {
      StepFacts(x, e);
      RenormaliseEdges(x, Step(e));
    }
  }

  /** The decoder's window for number x when its interval is the encoder's. */
  function Tracking(x: nat, e: Coder): Window {
    Window(e.low, e.high, Point(x, e), Shifts(e))
  }

  /** While its shifts last, the decoder settles exactly as the encoder renormalises. */
  lemma {:induction false} SettleTracks(x: nat, e: Coder)
    requires Regular(e) && Inside(Tracking(x, e))
    ensures var r := Renormalise(e);
            && (Shifts(r) <= SHIFT_LIMIT ==> Settle(x, Tracking(x, e)) == Tracking(x, r))
            && (Shifts(r) > SHIFT_LIMIT ==> Settle(x, Tracking(x, e)).used == SHIFT_LIMIT)
    decreases MAX_CODE - (e.high - e.low)
  {
    var w := Tracking(x, e);
    if Unsettled(e) {
      StepFacts(x, e);
      if w.used < SHIFT_LIMIT {
        assert Shifted(x, w, Drop(e)) == Tracking(x, Step(e));
        assert Settle(x, w) == Settle(x, Tracking(x, Step(e)));
        SettleTracks(x, Step(e));
      } else {
        RenormaliseEdges(x, Step(e));
      }
    }
  }

  // ---------------------------------------------------------------- one symbol

  /** Every transition of the symbol string has positive width. */
  predicate Positive(cf: seq<seq<nat>>, ctx: Symbol, syms: seq<Symbol>)
    requires ValidTable(cf)
    decreases |syms|
  {
    syms == [] || (cf[ctx][syms[0]] < cf[ctx][syms[0] + 1] && Positive(cf, syms[0], syms[1..]))
  }

  /** A state between symbols: renormalised, unless the bits ran out. */
  predicate Settled(e: Coder) {
    Regular(e) && (|e.bits| < CODE_LIMIT ==> !Unsettled(e))
  }

  lemma WideEnough(range: nat, f: nat, g: nat)
    requires range > TOTAL && f < g
    ensures range * f / TOTAL < range * g / TOTAL
  {
    assert range * g == range * f + range * (g - f);
    MulMono(1, g - f, range);
    DivMono(range * f + TOTAL, range * g, TOTAL);
    DivUnique(range * f + TOTAL, TOTAL, range * f / TOTAL + 1, range * f % TOTAL);
  }

  lemma NarrowRegular(e: Coder, row: seq<nat>, c: Symbol)
    requires ValidRow(row) && row[c] < row[c + 1]
    requires Settled(e) && |e.bits| < CODE_LIMIT
    ensures Regular(Narrow(e, row, c))
  {
    NarrowBounded(e, row, c);
    WideEnough(e.high - e.low + 1, row[c], row[c + 1]);
  }

  lemma {:induction false} FindSymbolUnique(row: seq<nat>, scaled: int, i: nat, c: Symbol)
    requires ValidRow(row) && i <= c && row[c] <= scaled < row[c + 1]
    ensures FindSymbol(row, scaled, i) == c
    decreases c - i
  {
    if i < c { FindSymbolUnique(row, scaled, i + 1, c); }
  }

  /** The decoder picks a symbol exactly when its window lies in that symbol's sub-interval. */
  lemma NextSymbolIs(cf: seq<seq<nat>>, ctx: Symbol, w: Window, c: Symbol)
    requires ValidTable(cf) && Inside(w)
    ensures NextSymbol(cf, ctx, w) == c <==>
            Zoom(w, cf[ctx], c).low <= w.value <= Zoom(w, cf[ctx], c).high
  {
    SlotFacts(w, cf[ctx], c);
    if cf[ctx][c] <= Scaled(w) < cf[ctx][c + 1] {
      FindSymbolUnique(cf[ctx], Scaled(w), 0, c);
    }
  }

  // ---------------------------------------------------------------- the whole run

  /** The encoder state after one more symbol. */
  function Next(cf: seq<seq<nat>>, ctx: Symbol, e: Coder, c: Symbol): Coder
    requires ValidTable(cf) && Bounded(e.low, e.high)
  {
    NarrowBounded(e, cf[ctx], c);
    Renormalise(Narrow(e, cf[ctx], c))
  }

  lemma NextSettled(cf: seq<seq<nat>>, ctx: Symbol, e: Coder, c: Symbol)
    requires ValidTable(cf) && cf[ctx][c] < cf[ctx][c + 1]
    requires Settled(e) && |e.bits| < CODE_LIMIT
    ensures Regular(Narrow(e, cf[ctx], c)) && Settled(Next(cf, ctx, e, c))
    ensures Shifts(Next(cf, ctx, e, c)) >= Shifts(e)
  {
    NarrowRegular(e, cf[ctx], c);
    RenormaliseEdges(0, Narrow(e, cf[ctx], c));
  }

  /** A point inside the final interval is inside every earlier one. */
  lemma {:induction false} FinalEdges(cf: seq<seq<nat>>, x: nat, ctx: Symbol, e: Coder, syms: seq<Symbol>)
    requires ValidTable(cf) && Settled(e) && Positive(cf, ctx, syms)
    requires CodeSymbols(cf, ctx, e, syms).rest == []
    ensures var f := CodeSymbols(cf, ctx, e, syms).coder;
            && (Point(x, f) >= f.low ==> Point(x, e) >= e.low)
            && (Point(x, f) <= f.high ==> Point(x, e) <= e.high)
    decreases |syms|
  {
    if syms != [] {
      NextSettled(cf, ctx, e, syms[0]);
      FinalEdges(cf, x, syms[0], Next(cf, ctx, e, syms[0]), syms[1..]);
      RenormaliseEdges(x, Narrow(e, cf[ctx], syms[0]));
      NarrowBounded(e, cf[ctx], syms[0]);
    }
  }

  /** The final coder after the letters `syms` and the terminator. */
  function Final(cf: seq<seq<nat>>, ctx: Symbol, e: Coder, syms: seq<Symbol>): Coded
    requires ValidTable(cf) && Bounded(e.low, e.high)
  {
    CodeSymbols(cf, ctx, e, syms + [0])
  }

  lemma FinalStep(cf: seq<seq<nat>>, ctx: Symbol, e: Coder, syms: seq<Symbol>)
    requires ValidTable(cf) && Settled(e) && Positive(cf, ctx, syms + [0])
    requires Final(cf, ctx, e, syms).rest == []
    ensures |e.bits| < CODE_LIMIT
    ensures syms != [] ==>
      && cf[ctx][syms[0]] < cf[ctx][syms[0] + 1]
      && Positive(cf, syms[0], syms[1..] + [0])
      && Final(cf, ctx, e, syms) == Final(cf, syms[0], Next(cf, ctx, e, syms[0]), syms[1..])
  {
    if syms != [] {
      assert (syms + [0])[1..] == syms[1..] + [0];
    }
  }

  /** The terminator takes the bottom of the interval: it moves only the upper end. */
  lemma TerminatorEdges(cf: seq<seq<nat>>, x: nat, ctx: Symbol, e: Coder)
    requires ValidTable(cf) && Settled(e) && Positive(cf, ctx, [0])
    requires Final(cf, ctx, e, []).rest == []
    ensures var f := Final(cf, ctx, e, []).coder; var n := Narrow(e, cf[ctx], 0);
            && (Point(x, f) >= f.low <==> Point(x, e) >= e.low)
            && (Point(x, f) <= f.high <==> Point(x, e) <= n.high)
  {
    assert [] + [0] == [0] && [0][1..] == [];
    var n := Narrow(e, cf[ctx], 0);
    NarrowRegular(e, cf[ctx], 0);
    assert n.low == e.low;
    RenormaliseEdges(x, n);
    assert CodeSymbols(cf, 0, Renormalise(n), []) == Coded(Renormalise(n), []);
  }

  /** The shifts made before the last letter is coded. */
  function ShiftsBeforeLast(cf: seq<seq<nat>>, ctx: Symbol, e: Coder, syms: seq<Symbol>): nat
    requires ValidTable(cf) && Bounded(e.low, e.high)
    decreases |syms|
  {
    if |syms| <= 1 then Shifts(e) else ShiftsBeforeLast(cf, syms[0], Next(cf, ctx, e, syms[0]), syms[1..])
  }

  lemma {:induction false} ShiftsGrow(cf: seq<seq<nat>>, ctx: Symbol, e: Coder, syms: seq<Symbol>)
    requires ValidTable(cf) && Settled(e) && Positive(cf, ctx, syms + [0])
    requires Final(cf, ctx, e, syms).rest == []
    ensures ShiftsBeforeLast(cf, ctx, e, syms) >= Shifts(e)
    decreases |syms|
  {
    if |syms| > 1 {
      FinalStep(cf, ctx, e, syms);
      NextSettled(cf, ctx, e, syms[0]);
      ShiftsGrow(cf, syms[0], Next(cf, ctx, e, syms[0]), syms[1..]);
    }
  }

  /** The number lies where the decoder can follow the letters all the way. */
  predicate Followed(cf: seq<seq<nat>>, x: nat, ctx: Symbol, e: Coder, syms: seq<Symbol>)
    requires ValidTable(cf) && Bounded(e.low, e.high)
  {
    var f := Final(cf, ctx, e, syms).coder;
    syms == [] || (ShiftsBeforeLast(cf, ctx, e, syms) < SHIFT_LIMIT && Point(x, f) >= f.low)
  }

  lemma DecodeTerminator(cf: seq<seq<nat>>, x: nat, ctx: Symbol, e: Coder)
    requires ValidTable(cf) && Settled(e) && Positive(cf, ctx, [0])
    requires Final(cf, ctx, e, []).rest == []
    requires Point(x, Final(cf, ctx, e, []).coder) <= Final(cf, ctx, e, []).coder.high
    requires Ready(Tracking(x, e))
    ensures DecodeSymbols(cf, x, ctx, Tracking(x, e)) == []
  {
    TerminatorEdges(cf, x, ctx, e);
    NextSymbolIs(cf, ctx, Tracking(x, e), 0);
  }

  /** Decoding gives back the letters exactly when the number can be followed. */
  lemma {:induction false} DecodeTracks(cf: seq<seq<nat>>, x: nat, ctx: Symbol, e: Coder, syms: seq<Symbol>)
    requires ValidTable(cf) && Settled(e) && Positive(cf, ctx, syms + [0])
    requires Final(cf, ctx, e, syms).rest == []
    requires Point(x, Final(cf, ctx, e, syms).coder) <= Final(cf, ctx, e, syms).coder.high
    requires Ready(Tracking(x, e)) && 0 !in syms
    ensures DecodeSymbols(cf, x, ctx, Tracking(x, e)) == syms <==> Followed(cf, x, ctx, e, syms)
    decreases |syms|, 2
  {
    if syms == [] {
      DecodeTerminator(cf, x, ctx, e);
    } else {
      ShiftsGrow(cf, ctx, e, syms);
      if Shifts(e) < SHIFT_LIMIT {
        DecodeLetter(cf, x, ctx, e, syms);
      }
    }
  }

  lemma {:induction false} DecodeLetter(cf: seq<seq<nat>>, x: nat, ctx: Symbol, e: Coder, syms: seq<Symbol>)
    requires ValidTable(cf) && Settled(e) && Positive(cf, ctx, syms + [0])
    requires Final(cf, ctx, e, syms).rest == []
    requires Point(x, Final(cf, ctx, e, syms).coder) <= Final(cf, ctx, e, syms).coder.high
    requires Ready(Tracking(x, e)) && 0 !in syms && syms != [] && Shifts(e) < SHIFT_LIMIT
    ensures DecodeSymbols(cf, x, ctx, Tracking(x, e)) == syms <==> Followed(cf, x, ctx, e, syms)
    decreases |syms|, 1
  {
    hide Renormalise, Settle, CodeSymbols, FindSymbol;
    var c := syms[0];
    var n, e' := Narrow(e, cf[ctx], c), Next(cf, ctx, e, c);
    var w := Tracking(x, e);
    FinalStep(cf, ctx, e, syms);
    NextSettled(cf, ctx, e, c);
    RenormaliseEdges(x, n);
    FinalEdges(cf, x, c, e', syms[1..] + [0]);
    NextSymbolIs(cf, ctx, w, c);
    assert Zoom(w, cf[ctx], c) == Tracking(x, n);
    if Point(x, n) >= n.low {
      SettleTracks(x, n);
      DecodedRest(cf, x, ctx, e, syms);
    }
  }

  lemma DecodeUnfold(cf: seq<seq<nat>>, x: nat, ctx: Symbol, w: Window)
    requires ValidTable(cf) && Ready(w)
    ensures var c := NextSymbol(cf, ctx, w);
            && (w.used >= SHIFT_LIMIT || c == 0 ==> DecodeSymbols(cf, x, ctx, w) == [])
            && (w.used < SHIFT_LIMIT && c != 0 ==>
                  && Ready(Settle(x, Zoom(w, cf[ctx], c)))
                  && DecodeSymbols(cf, x, ctx, w) == [c] + DecodeSymbols(cf, x, c, Settle(x, Zoom(w, cf[ctx], c))))
            && (forall v :: Ready(v) && v.used >= SHIFT_LIMIT ==> DecodeSymbols(cf, x, c, v) == [])
  {
  }

  /** After the right letter has been decoded, the rest decides. */
  lemma {:induction false} DecodedRest(cf: seq<seq<nat>>, x: nat, ctx: Symbol, e: Coder, syms: seq<Symbol>)
    requires ValidTable(cf) && Settled(e) && Positive(cf, ctx, syms + [0])
    requires Final(cf, ctx, e, syms).rest == []
    requires Point(x, Final(cf, ctx, e, syms).coder) <= Final(cf, ctx, e, syms).coder.high
    requires Ready(Tracking(x, e)) && 0 !in syms && syms != [] && Shifts(e) < SHIFT_LIMIT
    requires NextSymbol(cf, ctx, Tracking(x, e)) == syms[0]
    ensures DecodeSymbols(cf, x, ctx, Tracking(x, e)) == syms <==> Followed(cf, x, ctx, e, syms)
    decreases |syms|, 0
  {
    hide Renormalise, Settle, CodeSymbols, DecodeSymbols, NextSymbol, FindSymbol;
    var c, rest := syms[0], syms[1..];
    var n, e' := Narrow(e, cf[ctx], c), Next(cf, ctx, e, c);
    FinalStep(cf, ctx, e, syms);
    NextSettled(cf, ctx, e, c);
    NextSymbolIs(cf, ctx, Tracking(x, e), c);
    assert Zoom(Tracking(x, e), cf[ctx], c) == Tracking(x, n);
    RenormaliseEdges(x, n);
    SettleTracks(x, n);
    DecodeUnfold(cf, x, ctx, Tracking(x, e));
    assert [c] + rest == syms;
    if rest == [] {
      TerminatorEdges(cf, x, c, e');
    } else {
      ShiftsGrow(cf, c, e', rest);
    }
    if Shifts(e') <= SHIFT_LIMIT {
      DecodeTracks(cf, x, c, e', rest);
    }
  }
}
