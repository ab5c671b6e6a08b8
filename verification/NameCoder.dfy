/** What the arithmetic coder for names computes, as functions
    (js/src/compress-name.ts, lines 57-62 and 98-305). */
module NameCoder {
  import opened Powers
  import opened NameTables

  const MAX_CODE := 0x1FFFF
  const CODE_SPAN := 0x20000
  const ONE_FOURTH := 0x8000
  const ONE_HALF := 0x10000
  const THREE_FOURTHS := 0x18000
  const CODE_BITS := 17
  const CODE_LIMIT := 64
  const MARKER := 0x100_0000_0000_0000
  const NOT_A_NAME := 0xFFFF_FFFF_FFFF_FFFF

  // ---------------------------------------------------------------- bits in a number

  /** Where the i-th emitted bit sits: bytes fill from the low end, each from its high bit. */
  function BitPlace(i: nat): nat {
    8 * (i / 8) + 7 - i % 8
  }

  /** The number that stores `bits` in emission order. */
  function Packed(bits: seq<bool>): nat {
    if bits == [] then 0
    else Packed(bits[..|bits| - 1]) + (if bits[|bits| - 1] then Pow2(BitPlace(|bits| - 1)) else 0)
  }

  /** The i-th bit a reader of the 64-bit number x sees; zeros follow the last one. */
  predicate StreamBit(x: nat, i: nat) {
    i < CODE_LIMIT && x / Pow2(BitPlace(i)) % 2 == 1
  }

  /** The number written by the first n bits of the stream. */
  function Prefix(x: nat, n: nat): nat {
    if n == 0 then 0 else 2 * Prefix(x, n - 1) + (if StreamBit(x, n - 1) then 1 else 0)
  }

  // ---------------------------------------------------------------- encoder

  /** The encoder between two steps: its interval, the bits whose value is still open,
      and every bit put so far, including those past the 64th. */
  datatype Coder = Coder(low: int, high: int, pending: nat, bits: seq<bool>)

  const START := Coder(0, MAX_CODE, 0, [])

  /** Interval bounds that occur: possibly empty, by a symbol of zero width. */
  predicate Bounded(low: int, high: int) {
    0 <= low <= high + 1 <= CODE_SPAN
  }

  function Put(e: Coder, b: bool): Coder {
    e.(bits := e.bits + [b] + Repeat(!b, e.pending), pending := 0)
  }

  function Doubled(e: Coder): Coder {
    e.(low := 2 * e.low % CODE_SPAN, high := (2 * e.high + 1) % CODE_SPAN)
  }

  function Straddled(e: Coder): Coder {
    e.(low := e.low - ONE_FOURTH, high := e.high - ONE_FOURTH, pending := e.pending + 1)
  }

  /** Shift out settled bits until the interval spreads over a quarter, or 64 bits are out. */
  function Renormalise(e: Coder): (r: Coder)
    requires Bounded(e.low, e.high)
    ensures Bounded(r.low, r.high)
    decreases if |e.bits| < CODE_LIMIT then CODE_LIMIT - |e.bits| else 0, MAX_CODE - (e.high - e.low)
  {
    if |e.bits| >= CODE_LIMIT then e
    else if e.high < ONE_HALF then Renormalise(Doubled(Put(e, false)))
    else if e.low >= ONE_HALF then Renormalise(Doubled(Put(e, true)))
    else if e.low >= ONE_FOURTH && e.high < THREE_FOURTHS then Renormalise(Doubled(Straddled(e)))
    else e
  }

  /** The lower end of the sub-interval that starts at frequency f. */
  function Cut(low: int, high: int, row: seq<nat>, k: nat): int
    requires |row| == ROW_WIDTH && row[27] == TOTAL && k <= 27
  {
    low + (high - low + 1) * row[k] / row[27]
  }

  function Narrow(e: Coder, row: seq<nat>, c: Symbol): Coder
    requires |row| == ROW_WIDTH && row[27] == TOTAL
  {
    e.(low := Cut(e.low, e.high, row, c), high := Cut(e.low, e.high, row, c + 1) - 1)
  }

  lemma NarrowBounded(e: Coder, row: seq<nat>, c: Symbol)
    requires ValidRow(row) && Bounded(e.low, e.high)
    ensures Bounded(Narrow(e, row, c).low, Narrow(e, row, c).high)
    ensures e.low <= Narrow(e, row, c).low && Narrow(e, row, c).high <= e.high
  {
    var range := e.high - e.low + 1;
    assert row[c] <= row[c + 1] <= row[27];
    MulMono(row[c], row[c + 1], range);
    MulMono(row[c + 1], row[27], range);
    DivMono(range * row[c], range * row[c + 1], TOTAL);
    DivMono(range * row[c + 1], range * TOTAL, TOTAL);
    DivUnique(range * TOTAL, TOTAL, range, 0);
  }

  lemma DivMono(a: nat, b: nat, d: nat)
    requires a <= b && d > 0
    ensures 0 <= a / d <= b / d
  {
    if a / d > b / d {
      MulMono(b / d + 1, a / d, d);
    }
  }

  datatype Coded = Coded(coder: Coder, rest: seq<Symbol>)

  /** Code symbols until they run out or 64 bits are out; what is left was not coded. */
  function CodeSymbols(cf: seq<seq<nat>>, ctx: Symbol, e: Coder, syms: seq<Symbol>): (r: Coded)
    requires ValidTable(cf) && Bounded(e.low, e.high)
    ensures Bounded(r.coder.low, r.coder.high)
    decreases |syms|
  {
    if syms == [] || |e.bits| >= CODE_LIMIT then Coded(e, syms)
    else
      NarrowBounded(e, cf[ctx], syms[0]);
      CodeSymbols(cf, syms[0], Renormalise(Narrow(e, cf[ctx], syms[0])), syms[1..])
  }

  /** The two closing bits that pick a point inside the final interval. */
  function Closed(e: Coder): Coder {
    Put(e.(pending := e.pending + 1), e.low >= ONE_FOURTH)
  }

  function Symbols(s: seq<int>): (syms: seq<Symbol>)
    ensures |syms| == |s|
    ensures forall i :: 0 <= i < |s| ==> syms[i] == SymbolOf(s[i])
  {
    seq(|s|, i requires 0 <= i < |s| => SymbolOf(s[i]))
  }

  predicate Compressible(s: seq<int>) {
    forall i :: 0 <= i < |s| ==> SymbolOf(s[i]) != 0
  }

  /** The run of the encoder over a name and its terminator. */
  function EncoderRun(cf: seq<seq<nat>>, s: seq<int>): Coded
    requires ValidTable(cf)
  {
    CodeSymbols(cf, 0, START, Symbols(s) + [0])
  }

  /** All bits put for a name, closing bits included. */
  function NameBits(cf: seq<seq<nat>>, s: seq<int>): seq<bool>
    requires ValidTable(cf)
  {
    Closed(EncoderRun(cf, s).coder).bits
  }

  function FirstBits(bits: seq<bool>): seq<bool> {
    if |bits| <= CODE_LIMIT then bits else bits[..CODE_LIMIT]
  }

  /** The arithmetic code, or 0 when the name does not fit: some symbol is left over,
      or the 64th bit, which marks a hash, would be set. */
  function CompressedCode(cf: seq<seq<nat>>, s: seq<int>): nat
    requires ValidTable(cf)
  {
    var bits := NameBits(cf, s);
    if EncoderRun(cf, s).rest != [] || (|bits| >= CODE_LIMIT && bits[CODE_LIMIT - 1]) then 0
    else Packed(FirstBits(bits))
  }

  /** Bit 56 of a number, the mark of a hash name. */
  predicate IsHashName(x: nat) {
    x / MARKER % 2 == 1
  }

  function Marked(x: nat): nat {
    if IsHashName(x) then x else x + MARKER
  }

  /** A number, or the exception thrown for a character past the end of the table. */
  datatype NameResult = Number(value: nat) | Throws

  /** The low nibble that a character of a hash name stands for. */
  function Nibble(c: int): nat {
    (SymbolOf(c) - 1) % 16
  }

  function NibblesValue(s: seq<int>): nat {
    if s == [] then 0 else Nibble(s[0]) + 16 * NibblesValue(s[1..])
  }

  const HASH_SIGN := 35
  const NIBBLES: nat := 16

  /** What `nameToNumber` returns; `hash` is the fallback hash of the name. */
  function NameCode(cf: seq<seq<nat>>, hash: seq<int> -> nat, s: seq<int>): NameResult
    requires ValidTable(cf)
  {
    if s == [] then Number(0)
    else if s[0] == HASH_SIGN then
      if |s| != 17 then Number(NOT_A_NAME)
      else if exists i :: 1 <= i < 17 && s[i] >= CHAR_TABLE_SIZE then Throws
      else Number(NibblesValue(s[1..]))
    else if !Compressible(s) then Number(0)
    else
      var code := CompressedCode(cf, s);
      Number(if code == 0 then Marked(hash(s)) else code)
  }

  // ---------------------------------------------------------------- decoder

  /** The decoder's interval and window; `used` counts the shifts made. */
  datatype Window = Window(low: int, high: int, value: int, used: nat)

  /** The decoder stops once it has consumed 64 + 16 bits. */
  const SHIFT_LIMIT := 63

  predicate Inside(w: Window) {
    0 <= w.low <= w.value <= w.high <= MAX_CODE && w.used <= SHIFT_LIMIT
  }

  function Shifted(x: nat, w: Window, d: int): Window {
    Window(2 * (w.low - d), 2 * (w.high - d) + 1,
           2 * (w.value - d) + (if StreamBit(x, CODE_BITS + w.used) then 1 else 0), w.used + 1)
  }

  function Settle(x: nat, w: Window): (r: Window)
    requires Inside(w)
    ensures Inside(r) && r.used >= w.used
    ensures r.used < SHIFT_LIMIT ==> r.low < ONE_HALF <= r.high && r.high - r.low >= ONE_FOURTH
    ensures r.used == w.used ==> r == w
    decreases SHIFT_LIMIT - w.used
  {
    if w.used >= SHIFT_LIMIT then w
    else if w.high < ONE_HALF then Settle(x, Shifted(x, w, 0))
    else if w.low >= ONE_HALF then Settle(x, Shifted(x, w, ONE_HALF))
    else if w.low >= ONE_FOURTH && w.high < THREE_FOURTHS then Settle(x, Shifted(x, w, ONE_FOURTH))
    else w
  }

  function Scaled(w: Window): int
    requires Inside(w)
  {
    ((w.value - w.low + 1) * TOTAL - 1) / (w.high - w.low + 1)
  }

  /** The first symbol whose upper frequency exceeds the scaled value; 0 when there is none. */
  function FindSymbol(row: seq<nat>, scaled: int, i: nat): (c: Symbol)
    requires |row| == ROW_WIDTH && i <= 27
    decreases 27 - i
  {
    if i >= 27 then 0 else if scaled < row[i + 1] then i else FindSymbol(row, scaled, i + 1)
  }

  function Zoom(w: Window, row: seq<nat>, c: Symbol): Window
    requires |row| == ROW_WIDTH && row[27] == TOTAL
  {
    w.(low := Cut(w.low, w.high, row, c), high := Cut(w.low, w.high, row, c + 1) - 1)
  }

  lemma {:induction false} FoundSymbol(row: seq<nat>, scaled: int, i: nat)
    requires ValidRow(row) && i < 27 && row[i] <= scaled < row[27]
    ensures var c := FindSymbol(row, scaled, i); i <= c && row[c] <= scaled < row[c + 1]
    decreases 27 - i
  {
    if scaled >= row[i + 1] {
      assert i + 1 < 27;
      FoundSymbol(row, scaled, i + 1);
    }
  }

  /** A scaled value falls in a symbol's slot exactly when the window falls in its sub-interval. */
  lemma SlotIsSubInterval(v: nat, r: nat, f: nat)
    requires v < r
    ensures f <= ((v + 1) * TOTAL - 1) / r <==> r * f / TOTAL <= v
  {
    var s := ((v + 1) * TOTAL - 1) / r;
    var t := ((v + 1) * TOTAL - 1) % r;
    assert (v + 1) * TOTAL - 1 == s * r + t;
    var q, m := r * f / TOTAL, r * f % TOTAL;
    assert r * f == q * TOTAL + m;
    if f <= s {
      MulMono(f, s, r);
      assert r * f < (v + 1) * TOTAL;
    } else {
      MulMono(s + 1, f, r);
      assert (s + 1) * r == s * r + r;
    }
  }

  lemma SlotFacts(w: Window, row: seq<nat>, c: Symbol)
    requires Inside(w) && ValidRow(row)
    ensures row[c] <= Scaled(w) < row[c + 1] <==> Zoom(w, row, c).low <= w.value <= Zoom(w, row, c).high
    ensures 0 <= Scaled(w) < TOTAL
  {
    var v, r := w.value - w.low, w.high - w.low + 1;
    SlotIsSubInterval(v, r, row[c]);
    SlotIsSubInterval(v, r, row[c + 1]);
    ScaledRange(v, r);
  }

  lemma ScaledRange(v: nat, r: nat)
    requires v < r
    ensures 0 <= ((v + 1) * TOTAL - 1) / r < TOTAL
  {
    SlotIsSubInterval(v, r, TOTAL);
    DivUnique(r * TOTAL, TOTAL, r, 0);
  }

  function NextSymbol(cf: seq<seq<nat>>, ctx: Symbol, w: Window): (c: Symbol)
    requires ValidTable(cf) && Inside(w)
    ensures cf[ctx][c] <= Scaled(w) < cf[ctx][c + 1]
    ensures Inside(Zoom(w, cf[ctx], c))
  {
    SlotFacts(w, cf[ctx], 0);
    FoundSymbol(cf[ctx], Scaled(w), 0);
    var c := FindSymbol(cf[ctx], Scaled(w), 0);
    SlotFacts(w, cf[ctx], c);
    ZoomWithin(w, cf[ctx], c);
    c
  }

  lemma ZoomWithin(w: Window, row: seq<nat>, c: Symbol)
    requires Inside(w) && ValidRow(row)
    ensures w.low <= Zoom(w, row, c).low && Zoom(w, row, c).high <= w.high
  {
    NarrowBounded(Coder(w.low, w.high, 0, []), row, c);
  }

  /** A slot that leaves room for another one loses at least one point of the interval. */
  lemma ZoomShrinks(w: Window, row: seq<nat>, c: Symbol)
    requires Inside(w) && ValidRow(row) && c != 0 && row[1] > 0
    requires w.high - w.low >= ONE_FOURTH
    ensures Zoom(w, row, c).low > w.low
  {
    var range := w.high - w.low + 1;
    MulMono(1, row[c], range);
    DivMono(TOTAL, range * row[c], TOTAL);
  }

  /** The decoder may decode another symbol: bits remain and the interval is spread out. */
  predicate Ready(w: Window) {
    Inside(w) && (w.used < SHIFT_LIMIT ==> w.high - w.low >= ONE_FOURTH)
  }

  function DecodeSymbols(cf: seq<seq<nat>>, x: nat, ctx: Symbol, w: Window): (syms: seq<Symbol>)
    requires ValidTable(cf) && Ready(w)
    ensures forall c :: c in syms ==> c != 0
    decreases SHIFT_LIMIT - w.used, if ctx == 0 then 1 else 0, w.high - w.low
  {
    if w.used >= SHIFT_LIMIT then []
    else
      var c := NextSymbol(cf, ctx, w);
      if c == 0 then []
      else
        var z := Zoom(w, cf[ctx], c);
        assert ctx != 0 ==> z.high - z.low < w.high - w.low by {
          if ctx != 0 { ZoomShrinks(w, cf[ctx], c); ZoomWithin(w, cf[ctx], c); }
        }
        [c] + DecodeSymbols(cf, x, c, Settle(x, z))
  }

  function Letters(syms: seq<Symbol>): (s: seq<int>)
    ensures |s| == |syms|
    ensures forall i :: 0 <= i < |s| ==> s[i] == SYMBOL_TO_CHAR[syms[i]]
  {
    seq(|syms|, i requires 0 <= i < |syms| => SYMBOL_TO_CHAR[syms[i]])
  }

  /** Sixteen to the n, the numbers with n nibbles. */
  function Pow16(n: nat): (p: nat)
    ensures p >= 1
  {
    if n == 0 then 1 else 16 * Pow16(n - 1)
  }

  /** The i-th nibble, lowest first. */
  function NibbleAt(x: nat, i: nat): (k: nat)
    ensures k < 16
  {
    x / Pow16(i) % 16
  }

  /** One letter for each of the n low nibbles of x. */
  function NibbleLetters(x: nat, n: nat): (s: seq<int>)
    ensures |s| == n
  {
    seq(n, i requires 0 <= i < n => SYMBOL_TO_CHAR[NibbleAt(x, i) + 1])
  }

  lemma {:induction false} PrefixSize(x: nat, n: nat)
    ensures Prefix(x, n) < Pow2(n)
  {
    if n > 0 { PrefixSize(x, n - 1); }
  }

  lemma Pow2Values()
    ensures Pow2(CODE_BITS) == CODE_SPAN
  {
    assert Pow2(8) == 0x100;
    Pow2Add(8, 8);
    assert Pow2(17) == 2 * Pow2(16);
  }

  function FirstWindow(x: nat): (w: Window)
    ensures Ready(w)
  {
    PrefixSize(x, CODE_BITS);
    Pow2Values();
    Window(0, MAX_CODE, Prefix(x, CODE_BITS), 0)
  }

  /** What `numberToName` returns. */
  function NameOf(cf: seq<seq<nat>>, x: nat): seq<int>
    requires ValidTable(cf)
  {
    if x == 0 then []
    else if IsHashName(x) then [HASH_SIGN] + NibbleLetters(x, NIBBLES)
    else Letters(DecodeSymbols(cf, x, 0, FirstWindow(x)))
  }
}
