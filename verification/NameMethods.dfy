/** The name coder as it runs: bit packer, bit reader and the two conversion loops
    (js/src/compress-name.ts, lines 98-305). */
module NameMethods {
  import opened Powers
  import opened NameTables
  import opened NameCoder
  import opened NameRoundTrip
  import opened NameCodes

  /** a | mask for a mask of a single bit. */
  function OrMask(a: nat, mask: nat): nat {
    if mask == 0 || a / mask % 2 == 1 then a else a + mask
  }

  /** The bits of the current byte fill up from the top: those below the mask are clear. */
  ghost predicate PartialByte(bits: seq<bool>, bit: nat, nextByte: nat, mask: nat, output: nat) {
    var n := |bits|;
    && bit == 8 * (n / 8) && mask == Pow2(7 - n % 8)
    && nextByte % (2 * mask) == 0 && (n % 8 == 0 ==> nextByte == 0)
    && output + nextByte * Pow2(bit) == Packed(bits)
  }

  lemma OrClear(nextByte: nat, mask: nat)
    requires mask > 0 && nextByte % (2 * mask) == 0
    ensures OrMask(nextByte, mask) == nextByte + mask
    ensures (nextByte + mask) % mask == 0 && nextByte % mask == 0
  {
    var q := nextByte / (2 * mask);
    assert nextByte == 2 * q * mask by {
      assert nextByte == q * (2 * mask);
      assert q * (2 * mask) == 2 * q * mask;
    }
    DivUnique(nextByte, mask, 2 * q, 0);
    AddMultiple(nextByte, mask, 1);
    assert nextByte + mask == (2 * q + 1) * mask;
    DivUnique(nextByte + mask, mask, 2 * q + 1, 0);
  }

  lemma Distribute(a: nat, b: nat, p: nat)
    ensures (a + b) * p == a * p + b * p
  {
  }

  lemma PackedOneMore(bits: seq<bool>, b: bool)
    ensures Packed(bits + [b]) == Packed(bits) + if b then Pow2(BitPlace(|bits|)) else 0
  {
    assert (bits + [b])[..|bits|] == bits;
  }

  lemma PackedSnoc(bits: seq<bool>, bit: nat, nextByte: nat, mask: nat, output: nat, b: bool)
    requires PartialByte(bits, bit, nextByte, mask, output)
    ensures Packed(bits + [b]) == output + (nextByte + if b then mask else 0) * Pow2(bit)
  {
    var k := 7 - |bits| % 8;
    PackedOneMore(bits, b);
    Pow2Add(k, bit);
    Distribute(nextByte, mask, Pow2(bit));
    assert BitPlace(|bits|) == k + bit;
  }

  lemma EmptyByte(bits: seq<bool>)
    requires |bits| == 0
    ensures PartialByte(bits, 0, 0, 0x80, 0)
  {
    MaskHalves(7);
  }

  lemma MaskHalves(k: nat)
    ensures k > 0 ==> Pow2(k) / 2 == Pow2(k - 1) && Pow2(k - 1) > 0
    ensures Pow2(0) / 2 == 0
    ensures Pow2(7) == 0x80
  {
  }

  lemma ByteIndex(n: nat)
    ensures n % 8 != 7 ==> (n + 1) / 8 == n / 8 && (n + 1) % 8 == n % 8 + 1
    ensures n % 8 == 7 ==> (n + 1) / 8 == n / 8 + 1 && (n + 1) % 8 == 0
  {
  }

  /** One more bit in the current byte. */
  lemma BytePut(bits: seq<bool>, bit: nat, nextByte: nat, mask: nat, output: nat, b: bool)
    requires PartialByte(bits, bit, nextByte, mask, output)
    ensures var next := if b then OrMask(nextByte, mask) else nextByte;
            && (mask / 2 != 0 ==> PartialByte(bits + [b], bit, next, mask / 2, output))
            && (mask / 2 == 0 ==> PartialByte(bits + [b], bit + 8, 0, 0x80, output + next * Pow2(bit)))
            && (mask / 2 == 0 <==> |bits| % 8 == 7)
  {
    OrClear(nextByte, mask);
    PackedSnoc(bits, bit, nextByte, mask, output, b);
    MaskHalves(7 - |bits| % 8);
    ByteIndex(|bits|);
  }

  /** A byte becomes full exactly when the number of bits reaches a multiple of 8. */
  lemma ByteCount(bits: seq<bool>, bit: nat, nextByte: nat, mask: nat, output: nat)
    requires PartialByte(bits, bit, nextByte, mask, output)
    ensures bit == 8 * (|bits| / 8)
    ensures mask == 0x80 ==> |bits| % 8 == 0 && output == Packed(bits)
    ensures Packed(bits) == output + nextByte * Pow2(bit)
  {
    if mask == 0x80 { FullByte(|bits| % 8); }
  }

  class BitPacker {
    var bit: nat
    var nextByte: nat
    var mask: nat
    var output: nat
    var bitc: nat
    var pendingBits: nat
    /** Every bit put so far. */
    ghost var bits: seq<bool>

    ghost predicate Overflown()
      reads this
    {
      |bits| >= CODE_LIMIT && bits[CODE_LIMIT - 1]
    }

    ghost predicate Valid()
      reads this
    {
      && (|bits| < CODE_LIMIT ==> bitc == |bits| && PartialByte(bits, bit, nextByte, mask, output))
      && (|bits| >= CODE_LIMIT ==> bit == CODE_LIMIT)
      && (|bits| >= CODE_LIMIT && !Overflown() ==> bitc >= CODE_LIMIT && output == Packed(FirstBits(bits)))
      && (Overflown() ==> output == 0)
    }

    constructor ()
      ensures Valid() && bits == [] && pendingBits == 0
    {
      bit, nextByte, mask, output, bitc, pendingBits := 0, 0, 0x80, 0, 0, 0;
      ghost var none: seq<bool> :| |none| == 0;
      bits := none;
      new;
      EmptyByte(none);
    }

    method PutBit(b: bool)
      requires Valid()
      modifies this
      ensures Valid() && bits == old(bits) + [b] && pendingBits == old(pendingBits)
    {
      hide PartialByte, Packed, OrMask, Pow2;
      if b && bitc == 63 {
        output := 0;
        bit := 64;
      } else {
        if |bits| < CODE_LIMIT {
          BytePut(bits, bit, nextByte, mask, output, b);
          ByteCount(bits, bit, nextByte, mask, output);
        }
        bitc := bitc + 1;
        if b { nextByte := OrMask(nextByte, mask); }
        mask := mask / 2;
        if mask == 0 && bit < 64 {
          output := output + nextByte * Pow2(bit);
          bit := bit + 8;
          mask := 0x80;
          nextByte := 0;
        }
      }
      bits := bits + [b];
      assert FirstBits(bits) == if old(|bits|) < CODE_LIMIT then bits else FirstBits(old(bits));
    }

    method PutBitPlusPending(b: bool)
      requires Valid()
      modifies this
      ensures Valid() && pendingBits == 0
      ensures bits == old(bits) + [b] + Repeat(!b, old(pendingBits))
    {
      hide PartialByte, Packed, FirstBits, Num;
      PutBit(b);
      ghost var done := 0;
      while pendingBits != 0
        invariant Valid() && done + pendingBits == old(pendingBits)
        invariant bits == old(bits) + [b] + Repeat(!b, done)
        decreases pendingBits
      {
        PutBit(!b);
        pendingBits := pendingBits - 1;
        assert Repeat(!b, done + 1) == Repeat(!b, done) + [!b];
        done := done + 1;
      }
    }
  }

  /** The encoder's variables as one specification state. */
  ghost function CoderOf(low: int, high: int, packer: BitPacker): Coder
    reads packer
  {
    Coder(low, high, packer.pendingBits, packer.bits)
  }

  lemma StepStaysBounded(e: Coder)
    requires Bounded(e.low, e.high) && Unsettled(e)
    ensures Bounded(Step(e).low, Step(e).high)
    ensures |Step(e).bits| < CODE_LIMIT ==>
              |Step(e).bits| > |e.bits| || (|Step(e).bits| == |e.bits| && Step(e).high - Step(e).low > e.high - e.low)
  {
    hide Renormalise;
  }

  lemma RenormaliseStep(e: Coder)
    requires Bounded(e.low, e.high)
    ensures Unsettled(e) ==> Bounded(Step(e).low, Step(e).high) && Renormalise(e) == Renormalise(Step(e))
    ensures Unsettled(e) && |Step(e).bits| < CODE_LIMIT ==>
              |Step(e).bits| > |e.bits| || (|Step(e).bits| == |e.bits| && Step(e).high - Step(e).low > e.high - e.low)
    ensures !Unsettled(e) ==> Renormalise(e) == e
  {
    if Unsettled(e) { StepStaysBounded(e); }
  }

  /** One round of the inner loop. */
  method ShiftOut(low0: int, high0: int, packer: BitPacker) returns (low: int, high: int, more: bool)
    requires packer.Valid() && Bounded(low0, high0) && |packer.bits| < CODE_LIMIT
    modifies packer
    ensures packer.Valid() && more == Unsettled(old(CoderOf(low0, high0, packer)))
    ensures CoderOf(low, high, packer) ==
            if more then Step(old(CoderOf(low0, high0, packer))) else old(CoderOf(low0, high0, packer))
  {
    low, high, more := low0, high0, true;
    if high < ONE_HALF {
      packer.PutBitPlusPending(false);
    } else if low >= ONE_HALF {
      packer.PutBitPlusPending(true);
    } else if low >= ONE_FOURTH && high < THREE_FOURTHS {
      packer.pendingBits := packer.pendingBits + 1;
      low := low - ONE_FOURTH;
      high := high - ONE_FOURTH;
    } else {
      return low, high, false;
    }
    high := (2 * high + 1) % CODE_SPAN;
    low := 2 * low % CODE_SPAN;
  }

  /** The inner loop: shift out settled bits. */
  method RenormaliseLoop(low0: int, high0: int, packer: BitPacker) returns (low: int, high: int)
    requires packer.Valid() && Bounded(low0, high0)
    modifies packer
    ensures packer.Valid() && Bounded(low, high)
    ensures CoderOf(low, high, packer) == Renormalise(old(CoderOf(low0, high0, packer)))
  {
    low, high := low0, high0;
    var more := true;
    while more && packer.bit < 64
      invariant packer.Valid() && Bounded(low, high)
      invariant Renormalise(CoderOf(low, high, packer)) == Renormalise(old(CoderOf(low0, high0, packer)))
      invariant more || !Unsettled(CoderOf(low, high, packer))
      decreases more, if |packer.bits| < CODE_LIMIT then CODE_LIMIT - |packer.bits| else 0, MAX_CODE - (high - low)
    {
      RenormaliseStep(CoderOf(low, high, packer));
      low, high, more := ShiftOut(low, high, packer);
    }
    RenormaliseStep(CoderOf(low, high, packer));
  }

  /** Take the next symbol into the interval. */
  method TakeSymbol(cf: seq<seq<nat>>, lastByte: Symbol, c: Symbol, low0: int, high0: int, packer: BitPacker)
    returns (low: int, high: int)
    requires ValidTable(cf) && packer.Valid() && Bounded(low0, high0)
    modifies packer
    ensures packer.Valid() && Bounded(low, high)
    ensures CoderOf(low, high, packer) == Next(cf, lastByte, old(CoderOf(low0, high0, packer)), c)
  {
    var row := cf[lastByte];
    NarrowBounded(CoderOf(low0, high0, packer), row, c);
    var pLow, pHigh, pCount := row[c], row[c as int + 1], row[27];
    var range := high0 - low0 + 1;
    high := low0 + range * pHigh / pCount - 1;
    low := low0 + range * pLow / pCount;
    low, high := RenormaliseLoop(low, high, packer);
  }

  lemma CodeSymbolsStep(cf: seq<seq<nat>>, ctx: Symbol, e: Coder, syms: seq<Symbol>)
    requires ValidTable(cf) && Bounded(e.low, e.high) && syms != [] && |e.bits| < CODE_LIMIT
    ensures var e' := Next(cf, ctx, e, syms[0]);
            Bounded(e'.low, e'.high) && CodeSymbols(cf, ctx, e, syms) == CodeSymbols(cf, syms[0], e', syms[1..])
  {
    NarrowBounded(e, cf[ctx], syms[0]);
  }

  lemma CodeSymbolsDone(cf: seq<seq<nat>>, ctx: Symbol, e: Coder, syms: seq<Symbol>)
    requires ValidTable(cf) && Bounded(e.low, e.high) && (syms == [] || |e.bits| >= CODE_LIMIT)
    ensures CodeSymbols(cf, ctx, e, syms) == Coded(e, syms)
  {
  }

  /** What is left to code from position i: the rest of the name and the terminator. */
  function RestFrom(s: seq<int>, i: nat): seq<Symbol>
    requires i <= |s|
  {
    Symbols(s)[i..] + [0]
  }

  lemma RestStep(s: seq<int>, i: nat)
    requires i <= |s|
    ensures i < |s| ==> RestFrom(s, i)[0] == SymbolOf(s[i]) && RestFrom(s, i)[1..] == RestFrom(s, i + 1)
    ensures i == |s| ==> RestFrom(s, i) == [0] && RestFrom(s, i)[1..] == []
  {
  }

  /** The next symbol of the name, or the terminator at its end. */
  method GetByte(s: seq<int>, i: nat) returns (c: Symbol, next: nat)
    requires i <= |s|
    ensures i < |s| ==> c == SymbolOf(s[i]) && next == i + 1
    ensures i == |s| ==> c == 0 && next == i
  {
    if i >= |s| { return 0, i; }
    return SymbolOf(s[i]), i + 1;
  }

  /** One round of the outer loop: the next symbol goes into the interval. */
  method CodeNext(cf: seq<seq<nat>>, s: seq<int>, lastByte: Symbol, inputIdx: nat, low0: int, high0: int, packer: BitPacker)
    returns (c: Symbol, next: nat, low: int, high: int, ghost rest: seq<Symbol>)
    requires ValidTable(cf) && packer.Valid() && Bounded(low0, high0) && inputIdx <= |s| && Compressible(s)
    requires |packer.bits| < CODE_LIMIT
    modifies packer
    ensures packer.Valid() && Bounded(low, high) && next <= |s| && (c == 0 ==> next == |s|)
    ensures rest == if c == 0 then [] else RestFrom(s, next)
    ensures |rest| < |RestFrom(s, inputIdx)|
    ensures CodeSymbols(cf, lastByte, old(CoderOf(low0, high0, packer)), RestFrom(s, inputIdx)) ==
            CodeSymbols(cf, c, CoderOf(low, high, packer), rest)
  {
    hide CodeSymbols, Renormalise;
    CodeSymbolsStep(cf, lastByte, CoderOf(low0, high0, packer), RestFrom(s, inputIdx));
    RestStep(s, inputIdx);
    c, next := GetByte(s, inputIdx);
    low, high := TakeSymbol(cf, lastByte, c, low0, high0, packer);
    rest := RestFrom(s, inputIdx)[1..];
  }

  /** The outer loop: code the symbols, then put the closing bits. */
  method CompressLoop(cf: seq<seq<nat>>, s: seq<int>) returns (output: nat)
    requires ValidTable(cf) && Compressible(s)
    ensures output == CompressedCode(cf, s)
  {
    hide CodeSymbols, Renormalise, Packed;
    var packer := new BitPacker();
    var lastByte: Symbol := 0;
    var inputIdx: nat := 0;
    var low, high := 0, MAX_CODE;
    var c: Symbol := 1;
    ghost var rest: seq<Symbol> := RestFrom(s, 0);
    assert rest == Symbols(s) + [0] && CoderOf(low, high, packer) == START;
    while c != 0 && packer.bit < 64
      invariant packer.Valid() && fresh(packer) && Bounded(low, high)
      invariant inputIdx <= |s| && (c == 0 ==> inputIdx == |s|)
      invariant rest == if c == 0 then [] else RestFrom(s, inputIdx)
      invariant CodeSymbols(cf, lastByte, CoderOf(low, high, packer), rest) == EncoderRun(cf, s)
      decreases |rest|
    {
      c, inputIdx, low, high, rest := CodeNext(cf, s, lastByte, inputIdx, low, high, packer);
      lastByte := c;
    }
    CodeSymbolsDone(cf, lastByte, CoderOf(low, high, packer), rest);
    output := Finish(low, packer, high);
    if inputIdx < |s| || c != 0 { output := 0; }
  }

  /** The closing bits and the last, partial byte. */
  method Finish(low: int, packer: BitPacker, ghost high: int) returns (output: nat)
    requires packer.Valid()
    modifies packer
    ensures var bits := Closed(old(CoderOf(low, high, packer))).bits;
            output == if |bits| >= CODE_LIMIT && bits[CODE_LIMIT - 1] then 0 else Packed(FirstBits(bits))
  {
    hide PartialByte, Packed, Pow2;
    packer.pendingBits := packer.pendingBits + 1;
    packer.PutBitPlusPending(low >= ONE_FOURTH);
    output := packer.output;
    if |packer.bits| < CODE_LIMIT {
      ByteCount(packer.bits, packer.bit, packer.nextByte, packer.mask, packer.output);
    }
    if packer.mask != 0x80 && packer.bit < 64 {
      output := output + packer.nextByte * Pow2(packer.bit);
    }
  }

  /** The mask is back at the top only between bytes. */
  lemma FullByte(k: nat)
    requires k < 8 && Pow2(7 - k) == 0x80
    ensures k == 0
  {
    MaskHalves(7);
    if k > 0 { Pow2Mono(7 - k, 6); }
  }

  /** The number of a '#' name: its letters are nibbles, low end first. */
  method HashNumber(s: seq<int>) returns (r: NameResult)
    requires |s| == 17
    ensures r == if exists i :: 1 <= i < 17 && s[i] >= CHAR_TABLE_SIZE then Throws else Number(NibblesValue(s[1..]))
  {
    var output := 0;
    var i := 1;
    while i < 17
      invariant 1 <= i <= 17
      invariant forall j :: 1 <= j < i ==> s[j] < CHAR_TABLE_SIZE
      invariant output + Pow16(i - 1) * NibblesValue(s[i..]) == NibblesValue(s[1..])
    {
      if s[i] >= CHAR_TABLE_SIZE { return Throws; }
      NibbleStep(s, i);
      output := output + Nibble(s[i]) * Pow16(i - 1);
      i := i + 1;
    }
    assert s[17..] == [];
    return Number(output);
  }

  lemma NibbleStep(s: seq<int>, i: nat)
    requires 1 <= i < |s|
    ensures Pow16(i - 1) * NibblesValue(s[i..]) == Nibble(s[i]) * Pow16(i - 1) + Pow16(i) * NibblesValue(s[i + 1..])
  {
    assert s[i..][1..] == s[i + 1..];
    Spread(Pow16(i - 1), Nibble(s[i]), NibblesValue(s[i + 1..]));
  }

  lemma Spread(p: nat, n: nat, v: nat)
    ensures p * (n + 16 * v) == n * p + 16 * p * v
  {
  }

  method NameToNumber(cf: seq<seq<nat>>, hash: seq<int> -> nat, s: seq<int>) returns (r: NameResult)
    requires ValidTable(cf)
    ensures r == NameCode(cf, hash, s)
  {
    if |s| == 0 { return Number(0); }
    if s[0] == HASH_SIGN {
      if |s| != 17 { return Number(NOT_A_NAME); }
      r := HashNumber(s);
      return;
    }
    var i := 0;
    while i < |s|
      invariant i <= |s| && forall j :: 0 <= j < i ==> SymbolOf(s[j]) != 0
    {
      if SymbolOf(s[i]) == 0 { return Number(0); }
      i := i + 1;
    }
    var output := CompressLoop(cf, s);
    if output == 0 { output := Marked(hash(s)); }
    return Number(output);
  }

  // ---------------------------------------------------------------- decoder

  /** A bit of one byte of x is the stream's bit. */
  lemma ByteBit(x: nat, i: nat)
    requires x <= NOT_A_NAME
    ensures x / Pow2(8 * (i / 8)) % 256 / Pow2(7 - i % 8) % 2 == 1 <==> StreamBit(x, i)
  {
    hide Pow2;
    var k := 7 - i % 8;
    var y := x / Pow2(8 * (i / 8));
    if i < CODE_LIMIT {
      LowByteBit(y, k);
      Pow2Add(8 * (i / 8), k);
      DivDiv(x, Pow2(8 * (i / 8)), Pow2(k));
    } else {
      NothingAbove(x, 8 * (i / 8));
      DivUnique(0, Pow2(k), 0, 0);
    }
  }

  lemma NothingAbove(x: nat, n: nat)
    requires x <= NOT_A_NAME && n >= CODE_LIMIT
    ensures x / Pow2(n) == 0
  {
    SixtyFourBits();
    Pow2Mono(CODE_LIMIT, n);
    DivUnique(x, Pow2(n), 0, x);
  }

  lemma SixtyFourBits()
    ensures Pow2(CODE_LIMIT) == NOT_A_NAME + 1
  {
    MaskHalves(7);
    Pow2Add(7, 1);
    Pow2Add(8, 8);
    Pow2Add(16, 16);
    Pow2Add(32, 32);
  }

  lemma LowByteBit(y: nat, k: nat)
    requires k < 8
    ensures y % 256 / Pow2(k) % 2 == y / Pow2(k) % 2
  {
    var p, h := Pow2(k), Pow2(7 - k);
    MaskHalves(7);
    Pow2Add(k, 7 - k);
    var q := y / 256;
    assert y == y % 256 + 256 * q;
    Regroup(q, h, p);
    AddEvenMultiple(y % 256, p, q * h);
  }

  lemma Regroup(q: nat, h: nat, p: nat)
    requires p * h == 128
    ensures 2 * (q * h) * p == 256 * q
  {
    assert 2 * (q * h) * p == 2 * q * (p * h);
  }

  /** The mask reaches the last bit of a byte exactly at a byte's end. */
  lemma LastMaskPlace(taken: nat)
    requires taken > 0
    ensures Pow2(7 - (taken - 1) % 8) == 1 <==> taken % 8 == 0
    ensures taken % 8 != 0 ==> Pow2(7 - (taken - 1) % 8) / 2 == Pow2(7 - taken % 8)
  {
    ByteIndex(taken - 1);
    MaskHalves(7 - (taken - 1) % 8);
  }

  lemma NextByte(x: nat, taken: nat)
    requires taken % 8 == 0
    ensures (taken + 8) / 8 == taken / 8 + 1 && (taken + 7) / 8 == taken / 8
    ensures x / Pow2(8 * (taken / 8)) / 256 == x / Pow2(8 * (taken / 8 + 1))
  {
    var k := 8 * (taken / 8);
    MaskHalves(7);
    Pow2Add(7, 1);
    Pow2Add(k, 8);
    DivDiv(x, Pow2(k), 256);
  }

  /** The reader's fields after `taken` bits of x. */
  ghost predicate Reading(x: nat, taken: nat, input: nat, currentByte: nat, lastMask: nat) {
    && input == x / Pow2(8 * ((taken + 7) / 8))
    && (taken == 0 ==> lastMask == 1)
    && (taken > 0 ==> currentByte == x / Pow2(8 * ((taken - 1) / 8)) % 256
                      && lastMask == Pow2(7 - (taken - 1) % 8))
  }

  /** A new byte is loaded at a byte's end, and only there. */
  lemma ReadNext(x: nat, taken: nat, input: nat, currentByte: nat, lastMask: nat)
    requires x <= NOT_A_NAME && Reading(x, taken, input, currentByte, lastMask)
    ensures lastMask == 1 <==> taken % 8 == 0
    ensures lastMask == 1 ==> Reading(x, taken + 1, input / 256, input % 256, 0x80)
    ensures lastMask != 1 ==> Reading(x, taken + 1, input, currentByte, lastMask / 2)
  {
    MaskHalves(7);
    if taken > 0 { LastMaskPlace(taken); }
    if taken % 8 == 0 {
      NextByte(x, taken);
    } else {
      ByteIndex(taken - 1);
      assert (taken + 8) / 8 == (taken + 7) / 8;
    }
  }

  class BitReader {
    /** The number being read and how many of its bits have been. */
    ghost const number: nat
    ghost var taken: nat

    var input: nat
    var currentByte: nat
    var lastMask: nat
    var notEof: nat

    ghost predicate Valid()
      reads this
    {
      number <= NOT_A_NAME && taken + notEof == 80 && Reading(number, taken, input, currentByte, lastMask)
    }

    constructor (x: nat)
      requires x <= NOT_A_NAME
      ensures Valid() && number == x && taken == 0
    {
      number, taken := x, 0;
      input, currentByte, lastMask, notEof := x, 0, 1, 80;
    }

    method GetBit() returns (b: bool)
      requires Valid() && notEof > 0
      modifies this
      ensures Valid() && taken == old(taken) + 1
      ensures b == StreamBit(number, old(taken))
    {
      hide StreamBit, Pow2;
      ReadNext(number, taken, input, currentByte, lastMask);
      if lastMask == 1 {
        currentByte := input % 256;
        input := input / 256;
        lastMask := 0x80;
      } else {
        lastMask := lastMask / 2;
      }
      notEof := notEof - 1;
      b := currentByte / lastMask % 2 == 1;
      ByteBit(number, taken);
      taken := taken + 1;
    }
  }

  /** The decoder's variables as one specification window. */
  ghost function WindowOf(low: int, high: int, value: int, reader: BitReader): Window
    requires reader.taken >= CODE_BITS
    reads reader
  {
    Window(low, high, value, reader.taken - CODE_BITS)
  }

  /** What one round of the decoder's inner loop subtracts. */
  function WindowDrop(w: Window): int {
    if w.high < ONE_HALF then 0 else if w.low >= ONE_HALF then ONE_HALF else ONE_FOURTH
  }

  predicate Unspread(w: Window) {
    w.high < ONE_HALF || w.low >= ONE_HALF || (w.low >= ONE_FOURTH && w.high < THREE_FOURTHS)
  }

  lemma SettleStep(x: nat, w: Window)
    requires Inside(w) && w.used < SHIFT_LIMIT
    ensures Unspread(w) ==> var n := Shifted(x, w, WindowDrop(w)); Inside(n) && Settle(x, w) == Settle(x, n)
    ensures !Unspread(w) ==> Settle(x, w) == w
  {
  }

  /** The inner loop: drop settled bits and pull in as many new ones. */
  method SettleLoop(low0: int, high0: int, value0: int, reader: BitReader) returns (low: int, high: int, value: int)
    requires reader.Valid() && reader.taken >= CODE_BITS && Inside(WindowOf(low0, high0, value0, reader))
    modifies reader
    ensures reader.Valid() && reader.taken >= CODE_BITS
    ensures WindowOf(low, high, value, reader) == Settle(reader.number, old(WindowOf(low0, high0, value0, reader)))
  {
    low, high, value := low0, high0, value0;
    ghost var w := WindowOf(low, high, value, reader);
    while reader.notEof != 0
      invariant reader.Valid() && reader.taken >= CODE_BITS && w == WindowOf(low, high, value, reader)
      invariant Inside(w)
      invariant Settle(reader.number, w) == Settle(reader.number, old(WindowOf(low0, high0, value0, reader)))
      decreases reader.notEof
    {
      SettleStep(reader.number, w);
      if high < ONE_HALF {
      } else if low >= ONE_HALF {
        value := value - ONE_HALF;
        low := low - ONE_HALF;
        high := high - ONE_HALF;
      } else if low >= ONE_FOURTH && high < THREE_FOURTHS {
        value := value - ONE_FOURTH;
        low := low - ONE_FOURTH;
        high := high - ONE_FOURTH;
      } else {
        break;
      }
      low := 2 * low;
      high := 2 * high + 1;
      var b := reader.GetBit();
      value := 2 * value + (if b then 1 else 0);
      w := Shifted(reader.number, w, WindowDrop(w));
    }
  }

  /** The search loop over one row. */
  method SearchRow(row: seq<nat>, scaledValue: int) returns (c: Symbol)
    requires ValidRow(row)
    ensures c == FindSymbol(row, scaledValue, 0)
  {
    c := 0;
    var i := 0;
    while i < 27
      invariant i <= 27 && c == 0
      invariant FindSymbol(row, scaledValue, i) == FindSymbol(row, scaledValue, 0)
    {
      if scaledValue < row[i + 1] {
        c := i;
        break;
      }
      i := i + 1;
    }
  }

  /** The 17 bits the decoder starts from. */
  method FirstValue(reader: BitReader) returns (value: nat)
    requires reader.Valid() && reader.taken == 0
    modifies reader
    ensures reader.Valid() && reader.taken == CODE_BITS && value == Prefix(reader.number, CODE_BITS)
  {
    value := 0;
    var i := 0;
    while i < CODE_BITS && reader.notEof != 0
      invariant reader.Valid() && reader.taken == i <= CODE_BITS
      invariant value == Prefix(reader.number, i)
    {
      var b := reader.GetBit();
      value := 2 * value + (if b then 1 else 0);
      i := i + 1;
    }
  }

  /** One round of the outer loop. An empty range or an empty row, which the source also
      tests for, cannot occur here. */
  method DecodeOne(cf: seq<seq<nat>>, lastByte: Symbol, low0: int, high0: int, value0: int, reader: BitReader)
    returns (c: Symbol, low: int, high: int, value: int)
    requires ValidTable(cf) && reader.Valid() && reader.taken >= CODE_BITS
    requires Inside(WindowOf(low0, high0, value0, reader))
    modifies reader
    ensures reader.Valid() && reader.taken >= CODE_BITS
    ensures var w := old(WindowOf(low0, high0, value0, reader));
            && c == NextSymbol(cf, lastByte, w)
            && (c != 0 ==> WindowOf(low, high, value, reader) == Settle(reader.number, Zoom(w, cf[lastByte], c)))
  {
    var range := high0 - low0 + 1;
    var row := cf[lastByte];
    var count := row[27];
    var scaledValue := ((value0 - low0 + 1) * count - 1) / range;
    c := SearchRow(row, scaledValue);
    ghost var w := WindowOf(low0, high0, value0, reader);
    assert scaledValue == Scaled(w) && c == NextSymbol(cf, lastByte, w);
    low, high, value := low0, high0, value0;
    if c == 0 { return; }
    var pLow, pHigh := row[c], row[c as int + 1];
    high := low0 + range * pHigh / count - 1;
    low := low0 + range * pLow / count;
    low, high, value := SettleLoop(low, high, value0, reader);
  }

  /** The outer loop: decode letters until the terminator or the end of the input. */
  method DecompressLoop(cf: seq<seq<nat>>, x: nat) returns (out: seq<int>)
    requires ValidTable(cf) && x <= NOT_A_NAME
    ensures out == Letters(DecodeSymbols(cf, x, 0, FirstWindow(x)))
  {
    var reader := new BitReader(x);
    var lastByte: Symbol := 0;
    var value: int := FirstValue(reader);
    var low, high := 0, MAX_CODE;
    ghost var syms: seq<Symbol> := [];
    out := [];
    ghost var w := WindowOf(low, high, value, reader);
    assert w == FirstWindow(x);
    while reader.notEof != 0
      invariant reader.Valid() && fresh(reader) && reader.number == x && reader.taken >= CODE_BITS
      invariant w == WindowOf(low, high, value, reader) && Ready(w)
      invariant syms + DecodeSymbols(cf, x, lastByte, w) == DecodeSymbols(cf, x, 0, FirstWindow(x))
      invariant out == Letters(syms)
      decreases SHIFT_LIMIT - w.used, if lastByte == 0 then 1 else 0, w.high - w.low
    {
      var c;
      c, low, high, value := DecodeOne(cf, lastByte, low, high, value, reader);
      if c == 0 { break; }
      DecodeStep(cf, x, lastByte, w);
      out := out + [SYMBOL_TO_CHAR[c]];
      syms := syms + [c];
      w := Settle(x, Zoom(w, cf[lastByte], c));
      lastByte := c;
    }
  }

  /** One decoded symbol: what remains is smaller. */
  lemma DecodeStep(cf: seq<seq<nat>>, x: nat, ctx: Symbol, w: Window)
    requires ValidTable(cf) && Ready(w) && w.used < SHIFT_LIMIT && NextSymbol(cf, ctx, w) != 0
    ensures var c := NextSymbol(cf, ctx, w); var z := Zoom(w, cf[ctx], c);
            && Inside(z) && Ready(Settle(x, z))
            && DecodeSymbols(cf, x, ctx, w) == [c] + DecodeSymbols(cf, x, c, Settle(x, z))
            && (Settle(x, z).used == w.used ==> Settle(x, z) == z)
            && (ctx != 0 ==> z.high - z.low < w.high - w.low)
  {
    var c := NextSymbol(cf, ctx, w);
    if ctx != 0 { ZoomShrinks(w, cf[ctx], c); ZoomWithin(w, cf[ctx], c); }
  }

  method NumberToName(cf: seq<seq<nat>>, input: nat) returns (name: seq<int>)
    requires ValidTable(cf) && input <= NOT_A_NAME
    ensures name == NameOf(cf, input)
  {
    if input == 0 { return []; }
    if IsHashName(input) {
      name := [HASH_SIGN];
      var r := input;
      var i := 0;
      while i < 16
        invariant i <= 16 && r == input / Pow16(i)
        invariant name == [HASH_SIGN] + NibbleLetters(input, i)
      {
        name := name + [SYMBOL_TO_CHAR[r % 16 + 1]];
        assert NibbleLetters(input, i + 1) == NibbleLetters(input, i) + [SYMBOL_TO_CHAR[NibbleAt(input, i) + 1]];
        NextNibble(input, i);
        r := r / 16;
        i := i + 1;
      }
      return;
    }
    name := DecompressLoop(cf, input);
  }

  lemma NextNibble(x: nat, i: nat)
    ensures x / Pow16(i) / 16 == x / Pow16(i + 1)
  {
    DivDiv(x, Pow16(i), 16);
  }
}
