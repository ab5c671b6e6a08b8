/** Where the stored code of a name lies, bit by bit, and when closing and cutting it off leave it in
    the final interval. */
module NameCodes {
  import opened Powers
  import opened NameCoder
  import opened NameRoundTrip

  // ---------------------------------------------------------------- stored bits are read back

  lemma AddMultiple(y: nat, d: nat, m: nat)
    requires d > 0
    ensures (y + m * d) / d == y / d + m
  {
    var q, r := y / d, y % d;
    assert y == q * d + r;
    assert (q + m) * d == q * d + m * d;
    DivUnique(y + m * d, d, q + m, r);
  }

  lemma EvenKeepsParity(q: nat, h: nat)
    ensures (q + 2 * h) % 2 == q % 2
  {
  }

  lemma AddEvenMultiple(y: nat, d: nat, h: nat)
    requires d > 0
    ensures (y + 2 * h * d) / d % 2 == y / d % 2
  {
    AddMultiple(y, d, 2 * h);
    EvenKeepsParity(y / d, h);
  }

  lemma SetBitAbove(y: nat, k: nat, j: nat)
    requires j < k
    ensures (y + Pow2(k)) / Pow2(j) % 2 == y / Pow2(j) % 2
  {
    var d, h := Pow2(j), Pow2(k - j - 1);
    Pow2Add(k - j, j);
    AddEvenMultiple(y, d, h);
  }

  lemma SetBitHere(y: nat, k: nat)
    requires y / Pow2(k) % 2 == 0
    ensures (y + Pow2(k)) / Pow2(k) % 2 == 1
  {
    AddMultiple(y, Pow2(k), 1);
  }

  lemma AddBelowHalf(y: nat, p: nat)
    requires p > 0 && y / p % 2 == 0
    ensures (y + p) / (2 * p) == y / (2 * p)
  {
    var a, b := y / p / 2, y % p;
    assert y / p == 2 * a;
    assert y == y / p * p + b;
    assert 2 * a * p == a * (2 * p);
    DivUnique(y, 2 * p, a, b);
    DivUnique(y + p, 2 * p, a, b + p);
  }

  lemma SetBitUnder(y: nat, k: nat, j: nat)
    requires k < j && y / Pow2(k) % 2 == 0
    ensures (y + Pow2(k)) / Pow2(j) == y / Pow2(j)
  {
    var p, m := 2 * Pow2(k), Pow2(j - k - 1);
    assert Pow2(k + 1) == p;
    Pow2Add(k + 1, j - k - 1);
    AddBelowHalf(y, Pow2(k));
    DivDiv(y, p, m);
    DivDiv(y + Pow2(k), p, m);
  }

  /** Adding a power of two whose bit is clear sets that bit and changes no other. */
  lemma SetClearBit(y: nat, k: nat, j: nat)
    requires y / Pow2(k) % 2 == 0
    ensures (y + Pow2(k)) / Pow2(j) % 2 == if j == k then 1 else y / Pow2(j) % 2
  {
    if j < k {
      SetBitAbove(y, k, j);
    } else if j == k {
      SetBitHere(y, k);
    } else {
      SetBitUnder(y, k, j);
    }
  }

  lemma BitPlaceInjective(i: nat, j: nat)
    requires BitPlace(i) == BitPlace(j)
    ensures i == j
  {
  }

  /** The bit of number x at the i-th place. */
  function PlaceBit(x: nat, i: nat): nat {
    x / Pow2(BitPlace(i)) % 2
  }

  lemma SetPlace(x: nat, n: nat, i: nat)
    requires PlaceBit(x, n) == 0
    ensures PlaceBit(x + Pow2(BitPlace(n)), i) == if i == n then 1 else PlaceBit(x, i)
  {
    SetClearBit(x, BitPlace(n), BitPlace(i));
    if BitPlace(i) == BitPlace(n) { BitPlaceInjective(i, n); }
  }

  lemma NoBits(i: nat)
    ensures PlaceBit(0, i) == 0
  {
    DivUnique(0, Pow2(BitPlace(i)), 0, 0);
  }

  /** Each place of a packed number holds the bit put there, and no other place holds one. */
  lemma {:induction false} PackedBit(bits: seq<bool>, i: nat)
    ensures PlaceBit(Packed(bits), i) == if i < |bits| && bits[i] then 1 else 0
  {
    hide PlaceBit, Packed, Pow2, BitPlace;
    PackedUnfold(bits);
    if bits == [] {
      NoBits(i);
    } else {
      var n := |bits| - 1;
      var init := bits[..n];
      PackedBit(init, i);
      PackedBit(init, n);
      if bits[n] {
        SetPlace(Packed(init), n, i);
      }
    }
  }

  lemma PackedUnfold(bits: seq<bool>)
    ensures bits == [] ==> Packed(bits) == 0
    ensures bits != [] ==>
              var n := |bits| - 1;
              Packed(bits) == Packed(bits[..n]) + if bits[n] then Pow2(BitPlace(n)) else 0
  {
  }

  /** The number of the first n bits, zeros after the last. */
  function Head(bits: seq<bool>, n: nat): nat {
    if n == 0 then 0 else 2 * Head(bits, n - 1) + (if n <= |bits| && bits[n - 1] then 1 else 0)
  }

  lemma {:induction false} HeadIsNum(bits: seq<bool>, n: nat)
    requires n <= |bits|
    ensures Head(bits, n) == Num(bits[..n])
  {
    if n > 0 {
      HeadIsNum(bits, n - 1);
      NumSnoc(bits[..n - 1], bits[n - 1]);
      assert bits[..n - 1] + [bits[n - 1]] == bits[..n];
    }
  }

  lemma {:induction false} HeadBeyond(bits: seq<bool>, k: nat)
    ensures Head(bits, |bits| + k) == Num(bits) * Pow2(k)
  {
    if k == 0 {
      HeadIsNum(bits, |bits|);
      assert bits[..|bits|] == bits;
    } else {
      HeadBeyond(bits, k - 1);
      assert 2 * (Num(bits) * Pow2(k - 1)) == Num(bits) * Pow2(k);
    }
  }

  lemma {:induction false} PrefixBelowHead(x: nat, bits: seq<bool>, n: nat)
    requires forall i: nat :: i < n && StreamBit(x, i) ==> i < |bits| && bits[i]
    ensures Prefix(x, n) <= Head(bits, n)
  {
    if n > 0 {
      PrefixBelowHead(x, bits, n - 1);
    }
  }

  lemma {:induction false} PrefixIsHead(x: nat, bits: seq<bool>, n: nat)
    requires forall i: nat :: i < n ==> (StreamBit(x, i) <==> i < |bits| && bits[i])
    ensures Prefix(x, n) == Head(bits, n)
  {
    if n > 0 {
      PrefixIsHead(x, bits, n - 1);
    }
  }

  // ---------------------------------------------------------------- where the code lies

  /** The closing bits name a fixed point of the final interval. */
  lemma ClosingPoint(f: Coder)
    ensures |Closed(f).bits| == Shifts(f) + 2
    ensures Num(Closed(f).bits) * ONE_FOURTH == Base(f) + if f.low >= ONE_FOURTH then ONE_HALF else ONE_FOURTH
  {
    var g := f.(pending := f.pending + 1);
    StraddleBase(f);
    assert Base(Straddled(f)) == Base(g);
    PutBase(g, f.low >= ONE_FOURTH);
    assert Pow2(0) == 1;
  }

  lemma FifteenBits()
    ensures Pow2(15) == ONE_FOURTH
  {
    assert Pow2(5) == 0x20;
    Pow2Add(5, 5);
    Pow2Add(10, 5);
  }

  /** The code of a run never lies above the final interval. */
  lemma CodeNotAbove(f: Coder)
    requires Settled(f)
    ensures Point(Packed(FirstBits(Closed(f).bits)), f) <= f.high
  {
    hide Pow2, Num;
    var bits := Closed(f).bits;
    var x := Packed(FirstBits(bits));
    var n := CODE_BITS + Shifts(f);
    ReadBack(bits);
    if |f.bits| < CODE_LIMIT {
      PrefixBelowHead(x, bits, n);
      ClosingPoint(f);
      HeadBeyond(bits, 15);
      FifteenBits();
    } else {
      assert forall i :: 0 <= i < |f.bits| ==> bits[i] == f.bits[i];
      PrefixBelowHead(x, f.bits, n);
      HeadBeyond(f.bits, CODE_BITS + f.pending);
      BaseAbove(f);
    }
  }

  lemma BaseAbove(f: Coder)
    ensures Num(f.bits) * Pow2(CODE_BITS + f.pending) <= Base(f)
  {
    Pow2Add(CODE_BITS, f.pending);
    Pow2Values();
    var k, n := Pow2(f.pending), Num(f.bits);
    assert k * (2 * n + 1) == 2 * (n * k) + k;
    assert n * (CODE_SPAN * k) == CODE_SPAN * (n * k);
  }

  lemma ReadBack(bits: seq<bool>)
    ensures forall i: nat :: StreamBit(Packed(FirstBits(bits)), i) <==> i < CODE_LIMIT && i < |bits| && bits[i]
  {
    forall i: nat
      ensures StreamBit(Packed(FirstBits(bits)), i) <==> i < CODE_LIMIT && i < |bits| && bits[i]
    {
      PackedBit(FirstBits(bits), i);
    }
  }

  /** When nothing set is cut off, the code is the closing point itself. */
  lemma CodeIsClosingPoint(f: Coder)
    requires Settled(f) && |f.bits| < CODE_LIMIT
    requires forall i :: CODE_LIMIT <= i < |Closed(f).bits| ==> !Closed(f).bits[i]
    ensures Point(Packed(FirstBits(Closed(f).bits)), f) >= f.low
  {
    hide Pow2, Num;
    var bits := Closed(f).bits;
    ReadBack(bits);
    PrefixIsHead(Packed(FirstBits(bits)), bits, CODE_BITS + Shifts(f));
    ClosingPoint(f);
    HeadBeyond(bits, 15);
    FifteenBits();
  }

  // ---------------------------------------------------------------- when the code is good

  /** The closing bits are stored, all but zeros; or the bits before them end in zeros from the 64th
      on and the interval starts at its origin, so that nothing is needed to close it. */
  predicate Fits(f: Coder) {
    || (|f.bits| <= 62 && (f.low >= ONE_FOURTH || |f.bits| + f.pending <= 61))
    || (|f.bits| >= 63 && f.pending == 0 && f.low == 0 && ClearFrom(f.bits, 63) && true in f.bits)
  }

  predicate ClearFrom(bits: seq<bool>, k: nat) {
    forall i :: k <= i < |bits| ==> !bits[i]
  }

  /** The code is kept as a compressed name, and lies in the final interval. */
  predicate Kept(f: Coder) {
    var bits := Closed(f).bits;
    var x := Packed(FirstBits(bits));
    (|bits| >= CODE_LIMIT ==> !bits[CODE_LIMIT - 1]) && x != 0 && Point(x, f) >= f.low
  }

  lemma ClosedBits(f: Coder)
    ensures var bits := Closed(f).bits;
            && |bits| == |f.bits| + f.pending + 2 && bits[|f.bits|] == (f.low >= ONE_FOURTH)
            && (forall i :: 0 <= i < |f.bits| ==> bits[i] == f.bits[i])
            && (forall i :: |f.bits| < i < |bits| ==> bits[i] == (f.low < ONE_FOURTH))
  {
  }

  lemma SetBitIsNotZero(bits: seq<bool>, i: nat)
    requires i < |bits| && i < CODE_LIMIT && bits[i]
    ensures Packed(FirstBits(bits)) != 0
  {
    PackedBit(FirstBits(bits), i);
    NoBits(i);
  }

  lemma {:induction false} NoSetBitIsZero(bits: seq<bool>)
    requires ClearFrom(bits, 0)
    ensures Packed(bits) == 0
  {
    if bits != [] { NoSetBitIsZero(bits[..|bits| - 1]); }
  }

  /** The closing bits are put before the 64th bit. */
  lemma ShortFits(f: Coder)
    requires Settled(f) && |f.bits| <= 62
    ensures Kept(f) <==> Fits(f)
  {
    hide Pow2, Num, Packed, Point, FirstBits;
    ClosedBits(f);
    var bits := Closed(f).bits;
    if f.low >= ONE_FOURTH {
      SetBitIsNotZero(bits, |f.bits|);
      CodeIsClosingPoint(f);
    } else if |f.bits| + f.pending <= 61 {
      SetBitIsNotZero(bits, |f.bits| + 1);
      CodeIsClosingPoint(f);
    } else {
      assert bits[CODE_LIMIT - 1];
    }
  }

  lemma {:induction false} PrefixStrictlyBelow(x: nat, bits: seq<bool>, n: nat, j: nat)
    requires forall i: nat :: i < n && StreamBit(x, i) ==> i < |bits| && bits[i]
    requires j < n && j < |bits| && bits[j] && !StreamBit(x, j)
    ensures Prefix(x, n) < Head(bits, n)
  {
    if j < n - 1 { PrefixStrictlyBelow(x, bits, n - 1, j); } else { PrefixBelowHead(x, bits, n - 1); }
  }

  /** The bits put before the closing ones reach the interval's origin, less what is pending. */
  lemma BaseExactly(f: Coder)
    ensures Num(f.bits) * Pow2(CODE_BITS + f.pending) - Base(f) == ONE_HALF - ONE_HALF * Pow2(f.pending)
  {
    Pow2Add(CODE_BITS, f.pending);
    Pow2Values();
    var k, n := Pow2(f.pending), Num(f.bits);
    assert k * (2 * n + 1) == 2 * (n * k) + k;
    assert n * (CODE_SPAN * k) == CODE_SPAN * (n * k);
  }

  /** Without closing bits the code lies at the interval's origin if nothing set is cut off and
      nothing is pending, and below it otherwise. */
  lemma CutPoint(f: Coder)
    requires |f.bits| >= 63 && (var bits := Closed(f).bits; |bits| >= CODE_LIMIT && !bits[CODE_LIMIT - 1])
    ensures var p := Point(Packed(FirstBits(Closed(f).bits)), f);
            p <= 0 && (p == 0 <==> f.pending == 0 && ClearFrom(f.bits, 63))
  {
    hide Pow2, Num, Packed, FirstBits, Base;
    ClosedBits(f);
    var bits, n := Closed(f).bits, CODE_BITS + Shifts(f);
    var x := Packed(FirstBits(bits));
    ReadBack(bits);
    StreamOfCut(f, x);
    HeadBeyond(f.bits, CODE_BITS + f.pending);
    BaseExactly(f);
    OneOrMore(f.pending);
    if ClearFrom(f.bits, 63) {
      PrefixIsHead(x, f.bits, n);
    } else {
      var j :| 63 <= j < |f.bits| && f.bits[j];
      PrefixStrictlyBelow(x, f.bits, n, j);
    }
  }

  lemma StreamOfCut(f: Coder, x: nat)
    requires |f.bits| >= 63 && (var bits := Closed(f).bits; |bits| >= CODE_LIMIT && !bits[CODE_LIMIT - 1])
    requires forall i: nat :: StreamBit(x, i) <==> i < CODE_LIMIT && i < |Closed(f).bits| && Closed(f).bits[i]
    ensures forall i: nat :: StreamBit(x, i) <==> i < 63 && f.bits[i]
  {
    hide StreamBit;
    ClosedBits(f);
  }

  lemma OneOrMore(n: nat)
    ensures Pow2(n) >= 1 && (Pow2(n) == 1 <==> n == 0)
  {
  }

  /** 63 bits or more are put before the closing ones. */
  lemma LongFits(f: Coder)
    requires Settled(f) && |f.bits| >= 63
    ensures Kept(f) <==> Fits(f)
  {
    hide Pow2, Num, Packed, Point;
    ClosedBits(f);
    var bits := Closed(f).bits;
    if bits[CODE_LIMIT - 1] {
      assert |f.bits| == 63 ==> f.low >= ONE_FOURTH;
      assert |f.bits| > 63 ==> !ClearFrom(f.bits, 63);
    } else {
      CutPoint(f);
      if f.pending == 0 && f.low == 0 && ClearFrom(f.bits, 63) {
        if true in f.bits {
          var i: nat :| i < |f.bits| && f.bits[i];
          SetBitIsNotZero(bits, i);
        } else {
          assert ClearFrom(FirstBits(bits), 0);
          NoSetBitIsZero(FirstBits(bits));
        }
      }
    }
  }

  lemma KeptIffFits(f: Coder)
    requires Settled(f)
    ensures Kept(f) <==> Fits(f)
  {
    hide Kept, Fits, Settled;
    if |f.bits| <= 62 { ShortFits(f); } else { LongFits(f); }
  }
}
