/** Narrowing binary128 to binary64, rounding to nearest, ties to even
    (cpp/external/softfloat/psio_softfloat.h, lines 104-241). */
module SoftFloat {
  import opened Powers

  const WORD := 0x1_0000_0000_0000_0000
  const TWO_50 := 0x4_0000_0000_0000
  const TWO_52 := 0x10_0000_0000_0000
  const TWO_53 := 0x20_0000_0000_0000
  const TWO_60 := 0x1000_0000_0000_0000
  const TWO_62 := 0x4000_0000_0000_0000
  const TWO_63 := 0x8000_0000_0000_0000
  const TWO_112 := 0x1_0000_0000_0000_0000_0000_0000_0000

  // ---------------------------------------------------------------- the code

  /** A binary128 by its fields. */
  datatype Binary128 = Binary128(sign: bool, exp: nat, frac: nat) {
    predicate Valid() { exp <= 0x7FFF && frac < TWO_112 }
    predicate IsNaN() { exp == 0x7FFF && frac != 0 }
  }

  /** Set the lowest bit. */
  function OrOne(n: nat): nat {
    if n % 2 == 0 then n + 1 else n
  }

  datatype UInt128 = UInt128(hi: nat, lo: nat)

  /** The two shifts of a 64-bit word. */
  function Shl(a: nat, dist: nat): nat {
    a * Pow2(dist) % WORD
  }

  function Shr(a: nat, dist: nat): nat {
    QuotientIsNat(a, Pow2(dist));
    a / Pow2(dist)
  }

  lemma QuotientIsNat(a: nat, d: nat)
    requires d >= 1
    ensures a / d >= 0
  {
  }

  /** The bits shifted out of the low word come into the high one; there they meet zeros. */
  function ShortShiftLeft128(hi: nat, lo: nat, dist: nat): UInt128
    requires 1 <= dist <= 63
  {
    UInt128(Shl(hi, dist) + Shr(lo, 64 - dist), Shl(lo, dist))
  }

  /** Shift right; bits lost are jammed into the lowest bit. */
  function ShiftRightJam64(a: nat, dist: nat): nat
    requires dist >= 1
  {
    if dist < 63 then
      if Shl(a, 64 - dist) != 0 then OrOne(Shr(a, dist)) else Shr(a, dist)
    else if a != 0 then 1 else 0
  }

  /** The encoding of a binary64: its sign and the other 63 bits; a carry out of the significand
      goes into the exponent. */
  datatype Binary64 = Binary64(sign: bool, bits: nat)

  function PackToF64(sign: bool, exp: nat, sig: nat): Binary64 {
    Binary64(sign, exp * TWO_52 + sig)
  }

  const INFINITY := 0x7FF * TWO_52

  /** Round at the lowest ten bits of sig, ties to even, and pack. */
  function RoundPackToF64(sign: bool, exp: int, sig: nat): Binary64 {
    if exp < 0 then RoundTen(sign, 0, ShiftRightJam64(sig, -exp))
    else if exp > 0x7FD || (exp == 0x7FD && sig + 0x200 >= TWO_63) then PackToF64(sign, 0x7FF, 0)
    else RoundTen(sign, exp, sig)
  }

  function RoundTen(sign: bool, exp: nat, sig: nat): Binary64 {
    var rounded := (sig + 0x200) / 1024;
    var even := if sig % 1024 == 0x200 then rounded - rounded % 2 else rounded;
    PackToF64(sign, if even == 0 then 0 else exp, even)
  }

  function F128ToF64(x: Binary128): Binary64
    requires x.Valid()
  {
    if x.exp == 0x7FFF then
      if x.frac != 0 then PackToF64(x.sign, 0x7FF, TWO_52 / 2) else PackToF64(x.sign, 0x7FF, 0)
    else
      var shifted := ShortShiftLeft128(x.frac / WORD, x.frac % WORD, 14);
      var sig := if shifted.lo != 0 then OrOne(shifted.hi) else shifted.hi;
      if x.exp == 0 && sig == 0 then PackToF64(x.sign, 0, 0)
      else RoundPackToF64(x.sign, x.exp - 0x3C01, if sig < TWO_62 then sig + TWO_62 else sig)
  }

  // ---------------------------------------------------------------- what it has to compute

  /** Magnitudes are counted in units of 2^-16494, the smallest binary128. The smallest binary64,
      2^-1074, is 2^15420 of them. */
  const UNIT := 15420

  function Value128(x: Binary128): nat {
    if x.exp == 0 then x.frac else (TWO_112 + x.frac) * Pow2(x.exp - 1)
  }

  function Significand(n: nat): nat {
    if n < TWO_52 then n else TWO_52 + n % TWO_52
  }

  function Shift(n: nat): nat {
    if n < TWO_52 then 0 else n / TWO_52 - 1
  }

  /** The magnitude of a binary64 without its sign. Infinity has the value that the next exponent
      would give, as the rule for overflow in section 4.3.1 of IEEE 754-2019 compares with. */
  function Value64(n: nat): nat {
    Significand(n) * Pow2(Shift(n) + UNIT)
  }

  function Dist(a: nat, b: nat): nat {
    if a < b then b - a else a - b
  }

  /** n is closer to v than m, or as close and even. */
  predicate Beats(v: nat, n: nat, m: nat) {
    Dist(v, Value64(n)) < Dist(v, Value64(m)) || (Dist(v, Value64(n)) == Dist(v, Value64(m)) && (n == m || n % 2 == 0))
  }

  /** n is the binary64 nearest to v, ties to even. */
  predicate NearestEven(v: nat, n: nat) {
    n <= INFINITY && forall m: nat :: m <= INFINITY ==> Beats(v, n, m)
  }

  // ---------------------------------------------------------------- sticky bits

  /** Division that keeps in its lowest bit whether there was a remainder. */
  function Jam(x: nat, d: nat): nat
    requires d >= 1
  {
    if x % d == 0 then x / d else OrOne(x / d)
  }

  /** The integer nearest to x / d, ties to even. */
  function NearestInt(x: nat, d: nat): nat
    requires d >= 1
  {
    var q, r := x / d, x % d;
    if 2 * r < d || (2 * r == d && q % 2 == 0) then q else q + 1
  }

  lemma Split(x: nat, a: nat, b: nat)
    requires a >= 1 && b >= 1
    ensures a * b >= 1 && x / (a * b) == x / a / b && x % (a * b) == x / a % b * a + x % a
  {
    DivDiv(x, a, b);
    var q := x / a;
    assert x == q * a + x % a;
    assert q == q / b * b + q % b;
    SplitProduct(q / b, b, q % b, a);
    assert x == x / (a * b) * (a * b) + x % (a * b);
  }

  lemma SplitProduct(q: nat, b: nat, r: nat, a: nat)
    ensures (q * b + r) * a == q * (a * b) + r * a
  {
  }

  lemma SameParity(q: nat, k: nat, c: nat, r: nat)
    requires q == k * (2 * c) + r
    ensures q % 2 == r % 2
  {
    assert k * (2 * c) == 2 * (k * c);
    TwiceParity(q, k * c, r);
  }

  lemma TwiceParity(q: nat, m: nat, r: nat)
    requires q == 2 * m + r
    ensures q % 2 == r % 2
  {
  }

  /** Setting the lowest bit does not change a quotient by an even number. */
  lemma OrOneDiv(q: nat, b: nat)
    requires b >= 2 && b % 2 == 0
    ensures OrOne(q) / b == q / b && OrOne(q) % b == OrOne(q % b) && q % b % 2 == q % 2
  {
    var c := Half(b);
    var k, r := Quotient(q, b);
    OrOneDivWith(q, b, c, k, r);
  }

  lemma Half(b: nat) returns (c: nat)
    requires b % 2 == 0
    ensures b == 2 * c
  {
    c := b / 2;
  }

  lemma Quotient(q: nat, b: nat) returns (k: nat, r: nat)
    requires b >= 1
    ensures q == k * b + r && r < b && k == q / b && r == q % b
  {
    k, r := q / b, q % b;
  }

  lemma OrOneDivWith(q: nat, b: nat, c: nat, k: nat, r: nat)
    requires b == 2 * c && q == k * b + r && r < b
    ensures OrOne(q) / b == k && OrOne(q) % b == OrOne(r) && r % 2 == q % 2
  {
    SameParity(q, k, c, r);
    OrOneDivAt(q, b, k, r);
  }

  lemma OrOneDivAt(q: nat, b: nat, k: nat, r: nat)
    requires q == k * b + r && r < b && q % 2 == r % 2 && b % 2 == 0
    ensures OrOne(q) / b == k && OrOne(q) % b == OrOne(r)
  {
    if q % 2 == 0 {
      EvenBelow(r, b);
      DivUnique(q + 1, b, k, r + 1);
    } else {
      DivUnique(q, b, k, r);
    }
  }

  lemma EvenBelow(r: nat, b: nat)
    requires r < b && r % 2 == 0 && b % 2 == 0
    ensures r + 1 < b
  {
  }

  lemma {:induction false} JamJam(x: nat, a: nat, b: nat)
    requires a >= 1 && b >= 2 && b % 2 == 0
    ensures a * b >= 1 && Jam(Jam(x, a), b) == Jam(x, a * b)
  {
    Split(x, a, b);
    var q, r := x / a, x % a;
    OrOneDiv(q, b);
    SumZero(q % b, a, r);
  }

  lemma SumZero(w: nat, a: nat, r: nat)
    requires a >= 1
    ensures w * a + r == 0 <==> w == 0 && r == 0
  {
    if w > 0 { assert w * a >= a; }
  }

  /** A jammed value rounds at ten bits as the exact one does. */
  lemma JamRounds(x: nat, d: nat)
    requires d >= 1
    ensures NearestInt(Jam(x, d), 1024) == NearestInt(x, d * 1024)
  {
    Split(x, d, 1024);
    var q, r := x / d, x % d;
    OrOneDiv(q, 1024);
    HalfOf(q % 1024, r, d);
  }

  lemma HalfOf(w: nat, r: nat, d: nat)
    requires d >= 1 && r < d
    ensures r == 0 ==> (2 * (w * d + r) < d * 1024 <==> w < 512) && (2 * (w * d + r) == d * 1024 <==> w == 512)
    ensures r > 0 ==> (2 * (w * d + r) < d * 1024 <==> w < 512) && 2 * (w * d + r) != d * 1024
  {
    if w < 512 {
      MulMono(w + 1, 512, d);
      assert (w + 1) * d == w * d + d;
    } else {
      MulMono(512, w, d);
      if w > 512 {
        MulMono(513, w, d);
      }
    }
  }

  // ---------------------------------------------------------------- the helpers compute these

  lemma SmallPowers()
    ensures Pow2(2) == 4 && Pow2(12) == 0x1000 && Pow2(14) == 0x4000 && Pow2(16) == 0x1_0000
  {
    assert Pow2(2) == 4;
    assert Pow2(6) == 64;
    assert Pow2(10) == 1024;
    assert Pow2(12) == 0x1000;
    assert Pow2(14) == 0x4000;
  }

  lemma TwoTo(n: nat, p: nat)
    requires (n == 14 && p == 0x4000) || (n == 50 && p == TWO_50) || (n == 60 && p == TWO_60) || (n == 64 && p == WORD)
    ensures Pow2(n) == p
  {
    hide Pow2;
    SmallPowers();
    Pow2Add(16, 16);
    Pow2Add(32, 16);
    Pow2Add(48, 2);
    Pow2Add(48, 12);
    Pow2Add(48, 16);
  }

  /** What a left shift pushes out of the word is found by the remainder. */
  lemma ShlLoses(a: nat, dist: nat)
    requires 1 <= dist <= 63
    ensures Shl(a, 64 - dist) != 0 <==> a % Pow2(dist) != 0
  {
    hide Pow2;
    TwoTo(64, WORD);
    Pow2Add(dist, 64 - dist);
    var p, c := Pow2(dist), Pow2(64 - dist);
    var q, r := a / p, a % p;
    assert a == q * p + r;
    SplitProduct(q, p, r, c);
    MulMono(r + 1, p, c);
    assert (r + 1) * c == r * c + c;
    DivUnique(a * c, WORD, q, r * c);
    SumZero(r, c, 0);
  }

  lemma ShiftRightIsJam(a: nat, dist: nat)
    requires dist >= 1 && a < TWO_63
    ensures ShiftRightJam64(a, dist) == Jam(a, Pow2(dist))
  {
    hide Pow2;
    if dist < 63 {
      ShlLoses(a, dist);
    } else {
      Pow2Mono(63, dist);
      TwoTo(64, WORD);
      Pow2Add(1, 63);
      OneIsTwo();
      SmallDiv(a, Pow2(dist));
    }
  }

  lemma OneIsTwo()
    ensures Pow2(1) == 2
  {
  }

  lemma SmallDiv(a: nat, d: nat)
    requires a < d
    ensures a / d == 0 && a % d == a
  {
  }

  /** The shifted fraction with its sticky bit, and the implicit bit over it. */
  lemma SigIsJam(frac: nat)
    requires frac < TWO_112
    ensures var shifted := ShortShiftLeft128(frac / WORD, frac % WORD, 14);
            var sig := if shifted.lo != 0 then OrOne(shifted.hi) else shifted.hi;
            sig == Jam(frac, TWO_50) && sig < TWO_62 && sig + TWO_62 == Jam(TWO_112 + frac, TWO_50)
  {
    hide Pow2;
    var hi, lo := frac / WORD, frac % WORD;
    TwoTo(14, 0x4000);
    TwoTo(50, TWO_50);
    ShlLoses(lo, 50);
    HighShift(hi);
    FracDiv(hi, lo, frac);
  }

  lemma HighShift(hi: nat)
    requires hi < 0x1_0000_0000_0000
    ensures hi * 0x4000 % WORD == hi * 0x4000
  {
    SmallDiv(hi * 0x4000, WORD);
  }

  lemma FracDiv(hi: nat, lo: nat, frac: nat)
    requires frac == hi * WORD + lo && lo < WORD && hi < 0x1_0000_0000_0000
    ensures frac / TWO_50 == hi * 0x4000 + lo / TWO_50 && frac % TWO_50 == lo % TWO_50
    ensures (TWO_112 + frac) / TWO_50 == TWO_62 + frac / TWO_50 && (TWO_112 + frac) % TWO_50 == frac % TWO_50
    ensures OrOne(hi * 0x4000 + lo / TWO_50) < TWO_62
    ensures OrOne(TWO_62 + frac / TWO_50) == TWO_62 + OrOne(frac / TWO_50)
  {
    DivUnique(frac, TWO_50, hi * 0x4000 + lo / TWO_50, lo % TWO_50);
    DivUnique(TWO_112 + frac, TWO_50, TWO_62 + frac / TWO_50, frac % TWO_50);
  }

  /** Rounding at ten bits is rounding to the nearest integer. */
  lemma RoundTenIs(sign: bool, exp: nat, sig: nat)
    ensures NearestInt(sig, 1024) == 0 ==> RoundTen(sign, exp, sig) == Binary64(sign, 0)
    ensures NearestInt(sig, 1024) > 0 ==> RoundTen(sign, exp, sig) == Binary64(sign, exp * TWO_52 + NearestInt(sig, 1024))
  {
    var q, r := sig / 1024, sig % 1024;
    assert sig + 0x200 == q * 1024 + (r + 0x200);
    if r < 0x200 {
      DivUnique(sig + 0x200, 1024, q, r + 0x200);
    } else {
      DivUnique(sig + 0x200, 1024, q + 1, r - 0x200);
    }
  }

  // ---------------------------------------------------------------- the binary64 numbers

  /** The numbers of one exponent, and the first of the next, are evenly spaced. */
  predicate InBin(e: nat, s: nat) {
    (e == 0 || s >= TWO_52) && s <= TWO_53
  }

  lemma BinValue(e: nat, s: nat)
    requires InBin(e, s)
    ensures Value64(e * TWO_52 + s) == s * Pow2(e + UNIT)
  {
    hide Pow2;
    var n := e * TWO_52 + s;
    if s < TWO_52 {
      assert n == s;
    } else if s < TWO_53 {
      assert n == (e + 1) * TWO_52 + (s - TWO_52);
      DivUnique(n, TWO_52, e + 1, s - TWO_52);
    } else {
      assert n == (e + 2) * TWO_52;
      DivUnique(n, TWO_52, e + 2, 0);
      NextPower(e + UNIT);
      assert Shift(n) + UNIT == e + UNIT + 1;
    }
  }

  lemma NextPower(k: nat)
    ensures Pow2(k + 1) == 2 * Pow2(k)
  {
  }

  /** Every number lies in a bin. */
  lemma BinOf(n: nat) returns (e: nat, s: nat)
    ensures e == Shift(n) && n == e * TWO_52 + s && s < TWO_53 && InBin(e, s)
  {
    e := Shift(n);
    s := n - e * TWO_52;
  }

  lemma Increases(n: nat)
    ensures Value64(n) < Value64(n + 1)
  {
    hide Pow2, Value64, Shift, InBin;
    var e, s := BinOf(n);
    BinLater(e, s);
    BinValue(e, s);
    BinValue(e, s + 1);
    Distribute(s, Pow2(e + UNIT));
  }

  lemma BinLater(e: nat, s: nat)
    requires InBin(e, s) && s < TWO_53
    ensures InBin(e, s + 1)
  {
  }

  lemma Distribute(s: nat, p: nat)
    ensures (s + 1) * p == s * p + p
  {
  }

  lemma {:induction false} Monotone(m: nat, n: nat)
    requires m < n
    ensures Value64(m) < Value64(n)
    decreases n
  {
    hide Value64;
    Increases(n - 1);
    if m < n - 1 { Monotone(m, n - 1); }
  }

  // ---------------------------------------------------------------- nearest in a bin is nearest

  /** The nearest integer beats every other, after scaling. */
  lemma NearestIntBeats(x: nat, d: nat, t: nat)
    requires d >= 1
    ensures var s := NearestInt(x, d);
            Dist(x, s * d) < Dist(x, t * d) || (Dist(x, s * d) == Dist(x, t * d) && (s == t || s % 2 == 0))
  {
    var q, r := x / d, x % d;
    assert x == q * d + r;
    Distribute(q, d);
    if t < q {
      MulMono(t + 1, q, d);
      Distribute(t, d);
    } else if t > q + 1 {
      MulMono(q + 2, t, d);
      Distribute(q + 1, d);
    }
  }

  lemma ScaledDist(x: nat, y: nat, g: nat)
    requires g >= 1
    ensures Dist(x * g, y * g) == Dist(x, y) * g
  {
    if x < y {
      DiffTimes(y, x, g);
      MulMono(x, y, g);
    } else {
      DiffTimes(x, y, g);
      MulMono(y, x, g);
    }
  }

  lemma DiffTimes(x: nat, y: nat, g: nat)
    requires y <= x
    ensures x * g - y * g == (x - y) * g
  {
  }

  lemma StrictTimes(a: nat, b: nat, g: nat)
    requires g >= 1
    ensures a < b ==> a * g < b * g
    ensures a * g == b * g ==> a == b
  {
    if a < b { MulMono(a + 1, b, g); Distribute(a, g); }
    if b < a { MulMono(b + 1, a, g); Distribute(b, g); }
  }

  /** A magnitude x * g in a bin whose spacing is d * g. */
  predicate Placed(v: nat, e: nat, x: nat, d: nat, g: nat) {
    && d >= 1 && g >= 1 && v == x * g && Pow2(e + UNIT) == d * g
    && (e > 0 ==> TWO_52 * d <= x) && x <= TWO_53 * d
  }

  lemma NearestInRange(v: nat, e: nat, x: nat, d: nat, g: nat)
    requires Placed(v, e, x, d, g)
    ensures InBin(e, NearestInt(x, d))
  {
    hide Pow2;
    var q, r := x / d, x % d;
    assert x == q * d + r;
    if e > 0 && q < TWO_52 {
      MulMono(q + 1, TWO_52, d);
      Distribute(q, d);
    }
    if q > TWO_53 || (q == TWO_53 && r > 0) {
      MulMono(TWO_53, q, d);
      if q > TWO_53 { MulMono(TWO_53 + 1, q, d); Distribute(TWO_53, d); }
    }
  }

  /** Against the numbers of the same bin. */
  lemma BeatsInBin(v: nat, e: nat, x: nat, d: nat, g: nat, t: nat)
    requires Placed(v, e, x, d, g) && InBin(e, t)
    ensures Beats(v, e * TWO_52 + NearestInt(x, d), e * TWO_52 + t)
  {
    hide Pow2, Value64, NearestInt, InBin;
    var s := NearestInt(x, d);
    NearestInRange(v, e, x, d, g);
    BinValue(e, s);
    BinValue(e, t);
    NearestIntBeats(x, d, t);
    Regroup(s, d, g);
    Regroup(t, d, g);
    ScaledDist(x, s * d, g);
    ScaledDist(x, t * d, g);
    StrictTimes(Dist(x, s * d), Dist(x, t * d), g);
    EvenBase(e, s);
  }

  lemma Regroup(s: nat, d: nat, g: nat)
    ensures s * (d * g) == s * d * g
  {
  }

  lemma EvenBase(e: nat, s: nat)
    ensures (e * TWO_52 + s) % 2 == s % 2
  {
  }

  /** The bin reaches around v. */
  lemma BinAround(v: nat, e: nat, x: nat, d: nat, g: nat)
    requires Placed(v, e, x, d, g)
    ensures e > 0 ==> Value64(e * TWO_52 + TWO_52) <= v
    ensures v <= Value64(e * TWO_52 + TWO_53)
  {
    hide Pow2, Value64;
    BinValue(e, TWO_53);
    Regroup(TWO_53, d, g);
    MulMono(x, TWO_53 * d, g);
    if e > 0 {
      BinValue(e, TWO_52);
      Regroup(TWO_52, d, g);
      MulMono(TWO_52 * d, x, g);
    }
  }

  lemma BeatsAll(v: nat, e: nat, x: nat, d: nat, g: nat, m: nat)
    requires Placed(v, e, x, d, g)
    ensures Beats(v, e * TWO_52 + NearestInt(x, d), m)
  {
    hide Pow2, Value64, NearestInt;
    var n := e * TWO_52 + NearestInt(x, d);
    BinAround(v, e, x, d, g);
    if e > 0 && m < e * TWO_52 + TWO_52 {
      BeatsInBin(v, e, x, d, g, TWO_52);
      Monotone(m, e * TWO_52 + TWO_52);
    } else if m > e * TWO_52 + TWO_53 {
      BeatsInBin(v, e, x, d, g, TWO_53);
      Monotone(e * TWO_52 + TWO_53, m);
    } else {
      BeatsInBin(v, e, x, d, g, m - e * TWO_52);
    }
  }

  lemma PlacedIsNearest(v: nat, e: nat, x: nat, d: nat, g: nat)
    requires Placed(v, e, x, d, g) && e <= 0x7FD
    ensures NearestEven(v, e * TWO_52 + NearestInt(x, d))
  {
    hide Pow2, Beats, NearestInt;
    NearestInRange(v, e, x, d, g);
    var n := e * TWO_52 + NearestInt(x, d);
    forall m: nat | m <= INFINITY ensures Beats(v, n, m) {
      BeatsAll(v, e, x, d, g, m);
    }
  }

  // ---------------------------------------------------------------- correct rounding

  /** The magnitude with its implicit bit, where there is one. */
  lemma NormalParts(x: Binary128)
    requires x.Valid() && 1 <= x.exp < 0x7FFF
    ensures F128ToF64(x) == RoundPackToF64(x.sign, x.exp - 0x3C01, Jam(TWO_112 + x.frac, TWO_50))
  {
    hide ShortShiftLeft128, Jam, RoundPackToF64;
    SigIsJam(x.frac);
  }

  /** Below the binary64 range of normal numbers the significand is shifted to the fixed spacing. */
  lemma SubnormalRounds(x: Binary128)
    requires x.Valid() && 1 <= x.exp < 0x3C01
    ensures NearestEven(Value128(x), F128ToF64(x).bits) && F128ToF64(x).sign == x.sign
  {
    hide Pow2, NearestEven, Placed, Jam, ShiftRightJam64, RoundTen, F128ToF64, NearestInt;
    var m, shift := TWO_112 + x.frac, 0x3C01 - x.exp;
    NormalParts(x);
    JamBelow(m);
    ShiftRightIsJam(Jam(m, TWO_50), shift);
    EvenPower(shift);
    JamJam(m, TWO_50, Pow2(shift));
    JamRounds(m, TWO_50 * Pow2(shift));
    var d := TWO_50 * Pow2(shift) * 1024;
    SubnormalPlaced(x, d, shift);
    RoundTenIs(x.sign, 0, Jam(Jam(m, TWO_50), Pow2(shift)));
    PlacedIsNearest(Value128(x), 0, m, d, Pow2(x.exp - 1));
  }

  lemma JamBelow(m: nat)
    requires m < 2 * TWO_112
    ensures Jam(m, TWO_50) < TWO_63
  {
  }

  lemma EvenPower(k: nat)
    requires k >= 1
    ensures Pow2(k) >= 2 && Pow2(k) % 2 == 0
  {
  }

  lemma SubnormalPlaced(x: Binary128, d: nat, shift: nat)
    requires x.Valid() && 1 <= x.exp < 0x3C01 && shift == 0x3C01 - x.exp && d == TWO_50 * Pow2(shift) * 1024
    ensures Placed(Value128(x), 0, TWO_112 + x.frac, d, Pow2(x.exp - 1))
  {
    hide Pow2;
    TwoTo(60, TWO_60);
    Pow2Add(60, shift);
    assert d == TWO_60 * Pow2(shift);
    Pow2Add(60 + shift, x.exp - 1);
    assert 60 + shift + (x.exp - 1) == 0 + UNIT;
  }

  /** In the binary64 range the significand is rounded where it stands. */
  lemma NormalRounds(x: Binary128)
    requires x.Valid() && 0x3C01 <= x.exp <= 0x3C01 + 0x7FD
    ensures NearestEven(Value128(x), F128ToF64(x).bits) && F128ToF64(x).sign == x.sign
  {
    hide Pow2, NearestEven, Placed, Jam, RoundTen, F128ToF64, NearestInt;
    var m, e := TWO_112 + x.frac, x.exp - 0x3C01;
    NormalParts(x);
    JamRounds(m, TWO_50);
    assert TWO_50 * 1024 == TWO_60;
    NormalPlaced(x, e);
    PlacedIsNearest(Value128(x), e, m, TWO_60, Pow2(x.exp - 1));
    NearestInRange(Value128(x), e, m, TWO_60, Pow2(x.exp - 1));
    RoundTenIs(x.sign, e, Jam(m, TWO_50));
    AboveHalf(m);
    if e == 0x7FD && Jam(m, TWO_50) + 0x200 >= TWO_63 { CarryIsInfinity(Jam(m, TWO_50)); }
  }

  lemma NormalPlaced(x: Binary128, e: nat)
    requires x.Valid() && 0x3C01 <= x.exp < 0x7FFF && e == x.exp - 0x3C01
    ensures Placed(Value128(x), e, TWO_112 + x.frac, TWO_60, Pow2(x.exp - 1))
  {
    hide Pow2;
    TwoTo(60, TWO_60);
    Pow2Add(60, x.exp - 1);
    assert 60 + (x.exp - 1) == e + UNIT;
  }

  lemma AboveHalf(m: nat)
    requires TWO_112 <= m < 2 * TWO_112
    ensures NearestInt(Jam(m, TWO_50), 1024) > 0 && Jam(m, TWO_50) < TWO_63
  {
  }

  lemma CarryIsInfinity(sig: nat)
    requires sig + 0x200 >= TWO_63 && sig < TWO_63
    ensures 0x7FD * TWO_52 + NearestInt(sig, 1024) == INFINITY
  {
    assert sig / 1024 == TWO_53 - 1;
  }

  /** Above it the result is infinite, which no number is nearer than. */
  lemma OverflowRounds(x: Binary128)
    requires x.Valid() && 0x3C01 + 0x7FD < x.exp < 0x7FFF
    ensures NearestEven(Value128(x), F128ToF64(x).bits) && F128ToF64(x).sign == x.sign
  {
    hide Pow2, Value64, F128ToF64, Jam, Value128;
    NormalParts(x);
    InfinityBelow(x);
    forall m: nat | m <= INFINITY ensures Beats(Value128(x), INFINITY, m) {
      if m < INFINITY { Monotone(m, INFINITY); }
    }
  }

  lemma InfinityBelow(x: Binary128)
    requires x.Valid() && 0x3C01 + 0x7FD < x.exp < 0x7FFF
    ensures Value64(INFINITY) <= Value128(x)
  {
    hide Pow2, Value64;
    BinValue(0x7FE, TWO_52);
    TwoTo(60, TWO_60);
    Pow2Mono(0x7FE + 15360, x.exp - 1);
    Pow2Add(60, 0x7FE + 15360);
    MulMono(Pow2(0x7FE + 15360), Pow2(x.exp - 1), TWO_112);
    MulMono(TWO_112, TWO_112 + x.frac, Pow2(x.exp - 1));
    assert 60 + (0x7FE + 15360) == 0x7FE + UNIT;
    assert TWO_52 * TWO_60 == TWO_112;
  }

  /** A subnormal binary128 is far below half the smallest binary64. */
  lemma TinyRounds(x: Binary128)
    requires x.Valid() && x.exp == 0
    ensures NearestEven(Value128(x), F128ToF64(x).bits) && F128ToF64(x) == Binary64(x.sign, 0)
  {
    hide Pow2, Value64;
    TinyIsZero(x);
    SmallestIsBig();
    forall m: nat | m <= INFINITY ensures Beats(Value128(x), 0, m) {
      if m > 0 && m != 1 { Monotone(1, m); }
    }
  }

  lemma SmallestIsBig()
    ensures Value64(0) == 0 && Value64(1) >= 2 * TWO_112
  {
    hide Pow2, Value64;
    BinValue(0, 0);
    BinValue(0, 1);
    TwoTo(60, TWO_60);
    Pow2Add(60, 60);
    Pow2Mono(120, UNIT);
  }

  lemma TinyIsZero(x: Binary128)
    requires x.Valid() && x.exp == 0
    ensures F128ToF64(x) == Binary64(x.sign, 0)
  {
    hide Pow2, ShortShiftLeft128;
    SigIsJam(x.frac);
    assert ShiftRightJam64(Jam(TWO_112 + x.frac, TWO_50), 0x3C01) == 1;
  }

  /** Every number and infinity is narrowed to the nearest binary64, ties to even, with its sign;
      a NaN becomes the quiet NaN of its sign. */
  lemma RoundsCorrectly(x: Binary128)
    requires x.Valid()
    ensures F128ToF64(x).sign == x.sign
    ensures x.exp < 0x7FFF ==> NearestEven(Value128(x), F128ToF64(x).bits)
    ensures x.exp == 0x7FFF ==> F128ToF64(x).bits == if x.IsNaN() then INFINITY + TWO_52 / 2 else INFINITY
  {
    hide NearestEven, Value128, Pow2, RoundPackToF64, ShortShiftLeft128;
    if x.exp == 0 {
      TinyRounds(x);
    } else if x.exp < 0x3C01 {
      SubnormalRounds(x);
    } else if x.exp <= 0x3C01 + 0x7FD {
      NormalRounds(x);
    } else if x.exp < 0x7FFF {
      OverflowRounds(x);
    }
  }

  /** The nearest binary64 with ties to even is one number: the result is determined. */
  lemma NearestIsUnique(v: nat, n: nat, m: nat)
    requires NearestEven(v, n) && NearestEven(v, m)
    ensures n == m
  {
    hide Value64;
    if n < m {
      NotBothNearest(v, n, m);
    } else if m < n {
      NotBothNearest(v, m, n);
    }
  }

  lemma NotBothNearest(v: nat, n: nat, m: nat)
    requires NearestEven(v, n) && NearestEven(v, m)
    ensures n >= m
  {
    hide Value64;
    if n < m {
      assert Beats(v, n, m) && Beats(v, m, n) && Beats(v, n, n + 1);
      Monotone(n, n + 1);
      if n + 1 < m { Monotone(n + 1, m); }
    }
  }
}
