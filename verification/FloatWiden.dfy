/** Widening binary16 to binary64 (cpp/conformance/pjson_conformance_driver.cpp, lines 693-716 and
    1680-1709). */
module FloatWiden {
  import opened ExactNarrow
  import opened FloatFormats
  import opened FloatWidths
  import opened Powers
  import opened SoftFloat
  import opened Wrappers

  const TWO_42 := 0x400_0000_0000

  datatype Normal = Normal(m: nat, e: int)

  /** Shift left until the leading bit stands at the place of the implicit one. */
  function Normalize(m: nat, e: int): (r: Normal)
    requires 0 < m < 0x800
    ensures 0x400 <= r.m < 0x800
    decreases 0x800 - m
  {
    if m >= 0x400 then Normal(m, e) else Normalize(2 * m, e - 1)
  }

  /** A binary64 whose significand has the eleven bits of m, the first of them the implicit one. */
  function ElevenBits(m: nat, e: int): nat
    requires 0x400 <= m < 0x800
  {
    if e < -1023 then 0 else (e + 1023) * TWO_52 + (m - 0x400) * TWO_42
  }

  function Widen16(n: nat): nat {
    var exp, mant := n / 0x400 % 0x20, n % 0x400;
    if exp == 0 then
      if mant == 0 then 0 else var r := Normalize(mant, -14); ElevenBits(r.m, r.e)
    else if exp == 0x1F then 0x7FF * TWO_52 + mant * TWO_42
    else ElevenBits(0x400 + mant, exp - 15)
  }

  /** The other widening of the driver, which takes every number for a normal one. */
  function Widen16Local(n: nat): nat {
    var exp, mant := n / 0x400 % 0x20, n % 0x400;
    if exp == 0 && mant == 0 then 0
    else if exp == 0x1F then 0x7FF * TWO_52 + (if mant != 0 then TWO_52 / 2 else 0)
    else ElevenBits(0x400 + mant, exp - 15)
  }

  /** The widening as it runs. */
  method NormalizeLoop(mant: nat) returns (m: nat, e: int)
    requires 0 < mant < 0x400
    ensures Normal(m, e) == Normalize(mant, -14)
  {
    m, e := mant, -14;
    while m / 0x400 % 2 == 0
      invariant 0 < m < 0x800
      invariant Normalize(m, e) == Normalize(mant, -14)
      decreases 0x800 - m
    {
      m := 2 * m;
      e := e - 1;
    }
  }

  method F16BitsToF64(sign: bool, n: nat) returns (r: Binary64)
    requires n < 0x8000
    ensures r == Binary64(sign, Widen16(n))
  {
    hide Pow2, ElevenBits, Normalize;
    var exp, mant := n / 0x400, n % 0x400;
    SmallDiv(exp, 0x20);
    if exp == 0 {
      if mant == 0 {
        return Binary64(sign, 0);
      }
      var m, e := NormalizeLoop(mant);
      NormalizeKeeps(mant, -14);
      ElevenBitsFrom(m, e);
      return Binary64(sign, (e + 1023) * TWO_52 + m % 0x400 * TWO_42);
    }
    if exp == 0x1F {
      return Binary64(sign, 0x7FF * TWO_52 + mant * TWO_42);
    }
    ElevenBitsFrom(0x400 + mant, exp - 15);
    return Binary64(sign, (exp - 15 + 1023) * TWO_52 + mant * TWO_42);
  }

  lemma ElevenBitsFrom(m: nat, e: int)
    requires 0x400 <= m < 0x800 && -1023 <= e
    ensures ElevenBits(m, e) == (e + 1023) * TWO_52 + m % 0x400 * TWO_42
  {
    DivUnique(m, 0x400, 1, m - 0x400);
  }

  // ---------------------------------------------------------------- the same number

  lemma {:induction false} NormalizeShifts(m: nat, e: int)
    requires 0 < m < 0x800
    ensures var r := Normalize(m, e); r.e <= e && r.m == m * Pow2(e - r.e) && (m < 0x400 ==> r.e < e)
    decreases 0x800 - m
  {
    if m < 0x400 {
      NormalizeShifts(2 * m, e - 1);
      var d: nat := e - 1 - Normalize(2 * m, e - 1).e;
      NextPower(d);
      TwiceProduct(m, Pow2(d));
    } else {
      ZeroPower();
    }
  }

  lemma ElevenPower(d: nat)
    requires Pow2(d) < 0x800
    ensures d <= 10
  {
    hide Pow2;
    TwoToTen();
    NextPower(10);
    Pow2Strict(d, 11);
  }

  lemma NormalizeKeeps(m: nat, e: int)
    requires 0 < m < 0x800
    ensures var r := Normalize(m, e); e - 10 <= r.e <= e && r.m == m * Pow2(e - r.e) && (m < 0x400 ==> r.e < e)
  {
    hide Pow2, Normalize;
    NormalizeShifts(m, e);
    var d: nat := e - Normalize(m, e).e;
    MulMono(1, m, Pow2(d));
    ElevenPower(d);
  }

  lemma TwoToTen()
    ensures Pow2(10) == 0x400
  {
    assert Pow2(5) == 0x20;
    Pow2Add(5, 5);
  }

  lemma TwoTo42()
    ensures Pow2(42) == TWO_42
  {
    hide Pow2;
    TwoToTen();
    Pow2Add(42, 10);
    FiftyPowers();
  }

  lemma ElevenBitsAre(m: nat, e: int, k: nat)
    requires 0x400 <= m < 0x800 && -24 <= e <= 15 && k >= 1074
    ensures ElevenBits(m, e) < INFINITY && ValueIn(BINARY64, ElevenBits(m, e), k) == m * Pow2(e - 10 + k)
  {
    hide Pow2, ValueIn, Top;
    TopOf64();
    var bin: nat, s: nat := e + 1022, m * TWO_42;
    BinValueIn(BINARY64, bin, s, k);
    TwoTo42();
    Pow2Add(42, bin + (k - 1074));
    Regroup(m, Pow2(42), Pow2(bin + (k - 1074)));
    assert 42 + (bin + (k - 1074)) == e - 10 + k;
  }

  lemma TopOf16()
    ensures Top(BINARY16) == 0x400 && Infinity(BINARY16) == 0x7C00
  {
    hide Pow2;
    TwoToTen();
  }

  lemma Value16In(n: nat, k: nat)
    requires n < 0x7C00 && k >= 1074
    ensures ValueIn(BINARY16, n, k) ==
            if n < 0x400 then n * Pow2(k - 24) else (0x400 + n % 0x400) * Pow2(n / 0x400 - 25 + k)
  {
    hide Pow2, ValueIn, Top;
    TopOf16();
    if n < 0x400 {
      BinValueIn(BINARY16, 0, n, k);
    } else {
      BinValueIn(BINARY16, n / 0x400 - 1, 0x400 + n % 0x400, k);
    }
  }

  /** Widening keeps every finite number. */
  lemma Widen16Keeps(n: nat, k: nat)
    requires n < 0x7C00 && k >= 1074
    ensures Widen16(n) < INFINITY && ValueIn(BINARY64, Widen16(n), k) == ValueIn(BINARY16, n, k)
  {
    hide Pow2, ValueIn, ElevenBits, Normalize;
    Value16In(n, k);
    if n >= 0x400 {
      ElevenBitsAre(0x400 + n % 0x400, n / 0x400 - 15, k);
    } else if n == 0 {
      ZeroIn(BINARY64, k);
      ZeroIn(BINARY16, k);
    } else {
      NormalizeKeeps(n, -14);
      var r := Normalize(n, -14);
      ElevenBitsAre(r.m, r.e, k);
      Pow2Add(-14 - r.e, r.e - 10 + k);
      Regroup(n, Pow2(-14 - r.e), Pow2(r.e - 10 + k));
      assert -14 - r.e + (r.e - 10 + k) == k - 24;
    }
  }

  /** Narrowing gives back what was widened. */
  lemma NarrowWiden(n: nat)
    requires n < 0x7C00
    ensures NarrowTo(BINARY16, Widen16(n)) == Some(n)
  {
    hide ValueIn, Widen16, NarrowTo;
    TopOf16();
    var k: nat := UNIT + 1074;
    Widen16Keeps(n, k);
    assert InFormat(BINARY16, ValueIn(BINARY64, Widen16(n), k), k);
    NarrowToIff(BINARY16, Widen16(n), k);
    SameValue(BINARY16, NarrowTo(BINARY16, Widen16(n)).value, n, k);
  }

  /** The other widening keeps exactly the numbers that are not subnormal. */
  lemma LocalKeepsIff(n: nat, k: nat)
    requires n < 0x7C00 && k >= 1074
    ensures ValueIn(BINARY64, Widen16Local(n), k) == ValueIn(BINARY16, n, k) <==> n == 0 || n >= 0x400
  {
    hide Pow2, ValueIn, Normalize;
    Widen16Keeps(n, k);
    if 0 < n < 0x400 {
      NormalizeKeeps(n, -14);
      var r := Normalize(n, -14);
      if ValueIn(BINARY64, Widen16Local(n), k) == ValueIn(BINARY16, n, k) {
        SameValue(BINARY64, Widen16Local(n), Widen16(n), k);
        LocalDiffers(n, r.m, r.e);
      }
    }
  }

  lemma LocalDiffers(n: nat, m: nat, e: int)
    requires 0 < n < 0x400 && 0x400 <= m < 0x800 && -24 <= e <= -15 && m == n * Pow2(-14 - e)
    ensures ElevenBits(0x400 + n, -15) != ElevenBits(m, e)
  {
    hide Pow2;
    ZeroPower();
    NextPower(0);
    if e < -15 {
      MulMono(e + 1024, 1008, TWO_52);
    }
  }
}
