/** Powers of two and big-endian bit strings, shared by the numeric models. */
module Powers {

  function Abs(m: int): nat {
    if m < 0 then -m else m
  }

  function Pow2(n: nat): (p: nat)
    ensures p >= 1
  {
    if n == 0 then 1 else 2 * Pow2(n - 1)
  }

  lemma {:induction false} Pow2Add(a: nat, b: nat)
    ensures Pow2(a + b) == Pow2(a) * Pow2(b)
  {
    if a > 0 {
      Pow2Add(a - 1, b);
      assert Pow2(a + b) == 2 * Pow2(a - 1 + b);
      Associate(2, Pow2(a - 1), Pow2(b));
    }
  }

  /** The number written by the bits, most significant first. */
  function Num(bits: seq<bool>): nat
  {
    if bits == [] then 0
    else 2 * Num(bits[..|bits| - 1]) + (if bits[|bits| - 1] then 1 else 0)
  }

  function Repeat(b: bool, n: nat): (s: seq<bool>)
    ensures |s| == n
    ensures forall i :: 0 <= i < n ==> s[i] == b
  {
    seq(n, _ => b)
  }

  lemma NumSnoc(bits: seq<bool>, b: bool)
    ensures Num(bits + [b]) == 2 * Num(bits) + (if b then 1 else 0)
  {
    assert (bits + [b])[..|bits|] == bits;
  }

  lemma TwiceProduct(a: int, b: int)
    ensures 2 * (a * b) == a * (2 * b)
  {
  }

  /** Appending n copies of a bit shifts by n places and fills with zeros or ones. */
  lemma {:induction false} NumRepeat(bits: seq<bool>, b: bool, n: nat)
    ensures Num(bits + Repeat(b, n)) == Num(bits) * Pow2(n) + (if b then Pow2(n) - 1 else 0)
  {
    hide Num, Repeat;
    if n == 0 {
      assert bits + Repeat(b, n) == bits;
    } else {
      NumRepeat(bits, b, n - 1);
      assert bits + Repeat(b, n) == (bits + Repeat(b, n - 1)) + [b];
      NumSnoc(bits + Repeat(b, n - 1), b);
      TwiceProduct(Num(bits), Pow2(n - 1));
    }
  }

  lemma {:induction false} Pow2Mono(a: nat, b: nat)
    requires a <= b
    ensures Pow2(a) <= Pow2(b)
  {
    if a < b { Pow2Mono(a, b - 1); }
  }

  lemma MulMono(a: int, b: int, d: nat)
    requires a <= b
    ensures a * d <= b * d
  {
    assert (b - a) * d >= 0;
  }

  /** A multiple of d strictly between -d and d is zero. */
  lemma SmallMultiple(k: int, d: int)
    requires d > 0 && -d < k * d < d
    ensures k == 0
  {
    if k >= 1 { MulMono(1, k, d); }
    if k <= -1 { MulMono(k, -1, d); }
  }

  /** The division that picks quotient `q` and remainder `r`. */
  lemma DivUnique(x: int, d: int, q: int, r: int)
    requires 0 <= r < d && x == q * d + r
    ensures x / d == q && x % d == r
  {
    var q', r' := x / d, x % d;
    assert x == q' * d + r';
    assert (q' - q) * d == r - r';
    SmallMultiple(q' - q, d);
  }

  lemma DivDiv(x: nat, a: nat, b: nat)
    requires a > 0 && b > 0
    ensures a * b > 0 && x / (a * b) == x / a / b
  {
    var q, r := x / a / b, x / a % b;
    var r0 := x % a;
    assert x / a == q * b + r;
    assert x == (q * b + r) * a + r0;
    assert (q * b) * a == q * (a * b);
    assert x == q * (a * b) + (r * a + r0);
    assert r * a <= (b - 1) * a;
    assert 0 <= r * a + r0 < a * b;
    DivUnique(x, a * b, q, r * a + r0);
  }

  // ---------------------------------------------------------------- powers of any base

  function Pow(b: nat, e: nat): (p: nat)
    requires b >= 1
    ensures p >= 1
  {
    if e == 0 then 1
    else
      MulPositive(b, Pow(b, e - 1));
      b * Pow(b, e - 1)
  }

  lemma MulPositive(a: nat, b: nat)
    requires a >= 1 && b >= 1
    ensures a * b >= 1
  {
  }

  lemma {:induction false} PowAdd(b: nat, m: nat, n: nat)
    requires b >= 1
    ensures Pow(b, m + n) == Pow(b, m) * Pow(b, n)
  {
    if m > 0 {
      PowAdd(b, m - 1, n);
      Associate(b, Pow(b, m - 1), Pow(b, n));
      assert m + n - 1 == m - 1 + n;
    }
  }

  lemma Associate(a: nat, b: nat, c: nat)
    ensures a * (b * c) == a * b * c
  {
  }

  lemma {:induction false} PowTimes(b: nat, m: nat, n: nat)
    requires b >= 1
    ensures Pow(b, m * n) == Pow(Pow(b, m), n)
    decreases n
  {
    if n > 0 {
      TimesPred(m, n);
      PowAdd(b, m, m * (n - 1));
      PowTimes(b, m, n - 1);
    }
  }

  lemma TimesPred(m: nat, n: nat)
    requires n >= 1
    ensures m * n == m + m * (n - 1)
  {
  }

  lemma {:induction false} PowMonoBase(a: nat, b: nat, e: nat)
    requires 1 <= a <= b
    ensures Pow(a, e) <= Pow(b, e)
  {
    if e > 0 {
      PowMonoBase(a, b, e - 1);
      MulMono(a, b, Pow(a, e - 1));
      MulMono(Pow(a, e - 1), Pow(b, e - 1), b);
    }
  }

  lemma {:induction false} PowStrict(b: nat, m: nat, n: nat)
    requires b >= 2 && m < n
    ensures Pow(b, m) < Pow(b, n)
    decreases n
  {
    MulMono(2, b, Pow(b, n - 1));
    if m < n - 1 { PowStrict(b, m, n - 1); }
  }

  lemma {:induction false} Pow2IsPow(e: nat)
    ensures Pow(2, e) == Pow2(e)
  {
    if e > 0 { Pow2IsPow(e - 1); }
  }

  lemma {:induction false} PowProduct(a: nat, b: nat, e: nat)
    requires a >= 1 && b >= 1
    ensures a * b >= 1 && Pow(a * b, e) == Pow(a, e) * Pow(b, e)
  {
    MulPositive(a, b);
    if e > 0 {
      PowProduct(a, b, e - 1);
      FourFactors(a, b, Pow(a, e - 1), Pow(b, e - 1));
    }
  }

  lemma FourFactors(a: nat, b: nat, x: nat, y: nat)
    ensures a * b * (x * y) == a * x * (b * y)
  {
    assert a * b * (x * y) == a * (b * (x * y)) == a * (b * x * y) == a * (x * (b * y));
  }
}
