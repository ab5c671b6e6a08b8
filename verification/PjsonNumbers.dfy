/** The number codes of pjson: minimal little-endian bytes, zigzag, and varuints with a two-bit
    length prefix (cpp/conformance/pjson_conformance_driver.cpp, lines 521-555 and 852-958). */
module PjsonNumbers {
  import opened ByteStrings
  import opened Powers
  import opened Wrappers

  const TWO_127 := 0x8000_0000_0000_0000_0000_0000_0000_0000
  const TWO_128 := 0x1_0000_0000_0000_0000_0000_0000_0000_0000

  // ---------------------------------------------------------------- minimal bytes

  /** The little-endian bytes of n without zeros at the end. */
  function MinimalLe(n: nat): (s: seq<byte>)
    ensures s == [] <==> n == 0
  {
    if n == 0 then [] else [n % 256] + MinimalLe(n / 256)
  }

  lemma {:induction false} UnleMinimal(n: nat)
    ensures Unle(MinimalLe(n)) == n
  {
    if n > 0 {
      UnleMinimal(n / 256);
      assert MinimalLe(n)[1..] == MinimalLe(n / 256);
    }
  }

  lemma {:induction false} MinimalSize(n: nat, k: nat)
    requires n < Pow256(k)
    ensures |MinimalLe(n)| <= k
    decreases k
  {
    if n > 0 {
      if k > 0 { MinimalSize(n / 256, k - 1); }
    }
  }

  lemma Pow256Of16()
    ensures Pow256(16) == TWO_128
  {
    assert Pow256(4) == 0x1_0000_0000;
    assert Pow256(8) == 0x1_0000_0000_0000_0000;
    assert Pow256(12) == 0x1_0000_0000_0000_0000_0000_0000;
  }

  /** A 128-bit number takes at most 16 bytes. */
  lemma MinimalFits(n: nat)
    requires n < TWO_128
    ensures |MinimalLe(n)| <= 16
  {
    Pow256Of16();
    MinimalSize(n, 16);
  }

  // ---------------------------------------------------------------- zigzag

  /** The bits of a two's complement number of the given modulus, and back. */
  function Bits(v: int, modulus: nat): nat
    requires modulus > 0
  {
    v % modulus
  }

  function Signed(bits: nat, modulus: nat): int {
    if bits >= modulus / 2 then bits - modulus else bits
  }

  /** Shift left by one; a negative number has all bits flipped by its sign. */
  function ZigzagEncode(v: int, modulus: nat): nat
    requires modulus >= 2 && modulus % 2 == 0
  {
    var shifted := 2 * Bits(v, modulus) % modulus;
    if v < 0 then modulus - 1 - shifted else shifted
  }

  function ZigzagDecode(z: nat, modulus: nat): int
    requires z < modulus
  {
    Signed(if z % 2 == 1 then modulus - 1 - z / 2 else z / 2, modulus)
  }

  /** Zigzag numbers 0, -1, 1, -2, 2, ... in order, and decoding undoes it over the whole range. */
  lemma ZigzagIs(v: int, modulus: nat)
    requires modulus >= 2 && modulus % 2 == 0 && -(modulus / 2) <= v < modulus / 2
    ensures ZigzagEncode(v, modulus) == if v < 0 then -2 * v - 1 else 2 * v
    ensures ZigzagEncode(v, modulus) < modulus && ZigzagDecode(ZigzagEncode(v, modulus), modulus) == v
  {
    var half := modulus / 2;
    if v < 0 {
      DivUnique(v, modulus, -1, v + modulus);
      DivUnique(2 * (v + modulus), modulus, 1, 2 * v + modulus);
    } else {
      DivUnique(v, modulus, 0, v);
      DivUnique(2 * v, modulus, 0, 2 * v);
    }
  }

  // ---------------------------------------------------------------- varuints

  /** The number of bytes; 0 if the value does not fit. */
  function VaruintSize(v: nat): (n: nat)
    ensures n <= 4
  {
    if v < 0x40 then 1 else if v < 0x4000 then 2 else if v < 0x40_0000 then 3 else if v < 0x4000_0000 then 4 else 0
  }

  /** Six bits behind the two-bit length, then whole bytes. */
  function VaruintEncode(v: nat): Option<seq<byte>> {
    if VaruintSize(v) == 0 then None
    else Some([(VaruintSize(v) - 1) * 64 + v % 64] + Le(v / 64, VaruintSize(v) - 1))
  }

  datatype Varuint = Varuint(value: nat, used: nat)

  function VaruintDecode(b: seq<byte>): (r: Option<Varuint>)
    ensures r.Some? ==> r.value.value < 0x4000_0000 && 1 <= r.value.used <= |b|
  {
    if b == [] then None
    else
      var first: int := b[0];
      var total := first / 64 + 1;
      if |b| < total then None
      else
        ThreeBytes(b[1..total]);
        Some(Varuint(first % 64 + 64 * Unle(b[1..total]), total))
  }

  lemma ThreeBytes(s: seq<byte>)
    requires |s| <= 3
    ensures Unle(s) < 0x100_0000
  {
    hide Pow256, Unle;
    LeUnle(s);
    SmallPowers();
  }

  /** Decoding undoes encoding, whatever follows, on exactly the values below 2^30. */
  lemma VaruintRoundTrip(v: nat, rest: seq<byte>)
    ensures VaruintEncode(v).Some? <==> v < 0x4000_0000
    ensures VaruintEncode(v).Some? ==>
              |VaruintEncode(v).value| == VaruintSize(v) >= 1
              && VaruintDecode(VaruintEncode(v).value + rest) == Some(Varuint(v, VaruintSize(v)))
  {
    if v < 0x4000_0000 {
      var n, code := VaruintSize(v), VaruintEncode(v).value;
      PayloadFits(v);
      UnleLe(v / 64, n - 1);
      assert (code + rest)[1..n] == Le(v / 64, n - 1);
      FirstByte(n, v % 64);
    }
  }

  lemma FirstByte(n: nat, low: nat)
    requires 1 <= n <= 4 && low < 64
    ensures ((n - 1) * 64 + low) / 64 + 1 == n && ((n - 1) * 64 + low) % 64 == low
  {
  }

  lemma PayloadFits(v: nat)
    requires v < 0x4000_0000
    ensures v / 64 < Pow256(VaruintSize(v) - 1)
  {
    hide Pow256;
    SmallPowers();
  }
}
