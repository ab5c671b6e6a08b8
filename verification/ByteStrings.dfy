/** Bytes, byte strings inside larger ones, and little-endian numbers. */
module ByteStrings {

  type byte = b: int | 0 <= b < 256

  /** The bytes at position pos of b start with `part`. */
  predicate At(b: seq<byte>, pos: nat, part: seq<byte>) {
    pos + |part| <= |b| && b[pos..pos + |part|] == part
  }

  lemma AtSplit(b: seq<byte>, pos: nat, x: seq<byte>, y: seq<byte>)
    requires At(b, pos, x + y)
    ensures At(b, pos, x) && At(b, pos + |x|, y)
  {
    assert b[pos..pos + |x|] == b[pos..pos + |x + y|][..|x|];
    assert b[pos + |x|..pos + |x| + |y|] == b[pos..pos + |x + y|][|x|..];
  }

  lemma AtJoin(b: seq<byte>, pos: nat, x: seq<byte>, y: seq<byte>)
    requires At(b, pos, x) && At(b, pos + |x|, y)
    ensures At(b, pos, x + y)
  {
    assert b[pos..pos + |x + y|] == b[pos..pos + |x|] + b[pos + |x|..pos + |x| + |y|];
  }

  lemma AtIndex(b: seq<byte>, pos: nat, part: seq<byte>, k: nat)
    requires At(b, pos, part) && k < |part|
    ensures b[pos + k] == part[k]
  {
    assert b[pos..pos + |part|][k] == part[k];
  }

  lemma SliceSlice(s: seq<byte>, a: nat, b: nat, i: nat, j: nat)
    requires a <= i <= j <= b <= |s|
    ensures s[i..j] == s[a..b][i - a..j - a]
  {
    var t := s[a..b];
    assert forall k :: i <= k < j ==> s[k] == t[k - a];
  }

  // ---------------------------------------------------------------- little-endian numbers

  /** The low `size` bytes of n, least significant first; a longer number is cut off. */
  function Le(n: nat, size: nat): (s: seq<byte>)
    ensures |s| == size
  {
    if size == 0 then [] else [n % 256] + Le(n / 256, size - 1)
  }

  function Unle(s: seq<byte>): nat {
    if s == [] then 0
    else
      var low: int := s[0];
      low + 256 * Unle(s[1..])
  }

  function Pow256(n: nat): (p: nat)
    ensures p >= 1
  {
    if n == 0 then 1 else 256 * Pow256(n - 1)
  }

  lemma SmallPowers()
    ensures Pow256(0) == 1 && Pow256(1) == 0x100 && Pow256(2) == 0x1_0000 && Pow256(3) == 0x100_0000
    ensures Pow256(4) == 0x1_0000_0000 && Pow256(8) == 0x1_0000_0000_0000_0000
  {
    assert Pow256(2) == 256 * Pow256(1) && Pow256(4) == 256 * Pow256(3);
    assert Pow256(6) == 256 * Pow256(5) && Pow256(8) == 256 * Pow256(7);
  }

  lemma {:induction false} UnleLe(n: nat, size: nat)
    requires n < Pow256(size)
    ensures Unle(Le(n, size)) == n
  {
    if size > 0 {
      UnleLe(n / 256, size - 1);
      assert Le(n, size)[1..] == Le(n / 256, size - 1);
    }
  }

  lemma {:induction false} LeUnle(s: seq<byte>)
    ensures Unle(s) < Pow256(|s|) && Le(Unle(s), |s|) == s
  {
    hide Unle, Le, Pow256;
    UnleUnfold(s);
    if s != [] {
      LeUnle(s[1..]);
      LowByte(s[0], Unle(s[1..]), |s| - 1);
      assert s == [s[0]] + s[1..];
    }
  }

  lemma UnleUnfold(s: seq<byte>)
    ensures s == [] ==> Unle(s) < Pow256(|s|) && Le(Unle(s), |s|) == s
    ensures s != [] ==> Unle(s) == s[0] as int + 256 * Unle(s[1..])
  {
  }

  lemma LowByte(x: byte, rest: nat, size: nat)
    ensures Le(x as int + 256 * rest, size + 1) == [x] + Le(rest, size)
    ensures Pow256(size + 1) == 256 * Pow256(size)
  {
    hide Le;
    assert (x as int + 256 * rest) % 256 == x as int && (x as int + 256 * rest) / 256 == rest;
    LeNext(x as int + 256 * rest, size);
  }

  lemma LeNext(n: nat, size: nat)
    ensures Le(n, size + 1) == [n % 256] + Le(n / 256, size)
  {
  }

  const U32_LIMIT := 0x1_0000_0000
  const U16_LIMIT := 0x1_0000

  /** Two and four bytes of a number, as DataView writes them: modulo their range. */
  function U16(n: int): (s: seq<byte>)
    ensures |s| == 2
  {
    [n % 256, n / 256 % 256]
  }

  function U32(n: int): (s: seq<byte>)
    ensures |s| == 4
  {
    [n % 256, n / 256 % 256, n / 65536 % 256, n / 16777216 % 256]
  }

  /** A byte, or 0 past the end, as an out-of-range element reads in bit arithmetic. */
  function ByteAt(b: seq<byte>, pos: nat): int {
    if pos < |b| then b[pos] else 0
  }

  function Read16(b: seq<byte>, pos: nat): (n: nat)
    ensures n < U16_LIMIT
  {
    ByteAt(b, pos) + 256 * ByteAt(b, pos + 1)
  }

  function Read32(b: seq<byte>, pos: nat): (n: nat)
    ensures n < U32_LIMIT
  {
    ByteAt(b, pos) + 256 * ByteAt(b, pos + 1) + 65536 * ByteAt(b, pos + 2) + 16777216 * ByteAt(b, pos + 3)
  }

  lemma Read16At(b: seq<byte>, pos: nat, n: nat)
    requires At(b, pos, U16(n)) && n < U16_LIMIT
    ensures Read16(b, pos) == n
  {
    AtIndex(b, pos, U16(n), 0);
    AtIndex(b, pos, U16(n), 1);
  }

  lemma Read32At(b: seq<byte>, pos: nat, n: nat)
    requires At(b, pos, U32(n)) && n < U32_LIMIT
    ensures Read32(b, pos) == n
  {
    AtIndex(b, pos, U32(n), 0);
    AtIndex(b, pos, U32(n), 1);
    AtIndex(b, pos, U32(n), 2);
    AtIndex(b, pos, U32(n), 3);
    FourDigits(n);
  }

  lemma FourDigits(n: nat)
    requires n < U32_LIMIT
    ensures n % 256 + 256 * (n / 256 % 256) + 65536 * (n / 65536 % 256) + 16777216 * (n / 16777216 % 256) == n
  {
    var a, b, c := n / 256, n / 65536, n / 16777216;
    assert b == a / 256 && c == b / 256;
  }

  /** The bytes a number is read from are its code. */
  lemma ReadIs32(b: seq<byte>, pos: nat)
    requires pos + 4 <= |b|
    ensures At(b, pos, U32(Read32(b, pos)))
  {
    var w, x, y, z := ByteAt(b, pos), ByteAt(b, pos + 1), ByteAt(b, pos + 2), ByteAt(b, pos + 3);
    FourBytes(w, x, y, z);
    assert b[pos..pos + 4] == [b[pos], b[pos + 1], b[pos + 2], b[pos + 3]];
  }

  lemma FourBytes(w: int, x: int, y: int, z: int)
    requires 0 <= w < 256 && 0 <= x < 256 && 0 <= y < 256 && 0 <= z < 256
    ensures var n := w + 256 * x + 65536 * y + 16777216 * z;
            n % 256 == w && n / 256 % 256 == x && n / 65536 % 256 == y && n / 16777216 % 256 == z
  {
    var n := w + 256 * x + 65536 * y + 16777216 * z;
    assert n / 256 == x + 256 * y + 65536 * z;
    assert n / 65536 == y + 256 * z;
    assert n / 16777216 == z;
  }

  lemma ReadIs16(b: seq<byte>, pos: nat)
    requires pos + 2 <= |b|
    ensures At(b, pos, U16(Read16(b, pos)))
  {
    assert b[pos..pos + 2] == [b[pos], b[pos + 1]];
  }

  // ---------------------------------------------------------------- overwriting

  function Write(b: seq<byte>, pos: nat, bytes: seq<byte>): (r: seq<byte>)
    requires pos + |bytes| <= |b|
    ensures |r| == |b|
  {
    b[..pos] + bytes + b[pos + |bytes|..]
  }

  lemma WriteAt(b: seq<byte>, pos: nat, bytes: seq<byte>)
    requires pos + |bytes| <= |b|
    ensures At(Write(b, pos, bytes), pos, bytes)
  {
  }

  /** What does not overlap the bytes written stays. */
  lemma WriteKeeps(b: seq<byte>, pos: nat, bytes: seq<byte>, at: nat, part: seq<byte>)
    requires pos + |bytes| <= |b| && At(b, at, part)
    requires at + |part| <= pos || pos + |bytes| <= at
    ensures At(Write(b, pos, bytes), at, part)
  {
    var w := Write(b, pos, bytes);
    if at + |part| <= pos {
      assert w[at..at + |part|] == b[at..at + |part|];
    } else {
      assert w[pos + |bytes|..] == b[pos + |bytes|..];
      assert w[at..at + |part|] == b[at..at + |part|];
    }
  }

  lemma WriteSlice(b: seq<byte>, pos: nat, bytes: seq<byte>, i: nat, j: nat)
    requires pos + |bytes| <= |b| && i <= j <= |b| && (j <= pos || pos + |bytes| <= i)
    ensures Write(b, pos, bytes)[i..j] == b[i..j]
  {
  }

  lemma WriteRead32(b: seq<byte>, pos: nat, n: nat)
    requires pos + 4 <= |b| && n < U32_LIMIT
    ensures Read32(Write(b, pos, U32(n)), pos) == n
  {
    hide Read32, U32;
    WriteAt(b, pos, U32(n));
    Read32At(Write(b, pos, U32(n)), pos, n);
  }

  lemma Read16Same(b: seq<byte>, c: seq<byte>)
    requires 2 <= |b| && 2 <= |c| && b[..2] == c[..2]
    ensures Read16(b, 0) == Read16(c, 0)
  {
    assert b[..2][0] == c[..2][0] && b[..2][1] == c[..2][1];
  }

  /** Reading is determined by the four bytes. */
  lemma Read32Same(b: seq<byte>, pos: nat, c: seq<byte>, to: nat)
    requires pos + 4 <= |b| && to + 4 <= |c| && b[pos..pos + 4] == c[to..to + 4]
    ensures Read32(b, pos) == Read32(c, to)
  {
    assert b[pos..pos + 4][0] == c[to..to + 4][0] && b[pos..pos + 4][1] == c[to..to + 4][1];
    assert b[pos..pos + 4][2] == c[to..to + 4][2] && b[pos..pos + 4][3] == c[to..to + 4][3];
  }
}
