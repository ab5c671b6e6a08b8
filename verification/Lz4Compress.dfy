/** The LZ4 block compressor over one contiguous buffer, writing in place
    (cpp/external/lz4/lz4.c, lines 463-472, 679-703 and 924-1338). */
module Lz4Compress {
  import opened ByteStrings
  import opened Lz4Format
  import opened Lz4Search
  import Lz4Safe

  const MAX_INPUT := 0x7E00_0000

  // ---------------------------------------------------------------- copying and comparing

  method CopyChunk(dst: array<byte>, d: nat, src: seq<byte>, s: nat, n: nat)
    requires d + n <= dst.Length && s + n <= |src|
    modifies dst
    ensures dst[..d] == old(dst[..d]) && dst[d..d + n] == src[s..s + n] && dst[d + n..] == old(dst[d + n..])
  {
    forall k | 0 <= k < n { dst[d + k] := src[s + k]; }
  }

  /** n bytes of src from s on are at d, and everything before d is as it was. */
  ghost predicate Copied(now: seq<byte>, was: seq<byte>, d: nat, src: seq<byte>, s: nat, n: nat) {
    && |now| == |was| && d + n <= |now| && s + n <= |src|
    && now[..d] == was[..d] && now[d..d + n] == src[s..s + n]
  }

  lemma CopiedMore(before: seq<byte>, now: seq<byte>, was: seq<byte>, d: nat, src: seq<byte>, s: nat, n: nat)
    requires Copied(before, was, d, src, s, n) && |now| == |before| && d + n + 8 <= |now| && s + n + 8 <= |src|
    requires now[..d + n] == before[..d + n] && now[d + n..d + n + 8] == src[s + n..s + n + 8]
    ensures Copied(now, was, d, src, s, n + 8)
  {
    assert now[..d] == now[..d + n][..d] && before[..d] == before[..d + n][..d];
    assert now[d..d + (n + 8)] == now[..d + n][d..] + now[d + n..d + n + 8];
    assert before[d..d + n] == before[..d + n][d..];
    assert src[s..s + (n + 8)] == src[s..s + n] + src[s + n..s + n + 8];
  }

  lemma CopiedEnough(now: seq<byte>, was: seq<byte>, d: nat, src: seq<byte>, s: nat, n: nat, m: nat)
    requires Copied(now, was, d, src, s, n) && m <= n
    ensures Copied(now, was, d, src, s, m)
  {
    assert now[d..d + m] == now[d..d + n][..m];
    assert src[s..s + m] == src[s..s + n][..m];
  }

  lemma CopiedNone(was: seq<byte>, d: nat, src: seq<byte>, s: nat)
    requires d <= |was| && s <= |src|
    ensures Copied(was, was, d, src, s, 0)
  {
  }

  /** Copy 8 bytes at a time, at least once; writes up to 8 bytes past `e`. */
  method WildCopy8(dst: array<byte>, d0: nat, src: seq<byte>, s0: nat, e: nat)
    requires d0 <= e && (if e == d0 then e + 8 else e + 7) <= dst.Length && s0 + (e - d0) + 8 <= |src|
    modifies dst
    ensures Copied(dst[..], old(dst[..]), d0, src, s0, e - d0)
  {
    var d, s := d0, s0;
    hide Copied;
    CopiedNone(dst[..], d0, src, s0);
    while true
      invariant d0 <= d && d - d0 == s - s0 && (d == d0 || d < e)
      invariant Copied(dst[..], old(dst[..]), d0, src, s0, d - d0)
      decreases e + 8 - d
    {
      ghost var before := dst[..];
      CopyChunk(dst, d, src, s, 8);
      assert dst[..][..d] == before[..d] && dst[..][d..d + 8] == src[s..s + 8];
      CopiedMore(before, dst[..], old(dst[..]), d0, src, s0, d - d0);
      d, s := d + 8, s + 8;
      if d >= e { break; }
    }
    CopiedEnough(dst[..], old(dst[..]), d0, src, s0, d - d0, e - d0);
  }

  /** The length of the longest common prefix of two byte strings. */
  function CommonPrefix(a: seq<byte>, b: seq<byte>): (n: nat)
    ensures n <= |a| && n <= |b| && a[..n] == b[..n]
    ensures n < |a| && n < |b| ==> a[n] != b[n]
  {
    if a == [] || b == [] || a[0] != b[0] then 0
    else
      var m := CommonPrefix(a[1..], b[1..]);
      assert a[..m + 1] == [a[0]] + a[1..][..m] && b[..m + 1] == [b[0]] + b[1..][..m];
      m + 1
  }

  lemma AgreeMore(src: seq<byte>, p: nat, q: nat, n: nat, m: nat)
    requires Agree(src, p, q, n) && Agree(src, p + n, q + n, m)
    ensures Agree(src, p, q, n + m)
  {
    assert src[p..p + (n + m)] == src[p..p + n] + src[p + n..p + n + m];
    assert src[q..q + (n + m)] == src[q..q + n] + src[q + n..q + n + m];
  }

  /** How many of the 8 bytes of two words agree, from the first on. */
  method CommonBytes(src: seq<byte>, p: nat, q: nat) returns (n: nat)
    requires p + 8 <= |src| && q + 8 <= |src|
    ensures n <= 8 && Agree(src, p, q, n)
    ensures n < 8 ==> src[p + n] != src[q + n]
  {
    ghost var a, b := src[p..p + 8], src[q..q + 8];
    n := CommonPrefix(src[p..p + 8], src[q..q + 8]);
    assert a[..n] == src[p..p + n] && b[..n] == src[q..q + n];
  }

  lemma LongestMore(src: seq<byte>, p: nat, q: nat, limit: nat, n: nat, m: nat)
    requires Agree(src, p, q, n) && Longest(src, p + n, q + n, limit, m)
    ensures Longest(src, p, q, limit, n + m)
  {
    AgreeMore(src, p, q, n, m);
  }

  /** The length of the agreement of `pIn` and `pMatch` before `limit`: whole words first,
      then 4, 2 and 1 bytes. */
  method Count(src: seq<byte>, pIn: nat, pMatch: nat, limit: nat) returns (r: nat)
    requires pMatch < pIn <= limit <= |src|
    ensures Longest(src, pMatch, pIn, limit, r)
  {
    hide Agree;
    r := 0;
    NothingAgrees(src, pMatch, pIn);
    while pIn + r + 7 < limit
      invariant pIn + r <= limit && Agree(src, pMatch, pIn, r)
    {
      var common := CommonBytes(src, pMatch + r, pIn + r);
      AgreeMore(src, pMatch, pIn, r, common);
      r := r + common;
      if common < 8 { return; }
    }
    var tail := CountTail(src, pIn + r, pMatch + r, limit);
    LongestMore(src, pMatch, pIn, limit, r, tail);
    r := r + tail;
  }

  lemma NothingAgrees(src: seq<byte>, p: nat, q: nat)
    requires p <= |src| && q <= |src|
    ensures Agree(src, p, q, 0)
  {
  }

  /** If n bytes differ but the first n - 1 agree, the last one differs. */
  lemma LastDiffers(src: seq<byte>, p: nat, q: nat, n: nat)
    requires n > 0 && p + n <= |src| && q + n <= |src| && src[p..p + n] != src[q..q + n]
    requires Agree(src, p, q, n - 1)
    ensures src[p + n - 1] != src[q + n - 1]
  {
    assert src[p..p + n] == src[p..p + n - 1] + [src[p + n - 1]];
    assert src[q..q + n] == src[q..q + n - 1] + [src[q + n - 1]];
  }

  method CountTail(src: seq<byte>, pIn: nat, pMatch: nat, limit: nat) returns (r: nat)
    requires pMatch < pIn <= limit <= |src| && limit <= pIn + 7
    ensures Longest(src, pMatch, pIn, limit, r)
  {
    r := 0;
    if pIn + 3 < limit && src[pMatch..pMatch + 4] == src[pIn..pIn + 4] { r := 4; }
    var p, q := pMatch + r, pIn + r;
    var two := CountPair(src, q, p, limit);
    LongestMoreUnlessThree(src, pMatch, pIn, limit, r, two);
    r := r + two;
  }

  /** The last two comparisons: a pair of bytes, then one byte. */
  method CountPair(src: seq<byte>, q: nat, p: nat, limit: nat) returns (r: nat)
    requires p < q <= limit <= |src|
    ensures q + r <= limit && r <= 3 && Agree(src, p, q, r)
    ensures r < 3 ==> Longest(src, p, q, limit, r)
  {
    r := 0;
    if q + 1 < limit && src[p..p + 2] == src[q..q + 2] { r := 2; }
    if q + r < limit && src[p + r] == src[q + r] {
      AgreeMore(src, p, q, r, 1);
      if r == 0 && q + 1 < limit { LastDiffers(src, p, q, 2); }
      r := r + 1;
    }
  }

  lemma LongestMoreUnlessThree(src: seq<byte>, p: nat, q: nat, limit: nat, n: nat, m: nat)
    requires p < q && limit <= |src| && limit <= q + 7 && (n == 0 || n == 4) && Agree(src, p, q, n)
    requires n == 0 && q + 3 < limit ==> src[p..p + 4] != src[q..q + 4]
    requires q + n + m <= limit && m <= 3 && Agree(src, p + n, q + n, m)
    requires m < 3 ==> Longest(src, p + n, q + n, limit, m)
    ensures Longest(src, p, q, limit, n + m)
  {
    AgreeMore(src, p, q, n, m);
    if m == 3 && n == 0 && q + 3 < limit { LastDiffers(src, p, q, 4); }
  }

  // ---------------------------------------------------------------- writing lengths

  /** `n` more bytes were written after the first `op`. */
  ghost predicate Wrote(now: seq<byte>, was: seq<byte>, op: nat, bytes: seq<byte>) {
    |now| == |was| && op + |bytes| <= |now| && now[..op + |bytes|] == was[..op] + bytes
  }

  lemma WroteMore(s0: seq<byte>, s1: seq<byte>, s2: seq<byte>, op: nat, a: seq<byte>, b: seq<byte>)
    requires Wrote(s1, s0, op, a) && Wrote(s2, s1, op + |a|, b)
    ensures Wrote(s2, s0, op, a + b)
  {
    assert s0[..op] + (a + b) == (s0[..op] + a) + b;
  }

  lemma WroteNone(s: seq<byte>, op: nat, none: seq<byte>)
    requires op <= |s| && none == []
    ensures Wrote(s, s, op, none)
  {
  }

  /** A run of 255s and the remainder. */
  lemma {:induction false} LengthBytesShape(n: nat)
    ensures var s := LengthBytes(n);
            (forall i :: 0 <= i < n / 255 ==> s[i] == 255) && s[n / 255] == n % 255
  {
    if n >= 255 {
      LengthBytesShape(n - 255);
      assert n / 255 == (n - 255) / 255 + 1 && n % 255 == (n - 255) % 255;
    }
  }

  method WriteByte(dst: array<byte>, op: nat, b: byte)
    requires op < dst.Length
    modifies dst
    ensures Wrote(dst[..], old(dst[..]), op, [b])
    ensures dst[op + 1..] == old(dst[op + 1..])
  {
    dst[op] := b;
  }

  /** The length of a literal run, one byte at a time. */
  method WriteRunLength(dst: array<byte>, op0: nat, n: nat) returns (op: nat)
    requires op0 + n / 255 + 1 <= dst.Length
    modifies dst
    ensures op == op0 + n / 255 + 1 && Wrote(dst[..], old(dst[..]), op0, LengthBytes(n))
  {
    hide Wrote, LengthBytes;
    var len := n;
    op := op0;
    ghost var done: seq<byte> := [];
    WroteNone(dst[..], op0, done);
    while len >= 255
      invariant op == op0 + |done| && done + LengthBytes(len) == LengthBytes(n)
      invariant op + len / 255 + 1 <= dst.Length
      invariant Wrote(dst[..], old(dst[..]), op0, done)
      decreases len
    {
      ghost var before := dst[..];
      WriteByte(dst, op, 255);
      WroteMore(old(dst[..]), before, dst[..], op0, done, [255]);
      RunOn(done, len);
      op, len, done := op + 1, len - 255, done + [255];
    }
    ghost var before := dst[..];
    LastOfRun(len);
    WriteByte(dst, op, len);
    WroteMore(old(dst[..]), before, dst[..], op0, done, [len]);
    op := op + 1;
  }

  lemma RunOn(done: seq<byte>, len: nat)
    requires len >= 255
    ensures done + LengthBytes(len) == (done + [255]) + LengthBytes(len - 255)
    ensures len / 255 == (len - 255) / 255 + 1
  {
    assert LengthBytes(len) == [255] + LengthBytes(len - 255);
  }

  lemma LastOfRun(len: nat)
    requires len < 255
    ensures LengthBytes(len) == [len]
  {
  }

  /** 255s from one place to another. */
  predicate Ones(s: seq<byte>, from: nat, to: nat) {
    from <= to <= |s| && forall i :: from <= i < to ==> s[i] == 255
  }

  lemma OnesMore(was: seq<byte>, now: seq<byte>, from: nat, mid: nat, to: nat)
    requires Ones(was, from, mid) && mid <= |now| && now[..mid] == was[..mid] && Ones(now, mid, to)
    ensures Ones(now, from, to)
  {
    forall i | from <= i < mid ensures now[i] == 255 {
      assert now[..mid][i] == was[..mid][i];
    }
  }

  lemma OnesThenRest(s: seq<byte>, from: nat, n: nat, rest: nat)
    requires from + n / 255 <= rest && Ones(s, from, rest)
    requires from + n / 255 + 1 <= |s|
    ensures var t := s[from + n / 255 := n % 255]; t[from..from + n / 255 + 1] == LengthBytes(n)
  {
    LengthBytesShape(n);
  }

  method Write32Ones(dst: array<byte>, op: nat)
    requires op + 4 <= dst.Length
    modifies dst
    ensures dst[..op] == old(dst[..op]) && Ones(dst[..], op, op + 4)
  {
    dst[op], dst[op + 1], dst[op + 2], dst[op + 3] := 255, 255, 255, 255;
  }

  /** The length of a match: four 255s at a time, then the remainder over the right one. */
  method WriteMatchLength(dst: array<byte>, op0: nat, n: nat) returns (op: nat)
    requires op0 + n / 255 + 4 <= dst.Length
    modifies dst
    ensures op == op0 + n / 255 + 1 && Wrote(dst[..], old(dst[..]), op0, LengthBytes(n))
  {
    hide Ones;
    var matchCode := n;
    op := op0;
    Write32Ones(dst, op);
    while matchCode >= 4 * 255
      invariant op0 <= op && op + matchCode / 255 == op0 + n / 255 && matchCode % 255 == n % 255
      invariant op + 4 <= dst.Length && dst[..op0] == old(dst[..op0])
      invariant Ones(dst[..], op0, op + 4)
      decreases matchCode
    {
      ghost var before := dst[..];
      op := op + 4;
      Write32Ones(dst, op);
      OnesMore(before, dst[..], op0, op, op + 4);
      Earlier(before, dst[..], op0, op);
      FourLess(matchCode);
      matchCode := matchCode - 4 * 255;
    }
    OnesThenRest(dst[..], op0, n, op + 4);
    ghost var filled := dst[..];
    op := op + matchCode / 255;
    dst[op] := matchCode % 255;
    assert dst[..] == filled[op := dst[op]];
    op := op + 1;
  }

  lemma Earlier(was: seq<byte>, now: seq<byte>, i: nat, j: nat)
    requires i <= j <= |was| && j <= |now| && now[..j] == was[..j]
    ensures now[..i] == was[..i]
  {
    assert now[..i] == now[..j][..i] && was[..i] == was[..j][..i];
  }

  lemma FourLess(n: nat)
    requires n >= 1020
    ensures (n - 1020) / 255 == n / 255 - 4 && (n - 1020) % 255 == n % 255
  {
  }

  // ---------------------------------------------------------------- writing a sequence

  /** The output so far is the code of `seqs`, which stand for the first `anchor` bytes. */
  ghost predicate Emitted(out: seq<byte>, src: seq<byte>, seqs: seq<Sequence>, anchor: nat) {
    && ValidPlan(seqs) && out == EncodeAll(seqs)
    && anchor <= |src| && Expand(seqs) == src[..anchor] && EndRules(seqs, |src|)
  }

  /** Room for any block: the caller's side of the unlimited mode. */
  predicate Roomy(size: nat, n: nat) {
    size >= n + n / 255 + 16
  }

  lemma EmittedBound(out: seq<byte>, src: seq<byte>, seqs: seq<Sequence>, anchor: nat)
    requires Emitted(out, src, seqs, anchor)
    ensures |out| <= anchor + anchor / 255
  {
    EncodedSize(seqs);
  }

  /** The token of a literal run and the rest of its length. */
  method WriteRunToken(dst: array<byte>, token: nat, litLength: nat) returns (op: nat)
    requires token + 1 + |Extension(litLength)| <= dst.Length
    modifies dst
    ensures Wrote(dst[..], old(dst[..]), token, [Token(litLength, 0)] + Extension(litLength))
    ensures op == token + 1 + |Extension(litLength)|
  {
    hide Wrote, LengthBytes;
    ghost var s0 := dst[..];
    if litLength >= RUN_MASK {
      WriteByte(dst, token, 240);
      ghost var s1 := dst[..];
      op := WriteRunLength(dst, token + 1, litLength - RUN_MASK);
      WroteMore(s0, s1, dst[..], token, [240], LengthBytes(litLength - RUN_MASK));
    } else {
      WriteByte(dst, token, litLength * 16);
      op := token + 1;
      assert [litLength * 16] == [Token(litLength, 0)] + Extension(litLength);
    }
  }

  lemma CopiedIsWrote(now: seq<byte>, was: seq<byte>, op: nat, src: seq<byte>, s: nat, n: nat)
    requires Copied(now, was, op, src, s, n)
    ensures Wrote(now, was, op, src[s..s + n])
  {
    assert now[..op + n] == now[..op] + now[op..op + n];
  }

  /** A run of literals behind its token; 0 bytes of match length are in the token yet. */
  method WriteLiterals(src: seq<byte>, dst: array<byte>, token: nat, anchor: nat, ip: nat) returns (op: nat)
    requires anchor <= ip && ip + 8 <= |src|
    requires token + 1 + (ip - anchor) + 8 + (ip - anchor) / 255 <= dst.Length
    modifies dst
    ensures Wrote(dst[..], old(dst[..]), token, LiteralPart(src[anchor..ip], 0))
    ensures op == token + |LiteralPart(src[anchor..ip], 0)|
  {
    hide Wrote, Copied, LengthBytes, Extension, Token;
    var litLength := ip - anchor;
    ghost var s0 := dst[..];
    op := WriteRunToken(dst, token, litLength);
    ghost var s1 := dst[..];
    WildCopy8(dst, op, src, anchor, op + litLength);
    CopiedIsWrote(dst[..], s1, op, src, anchor, litLength);
    WroteMore(s0, s1, dst[..], token, [Token(litLength, 0)] + Extension(litLength), src[anchor..ip]);
    op := op + litLength;
  }

  /** The offset of a match; the token and literals before it stay. */
  method WriteOffset(dst: array<byte>, token: nat, op: nat, offset: nat, ghost lits: seq<byte>)
    requires offset <= DISTANCE_MAX && token + |LiteralPart(lits, 0)| == op && op + 2 <= dst.Length
    requires dst[token..op] == LiteralPart(lits, 0)
    modifies dst
    ensures dst[..op + 2] == old(dst[..token]) + LiteralPart(lits, 0) + [offset % 256, offset / 256]
    ensures dst[token] == Token(|lits|, 0)
  {
    hide LengthBytes;
    ghost var was := dst[..];
    assert was[token..op][0] == Token(|lits|, 0);
    dst[op], dst[op + 1] := offset % 256, offset / 256;
    assert dst[token] == was[token];
    assert dst[..op] == was[..token] + was[token..op];
  }

  /** The offset, then the match length: its low part goes into the token already written. */
  method WriteMatch(dst: array<byte>, token: nat, op0: nat, offset: nat, matchCode: nat, ghost lits: seq<byte>)
    returns (op: nat)
    requires offset <= DISTANCE_MAX
    requires token + |LiteralPart(lits, 0)| == op0 && op0 + 8 + (matchCode + 240) / 255 <= dst.Length
    requires dst[token..op0] == LiteralPart(lits, 0)
    modifies dst
    ensures Wrote(dst[..], old(dst[..]), token, LiteralPart(lits, matchCode) + MatchPart(offset, matchCode))
    ensures op == token + |LiteralPart(lits, matchCode)| + |MatchPart(offset, matchCode)|
  {
    hide LengthBytes, LiteralPart;
    WriteOffset(dst, token, op0, offset, lits);
    op := op0 + 2;
    ghost var s1 := dst[..];
    if matchCode >= ML_MASK {
      op := WriteMatchLength(dst, op, matchCode - ML_MASK);
      KeptBefore(dst[..], s1, op0 + 2, token, LengthBytes(matchCode - ML_MASK));
    }
    assert dst[..op] == s1[..op0 + 2] + Extension(matchCode);
    ghost var s2 := dst[..];
    PatchToken(dst, token, matchCode, |lits|);
    MatchWritten(old(dst[..]), s2, dst[..], token, op, lits, offset, matchCode);
  }

  /** Add the match length, or its limit, to the token. */
  method PatchToken(dst: array<byte>, token: nat, matchCode: nat, ghost literals: nat)
    requires token < dst.Length && dst[token] == Token(literals, 0)
    modifies dst
    ensures dst[..] == old(dst[..])[token := Token(literals, matchCode)]
  {
    if matchCode >= ML_MASK {
      dst[token] := dst[token] + ML_MASK;
    } else {
      dst[token] := dst[token] + matchCode;
    }
  }

  lemma MatchWritten(was: seq<byte>, before: seq<byte>, now: seq<byte>, token: nat, op: nat, lits: seq<byte>, offset: nat, matchCode: nat)
    requires offset <= DISTANCE_MAX && |now| == |before| == |was| && token < op <= |now|
    requires op == token + |LiteralPart(lits, 0)| + |MatchPart(offset, matchCode)|
    requires before[..op] == was[..token] + LiteralPart(lits, 0) + [offset % 256, offset / 256] + Extension(matchCode)
    requires before[token] == Token(|lits|, 0) && now == before[token := Token(|lits|, matchCode)]
    ensures Wrote(now, was, token, LiteralPart(lits, matchCode) + MatchPart(offset, matchCode))
    ensures op == token + |LiteralPart(lits, matchCode)| + |MatchPart(offset, matchCode)|
  {
    hide LengthBytes, LiteralPart, Extension;
    LiteralSizes(lits, matchCode);
    assert now[..op][token := Token(|lits|, 0)] == before[..op];
    TokenPatched(was[..token], lits, offset, matchCode, now[..op]);
  }

  lemma LiteralSizes(lits: seq<byte>, matchCode: nat)
    ensures |LiteralPart(lits, matchCode)| == |LiteralPart(lits, 0)|
  {
    hide LengthBytes;
  }

  lemma KeptBefore(now: seq<byte>, was: seq<byte>, op: nat, k: nat, bytes: seq<byte>)
    requires Wrote(now, was, op, bytes) && k < op
    ensures now[k] == was[k]
  {
    assert now[..op + |bytes|][k] == was[..op][k];
  }

  /** Adding the match length to the token turns the literal part into the final one. */
  lemma TokenPatched(prefix: seq<byte>, lits: seq<byte>, offset: nat, matchCode: nat, out: seq<byte>)
    requires offset <= DISTANCE_MAX
    requires |out| == |prefix| + |LiteralPart(lits, 0)| + |MatchPart(offset, matchCode)|
    requires out[|prefix|] == Token(|lits|, matchCode)
    requires out[|prefix| := Token(|lits|, 0)] == prefix + LiteralPart(lits, 0) + MatchPart(offset, matchCode)
    ensures out == prefix + (LiteralPart(lits, matchCode) + MatchPart(offset, matchCode))
  {
    hide LengthBytes;
    var k := |prefix|;
    assert out == out[k := Token(|lits|, 0)][k := Token(|lits|, matchCode)];
  }

  // ---------------------------------------------------------------- finding a match

  /** Every position in the table lies before k. */
  ghost predicate Below(table: seq<nat>, k: nat) {
    forall h :: 0 <= h < |table| ==> table[h] < k
  }

  /** A usable match: 4 equal bytes, within the distance an offset can express. */
  predicate Match(src: seq<byte>, p: nat, ip: nat) {
    p < ip && ip - p <= DISTANCE_MAX && Agree(src, p, ip, MINMATCH)
  }

  /** The table holds the position noted last for each slot. */
  ghost predicate TableIs(table: seq<nat>, hash: nat -> nat, noted: seq<nat>) {
    forall h :: 0 <= h < |table| ==> table[h] == Latest(noted, hash, h)
  }

  lemma NoteOne(table: seq<nat>, hash: nat -> nat, noted: seq<nat>, p: nat)
    requires TableIs(table, hash, noted) && hash(p) < |table|
    ensures TableIs(table[hash(p) := p], hash, noted + [p])
  {
    assert (noted + [p])[..|noted|] == noted;
  }

  lemma HitIsMatch(j: Job, noted: seq<nat>, p: nat)
    requires SmallEnough(j.byU16, |j.src|) && Candidate(j, noted, p) < p && p + MFLIMIT <= |j.src| && Hit(j, noted, p)
    ensures Match(j.src, Candidate(j, noted, p), p)
  {
  }

  lemma MissMore(j: Job, noted: seq<nat>, a: nat, n: nat)
    requires Misses(j, noted, a, n)
    requires InReach(j, a, n) && !Hit(j, noted + Probes(j.acceleration, a, n), Probe(j.acceleration, a, n))
    ensures Misses(j, noted, a, n + 1)
  {
    hide InReach, Hit, Probe, Probes;
  }

  lemma ProbesMore(noted: seq<nat>, acceleration: nat, a: nat, k: nat)
    ensures noted + Probes(acceleration, a, k) + [Probe(acceleration, a, k)] == noted + Probes(acceleration, a, k + 1)
  {
  }

  /** Step through the input, faster and faster, until the table offers a match. */
  method FindMatch(src: seq<byte>, table: array<nat>, hash: nat -> nat, byU16: bool, acceleration: nat, ip0: nat,
                   ghost noted: seq<nat>)
    returns (found: bool, ip: nat, match0: nat, ghost misses: nat)
    requires |src| >= MFLIMIT + 1 && 1 <= ip0 <= |src| - MFLIMIT + 1 && acceleration >= 1
    requires SmallEnough(byU16, |src|) && (forall p :: hash(p) < table.Length) && Below(table[..], ip0)
    requires TableIs(table[..], hash, noted)
    modifies table
    ensures var j := Job(src, hash, byU16, acceleration);
            && Misses(j, noted, ip0 - 1, misses)
            && (found <==> InReach(j, ip0 - 1, misses))
            && (found ==>
                  var noted' := noted + Probes(acceleration, ip0 - 1, misses);
                  && ip == Probe(acceleration, ip0 - 1, misses) && Hit(j, noted', ip) && match0 == Candidate(j, noted', ip)
                  && TableIs(table[..], hash, noted + Probes(acceleration, ip0 - 1, misses + 1)))
    ensures found ==> ip0 <= ip && ip + MFLIMIT <= |src| && Match(src, match0, ip) && Below(table[..], ip + 1)
  {
    hide TableIs, Misses, Hit, Probes, Latest;
    ghost var j, a := Job(src, hash, byU16, acceleration), ip0 - 1;
    var forwardIp := ip0;
    var forwardH := hash(ip0);
    var step := 1;
    var searchMatchNb := acceleration * 64;
    ip, match0, misses := ip0, 0, 0;
    NoProbes(j, noted, a);
    while true
      invariant ip0 <= forwardIp && step == Gap(acceleration, misses) && searchMatchNb == acceleration * 64 + misses
      invariant forwardIp == Probe(acceleration, a, misses)
      invariant forwardIp <= |src| - MFLIMIT + 1 && forwardH == hash(forwardIp)
      invariant Below(table[..], forwardIp) && TableIs(table[..], hash, noted + Probes(acceleration, a, misses))
      invariant Misses(j, noted, a, misses)
      decreases |src| - forwardIp
    {
      var h := forwardH;
      var current := forwardIp;
      var matchIndex := table[h];
      ip := forwardIp;
      forwardIp := forwardIp + step;
      step := searchMatchNb / 64;
      searchMatchNb := searchMatchNb + 1;
      NextProbe(acceleration, a, misses);
      if forwardIp > |src| - MFLIMIT + 1 { return false, ip, 0, misses; }
      match0 := matchIndex;
      TableAt(table[..], hash, noted + Probes(acceleration, a, misses), h);
      NoteOne(table[..], hash, noted + Probes(acceleration, a, misses), current);
      ProbesMore(noted, acceleration, a, misses);
      forwardH := hash(forwardIp);
      table[h] := current;
      HitIs(j, noted + Probes(acceleration, a, misses), ip);
      if Near(byU16, matchIndex, current) && src[match0..match0 + 4] == src[ip..ip + 4] {
        HitIsMatch(j, noted + Probes(acceleration, a, misses), ip);
        return true, ip, match0, misses;
      }
      MissMore(j, noted, a, misses);
      misses := misses + 1;
    }
  }

  lemma NoProbes(j: Job, noted: seq<nat>, a: nat)
    ensures Misses(j, noted, a, 0) && noted + Probes(j.acceleration, a, 0) == noted
  {
  }

  lemma NextProbe(acceleration: nat, a: nat, k: nat)
    requires acceleration >= 1
    ensures Probe(acceleration, a, k + 1) == Probe(acceleration, a, k) + Gap(acceleration, k)
    ensures Gap(acceleration, k) >= 1 && Gap(acceleration, k + 1) == (acceleration * 64 + k) / 64
  {
  }

  lemma TableAt(table: seq<nat>, hash: nat -> nat, noted: seq<nat>, h: nat)
    requires TableIs(table, hash, noted) && h < |table|
    ensures table[h] == Latest(noted, hash, h)
  {
  }

  lemma HitIs(j: Job, noted: seq<nat>, p: nat)
    requires Candidate(j, noted, p) + 4 <= |j.src| && p + 4 <= |j.src|
    ensures Hit(j, noted, p) <==>
            Near(j.byU16, Candidate(j, noted, p), p)
            && j.src[Candidate(j, noted, p)..Candidate(j, noted, p) + 4] == j.src[p..p + 4]
  {
  }

  /** The byte before the match goes on before the earlier place, down to the pending literals. */
  predicate GoesBack(src: seq<byte>, anchor: nat, ip: nat, p: nat) {
    ip > anchor && p > 0 && ip <= |src| && p <= |src| && src[ip - 1] == src[p - 1]
  }

  /** The match found at ip0, moved back to ip. */
  predicate MovedBack(src: seq<byte>, anchor: nat, ip0: nat, match0: nat, ip: nat, p: nat) {
    anchor <= ip <= ip0 && ip - p == ip0 - match0 && Match(src, p, ip) && Agree(src, p, ip, ip0 - ip + MINMATCH)
  }

  /** Extend a match backwards over bytes that agree, down to the pending literals. */
  method CatchUp(src: seq<byte>, anchor: nat, ip0: nat, match0: nat) returns (ip: nat, p: nat)
    requires anchor < ip0 && Match(src, match0, ip0)
    ensures anchor <= ip <= ip0 && ip - p == ip0 - match0 && Match(src, p, ip)
    ensures Agree(src, p, ip, ip0 - ip + MINMATCH)
    ensures !GoesBack(src, anchor, ip, p)
  {
    hide Agree, Match, GoesBack;
    NotMoved(src, anchor, ip0, match0);
    ip, p := ip0, match0;
    GoesBackIs(src, anchor, ip, p);
    if p > 0 && src[ip - 1] == src[p - 1] {
      while true
        invariant MovedBack(src, anchor, ip0, match0, ip, p) && GoesBack(src, anchor, ip, p) && 0 < ip && 0 < p
        decreases ip
      {
        hide MovedBack;
        MovesBack(src, anchor, ip0, match0, ip, p);
        ip, p := ip - 1, p - 1;
        GoesBackIs(src, anchor, ip, p);
        if !(ip > anchor && p > 0 && src[ip - 1] == src[p - 1]) { break; }
      }
    }
  }

  lemma NotMoved(src: seq<byte>, anchor: nat, ip0: nat, match0: nat)
    requires anchor < ip0 && Match(src, match0, ip0)
    ensures MovedBack(src, anchor, ip0, match0, ip0, match0) && ip0 <= |src| && match0 <= |src|
  {
    MatchInside(src, match0, ip0);
    MatchBefore(src, match0, ip0);
    MatchAgrees(src, match0, ip0);
  }

  lemma MovesBack(src: seq<byte>, anchor: nat, ip0: nat, match0: nat, ip: nat, p: nat)
    requires MovedBack(src, anchor, ip0, match0, ip, p) && GoesBack(src, anchor, ip, p) && 0 < ip && 0 < p
    ensures MovedBack(src, anchor, ip0, match0, ip - 1, p - 1) && ip <= |src| && p <= |src|
  {
    hide Agree, Match;
    CatchUpOne(src, anchor, p, ip, ip0 - ip);
  }

  lemma MatchAgrees(src: seq<byte>, p: nat, q: nat)
    requires Match(src, p, q)
    ensures Agree(src, p, q, MINMATCH)
  {
  }

  lemma GoesBackIs(src: seq<byte>, anchor: nat, ip: nat, p: nat)
    requires ip <= |src| && p <= |src|
    ensures GoesBack(src, anchor, ip, p) <==> ip > anchor && p > 0 && src[ip - 1] == src[p - 1]
  {
  }

  lemma CatchUpOne(src: seq<byte>, anchor: nat, p: nat, ip: nat, n: nat)
    requires ip > anchor && p > 0 && GoesBack(src, anchor, ip, p) && Match(src, p, ip) && Agree(src, p, ip, n + MINMATCH)
    ensures Match(src, p - 1, ip - 1) && Agree(src, p - 1, ip - 1, n + 1 + MINMATCH)
    ensures ip <= |src| && p <= |src|
  {
    hide Agree;
    AgreeBefore(src, p, ip, MINMATCH);
    AgreeBefore(src, p, ip, n + MINMATCH);
  }

  lemma MatchInside(src: seq<byte>, p: nat, q: nat)
    requires Match(src, p, q)
    ensures q + MINMATCH <= |src|
  {
  }

  lemma AgreeBefore(src: seq<byte>, p: nat, q: nat, n: nat)
    requires p > 0 && q > 0 && n > 0 && Agree(src, p, q, n) && src[p - 1] == src[q - 1]
    ensures Agree(src, p - 1, q - 1, n) && Agree(src, p - 1, q - 1, n + 1)
  {
    assert src[p - 1..p + n] == [src[p - 1]] + src[p..p + n];
    assert src[q - 1..q + n] == [src[q - 1]] + src[q..q + n];
    assert src[p - 1..p + n - 1] == src[p - 1..p + n][..n];
    assert src[q - 1..q + n - 1] == src[q - 1..q + n][..n];
  }

  // ---------------------------------------------------------------- one sequence

  /** A stretch of the input that agrees with an earlier one is a copy of it. */
  lemma AgreeIsCopy(src: seq<byte>, p: nat, q: nat, n: nat)
    requires p < q && Agree(src, p, q, n)
    ensures CopyBack(src[..q], q - p, n) == src[..q + n]
  {
    var s := src[..q + n];
    forall j | q <= j < q + n ensures s[j] == s[j - (q - p)] {
      assert src[q..q + n][j - q] == src[p..p + n][j - q];
    }
    PeriodicIsCopy(s, q, q - p);
    assert s[..q] == src[..q];
  }

  /** A match behind its literals extends the emitted block. */
  lemma EmittedMore(out: seq<byte>, src: seq<byte>, seqs: seq<Sequence>, anchor: nat, ip: nat, p: nat, n: nat, out': seq<byte>)
    requires Emitted(out, src, seqs, anchor) && anchor <= ip && p < ip && ip - p <= DISTANCE_MAX
    requires ip + MFLIMIT <= |src| && ip + n + LASTLITERALS <= |src| && n >= MINMATCH && Agree(src, p, ip, n)
    requires out' == out + (LiteralPart(src[anchor..ip], n - MINMATCH) + MatchPart(ip - p, n - MINMATCH))
    ensures Emitted(out', src, seqs + [Sequence(src[anchor..ip], ip - p, n)], ip + n)
  {
    hide Expand, Size, EncodeAll, CopyBack, Reachable, LengthBytes;
    var s := Sequence(src[anchor..ip], ip - p, n);
    assert Size(seqs) == anchor;
    PlanSnoc(seqs, s);
    AgreeIsCopy(src, p, ip, n);
    assert src[..anchor] + src[anchor..ip] == src[..ip];
    EndRulesSnoc(seqs, s, |src|);
  }

  /** The match length code: what agrees beyond the first 4 bytes; at least what is known to. */
  method MeasureMatch(src: seq<byte>, ip: nat, p: nat, ghost known: nat) returns (matchCode: nat)
    requires Match(src, p, ip) && ip + MFLIMIT <= |src|
    requires Agree(src, p, ip, known) && ip + known + LASTLITERALS <= |src|
    ensures ip + matchCode + MINMATCH + LASTLITERALS <= |src| && Agree(src, p, ip, matchCode + MINMATCH)
    ensures matchCode + MINMATCH >= known && Longest(src, p, ip, |src| - LASTLITERALS, matchCode + MINMATCH)
  {
    matchCode := Count(src, ip + MINMATCH, p + MINMATCH, |src| - LASTLITERALS);
    AgreeMore(src, p, ip, MINMATCH, matchCode);
    LongestMore(src, p, ip, |src| - LASTLITERALS, MINMATCH, matchCode);
    AgreeAt(src, p, ip, known, matchCode + MINMATCH);
  }

  lemma WroteSequence(now: seq<byte>, was: seq<byte>, token: nat, op: nat, src: seq<byte>, seqs: seq<Sequence>,
                      anchor: nat, ip: nat, p: nat, matchCode: nat)
    requires token <= |was| && Emitted(was[..token], src, seqs, anchor) && anchor <= ip && Match(src, p, ip)
    requires ip + MFLIMIT <= |src| && ip + matchCode + MINMATCH + LASTLITERALS <= |src|
    requires Agree(src, p, ip, matchCode + MINMATCH)
    requires Wrote(now, was, token, LiteralPart(src[anchor..ip], matchCode) + MatchPart(ip - p, matchCode))
    requires op == token + |LiteralPart(src[anchor..ip], matchCode)| + |MatchPart(ip - p, matchCode)|
    ensures op <= |now|
    ensures Emitted(now[..op], src, seqs + [Sequence(src[anchor..ip], ip - p, matchCode + MINMATCH)], ip + matchCode + MINMATCH)
  {
    hide Emitted, Agree, LiteralPart, MatchPart, LengthBytes;
    EmittedMore(was[..token], src, seqs, anchor, ip, p, matchCode + MINMATCH, now[..op]);
  }

  /** In the limited mode the block is given up at its last sequence: its literals or its match may
      not fit. */
  predicate Tight(seqs: seq<Sequence>, size: nat) {
    seqs != [] &&
    var init, s := seqs[..|seqs| - 1], seqs[|seqs| - 1];
    && (forall t :: t in init ==> ValidSequence(t)) && s.length >= MINMATCH
    && (|EncodeAll(init)| + 9 + |s.literals| + |s.literals| / 255 > size
        || |EncodeAll(init)| + |LiteralPart(s.literals, 0)| + 8 + (s.length - MINMATCH + 240) / 255 > size)
  }

  lemma IsTight(out: seq<byte>, src: seq<byte>, seqs: seq<Sequence>, anchor: nat, s: Sequence, size: nat)
    requires Emitted(out, src, seqs, anchor) && s.length >= MINMATCH
    requires |out| + 9 + |s.literals| + |s.literals| / 255 > size
             || |out| + |LiteralPart(s.literals, 0)| + 8 + (s.length - MINMATCH + 240) / 255 > size
    ensures Tight(seqs + [s], size)
  {
    assert (seqs + [s])[..|seqs|] == seqs;
  }

  /** From the offset on: measure the match, write it and move past it. In the limited mode
      the block is given up when the output may not fit. */
  method EncodeMatch(src: seq<byte>, dst: array<byte>, token: nat, op0: nat, ip0: nat, match0: nat, limited: bool,
                     ghost anchor: nat, ghost seqs: seq<Sequence>, ghost known: nat)
    returns (ok: bool, op: nat, ip: nat, ghost seqs': seq<Sequence>, ghost n: nat)
    requires Agree(src, match0, ip0, known) && ip0 + known + LASTLITERALS <= |src|
    requires token <= dst.Length && Emitted(dst[..token], src, seqs, anchor)
    requires anchor <= ip0 && ip0 + MFLIMIT <= |src| && Match(src, match0, ip0)
    requires op0 == token + |LiteralPart(src[anchor..ip0], 0)| && op0 + 2 <= dst.Length
    requires dst[token..op0] == LiteralPart(src[anchor..ip0], 0)
    requires limited || Roomy(dst.Length, |src|)
    modifies dst
    ensures !ok ==> limited && !Roomy(dst.Length, |src|) && Tight(seqs', dst.Length)
    ensures ok ==> op + 6 <= dst.Length && Emitted(dst[..op], src, seqs', ip)
    ensures ok ==> ip == ip0 + n
    ensures n >= MINMATCH && n >= known && ip0 + n <= |src| - LASTLITERALS
    ensures seqs' == seqs + [Sequence(src[anchor..ip0], ip0 - match0, n)] && Longest(src, match0, ip0, |src| - LASTLITERALS, n)
  {
    hide EncodeAll, Expand, LengthBytes, Size, Emitted, Agree, LiteralPart, MatchPart, Wrote, Longest, Tight;
    ghost var was := dst[..];
    var matchCode := MeasureMatch(src, ip0, match0, known);
    ip := ip0 + matchCode + MINMATCH;
    n := matchCode + MINMATCH;
    ghost var s := Sequence(src[anchor..ip0], ip0 - match0, n);
    ok, op, seqs' := false, op0, seqs + [s];
    if Roomy(dst.Length, |src|) { MatchFits(dst[..token], src, seqs, anchor, ip0, matchCode, dst.Length); }
    if limited && op0 + 2 + (1 + LASTLITERALS) + (matchCode + 240) / 255 > dst.Length {
      IsTight(dst[..token], src, seqs, anchor, s, dst.Length);
      return;
    }
    op := WriteMatch(dst, token, op0, ip0 - match0, matchCode, src[anchor..ip0]);
    ok := true;
    WroteSequence(dst[..], was, token, op, src, seqs, anchor, ip0, match0, matchCode);
    PartSizes(src[anchor..ip0], ip0 - match0, matchCode);
  }

  lemma PartSizes(lits: seq<byte>, offset: nat, matchCode: nat)
    requires offset <= DISTANCE_MAX
    ensures |LiteralPart(lits, matchCode)| == |LiteralPart(lits, 0)|
    ensures |MatchPart(offset, matchCode)| <= 2 + (matchCode + 240) / 255
  {
  }

  lemma MatchFits(out: seq<byte>, src: seq<byte>, seqs: seq<Sequence>, anchor: nat, ip: nat, matchCode: nat, size: nat)
    requires Emitted(out, src, seqs, anchor) && Roomy(size, |src|)
    requires anchor <= ip && ip + matchCode + MINMATCH + LASTLITERALS <= |src|
    ensures |out| + |LiteralPart(src[anchor..ip], 0)| + 8 + (matchCode + 240) / 255 <= size
  {
    EmittedBound(out, src, seqs, anchor);
  }

  // ---------------------------------------------------------------- the block

  /** There is a longest agreement. */
  lemma LongestIs(src: seq<byte>, p: nat, q: nat, limit: nat, known: nat) returns (n: nat)
    requires p < q && limit <= |src| && q + known <= limit && Agree(src, p, q, known)
    ensures n >= known && Longest(src, p, q, limit, n)
    decreases limit - (q + known)
  {
    n := known;
    if q + known < limit && src[p + known] == src[q + known] {
      AgreeMore(src, p, q, known, 1);
      n := LongestIs(src, p, q, limit, known + 1);
    }
  }

  lemma LongestInside(src: seq<byte>, p: nat, q: nat, limit: nat, n: nat)
    requires Longest(src, p, q, limit, n)
    ensures q + n <= limit
  {
  }

  lemma MatchBefore(src: seq<byte>, p: nat, q: nat)
    requires Match(src, p, q)
    ensures p < q && q - p <= DISTANCE_MAX
  {
  }

  /** A sequence with its literals. */
  method EncodeSequenceAt(src: seq<byte>, dst: array<byte>, token: nat, anchor: nat, ip0: nat, match0: nat, limited: bool,
                          ghost seqs: seq<Sequence>, ghost known: nat)
    returns (ok: bool, op: nat, ip: nat, ghost seqs': seq<Sequence>, ghost n: nat)
    requires Agree(src, match0, ip0, known) && ip0 + known + LASTLITERALS <= |src| && known >= MINMATCH
    requires token <= dst.Length && Emitted(dst[..token], src, seqs, anchor)
    requires anchor <= ip0 && ip0 + MFLIMIT <= |src| && Match(src, match0, ip0)
    requires limited || Roomy(dst.Length, |src|)
    modifies dst
    ensures !ok ==> limited && !Roomy(dst.Length, |src|) && Tight(seqs', dst.Length)
    ensures ok ==> op + 6 <= dst.Length && Emitted(dst[..op], src, seqs', ip)
    ensures ok ==> ip == ip0 + n
    ensures n >= MINMATCH && n >= known && ip0 + n <= |src| - LASTLITERALS
    ensures seqs' == seqs + [Sequence(src[anchor..ip0], ip0 - match0, n)] && Longest(src, match0, ip0, |src| - LASTLITERALS, n)
  {
    hide EncodeAll, Expand, LengthBytes, Size, Tight, Longest, Agree, Emitted, Match;
    var litLength := ip0 - anchor;
    ghost var was := dst[..];
    if Roomy(dst.Length, |src|) { LiteralsFit(dst[..token], src, seqs, anchor, ip0, dst.Length); }
    MatchBefore(src, match0, ip0);
    if limited && token + 1 + litLength + (2 + 1 + LASTLITERALS) + litLength / 255 > dst.Length {
      n := LongestIs(src, match0, ip0, |src| - LASTLITERALS, known);
      LongestInside(src, match0, ip0, |src| - LASTLITERALS, n);
      ghost var s := Sequence(src[anchor..ip0], ip0 - match0, n);
      IsTight(dst[..token], src, seqs, anchor, s, dst.Length);
      return false, token, ip0, seqs + [s], n;
    }
    var op0 := WriteLiterals(src, dst, token, anchor, ip0);
    WroteAt(dst[..], was, token, LiteralPart(src[anchor..ip0], 0));
    RunSize(src[anchor..ip0]);
    ok, op, ip, seqs', n := EncodeMatch(src, dst, token, op0, ip0, match0, limited, anchor, seqs, known);
  }

  lemma LiteralsFit(out: seq<byte>, src: seq<byte>, seqs: seq<Sequence>, anchor: nat, ip: nat, size: nat)
    requires Emitted(out, src, seqs, anchor) && Roomy(size, |src|) && anchor <= ip && ip + MFLIMIT <= |src|
    ensures |out| + 1 + (ip - anchor) + (2 + 1 + LASTLITERALS) + (ip - anchor) / 255 <= size
  {
    EmittedBound(out, src, seqs, anchor);
  }

  lemma WroteAt(now: seq<byte>, was: seq<byte>, op: nat, bytes: seq<byte>)
    requires Wrote(now, was, op, bytes) && op <= |was|
    ensures now[..op] == was[..op] && now[op..op + |bytes|] == bytes
  {
    assert now[..op] == now[..op + |bytes|][..op];
    assert now[op..op + |bytes|] == now[..op + |bytes|][op..];
  }

  lemma RunSize(lits: seq<byte>)
    ensures |LiteralPart(lits, 0)| <= 1 + |lits| + |lits| / 255 + 1
  {
  }

  /** A sequence without literals: its token is 0 until the match length is known. */
  method EncodeBareMatch(src: seq<byte>, dst: array<byte>, token: nat, ip0: nat, match0: nat, limited: bool,
                         ghost seqs: seq<Sequence>)
    returns (ok: bool, op: nat, ip: nat, ghost seqs': seq<Sequence>, ghost n: nat)
    requires token + 6 <= dst.Length && Emitted(dst[..token], src, seqs, ip0)
    requires ip0 + MFLIMIT <= |src| && Match(src, match0, ip0)
    requires limited || Roomy(dst.Length, |src|)
    modifies dst
    ensures !ok ==> limited && !Roomy(dst.Length, |src|) && Tight(seqs', dst.Length)
    ensures ok ==> op + 6 <= dst.Length && Emitted(dst[..op], src, seqs', ip)
    ensures ok ==> ip == ip0 + n
    ensures n >= MINMATCH && ip0 + n <= |src| - LASTLITERALS
    ensures seqs' == seqs + [Sequence([], ip0 - match0, n)] && Longest(src, match0, ip0, |src| - LASTLITERALS, n)
  {
    hide Tight, Longest;
    ghost var was := dst[..];
    dst[token] := 0;
    assert dst[..token] == was[..token];
    assert src[ip0..ip0] == [];
    assert dst[token..token + 1] == LiteralPart([], 0);
    ok, op, ip, seqs', n := EncodeMatch(src, dst, token, token + 1, ip0, match0, limited, ip0, seqs, MINMATCH);
  }

  lemma SizeIs(out: seq<byte>, src: seq<byte>, seqs: seq<Sequence>, anchor: nat)
    requires Emitted(out, src, seqs, anchor)
    ensures Size(seqs) == anchor <= |src|
  {
  }

  /** One more sequence found. */
  lemma PickedMore(j: Job, finds: seq<Find>, seqs: seq<Sequence>, f: Find, s: Sequence)
    requires Picked(j, finds, seqs) && Taken(j, Noted(j.acceleration, finds, seqs), Size(seqs), f, s)
    ensures Picked(j, finds + [f], seqs + [s])
    ensures var noted, a := NotedBehind(Noted(j.acceleration, finds, seqs), Size(seqs)), Size(seqs);
            Noted(j.acceleration, finds + [f], seqs + [s]) == match f
                                                             case Follow => noted
                                                             case Search(misses) => noted + Probes(j.acceleration, a, misses + 1)
  {
    hide Taken, Size, Probes, NotedBehind;
    assert (finds + [f])[..|finds|] == finds && (seqs + [s])[..|seqs|] == seqs;
  }

  lemma FollowIsTaken(j: Job, noted: seq<nat>, a: nat, c: nat, n: nat)
    requires 4 <= a && a + MFLIMIT <= |j.src| && Hit(j, noted + [a - 2], a) && c == Candidate(j, noted + [a - 2], a) < a
    requires n >= MINMATCH && Longest(j.src, c, a, |j.src| - LASTLITERALS, n)
    ensures Taken(j, noted, a, Follow, Sequence([], a - c, n))
  {
    hide Hit, Longest, Candidate;
    assert j.src[a..a] == [];
  }

  lemma SearchIsTaken(j: Job, noted: seq<nat>, a: nat, misses: nat, f: nat, c: nat, ip: nat, p: nat, n: nat)
    requires NoFollow(j, noted, a) && Misses(j, NotedBehind(noted, a), a, misses) && InReach(j, a, misses)
    requires f == Probe(j.acceleration, a, misses) && Hit(j, NotedBehind(noted, a) + Probes(j.acceleration, a, misses), f)
    requires c == Candidate(j, NotedBehind(noted, a) + Probes(j.acceleration, a, misses), f)
    requires a <= ip <= f && p < ip && ip - p == f - c && ip <= |j.src| && |j.src| >= LASTLITERALS
    requires ip == a || p == 0 || j.src[ip - 1] != j.src[p - 1]
    requires n >= f - ip + MINMATCH && Longest(j.src, p, ip, |j.src| - LASTLITERALS, n)
    ensures Taken(j, noted, a, Search(misses), Sequence(j.src[a..ip], ip - p, n))
  {
    hide Hit, Longest, Candidate, Misses, InReach, Probe, Probes, NoFollow;
  }

  /** Matches that follow one another without literals in between. */
  method FollowMatches(src: seq<byte>, dst: array<byte>, table: array<nat>, hash: nat -> nat, byU16: bool,
                       op0: nat, ip0: nat, limited: bool, ghost j: Job, ghost finds: seq<Find>, ghost seqs: seq<Sequence>)
    returns (ok: bool, done: bool, op: nat, ip: nat, ghost finds': seq<Find>, ghost seqs': seq<Sequence>)
    requires op0 + 6 <= dst.Length && Emitted(dst[..op0], src, seqs, ip0)
    requires 4 <= ip0 <= |src| - LASTLITERALS && SmallEnough(byU16, |src|)
    requires (forall p :: hash(p) < table.Length) && Below(table[..], ip0)
    requires limited || Roomy(dst.Length, |src|)
    requires j == Job(src, hash, byU16, j.acceleration) && Picked(j, finds, seqs)
    requires TableIs(table[..], hash, Noted(j.acceleration, finds, seqs))
    modifies dst, table
    ensures Picked(j, finds', seqs')
    ensures !ok ==> limited && !Roomy(dst.Length, |src|) && Tight(seqs', dst.Length)
    ensures ok ==> op + 6 <= dst.Length && Emitted(dst[..op], src, seqs', ip) && ip0 <= ip
    ensures ok && done ==> ip + MFLIMIT > |src|
    ensures ok && !done ==>
              && ip + MFLIMIT <= |src| && Below(table[..], ip + 1)
              && NoFollow(j, Noted(j.acceleration, finds', seqs'), ip)
              && TableIs(table[..], hash, NotedBehind(Noted(j.acceleration, finds', seqs'), ip))
  {
    hide Picked, Noted, TableIs, Hit, Emitted, Tight, Taken, Agree, Longest, Candidate;
    SameLengths(j, finds, seqs);
    ok, done, op, ip, finds', seqs' := true, false, op0, ip0, finds, seqs;
    while true
      invariant ok && !done && op + 6 <= dst.Length && Emitted(dst[..op], src, seqs', ip)
      invariant ip0 <= ip <= |src| - LASTLITERALS && Below(table[..], ip)
      invariant |finds'| == |seqs'| && Picked(j, finds', seqs')
      invariant TableIs(table[..], hash, Noted(j.acceleration, finds', seqs'))
      decreases |src| - ip
    {
      if ip + MFLIMIT > |src| { return true, true, op, ip, finds', seqs'; }
      ghost var noted := Noted(j.acceleration, finds', seqs');
      SizeIs(dst[..op], src, seqs', ip);
      var match0 := LookAt(table, hash, ip, j, noted);
      HitIs(j, noted + [ip - 2], ip);
      if !(Near(byU16, match0, ip) && src[match0..match0 + 4] == src[ip..ip + 4]) {
        return true, false, op, ip, finds', seqs';
      }
      HitIsMatch(j, noted + [ip - 2], ip);
      ghost var n, before, p := 0, seqs', ip;
      ok, op, ip, seqs', n := EncodeBareMatch(src, dst, op, ip, match0, limited, seqs');
      FollowIsTaken(j, noted, p, match0, n);
      PickedMore(j, finds', before, Follow, Sequence([], p - match0, n));
      finds' := finds' + [Follow];
      if !ok { return; }
    }
  }

  /** Fill the table at ip - 2, then exchange ip with the candidate in its slot. */
  method LookAt(table: array<nat>, hash: nat -> nat, ip: nat, ghost j: Job, ghost noted: seq<nat>) returns (match0: nat)
    requires ip >= 2 && (forall p :: hash(p) < table.Length) && Below(table[..], ip)
    requires j.hash == hash && TableIs(table[..], hash, noted)
    modifies table
    ensures match0 < ip && Below(table[..], ip + 1)
    ensures match0 == Candidate(j, noted + [ip - 2], ip) && TableIs(table[..], hash, NotedBehind(noted, ip))
  {
    hide TableIs, Latest;
    NoteOne(table[..], hash, noted, ip - 2);
    table[hash(ip - 2)] := ip - 2;
    var h := hash(ip);
    TableAt(table[..], hash, noted + [ip - 2], h);
    NoteOne(table[..], hash, noted + [ip - 2], ip);
    match0 := table[h];
    table[h] := ip;
    assert noted + [ip - 2] + [ip] == noted + [ip - 2, ip];
  }

  lemma LastFits(out: seq<byte>, src: seq<byte>, seqs: seq<Sequence>, anchor: nat, size: nat)
    requires Emitted(out, src, seqs, anchor) && Roomy(size, |src|)
    ensures |out| + 1 + |Extension(|src| - anchor)| + (|src| - anchor) <= size
  {
    EmittedBound(out, src, seqs, anchor);
  }

  lemma LastWritten(out: seq<byte>, src: seq<byte>, seqs: seq<Sequence>, anchor: nat, all: seq<byte>)
    requires Emitted(out, src, seqs, anchor) && all == out + LiteralPart(src[anchor..], 0)
    ensures BlockFor(seqs, src[anchor..], src) && all == EncodeBlock(seqs, src[anchor..])
  {
    hide EncodeAll, Expand, LengthBytes, Size;
    assert src[..anchor] + src[anchor..] == src;
  }

  /** In the limited mode the block is given up at its last literals. */
  predicate LastTight(seqs: seq<Sequence>, lastRun: nat, size: nat) {
    (forall t :: t in seqs ==> ValidSequence(t)) && |EncodeAll(seqs)| + lastRun + 1 + (lastRun + 240) / 255 > size
  }

  lemma LastIsTight(out: seq<byte>, src: seq<byte>, seqs: seq<Sequence>, anchor: nat, size: nat)
    requires Emitted(out, src, seqs, anchor) && |out| + (|src| - anchor) + 1 + (|src| - anchor + 240) / 255 > size
    ensures LastTight(seqs, |src| - anchor, size)
  {
  }

  /** The last literals, which end the block. */
  method LastLiterals(src: seq<byte>, dst: array<byte>, op0: nat, anchor: nat, limited: bool, ghost seqs: seq<Sequence>)
    returns (size: nat)
    requires op0 <= dst.Length && Emitted(dst[..op0], src, seqs, anchor)
    requires limited || Roomy(dst.Length, |src|)
    modifies dst
    ensures size == 0 ==> limited && !Roomy(dst.Length, |src|) && LastTight(seqs, |src| - anchor, dst.Length)
    ensures size > 0 ==> size <= dst.Length && BlockFor(seqs, src[anchor..], src) && dst[..size] == EncodeBlock(seqs, src[anchor..])
  {
    hide EncodeAll, Expand, LengthBytes, Size, Emitted, LastTight, BlockFor, EncodeBlock;
    SizeIs(dst[..op0], src, seqs, anchor);
    var lastRun := |src| - anchor;
    if Roomy(dst.Length, |src|) { LastFits(dst[..op0], src, seqs, anchor, dst.Length); }
    if limited && op0 + lastRun + 1 + (lastRun + 255 - RUN_MASK) / 255 > dst.Length {
      LastIsTight(dst[..op0], src, seqs, anchor, dst.Length);
      return 0;
    }
    ghost var s0 := dst[..];
    var op := WriteRunToken(dst, op0, lastRun);
    ghost var s1 := dst[..];
    CopyChunk(dst, op, src, anchor, lastRun);
    CopiedIsWrote(dst[..], s1, op, src, anchor, lastRun);
    WroteMore(s0, s1, dst[..], op0, [Token(lastRun, 0)] + Extension(lastRun), src[anchor..anchor + lastRun]);
    assert src[anchor..anchor + lastRun] == src[anchor..];
    size := op + lastRun;
    LastWritten(s0[..op0], src, seqs, anchor, dst[..size]);
  }

  /** Why there is no block: the sequences found so far, or the last literals, may not fit. */
  predicate NoRoom(j: Job, finds: seq<Find>, seqs: seq<Sequence>, misses: nat, size: nat) {
    && Picked(j, finds, seqs)
    && (Tight(seqs, size)
        || (Ended(j, finds, seqs, misses) && Size(seqs) <= |j.src| && LastTight(seqs, |j.src| - Size(seqs), size)))
  }

  lemma FirstNote(table: seq<nat>, hash: nat -> nat)
    requires forall h :: 0 <= h < |table| ==> table[h] == 0
    ensures TableIs(table, hash, [0])
  {
    var none: seq<nat> := [];
    assert [0][..0] == none;
  }

  lemma NothingPicked(j: Job, none: seq<Sequence>)
    requires none == []
    ensures Picked(j, [], none) && Noted(j.acceleration, [], none) == [0] && Size(none) == 0
  {
  }

  lemma ShortEnds(j: Job, none: seq<Sequence>)
    requires |j.src| < MFLIMIT + 1 && none == []
    ensures Ended(j, [], none, 0)
  {
    SecondProbe(j.acceleration, 0);
  }

  lemma SearchEnds(j: Job, finds: seq<Find>, seqs: seq<Sequence>, misses: nat)
    requires |finds| == |seqs|
    requires var noted, a := Noted(j.acceleration, finds, seqs), Size(seqs);
             NoFollow(j, noted, a) && Misses(j, NotedBehind(noted, a), a, misses) && !InReach(j, a, misses)
    ensures Ended(j, finds, seqs, misses)
  {
    hide NoFollow, Misses, InReach, Noted, Size;
  }

  lemma RoomEnds(j: Job, finds: seq<Find>, seqs: seq<Sequence>)
    requires |finds| == |seqs| && Size(seqs) + MFLIMIT > |j.src|
    ensures Ended(j, finds, seqs, 0)
  {
    hide NoFollow, Misses, InReach, Noted, Size;
  }

  /** The whole block. A size of 0 means that the limited output was too small. */
  method CompressValidated(src: seq<byte>, dst: array<byte>, table: array<nat>, hash: nat -> nat, byU16: bool,
                           acceleration: nat, limited: bool)
    returns (size: nat, ghost seqs: seq<Sequence>, ghost last: seq<byte>, ghost finds: seq<Find>, ghost misses: nat)
    requires |src| > 0 && acceleration >= 1 && SmallEnough(byU16, |src|)
    requires (forall p :: hash(p) < table.Length) && (forall h :: 0 <= h < table.Length ==> table[h] == 0)
    requires limited || Roomy(dst.Length, |src|)
    modifies dst, table
    ensures size == 0 ==>
              limited && !Roomy(dst.Length, |src|)
              && NoRoom(Job(src, hash, byU16, acceleration), finds, seqs, misses, dst.Length)
    ensures size > 0 ==> size <= dst.Length && BlockFor(seqs, last, src) && dst[..size] == EncodeBlock(seqs, last)
    ensures size > 0 ==>
              && Picked(Job(src, hash, byU16, acceleration), finds, seqs)
              && Ended(Job(src, hash, byU16, acceleration), finds, seqs, misses)
  {
    hide Picked, Noted, TableIs, Hit, Tight, Taken, Agree, Longest, Misses, InReach, Probe, Probes, Ended, NoFollow, Emitted, Size, Candidate,
         Extended, LastTight, BlockFor, EncodeBlock;
    ghost var j := Job(src, hash, byU16, acceleration);
    var op: nat, anchor: nat := 0, 0;
    seqs, last, finds, misses := [], [], [], 0;
    NothingEmitted(dst[..op], src);
    NothingPicked(j, seqs);
    if |src| >= MFLIMIT + 1 {
      table[hash(0)] := 0;
      FirstNote(table[..], hash);
      NoFollowAtStart(j);
      var ip := 1;
      while true
        invariant op <= dst.Length && Emitted(dst[..op], src, seqs, anchor)
        invariant anchor + 1 == ip <= |src| - MFLIMIT + 1 && Below(table[..], ip)
        invariant |finds| == |seqs| && Picked(j, finds, seqs) && Size(seqs) == anchor && NoFollow(j, Noted(acceleration, finds, seqs), anchor)
        invariant TableIs(table[..], hash, NotedBehind(Noted(acceleration, finds, seqs), anchor))
        decreases |src| - ip
      {
        var found, match0;
        ghost var noted := Noted(acceleration, finds, seqs);
        found, ip, match0, misses := FindMatch(src, table, hash, byU16, acceleration, ip, NotedBehind(noted, anchor));
        if !found {
          SearchEnds(j, finds, seqs, misses);
          break;
        }
        ghost var foundAt, c, before := ip, match0, seqs;
        ip, match0 := CatchUp(src, anchor, ip, match0);
        ghost var n, p, q := 0, match0, ip;
        var ok, done;
        ok, op, ip, seqs, n := EncodeSequenceAt(src, dst, op, anchor, ip, match0, limited, seqs, foundAt - ip + MINMATCH);
        SearchIsTaken(j, noted, anchor, misses, foundAt, c, q, p, n);
        PickedMore(j, finds, before, Search(misses), Sequence(src[anchor..q], q - p, n));
        finds := finds + [Search(misses)];
        if !ok { return 0, seqs, [], finds, misses; }
        ok, done, op, ip, finds, seqs := FollowMatches(src, dst, table, hash, byU16, op, ip, limited, j, finds, seqs);
        if !ok { return 0, seqs, [], finds, misses; }
        anchor := ip;
        SizeIs(dst[..op], src, seqs, anchor);
        SameLengths(j, finds, seqs);
        if done {
          misses := 0;
          RoomEnds(j, finds, seqs);
          break;
        }
        ip := ip + 1;
      }
    } else {
      ShortEnds(j, seqs);
    }
    SameLengths(j, finds, seqs);
    SizeIs(dst[..op], src, seqs, anchor);
    size := LastLiterals(src, dst, op, anchor, limited, seqs);
    last := src[anchor..];
  }

  lemma NothingEmitted(none: seq<byte>, src: seq<byte>)
    requires none == []
    ensures Emitted(none, src, [], 0)
  {
  }

  lemma NoFollowAtStart(j: Job)
    ensures NoFollow(j, [0], 0) && NotedBehind([0], 0) == [0]
  {
  }

  /** The entry point: empty and oversized inputs first. */
  method Compress(src: seq<byte>, dst: array<byte>, table: array<nat>, hash: nat -> nat, byU16: bool,
                  acceleration: nat, limited: bool)
    returns (size: nat, ghost seqs: seq<Sequence>, ghost last: seq<byte>, ghost finds: seq<Find>, ghost misses: nat)
    requires acceleration >= 1 && SmallEnough(byU16, |src|)
    requires (forall p :: hash(p) < table.Length) && (forall h :: 0 <= h < table.Length ==> table[h] == 0)
    requires limited || Roomy(dst.Length, |src|)
    modifies dst, table
    ensures size == 0 ==> |src| > MAX_INPUT || (limited && !Roomy(dst.Length, |src|))
    ensures size == 0 && |src| <= MAX_INPUT && src != [] ==>
              NoRoom(Job(src, hash, byU16, acceleration), finds, seqs, misses, dst.Length)
    ensures size > 0 ==> size <= dst.Length && size <= |src| + |src| / 255 + 16
    ensures size > 0 ==> BlockFor(seqs, last, src) && dst[..size] == EncodeBlock(seqs, last)
    ensures size > 0 && src != [] ==>
              && Picked(Job(src, hash, byU16, acceleration), finds, seqs)
              && Ended(Job(src, hash, byU16, acceleration), finds, seqs, misses)
    ensures size > 0 ==> Lz4Safe.DecodesTo(dst[..size], src)
    ensures OneByte(src) && MFLIMIT + 1 <= |src| <= MAX_INPUT && hash(0) == hash(1) && dst.Length >= RunBlockSize(|src|) ==>
              size == RunBlockSize(|src|) && seqs == [RunMatch(src)]
  {
    hide BlockFor, EncodeBlock, Lz4Safe.DecodesTo, Picked, Ended, NoRoom, OneByte, RunMatch;
    seqs, last, finds, misses := [], [], [], 0;
    if |src| > MAX_INPUT { return 0, [], [], [], 0; }
    if |src| == 0 {
      if limited && dst.Length == 0 { return 0, [], [], [], 0; }
      dst[0] := 0;
      EmptyBlock(dst[..1], src);
      Lz4Safe.LegalBlockDecodes([], [], src);
      BlockBound([], [], src);
      return 1, [], [], [], 0;
    }
    size, seqs, last, finds, misses := CompressValidated(src, dst, table, hash, byU16, acceleration, limited);
    ghost var j := Job(src, hash, byU16, acceleration);
    if size > 0 {
      BlockBound(seqs, last, src);
      Lz4Safe.LegalBlockDecodes(seqs, last, src);
    }
    if OneByte(src) && |src| >= MFLIMIT + 1 && hash(0) == hash(1) && dst.Length >= RunBlockSize(|src|) {
      if size > 0 {
        RunIsOneMatch(j, finds, seqs);
        RunBlock(src, seqs, last);
      } else {
        RunHasRoom(j, finds, seqs, misses, dst.Length);
      }
    }
  }

  /** The size of the block for a run of n equal bytes: about one byte in 255. */
  function RunBlockSize(n: nat): nat {
    10 + (n + 230) / 255
  }

  lemma RunBlock(src: seq<byte>, seqs: seq<Sequence>, last: seq<byte>)
    requires |src| >= MFLIMIT + 1 && seqs == [RunMatch(src)] && BlockFor(seqs, last, src)
    ensures |EncodeBlock(seqs, last)| == RunBlockSize(|src|)
  {
    hide Expand, Reachable, LengthBytes;
    RunMatchSize(src);
    assert |last| == LASTLITERALS;
    RunCode(src);
  }

  lemma RunCode(src: seq<byte>)
    requires |src| >= MFLIMIT + 1
    ensures ValidSequence(RunMatch(src)) && |EncodeAll([RunMatch(src)])| == 4 + (|src| + 230) / 255
  {
    hide LengthBytes;
    var s := RunMatch(src);
    assert [s][..0] == [] && [s][0] == s;
  }

  lemma RunHasRoom(j: Job, finds: seq<Find>, seqs: seq<Sequence>, misses: nat, size: nat)
    requires OneByte(j.src) && |j.src| >= MFLIMIT + 1 && j.hash(0) == j.hash(1)
    requires size >= RunBlockSize(|j.src|)
    ensures !NoRoom(j, finds, seqs, misses, size)
  {
    hide Picked, Ended, OneByte, LengthBytes, EncodeSequence;
    assert [RunMatch(j.src)][..0] == [];
    if NoRoom(j, finds, seqs, misses, size) {
      RunIsOneMatch(j, finds, seqs);
      RunMatchSize(j.src);
      RunCode(j.src);
    }
  }

  lemma EmptyBlock(out: seq<byte>, src: seq<byte>)
    requires out == [0] && src == []
    ensures BlockFor([], [], src) && out == EncodeBlock([], [])
  {
  }
}
