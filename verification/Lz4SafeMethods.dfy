/** The bounds-checked decoder as it runs: wild copies that write past their end, an overlapping
    match spread to a distance of at least 8 first (cpp/external/lz4/lz4.c, lines 463-475, 1976-2060, 2215-2456). */
module Lz4SafeMethods {
  import opened ByteStrings
  import opened Lz4Format
  import opened Lz4Unsafe
  import opened Lz4Safe
  import opened Lz4Compress
  import opened Powers

  // ---------------------------------------------------------------- overlapping matches

  /** From `base` on, the bytes repeat those at base .. base + period. */
  predicate Tiled(s: seq<byte>, base: nat, period: nat) {
    period >= 1 && base + period <= |s| && forall j :: base <= j < |s| ==> s[j] == s[base + (j - base) % period]
  }

  lemma ModShift(x: nat, k: nat, period: nat)
    requires period >= 1 && x >= k * period
    ensures (x - k * period) % period == x % period
  {
    var q, r := x / period, x % period;
    assert x - k * period == (q - k) * period + r;
    DivUnique(x - k * period, period, q - k, r);
  }

  lemma SmallRest(x: nat, d: nat)
    requires x < d
    ensures x % d == x
  {
  }

  /** A copy from a distance that is a multiple of the period continues the tiling. */
  lemma TiledMore(s: seq<byte>, t: seq<byte>, base: nat, period: nat, k: nat, distance: nat)
    requires Tiled(s, base, period) && distance == k * period && base + distance <= |s| <= |t| <= |s| + distance
    requires t[..|s|] == s && t[|s|..] == s[|s| - distance..|t| - distance]
    ensures Tiled(t, base, period)
  {
    forall j | base <= j < |t| ensures t[j] == t[base + (j - base) % period] {
      if j >= |s| {
        assert t[j] == t[|s|..][j - |s|] == s[j - distance];
        ModShift(j - base, k, period);
      } else {
        assert t[j] == s[j];
      }
      assert t[base + (j - base) % period] == s[base + (j - base) % period];
    }
  }

  /** Tiled bytes are what the byte-at-a-time copy produces. */
  lemma TiledIsCopy(s: seq<byte>, base: nat, period: nat, n: nat)
    requires Tiled(s, base, period) && base + period + n <= |s|
    ensures CopyBack(s[..base + period], period, n) == s[..base + period + n]
  {
    var op, t := base + period, s[..base + period + n];
    forall j | op <= j < |t| ensures t[j] == t[j - period] {
      ModShift(j - base, 1, period);
      assert (j - period - base) % period == (j - base) % period;
      assert s[j - period] == s[base + (j - period - base) % period];
    }
    PeriodicIsCopy(t, op, period);
    assert t[..op] == s[..op];
  }

  lemma {:induction false} PeriodicAt(s: seq<byte>, at: nat, offset: nat, j: nat)
    requires Periodic(s, at, offset) && at - offset <= j < |s|
    ensures s[j] == s[at - offset + (j - (at - offset)) % offset]
    decreases j
  {
    var base := at - offset;
    if j >= at {
      PeriodicAt(s, at, offset, j - offset);
      ModShift(j - base, 1, offset);
      assert (j - offset - base) % offset == (j - base) % offset;
    } else {
      SmallRest(j - base, offset);
    }
  }

  lemma PeriodicIsTiled(s: seq<byte>, at: nat, offset: nat)
    requires Periodic(s, at, offset)
    ensures Tiled(s, at - offset, offset)
  {
    forall j | at - offset <= j < |s| ensures s[j] == s[at - offset + (j - (at - offset)) % offset] {
      PeriodicAt(s, at, offset, j);
    }
  }

  // ---------------------------------------------------------------- copying a match in place

  /** Where the repetition starts and its length: an offset of 0 repeats the zero at op. */
  function Base(op: nat, offset: nat): nat
    requires offset <= op
  {
    op - offset
  }

  function Period(offset: nat): nat {
    if offset == 0 then 1 else offset
  }

  /** The match is in place up to d; nothing before op has changed. */
  ghost predicate Spread(now: seq<byte>, was: seq<byte>, op: nat, offset: nat, d: nat) {
    && |now| == |was| && offset <= op <= d <= |now| && now[..op] == was[..op]
    && Tiled(now[..d], Base(op, offset), Period(offset))
    && (offset == 0 ==> now[op] == 0)
  }

  /** A distance from which the match may be copied on. */
  predicate Steps(op: nat, offset: nat, d: nat, distance: nat) {
    offset <= op && distance % Period(offset) == 0 && Base(op, offset) + distance <= d
  }

  lemma StepsLater(op: nat, offset: nat, d: nat, e: nat, distance: nat)
    requires Steps(op, offset, d, distance) && d <= e
    ensures Steps(op, offset, e, distance)
  {
  }

  lemma SpreadMore(now: seq<byte>, before: seq<byte>, was: seq<byte>, op: nat, offset: nat, d: nat, distance: nat, n: nat)
    requires Spread(before, was, op, offset, d) && Steps(op, offset, d, distance) && n <= distance
    requires |now| == |before| && d + n <= |now| && now[..d] == before[..d]
    requires now[d..d + n] == before[d - distance..d - distance + n]
    ensures Spread(now, was, op, offset, d + n)
  {
    hide Tiled;
    var s, t := before[..d], now[..d + n];
    assert t[..|s|] == s && t[|s|..] == now[d..d + n];
    assert s[|s| - distance..|t| - distance] == before[d - distance..d - distance + n];
    var k := distance / Period(offset);
    assert distance == k * Period(offset);
    TiledMore(s, t, Base(op, offset), Period(offset), k, distance);
    assert now[..op] == now[..d][..op] == before[..d][..op] == before[..op];
    if offset == 0 { TiledNonEmpty(s, op); assert now[op] == t[op] == s[op] == before[op]; }
  }

  lemma TiledNonEmpty(s: seq<byte>, base: nat)
    requires Tiled(s, base, 1)
    ensures base < |s|
  {
  }

  lemma SpreadDone(now: seq<byte>, was: seq<byte>, op: nat, offset: nat, d: nat, n: nat)
    requires Spread(now, was, op, offset, d) && op + n <= d
    ensures now[..op + n] == CopyMatchBytes(was[..op], offset, n)
  {
    var s := now[..d];
    if offset == 0 {
      forall j | op <= j < op + n ensures now[j] == 0 {
        assert now[j] == s[j] == s[op + (j - op) % 1];
      }
    } else {
      TiledIsCopy(s, Base(op, offset), offset, n);
      assert s[..op] == now[..op] && s[..op + n] == now[..op + n];
    }
  }

  /** Copy n bytes from `distance` back; they do not overlap. */
  method MoveChunk(dst: array<byte>, d: nat, distance: nat, n: nat, ghost was: seq<byte>, ghost op: nat, ghost offset: nat)
    requires n <= distance && d + n <= dst.Length
    requires Spread(dst[..], was, op, offset, d) && Steps(op, offset, d, distance)
    modifies dst
    ensures Spread(dst[..], was, op, offset, d + n)
  {
    ghost var before := dst[..];
    forall k | 0 <= k < n { dst[d + k] := dst[d - distance + k]; }
    SpreadMore(dst[..], before, was, op, offset, d, distance, n);
  }

  /** The distances the two tables lead to: multiples of the offset, the second at least 8. */
  lemma TableDistances(offset: nat)
    requires offset < 8
    ensures var d4 := 4 + offset - INC32[offset]; var d8 := 8 + offset - INC32[offset] + DEC64[offset];
            && 4 <= d4 && d4 % Period(offset) == 0 && d4 <= 4 + offset
            && 8 <= d8 && d8 % Period(offset) == 0 && d8 <= 8 + offset
  {
  }

  const INC32: seq<int> := [0, 1, 2, 1, 0, 4, 4, 4]
  const DEC64: seq<int> := [0, 0, 0, -1, -4, 1, 2, 3]

  /** The first four bytes, one at a time, over zeros. */
  method FirstFour(dst: array<byte>, op: nat, offset: nat)
    requires offset <= op && offset < 8 && op + 4 <= dst.Length
    modifies dst
    ensures Spread(dst[..], old(dst[..]), op, offset, op + 4)
  {
    dst[op], dst[op + 1], dst[op + 2], dst[op + 3] := 0, 0, 0, 0;
    dst[op] := dst[op - offset];
    dst[op + 1] := dst[op - offset + 1];
    dst[op + 2] := dst[op - offset + 2];
    dst[op + 3] := dst[op - offset + 3];
    FirstFourSpread(dst[..], old(dst[..]), op, offset);
  }

  lemma FirstFourSpread(now: seq<byte>, was: seq<byte>, op: nat, offset: nat)
    requires |now| == |was| && offset <= op && op + 4 <= |now| && now[..op] == was[..op]
    requires forall j :: op <= j < op + 4 ==> now[j] == if offset == 0 then 0 else now[j - offset]
    ensures Spread(now, was, op, offset, op + 4)
  {
    var s := now[..op + 4];
    if offset > 0 {
      assert Periodic(s, op, offset);
      PeriodicIsTiled(s, op, offset);
    }
  }

  /** The first eight bytes of a match; the rest may be copied from `from` on. */
  method FirstEight(dst: array<byte>, op: nat, offset: nat) returns (from: nat)
    requires offset <= op && op + 8 <= dst.Length
    modifies dst
    ensures Spread(dst[..], old(dst[..]), op, offset, op + 8)
    ensures from + 8 <= op + 8 && Steps(op, offset, op + 8, op + 8 - from)
  {
    hide Spread;
    ghost var was := dst[..];
    from := op - offset;
    if offset < 8 {
      TableDistances(offset);
      FirstFour(dst, op, offset);
      from := from + INC32[offset];
      MoveChunk(dst, op + 4, op + 4 - from, 4, was, op, offset);
      from := from - DEC64[offset];
    } else {
      SpreadStart(was, op, offset);
      MoveChunk(dst, op, offset, 8, was, op, offset);
      from := from + 8;
    }
  }

  lemma SpreadStart(was: seq<byte>, op: nat, offset: nat)
    requires 1 <= offset <= op <= |was|
    ensures Spread(was, was, op, offset, op) && Steps(op, offset, op, offset)
  {
    var s := was[..op];
    assert Periodic(s, op, offset);
    PeriodicIsTiled(s, op, offset);
  }

  /** Copy 8 bytes at a time within the buffer, at least once, until `e` is passed. */
  method WildWithin(dst: array<byte>, d0: nat, from: nat, e: nat, ghost was: seq<byte>, ghost op: nat, ghost offset: nat)
    requires from + 8 <= d0 < e && op <= d0 && e + 7 <= dst.Length
    requires Spread(dst[..], was, op, offset, d0) && Steps(op, offset, d0, d0 - from)
    modifies dst
    ensures Spread(dst[..], was, op, offset, e)
  {
    hide Spread, Steps;
    var d, s := d0, from;
    while true
      invariant d - s == d0 - from && d0 <= d < e
      invariant Spread(dst[..], was, op, offset, d) && Steps(op, offset, d, d - s)
      decreases e - d
    {
      MoveChunk(dst, d, d - s, 8, was, op, offset);
      StepsLater(op, offset, d, d + 8, d - s);
      d, s := d + 8, s + 8;
      if d >= e { break; }
    }
    SpreadLess(dst[..], was, op, offset, d, e);
  }

  lemma SpreadLess(now: seq<byte>, was: seq<byte>, op: nat, offset: nat, d: nat, e: nat)
    requires Spread(now, was, op, offset, d) && op < e <= d
    ensures Spread(now, was, op, offset, e)
  {
    var s, t := now[..d], now[..e];
    assert forall j :: 0 <= j < e ==> t[j] == s[j];
    TiledLess(s, t, Base(op, offset), Period(offset));
  }

  lemma TiledLess(s: seq<byte>, t: seq<byte>, base: nat, period: nat)
    requires Tiled(s, base, period) && t <= s && base + period <= |t|
    ensures Tiled(t, base, period)
  {
  }

  /** Near the end of the output: wild copies up to 7 bytes before it, then single bytes. */
  method CopyTail(dst: array<byte>, op0: nat, from0: nat, cpy: nat, ghost was: seq<byte>, ghost start: nat, ghost offset: nat)
    requires from0 + 8 <= op0 && cpy <= dst.Length && start < op0 <= dst.Length
    requires Spread(dst[..], was, start, offset, op0) && Steps(start, offset, op0, op0 - from0)
    modifies dst
    ensures exists d :: cpy <= d && Spread(dst[..], was, start, offset, d)
  {
    hide Spread;
    var op, from := op0, from0;
    var oCopyLimit := dst.Length - (WILDCOPYLENGTH - 1);
    if op < oCopyLimit {
      WildWithin(dst, op, from, oCopyLimit, was, start, offset);
      from := from + (oCopyLimit - op);
      op := oCopyLimit;
    }
    while op < cpy
      invariant op0 <= op <= dst.Length && op - from == op0 - from0
      invariant Spread(dst[..], was, start, offset, op) && Steps(start, offset, op, op - from)
      decreases cpy - op
    {
      MoveChunk(dst, op, op - from, 1, was, start, offset);
      op, from := op + 1, from + 1;
    }
  }

  /** Away from the end: 8 more bytes, and for a long match wild copies up to its end. */
  method CopyRoomy(dst: array<byte>, op: nat, from: nat, length: nat, cpy: nat, ghost was: seq<byte>, ghost start: nat, ghost offset: nat)
    requires from + 8 <= op == start + 8 && cpy == start + length && length >= MINMATCH
    requires cpy + MATCH_SAFEGUARD_DISTANCE <= dst.Length
    requires Spread(dst[..], was, start, offset, op) && Steps(start, offset, op, op - from)
    modifies dst
    ensures exists d :: cpy <= d && Spread(dst[..], was, start, offset, d)
  {
    hide Spread;
    MoveChunk(dst, op, op - from, 8, was, start, offset);
    if length > 16 { WildWithin(dst, op + 8, from + 8, cpy, was, start, offset); }
  }

  /** Copy a match of `length` bytes, if it leaves the last five bytes of the output alone. */
  method CopyMatchSafe(dst: array<byte>, op: nat, offset: nat, length: nat) returns (ok: bool)
    requires offset <= op && op + 8 <= dst.Length && length >= MINMATCH
    modifies dst
    ensures ok == (op + length <= dst.Length - LASTLITERALS)
    ensures ok ==> dst[..op + length] == CopyMatchBytes(old(dst[..op]), offset, length)
  {
    hide Spread, CopyMatchBytes;
    ghost var was := dst[..];
    var from := FirstEight(dst, op, offset);
    var cpy := op + length;
    ghost var d: nat;
    if cpy > dst.Length - MATCH_SAFEGUARD_DISTANCE {
      if cpy > dst.Length - LASTLITERALS { return false; }
      CopyTail(dst, op + 8, from, cpy, was, op, offset);
      d :| cpy <= d && Spread(dst[..], was, op, offset, d);
    } else {
      CopyRoomy(dst, op + 8, from, length, cpy, was, op, offset);
      d :| cpy <= d && Spread(dst[..], was, op, offset, d);
    }
    SpreadDone(dst[..], was, op, offset, d, length);
    assert was[..op] == old(dst[..op]);
    ok := true;
  }

  /** Copy 18 bytes for a short match: 8, 8 and 2. */
  method CopyShort(dst: array<byte>, op: nat, offset: nat, length: nat)
    requires 8 <= offset <= op && op + 18 <= dst.Length && length <= 18
    modifies dst
    ensures dst[..op + length] == CopyBack(old(dst[..op]), offset, length)
  {
    hide Spread;
    ghost var was := dst[..];
    SpreadStart(was, op, offset);
    MoveChunk(dst, op, offset, 8, was, op, offset);
    MoveChunk(dst, op + 8, offset, 8, was, op, offset);
    MoveChunk(dst, op + 16, offset, 2, was, op, offset);
    SpreadDone(dst[..], was, op, offset, op + 18, length);
    assert was[..op] == old(dst[..op]);
  }

  // ---------------------------------------------------------------- lengths

  /** Read a continued length up to `limit`. */
  method ReadVariableLength(b: seq<byte>, ip0: nat, limit: int) returns (ok: bool, length: nat, ip: nat)
    requires ip0 < |b| && limit < |b|
    ensures ReadVar(b, ip0, limit) == if ok then Extra(length, ip) else Bad(ip)
  {
    length, ip := 0, ip0;
    while true
      invariant ip < |b|
      invariant ReadVar(b, ip0, limit) == match ReadVar(b, ip, limit)
                                          case Extra(v, next) => Extra(length + v, next)
                                          case Bad(at) => Bad(at)
      decreases |b| - ip
    {
      var s: int := b[ip];
      ip, length := ip + 1, length + s;
      if ip > limit { return false, 0, ip; }
      if s != 255 { break; }
    }
    ok := true;
  }

  // ---------------------------------------------------------------- the decoder

  /** 16 bytes for at most 14 literals, in the short form. */
  method CopyShortLiterals(dst: array<byte>, op: nat, b: seq<byte>, ip: nat, length: nat)
    requires op + 16 <= dst.Length && ip + 16 <= |b| && length <= 16
    modifies dst
    ensures dst[..op + length] == old(dst[..op]) + b[ip..ip + length]
  {
    ghost var was := dst[..];
    CopyChunk(dst, op, b, ip, 16);
    assert dst[op..op + length] == dst[op..op + 16][..length] == b[ip..ip + length];
    assert dst[..op] == was[..op];
  }

  /** The two-stage shortcut; when the second stage does not apply the match is still to be copied. */
  method ShortcutStep(b: seq<byte>, dst: array<byte>, ip0: nat, op0: nat) returns (done: bool, ip: nat, op: nat, offset: nat)
    requires ip0 < |b| && op0 <= dst.Length && Shortcut(b, ip0, op0, dst.Length)
    modifies dst
    ensures ip0 < ip < |b| && op <= dst.Length && (done || op + 18 <= dst.Length)
    ensures SafeFrom(b, ip0, old(dst[..op0]), dst.Length) ==
            if done then SafeFrom(b, ip, dst[..op], dst.Length)
            else SafeMatch(b, ip, dst[..op], dst.Length, offset, b[ip0] % 16)
  {
    hide SafeMatch, Le16, CopyBack;
    var token: int := b[ip0];
    var length := token / 16;
    ip, op := ip0 + 1, op0;
    CopyShortLiterals(dst, op, b, ip, length);
    op, ip := op + length, ip + length;
    ghost var out := dst[..op];
    length := token % 16;
    offset := Le16(b, ip);
    ip := ip + 2;
    done := false;
    if length != ML_MASK && offset >= 8 && offset <= op {
      CopyShort(dst, op, offset, length + MINMATCH);
      op := op + length + MINMATCH;
      done := true;
    }
    ShortcutIs(b, ip0, old(dst[..op0]), dst.Length, out);
  }

  lemma ShortcutIs(b: seq<byte>, ip: nat, out: seq<byte>, cap: nat, out': seq<byte>)
    requires ip < |b| && |out| <= cap && Shortcut(b, ip, |out|, cap)
    requires out' == out + b[ip + 1..ip + 1 + b[ip] / 16]
    ensures var p := ip + 1 + b[ip] / 16;
            var offset := Le16(b, p);
            SafeFrom(b, ip, out, cap) ==
            if ShortMatch(offset, |out'|, b[ip] % 16) then SafeFrom(b, p + 2, CopyBack(out', offset, b[ip] % 16 + MINMATCH), cap)
            else SafeMatch(b, p + 2, out', cap, offset, b[ip] % 16)
  {
    hide SafeMatch, Le16, CopyBack;
  }

  /** The literals outside the shortcut, and the offset behind them. */
  method LiteralStep(b: seq<byte>, dst: array<byte>, ip0: nat, op0: nat, length: nat) returns (op: nat)
    requires op0 <= dst.Length && !MustEnd(b, ip0, op0, length, dst.Length)
    modifies dst
    ensures op == op0 + length && dst[..op] == old(dst[..op0]) + b[ip0..ip0 + length]
  {
    ghost var was := dst[..];
    op := op0 + length;
    WildCopy8(dst, op0, b, ip0, op);
    assert dst[..op] == dst[..op0] + dst[op0..op];
    assert was[..op0] == old(dst[..op0]);
  }

  /** The match: its length, its checks and its bytes. */
  method MatchStep(b: seq<byte>, dst: array<byte>, ip0: nat, op0: nat, offset: nat, nibble: nat) returns (ok: bool, ip: nat, op: nat)
    requires ip0 < |b| && op0 + 12 <= dst.Length
    modifies dst
    ensures ok ==> ip0 <= ip < |b| && op <= dst.Length
    ensures SafeMatch(b, ip0, old(dst[..op0]), dst.Length, offset, nibble) ==
            if ok then SafeFrom(b, ip, dst[..op], dst.Length) else Failed(ip)
  {
    hide SafeFrom, ReadVar, CopyMatchBytes;
    ip, op := ip0, op0;
    var length := nibble;
    if length == ML_MASK {
      var addl;
      ok, addl, ip := ReadVariableLength(b, ip, |b| - LASTLITERALS + 1);
      if !ok { return; }
      length := length + addl;
    }
    length := length + MINMATCH;
    if offset > op { return false, ip, op; }
    ok := CopyMatchSafe(dst, op, offset, length);
    if ok { op := op + length; }
  }

  /** LZ4_decompress_safe: the number of bytes decoded, or minus one minus the input position of
      the error. It runs within its buffers on every input. */
  method DecompressSafe(b: seq<byte>, dst: array<byte>) returns (r: int)
    modifies dst
    ensures match SafeDecode(b, dst.Length)
            case Decoded(out) => r == |out| && dst[..r] == out
            case Failed(at) => r + at == -1
  {
    hide SafeFrom, SafeMatch;
    if dst.Length == 0 { return if |b| == 1 && b[0] == 0 then 0 else -1; }
    if |b| == 0 { return -1; }
    var ip: nat, op: nat := 0, 0;
    assert dst[..0] == [];
    while true
      invariant ip < |b| && op <= dst.Length
      invariant SafeFrom(b, ip, dst[..op], dst.Length) == SafeDecode(b, dst.Length)
      decreases |b| - ip
    {
      var ended, ok;
      ended, ok, ip, op := SequenceStep(b, dst, ip, op);
      if !ok { return -1 - ip; }
      if ended { break; }
    }
    return op;
  }

  /** One sequence: the shortcut, or the literals, the end test and the match. */
  method SequenceStep(b: seq<byte>, dst: array<byte>, ip0: nat, op0: nat) returns (ended: bool, ok: bool, ip: nat, op: nat)
    requires ip0 < |b| && op0 <= dst.Length
    modifies dst
    ensures ok && !ended ==> ip0 < ip < |b|
    ensures ok ==> op <= dst.Length
    ensures SafeFrom(b, ip0, old(dst[..op0]), dst.Length) ==
            if !ok then Failed(ip) else if ended then Decoded(dst[..op]) else SafeFrom(b, ip, dst[..op], dst.Length)
  {
    hide SafeMatch, SafeFrom, LiteralLength;
    ended := false;
    var offset: nat;
    var token: int := b[ip0];
    if Shortcut(b, ip0, op0, dst.Length) {
      var done;
      done, ip, op, offset := ShortcutStep(b, dst, ip0, op0);
      if done { return false, true, ip, op; }
    } else {
      var length;
      ok, length, ip := ReadLiteralLength(b, ip0 + 1, token / 16);
      LiteralsAre(b, ip0, dst[..op0], dst.Length);
      if !ok { return false, false, ip, op0; }
      if MustEnd(b, ip, op0, length, dst.Length) {
        if ip + length != |b| || op0 + length > dst.Length { return false, false, ip, op0; }
        CopyLiterals(dst, op0, b, ip, length);
        return true, true, ip + length, op0 + length;
      }
      op := LiteralStep(b, dst, ip, op0, length);
      offset := Le16(b, ip + length);
      ip := ip + length + 2;
    }
    ok, ip, op := MatchStep(b, dst, ip, op, offset, token % 16);
  }

  lemma LiteralsAre(b: seq<byte>, ip: nat, out: seq<byte>, cap: nat)
    requires ip < |b| && |out| <= cap && !Shortcut(b, ip, |out|, cap)
    ensures match LiteralLength(b, ip + 1, b[ip] / 16)
            case Bad(at) => SafeFrom(b, ip, out, cap) == Failed(at)
            case Extra(ll, p) =>
              SafeFrom(b, ip, out, cap) ==
              if MustEnd(b, p, |out|, ll, cap) then
                if p + ll != |b| || |out| + ll > cap then Failed(p) else Decoded(out + b[p..])
              else SafeMatch(b, p + ll + 2, out + b[p..p + ll], cap, Le16(b, p + ll), b[ip] % 16)
  {
    hide SafeMatch, LiteralLength;
  }

  method ReadLiteralLength(b: seq<byte>, ip0: nat, nibble: nat) returns (ok: bool, length: nat, ip: nat)
    requires ip0 <= |b|
    ensures LiteralLength(b, ip0, nibble) == if ok then Extra(length, ip) else Bad(ip)
  {
    hide ReadVar;
    length, ip := nibble, ip0;
    if length == RUN_MASK {
      if ip >= |b| - RUN_MASK { return false, 0, ip; }
      var addl;
      ok, addl, ip := ReadVariableLength(b, ip, |b| - RUN_MASK);
      if !ok { return false, 0, ip; }
      length := length + addl;
    }
    ok := true;
  }
}
