/** The bounds-checked decoder as a function of its input (cpp/external/lz4/lz4.c, lines 1976-2060 and 2215-2444),
    and its agreement with the block format. */
module Lz4Safe {
  import opened ByteStrings
  import opened Lz4Format
  import opened Lz4Unsafe

  const WILDCOPYLENGTH := 8
  const MATCH_SAFEGUARD_DISTANCE := 2 * WILDCOPYLENGTH - MINMATCH

  /** The output, or the input position at which the block was found to be corrupt. */
  datatype Decoded = Decoded(out: seq<byte>) | Failed(at: nat)

  datatype Extra = Extra(value: nat, next: nat) | Bad(at: nat)

  /** A continued length that must end at or before `limit`. */
  function ReadVar(b: seq<byte>, ip: nat, limit: int): (r: Extra)
    requires ip < |b| && limit < |b|
    ensures if r.Extra? then ip < r.next <= limit else ip < r.at
    decreases |b| - ip
  {
    if ip + 1 > limit then Bad(ip + 1)
    else if b[ip] != 255 then Extra(b[ip], ip + 1)
    else
      match ReadVar(b, ip + 1, limit)
      case Extra(v, next) => Extra(255 + v, next)
      case Bad(at) => Bad(at)
  }

  /** A literal length; its continuation ends at least 15 bytes before the end of the input. */
  function LiteralLength(b: seq<byte>, ip: nat, nibble: nat): (r: Extra)
    requires ip <= |b|
    ensures if r.Extra? then ip <= r.next <= |b| else ip <= r.at
  {
    if nibble != RUN_MASK then Extra(nibble, ip)
    else if ip >= |b| - RUN_MASK then Bad(ip)
    else
      match ReadVar(b, ip, |b| - RUN_MASK)
      case Extra(v, next) => Extra(RUN_MASK + v, next)
      case Bad(at) => Bad(at)
  }

  /** A match length code; its continuation leaves at least 4 bytes of input. */
  function MatchLength(b: seq<byte>, ip: nat, nibble: nat): (r: Extra)
    requires ip < |b|
    ensures if r.Extra? then ip <= r.next < |b| else ip <= r.at
  {
    if nibble != ML_MASK then Extra(nibble, ip)
    else
      match ReadVar(b, ip, |b| - LASTLITERALS + 1)
      case Extra(v, next) => Extra(ML_MASK + v, next)
      case Bad(at) => Bad(at)
  }

  /** The bytes of a match; an offset of 0 stands for zeros. */
  function CopyMatchBytes(out: seq<byte>, offset: nat, n: nat): (r: seq<byte>)
    requires offset <= |out|
    ensures |r| == |out| + n && r[..|out|] == out
  {
    if offset == 0 then out + seq(n, _ => 0) else CopyBack(out, offset, n)
  }

  /** The short form of a sequence may be taken. */
  predicate Shortcut(b: seq<byte>, ip: nat, op: nat, cap: nat)
    requires ip < |b|
  {
    b[ip] / 16 != RUN_MASK && ip + 1 < |b| - 14 - 2 && op <= cap - 14 - 18
  }

  predicate ShortMatch(offset: nat, op: nat, nibble: nat) {
    nibble != ML_MASK && 8 <= offset <= op
  }

  /** The literals must be the last ones: too near the end of the output or of the input. */
  predicate MustEnd(b: seq<byte>, ip: nat, op: nat, ll: nat, cap: nat) {
    op + ll > cap - MFLIMIT || ip + ll > |b| - (2 + 1 + LASTLITERALS)
  }

  /** Decode from input position ip, with `out` already decoded, into `cap` bytes at most. */
  function SafeFrom(b: seq<byte>, ip: nat, out: seq<byte>, cap: nat): (r: Decoded)
    requires ip < |b| && |out| <= cap
    ensures r.Decoded? ==> out <= r.out && |r.out| <= cap
    ensures r.Failed? ==> ip < r.at
    decreases |b| - ip, 1
  {
    var token: int := b[ip];
    if Shortcut(b, ip, |out|, cap) then
      var p := ip + 1 + token / 16;
      var out' := out + b[ip + 1..p];
      var offset := Le16(b, p);
      if ShortMatch(offset, |out'|, token % 16) then
        SafeFrom(b, p + 2, CopyMatchBytes(out', offset, token % 16 + MINMATCH), cap)
      else SafeMatch(b, p + 2, out', cap, offset, token % 16)
    else
      match LiteralLength(b, ip + 1, token / 16)
      case Bad(at) => Failed(at)
      case Extra(ll, p) =>
        if MustEnd(b, p, |out|, ll, cap) then
          if p + ll != |b| || |out| + ll > cap then Failed(p) else Decoded(out + b[p..])
        else SafeMatch(b, p + ll + 2, out + b[p..p + ll], cap, Le16(b, p + ll), token % 16)
  }

  /** The match that follows the literals, its offset already read. */
  function SafeMatch(b: seq<byte>, ip: nat, out: seq<byte>, cap: nat, offset: nat, nibble: nat): (r: Decoded)
    requires ip < |b| && |out| <= cap
    ensures r.Decoded? ==> out <= r.out && |r.out| <= cap
    ensures r.Failed? ==> ip <= r.at
    decreases |b| - ip, 2
  {
    match MatchLength(b, ip, nibble)
    case Bad(at) => Failed(at)
    case Extra(m, p) =>
      if offset > |out| || |out| + m + MINMATCH > cap - LASTLITERALS then Failed(p)
      else SafeFrom(b, p, CopyMatchBytes(out, offset, m + MINMATCH), cap)
  }

  /** The whole decoder, with its special cases for an empty output buffer and an empty input. */
  function SafeDecode(b: seq<byte>, cap: nat): Decoded {
    if cap == 0 then if b == [0] then Decoded([]) else Failed(0)
    else if b == [] then Failed(0)
    else SafeFrom(b, 0, [], cap)
  }

  // ---------------------------------------------------------------- agreement with the block format

  /** Inside its limit the checked length is the plain one. */
  lemma {:induction false} ReadVarIsReadLong(b: seq<byte>, ip: nat, limit: int)
    requires ip < |b| && limit < |b| && ReadLong(b, ip).LongLength? && ReadLong(b, ip).next <= limit
    ensures ReadVar(b, ip, limit) == Extra(ReadLong(b, ip).value, ReadLong(b, ip).next)
    decreases |b| - ip
  {
    if b[ip] == 255 { ReadVarIsReadLong(b, ip + 1, limit); }
  }

  lemma SafeLiteralLength(b: seq<byte>, ip: nat, n: nat, next: nat)
    requires ip <= |b| && ReadLength(b, ip, Min(n, 15)) == LongLength(n, next) && next + n <= |b|
    ensures LiteralLength(b, ip, Min(n, 15)) == Extra(n, next)
  {
    hide ReadVar;
    if n >= 15 { ReadVarIsReadLong(b, ip, |b| - RUN_MASK); }
  }

  lemma SafeMatchLength(b: seq<byte>, ip: nat, n: nat, next: nat)
    requires ip < |b| && ReadLength(b, ip, Min(n, 15)) == LongLength(n, next) && next + 6 <= |b|
    ensures MatchLength(b, ip, Min(n, 15)) == Extra(n, next)
  {
    hide ReadVar;
    if n >= 15 { ReadVarIsReadLong(b, ip, |b| - LASTLITERALS + 1); }
  }

  /** The input left behind a sequence, and the room its output leaves. */
  predicate Interior(b: seq<byte>, ip: nat, s: Sequence, op: nat, cap: nat)
    requires ValidSequence(s)
  {
    && At(b, ip, EncodeSequence(s)) && s.offset <= op + |s.literals|
    && ip + |EncodeSequence(s)| + 6 <= |b|
    && op + |s.literals| + MFLIMIT <= cap && op + |s.literals| + s.length + LASTLITERALS <= cap
  }

  /** What the decoder reads in a sequence: its two lengths, its literals and its offset. */
  predicate Parsed(b: seq<byte>, ip: nat, s: Sequence, p: nat, next: nat)
    requires ValidSequence(s)
  {
    && ip < p && p + |s.literals| + 2 <= next < |b|
    && b[ip] / 16 == Min(|s.literals|, 15) && b[ip] % 16 == Min(s.length - MINMATCH, 15)
    && ReadLength(b, ip + 1, b[ip] / 16) == LongLength(|s.literals|, p)
    && b[p..p + |s.literals|] == s.literals && Le16(b, p + |s.literals|) == s.offset
    && ReadLength(b, p + |s.literals| + 2, b[ip] % 16) == LongLength(s.length - MINMATCH, next)
  }

  lemma ParseSequence(b: seq<byte>, ip: nat, s: Sequence, op: nat, cap: nat) returns (p: nat)
    requires ValidSequence(s) && Interior(b, ip, s, op, cap)
    ensures Parsed(b, ip, s, p, ip + |EncodeSequence(s)|)
  {
    hide ReadLength, ReadLong, LengthBytes, Extension, Le16, Token;
    var code := s.length - MINMATCH;
    AtSplit(b, ip, LiteralPart(s.literals, code), MatchPart(s.offset, code));
    ReadLiteralPart(b, ip, s.literals, code);
    p := ip + 1 + |Extension(|s.literals|)|;
    ReadMatchPart(b, p + |s.literals|, s.offset, code);
  }

  /** Both forms of a sequence decode to its bytes. */
  lemma SafeSequence(b: seq<byte>, ip: nat, s: Sequence, out: seq<byte>, cap: nat)
    requires ValidSequence(s) && Interior(b, ip, s, |out|, cap)
    ensures SafeFrom(b, ip, out, cap) ==
            SafeFrom(b, ip + |EncodeSequence(s)|, CopyBack(out + s.literals, s.offset, s.length), cap)
  {
    hide SafeFrom, SafeMatch, EncodeSequence, At, ReadLength, CopyBack;
    var p := ParseSequence(b, ip, s, |out|, cap);
    var next := ip + |EncodeSequence(s)|;
    SafeLiteralsStep(b, ip, s, p, next, out, cap);
    SafeMatchStep(b, s, p + |s.literals| + 2, next, out + s.literals, cap);
  }

  /** After the literals the decoder is at the match, by whichever form it got there. */
  lemma SafeLiteralsStep(b: seq<byte>, ip: nat, s: Sequence, p: nat, next: nat, out: seq<byte>, cap: nat)
    requires ValidSequence(s) && Parsed(b, ip, s, p, next) && next + 6 <= |b|
    requires s.offset <= |out| + |s.literals| && |out| + |s.literals| + MFLIMIT <= cap
    requires |out| + |s.literals| + s.length + LASTLITERALS <= cap
    ensures SafeFrom(b, ip, out, cap) ==
            SafeMatch(b, p + |s.literals| + 2, out + s.literals, cap, s.offset, Min(s.length - MINMATCH, 15))
  {
    hide CopyBack, ReadLong, Le16, MatchLength, SafeMatch;
    if Shortcut(b, ip, |out|, cap) {
      if ShortMatch(s.offset, |out + s.literals|, b[ip] % 16) {
        SafeMatchStep(b, s, p + |s.literals| + 2, next, out + s.literals, cap);
      }
    } else {
      SafeLiteralLength(b, ip + 1, |s.literals|, p);
    }
  }

  lemma SafeMatchStep(b: seq<byte>, s: Sequence, ip: nat, next: nat, out: seq<byte>, cap: nat)
    requires ValidSequence(s) && ip < |b| && next + 6 <= |b|
    requires ReadLength(b, ip, Min(s.length - MINMATCH, 15)) == LongLength(s.length - MINMATCH, next)
    requires s.offset <= |out| && |out| + s.length + LASTLITERALS <= cap
    ensures SafeMatch(b, ip, out, cap, s.offset, Min(s.length - MINMATCH, 15)) ==
            SafeFrom(b, next, CopyBack(out, s.offset, s.length), cap)
  {
    hide SafeFrom, ReadLength, MatchLength, CopyBack;
    SafeMatchLength(b, ip, s.length - MINMATCH, next);
  }

  /** The last literals end the output. */
  lemma SafeLast(b: seq<byte>, ip: nat, last: seq<byte>, out: seq<byte>, cap: nat)
    requires At(b, ip, LiteralPart(last, 0)) && ip + |LiteralPart(last, 0)| == |b| && |out| + |last| <= cap
    ensures SafeFrom(b, ip, out, cap) == Decoded(out + last)
  {
    hide ReadLength, ReadLong, ReadVar, SafeMatch, LengthBytes;
    ReadLiteralPart(b, ip, last, 0);
    var p := ip + 1 + |Extension(|last|)|;
    SafeLiteralLength(b, ip + 1, |last|, p);
    assert b[p..] == b[p..p + |last|];
  }

  /** Room for the i-th sequence in the block and in the output. */
  lemma SequenceInterior(seqs: seq<Sequence>, last: seq<byte>, src: seq<byte>, i: nat, cap: nat)
    requires BlockFor(seqs, last, src) && i < |seqs| && |src| <= cap
    ensures ValidSequence(seqs[i]) && Interior(EncodeBlock(seqs, last), Start(seqs, i), seqs[i], Size(seqs[..i]), cap)
  {
    hide Expand, EncodeSequence, EncodeAll, Reachable, LengthBytes, At, Size;
    var b := EncodeBlock(seqs, last);
    SequenceAt(seqs, last, b, i);
    SequenceOutput(seqs, last, src, i);
    assert EndsInTime(seqs, i, |src|);
    EncodedPrefix(seqs, i + 1);
    NextStart(seqs, i);
    LastIsLong(seqs, last, src, i);
  }

  lemma LastIsLong(seqs: seq<Sequence>, last: seq<byte>, src: seq<byte>, i: nat)
    requires BlockFor(seqs, last, src) && i < |seqs|
    ensures |LiteralPart(last, 0)| >= 6
  {
    assert EndsInTime(seqs, |seqs| - 1, |src|);
    assert seqs[..|seqs|] == seqs;
  }

  lemma {:induction false} SafeBlockFrom(seqs: seq<Sequence>, last: seq<byte>, src: seq<byte>, i: nat, cap: nat)
    requires BlockFor(seqs, last, src) && i <= |seqs| && |src| <= cap && ValidPlan(seqs[..i])
    requires Size(seqs[..i]) <= cap && Start(seqs, i) < |EncodeBlock(seqs, last)|
    ensures SafeFrom(EncodeBlock(seqs, last), Start(seqs, i), Expand(seqs[..i]), cap) == Decoded(src)
    decreases |seqs| - i
  {
    hide SafeFrom, SafeMatch, EncodeSequence, EncodeAll, Expand, Size, Reachable, CopyBack, LengthBytes, At, LiteralPart;
    var b := EncodeBlock(seqs, last);
    if i < |seqs| {
      SequenceInterior(seqs, last, src, i, cap);
      PlanStep(seqs, i);
      SafeSequence(b, Start(seqs, i), seqs[i], Expand(seqs[..i]), cap);
      NextStart(seqs, i);
      SafeBlockFrom(seqs, last, src, i + 1, cap);
    } else {
      assert seqs[..i] == seqs;
      SequenceAt(seqs, last, b, i);
      SafeLast(b, Start(seqs, i), last, Expand(seqs), cap);
    }
  }

  /** The bounds-checked decoder undoes every legal block, in any buffer that can hold it. */
  lemma SafeRoundTrip(seqs: seq<Sequence>, last: seq<byte>, src: seq<byte>, cap: nat)
    requires BlockFor(seqs, last, src) && |src| <= cap
    ensures SafeDecode(EncodeBlock(seqs, last), cap) == Decoded(src)
  {
    hide SafeFrom, EncodeSequence;
    assert seqs[..0] == [];
    if cap == 0 {
      EmptyOutput(seqs, last, src);
    } else {
      SafeBlockFrom(seqs, last, src, 0, cap);
    }
  }

  lemma EmptyOutput(seqs: seq<Sequence>, last: seq<byte>, src: seq<byte>)
    requires BlockFor(seqs, last, src) && src == []
    ensures EncodeBlock(seqs, last) == [0]
  {
    assert |seqs| > 0 ==> EndsInTime(seqs, 0, |src|);
  }

  /** Both decoders turn the block into src: the reference decoder whatever follows the block and
      whatever its buffer held, the checked one in any buffer that is large enough. */
  ghost predicate DecodesTo(block: seq<byte>, src: seq<byte>) {
    && (forall cap: nat :: |src| <= cap ==> SafeDecode(block, cap) == Decoded(src))
    && (forall tail: seq<byte>, dst: seq<byte> :: |dst| == |src| ==> Decode(block + tail, 0, dst, 0) == Finished(|block|, src))
  }

  lemma LegalBlockDecodes(seqs: seq<Sequence>, last: seq<byte>, src: seq<byte>)
    requires BlockFor(seqs, last, src)
    ensures DecodesTo(EncodeBlock(seqs, last), src)
  {
    hide SafeDecode, Decode, EncodeBlock;
    forall cap: nat | |src| <= cap ensures SafeDecode(EncodeBlock(seqs, last), cap) == Decoded(src) {
      SafeRoundTrip(seqs, last, src, cap);
    }
    forall tail: seq<byte>, dst: seq<byte> | |dst| == |src|
      ensures Decode(EncodeBlock(seqs, last) + tail, 0, dst, 0) == Finished(|EncodeBlock(seqs, last)|, src)
    {
      UnsafeRoundTrip(seqs, last, src, tail, dst);
    }
  }
}
