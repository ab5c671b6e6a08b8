/** The LZ4 block format and what a block means (cpp/external/lz4/lz4.c, lines 930-1338). */
module Lz4Format {
  import opened ByteStrings

  const MINMATCH := 4
  const MFLIMIT := 12
  const LASTLITERALS := 5
  const RUN_MASK := 15
  const ML_MASK := 15
  const DISTANCE_MAX := 65535

  /** One sequence of a block: literals, then a copy of `length` bytes from `offset` back. */
  datatype Sequence = Sequence(literals: seq<byte>, offset: nat, length: nat)

  predicate ValidSequence(s: Sequence) {
    1 <= s.offset <= DISTANCE_MAX && s.length >= MINMATCH
  }

  function Min(a: nat, b: nat): nat {
    if a < b then a else b
  }

  /** The bytes that continue a length of 15 or more. */
  function LengthBytes(n: nat): (s: seq<byte>)
    ensures |s| == n / 255 + 1
  {
    if n >= 255 then [255] + LengthBytes(n - 255) else [n]
  }

  function Extension(n: nat): (s: seq<byte>)
    ensures |s| == if n >= 15 then (n - 15) / 255 + 1 else 0
  {
    if n >= 15 then LengthBytes(n - 15) else []
  }

  function Token(literals: nat, matchCode: nat): byte {
    16 * Min(literals, RUN_MASK) + Min(matchCode, ML_MASK)
  }

  /** The token and literals, before the offset. */
  function LiteralPart(literals: seq<byte>, matchCode: nat): seq<byte> {
    [Token(|literals|, matchCode)] + Extension(|literals|) + literals
  }

  function MatchPart(offset: nat, matchCode: nat): seq<byte>
    requires offset <= DISTANCE_MAX
  {
    [offset % 256, offset / 256] + Extension(matchCode)
  }

  function EncodeSequence(s: Sequence): seq<byte>
    requires ValidSequence(s)
  {
    LiteralPart(s.literals, s.length - MINMATCH) + MatchPart(s.offset, s.length - MINMATCH)
  }

  function EncodeAll(seqs: seq<Sequence>): seq<byte>
    requires forall s :: s in seqs ==> ValidSequence(s)
  {
    if seqs == [] then []
    else EncodeAll(seqs[..|seqs| - 1]) + EncodeSequence(seqs[|seqs| - 1])
  }

  /** A block: sequences, then the last literals without a match. */
  function EncodeBlock(seqs: seq<Sequence>, last: seq<byte>): seq<byte>
    requires forall s :: s in seqs ==> ValidSequence(s)
  {
    EncodeAll(seqs) + LiteralPart(last, 0)
  }

  /** Forward copy, one byte at a time, of `n` bytes from `offset` back; the copy may overlap itself. */
  function CopyBack(out: seq<byte>, offset: nat, n: nat): (r: seq<byte>)
    requires 1 <= offset <= |out|
    ensures |r| == |out| + n && r[..|out|] == out
    decreases n
  {
    if n == 0 then out else CopyBack(out + [out[|out| - offset]], offset, n - 1)
  }

  /** Every match of the sequences reaches no further back than the output so far. */
  predicate Reachable(out: nat, seqs: seq<Sequence>) {
    seqs == [] ||
    (var init, s := seqs[..|seqs| - 1], seqs[|seqs| - 1];
     Reachable(out, init) && s.offset <= out + Size(init) + |s.literals|)
  }

  function Size(seqs: seq<Sequence>): nat {
    if seqs == [] then 0
    else Size(seqs[..|seqs| - 1]) + |seqs[|seqs| - 1].literals| + seqs[|seqs| - 1].length
  }

  predicate ValidPlan(seqs: seq<Sequence>) {
    (forall s :: s in seqs ==> ValidSequence(s)) && Reachable(0, seqs)
  }

  lemma ValidPrefix(seqs: seq<Sequence>)
    requires ValidPlan(seqs) && seqs != []
    ensures ValidPlan(seqs[..|seqs| - 1]) && ValidSequence(seqs[|seqs| - 1])
    ensures seqs[|seqs| - 1].offset <= Size(seqs[..|seqs| - 1]) + |seqs[|seqs| - 1].literals|
  {
  }

  /** The bytes the sequences stand for. */
  function Expand(seqs: seq<Sequence>): (out: seq<byte>)
    requires ValidPlan(seqs)
    ensures |out| == Size(seqs)
  {
    if seqs == [] then []
    else
      ValidPrefix(seqs);
      var s := seqs[|seqs| - 1];
      CopyBack(Expand(seqs[..|seqs| - 1]) + s.literals, s.offset, s.length)
  }

  /** The end-of-block rules for an output of n bytes: the last match starts at least 12 bytes
      and ends at least 5 bytes before the end. */
  predicate EndRules(seqs: seq<Sequence>, n: nat) {
    forall i :: 0 <= i < |seqs| ==> EndsInTime(seqs, i, n)
  }

  predicate EndsInTime(seqs: seq<Sequence>, i: nat, n: nat)
    requires i < |seqs|
  {
    Size(seqs[..i]) + |seqs[i].literals| + MFLIMIT <= n && Size(seqs[..i + 1]) + LASTLITERALS <= n
  }

  /** The sequences and last literals are a legal block for the bytes `src`. */
  predicate BlockFor(seqs: seq<Sequence>, last: seq<byte>, src: seq<byte>) {
    ValidPlan(seqs) && Expand(seqs) + last == src && EndRules(seqs, |src|)
  }

  // ---------------------------------------------------------------- copying

  /** Bytes that repeat with period `offset` from position `at` on. */
  predicate Periodic(s: seq<byte>, at: nat, offset: nat) {
    1 <= offset <= at <= |s| && forall j :: at <= j < |s| ==> s[j] == s[j - offset]
  }

  /** A periodic continuation is what the byte-at-a-time copy produces. */
  lemma {:induction false} PeriodicIsCopy(s: seq<byte>, at: nat, offset: nat)
    requires Periodic(s, at, offset)
    ensures CopyBack(s[..at], offset, |s| - at) == s
    decreases |s| - at
  {
    if at < |s| {
      assert s[..at] + [s[at - offset]] == s[..at + 1];
      PeriodicIsCopy(s, at + 1, offset);
    } else {
      assert s[..at] == s;
    }
  }

  lemma {:induction false} CopyIsPeriodic(out: seq<byte>, offset: nat, n: nat)
    requires 1 <= offset <= |out|
    ensures Periodic(CopyBack(out, offset, n), |out|, offset)
    decreases n
  {
    if n > 0 {
      CopyIsPeriodic(out + [out[|out| - offset]], offset, n - 1);
    }
  }

  // ---------------------------------------------------------------- one more sequence

  lemma PlanSnoc(seqs: seq<Sequence>, s: Sequence)
    requires ValidPlan(seqs) && ValidSequence(s) && s.offset <= Size(seqs) + |s.literals|
    ensures ValidPlan(seqs + [s])
    ensures EncodeAll(seqs + [s]) == EncodeAll(seqs) + EncodeSequence(s)
    ensures Size(seqs + [s]) == Size(seqs) + |s.literals| + s.length
    ensures Expand(seqs + [s]) == CopyBack(Expand(seqs) + s.literals, s.offset, s.length)
  {
    assert (seqs + [s])[..|seqs|] == seqs;
    assert forall t :: t in seqs + [s] ==> t in seqs || t == s;
  }

  lemma EndRulesSnoc(seqs: seq<Sequence>, s: Sequence, n: nat)
    requires EndRules(seqs, n)
    requires Size(seqs) + |s.literals| + MFLIMIT <= n && Size(seqs + [s]) + LASTLITERALS <= n
    ensures EndRules(seqs + [s], n)
  {
    var all := seqs + [s];
    forall i | 0 <= i < |all| ensures EndsInTime(all, i, n) {
      assert all[..i] == seqs[..i];
      if i < |seqs| {
        assert EndsInTime(seqs, i, n);
        assert all[..i + 1] == seqs[..i + 1];
      } else {
        assert seqs[..i] == seqs;
        assert all[..i + 1] == all;
      }
    }
  }

  // ---------------------------------------------------------------- size of a block

  lemma SequenceSize(s: Sequence)
    requires ValidSequence(s)
    ensures |EncodeSequence(s)| <= |s.literals| + s.length + |s.literals| / 255
  {
  }

  lemma {:induction false} EncodedSize(seqs: seq<Sequence>)
    requires ValidPlan(seqs)
    ensures |EncodeAll(seqs)| <= Size(seqs) + Size(seqs) / 255
  {
    if seqs != [] {
      ValidPrefix(seqs);
      EncodedSize(seqs[..|seqs| - 1]);
      SequenceSize(seqs[|seqs| - 1]);
    }
  }

  /** A block takes at most n + n/255 + 16 bytes. */
  lemma BlockBound(seqs: seq<Sequence>, last: seq<byte>, src: seq<byte>)
    requires BlockFor(seqs, last, src)
    ensures |EncodeBlock(seqs, last)| <= |src| + |src| / 255 + 16
  {
    EncodedSize(seqs);
  }

  // ---------------------------------------------------------------- two blocks in bytes

  lemma OneSequence(s: Sequence, last: seq<byte>)
    requires ValidSequence(s)
    ensures EncodeBlock([s], last) == EncodeSequence(s) + LiteralPart(last, 0)
  {
    hide EncodeSequence, LiteralPart;
    var none: seq<Sequence>, nothing: seq<byte> := [], [];
    assert [s][..0] == none && EncodeAll(none) == nothing;
    assert EncodeAll([s]) == nothing + EncodeSequence(s) == EncodeSequence(s);
  }

  lemma FiveLast(last: seq<byte>)
    requires |last| == 5
    ensures LiteralPart(last, 0) == [0x50] + last
  {
    var nothing: seq<byte> := [];
    assert [0x50] + nothing == [0x50];
  }

  /** Thirteen times the same byte: one literal, a match of seven bytes at distance 1, five literals. */
  lemma ShortBlock(a: byte, last: seq<byte>)
    requires |last| == 5
    ensures EncodeBlock([Sequence([a], 1, 7)], last) == [0x13, a] + [0x01, 0x00] + ([0x50] + last)
  {
    var s := Sequence([a], 1, 7);
    OneSequence(s, last);
    FiveLast(last);
    var nothing: seq<byte> := [];
    assert LiteralPart([a], 3) == [0x13] + nothing + [a] == [0x13, a];
    assert MatchPart(1, 3) == [0x01, 0x00] + nothing == [0x01, 0x00];
  }

  /** Lengths of 15 and more are continued behind the token, and behind the offset. */
  lemma LongBlock(literals: seq<byte>, last: seq<byte>)
    requires |literals| == 15 + 255 + 2 && |last| == 5
    ensures EncodeBlock([Sequence(literals, 0x0102, 4 + 15 + 3)], last)
            == [0xFF] + [255, 2] + literals + ([0x02, 0x01] + [3]) + ([0x50] + last)
  {
    OneSequence(Sequence(literals, 0x0102, 22), last);
    FiveLast(last);
    Continued();
    hide LengthBytes;
    assert LiteralPart(literals, 18) == [0xFF] + [255, 2] + literals;
    assert MatchPart(0x0102, 18) == [0x02, 0x01] + [3];
  }

  lemma Continued()
    ensures LengthBytes(257) == [255, 2] && LengthBytes(3) == [3]
  {
    assert LengthBytes(257) == [255] + LengthBytes(2);
  }
}
