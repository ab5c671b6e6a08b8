/** The reference decoder: one byte at a time, trusting its input (cpp/external/lz4/lz4.c, lines 1848-1966). */
module Lz4Unsafe {
  import opened ByteStrings
  import opened Lz4Format

  datatype LongLength = LongLength(value: nat, next: nat) | Missing

  /** A continued length: bytes add up until one is not 255. */
  function ReadLong(b: seq<byte>, ip: nat): (r: LongLength)
    ensures r.LongLength? ==> ip < r.next <= |b|
    decreases |b| - ip
  {
    if ip >= |b| then Missing
    else if b[ip] != 255 then LongLength(b[ip], ip + 1)
    else
      match ReadLong(b, ip + 1)
      case LongLength(v, next) => LongLength(255 + v, next)
      case Missing => Missing
  }

  /** A length from the token, continued when it is 15. */
  function ReadLength(b: seq<byte>, ip: nat, nibble: nat): (r: LongLength)
    ensures r.LongLength? ==> ip <= r.next
  {
    if nibble != 15 then LongLength(nibble, ip)
    else
      match ReadLong(b, ip)
      case LongLength(v, next) => LongLength(15 + v, next)
      case Missing => Missing
  }

  function Le16(b: seq<byte>, ip: nat): nat
    requires ip + 2 <= |b|
  {
    var lo: int, hi: int := b[ip], b[ip + 1];
    lo + 256 * hi
  }

  /** The outcome: the bytes consumed and the output, the error return, or a read past the
      input, which the source leaves undefined. */
  datatype Outcome = Finished(consumed: nat, out: seq<byte>) | Corrupt | OutOfInput

  /** In-place forward copy of n bytes; an offset of 0 copies each byte onto itself. */
  function CopyWithin(dst: seq<byte>, op: nat, offset: nat, n: nat): (r: seq<byte>)
    requires offset <= op && op + n <= |dst|
    ensures |r| == |dst|
    decreases n
  {
    if n == 0 then dst else CopyWithin(dst[op := dst[op - offset]], op + 1, offset, n - 1)
  }

  /** Decode from input position ip into the buffer dst at op. */
  function Decode(b: seq<byte>, ip: nat, dst: seq<byte>, op: nat): Outcome
    requires op <= |dst|
    decreases |b| - ip, 1
  {
    if ip >= |b| then OutOfInput
    else
      match ReadLength(b, ip + 1, b[ip] / 16)
      case Missing => OutOfInput
      case LongLength(ll, p) =>
        if |dst| - op < ll then Corrupt
        else if p + ll > |b| then OutOfInput
        else
          var dst' := Write(dst, op, b[p..p + ll]);
          if |dst| - (op + ll) < MFLIMIT then
            if op + ll == |dst| then Finished(p + ll, dst') else Corrupt
          else DecodeMatch(b, p + ll, dst', op + ll, b[ip] % 16)
  }

  function DecodeMatch(b: seq<byte>, ip: nat, dst: seq<byte>, op: nat, nibble: nat): Outcome
    requires op <= |dst|
    decreases |b| - ip, 0
  {
    if ip + 2 > |b| then OutOfInput
    else
      var offset: nat := Le16(b, ip);
      match ReadLength(b, ip + 2, nibble)
      case Missing => OutOfInput
      case LongLength(m, p) =>
        var ml := m + MINMATCH;
        if |dst| - op < ml || offset > op then Corrupt
        else if |dst| - (op + ml) < LASTLITERALS then Corrupt
        else Decode(b, p, CopyWithin(dst, op, offset, ml), op + ml)
  }

  // ---------------------------------------------------------------- the decoder undoes the encoder

  lemma {:induction false} ReadLengthBytes(b: seq<byte>, ip: nat, n: nat)
    requires At(b, ip, LengthBytes(n))
    ensures ReadLong(b, ip) == LongLength(n, ip + |LengthBytes(n)|)
    decreases n
  {
    assert b[ip] == b[ip..ip + |LengthBytes(n)|][0];
    if n >= 255 {
      AtSplit(b, ip, [255], LengthBytes(n - 255));
      ReadLengthBytes(b, ip + 1, n - 255);
    }
  }

  /** A length splits into the token's nibble and its continuation. */
  lemma ReadExtension(b: seq<byte>, ip: nat, n: nat)
    requires At(b, ip, Extension(n))
    ensures ReadLength(b, ip, Min(n, 15)) == LongLength(n, ip + |Extension(n)|)
  {
    if n >= 15 { ReadLengthBytes(b, ip, n - 15); }
  }

  /** The literal part is read back as its length and its bytes. */
  lemma ReadLiteralPart(b: seq<byte>, ip: nat, lits: seq<byte>, matchCode: nat)
    requires At(b, ip, LiteralPart(lits, matchCode))
    ensures ip < |b| && b[ip] / 16 == Min(|lits|, 15) && b[ip] % 16 == Min(matchCode, 15)
    ensures var p := ip + 1 + |Extension(|lits|)|;
            ReadLength(b, ip + 1, b[ip] / 16) == LongLength(|lits|, p) && At(b, p, lits)
    ensures At(b, ip + 1, Extension(|lits|))
  {
    hide ReadLong, LengthBytes;
    var head := [Token(|lits|, matchCode)];
    AtSplit(b, ip, head + Extension(|lits|), lits);
    AtSplit(b, ip, head, Extension(|lits|));
    assert b[ip] == b[ip..ip + 1][0];
    ReadExtension(b, ip + 1, |lits|);
  }

  lemma ReadMatchPart(b: seq<byte>, ip: nat, offset: nat, matchCode: nat)
    requires offset <= DISTANCE_MAX && At(b, ip, MatchPart(offset, matchCode))
    ensures ip + 2 <= |b| && Le16(b, ip) == offset
    ensures ReadLength(b, ip + 2, Min(matchCode, 15)) == LongLength(matchCode, ip + |MatchPart(offset, matchCode)|)
    ensures At(b, ip + 2, Extension(matchCode))
  {
    hide ReadLong, LengthBytes;
    AtSplit(b, ip, [offset % 256, offset / 256], Extension(matchCode));
    assert b[ip] == b[ip..ip + 2][0] && b[ip + 1] == b[ip..ip + 2][1];
    ReadExtension(b, ip + 2, matchCode);
  }

  /** Copying within the buffer extends its finished part by the byte-at-a-time copy. */
  lemma {:induction false} CopyWithinIsCopyBack(dst: seq<byte>, op: nat, offset: nat, n: nat)
    requires 1 <= offset <= op && op + n <= |dst|
    ensures CopyWithin(dst, op, offset, n)[..op + n] == CopyBack(dst[..op], offset, n)
    decreases n
  {
    if n > 0 {
      var dst' := dst[op := dst[op - offset]];
      assert dst'[..op + 1] == dst[..op] + [dst[op - offset]];
      CopyWithinIsCopyBack(dst', op + 1, offset, n - 1);
    }
  }

  /** Where the i-th sequence starts in the block. */
  function Start(seqs: seq<Sequence>, i: nat): nat
    requires ValidPlan(seqs) && i <= |seqs|
  {
    PrefixValid(seqs, i);
    |EncodeAll(seqs[..i])|
  }

  lemma {:induction false} PrefixValid(seqs: seq<Sequence>, i: nat)
    requires ValidPlan(seqs) && i <= |seqs|
    ensures ValidPlan(seqs[..i])
    decreases |seqs| - i
  {
    if i < |seqs| {
      PrefixValid(seqs, i + 1);
      ValidPrefix(seqs[..i + 1]);
      assert seqs[..i + 1][..i] == seqs[..i];
    } else {
      assert seqs[..i] == seqs;
    }
  }

  /** One sequence further, both in the block and in the output. */
  lemma PlanStep(seqs: seq<Sequence>, i: nat)
    requires ValidPlan(seqs) && i < |seqs|
    ensures ValidPlan(seqs[..i]) && ValidPlan(seqs[..i + 1]) && ValidSequence(seqs[i])
    ensures EncodeAll(seqs[..i + 1]) == EncodeAll(seqs[..i]) + EncodeSequence(seqs[i])
    ensures Size(seqs[..i + 1]) == Size(seqs[..i]) + |seqs[i].literals| + seqs[i].length
    ensures seqs[i].offset <= Size(seqs[..i]) + |seqs[i].literals|
    ensures Expand(seqs[..i + 1]) == CopyBack(Expand(seqs[..i]) + seqs[i].literals, seqs[i].offset, seqs[i].length)
  {
    PrefixValid(seqs, i);
    PrefixValid(seqs, i + 1);
    assert seqs[..i + 1][..i] == seqs[..i];
  }

  lemma {:induction false} EncodedPrefix(seqs: seq<Sequence>, i: nat)
    requires ValidPlan(seqs) && i <= |seqs|
    ensures ValidPlan(seqs[..i]) && EncodeAll(seqs[..i]) <= EncodeAll(seqs)
    decreases |seqs| - i
  {
    if i == |seqs| {
      assert seqs[..i] == seqs;
    } else {
      EncodedPrefix(seqs, i + 1);
      PlanStep(seqs, i);
    }
  }

  lemma AtInPrefix(b: seq<byte>, x: seq<byte>, y: seq<byte>)
    requires x + y <= b
    ensures At(b, |x|, y)
  {
    assert (x + y)[|x|..] == y;
  }

  /** Every sequence is found in the block where it starts, and the last literals behind them. */
  lemma SequenceAt(seqs: seq<Sequence>, last: seq<byte>, b: seq<byte>, i: nat)
    requires ValidPlan(seqs) && i <= |seqs| && EncodeBlock(seqs, last) <= b
    ensures i < |seqs| ==> ValidSequence(seqs[i]) && At(b, Start(seqs, i), EncodeSequence(seqs[i]))
    ensures i == |seqs| ==> At(b, Start(seqs, i), LiteralPart(last, 0))
  {
    hide Expand, Size, Reachable, LengthBytes, EncodeSequence, LiteralPart;
    if i == |seqs| {
      assert seqs[..i] == seqs;
      AtInPrefix(b, EncodeAll(seqs), LiteralPart(last, 0));
    } else {
      PlanStep(seqs, i);
      EncodedPrefix(seqs, i + 1);
      assert EncodeAll(seqs) <= b;
      AtInPrefix(b, EncodeAll(seqs[..i]), EncodeSequence(seqs[i]));
    }
  }

  // ---------------------------------------------------------------- round trip

  /** The output holds the first n bytes of src. */
  predicate Holds(dst: seq<byte>, src: seq<byte>, n: nat) {
    n <= |dst| && n <= |src| && dst[..n] == src[..n]
  }

  lemma CopyBackKeeps(x: seq<byte>, y: seq<byte>, offset: nat, n: nat)
    requires 1 <= offset <= |x + y|
    ensures x <= x + y <= CopyBack(x + y, offset, n)
  {
  }

  lemma {:induction false} ExpandPrefix(seqs: seq<Sequence>, i: nat)
    requires ValidPlan(seqs) && i <= |seqs|
    ensures ValidPlan(seqs[..i]) && Expand(seqs[..i]) <= Expand(seqs)
    decreases |seqs| - i
  {
    if i == |seqs| {
      assert seqs[..i] == seqs;
    } else {
      ExpandPrefix(seqs, i + 1);
      PlanStep(seqs, i);
      CopyBackKeeps(Expand(seqs[..i]), seqs[i].literals, seqs[i].offset, seqs[i].length);
      PrefixTrans(Expand(seqs[..i]), Expand(seqs[..i + 1]), Expand(seqs));
    }
  }

  lemma PrefixTrans(a: seq<byte>, b: seq<byte>, c: seq<byte>)
    requires a <= b && b <= c
    ensures a <= c
  {
  }

  lemma ExpandBelow(seqs: seq<Sequence>, last: seq<byte>, src: seq<byte>, i: nat)
    requires BlockFor(seqs, last, src) && i <= |seqs|
    ensures ValidPlan(seqs[..i]) && Expand(seqs[..i]) <= src
  {
    ExpandPrefix(seqs, i);
    PrefixTrans(Expand(seqs[..i]), Expand(seqs), src);
  }

  /** The bytes the i-th sequence adds to the output. */
  lemma SequenceBytes(seqs: seq<Sequence>, last: seq<byte>, src: seq<byte>, i: nat)
    requires BlockFor(seqs, last, src) && i < |seqs|
    ensures ValidPlan(seqs[..i]) && ValidPlan(seqs[..i + 1]) && ValidSequence(seqs[i])
    ensures var x := Expand(seqs[..i]) + seqs[i].literals;
            x <= src && seqs[i].offset <= |x| && CopyBack(x, seqs[i].offset, seqs[i].length) <= src
  {
    hide Expand, Size, EncodeAll, CopyBack, Reachable;
    PlanStep(seqs, i);
    ExpandBelow(seqs, last, src, i + 1);
    CopyBackKeeps(Expand(seqs[..i]), seqs[i].literals, seqs[i].offset, seqs[i].length);
    PrefixTrans(Expand(seqs[..i]) + seqs[i].literals, Expand(seqs[..i + 1]), src);
  }

  lemma CopySlices(x: seq<byte>, y: seq<byte>, offset: nat, n: nat, src: seq<byte>)
    requires x + y <= src && 1 <= offset <= |x| + |y| && CopyBack(x + y, offset, n) <= src
    ensures |x| + |y| + n <= |src| && src[|x|..|x| + |y|] == y
    ensures CopyBack(src[..|x| + |y|], offset, n) == src[..|x| + |y| + n]
  {
    SlicesOf(x, y, src);
  }

  /** What the i-th sequence adds to the output, as slices of it. */
  lemma SequenceOutput(seqs: seq<Sequence>, last: seq<byte>, src: seq<byte>, i: nat)
    requires BlockFor(seqs, last, src) && i < |seqs|
    ensures ValidSequence(seqs[i])
    ensures var n := Size(seqs[..i]); var s := seqs[i]; var m := n + |s.literals|;
            && s.offset <= m && m + s.length == Size(seqs[..i + 1]) <= |src|
            && src[n..m] == s.literals && CopyBack(src[..m], s.offset, s.length) == src[..m + s.length]
  {
    hide Expand, Size, EncodeAll, CopyBack, Reachable;
    SequenceBytes(seqs, last, src, i);
    var x := Expand(seqs[..i]);
    CopySlices(x, seqs[i].literals, seqs[i].offset, seqs[i].length, src);
    PlanStep(seqs, i);
  }

  lemma SlicesOf(x: seq<byte>, y: seq<byte>, src: seq<byte>)
    requires x + y <= src
    ensures src[..|x| + |y|] == x + y && src[|x|..|x| + |y|] == y
  {
    assert (x + y)[|x|..] == y;
  }

  lemma HoldsLiterals(dst: seq<byte>, src: seq<byte>, op: nat, lits: seq<byte>)
    requires Holds(dst, src, op) && op + |lits| <= |src| && |dst| == |src| && src[op..op + |lits|] == lits
    ensures Holds(Write(dst, op, lits), src, op + |lits|)
  {
    assert src[..op + |lits|] == src[..op] + lits;
  }

  lemma HoldsCopy(dst: seq<byte>, src: seq<byte>, op: nat, offset: nat, n: nat)
    requires Holds(dst, src, op) && 1 <= offset <= op && op + n <= |src| && |dst| == |src|
    requires CopyBack(src[..op], offset, n) == src[..op + n]
    ensures Holds(CopyWithin(dst, op, offset, n), src, op + n)
  {
    CopyWithinIsCopyBack(dst, op, offset, n);
  }

  lemma DecodeLiterals(b: seq<byte>, ip: nat, lits: seq<byte>, matchCode: nat, dst: seq<byte>, op: nat)
    requires op <= |dst| && op + |lits| + MFLIMIT <= |dst| && At(b, ip, LiteralPart(lits, matchCode))
    ensures Decode(b, ip, dst, op) ==
            DecodeMatch(b, ip + |LiteralPart(lits, matchCode)|, Write(dst, op, lits), op + |lits|, Min(matchCode, 15))
  {
    hide DecodeMatch, ReadLong, LengthBytes, CopyWithin;
    ReadLiteralPart(b, ip, lits, matchCode);
  }

  lemma DecodeCopy(b: seq<byte>, ip: nat, offset: nat, n: nat, dst: seq<byte>, op: nat)
    requires n >= MINMATCH && 1 <= offset <= DISTANCE_MAX && offset <= op && op + n + LASTLITERALS <= |dst|
    requires At(b, ip, MatchPart(offset, n - MINMATCH))
    ensures DecodeMatch(b, ip, dst, op, Min(n - MINMATCH, 15)) ==
            Decode(b, ip + |MatchPart(offset, n - MINMATCH)|, CopyWithin(dst, op, offset, n), op + n)
  {
    hide Decode, ReadLong, LengthBytes, CopyWithin;
    ReadMatchPart(b, ip, offset, n - MINMATCH);
  }

  /** Decoding the code of one sequence. */
  lemma DecodeOne(b: seq<byte>, ip: nat, s: Sequence, dst: seq<byte>, op: nat)
    returns (dst': seq<byte>)
    requires ValidSequence(s) && At(b, ip, EncodeSequence(s)) && s.offset <= op + |s.literals|
    requires op + |s.literals| + MFLIMIT <= |dst| && op + |s.literals| + s.length + LASTLITERALS <= |dst|
    ensures dst' == CopyWithin(Write(dst, op, s.literals), op + |s.literals|, s.offset, s.length)
    ensures Decode(b, ip, dst, op) == Decode(b, ip + |EncodeSequence(s)|, dst', op + |s.literals| + s.length)
  {
    hide Decode, DecodeMatch, CopyWithin, Write, LengthBytes, ReadLong, Extension;
    var code := s.length - MINMATCH;
    AtSplit(b, ip, LiteralPart(s.literals, code), MatchPart(s.offset, code));
    DecodeLiterals(b, ip, s.literals, code, dst, op);
    var mid, m := Write(dst, op, s.literals), op + |s.literals|;
    DecodeCopy(b, ip + |LiteralPart(s.literals, code)|, s.offset, s.length, mid, m);
    dst' := CopyWithin(mid, m, s.offset, s.length);
  }

  /** Decoding one sequence of the block. */
  lemma DecodeSequence(seqs: seq<Sequence>, last: seq<byte>, src: seq<byte>, b: seq<byte>, i: nat, dst: seq<byte>)
    returns (dst': seq<byte>)
    requires BlockFor(seqs, last, src) && EncodeBlock(seqs, last) <= b && i < |seqs|
    requires |dst| == |src| && Holds(dst, src, Size(seqs[..i]))
    ensures |dst'| == |src| && Holds(dst', src, Size(seqs[..i + 1]))
    ensures Decode(b, Start(seqs, i), dst, Size(seqs[..i])) == Decode(b, Start(seqs, i + 1), dst', Size(seqs[..i + 1]))
  {
    hide Decode, DecodeMatch, EncodeSequence, EncodeAll, Expand, Size, Reachable, CopyBack, CopyWithin, Write, LengthBytes;
    var s, op := seqs[i], Size(seqs[..i]);
    SequenceAt(seqs, last, b, i);
    SequenceOutput(seqs, last, src, i);
    assert EndsInTime(seqs, i, |src|);
    NextStart(seqs, i);
    dst' := DecodeOne(b, Start(seqs, i), s, dst, op);
    HoldsLiterals(dst, src, op, s.literals);
    HoldsCopy(Write(dst, op, s.literals), src, op + |s.literals|, s.offset, s.length);
  }

  lemma NextStart(seqs: seq<Sequence>, i: nat)
    requires ValidPlan(seqs) && i < |seqs|
    ensures ValidSequence(seqs[i])
    ensures Start(seqs, i + 1) == Start(seqs, i) + |EncodeSequence(seqs[i])|
  {
    PlanStep(seqs, i);
  }

  lemma DecodeLast(b: seq<byte>, ip: nat, last: seq<byte>, dst: seq<byte>, op: nat, src: seq<byte>)
    requires At(b, ip, LiteralPart(last, 0)) && |dst| == |src| == op + |last| && Holds(dst, src, op)
    requires src[op..] == last
    ensures Decode(b, ip, dst, op) == Finished(ip + |LiteralPart(last, 0)|, src)
  {
    hide DecodeMatch, ReadLong, LengthBytes;
    ReadLiteralPart(b, ip, last, 0);
    HoldsLiterals(dst, src, op, last);
    assert src[..|src|] == src && Write(dst, op, last)[..|src|] == Write(dst, op, last);
  }

  lemma {:induction false} DecodeFrom(seqs: seq<Sequence>, last: seq<byte>, src: seq<byte>, b: seq<byte>, i: nat, dst: seq<byte>)
    requires BlockFor(seqs, last, src) && EncodeBlock(seqs, last) <= b && i <= |seqs|
    requires |dst| == |src| && Holds(dst, src, Size(seqs[..i]))
    ensures Decode(b, Start(seqs, i), dst, Size(seqs[..i])) == Finished(|EncodeBlock(seqs, last)|, src)
    decreases |seqs| - i
  {
    if i < |seqs| {
      var dst' := DecodeSequence(seqs, last, src, b, i, dst);
      DecodeFrom(seqs, last, src, b, i + 1, dst');
    } else {
      assert seqs[..i] == seqs;
      SequenceAt(seqs, last, b, i);
      assert src[|Expand(seqs)|..] == last;
      DecodeLast(b, Start(seqs, i), last, dst, Size(seqs), src);
    }
  }

  /** The reference decoder undoes every legal block, whatever follows it and whatever the
      output buffer held, and consumes exactly the block. */
  lemma UnsafeRoundTrip(seqs: seq<Sequence>, last: seq<byte>, src: seq<byte>, tail: seq<byte>, dst: seq<byte>)
    requires BlockFor(seqs, last, src) && |dst| == |src|
    ensures Decode(EncodeBlock(seqs, last) + tail, 0, dst, 0) == Finished(|EncodeBlock(seqs, last)|, src)
  {
    assert seqs[..0] == [];
    DecodeFrom(seqs, last, src, EncodeBlock(seqs, last) + tail, 0, dst);
  }

  // ---------------------------------------------------------------- the method

  method ReadLongLength(b: seq<byte>, ip0: nat) returns (l: nat, ip: nat)
    requires ReadLong(b, ip0).LongLength?
    ensures ReadLong(b, ip0) == LongLength(l, ip)
  {
    l, ip := 0, ip0;
    while true
      invariant ReadLong(b, ip).LongLength?
      invariant ReadLong(b, ip0) == LongLength(l + ReadLong(b, ip).value, ReadLong(b, ip).next)
      decreases |b| - ip
    {
      var v: int := b[ip];
      ip, l := ip + 1, l + v;
      if v != 255 { break; }
    }
  }

  /** The loop that copies a match; an offset of 0 leaves what the buffer held. */
  method CopyMatch(dst: array<byte>, op: nat, offset: nat, ml: nat)
    requires offset <= op && op + ml <= dst.Length
    modifies dst
    ensures dst[..] == CopyWithin(old(dst[..]), op, offset, ml)
  {
    var u := 0;
    while u < ml
      invariant u <= ml
      invariant CopyWithin(dst[..], op + u, offset, ml - u) == CopyWithin(old(dst[..]), op, offset, ml)
    {
      ghost var before := dst[..];
      dst[op + u] := dst[op + u - offset];
      assert dst[..] == before[op + u := before[op + u - offset]];
      u := u + 1;
    }
  }

  method CopyLiterals(dst: array<byte>, op: nat, b: seq<byte>, ip: nat, ll: nat)
    requires op + ll <= dst.Length && ip + ll <= |b|
    modifies dst
    ensures dst[..] == Write(old(dst[..]), op, b[ip..ip + ll])
  {
    forall k | 0 <= k < ll { dst[op + k] := b[ip + k]; }
  }

  /** One match: the method's result is what is left to decode. */
  method UnsafeMatch(b: seq<byte>, ip0: nat, dst: array<byte>, op0: nat, nibble: nat) returns (ok: bool, ip: nat, op: nat)
    requires op0 <= dst.Length && DecodeMatch(b, ip0, dst[..], op0, nibble) != OutOfInput
    modifies dst
    ensures !ok ==> DecodeMatch(b, ip0, old(dst[..]), op0, nibble) == Corrupt
    ensures ok ==> ip0 < ip && op <= dst.Length && Decode(b, ip, dst[..], op) == DecodeMatch(b, ip0, old(dst[..]), op0, nibble)
  {
    hide Decode, ReadLong, CopyWithin;
    ip, op := ip0, op0;
    var ml := nibble;
    var offset := Le16(b, ip);
    ip := ip + 2;
    if ml == 15 {
      var more;
      more, ip := ReadLongLength(b, ip);
      ml := ml + more;
    }
    ml := ml + MINMATCH;
    if dst.Length - op < ml { return false, ip, op; }
    if offset > op { return false, ip, op; }
    CopyMatch(dst, op, offset, ml);
    op := op + ml;
    ok := !(dst.Length - op < LASTLITERALS);
  }

  /** The whole loop: -1 for a corrupt block, otherwise the number of bytes consumed. */
  method DecompressUnsafe(b: seq<byte>, dst: array<byte>) returns (r: int)
    requires Decode(b, 0, dst[..], 0) != OutOfInput
    modifies dst
    ensures Decode(b, 0, old(dst[..]), 0).Corrupt? ==> r == -1
    ensures !Decode(b, 0, old(dst[..]), 0).Corrupt? ==> r >= 0 && Decode(b, 0, old(dst[..]), 0) == Finished(r, dst[..])
  {
    hide DecodeMatch, ReadLong, CopyWithin;
    var ip: nat, op: nat := 0, 0;
    while true
      invariant op <= dst.Length && Decode(b, ip, dst[..], op) == Decode(b, 0, old(dst[..]), 0)
      decreases |b| - ip
    {
      var token: int := b[ip];
      ghost var ip0 := ip;
      ip := ip + 1;
      var ll := token / 16;
      if ll == 15 {
        var more;
        more, ip := ReadLongLength(b, ip);
        ll := ll + more;
      }
      if dst.Length - op < ll { return -1; }
      CopyLiterals(dst, op, b, ip, ll);
      op, ip := op + ll, ip + ll;
      if dst.Length - op < MFLIMIT {
        if op == dst.Length { break; }
        return -1;
      }
      var ok;
      ok, ip, op := UnsafeMatch(b, ip, dst, op, token % 16);
      if !ok { return -1; }
    }
    return ip;
  }
}
