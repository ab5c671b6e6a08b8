/** Exactly the blocks that the bounds-checked decoder accepts (cpp/external/lz4/lz4.c, lines 1976-2060
    and 2215-2444). */
module Lz4Accepts {
  import opened ByteStrings
  import opened Lz4Format
  import opened Lz4Safe
  import opened Lz4Unsafe

  // ---------------------------------------------------------------- what is accepted

  /** The bytes of a sequence; an offset of 0 can be written down too. */
  function SequenceBytes(s: Sequence): seq<byte>
    requires s.offset <= DISTANCE_MAX && s.length >= MINMATCH
  {
    LiteralPart(s.literals, s.length - MINMATCH) + MatchPart(s.offset, s.length - MINMATCH)
  }

  predicate SequenceIsAt(b: seq<byte>, ip: nat, s: Sequence) {
    s.offset <= DISTANCE_MAX && s.length >= MINMATCH && At(b, ip, SequenceBytes(s))
  }

  /** There is room for the sequence whose bytes are at ip, with op bytes decoded before. Far from both
      ends a short sequence is taken without a look at the room for its match, unless its offset is
      below 8. Otherwise the match starts 12 bytes and ends 5 bytes before the end of the output, and
      behind the literals 8 bytes of input are left. A long match length leaves 4 bytes of input. */
  predicate HasRoom(b: seq<byte>, ip: nat, s: Sequence, op: nat, cap: nat)
    requires SequenceIsAt(b, ip, s)
  {
    var end, next := op + |s.literals|, ip + |SequenceBytes(s)|;
    && s.offset <= end && (s.length >= 19 ==> next + 4 <= |b|)
    && if |s.literals| <= 14 && ip + 17 < |b| && op + 32 <= cap
       then (s.length < 19 && s.offset >= 8) || end + s.length + 5 <= cap
       else end + 12 <= cap && end + s.length + 5 <= cap && next - |MatchPart(s.offset, s.length - MINMATCH)| + 8 <= |b|
  }

  /** The rest of the block is one run of literals, whatever the lower half of its token is. */
  ghost predicate Ends(b: seq<byte>, ip: nat, out: seq<byte>, cap: nat, r: seq<byte>) {
    exists last: seq<byte>, code: nat ::
      ip <= |b| && b[ip..] == LiteralPart(last, code) && r == out + last && |r| <= cap
  }

  /** From ip on the block is made of sequences with room and of last literals, and stands for r. */
  ghost predicate Accepts(b: seq<byte>, ip: nat, out: seq<byte>, cap: nat, r: seq<byte>)
    decreases |b| - ip
  {
    || Ends(b, ip, out, cap, r)
    || exists s: Sequence ::
         && SequenceIsAt(b, ip, s) && HasRoom(b, ip, s, |out|, cap) && ip + |SequenceBytes(s)| <= |b|
         && Accepts(b, ip + |SequenceBytes(s)|, CopyMatchBytes(out + s.literals, s.offset, s.length), cap, r)
  }

  // ---------------------------------------------------------------- what was read is what stands there

  lemma {:induction false} ReadVarStands(b: seq<byte>, ip: nat, limit: int)
    requires ip < |b| && limit < |b| && ReadVar(b, ip, limit).Extra?
    ensures var r := ReadVar(b, ip, limit); At(b, ip, LengthBytes(r.value)) && r.next == ip + |LengthBytes(r.value)|
    decreases |b| - ip
  {
    if b[ip] == 255 {
      ReadVarStands(b, ip + 1, limit);
      var rest := ReadVar(b, ip + 1, limit);
      assert At(b, ip, [255]);
      AtJoin(b, ip, [255], LengthBytes(rest.value));
    } else {
      assert b[ip..ip + 1] == [b[ip]];
    }
  }

  lemma LiteralLengthStands(b: seq<byte>, ip: nat, nibble: nat)
    requires ip <= |b| && nibble <= 15 && LiteralLength(b, ip, nibble).Extra?
    ensures var r := LiteralLength(b, ip, nibble);
            At(b, ip, Extension(r.value)) && r.next == ip + |Extension(r.value)| && nibble == Min(r.value, 15)
  {
    hide ReadVar, LengthBytes;
    if nibble == 15 { ReadVarStands(b, ip, |b| - RUN_MASK); } else { assert b[ip..ip] == []; }
  }

  lemma MatchLengthStands(b: seq<byte>, ip: nat, nibble: nat)
    requires ip < |b| && nibble <= 15 && MatchLength(b, ip, nibble).Extra?
    ensures var r := MatchLength(b, ip, nibble);
            && At(b, ip, Extension(r.value)) && r.next == ip + |Extension(r.value)| && nibble == Min(r.value, 15)
            && (r.value >= 15 ==> r.next + 4 <= |b|)
  {
    hide ReadVar, LengthBytes;
    if nibble == 15 { ReadVarStands(b, ip, |b| - LASTLITERALS + 1); } else { assert b[ip..ip] == []; }
  }

  lemma LiteralsStand(b: seq<byte>, ip: nat, ll: nat, p: nat, code: nat)
    requires ip < |b| && b[ip] == Token(ll, code) && At(b, ip + 1, Extension(ll)) && p == ip + 1 + |Extension(ll)| && p + ll <= |b|
    ensures At(b, ip, LiteralPart(b[p..p + ll], code)) && ip + |LiteralPart(b[p..p + ll], code)| == p + ll
  {
    hide Extension, Token;
    var head := [Token(ll, code)];
    assert b[ip..ip + 1] == head;
    AtJoin(b, ip, head, Extension(ll));
    AtJoin(b, ip, head + Extension(ll), b[p..p + ll]);
  }

  lemma TokenIs(x: byte, ll: nat, code: nat)
    requires x / 16 == Min(ll, 15) && x % 16 == Min(code, 15)
    ensures x == Token(ll, code)
  {
  }

  lemma SequenceStands(b: seq<byte>, ip: nat, s: Sequence)
    requires s.length >= MINMATCH && At(b, ip, LiteralPart(s.literals, s.length - MINMATCH))
    requires var q := ip + |LiteralPart(s.literals, s.length - MINMATCH)|;
             q + 2 <= |b| && Le16(b, q) == s.offset && At(b, q + 2, Extension(s.length - MINMATCH))
    ensures SequenceIsAt(b, ip, s)
  {
    hide Extension, LiteralPart;
    var code := s.length - MINMATCH;
    var q := ip + |LiteralPart(s.literals, code)|;
    assert b[q..q + 2] == [b[q], b[q + 1]] == [s.offset % 256, s.offset / 256];
    AtJoin(b, q, [s.offset % 256, s.offset / 256], Extension(code));
    AtJoin(b, ip, LiteralPart(s.literals, code), MatchPart(s.offset, code));
  }

  // ---------------------------------------------------------------- all that the decoder accepts

  lemma EndsHere(b: seq<byte>, ip: nat, ll: nat, p: nat, code: nat, out: seq<byte>, cap: nat)
    requires ip < |b| && p + ll == |b| && At(b, ip, LiteralPart(b[p..p + ll], code)) && ip + |LiteralPart(b[p..p + ll], code)| == |b|
    requires |out| + ll <= cap
    ensures Ends(b, ip, out, cap, out + b[p..])
  {
    hide LiteralPart;
    assert b[p..p + ll] == b[p..];
    assert b[ip..] == LiteralPart(b[p..], code);
  }

  /** The literals at ip are followed by the match of s, which ends at next. */
  predicate MatchFollows(b: seq<byte>, ip: nat, p: nat, s: Sequence, next: nat)
    requires ip < |b|
  {
    && s.length >= MINMATCH && p == ip + 1 + |Extension(|s.literals|)| && p + |s.literals| + 2 <= next < |b|
    && At(b, ip + 1, Extension(|s.literals|)) && s.literals == b[p..p + |s.literals|]
    && b[ip] / 16 == Min(|s.literals|, 15) && b[ip] % 16 == Min(s.length - MINMATCH, 15)
    && Le16(b, p + |s.literals|) == s.offset
    && At(b, p + |s.literals| + 2, Extension(s.length - MINMATCH))
    && next == p + |s.literals| + 2 + |Extension(s.length - MINMATCH)|
  }

  predicate RoomFor(b: seq<byte>, ip: nat, p: nat, s: Sequence, next: nat, op: nat, cap: nat) {
    var end := op + |s.literals|;
    && s.offset <= end && (s.length >= 19 ==> next + 4 <= |b|)
    && if |s.literals| <= 14 && ip + 17 < |b| && op + 32 <= cap
       then (s.length < 19 && s.offset >= 8) || end + s.length + 5 <= cap
       else end + 12 <= cap && end + s.length + 5 <= cap && p + |s.literals| + 8 <= |b|
  }

  lemma FollowsIsSequence(b: seq<byte>, ip: nat, p: nat, s: Sequence, next: nat, op: nat, cap: nat)
    requires ip < |b| && MatchFollows(b, ip, p, s, next)
    ensures SequenceIsAt(b, ip, s) && ip + |SequenceBytes(s)| == next
    ensures HasRoom(b, ip, s, op, cap) <==> RoomFor(b, ip, p, s, next, op, cap)
  {
    hide Extension, LiteralPart, Token, Le16;
    var code := s.length - MINMATCH;
    TokenIs(b[ip], |s.literals|, code);
    LiteralsStand(b, ip, |s.literals|, p, code);
    SequenceStands(b, ip, s);
  }

  lemma ShortExtension(b: seq<byte>, ip: nat, n: nat)
    requires n < 15 && ip <= |b|
    ensures Extension(n) == [] && At(b, ip, Extension(n))
  {
    assert b[ip..ip] == [];
  }

  /** The match behind the literals, as it is read. */
  lemma ReadMatch(b: seq<byte>, ip: nat, p: nat, ll: nat, out: seq<byte>, cap: nat, r: seq<byte>) returns (s: Sequence, next: nat)
    requires ip < |b| && p == ip + 1 + |Extension(ll)| && p + ll + 2 < |b| && At(b, ip + 1, Extension(ll)) && b[ip] / 16 == Min(ll, 15)
    requires |out| + ll <= cap
    requires SafeMatch(b, p + ll + 2, out + b[p..p + ll], cap, Le16(b, p + ll), b[ip] % 16) == Decoded(r)
    ensures MatchFollows(b, ip, p, s, next) && |s.literals| == ll && s.offset <= |out| + ll
    ensures (s.length >= 19 ==> next + 4 <= |b|) && |out| + ll + s.length + 5 <= cap
    ensures SafeFrom(b, next, CopyMatchBytes(out + s.literals, s.offset, s.length), cap) == Decoded(r)
  {
    hide SafeFrom, MatchLength, Extension, Le16, CopyMatchBytes;
    MatchLengthStands(b, p + ll + 2, (b[ip] % 16) as int);
    var m := MatchLength(b, p + ll + 2, (b[ip] % 16) as int);
    s, next := Sequence(b[p..p + ll], Le16(b, p + ll), m.value + MINMATCH), m.next;
  }

  /** Far from both ends. */
  lemma ShortForm(b: seq<byte>, ip: nat, out: seq<byte>, cap: nat, r: seq<byte>) returns (p: nat, s: Sequence, next: nat)
    requires ip < |b| && |out| <= cap && SafeFrom(b, ip, out, cap) == Decoded(r) && Shortcut(b, ip, |out|, cap)
    ensures MatchFollows(b, ip, p, s, next) && RoomFor(b, ip, p, s, next, |out|, cap) && |out| + |s.literals| + s.length <= cap
    ensures SafeFrom(b, next, CopyMatchBytes(out + s.literals, s.offset, s.length), cap) == Decoded(r)
  {
    hide SafeMatch, CopyMatchBytes, Le16, Extension;
    var ll: nat := (b[ip] / 16) as int;
    p := ip + 1;
    ShortExtension(b, ip + 1, ll);
    var offset, nibble: nat := Le16(b, p + ll), (b[ip] % 16) as int;
    if ShortMatch(offset, |out| + ll, nibble) {
      ShortExtension(b, p + ll + 2, nibble);
      s, next := Sequence(b[p..p + ll], offset, nibble + MINMATCH), p + ll + 2;
    } else {
      s, next := ReadMatch(b, ip, p, ll, out, cap, r);
    }
  }

  /** Everywhere else, when more than literals are left. */
  lemma LongForm(b: seq<byte>, ip: nat, out: seq<byte>, cap: nat, r: seq<byte>) returns (p: nat, s: Sequence, next: nat)
    requires ip < |b| && |out| <= cap && SafeFrom(b, ip, out, cap) == Decoded(r) && !Shortcut(b, ip, |out|, cap)
    requires var x := LiteralLength(b, ip + 1, b[ip] / 16); x.Extra? ==> !MustEnd(b, x.next, |out|, x.value, cap)
    ensures MatchFollows(b, ip, p, s, next) && RoomFor(b, ip, p, s, next, |out|, cap) && |out| + |s.literals| + s.length <= cap
    ensures SafeFrom(b, next, CopyMatchBytes(out + s.literals, s.offset, s.length), cap) == Decoded(r)
  {
    hide SafeMatch, CopyMatchBytes, Le16, Extension, LiteralLength;
    LiteralLengthStands(b, ip + 1, (b[ip] / 16) as int);
    var x := LiteralLength(b, ip + 1, (b[ip] / 16) as int);
    p := x.next;
    s, next := ReadMatch(b, ip, p, x.value, out, cap, r);
  }

  /** Whatever the decoder makes of the block is described above. */
  lemma {:induction false} OnlyAccepted(b: seq<byte>, ip: nat, out: seq<byte>, cap: nat, r: seq<byte>)
    requires ip < |b| && |out| <= cap && SafeFrom(b, ip, out, cap) == Decoded(r)
    ensures Accepts(b, ip, out, cap, r)
    decreases |b| - ip
  {
    hide SafeFrom, CopyMatchBytes, LiteralLength, Accepts, Ends, MustEnd, Shortcut, MatchFollows, RoomFor;
    var x := LiteralLength(b, ip + 1, (b[ip] / 16) as int);
    if !Shortcut(b, ip, |out|, cap) && (x.Extra? ==> MustEnd(b, x.next, |out|, x.value, cap)) {
      LastForm(b, ip, out, cap, r);
      EndIsAccepted(b, ip, out, cap, r);
    } else {
      var p, s, next := AnyForm(b, ip, out, cap, r);
      Follows(b, ip, p, s, next, |out|, cap);
      OnlyAccepted(b, next, CopyMatchBytes(out + s.literals, s.offset, s.length), cap, r);
      OneMore(b, ip, p, s, next, out, cap, r);
    }
  }

  lemma AnyForm(b: seq<byte>, ip: nat, out: seq<byte>, cap: nat, r: seq<byte>) returns (p: nat, s: Sequence, next: nat)
    requires ip < |b| && |out| <= cap && SafeFrom(b, ip, out, cap) == Decoded(r)
    requires var x := LiteralLength(b, ip + 1, b[ip] / 16);
             Shortcut(b, ip, |out|, cap) || (x.Extra? && !MustEnd(b, x.next, |out|, x.value, cap))
    ensures MatchFollows(b, ip, p, s, next) && RoomFor(b, ip, p, s, next, |out|, cap) && |out| + |s.literals| + s.length <= cap
    ensures s.offset <= |out| + |s.literals|
    ensures SafeFrom(b, next, CopyMatchBytes(out + s.literals, s.offset, s.length), cap) == Decoded(r)
  {
    hide SafeFrom, CopyMatchBytes, LiteralLength, MustEnd, Shortcut, MatchFollows;
    if Shortcut(b, ip, |out|, cap) {
      p, s, next := ShortForm(b, ip, out, cap, r);
    } else {
      p, s, next := LongForm(b, ip, out, cap, r);
    }
  }

  lemma EndIsAccepted(b: seq<byte>, ip: nat, out: seq<byte>, cap: nat, r: seq<byte>)
    requires Ends(b, ip, out, cap, r)
    ensures Accepts(b, ip, out, cap, r)
  {
    hide Ends;
  }

  lemma OneMore(b: seq<byte>, ip: nat, p: nat, s: Sequence, next: nat, out: seq<byte>, cap: nat, r: seq<byte>)
    requires ip < |b| && MatchFollows(b, ip, p, s, next) && RoomFor(b, ip, p, s, next, |out|, cap)
    requires s.offset <= |out| + |s.literals| && Accepts(b, next, CopyMatchBytes(out + s.literals, s.offset, s.length), cap, r)
    ensures Accepts(b, ip, out, cap, r)
  {
    Follows(b, ip, p, s, next, |out|, cap);
    FollowsIsSequence(b, ip, p, s, next, |out|, cap);
    hide MatchFollows, RoomFor, HasRoom, At, SequenceBytes, Ends, CopyMatchBytes;
    assert SequenceIsAt(b, ip, s) && HasRoom(b, ip, s, |out|, cap) && ip + |SequenceBytes(s)| <= |b|;
  }

  lemma Follows(b: seq<byte>, ip: nat, p: nat, s: Sequence, next: nat, op: nat, cap: nat)
    requires ip < |b| && MatchFollows(b, ip, p, s, next) && RoomFor(b, ip, p, s, next, op, cap)
    ensures ip < next < |b| && s.offset <= op + |s.literals| && s.length >= MINMATCH
  {
  }

  /** The literals at the end. */
  lemma LastForm(b: seq<byte>, ip: nat, out: seq<byte>, cap: nat, r: seq<byte>)
    requires ip < |b| && |out| <= cap && SafeFrom(b, ip, out, cap) == Decoded(r) && !Shortcut(b, ip, |out|, cap)
    requires var x := LiteralLength(b, ip + 1, b[ip] / 16); x.Extra? ==> MustEnd(b, x.next, |out|, x.value, cap)
    ensures Ends(b, ip, out, cap, r)
  {
    hide SafeMatch, Extension, LiteralLength, LiteralPart, Token;
    var code: nat := (b[ip] % 16) as int;
    LiteralLengthStands(b, ip + 1, (b[ip] / 16) as int);
    var x := LiteralLength(b, ip + 1, (b[ip] / 16) as int);
    TokenIs(b[ip], x.value, code);
    LiteralsStand(b, ip, x.value, x.next, code);
    EndsHere(b, ip, x.value, x.next, code, out, cap);
  }

  // ---------------------------------------------------------------- and nothing of that is refused

  lemma MatchLengthIs(b: seq<byte>, ip: nat, n: nat, next: nat)
    requires ip < |b| && ReadLength(b, ip, Min(n, 15)) == LongLength(n, next) && (n >= 15 ==> next + 4 <= |b|)
    ensures MatchLength(b, ip, Min(n, 15)) == Extra(n, next)
  {
    hide ReadVar;
    if n >= 15 { ReadVarIsReadLong(b, ip, |b| - LASTLITERALS + 1); }
  }

  /** What is read at a sequence: its lengths, its literals and its offset. */
  predicate ReadAt(b: seq<byte>, ip: nat, p: nat, s: Sequence, next: nat) {
    && ip < p && p + |s.literals| + 2 <= next < |b| && s.length >= MINMATCH
    && b[ip] / 16 == Min(|s.literals|, 15) && b[ip] % 16 == Min(s.length - MINMATCH, 15)
    && ReadLength(b, ip + 1, b[ip] / 16) == LongLength(|s.literals|, p)
    && b[p..p + |s.literals|] == s.literals && Le16(b, p + |s.literals|) == s.offset
    && ReadLength(b, p + |s.literals| + 2, b[ip] % 16) == LongLength(s.length - MINMATCH, next)
  }

  lemma SequenceIsRead(b: seq<byte>, ip: nat, s: Sequence) returns (p: nat)
    requires SequenceIsAt(b, ip, s) && ip + |SequenceBytes(s)| < |b|
    ensures p == ip + 1 + |Extension(|s.literals|)| && ReadAt(b, ip, p, s, ip + |SequenceBytes(s)|)
    ensures ip + |SequenceBytes(s)| - |MatchPart(s.offset, s.length - MINMATCH)| == p + |s.literals|
  {
    hide ReadLength, ReadLong, LengthBytes, Extension, Le16, Token;
    var code := s.length - MINMATCH;
    AtSplit(b, ip, LiteralPart(s.literals, code), MatchPart(s.offset, code));
    ReadLiteralPart(b, ip, s.literals, code);
    p := ip + 1 + |Extension(|s.literals|)|;
    ReadMatchPart(b, p + |s.literals|, s.offset, code);
  }

  lemma MatchTaken(b: seq<byte>, ip: nat, p: nat, s: Sequence, next: nat, out: seq<byte>, cap: nat)
    requires ReadAt(b, ip, p, s, next) && s.offset <= |out| + |s.literals| && |out| + |s.literals| + s.length + 5 <= cap
    requires s.length >= 19 ==> next + 4 <= |b|
    ensures SafeMatch(b, p + |s.literals| + 2, out + s.literals, cap, s.offset, b[ip] % 16)
            == SafeFrom(b, next, CopyMatchBytes(out + s.literals, s.offset, s.length), cap)
  {
    hide SafeFrom, ReadLength, MatchLength, CopyMatchBytes, Le16;
    MatchLengthIs(b, p + |s.literals| + 2, s.length - MINMATCH, next);
  }

  lemma ShortTaken(b: seq<byte>, ip: nat, p: nat, s: Sequence, next: nat, out: seq<byte>, cap: nat)
    requires ReadAt(b, ip, p, s, next) && |out| <= cap && RoomFor(b, ip, p, s, next, |out|, cap) && Shortcut(b, ip, |out|, cap)
    ensures |out| + |s.literals| + s.length <= cap
    ensures SafeFrom(b, ip, out, cap) == SafeFrom(b, next, CopyMatchBytes(out + s.literals, s.offset, s.length), cap)
  {
    hide CopyMatchBytes, Le16, SafeMatch;
    if ShortMatch(s.offset, |out + s.literals|, b[ip] % 16) {
    } else {
      MatchTaken(b, ip, p, s, next, out, cap);
    }
  }

  lemma LongTaken(b: seq<byte>, ip: nat, p: nat, s: Sequence, next: nat, out: seq<byte>, cap: nat)
    requires ReadAt(b, ip, p, s, next) && |out| <= cap && RoomFor(b, ip, p, s, next, |out|, cap) && !Shortcut(b, ip, |out|, cap)
    ensures |out| + |s.literals| + s.length <= cap
    ensures SafeFrom(b, ip, out, cap) == SafeFrom(b, next, CopyMatchBytes(out + s.literals, s.offset, s.length), cap)
  {
    hide CopyMatchBytes, Le16, SafeMatch, ReadLength, LiteralLength;
    SafeLiteralLength(b, ip + 1, |s.literals|, p);
    MatchTaken(b, ip, p, s, next, out, cap);
  }

  /** The last literals, whatever the lower half of their token. */
  lemma LastTaken(b: seq<byte>, ip: nat, last: seq<byte>, code: nat, out: seq<byte>, cap: nat)
    requires ip < |b| && b[ip..] == LiteralPart(last, code) && |out| + |last| <= cap
    ensures SafeFrom(b, ip, out, cap) == Decoded(out + last)
  {
    hide ReadLength, ReadLong, ReadVar, SafeMatch, LengthBytes;
    ReadLiteralPart(b, ip, last, code);
    var p := ip + 1 + |Extension(|last|)|;
    SafeLiteralLength(b, ip + 1, |last|, p);
    assert b[p..] == b[p..p + |last|];
  }

  /** Nothing is accepted at the end of the input. */
  lemma NothingAtEnd(b: seq<byte>, out: seq<byte>, cap: nat, r: seq<byte>)
    ensures !Accepts(b, |b|, out, cap, r)
  {
    hide CopyMatchBytes, HasRoom, Token;
    assert b[|b|..] == [];
  }

  lemma {:induction false} AllAccepted(b: seq<byte>, ip: nat, out: seq<byte>, cap: nat, r: seq<byte>)
    requires ip < |b| && |out| <= cap && Accepts(b, ip, out, cap, r)
    ensures SafeFrom(b, ip, out, cap) == Decoded(r)
    decreases |b| - ip
  {
    hide SafeFrom, CopyMatchBytes, Ends, Accepts, SequenceIsAt;
    if Ends(b, ip, out, cap, r) {
      EndTaken(b, ip, out, cap, r);
    } else {
      var s, next := FirstOf(b, ip, out, cap, r);
      NothingAtEnd(b, CopyMatchBytes(out + s.literals, s.offset, s.length), cap, r);
      Taken(b, ip, s, next, out, cap);
      AllAccepted(b, next, CopyMatchBytes(out + s.literals, s.offset, s.length), cap, r);
    }
  }

  lemma FirstOf(b: seq<byte>, ip: nat, out: seq<byte>, cap: nat, r: seq<byte>) returns (s: Sequence, next: nat)
    requires Accepts(b, ip, out, cap, r) && !Ends(b, ip, out, cap, r)
    ensures SequenceIsAt(b, ip, s) && s.offset <= |out| + |s.literals| && s.offset <= DISTANCE_MAX && s.length >= MINMATCH
    ensures next == ip + |SequenceBytes(s)| <= |b| && HasRoom(b, ip, s, |out|, cap)
    ensures Accepts(b, next, CopyMatchBytes(out + s.literals, s.offset, s.length), cap, r)
  {
    hide CopyMatchBytes, Ends, SequenceBytes, At;
    s :| && SequenceIsAt(b, ip, s) && HasRoom(b, ip, s, |out|, cap) && ip + |SequenceBytes(s)| <= |b|
         && Accepts(b, ip + |SequenceBytes(s)|, CopyMatchBytes(out + s.literals, s.offset, s.length), cap, r);
    next := ip + |SequenceBytes(s)|;
    Inside(b, ip, s, |out|, cap);
  }

  lemma Inside(b: seq<byte>, ip: nat, s: Sequence, op: nat, cap: nat)
    requires SequenceIsAt(b, ip, s) && HasRoom(b, ip, s, op, cap)
    ensures s.offset <= op + |s.literals| && s.offset <= DISTANCE_MAX && s.length >= MINMATCH
  {
  }

  lemma EndTaken(b: seq<byte>, ip: nat, out: seq<byte>, cap: nat, r: seq<byte>)
    requires ip < |b| && |out| <= cap && Ends(b, ip, out, cap, r)
    ensures SafeFrom(b, ip, out, cap) == Decoded(r)
  {
    hide SafeFrom, LiteralPart;
    var last: seq<byte>, code: nat :| ip <= |b| && b[ip..] == LiteralPart(last, code) && r == out + last && |r| <= cap;
    LastTaken(b, ip, last, code, out, cap);
  }

  lemma Taken(b: seq<byte>, ip: nat, s: Sequence, next: nat, out: seq<byte>, cap: nat)
    requires SequenceIsAt(b, ip, s) && HasRoom(b, ip, s, |out|, cap) && next == ip + |SequenceBytes(s)| < |b| && |out| <= cap
    ensures ip < next && s.offset <= |out| + |s.literals| && |out| + |s.literals| + s.length <= cap
    ensures SafeFrom(b, ip, out, cap) == SafeFrom(b, next, CopyMatchBytes(out + s.literals, s.offset, s.length), cap)
  {
    hide SafeFrom, CopyMatchBytes, LiteralPart, Extension, MatchPart, ReadLength, Le16, At, SequenceBytes;
    var p := SequenceIsRead(b, ip, s);
    if Shortcut(b, ip, |out|, cap) {
      ShortTaken(b, ip, p, s, next, out, cap);
    } else {
      LongTaken(b, ip, p, s, next, out, cap);
    }
  }

  /** MAIN RESULT. The decoder accepts exactly the blocks described, with exactly the output they stand
      for; with no room for output only the block of one zero, and never the empty input. */
  lemma AcceptsIff(b: seq<byte>, cap: nat, r: seq<byte>)
    ensures SafeDecode(b, cap) == Decoded(r) <==>
            if cap == 0 then b == [0] && r == [] else b != [] && Accepts(b, 0, [], cap, r)
  {
    hide SafeFrom, Accepts;
    if cap > 0 && b != [] {
      if SafeFrom(b, 0, [], cap) == Decoded(r) { OnlyAccepted(b, 0, [], cap, r); }
      if Accepts(b, 0, [], cap, r) { AllAccepted(b, 0, [], cap, r); }
    }
  }
}
