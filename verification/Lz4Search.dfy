/** Which matches the LZ4 compressor takes: a full account of its search, and that it leaves no choice
    (cpp/external/lz4/lz4.c, lines 1002-1298). */
module Lz4Search {
  import opened ByteStrings
  import opened Lz4Format

  const LIMIT_64K := 0x1_0000 + (MFLIMIT - 1)

  /** An input, the slot of each position in the table, the kind of table, and the acceleration. */
  datatype Job = Job(src: seq<byte>, hash: nat -> nat, byU16: bool, acceleration: nat)

  // ---------------------------------------------------------------- matches

  /** Bytes at p and q agree for n places. */
  predicate Agree(src: seq<byte>, p: nat, q: nat, n: nat) {
    p + n <= |src| && q + n <= |src| && src[p..p + n] == src[q..q + n]
  }

  lemma AgreeAt(src: seq<byte>, p: nat, q: nat, n: nat, k: nat)
    requires Agree(src, p, q, n)
    ensures k < n ==> src[p + k] == src[q + k]
  {
    if k < n {
      assert src[p..p + n][k] == src[q..q + n][k];
    }
  }

  /** The longest agreement of p and q that stays below `limit` at q. */
  predicate Longest(src: seq<byte>, p: nat, q: nat, limit: nat, n: nat) {
    q + n <= limit && Agree(src, p, q, n) && (q + n < limit && p + n < |src| ==> limit <= |src| && src[p + n] != src[q + n])
  }

  /** The candidate's distance test, which small inputs do not need. */
  predicate Near(byU16: bool, p: nat, ip: nat) {
    byU16 || p + DISTANCE_MAX >= ip
  }

  /** Small inputs never reach an offset that is too large. */
  predicate SmallEnough(byU16: bool, n: nat) {
    byU16 ==> n < LIMIT_64K
  }

  // ---------------------------------------------------------------- the search

  /** The steps between probes grow by one every 64 probes. */
  function Gap(acceleration: nat, k: nat): nat {
    if k == 0 then 1 else (acceleration * 64 + k - 1) / 64
  }

  /** The k-th position probed behind position a. */
  function Probe(acceleration: nat, a: nat, k: nat): (p: nat)
    ensures p > a
  {
    if k == 0 then a + 1 else Probe(acceleration, a, k - 1) + Gap(acceleration, k - 1)
  }

  function Probes(acceleration: nat, a: nat, n: nat): (ps: seq<nat>)
    ensures |ps| == n
  {
    if n == 0 then [] else Probes(acceleration, a, n - 1) + [Probe(acceleration, a, n - 1)]
  }

  /** The position noted last for a slot; 0 if there is none. */
  function Latest(noted: seq<nat>, hash: nat -> nat, slot: nat): nat {
    if noted == [] then 0
    else if hash(noted[|noted| - 1]) == slot then noted[|noted| - 1]
    else Latest(noted[..|noted| - 1], hash, slot)
  }

  function Candidate(j: Job, noted: seq<nat>, p: nat): nat {
    Latest(noted, j.hash, j.hash(p))
  }

  /** The candidate for p is near and starts with the same four bytes. */
  predicate Hit(j: Job, noted: seq<nat>, p: nat) {
    Near(j.byU16, Candidate(j, noted, p), p) && Agree(j.src, Candidate(j, noted, p), p, MINMATCH)
  }

  /** The k-th probe behind a is compared: the next one is not too far. */
  predicate InReach(j: Job, a: nat, k: nat) {
    Probe(j.acceleration, a, k + 1) + MFLIMIT <= |j.src| + 1
  }

  /** The first n probes behind a find nothing. */
  predicate Misses(j: Job, noted: seq<nat>, a: nat, n: nat) {
    forall k :: 0 <= k < n ==>
                  InReach(j, a, k) && !Hit(j, noted + Probes(j.acceleration, a, k), Probe(j.acceleration, a, k))
  }

  /** A match is come upon right behind the one before, or by probing, after some misses. */
  datatype Find = Follow | Search(misses: nat)

  /** The positions noted when the probing behind a begins. */
  function NotedBehind(noted: seq<nat>, a: nat): seq<nat> {
    if a < 2 then noted else noted + [a - 2, a]
  }

  /** The positions noted up to the end of the last sequence, in this order. */
  function Noted(acceleration: nat, finds: seq<Find>, seqs: seq<Sequence>): seq<nat>
    requires |finds| == |seqs|
  {
    if finds == [] then [0]
    else
      var n := |finds| - 1;
      var a := Size(seqs[..n]);
      var before := NotedBehind(Noted(acceleration, finds[..n], seqs[..n]), a);
      match finds[n]
      case Follow => before
      case Search(misses) => before + Probes(acceleration, a, misses + 1)
  }

  /** Behind a match that ends at a there is room for another one, but none at once. */
  predicate NoFollow(j: Job, noted: seq<nat>, a: nat) {
    a >= 2 ==> a + MFLIMIT <= |j.src| && !Hit(j, noted + [a - 2], a)
  }

  /** The match of a sequence that starts at a, found at f with candidate c: as far back as it goes
      without taking literals away from the match before, and as long as it gets. */
  predicate Extended(j: Job, a: nat, f: nat, c: nat, s: Sequence) {
    var q := a + |s.literals|;
    && q <= f && c < f && s.offset == f - c <= q <= |j.src| && s.literals == j.src[a..q]
    && (q == a || q == s.offset || j.src[q - 1] != j.src[q - 1 - s.offset])
    && f + MINMATCH <= q + s.length
    && |j.src| >= LASTLITERALS && Longest(j.src, q - s.offset, q, |j.src| - LASTLITERALS, s.length)
  }

  /** The next sequence, behind the first a bytes. */
  predicate Taken(j: Job, noted: seq<nat>, a: nat, find: Find, s: Sequence) {
    match find
    case Follow =>
      && a >= 2 && a + MFLIMIT <= |j.src| && Hit(j, noted + [a - 2], a)
      && Extended(j, a, a, Candidate(j, noted + [a - 2], a), s)
    case Search(misses) =>
      var before := NotedBehind(noted, a);
      var f, noted' := Probe(j.acceleration, a, misses), before + Probes(j.acceleration, a, misses);
      && NoFollow(j, noted, a) && Misses(j, before, a, misses)
      && InReach(j, a, misses) && Hit(j, noted', f)
      && Extended(j, a, f, Candidate(j, noted', f), s)
  }

  /** The sequences are those the search takes, one after the other. */
  predicate Picked(j: Job, finds: seq<Find>, seqs: seq<Sequence>) {
    |finds| == |seqs| &&
    (seqs == [] ||
     var n := |seqs| - 1;
     Picked(j, finds[..n], seqs[..n])
     && Taken(j, Noted(j.acceleration, finds[..n], seqs[..n]), Size(seqs[..n]), finds[n], seqs[n]))
  }

  /** Nothing is left to find behind the sequences: the rest is too short, or the probes get to its
      end in vain. */
  predicate Ended(j: Job, finds: seq<Find>, seqs: seq<Sequence>, misses: nat)
    requires |finds| == |seqs|
  {
    var noted, a := Noted(j.acceleration, finds, seqs), Size(seqs);
    a + MFLIMIT > |j.src|
    || (NoFollow(j, noted, a) && Misses(j, NotedBehind(noted, a), a, misses) && !InReach(j, a, misses))
  }

  // ---------------------------------------------------------------- the search leaves no choice

  lemma ExtendedOnce(j: Job, a: nat, f: nat, c: nat, s: Sequence, t: Sequence)
    requires Extended(j, a, f, c, s) && Extended(j, a, f, c, t)
    ensures s == t
  {
    hide Longest;
    if |s.literals| < |t.literals| {
      NotFurtherBack(j, a, f, c, s, t);
    } else if |t.literals| < |s.literals| {
      NotFurtherBack(j, a, f, c, t, s);
    }
    var q := a + |s.literals|;
    LongestOnce(j.src, q - s.offset, q, |j.src| - LASTLITERALS, s.length, t.length);
  }

  lemma ExtendedFacts(j: Job, a: nat, f: nat, c: nat, s: Sequence)
    requires Extended(j, a, f, c, s)
    ensures var q := a + |s.literals|;
            && q <= f && c < f && s.offset == f - c <= q <= |j.src| && f + MINMATCH <= q + s.length
            && Agree(j.src, q - s.offset, q, s.length)
            && (q == a || q == s.offset || j.src[q - 1] != j.src[q - 1 - s.offset])
  {
  }

  lemma NotFurtherBack(j: Job, a: nat, f: nat, c: nat, s: Sequence, t: Sequence)
    requires Extended(j, a, f, c, s) && Extended(j, a, f, c, t)
    ensures |s.literals| >= |t.literals|
  {
    hide Extended, Agree;
    ExtendedFacts(j, a, f, c, s);
    ExtendedFacts(j, a, f, c, t);
    var q := a + |s.literals|;
    if |s.literals| < |t.literals| { AgreeAt(j.src, q - s.offset, q, s.length, |t.literals| - |s.literals| - 1); }
  }

  lemma LongestOnce(src: seq<byte>, p: nat, q: nat, limit: nat, m: nat, n: nat)
    requires p < q && limit <= |src| && Longest(src, p, q, limit, m) && Longest(src, p, q, limit, n)
    ensures m == n
  {
    AgreeAt(src, p, q, n, m);
    AgreeAt(src, p, q, m, n);
  }

  lemma MissAt(j: Job, noted: seq<nat>, a: nat, n: nat, k: nat)
    requires Misses(j, noted, a, n)
    ensures k < n ==> InReach(j, a, k) && !Hit(j, noted + Probes(j.acceleration, a, k), Probe(j.acceleration, a, k))
  {
    hide Hit, InReach, Probes, Probe;
  }

  lemma TakenOnce(j: Job, noted: seq<nat>, a: nat, f: Find, s: Sequence, g: Find, t: Sequence)
    requires Taken(j, noted, a, f, s) && Taken(j, noted, a, g, t)
    ensures f == g && s == t
  {
    hide Hit, Extended, InReach, Misses, Probe, Probes;
    match f
    case Follow => ExtendedOnce(j, a, a, Candidate(j, noted + [a - 2], a), s, t);
    case Search(m) => {
      assert g.Search?;
      var before, n := NotedBehind(noted, a), g.misses;
      MissAt(j, before, a, m, n);
      MissAt(j, before, a, n, m);
      var p := Probe(j.acceleration, a, m);
      ExtendedOnce(j, a, p, Candidate(j, before + Probes(j.acceleration, a, m), p), s, t);
    }
  }

  lemma {:induction false} PickedPrefix(j: Job, finds: seq<Find>, seqs: seq<Sequence>, n: nat)
    requires Picked(j, finds, seqs) && n <= |seqs|
    ensures Picked(j, finds[..n], seqs[..n])
    decreases |seqs|
  {
    hide Taken;
    if n < |seqs| {
      PickedPrefix(j, finds[..|seqs| - 1], seqs[..|seqs| - 1], n);
      assert finds[..|seqs| - 1][..n] == finds[..n] && seqs[..|seqs| - 1][..n] == seqs[..n];
    } else {
      assert finds[..n] == finds && seqs[..n] == seqs;
    }
  }

  /** The last step of a search. */
  lemma PickedLast(j: Job, finds: seq<Find>, seqs: seq<Sequence>)
    requires Picked(j, finds, seqs) && seqs != []
    ensures |finds| == |seqs|
    ensures var n := |seqs| - 1;
            Picked(j, finds[..n], seqs[..n])
            && Taken(j, Noted(j.acceleration, finds[..n], seqs[..n]), Size(seqs[..n]), finds[n], seqs[n])
  {
    hide Taken, Noted, Size;
  }

  lemma SameBeginning<T>(s: seq<T>, t: seq<T>, n: nat)
    requires |s| == n + 1 <= |t| && s[..n] == t[..n] && s[n] == t[n]
    ensures s == t[..n + 1]
  {
    assert s == s[..n] + [s[n]] && t[..n + 1] == t[..n] + [t[n]];
  }

  lemma ShorterBeginning<T>(s: seq<T>, n: nat)
    requires n < |s|
    ensures s[..n + 1][..n] == s[..n] && s[..n + 1][n] == s[n]
  {
  }

  /** Of two searches of the same input the shorter one is the beginning of the longer one. */
  lemma {:induction false} PickedOnce(j: Job, fs: seq<Find>, ss: seq<Sequence>, gs: seq<Find>, ts: seq<Sequence>)
    requires Picked(j, fs, ss) && Picked(j, gs, ts) && |ss| <= |ts|
    ensures |fs| == |ss| && |gs| == |ts| && fs == gs[..|ss|] && ss == ts[..|ss|]
    decreases |ss|
  {
    hide *;
    SameLengths(j, fs, ss);
    SameLengths(j, gs, ts);
    if ss != [] {
      var n := |ss| - 1;
      PickedLast(j, fs, ss);
      PickedOnce(j, fs[..n], ss[..n], gs, ts);
      PickedPrefix(j, gs, ts, n + 1);
      PickedLast(j, gs[..n + 1], ts[..n + 1]);
      ShorterBeginning(gs, n);
      ShorterBeginning(ts, n);
      TakenOnce(j, Noted(j.acceleration, fs[..n], ss[..n]), Size(ss[..n]), fs[n], ss[n], gs[n], ts[n]);
      SameBeginning(fs, gs, n);
      SameBeginning(ss, ts, n);
    }
  }

  lemma SameLengths(j: Job, finds: seq<Find>, seqs: seq<Sequence>)
    requires Picked(j, finds, seqs)
    ensures |finds| == |seqs|
  {
  }

  lemma NotTakenAtEnd(j: Job, finds: seq<Find>, seqs: seq<Sequence>, misses: nat, f: Find, s: Sequence)
    requires |finds| == |seqs| && Ended(j, finds, seqs, misses)
    ensures !Taken(j, Noted(j.acceleration, finds, seqs), Size(seqs), f, s)
  {
    hide Taken;
    match f
    case Follow => NotFollowedAtEnd(j, finds, seqs, misses, s);
    case Search(m) => NotSearchedAtEnd(j, finds, seqs, misses, m, s);
  }

  lemma NotFollowedAtEnd(j: Job, finds: seq<Find>, seqs: seq<Sequence>, misses: nat, s: Sequence)
    requires |finds| == |seqs| && Ended(j, finds, seqs, misses)
    ensures !Taken(j, Noted(j.acceleration, finds, seqs), Size(seqs), Follow, s)
  {
    hide Hit, Extended, Noted, Size, Misses, Probe, Probes, InReach, NotedBehind;
  }

  lemma NotSearchedAtEnd(j: Job, finds: seq<Find>, seqs: seq<Sequence>, misses: nat, m: nat, s: Sequence)
    requires |finds| == |seqs| && Ended(j, finds, seqs, misses)
    ensures !Taken(j, Noted(j.acceleration, finds, seqs), Size(seqs), Search(m), s)
  {
    hide Hit, Extended, Noted, Size, Misses, Probe, Probes, NotedBehind;
    var noted, a := Noted(j.acceleration, finds, seqs), Size(seqs);
    if a + MFLIMIT <= |j.src| { MissAt(j, NotedBehind(noted, a), a, misses, m); }
    if misses <= m { ProbesGrow(j.acceleration, a, misses + 1, m + 1); }
    ProbesGrow(j.acceleration, a, 1, m + 1);
    SecondProbe(j.acceleration, a);
  }

  lemma SecondProbe(acceleration: nat, a: nat)
    ensures Probe(acceleration, a, 1) == a + 2
  {
    assert Probe(acceleration, a, 0) == a + 1;
  }

  lemma {:induction false} ProbesGrow(acceleration: nat, a: nat, m: nat, n: nat)
    requires m <= n
    ensures Probe(acceleration, a, m) <= Probe(acceleration, a, n)
    decreases n
  {
    hide Gap;
    if m < n { ProbesGrow(acceleration, a, m, n - 1); }
  }

  /** MAIN RESULT. The input, the slots and the acceleration determine the block's sequences. */
  lemma SearchIsUnique(j: Job, fs: seq<Find>, ss: seq<Sequence>, m: nat, gs: seq<Find>, ts: seq<Sequence>, n: nat)
    requires Picked(j, fs, ss) && Ended(j, fs, ss, m) && Picked(j, gs, ts) && Ended(j, gs, ts, n)
    ensures ss == ts
  {
    hide Ended, Taken;
    if |ss| <= |ts| { NotBeyond(j, fs, ss, m, gs, ts); } else { NotBeyond(j, gs, ts, n, fs, ss); }
  }

  /** No search goes on behind the end of one. */
  lemma NotBeyond(j: Job, fs: seq<Find>, ss: seq<Sequence>, m: nat, gs: seq<Find>, ts: seq<Sequence>)
    requires Picked(j, fs, ss) && Ended(j, fs, ss, m) && Picked(j, gs, ts)
    ensures |ts| <= |ss| && gs == fs[..|ts|] && ts == ss[..|ts|]
  {
    hide Ended, Taken;
    if |ts| <= |ss| {
      PickedOnce(j, gs, ts, fs, ss);
    } else {
      var n := |ss|;
      PickedOnce(j, fs, ss, gs, ts);
      PickedPrefix(j, gs, ts, n + 1);
      assert gs[..n + 1][..n] == fs && ts[..n + 1][..n] == ss;
      NotTakenAtEnd(j, fs, ss, m, gs[n], ts[n]);
    }
  }

  // ---------------------------------------------------------------- a run of one byte

  predicate OneByte(src: seq<byte>) {
    forall i :: 0 <= i < |src| ==> src[i] == src[0]
  }

  lemma OneByteAgrees(src: seq<byte>, p: nat, q: nat, n: nat)
    requires OneByte(src) && p + n <= |src| && q + n <= |src|
    ensures Agree(src, p, q, n)
  {
    var x, y := src[p..p + n], src[q..q + n];
    assert forall k :: 0 <= k < n ==> x[k] == y[k];
  }

  /** The bytes of a run but the first and the last five. */
  function RunMatch(src: seq<byte>): Sequence
    requires |src| >= MFLIMIT + 1
  {
    Sequence(src[..1], 1, |src| - 6)
  }

  lemma RunMatchSize(src: seq<byte>)
    requires |src| >= MFLIMIT + 1
    ensures Size([RunMatch(src)]) == |src| - LASTLITERALS
  {
    var s := RunMatch(src);
    assert [s][..0] == [] && [s][0] == s;
  }

  lemma RunIsFound(j: Job)
    requires OneByte(j.src) && |j.src| >= MFLIMIT + 1 && j.hash(0) == j.hash(1)
    ensures Picked(j, [Search(0)], [RunMatch(j.src)]) && Ended(j, [Search(0)], [RunMatch(j.src)], 0)
  {
    var none: seq<nat> := [];
    assert Candidate(j, [0], 1) == 0;
    assert [0] + none == [0];
    OneByteAgrees(j.src, 0, 1, MINMATCH);
    OneByteAgrees(j.src, 0, 1, |j.src| - 6);
    SecondProbe(j.acceleration, 0);
    RunMatchSize(j.src);
    assert [Search(0)][..0] == [] && [RunMatch(j.src)][..0] == [];
    assert Taken(j, [0], 0, Search(0), RunMatch(j.src));
  }

  /** A run of 13 bytes or more is one match behind its first byte, whatever the slots and the
      acceleration, as long as the slots of the first two positions are the same. */
  lemma RunIsOneMatch(j: Job, finds: seq<Find>, seqs: seq<Sequence>)
    requires OneByte(j.src) && |j.src| >= MFLIMIT + 1 && j.hash(0) == j.hash(1) && Picked(j, finds, seqs)
    ensures seqs == [] || seqs == [RunMatch(j.src)]
    ensures forall misses :: Ended(j, finds, seqs, misses) ==> seqs == [RunMatch(j.src)]
  {
    hide Picked, Ended, RunMatch;
    RunIsFound(j);
    NotBeyond(j, [Search(0)], [RunMatch(j.src)], 0, finds, seqs);
    assert [RunMatch(j.src)][..0] == [] && [RunMatch(j.src)][..1] == [RunMatch(j.src)];
    forall misses | Ended(j, finds, seqs, misses) ensures seqs == [RunMatch(j.src)] {
      SearchIsUnique(j, finds, seqs, misses, [Search(0)], [RunMatch(j.src)], 0);
    }
  }
}
