/** Base 58 text for byte strings (cpp/conformance/pjson_conformance_driver.cpp, lines 333-407). */
module Base58 {
  import opened ByteStrings
  import opened Powers
  import opened PjsonNumbers
  import opened Wrappers

  function Reversed<T>(s: seq<T>): (r: seq<T>)
    ensures |r| == |s| && forall i :: 0 <= i < |s| ==> r[i] == s[|s| - 1 - i]
  {
    seq(|s|, i requires 0 <= i < |s| => s[|s| - 1 - i])
  }

  /** The runs of letters without 0, O, I and l. */
  const DIGITS: string := "123456789"
  const UPPER1: string := "ABCDEFGH"
  const UPPER2: string := "JKLMN"
  const UPPER3: string := "PQRSTUVWXYZ"
  const LOWER1: string := "abcdefghijk"
  const LOWER2: string := "mnopqrstuvwxyz"
  const ALPHABET: string := DIGITS + UPPER1 + UPPER2 + UPPER3 + LOWER1 + LOWER2

  /** Each run follows the codes of its letters. */
  predicate Run(s: string, first: char) {
    forall i :: 0 <= i < |s| ==> s[i] as int == first as int + i
  }

  lemma Runs()
    ensures |DIGITS| == 9 && |UPPER1| == 8 && |UPPER2| == 5 && |UPPER3| == 11 && |LOWER1| == 11 && |LOWER2| == 14
    ensures Run(DIGITS, '1') && Run(UPPER1, 'A') && Run(UPPER2, 'J') && Run(UPPER3, 'P') && Run(LOWER1, 'a') && Run(LOWER2, 'm')
  {
  }

  /** The letters stand in the order of their codes, so no two are the same. */
  lemma AlphabetIncreases(i: nat, j: nat)
    requires i < j < 58
    ensures |ALPHABET| == 58 && ALPHABET[i] < ALPHABET[j]
  {
    hide ALPHABET;
    CodeOf(i);
    CodeOf(j);
  }

  function Code(i: nat): int {
    if i < 9 then 49 + i else if i < 17 then 65 + (i - 9) else if i < 22 then 74 + (i - 17)
    else if i < 33 then 80 + (i - 22) else if i < 44 then 97 + (i - 33) else 109 + (i - 44)
  }

  lemma CodeOf(i: nat)
    requires i < 58
    ensures |ALPHABET| == 58 && ALPHABET[i] as int == Code(i)
  {
    Runs();
  }

  // ---------------------------------------------------------------- numbers in a base

  /** The number written by digits, most significant first. */
  function NumberIn(ds: seq<nat>, base: nat): nat {
    if ds == [] then 0 else NumberIn(ds[..|ds| - 1], base) * base + ds[|ds| - 1]
  }

  /** The digits of a number without zeros in front. */
  function Digits(n: nat, base: nat): (ds: seq<nat>)
    requires base >= 2
    ensures forall i :: 0 <= i < |ds| ==> ds[i] < base
    ensures ds == [] <==> n == 0
    ensures n > 0 ==> ds[0] > 0
  {
    if n == 0 then [] else Digits(n / base, base) + [n % base]
  }

  lemma ValueSnoc(ds: seq<nat>, d: nat, base: nat)
    ensures NumberIn(ds + [d], base) == NumberIn(ds, base) * base + d
  {
    assert (ds + [d])[..|ds|] == ds;
  }

  lemma QuotientAndRest(n: nat, base: nat)
    requires base >= 1
    ensures n == n / base * base + n % base
  {
  }

  lemma {:induction false} ValueDigits(n: nat, base: nat)
    requires base >= 2
    ensures NumberIn(Digits(n, base), base) == n
  {
    hide NumberIn, Digits;
    DigitsUnfold(n, base);
    if n > 0 {
      ValueDigits(n / base, base);
      QuotientAndRest(n, base);
      ValueNext(n, base, n / base, n % base);
    }
  }

  lemma ValueNext(n: nat, base: nat, q: nat, r: nat)
    requires base >= 2 && n == q * base + r
    requires Digits(n, base) == Digits(q, base) + [r] && NumberIn(Digits(q, base), base) == q
    ensures NumberIn(Digits(n, base), base) == n
  {
    hide NumberIn, Digits;
    ValueSnoc(Digits(q, base), r, base);
  }

  lemma DigitsUnfold(n: nat, base: nat)
    requires base >= 2
    ensures n > 0 ==> Digits(n, base) == Digits(n / base, base) + [n % base]
    ensures n == 0 ==> NumberIn(Digits(n, base), base) == 0
  {
  }

  predicate AllBelow(ds: seq<nat>, base: nat) {
    forall i :: 0 <= i < |ds| ==> ds[i] < base
  }

  lemma {:induction false} ValuePositive(ds: seq<nat>, base: nat)
    requires base >= 2 && ds != [] && ds[0] > 0
    ensures NumberIn(ds, base) > 0
  {
    if |ds| > 1 {
      ValuePositive(ds[..|ds| - 1], base);
      MulMono(1, NumberIn(ds[..|ds| - 1], base), base);
    }
  }

  /** Digits without a zero in front are the digits of their number. */
  lemma {:induction false} DigitsValue(ds: seq<nat>, base: nat)
    requires base >= 2 && AllBelow(ds, base) && (ds != [] ==> ds[0] > 0)
    ensures Digits(NumberIn(ds, base), base) == ds
  {
    if ds != [] {
      var init, last := ds[..|ds| - 1], ds[|ds| - 1];
      DigitsValue(init, base);
      ValuePositive(ds, base);
      DivUnique(NumberIn(ds, base), base, NumberIn(init, base), last);
      assert ds == init + [last];
    }
  }

  function LeadingZeros(ds: seq<nat>): (n: nat)
    ensures n <= |ds| && (n < |ds| ==> ds[n] > 0) && forall i :: 0 <= i < n ==> ds[i] == 0
  {
    if ds == [] || ds[0] > 0 then 0 else 1 + LeadingZeros(ds[1..])
  }

  function Zeros(n: nat): (s: seq<nat>)
    ensures |s| == n && forall i :: 0 <= i < n ==> s[i] == 0
  {
    seq(n, _ => 0)
  }

  lemma {:induction false} ValueOfZeros(n: nat, ds: seq<nat>, base: nat)
    ensures NumberIn(Zeros(n) + ds, base) == NumberIn(ds, base)
    decreases |ds|, n
  {
    var all := Zeros(n) + ds;
    if ds != [] {
      assert all[..|all| - 1] == Zeros(n) + ds[..|ds| - 1];
      ValueOfZeros(n, ds[..|ds| - 1], base);
    } else if n > 0 {
      assert all[..|all| - 1] == Zeros(n - 1) + ds;
      ValueOfZeros(n - 1, ds, base);
    } else {
      assert all == ds;
    }
  }

  // ---------------------------------------------------------------- changing the base

  /** The same number in another base, zeros in front kept one for one. */
  function Convert(ds: seq<nat>, from: nat, to: nat): (r: seq<nat>)
    requires to >= 2
    ensures AllBelow(r, to)
  {
    Zeros(LeadingZeros(ds)) + Digits(NumberIn(ds, from), to)
  }

  lemma SplitZeros(ds: seq<nat>, base: nat)
    ensures ds == Zeros(LeadingZeros(ds)) + ds[LeadingZeros(ds)..]
    ensures NumberIn(ds, base) == NumberIn(ds[LeadingZeros(ds)..], base)
  {
    var n := LeadingZeros(ds);
    assert ds == Zeros(n) + ds[n..];
    ValueOfZeros(n, ds[n..], base);
  }

  lemma {:induction false} ZerosCount(n: nat, ds: seq<nat>)
    requires ds != [] ==> ds[0] > 0
    ensures LeadingZeros(Zeros(n) + ds) == n
  {
    var all := Zeros(n) + ds;
    if n > 0 {
      assert all[1..] == Zeros(n - 1) + ds;
      ZerosCount(n - 1, ds);
    } else {
      assert all == ds;
    }
  }

  /** Changing the base and back gives the same digits. */
  lemma ConvertBack(ds: seq<nat>, from: nat, to: nat)
    requires from >= 2 && to >= 2 && AllBelow(ds, from)
    ensures Convert(Convert(ds, from, to), to, from) == ds
  {
    var n, v := LeadingZeros(ds), NumberIn(ds, from);
    SplitZeros(ds, from);
    DigitsValue(ds[n..], from);
    ZerosCount(n, Digits(v, to));
    ValueOfZeros(n, Digits(v, to), to);
    ValueDigits(v, to);
  }

  // ---------------------------------------------------------------- the text form

  function Letters(ds: seq<nat>): (s: string)
    requires AllBelow(ds, 58)
    ensures |s| == |ds|
  {
    AlphabetSize();
    seq(|ds|, i requires 0 <= i < |ds| => ALPHABET[ds[i]])
  }

  lemma AlphabetSize()
    ensures |ALPHABET| == 58
  {
  }

  /** The first place of a letter in the alphabet from the i-th on, or -1. */
  function IndexFrom(c: char, i: nat): (r: int)
    requires i <= 58
    ensures r == -1 || (i <= r < 58 && |ALPHABET| == 58 && ALPHABET[r] == c)
    ensures r == -1 ==> |ALPHABET| == 58 && forall j :: i <= j < 58 ==> ALPHABET[j] != c
    decreases 58 - i
  {
    AlphabetSize();
    if i == 58 then -1 else if ALPHABET[i] == c then i else IndexFrom(c, i + 1)
  }

  lemma IndexOfLetter(d: nat)
    requires d < 58
    ensures |ALPHABET| == 58 && IndexFrom(ALPHABET[d], 0) == d
  {
    hide ALPHABET;
    AlphabetSize();
    var r := IndexFrom(ALPHABET[d], 0);
    if r >= 0 && r < d { AlphabetIncreases(r, d); }
    if r > d { AlphabetIncreases(d, r); }
  }

  predicate OverAlphabet(s: string) {
    forall i :: 0 <= i < |s| ==> IndexFrom(s[i], 0) >= 0
  }

  function DigitsOf(s: string): (ds: seq<nat>)
    requires OverAlphabet(s)
    ensures |ds| == |s| && AllBelow(ds, 58)
  {
    seq(|s|, i requires 0 <= i < |s| => IndexFrom(s[i], 0))
  }

  lemma LettersRead(ds: seq<nat>)
    requires AllBelow(ds, 58)
    ensures OverAlphabet(Letters(ds)) && DigitsOf(Letters(ds)) == ds
  {
    forall i | 0 <= i < |ds| ensures IndexFrom(Letters(ds)[i], 0) == ds[i] { IndexOfLetter(ds[i]); }
  }

  lemma DigitsWritten(s: string)
    requires OverAlphabet(s)
    ensures Letters(DigitsOf(s)) == s
  {
    hide ALPHABET;
  }

  function Encode58(bytes: seq<byte>): string {
    Letters(Convert(bytes, 256, 58))
  }

  function ToBytes(ds: seq<nat>): (b: seq<byte>)
    requires AllBelow(ds, 256)
    ensures |b| == |ds| && forall i :: 0 <= i < |ds| ==> b[i] == ds[i]
  {
    seq(|ds|, i requires 0 <= i < |ds| => ds[i])
  }

  /** No result for a letter outside the alphabet. */
  function Decode58(s: string): Option<seq<byte>> {
    if OverAlphabet(s) then Some(ToBytes(Convert(DigitsOf(s), 58, 256))) else None
  }

  /** Decoding undoes encoding on every byte string, zeros in front included. */
  lemma DecodeUndoesEncode(bytes: seq<byte>)
    ensures Decode58(Encode58(bytes)) == Some(bytes)
  {
    var ds: seq<nat> := bytes;
    LettersRead(Convert(ds, 256, 58));
    ConvertBack(ds, 256, 58);
    assert ToBytes(ds) == bytes;
  }

  /** The letters write the number of the bytes in base 58, with a '1' for each zero byte in front. */
  lemma TextIsNumber(bytes: seq<byte>)
    ensures OverAlphabet(Encode58(bytes))
    ensures NumberIn(DigitsOf(Encode58(bytes)), 58) == NumberIn(bytes, 256)
    ensures LeadingZeros(DigitsOf(Encode58(bytes))) == LeadingZeros(bytes)
  {
    var n, v := LeadingZeros(bytes), NumberIn(bytes, 256);
    LettersRead(Convert(bytes, 256, 58));
    ZerosCount(n, Digits(v, 58));
    ValueOfZeros(n, Digits(v, 58), 58);
    ValueDigits(v, 58);
  }

  /** Encoding undoes decoding on every text over the alphabet, and no other text is decoded. */
  lemma EncodeUndoesDecode(s: string)
    ensures Decode58(s).Some? <==> OverAlphabet(s)
    ensures Decode58(s).Some? ==> Encode58(Decode58(s).value) == s
  {
    if OverAlphabet(s) {
      var ds := DigitsOf(s);
      var c := Convert(ds, 58, 256);
      assert ToBytes(c) == c;
      ConvertBack(ds, 58, 256);
      DigitsWritten(s);
    }
  }

  // ---------------------------------------------------------------- the space reserved

  /** 22 letters carry less than 129 bits. */
  lemma TwentyTwoLetters()
    ensures Pow(58, 22) <= Pow(2, 129)
  {
    hide Pow;
    PowSmall();
    PowAdd(58, 4, 4);
    PowAdd(58, 8, 3);
    PowAdd(58, 11, 11);
    PowAdd(2, 8, 8);
    PowAdd(2, 16, 16);
    PowAdd(2, 32, 32);
    PowAdd(2, 64, 64);
    PowAdd(2, 128, 1);
  }

  lemma PowSmall()
    ensures Pow(58, 3) == 195112 && Pow(58, 4) == 11316496 && Pow(2, 1) == 2 && Pow(2, 8) == 256
  {
    assert Pow(58, 1) == 58 && Pow(58, 2) == 3364;
    assert Pow(2, 3) == 8 && Pow(2, 6) == 64;
  }

  function Reserved(payload: nat): nat {
    payload * 733 / 1000 + 1
  }

  lemma {:induction false} Pow256Is(m: nat)
    ensures Pow256(m) == Pow(2, 8 * m)
  {
    if m > 0 {
      Pow256Is(m - 1);
      PowAdd(2, 8, 8 * (m - 1));
      PowSmall();
    }
  }

  /** The bytes reserved for a text hold any number it can spell. */
  lemma ReservedHolds(p: nat)
    ensures Pow(58, p) < Pow256(Reserved(p))
  {
    hide Pow, Pow256;
    var m := Reserved(p);
    Pow256Is(m);
    TwentyTwoLetters();
    PowTimes(58, p, 22);
    PowTimes(58, 22, p);
    PowMonoBase(Pow(58, 22), Pow(2, 129), p);
    PowTimes(2, 129, p);
    MoreBits(p, m);
    PowStrict(2, 129 * p, 176 * m);
    PowTimes(2, 8 * m, 22);
    assert p * 22 == 22 * p && 8 * m * 22 == 176 * m;
    if Pow(58, p) >= Pow(2, 8 * m) { PowMonoBase(Pow(2, 8 * m), Pow(58, p), 22); }
  }

  lemma MoreBits(p: nat, m: nat)
    requires m == p * 733 / 1000 + 1
    ensures 129 * p < 176 * m
  {
  }

  lemma {:induction false} ValueBelow(ds: seq<nat>, base: nat)
    requires base >= 2 && AllBelow(ds, base)
    ensures NumberIn(ds, base) < Pow(base, |ds|)
  {
    if ds != [] {
      var init := ds[..|ds| - 1];
      ValueBelow(init, base);
      MulMono(NumberIn(init, base) + 1, Pow(base, |init|), base);
      TimesSucc(NumberIn(init, base), base);
    }
  }

  lemma TimesSucc(v: nat, b: nat)
    ensures (v + 1) * b == v * b + b
  {
  }

  /** While a text is decoded its bytes never outgrow the space reserved for it. */
  lemma ReserveSuffices(ds: seq<nat>, payload: nat)
    requires AllBelow(ds, 58) && |ds| <= payload
    ensures |MinimalLe(NumberIn(ds, 58))| <= Reserved(payload)
  {
    hide Pow, Pow256, NumberIn;
    ValueBelow(ds, 58);
    ReservedHolds(|ds|);
    MinimalSize(NumberIn(ds, 58), Reserved(|ds|));
  }

  // ---------------------------------------------------------------- one text

  lemma BytesNumber(none: seq<nat>)
    requires none == []
    ensures NumberIn([0xDE, 0xAD, 0xBE, 0xEF], 256) == 0xDEAD_BEEF
  {
    hide NumberIn;
    EmptyNumber(none, 256);
    ValueSnoc(none, 0xDE, 256);
    ValueSnoc(none + [0xDE], 0xAD, 256);
    ValueSnoc(none + [0xDE] + [0xAD], 0xBE, 256);
    ValueSnoc(none + [0xDE] + [0xAD] + [0xBE], 0xEF, 256);
    assert none + [0xDE] + [0xAD] + [0xBE] + [0xEF] == [0xDE, 0xAD, 0xBE, 0xEF];
  }

  lemma EmptyNumber(none: seq<nat>, base: nat)
    requires none == []
    ensures NumberIn(none, base) == 0
  {
  }

  lemma NumberDigits(none: seq<nat>)
    requires none == []
    ensures Digits(0xDEAD_BEEF, 58) == [5, 40, 7, 35, 23, 21]
  {
    hide Digits;
    DigitsUnfold(3735928559, 58);
    DigitsUnfold(64412561, 58);
    DigitsUnfold(1110561, 58);
    DigitsUnfold(19147, 58);
    DigitsUnfold(330, 58);
    DigitsUnfold(5, 58);
    assert Digits(0, 58) == none;
    assert none + [5] + [40] + [7] + [35] + [23] + [21] == [5, 40, 7, 35, 23, 21];
  }

  /** The text the conformance suite lists for the bytes DE AD BE EF. */
  lemma ATextOfBytes()
    ensures Encode58([0xDE, 0xAD, 0xBE, 0xEF]) == "6h8cQN"
  {
    hide NumberIn, Digits, ALPHABET;
    var bytes: seq<nat> := [0xDE, 0xAD, 0xBE, 0xEF];
    BytesNumber([]);
    NumberDigits([]);
    assert LeadingZeros(bytes) == 0 && Zeros(0) + [5, 40, 7, 35, 23, 21] == [5, 40, 7, 35, 23, 21];
    assert Convert(bytes, 256, 58) == [5, 40, 7, 35, 23, 21];
    CodeOf(5);
    CodeOf(40);
    CodeOf(7);
    CodeOf(35);
    CodeOf(23);
    CodeOf(21);
  }
}
