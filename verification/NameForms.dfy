/** What the number of a name depends on: its spelling in lower-case letters, its hash when the
    coder gives it up, and the letters after a '#'; and the number of one short name. */
module NameForms {
  import opened Powers
  import opened NameTables
  import opened NameCoder
  import opened NameRoundTrip
  import opened NameCodes
  import opened NameTheorems
  import opened NameLost

  // ---------------------------------------------------------------- spellings

  const SMALL_A := 97
  const SMALL_Z := 122
  const CAPITAL_A := 65
  const CAPITAL_Z := 90
  const DIGIT_0 := 48
  const UNDERSCORE := 95

  /** The letters that the digits 0 to 9 share their codes with, in order: e a i o t n r s l c. */
  const DIGIT_LETTERS: seq<int> := [101, 97, 105, 111, 116, 110, 114, 115, 108, 99]

  predicate IsDigit(c: int) {
    DIGIT_0 <= c < DIGIT_0 + |DIGIT_LETTERS|
  }

  predicate IsCapital(c: int) {
    CAPITAL_A <= c <= CAPITAL_Z
  }

  /** The lower-case letter for a character: capitals lose their case, digits become the ten
      commonest letters and the underscore a 'q'. */
  function LowerLetter(c: int): int {
    if IsCapital(c) then c + (SMALL_A - CAPITAL_A)
    else if IsDigit(c) then DIGIT_LETTERS[c - DIGIT_0]
    else if c == UNDERSCORE then 113
    else c
  }

  function LowerForm(s: seq<int>): (t: seq<int>)
    ensures |t| == |s| && forall i :: 0 <= i < |s| ==> t[i] == LowerLetter(s[i])
  {
    seq(|s|, i requires 0 <= i < |s| => LowerLetter(s[i]))
  }

  lemma SymbolOfCapital(c: int)
    requires IsCapital(c)
    ensures SymbolOf(c) == SymbolOf(LowerLetter(c)) != 0
  {
  }

  lemma SymbolOfDigit(c: int)
    requires IsDigit(c)
    ensures SymbolOf(c) == SymbolOf(LowerLetter(c)) != 0
  {
    assert forall k :: 0 <= k < 10 ==> DIGIT_LETTERS[k] == SYMBOL_TO_CHAR[k + 1];
    SymbolsHaveLetters();
  }

  /** The characters a name may be made of are letters, digits and the underscore, and each is
      coded as its lower-case letter. */
  lemma SymbolOfLower(c: int)
    ensures SymbolOf(LowerLetter(c)) == SymbolOf(c)
    ensures SymbolOf(c) != 0 <==> SMALL_A <= LowerLetter(c) <= SMALL_Z
  {
    if IsCapital(c) { SymbolOfCapital(c); }
    if IsDigit(c) { SymbolOfDigit(c); }
    LettersHaveSymbols();
  }

  /** A name and its lower-case form are coded alike. */
  lemma SpellingsAgree(cf: seq<seq<nat>>, s: seq<int>)
    requires ValidTable(cf)
    ensures Compressible(s) <==> LowerCase(LowerForm(s))
    ensures CompressedCode(cf, LowerForm(s)) == CompressedCode(cf, s)
    ensures Compressible(s) ==> (Survives(cf, LowerForm(s)) <==> Survives(cf, s))
  {
    forall i | 0 <= i < |s|
      ensures SymbolOf(LowerForm(s)[i]) == SymbolOf(s[i])
      ensures SymbolOf(s[i]) != 0 <==> SMALL_A <= LowerForm(s)[i] <= SMALL_Z
    {
      SymbolOfLower(s[i]);
    }
    assert Symbols(LowerForm(s)) == Symbols(s);
  }

  /** Decoding the number of a name gives its lower-case form exactly when the name survives. */
  lemma ReturnsLowerForm(cf: seq<seq<nat>>, hash: seq<int> -> nat, s: seq<int>)
    requires ValidTable(cf) && s != [] && Compressible(s)
    ensures NameOf(cf, NameCode(cf, hash, s).value) == LowerForm(s) <==> Survives(cf, s)
  {
    hide Survives, CompressedCode, NameOf, IsHashName, Marked;
    var t := LowerForm(s);
    SpellingsAgree(cf, s);
    LettersOfSymbols(t);
    assert s[0] != HASH_SIGN && t[0] != HASH_SIGN;
    if CompressedCode(cf, s) != 0 {
      RoundTripExactly(cf, hash, t);
    } else {
      if Survives(cf, s) { SurvivorsAreKept(cf, s); }
      MarkedIsHash(hash(s));
      HashNameStartsWithSign(cf, Marked(hash(s)));
    }
  }

  /** Two surviving names have the same number exactly when they differ in spelling only. */
  lemma SameNumberIff(cf: seq<seq<nat>>, hash: seq<int> -> nat, s: seq<int>, t: seq<int>)
    requires ValidTable(cf) && s != [] && t != [] && Compressible(s) && Compressible(t)
    requires Survives(cf, s) && Survives(cf, t)
    ensures NameCode(cf, hash, s) == NameCode(cf, hash, t) <==> LowerForm(s) == LowerForm(t)
  {
    hide Survives, CompressedCode, NameOf, IsHashName, Marked;
    ReturnsLowerForm(cf, hash, s);
    ReturnsLowerForm(cf, hash, t);
    SpellingsAgree(cf, s);
    SpellingsAgree(cf, t);
    SurvivorsAreKept(cf, s);
    SurvivorsAreKept(cf, t);
  }

  // ---------------------------------------------------------------- names given up

  /** Everything of a number but bit 56. */
  predicate SameButMark(x: nat, y: nat) {
    x % MARKER == y % MARKER && x / (2 * MARKER) == y / (2 * MARKER)
  }

  lemma MarkedKeeps(h: nat)
    ensures SameButMark(Marked(h), h) && IsHashName(Marked(h))
  {
    MarkedIsHash(h);
    if !IsHashName(h) {
      AddBelowHalf(h, MARKER);
      DivUnique(h + MARKER, MARKER, h / MARKER + 1, h % MARKER);
    }
  }

  lemma ThreeParts(x: nat, y: nat)
    requires SameButMark(x, y) && IsHashName(x) && IsHashName(y)
    ensures x == y
  {
    DivDiv(x, MARKER, 2);
    DivDiv(y, MARKER, 2);
  }

  /** A name given up is numbered by its hash, of which only bit 56 is lost. */
  lemma GivenUpKeepsHash(cf: seq<seq<nat>>, hash: seq<int> -> nat, s: seq<int>)
    requires ValidTable(cf) && s != [] && Compressible(s) && CompressedCode(cf, s) == 0
    ensures NameCode(cf, hash, s).Number?
    ensures var v := NameCode(cf, hash, s).value;
            && v % MARKER == hash(s) % MARKER
            && v / (2 * MARKER) == hash(s) / (2 * MARKER)
            && v / MARKER % 2 == 1
  {
    assert s[0] != HASH_SIGN;
    MarkedKeeps(hash(s));
  }

  /** Two names given up share their number exactly when their hashes agree outside bit 56. */
  lemma GivenUpShareIff(cf: seq<seq<nat>>, hash: seq<int> -> nat, s: seq<int>, t: seq<int>)
    requires ValidTable(cf)
    requires s != [] && Compressible(s) && CompressedCode(cf, s) == 0
    requires t != [] && Compressible(t) && CompressedCode(cf, t) == 0
    ensures NameCode(cf, hash, s) == NameCode(cf, hash, t) <==>
            hash(s) % MARKER == hash(t) % MARKER && hash(s) / (2 * MARKER) == hash(t) / (2 * MARKER)
  {
    hide NameCode, CompressedCode;
    GivenUpKeepsHash(cf, hash, s);
    GivenUpKeepsHash(cf, hash, t);
    var x, y := NameCode(cf, hash, s).value, NameCode(cf, hash, t).value;
    if SameButMark(x, y) { ThreeParts(x, y); }
  }

  /** The number 0 stands for the empty name and for every name with a character that is no letter,
      digit or underscore, and for no other name without a '#'. */
  lemma ZeroIff(cf: seq<seq<nat>>, hash: seq<int> -> nat, s: seq<int>)
    requires ValidTable(cf) && (s == [] || s[0] != HASH_SIGN)
    ensures NameCode(cf, hash, s) == Number(0) <==> s == [] || !LowerCase(LowerForm(s))
  {
    hide CompressedCode, IsHashName, Marked;
    SpellingsAgree(cf, s);
    if s != [] && Compressible(s) { MarkedIsHash(hash(s)); }
  }

  // ---------------------------------------------------------------- names with a '#'

  lemma {:induction false} NibblesAt(s: seq<int>, i: nat)
    requires i < |s|
    ensures NibbleAt(NibblesValue(s), i) == Nibble(s[i])
  {
    if i == 0 {
      NibbleAtShift(NibblesValue(s), 0);
    } else {
      NibblesAt(s[1..], i - 1);
      NibbleAtShift(NibblesValue(s), i - 1);
    }
  }

  lemma {:induction false} NibblesSize(s: seq<int>)
    ensures NibblesValue(s) < Pow16(|s|)
  {
    if s != [] { NibblesSize(s[1..]); }
  }

  /** The number of a '#' and sixteen characters holds one nibble for each, lowest first: one less
      than the character's symbol, and 15 for a character without one. Other lengths have the
      number -1, and a character past the table's end makes the coder throw. */
  lemma SignedNumber(cf: seq<seq<nat>>, hash: seq<int> -> nat, s: seq<int>)
    requires ValidTable(cf) && s != [] && s[0] == HASH_SIGN
    ensures |s| != 17 ==> NameCode(cf, hash, s) == Number(0xFFFF_FFFF_FFFF_FFFF)
    ensures NameCode(cf, hash, s).Throws? <==> |s| == 17 && exists i :: 1 <= i < 17 && s[i] >= CHAR_TABLE_SIZE
    ensures |s| == 17 && NameCode(cf, hash, s).Number? ==>
              && NameCode(cf, hash, s).value <= NOT_A_NAME
              && forall i :: 0 <= i < 16 ==>
                   NibbleAt(NameCode(cf, hash, s).value, i) ==
                   if SymbolOf(s[i + 1]) == 0 then 15 else (SymbolOf(s[i + 1]) - 1) % 16
  {
    if |s| == 17 && NameCode(cf, hash, s).Number? {
      hide NibbleAt, SymbolOf;
      NibblesSize(s[1..]);
      SixteenNibbles();
      forall i | 0 <= i < 16
        ensures NibbleAt(NibblesValue(s[1..]), i) ==
                if SymbolOf(s[i + 1]) == 0 then 15 else (SymbolOf(s[i + 1]) - 1) % 16
      {
        NibblesAt(s[1..], i);
        assert s[1..][i] == s[i + 1];
      }
    }
  }

  /** A marked number's name is a '#' and one of the sixteen commonest letters for each nibble. */
  lemma HashNameLetters(cf: seq<seq<nat>>, x: nat)
    requires ValidTable(cf) && x / MARKER % 2 == 1
    ensures |NameOf(cf, x)| == 17 && NameOf(cf, x)[0] == HASH_SIGN
    ensures forall i :: 0 <= i < 16 ==>
              && SMALL_A <= NameOf(cf, x)[i + 1] <= SMALL_Z
              && SymbolOf(NameOf(cf, x)[i + 1]) == NibbleAt(x, i) + 1
  {
    hide NibbleAt, SymbolOf;
    HashNameStartsWithSign(cf, x);
    SymbolsHaveLetters();
  }

  // ---------------------------------------------------------------- the number of one name

  /** The name "s". */
  const NAME_S: seq<int> := [115]

  lemma LetterSlot()
    ensures 44905 == 0 + 131072 * MODEL_CF[0][8] / TOTAL
    ensures 54748 == 0 + 131072 * MODEL_CF[0][9] / TOTAL - 1
  {
    assert ROW0[8] == 11226 && ROW0[9] == 13687;
  }

  lemma EndSlot()
    ensures 31560 == 31560 + 78752 * MODEL_CF[8][0] / TOTAL
    ensures 45378 == 31560 + 78752 * MODEL_CF[8][1] / TOTAL - 1
  {
    assert ROW8[0] == 0 && ROW8[1] == 5750;
  }

  /** The letter takes the bits 0 and 1 and leaves one open. */
  lemma LetterRun()
    ensures Renormalise(Coder(44905, 54748, 0, [])) == Coder(31560, 110311, 1, [false, true])
  {
    hide Renormalise;
    var e0 := Coder(44905, 54748, 0, []);
    var e1 := Coder(89810, 109497, 0, [false]);
    var e2 := Coder(48548, 87923, 0, [false, true]);
    var e3 := Coder(31560, 110311, 1, [false, true]);
    RenormaliseUnfold(e0);
    assert Step(e0) == e1;
    RenormaliseUnfold(e1);
    assert Step(e1) == e2;
    RenormaliseUnfold(e2);
    assert Step(e2) == e3;
    RenormaliseUnfold(e3);
  }

  /** The terminator takes the bit 0, which settles the open one, and leaves another open. */
  lemma EndRun()
    ensures Renormalise(Coder(31560, 45378, 1, [false, true])) == Coder(60704, 115979, 1, [false, true, false, true])
  {
    hide Renormalise;
    var e0 := Coder(31560, 45378, 1, [false, true]);
    var e1 := Coder(63120, 90757, 0, [false, true, false, true]);
    var e2 := Coder(60704, 115979, 1, [false, true, false, true]);
    RenormaliseUnfold(e0);
    assert Step(e0) == e1;
    RenormaliseUnfold(e1);
    assert Step(e1) == e2;
    RenormaliseUnfold(e2);
  }

  lemma RunOfS()
    requires ValidTable(MODEL_CF)
    ensures EncoderRun(MODEL_CF, NAME_S) == Coded(Coder(60704, 115979, 1, [false, true, false, true]), [])
  {
    hide Renormalise, MODEL_CF;
    var syms: seq<Symbol> := [8, 0];
    assert Symbols(NAME_S) + [0] == syms;
    assert syms[1..] == [0] && [0][1..] == [];
    LetterSlot();
    LetterRun();
    EndSlot();
    EndRun();
  }

  lemma PackedMore(bits: seq<bool>, b: bool)
    ensures Packed(bits + [b]) == Packed(bits) + if b then Pow2(BitPlace(|bits|)) else 0
  {
    assert (bits + [b])[..|bits|] == bits;
  }

  lemma PackedBitsOfS()
    ensures Packed([false, true, false, true, true, false, false]) == 0x58
  {
    hide Packed, Pow2;
    var none: seq<bool> := [];
    PackedNone(none);
    PackedMore(none, false);
    PackedMore(none + [false], true);
    PackedMore(none + [false] + [true], false);
    PackedMore(none + [false] + [true] + [false], true);
    PackedMore(none + [false] + [true] + [false] + [true], true);
    PackedMore(none + [false] + [true] + [false] + [true] + [true], false);
    PackedMore(none + [false] + [true] + [false] + [true] + [true] + [false], false);
    assert none + [false] + [true] + [false] + [true] + [true] + [false] + [false]
        == [false, true, false, true, true, false, false];
    assert Pow2(6) == 64 && Pow2(4) == 16 && Pow2(3) == 8 by { SmallPowers(); }
  }

  lemma PackedNone(bits: seq<bool>)
    requires bits == []
    ensures Packed(bits) == 0
  {
  }

  lemma SmallPowers()
    ensures Pow2(6) == 64 && Pow2(4) == 16 && Pow2(3) == 8
  {
  }

  /** The shipped model numbers "s" with the bits 0101100, of which the closing bits are the last
      three. */
  lemma NumberOfS(hash: seq<int> -> nat)
    ensures ValidTable(MODEL_CF) && NameCode(MODEL_CF, hash, NAME_S) == Number(0x58)
  {
    hide Packed, CodeSymbols, MODEL_CF, Marked;
    ModelIsValid();
    RunOfS();
    PackedBitsOfS();
    assert NameBits(MODEL_CF, NAME_S) == [false, true, false, true, true, false, false];
    assert Compressible(NAME_S) && NAME_S[0] != HASH_SIGN;
  }
}
