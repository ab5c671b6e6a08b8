/** The base 58 conversions as they run: multiply-and-add and long division over bytes
    (cpp/conformance/pjson_conformance_driver.cpp, lines 333-407). */
module Base58Methods {
  import opened Base58
  import opened ByteStrings
  import opened PjsonNumbers
  import opened Powers
  import opened Wrappers

  // ---------------------------------------------------------------- decoding

  lemma {:induction false} UnleSnoc(s: seq<byte>, x: byte)
    ensures var top: int := x; Unle(s + [x]) == Unle(s) + top * Pow256(|s|)
  {
    var t := s + [x];
    if s == [] {
      assert t[1..] == [];
    } else {
      UnleSnoc(s[1..], x);
      assert t[1..] == s[1..] + [x];
      Shuffle(x, Pow256(|s| - 1));
    }
  }

  lemma Shuffle(x: nat, p: nat)
    ensures 256 * (x * p) == x * (256 * p)
  {
  }

  /** No zero byte at the end. */
  predicate Trimmed(s: seq<byte>) {
    s != [] ==> s[|s| - 1] > 0
  }

  lemma {:induction false} TrimmedIsMinimal(s: seq<byte>)
    requires Trimmed(s)
    ensures MinimalLe(Unle(s)) == s
  {
    if s != [] {
      var low: int := s[0];
      TrimmedIsMinimal(s[1..]);
      assert Unle(s) == low + 256 * Unle(s[1..]);
      if |s| > 1 { assert MinimalLe(Unle(s[1..])) != []; } else { assert s[1..] == []; }
      assert s == [s[0]] + s[1..];
    }
  }

  lemma {:induction false} MinimalIsTrimmed(n: nat)
    ensures Trimmed(MinimalLe(n))
  {
    if n > 0 { MinimalIsTrimmed(n / 256); }
  }

  lemma CarrySum(done: nat, old0: nat, carry: nat, v: nat, y: nat, p: nat, q: nat, r: nat)
    requires done + carry * p == 58 * old0 + v && carry + y * 58 == 256 * q + r
    ensures done + r * p + q * (256 * p) == 58 * (old0 + y * p) + v
  {
    CarryTimes(carry + y * 58, q, r, p);
    Spread58(carry, y, p);
  }

  /** One byte of the product: what is done, and the carry. */
  lemma CarryOn(done: seq<byte>, old0: seq<byte>, x: byte, carry: nat, v: nat, q: nat, r: byte)
    requires |done| == |old0| && carry + x * 58 == 256 * q + r
    requires Unle(done) + carry * Pow256(|done|) == 58 * Unle(old0) + v
    ensures Unle(done + [r]) + q * Pow256(|done| + 1) == 58 * Unle(old0 + [x]) + v
  {
    hide Unle, Pow256;
    UnleSnoc(done, r);
    UnleSnoc(old0, x);
    NextPow256(|done|);
    CarrySum(Unle(done), Unle(old0), carry, v, x, Pow256(|done|), q, r);
  }

  lemma CarrySmall(carry: nat, x: nat)
    requires carry <= 57 && x < 256
    ensures (carry + x * 58) / 256 <= 57
  {
  }

  lemma NextPow256(n: nat)
    ensures Pow256(n + 1) == 256 * Pow256(n)
  {
  }

  lemma CarryTimes(cur: nat, q: nat, r: nat, p: nat)
    requires cur == 256 * q + r
    ensures r * p + q * (256 * p) == cur * p
  {
  }

  lemma Spread58(carry: nat, y: nat, p: nat)
    ensures (carry + y * 58) * p == carry * p + 58 * (y * p)
  {
  }

  /** Multiply the little-endian bytes by 58 and add a digit. */
  method MulAdd(acc0: seq<byte>, v: nat) returns (acc: seq<byte>)
    requires v < 58 && Trimmed(acc0)
    ensures Unle(acc) == 58 * Unle(acc0) + v && Trimmed(acc)
  {
    hide Unle, Pow256;
    acc := acc0;
    var carry: nat, k: nat := v, 0;
    NothingYet(acc0[..0], v);
    while k < |acc|
      invariant k <= |acc| == |acc0| && acc[k..] == acc0[k..] && carry <= 57
      invariant Unle(acc[..k]) + carry * Pow256(k) == 58 * Unle(acc0[..k]) + v
      invariant carry == 0 && k == |acc| && k > 0 ==> acc[k - 1] > 0
    {
      assert acc[k] == acc0[k];
      var x: int := acc[k];
      var cur := carry + x * 58;
      CarryOn(acc[..k], acc0[..k], acc0[k], carry, v, cur / 256, cur % 256);
      CarrySmall(carry, x);
      ghost var before := acc[..k];
      acc := acc[k := cur % 256];
      assert acc[..k + 1] == before + [cur % 256] && acc0[..k + 1] == acc0[..k] + [acc0[k]];
      carry := cur / 256;
      k := k + 1;
    }
    assert acc[..k] == acc && acc0[..k] == acc0;
    if carry > 0 {
      UnleSnoc(acc, carry);
      acc := acc + [carry];
    }
  }

  lemma NothingYet(none: seq<byte>, v: nat)
    requires none == []
    ensures Unle(none) + v * Pow256(0) == 58 * Unle(none) + v
  {
  }

  lemma {:induction false} ReversedMinimal(n: nat)
    ensures var r: seq<nat> := Reversed(MinimalLe(n)); r == Digits(n, 256)
  {
    if n > 0 {
      ReversedMinimal(n / 256);
      var s := MinimalLe(n);
      assert s[1..] == MinimalLe(n / 256);
      assert Reversed(s) == Reversed(s[1..]) + [s[0]];
      var rest: seq<nat> := Reversed(MinimalLe(n / 256));
      assert Digits(n, 256) == Digits(n / 256, 256) + [n % 256];
    }
  }

  /** The digits of the letters that have been read. */
  lemma OneMore(s: string, zeros: nat, i: nat)
    requires zeros <= i < |s| && OverAlphabet(s[zeros..i]) && IndexFrom(s[i], 0) >= 0
    ensures OverAlphabet(s[zeros..i + 1])
    ensures DigitsOf(s[zeros..i + 1]) == DigitsOf(s[zeros..i]) + [IndexFrom(s[i], 0)]
  {
    hide IndexFrom;
    assert s[zeros..i + 1] == s[zeros..i] + [s[i]];
  }

  /** The position of a letter in the alphabet, or -1. */
  method LetterIndex(c: char) returns (r: int)
    ensures r == IndexFrom(c, 0)
  {
    hide ALPHABET;
    AlphabetSize();
    var i := 0;
    while i < 58
      invariant i <= 58 && IndexFrom(c, 0) == IndexFrom(c, i)
    {
      if ALPHABET[i] == c { return i; }
      i := i + 1;
    }
    r := -1;
  }

  /** Decode: no result for a letter outside the alphabet. The bytes never outgrow what is reserved. */
  method Base58Decode(s: string) returns (r: Option<seq<byte>>)
    ensures r == Decode58(s)
  {
    hide IndexFrom, NumberIn, MinimalLe, Unle, Convert, Digits;
    var zeros := 0;
    FirstLetter();
    while zeros < |s| && s[zeros] == '1'
      invariant zeros <= |s| && forall j :: 0 <= j < zeros ==> s[j] == '1'
    {
      zeros := zeros + 1;
    }
    var payload := |s| - zeros;
    var acc: seq<byte> := [];
    var i := zeros;
    Begin(s[zeros..i]);
    while i < |s|
      invariant zeros <= i <= |s| && OverAlphabet(s[zeros..i])
      invariant Trimmed(acc) && Unle(acc) == NumberIn(DigitsOf(s[zeros..i]), 58)
      invariant |acc| <= Reserved(payload)
    {
      var v := LetterIndex(s[i]);
      if v < 0 { return None; }
      LetterInRange(s[i]);
      acc := MulAdd(acc, v);
      OneMore(s, zeros, i);
      ValueSnoc(DigitsOf(s[zeros..i]), v, 58);
      i := i + 1;
      TrimmedIsMinimal(acc);
      ReserveSuffices(DigitsOf(s[zeros..i]), payload);
    }
    assert s[zeros..i] == s[zeros..];
    TrimmedIsMinimal(acc);
    ReversedMinimal(Unle(acc));
    DecodedIs(s, zeros, acc);
    r := Some(ToBytes(Zeros(zeros)) + Reversed(acc));
  }

  lemma Begin(none: string)
    requires none == ""
    ensures OverAlphabet(none) && DigitsOf(none) == [] && NumberIn(DigitsOf(none), 58) == 0 && Unle([]) == 0
  {
  }

  lemma LetterInRange(c: char)
    ensures IndexFrom(c, 0) < 58
  {
  }

  lemma FirstLetter()
    ensures IndexFrom('1', 0) == 0 && forall c :: IndexFrom(c, 0) == 0 ==> c == '1'
  {
    IndexOfLetter(0);
    assert ALPHABET[0] == '1';
  }

  /** The letters read, and the zeros before them, are the whole text. */
  lemma DecodedIs(s: string, zeros: nat, acc: seq<byte>)
    requires zeros <= |s| && (forall j :: 0 <= j < zeros ==> s[j] == '1') && (zeros < |s| ==> s[zeros] != '1')
    requires OverAlphabet(s[zeros..]) && Unle(acc) == NumberIn(DigitsOf(s[zeros..]), 58)
    requires var r: seq<nat> := Reversed(acc); r == Digits(Unle(acc), 256)
    ensures Decode58(s) == Some(ToBytes(Zeros(zeros)) + Reversed(acc))
  {
    hide IndexFrom, NumberIn, Unle, Digits;
    FirstLetter();
    forall i | 0 <= i < |s| ensures IndexFrom(s[i], 0) >= 0 {
      if i >= zeros { assert s[i] == s[zeros..][i - zeros]; }
    }
    var ds := DigitsOf(s);
    assert ds == Zeros(zeros) + DigitsOf(s[zeros..]);
    var rest := DigitsOf(s[zeros..]);
    assert rest != [] ==> rest[0] > 0;
    ZerosCount(zeros, rest);
    ValueOfZeros(zeros, rest, 58);
    BytesJoin(zeros, Reversed(acc), Digits(Unle(acc), 256));
  }

  lemma BytesJoin(zeros: nat, bytes: seq<byte>, ds: seq<nat>)
    requires |bytes| == |ds| && AllBelow(ds, 256) && forall i :: 0 <= i < |ds| ==> bytes[i] == ds[i]
    ensures AllBelow(Zeros(zeros) + ds, 256) && ToBytes(Zeros(zeros) + ds) == ToBytes(Zeros(zeros)) + bytes
  {
  }

  // ---------------------------------------------------------------- encoding

  lemma DivideOn(q: nat, carry: nat, value: nat, x: nat)
    requires q * 58 + carry == value && carry < 58 && x < 256
    ensures var cur := carry * 256 + x;
            cur / 58 < 256 && (q * 256 + cur / 58) * 58 + cur % 58 == value * 256 + x
  {
  }

  /** Long division by 58 over the bytes, most significant first. */
  method DivideBy58(input0: seq<byte>) returns (input: seq<byte>, carry: nat)
    ensures |input| == |input0| && NumberIn(input0, 256) / 58 == NumberIn(input, 256) && NumberIn(input0, 256) % 58 == carry
  {
    hide NumberIn;
    input := input0;
    carry := 0;
    var k := 0;
    NothingValued(input[..0]);
    while k < |input|
      invariant k <= |input| == |input0| && input[k..] == input0[k..] && carry < 58
      invariant NumberIn(input[..k], 256) * 58 + carry == NumberIn(input0[..k], 256)
    {
      assert input[k] == input0[k];
      var x: int := input[k];
      var cur := carry * 256 + x;
      ghost var before := input[..k];
      DivideOn(NumberIn(before, 256), carry, NumberIn(input0[..k], 256), x);
      ValueSnoc(before, cur / 58, 256);
      ValueSnoc(input0[..k], x, 256);
      input := input[k := cur / 58];
      assert input[..k + 1] == before + [cur / 58] && input0[..k + 1] == input0[..k] + [input0[k]];
      carry := cur % 58;
      k := k + 1;
    }
    assert input[..k] == input && input0[..k] == input0;
    DivUnique(NumberIn(input0, 256), 58, NumberIn(input, 256), carry);
  }

  lemma NothingValued(none: seq<byte>)
    requires none == []
    ensures NumberIn(none, 256) == 0
  {
  }

  lemma {:induction false} ZeroValue(ds: seq<nat>, base: nat)
    requires base >= 2
    ensures NumberIn(ds, base) == 0 <==> forall i :: 0 <= i < |ds| ==> ds[i] == 0
    decreases |ds|
  {
    if ds != [] {
      var init := ds[..|ds| - 1];
      ZeroValue(init, base);
      ProductZero(NumberIn(init, base), base, ds[|ds| - 1]);
    }
  }

  lemma ProductZero(v: nat, base: nat, d: nat)
    requires base >= 2
    ensures v * base + d == 0 <==> v == 0 && d == 0
  {
  }

  method AllZero(input: seq<byte>) returns (r: bool)
    ensures r <==> NumberIn(input, 256) == 0
  {
    ZeroValue(input, 256);
    var k := 0;
    while k < |input|
      invariant k <= |input| && forall i :: 0 <= i < k ==> input[i] == 0
    {
      if input[k] != 0 { return false; }
      k := k + 1;
    }
    r := true;
  }

  /** The letters of the zeros and of the digits, last digit first. */
  method WriteLetters(zeros: nat, digits: seq<nat>) returns (out: string)
    requires AllBelow(digits, 58)
    ensures out == Letters(Zeros(zeros) + Reversed(digits))
  {
    hide ALPHABET;
    AlphabetSize();
    FirstLetter();
    out := seq(zeros, _ => '1');
    assert Zeros(zeros) + Reversed(digits)[..0] == Zeros(zeros);
    assert out == Letters(Zeros(zeros));
    var i := |digits|;
    while i > 0
      invariant 0 <= i <= |digits|
      invariant out == Letters(Zeros(zeros) + Reversed(digits)[..|digits| - i])
    {
      i := i - 1;
      ghost var back := Reversed(digits);
      assert back[..|digits| - i] == back[..|digits| - i - 1] + [digits[i]];
      out := out + [ALPHABET[digits[i]]];
    }
    assert Reversed(digits)[..|digits|] == Reversed(digits);
  }

  /** Encode: divide by 58 until nothing is left; the remainders are the digits, last one first. */
  method Base58Encode(bytes: seq<byte>) returns (s: string)
    ensures s == Encode58(bytes)
  {
    hide NumberIn, Digits, ALPHABET;
    if |bytes| == 0 {
      EmptyText(bytes);
      return "";
    }
    var zeros := 0;
    while zeros < |bytes| && bytes[zeros] == 0
      invariant zeros <= |bytes| && forall i :: 0 <= i < zeros ==> bytes[i] == 0
    {
      zeros := zeros + 1;
    }
    var input := bytes;
    var digits: seq<nat> := [];
    while true
      invariant AllBelow(digits, 58)
      invariant Digits(NumberIn(bytes, 256), 58) == Digits(NumberIn(input, 256), 58) + Reversed(digits)
      decreases NumberIn(input, 256)
    {
      var done := AllZero(input);
      if done { break; }
      ghost var v := NumberIn(input, 256);
      var carry;
      input, carry := DivideBy58(input);
      OneDigit(v);
      assert Reversed(digits + [carry]) == [carry] + Reversed(digits);
      digits := digits + [carry];
    }
    NoDigits();
    ZerosAre(bytes, zeros);
    s := WriteLetters(zeros, digits);
  }

  lemma EmptyText(bytes: seq<byte>)
    requires bytes == []
    ensures Encode58(bytes) == ""
  {
  }

  lemma OneDigit(v: nat)
    requires v > 0
    ensures Digits(v, 58) == Digits(v / 58, 58) + [v % 58] && v / 58 < v
  {
  }

  lemma NoDigits()
    ensures Digits(0, 58) == []
  {
  }

  lemma ZerosAre(bytes: seq<byte>, zeros: nat)
    requires zeros <= |bytes| && (forall i :: 0 <= i < zeros ==> bytes[i] == 0) && (zeros < |bytes| ==> bytes[zeros] != 0)
    ensures LeadingZeros(bytes) == zeros
  {
    assert LeadingZeros(bytes) >= zeros;
  }
}
