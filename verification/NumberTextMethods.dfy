/** The number-string loops as they run, over two 64-bit words
    (cpp/conformance/pjson_conformance_driver.cpp, lines 435-488, 1711-1740 and 2464-2492). */
module NumberTextMethods {
  import opened Base58
  import opened NumberText
  import opened PjsonNumbers
  import opened Powers

  const WORD := 0x1_0000_0000_0000_0000
  const HALF := 0x1_0000_0000

  // ---------------------------------------------------------------- scanning

  method SkipDigits(s: string, i0: nat) returns (i: nat)
    requires i0 <= |s|
    ensures i == DigitsEnd(s, i0)
  {
    i := i0;
    while i < |s| && IsDigit(s[i])
      invariant i0 <= i <= |s| && DigitsEnd(s, i) == DigitsEnd(s, i0)
    {
      i := i + 1;
    }
  }

  /** Scan a number string into its mantissa digits, with the sign, and its scale. */
  method ScanNumber(s: string) returns (ok: bool, mantissa: string, scale: int)
    ensures ok <==> Scan(s).Some?
    ensures ok ==> var n := Scan(s).value; mantissa == Sign(n.negative) + n.whole + n.frac && scale == -|n.frac|
  {
    hide DigitsEnd, AllDigits;
    if |s| == 0 { return false, "", 0; }
    var i := 0;
    var negative := s[i] == '-';
    if negative { i := i + 1; }
    if i >= |s| { return false, "", 0; }
    var intStart := i;
    if s[i] == '0' {
      i := i + 1;
    } else if '1' <= s[i] <= '9' {
      i := SkipDigits(s, i + 1);
    } else {
      return false, "", 0;
    }
    var intEnd := i;
    var fracStart, fracEnd := i, i;
    if i < |s| && s[i] == '.' {
      fracStart := i + 1;
      fracEnd := SkipDigits(s, fracStart);
      i := fracEnd;
      if fracEnd == fracStart { return false, "", 0; }
      if s[fracEnd - 1] == '0' { return false, "", 0; }
    }
    if i != |s| { return false, "", 0; }
    if negative && intEnd - intStart == 1 && s[intStart] == '0' && fracStart == fracEnd {
      assert s[intStart..intEnd] == "0";
      return false, "", 0;
    }
    mantissa := if negative then "-" else "";
    mantissa := mantissa + s[intStart..intEnd];
    if fracEnd > fracStart {
      mantissa := mantissa + s[fracStart..fracEnd];
      scale := -(fracEnd - fracStart);
    } else {
      scale := 0;
    }
    ok := true;
  }

  // ---------------------------------------------------------------- digits to a number

  lemma HighWord(x: nat, over: nat)
    requires over <= 1
    ensures (x + over) % WORD == if over == 1 then (x % WORD + 1) % WORD else x % WORD
  {
  }

  lemma TopDrops(all: nat, sum: nat)
    requires sum < WORD
    ensures (all * WORD + sum) % (WORD * WORD) == all % WORD * WORD + sum
  {
    var q, r := all / WORD, all % WORD;
    DivUnique(all * WORD + sum, WORD * WORD, q, r * WORD + sum);
  }

  lemma LowWord(lo: nat, d: nat)
    requires lo < WORD && d < 10
    ensures var low, carry := lo * 10 % WORD, lo * 10 / WORD; var sum := (low + d) % WORD;
            lo * 10 + d == (carry + if sum < low then 1 else 0) * WORD + sum
  {
  }

  /** One digit more: the carry of the low word goes into the high one, whose own is lost. */
  lemma WordsTimesTen(hi: nat, lo: nat, d: nat)
    requires hi < WORD && lo < WORD && d < 10
    ensures var low := lo * 10 % WORD; var carry := lo * 10 / WORD; var sum := (low + d) % WORD;
            var high := (hi * 10 + carry) % WORD; var high' := if sum < low then (high + 1) % WORD else high;
            high' * WORD + sum == ((hi * WORD + lo) * 10 + d) % (WORD * WORD)
  {
    var low, carry := lo * 10 % WORD, lo * 10 / WORD;
    var sum := (low + d) % WORD;
    var over := if sum < low then 1 else 0;
    LowWord(lo, d);
    HighWord(hi * 10 + carry, over);
    TopDrops(hi * 10 + carry + over, sum);
    assert (hi * WORD + lo) * 10 + d == (hi * 10 + carry + over) * WORD + sum;
  }

  lemma ModStep(n: nat, d: nat, m: nat)
    requires m > 0
    ensures (n % m * 10 + d) % m == (n * 10 + d) % m
  {
    var q, r := n / m, n % m;
    assert n == q * m + r;
    var q', r' := (r * 10 + d) / m, (r * 10 + d) % m;
    assert n * 10 + d == (q * 10 + q') * m + r';
    DivUnique(n * 10 + d, m, q * 10 + q', r');
  }

  /** Decimal digits to a 128-bit number, without a test for overflow. */
  method U128FromDigits(digits: string) returns (hi: nat, lo: nat)
    requires AllDigits(digits)
    ensures hi < WORD && lo < WORD && hi * WORD + lo == FromDecimal(digits) % TWO_128
  {
    hide NumberIn, DigitValues;
    hi, lo := 0, 0;
    var i := 0;
    NoDigitsYet(digits[..0]);
    while i < |digits|
      invariant i <= |digits| && hi < WORD && lo < WORD
      invariant hi * WORD + lo == FromDecimal(digits[..i]) % TWO_128
    {
      var d := digits[i] as int - '0' as int;
      WordsTimesTen(hi, lo, d);
      ModStep(FromDecimal(digits[..i]), d, TWO_128);
      NextValue(digits, i, d);
      var loOld := lo;
      lo := lo * 10 % WORD;
      var carry := loOld * 10 / WORD;
      hi := (hi * 10 + carry) % WORD;
      var before := lo;
      lo := (lo + d) % WORD;
      if lo < before { hi := (hi + 1) % WORD; }
      i := i + 1;
    }
    assert digits[..i] == digits;
  }

  lemma NextValue(digits: string, i: nat, d: nat)
    requires AllDigits(digits) && i < |digits| && d == digits[i] as int - '0' as int
    ensures FromDecimal(digits[..i + 1]) == FromDecimal(digits[..i]) * 10 + d
  {
    hide NumberIn;
    assert DigitValues(digits[..i + 1]) == DigitValues(digits[..i]) + [d];
    ValueSnoc(DigitValues(digits[..i]), d, 10);
  }

  lemma NoDigitsYet(none: string)
    requires none == ""
    ensures FromDecimal(none) == 0
  {
  }

  // ---------------------------------------------------------------- a number to digits

  /** Divide r * 2^64 + w by ten in two halves of 32 bits. */
  method DivideWord(r: nat, w: nat) returns (q: nat, rest: nat)
    requires r < 10 && w < WORD
    ensures q < WORD && rest < 10 && r * WORD + w == q * 10 + rest
  {
    var highPart := r * HALF + w / HALF;
    var highQ, highR := highPart / 10, highPart % 10;
    var lowPart := highR * HALF + w % HALF;
    var lowQ, lowR := lowPart / 10, lowPart % 10;
    q, rest := highQ * HALF + lowQ, lowR;
  }

  /** The decimal text of hi * 2^64 + lo, by long division with two words. */
  method U128ToDecimal(hi0: nat, lo0: nat) returns (text: string)
    requires hi0 < WORD && lo0 < WORD
    ensures text == ToDecimal(hi0 * WORD + lo0)
  {
    hide Digits, DigitChars, Reversed;
    if hi0 == 0 && lo0 == 0 { return "0"; }
    var hi: nat, lo: nat := hi0, lo0;
    var out: string := "";
    ghost var done: seq<nat> := [];
    NothingReversed(done);
    ghost var n := hi0 * WORD + lo0;
    while !(hi == 0 && lo == 0)
      invariant hi < WORD && lo < WORD && AllBelow(done, 10) && out == Reversed(DigitChars(done))
      invariant Digits(n, 10) == Digits(hi * WORD + lo, 10) + done
      decreases hi * WORD + lo
    {
      ghost var before := hi * WORD + lo;
      var r;
      hi, r := DivideWord(0, hi);
      lo, r := DivideWord(r, lo);
      TenTimes(before, hi * WORD + lo, r);
      NextDigit(before, hi * WORD + lo, r, done, out);
      out := out + [('0' as int + r) as char];
      done := [r] + done;
    }
    NoMoreDigits();
    assert [] + done == done;
    ReversedTwice(DigitChars(done));
    text := Reversed(out);
  }

  lemma TenTimes(n: nat, q: nat, r: nat)
    requires n > 0 && n == q * 10 + r && r < 10
    ensures n / 10 == q && n % 10 == r && q < n
  {
  }

  lemma NextDigit(n: nat, q: nat, r: nat, done: seq<nat>, out: string)
    requires n > 0 && n / 10 == q && n % 10 == r && AllBelow(done, 10) && out == Reversed(DigitChars(done))
    ensures Digits(n, 10) + done == Digits(q, 10) + ([r] + done)
    ensures AllBelow([r] + done, 10) && out + [('0' as int + r) as char] == Reversed(DigitChars([r] + done))
  {
    assert Digits(n, 10) == Digits(q, 10) + [r];
  }

  lemma NothingReversed(none: seq<nat>)
    requires none == []
    ensures Reversed(DigitChars(none)) == ""
  {
  }

  lemma NoMoreDigits()
    ensures Digits(0, 10) == []
  {
  }

  lemma ReversedTwice(s: string)
    ensures Reversed(Reversed(s)) == s
  {
  }
}
