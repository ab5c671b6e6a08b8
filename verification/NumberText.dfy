/** Canonical JSON number strings: scanning them, building the number and printing it back
    (cpp/conformance/pjson_conformance_driver.cpp, lines 435-488, 1711-1770 and 2464-2507). */
module NumberText {
  import opened Base58
  import opened Wrappers
  import opened Pjson
  import opened PjsonNumbers
  import opened Powers

  // ---------------------------------------------------------------- the grammar

  predicate IsDigit(c: char) {
    '0' <= c <= '9'
  }

  predicate AllDigits(s: string) {
    forall i :: 0 <= i < |s| ==> IsDigit(s[i])
  }

  /** A sign, the digits before the point and those behind it. */
  datatype Number = Number(negative: bool, whole: string, frac: string)

  /** -?(0|[1-9][0-9]*)(\.[0-9]*[1-9])?, except -0. */
  predicate IsCanonical(n: Number) {
    && n.whole != "" && AllDigits(n.whole) && (n.whole[0] == '0' ==> |n.whole| == 1)
    && AllDigits(n.frac) && (n.frac != "" ==> n.frac[|n.frac| - 1] != '0')
    && !(n.negative && n.whole == "0" && n.frac == "")
  }

  function Sign(negative: bool): string {
    if negative then "-" else ""
  }

  function Fraction(frac: string): string {
    if frac == "" then "" else "." + frac
  }

  function Text(n: Number): string {
    Sign(n.negative) + n.whole + Fraction(n.frac)
  }

  /** The end of the run of digits that starts at i. */
  function DigitsEnd(s: string, i: nat): (e: nat)
    requires i <= |s|
    ensures i <= e <= |s| && (forall j :: i <= j < e ==> IsDigit(s[j])) && (e < |s| ==> !IsDigit(s[e]))
    decreases |s| - i
  {
    if i < |s| && IsDigit(s[i]) then DigitsEnd(s, i + 1) else i
  }

  /** The digits after the sign, read up to where they end. */
  function ScanEnd(s: string, start: nat): (end: nat)
    requires start < |s| && IsDigit(s[start])
    ensures start < end <= |s| && AllDigits(s[start..end]) && (s[start] == '0' ==> end == start + 1)
  {
    if s[start] == '0' then start + 1 else DigitsEnd(s, start + 1)
  }

  /** Read a string; no result if it is not a canonical number. */
  function Scan(s: string): Option<Number> {
    if s == "" then None
    else
      var negative := s[0] == '-';
      var start := if negative then 1 else 0;
      if start >= |s| || !IsDigit(s[start]) then None
      else
        var end := ScanEnd(s, start);
        var whole := s[start..end];
        if end < |s| && s[end] == '.' then
          var stop := DigitsEnd(s, end + 1);
          if stop == end + 1 || s[stop - 1] == '0' || stop != |s| then None
          else Some(Number(negative, whole, s[end + 1..stop]))
        else if end != |s| || (negative && whole == "0") then None
        else Some(Number(negative, whole, ""))
  }

  lemma Parts(s: string, start: nat, end: nat)
    requires start <= end <= |s|
    ensures s == s[..start] + s[start..end] + s[end..]
  {
  }

  lemma FractionIs(s: string, end: nat, frac: string)
    requires end < |s| && s[end] == '.' && frac == s[end + 1..] && frac != ""
    ensures s[end..] == Fraction(frac)
  {
  }

  lemma ScanFinds(s: string, n: Number)
    requires Scan(s) == Some(n)
    ensures IsCanonical(n) && s == Text(n)
  {
    hide DigitsEnd;
    var start := if s[0] == '-' then 1 else 0;
    var end := ScanEnd(s, start);
    Parts(s, start, end);
    assert s[..start] == Sign(n.negative);
    if end < |s| {
      FractionIs(s, end, n.frac);
    } else {
      assert s[end..] == "";
    }
  }

  lemma WholeEnds(s: string, start: nat, end: nat, whole: string)
    requires start < end <= |s| && s[start..end] == whole && AllDigits(whole) && (end < |s| ==> s[end] == '.')
    ensures DigitsEnd(s, start + 1) == end
  {
    forall j | start <= j < end ensures IsDigit(s[j]) { assert s[j] == whole[j - start]; }
  }

  lemma FracEnds(s: string, i: nat, frac: string)
    requires i <= |s| && s[i..] == frac && AllDigits(frac)
    ensures DigitsEnd(s, i) == |s|
  {
    forall j | i <= j < |s| ensures IsDigit(s[j]) { assert s[j] == frac[j - i]; }
  }

  lemma Joined(a: string, b: string, c: string, s: string)
    requires s == a + b + c
    ensures |a| + |b| <= |s| && s[..|a|] == a && s[|a|..|a| + |b|] == b && s[|a| + |b|..] == c
  {
  }

  lemma FractionParts(s: string, end: nat, frac: string)
    requires end <= |s| && s[end..] == Fraction(frac)
    ensures end < |s| <==> frac != ""
    ensures end < |s| ==> s[end] == '.' && s[end + 1..] == frac
  {
    if frac != "" {
      assert s[end] == s[end..][0];
      assert s[end + 1..] == s[end..][1..];
    }
  }

  lemma WholeScans(s: string, start: nat, end: nat, n: Number)
    requires IsCanonical(n) && start < end <= |s| && s[start..end] == n.whole && (end < |s| ==> s[end] == '.')
    ensures s[start] == n.whole[0] && IsDigit(s[start]) && ScanEnd(s, start) == end
  {
    hide DigitsEnd;
    assert s[start] == s[start..end][0];
    if s[start] != '0' { WholeEnds(s, start, end, n.whole); }
  }

  lemma SignIs(n: Number, s: string)
    requires IsCanonical(n) && s == Text(n)
    ensures s != "" && (s[0] == '-') == n.negative
  {
    if !n.negative { assert s[0] == n.whole[0]; }
  }

  /** The scanner's result from what it finds on the way. */
  lemma ScanBy(s: string, n: Number, start: nat, end: nat)
    requires s != "" && (s[0] == '-') == n.negative && start == (if n.negative then 1 else 0) && start < end <= |s|
    requires IsDigit(s[start]) && ScanEnd(s, start) == end && s[start..end] == n.whole
    requires if n.frac == "" then end == |s| && !(n.negative && n.whole == "0")
             else end < |s| && s[end] == '.' && DigitsEnd(s, end + 1) == |s| && s[|s| - 1] != '0' && s[end + 1..] == n.frac
    ensures Scan(s) == Some(n)
  {
    hide DigitsEnd, ScanEnd;
    if n.frac != "" { TailIs(s, end + 1); }
  }

  lemma TailIs(s: string, i: nat)
    requires i <= |s|
    ensures s[i..|s|] == s[i..]
  {
  }

  lemma ScanAccepts(n: Number)
    requires IsCanonical(n)
    ensures Scan(Text(n)) == Some(n)
  {
    var s := Text(n);
    var start := |Sign(n.negative)|;
    var end := start + |n.whole|;
    SignIs(n, s);
    Joined(Sign(n.negative), n.whole, Fraction(n.frac), s);
    hide DigitsEnd, ScanEnd, Text, Fraction, Scan;
    FractionParts(s, end, n.frac);
    WholeScans(s, start, end, n);
    if n.frac != "" {
      FracEnds(s, end + 1, n.frac);
      assert s[|s| - 1] == s[end + 1..][|n.frac| - 1];
    }
    ScanBy(s, n, start, end);
  }

  /** The scanner accepts exactly the texts of canonical numbers, and finds their parts. */
  lemma ScanIsExact(s: string, n: Number)
    ensures Scan(s) == Some(n) <==> IsCanonical(n) && s == Text(n)
  {
    hide Scan, IsCanonical, Text;
    if Scan(s) == Some(n) { ScanFinds(s, n); }
    if IsCanonical(n) && s == Text(n) { ScanAccepts(n); }
  }

  // ---------------------------------------------------------------- numbers from digits, digits from numbers

  function DigitValues(s: string): (ds: seq<nat>)
    requires AllDigits(s)
    ensures |ds| == |s| && AllBelow(ds, 10)
  {
    seq(|s|, i requires 0 <= i < |s| => s[i] as int - '0' as int)
  }

  function DigitChars(ds: seq<nat>): (s: string)
    requires AllBelow(ds, 10)
    ensures |s| == |ds| && AllDigits(s)
  {
    seq(|ds|, i requires 0 <= i < |ds| => ('0' as int + ds[i]) as char)
  }

  lemma CharsOfValues(s: string)
    requires AllDigits(s)
    ensures DigitChars(DigitValues(s)) == s
  {
  }

  lemma ValuesOfChars(ds: seq<nat>)
    requires AllBelow(ds, 10)
    ensures DigitValues(DigitChars(ds)) == ds
  {
  }

  function FromDecimal(s: string): nat
    requires AllDigits(s)
  {
    NumberIn(DigitValues(s), 10)
  }

  /** A number in decimal, without zeros in front. */
  function ToDecimal(n: nat): (s: string)
    ensures s != "" && AllDigits(s)
  {
    if n == 0 then "0" else DigitChars(Digits(n, 10))
  }

  lemma FromToDecimal(n: nat)
    ensures FromDecimal(ToDecimal(n)) == n
  {
    if n == 0 {
      assert DigitValues("0") == [0];
      assert [0][..0] == [];
    } else {
      ValuesOfChars(Digits(n, 10));
      ValueDigits(n, 10);
    }
  }

  /** Digits without a zero in front are printed back. */
  lemma ToFromDecimal(s: string)
    requires AllDigits(s) && s != "" && s[0] != '0'
    ensures FromDecimal(s) > 0 && ToDecimal(FromDecimal(s)) == s
  {
    ValuePositive(DigitValues(s), 10);
    DigitsValue(DigitValues(s), 10);
    CharsOfValues(s);
  }

  // ---------------------------------------------------------------- building and printing

  /** All digits of the number, read as one integer. */
  function Magnitude(n: Number): nat
    requires IsCanonical(n)
  {
    FromDecimal(n.whole + n.frac)
  }

  /** The value of a canonical number: two 64-bit words hold the magnitude, whatever it is. */
  function Build(n: Number): Value
    requires IsCanonical(n)
  {
    var mag := Magnitude(n) % TWO_128;
    if n.frac == "" then if n.negative then NegInt(mag) else Uint(mag)
    else Decimal(Signed(if n.negative then (TWO_128 - mag) % TWO_128 else mag, TWO_128), -|n.frac|)
  }

  function Repeated(c: char, n: nat): (s: string)
    ensures |s| == n && forall i :: 0 <= i < n ==> s[i] == c
  {
    seq(n, _ => c)
  }

  function FormatDecimal(m: int, scale: int): string {
    var mag := ToDecimal(Abs(m));
    if scale >= 0 then Sign(m < 0) + mag + Repeated('0', scale)
    else if -scale < |mag| then Sign(m < 0) + mag[..|mag| + scale] + "." + mag[|mag| + scale..]
    else Sign(m < 0) + "0." + Repeated('0', -scale - |mag|) + mag
  }

  function Print(v: Value): string
    requires v.Uint? || v.NegInt? || v.Decimal?
  {
    match v
    case Uint(n) => ToDecimal(n)
    case NegInt(m) => "-" + ToDecimal(m)
    case Decimal(m, s) => FormatDecimal(m, s)
  }

  /** The magnitude fits: 128 bits for an integer, a signed 128-bit mantissa otherwise. */
  predicate Fits(n: Number)
    requires IsCanonical(n)
  {
    if n.frac == "" then Magnitude(n) < TWO_128
    else if n.negative then Magnitude(n) <= TWO_127
    else Magnitude(n) < TWO_127
  }

  lemma WholePrints(n: Number)
    requires IsCanonical(n) && n.frac == ""
    ensures ToDecimal(Magnitude(n)) == n.whole
  {
    assert n.whole + n.frac == n.whole;
    if n.whole[0] == '0' {
      assert n.whole == "0" && DigitValues("0") == [0] && [0][..0] == [];
    } else {
      ToFromDecimal(n.whole);
    }
  }

  /** The zeros in front of a text of digits do not count. */
  lemma FrontZeros(s: string, zeros: nat)
    requires AllDigits(s) && zeros < |s| && (forall i :: 0 <= i < zeros ==> s[i] == '0') && s[zeros] != '0'
    ensures ToDecimal(FromDecimal(s)) == s[zeros..] && FromDecimal(s) > 0
  {
    var ds := DigitValues(s);
    assert ds == Zeros(zeros) + DigitValues(s[zeros..]);
    ValueOfZeros(zeros, DigitValues(s[zeros..]), 10);
    ToFromDecimal(s[zeros..]);
  }

  /** Where the first digit that is not zero stands. */
  function FirstNonZero(s: string): (i: nat)
    requires s != "" && s[|s| - 1] != '0'
    ensures i < |s| && s[i] != '0' && forall j :: 0 <= j < i ==> s[j] == '0'
  {
    if s[0] != '0' then 0 else 1 + FirstNonZero(s[1..])
  }

  lemma FormatInside(m: int, whole: string, frac: string)
    requires ToDecimal(Abs(m)) == whole + frac && whole != "" && frac != ""
    ensures FormatDecimal(m, -|frac|) == Sign(m < 0) + whole + Fraction(frac)
  {
    hide ToDecimal;
    var mag := ToDecimal(Abs(m));
    assert mag[..|whole|] == whole && mag[|whole|..] == frac;
  }

  lemma FormatBelow(m: int, frac: string)
    requires |ToDecimal(Abs(m))| <= |frac| && frac == Repeated('0', |frac| - |ToDecimal(Abs(m))|) + ToDecimal(Abs(m))
    ensures FormatDecimal(m, -|frac|) == Sign(m < 0) + "0" + Fraction(frac)
  {
    hide ToDecimal, Repeated;
    assert "0." == "0" + ".";
  }

  /** The signed integer of all digits. */
  function SignedMagnitude(n: Number): int
    requires IsCanonical(n)
  {
    var mag: int := Magnitude(n);
    if n.negative then -mag else mag
  }

  lemma FractionPrints(n: Number)
    requires IsCanonical(n) && n.frac != ""
    ensures Magnitude(n) > 0 && FormatDecimal(SignedMagnitude(n), -|n.frac|) == Text(n)
  {
    hide ToDecimal, FromDecimal, FormatDecimal, FirstNonZero;
    var all := n.whole + n.frac;
    assert all[|all| - 1] == n.frac[|n.frac| - 1];
    var z := FirstNonZero(all);
    FrontZeros(all, z);
    var m := SignedMagnitude(n);
    if n.whole[0] != '0' {
      assert z == 0 by { assert all[0] == n.whole[0]; }
      assert all[z..] == all;
      FormatInside(m, n.whole, n.frac);
    } else {
      assert n.whole == "0";
      assert z >= 1 by { assert all[0] == '0'; }
      ZerosThen(all, n.frac, z);
      FormatBelow(m, n.frac);
    }
  }

  lemma ZerosThen(all: string, frac: string, z: nat)
    requires all == "0" + frac && 1 <= z < |all| && forall j :: 0 <= j < z ==> all[j] == '0'
    ensures frac == Repeated('0', z - 1) + all[z..] && |all[z..]| == |frac| - (z - 1)
  {
    assert forall j :: 0 <= j < z - 1 ==> frac[j] == all[j + 1];
  }

  lemma FittingPrintsBack(n: Number)
    requires IsCanonical(n) && Fits(n)
    ensures Print(Build(n)) == Text(n)
  {
    hide FormatDecimal, ToDecimal, FromDecimal;
    if n.frac == "" {
      WholePrints(n);
    } else {
      FractionPrints(n);
    }
  }

  // ---------------------------------------------------------------- numbers that do not fit

  /** The digits in a text, whatever else is in it. */
  function DigitsIn(s: string): (ds: seq<nat>)
    ensures AllBelow(ds, 10)
  {
    if s == "" then []
    else
      var rest := DigitsIn(s[..|s| - 1]);
      if IsDigit(s[|s| - 1]) then rest + [s[|s| - 1] as int - '0' as int] else rest
  }

  lemma {:induction false} DigitsInJoin(s: string, t: string)
    ensures DigitsIn(s + t) == DigitsIn(s) + DigitsIn(t)
    decreases |t|
  {
    if t == "" {
      assert s + t == s;
    } else {
      DigitsInJoin(s, t[..|t| - 1]);
      assert (s + t)[..|s + t| - 1] == s + t[..|t| - 1];
    }
  }

  lemma {:induction false} DigitsInDigits(s: string)
    requires AllDigits(s)
    ensures DigitsIn(s) == DigitValues(s)
    decreases |s|
  {
    if s != "" { DigitsInDigits(s[..|s| - 1]); }
  }

  lemma NoDigits(s: string)
    requires s == "" || s == "-" || s == "."
    ensures DigitsIn(s) == []
  {
    if s != "" { assert s[..|s| - 1] == ""; }
  }

  /** The digits of a text, read as one number. */
  function NumberInText(s: string): nat {
    NumberIn(DigitsIn(s), 10)
  }

  lemma SignedDigits(negative: bool, s: string)
    ensures DigitsIn(Sign(negative) + s) == DigitsIn(s)
  {
    NoDigits(Sign(negative));
    DigitsInJoin(Sign(negative), s);
  }

  lemma PointedDigits(whole: string, frac: string)
    ensures DigitsIn(whole + "." + frac) == DigitsIn(whole) + DigitsIn(frac)
  {
    NoDigits(".");
    DigitsInJoin(whole + ".", frac);
    DigitsInJoin(whole, ".");
  }

  lemma TextNumber(n: Number)
    requires IsCanonical(n)
    ensures NumberInText(Text(n)) == Magnitude(n)
  {
    hide DigitsIn;
    var sign, whole, frac := Sign(n.negative), n.whole, n.frac;
    DigitsInDigits(whole + frac);
    DigitsInJoin(whole, frac);
    if frac == "" {
      assert whole + frac == whole && Text(n) == sign + whole;
      SignedDigits(n.negative, whole);
    } else {
      PointedDigits(whole, frac);
      assert Text(n) == sign + (whole + "." + frac);
      SignedDigits(n.negative, whole + "." + frac);
    }
  }

  lemma {:induction false} ZeroDigits(s: string)
    requires forall i :: 0 <= i < |s| ==> s[i] == '0'
    ensures DigitsIn(s) == Zeros(|s|)
    decreases |s|
  {
    if s != "" {
      ZeroDigits(s[..|s| - 1]);
      assert Zeros(|s|) == Zeros(|s| - 1) + [0];
    } else {
      assert Zeros(0) == [];
    }
  }

  lemma DecimalDigits(n: nat)
    ensures NumberIn(DigitsIn(ToDecimal(n)), 10) == n
  {
    DigitsInDigits(ToDecimal(n));
    FromToDecimal(n);
  }

  /** The digits printed are those of the magnitude. */
  lemma FormatNumber(m: int, scale: int)
    requires scale < 0
    ensures NumberInText(FormatDecimal(m, scale)) == Abs(m)
  {
    hide DigitsIn, ToDecimal, NumberIn;
    var mag := ToDecimal(Abs(m));
    DecimalDigits(Abs(m));
    if -scale < |mag| {
      var dot := |mag| + scale;
      PointedDigits(mag[..dot], mag[dot..]);
      DigitsInJoin(mag[..dot], mag[dot..]);
      assert mag[..dot] + mag[dot..] == mag;
      assert FormatDecimal(m, scale) == Sign(m < 0) + (mag[..dot] + "." + mag[dot..]);
      SignedDigits(m < 0, mag[..dot] + "." + mag[dot..]);
    } else {
      var zeros := Repeated('0', -scale - |mag|);
      ZerosInFront(zeros, mag);
      assert FormatDecimal(m, scale) == Sign(m < 0) + ("0" + "." + (zeros + mag));
      SignedDigits(m < 0, "0" + "." + (zeros + mag));
    }
  }

  lemma ZerosInFront(zeros: string, mag: string)
    requires forall i :: 0 <= i < |zeros| ==> zeros[i] == '0'
    ensures NumberIn(DigitsIn("0" + "." + (zeros + mag)), 10) == NumberIn(DigitsIn(mag), 10)
  {
    hide DigitsIn, NumberIn;
    PointedDigits("0", zeros + mag);
    DigitsInJoin(zeros, mag);
    ZeroDigits("0");
    ZeroDigits(zeros);
    assert Zeros(1) + (Zeros(|zeros|) + DigitsIn(mag)) == Zeros(1 + |zeros|) + DigitsIn(mag);
    ValueOfZeros(1 + |zeros|, DigitsIn(mag), 10);
  }

  lemma FormatSign(m: int, scale: int)
    requires scale < 0
    ensures FormatDecimal(m, scale) != "" && ((FormatDecimal(m, scale)[0] == '-') == (m < 0))
  {
    hide ToDecimal;
    var mag := ToDecimal(Abs(m));
    assert IsDigit(mag[0]);
    if m >= 0 && -scale < |mag| {
      var dot := |mag| + scale;
      assert FormatDecimal(m, scale)[0] == mag[..dot][0];
    }
  }

  lemma WholeNumberPrinted(n: Number)
    requires IsCanonical(n) && n.frac == "" && Print(Build(n)) == Text(n)
    ensures Fits(n)
  {
    hide DigitsIn, ToDecimal, NumberIn, FromDecimal;
    TextNumber(n);
    var mag := Magnitude(n) % TWO_128;
    DecimalDigits(mag);
    SignedDigits(n.negative, ToDecimal(mag));
    assert Print(Build(n)) == Sign(n.negative) + ToDecimal(mag);
  }

  lemma FractionPrinted(n: Number)
    requires IsCanonical(n) && n.frac != "" && Print(Build(n)) == Text(n)
    ensures Fits(n)
  {
    hide DigitsIn, ToDecimal, NumberIn, FromDecimal, FormatDecimal;
    TextNumber(n);
    SignIs(n, Text(n));
    var m := Build(n).mantissa;
    FormatNumber(m, -|n.frac|);
    FormatSign(m, -|n.frac|);
  }

  /** A canonical number is printed back exactly when its magnitude fits; the scanner does not test it. */
  lemma PrintsBackIffFits(n: Number)
    requires IsCanonical(n)
    ensures Print(Build(n)) == Text(n) <==> Fits(n)
  {
    hide Print, Text, Fits;
    if Fits(n) { FittingPrintsBack(n); }
    if Print(Build(n)) == Text(n) {
      if n.frac == "" { WholeNumberPrinted(n); } else { FractionPrinted(n); }
    }
  }

  /** Integers too large for 128 bits are scanned, and printed modulo 2^128: 2^128 itself as 0. */
  lemma LargeIntegersWrap(m: nat, n: Number)
    requires m > 0 && n == Number(false, ToDecimal(m), "")
    ensures IsCanonical(n) && Scan(Text(n)) == Some(n) && Print(Build(n)) == ToDecimal(m % TWO_128)
    ensures m == TWO_128 ==> Print(Build(n)) == "0"
  {
    hide Scan, Text, NumberIn;
    var ds := Digits(m, 10);
    assert n.whole[0] as int == '0' as int + ds[0];
    ScanAccepts(n);
    FromToDecimal(m);
    assert n.whole + n.frac == n.whole;
  }
}
