/** What encoding keeps of a value: everything but the sign and the payload of a NaN
    (cpp/conformance/pjson_conformance_driver.cpp, lines 547-592). */
module PjsonNaNs {
  import opened ByteStrings
  import opened Pjson
  import opened PjsonDecode
  import opened PjsonRoundTrip
  import opened Powers
  import opened Wrappers

  // ---------------------------------------------------------------- one float

  /** The highest bit of a float of 2, 4, 8 or 16 bytes, its infinity and its quiet NaN. */
  function SignOf(w: nat): (n: nat)
    requires 1 <= w <= 4
    ensures n > 0
  {
    if w == 1 then 0x8000 else if w == 2 then 0x8000_0000 else if w == 3 then 0x8000_0000_0000_0000
    else 0x8000_0000_0000_0000_0000_0000_0000_0000
  }

  function InfinityOf(w: nat): nat
    requires 1 <= w <= 4
  {
    if w == 1 then 0x7C00 else if w == 2 then 0x7F80_0000 else if w == 3 then 0x7FF0_0000_0000_0000
    else 0x7FFF_0000_0000_0000_0000_0000_0000_0000
  }

  function QuietNaN(w: nat): nat
    requires 1 <= w <= 4
  {
    if w == 1 then 0x7E00 else if w == 2 then 0x7FC0_0000 else if w == 3 then 0x7FF8_0000_0000_0000
    else 0x7FFF_8000_0000_0000_0000_0000_0000_0000
  }

  /** Without its sign the float lies above infinity. */
  predicate AboveInfinity(w: nat, bits: nat)
    requires 1 <= w <= 4
  {
    bits % SignOf(w) > InfinityOf(w)
  }

  /** Dividing by a and then taking k residues leaves the residue by a * k apart. */
  lemma FieldAndRest(n: nat, a: nat, k: nat)
    requires a > 0 && k > 0
    ensures a * k > 0 && n % (a * k) == n / a % k * a + n % a
  {
    MulPositive(a, k);
    var q := n / a / k;
    assert n / a == q * k + n / a % k;
    assert n == n / a * a + n % a;
    assert q * k * a == q * (a * k);
    assert n / a % k * a <= (k - 1) * a;
    DivUnique(n, a * k, q, n / a % k * a + n % a);
  }

  /** Numbers of two digits in order: the upper digit at its highest and the lower one positive. */
  lemma TopDigit(x: nat, a: nat, k: nat, r: nat)
    requires x < k && r < a
    ensures x * a + r > (k - 1) * a <==> x == k - 1 && r != 0
  {
    if x < k - 1 { MulMono(x + 1, k - 1, a); }
  }

  /** The test of the fields is a comparison with infinity. */
  lemma NaNIff(w: nat, bits: nat)
    requires 1 <= w <= 4
    ensures IsNaN(w, bits) <==> AboveInfinity(w, bits)
    ensures CanonicalNaN(w, bits) == if AboveInfinity(w, bits) then QuietNaN(w) else bits
  {
    var a, k := MantissaRange(w), ExponentOnes(w) + 1;
    FieldAndRest(bits, a, k);
    TopDigit(bits / a % k, a, k, bits % a);
  }

  // ---------------------------------------------------------------- whole values

  /** The same value, except that one NaN may stand for another of its width. */
  predicate SameButNaNs(v: Value, u: Value) {
    match v
    case Float(w, bits) =>
      v == u || (1 <= w <= 4 && u.Float? && u.width == w && AboveInfinity(w, bits) && AboveInfinity(w, u.bits))
    case Array(children) => u.Array? && AllSame(children, u.children)
    case Object(entries) =>
      && u.Object? && |entries| == |u.entries|
      && forall i :: 0 <= i < |entries| ==>
           entries[i].key == u.entries[i].key && SameButNaNs(entries[i].value, u.entries[i].value)
    case RowArray(keys, rows) =>
      && u.RowArray? && keys == u.keys && |rows| == |u.rows|
      && forall i :: 0 <= i < |rows| ==> AllSame(rows[i].cells, u.rows[i].cells)
    case NumericString(inner) => u.NumericString? && SameButNaNs(inner, u.inner)
    case _ => v == u
  }

  predicate AllSame(vs: seq<Value>, us: seq<Value>) {
    |vs| == |us| && forall i :: 0 <= i < |vs| ==> SameButNaNs(vs[i], us[i])
  }

  /** Every NaN in the value is the quiet one of its width. */
  predicate AllQuiet(v: Value) {
    match v
    case Float(w, bits) => 1 <= w <= 4 && AboveInfinity(w, bits) ==> bits == QuietNaN(w)
    case Array(children) => forall c :: c in children ==> AllQuiet(c)
    case Object(entries) => forall e :: e in entries ==> AllQuiet(e.value)
    case RowArray(_, rows) => forall r :: r in rows ==> forall c :: c in r.cells ==> AllQuiet(c)
    case NumericString(inner) => AllQuiet(inner)
    case _ => true
  }

  lemma {:induction false} CanonicalAt(vs: seq<Value>, i: nat)
    requires i < |vs|
    ensures CanonicalAll(vs)[i] == Canonical(vs[i])
  {
    if i > 0 { CanonicalAt(vs[1..], i - 1); }
  }

  lemma {:induction false} CanonicalEntryAt(es: seq<Entry>, i: nat)
    requires i < |es|
    ensures CanonicalEntries(es)[i] == Entry(es[i].key, Canonical(es[i].value))
  {
    if i > 0 { CanonicalEntryAt(es[1..], i - 1); }
  }

  lemma {:induction false} CanonicalRowAt(rows: seq<Row>, i: nat)
    requires i < |rows|
    ensures CanonicalRows(rows)[i] == Row(CanonicalAll(rows[i].cells))
  {
    if i > 0 { CanonicalRowAt(rows[1..], i - 1); }
  }

  lemma ListIff(vs: seq<Value>, us: seq<Value>)
    requires |vs| == |us| ==> forall i :: 0 <= i < |vs| ==> (SameButNaNs(vs[i], us[i]) <==> Canonical(vs[i]) == Canonical(us[i]))
    ensures AllSame(vs, us) <==> CanonicalAll(vs) == CanonicalAll(us)
  {
    hide SameButNaNs, Canonical, CanonicalAll;
    if |vs| == |us| {
      forall i | 0 <= i < |vs|
        ensures CanonicalAll(vs)[i] == Canonical(vs[i]) && CanonicalAll(us)[i] == Canonical(us[i])
      {
        CanonicalAt(vs, i);
        CanonicalAt(us, i);
      }
    }
  }

  lemma EntriesIff(es: seq<Entry>, fs: seq<Entry>)
    requires |es| == |fs| ==> forall i :: 0 <= i < |es| ==>
               (SameButNaNs(es[i].value, fs[i].value) <==> Canonical(es[i].value) == Canonical(fs[i].value))
    ensures SameButNaNs(Object(es), Object(fs)) <==> CanonicalEntries(es) == CanonicalEntries(fs)
  {
    hide Canonical, CanonicalEntries;
    if |es| == |fs| {
      forall i | 0 <= i < |es|
        ensures CanonicalEntries(es)[i] == Entry(es[i].key, Canonical(es[i].value))
        ensures CanonicalEntries(fs)[i] == Entry(fs[i].key, Canonical(fs[i].value))
      {
        CanonicalEntryAt(es, i);
        CanonicalEntryAt(fs, i);
      }
    }
  }

  lemma RowsIff(keys: seq<seq<byte>>, xs: seq<Row>, ys: seq<Row>)
    requires |xs| == |ys| ==> forall i :: 0 <= i < |xs| ==>
               (AllSame(xs[i].cells, ys[i].cells) <==> CanonicalAll(xs[i].cells) == CanonicalAll(ys[i].cells))
    ensures SameButNaNs(RowArray(keys, xs), RowArray(keys, ys)) <==> CanonicalRows(xs) == CanonicalRows(ys)
  {
    hide CanonicalRows, CanonicalAll, AllSame;
    if |xs| == |ys| {
      forall i | 0 <= i < |xs|
        ensures CanonicalRows(xs)[i] == Row(CanonicalAll(xs[i].cells))
        ensures CanonicalRows(ys)[i] == Row(CanonicalAll(ys[i].cells))
      {
        CanonicalRowAt(xs, i);
        CanonicalRowAt(ys, i);
      }
    }
  }

  /** Two values have the same canonical form exactly when they are the same but for their NaNs. */
  lemma {:induction false} SameIff(v: Value, u: Value)
    ensures SameButNaNs(v, u) <==> Canonical(v) == Canonical(u)
    decreases v, 1
  {
    hide CanonicalNaN, AboveInfinity, AllSame, CanonicalAll, CanonicalEntries, CanonicalRows;
    match v
    case Float(w, bits) => if u.Float? { FloatSameIff(w, bits, u.width, u.bits); }
    case Array(children) => if u.Array? { AllSameIff(children, u.children); }
    case Object(entries) => if u.Object? { EntriesSameIff(entries, u.entries); }
    case RowArray(keys, rows) => if u.RowArray? { RowsSameIff(keys, rows, u.rows); }
    case NumericString(inner) => if u.NumericString? { SameIff(inner, u.inner); }
    case _ =>
  }

  lemma {:induction false} AllSameIff(vs: seq<Value>, us: seq<Value>)
    ensures AllSame(vs, us) <==> CanonicalAll(vs) == CanonicalAll(us)
    decreases vs, 0
  {
    hide SameButNaNs, Canonical, CanonicalAll, AllSame;
    if |vs| == |us| {
      forall i | 0 <= i < |vs| ensures SameButNaNs(vs[i], us[i]) <==> Canonical(vs[i]) == Canonical(us[i]) {
        SameIff(vs[i], us[i]);
      }
    }
    ListIff(vs, us);
  }

  lemma {:induction false} EntriesSameIff(es: seq<Entry>, fs: seq<Entry>)
    ensures SameButNaNs(Object(es), Object(fs)) <==> CanonicalEntries(es) == CanonicalEntries(fs)
    decreases es, 0
  {
    hide SameButNaNs, Canonical, CanonicalEntries;
    if |es| == |fs| {
      forall i | 0 <= i < |es|
        ensures SameButNaNs(es[i].value, fs[i].value) <==> Canonical(es[i].value) == Canonical(fs[i].value)
      {
        SameIff(es[i].value, fs[i].value);
      }
    }
    EntriesIff(es, fs);
  }

  lemma {:induction false} RowsSameIff(keys: seq<seq<byte>>, xs: seq<Row>, ys: seq<Row>)
    ensures SameButNaNs(RowArray(keys, xs), RowArray(keys, ys)) <==> CanonicalRows(xs) == CanonicalRows(ys)
    decreases xs, 0
  {
    hide SameButNaNs, AllSame, CanonicalAll, CanonicalRows;
    if |xs| == |ys| {
      forall i | 0 <= i < |xs|
        ensures AllSame(xs[i].cells, ys[i].cells) <==> CanonicalAll(xs[i].cells) == CanonicalAll(ys[i].cells)
      {
        AllSameIff(xs[i].cells, ys[i].cells);
      }
    }
    RowsIff(keys, xs, ys);
  }

  lemma FloatSameIff(w: nat, bits: nat, w': nat, bits': nat)
    ensures SameButNaNs(Float(w, bits), Float(w', bits')) <==> Canonical(Float(w, bits)) == Canonical(Float(w', bits'))
  {
    hide CanonicalNaN, AboveInfinity;
    if 1 <= w <= 4 && w == w' {
      NaNIff(w, bits);
      NaNIff(w, bits');
      QuietIsNaN(w);
    }
  }

  lemma QuietIsNaN(w: nat)
    requires 1 <= w <= 4
    ensures AboveInfinity(w, QuietNaN(w))
  {
  }

  /** The canonical form has only quiet NaNs. */
  lemma {:induction false} CanonicalIsQuiet(v: Value)
    ensures AllQuiet(Canonical(v))
    decreases v
  {
    hide CanonicalNaN, AboveInfinity;
    match v
    case Float(w, bits) => if 1 <= w <= 4 { NaNIff(w, bits); }
    case Array(children) => CanonicalAllQuiet(children);
    case Object(entries) =>
      forall i | 0 <= i < |entries| ensures AllQuiet(CanonicalEntries(entries)[i].value) {
        CanonicalEntryAt(entries, i);
        CanonicalIsQuiet(entries[i].value);
      }
    case RowArray(_, rows) =>
      forall i, c | 0 <= i < |rows| && c in CanonicalRows(rows)[i].cells ensures AllQuiet(c) {
        CanonicalRowAt(rows, i);
        CanonicalAllQuiet(rows[i].cells);
      }
    case NumericString(inner) => CanonicalIsQuiet(inner);
    case _ =>
  }

  lemma {:induction false} CanonicalAllQuiet(vs: seq<Value>)
    ensures forall c :: c in CanonicalAll(vs) ==> AllQuiet(c)
    decreases vs
  {
    forall i | 0 <= i < |vs| ensures AllQuiet(CanonicalAll(vs)[i]) {
      CanonicalAt(vs, i);
      CanonicalIsQuiet(vs[i]);
    }
  }

  /** A value with quiet NaNs only is its own canonical form. */
  lemma {:induction false} QuietIsCanonical(v: Value)
    requires AllQuiet(v)
    ensures Canonical(v) == v
    decreases v
  {
    hide CanonicalNaN, AboveInfinity;
    match v
    case Float(w, bits) => if 1 <= w <= 4 { NaNIff(w, bits); }
    case Array(children) => QuietAll(children);
    case Object(entries) =>
      forall i | 0 <= i < |entries| ensures CanonicalEntries(entries)[i] == entries[i] {
        CanonicalEntryAt(entries, i);
        QuietIsCanonical(entries[i].value);
      }
    case RowArray(_, rows) =>
      forall i | 0 <= i < |rows| ensures CanonicalRows(rows)[i] == rows[i] {
        CanonicalRowAt(rows, i);
        QuietAll(rows[i].cells);
      }
    case NumericString(inner) => QuietIsCanonical(inner);
    case _ =>
  }

  lemma {:induction false} QuietAll(vs: seq<Value>)
    requires forall c :: c in vs ==> AllQuiet(c)
    ensures CanonicalAll(vs) == vs
    decreases vs
  {
    forall i | 0 <= i < |vs| ensures CanonicalAll(vs)[i] == vs[i] {
      CanonicalAt(vs, i);
      QuietIsCanonical(vs[i]);
    }
  }

  // ---------------------------------------------------------------- the bytes

  /** A value and its canonical form have the same bytes. */
  lemma {:induction false} CanonicalCode(hash: seq<byte> -> byte, v: Value)
    ensures Encode(hash, Canonical(v)) == Encode(hash, v)
    decreases v
  {
    hide CanonicalNaN, ArrayOf, ObjectOf, RowsOf, KeysFit, EncodeAll, EncodeEntries, EncodeRows;
    match v
    case Float(w, bits) => if 1 <= w <= 4 { QuietTwice(w, bits); }
    case Array(children) => CanonicalCodes(hash, children);
    case Object(entries) =>
      CanonicalEntryCodes(hash, entries);
      if EncodeEntries(hash, entries).Some? {
        KeysAlone(hash, CanonicalEntries(entries), entries, EncodeEntries(hash, entries).value);
      }
    case RowArray(keys, rows) =>
      CanonicalRowCodes(hash, rows);
      SameShapes(rows, |keys|);
    case NumericString(inner) => CanonicalCode(hash, inner);
    case _ =>
  }

  /** Of the entries themselves an object's bytes depend on the keys only. */
  lemma KeysAlone(hash: seq<byte> -> byte, es: seq<Entry>, fs: seq<Entry>, pieces: seq<seq<byte>>)
    requires Keys(es) == Keys(fs) && KeySizeBytes(es) == KeySizeBytes(fs) && |pieces| == |es| == |fs|
    ensures ObjectOf(hash, es, pieces) == ObjectOf(hash, fs, pieces)
  {
  }

  lemma QuietTwice(w: nat, bits: nat)
    requires 1 <= w <= 4
    ensures CanonicalNaN(w, CanonicalNaN(w, bits)) == CanonicalNaN(w, bits)
  {
    NaNIff(w, bits);
    NaNIff(w, CanonicalNaN(w, bits));
  }

  lemma {:induction false} CanonicalCodes(hash: seq<byte> -> byte, vs: seq<Value>)
    ensures EncodeAll(hash, CanonicalAll(vs)) == EncodeAll(hash, vs)
    decreases vs
  {
    hide Encode, Canonical;
    if vs != [] {
      CanonicalCode(hash, vs[0]);
      CanonicalCodes(hash, vs[1..]);
      assert CanonicalAll(vs)[1..] == CanonicalAll(vs[1..]);
    }
  }

  lemma {:induction false} CanonicalEntryCodes(hash: seq<byte> -> byte, es: seq<Entry>)
    ensures EncodeEntries(hash, CanonicalEntries(es)) == EncodeEntries(hash, es)
    ensures Keys(CanonicalEntries(es)) == Keys(es) && KeySizeBytes(CanonicalEntries(es)) == KeySizeBytes(es)
    decreases es
  {
    hide Encode, Canonical, KeyPrefix;
    if es != [] {
      CanonicalCode(hash, es[0].value);
      CanonicalEntryCodes(hash, es[1..]);
      assert CanonicalEntries(es)[1..] == CanonicalEntries(es[1..]);
    }
    forall i | 0 <= i < |es| ensures CanonicalEntries(es)[i].key == es[i].key {
      CanonicalEntryAt(es, i);
    }
  }

  lemma {:induction false} CanonicalRowCodes(hash: seq<byte> -> byte, rows: seq<Row>)
    ensures EncodeRows(hash, CanonicalRows(rows)) == EncodeRows(hash, rows)
    decreases rows
  {
    hide EncodeAll, CanonicalAll;
    if rows != [] {
      CanonicalCodes(hash, rows[0].cells);
      CanonicalRowCodes(hash, rows[1..]);
      assert CanonicalRows(rows)[1..] == CanonicalRows(rows[1..]);
    }
  }

  lemma SameShapes(rows: seq<Row>, n: nat)
    ensures (exists r :: r in CanonicalRows(rows) && |r.cells| != n) <==> exists r :: r in rows && |r.cells| != n
  {
    forall i | 0 <= i < |rows| ensures |CanonicalRows(rows)[i].cells| == |rows[i].cells| {
      CanonicalRowAt(rows, i);
    }
    if r :| r in CanonicalRows(rows) && |r.cells| != n {
      var i :| 0 <= i < |rows| && CanonicalRows(rows)[i] == r;
      assert rows[i] in rows;
    }
    if r :| r in rows && |r.cells| != n {
      var i :| 0 <= i < |rows| && rows[i] == r;
      assert CanonicalRows(rows)[i] in CanonicalRows(rows);
    }
  }

  /** Decoding what a value encodes to gives a value that is the same but for the NaNs, which are all
      quiet; it gives the value itself exactly when those were quiet before. */
  lemma DecodesButNaNs(hash: seq<byte> -> byte, v: Value)
    requires InRange(v) && Encode(hash, v).Some? && Height(v) <= MAX_DECODE_DEPTH
    ensures var back := Decode(hash, Encode(hash, v).value, 0);
            back.Ok? && SameButNaNs(v, back.value) && AllQuiet(back.value) && (back.value == v <==> AllQuiet(v))
  {
    hide Encode, Decode, Canonical, Height, AllQuiet, SameButNaNs, InRange;
    DecodeEncode(hash, v);
    CanonicalIsQuiet(v);
    QuietIsCanonical(Canonical(v));
    SameIff(v, Canonical(v));
    if AllQuiet(v) { QuietIsCanonical(v); }
  }

  /** A float comes back as it is exactly when its magnitude is at most infinity or it is the quiet NaN;
      every other float comes back as that NaN. */
  lemma FloatComesBack(hash: seq<byte> -> byte, w: nat, bits: nat)
    requires 1 <= w <= 4 && InRange(Float(w, bits))
    ensures Encode(hash, Float(w, bits)).Some?
    ensures Decode(hash, Encode(hash, Float(w, bits)).value, 0)
            == Ok(Float(w, if bits % SignOf(w) <= InfinityOf(w) then bits else QuietNaN(w)))
  {
    hide Decode;
    NaNIff(w, bits);
    DecodeEncode(hash, Float(w, bits));
  }

  /** Two values have the same bytes exactly when they are the same but for their NaNs. */
  lemma EncodingIsInjective(hash: seq<byte> -> byte, v: Value, u: Value)
    requires InRange(v) && InRange(u) && Encode(hash, v).Some? && Height(v) <= MAX_DECODE_DEPTH
    ensures Encode(hash, v) == Encode(hash, u) <==> SameButNaNs(v, u)
  {
    hide Encode, Decode, Canonical, Height, SameButNaNs, InRange;
    SameIff(v, u);
    CanonicalCode(hash, v);
    CanonicalCode(hash, u);
    if Encode(hash, v) == Encode(hash, u) {
      DecodeEncode(hash, v);
      DecodeEncode(hash, u);
    }
  }
}
