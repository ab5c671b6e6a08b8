/** The second pjson encoder, which has to write the bytes of the first (js/src/pjson.ts, lines 4-202). */
module PjsonJs {
  import opened ByteStrings
  import opened Wrappers
  import opened PjsonNumbers
  import opened Pjson
  import opened PjsonDecode
  import opened PjsonRoundTrip
  import opened PjsonWriter

  datatype JsEntry = JsEntry(key: seq<byte>, value: JsValue)

  datatype JsRecord = JsRecord(fields: seq<JsEntry>)

  datatype JsValue =
    | JsNull
    | JsBool(b: bool)
    | JsBigInt(n: int)
    | JsDecimal(m: int, scale: int)
    | JsFloat(bits: nat, width: int, scientific: bool)
    | JsString(text: seq<byte>, escaped: bool)
    | JsBytes(content: seq<byte>)
    | JsTypedArray(code: nat, raw: seq<byte>)
    | JsArray(children: seq<JsValue>)
    | JsObject(entries: seq<JsEntry>)
    | JsRows(records: seq<JsRecord>, schema: Option<seq<seq<byte>>>)

  const MAX_DEPTH := 64

  // ---------------------------------------------------------------- the same values for both encoders

  function ToInteger(n: int): Value {
    if n >= 0 then Uint(n) else NegInt(-n)
  }

  /** A decimal without scale is an integer. */
  function ToValue(v: JsValue): Value {
    match v
    case JsNull => Null
    case JsBool(b) => Bool(b)
    case JsBigInt(n) => ToInteger(n)
    case JsDecimal(m, s) => if s == 0 then ToInteger(m) else Decimal(m, s)
    case JsFloat(bits, w, _) => Float(if w >= 0 then w else 0, bits)
    case JsString(text, escaped) => Text(if escaped then 1 else 0, text)
    case JsBytes(content) => Bytes(0, content)
    case JsTypedArray(code, raw) => TypedArray(code, raw)
    case JsArray(children) => Array(seq(|children|, i requires 0 <= i < |children| => ToValue(children[i])))
    case JsObject(entries) => Object(seq(|entries|, i requires 0 <= i < |entries| => Entry(entries[i].key, ToValue(entries[i].value))))
    case JsRows(records, schema) =>
      RowArray(RowKeys(records, schema), seq(|records|, i requires 0 <= i < |records| => ToRow(records[i])))
  }

  function ToRow(r: JsRecord): Row {
    Row(seq(|r.fields|, i requires 0 <= i < |r.fields| => ToValue(r.fields[i].value)))
  }

  function KeysOf(fields: seq<JsEntry>): (r: seq<seq<byte>>)
    ensures |r| == |fields|
  {
    seq(|fields|, i requires 0 <= i < |fields| => fields[i].key)
  }

  /** The keys of the first record, or those of the schema if there is none. */
  function RowKeys(records: seq<JsRecord>, schema: Option<seq<seq<byte>>>): seq<seq<byte>> {
    if records != [] then KeysOf(records[0].fields)
    else
      match schema
      case Some(keys) => keys
      case None => []
  }

  /** No float has the flag for scientific notation, which the first encoder does not have. */
  predicate Plain(v: JsValue) {
    match v
    case JsFloat(_, _, scientific) => !scientific
    case JsArray(children) => forall i :: 0 <= i < |children| ==> Plain(children[i])
    case JsObject(entries) => forall i :: 0 <= i < |entries| ==> Plain(entries[i].value)
    case JsRows(records, _) =>
      forall i :: 0 <= i < |records| ==> forall j :: 0 <= j < |records[i].fields| ==> Plain(records[i].fields[j].value)
    case _ => true
  }

  /** The shared keys the second encoder takes: some, each shorter than 255 bytes, together within
      24 bits. */
  predicate KeysAccepted(keys: seq<seq<byte>>) {
    keys != [] && (forall i :: 0 <= i < |keys| ==> |keys[i]| < 255) && |Concat(keys)| <= 0xFF_FFFF
  }

  /** What the second encoder asks for beyond what the first one does. */
  predicate Accepted(v: JsValue, depth: nat) {
    depth <= MAX_DEPTH &&
    match v
    case JsDecimal(m, s) => -TWO_127 <= m < TWO_127 && -TWO_31 <= s < TWO_31
    case JsFloat(bits, w, _) => 1 <= w <= 3 && (IsNaN(w, bits) || bits < Pow256(FloatBytes(w)))
    case JsArray(children) => forall i :: 0 <= i < |children| ==> Accepted(children[i], depth + 1)
    case JsObject(entries) => forall i :: 0 <= i < |entries| ==> Accepted(entries[i].value, depth + 1)
    case JsRows(records, schema) =>
      KeysAccepted(RowKeys(records, schema))
      && forall i :: 0 <= i < |records| ==>
           KeysOf(records[i].fields) == RowKeys(records, schema)
           && forall j :: 0 <= j < |records[i].fields| ==> Accepted(records[i].fields[j].value, depth + 1)
    case _ => true
  }

  // ---------------------------------------------------------------- numbers

  method LittleEndian(n: int, width: nat) returns (s: Option<seq<byte>>)
    ensures s == if 0 <= n < Pow256(width) then Some(Le(n, width)) else None
  {
    hide Pow256;
    if n < 0 || n >= Pow256(width) {
      return None;
    }
    var value: nat := n;
    var out: seq<byte> := [];
    var i: nat := 0;
    while i < width
      invariant i <= width && out + Le(value, width - i) == Le(n, width)
    {
      LeUnfold(value, width - i - 1);
      assert out + ([value % 256] + Le(value / 256, width - i - 1)) == out + [value % 256] + Le(value / 256, width - i - 1);
      out := out + [value % 256];
      value := value / 256;
      i := i + 1;
    }
    LeNone(value);
    assert out + [] == out;
    return Some(out);
  }

  function WidthOf(n: nat): (w: Option<nat>)
    ensures w == OffsetWidth(n)
  {
    if n > 0xFFFF_FFFF then None
    else Some(if n <= 255 then 1 else if n <= 65535 then 2 else if n <= 0xFF_FFFF then 3 else 4)
  }

  method JsVaruint(n: int) returns (s: Option<seq<byte>>)
    ensures s == if n < 0 then None else VaruintEncode(n)
  {
    hide Pow256, Le;
    if n < 0 || n >= 0x4000_0000 {
      return None;
    }
    var count := if n < 64 then 1 else if n < 16384 then 2 else if n < 4194304 then 3 else 4;
    PayloadFits(n);
    var rest := LittleEndian(n / 64, count - 1);
    return Some([(count - 1) * 64 + n % 64] + rest.value);
  }

  /** The bytes of a number, at least one. */
  function SomeBytes(n: nat): (s: seq<byte>)
    ensures |s| >= 1
  {
    if n == 0 then [0] else MinimalLe(n)
  }

  lemma {:induction false} SomeBytesLe(n: nat)
    ensures Le(n, |SomeBytes(n)|) == SomeBytes(n) && n < Pow256(|SomeBytes(n)|)
    decreases n
  {
    if n < 256 {
      assert MinimalLe(n / 256) == [];
      LeNone(n / 256);
      LeUnfold(n, 0);
      assert Pow256(1) == 256;
    } else {
      SomeBytesLe(n / 256);
      LeUnfold(n, |SomeBytes(n / 256)|);
    }
  }

  lemma SomeBytesMore(n: nat)
    ensures |SomeBytes(n)| == if n < 256 then 1 else 1 + |SomeBytes(n / 256)|
  {
    if n < 256 { assert MinimalLe(n / 256) == []; }
  }

  lemma SomeBytesFit(n: nat)
    requires n < TWO_128
    ensures |SomeBytes(n)| <= 16
  {
    MinimalFits(n);
  }

  method Magnitude(n: int, tag: nat) returns (s: Option<seq<byte>>)
    requires tag <= 15
    ensures s == if 0 <= n < TWO_128 then (SomeBytesFit(n); Some(TaggedBytes(tag, SomeBytes(n)))) else None
  {
    hide SomeBytes, Pow256, Le;
    if n < 0 || n >= TWO_128 {
      return None;
    }
    var count: nat := 1;
    var v: nat := n / 256;
    SomeBytesMore(n);
    while v != 0
      invariant |SomeBytes(n)| == count + (if v == 0 then 0 else |SomeBytes(v)|)
    {
      SomeBytesMore(v);
      count := count + 1;
      v := v / 256;
    }
    SomeBytesFit(n);
    SomeBytesLe(n);
    var bytes := LittleEndian(n, count);
    return Some([tag * 16 + (count - 1)] + bytes.value);
  }

  method Integer(hash: seq<byte> -> byte, n: int) returns (s: Option<seq<byte>>)
    ensures s == Encode(hash, ToInteger(n))
  {
    hide MinimalLe, Pow256;
    BeyondRange(if n < 0 then -n else n);
    if 0 <= n <= 15 {
      return Some([0x20 + n]);
    } else if -15 <= n < 0 {
      return Some([0x30 - n]);
    } else if n < 0 {
      s := Magnitude(-n, 5);
    } else {
      s := Magnitude(n, 4);
    }
  }

  /** Numbers outside 128 bits take more than 16 bytes. */
  lemma BeyondRange(n: nat)
    ensures |MinimalLe(n)| > 16 <==> n >= TWO_128
  {
    if n >= TWO_128 {
      Pow256Of16();
      UnleMinimal(n);
      LeUnle(MinimalLe(n));
      if |MinimalLe(n)| <= 16 { Pow256Mono(|MinimalLe(n)|, 16); }
    } else {
      MinimalFits(n);
    }
  }

  method JsDecimalCode(hash: seq<byte> -> byte, m: int, s: int) returns (code: Option<seq<byte>>)
    ensures code == if -TWO_127 <= m < TWO_127 && -TWO_31 <= s < TWO_31 then Encode(hash, ToValue(JsDecimal(m, s))) else None
  {
    hide MinimalLe, VaruintEncode, ZigzagEncode, Encode;
    if m < -TWO_127 || m >= TWO_127 {
      return None;
    }
    if s == 0 {
      code := Integer(hash, m);
      return;
    }
    var zz := if m < 0 then -m * 2 - 1 else m * 2;
    ZigzagIs(m, TWO_128);
    var mantissa := Magnitude(zz, 7);
    var scale := JsVaruint(if s < 0 then -2 * s - 1 else 2 * s);
    VaruintRoundTrip(if s < 0 then -2 * s - 1 else 2 * s, []);
    if -TWO_31 <= s < TWO_31 { ZigzagIs(s, U32_LIMIT); }
    DecimalCode(hash, m, s);
    if scale == None {
      return None;
    }
    return Some(mantissa.value + scale.value);
  }

  lemma DecimalCode(hash: seq<byte> -> byte, m: int, s: int)
    requires -TWO_127 <= m < TWO_127
    ensures ZigzagEncode(m, TWO_128) < TWO_128 && |SomeBytes(ZigzagEncode(m, TWO_128))| <= 16
    ensures Encode(hash, Decimal(m, s))
            == match VaruintEncode(ZigzagEncode(s, U32_LIMIT))
               case None => None
               case Some(scale) => Some(TaggedBytes(7, SomeBytes(ZigzagEncode(m, TWO_128))) + scale)
  {
    hide MinimalLe, VaruintEncode, ZigzagEncode;
    ZigzagIs(m, TWO_128);
    SomeBytesFit(ZigzagEncode(m, TWO_128));
  }

  method Ieee(bits: nat, w: int, scientific: bool) returns (s: Option<seq<byte>>)
    ensures s == if 1 <= w <= 3 && (IsNaN(w, bits) || bits < Pow256(FloatBytes(w)))
                 then Some([0x60 + w + if scientific then 8 else 0] + Le(CanonicalNaN(w, bits), FloatBytes(w)))
                 else None
  {
    hide Pow256, Le;
    if w < 1 || w > 3 {
      return None;
    }
    CanonicalFits(w, bits);
    var code := LittleEndian(if IsNaN(w, bits) then CanonicalNaN(w, bits) else bits, FloatBytes(w));
    if code == None {
      return None;
    }
    return Some([0x60 + w + if scientific then 8 else 0] + code.value);
  }

  lemma CanonicalFits(w: nat, bits: nat)
    requires 1 <= w <= 3
    ensures IsNaN(w, bits) ==> CanonicalNaN(w, bits) < Pow256(FloatBytes(w))
  {
    hide Pow256;
    SmallPowers();
  }

  /** The first decoder refuses the flag for scientific notation. */
  lemma ScientificIsRefused(hash: seq<byte> -> byte, w: nat, rest: seq<byte>)
    requires 1 <= w <= 3
    ensures Decode(hash, [0x60 + w + 8] + rest, 0) == Failure
  {
    var b: seq<byte> := [0x60 + w + 8] + rest;
    var tag: int := b[0];
    assert tag / 16 == 6 && tag % 16 == w + 8;
  }

  // ---------------------------------------------------------------- parts and offsets

  /** The parts one after the other. */
  method Join(parts: seq<seq<byte>>) returns (out: seq<byte>)
    ensures out == Concat(parts)
  {
    hide Concat;
    out := [];
    var i: nat := 0;
    NoPieces(parts[..0]);
    while i < |parts|
      invariant i <= |parts| && out == Concat(parts[..i])
    {
      ConcatNext(parts, i);
      out := out + parts[i];
      i := i + 1;
    }
    assert parts[..i] == parts;
  }

  /** Every offset fits the width for the whole. */
  lemma OffsetFits(parts: seq<seq<byte>>, w: nat, i: nat)
    requires i < |parts| && |Concat(parts)| < Pow256(w)
    ensures Starts(parts)[i] < Pow256(w)
  {
    hide Concat, Starts, Pow256;
    StartAt(parts, i);
    ConcatPrefix(parts, i);
  }

  method Offsets(offsets: seq<nat>, w: nat, ghost parts: seq<seq<byte>>) returns (table: seq<byte>)
    requires offsets == Starts(parts) && |Concat(parts)| < Pow256(w)
    ensures table == OffsetTable(parts, w)
  {
    hide OffsetTable, Starts, Le, Pow256, Concat;
    table := [];
    var i: nat := 0;
    NothingYet(parts, w);
    while i < |offsets|
      invariant i <= |offsets| && table == OffsetTable(parts[..i], w)
    {
      TableSnoc(parts, w, i);
      OffsetFits(parts, w, i);
      var code := LittleEndian(offsets[i], w);
      table := table + code.value;
      i := i + 1;
    }
    assert parts[..i] == parts;
  }

  method SizedOffsets(offsets: seq<nat>, keys: seq<seq<byte>>, w: nat, ghost parts: seq<seq<byte>>, ghost sizes: seq<byte>)
    returns (table: seq<byte>)
    requires offsets == Starts(parts) && |Concat(parts)| < Pow256(w)
    requires |sizes| == |keys| == |parts| && forall i :: 0 <= i < |keys| ==> sizes[i] == KeySizeByte(keys[i])
    ensures table == SizedOffsetTable(parts, sizes, w)
  {
    hide SizedOffsetTable, Starts, Le, Pow256, Concat;
    table := [];
    var i: nat := 0;
    NothingSized(parts, sizes, w);
    while i < |offsets|
      invariant i <= |offsets| && table == SizedOffsetTable(parts[..i], sizes[..i], w)
    {
      SizedTableSnoc(parts, sizes, w, i);
      OffsetFits(parts, w, i);
      var code := LittleEndian(offsets[i], w);
      table := table + code.value + [if |keys[i]| < 255 then |keys[i]| else 255];
      i := i + 1;
    }
    assert parts[..i] == parts && sizes[..i] == sizes;
  }

  method Hashes(hash: seq<byte> -> byte, keys: seq<seq<byte>>) returns (out: seq<byte>)
    ensures out == KeyHashes(hash, keys)
  {
    hide KeyHashes;
    out := [];
    var i: nat := 0;
    NoHashes(hash, keys);
    while i < |keys|
      invariant i <= |keys| && out == KeyHashes(hash, keys[..i])
    {
      HashesSnoc(hash, keys, i);
      out := out + [hash(keys[i])];
      i := i + 1;
    }
    assert keys[..i] == keys;
  }

  lemma CountCode(n: nat)
    requires n <= 0xFFFF
    ensures n < Pow256(2) && Le(n, 2) == Count16(n)
  {
    hide Pow256;
    SmallPowers();
    LeUnfold(n, 1);
    LeUnfold(n / 256, 0);
    LeNone(n / 256 / 256);
  }

  // ---------------------------------------------------------------- alike but for the flags

  /** Two outcomes of encoding that fail together, are of the same length otherwise, and are the same
      bytes exactly if `same` holds. */
  predicate Alike(code: Option<seq<byte>>, spec: Option<seq<byte>>, same: bool) {
    code.None? == spec.None?
    && (code.Some? && spec.Some? ==> |code.value| == |spec.value| && (code.value == spec.value <==> same))
  }

  /** Pieces of the same lengths. */
  predicate Pairwise(parts: seq<seq<byte>>, specs: seq<seq<byte>>) {
    |parts| == |specs| && forall i :: 0 <= i < |parts| ==> |parts[i]| == |specs[i]|
  }

  lemma AlikeInside(before: seq<byte>, code: seq<byte>, spec: seq<byte>, after: seq<byte>)
    requires |code| == |spec|
    ensures |before + code + after| == |before + spec + after|
    ensures before + code + after == before + spec + after <==> code == spec
  {
    var x, y, n := before + code + after, before + spec + after, |before|;
    assert x[n..n + |code|] == code && y[n..n + |code|] == spec;
  }

  lemma AlikeBehind(before: seq<byte>, code: seq<byte>, spec: seq<byte>)
    requires |code| == |spec|
    ensures |before + code| == |before + spec| && (before + code == before + spec <==> code == spec)
  {
    assert (before + code)[|before|..] == code && (before + spec)[|before|..] == spec;
  }

  /** Joining such pieces loses nothing, and their offsets are the same. */
  lemma Joined(parts: seq<seq<byte>>, w: nat)
    requires parts != []
    ensures var before := Concat(parts[..|parts| - 1]);
            Concat(parts) == before + parts[|parts| - 1] && OffsetTable(parts, w) == OffsetTable(parts[..|parts| - 1], w) + Le(|before|, w)
  {
    hide Le;
  }

  lemma {:induction false} JoinedAlike(parts: seq<seq<byte>>, specs: seq<seq<byte>>, w: nat)
    requires Pairwise(parts, specs)
    ensures |Concat(parts)| == |Concat(specs)| && (Concat(parts) == Concat(specs) <==> parts == specs)
    ensures OffsetTable(parts, w) == OffsetTable(specs, w)
    decreases |parts|
  {
    hide Le, Concat, OffsetTable;
    if parts != [] {
      var n := |parts| - 1;
      Joined(parts, w);
      Joined(specs, w);
      JoinedAlike(parts[..n], specs[..n], w);
      JoinApart(Concat(parts[..n]), parts[n], Concat(specs[..n]), specs[n]);
      LastApart(parts, specs);
    }
  }

  lemma JoinApart(a: seq<byte>, b: seq<byte>, c: seq<byte>, d: seq<byte>)
    requires |a| == |c| && |b| == |d|
    ensures a + b == c + d <==> a == c && b == d
  {
    assert (a + b)[..|a|] == a && (c + d)[..|a|] == c;
    assert (a + b)[|a|..] == b && (c + d)[|a|..] == d;
  }

  lemma LastApart(parts: seq<seq<byte>>, specs: seq<seq<byte>>)
    requires |parts| == |specs| > 0
    ensures var n := |parts| - 1; parts == specs <==> parts[..n] == specs[..n] && parts[n] == specs[n]
  {
    var n := |parts| - 1;
    assert parts == parts[..n] + [parts[n]] && specs == specs[..n] + [specs[n]];
  }

  lemma {:induction false} SizedAlike(parts: seq<seq<byte>>, specs: seq<seq<byte>>, sizes: seq<byte>, w: nat)
    requires Pairwise(parts, specs) && |sizes| == |parts|
    ensures SizedOffsetTable(parts, sizes, w) == SizedOffsetTable(specs, sizes, w)
    decreases |parts|
  {
    hide Le;
    if parts != [] {
      var n := |parts| - 1;
      SizedAlike(parts[..n], specs[..n], sizes[..n], w);
      JoinedAlike(parts[..n], specs[..n], w);
    }
  }

  lemma ContainersAlike(hash: seq<byte> -> byte, isArray: bool, entries: seq<JsEntry>, parts: seq<seq<byte>>, specs: seq<seq<byte>>)
    requires Pairwise(parts, specs) && |parts| == |entries|
    ensures Alike(ContainerOf(hash, isArray, entries, parts), ContainerOf(hash, isArray, entries, specs), parts == specs)
  {
    hide Concat, OffsetTable, SizedOffsetTable, Count16, KeyHashes, KeySizeBytes, Keys;
    var width := OffsetWidth(|Concat(parts)|);
    JoinedAlike(parts, specs, if width.Some? then width.value else 0);
    if width.Some? {
      var w, count := width.value, Count16(|parts|);
      if isArray {
        AlikeInside([0xB0, w - 1], Concat(parts), Concat(specs), OffsetTable(parts, w) + count);
        ThreeBehind([0xB0, w - 1] + Concat(parts), OffsetTable(parts, w), count, []);
        ThreeBehind([0xB0, w - 1] + Concat(specs), OffsetTable(parts, w), count, []);
      } else {
        var hashes, sizes := KeyHashes(hash, Keys(Named(entries))), KeySizeBytes(Named(entries));
        SizedAlike(parts, specs, sizes, w);
        AlikeInside([0xC0, w - 1], Concat(parts), Concat(specs), hashes + SizedOffsetTable(parts, sizes, w) + count);
        ThreeBehind([0xC0, w - 1] + Concat(parts), hashes, SizedOffsetTable(parts, sizes, w), count);
        ThreeBehind([0xC0, w - 1] + Concat(specs), hashes, SizedOffsetTable(parts, sizes, w), count);
      }
    }
  }

  lemma ThreeBehind(a: seq<byte>, b: seq<byte>, c: seq<byte>, d: seq<byte>)
    ensures a + b + c + d == a + (b + c + d) && a + b + c == a + (b + c)
  {
  }

  lemma {:induction false} LargestAlike(rows: seq<seq<seq<byte>>>, specs: seq<seq<seq<byte>>>)
    requires |rows| == |specs| && forall i :: 0 <= i < |rows| ==> Pairwise(rows[i], specs[i])
    ensures LargestRow(rows) == LargestRow(specs)
    decreases |rows|
  {
    hide Concat, OffsetTable, Pairwise;
    if rows != [] {
      var n := |rows| - 1;
      LargestAlike(rows[..n], specs[..n]);
      JoinedAlike(rows[n], specs[n], 0);
    }
  }

  lemma RecordsAlike(rows: seq<seq<seq<byte>>>, specs: seq<seq<seq<byte>>>, w: nat)
    requires |rows| == |specs| && forall i :: 0 <= i < |rows| ==> Pairwise(rows[i], specs[i])
    ensures Pairwise(Records(rows, w), Records(specs, w)) && (Records(rows, w) == Records(specs, w) <==> rows == specs)
  {
    hide Concat, OffsetTable;
    var a, b := Records(rows, w), Records(specs, w);
    forall i | 0 <= i < |rows| ensures |a[i]| == |b[i]| && (a[i] == b[i] <==> rows[i] == specs[i]) {
      JoinedAlike(rows[i], specs[i], w);
      JoinApart(Concat(rows[i]), OffsetTable(rows[i], w), Concat(specs[i]), OffsetTable(specs[i], w));
    }
    if a == b {
      assert forall i :: 0 <= i < |rows| ==> a[i] == b[i];
    }
  }

  lemma RowArraysAlike(hash: seq<byte> -> byte, keys: seq<seq<byte>>, rows: seq<seq<seq<byte>>>, specs: seq<seq<seq<byte>>>)
    requires |rows| == |specs| && forall i :: 0 <= i < |rows| ==> Pairwise(rows[i], specs[i])
    ensures Alike(RowsOf(hash, keys, rows), RowsOf(hash, keys, specs), rows == specs)
  {
    hide Concat, OffsetTable, Records, LargestRow, KeySlots, KeyHashes, VaruintEncode, Count16, Pairwise;
    LargestAlike(rows, specs);
    var slotW := OffsetWidth(LargestRow(rows));
    if slotW.Some? {
      var a, b := Records(rows, slotW.value), Records(specs, slotW.value);
      RecordsAlike(rows, specs, slotW.value);
      var recoffW := OffsetWidth(|Concat(a)|);
      JoinedAlike(a, b, if recoffW.Some? then recoffW.value else 0);
      if recoffW.Some? && VaruintEncode(|keys|).Some? {
        var head := [0xC1, (slotW.value - 1) + (recoffW.value - 1) * 4] + VaruintEncode(|keys|).value + KeySlots(keys) +
                    KeyHashes(hash, keys) + Concat(keys);
        var table, count := OffsetTable(a, recoffW.value), Count16(|rows|);
        AlikeInside(head, Concat(a), Concat(b), table + count);
        ThreeBehind(head + Concat(a), table, count, []);
        ThreeBehind(head + Concat(b), table, count, []);
      }
    }
  }

  // ---------------------------------------------------------------- values and containers

  /** The code of a child with its key, as the first encoder has it. */
  function PartCode(hash: seq<byte> -> byte, isArray: bool, e: JsEntry): Option<seq<byte>> {
    if isArray then Encode(hash, ToValue(e.value)) else EncodeEntry(hash, Entry(e.key, ToValue(e.value)))
  }

  /** Arrays are entries with empty keys. */
  function Unnamed(children: seq<JsValue>): (r: seq<JsEntry>)
    ensures |r| == |children|
  {
    seq(|children|, i requires 0 <= i < |children| => JsEntry([], children[i]))
  }

  /** How many more containers may be nested. */
  function Deeper(depth: nat): nat {
    if depth <= MAX_DEPTH then MAX_DEPTH + 1 - depth else 0
  }

  lemma SameArray(children: seq<JsValue>, depth: nat)
    ensures ToValue(JsArray(children)) == Container(true, Unnamed(children))
    ensures Plain(JsArray(children)) <==> forall i :: 0 <= i < |children| ==> Plain(Unnamed(children)[i].value)
    ensures Accepted(JsArray(children), depth) <==>
            depth <= MAX_DEPTH && forall i :: 0 <= i < |children| ==> Accepted(Unnamed(children)[i].value, depth + 1)
  {
    var es := Unnamed(children);
    assert forall i :: 0 <= i < |children| ==> es[i].value == children[i];
    assert ToValue(JsArray(children)).children == Values(es);
  }

  lemma SameObject(entries: seq<JsEntry>)
    ensures ToValue(JsObject(entries)) == Container(false, entries)
  {
  }

  lemma SameRows(records: seq<JsRecord>, schema: Option<seq<seq<byte>>>, depth: nat)
    ensures ToValue(JsRows(records, schema)) == RowArray(RowKeys(records, schema), ToRows(records))
    ensures Accepted(JsRows(records, schema), depth) <==>
            depth <= MAX_DEPTH && KeysAccepted(RowKeys(records, schema))
            && forall i :: 0 <= i < |records| ==> RecordAccepted(records[i], RowKeys(records, schema), depth + 1)
  {
    hide Concat;
  }

  /** What the first encoder makes of the same value, if this one takes it. */
  function Spec(hash: seq<byte> -> byte, v: JsValue, depth: nat): Option<seq<byte>> {
    if Accepted(v, depth) then Encode(hash, ToValue(v)) else None
  }

  method JsEncode(hash: seq<byte> -> byte, v: JsValue, depth: nat) returns (code: Option<seq<byte>>)
    ensures Alike(code, Spec(hash, v, depth), Plain(v))
    decreases Deeper(depth), 5
  {
    if depth > MAX_DEPTH {
      return None;
    }
    match v
    case JsArray(children) => code := JsArrayCode(hash, children, depth);
    case JsObject(entries) => code := JsObjectCode(hash, entries, depth);
    case JsRows(records, schema) => code := JsRowsCode(hash, records, schema, depth);
    case _ => code := LeafCode(hash, v, depth);
  }

  method JsArrayCode(hash: seq<byte> -> byte, children: seq<JsValue>, depth: nat) returns (code: Option<seq<byte>>)
    requires depth <= MAX_DEPTH
    ensures Alike(code, Spec(hash, JsArray(children), depth), Plain(JsArray(children)))
    decreases Deeper(depth), 5, 0
  {
    hide Encode, Accepted, Plain, ToValue, Container;
    SameArray(children, depth);
    code := ContainerCode(hash, true, Unnamed(children), depth);
  }

  method JsObjectCode(hash: seq<byte> -> byte, entries: seq<JsEntry>, depth: nat) returns (code: Option<seq<byte>>)
    requires depth <= MAX_DEPTH
    ensures Alike(code, Spec(hash, JsObject(entries), depth), Plain(JsObject(entries)))
    decreases Deeper(depth), 5, 0
  {
    hide Encode, ToValue, Container;
    SameObject(entries);
    code := ContainerCode(hash, false, entries, depth);
  }

  method JsRowsCode(hash: seq<byte> -> byte, records: seq<JsRecord>, schema: Option<seq<seq<byte>>>, depth: nat)
    returns (code: Option<seq<byte>>)
    requires depth <= MAX_DEPTH
    ensures Alike(code, Spec(hash, JsRows(records, schema), depth), Plain(JsRows(records, schema)))
    decreases Deeper(depth), 5, 0
  {
    hide Encode, ToValue, Accepted, KeysAccepted, RowKeys, RecordAccepted;
    SameRows(records, schema, depth);
    code := RowsCode(hash, records, schema, depth);
  }

  method LeafCode(hash: seq<byte> -> byte, v: JsValue, depth: nat) returns (code: Option<seq<byte>>)
    requires depth <= MAX_DEPTH && !v.JsArray? && !v.JsObject? && !v.JsRows?
    ensures Alike(code, Spec(hash, v, depth), Plain(v))
  {
    hide MinimalLe, EncodeMagnitude, EncodeDecimal, CanonicalNaN, IsNaN, EncodeAll, EncodeEntries, EncodeRows, Pow256;
    match v
    case JsNull => code := Some([0]);
    case JsBool(b) => code := Some([if b then 0x11 else 0x10]);
    case JsBigInt(n) => code := Integer(hash, n);
    case JsDecimal(m, s) => code := JsDecimalCode(hash, m, s);
    case JsFloat(bits, w, scientific) =>
      code := Ieee(bits, w, scientific);
      if code.Some? { FlagShows(w, scientific, Le(CanonicalNaN(w, bits), FloatBytes(w))); }
    case JsString(text, escaped) => code := Some([if escaped then 0x91 else 0x90] + text);
    case JsBytes(content) => code := Some([0xA0] + content);
    case JsTypedArray(element, raw) => code := TypedArrayCode(hash, element, raw);
  }

  lemma FlagShows(w: nat, scientific: bool, bytes: seq<byte>)
    requires 1 <= w <= 3
    ensures [0x60 + w + if scientific then 8 else 0] + bytes == [0x60 + w] + bytes <==> !scientific
  {
    assert ([0x60 + w + if scientific then 8 else 0] + bytes)[0] == 0x60 + w + if scientific then 8 else 0;
    assert ([0x60 + w] + bytes)[0] == 0x60 + w;
  }

  method TypedArrayCode(hash: seq<byte> -> byte, element: nat, raw: seq<byte>) returns (code: Option<seq<byte>>)
    ensures code == Encode(hash, TypedArray(element, raw))
  {
    hide Pow256, Le;
    var size := ElementSize(element);
    if size == 0 || |raw| % size != 0 {
      return None;
    }
    var count := LittleEndian(|raw| / size, 2);
    SmallPowers();
    if count == None {
      return None;
    }
    CountCode(|raw| / size);
    return Some([0xB1 + element] + raw + count.value);
  }

  /** The part is as the first encoder has it, but for flags. */
  predicate PartAlike(hash: seq<byte> -> byte, isArray: bool, e: JsEntry, part: seq<byte>, spec: seq<byte>) {
    PartCode(hash, isArray, e) == Some(spec) && |part| == |spec| && (part == spec <==> Plain(e.value))
  }

  /** The parts of a container, where each starts, and what the first encoder has for them. */
  method Parts(hash: seq<byte> -> byte, isArray: bool, entries: seq<JsEntry>, depth: nat)
    returns (ok: bool, parts: seq<seq<byte>>, offsets: seq<nat>, ghost specs: seq<seq<byte>>)
    ensures ok <==> forall i :: 0 <= i < |entries| ==> Accepted(entries[i].value, depth) && PartCode(hash, isArray, entries[i]).Some?
    ensures ok ==> |parts| == |specs| == |entries| && offsets == Starts(parts)
    ensures ok ==> forall i :: 0 <= i < |entries| ==> PartAlike(hash, isArray, entries[i], parts[i], specs[i])
    decreases Deeper(depth), 7
  {
    hide Encode, Concat, Starts, Accepted, Plain, VaruintEncode, PartCode;
    parts, offsets, specs := [], [], [];
    var length: nat := 0;
    NoPieces(parts);
    var i: nat := 0;
    while i < |entries|
      invariant i <= |entries| && |parts| == |specs| == i && offsets == Starts(parts) && length == |Concat(parts)|
      invariant forall j :: 0 <= j < i ==> Accepted(entries[j].value, depth) && PartAlike(hash, isArray, entries[j], parts[j], specs[j])
    {
      var part := Part(hash, isArray, entries[i], depth);
      if part == None {
        return false, parts, offsets, specs;
      }
      PiecesSnoc(parts, part.value);
      offsets := offsets + [length];
      parts := parts + [part.value];
      specs := specs + [PartCode(hash, isArray, entries[i]).value];
      length := length + |part.value|;
      i := i + 1;
    }
    ok := true;
  }

  method Part(hash: seq<byte> -> byte, isArray: bool, e: JsEntry, depth: nat) returns (part: Option<seq<byte>>)
    ensures Alike(part, if Accepted(e.value, depth) then PartCode(hash, isArray, e) else None, Plain(e.value))
    decreases Deeper(depth), 6
  {
    hide Encode, Accepted, Plain, VaruintEncode;
    var prefix: seq<byte> := [];
    if !isArray && |e.key| < 255 {
      prefix := e.key;
    } else if !isArray {
      var size := JsVaruint(|e.key| - 255);
      if size == None {
        return None;
      }
      prefix := size.value + e.key;
    }
    var child := JsEncode(hash, e.value, depth);
    if child == None {
      return None;
    }
    assert [] + e.key == e.key;
    ghost var spec := Encode(hash, ToValue(e.value)).value;
    AlikeBehind(prefix, child.value, spec);
    if isArray { assert prefix + child.value == child.value && prefix + spec == spec; }
    return Some(prefix + child.value);
  }

  function Values(entries: seq<JsEntry>): (r: seq<Value>)
    ensures |r| == |entries|
  {
    seq(|entries|, i requires 0 <= i < |entries| => ToValue(entries[i].value))
  }

  function Named(entries: seq<JsEntry>): (r: seq<Entry>)
    ensures |r| == |entries|
  {
    seq(|entries|, i requires 0 <= i < |entries| => Entry(entries[i].key, ToValue(entries[i].value)))
  }

  /** The container as the first encoder has it. */
  function Container(isArray: bool, entries: seq<JsEntry>): Value {
    if isArray then Array(Values(entries)) else Object(Named(entries))
  }

  /** The code of a container whose parts are encoded. */
  function ContainerOf(hash: seq<byte> -> byte, isArray: bool, entries: seq<JsEntry>, parts: seq<seq<byte>>): Option<seq<byte>>
    requires |parts| == |entries|
  {
    if isArray then ArrayOf(parts) else ObjectOf(hash, Named(entries), parts)
  }

  lemma PartsDone(hash: seq<byte> -> byte, isArray: bool, entries: seq<JsEntry>, parts: seq<seq<byte>>)
    requires |entries| <= 0xFFFF && |parts| == |entries|
    requires forall i :: 0 <= i < |entries| ==> PartCode(hash, isArray, entries[i]) == Some(parts[i])
    ensures Encode(hash, Container(isArray, entries)) == ContainerOf(hash, isArray, entries, parts)
  {
    hide Encode, EncodeAll, EncodeEntries, EncodeEntry, ArrayOf, ObjectOf;
    if isArray {
      AllEncoded(hash, Values(entries), parts);
      ArrayCode(hash, Values(entries));
    } else {
      EntriesEncoded(hash, Named(entries), parts);
      ObjectCode(hash, Named(entries));
    }
  }

  lemma PartFailed(hash: seq<byte> -> byte, isArray: bool, entries: seq<JsEntry>, i: nat)
    requires i < |entries| && PartCode(hash, isArray, entries[i]) == None
    ensures Encode(hash, Container(isArray, entries)) == None
  {
    hide Encode, EncodeAll, EncodeEntries, EncodeEntry, ArrayOf, ObjectOf;
    if isArray {
      var vs := Values(entries);
      ArrayCode(hash, vs);
      if EncodeAll(hash, vs).Some? { EncodedAt(hash, vs, EncodeAll(hash, vs).value, i); }
    } else {
      var es := Named(entries);
      ObjectCode(hash, es);
      if EncodeEntries(hash, es).Some? { EntryEncodedAt(hash, es, EncodeEntries(hash, es).value, i); }
    }
  }

  lemma TooMany(hash: seq<byte> -> byte, isArray: bool, entries: seq<JsEntry>)
    requires |entries| > 0xFFFF
    ensures Encode(hash, Container(isArray, entries)) == None
  {
    hide Encode, EncodeAll, EncodeEntries, ArrayOf, ObjectOf;
    if isArray { ArrayCode(hash, Values(entries)); } else { ObjectCode(hash, Named(entries)); }
  }

  /** Parts that are alike are the same exactly if all values are plain. */
  lemma PartsAlike(hash: seq<byte> -> byte, isArray: bool, entries: seq<JsEntry>, parts: seq<seq<byte>>, specs: seq<seq<byte>>)
    requires |parts| == |specs| == |entries|
    requires forall i :: 0 <= i < |entries| ==> PartAlike(hash, isArray, entries[i], parts[i], specs[i])
    ensures Pairwise(parts, specs) && (parts == specs <==> forall i :: 0 <= i < |entries| ==> Plain(entries[i].value))
    ensures forall i :: 0 <= i < |entries| ==> PartCode(hash, isArray, entries[i]) == Some(specs[i])
  {
    hide Plain, PartCode;
    if parts == specs {
      forall i | 0 <= i < |entries| ensures Plain(entries[i].value) { assert parts[i] == specs[i]; }
    }
  }

  method ContainerCode(hash: seq<byte> -> byte, isArray: bool, entries: seq<JsEntry>, depth: nat) returns (code: Option<seq<byte>>)
    requires depth <= MAX_DEPTH
    ensures Alike(code,
                  if forall i :: 0 <= i < |entries| ==> Accepted(entries[i].value, depth + 1)
                  then Encode(hash, Container(isArray, entries)) else None,
                  forall i :: 0 <= i < |entries| ==> Plain(entries[i].value))
    decreases Deeper(depth), 4
  {
    hide Encode, Accepted, Plain, PartCode, Container, ContainerOf, PartAlike, Pairwise;
    if |entries| > 65535 {
      TooMany(hash, isArray, entries);
      return None;
    }
    var ok, parts, offsets, specs := Parts(hash, isArray, entries, depth + 1);
    if !ok {
      forall i | 0 <= i < |entries| && PartCode(hash, isArray, entries[i]) == None
        ensures Encode(hash, Container(isArray, entries)) == None
      {
        PartFailed(hash, isArray, entries, i);
      }
      return None;
    }
    PartsAlike(hash, isArray, entries, parts, specs);
    PartsDone(hash, isArray, entries, specs);
    ContainersAlike(hash, isArray, entries, parts, specs);
    code := Assemble(hash, isArray, entries, parts, offsets);
  }

  /** Head, parts, and behind them the hashes of an object, the offsets and the count. */
  method Assemble(hash: seq<byte> -> byte, isArray: bool, entries: seq<JsEntry>, parts: seq<seq<byte>>, offsets: seq<nat>)
    returns (code: Option<seq<byte>>)
    requires |parts| == |entries| <= 0xFFFF && offsets == Starts(parts)
    ensures code == ContainerOf(hash, isArray, entries, parts)
  {
    hide Concat, Starts, OffsetTable, SizedOffsetTable, Count16, KeyHashes, ArrayOf, ObjectOf, KeySizeByte, Pow256, Le;
    ArrayOfIs(parts);
    ObjectOfIs(hash, Named(entries), parts);
    var data := Join(parts);
    var w := WidthOf(|data|);
    if w == None {
      return None;
    }
    WidthFits(|data|, w.value);
    CountCode(|entries|);
    var count := LittleEndian(|entries|, 2);
    if isArray {
      var table := Offsets(offsets, w.value, parts);
      return Some([0xB0, w.value - 1] + data + table + count.value);
    } else {
      var keys := KeysOf(entries);
      assert keys == Keys(Named(entries));
      var hashes := Hashes(hash, keys);
      var table := SizedOffsets(offsets, keys, w.value, parts, KeySizeBytes(Named(entries)));
      return Some([0xC0, w.value - 1] + data + hashes + table + count.value);
    }
  }

  // ---------------------------------------------------------------- row arrays

  /** The cells are as the first encoder has them, but for flags. */
  predicate CellsAlike(hash: seq<byte> -> byte, record: JsRecord, cells: seq<seq<byte>>, specs: seq<seq<byte>>) {
    EncodeAll(hash, ToRow(record).cells) == Some(specs) && Pairwise(cells, specs) && (cells == specs <==> PlainRecord(record))
  }

  predicate PlainRecord(record: JsRecord) {
    forall j :: 0 <= j < |record.fields| ==> Plain(record.fields[j].value)
  }

  predicate CellAlike(hash: seq<byte> -> byte, v: JsValue, depth: nat, cell: seq<byte>, spec: seq<byte>) {
    Accepted(v, depth) && Encode(hash, ToValue(v)) == Some(spec) && |cell| == |spec| && (cell == spec <==> Plain(v))
  }

  /** The cells of one record. */
  method Cells(hash: seq<byte> -> byte, record: JsRecord, depth: nat)
    returns (ok: bool, cells: seq<seq<byte>>, ghost specs: seq<seq<byte>>)
    ensures ok <==> (forall i :: 0 <= i < |record.fields| ==> Accepted(record.fields[i].value, depth))
                    && EncodeAll(hash, ToRow(record).cells).Some?
    ensures ok ==> CellsAlike(hash, record, cells, specs)
    decreases Deeper(depth), 6
  {
    hide Encode, EncodeAll, Accepted, Plain, CellsAlike;
    var fields := record.fields;
    ghost var vs := ToRow(record).cells;
    cells, specs := [], [];
    var i: nat := 0;
    while i < |fields|
      invariant i <= |fields| && |cells| == |specs| == i
      invariant forall j :: 0 <= j < i ==> CellAlike(hash, fields[j].value, depth, cells[j], specs[j])
    {
      var cell := JsEncode(hash, fields[i].value, depth);
      if cell == None {
        if EncodeAll(hash, vs).Some? { EncodedAt(hash, vs, EncodeAll(hash, vs).value, i); }
        return false, cells, specs;
      }
      cells := cells + [cell.value];
      specs := specs + [Encode(hash, ToValue(fields[i].value)).value];
      i := i + 1;
    }
    CellsDone(hash, record, depth, cells, specs);
    ok := true;
  }

  lemma CellsDone(hash: seq<byte> -> byte, record: JsRecord, depth: nat, cells: seq<seq<byte>>, specs: seq<seq<byte>>)
    requires |cells| == |specs| == |record.fields|
    requires forall j :: 0 <= j < |cells| ==> CellAlike(hash, record.fields[j].value, depth, cells[j], specs[j])
    ensures CellsAlike(hash, record, cells, specs) && EncodeAll(hash, ToRow(record).cells) == Some(specs)
    ensures forall j :: 0 <= j < |cells| ==> Accepted(record.fields[j].value, depth)
  {
    hide Encode, EncodeAll, Accepted, Plain;
    var vs := ToRow(record).cells;
    forall j | 0 <= j < |vs| ensures Encode(hash, vs[j]) == Some(specs[j]) {
      assert CellAlike(hash, record.fields[j].value, depth, cells[j], specs[j]);
    }
    AllEncoded(hash, vs, specs);
    if cells == specs {
      forall j | 0 <= j < |cells| ensures Plain(record.fields[j].value) {
        assert CellAlike(hash, record.fields[j].value, depth, cells[j], specs[j]) && cells[j] == specs[j];
      }
    }
  }

  /** A record the schema takes. */
  predicate RecordAccepted(record: JsRecord, keys: seq<seq<byte>>, depth: nat) {
    KeysOf(record.fields) == keys && forall j :: 0 <= j < |record.fields| ==> Accepted(record.fields[j].value, depth)
  }

  method CellsOfAll(hash: seq<byte> -> byte, records: seq<JsRecord>, keys: seq<seq<byte>>, depth: nat)
    returns (ok: bool, rows: seq<seq<seq<byte>>>, ghost specs: seq<seq<seq<byte>>>)
    ensures ok <==> forall i :: 0 <= i < |records| ==>
                      RecordAccepted(records[i], keys, depth) && EncodeAll(hash, ToRow(records[i]).cells).Some?
    ensures ok ==> |rows| == |specs| == |records|
                   && forall i :: 0 <= i < |rows| ==> CellsAlike(hash, records[i], rows[i], specs[i])
    decreases Deeper(depth), 7
  {
    hide EncodeAll, Accepted, Plain, ToRow, Pairwise, PlainRecord;
    rows, specs := [], [];
    var i: nat := 0;
    while i < |records|
      invariant i <= |records| && |rows| == |specs| == i
      invariant forall j :: 0 <= j < i ==> RecordAccepted(records[j], keys, depth)
      invariant forall j :: 0 <= j < i ==> CellsAlike(hash, records[j], rows[j], specs[j])
    {
      if KeysOf(records[i].fields) != keys {
        return false, rows, specs;
      }
      var fine, cells, spec := Cells(hash, records[i], depth);
      if !fine {
        return false, rows, specs;
      }
      rows := rows + [cells];
      specs := specs + [spec];
      i := i + 1;
    }
    ok := true;
  }

  /** Rows that are alike are the same exactly if all their values are plain. */
  lemma RowsAlike(hash: seq<byte> -> byte, records: seq<JsRecord>, rows: seq<seq<seq<byte>>>, specs: seq<seq<seq<byte>>>)
    requires |rows| == |specs| == |records|
    requires forall i :: 0 <= i < |rows| ==> CellsAlike(hash, records[i], rows[i], specs[i])
    ensures forall i :: 0 <= i < |rows| ==> Pairwise(rows[i], specs[i]) && EncodeAll(hash, ToRow(records[i]).cells) == Some(specs[i])
    ensures rows == specs <==> forall i :: 0 <= i < |records| ==> PlainRecord(records[i])
  {
    hide EncodeAll, ToRow, Pairwise, PlainRecord;
    if rows == specs {
      forall i | 0 <= i < |records| ensures PlainRecord(records[i]) { assert rows[i] == specs[i]; }
    }
  }

  method LargestOf(rows: seq<seq<seq<byte>>>) returns (max: nat)
    ensures max == LargestRow(rows)
  {
    hide Concat;
    max := 0;
    var i: nat := 0;
    while i < |rows|
      invariant i <= |rows| && max == LargestRow(rows[..i])
    {
      LargestSnoc(rows, i);
      var size := TotalLength(rows[i]);
      if size > max {
        max := size;
      }
      i := i + 1;
    }
    assert rows[..i] == rows;
  }

  method TotalLength(parts: seq<seq<byte>>) returns (n: nat)
    ensures n == |Concat(parts)|
  {
    hide Concat;
    n := 0;
    var i: nat := 0;
    NoPieces(parts[..0]);
    while i < |parts|
      invariant i <= |parts| && n == |Concat(parts[..i])|
    {
      ConcatNext(parts, i);
      n := n + |parts[i]|;
      i := i + 1;
    }
    assert parts[..i] == parts;
  }

  /** Where each part starts, by a running total. */
  method RunningStarts(parts: seq<seq<byte>>) returns (starts: seq<nat>, total: nat)
    ensures starts == Starts(parts) && total == |Concat(parts)|
  {
    hide Concat, Starts;
    starts, total := [], 0;
    var i: nat := 0;
    NoPieces(parts[..0]);
    while i < |parts|
      invariant i <= |parts| && starts == Starts(parts[..i]) && total == |Concat(parts[..i])|
    {
      PiecesSnoc(parts[..i], parts[i]);
      assert parts[..i] + [parts[i]] == parts[..i + 1];
      starts := starts + [total];
      total := total + |parts[i]|;
      i := i + 1;
    }
    assert parts[..i] == parts;
  }

  method Bodies(rows: seq<seq<seq<byte>>>, w: nat) returns (bodies: seq<seq<byte>>)
    requires LargestRow(rows) < Pow256(w)
    ensures bodies == Records(rows, w)
  {
    hide Concat, Starts, OffsetTable, Pow256, LargestRow;
    bodies := [];
    var i: nat := 0;
    while i < |rows|
      invariant i <= |rows| && |bodies| == i
      invariant forall j :: 0 <= j < i ==> bodies[j] == Concat(rows[j]) + OffsetTable(rows[j], w)
    {
      RowBelowLargest(rows, i);
      var starts, total := RunningStarts(rows[i]);
      var data := Join(rows[i]);
      var table := Offsets(starts, w, rows[i]);
      bodies := bodies + [data + table];
      i := i + 1;
    }
  }

  method Slots(keys: seq<seq<byte>>) returns (slots: Option<seq<byte>>)
    requires forall i :: 0 <= i < |keys| ==> |keys[i]| < 255
    ensures slots == if |Concat(keys)| <= 0xFF_FFFF then Some(KeySlots(keys)) else None
  {
    hide Concat, KeySlots, Le, KeySlot;
    var out: seq<byte> := [];
    var keyOffset: nat := 0;
    var i: nat := 0;
    NoPieces(keys[..0]);
    NoSlots(keys);
    while i < |keys|
      invariant i <= |keys| && keyOffset == |Concat(keys[..i])| <= 0xFF_FFFF && out == KeySlots(keys[..i])
    {
      var at := keyOffset;
      keyOffset := keyOffset + |keys[i]|;
      ConcatNext(keys, i);
      ConcatPrefix(keys, i + 1);
      if keyOffset > 0xFF_FFFF {
        return None;
      }
      SlotsSnoc(keys, i);
      KeySlotIs(keys, i);
      SlotBytes(at, |keys[i]|);
      SmallPowers();
      var code := LittleEndian(at, 3);
      out := out + code.value + [|keys[i]|];
      i := i + 1;
    }
    assert keys[..i] == keys;
    return Some(out);
  }

  lemma AcceptedKeysFit(keys: seq<seq<byte>>)
    requires KeysAccepted(keys)
    ensures KeysFit(keys)
  {
    hide Concat;
    forall i | 0 <= i < |keys| ensures KeyFits(keys, i) {
      ConcatPrefix(keys, i);
      PrefixShorter(Concat(keys[..i]), Concat(keys));
    }
  }

  lemma PrefixShorter(a: seq<byte>, b: seq<byte>)
    requires a <= b
    ensures |a| <= |b|
  {
  }

  function ToRows(records: seq<JsRecord>): (r: seq<Row>)
    ensures |r| == |records|
  {
    seq(|records|, i requires 0 <= i < |records| => ToRow(records[i]))
  }

  lemma RowsDone(hash: seq<byte> -> byte, records: seq<JsRecord>, keys: seq<seq<byte>>, rows: seq<seq<seq<byte>>>)
    requires |records| <= 0xFFFF && KeysAccepted(keys) && |rows| == |records|
    requires forall i :: 0 <= i < |records| ==> KeysOf(records[i].fields) == keys
    requires forall i :: 0 <= i < |rows| ==> EncodeAll(hash, ToRow(records[i]).cells) == Some(rows[i])
    ensures Encode(hash, RowArray(keys, ToRows(records))) == RowsOf(hash, keys, rows)
  {
    hide Encode, EncodeAll, EncodeRows, RowsOf, KeysFit, KeysAccepted;
    AcceptedKeysFit(keys);
    RowsEncoded(hash, ToRows(records), rows);
    RowArrayCode(hash, keys, ToRows(records));
    forall r | r in ToRows(records) ensures |r.cells| == |keys| {
      var i: nat :| i < |records| && r == ToRows(records)[i];
      assert |KeysOf(records[i].fields)| == |keys|;
    }
  }

  lemma RowFailed(hash: seq<byte> -> byte, records: seq<JsRecord>, keys: seq<seq<byte>>, i: nat)
    requires i < |records| && EncodeAll(hash, ToRow(records[i]).cells) == None
    ensures Encode(hash, RowArray(keys, ToRows(records))) == None
  {
    hide Encode, EncodeAll, EncodeRows, RowsOf, KeysFit;
    var rows := ToRows(records);
    RowArrayCode(hash, keys, rows);
    if EncodeRows(hash, rows).Some? { RowEncodedAt(hash, rows, EncodeRows(hash, rows).value, i); }
  }

  lemma TooManyRows(hash: seq<byte> -> byte, records: seq<JsRecord>, keys: seq<seq<byte>>)
    requires |records| > 0xFFFF
    ensures Encode(hash, RowArray(keys, ToRows(records))) == None
  {
    hide Encode, EncodeRows, RowsOf, KeysFit;
    RowArrayCode(hash, keys, ToRows(records));
  }

  /** Some keys, none longer than 254 bytes. */
  predicate ShortKeys(keys: seq<seq<byte>>) {
    keys != [] && forall i :: 0 <= i < |keys| ==> |keys[i]| < 255
  }

  method RowsCode(hash: seq<byte> -> byte, records: seq<JsRecord>, schema: Option<seq<seq<byte>>>, depth: nat)
    returns (code: Option<seq<byte>>)
    requires depth <= MAX_DEPTH
    ensures var keys := RowKeys(records, schema);
            Alike(code,
                  if KeysAccepted(keys) && forall i :: 0 <= i < |records| ==> RecordAccepted(records[i], keys, depth + 1)
                  then Encode(hash, RowArray(keys, ToRows(records))) else None,
                  forall i :: 0 <= i < |records| ==> PlainRecord(records[i]))
    decreases Deeper(depth), 4
  {
    hide Encode, EncodeAll, RowsOf, PlainRecord, Accepted, Concat, ToRow, CellsAlike, Pairwise;
    var keys := RowKeys(records, schema);
    if |records| > 65535 {
      TooManyRows(hash, records, keys);
      return None;
    }
    if !ShortKeys(keys) {
      return None;
    }
    var ok, rows, specs := CellsOfAll(hash, records, keys, depth + 1);
    if !ok {
      forall i | 0 <= i < |records| && EncodeAll(hash, ToRow(records[i]).cells) == None
        ensures Encode(hash, RowArray(keys, ToRows(records))) == None
      {
        RowFailed(hash, records, keys, i);
      }
      return None;
    }
    RowsAlike(hash, records, rows, specs);
    RowArraysAlike(hash, keys, rows, specs);
    var slots := Slots(keys);
    if KeysAccepted(keys) { RowsDone(hash, records, keys, specs); }
    if slots == None {
      return None;
    }
    code := AssembleRows(hash, keys, slots.value, rows);
  }

  method AssembleRows(hash: seq<byte> -> byte, keys: seq<seq<byte>>, slots: seq<byte>, rows: seq<seq<seq<byte>>>)
    returns (code: Option<seq<byte>>)
    requires |rows| <= 0xFFFF && slots == KeySlots(keys)
    ensures code == RowsOf(hash, keys, rows)
  {
    hide Concat, Starts, OffsetTable, Records, LargestRow, RowsOf, KeySlots, KeyHashes, VaruintEncode, Count16, Le, Pow256;
    RowsOfParts(hash, keys, rows);
    var largest := LargestOf(rows);
    var sw := WidthOf(largest);
    if sw == None {
      return None;
    }
    WidthFits(largest, sw.value);
    var bodies := Bodies(rows, sw.value);
    var starts, total := RunningStarts(bodies);
    var rw := WidthOf(total);
    if rw == None {
      return None;
    }
    WidthFits(total, rw.value);
    var k := JsVaruint(|keys|);
    if k == None {
      return None;
    }
    var hashes := Hashes(hash, keys);
    var area := Join(keys);
    var body := Join(bodies);
    var table := Offsets(starts, rw.value, bodies);
    CountCode(|rows|);
    var count := LittleEndian(|rows|, 2);
    return Some([0xC1, (sw.value - 1) + (rw.value - 1) * 4] + k.value + slots + hashes + area + body + table + count.value);
  }

  /** A whole value: the second encoder fails or writes as many bytes as the first, and the same
      bytes exactly for the values without a flagged float. */
  method JsEncodeValue(hash: seq<byte> -> byte, v: JsValue) returns (code: Option<seq<byte>>)
    ensures Alike(code, if Accepted(v, 0) then Encode(hash, ToValue(v)) else None, Plain(v))
    ensures Plain(v) ==> code == if Accepted(v, 0) then Encode(hash, ToValue(v)) else None
  {
    code := JsEncode(hash, v, 0);
  }
}
