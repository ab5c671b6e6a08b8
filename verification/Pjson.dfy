/** Pjson values and the bytes they are encoded to
    (cpp/conformance/pjson_conformance_driver.cpp, lines 60-230, 495-592 and 953-1223). */
module Pjson {
  import opened ByteStrings
  import opened Wrappers
  import opened PjsonNumbers

  datatype Entry = Entry(key: seq<byte>, value: Value)

  datatype Row = Row(cells: seq<Value>)

  datatype Value =
    | Null
    | Bool(b: bool)
    | Uint(n: nat)
    | NegInt(magnitude: nat)
    | Float(width: nat, bits: nat)
    | Decimal(mantissa: int, scale: int)
    | Array(children: seq<Value>)
    | TypedArray(code: nat, raw: seq<byte>)
    | Object(entries: seq<Entry>)
    | RowArray(keys: seq<seq<byte>>, rows: seq<Row>)
    | Text(flag: nat, text: seq<byte>)
    | Bytes(hint: nat, content: seq<byte>)
    | NumericString(inner: Value)
    | Extension(subtype: nat, body: seq<byte>)

  const TWO_31 := 0x8000_0000

  /** The ranges of the fields' types; a float's bits fit its width. */
  predicate InRange(v: Value) {
    match v
    case Uint(n) => n < TWO_128
    case NegInt(m) => m < TWO_128
    case Float(w, bits) => w < 256 && bits < TWO_128 && (1 <= w <= 4 ==> bits < Pow256(FloatBytes(w)))
    case Decimal(m, s) => -TWO_127 <= m < TWO_127 && -TWO_31 <= s < TWO_31
    case Array(children) => forall c :: c in children ==> InRange(c)
    case Object(entries) => forall e :: e in entries ==> InRange(e.value)
    case RowArray(_, rows) => forall r :: r in rows ==> forall c :: c in r.cells ==> InRange(c)
    case NumericString(inner) => InRange(inner)
    case _ => true
  }

  predicate IsNumeric(v: Value) {
    v.Uint? || v.NegInt? || v.Float? || v.Decimal?
  }

  function FloatBytes(w: nat): nat
    requires 1 <= w <= 4
  {
    if w == 1 then 2 else if w == 2 then 4 else if w == 3 then 8 else 16
  }

  // ---------------------------------------------------------------- NaNs

  /** The exponent all ones in the field of each width, and the quiet NaN without payload. */
  function ExponentOnes(w: nat): nat
    requires 1 <= w <= 4
  {
    if w == 1 then 0x1F else if w == 2 then 0xFF else if w == 3 then 0x7FF else 0x7FFF
  }

  function MantissaRange(w: nat): (n: nat)
    requires 1 <= w <= 4
    ensures n >= 2
  {
    if w == 1 then 0x400 else if w == 2 then 0x80_0000 else if w == 3 then 0x10_0000_0000_0000
    else 0x1_0000_0000_0000_0000_0000_0000_0000
  }

  predicate IsNaN(w: nat, bits: nat)
    requires 1 <= w <= 4
  {
    bits / MantissaRange(w) % (ExponentOnes(w) + 1) == ExponentOnes(w) && bits % MantissaRange(w) != 0
  }

  function CanonicalNaN(w: nat, bits: nat): nat
    requires 1 <= w <= 4
  {
    if IsNaN(w, bits) then ExponentOnes(w) * MantissaRange(w) + MantissaRange(w) / 2 else bits
  }

  /** The value that encoding keeps: NaNs lose their sign and payload. */
  function Canonical(v: Value): Value {
    match v
    case Float(w, bits) => if 1 <= w <= 4 then Float(w, CanonicalNaN(w, bits)) else v
    case Array(children) => Array(CanonicalAll(children))
    case Object(entries) => Object(CanonicalEntries(entries))
    case RowArray(keys, rows) => RowArray(keys, CanonicalRows(rows))
    case NumericString(inner) => NumericString(Canonical(inner))
    case _ => v
  }

  function CanonicalAll(vs: seq<Value>): (r: seq<Value>)
    ensures |r| == |vs|
  {
    if vs == [] then [] else [Canonical(vs[0])] + CanonicalAll(vs[1..])
  }

  function CanonicalEntries(es: seq<Entry>): (r: seq<Entry>)
    ensures |r| == |es|
  {
    if es == [] then [] else [Entry(es[0].key, Canonical(es[0].value))] + CanonicalEntries(es[1..])
  }

  function CanonicalRows(rows: seq<Row>): (r: seq<Row>)
    ensures |r| == |rows|
  {
    if rows == [] then [] else [Row(CanonicalAll(rows[0].cells))] + CanonicalRows(rows[1..])
  }

  // ---------------------------------------------------------------- offset tables

  /** Pieces laid one after the other. */
  function Concat(pieces: seq<seq<byte>>): seq<byte> {
    if pieces == [] then [] else Concat(pieces[..|pieces| - 1]) + pieces[|pieces| - 1]
  }

  /** The bytes for an offset into `size` bytes of data. */
  function OffsetWidth(size: nat): Option<nat> {
    if size <= 0xFF then Some(1)
    else if size <= 0xFFFF then Some(2)
    else if size <= 0xFF_FFFF then Some(3)
    else if size <= 0xFFFF_FFFF then Some(4)
    else None
  }

  /** Where each piece starts. */
  function OffsetTable(pieces: seq<seq<byte>>, w: nat): (s: seq<byte>)
    ensures |s| == |pieces| * w
  {
    if pieces == [] then [] else OffsetTable(pieces[..|pieces| - 1], w) + Le(|Concat(pieces[..|pieces| - 1])|, w)
  }

  /** Where each piece starts, each offset with a byte of its own behind it. */
  function SizedOffsetTable(pieces: seq<seq<byte>>, sizes: seq<byte>, w: nat): (s: seq<byte>)
    requires |pieces| == |sizes|
    ensures |s| == |pieces| * (w + 1)
  {
    if pieces == [] then []
    else
      var n := |pieces| - 1;
      SizedOffsetTable(pieces[..n], sizes[..n], w) + Le(|Concat(pieces[..n])|, w) + [sizes[n]]
  }

  /** A two-byte count. */
  function Count16(n: nat): seq<byte> {
    [n % 256, n / 256 % 256]
  }

  // ---------------------------------------------------------------- leaves

  function TaggedBytes(tag: nat, bytes: seq<byte>): seq<byte>
    requires tag <= 15 && 1 <= |bytes| <= 16
  {
    [tag * 16 + (|bytes| - 1)] + bytes
  }

  function EncodeMagnitude(inlineTag: nat, tag: nat, n: nat): Option<seq<byte>>
    requires inlineTag <= 15 && tag <= 15
  {
    if n <= 15 then Some([inlineTag * 16 + n])
    else if |MinimalLe(n)| > 16 then None
    else Some(TaggedBytes(tag, MinimalLe(n)))
  }

  function EncodeFloat(w: nat, bits: nat): Option<seq<byte>> {
    if w < 1 || w > 4 then None
    else Some([0x60 + w] + Le(CanonicalNaN(w, bits), FloatBytes(w)))
  }

  function DecimalBytes(m: int): (s: seq<byte>)
    ensures |s| >= 1
  {
    var zz := ZigzagEncode(m, TWO_128);
    if zz == 0 then [0] else MinimalLe(zz)
  }

  function EncodeDecimal(m: int, s: int): Option<seq<byte>> {
    if |DecimalBytes(m)| > 16 then None
    else
      match VaruintEncode(ZigzagEncode(s, U32_LIMIT))
      case None => None
      case Some(scale) => Some(TaggedBytes(7, DecimalBytes(m)) + scale)
  }

  /** Bytes per element of a typed array; 0 for codes that do not exist. */
  function ElementSize(code: nat): nat {
    if code == 0 || code == 4 then 1
    else if code == 1 || code == 5 then 2
    else if code == 2 || code == 6 || code == 8 then 4
    else if code == 3 || code == 7 || code == 9 then 8
    else 0
  }

  function EncodeTypedArray(code: nat, raw: seq<byte>): Option<seq<byte>> {
    var size := ElementSize(code);
    if size == 0 || |raw| % size != 0 || |raw| / size > 0xFFFF then None
    else Some([0xB0 + (code + 1)] + raw + Count16(|raw| / size))
  }

  // ---------------------------------------------------------------- containers

  /** The length byte of a key, and what stands before the key: long keys have the excess over
      255 there. */
  function KeySizeByte(key: seq<byte>): byte {
    if |key| < 0xFF then |key| else 0xFF
  }

  function KeyPrefix(key: seq<byte>): Option<seq<byte>> {
    if |key| < 0xFF then Some([]) else VaruintEncode(|key| - 0xFF)
  }

  function KeyHashes(hash: seq<byte> -> byte, keys: seq<seq<byte>>): (s: seq<byte>)
    ensures |s| == |keys|
  {
    if keys == [] then [] else KeyHashes(hash, keys[..|keys| - 1]) + [hash(keys[|keys| - 1])]
  }

  function Keys(entries: seq<Entry>): (r: seq<seq<byte>>)
    ensures |r| == |entries|
  {
    seq(|entries|, i requires 0 <= i < |entries| => entries[i].key)
  }

  function KeySizeBytes(entries: seq<Entry>): (r: seq<byte>)
    ensures |r| == |entries|
  {
    seq(|entries|, i requires 0 <= i < |entries| => KeySizeByte(entries[i].key))
  }

  function ArrayOf(pieces: seq<seq<byte>>): Option<seq<byte>> {
    var data := Concat(pieces);
    match OffsetWidth(|data|)
    case None => None
    case Some(w) => Some([0xB0, w - 1] + data + OffsetTable(pieces, w) + Count16(|pieces|))
  }

  function ObjectOf(hash: seq<byte> -> byte, entries: seq<Entry>, pieces: seq<seq<byte>>): Option<seq<byte>>
    requires |pieces| == |entries|
  {
    var data := Concat(pieces);
    match OffsetWidth(|data|)
    case None => None
    case Some(w) =>
      Some([0xC0, w - 1] + data + KeyHashes(hash, Keys(entries)) +
           SizedOffsetTable(pieces, KeySizeBytes(entries), w) + Count16(|entries|))
  }

  /** The slots of shared keys: where each starts in the key area, and its length. */
  function KeySlots(keys: seq<seq<byte>>): (s: seq<byte>)
    ensures |s| == 4 * |keys|
  {
    if keys == [] then []
    else
      var n := |keys| - 1;
      KeySlots(keys[..n]) + Le(|Concat(keys[..n])| % 0x100_0000 + |keys[n]| % 256 * 0x100_0000, 4)
  }

  /** Every shared key starts below 2^24 and is at most 255 bytes long. */
  predicate KeysFit(keys: seq<seq<byte>>) {
    forall i :: 0 <= i < |keys| ==> KeyFits(keys, i)
  }

  predicate KeyFits(keys: seq<seq<byte>>, i: nat)
    requires i < |keys|
  {
    |Concat(keys[..i])| <= 0xFF_FFFF && |keys[i]| <= 0xFF
  }

  /** The records: each its cells, then the offsets of the cells. */
  function Records(rows: seq<seq<seq<byte>>>, w: nat): (r: seq<seq<byte>>)
    ensures |r| == |rows|
  {
    seq(|rows|, i requires 0 <= i < |rows| => Concat(rows[i]) + OffsetTable(rows[i], w))
  }

  /** The size of the largest record's cells. */
  function LargestRow(rows: seq<seq<seq<byte>>>): nat {
    if rows == [] then 0
    else
      var n := |rows| - 1;
      var rest := LargestRow(rows[..n]);
      if |Concat(rows[n])| > rest then |Concat(rows[n])| else rest
  }

  function RowsOf(hash: seq<byte> -> byte, keys: seq<seq<byte>>, rows: seq<seq<seq<byte>>>): Option<seq<byte>> {
    match OffsetWidth(LargestRow(rows))
    case None => None
    case Some(slotW) =>
      var records := Records(rows, slotW);
      match OffsetWidth(|Concat(records)|)
      case None => None
      case Some(recoffW) =>
        match VaruintEncode(|keys|)
        case None => None
        case Some(k) =>
          Some([0xC1, (slotW - 1) + (recoffW - 1) * 4] + k + KeySlots(keys) + KeyHashes(hash, keys) + Concat(keys) +
               Concat(records) + OffsetTable(records, recoffW) + Count16(|rows|))
  }

  function Encode(hash: seq<byte> -> byte, v: Value): Option<seq<byte>>
    decreases v
  {
    match v
    case Null => Some([0x00])
    case Bool(b) => Some([if b then 0x11 else 0x10])
    case Uint(n) => EncodeMagnitude(2, 4, n)
    case NegInt(m) => if m == 0 then None else EncodeMagnitude(3, 5, m)
    case Float(w, bits) => EncodeFloat(w, bits)
    case Decimal(m, s) => EncodeDecimal(m, s)
    case Array(children) =>
      if |children| > 0xFFFF then None
      else
        (match EncodeAll(hash, children)
         case None => None
         case Some(pieces) => ArrayOf(pieces))
    case TypedArray(code, raw) => EncodeTypedArray(code, raw)
    case Object(entries) =>
      if |entries| > 0xFFFF then None
      else
        (match EncodeEntries(hash, entries)
         case None => None
         case Some(pieces) => ObjectOf(hash, entries, pieces))
    case RowArray(keys, rows) =>
      if |rows| > 0xFFFF || (exists r :: r in rows && |r.cells| != |keys|) || !KeysFit(keys) then None
      else
        (match EncodeRows(hash, rows)
         case None => None
         case Some(pieces) => RowsOf(hash, keys, pieces))
    case Text(flag, text) => if flag > 1 then None else Some([0x90 + flag] + text)
    case Bytes(hint, content) => if hint > 3 then None else Some([0xA0 + hint] + content)
    case NumericString(inner) =>
      if !IsNumeric(inner) then None
      else
        (match Encode(hash, inner)
         case None => None
         case Some(code) => Some([0x80] + code))
    case Extension(subtype, body) => if subtype > 15 then None else Some([0xD0 + subtype] + body)
  }

  function EncodeAll(hash: seq<byte> -> byte, vs: seq<Value>): (r: Option<seq<seq<byte>>>)
    ensures r.Some? ==> |r.value| == |vs|
    decreases vs
  {
    if vs == [] then Some([])
    else
      var first, rest := Encode(hash, vs[0]), EncodeAll(hash, vs[1..]);
      if first.Some? && rest.Some? then Some([first.value] + rest.value) else None
  }

  function EncodeEntry(hash: seq<byte> -> byte, e: Entry): Option<seq<byte>>
    decreases e
  {
    var prefix, code := KeyPrefix(e.key), Encode(hash, e.value);
    if prefix.Some? && code.Some? then Some(prefix.value + e.key + code.value) else None
  }

  function EncodeEntries(hash: seq<byte> -> byte, es: seq<Entry>): (r: Option<seq<seq<byte>>>)
    ensures r.Some? ==> |r.value| == |es|
    decreases es
  {
    if es == [] then Some([])
    else
      var first, rest := EncodeEntry(hash, es[0]), EncodeEntries(hash, es[1..]);
      if first.Some? && rest.Some? then Some([first.value] + rest.value) else None
  }

  function EncodeRows(hash: seq<byte> -> byte, rows: seq<Row>): (r: Option<seq<seq<seq<byte>>>>)
    ensures r.Some? ==> |r.value| == |rows| && forall i :: 0 <= i < |rows| ==> |r.value[i]| == |rows[i].cells|
    decreases rows
  {
    if rows == [] then Some([])
    else
      var first, rest := EncodeAll(hash, rows[0].cells), EncodeRows(hash, rows[1..]);
      if first.Some? && rest.Some? then Some([first.value] + rest.value) else None
  }
}
