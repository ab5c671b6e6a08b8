/** The bytes a pjson value can be read from, as a relation between the two
    (cpp/conformance/pjson_conformance_driver.cpp, lines 1290-1675). */
module PjsonGrammar {
  import opened ByteStrings
  import opened Pjson
  import opened PjsonDecode
  import opened PjsonNumbers
  import opened Wrappers

  // ---------------------------------------------------------------- the relation

  /** The number of w bytes at pos, lowest byte first. */
  function Num(b: seq<byte>, pos: int, w: nat): nat {
    if 0 <= pos && pos + w <= |b| then Unle(b[pos..pos + w]) else 0
  }

  /** A first byte and 1 to 16 bytes of a magnitude, whose number the first byte gives. */
  predicate Magnitude(b: seq<byte>, tag: nat, n: nat) {
    2 <= |b| <= 17 && b[0] == tag + (|b| - 2) && Num(b, 1, |b| - 1) == n
  }

  /** The mantissa behind its size, then the scale as a varuint that ends the bytes. */
  predicate DecimalWire(b: seq<byte>, m: int, s: int) {
    && |b| >= 1 && 0x70 <= b[0] <= 0x7F
    && var end := b[0] - 0x70 + 2;
    && end <= |b| && Num(b, 1, end - 1) < TWO_128
    && m == ZigzagDecode(Num(b, 1, end - 1), TWO_128)
    && var scale := VaruintDecode(b[end..]);
    && scale.Some? && end + scale.value.used == |b| && s == ZigzagDecode(scale.value.value, U32_LIMIT)
  }

  /** The bytes per element of the ten kinds of typed arrays. */
  const ELEMENT_SIZES: seq<nat> := [1, 2, 4, 8, 1, 2, 4, 8, 4, 8]

  predicate LeafWire(b: seq<byte>, v: Value) {
    match v
    case Null => b == [0x00]
    case Bool(x) => b == [if x then 0x11 else 0x10]
    case Uint(n) => (n <= 15 && b == [0x20 + n]) || Magnitude(b, 0x40, n)
    case NegInt(m) => m != 0 && ((m <= 15 && b == [0x30 + m]) || Magnitude(b, 0x50, m))
    case Float(w, bits) =>
      1 <= w <= 4 && |b| == [3, 5, 9, 17][w - 1] && b[0] == 0x60 + w && Num(b, 1, |b| - 1) == bits
    case Decimal(m, s) => DecimalWire(b, m, s)
    case Text(flag, text) => flag <= 1 && b == [0x90 + flag] + text
    case Bytes(hint, content) => hint <= 3 && b == [0xA0 + hint] + content
    case TypedArray(code, raw) =>
      && code < 10 && |b| >= 3 && b[0] == 0xB1 + code && raw == b[1..|b| - 2]
      && |raw| == Num(b, |b| - 2, 2) * ELEMENT_SIZES[code]
    case Extension(subtype, body) => subtype <= 15 && b == [0xD0 + subtype] + body
    case _ => false
  }

  /** The i-th of n pieces of `size` bytes of data starts at the offset that stands at pos + i * step,
      and ends where the next one starts or at the end. */
  function From(b: seq<byte>, pos: nat, w: nat, step: nat, i: nat): nat {
    Num(b, pos + i * step, w)
  }

  function To(b: seq<byte>, pos: nat, w: nat, step: nat, n: nat, size: nat, i: nat): nat {
    if i + 1 < n then Num(b, pos + (i + 1) * step, w) else size
  }

  predicate Piece(b: seq<byte>, pos: nat, w: nat, step: nat, n: nat, size: nat, i: nat) {
    From(b, pos, w, step, i) <= To(b, pos, w, step, n, size, i) <= size
  }

  /** The bytes in front of a value in an entry: the key behind nothing if its length byte is not 255, and
      else behind a varuint of its excess over 255. */
  predicate KeyAt(entry: seq<byte>, sizeByte: nat, key: seq<byte>, used: nat) {
    if sizeByte != 0xFF then used == sizeByte <= |entry| && key == entry[..used]
    else
      && VaruintDecode(entry).Some?
      && var prefix := VaruintDecode(entry).value;
      used == prefix.used + (0xFF + prefix.value) <= |entry| && key == entry[prefix.used..used]
  }

  /** Where the value of an entry starts. */
  function KeyEnd(entry: seq<byte>, sizeByte: nat): nat {
    if sizeByte != 0xFF then sizeByte
    else if VaruintDecode(entry).Some? then VaruintDecode(entry).value.used + (0xFF + VaruintDecode(entry).value.value)
    else 0
  }

  /** The i-th of n values is read from its piece of the data. */
  predicate ValueAt(hash: seq<byte> -> byte, b: seq<byte>, pos: nat, w: nat, n: nat, data: seq<byte>, v: Value, i: nat, depth: nat)
    decreases v, 1
  {
    && Piece(b, pos, w, w, n, |data|, i)
    && Wire(hash, data[From(b, pos, w, w, i)..To(b, pos, w, w, n, |data|, i)], v, depth + 1)
  }

  /** The values are read from pieces of the data, the table of whose offsets of w bytes is at pos. */
  predicate AllWire(hash: seq<byte> -> byte, b: seq<byte>, pos: nat, w: nat, data: seq<byte>, vs: seq<Value>, depth: nat)
    decreases vs, 0
  {
    forall i :: 0 <= i < |vs| ==> ValueAt(hash, b, pos, w, |vs|, data, vs[i], i, depth)
  }

  /** An entry is read from its piece: the key, whose hash is h, and the value. */
  predicate EntryWire(hash: seq<byte> -> byte, entry: seq<byte>, sizeByte: nat, h: nat, e: Entry, depth: nat)
    decreases e, 0
  {
    var used := KeyEnd(entry, sizeByte);
    KeyAt(entry, sizeByte, e.key, used) && h == hash(e.key) as int && Wire(hash, entry[used..], e.value, depth + 1)
  }

  /** The i-th of n entries is read from its piece of the data; each offset of w bytes in the table at
      pos has the key's length byte behind it. */
  predicate EntryAt(hash: seq<byte> -> byte, b: seq<byte>, pos: nat, w: nat, n: nat, data: seq<byte>, h: nat, e: Entry, i: nat, depth: nat)
    decreases e, 1
  {
    && Piece(b, pos, w, w + 1, n, |data|, i)
    && EntryWire(hash, data[From(b, pos, w, w + 1, i)..To(b, pos, w, w + 1, n, |data|, i)],
                 Num(b, pos + i * (w + 1) + w, 1), h, e, depth)
  }

  /** The tag and the width, the data, the table of offsets and the count. */
  predicate ArrayWire(hash: seq<byte> -> byte, b: seq<byte>, children: seq<Value>, depth: nat)
    decreases children, 1
  {
    var n := |children|;
    && |b| >= 4 && b[0] == 0xB0 && b[1] < 4 && n == Num(b, |b| - 2, 2)
    && var w: nat := (b[1] + 1) as int;
    var size := |b| - 4 - w * n;
    && size >= 0 && (w == 4 || size < Pow256(w))
    && AllWire(hash, b, 2 + size, w, b[2..2 + size], children, depth)
  }

  predicate ObjectWire(hash: seq<byte> -> byte, b: seq<byte>, entries: seq<Entry>, depth: nat)
    decreases entries
  {
    var n := |entries|;
    && |b| >= 4 && b[0] == 0xC0 && b[1] < 4 && n == Num(b, |b| - 2, 2)
    && var w: nat := (b[1] + 1) as int;
    var size := |b| - 4 - n - (w + 1) * n;
    && size >= 0
    && forall i :: 0 <= i < n ==>
         EntryAt(hash, b, 2 + size + n, w, n, b[2..2 + size], Num(b, 2 + size + i, 1), entries[i], i, depth)
  }

  /** A record: the data of its cells, then their offsets. */
  predicate RecordWire(hash: seq<byte> -> byte, record: seq<byte>, cells: seq<Value>, w: nat, depth: nat)
    decreases cells, 1
  {
    var size := |record| - |cells| * w;
    size >= 0 && AllWire(hash, record, size, w, record[..size], cells, depth)
  }

  /** The lengths of k shared keys, each behind three bytes. */
  function KeyLengths(b: seq<byte>, pos: nat, k: nat): (r: seq<nat>)
    ensures |r| == k
  {
    seq(k, i requires 0 <= i < k => Num(b, pos + 4 * i + 3, 1))
  }

  /** The end of k shared keys whose slots are at pos: the slots, the hashes, and the keys themselves. */
  function KeysEnd(b: seq<byte>, pos: nat, k: nat): nat {
    pos + 5 * k + Sum(KeyLengths(b, pos, k))
  }

  /** The i-th of k shared keys lies in the key area where its slot says, and has the hash listed for it. */
  predicate SharedKeyAt(hash: seq<byte> -> byte, b: seq<byte>, pos: nat, k: nat, key: seq<byte>, i: nat)
    requires KeysEnd(b, pos, k) <= |b|
  {
    var start, length := pos + 5 * k + Num(b, pos + 4 * i, 3), Num(b, pos + 4 * i + 3, 1);
    start + length <= KeysEnd(b, pos, k) && key == b[start..start + length] && Num(b, pos + 4 * k + i, 1) == hash(key) as int
  }

  predicate KeysWire(hash: seq<byte> -> byte, b: seq<byte>, pos: nat, keys: seq<seq<byte>>) {
    KeysEnd(b, pos, |keys|) <= |b| && forall i :: 0 <= i < |keys| ==> SharedKeyAt(hash, b, pos, |keys|, keys[i], i)
  }

  /** The i-th of n records of k cells each is read from its piece of the body. */
  predicate RecordAt(hash: seq<byte> -> byte, b: seq<byte>, pos: nat, wide: nat, n: nat, body: seq<byte>, row: Row, k: nat, w: nat, i: nat,
      depth: nat)
    decreases row, 1
  {
    && Piece(b, pos, wide, wide, n, |body|, i) && |row.cells| == k
    && RecordWire(hash, body[From(b, pos, wide, wide, i)..To(b, pos, wide, wide, n, |body|, i)], row.cells, w, depth)
  }

  /** The records of k cells each lie behind `end` and before the table of their offsets. */
  predicate RecordsWire(hash: seq<byte> -> byte, b: seq<byte>, end: nat, rows: seq<Row>, k: nat, w: nat, wide: nat, depth: nat)
    decreases rows, 0
  {
    var n, size := |rows|, |b| - 2 - |rows| * wide - end;
    && |b| >= 2 && n == Num(b, |b| - 2, 2) && size >= 0
    && forall i :: 0 <= i < n ==> RecordAt(hash, b, end + size, wide, n, b[end..end + size], rows[i], k, w, i, depth)
  }

  /** Shared keys, then the records. */
  predicate RowsWire(hash: seq<byte> -> byte, b: seq<byte>, keys: seq<seq<byte>>, rows: seq<Row>, depth: nat)
    decreases rows, 1
  {
    && |b| >= 5 && b[0] == 0xC1 && b[1] < 16 && VaruintDecode(b[2..]).Some?
    && var count: Varuint, widths: nat := VaruintDecode(b[2..]).value, b[1] as int;
    && count.value == |keys| && KeysWire(hash, b, 2 + count.used, keys)
    && RecordsWire(hash, b, KeysEnd(b, 2 + count.used, |keys|), rows, |keys|, widths % 4 + 1, widths / 4 + 1, depth)
  }

  /** The value v can be read from the bytes b, nested `depth` containers deep. */
  predicate Wire(hash: seq<byte> -> byte, b: seq<byte>, v: Value, depth: nat)
    decreases v, 0
  {
    && depth < 256 && b != []
    && match v
       case Array(children) => ArrayWire(hash, b, children, depth)
       case Object(entries) => ObjectWire(hash, b, entries, depth)
       case NumericString(inner) => b[0] == 0x80 && IsNumeric(inner) && Wire(hash, b[1..], inner, depth + 1)
       case RowArray(keys, rows) => RowsWire(hash, b, keys, rows, depth)
       case _ => LeafWire(b, v)
  }

  // ---------------------------------------------------------------- leaves

  lemma NumRest(b: seq<byte>)
    requires |b| >= 1
    ensures Num(b, 1, |b| - 1) == Unle(b[1..]) && b == [b[0]] + b[1..]
  {
    assert b[1..1 + (|b| - 1)] == b[1..];
  }

  /** The upper half of the first byte is the kind of value. */
  function Kind(v: Value, first: nat): nat {
    match v
    case Null => 0
    case Bool(_) => 1
    case Uint(_) => if first < 0x40 then 2 else 4
    case NegInt(_) => if first < 0x50 then 3 else 5
    case Float(_, _) => 6
    case Decimal(_, _) => 7
    case Text(_, _) => 9
    case Bytes(_, _) => 10
    case TypedArray(_, _) => 11
    case Extension(_, _) => 13
    case _ => 16
  }

  lemma LeafKind(b: seq<byte>, v: Value)
    requires |b| >= 1
    ensures LeafWire(b, v) ==> b[0] / 16 == Kind(v, b[0])
    ensures DecodeLeaf(b, b[0] / 16, b[0] % 16) == Ok(v) ==> b[0] / 16 == Kind(v, b[0])
  {
    hide Num, Unle, VaruintDecode, ZigzagDecode;
  }

  lemma ShortLeafIff(b: seq<byte>, v: Value)
    requires |b| >= 1 && b[0] < 0x40
    ensures DecodeLeaf(b, b[0] / 16, b[0] % 16) == Ok(v) <==> LeafWire(b, v)
  {
    LeafKind(b, v);
    hide Num, Unle, DecodeDecimal, DecimalWire, DecodeTypedArray;
    var x := b[0];
    if |b| == 1 { assert b == [x]; }
    if x < 0x10 {
    } else if x < 0x20 {
    } else if x < 0x30 {
    } else {
    }
  }

  lemma MagnitudeIff(b: seq<byte>, v: Value)
    requires |b| >= 1 && 0x40 <= b[0] < 0x60
    ensures DecodeLeaf(b, b[0] / 16, b[0] % 16) == Ok(v) <==> LeafWire(b, v)
  {
    LeafKind(b, v);
    hide Num, Unle, DecodeDecimal, DecimalWire, DecodeTypedArray;
    NumRest(b);
    if b[0] < 0x50 {
    } else {
    }
  }

  lemma FloatIff(b: seq<byte>, v: Value)
    requires |b| >= 1 && 0x60 <= b[0] < 0x70
    ensures DecodeLeaf(b, b[0] / 16, b[0] % 16) == Ok(v) <==> LeafWire(b, v)
  {
    LeafKind(b, v);
    hide Num, Unle, DecodeDecimal, DecimalWire, DecodeTypedArray;
    NumRest(b);
  }

  lemma DecimalIff(b: seq<byte>, v: Value)
    requires |b| >= 1 && 0x70 <= b[0] < 0x80
    ensures DecodeLeaf(b, b[0] / 16, b[0] % 16) == Ok(v) <==> LeafWire(b, v)
  {
    LeafKind(b, v);
    hide Unle, DecodeTypedArray, ZigzagDecode, VaruintDecode;
    var count: nat := (b[0] - 0x70 + 1) as int;
    if 1 + count <= |b| { DecimalInRange(b[1..1 + count]); }
  }

  lemma LongLeafIff(b: seq<byte>, v: Value)
    requires |b| >= 1 && 0x90 <= b[0] && !(0xB0 <= b[0] < 0xC2)
    ensures DecodeLeaf(b, b[0] / 16, b[0] % 16) == Ok(v) <==> LeafWire(b, v)
  {
    LeafKind(b, v);
    hide Num, Unle, DecodeDecimal, DecimalWire, DecodeTypedArray;
    NumRest(b);
  }

  lemma ElementSizes(code: nat)
    requires code < 10
    ensures ElementSize(code) == ELEMENT_SIZES[code] > 0
  {
  }

  lemma TypedTag(b: seq<byte>, low: nat)
    requires |b| >= 1 && low < 16
    ensures DecodeLeaf(b, 11, low) == if 1 <= low <= 10 then DecodeTypedArray(b, low - 1) else Failure
  {
    hide DecodeTypedArray;
  }

  lemma TypedArrayIff(b: seq<byte>, code: nat, v: Value)
    requires |b| >= 1 && code < 10 && b[0] == 0xB1 + code
    ensures DecodeTypedArray(b, code) == Ok(v) <==> v.TypedArray? && LeafWire(b, v)
  {
    hide Unle, ElementSize, ELEMENT_SIZES;
    ElementSizes(code);
  }

  lemma TypedIff(b: seq<byte>, v: Value)
    requires |b| >= 1 && 0xB0 < b[0] < 0xC0
    ensures DecodeLeaf(b, b[0] / 16, b[0] % 16) == Ok(v) <==> LeafWire(b, v)
  {
    LeafKind(b, v);
    hide DecodeLeaf, LeafWire, DecodeTypedArray;
    var low: nat := (b[0] - 0xB0) as int;
    assert b[0] / 16 == 11 && b[0] % 16 == low;
    TypedTag(b, low);
    if low <= 10 { TypedArrayIff(b, low - 1, v); } else { NoTyped(b, v); }
  }

  lemma NoTyped(b: seq<byte>, v: Value)
    requires |b| >= 1 && 0xBA < b[0] < 0xC0
    ensures v.TypedArray? ==> !LeafWire(b, v)
  {
  }

  lemma LeafIff(b: seq<byte>, v: Value)
    requires |b| >= 1 && b[0] / 16 != 8 && b[0] != 0xB0 && b[0] != 0xC0 && b[0] != 0xC1
    ensures DecodeLeaf(b, b[0] / 16, b[0] % 16) == Ok(v) <==> LeafWire(b, v)
  {
    hide DecodeLeaf, LeafWire;
    if b[0] < 0x40 {
      ShortLeafIff(b, v);
    } else if b[0] < 0x60 {
      MagnitudeIff(b, v);
    } else if b[0] < 0x70 {
      FloatIff(b, v);
    } else if b[0] < 0x80 {
      DecimalIff(b, v);
    } else if 0xB0 < b[0] < 0xC0 {
      TypedIff(b, v);
    } else {
      LongLeafIff(b, v);
    }
  }

  // ---------------------------------------------------------------- pieces

  lemma OffsetIs(b: seq<byte>, pos: nat, w: nat, step: nat, n: nat, size: nat, i: nat)
    requires w <= step && pos + n * step <= |b| && i < n
    ensures var offsets := ReadTable(b, pos, 0, w, step, n);
            && offsets[i] == From(b, pos, w, step, i) && NextOffset(offsets, i, size) == To(b, pos, w, step, n, size, i)
            && (InOrder(offsets, i, size) <==> Piece(b, pos, w, step, n, size, i))
  {
    hide ReadTable, Unle;
    TableAt(b, pos, 0, w, step, n, i);
    if i + 1 < n { TableAt(b, pos, 0, w, step, n, i + 1); }
  }

  /** The values of the pieces from the i-th on are read one by one. */
  lemma {:induction false} SpansIff(hash: seq<byte> -> byte, data: seq<byte>, offsets: seq<nat>, i: nat, depth: nat, vs: seq<Value>)
    requires i <= |offsets|
    ensures DecodeSpans(hash, data, offsets, i, depth) == Ok(vs) <==>
            && |vs| == |offsets| - i
            && forall j :: i <= j < |offsets| ==>
                 && InOrder(offsets, j, |data|)
                 && Decode(hash, data[offsets[j]..NextOffset(offsets, j, |data|)], depth + 1) == Ok(vs[j - i])
    decreases |offsets| - i
  {
    hide Decode, InOrder, NextOffset;
    if i < |offsets| {
      InOrderBounds(offsets, i, |data|);
      if |vs| > 0 {
        SpansIff(hash, data, offsets, i + 1, depth, vs[1..]);
        assert vs == [vs[0]] + vs[1..];
      }
    }
  }

  lemma InOrderBounds(offsets: seq<nat>, i: nat, size: nat)
    requires i < |offsets|
    ensures InOrder(offsets, i, size) ==> offsets[i] <= NextOffset(offsets, i, size) <= size
  {
  }

  /** An entry is read as e: first the key, then the value. */
  predicate EntryReads(hash: seq<byte> -> byte, entry: seq<byte>, sizeByte: nat, h: nat, e: Entry, depth: nat) {
    var used := KeyEnd(entry, sizeByte);
    && ReadKey(entry, sizeByte) == Ok(KeyRead(e.key, used)) && h == hash(e.key) as int
    && Decode(hash, entry[used..], depth + 1) == Ok(e.value)
  }

  lemma KeyIff(entry: seq<byte>, sizeByte: nat, key: seq<byte>)
    ensures ReadKey(entry, sizeByte).Ok? ==> ReadKey(entry, sizeByte).value.used == KeyEnd(entry, sizeByte)
    ensures ReadKey(entry, sizeByte) == Ok(KeyRead(key, KeyEnd(entry, sizeByte)))
            <==> KeyAt(entry, sizeByte, key, KeyEnd(entry, sizeByte))
  {
    hide VaruintDecode;
  }

  lemma {:induction false} EntriesIff(hash: seq<byte> -> byte, data: seq<byte>, hashes: seq<byte>, offsets: seq<nat>, sizes: seq<nat>,
      i: nat, depth: nat, es: seq<Entry>)
    requires i <= |offsets| == |sizes| == |hashes|
    ensures DecodeEntries(hash, data, hashes, offsets, sizes, i, depth) == Ok(es) <==>
            && |es| == |offsets| - i
            && forall j :: i <= j < |offsets| ==>
                 && InOrder(offsets, j, |data|)
                 && EntryReads(hash, data[offsets[j]..NextOffset(offsets, j, |data|)], sizes[j], hashes[j] as int, es[j - i], depth)
    decreases |offsets| - i
  {
    hide Decode, InOrder, NextOffset, ReadKey, KeyEnd;
    if i < |offsets| {
      InOrderBounds(offsets, i, |data|);
      if |es| > 0 {
        if InOrder(offsets, i, |data|) {
          KeyIff(data[offsets[i]..NextOffset(offsets, i, |data|)], sizes[i], es[0].key);
        }
        EntriesIff(hash, data, hashes, offsets, sizes, i + 1, depth, es[1..]);
        assert es == [es[0]] + es[1..];
      }
    }
  }

  /** The j-th shared key is read from the key area. */
  predicate KeyReadAt(hash: seq<byte> -> byte, area: seq<byte>, hashes: seq<byte>, starts: seq<nat>, lengths: seq<nat>, j: nat, key: seq<byte>)
    requires j < |starts| == |lengths| == |hashes|
  {
    starts[j] + lengths[j] <= |area| && key == area[starts[j]..starts[j] + lengths[j]] && hashes[j] == hash(key)
  }

  lemma {:induction false} KeysIff(hash: seq<byte> -> byte, area: seq<byte>, hashes: seq<byte>, starts: seq<nat>, lengths: seq<nat>,
      i: nat, keys: seq<seq<byte>>)
    requires i <= |starts| == |lengths| == |hashes| == |keys|
    ensures DecodeKeys(hash, area, hashes, starts, lengths, i) == Ok(keys[i..])
            <==> forall j :: i <= j < |starts| ==> KeyReadAt(hash, area, hashes, starts, lengths, j, keys[j])
    decreases |starts| - i
  {
    hide KeyReadAt;
    if i == |starts| {
      assert keys[i..] == [];
    } else {
      KeysIff(hash, area, hashes, starts, lengths, i + 1, keys);
      KeyStep(hash, area, hashes, starts, lengths, i, keys);
    }
  }

  lemma KeyStep(hash: seq<byte> -> byte, area: seq<byte>, hashes: seq<byte>, starts: seq<nat>, lengths: seq<nat>,
      i: nat, keys: seq<seq<byte>>)
    requires i < |starts| == |lengths| == |hashes| == |keys|
    ensures DecodeKeys(hash, area, hashes, starts, lengths, i) == Ok(keys[i..])
            <==> && KeyReadAt(hash, area, hashes, starts, lengths, i, keys[i])
                 && DecodeKeys(hash, area, hashes, starts, lengths, i + 1) == Ok(keys[i + 1..])
  {
    assert keys[i..] == [keys[i]] + keys[i + 1..];
    var rest := DecodeKeys(hash, area, hashes, starts, lengths, i + 1);
    if starts[i] + lengths[i] <= |area| && rest.Ok? {
      SameFirst(area[starts[i]..starts[i] + lengths[i]], rest.value, keys[i], keys[i + 1..]);
    }
  }

  lemma SameFirst<T>(x: T, xs: seq<T>, y: T, ys: seq<T>)
    ensures [x] + xs == [y] + ys <==> x == y && xs == ys
  {
    if [x] + xs == [y] + ys {
      assert x == ([x] + xs)[0] == y;
      assert xs == ([x] + xs)[1..] == ys;
    }
  }

  lemma {:induction false} KeysCount(hash: seq<byte> -> byte, area: seq<byte>, hashes: seq<byte>, starts: seq<nat>, lengths: seq<nat>, i: nat)
    requires i <= |starts| == |lengths| == |hashes|
    ensures var keys := DecodeKeys(hash, area, hashes, starts, lengths, i); keys.Ok? ==> |keys.value| == |starts| - i
    decreases |starts| - i
  {
    if i < |starts| { KeysCount(hash, area, hashes, starts, lengths, i + 1); }
  }

  /** The records from the i-th on are read one by one. */
  lemma {:induction false} RecordsIff(hash: seq<byte> -> byte, body: seq<byte>, offsets: seq<nat>, k: nat, w: nat, i: nat, depth: nat,
      rows: seq<Row>)
    requires i <= |offsets|
    ensures DecodeRows(hash, body, offsets, k, w, i, depth) == Ok(rows) <==>
            && |rows| == |offsets| - i
            && forall j :: i <= j < |offsets| ==>
                 && InOrder(offsets, j, |body|)
                 && DecodeRow(hash, body[offsets[j]..NextOffset(offsets, j, |body|)], k, w, depth) == Ok(rows[j - i])
    decreases |offsets| - i
  {
    hide DecodeRow, InOrder, NextOffset;
    if i < |offsets| {
      InOrderBounds(offsets, i, |body|);
      if |rows| > 0 {
        RecordsIff(hash, body, offsets, k, w, i + 1, depth, rows[1..]);
        assert rows == [rows[0]] + rows[1..];
      }
    }
  }

  // ---------------------------------------------------------------- the decoder reads exactly this relation

  /** MAIN RESULT. The decoder reads v from the bytes b exactly when b is a wire form of v. */
  lemma {:induction false} WireIff(hash: seq<byte> -> byte, b: seq<byte>, v: Value, depth: nat)
    ensures Decode(hash, b, depth) == Ok(v) <==> Wire(hash, b, v, depth)
    decreases v, 2
  {
    hide DecodeLeaf, LeafWire, DecodeArray, DecodeObject, DecodeRowArray, ArrayWire, ObjectWire, RowsWire;
    if depth < MAX_DECODE_DEPTH && b != [] {
      KindOf(hash, b, depth);
      match v
      case Array(children) => ArrayIff(hash, b, children, depth);
      case Object(entries) => ObjectIff(hash, b, entries, depth);
      case RowArray(keys, rows) => RowArrayIff(hash, b, keys, rows, depth);
      case NumericString(inner) => if b[0] == 0x80 { WireIff(hash, b[1..], inner, depth + 1); }
      case _ =>
        NoLeaf(b, v);
        if b[0] / 16 != 8 && b[0] != 0xB0 && b[0] != 0xC0 && b[0] != 0xC1 { LeafIff(b, v); }
    }
  }

  lemma NoLeaf(b: seq<byte>, v: Value)
    requires b != []
    ensures b[0] / 16 == 8 || b[0] == 0xB0 || b[0] == 0xC0 || b[0] == 0xC1 ==> !LeafWire(b, v)
  {
    LeafKind(b, v);
    hide Num, Unle, VaruintDecode, ZigzagDecode, DecodeLeaf;
  }

  /** The decoders of containers answer containers, and that of the others does not. */
  lemma KindOf(hash: seq<byte> -> byte, b: seq<byte>, depth: nat)
    requires b != []
    ensures DecodeArray(hash, b, depth).Ok? ==> DecodeArray(hash, b, depth).value.Array?
    ensures DecodeObject(hash, b, depth).Ok? ==> DecodeObject(hash, b, depth).value.Object?
    ensures DecodeRowArray(hash, b, depth).Ok? ==> DecodeRowArray(hash, b, depth).value.RowArray?
    ensures var v := DecodeLeaf(b, b[0] / 16, b[0] % 16);
            v.Ok? ==> !v.value.Array? && !v.value.Object? && !v.value.RowArray? && !v.value.NumericString?
  {
    hide DecodeEntries, DecodeSpans, DecodeRecords, ReadSharedKeys, ReadTable, Unle;
  }

  lemma {:induction false} ValueAtIff(hash: seq<byte> -> byte, b: seq<byte>, pos: nat, w: nat, n: nat, data: seq<byte>, v: Value, i: nat,
      depth: nat)
    requires pos + n * w <= |b| && i < n
    ensures var offsets := ReadTable(b, pos, 0, w, w, n);
            && (InOrder(offsets, i, |data|) ==> offsets[i] <= NextOffset(offsets, i, |data|) <= |data|)
            && (InOrder(offsets, i, |data|) && Decode(hash, data[offsets[i]..NextOffset(offsets, i, |data|)], depth + 1) == Ok(v)
                <==> ValueAt(hash, b, pos, w, n, data, v, i, depth))
    decreases v, 3
  {
    hide Decode, Wire, ReadTable, From, To, NextOffset;
    OffsetIs(b, pos, w, w, n, |data|, i);
    if Piece(b, pos, w, w, n, |data|, i) {
      WireIff(hash, data[From(b, pos, w, w, i)..To(b, pos, w, w, n, |data|, i)], v, depth + 1);
    }
  }

  lemma {:induction false} AllIff(hash: seq<byte> -> byte, b: seq<byte>, pos: nat, w: nat, n: nat, data: seq<byte>, vs: seq<Value>, depth: nat)
    requires pos + n * w <= |b|
    ensures DecodeSpans(hash, data, ReadTable(b, pos, 0, w, w, n), 0, depth) == Ok(vs)
            <==> |vs| == n && AllWire(hash, b, pos, w, data, vs, depth)
    decreases vs, 0
  {
    hide Decode, ReadTable, InOrder, NextOffset, DecodeSpans, ValueAt, AllWire;
    var offsets := ReadTable(b, pos, 0, w, w, n);
    SpansIff(hash, data, offsets, 0, depth, vs);
    if |vs| == n {
      AllWireIs(hash, b, pos, w, n, data, vs, depth);
      forall i | 0 <= i < n
        ensures InOrder(offsets, i, |data|) ==> offsets[i] <= NextOffset(offsets, i, |data|) <= |data|
        ensures InOrder(offsets, i, |data|)
                && Decode(hash, data[offsets[i]..NextOffset(offsets, i, |data|)], depth + 1) == Ok(vs[i])
                <==> ValueAt(hash, b, pos, w, n, data, vs[i], i, depth)
      {
        ValueAtIff(hash, b, pos, w, n, data, vs[i], i, depth);
      }
    }
  }

  lemma AllWireIs(hash: seq<byte> -> byte, b: seq<byte>, pos: nat, w: nat, n: nat, data: seq<byte>, vs: seq<Value>, depth: nat)
    requires |vs| == n
    ensures AllWire(hash, b, pos, w, data, vs, depth) <==> forall i :: 0 <= i < n ==> ValueAt(hash, b, pos, w, n, data, vs[i], i, depth)
  {
    hide ValueAt;
  }

  lemma {:induction false} ArrayIff(hash: seq<byte> -> byte, b: seq<byte>, children: seq<Value>, depth: nat)
    requires depth < MAX_DECODE_DEPTH && b != []
    ensures Decode(hash, b, depth) == Ok(Array(children)) <==> ArrayWire(hash, b, children, depth)
    decreases children, 1
  {
    hide DecodeSpans, AllWire, ReadTable, Unle, DecodeLeaf, DecodeObject, DecodeRowArray, Pow256;
    KindOf(hash, b, depth);
    if |b| >= 4 && b[0] == 0xB0 && b[1] < 4 {
      var w: nat, n := (b[1] + 1) as int, LastCount(b);
      var size := |b| - 4 - w * n;
      if size >= 0 {
        NeededIff(size, w);
        AllIff(hash, b, 2 + size, w, n, b[2..2 + size], children, depth);
      }
    }
  }

  lemma NeededIff(size: nat, w: nat)
    requires 1 <= w <= 4
    ensures NeededWidth(size) <= w <==> w == 4 || size < Pow256(w)
  {
    SmallPowers();
  }

  /** The entries of an object, read from their pieces. */
  lemma {:induction false} AllEntriesIff(hash: seq<byte> -> byte, b: seq<byte>, pos: nat, w: nat, n: nat, data: seq<byte>, hashes: seq<byte>,
      es: seq<Entry>, depth: nat)
    requires pos + n * (w + 1) <= |b| && |hashes| == n
    ensures DecodeEntries(hash, data, hashes, ReadTable(b, pos, 0, w, w + 1, n), ReadTable(b, pos, w, 1, w + 1, n), 0, depth) == Ok(es)
            <==> |es| == n && forall i :: 0 <= i < n ==> EntryAt(hash, b, pos, w, n, data, hashes[i] as int, es[i], i, depth)
    decreases es, 0
  {
    hide ReadTable, InOrder, NextOffset, DecodeEntries, EntryReads, EntryAt;
    var offsets, sizes := ReadTable(b, pos, 0, w, w + 1, n), ReadTable(b, pos, w, 1, w + 1, n);
    EntriesIff(hash, data, hashes, offsets, sizes, 0, depth, es);
    if |es| == n {
      forall i | 0 <= i < n
        ensures InOrder(offsets, i, |data|) ==> offsets[i] <= NextOffset(offsets, i, |data|) <= |data|
        ensures InOrder(offsets, i, |data|) &&
                EntryReads(hash, data[offsets[i]..NextOffset(offsets, i, |data|)], sizes[i], hashes[i] as int, es[i], depth)
                <==> EntryAt(hash, b, pos, w, n, data, hashes[i] as int, es[i], i, depth)
      {
        EntryAtIff(hash, b, pos, w, n, data, hashes[i] as int, es[i], i, depth);
      }
    }
  }

  lemma {:induction false} EntryAtIff(hash: seq<byte> -> byte, b: seq<byte>, pos: nat, w: nat, n: nat, data: seq<byte>, h: nat, e: Entry,
      i: nat, depth: nat)
    requires pos + n * (w + 1) <= |b| && i < n
    ensures var offsets, sizes := ReadTable(b, pos, 0, w, w + 1, n), ReadTable(b, pos, w, 1, w + 1, n);
            && (InOrder(offsets, i, |data|) ==> offsets[i] <= NextOffset(offsets, i, |data|) <= |data|)
            && (InOrder(offsets, i, |data|) && EntryReads(hash, data[offsets[i]..NextOffset(offsets, i, |data|)], sizes[i], h, e, depth)
                <==> EntryAt(hash, b, pos, w, n, data, h, e, i, depth))
    decreases e, 1
  {
    hide ReadTable, From, To, NextOffset, EntryReads, EntryWire, Num;
    OffsetIs(b, pos, w, w + 1, n, |data|, i);
    SizeIs(b, pos, w, n, i);
    if Piece(b, pos, w, w + 1, n, |data|, i) {
      EntryIff(hash, data[From(b, pos, w, w + 1, i)..To(b, pos, w, w + 1, n, |data|, i)], Num(b, pos + i * (w + 1) + w, 1), h, e, depth);
    }
  }

  lemma SizeIs(b: seq<byte>, pos: nat, w: nat, n: nat, i: nat)
    requires pos + n * (w + 1) <= |b| && i < n
    ensures ReadTable(b, pos, w, 1, w + 1, n)[i] == Num(b, pos + i * (w + 1) + w, 1)
  {
    hide ReadTable, Unle;
    TableAt(b, pos, w, 1, w + 1, n, i);
  }

  lemma {:induction false} EntryIff(hash: seq<byte> -> byte, entry: seq<byte>, sizeByte: nat, h: nat, e: Entry, depth: nat)
    ensures EntryReads(hash, entry, sizeByte, h, e, depth) <==> EntryWire(hash, entry, sizeByte, h, e, depth)
    decreases e, 0
  {
    hide Decode, Wire, ReadKey, KeyAt, KeyEnd;
    KeyIff(entry, sizeByte, e.key);
    KeyInside(entry, sizeByte, e.key);
    var used := KeyEnd(entry, sizeByte);
    if used <= |entry| { WireIff(hash, entry[used..], e.value, depth + 1); }
  }

  lemma KeyInside(entry: seq<byte>, sizeByte: nat, key: seq<byte>)
    ensures KeyAt(entry, sizeByte, key, KeyEnd(entry, sizeByte)) ==> KeyEnd(entry, sizeByte) <= |entry|
  {
  }

  lemma {:induction false} ObjectIff(hash: seq<byte> -> byte, b: seq<byte>, entries: seq<Entry>, depth: nat)
    requires depth < MAX_DECODE_DEPTH && b != []
    ensures Decode(hash, b, depth) == Ok(Object(entries)) <==> ObjectWire(hash, b, entries, depth)
    decreases entries, 1
  {
    hide DecodeEntries, EntryAt, ReadTable, Unle, DecodeLeaf, DecodeArray, DecodeRowArray;
    KindOf(hash, b, depth);
    if |b| >= 4 && b[0] == 0xC0 && b[1] < 4 {
      var w: nat, n := (b[1] + 1) as int, LastCount(b);
      var size := |b| - (4 + n + (w + 1) * n);
      if size >= 0 {
        var hashes := b[2 + size..2 + size + n];
        AllEntriesIff(hash, b, 2 + size + n, w, n, b[2..2 + size], hashes, entries, depth);
        forall i | 0 <= i < n ensures Num(b, 2 + size + i, 1) == hashes[i] as int {
          OneByte(b, 2 + size + i);
        }
      }
    }
  }

  lemma OneByte(b: seq<byte>, pos: nat)
    requires pos < |b|
    ensures Num(b, pos, 1) == b[pos] as int
  {
    var s := b[pos..pos + 1];
    assert s[0] == b[pos] && s[1..] == [] && Unle(s[1..]) == 0;
  }

  // ---------------------------------------------------------------- arrays of rows

  lemma LengthsAre(b: seq<byte>, pos: nat, k: nat)
    requires pos + 4 * k <= |b|
    ensures ReadTable(b, pos, 3, 1, 4, k) == KeyLengths(b, pos, k)
  {
    hide ReadTable, Num;
    forall i | 0 <= i < k ensures ReadTable(b, pos, 3, 1, 4, k)[i] == KeyLengths(b, pos, k)[i] {
      LengthIs(b, pos, k, i);
    }
  }

  lemma StartIs(b: seq<byte>, pos: nat, k: nat, i: nat)
    requires pos + 4 * k <= |b| && i < k
    ensures ReadTable(b, pos, 0, 3, 4, k)[i] == Num(b, pos + 4 * i, 3)
  {
    hide ReadTable, Unle;
    TableAt(b, pos, 0, 3, 4, k, i);
  }

  lemma SharedKeysIff(hash: seq<byte> -> byte, b: seq<byte>, pos: nat, keys: seq<seq<byte>>)
    ensures ReadSharedKeys(hash, b, pos, |keys|) == Ok(SharedKeys(keys, KeysEnd(b, pos, |keys|))) <==> KeysWire(hash, b, pos, keys)
    ensures ReadSharedKeys(hash, b, pos, |keys|).Ok? ==>
              ReadSharedKeys(hash, b, pos, |keys|).value.end == KeysEnd(b, pos, |keys|)
    ensures KeysEnd(b, pos, |keys|) >= pos
  {
    hide ReadTable, DecodeKeys, Sum, KeyLengths, SharedKeyAt, KeyReadAt;
    var k := |keys|;
    var area := pos + k * 4 + k;
    if area <= |b| {
      LengthsAre(b, pos, k);
      var starts, lengths := ReadTable(b, pos, 0, 3, 4, k), ReadTable(b, pos, 3, 1, 4, k);
      var end := area + Sum(lengths);
      if end <= |b| {
        var hashes := b[pos + k * 4..area];
        KeysIff(hash, b[area..end], hashes, starts, lengths, 0, keys);
        assert keys[0..] == keys;
        forall i | 0 <= i < k
          ensures KeyReadAt(hash, b[area..end], hashes, starts, lengths, i, keys[i]) <==> SharedKeyAt(hash, b, pos, k, keys[i], i)
        {
          SharedKeyIff(hash, b, pos, k, keys[i], i);
        }
      }
    }
  }

  lemma SharedKeyIff(hash: seq<byte> -> byte, b: seq<byte>, pos: nat, k: nat, key: seq<byte>, i: nat)
    requires i < k && KeysEnd(b, pos, k) <= |b|
    ensures var area, end := pos + 5 * k, KeysEnd(b, pos, k);
            var starts, lengths := ReadTable(b, pos, 0, 3, 4, k), ReadTable(b, pos, 3, 1, 4, k);
            KeyReadAt(hash, b[area..end], b[pos + k * 4..area], starts, lengths, i, key)
            <==> SharedKeyAt(hash, b, pos, k, key, i)
  {
    hide ReadTable, Num, Sum, KeyLengths;
    var area, end := pos + 5 * k, KeysEnd(b, pos, k);
    StartIs(b, pos, k, i);
    LengthIs(b, pos, k, i);
    OneByte(b, pos + 4 * k + i);
    var start, length := Num(b, pos + 4 * i, 3), Num(b, pos + 4 * i + 3, 1);
    if start + length <= end - area { SliceSlice(b, area, end, area + start, area + start + length); }
  }

  lemma LengthIs(b: seq<byte>, pos: nat, k: nat, i: nat)
    requires pos + 4 * k <= |b| && i < k
    ensures ReadTable(b, pos, 3, 1, 4, k)[i] == Num(b, pos + 4 * i + 3, 1)
  {
    hide ReadTable, Unle;
    TableAt(b, pos, 3, 1, 4, k, i);
  }

  lemma {:induction false} RecordIff(hash: seq<byte> -> byte, record: seq<byte>, row: Row, k: nat, w: nat, depth: nat)
    ensures DecodeRow(hash, record, k, w, depth) == Ok(row) <==> |row.cells| == k && RecordWire(hash, record, row.cells, w, depth)
    decreases row, 0
  {
    hide DecodeSpans, AllWire, ReadTable;
    if |record| >= k * w {
      var size := |record| - k * w;
      AllIff(hash, record, size, w, k, record[..size], row.cells, depth);
    }
  }

  lemma {:induction false} AllRecordsIff(hash: seq<byte> -> byte, b: seq<byte>, end: nat, rows: seq<Row>, k: nat, w: nat, wide: nat, depth: nat)
    requires |b| >= 2 && end >= 2
    ensures DecodeRecords(hash, b, end, k, w, wide, depth) == Ok(rows) <==> RecordsWire(hash, b, end, rows, k, w, wide, depth)
    decreases rows, 0
  {
    hide ReadTable, DecodeRows, DecodeRow, RecordAt, NextOffset, InOrder, Unle;
    var n := LastCount(b);
    var table := |b| - 2 - n * wide;
    if table >= end {
      var offsets, body := ReadTable(b, table, 0, wide, wide, n), b[end..table];
      RecordsIff(hash, body, offsets, k, w, 0, depth, rows);
      if |rows| == n {
        forall i | 0 <= i < n
          ensures InOrder(offsets, i, |body|) ==> offsets[i] <= NextOffset(offsets, i, |body|) <= |body|
          ensures InOrder(offsets, i, |body|) &&
                  DecodeRow(hash, body[offsets[i]..NextOffset(offsets, i, |body|)], k, w, depth) == Ok(rows[i])
                  <==> RecordAt(hash, b, table, wide, n, body, rows[i], k, w, i, depth)
        {
          RecordAtIff(hash, b, table, wide, n, body, rows[i], k, w, i, depth);
        }
      }
    }
  }

  lemma {:induction false} RecordAtIff(hash: seq<byte> -> byte, b: seq<byte>, pos: nat, wide: nat, n: nat, body: seq<byte>, row: Row,
      k: nat, w: nat, i: nat, depth: nat)
    requires pos + n * wide <= |b| && i < n
    ensures var offsets := ReadTable(b, pos, 0, wide, wide, n);
            && (InOrder(offsets, i, |body|) ==> offsets[i] <= NextOffset(offsets, i, |body|) <= |body|)
            && (InOrder(offsets, i, |body|) && DecodeRow(hash, body[offsets[i]..NextOffset(offsets, i, |body|)], k, w, depth) == Ok(row)
                <==> RecordAt(hash, b, pos, wide, n, body, row, k, w, i, depth))
    decreases row, 1
  {
    hide ReadTable, From, To, NextOffset, DecodeRow, RecordWire;
    OffsetIs(b, pos, wide, wide, n, |body|, i);
    if Piece(b, pos, wide, wide, n, |body|, i) {
      RecordIff(hash, body[From(b, pos, wide, wide, i)..To(b, pos, wide, wide, n, |body|, i)], row, k, w, depth);
    }
  }

  lemma KeysRead(hash: seq<byte> -> byte, b: seq<byte>, pos: nat, k: nat)
    ensures ReadSharedKeys(hash, b, pos, k).Ok? ==> |ReadSharedKeys(hash, b, pos, k).value.keys| == k
  {
    hide ReadTable, DecodeKeys, Sum;
    if ReadSharedKeys(hash, b, pos, k).Ok? {
      var area := pos + k * 4 + k;
      var starts, lengths := ReadTable(b, pos, 0, 3, 4, k), ReadTable(b, pos, 3, 1, 4, k);
      var end := area + Sum(lengths);
      KeysCount(hash, b[area..end], b[pos + k * 4..area], starts, lengths, 0);
    }
  }

  lemma {:induction false} RowArrayIff(hash: seq<byte> -> byte, b: seq<byte>, keys: seq<seq<byte>>, rows: seq<Row>, depth: nat)
    requires depth < MAX_DECODE_DEPTH && b != []
    ensures Decode(hash, b, depth) == Ok(RowArray(keys, rows)) <==> RowsWire(hash, b, keys, rows, depth)
    decreases rows, 1
  {
    hide DecodeRecords, RecordsWire, KeysWire, ReadSharedKeys, VaruintDecode, DecodeLeaf, DecodeArray, DecodeObject, KeysEnd;
    KindOf(hash, b, depth);
    if |b| >= 5 && b[0] == 0xC1 && b[1] < 16 && VaruintDecode(b[2..]).Some? {
      var count, widths: int := VaruintDecode(b[2..]).value, b[1];
      KeysRead(hash, b, 2 + count.used, count.value);
      if count.value == |keys| {
        SharedKeysIff(hash, b, 2 + count.used, keys);
        AllRecordsIff(hash, b, KeysEnd(b, 2 + count.used, |keys|), rows, |keys|, widths % 4 + 1, widths / 4 + 1, depth);
      }
    }
  }
}
