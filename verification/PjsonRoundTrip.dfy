/** Decoding undoes encoding. */
module PjsonRoundTrip {
  import opened ByteStrings
  import opened Wrappers
  import opened PjsonNumbers
  import opened Pjson
  import opened PjsonDecode

  // ---------------------------------------------------------------- pieces and their offsets

  /** Where the pieces start. */
  function Starts(pieces: seq<seq<byte>>): (r: seq<nat>)
    ensures |r| == |pieces|
  {
    if pieces == [] then [] else Starts(pieces[..|pieces| - 1]) + [|Concat(pieces[..|pieces| - 1])|]
  }

  lemma {:induction false} StartAt(pieces: seq<seq<byte>>, i: nat)
    requires i < |pieces|
    ensures Starts(pieces)[i] == |Concat(pieces[..i])|
    decreases |pieces|
  {
    hide Concat;
    var n := |pieces| - 1;
    if i < n {
      StartAt(pieces[..n], i);
      assert pieces[..n][..i] == pieces[..i];
    }
  }

  lemma ConcatNext(pieces: seq<seq<byte>>, i: nat)
    requires i < |pieces|
    ensures Concat(pieces[..i + 1]) == Concat(pieces[..i]) + pieces[i]
  {
    assert pieces[..i + 1][..i] == pieces[..i];
  }

  lemma {:induction false} ConcatPrefix(pieces: seq<seq<byte>>, i: nat)
    requires i <= |pieces|
    ensures Concat(pieces[..i]) <= Concat(pieces)
    decreases |pieces| - i
  {
    if i < |pieces| {
      ConcatNext(pieces, i);
      ConcatPrefix(pieces, i + 1);
    } else {
      assert pieces[..i] == pieces;
    }
  }

  /** The offsets delimit the pieces. */
  lemma PieceAt(pieces: seq<seq<byte>>, i: nat)
    requires i < |pieces|
    ensures var data, starts := Concat(pieces), Starts(pieces);
            InOrder(starts, i, |data|) && data[starts[i]..NextOffset(starts, i, |data|)] == pieces[i]
  {
    hide Concat, Starts;
    StartAt(pieces, i);
    ConcatNext(pieces, i);
    ConcatPrefix(pieces, i + 1);
    ConcatPrefix(pieces, i);
    if i + 1 < |pieces| {
      StartAt(pieces, i + 1);
    } else {
      assert pieces[..i + 1] == pieces;
    }
    PieceSlice(Concat(pieces), Concat(pieces[..i]), pieces[i]);
  }

  lemma PieceSlice(data: seq<byte>, before: seq<byte>, piece: seq<byte>)
    requires before + piece <= data
    ensures data[|before|..|before| + |piece|] == piece
  {
    assert (before + piece)[|before|..] == piece;
  }

  /** The widths reach every offset. */
  lemma WidthFits(size: nat, w: nat)
    requires OffsetWidth(size) == Some(w)
    ensures 1 <= w <= 4 && size < Pow256(w)
  {
    hide Pow256;
    SmallPowers();
  }

  lemma ReadLeAt(b: seq<byte>, pos: nat, n: nat, w: nat)
    requires At(b, pos, Le(n, w)) && n < Pow256(w)
    ensures pos + w <= |b| && ReadLe(b, pos, w) == n
  {
    UnleLe(n, w);
  }

  /** An offset table is read back as the starts of the pieces. */
  lemma {:induction false} TableReads(b: seq<byte>, pos: nat, pieces: seq<seq<byte>>, w: nat, n: nat)
    requires n <= |pieces| && At(b, pos, OffsetTable(pieces[..n], w)) && |Concat(pieces)| < Pow256(w)
    ensures pos + n * w <= |b| && ReadTable(b, pos, 0, w, w, n) == Starts(pieces[..n])
    decreases n
  {
    hide Concat, At, Le, Pow256, ReadLe;
    AtBounds(b, pos, OffsetTable(pieces[..n], w));
    if n > 0 {
      assert pieces[..n][..n - 1] == pieces[..n - 1];
      AtSplit(b, pos, OffsetTable(pieces[..n - 1], w), Le(|Concat(pieces[..n - 1])|, w));
      ConcatPrefix(pieces, n - 1);
      TableReads(b, pos, pieces, w, n - 1);
      ReadLeAt(b, pos + (n - 1) * w, |Concat(pieces[..n - 1])|, w);
    } else {
      assert pieces[..n] == [];
    }
  }

  lemma AtBounds(b: seq<byte>, pos: nat, part: seq<byte>)
    requires At(b, pos, part)
    ensures pos + |part| <= |b|
  {
  }

  /** The same for a table with a byte of its own behind each offset. */
  lemma {:induction false} SizedTableReads(b: seq<byte>, pos: nat, pieces: seq<seq<byte>>, sizes: seq<byte>, w: nat, n: nat)
    requires n <= |pieces| == |sizes| && At(b, pos, SizedOffsetTable(pieces[..n], sizes[..n], w)) && |Concat(pieces)| < Pow256(w)
    ensures pos + n * (w + 1) <= |b|
    ensures ReadTable(b, pos, 0, w, w + 1, n) == Starts(pieces[..n])
    ensures ReadTable(b, pos, w, 1, w + 1, n) == sizes[..n]
    decreases n
  {
    hide Concat, At, Le, Pow256, ReadLe;
    AtBounds(b, pos, SizedOffsetTable(pieces[..n], sizes[..n], w));
    if n > 0 {
      assert pieces[..n][..n - 1] == pieces[..n - 1] && sizes[..n][..n - 1] == sizes[..n - 1];
      var before, offset := SizedOffsetTable(pieces[..n - 1], sizes[..n - 1], w), Le(|Concat(pieces[..n - 1])|, w);
      AtSplit(b, pos, before + offset, [sizes[n - 1]]);
      AtSplit(b, pos, before, offset);
      ConcatPrefix(pieces, n - 1);
      SizedTableReads(b, pos, pieces, sizes, w, n - 1);
      ReadLeAt(b, pos + (n - 1) * (w + 1), |Concat(pieces[..n - 1])|, w);
      ReadByteAt(b, pos + (n - 1) * (w + 1) + w, sizes[n - 1]);
      assert sizes[..n] == sizes[..n - 1] + [sizes[n - 1]];
    } else {
      assert pieces[..n] == [] && sizes[..n] == [];
    }
  }

  lemma ReadByteAt(b: seq<byte>, pos: nat, x: byte)
    requires At(b, pos, [x])
    ensures pos + 1 <= |b| && ReadLe(b, pos, 1) == x
  {
    AtIndex(b, pos, [x], 0);
    assert b[pos..pos + 1] == [b[pos]];
    OneByte(b[pos]);
  }

  lemma OneByte(x: byte)
    ensures Unle([x]) == x
  {
    assert [x][1..] == [];
  }

  lemma CountReads(b: seq<byte>, n: nat)
    requires |b| >= 2 && At(b, |b| - 2, Count16(n)) && n <= 0xFFFF
    ensures LastCount(b) == n
  {
    var m := |b| - 2;
    AtIndex(b, m, Count16(n), 0);
    AtIndex(b, m, Count16(n), 1);
    assert b[m..m + 2] == [b[m], b[m + 1]];
    TwoBytes(b[m], b[m + 1]);
  }

  lemma TwoBytes(x: byte, y: byte)
    ensures var low: int, high: int := x, y; Unle([x, y]) == low + 256 * high
  {
    assert [x, y][1..] == [y];
    OneByte(y);
  }

  // ---------------------------------------------------------------- leaves

  predicate IsContainer(v: Value) {
    v.Array? || v.Object? || v.RowArray? || v.NumericString?
  }

  lemma MagnitudeReads(tag: nat, n: nat)
    requires tag <= 15 && 15 < n < TWO_128
    ensures var bytes := MinimalLe(n);
            1 <= |bytes| <= 16 && TaggedBytes(tag, bytes)[0] == tag * 16 + (|bytes| - 1) && Unle(TaggedBytes(tag, bytes)[1..]) == n
  {
    MinimalFits(n);
    UnleMinimal(n);
    assert TaggedBytes(tag, MinimalLe(n))[1..] == MinimalLe(n);
  }

  lemma FloatReads(w: nat, bits: nat)
    requires 1 <= w <= 4 && bits < Pow256(FloatBytes(w))
    ensures CanonicalNaN(w, bits) < Pow256(FloatBytes(w))
    ensures Unle(Le(CanonicalNaN(w, bits), FloatBytes(w))) == CanonicalNaN(w, bits)
  {
    FloatRange(w);
    UnleLe(CanonicalNaN(w, bits), FloatBytes(w));
  }

  lemma FloatRange(w: nat)
    requires 1 <= w <= 4
    ensures ExponentOnes(w) * MantissaRange(w) + MantissaRange(w) / 2 < Pow256(FloatBytes(w))
  {
    Pow256Of16();
    hide Pow256;
    SmallPowers();
  }

  lemma DecimalBytesRead(m: int)
    requires -TWO_127 <= m < TWO_127
    ensures 1 <= |DecimalBytes(m)| <= 16 && Unle(DecimalBytes(m)) == ZigzagEncode(m, TWO_128) < TWO_128
    ensures ZigzagDecode(Unle(DecimalBytes(m)), TWO_128) == m
  {
    hide ZigzagEncode, ZigzagDecode;
    ZigzagIs(m, TWO_128);
    var zz := ZigzagEncode(m, TWO_128);
    if zz == 0 {
      OneByte(0);
    } else {
      MinimalFits(zz);
      UnleMinimal(zz);
    }
  }

  lemma DecimalReads(m: int, s: int, b: seq<byte>)
    requires -TWO_127 <= m < TWO_127 && -TWO_31 <= s < TWO_31 && EncodeDecimal(m, s) == Some(b)
    ensures |b| >= 1 && 0x70 <= b[0] < 0x80 && DecodeDecimal(b, b[0] % 16 + 1) == Ok(Decimal(m, s))
  {
    hide ZigzagEncode, ZigzagDecode, VaruintEncode, VaruintDecode, DecimalBytes, Unle;
    DecimalBytesRead(m);
    ZigzagIs(s, U32_LIMIT);
    var zz, bytes := ZigzagEncode(s, U32_LIMIT), DecimalBytes(m);
    VaruintRoundTrip(zz, []);
    var code := VaruintEncode(zz).value;
    assert code + [] == code;
    var count := |bytes|;
    assert b == [7 * 16 + (count - 1)] + bytes + code;
    assert b[1..1 + count] == bytes && b[1 + count..] == code;
  }

  lemma TypedArrayReads(code: nat, raw: seq<byte>, b: seq<byte>)
    requires EncodeTypedArray(code, raw) == Some(b)
    ensures code <= 9 && |b| >= 1 && b[0] == 0xB0 + (code + 1) && DecodeTypedArray(b, code) == Ok(TypedArray(code, raw))
  {
    hide Unle;
    var size, n := ElementSize(code), |raw| / ElementSize(code);
    var m := 1 + |raw|;
    assert b == [0xB0 + (code + 1)] + raw + Count16(n);
    assert b[m..] == Count16(n) && b[1..m] == raw;
    CountReads(b, n);
    assert |raw| == n * size;
  }

  lemma LeafReads(hash: seq<byte> -> byte, v: Value, b: seq<byte>)
    requires InRange(v) && !IsContainer(v) && Encode(hash, v) == Some(b)
    ensures |b| >= 1 && b[0] / 16 != 8 && b[0] != 0xB0 && b[0] != 0xC0 && b[0] != 0xC1
    ensures DecodeLeaf(b, b[0] / 16, b[0] % 16) == Ok(Canonical(v))
  {
    hide Unle, Le, MinimalLe, DecodeDecimal, EncodeDecimal, EncodeTypedArray, DecodeTypedArray, CanonicalNaN, Pow256;
    match v
    case Null => {}
    case Bool(_) => {}
    case Uint(n) => if n > 15 { MagnitudeReads(4, n); }
    case NegInt(m) => if m > 15 { MagnitudeReads(5, m); }
    case Float(w, bits) => {
      FloatReads(w, bits);
      assert b[1..] == Le(CanonicalNaN(w, bits), FloatBytes(w));
    }
    case Decimal(m, s) => DecimalReads(m, s, b);
    case TypedArray(code, raw) => TypedArrayReads(code, raw, b);
    case Text(_, text) => assert b[1..] == text;
    case Bytes(_, content) => assert b[1..] == content;
    case Extension(_, body) => assert b[1..] == body;
    case _ => {}
  }

  // ---------------------------------------------------------------- nesting

  function Max(a: nat, b: nat): nat {
    if a < b then b else a
  }

  /** How deep a value is nested; a value without parts is 1 deep. */
  function Height(v: Value): nat {
    match v
    case Array(children) => 1 + HeightOfAll(children)
    case Object(entries) => 1 + HeightOfEntries(entries)
    case RowArray(_, rows) => 1 + HeightOfRows(rows)
    case NumericString(inner) => 1 + Height(inner)
    case _ => 1
  }

  function HeightOfAll(vs: seq<Value>): nat {
    if vs == [] then 0 else Max(Height(vs[0]), HeightOfAll(vs[1..]))
  }

  function HeightOfEntries(es: seq<Entry>): nat {
    if es == [] then 0 else Max(Height(es[0].value), HeightOfEntries(es[1..]))
  }

  function HeightOfRows(rows: seq<Row>): nat {
    if rows == [] then 0 else Max(HeightOfAll(rows[0].cells), HeightOfRows(rows[1..]))
  }

  /** Success exactly when the nesting stays within the limit. */
  predicate Within<T(==)>(r: Result<T>, v: T, depth: nat, height: nat) {
    r == if depth + height <= MAX_DECODE_DEPTH then Ok(v) else Failure
  }

  // ---------------------------------------------------------------- the parts of containers

  lemma {:induction false} EncodedAt(hash: seq<byte> -> byte, vs: seq<Value>, pieces: seq<seq<byte>>, i: nat)
    requires EncodeAll(hash, vs) == Some(pieces) && i < |vs|
    ensures Encode(hash, vs[i]) == Some(pieces[i])
    decreases i
  {
    hide Encode;
    if i > 0 {
      var rest := EncodeAll(hash, vs[1..]).value;
      EncodedAt(hash, vs[1..], rest, i - 1);
      assert pieces[1..] == rest;
    }
  }

  lemma {:induction false} EntryEncodedAt(hash: seq<byte> -> byte, es: seq<Entry>, pieces: seq<seq<byte>>, i: nat)
    requires EncodeEntries(hash, es) == Some(pieces) && i < |es|
    ensures EncodeEntry(hash, es[i]) == Some(pieces[i])
    decreases i
  {
    hide EncodeEntry;
    if i > 0 {
      var rest := EncodeEntries(hash, es[1..]).value;
      EntryEncodedAt(hash, es[1..], rest, i - 1);
      assert pieces[1..] == rest;
    }
  }

  lemma {:induction false} RowEncodedAt(hash: seq<byte> -> byte, rows: seq<Row>, pieces: seq<seq<seq<byte>>>, i: nat)
    requires EncodeRows(hash, rows) == Some(pieces) && i < |rows|
    ensures EncodeAll(hash, rows[i].cells) == Some(pieces[i])
    decreases i
  {
    hide EncodeAll;
    if i > 0 {
      var rest := EncodeRows(hash, rows[1..]).value;
      RowEncodedAt(hash, rows[1..], rest, i - 1);
      assert pieces[1..] == rest;
    }
  }

  /** The values of an array or a record, from the i-th on. */
  lemma {:induction false} SpansDecode(hash: seq<byte> -> byte, vs: seq<Value>, pieces: seq<seq<byte>>, i: nat, depth: nat)
    requires EncodeAll(hash, vs) == Some(pieces) && i <= |vs| && (forall v :: v in vs ==> InRange(v)) && depth < MAX_DECODE_DEPTH
    ensures Within(DecodeSpans(hash, Concat(pieces), Starts(pieces), i, depth), CanonicalAll(vs[i..]), depth + 1, HeightOfAll(vs[i..]))
    decreases vs, |vs| - i
  {
    hide Decode, Encode, Canonical, Height, Concat, Starts, InRange, InOrder, EncodeAll;
    if i < |vs| {
      PieceAt(pieces, i);
      EncodedAt(hash, vs, pieces, i);
      RoundTrip(hash, vs[i], pieces[i], depth + 1);
      SpansDecode(hash, vs, pieces, i + 1, depth);
      assert vs[i..][1..] == vs[i + 1..] && vs[i..][0] == vs[i];
    }
  }

  /** A key and what stands before it are read back. */
  lemma KeyReads(key: seq<byte>, prefix: seq<byte>, rest: seq<byte>)
    requires KeyPrefix(key) == Some(prefix)
    ensures ReadKey(prefix + key + rest, KeySizeByte(key)) == Ok(KeyRead(key, |prefix| + |key|))
    ensures (prefix + key + rest)[|prefix| + |key|..] == rest
  {
    hide VaruintEncode, VaruintDecode;
    var entry := prefix + key + rest;
    if |key| < 0xFF {
      assert entry == key + rest;
    } else {
      assert entry == prefix + (key + rest);
      VaruintRoundTrip(|key| - 0xFF, key + rest);
      assert entry[|prefix|..|prefix| + |key|] == key;
    }
  }

  /** The entry of an object in its piece. */
  lemma EntryDecodes(hash: seq<byte> -> byte, e: Entry, piece: seq<byte>, depth: nat) returns (used: nat)
    requires EncodeEntry(hash, e) == Some(piece) && InRange(e.value)
    ensures ReadKey(piece, KeySizeByte(e.key)) == Ok(KeyRead(e.key, used))
    ensures used <= |piece| && Within(Decode(hash, piece[used..], depth), Canonical(e.value), depth, Height(e.value))
    decreases e, 0
  {
    hide Decode, Encode, Canonical, Height, InRange, ReadKey, KeyPrefix;
    var prefix, code := KeyPrefix(e.key).value, Encode(hash, e.value).value;
    KeyReads(e.key, prefix, code);
    used := |prefix| + |e.key|;
    RoundTrip(hash, e.value, code, depth);
  }

  lemma {:induction false} HashesAt(hash: seq<byte> -> byte, keys: seq<seq<byte>>, i: nat)
    requires i < |keys|
    ensures KeyHashes(hash, keys)[i] == hash(keys[i])
    decreases |keys|
  {
    if i < |keys| - 1 { HashesAt(hash, keys[..|keys| - 1], i); }
  }

  lemma {:induction false} EntriesDecode(hash: seq<byte> -> byte, es: seq<Entry>, pieces: seq<seq<byte>>, i: nat, depth: nat)
    requires EncodeEntries(hash, es) == Some(pieces) && i <= |es| && (forall e :: e in es ==> InRange(e.value))
    requires depth < MAX_DECODE_DEPTH
    ensures Within(DecodeEntries(hash, Concat(pieces), KeyHashes(hash, Keys(es)), Starts(pieces), KeySizeBytes(es), i, depth),
                   CanonicalEntries(es[i..]), depth + 1, HeightOfEntries(es[i..]))
    decreases es, |es| - i
  {
    hide Decode, Encode, Canonical, Height, Concat, Starts, InRange, InOrder, EncodeEntries, EncodeEntry, ReadKey, KeyHashes;
    if i < |es| {
      PieceAt(pieces, i);
      EntryEncodedAt(hash, es, pieces, i);
      var used := EntryDecodes(hash, es[i], pieces[i], depth + 1);
      HashesAt(hash, Keys(es), i);
      EntriesDecode(hash, es, pieces, i + 1, depth);
      assert es[i..][1..] == es[i + 1..] && es[i..][0] == es[i];
    }
  }

  // ---------------------------------------------------------------- whole containers

  /** A container: its tag and width, its data, and its table and count. */
  lemma ArrayParts(pieces: seq<seq<byte>>, b: seq<byte>, w: nat)
    requires ArrayOf(pieces) == Some(b) && OffsetWidth(|Concat(pieces)|) == Some(w) && |pieces| <= 0xFFFF
    ensures |b| >= 4 && b[0] == 0xB0 && b[1] == w - 1 && LastCount(b) == |pieces| && |b| == 4 + w * |pieces| + |Concat(pieces)|
    ensures var size := |Concat(pieces)|;
            b[2..2 + size] == Concat(pieces) && ReadTable(b, 2 + size, 0, w, w, |pieces|) == Starts(pieces)
  {
    hide Concat, OffsetTable, OffsetWidth, ReadTable, Starts, LastCount, Pow256;
    var data, table := Concat(pieces), OffsetTable(pieces, w);
    WidthFits(|data|, w);
    var head: seq<byte> := [0xB0, w - 1];
    assert b == head + data + table + Count16(|pieces|);
    AtSelf(b);
    AtSplit(b, 0, head + data + table, Count16(|pieces|));
    AtSplit(b, 0, head + data, table);
    AtSplit(b, 0, head, data);
    CountReads(b, |pieces|);
    assert pieces[..|pieces|] == pieces;
    TableReads(b, 2 + |data|, pieces, w, |pieces|);
  }

  lemma AtSelf(b: seq<byte>)
    ensures At(b, 0, b)
  {
  }

  lemma ArrayDecodes(hash: seq<byte> -> byte, children: seq<Value>, pieces: seq<seq<byte>>, b: seq<byte>, depth: nat)
    requires EncodeAll(hash, children) == Some(pieces) && ArrayOf(pieces) == Some(b) && |children| <= 0xFFFF
    requires (forall c :: c in children ==> InRange(c)) && depth < MAX_DECODE_DEPTH
    ensures |b| >= 1 && b[0] == 0xB0
    ensures Within(DecodeArray(hash, b, depth), Array(CanonicalAll(children)), depth, 1 + HeightOfAll(children))
    decreases children, |children| + 1
  {
    hide Concat, OffsetTable, ReadTable, Starts, LastCount, DecodeSpans, EncodeAll, CanonicalAll, HeightOfAll, InRange;
    var w := OffsetWidth(|Concat(pieces)|).value;
    ArrayParts(pieces, b, w);
    SpansDecode(hash, children, pieces, 0, depth);
    assert children[0..] == children;
  }

  lemma ObjectParts(hash: seq<byte> -> byte, es: seq<Entry>, pieces: seq<seq<byte>>, b: seq<byte>, w: nat)
    requires |pieces| == |es| <= 0xFFFF && ObjectOf(hash, es, pieces) == Some(b) && OffsetWidth(|Concat(pieces)|) == Some(w)
    ensures |b| >= 4 && b[0] == 0xC0 && b[1] == w - 1 && LastCount(b) == |pieces|
    ensures |b| == 4 + |es| + (w + 1) * |es| + |Concat(pieces)|
    ensures var size, n := |Concat(pieces)|, |es|;
            && b[2..2 + size] == Concat(pieces) && b[2 + size..2 + size + n] == KeyHashes(hash, Keys(es))
            && ReadTable(b, 2 + size + n, 0, w, w + 1, n) == Starts(pieces)
            && ReadTable(b, 2 + size + n, w, 1, w + 1, n) == KeySizeBytes(es)
  {
    hide Concat, SizedOffsetTable, OffsetWidth, ReadTable, Starts, LastCount, Pow256, KeyHashes, Keys, KeySizeBytes;
    var data, hashes, sizes := Concat(pieces), KeyHashes(hash, Keys(es)), KeySizeBytes(es);
    var table := SizedOffsetTable(pieces, sizes, w);
    WidthFits(|data|, w);
    var head: seq<byte> := [0xC0, w - 1];
    assert b == head + data + hashes + table + Count16(|es|);
    AtSelf(b);
    AtSplit(b, 0, head + data + hashes + table, Count16(|es|));
    AtSplit(b, 0, head + data + hashes, table);
    AtSplit(b, 0, head + data, hashes);
    AtSplit(b, 0, head, data);
    CountReads(b, |es|);
    assert pieces[..|pieces|] == pieces && sizes[..|sizes|] == sizes;
    SizedTableReads(b, 2 + |data| + |es|, pieces, sizes, w, |es|);
  }

  lemma ObjectWidth(hash: seq<byte> -> byte, es: seq<Entry>, pieces: seq<seq<byte>>, b: seq<byte>) returns (w: nat)
    requires |pieces| == |es| && ObjectOf(hash, es, pieces) == Some(b)
    ensures OffsetWidth(|Concat(pieces)|) == Some(w) && 1 <= w <= 4
  {
    w := OffsetWidth(|Concat(pieces)|).value;
  }

  /** A container succeeds when its parts do. */
  lemma WithinObject(hash: seq<byte> -> byte, b: seq<byte>, depth: nat, es: seq<Entry>, pieces: seq<seq<byte>>)
    requires |pieces| == |es|
    requires var entries := DecodeEntries(hash, Concat(pieces), KeyHashes(hash, Keys(es)), Starts(pieces), KeySizeBytes(es), 0, depth);
             && Within(entries, CanonicalEntries(es), depth + 1, HeightOfEntries(es))
             && DecodeObject(hash, b, depth) == if entries.Ok? then Ok(Object(entries.value)) else Failure
    ensures Within(DecodeObject(hash, b, depth), Object(CanonicalEntries(es)), depth, 1 + HeightOfEntries(es))
  {
    hide DecodeEntries, DecodeObject, Concat, KeyHashes, Keys, Starts, KeySizeBytes, CanonicalEntries, HeightOfEntries;
  }

  lemma ObjectUnfold(hash: seq<byte> -> byte, b: seq<byte>, depth: nat, w: nat, n: nat, size: nat)
    requires |b| >= 4 && 1 <= w <= 4 && b[1] == w - 1 && LastCount(b) == n && |b| == 4 + n + (w + 1) * n + size
    ensures var entries := DecodeEntries(hash, b[2..2 + size], b[2 + size..2 + size + n], ReadTable(b, 2 + size + n, 0, w, w + 1, n),
                                         ReadTable(b, 2 + size + n, w, 1, w + 1, n), 0, depth);
            DecodeObject(hash, b, depth) == if entries.Ok? then Ok(Object(entries.value)) else Failure
  {
    hide LastCount, ReadTable, DecodeEntries;
  }

  lemma ObjectDecodes(hash: seq<byte> -> byte, es: seq<Entry>, pieces: seq<seq<byte>>, b: seq<byte>, depth: nat)
    requires EncodeEntries(hash, es) == Some(pieces) && |es| <= 0xFFFF && ObjectOf(hash, es, pieces) == Some(b)
    requires (forall e :: e in es ==> InRange(e.value)) && depth < MAX_DECODE_DEPTH
    ensures |b| >= 1 && b[0] == 0xC0
    ensures Within(DecodeObject(hash, b, depth), Object(CanonicalEntries(es)), depth, 1 + HeightOfEntries(es))
    decreases es, |es| + 1
  {
    hide *;
    var w := ObjectWidth(hash, es, pieces, b);
    ObjectParts(hash, es, pieces, b, w);
    ObjectUnfold(hash, b, depth, w, |es|, |Concat(pieces)|);
    EntriesDecode(hash, es, pieces, 0, depth);
    assert es[0..] == es;
    WithinObject(hash, b, depth, es, pieces);
  }

  // ---------------------------------------------------------------- rows

  function Lengths(keys: seq<seq<byte>>): (r: seq<nat>)
    ensures |r| == |keys|
  {
    if keys == [] then [] else Lengths(keys[..|keys| - 1]) + [|keys[|keys| - 1]|]
  }

  lemma {:induction false} LengthAt(keys: seq<seq<byte>>, i: nat)
    requires i < |keys|
    ensures Lengths(keys)[i] == |keys[i]|
    decreases |keys|
  {
    if i < |keys| - 1 { LengthAt(keys[..|keys| - 1], i); }
  }

  lemma {:induction false} LengthsSum(keys: seq<seq<byte>>)
    ensures Sum(Lengths(keys)) == |Concat(keys)|
  {
    if keys != [] {
      var n := |keys| - 1;
      LengthsSum(keys[..n]);
      assert Lengths(keys)[..n] == Lengths(keys[..n]);
    }
  }

  /** A number with one more byte on top. */
  lemma {:induction false} LeOfSum(low: nat, top: nat, k: nat)
    requires low < Pow256(k) && top < 256
    ensures Le(low + top * Pow256(k), k + 1) == Le(low, k) + [top]
  {
    if k == 0 {
      LeNone(top / 256);
      LeNone(low);
      LeUnfold(top, 0);
    } else {
      ShiftedByte(low, top, Pow256(k - 1));
      LeOfSum(low / 256, top, k - 1);
      LeUnfold(low + top * Pow256(k), k);
      LeUnfold(low, k - 1);
    }
  }

  lemma ShiftedByte(low: nat, top: nat, p: nat)
    ensures (low + top * (256 * p)) % 256 == low % 256 && (low + top * (256 * p)) / 256 == low / 256 + top * p
  {
    assert top * (256 * p) == 256 * (top * p);
  }

  lemma LeUnfold(n: nat, k: nat)
    ensures Le(n, k + 1) == [n % 256] + Le(n / 256, k)
  {
  }

  lemma LeNone(n: nat)
    ensures Le(n, 0) == []
  {
  }

  /** The slot of a shared key: three bytes of offset and one of length. */
  lemma SlotBytes(offset: nat, size: nat)
    requires offset < 0x100_0000 && size < 0x100
    ensures Le(offset + size * 0x100_0000, 4) == Le(offset, 3) + [size]
  {
    hide Le;
    SmallPowers();
    LeOfSum(offset, size, 3);
  }

  lemma TableNext(b: seq<byte>, pos: nat, at: nat, w: nat, n: nat)
    requires n >= 1 && at + w <= 4 && pos + 4 * n <= |b|
    ensures ReadTable(b, pos, at, w, 4, n) == ReadTable(b, pos, at, w, 4, n - 1) + [ReadLe(b, pos + 4 * (n - 1) + at, w)]
  {
    hide ReadLe;
  }

  lemma NoTable(b: seq<byte>, pos: nat, at: nat, w: nat)
    requires at + w <= 4 && pos <= |b|
    ensures ReadTable(b, pos, at, w, 4, 0) == []
  {
  }

  lemma NoKeys(none: seq<seq<byte>>)
    requires none == []
    ensures Starts(none) == [] && Lengths(none) == []
  {
  }

  lemma KeysNext(keys: seq<seq<byte>>, n: nat)
    requires 1 <= n <= |keys|
    ensures KeySlots(keys[..n]) ==
            KeySlots(keys[..n - 1]) + Le(|Concat(keys[..n - 1])| % 0x100_0000 + |keys[n - 1]| % 256 * 0x100_0000, 4)
    ensures Starts(keys[..n]) == Starts(keys[..n - 1]) + [|Concat(keys[..n - 1])|]
    ensures Lengths(keys[..n]) == Lengths(keys[..n - 1]) + [|keys[n - 1]|]
  {
    hide Concat, Le;
    assert keys[..n][..n - 1] == keys[..n - 1];
  }

  lemma {:induction false} KeySlotsRead(b: seq<byte>, pos: nat, keys: seq<seq<byte>>, n: nat)
    requires n <= |keys| && KeysFit(keys) && At(b, pos, KeySlots(keys[..n]))
    ensures pos + 4 * n <= |b|
    ensures ReadTable(b, pos, 0, 3, 4, n) == Starts(keys[..n]) && ReadTable(b, pos, 3, 1, 4, n) == Lengths(keys[..n])
    decreases n
  {
    hide Concat, At, Le, ReadLe, ReadTable, KeySlots, Starts, Lengths;
    AtBounds(b, pos, KeySlots(keys[..n]));
    if n > 0 {
      var offset, size := |Concat(keys[..n - 1])|, |keys[n - 1]|;
      assert KeyFits(keys, n - 1);
      KeysNext(keys, n);
      SlotBytes(offset, size);
      AtSplit(b, pos, KeySlots(keys[..n - 1]), Le(offset, 3) + [size]);
      AtSplit(b, pos + 4 * (n - 1), Le(offset, 3), [size]);
      KeySlotsRead(b, pos, keys, n - 1);
      SmallPowers();
      ReadLeAt(b, pos + 4 * (n - 1), offset, 3);
      ReadByteAt(b, pos + 4 * (n - 1) + 3, size);
      TableNext(b, pos, 0, 3, n);
      TableNext(b, pos, 3, 1, n);
    } else {
      NoKeys(keys[..n]);
      NoTable(b, pos, 0, 3);
      NoTable(b, pos, 3, 1);
    }
  }

  lemma {:induction false} KeysDecode(hash: seq<byte> -> byte, keys: seq<seq<byte>>, i: nat)
    requires i <= |keys|
    ensures DecodeKeys(hash, Concat(keys), KeyHashes(hash, keys), Starts(keys), Lengths(keys), i) == Ok(keys[i..])
    decreases |keys| - i
  {
    hide Concat, Starts, Lengths, KeyHashes;
    if i < |keys| {
      PieceAt(keys, i);
      LengthAt(keys, i);
      HashesAt(hash, keys, i);
      NextIsEnd(keys, i);
      KeysDecode(hash, keys, i + 1);
      assert keys[i..] == [keys[i]] + keys[i + 1..];
    } else {
      assert keys[i..] == [];
    }
  }

  /** A piece ends where the next one starts. */
  lemma NextIsEnd(pieces: seq<seq<byte>>, i: nat)
    requires i < |pieces|
    ensures NextOffset(Starts(pieces), i, |Concat(pieces)|) == Starts(pieces)[i] + |pieces[i]|
  {
    hide Concat, Starts;
    StartAt(pieces, i);
    ConcatNext(pieces, i);
    if i + 1 < |pieces| {
      StartAt(pieces, i + 1);
    } else {
      assert pieces[..i + 1] == pieces;
    }
  }

  lemma {:induction false} RowBelowLargest(rows: seq<seq<seq<byte>>>, i: nat)
    requires i < |rows|
    ensures |Concat(rows[i])| <= LargestRow(rows)
    decreases |rows|
  {
    hide Concat;
    if i < |rows| - 1 { RowBelowLargest(rows[..|rows| - 1], i); }
  }

  /** One record. */
  lemma RowDecodes(hash: seq<byte> -> byte, row: Row, pieces: seq<seq<byte>>, w: nat, depth: nat)
    requires EncodeAll(hash, row.cells) == Some(pieces) && |Concat(pieces)| < Pow256(w) && depth < MAX_DECODE_DEPTH
    requires forall c :: c in row.cells ==> InRange(c)
    ensures Within(DecodeRow(hash, Concat(pieces) + OffsetTable(pieces, w), |pieces|, w, depth), Row(CanonicalAll(row.cells)),
                   depth + 1, HeightOfAll(row.cells))
    decreases row.cells, |row.cells| + 1
  {
    hide Concat, OffsetTable, ReadTable, Starts, DecodeSpans, EncodeAll, CanonicalAll, HeightOfAll, InRange, Pow256;
    var data, table := Concat(pieces), OffsetTable(pieces, w);
    AtSelf(data + table);
    AtSplit(data + table, 0, data, table);
    assert pieces[..|pieces|] == pieces && (data + table)[..|data|] == data;
    TableReads(data + table, |data|, pieces, w, |pieces|);
    SpansDecode(hash, row.cells, pieces, 0, depth);
    assert row.cells[0..] == row.cells;
  }

  predicate Rectangular(rows: seq<Row>, k: nat) {
    forall i :: 0 <= i < |rows| ==> |rows[i].cells| == k
  }

  lemma {:induction false} RowsDecode(hash: seq<byte> -> byte, rows: seq<Row>, pieces: seq<seq<seq<byte>>>, k: nat, w: nat, i: nat, depth: nat)
    requires EncodeRows(hash, rows) == Some(pieces) && i <= |rows| && Rectangular(rows, k) && depth < MAX_DECODE_DEPTH
    requires OffsetWidth(LargestRow(pieces)) == Some(w) && forall r :: r in rows ==> forall c :: c in r.cells ==> InRange(c)
    ensures Within(DecodeRows(hash, Concat(Records(pieces, w)), Starts(Records(pieces, w)), k, w, i, depth), CanonicalRows(rows[i..]),
                   depth + 1, HeightOfRows(rows[i..]))
    decreases rows, |rows| - i
  {
    hide Concat, Starts, InOrder, OffsetTable, DecodeRow, EncodeAll, EncodeRows, CanonicalAll, HeightOfAll, InRange, OffsetWidth, LargestRow, Pow256;
    if i < |rows| {
      var records := Records(pieces, w);
      PieceAt(records, i);
      RowEncodedAt(hash, rows, pieces, i);
      RowBelowLargest(pieces, i);
      WidthFits(LargestRow(pieces), w);
      RowDecodes(hash, rows[i], pieces[i], w, depth);
      RowsDecode(hash, rows, pieces, k, w, i + 1, depth);
      assert rows[i..][1..] == rows[i + 1..] && rows[i..][0] == rows[i];
    }
  }

  lemma AtSlice(b: seq<byte>, pos: nat, part: seq<byte>)
    requires At(b, pos, part)
    ensures pos + |part| <= |b| && b[pos..pos + |part|] == part
  {
  }

  /** The pieces an encoded row array is put together from. */
  datatype RowParts = RowParts(head: seq<byte>, code: seq<byte>, slots: seq<byte>, hashes: seq<byte>, area: seq<byte>, body: seq<byte>,
                               table: seq<byte>, count: seq<byte>)

  function Joined(p: RowParts): seq<byte> {
    p.head + p.code + p.slots + p.hashes + p.area + p.body + p.table + p.count
  }

  /** Where each piece is. */
  lemma JoinedAt(p: RowParts, b: seq<byte>)
    requires b == Joined(p)
    ensures At(b, 0, p.head) && At(b, |p.head|, p.code)
    ensures var slots := |p.head| + |p.code|; var hashes := slots + |p.slots|; var area := hashes + |p.hashes|;
            var body := area + |p.area|; var table := body + |p.body|; var count := table + |p.table|;
            && At(b, slots, p.slots) && At(b, hashes, p.hashes) && At(b, area, p.area) && At(b, body, p.body)
            && At(b, table, p.table) && At(b, count, p.count) && |b| == count + |p.count|
  {
    hide At;
    AtSelf(b);
    var s1 := p.head + p.code;
    var s2 := s1 + p.slots;
    var s3 := s2 + p.hashes;
    var s4 := s3 + p.area;
    var s5 := s4 + p.body;
    var s6 := s5 + p.table;
    AtSplit(b, 0, s6, p.count);
    AtSplit(b, 0, s5, p.table);
    AtSplit(b, 0, s4, p.body);
    AtSplit(b, 0, s3, p.area);
    AtSplit(b, 0, s2, p.hashes);
    AtSplit(b, 0, s1, p.slots);
    AtSplit(b, 0, p.head, p.code);
  }

  function PartsOf(hash: seq<byte> -> byte, keys: seq<seq<byte>>, rows: seq<seq<seq<byte>>>, w: nat, recoffW: nat, code: seq<byte>): RowParts
    requires 1 <= w <= 4 && 1 <= recoffW <= 4
  {
    RowParts([0xC1, (w - 1) + (recoffW - 1) * 4], code, KeySlots(keys), KeyHashes(hash, keys), Concat(keys), Concat(Records(rows, w)),
             OffsetTable(Records(rows, w), recoffW), Count16(|rows|))
  }

  /** The widths and the varuint an encoded row array was made with. */
  lemma RowsOfIs(hash: seq<byte> -> byte, keys: seq<seq<byte>>, rows: seq<seq<seq<byte>>>, b: seq<byte>)
    returns (w: nat, recoffW: nat, code: seq<byte>)
    requires RowsOf(hash, keys, rows) == Some(b)
    ensures OffsetWidth(LargestRow(rows)) == Some(w) && OffsetWidth(|Concat(Records(rows, w))|) == Some(recoffW)
    ensures 1 <= w <= 4 && 1 <= recoffW <= 4 && VaruintEncode(|keys|) == Some(code)
    ensures b == Joined(PartsOf(hash, keys, rows, w, recoffW, code))
  {
    hide LargestRow, Concat, Records, VaruintEncode, KeySlots, KeyHashes, OffsetTable, Count16;
    w := OffsetWidth(LargestRow(rows)).value;
    recoffW := OffsetWidth(|Concat(Records(rows, w))|).value;
    code := VaruintEncode(|keys|).value;
  }

  lemma PartsSizes(hash: seq<byte> -> byte, keys: seq<seq<byte>>, rows: seq<seq<seq<byte>>>, w: nat, recoffW: nat, code: seq<byte>)
    requires 1 <= w <= 4 && 1 <= recoffW <= 4
    ensures var p := PartsOf(hash, keys, rows, w, recoffW, code);
            && p == RowParts(p.head, code, KeySlots(keys), KeyHashes(hash, keys), Concat(keys), Concat(Records(rows, w)),
                             OffsetTable(Records(rows, w), recoffW), Count16(|rows|))
            && |p.head| == 2 && p.head[0] == 0xC1 && p.head[1] == (w - 1) + (recoffW - 1) * 4
            && |p.slots| == 4 * |keys| && |p.hashes| == |keys| && |p.count| == 2 && |p.table| == |rows| * recoffW
  {
    hide KeySlots, KeyHashes, Concat, Records, OffsetTable;
  }

  lemma AllKeySlotsRead(b: seq<byte>, pos: nat, keys: seq<seq<byte>>)
    requires KeysFit(keys) && At(b, pos, KeySlots(keys))
    ensures TableIs(b, pos, 0, 3, 4, |keys|, Starts(keys)) && TableIs(b, pos, 3, 1, 4, |keys|, Lengths(keys))
  {
    hide ReadTable, KeysFit, KeySlots, At;
    assert keys[..|keys|] == keys;
    KeySlotsRead(b, pos, keys, |keys|);
  }

  lemma AllTableReads(b: seq<byte>, pos: nat, pieces: seq<seq<byte>>, w: nat)
    requires At(b, pos, OffsetTable(pieces, w)) && OffsetWidth(|Concat(pieces)|) == Some(w)
    ensures TableIs(b, pos, 0, w, w, |pieces|, Starts(pieces))
  {
    hide ReadTable, OffsetTable, OffsetWidth, Concat, Pow256, At;
    assert pieces[..|pieces|] == pieces;
    WidthFits(|Concat(pieces)|, w);
    TableReads(b, pos, pieces, w, |pieces|);
  }

  /** What the reader finds in the parts. */
  lemma PartsRead(hash: seq<byte> -> byte, keys: seq<seq<byte>>, rows: seq<seq<seq<byte>>>, b: seq<byte>, w: nat, recoffW: nat, code: seq<byte>)
    requires KeysFit(keys) && |rows| <= 0xFFFF && 1 <= w <= 4 && 1 <= recoffW <= 4 && VaruintEncode(|keys|) == Some(code)
    requires OffsetWidth(|Concat(Records(rows, w))|) == Some(recoffW)
    requires b == Joined(PartsOf(hash, keys, rows, w, recoffW, code))
    ensures RowArrayRead(hash, keys, rows, b, w, recoffW, |code|)
  {
    hide PartsOf, Joined, KeysFit, OffsetWidth, Concat, Records, KeySlots, KeyHashes, OffsetTable, Count16, VaruintEncode, VaruintDecode,
         Starts, Lengths, LastCount, At, TableIs;
    var p := PartsOf(hash, keys, rows, w, recoffW, code);
    PartsSizes(hash, keys, rows, w, recoffW, code);
    JoinedAt(p, b);
    var pos := 2 + |code|;
    var body := pos + |keys| * 4 + |keys| + |Concat(keys)|;
    CountReads(b, |rows|);
    AllKeySlotsRead(b, pos, keys);
    AllTableReads(b, body + |Concat(Records(rows, w))|, Records(rows, w), recoffW);
    AtIndex(b, 0, p.head, 0);
    AtIndex(b, 0, p.head, 1);
    AtSlice(b, 2, code);
    VaruintRoundTrip(|keys|, b[2 + |code|..]);
    assert b[2..] == code + b[2 + |code|..];
    VaruintSome(|keys|, code);
  }

  lemma VaruintSome(n: nat, code: seq<byte>)
    requires VaruintEncode(n) == Some(code)
    ensures |code| == VaruintSize(n) >= 1
  {
    hide Le;
  }

  predicate TableIs(b: seq<byte>, pos: nat, at: nat, w: nat, step: nat, n: nat, s: seq<nat>) {
    at + w <= step && pos + n * step <= |b| && ReadTable(b, pos, at, w, step, n) == s
  }

  /** Where the reader finds the parts of a row array. */
  predicate RowArrayRead(hash: seq<byte> -> byte, keys: seq<seq<byte>>, rows: seq<seq<seq<byte>>>, b: seq<byte>, w: nat, recoffW: nat, used: nat)
  {
    var k, n, pos := |keys|, |rows|, 2 + used;
    var area := pos + k * 4 + k;
    var body := area + |Concat(keys)|;
    var table := body + |Concat(Records(rows, w))|;
    && 1 <= w <= 4 && 1 <= recoffW <= 4 && |b| == table + n * recoffW + 2 && used >= 1
    && b[0] == 0xC1 && b[1] == (w - 1) + (recoffW - 1) * 4
    && LastCount(b) == n && VaruintDecode(b[2..]) == Some(Varuint(k, used))
    && TableIs(b, pos, 0, 3, 4, k, Starts(keys)) && TableIs(b, pos, 3, 1, 4, k, Lengths(keys))
    && At(b, pos + k * 4, KeyHashes(hash, keys)) && At(b, area, Concat(keys)) && At(b, body, Concat(Records(rows, w)))
    && TableIs(b, table, 0, recoffW, recoffW, n, Starts(Records(rows, w)))
  }

  lemma SharedKeysRead(hash: seq<byte> -> byte, keys: seq<seq<byte>>, b: seq<byte>, pos: nat)
    requires TableIs(b, pos, 0, 3, 4, |keys|, Starts(keys)) && TableIs(b, pos, 3, 1, 4, |keys|, Lengths(keys))
    requires At(b, pos + |keys| * 4, KeyHashes(hash, keys)) && At(b, pos + |keys| * 4 + |keys|, Concat(keys))
    ensures ReadSharedKeys(hash, b, pos, |keys|) == Ok(SharedKeys(keys, pos + |keys| * 4 + |keys| + |Concat(keys)|))
  {
    hide Concat, KeyHashes, ReadTable, Starts, Lengths, DecodeKeys, Sum;
    LengthsSum(keys);
    KeysDecode(hash, keys, 0);
    assert keys[0..] == keys;
  }

  lemma RecordsRead(hash: seq<byte> -> byte, records: seq<seq<byte>>, b: seq<byte>, body: nat, k: nat, w: nat, recoffW: nat, depth: nat)
    requires body >= 2 && At(b, body, Concat(records)) && |b| >= 2 && LastCount(b) == |records|
    requires |b| == body + |Concat(records)| + |records| * recoffW + 2
    requires TableIs(b, body + |Concat(records)|, 0, recoffW, recoffW, |records|, Starts(records))
    ensures DecodeRecords(hash, b, body, k, w, recoffW, depth) == DecodeRows(hash, Concat(records), Starts(records), k, w, 0, depth)
  {
    hide Concat, ReadTable, Starts, LastCount, DecodeRows;
  }

  lemma WidthsRead(w: nat, recoffW: nat)
    requires 1 <= w <= 4 && 1 <= recoffW <= 4
    ensures var widths := (w - 1) + (recoffW - 1) * 4; widths < 16 && widths % 4 + 1 == w && widths / 4 + 1 == recoffW
  {
  }

  lemma RowArrayByParts(hash: seq<byte> -> byte, b: seq<byte>, w: nat, recoffW: nat, k: nat, used: nat, shared: SharedKeys, depth: nat)
    requires |b| >= 5 && 1 <= w <= 4 && 1 <= recoffW <= 4 && b[1] == (w - 1) + (recoffW - 1) * 4 && shared.end >= 2
    requires VaruintDecode(b[2..]) == Some(Varuint(k, used)) && ReadSharedKeys(hash, b, 2 + used, k) == Ok(shared)
    ensures var rows := DecodeRecords(hash, b, shared.end, k, w, recoffW, depth);
            DecodeRowArray(hash, b, depth) == if rows.Ok? then Ok(RowArray(shared.keys, rows.value)) else Failure
  {
    hide VaruintDecode, ReadSharedKeys, DecodeRecords;
    WidthsRead(w, recoffW);
  }

  lemma RowArrayUnfold(hash: seq<byte> -> byte, keys: seq<seq<byte>>, rows: seq<seq<seq<byte>>>, b: seq<byte>, w: nat, recoffW: nat, used: nat, depth: nat)
    requires RowArrayRead(hash, keys, rows, b, w, recoffW, used)
    ensures var values := DecodeRows(hash, Concat(Records(rows, w)), Starts(Records(rows, w)), |keys|, w, 0, depth);
            DecodeRowArray(hash, b, depth) == if values.Ok? then Ok(RowArray(keys, values.value)) else Failure
    ensures |b| >= 5 && b[0] == 0xC1
  {
    hide Concat, Records, KeyHashes, TableIs, Starts, Lengths, LastCount, VaruintDecode, DecodeRows, ReadSharedKeys, DecodeRecords, At, DecodeRowArray;
    SharedKeysRead(hash, keys, b, 2 + used);
    var end := 2 + used + |keys| * 4 + |keys| + |Concat(keys)|;
    RecordsRead(hash, Records(rows, w), b, end, |keys|, w, recoffW, depth);
    RowArrayByParts(hash, b, w, recoffW, |keys|, used, SharedKeys(keys, end), depth);
  }

  lemma RowArrayDecodes(hash: seq<byte> -> byte, keys: seq<seq<byte>>, rows: seq<Row>, pieces: seq<seq<seq<byte>>>, b: seq<byte>, depth: nat)
    requires EncodeRows(hash, rows) == Some(pieces) && RowsOf(hash, keys, pieces) == Some(b)
    requires KeysFit(keys) && |rows| <= 0xFFFF && Rectangular(rows, |keys|) && depth < MAX_DECODE_DEPTH
    requires forall r :: r in rows ==> forall c :: c in r.cells ==> InRange(c)
    ensures |b| >= 1 && b[0] == 0xC1
    ensures Within(DecodeRowArray(hash, b, depth), RowArray(keys, CanonicalRows(rows)), depth, 1 + HeightOfRows(rows))
    decreases rows, |rows| + 1
  {
    hide *;
    var w, recoffW, code := RowsOfIs(hash, keys, pieces, b);
    PartsRead(hash, keys, pieces, b, w, recoffW, code);
    assert rows[0..] == rows;
    RowArrayUnfold(hash, keys, pieces, b, w, recoffW, |code|, depth);
    RowsDecode(hash, rows, pieces, |keys|, w, 0, depth);
    WithinRows(hash, keys, rows, pieces, b, w, depth);
  }

  lemma WithinRows(hash: seq<byte> -> byte, keys: seq<seq<byte>>, rows: seq<Row>, pieces: seq<seq<seq<byte>>>, b: seq<byte>, w: nat, depth: nat)
    requires var values := DecodeRows(hash, Concat(Records(pieces, w)), Starts(Records(pieces, w)), |keys|, w, 0, depth);
             && Within(values, CanonicalRows(rows), depth + 1, HeightOfRows(rows))
             && DecodeRowArray(hash, b, depth) == if values.Ok? then Ok(RowArray(keys, values.value)) else Failure
    ensures Within(DecodeRowArray(hash, b, depth), RowArray(keys, CanonicalRows(rows)), depth, 1 + HeightOfRows(rows))
  {
    hide DecodeRows, DecodeRowArray, Concat, Records, Starts, CanonicalRows, HeightOfRows;
  }

  lemma NumericStringDecodes(hash: seq<byte> -> byte, inner: Value, code: seq<byte>, b: seq<byte>, depth: nat)
    requires IsNumeric(inner) && b == [0x80] + code && depth < MAX_DECODE_DEPTH
    requires Within(Decode(hash, code, depth + 1), Canonical(inner), depth + 1, Height(inner))
    ensures Within(Decode(hash, b, depth), NumericString(Canonical(inner)), depth, 1 + Height(inner))
  {
    assert b[1..] == code;
  }

  /** Whether a value decodes as a container or a leaf is told by its first byte. */
  lemma DecodeByTag(hash: seq<byte> -> byte, b: seq<byte>, depth: nat)
    requires |b| >= 1 && depth < MAX_DECODE_DEPTH && b[0] / 16 != 8
    ensures b[0] == 0xB0 ==> Decode(hash, b, depth) == DecodeArray(hash, b, depth)
    ensures b[0] == 0xC0 ==> Decode(hash, b, depth) == DecodeObject(hash, b, depth)
    ensures b[0] == 0xC1 ==> Decode(hash, b, depth) == DecodeRowArray(hash, b, depth)
    ensures b[0] != 0xB0 && b[0] != 0xC0 && b[0] != 0xC1 ==> Decode(hash, b, depth) == DecodeLeaf(b, b[0] / 16, b[0] % 16)
  {
    hide DecodeArray, DecodeObject, DecodeRowArray, DecodeLeaf;
  }

  lemma TooDeep(hash: seq<byte> -> byte, b: seq<byte>, depth: nat)
    requires depth >= MAX_DECODE_DEPTH
    ensures Decode(hash, b, depth) == Failure
  {
  }

  lemma HeightPositive(v: Value)
    ensures Height(v) >= 1
  {
  }

  /** A value encoded within the encoder's limits is decoded to itself with canonical NaNs, exactly
      when its nesting stays within the reader's limit; deeper values are refused. */
  lemma {:induction false} RoundTrip(hash: seq<byte> -> byte, v: Value, b: seq<byte>, depth: nat)
    requires InRange(v) && Encode(hash, v) == Some(b)
    ensures Within(Decode(hash, b, depth), Canonical(v), depth, Height(v))
    decreases v
  {
    hide Decode, DecodeLeaf, DecodeArray, DecodeObject, DecodeRowArray, CanonicalAll, CanonicalEntries, CanonicalRows,
         HeightOfAll, HeightOfEntries, HeightOfRows, ArrayOf, ObjectOf, RowsOf, KeysFit, CanonicalNaN;
    HeightPositive(v);
    if depth >= MAX_DECODE_DEPTH {
      TooDeep(hash, b, depth);
    } else {
      match v
      case Array(children) => {
        ArrayDecodes(hash, children, EncodeAll(hash, children).value, b, depth);
        DecodeByTag(hash, b, depth);
      }
      case Object(entries) => {
        ObjectDecodes(hash, entries, EncodeEntries(hash, entries).value, b, depth);
        DecodeByTag(hash, b, depth);
      }
      case RowArray(keys, rows) => {
        RowsRectangular(rows, |keys|);
        RowArrayDecodes(hash, keys, rows, EncodeRows(hash, rows).value, b, depth);
        DecodeByTag(hash, b, depth);
      }
      case NumericString(inner) => {
        RoundTrip(hash, inner, Encode(hash, inner).value, depth + 1);
        NumericStringDecodes(hash, inner, Encode(hash, inner).value, b, depth);
      }
      case _ => {
        LeafReads(hash, v, b);
        DecodeByTag(hash, b, depth);
      }
    }
  }

  lemma RowsRectangular(rows: seq<Row>, k: nat)
    requires !(exists r :: r in rows && |r.cells| != k)
    ensures Rectangular(rows, k)
  {
    forall i | 0 <= i < |rows| ensures |rows[i].cells| == k {
      assert rows[i] in rows;
    }
  }

  /** The whole reader undoes the whole writer. */
  lemma DecodeEncode(hash: seq<byte> -> byte, v: Value)
    requires InRange(v) && Encode(hash, v).Some?
    ensures Decode(hash, Encode(hash, v).value, 0) == if Height(v) <= MAX_DECODE_DEPTH then Ok(Canonical(v)) else Failure
  {
    hide Decode, Encode, Canonical, Height;
    RoundTrip(hash, v, Encode(hash, v).value, 0);
  }
}
