/** What the second pjson decoder reads, and that it reads what the first does
    (js/src/pjson.ts, lines 202-303). */
module PjsonJsDecode {
  import opened ByteStrings
  import opened Wrappers
  import opened PjsonNumbers
  import opened Pjson
  import opened PjsonDecode
  import opened PjsonRoundTrip
  import opened PjsonJs

  // ---------------------------------------------------------------- values without parts

  /** The sign is in the lowest bit. */
  function Unzigzag(z: nat): int {
    if z % 2 == 1 then -(z / 2) - 1 else z / 2
  }

  function JsDecimalOf(b: seq<byte>, count: nat): Result<Value>
    requires 1 <= count <= 16 && |b| >= 1
  {
    if |b| < 1 + count then Failure
    else
      match VaruintDecode(b[1 + count..])
      case None => Failure
      case Some(scale) =>
        if |b| != 1 + count + scale.used then Failure
        else Ok(Decimal(Unzigzag(Unle(b[1..1 + count])), Unzigzag(scale.value)))
  }

  /** By tag. The second nibble of null is not looked at, and a float's third bit is its flag for
      scientific notation: widths 9 to 11 stand for flagged floats. */
  function JsLeaf(b: seq<byte>, high: nat, low: nat): Result<Value>
    requires |b| >= 1 && low < 16
  {
    if high == 0 then Exactly(|b| == 1, Null)
    else if high == 1 then Exactly(|b| == 1 && low <= 1, Bool(low == 1))
    else if high == 2 then Exactly(|b| == 1, Uint(low))
    else if high == 3 then Exactly(|b| == 1 && low != 0, NegInt(low))
    else if high == 4 || high == 5 then
      if |b| != low + 2 || (high == 5 && Unle(b[1..]) == 0) then Failure
      else Ok(if high == 5 then NegInt(Unle(b[1..])) else Uint(Unle(b[1..])))
    else if high == 7 then JsDecimalOf(b, low + 1)
    else if high == 6 then
      var w := low % 8;
      if 1 <= w <= 3 && |b| == 1 + FloatBytes(w) then Ok(Float(low, Unle(b[1..]))) else Failure
    else if high == 9 then Exactly(low <= 1, Text(low, b[1..]))
    else if high == 10 then Exactly(low == 0, Bytes(0, b[1..]))
    else if high == 11 && low != 0 then
      if low > 10 || |b| < 3 || |b| != 3 + LastCount(b) * ElementSize(low - 1) then Failure
      else Ok(TypedArray(low - 1, b[1..|b| - 2]))
    else Failure
  }

  // ---------------------------------------------------------------- containers

  /** The value that takes up exactly the bytes b, inside `depth` containers. */
  function JsDecode(hash: seq<byte> -> byte, b: seq<byte>, depth: nat): Result<Value>
    decreases |b|, 0
  {
    if depth > MAX_DEPTH || b == [] then Failure
    else if b[0] == 0xB0 then JsArrayOf(hash, b, depth)
    else if b[0] == 0xC0 then JsObjectOf(hash, b, depth)
    else if b[0] == 0xC1 then JsRowsOf(hash, b, depth)
    else JsLeaf(b, b[0] / 16, b[0] % 16)
  }

  /** Unlike in the first decoder the offsets may be wider than needed to any degree. */
  function JsArrayOf(hash: seq<byte> -> byte, b: seq<byte>, depth: nat): Result<Value>
    decreases |b| - 1, |b| + 3
  {
    if |b| < 4 || b[1] >= 4 then Failure
    else
      var w: nat, n := (b[1] + 1) as int, LastCount(b);
      if |b| < 4 + w * n then Failure
      else
        var size := |b| - (4 + w * n);
        var values := JsSpans(hash, b[2..2 + size], ReadTable(b, 2 + size, 0, w, w, n), 0, depth);
        if values.Ok? then Ok(Array(values.value)) else Failure
  }

  function JsSpans(hash: seq<byte> -> byte, data: seq<byte>, offsets: seq<nat>, i: nat, depth: nat): Result<seq<Value>>
    requires i <= |offsets|
    decreases |data|, |offsets| - i + 1
  {
    if i == |offsets| then Ok([])
    else if !InOrder(offsets, i, |data|) then Failure
    else
      var first := JsDecode(hash, data[offsets[i]..NextOffset(offsets, i, |data|)], depth + 1);
      if first.Failure? then Failure
      else
        var rest := JsSpans(hash, data, offsets, i + 1, depth);
        if rest.Ok? then Ok([first.value] + rest.value) else Failure
  }

  function JsObjectOf(hash: seq<byte> -> byte, b: seq<byte>, depth: nat): Result<Value>
    decreases |b| - 1, |b| + 3
  {
    if |b| < 4 || b[1] >= 4 then Failure
    else
      var w: nat, n := (b[1] + 1) as int, LastCount(b);
      if |b| < 4 + n + (w + 1) * n then Failure
      else
        var size := |b| - (4 + n + (w + 1) * n);
        var entries := JsEntries(hash, b[2..2 + size], b[2 + size..2 + size + n],
                                 ReadTable(b, 2 + size + n, 0, w, w + 1, n),
                                 ReadTable(b, 2 + size + n, w, 1, w + 1, n), 0, depth);
        if entries.Ok? then Ok(Object(entries.value)) else Failure
  }

  function JsEntries(hash: seq<byte> -> byte, data: seq<byte>, hashes: seq<byte>, offsets: seq<nat>, sizes: seq<nat>,
      i: nat, depth: nat)
    : Result<seq<Entry>>
    requires i <= |offsets| == |sizes| == |hashes|
    decreases |data|, |offsets| - i + 1
  {
    if i == |offsets| then Ok([])
    else if !InOrder(offsets, i, |data|) then Failure
    else
      var entry := data[offsets[i]..NextOffset(offsets, i, |data|)];
      match ReadKey(entry, sizes[i])
      case Failure => Failure
      case Ok(k) =>
        if hashes[i] != hash(k.key) then Failure
        else
          var value := JsDecode(hash, entry[k.used..], depth + 1);
          if value.Failure? then Failure
          else
            var rest := JsEntries(hash, data, hashes, offsets, sizes, i + 1, depth);
            if rest.Ok? then Ok([Entry(k.key, value.value)] + rest.value) else Failure
  }

  predicate AllShort(lengths: seq<nat>) {
    forall j :: 0 <= j < |lengths| ==> lengths[j] < 255
  }

  /** The keys end where the last one does, not behind as many bytes as all have together. */
  function JsSharedKeys(hash: seq<byte> -> byte, b: seq<byte>, pos: nat, k: nat): (r: Result<SharedKeys>)
    ensures r.Ok? ==> pos <= r.value.end <= |b|
  {
    var area := pos + k * 4 + k;
    if k == 0 || |b| < area + 2 then Failure
    else
      var starts, lengths := ReadTable(b, pos, 0, 3, 4, k), ReadTable(b, pos, 3, 1, 4, k);
      var end := area + starts[k - 1] + lengths[k - 1];
      if !AllShort(lengths) || |b| < end then Failure
      else
        var keys := DecodeKeys(hash, b[area..end], b[pos + k * 4..area], starts, lengths, 0);
        if keys.Failure? then Failure else Ok(SharedKeys(keys.value, end))
  }

  function JsRowsOf(hash: seq<byte> -> byte, b: seq<byte>, depth: nat): Result<Value>
    decreases |b| - 1, |b| + 3
  {
    if |b| < 5 || b[1] >= 16 then Failure
    else
      match VaruintDecode(b[2..])
      case None => Failure
      case Some(count) =>
        match JsSharedKeys(hash, b, 2 + count.used, count.value)
        case Failure => Failure
        case Ok(shared) =>
          var widths: int := b[1];
          var rows := JsRecords(hash, b, shared.end, count.value, widths % 4 + 1, widths / 4 + 1, depth);
          if rows.Ok? then Ok(RowArray(shared.keys, rows.value)) else Failure
  }

  function JsRecords(hash: seq<byte> -> byte, b: seq<byte>, body: nat, k: nat, w: nat, recoffW: nat, depth: nat): Result<seq<Row>>
    requires |b| >= 2 && body >= 2
    decreases |b| - 1, |b| + 2
  {
    var n := LastCount(b);
    var table := |b| - 2 - n * recoffW;
    if table < body then Failure
    else JsRowsFrom(hash, b[body..table], ReadTable(b, table, 0, recoffW, recoffW, n), k, w, 0, depth)
  }

  function JsRowsFrom(hash: seq<byte> -> byte, body: seq<byte>, offsets: seq<nat>, k: nat, w: nat, i: nat,
      depth: nat): Result<seq<Row>>
    requires i <= |offsets|
    decreases |body|, |offsets| - i + k + 2
  {
    if i == |offsets| then Ok([])
    else if !InOrder(offsets, i, |body|) then Failure
    else
      var row := JsRow(hash, body[offsets[i]..NextOffset(offsets, i, |body|)], k, w, depth);
      if row.Failure? then Failure
      else
        var rest := JsRowsFrom(hash, body, offsets, k, w, i + 1, depth);
        if rest.Ok? then Ok([row.value] + rest.value) else Failure
  }

  function JsRow(hash: seq<byte> -> byte, record: seq<byte>, k: nat, w: nat, depth: nat): Result<Row>
    decreases |record|, k + 2
  {
    if |record| < k * w then Failure
    else
      var size := |record| - k * w;
      var cells := JsSpans(hash, record[..size], ReadTable(record, size, 0, w, w, k), 0, depth);
      if cells.Ok? then Ok(Row(cells.value)) else Failure
  }

  // ---------------------------------------------------------------- values without parts are read alike

  lemma UnzigzagIs(z: nat, modulus: nat)
    requires z < modulus && modulus % 2 == 0
    ensures Unzigzag(z) == ZigzagDecode(z, modulus)
  {
  }

  lemma DecimalsAgree(b: seq<byte>, count: nat)
    requires 1 <= count <= 16 && |b| >= 1
    ensures JsDecimalOf(b, count) == DecodeDecimal(b, count)
  {
    hide Unle, VaruintDecode, ZigzagDecode, Unzigzag;
    if |b| >= 1 + count {
      DecimalInRange(b[1..1 + count]);
      UnzigzagIs(Unle(b[1..1 + count]), TWO_128);
      if VaruintDecode(b[1 + count..]).Some? { UnzigzagIs(VaruintDecode(b[1 + count..]).value.value, U32_LIMIT); }
    }
  }

  lemma LeavesAgree(b: seq<byte>, high: nat, low: nat)
    requires |b| >= 1 && low < 16
    ensures JsLeaf(b, high, low).Ok? && DecodeLeaf(b, high, low).Ok? ==> JsLeaf(b, high, low) == DecodeLeaf(b, high, low)
    ensures DecodeLeaf(b, high, low).Ok? && Known(DecodeLeaf(b, high, low).value) ==>
              JsLeaf(b, high, low) == DecodeLeaf(b, high, low)
  {
    hide Unle, DecodeDecimal, JsDecimalOf, LastCount;
    if high == 7 { DecimalsAgree(b, low + 1); }
  }

  // ---------------------------------------------------------------- what the encoders write is read

  /** The values the second decoder has: no strings of numbers, extensions, binary128 or hints on
      bytes, and row arrays with some keys, each shorter than 255 bytes. */
  predicate Known(v: Value) {
    match v
    case Float(w, _) => w <= 3
    case Bytes(hint, _) => hint == 0
    case Array(children) => forall c :: c in children ==> Known(c)
    case Object(entries) => forall e :: e in entries ==> Known(e.value)
    case RowArray(keys, rows) =>
      keys != [] && (forall i :: 0 <= i < |keys| ==> |keys[i]| < 255)
      && forall r :: r in rows ==> forall c :: c in r.cells ==> Known(c)
    case NumericString(_) => false
    case Extension(_, _) => false
    case _ => true
  }

  /** Success exactly when the nesting stays within the second decoder's limit. */
  predicate JsWithin<T(==)>(r: Result<T>, v: T, depth: nat, height: nat) {
    r == if depth + height <= MAX_DEPTH + 1 then Ok(v) else Failure
  }

  lemma {:induction false} JsSpansDecode(hash: seq<byte> -> byte, vs: seq<Value>, pieces: seq<seq<byte>>, i: nat, depth: nat)
    requires EncodeAll(hash, vs) == Some(pieces) && i <= |vs| && (forall v :: v in vs ==> InRange(v) && Known(v)) && depth <= MAX_DEPTH
    ensures JsWithin(JsSpans(hash, Concat(pieces), Starts(pieces), i, depth), CanonicalAll(vs[i..]), depth + 1,
        HeightOfAll(vs[i..]))
    decreases vs, |vs| - i
  {
    hide JsDecode, Encode, Canonical, Height, Concat, Starts, InRange, Known, InOrder, EncodeAll;
    if i < |vs| {
      PieceAt(pieces, i);
      EncodedAt(hash, vs, pieces, i);
      JsRoundTrip(hash, vs[i], pieces[i], depth + 1);
      JsSpansDecode(hash, vs, pieces, i + 1, depth);
      assert vs[i..][1..] == vs[i + 1..] && vs[i..][0] == vs[i];
    }
  }

  lemma JsEntryDecodes(hash: seq<byte> -> byte, e: Entry, piece: seq<byte>, depth: nat) returns (used: nat)
    requires EncodeEntry(hash, e) == Some(piece) && InRange(e.value) && Known(e.value)
    ensures ReadKey(piece, KeySizeByte(e.key)) == Ok(KeyRead(e.key, used))
    ensures used <= |piece| && JsWithin(JsDecode(hash, piece[used..], depth), Canonical(e.value), depth, Height(e.value))
    decreases e, 0
  {
    hide JsDecode, Encode, Canonical, Height, InRange, Known, ReadKey, KeyPrefix;
    var prefix, code := KeyPrefix(e.key).value, Encode(hash, e.value).value;
    KeyReads(e.key, prefix, code);
    used := |prefix| + |e.key|;
    JsRoundTrip(hash, e.value, code, depth);
  }

  lemma {:induction false} JsEntriesDecode(hash: seq<byte> -> byte, es: seq<Entry>, pieces: seq<seq<byte>>, i: nat, depth: nat)
    requires EncodeEntries(hash, es) == Some(pieces) && i <= |es| && (forall e :: e in es ==> InRange(e.value) && Known(e.value))
    requires depth <= MAX_DEPTH
    ensures JsWithin(JsEntries(hash, Concat(pieces), KeyHashes(hash, Keys(es)), Starts(pieces), KeySizeBytes(es), i, depth),
                     CanonicalEntries(es[i..]), depth + 1, HeightOfEntries(es[i..]))
    decreases es, |es| - i
  {
    hide JsDecode, Encode, Canonical, Height, Concat, Starts, InRange, Known, InOrder, EncodeEntries, EncodeEntry,
         ReadKey, KeyHashes;
    if i < |es| {
      PieceAt(pieces, i);
      EntryEncodedAt(hash, es, pieces, i);
      var used := JsEntryDecodes(hash, es[i], pieces[i], depth + 1);
      HashesAt(hash, Keys(es), i);
      JsEntriesDecode(hash, es, pieces, i + 1, depth);
      assert es[i..][1..] == es[i + 1..] && es[i..][0] == es[i];
    }
  }

  lemma JsArrayDecodes(hash: seq<byte> -> byte, children: seq<Value>, pieces: seq<seq<byte>>, b: seq<byte>, depth: nat)
    requires EncodeAll(hash, children) == Some(pieces) && ArrayOf(pieces) == Some(b) && |children| <= 0xFFFF
    requires (forall c :: c in children ==> InRange(c) && Known(c)) && depth <= MAX_DEPTH
    ensures |b| >= 1 && b[0] == 0xB0
    ensures JsWithin(JsArrayOf(hash, b, depth), Array(CanonicalAll(children)), depth, 1 + HeightOfAll(children))
    decreases children, |children| + 1
  {
    hide Concat, OffsetTable, ReadTable, Starts, LastCount, JsSpans, EncodeAll, CanonicalAll, HeightOfAll, InRange, Known;
    var w := OffsetWidth(|Concat(pieces)|).value;
    ArrayParts(pieces, b, w);
    JsSpansDecode(hash, children, pieces, 0, depth);
    assert children[0..] == children;
  }

  lemma JsObjectUnfold(hash: seq<byte> -> byte, b: seq<byte>, depth: nat, w: nat, n: nat, size: nat)
    requires |b| >= 4 && 1 <= w <= 4 && b[1] == w - 1 && LastCount(b) == n && |b| == 4 + n + (w + 1) * n + size
    ensures var entries := JsEntries(hash, b[2..2 + size], b[2 + size..2 + size + n], ReadTable(b, 2 + size + n, 0, w, w + 1, n),
                                     ReadTable(b, 2 + size + n, w, 1, w + 1, n), 0, depth);
            JsObjectOf(hash, b, depth) == if entries.Ok? then Ok(Object(entries.value)) else Failure
  {
    hide LastCount, ReadTable, JsEntries;
  }

  lemma JsWithinObject(hash: seq<byte> -> byte, b: seq<byte>, depth: nat, es: seq<Entry>, entries: Result<seq<Entry>>)
    requires JsWithin(entries, CanonicalEntries(es), depth + 1, HeightOfEntries(es))
    requires JsObjectOf(hash, b, depth) == if entries.Ok? then Ok(Object(entries.value)) else Failure
    ensures JsWithin(JsObjectOf(hash, b, depth), Object(CanonicalEntries(es)), depth, 1 + HeightOfEntries(es))
  {
    hide JsObjectOf, CanonicalEntries, HeightOfEntries;
  }

  lemma JsObjectDecodes(hash: seq<byte> -> byte, es: seq<Entry>, pieces: seq<seq<byte>>, b: seq<byte>, depth: nat)
    requires EncodeEntries(hash, es) == Some(pieces) && |es| <= 0xFFFF && ObjectOf(hash, es, pieces) == Some(b)
    requires (forall e :: e in es ==> InRange(e.value) && Known(e.value)) && depth <= MAX_DEPTH
    ensures |b| >= 1 && b[0] == 0xC0
    ensures JsWithin(JsObjectOf(hash, b, depth), Object(CanonicalEntries(es)), depth, 1 + HeightOfEntries(es))
    decreases es, |es| + 1
  {
    hide *;
    var w := ObjectWidth(hash, es, pieces, b);
    ObjectParts(hash, es, pieces, b, w);
    JsObjectUnfold(hash, b, depth, w, |es|, |Concat(pieces)|);
    JsEntriesDecode(hash, es, pieces, 0, depth);
    assert es[0..] == es;
    JsWithinObject(hash, b, depth, es,
                   JsEntries(hash, Concat(pieces), KeyHashes(hash, Keys(es)), Starts(pieces), KeySizeBytes(es), 0, depth));
  }

  // ---------------------------------------------------------------- rows

  lemma JsRowDecodes(hash: seq<byte> -> byte, row: Row, pieces: seq<seq<byte>>, w: nat, depth: nat)
    requires EncodeAll(hash, row.cells) == Some(pieces) && |Concat(pieces)| < Pow256(w) && depth <= MAX_DEPTH
    requires forall c :: c in row.cells ==> InRange(c) && Known(c)
    ensures JsWithin(JsRow(hash, Concat(pieces) + OffsetTable(pieces, w), |pieces|, w, depth), Row(CanonicalAll(row.cells)),
                     depth + 1, HeightOfAll(row.cells))
    decreases row.cells, |row.cells| + 1
  {
    hide Concat, OffsetTable, ReadTable, Starts, JsSpans, EncodeAll, CanonicalAll, HeightOfAll, InRange, Known, Pow256;
    var data, table := Concat(pieces), OffsetTable(pieces, w);
    AtSelf(data + table);
    AtSplit(data + table, 0, data, table);
    assert pieces[..|pieces|] == pieces && (data + table)[..|data|] == data;
    TableReads(data + table, |data|, pieces, w, |pieces|);
    JsSpansDecode(hash, row.cells, pieces, 0, depth);
    assert row.cells[0..] == row.cells;
  }

  lemma {:induction false} JsRowsDecode(hash: seq<byte> -> byte, rows: seq<Row>, pieces: seq<seq<seq<byte>>>, k: nat,
      w: nat, i: nat, depth: nat)
    requires EncodeRows(hash, rows) == Some(pieces) && i <= |rows| && Rectangular(rows, k) && depth <= MAX_DEPTH
    requires OffsetWidth(LargestRow(pieces)) == Some(w) && forall r :: r in rows ==> forall c :: c in r.cells ==> InRange(c) && Known(c)
    ensures JsWithin(JsRowsFrom(hash, Concat(Records(pieces, w)), Starts(Records(pieces, w)), k, w, i, depth),
        CanonicalRows(rows[i..]),
                     depth + 1, HeightOfRows(rows[i..]))
    decreases rows, |rows| - i
  {
    hide Concat, Starts, InOrder, OffsetTable, JsRow, EncodeAll, EncodeRows, CanonicalAll, HeightOfAll, InRange,
         Known, OffsetWidth, LargestRow, Pow256;
    if i < |rows| {
      var records := Records(pieces, w);
      PieceAt(records, i);
      RowEncodedAt(hash, rows, pieces, i);
      RowBelowLargest(pieces, i);
      WidthFits(LargestRow(pieces), w);
      JsRowDecodes(hash, rows[i], pieces[i], w, depth);
      JsRowsDecode(hash, rows, pieces, k, w, i + 1, depth);
      assert rows[i..][1..] == rows[i + 1..] && rows[i..][0] == rows[i];
    }
  }

  lemma ShortLengths(keys: seq<seq<byte>>)
    requires forall i :: 0 <= i < |keys| ==> |keys[i]| < 255
    ensures AllShort(Lengths(keys))
  {
    hide Lengths;
    forall i | 0 <= i < |keys| ensures Lengths(keys)[i] < 255 { LengthAt(keys, i); }
  }

  /** In keys laid one after the other the last ends where all end. */
  lemma JsSharedKeysRead(hash: seq<byte> -> byte, keys: seq<seq<byte>>, b: seq<byte>, pos: nat)
    requires keys != [] && (forall i :: 0 <= i < |keys| ==> |keys[i]| < 255)
    requires TableIs(b, pos, 0, 3, 4, |keys|, Starts(keys)) && TableIs(b, pos, 3, 1, 4, |keys|, Lengths(keys))
    requires At(b, pos + |keys| * 4, KeyHashes(hash, keys)) && At(b, pos + |keys| * 4 + |keys|, Concat(keys))
    requires |b| >= pos + |keys| * 4 + |keys| + |Concat(keys)| + 2
    ensures JsSharedKeys(hash, b, pos, |keys|) == Ok(SharedKeys(keys, pos + |keys| * 4 + |keys| + |Concat(keys)|))
  {
    hide Concat, KeyHashes, ReadTable, Starts, Lengths, DecodeKeys, AllShort;
    ShortLengths(keys);
    NextIsEnd(keys, |keys| - 1);
    LengthAt(keys, |keys| - 1);
    KeysDecode(hash, keys, 0);
    assert keys[0..] == keys;
  }

  lemma JsRecordsRead(hash: seq<byte> -> byte, records: seq<seq<byte>>, b: seq<byte>, body: nat, k: nat, w: nat,
      recoffW: nat, depth: nat)
    requires body >= 2 && At(b, body, Concat(records)) && |b| >= 2 && LastCount(b) == |records|
    requires |b| == body + |Concat(records)| + |records| * recoffW + 2
    requires TableIs(b, body + |Concat(records)|, 0, recoffW, recoffW, |records|, Starts(records))
    ensures JsRecords(hash, b, body, k, w, recoffW, depth) == JsRowsFrom(hash, Concat(records), Starts(records), k, w, 0, depth)
  {
    hide Concat, ReadTable, Starts, LastCount, JsRowsFrom;
  }

  lemma JsRowsByParts(hash: seq<byte> -> byte, b: seq<byte>, w: nat, recoffW: nat, k: nat, used: nat,
      shared: SharedKeys, depth: nat)
    requires |b| >= 5 && 1 <= w <= 4 && 1 <= recoffW <= 4 && b[1] == (w - 1) + (recoffW - 1) * 4 && shared.end >= 2
    requires VaruintDecode(b[2..]) == Some(Varuint(k, used)) && JsSharedKeys(hash, b, 2 + used, k) == Ok(shared)
    ensures var rows := JsRecords(hash, b, shared.end, k, w, recoffW, depth);
            JsRowsOf(hash, b, depth) == if rows.Ok? then Ok(RowArray(shared.keys, rows.value)) else Failure
  {
    hide VaruintDecode, JsSharedKeys, JsRecords;
    WidthsRead(w, recoffW);
  }

  lemma JsRowsUnfold(hash: seq<byte> -> byte, keys: seq<seq<byte>>, rows: seq<seq<seq<byte>>>, b: seq<byte>, w: nat,
      recoffW: nat, used: nat, depth: nat)
    requires RowArrayRead(hash, keys, rows, b, w, recoffW, used)
    requires keys != [] && (forall i :: 0 <= i < |keys| ==> |keys[i]| < 255)
    ensures var values := JsRowsFrom(hash, Concat(Records(rows, w)), Starts(Records(rows, w)), |keys|, w, 0, depth);
            JsRowsOf(hash, b, depth) == if values.Ok? then Ok(RowArray(keys, values.value)) else Failure
    ensures |b| >= 5 && b[0] == 0xC1
  {
    hide Concat, Records, KeyHashes, TableIs, Starts, Lengths, LastCount, VaruintDecode, JsRowsFrom, JsSharedKeys,
         JsRecords, At, JsRowsOf;
    JsSharedKeysRead(hash, keys, b, 2 + used);
    var end := 2 + used + |keys| * 4 + |keys| + |Concat(keys)|;
    JsRecordsRead(hash, Records(rows, w), b, end, |keys|, w, recoffW, depth);
    JsRowsByParts(hash, b, w, recoffW, |keys|, used, SharedKeys(keys, end), depth);
  }

  lemma JsWithinRows(hash: seq<byte> -> byte, keys: seq<seq<byte>>, rows: seq<Row>, b: seq<byte>,
      values: Result<seq<Row>>, depth: nat)
    requires JsWithin(values, CanonicalRows(rows), depth + 1, HeightOfRows(rows))
    requires JsRowsOf(hash, b, depth) == if values.Ok? then Ok(RowArray(keys, values.value)) else Failure
    ensures JsWithin(JsRowsOf(hash, b, depth), RowArray(keys, CanonicalRows(rows)), depth, 1 + HeightOfRows(rows))
  {
    hide JsRowsOf, CanonicalRows, HeightOfRows;
  }

  lemma JsRowArrayDecodes(hash: seq<byte> -> byte, keys: seq<seq<byte>>, rows: seq<Row>, pieces: seq<seq<seq<byte>>>,
      b: seq<byte>, depth: nat)
    requires EncodeRows(hash, rows) == Some(pieces) && RowsOf(hash, keys, pieces) == Some(b)
    requires KeysFit(keys) && |rows| <= 0xFFFF && Rectangular(rows, |keys|) && depth <= MAX_DEPTH
    requires keys != [] && (forall i :: 0 <= i < |keys| ==> |keys[i]| < 255)
    requires forall r :: r in rows ==> forall c :: c in r.cells ==> InRange(c) && Known(c)
    ensures |b| >= 1 && b[0] == 0xC1
    ensures JsWithin(JsRowsOf(hash, b, depth), RowArray(keys, CanonicalRows(rows)), depth, 1 + HeightOfRows(rows))
    decreases rows, |rows| + 1
  {
    hide *;
    var w, recoffW, code := RowsOfIs(hash, keys, pieces, b);
    PartsRead(hash, keys, pieces, b, w, recoffW, code);
    assert rows[0..] == rows;
    JsRowsUnfold(hash, keys, pieces, b, w, recoffW, |code|, depth);
    JsRowsDecode(hash, rows, pieces, |keys|, w, 0, depth);
    JsWithinRows(hash, keys, rows, b, JsRowsFrom(hash, Concat(Records(pieces, w)), Starts(Records(pieces, w)),
        |keys|, w, 0, depth), depth);
  }

  // ---------------------------------------------------------------- whole values

  lemma JsTooDeep(hash: seq<byte> -> byte, b: seq<byte>, depth: nat)
    requires depth > MAX_DEPTH
    ensures JsDecode(hash, b, depth) == Failure
  {
  }

  lemma KnownCanonical(v: Value)
    requires !IsContainer(v) && Known(v)
    ensures Known(Canonical(v))
  {
    hide CanonicalNaN;
  }

  /** A value of the first encoder that the second decoder has is read by it as itself with canonical
      NaNs, exactly when its nesting stays within the second decoder's limit. */
  lemma {:induction false} JsRoundTrip(hash: seq<byte> -> byte, v: Value, b: seq<byte>, depth: nat)
    requires InRange(v) && Known(v) && Encode(hash, v) == Some(b)
    ensures JsWithin(JsDecode(hash, b, depth), Canonical(v), depth, Height(v))
    decreases v
  {
    hide JsLeaf, DecodeLeaf, JsArrayOf, JsObjectOf, JsRowsOf, CanonicalAll, CanonicalEntries, CanonicalRows,
         HeightOfAll, HeightOfEntries, HeightOfRows, ArrayOf, ObjectOf, RowsOf, KeysFit, CanonicalNaN;
    HeightPositive(v);
    if depth > MAX_DEPTH {
      JsTooDeep(hash, b, depth);
    } else {
      match v
      case Array(children) => JsArrayDecodes(hash, children, EncodeAll(hash, children).value, b, depth);
      case Object(entries) => JsObjectDecodes(hash, entries, EncodeEntries(hash, entries).value, b, depth);
      case RowArray(keys, rows) => {
        RowsRectangular(rows, |keys|);
        JsRowArrayDecodes(hash, keys, rows, EncodeRows(hash, rows).value, b, depth);
      }
      case NumericString(_) => assert false;
      case Extension(_, _) => assert false;
      case _ => {
        LeafReads(hash, v, b);
        KnownCanonical(v);
        LeavesAgree(b, b[0] / 16, b[0] % 16);
      }
    }
  }

  // ---------------------------------------------------------------- byte order marks

  const MARK: seq<byte> := [0xEF, 0xBB, 0xBF]

  /** The text the decoder of UTF-8 gives: without a byte order mark at its start. Bytes that are not
      UTF-8 are kept. */
  function Shown(utf8: seq<byte> -> bool, s: seq<byte>): seq<byte> {
    if utf8(s) && MARK <= s then s[3..] else s
  }

  function ShownAll(utf8: seq<byte> -> bool, keys: seq<seq<byte>>): (r: seq<seq<byte>>)
    ensures |r| == |keys|
  {
    if keys == [] then [] else [Shown(utf8, keys[0])] + ShownAll(utf8, keys[1..])
  }

  function Unmarked(utf8: seq<byte> -> bool, v: Value): Value {
    match v
    case Text(flag, s) => Text(flag, if flag == 0 then Shown(utf8, s) else s)
    case Array(children) => Array(UnmarkedAll(utf8, children))
    case Object(entries) => Object(UnmarkedEntries(utf8, entries))
    case RowArray(keys, rows) => RowArray(ShownAll(utf8, keys), UnmarkedRows(utf8, rows))
    case _ => v
  }

  function UnmarkedAll(utf8: seq<byte> -> bool, vs: seq<Value>): (r: seq<Value>)
    ensures |r| == |vs|
  {
    if vs == [] then [] else [Unmarked(utf8, vs[0])] + UnmarkedAll(utf8, vs[1..])
  }

  function UnmarkedEntries(utf8: seq<byte> -> bool, es: seq<Entry>): (r: seq<Entry>)
    ensures |r| == |es|
  {
    if es == [] then []
    else [Entry(Shown(utf8, es[0].key), Unmarked(utf8, es[0].value))] + UnmarkedEntries(utf8, es[1..])
  }

  function UnmarkedRows(utf8: seq<byte> -> bool, rows: seq<Row>): (r: seq<Row>)
    ensures |r| == |rows|
  {
    if rows == [] then [] else [Row(UnmarkedAll(utf8, rows[0].cells))] + UnmarkedRows(utf8, rows[1..])
  }

  predicate HasMark(utf8: seq<byte> -> bool, s: seq<byte>) {
    utf8(s) && MARK <= s
  }

  /** No text and no key starts with a byte order mark; escaped texts are not decoded. */
  predicate NoMarks(utf8: seq<byte> -> bool, v: Value) {
    match v
    case Text(flag, s) => flag == 0 ==> !HasMark(utf8, s)
    case Array(children) => forall c :: c in children ==> NoMarks(utf8, c)
    case Object(entries) => forall e :: e in entries ==> !HasMark(utf8, e.key) && NoMarks(utf8, e.value)
    case RowArray(keys, rows) =>
      (forall k :: k in keys ==> !HasMark(utf8, k)) && forall r :: r in rows ==> forall c :: c in r.cells ==> NoMarks(utf8, c)
    case _ => true
  }

  lemma ShownIff(utf8: seq<byte> -> bool, s: seq<byte>)
    ensures Shown(utf8, s) == s <==> !HasMark(utf8, s)
  {
    if HasMark(utf8, s) { assert |s[3..]| < |s|; }
  }

  lemma {:induction false} KeysUnmarkedIff(utf8: seq<byte> -> bool, keys: seq<seq<byte>>)
    ensures ShownAll(utf8, keys) == keys <==> forall k :: k in keys ==> !HasMark(utf8, k)
  {
    hide Shown, HasMark;
    if keys != [] {
      ShownIff(utf8, keys[0]);
      KeysUnmarkedIff(utf8, keys[1..]);
      assert keys == [keys[0]] + keys[1..];
    }
  }

  lemma {:induction false} AllUnmarkedIff(utf8: seq<byte> -> bool, vs: seq<Value>)
    ensures UnmarkedAll(utf8, vs) == vs <==> forall v :: v in vs ==> NoMarks(utf8, v)
    decreases vs
  {
    hide Unmarked, NoMarks;
    if vs != [] {
      UnmarkedIff(utf8, vs[0]);
      AllUnmarkedIff(utf8, vs[1..]);
      assert vs == [vs[0]] + vs[1..];
    }
  }

  lemma {:induction false} EntriesUnmarkedIff(utf8: seq<byte> -> bool, es: seq<Entry>)
    ensures UnmarkedEntries(utf8, es) == es <==> forall e :: e in es ==> !HasMark(utf8, e.key) && NoMarks(utf8, e.value)
    decreases es
  {
    hide Unmarked, NoMarks, Shown, HasMark;
    if es != [] {
      ShownIff(utf8, es[0].key);
      UnmarkedIff(utf8, es[0].value);
      EntriesUnmarkedIff(utf8, es[1..]);
      assert es == [es[0]] + es[1..];
    }
  }

  lemma {:induction false} RowsUnmarkedIff(utf8: seq<byte> -> bool, rows: seq<Row>)
    ensures UnmarkedRows(utf8, rows) == rows <==> forall r :: r in rows ==> forall c :: c in r.cells ==> NoMarks(utf8, c)
    decreases rows
  {
    hide UnmarkedAll, NoMarks;
    if rows != [] {
      AllUnmarkedIff(utf8, rows[0].cells);
      RowsUnmarkedIff(utf8, rows[1..]);
      assert rows == [rows[0]] + rows[1..];
    }
  }

  /** What a value loses is its byte order marks. */
  lemma {:induction false} UnmarkedIff(utf8: seq<byte> -> bool, v: Value)
    ensures Unmarked(utf8, v) == v <==> NoMarks(utf8, v)
    decreases v
  {
    hide Shown, HasMark, UnmarkedAll, UnmarkedEntries, UnmarkedRows, ShownAll;
    match v
    case Text(_, s) => ShownIff(utf8, s);
    case Array(children) => AllUnmarkedIff(utf8, children);
    case Object(entries) => EntriesUnmarkedIff(utf8, entries);
    case RowArray(keys, rows) => {
      KeysUnmarkedIff(utf8, keys);
      RowsUnmarkedIff(utf8, rows);
    }
    case _ =>
  }

  // ---------------------------------------------------------------- whole buffers

  /** What the second decoder returns: texts and keys are those the engine gives. */
  function JsRead(hash: seq<byte> -> byte, utf8: seq<byte> -> bool, b: seq<byte>, depth: nat): Result<Value> {
    var r := JsDecode(hash, b, depth);
    if r.Ok? then Ok(Unmarked(utf8, r.value)) else Failure
  }

  /** What the first encoder writes of a value the second decoder has, both decoders read as the same
      value exactly if no text or key in it starts with a byte order mark; the second one reads it
      up to 65 levels, the first up to 256. */
  lemma ReadBack(hash: seq<byte> -> byte, utf8: seq<byte> -> bool, v: Value, b: seq<byte>)
    requires InRange(v) && Known(v) && Encode(hash, v) == Some(b)
    ensures JsRead(hash, utf8, b, 0) == if Height(v) <= MAX_DEPTH + 1 then Ok(Unmarked(utf8, Canonical(v))) else Failure
    ensures Height(v) <= MAX_DEPTH + 1 ==> (JsRead(hash, utf8, b, 0) == Decode(hash, b, 0) <==> NoMarks(utf8, Canonical(v)))
  {
    hide JsDecode, Decode, Encode, Canonical, Height, Known, InRange, Unmarked, NoMarks;
    JsRoundTrip(hash, v, b, 0);
    RoundTrip(hash, v, b, 0);
    UnmarkedIff(utf8, Canonical(v));
  }

  /** Two texts that differ in the mark are read as the same one. */
  lemma MarkIsLost(hash: seq<byte> -> byte, utf8: seq<byte> -> bool)
    requires utf8(MARK)
    ensures Encode(hash, Text(0, MARK)) == Some([0x90] + MARK) && Encode(hash, Text(0, [])) == Some([0x90])
    ensures Decode(hash, [0x90] + MARK, 0) == Ok(Text(0, MARK))
    ensures JsRead(hash, utf8, [0x90] + MARK, 0) == JsRead(hash, utf8, [0x90], 0) == Ok(Text(0, []))
  {
    assert ([0x90] + MARK)[1..] == MARK && MARK[3..] == [];
    var none: seq<byte> := [];
    assert [0x90] + none == [0x90];
  }

  // ---------------------------------------------------------------- the second encoder and its decoder

  lemma {:induction false} HeightAtMost(vs: seq<Value>, n: nat)
    requires forall v :: v in vs ==> Height(v) <= n
    ensures HeightOfAll(vs) <= n
  {
    hide Height;
    if vs != [] { HeightAtMost(vs[1..], n); }
  }

  lemma {:induction false} EntryHeightAtMost(es: seq<Entry>, n: nat)
    requires forall e :: e in es ==> Height(e.value) <= n
    ensures HeightOfEntries(es) <= n
  {
    hide Height;
    if es != [] { EntryHeightAtMost(es[1..], n); }
  }

  lemma {:induction false} RowHeightAtMost(rows: seq<Row>, n: nat)
    requires forall r :: r in rows ==> HeightOfAll(r.cells) <= n
    ensures HeightOfRows(rows) <= n
  {
    hide HeightOfAll;
    if rows != [] { RowHeightAtMost(rows[1..], n); }
  }

  lemma RowIsKnown(r: JsRecord, depth: nat)
    requires depth <= MAX_DEPTH && forall j :: 0 <= j < |r.fields| ==> Accepted(r.fields[j].value, depth + 1)
    ensures (forall c :: c in ToRow(r).cells ==> Known(c)) && HeightOfAll(ToRow(r).cells) <= MAX_DEPTH - depth
    decreases r
  {
    hide Known, Accepted, Height, HeightOfAll, ToValue;
    var cells := ToRow(r).cells;
    forall c | c in cells ensures Known(c) && Height(c) <= MAX_DEPTH - depth {
      var j :| 0 <= j < |cells| && cells[j] == c;
      AcceptedIsKnown(r.fields[j].value, depth + 1);
    }
    HeightAtMost(cells, MAX_DEPTH - depth);
  }

  lemma ChildrenAreKnown(children: seq<JsValue>, depth: nat)
    requires depth <= MAX_DEPTH && forall i :: 0 <= i < |children| ==> Accepted(children[i], depth + 1)
    ensures var vs := seq(|children|, i requires 0 <= i < |children| => ToValue(children[i]));
            forall c :: c in vs ==> Known(c) && Height(c) <= MAX_DEPTH - depth
    decreases children
  {
    hide Known, Accepted, Height, ToValue;
    forall i | 0 <= i < |children| ensures Known(ToValue(children[i])) && Height(ToValue(children[i])) <= MAX_DEPTH - depth {
      AcceptedIsKnown(children[i], depth + 1);
    }
  }

  lemma EntriesAreKnown(entries: seq<JsEntry>, depth: nat)
    requires depth <= MAX_DEPTH && forall i :: 0 <= i < |entries| ==> Accepted(entries[i].value, depth + 1)
    ensures var es := seq(|entries|, i requires 0 <= i < |entries| => Entry(entries[i].key, ToValue(entries[i].value)));
            forall e :: e in es ==> Known(e.value) && Height(e.value) <= MAX_DEPTH - depth
    decreases entries
  {
    hide Known, Accepted, Height, ToValue;
    forall i | 0 <= i < |entries|
      ensures Known(ToValue(entries[i].value)) && Height(ToValue(entries[i].value)) <= MAX_DEPTH - depth
    {
      AcceptedIsKnown(entries[i].value, depth + 1);
    }
  }

  lemma RowsAreKnown(records: seq<JsRecord>, depth: nat)
    requires depth <= MAX_DEPTH
    requires forall i :: 0 <= i < |records| ==> forall j :: 0 <= j < |records[i].fields| ==> Accepted(records[i].fields[j].value, depth + 1)
    ensures var rows := seq(|records|, i requires 0 <= i < |records| => ToRow(records[i]));
            forall r :: r in rows ==> (forall c :: c in r.cells ==> Known(c)) && HeightOfAll(r.cells) <= MAX_DEPTH - depth
    decreases records
  {
    hide Known, Accepted, Height, HeightOfAll, ToRow;
    forall i | 0 <= i < |records|
      ensures (forall c :: c in ToRow(records[i]).cells ==> Known(c)) && HeightOfAll(ToRow(records[i]).cells) <= MAX_DEPTH - depth
    {
      RowIsKnown(records[i], depth);
    }
  }

  /** What the second encoder takes its decoder has, within the nesting limit. */
  lemma {:induction false} AcceptedIsKnown(v: JsValue, depth: nat)
    requires Accepted(v, depth)
    ensures Known(ToValue(v)) && Height(ToValue(v)) <= MAX_DEPTH + 1 - depth
    decreases v
  {
    hide HeightOfAll, HeightOfEntries, HeightOfRows, Concat, IsNaN, Pow256, RowKeys, KeysOf, ToRow;
    match v
    case JsArray(children) => {
      ChildrenAreKnown(children, depth);
      HeightAtMost(ToValue(v).children, MAX_DEPTH - depth);
    }
    case JsObject(entries) => {
      EntriesAreKnown(entries, depth);
      EntryHeightAtMost(ToValue(v).entries, MAX_DEPTH - depth);
    }
    case JsRows(records, _) => {
      var rows := ToValue(v).rows;
      RowsAreKnown(records, depth);
      RowHeightAtMost(rows, MAX_DEPTH - depth);
    }
    case _ =>
  }

  /** The bytes `JsEncodeValue` returns for a value without flagged floats are read by both decoders. */
  lemma OwnRoundTrip(hash: seq<byte> -> byte, utf8: seq<byte> -> bool, v: JsValue, b: seq<byte>)
    requires Accepted(v, 0) && InRange(ToValue(v)) && Encode(hash, ToValue(v)) == Some(b)
    ensures Decode(hash, b, 0) == Ok(Canonical(ToValue(v)))
    ensures JsRead(hash, utf8, b, 0) == Ok(Unmarked(utf8, Canonical(ToValue(v))))
  {
    hide *;
    AcceptedIsKnown(v, 0);
    ReadBack(hash, utf8, ToValue(v), b);
    DecodeWithin(hash, ToValue(v), b);
  }

  lemma DecodeWithin(hash: seq<byte> -> byte, v: Value, b: seq<byte>)
    requires InRange(v) && Encode(hash, v) == Some(b) && Height(v) <= MAX_DEPTH + 1
    ensures Decode(hash, b, 0) == Ok(Canonical(v))
  {
    hide Decode, Encode, Canonical, Height, InRange;
    RoundTrip(hash, v, b, 0);
  }

  /** A flagged float is read by the second decoder alone. */
  lemma FlaggedFloatReads(hash: seq<byte> -> byte, w: nat, bits: nat)
    requires 1 <= w <= 3 && bits < Pow256(FloatBytes(w))
    ensures var b := [0x68 + w] + Le(bits, FloatBytes(w));
            JsDecode(hash, b, 0) == Ok(Float(8 + w, bits)) && Decode(hash, b, 0) == Failure
  {
    hide Le, Unle, Pow256;
    var rest := Le(bits, FloatBytes(w));
    UnleLe(bits, FloatBytes(w));
    assert ([0x68 + w] + rest)[1..] == rest;
    ScientificIsRefused(hash, w, rest);
  }
}
