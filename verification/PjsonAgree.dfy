/** When the two pjson decoders read any bytes as the same value
    (js/src/pjson.ts, lines 202-303; cpp/conformance/pjson_conformance_driver.cpp, lines 1290-1675). */
module PjsonAgree {
  import opened ByteStrings
  import opened Wrappers
  import opened PjsonNumbers
  import opened Pjson
  import opened PjsonDecode
  import opened PjsonRoundTrip
  import opened PjsonJsDecode

  // ---------------------------------------------------------------- where the keys of row arrays end

  /** In every row array inside, the last key ends behind as many bytes as all keys have together. */
  predicate InLine(b: seq<byte>)
    decreases |b|, 0
  {
    if b == [] then true
    else if b[0] == 0xB0 then InLineArray(b)
    else if b[0] == 0xC0 then InLineObject(b)
    else if b[0] == 0xC1 then InLineRows(b)
    else true
  }

  predicate InLineArray(b: seq<byte>)
    decreases |b| - 1, |b| + 3
  {
    if |b| < 4 || b[1] >= 4 then true
    else
      var w: nat, n := (b[1] + 1) as int, LastCount(b);
      if |b| < 4 + w * n then true
      else
        var size := |b| - (4 + w * n);
        InLineSpans(b[2..2 + size], ReadTable(b, 2 + size, 0, w, w, n), 0)
  }

  predicate InLineSpans(data: seq<byte>, offsets: seq<nat>, i: nat)
    requires i <= |offsets|
    decreases |data|, |offsets| - i + 1
  {
    if i == |offsets| || !InOrder(offsets, i, |data|) then true
    else InLine(data[offsets[i]..NextOffset(offsets, i, |data|)]) && InLineSpans(data, offsets, i + 1)
  }

  predicate InLineObject(b: seq<byte>)
    decreases |b| - 1, |b| + 3
  {
    if |b| < 4 || b[1] >= 4 then true
    else
      var w: nat, n := (b[1] + 1) as int, LastCount(b);
      if |b| < 4 + n + (w + 1) * n then true
      else
        var size := |b| - (4 + n + (w + 1) * n);
        InLineEntries(b[2..2 + size], ReadTable(b, 2 + size + n, 0, w, w + 1, n), ReadTable(b, 2 + size + n, w, 1, w + 1, n), 0)
  }

  predicate InLineEntries(data: seq<byte>, offsets: seq<nat>, sizes: seq<nat>, i: nat)
    requires i <= |offsets| == |sizes|
    decreases |data|, |offsets| - i + 1
  {
    if i == |offsets| || !InOrder(offsets, i, |data|) then true
    else
      var entry := data[offsets[i]..NextOffset(offsets, i, |data|)];
      var key := ReadKey(entry, sizes[i]);
      if key.Failure? then true
      else InLine(entry[key.value.used..]) && InLineEntries(data, offsets, sizes, i + 1)
  }

  /** The last key's start and length make up the lengths of all keys. */
  predicate KeysInLine(starts: seq<nat>, lengths: seq<nat>) {
    |starts| == |lengths| > 0 && starts[|starts| - 1] + lengths[|lengths| - 1] == Sum(lengths)
  }

  predicate InLineRows(b: seq<byte>)
    decreases |b| - 1, |b| + 3
  {
    if |b| < 5 || b[1] >= 16 || VaruintDecode(b[2..]) == None then true
    else
      var v := VaruintDecode(b[2..]).value;
      var k, slots := v.value, 2 + v.used;
      if |b| < slots + k * 4 + k then true
      else
        var starts, lengths := ReadTable(b, slots, 0, 3, 4, k), ReadTable(b, slots, 3, 1, 4, k);
        var widths: int := b[1];
        KeysInLine(starts, lengths) && InLineRecords(b, slots + k * 4 + k + Sum(lengths), k, widths % 4 + 1, widths / 4 + 1)
  }

  predicate InLineRecords(b: seq<byte>, body: nat, k: nat, w: nat, recoffW: nat)
    requires |b| >= 2 && body >= 2
    decreases |b| - 1, |b| + 2
  {
    var n := LastCount(b);
    var table := |b| - 2 - n * recoffW;
    table < body || InLineRowsFrom(b[body..table], ReadTable(b, table, 0, recoffW, recoffW, n), k, w, 0)
  }

  predicate InLineRowsFrom(body: seq<byte>, offsets: seq<nat>, k: nat, w: nat, i: nat)
    requires i <= |offsets|
    decreases |body|, |offsets| - i + k + 2
  {
    if i == |offsets| || !InOrder(offsets, i, |body|) then true
    else InLineRow(body[offsets[i]..NextOffset(offsets, i, |body|)], k, w) && InLineRowsFrom(body, offsets, k, w, i + 1)
  }

  predicate InLineRow(record: seq<byte>, k: nat, w: nat)
    decreases |record|, k + 2
  {
    if |record| < k * w then true
    else
      var size := |record| - k * w;
      InLineSpans(record[..size], ReadTable(record, size, 0, w, w, k), 0)
  }

  // ---------------------------------------------------------------- the same structure

  /** What both decoders accept they split up alike if all keys are in line. */
  lemma {:induction false} SplitAlike(hash: seq<byte> -> byte, b: seq<byte>, d: nat, e: nat)
    requires JsDecode(hash, b, d).Ok? && Decode(hash, b, e).Ok? && InLine(b)
    ensures JsDecode(hash, b, d) == Decode(hash, b, e)
    decreases |b|, 0
  {
    hide JsLeaf, DecodeLeaf, JsArrayOf, DecodeArray, JsObjectOf, DecodeObject, JsRowsOf, DecodeRowArray, InLineArray,
         InLineObject, InLineRows;
    var tag: int := b[0];
    if tag == 0xB0 {
      ArraysAlike(hash, b, d, e);
    } else if tag == 0xC0 {
      ObjectsAlike(hash, b, d, e);
    } else if tag == 0xC1 {
      RowArraysAlike(hash, b, d, e);
    } else {
      NumericStringsFail(b, tag / 16, tag % 16);
      LeavesAgree(b, tag / 16, tag % 16);
    }
  }

  lemma NumericStringsFail(b: seq<byte>, high: nat, low: nat)
    requires |b| >= 1 && low < 16
    ensures high == 8 ==> JsLeaf(b, high, low) == Failure
  {
  }

  lemma ArraysAlike(hash: seq<byte> -> byte, b: seq<byte>, d: nat, e: nat)
    requires JsArrayOf(hash, b, d).Ok? && DecodeArray(hash, b, e).Ok? && InLineArray(b)
    ensures JsArrayOf(hash, b, d) == DecodeArray(hash, b, e)
    decreases |b| - 1, |b| + 3
  {
    hide JsSpans, DecodeSpans, InLineSpans, ReadTable, LastCount;
    var w: nat, n := (b[1] + 1) as int, LastCount(b);
    var size := |b| - (4 + w * n);
    SpansAlike(hash, b[2..2 + size], ReadTable(b, 2 + size, 0, w, w, n), 0, d, e);
  }

  lemma {:induction false} SpansAlike(hash: seq<byte> -> byte, data: seq<byte>, offsets: seq<nat>, i: nat, d: nat, e: nat)
    requires i <= |offsets| && JsSpans(hash, data, offsets, i, d).Ok? && DecodeSpans(hash, data, offsets, i, e).Ok?
    requires InLineSpans(data, offsets, i)
    ensures JsSpans(hash, data, offsets, i, d) == DecodeSpans(hash, data, offsets, i, e)
    decreases |data|, |offsets| - i + 1
  {
    hide JsDecode, Decode, InLine;
    if i < |offsets| {
      SplitAlike(hash, data[offsets[i]..NextOffset(offsets, i, |data|)], d + 1, e + 1);
      SpansAlike(hash, data, offsets, i + 1, d, e);
    }
  }

  lemma ObjectsAlike(hash: seq<byte> -> byte, b: seq<byte>, d: nat, e: nat)
    requires JsObjectOf(hash, b, d).Ok? && DecodeObject(hash, b, e).Ok? && InLineObject(b)
    ensures JsObjectOf(hash, b, d) == DecodeObject(hash, b, e)
    decreases |b| - 1, |b| + 3
  {
    hide JsEntries, DecodeEntries, InLineEntries, ReadTable, LastCount;
    var w: nat, n := (b[1] + 1) as int, LastCount(b);
    var size := |b| - (4 + n + (w + 1) * n);
    EntriesAlike(hash, b[2..2 + size], b[2 + size..2 + size + n], ReadTable(b, 2 + size + n, 0, w, w + 1, n),
                 ReadTable(b, 2 + size + n, w, 1, w + 1, n), 0, d, e);
  }

  lemma {:induction false} EntriesAlike(hash: seq<byte> -> byte, data: seq<byte>, hashes: seq<byte>,
      offsets: seq<nat>, sizes: seq<nat>, i: nat, d: nat, e: nat)
    requires i <= |offsets| == |sizes| == |hashes| && InLineEntries(data, offsets, sizes, i)
    requires JsEntries(hash, data, hashes, offsets, sizes, i, d).Ok? && DecodeEntries(hash, data, hashes, offsets, sizes, i, e).Ok?
    ensures JsEntries(hash, data, hashes, offsets, sizes, i, d) == DecodeEntries(hash, data, hashes, offsets, sizes, i, e)
    decreases |data|, |offsets| - i + 1
  {
    hide JsDecode, Decode, InLine, ReadKey;
    if i < |offsets| {
      var entry := data[offsets[i]..NextOffset(offsets, i, |data|)];
      var k := ReadKey(entry, sizes[i]).value;
      SplitAlike(hash, entry[k.used..], d + 1, e + 1);
      EntriesAlike(hash, data, hashes, offsets, sizes, i + 1, d, e);
    }
  }

  /** Keys in line are found at the same places by both. */
  lemma SharedKeysAlike(hash: seq<byte> -> byte, b: seq<byte>, pos: nat, k: nat)
    requires |b| >= pos + k * 4 + k && KeysInLine(ReadTable(b, pos, 0, 3, 4, k), ReadTable(b, pos, 3, 1, 4, k))
    requires JsSharedKeys(hash, b, pos, k).Ok?
    ensures ReadSharedKeys(hash, b, pos, k) == JsSharedKeys(hash, b, pos, k)
    ensures JsSharedKeys(hash, b, pos, k).value.end == pos + k * 4 + k + Sum(ReadTable(b, pos, 3, 1, 4, k))
  {
    hide ReadTable, DecodeKeys, AllShort, Sum;
  }

  lemma RowArraysAlike(hash: seq<byte> -> byte, b: seq<byte>, d: nat, e: nat)
    requires JsRowsOf(hash, b, d).Ok? && DecodeRowArray(hash, b, e).Ok? && InLineRows(b)
    ensures JsRowsOf(hash, b, d) == DecodeRowArray(hash, b, e)
    decreases |b| - 1, |b| + 3
  {
    hide JsSharedKeys, ReadSharedKeys, JsRecords, DecodeRecords, InLineRecords, ReadTable, VaruintDecode, KeysInLine, Sum;
    var v := VaruintDecode(b[2..]).value;
    var k, slots := v.value, 2 + v.used;
    AreaFits(hash, b, slots, k);
    SharedKeysAlike(hash, b, slots, k);
    var shared := JsSharedKeys(hash, b, slots, k).value;
    var widths: int := b[1];
    RecordsAlike(hash, b, shared.end, k, widths % 4 + 1, widths / 4 + 1, d, e);
  }

  lemma AreaFits(hash: seq<byte> -> byte, b: seq<byte>, pos: nat, k: nat)
    requires JsSharedKeys(hash, b, pos, k).Ok?
    ensures |b| >= pos + k * 4 + k + 2
  {
    hide ReadTable, DecodeKeys, AllShort;
  }

  lemma RecordsAlike(hash: seq<byte> -> byte, b: seq<byte>, body: nat, k: nat, w: nat, recoffW: nat, d: nat, e: nat)
    requires |b| >= 2 && body >= 2 && JsRecords(hash, b, body, k, w, recoffW, d).Ok?
    requires DecodeRecords(hash, b, body, k, w, recoffW, e).Ok? && InLineRecords(b, body, k, w, recoffW)
    ensures JsRecords(hash, b, body, k, w, recoffW, d) == DecodeRecords(hash, b, body, k, w, recoffW, e)
    decreases |b| - 1, |b| + 2
  {
    hide JsRowsFrom, DecodeRows, InLineRowsFrom, ReadTable, LastCount;
    var n := LastCount(b);
    var table := |b| - 2 - n * recoffW;
    RowsAlike(hash, b[body..table], ReadTable(b, table, 0, recoffW, recoffW, n), k, w, 0, d, e);
  }

  lemma {:induction false} RowsAlike(hash: seq<byte> -> byte, body: seq<byte>, offsets: seq<nat>, k: nat, w: nat, i: nat, d: nat, e: nat)
    requires i <= |offsets| && InLineRowsFrom(body, offsets, k, w, i)
    requires JsRowsFrom(hash, body, offsets, k, w, i, d).Ok? && DecodeRows(hash, body, offsets, k, w, i, e).Ok?
    ensures JsRowsFrom(hash, body, offsets, k, w, i, d) == DecodeRows(hash, body, offsets, k, w, i, e)
    decreases |body|, |offsets| - i + k + 2
  {
    hide JsRow, DecodeRow, InLineRow;
    if i < |offsets| {
      RowAlike(hash, body[offsets[i]..NextOffset(offsets, i, |body|)], k, w, d, e);
      RowsAlike(hash, body, offsets, k, w, i + 1, d, e);
    }
  }

  lemma RowAlike(hash: seq<byte> -> byte, record: seq<byte>, k: nat, w: nat, d: nat, e: nat)
    requires JsRow(hash, record, k, w, d).Ok? && DecodeRow(hash, record, k, w, e).Ok? && InLineRow(record, k, w)
    ensures JsRow(hash, record, k, w, d) == DecodeRow(hash, record, k, w, e)
    decreases |record|, k + 2
  {
    hide JsSpans, DecodeSpans, InLineSpans, ReadTable;
    var size := |record| - k * w;
    SpansAlike(hash, record[..size], ReadTable(record, size, 0, w, w, k), 0, d, e);
  }

  // ---------------------------------------------------------------- the two decoders on any bytes

  /** Whatever the bytes and depths: if both decoders accept them and the keys of all row arrays inside
      are in line, they return the same value exactly if no text or key starts with a byte order mark. */
  lemma DecodersAgree(hash: seq<byte> -> byte, utf8: seq<byte> -> bool, b: seq<byte>, d: nat, e: nat)
    requires JsRead(hash, utf8, b, d).Ok? && Decode(hash, b, e).Ok? && InLine(b)
    ensures JsRead(hash, utf8, b, d) == Decode(hash, b, e) <==> NoMarks(utf8, Decode(hash, b, e).value)
  {
    hide JsDecode, Decode, InLine, Unmarked, NoMarks;
    SplitAlike(hash, b, d, e);
    UnmarkedIff(utf8, Decode(hash, b, e).value);
  }

  // ---------------------------------------------------------------- values without row arrays

  predicate NoRows(v: Value) {
    match v
    case Array(children) => forall c :: c in children ==> NoRows(c)
    case Object(entries) => forall e :: e in entries ==> NoRows(e.value)
    case RowArray(_, _) => false
    case _ => true
  }

  /** Where no row array is read there are no keys to be in line. */
  lemma {:induction false} NoRowsInLine(hash: seq<byte> -> byte, b: seq<byte>, e: nat)
    requires Decode(hash, b, e).Ok? && NoRows(Decode(hash, b, e).value)
    ensures InLine(b)
    decreases |b|, 0
  {
    hide DecodeLeaf, DecodeArray, DecodeObject, DecodeRowArray, InLineArray, InLineObject, InLineRows;
    if b[0] == 0xB0 {
      ArrayInLine(hash, b, e);
    } else if b[0] == 0xC0 {
      ObjectInLine(hash, b, e);
    } else if b[0] == 0xC1 {
      RowsRead(hash, b, e);
    }
  }

  lemma RowsRead(hash: seq<byte> -> byte, b: seq<byte>, e: nat)
    requires DecodeRowArray(hash, b, e).Ok?
    ensures DecodeRowArray(hash, b, e).value.RowArray?
  {
    hide ReadSharedKeys, DecodeRecords, VaruintDecode;
  }

  lemma ArrayInLine(hash: seq<byte> -> byte, b: seq<byte>, e: nat)
    requires DecodeArray(hash, b, e).Ok? && NoRows(DecodeArray(hash, b, e).value)
    ensures InLineArray(b)
    decreases |b| - 1, |b| + 3
  {
    hide DecodeSpans, InLineSpans, ReadTable, LastCount;
    var w: nat, n := (b[1] + 1) as int, LastCount(b);
    var size := |b| - (4 + w * n);
    SpansInLine(hash, b[2..2 + size], ReadTable(b, 2 + size, 0, w, w, n), 0, e);
  }

  lemma {:induction false} SpansInLine(hash: seq<byte> -> byte, data: seq<byte>, offsets: seq<nat>, i: nat, e: nat)
    requires i <= |offsets| && DecodeSpans(hash, data, offsets, i, e).Ok?
    requires forall c :: c in DecodeSpans(hash, data, offsets, i, e).value ==> NoRows(c)
    ensures InLineSpans(data, offsets, i)
    decreases |data|, |offsets| - i + 1
  {
    hide Decode, NoRows, InLine;
    if i < |offsets| {
      var part := data[offsets[i]..NextOffset(offsets, i, |data|)];
      var first, rest := Decode(hash, part, e + 1).value, DecodeSpans(hash, data, offsets, i + 1, e).value;
      var all := DecodeSpans(hash, data, offsets, i, e).value;
      assert all == [first] + rest;
      assert all[0] == first;
      forall c | c in rest ensures NoRows(c) { assert c in all; }
      NoRowsInLine(hash, part, e + 1);
      SpansInLine(hash, data, offsets, i + 1, e);
    }
  }

  lemma ObjectInLine(hash: seq<byte> -> byte, b: seq<byte>, e: nat)
    requires DecodeObject(hash, b, e).Ok? && NoRows(DecodeObject(hash, b, e).value)
    ensures InLineObject(b)
    decreases |b| - 1, |b| + 3
  {
    hide DecodeEntries, InLineEntries, ReadTable, LastCount;
    var w: nat, n := (b[1] + 1) as int, LastCount(b);
    var size := |b| - (4 + n + (w + 1) * n);
    EntriesInLine(hash, b[2..2 + size], b[2 + size..2 + size + n], ReadTable(b, 2 + size + n, 0, w, w + 1, n),
                  ReadTable(b, 2 + size + n, w, 1, w + 1, n), 0, e);
  }

  lemma {:induction false} EntriesInLine(hash: seq<byte> -> byte, data: seq<byte>, hashes: seq<byte>,
      offsets: seq<nat>, sizes: seq<nat>, i: nat, e: nat)
    requires i <= |offsets| == |sizes| == |hashes| && DecodeEntries(hash, data, hashes, offsets, sizes, i, e).Ok?
    requires forall x :: x in DecodeEntries(hash, data, hashes, offsets, sizes, i, e).value ==> NoRows(x.value)
    ensures InLineEntries(data, offsets, sizes, i)
    decreases |data|, |offsets| - i + 1
  {
    hide Decode, NoRows, InLine, ReadKey;
    if i < |offsets| {
      var entry := data[offsets[i]..NextOffset(offsets, i, |data|)];
      var k := ReadKey(entry, sizes[i]).value;
      var first := Entry(k.key, Decode(hash, entry[k.used..], e + 1).value);
      var rest := DecodeEntries(hash, data, hashes, offsets, sizes, i + 1, e).value;
      var all := DecodeEntries(hash, data, hashes, offsets, sizes, i, e).value;
      assert all == [first] + rest;
      assert all[0] == first;
      forall x | x in rest ensures NoRows(x.value) { assert x in all; }
      NoRowsInLine(hash, entry[k.used..], e + 1);
      EntriesInLine(hash, data, hashes, offsets, sizes, i + 1, e);
    }
  }

  // ---------------------------------------------------------------- keys out of line

  /** Two keys of one byte, both the first byte of the two behind the hashes. */
  const OVERLAID: seq<byte> :=
    [0xC1, 0, 2, 0, 0, 0, 1, 0, 0, 0, 1, 7, 7, 97, 0, 0x90, 0x21, 0, 1, 0, 1, 0]

  lemma TwoRows(b: seq<byte>, pos: nat, at: nat, w: nat, step: nat)
    requires at + w <= step && pos + 2 * step <= |b|
    ensures ReadTable(b, pos, at, w, step, 2) == [ReadLe(b, pos + at, w), ReadLe(b, pos + step + at, w)]
  {
    hide ReadLe;
    assert ReadTable(b, pos, at, w, step, 1) == [ReadLe(b, pos + at, w)];
  }

  lemma OneRow(b: seq<byte>, pos: nat, w: nat)
    requires pos + w <= |b|
    ensures ReadTable(b, pos, 0, w, w, 1) == [ReadLe(b, pos, w)]
  {
    hide ReadLe;
  }

  lemma OneByteNumber(b: seq<byte>, pos: nat)
    requires pos < |b|
    ensures ReadLe(b, pos, 1) == b[pos] as int
  {
    var s := b[pos..pos + 1];
    assert s[1..] == [] && Unle(s[1..]) == 0;
  }

  lemma ZeroBytes(b: seq<byte>, pos: nat)
    requires pos + 3 <= |b| && b[pos] == b[pos + 1] == b[pos + 2] == 0
    ensures ReadLe(b, pos, 3) == 0
  {
    assert b[pos..pos + 3] == [0, 0, 0];
    assert [0, 0, 0][1..] == [0, 0] && [0, 0][1..] == [0];
  }

  lemma OverlaidHeader()
    ensures VaruintDecode(OVERLAID[2..]) == Some(Varuint(2, 1)) && LastCount(OVERLAID) == 1
    ensures ReadTable(OVERLAID, 3, 0, 3, 4, 2) == [0, 0] && ReadTable(OVERLAID, 3, 3, 1, 4, 2) == [1, 1]
    ensures ReadTable(OVERLAID, 19, 0, 1, 1, 1) == [0]
  {
    hide Unle, ReadTable, ReadLe;
    var b := OVERLAID;
    assert b[2..][1..1] == [];
    UnleUnfold(b[2..][1..1]);
    NothingRead(b[2..]);
    LastOne(b);
    TwoRows(b, 3, 0, 3, 4);
    TwoRows(b, 3, 3, 1, 4);
    ZeroBytes(b, 3);
    ZeroBytes(b, 7);
    OneByteNumber(b, 6);
    OneByteNumber(b, 10);
    OneRow(b, 19, 1);
    OneByteNumber(b, 19);
  }

  lemma NothingRead(b: seq<byte>)
    requires |b| >= 1
    ensures Unle(b[1..1]) == 0
  {
  }

  lemma LastOne(b: seq<byte>)
    requires |b| >= 2 && b[|b| - 2] == 1 && b[|b| - 1] == 0
    ensures LastCount(b) == 1
  {
    assert b[|b| - 2..|b| - 2 + 2] == [1, 0];
    assert [1, 0][1..] == [0];
  }

  /** Both keys are the letter a for both decoders; one goes on behind it, the other a byte later. */
  lemma OverlaidKeys(hash: seq<byte> -> byte)
    requires hash([97]) == 7
    ensures ReadSharedKeys(hash, OVERLAID, 3, 2) == Ok(SharedKeys([[97], [97]], 15))
    ensures JsSharedKeys(hash, OVERLAID, 3, 2) == Ok(SharedKeys([[97], [97]], 14))
  {
    hide ReadTable, Sum, DecodeKeys;
    OverlaidHeader();
    SumOfOnes();
    var b := OVERLAID;
    assert b[13..15] == [97, 0] && b[13..14] == [97] && b[11..13] == [7, 7];
    SameKeys(hash, [97, 0]);
    SameKeys(hash, [97]);
  }

  lemma SumOfOnes()
    ensures Sum([1, 1]) == 2
  {
    assert [1, 1][..1] == [1] && [1][..0] == [];
  }

  lemma SameKeys(hash: seq<byte> -> byte, area: seq<byte>)
    requires hash([97]) == 7 && |area| >= 1 && area[0] == 97
    ensures DecodeKeys(hash, area, [7, 7], [0, 0], [1, 1], 0) == Ok([[97], [97]])
  {
    var a: seq<byte>, none: seq<seq<byte>> := [97], [];
    var hashes: seq<byte>, starts: seq<nat>, lengths: seq<nat> := [7, 7], [0, 0], [1, 1];
    assert area[0..1] == a && [a] + none == [a];
    assert DecodeKeys(hash, area, hashes, starts, lengths, 2) == Ok(none);
    assert DecodeKeys(hash, area, hashes, starts, lengths, 1) == Ok([a]);
    assert [a] + [a] == [a, a];
  }

  /** A record of two cells with widths of 1. */
  lemma TwoCells(hash: seq<byte> -> byte, record: seq<byte>, size: nat, second: nat, depth: nat)
    requires |record| == size + 2 && record[size] == 0 && record[size + 1] as int == second <= size
    ensures ReadTable(record, size, 0, 1, 1, 2) == [0, second]
    ensures DecodeRow(hash, record, 2, 1, depth)
            == (var cells := DecodeSpans(hash, record[..size], [0, second], 0, depth); if cells.Ok? then Ok(Row(cells.value)) else Failure)
    ensures JsRow(hash, record, 2, 1, depth)
            == (var cells := JsSpans(hash, record[..size], [0, second], 0, depth); if cells.Ok? then Ok(Row(cells.value)) else Failure)
  {
    hide ReadTable, ReadLe, DecodeSpans, JsSpans;
    TwoRows(record, size, 0, 1, 1);
    OneByteNumber(record, size);
    OneByteNumber(record, size + 1);
  }

  lemma TwoSpans(hash: seq<byte> -> byte, data: seq<byte>, second: nat, depth: nat)
    requires second <= |data|
    ensures var x, y := Decode(hash, data[..second], depth + 1), Decode(hash, data[second..], depth + 1);
            x.Ok? && y.Ok? ==> DecodeSpans(hash, data, [0, second], 0, depth) == Ok([x.value, y.value])
    ensures var x, y := JsDecode(hash, data[..second], depth + 1), JsDecode(hash, data[second..], depth + 1);
            x.Ok? && y.Ok? ==> JsSpans(hash, data, [0, second], 0, depth) == Ok([x.value, y.value])
  {
    hide Decode, JsDecode;
    var offsets := [0, second];
    assert data[0..second] == data[..second] && data[second..|data|] == data[second..];
    var none: seq<Value> := [];
    assert DecodeSpans(hash, data, offsets, 2, depth) == Ok(none) && JsSpans(hash, data, offsets, 2, depth) == Ok(none);
    var x, y := Decode(hash, data[..second], depth + 1), Decode(hash, data[second..], depth + 1);
    if x.Ok? && y.Ok? {
      assert [y.value] + none == [y.value] && [x.value] + [y.value] == [x.value, y.value];
      assert DecodeSpans(hash, data, offsets, 1, depth) == Ok([y.value]);
    }
    var u, v := JsDecode(hash, data[..second], depth + 1), JsDecode(hash, data[second..], depth + 1);
    if u.Ok? && v.Ok? {
      assert [v.value] + none == [v.value] && [u.value] + [v.value] == [u.value, v.value];
      assert JsSpans(hash, data, offsets, 1, depth) == Ok([v.value]);
    }
  }

  lemma SmallLeaves(hash: seq<byte> -> byte)
    ensures Decode(hash, [0x90], 1) == Ok(Text(0, [])) && Decode(hash, [0x21], 1) == Ok(Uint(1))
    ensures JsDecode(hash, [0], 1) == Ok(Null) && JsDecode(hash, [0x90, 0x21], 1) == Ok(Text(0, [0x21]))
  {
    var empty, mark: seq<byte> := [0x90], [0x90, 0x21];
    assert empty[1..] == [] && mark[1..] == [0x21];
  }

  lemma OverlaidRecords(hash: seq<byte> -> byte)
    ensures DecodeRow(hash, OVERLAID[15..19], 2, 1, 0) == Ok(Row([Text(0, []), Uint(1)]))
    ensures JsRow(hash, OVERLAID[14..19], 2, 1, 0) == Ok(Row([Null, Text(0, [0x21])]))
  {
    hide DecodeRow, JsRow, Decode, JsDecode, DecodeSpans, JsSpans, ReadTable;
    var b := OVERLAID;
    var one, two: seq<byte> := [0x90, 0x21, 0, 1], [0, 0x90, 0x21, 0, 1];
    assert b[15..19] == one && b[14..19] == two;
    TwoCells(hash, one, 2, 1, 0);
    TwoCells(hash, two, 3, 1, 0);
    TwoSpans(hash, one[..2], 1, 0);
    TwoSpans(hash, two[..3], 1, 0);
    SmallLeaves(hash);
    assert one[..2][..1] == [0x90] && one[..2][1..] == [0x21];
    assert two[..3][..1] == [0] && two[..3][1..] == [0x90, 0x21];
  }

  lemma OneRecord(hash: seq<byte> -> byte, body: seq<byte>, depth: nat)
    ensures DecodeRows(hash, body, [0], 2, 1, 0, depth)
            == (var row := DecodeRow(hash, body, 2, 1, depth); if row.Ok? then Ok([row.value]) else Failure)
    ensures JsRowsFrom(hash, body, [0], 2, 1, 0, depth)
            == (var row := JsRow(hash, body, 2, 1, depth); if row.Ok? then Ok([row.value]) else Failure)
  {
    hide DecodeRow, JsRow;
    assert body[0..|body|] == body;
    var none: seq<Row>, offsets: seq<nat> := [], [0];
    assert DecodeRows(hash, body, offsets, 2, 1, 1, depth) == Ok(none) && JsRowsFrom(hash, body, offsets, 2, 1, 1, depth) == Ok(none);
    var row, jsRow := DecodeRow(hash, body, 2, 1, depth), JsRow(hash, body, 2, 1, depth);
    if row.Ok? { assert [row.value] + none == [row.value]; }
    if jsRow.Ok? { assert [jsRow.value] + none == [jsRow.value]; }
  }

  lemma OverlaidBodies(hash: seq<byte> -> byte)
    ensures DecodeRecords(hash, OVERLAID, 15, 2, 1, 1, 0) == Ok([Row([Text(0, []), Uint(1)])])
    ensures JsRecords(hash, OVERLAID, 14, 2, 1, 1, 0) == Ok([Row([Null, Text(0, [0x21])])])
  {
    hide DecodeRow, JsRow, DecodeRows, JsRowsFrom, ReadTable, LastCount;
    OverlaidHeader();
    OverlaidRecords(hash);
    OneRecord(hash, OVERLAID[15..19], 0);
    OneRecord(hash, OVERLAID[14..19], 0);
  }

  lemma OverlaidIsOutOfLine()
    ensures !InLine(OVERLAID)
  {
    hide InLineRecords, ReadTable, VaruintDecode, Sum;
    OverlaidHeader();
    SumOfOnes();
  }

  lemma OverlaidIsRows(hash: seq<byte> -> byte)
    ensures Decode(hash, OVERLAID, 0) == DecodeRowArray(hash, OVERLAID, 0)
    ensures JsDecode(hash, OVERLAID, 0) == JsRowsOf(hash, OVERLAID, 0)
  {
    hide DecodeRowArray, JsRowsOf;
  }

  lemma NothingMarked(utf8: seq<byte> -> bool)
    ensures var v := RowArray([[97], [97]], [Row([Null, Text(0, [0x21])])]); Unmarked(utf8, v) == v
  {
    hide Unmarked;
    UnmarkedIff(utf8, RowArray([[97], [97]], [Row([Null, Text(0, [0x21])])]));
  }

  lemma OverlaidStart()
    ensures |OVERLAID| >= 5 && OVERLAID[1] == 0
  {
  }

  lemma ReadUnmarked(hash: seq<byte> -> byte, utf8: seq<byte> -> bool, b: seq<byte>, v: Value)
    requires JsDecode(hash, b, 0) == Ok(v) && Unmarked(utf8, v) == v
    ensures JsRead(hash, utf8, b, 0) == Ok(v)
  {
  }

  /** A buffer that both decoders accept, with the same keys and other cells. */
  lemma OverlaidIsReadTwice(hash: seq<byte> -> byte, utf8: seq<byte> -> bool)
    requires hash([97]) == 7
    ensures Decode(hash, OVERLAID, 0) == Ok(RowArray([[97], [97]], [Row([Text(0, []), Uint(1)])]))
    ensures JsRead(hash, utf8, OVERLAID, 0) == Ok(RowArray([[97], [97]], [Row([Null, Text(0, [0x21])])]))
    ensures !InLine(OVERLAID)
  {
    hide *;
    OverlaidStart();
    OverlaidHeader();
    OverlaidIsOutOfLine();
    OverlaidKeys(hash);
    OverlaidBodies(hash);
    OverlaidIsRows(hash);
    RowArrayByParts(hash, OVERLAID, 1, 1, 2, 1, SharedKeys([[97], [97]], 15), 0);
    JsRowsByParts(hash, OVERLAID, 1, 1, 2, 1, SharedKeys([[97], [97]], 14), 0);
    NothingMarked(utf8);
    ReadUnmarked(hash, utf8, OVERLAID, RowArray([[97], [97]], [Row([Null, Text(0, [0x21])])]));
  }
}
