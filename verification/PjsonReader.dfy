/** Decoding as it runs: loops over the offset tables of the containers
    (cpp/conformance/pjson_conformance_driver.cpp, lines 856-863, 935-945 and 1290-1675). */
module PjsonReader {
  import opened Base58Methods
  import opened ByteStrings
  import opened Wrappers
  import opened PjsonNumbers
  import opened Pjson
  import opened PjsonDecode

  // ---------------------------------------------------------------- numbers

  lemma UnleNext(b: seq<byte>, pos: nat, k: nat)
    requires pos + k < |b|
    ensures var x: int := b[pos + k]; Unle(b[pos..pos + k + 1]) == Unle(b[pos..pos + k]) + x * Pow256(k)
  {
    assert b[pos..pos + k + 1] == b[pos..pos + k] + [b[pos + k]];
    UnleSnoc(b[pos..pos + k], b[pos + k]);
  }

  /** The number of w bytes at a position, byte by byte. */
  method ReadNumber(b: seq<byte>, pos: nat, w: nat) returns (n: nat)
    requires pos + w <= |b|
    ensures n == ReadLe(b, pos, w)
  {
    hide Pow256, Unle;
    n := 0;
    var k: nat := 0;
    NoBytes(b, pos);
    while k < w
      invariant k <= w && n == Unle(b[pos..pos + k])
    {
      UnleNext(b, pos, k);
      var x: int := b[pos + k];
      n := n + x * Pow256(k);
      k := k + 1;
    }
  }

  lemma NoBytes(b: seq<byte>, pos: nat)
    requires pos <= |b|
    ensures Unle(b[pos..pos]) == 0
  {
  }

  /** The varuint at the start; the payload of the first byte is six bits. */
  method ReadVaruint(b: seq<byte>) returns (r: Option<Varuint>)
    ensures r == VaruintDecode(b)
  {
    hide Pow256, Unle;
    if |b| == 0 {
      return None;
    }
    var first: int := b[0];
    var total := first / 64 + 1;
    if |b| < total {
      return None;
    }
    var v: nat := first % 64;
    var i: nat := 1;
    NoBytes(b, 1);
    while i < total
      invariant 1 <= i <= total && v == first % 64 + 64 * Unle(b[1..i])
    {
      UnleNext(b, 1, i - 1);
      var x: int := b[i];
      Spread(x, Pow256(i - 1));
      v := v + x * (64 * Pow256(i - 1));
      i := i + 1;
    }
    return Some(Varuint(v, total));
  }

  lemma Spread(x: nat, p: nat)
    ensures x * (64 * p) == 64 * (x * p)
  {
  }

  // ---------------------------------------------------------------- offset tables

  /** An entry of a table. */
  method ReadSlot(b: seq<byte>, pos: nat, at: nat, w: nat, step: nat, n: nat, i: nat) returns (x: nat)
    requires at + w <= step && pos + n * step <= |b| && i < n
    ensures x == ReadTable(b, pos, at, w, step, n)[i]
  {
    hide ReadLe, ReadTable;
    TableAt(b, pos, at, w, step, n, i);
    x := ReadNumber(b, pos + i * step + at, w);
  }

  /** An offset and the next one, which is the end of the data for the last. */
  method ReadBounds(b: seq<byte>, pos: nat, w: nat, step: nat, n: nat, i: nat, size: nat) returns (off: nat, next: nat)
    requires w <= step && pos + n * step <= |b| && i < n
    ensures var offsets := ReadTable(b, pos, 0, w, step, n); off == offsets[i] && next == NextOffset(offsets, i, size)
  {
    hide ReadTable;
    off := ReadSlot(b, pos, 0, w, step, n, i);
    next := size;
    if i + 1 < n {
      next := ReadSlot(b, pos, 0, w, step, n, i + 1);
    }
  }

  /** Lists that are partly read. */
  function After<T>(done: seq<T>, rest: Result<seq<T>>): Result<seq<T>> {
    if rest.Ok? then Ok(done + rest.value) else Failure
  }

  lemma AfterMore<T>(done: seq<T>, x: T, rest: Result<seq<T>>)
    ensures After(done, After([x], rest)) == After(done + [x], rest)
  {
    if rest.Ok? { assert done + ([x] + rest.value) == done + [x] + rest.value; }
  }

  lemma AfterNothing<T>(none: seq<T>, rest: Result<seq<T>>)
    requires none == []
    ensures After(none, rest) == rest
  {
    if rest.Ok? { assert none + rest.value == rest.value; }
  }

  lemma AfterAll<T>(done: seq<T>)
    ensures After(done, Ok([])) == Ok(done)
  {
    assert done + [] == done;
  }

  // ---------------------------------------------------------------- values

  method ReadLeaf(b: seq<byte>, high: nat, low: nat) returns (r: Result<Value>)
    requires |b| >= 1 && low < 16
    ensures r == DecodeLeaf(b, high, low)
  {
    hide DecodeDecimal, DecodeTypedArray, Unle;
    if high == 0 {
      return if low == 0 && |b| == 1 then Ok(Null) else Failure;
    } else if high == 1 {
      return if low <= 1 && |b| == 1 then Ok(Bool(low == 1)) else Failure;
    } else if high == 2 {
      return if |b| == 1 then Ok(Uint(low)) else Failure;
    } else if high == 3 {
      return if |b| == 1 && low != 0 then Ok(NegInt(low)) else Failure;
    } else if high == 4 || high == 5 {
      if |b| != 1 + (low + 1) {
        return Failure;
      }
      var n := ReadNumber(b, 1, low + 1);
      assert b[1..1 + (low + 1)] == b[1..];
      if high == 4 {
        return Ok(Uint(n));
      }
      return if n != 0 then Ok(NegInt(n)) else Failure;
    } else if high == 6 {
      if low < 1 || low > 4 || |b| != 1 + FloatBytes(low) {
        return Failure;
      }
      var bits := ReadNumber(b, 1, FloatBytes(low));
      assert b[1..1 + FloatBytes(low)] == b[1..];
      return Ok(Float(low, bits));
    } else if high == 7 {
      r := ReadDecimal(b, low + 1);
    } else if high == 9 {
      return if low <= 1 then Ok(Text(low, b[1..])) else Failure;
    } else if high == 10 {
      return if low <= 3 then Ok(Bytes(low, b[1..])) else Failure;
    } else if high == 11 && 1 <= low <= 10 {
      r := ReadTypedArray(b, low - 1);
    } else if high == 13 {
      return Ok(Extension(low, b[1..]));
    } else {
      return Failure;
    }
  }

  method ReadDecimal(b: seq<byte>, count: nat) returns (r: Result<Value>)
    requires 1 <= count <= 16 && |b| >= 1
    ensures r == DecodeDecimal(b, count)
  {
    hide Unle, VaruintDecode, ZigzagDecode;
    if |b| < 1 + count {
      return Failure;
    }
    var zz := ReadNumber(b, 1, count);
    DecimalInRange(b[1..1 + count]);
    var scale := ReadVaruint(b[1 + count..]);
    if scale == None || |b| != 1 + count + scale.value.used {
      return Failure;
    }
    return Ok(Decimal(ZigzagDecode(zz, TWO_128), ZigzagDecode(scale.value.value, U32_LIMIT)));
  }

  method ReadTypedArray(b: seq<byte>, code: nat) returns (r: Result<Value>)
    requires |b| >= 1
    ensures r == DecodeTypedArray(b, code)
  {
    hide Unle;
    var size := ElementSize(code);
    if size == 0 || |b| < 3 {
      return Failure;
    }
    var n := ReadNumber(b, |b| - 2, 2);
    var bodyLen := n * size;
    if |b| != 1 + bodyLen + 2 {
      return Failure;
    }
    return Ok(TypedArray(code, b[1..1 + bodyLen]));
  }

  method ReadValue(hash: seq<byte> -> byte, b: seq<byte>, depth: nat) returns (r: Result<Value>)
    ensures r == Decode(hash, b, depth)
    decreases |b|, 1
  {
    hide DecodeLeaf, DecodeArray, DecodeObject, DecodeRowArray;
    if depth >= MAX_DECODE_DEPTH || |b| == 0 {
      return Failure;
    }
    var tag: int := b[0];
    var high: nat, low: nat := tag / 16, tag % 16;
    if high == 8 {
      if low != 0 {
        return Failure;
      }
      var inner := ReadValue(hash, b[1..], depth + 1);
      if inner.Failure? || !IsNumeric(inner.value) {
        return Failure;
      }
      return Ok(NumericString(inner.value));
    } else if high == 11 && low == 0 {
      r := ReadArray(hash, b, depth);
    } else if high == 12 && low == 0 {
      r := ReadObject(hash, b, depth);
    } else if high == 12 && low == 1 {
      r := ReadRowArray(hash, b, depth);
    } else {
      r := ReadLeaf(b, high, low);
    }
  }

  /** The value between two offsets, then the others. */
  lemma SpansNext(hash: seq<byte> -> byte, data: seq<byte>, offsets: seq<nat>, i: nat, depth: nat)
    requires i < |offsets|
    ensures !InOrder(offsets, i, |data|) ==> DecodeSpans(hash, data, offsets, i, depth) == Failure
    ensures InOrder(offsets, i, |data|) ==>
              var first := Decode(hash, data[offsets[i]..NextOffset(offsets, i, |data|)], depth + 1);
              DecodeSpans(hash, data, offsets, i, depth)
              == if first.Failure? then Failure else After([first.value], DecodeSpans(hash, data, offsets, i + 1, depth))
  {
    hide Decode;
  }

  /** The value between two offsets of a part of the buffer, then the others. */
  lemma SpanIs(hash: seq<byte> -> byte, b: seq<byte>, from: nat, size: nat, offsets: seq<nat>, i: nat, off: nat, next: nat, depth: nat)
    requires from + size <= |b| && i < |offsets| && off == offsets[i] && next == NextOffset(offsets, i, size)
    ensures var spans := DecodeSpans(hash, b[from..from + size], offsets, i, depth);
            if off > size || next < off || next > size then spans == Failure
            else
              var first := Decode(hash, b[from + off..from + next], depth + 1);
              spans == if first.Failure? then Failure
                       else After([first.value], DecodeSpans(hash, b[from..from + size], offsets, i + 1, depth))
  {
    hide Decode, DecodeSpans, After;
    SpansNext(hash, b[from..from + size], offsets, i, depth);
    if off <= next <= size { SliceSlice(b, from, from + size, from + off, from + next); }
  }

  /** The value between the i-th offset and the next, and what reading from there on gives. */
  method ReadSpan(hash: seq<byte> -> byte, b: seq<byte>, from: nat, size: nat, w: nat, n: nat, i: nat, depth: nat,
      ghost data: seq<byte>, ghost offsets: seq<nat>)
    returns (child: Result<Value>)
    requires from + size + n * w <= |b| && i < n
    requires data == b[from..from + size] && offsets == ReadTable(b, from + size, 0, w, w, n)
    ensures DecodeSpans(hash, data, offsets, i, depth)
            == if child.Failure? then Failure else After([child.value], DecodeSpans(hash, data, offsets, i + 1, depth))
    decreases size, 2
  {
    hide *;
    var off, next := ReadBounds(b, from + size, w, w, n, i, size);
    SpanIs(hash, b, from, size, offsets, i, off, next, depth);
    if off > size || next < off || next > size {
      return Failure;
    }
    child := ReadValue(hash, b[from + off..from + next], depth + 1);
  }

  /** The values between the offsets of a table that follows the data. */
  method ReadSpans(hash: seq<byte> -> byte, b: seq<byte>, from: nat, size: nat, w: nat, n: nat, depth: nat)
    returns (values: Result<seq<Value>>)
    requires from + size + n * w <= |b|
    ensures values
            == DecodeSpans(hash, b[from..from + size], ReadTable(b, from + size, 0, w, w, n), 0, depth)
    decreases size, 3
  {
    hide Decode, DecodeSpans, ReadTable, ReadLe;
    ghost var data, offsets := b[from..from + size], ReadTable(b, from + size, 0, w, w, n);
    var result: seq<Value> := [];
    var i: nat := 0;
    AfterNothing(result, DecodeSpans(hash, data, offsets, 0, depth));
    while i < n
      invariant i <= n
      invariant DecodeSpans(hash, data, offsets, 0, depth) == After(result, DecodeSpans(hash, data, offsets, i, depth))
    {
      var child := ReadSpan(hash, b, from, size, w, n, i, depth, data, offsets);
      if child.Failure? {
        return Failure;
      }
      AfterMore(result, child.value, DecodeSpans(hash, data, offsets, i + 1, depth));
      result := result + [child.value];
      i := i + 1;
    }
    NoSpansLeft(hash, data, offsets, depth);
    AfterAll(result);
    return Ok(result);
  }

  lemma NoSpansLeft(hash: seq<byte> -> byte, data: seq<byte>, offsets: seq<nat>, depth: nat)
    ensures DecodeSpans(hash, data, offsets, |offsets|, depth) == Ok([])
  {
  }

  method ReadArray(hash: seq<byte> -> byte, b: seq<byte>, depth: nat) returns (r: Result<Value>)
    ensures r == DecodeArray(hash, b, depth)
    decreases |b|, 0
  {
    hide DecodeSpans, Unle, ReadTable;
    if |b| < 4 || b[1] >= 4 {
      return Failure;
    }
    var w: nat := b[1] + 1;
    var n := ReadNumber(b, |b| - 2, 2);
    var overhead := 4 + w * n;
    if |b| < overhead {
      return Failure;
    }
    var size := |b| - overhead;
    var expected := if size <= 0xFF then 1 else if size <= 0xFFFF then 2 else if size <= 0xFF_FFFF then 3 else 4;
    if w < expected {
      return Failure;
    }
    Commutes(w, n);
    var values := ReadSpans(hash, b, 2, size, w, n, depth);
    return if values.Ok? then Ok(Array(values.value)) else Failure;
  }

  lemma Commutes(w: nat, n: nat)
    ensures w * n == n * w
  {
  }

  // ---------------------------------------------------------------- objects

  /** The key of an entry; a long one has the rest of its length before it. */
  method SplitKey(entry: seq<byte>, sizeByte: nat) returns (r: Result<KeyRead>)
    ensures r == ReadKey(entry, sizeByte)
  {
    hide VaruintDecode;
    if sizeByte != 0xFF {
      if sizeByte > |entry| {
        return Failure;
      }
      return Ok(KeyRead(entry[..sizeByte], sizeByte));
    }
    var excess := ReadVaruint(entry);
    if excess == None {
      return Failure;
    }
    var keySize := 0xFF + excess.value.value;
    if excess.value.used + keySize > |entry| {
      return Failure;
    }
    return Ok(KeyRead(entry[excess.value.used..excess.value.used + keySize], excess.value.used + keySize));
  }

  /** The entry between two offsets, then the others. */
  lemma EntriesStep(hash: seq<byte> -> byte, data: seq<byte>, hashes: seq<byte>, offsets: seq<nat>, sizes: seq<nat>, i: nat, depth: nat)
    requires i < |offsets| == |sizes| == |hashes|
    ensures DecodeEntries(hash, data, hashes, offsets, sizes, i, depth)
            == if !InOrder(offsets, i, |data|) then Failure
               else
                 var entry := data[offsets[i]..NextOffset(offsets, i, |data|)];
                 match ReadKey(entry, sizes[i])
                 case Failure => Failure
                 case Ok(k) =>
                   if hashes[i] != hash(k.key) then Failure
                   else
                     var value := Decode(hash, entry[k.used..], depth + 1);
                     if value.Failure? then Failure
                     else After([Entry(k.key, value.value)], DecodeEntries(hash, data, hashes, offsets, sizes, i + 1, depth))
  {
    hide Decode, ReadKey;
  }

  method ReadEntry(hash: seq<byte> -> byte, b: seq<byte>, size: nat, w: nat, n: nat, i: nat, depth: nat,
      ghost data: seq<byte>, ghost hashes: seq<byte>, ghost offsets: seq<nat>, ghost sizes: seq<nat>)
    returns (r: Result<Entry>)
    requires 2 + size + n + n * (w + 1) <= |b| && i < n
    requires data == b[2..2 + size] && hashes == b[2 + size..2 + size + n]
    requires offsets == ReadTable(b, 2 + size + n, 0, w, w + 1, n) && sizes == ReadTable(b, 2 + size + n, w, 1, w + 1, n)
    ensures DecodeEntries(hash, data, hashes, offsets, sizes, i, depth)
            == if r.Failure? then Failure else After([r.value], DecodeEntries(hash, data, hashes, offsets, sizes, i + 1, depth))
    decreases size, 2
  {
    hide Decode, DecodeEntries, ReadTable, ReadLe, ReadKey, VaruintDecode, After;
    var slots := 2 + size + n;
    EntriesStep(hash, data, hashes, offsets, sizes, i, depth);
    var off, next := ReadBounds(b, slots, w, w + 1, n, i, size);
    if off > size || next < off || next > size {
      return Failure;
    }
    SliceSlice(b, 2, 2 + size, 2 + off, 2 + next);
    var entry := b[2 + off..2 + next];
    var sizeByte := ReadSlot(b, slots, w, 1, w + 1, n, i);
    var key := SplitKey(entry, sizeByte);
    if key.Failure? || b[2 + size + i] != hash(key.value.key) {
      return Failure;
    }
    var child := ReadValue(hash, entry[key.value.used..], depth + 1);
    if child.Failure? {
      return Failure;
    }
    return Ok(Entry(key.value.key, child.value));
  }

  method ReadObject(hash: seq<byte> -> byte, b: seq<byte>, depth: nat) returns (r: Result<Value>)
    ensures r == DecodeObject(hash, b, depth)
    decreases |b|, 0
  {
    hide DecodeEntries, Unle, ReadTable;
    if |b| < 4 || b[1] >= 4 {
      return Failure;
    }
    var w: nat := b[1] + 1;
    var n := ReadNumber(b, |b| - 2, 2);
    var overhead := 4 + n + (w + 1) * n;
    if |b| < overhead {
      return Failure;
    }
    var size := |b| - overhead;
    Commutes(w + 1, n);
    var entries := ReadEntries(hash, b, size, w, n, depth);
    return if entries.Ok? then Ok(Object(entries.value)) else Failure;
  }

  method ReadEntries(hash: seq<byte> -> byte, b: seq<byte>, size: nat, w: nat, n: nat, depth: nat) returns (r: Result<seq<Entry>>)
    requires 2 + size + n + n * (w + 1) <= |b|
    ensures r == DecodeEntries(hash, b[2..2 + size], b[2 + size..2 + size + n], ReadTable(b, 2 + size + n, 0, w, w + 1, n),
                               ReadTable(b, 2 + size + n, w, 1, w + 1, n), 0, depth)
    decreases size, 3
  {
    hide DecodeEntries, ReadTable;
    ghost var data, hashes := b[2..2 + size], b[2 + size..2 + size + n];
    ghost var offsets, sizes := ReadTable(b, 2 + size + n, 0, w, w + 1, n), ReadTable(b, 2 + size + n, w, 1, w + 1, n);
    var entries: seq<Entry> := [];
    var i: nat := 0;
    AfterNothing(entries, DecodeEntries(hash, data, hashes, offsets, sizes, 0, depth));
    while i < n
      invariant i <= n
      invariant DecodeEntries(hash, data, hashes, offsets, sizes, 0, depth)
                == After(entries, DecodeEntries(hash, data, hashes, offsets, sizes, i, depth))
    {
      var entry := ReadEntry(hash, b, size, w, n, i, depth, data, hashes, offsets, sizes);
      if entry.Failure? {
        return Failure;
      }
      AfterMore(entries, entry.value, DecodeEntries(hash, data, hashes, offsets, sizes, i + 1, depth));
      entries := entries + [entry.value];
      i := i + 1;
    }
    NoEntriesLeft(hash, data, hashes, offsets, sizes, depth);
    AfterAll(entries);
    return Ok(entries);
  }

  lemma NoEntriesLeft(hash: seq<byte> -> byte, data: seq<byte>, hashes: seq<byte>, offsets: seq<nat>, sizes: seq<nat>, depth: nat)
    requires |offsets| == |sizes| == |hashes|
    ensures DecodeEntries(hash, data, hashes, offsets, sizes, |offsets|, depth) == Ok([])
  {
  }

  // ---------------------------------------------------------------- row arrays

  lemma SumNext(s: seq<nat>, i: nat)
    requires i < |s|
    ensures Sum(s[..i + 1]) == Sum(s[..i]) + s[i]
  {
    assert s[..i + 1][..i] == s[..i];
  }

  /** The shared keys, with their slots, hashes and bytes checked in turn. */
  method ReadShared(hash: seq<byte> -> byte, b: seq<byte>, pos: nat, k: nat) returns (r: Result<SharedKeys>)
    ensures r == ReadSharedKeys(hash, b, pos, k)
  {
    hide ReadTable, DecodeKeys, Sum;
    if |b| < pos + k * 4 + k {
      return Failure;
    }
    var area := pos + k * 4 + k;
    ghost var lengths := ReadTable(b, pos, 3, 1, 4, k);
    var total: nat := 0;
    var i: nat := 0;
    NoSum(lengths);
    while i < k
      invariant i <= k && total == Sum(lengths[..i])
    {
      var size := ReadSlot(b, pos, 3, 1, 4, k, i);
      SumNext(lengths, i);
      total := total + size;
      i := i + 1;
    }
    assert lengths[..i] == lengths;
    if |b| < area + total {
      return Failure;
    }
    var keys := ReadKeys(hash, b, pos, k, total);
    return if keys.Ok? then Ok(SharedKeys(keys.value, area + total)) else Failure;
  }

  lemma NoSum(s: seq<nat>)
    ensures Sum(s[..0]) == 0
  {
  }

  method ReadKeys(hash: seq<byte> -> byte, b: seq<byte>, pos: nat, k: nat, total: nat) returns (keys: Result<seq<seq<byte>>>)
    requires pos + k * 4 + k + total <= |b|
    ensures var area := pos + k * 4 + k;
            keys == DecodeKeys(hash, b[area..area + total], b[pos + k * 4..area], ReadTable(b, pos, 0, 3, 4, k),
                               ReadTable(b, pos, 3, 1, 4, k), 0)
  {
    hide ReadTable;
    var area := pos + k * 4 + k;
    ghost var bytes, hashes := b[area..area + total], b[pos + k * 4..area];
    ghost var starts, lengths := ReadTable(b, pos, 0, 3, 4, k), ReadTable(b, pos, 3, 1, 4, k);
    var result: seq<seq<byte>> := [];
    var i: nat := 0;
    AfterNothing(result, DecodeKeys(hash, bytes, hashes, starts, lengths, 0));
    while i < k
      invariant i <= k
      invariant DecodeKeys(hash, bytes, hashes, starts, lengths, 0)
                == After(result, DecodeKeys(hash, bytes, hashes, starts, lengths, i))
    {
      var start := ReadSlot(b, pos, 0, 3, 4, k, i);
      var size := ReadSlot(b, pos, 3, 1, 4, k, i);
      if start + size > total {
        return Failure;
      }
      SliceSlice(b, area, area + total, area + start, area + start + size);
      var key := b[area + start..area + start + size];
      if b[pos + k * 4 + i] != hash(key) {
        return Failure;
      }
      AfterMore(result, key, DecodeKeys(hash, bytes, hashes, starts, lengths, i + 1));
      result := result + [key];
      i := i + 1;
    }
    AfterAll(result);
    return Ok(result);
  }

  /** One record: its cells' data, then their offsets. */
  method ReadRecord(hash: seq<byte> -> byte, record: seq<byte>, k: nat, w: nat, depth: nat) returns (row: Result<Row>)
    ensures row == DecodeRow(hash, record, k, w, depth)
    decreases |record|, k + 4
  {
    hide DecodeSpans, ReadTable;
    if |record| < k * w {
      return Failure;
    }
    var size := |record| - k * w;
    assert record[0..0 + size] == record[..size];
    var cells := ReadSpans(hash, record, 0, size, w, k, depth);
    return if cells.Ok? then Ok(Row(cells.value)) else Failure;
  }

  method ReadRecords(hash: seq<byte> -> byte, b: seq<byte>, body: nat, k: nat, w: nat, recoffW: nat, depth: nat)
    returns (rows: Result<seq<Row>>)
    requires |b| >= 2 && body >= 2
    ensures rows == DecodeRecords(hash, b, body, k, w, recoffW, depth)
    decreases |b| - 1, k + 5
  {
    hide DecodeRow, ReadTable, ReadLe;
    var n := ReadNumber(b, |b| - 2, 2);
    if |b| < 2 + n * recoffW || |b| - 2 - n * recoffW < body {
      return Failure;
    }
    var table := |b| - 2 - n * recoffW;
    var size := table - body;
    ghost var data, offsets := b[body..table], ReadTable(b, table, 0, recoffW, recoffW, n);
    var result: seq<Row> := [];
    var i: nat := 0;
    AfterNothing(result, DecodeRows(hash, data, offsets, k, w, 0, depth));
    while i < n
      invariant i <= n
      invariant DecodeRows(hash, data, offsets, k, w, 0, depth) == After(result, DecodeRows(hash, data, offsets, k, w, i, depth))
    {
      var off, next := ReadBounds(b, table, recoffW, recoffW, n, i, size);
      if off > size || next < off || next > size {
        return Failure;
      }
      SliceSlice(b, body, table, body + off, body + next);
      var row := ReadRecord(hash, b[body + off..body + next], k, w, depth);
      if row.Failure? {
        return Failure;
      }
      AfterMore(result, row.value, DecodeRows(hash, data, offsets, k, w, i + 1, depth));
      result := result + [row.value];
      i := i + 1;
    }
    AfterAll(result);
    return Ok(result);
  }

  method ReadRowArray(hash: seq<byte> -> byte, b: seq<byte>, depth: nat) returns (r: Result<Value>)
    ensures r == DecodeRowArray(hash, b, depth)
    decreases |b|, 0
  {
    hide VaruintDecode, ReadSharedKeys, DecodeRecords;
    if |b| < 5 || b[1] >= 16 {
      return Failure;
    }
    var count := ReadVaruint(b[2..]);
    if count == None {
      return Failure;
    }
    var shared := ReadShared(hash, b, 2 + count.value.used, count.value.value);
    if shared.Failure? {
      return Failure;
    }
    var widths: int := b[1];
    var rows := ReadRecords(hash, b, shared.value.end, count.value.value, widths % 4 + 1, widths / 4 + 1, depth);
    return if rows.Ok? then Ok(RowArray(shared.value.keys, rows.value)) else Failure;
  }

  /** A whole buffer. */
  method DecodeBuffer(hash: seq<byte> -> byte, b: seq<byte>) returns (r: Result<Value>)
    ensures r == Decode(hash, b, 0)
  {
    r := ReadValue(hash, b, 0);
  }
}
