/** What the second pjson decoder accepts among all byte strings, one level of nesting at a time
    (js/src/pjson.ts, lines 205-300). */
module PjsonJsAccept {
  import opened ByteStrings
  import opened Pjson
  import opened PjsonDecode
  import opened PjsonGrammar
  import opened PjsonJsDecode
  import opened PjsonNumbers
  import opened Wrappers

  // ---------------------------------------------------------------- values without parts

  predicate JsDecimalWire(b: seq<byte>, m: int, s: int) {
    && |b| >= 1 && 0x70 <= b[0] <= 0x7F
    && var end := b[0] - 0x70 + 2;
    && end <= |b| && m == Unzigzag(Num(b, 1, end - 1))
    && var scale := VaruintDecode(b[end..]);
    && scale.Some? && end + scale.value.used == |b| && s == Unzigzag(scale.value.value)
  }

  /** A null may have any lower half of its tag, and a float's third bit is its flag. */
  predicate JsLeafWire(b: seq<byte>, v: Value) {
    match v
    case Null => |b| == 1 && b[0] < 0x10
    case Bool(x) => b == [if x then 0x11 else 0x10]
    case Uint(n) => (n <= 15 && b == [0x20 + n]) || Magnitude(b, 0x40, n)
    case NegInt(m) => m != 0 && ((m <= 15 && b == [0x30 + m]) || Magnitude(b, 0x50, m))
    case Float(w, bits) =>
      && (1 <= w <= 3 || 9 <= w <= 11) && |b| == [3, 5, 9][w % 8 - 1]
      && b[0] == 0x60 + w && Num(b, 1, |b| - 1) == bits
    case Decimal(m, s) => JsDecimalWire(b, m, s)
    case Text(flag, text) => flag <= 1 && b == [0x90 + flag] + text
    case Bytes(hint, content) => hint == 0 && b == [0xA0] + content
    case TypedArray(code, raw) =>
      && code < 10 && |b| >= 3 && b[0] == 0xB1 + code && raw == b[1..|b| - 2]
      && |raw| == Num(b, |b| - 2, 2) * ELEMENT_SIZES[code]
    case _ => false
  }

  lemma JsLeafKind(b: seq<byte>, v: Value)
    requires |b| >= 1
    ensures JsLeafWire(b, v) ==> b[0] / 16 == Kind(v, b[0])
    ensures JsLeaf(b, b[0] / 16, b[0] % 16) == Ok(v) ==> b[0] / 16 == Kind(v, b[0])
  {
    hide Num, Unle, VaruintDecode, Unzigzag;
  }

  lemma JsShortIff(b: seq<byte>, v: Value)
    requires |b| >= 1 && b[0] < 0x40
    ensures JsLeaf(b, b[0] / 16, b[0] % 16) == Ok(v) <==> JsLeafWire(b, v)
  {
    JsLeafKind(b, v);
    hide Num, Unle, JsDecimalOf, JsDecimalWire;
    var x := b[0];
    if |b| == 1 { assert b == [x]; }
    if x < 0x10 {
    } else if x < 0x20 {
    } else if x < 0x30 {
    } else {
    }
  }

  lemma JsMagnitudeIff(b: seq<byte>, v: Value)
    requires |b| >= 1 && 0x40 <= b[0] < 0x60
    ensures JsLeaf(b, b[0] / 16, b[0] % 16) == Ok(v) <==> JsLeafWire(b, v)
  {
    JsLeafKind(b, v);
    hide Num, Unle, JsDecimalOf, JsDecimalWire;
    NumRest(b);
    if b[0] < 0x50 {
    } else {
    }
  }

  lemma JsFloatIff(b: seq<byte>, v: Value)
    requires |b| >= 1 && 0x60 <= b[0] < 0x70
    ensures JsLeaf(b, b[0] / 16, b[0] % 16) == Ok(v) <==> JsLeafWire(b, v)
  {
    JsLeafKind(b, v);
    hide Num, Unle, JsDecimalOf, JsDecimalWire;
    NumRest(b);
  }

  lemma JsDecimalIff(b: seq<byte>, v: Value)
    requires |b| >= 1 && 0x70 <= b[0] < 0x80
    ensures JsLeaf(b, b[0] / 16, b[0] % 16) == Ok(v) <==> JsLeafWire(b, v)
  {
    JsLeafKind(b, v);
    hide Unle, Unzigzag, VaruintDecode;
  }

  lemma JsLongIff(b: seq<byte>, v: Value)
    requires |b| >= 1 && 0x80 <= b[0] && !(0xB0 <= b[0] < 0xC0)
    ensures JsLeaf(b, b[0] / 16, b[0] % 16) == Ok(v) <==> JsLeafWire(b, v)
  {
    JsLeafKind(b, v);
    hide Num, Unle, JsDecimalOf, JsDecimalWire;
    NumRest(b);
  }

  lemma JsTypedTag(b: seq<byte>, low: nat)
    requires |b| >= 1 && 1 <= low < 16
    ensures JsLeaf(b, 11, low) ==
            if low > 10 || |b| < 3 || |b| != 3 + LastCount(b) * ElementSize(low - 1) then Failure
            else Ok(TypedArray(low - 1, b[1..|b| - 2]))
  {
    hide Unle, ElementSize;
  }

  lemma JsTypedIff(b: seq<byte>, v: Value)
    requires |b| >= 1 && 0xB0 < b[0] < 0xC0
    ensures JsLeaf(b, b[0] / 16, b[0] % 16) == Ok(v) <==> JsLeafWire(b, v)
  {
    JsLeafKind(b, v);
    hide JsLeaf, Unle, JsDecimalWire, ElementSize, ELEMENT_SIZES;
    var low: nat := (b[0] - 0xB0) as int;
    assert b[0] / 16 == 11 && b[0] % 16 == low;
    JsTypedTag(b, low);
    if low <= 10 { ElementSizes(low - 1); }
  }

  /** Values without parts are read exactly from these bytes. */
  lemma JsLeafIff(hash: seq<byte> -> byte, b: seq<byte>, v: Value, depth: nat)
    requires b != [] && b[0] != 0xB0 && b[0] != 0xC0 && b[0] != 0xC1
    ensures JsDecode(hash, b, depth) == Ok(v) <==> depth <= 64 && JsLeafWire(b, v)
  {
    hide JsLeaf, JsLeafWire;
    if b[0] < 0x40 {
      JsShortIff(b, v);
    } else if b[0] < 0x60 {
      JsMagnitudeIff(b, v);
    } else if b[0] < 0x70 {
      JsFloatIff(b, v);
    } else if b[0] < 0x80 {
      JsDecimalIff(b, v);
    } else if 0xB0 < b[0] < 0xC0 {
      JsTypedIff(b, v);
    } else {
      JsLongIff(b, v);
    }
  }

  // ---------------------------------------------------------------- arrays

  /** The i-th of n values is what is read from its piece of the data. */
  predicate JsValueAt(hash: seq<byte> -> byte, b: seq<byte>, pos: nat, w: nat, n: nat, data: seq<byte>, v: Value, i: nat, depth: nat) {
    && Piece(b, pos, w, w, n, |data|, i)
    && JsDecode(hash, data[From(b, pos, w, w, i)..To(b, pos, w, w, n, |data|, i)], depth + 1) == Ok(v)
  }

  /** Unlike in the first decoder the width of the offsets may be less than the size of the data needs. */
  predicate JsArrayWire(hash: seq<byte> -> byte, b: seq<byte>, children: seq<Value>, depth: nat) {
    var n := |children|;
    && |b| >= 4 && b[0] == 0xB0 && b[1] < 4 && n == Num(b, |b| - 2, 2)
    && var w: nat := (b[1] + 1) as int;
    var size := |b| - 4 - w * n;
    && size >= 0
    && forall i :: 0 <= i < n ==> JsValueAt(hash, b, 2 + size, w, n, b[2..2 + size], children[i], i, depth)
  }

  lemma {:induction false} JsSpansIff(hash: seq<byte> -> byte, data: seq<byte>, offsets: seq<nat>, i: nat, depth: nat, vs: seq<Value>)
    requires i <= |offsets|
    ensures JsSpans(hash, data, offsets, i, depth) == Ok(vs) <==>
            && |vs| == |offsets| - i
            && forall j :: i <= j < |offsets| ==>
                 && InOrder(offsets, j, |data|)
                 && JsDecode(hash, data[offsets[j]..NextOffset(offsets, j, |data|)], depth + 1) == Ok(vs[j - i])
    decreases |offsets| - i
  {
    hide JsDecode, InOrder, NextOffset;
    if i < |offsets| {
      InOrderBounds(offsets, i, |data|);
      if |vs| > 0 {
        JsSpansIff(hash, data, offsets, i + 1, depth, vs[1..]);
        assert vs == [vs[0]] + vs[1..];
      }
    }
  }

  lemma JsValueAtIff(hash: seq<byte> -> byte, b: seq<byte>, pos: nat, w: nat, n: nat, data: seq<byte>, v: Value, i: nat, depth: nat)
    requires pos + n * w <= |b| && i < n
    ensures var offsets := ReadTable(b, pos, 0, w, w, n);
            && (InOrder(offsets, i, |data|) ==> offsets[i] <= NextOffset(offsets, i, |data|) <= |data|)
            && (InOrder(offsets, i, |data|) && JsDecode(hash, data[offsets[i]..NextOffset(offsets, i, |data|)], depth + 1) == Ok(v)
                <==> JsValueAt(hash, b, pos, w, n, data, v, i, depth))
  {
    hide JsDecode, ReadTable, From, To, NextOffset;
    OffsetIs(b, pos, w, w, n, |data|, i);
  }

  lemma JsAllIff(hash: seq<byte> -> byte, b: seq<byte>, pos: nat, w: nat, n: nat, data: seq<byte>, vs: seq<Value>, depth: nat)
    requires pos + n * w <= |b|
    ensures JsSpans(hash, data, ReadTable(b, pos, 0, w, w, n), 0, depth) == Ok(vs)
            <==> |vs| == n && forall i :: 0 <= i < n ==> JsValueAt(hash, b, pos, w, n, data, vs[i], i, depth)
  {
    hide JsDecode, ReadTable, InOrder, NextOffset, JsSpans, JsValueAt;
    var offsets := ReadTable(b, pos, 0, w, w, n);
    JsSpansIff(hash, data, offsets, 0, depth, vs);
    if |vs| == n {
      forall i | 0 <= i < n
        ensures InOrder(offsets, i, |data|) ==> offsets[i] <= NextOffset(offsets, i, |data|) <= |data|
        ensures InOrder(offsets, i, |data|)
                && JsDecode(hash, data[offsets[i]..NextOffset(offsets, i, |data|)], depth + 1) == Ok(vs[i])
                <==> JsValueAt(hash, b, pos, w, n, data, vs[i], i, depth)
      {
        JsValueAtIff(hash, b, pos, w, n, data, vs[i], i, depth);
      }
    }
  }

  /** The first byte gives the container. */
  lemma JsKindOf(hash: seq<byte> -> byte, b: seq<byte>, depth: nat)
    requires b != []
    ensures JsArrayOf(hash, b, depth).Ok? ==> JsArrayOf(hash, b, depth).value.Array?
    ensures JsObjectOf(hash, b, depth).Ok? ==> JsObjectOf(hash, b, depth).value.Object?
    ensures JsRowsOf(hash, b, depth).Ok? ==> JsRowsOf(hash, b, depth).value.RowArray?
    ensures var v := JsLeaf(b, b[0] / 16, b[0] % 16);
            v.Ok? ==> !v.value.Array? && !v.value.Object? && !v.value.RowArray? && !v.value.NumericString?
  {
    hide JsEntries, JsSpans, JsRecords, JsSharedKeys, ReadTable, Unle;
  }

  /** Arrays are read exactly from these bytes, down to the values in them. */
  lemma JsArrayIff(hash: seq<byte> -> byte, b: seq<byte>, children: seq<Value>, depth: nat)
    ensures JsDecode(hash, b, depth) == Ok(Array(children)) <==> depth <= 64 && JsArrayWire(hash, b, children, depth)
  {
    hide JsSpans, JsValueAt, ReadTable, Unle, JsLeaf, JsObjectOf, JsRowsOf;
    if b != [] { JsKindOf(hash, b, depth); }
    if |b| >= 4 && b[0] == 0xB0 && b[1] < 4 {
      var w: nat, n := (b[1] + 1) as int, LastCount(b);
      var size := |b| - 4 - w * n;
      if size >= 0 { JsAllIff(hash, b, 2 + size, w, n, b[2..2 + size], children, depth); }
    }
  }

  // ---------------------------------------------------------------- objects

  predicate JsEntryReads(hash: seq<byte> -> byte, entry: seq<byte>, sizeByte: nat, h: nat, e: Entry, depth: nat) {
    var used := KeyEnd(entry, sizeByte);
    && ReadKey(entry, sizeByte) == Ok(KeyRead(e.key, used)) && h == hash(e.key) as int
    && JsDecode(hash, entry[used..], depth + 1) == Ok(e.value)
  }

  /** The key stands in front of the value, and h is its hash. */
  predicate JsEntryWire(hash: seq<byte> -> byte, entry: seq<byte>, sizeByte: nat, h: nat, e: Entry, depth: nat) {
    var used := KeyEnd(entry, sizeByte);
    KeyAt(entry, sizeByte, e.key, used) && h == hash(e.key) as int && JsDecode(hash, entry[used..], depth + 1) == Ok(e.value)
  }

  predicate JsEntryAt(hash: seq<byte> -> byte, b: seq<byte>, pos: nat, w: nat, n: nat, data: seq<byte>, h: nat, e: Entry, i: nat,
      depth: nat)
  {
    && Piece(b, pos, w, w + 1, n, |data|, i)
    && JsEntryWire(hash, data[From(b, pos, w, w + 1, i)..To(b, pos, w, w + 1, n, |data|, i)],
                   Num(b, pos + i * (w + 1) + w, 1), h, e, depth)
  }

  predicate JsObjectWire(hash: seq<byte> -> byte, b: seq<byte>, entries: seq<Entry>, depth: nat) {
    var n := |entries|;
    && |b| >= 4 && b[0] == 0xC0 && b[1] < 4 && n == Num(b, |b| - 2, 2)
    && var w: nat := (b[1] + 1) as int;
    var size := |b| - 4 - n - (w + 1) * n;
    && size >= 0
    && forall i :: 0 <= i < n ==>
         JsEntryAt(hash, b, 2 + size + n, w, n, b[2..2 + size], Num(b, 2 + size + i, 1), entries[i], i, depth)
  }

  lemma {:induction false} JsEntriesIff(hash: seq<byte> -> byte, data: seq<byte>, hashes: seq<byte>, offsets: seq<nat>, sizes: seq<nat>,
      i: nat, depth: nat, es: seq<Entry>)
    requires i <= |offsets| == |sizes| == |hashes|
    ensures JsEntries(hash, data, hashes, offsets, sizes, i, depth) == Ok(es) <==>
            && |es| == |offsets| - i
            && forall j :: i <= j < |offsets| ==>
                 && InOrder(offsets, j, |data|)
                 && JsEntryReads(hash, data[offsets[j]..NextOffset(offsets, j, |data|)], sizes[j], hashes[j] as int, es[j - i], depth)
    decreases |offsets| - i
  {
    hide JsDecode, InOrder, NextOffset, ReadKey, KeyEnd;
    if i < |offsets| {
      InOrderBounds(offsets, i, |data|);
      if |es| > 0 {
        if InOrder(offsets, i, |data|) {
          KeyIff(data[offsets[i]..NextOffset(offsets, i, |data|)], sizes[i], es[0].key);
        }
        JsEntriesIff(hash, data, hashes, offsets, sizes, i + 1, depth, es[1..]);
        assert es == [es[0]] + es[1..];
      }
    }
  }

  lemma JsEntryIff(hash: seq<byte> -> byte, entry: seq<byte>, sizeByte: nat, h: nat, e: Entry, depth: nat)
    ensures JsEntryReads(hash, entry, sizeByte, h, e, depth) <==> JsEntryWire(hash, entry, sizeByte, h, e, depth)
  {
    hide JsDecode, ReadKey, KeyAt, KeyEnd;
    KeyIff(entry, sizeByte, e.key);
  }

  lemma JsEntryAtIff(hash: seq<byte> -> byte, b: seq<byte>, pos: nat, w: nat, n: nat, data: seq<byte>, h: nat, e: Entry,
      i: nat, depth: nat)
    requires pos + n * (w + 1) <= |b| && i < n
    ensures var offsets, sizes := ReadTable(b, pos, 0, w, w + 1, n), ReadTable(b, pos, w, 1, w + 1, n);
            && (InOrder(offsets, i, |data|) ==> offsets[i] <= NextOffset(offsets, i, |data|) <= |data|)
            && (InOrder(offsets, i, |data|) && JsEntryReads(hash, data[offsets[i]..NextOffset(offsets, i, |data|)], sizes[i], h, e, depth)
                <==> JsEntryAt(hash, b, pos, w, n, data, h, e, i, depth))
  {
    hide ReadTable, From, To, NextOffset, JsEntryReads, JsEntryWire, Num;
    OffsetIs(b, pos, w, w + 1, n, |data|, i);
    SizeIs(b, pos, w, n, i);
    if Piece(b, pos, w, w + 1, n, |data|, i) {
      JsEntryIff(hash, data[From(b, pos, w, w + 1, i)..To(b, pos, w, w + 1, n, |data|, i)], Num(b, pos + i * (w + 1) + w, 1), h, e, depth);
    }
  }

  lemma JsAllEntriesIff(hash: seq<byte> -> byte, b: seq<byte>, pos: nat, w: nat, n: nat, data: seq<byte>, hashes: seq<byte>,
      es: seq<Entry>, depth: nat)
    requires pos + n * (w + 1) <= |b| && |hashes| == n
    ensures JsEntries(hash, data, hashes, ReadTable(b, pos, 0, w, w + 1, n), ReadTable(b, pos, w, 1, w + 1, n), 0, depth) == Ok(es)
            <==> |es| == n && forall i :: 0 <= i < n ==> JsEntryAt(hash, b, pos, w, n, data, hashes[i] as int, es[i], i, depth)
  {
    hide ReadTable, InOrder, NextOffset, JsEntries, JsEntryReads, JsEntryAt;
    var offsets, sizes := ReadTable(b, pos, 0, w, w + 1, n), ReadTable(b, pos, w, 1, w + 1, n);
    JsEntriesIff(hash, data, hashes, offsets, sizes, 0, depth, es);
    if |es| == n {
      forall i | 0 <= i < n
        ensures InOrder(offsets, i, |data|) ==> offsets[i] <= NextOffset(offsets, i, |data|) <= |data|
        ensures InOrder(offsets, i, |data|) &&
                JsEntryReads(hash, data[offsets[i]..NextOffset(offsets, i, |data|)], sizes[i], hashes[i] as int, es[i], depth)
                <==> JsEntryAt(hash, b, pos, w, n, data, hashes[i] as int, es[i], i, depth)
      {
        JsEntryAtIff(hash, b, pos, w, n, data, hashes[i] as int, es[i], i, depth);
      }
    }
  }

  /** Objects are read exactly from these bytes, down to the values in them. */
  lemma JsObjectIff(hash: seq<byte> -> byte, b: seq<byte>, entries: seq<Entry>, depth: nat)
    ensures JsDecode(hash, b, depth) == Ok(Object(entries)) <==> depth <= 64 && JsObjectWire(hash, b, entries, depth)
  {
    hide JsEntries, JsEntryAt, ReadTable, Unle, JsLeaf, JsArrayOf, JsRowsOf;
    if b != [] { JsKindOf(hash, b, depth); }
    if |b| >= 4 && b[0] == 0xC0 && b[1] < 4 {
      var w: nat, n := (b[1] + 1) as int, LastCount(b);
      var size := |b| - (4 + n + (w + 1) * n);
      if size >= 0 {
        var hashes := b[2 + size..2 + size + n];
        JsAllEntriesIff(hash, b, 2 + size + n, w, n, b[2..2 + size], hashes, entries, depth);
        forall i | 0 <= i < n ensures Num(b, 2 + size + i, 1) == hashes[i] as int {
          OneByte(b, 2 + size + i);
        }
      }
    }
  }

  // ---------------------------------------------------------------- arrays of rows

  /** The shared keys end where the last one does. */
  function JsKeysEnd(b: seq<byte>, pos: nat, k: nat): nat
    requires k > 0
  {
    pos + 5 * k + Num(b, pos + 4 * (k - 1), 3) + Num(b, pos + 4 * (k - 1) + 3, 1)
  }

  predicate JsKeyAt(hash: seq<byte> -> byte, b: seq<byte>, pos: nat, k: nat, key: seq<byte>, i: nat)
    requires k > 0 && JsKeysEnd(b, pos, k) <= |b|
  {
    var start, length := pos + 5 * k + Num(b, pos + 4 * i, 3), Num(b, pos + 4 * i + 3, 1);
    && start + length <= JsKeysEnd(b, pos, k) && key == b[start..start + length]
    && Num(b, pos + 4 * k + i, 1) == hash(key) as int
  }

  predicate ShortKey(b: seq<byte>, pos: nat, i: nat) {
    Num(b, pos + 4 * i + 3, 1) < 255
  }

  /** One or more shared keys, each of less than 255 bytes, and at least two bytes behind their hashes. */
  predicate JsKeysWire(hash: seq<byte> -> byte, b: seq<byte>, pos: nat, keys: seq<seq<byte>>) {
    var k := |keys|;
    && k > 0 && pos + 5 * k + 2 <= |b| && JsKeysEnd(b, pos, k) <= |b|
    && (forall i :: 0 <= i < k ==> ShortKey(b, pos, i))
    && forall i :: 0 <= i < k ==> JsKeyAt(hash, b, pos, k, keys[i], i)
  }

  lemma JsKeyIff(hash: seq<byte> -> byte, b: seq<byte>, pos: nat, k: nat, key: seq<byte>, i: nat)
    requires i < k && JsKeysEnd(b, pos, k) <= |b| && pos + 5 * k <= |b|
    ensures var area, end := pos + 5 * k, JsKeysEnd(b, pos, k);
            var starts, lengths := ReadTable(b, pos, 0, 3, 4, k), ReadTable(b, pos, 3, 1, 4, k);
            KeyReadAt(hash, b[area..end], b[pos + k * 4..area], starts, lengths, i, key) <==> JsKeyAt(hash, b, pos, k, key, i)
  {
    hide ReadTable, Num;
    var area, end := pos + 5 * k, JsKeysEnd(b, pos, k);
    StartIs(b, pos, k, i);
    LengthIs(b, pos, k, i);
    OneByte(b, pos + 4 * k + i);
    var start, length := Num(b, pos + 4 * i, 3), Num(b, pos + 4 * i + 3, 1);
    if start + length <= end - area { SliceSlice(b, area, end, area + start, area + start + length); }
  }

  lemma AllShortIff(b: seq<byte>, pos: nat, k: nat)
    requires pos + 4 * k <= |b|
    ensures AllShort(ReadTable(b, pos, 3, 1, 4, k)) <==> forall i :: 0 <= i < k ==> ShortKey(b, pos, i)
  {
    hide ReadTable, Num;
    forall i | 0 <= i < k ensures ReadTable(b, pos, 3, 1, 4, k)[i] < 255 <==> ShortKey(b, pos, i) {
      LengthIs(b, pos, k, i);
    }
  }

  lemma JsSharedKeysIff(hash: seq<byte> -> byte, b: seq<byte>, pos: nat, keys: seq<seq<byte>>)
    requires keys != []
    ensures JsSharedKeys(hash, b, pos, |keys|) == Ok(SharedKeys(keys, JsKeysEnd(b, pos, |keys|))) <==> JsKeysWire(hash, b, pos, keys)
    ensures JsSharedKeys(hash, b, pos, |keys|).Ok? ==> JsSharedKeys(hash, b, pos, |keys|).value.end == JsKeysEnd(b, pos, |keys|)
  {
    hide ReadTable, DecodeKeys, JsKeyAt, KeyReadAt, AllShort, ShortKey, Num;
    var k := |keys|;
    var area := pos + k * 4 + k;
    if area + 2 <= |b| {
      AllShortIff(b, pos, k);
      StartIs(b, pos, k, k - 1);
      LengthIs(b, pos, k, k - 1);
      var starts, lengths := ReadTable(b, pos, 0, 3, 4, k), ReadTable(b, pos, 3, 1, 4, k);
      var end := JsKeysEnd(b, pos, k);
      if end <= |b| {
        var hashes := b[pos + k * 4..area];
        KeysIff(hash, b[area..end], hashes, starts, lengths, 0, keys);
        assert keys[0..] == keys;
        forall i | 0 <= i < k
          ensures KeyReadAt(hash, b[area..end], hashes, starts, lengths, i, keys[i]) <==> JsKeyAt(hash, b, pos, k, keys[i], i)
        {
          JsKeyIff(hash, b, pos, k, keys[i], i);
        }
      }
    }
  }

  lemma JsKeysRead(hash: seq<byte> -> byte, b: seq<byte>, pos: nat, k: nat)
    ensures JsSharedKeys(hash, b, pos, k).Ok? ==> k > 0 && |JsSharedKeys(hash, b, pos, k).value.keys| == k
  {
    hide ReadTable, DecodeKeys, AllShort;
    if JsSharedKeys(hash, b, pos, k).Ok? {
      var area := pos + k * 4 + k;
      var starts, lengths := ReadTable(b, pos, 0, 3, 4, k), ReadTable(b, pos, 3, 1, 4, k);
      var end := area + starts[k - 1] + lengths[k - 1];
      KeysCount(hash, b[area..end], b[pos + k * 4..area], starts, lengths, 0);
    }
  }

  /** A record: the data of its cells, then their offsets. */
  predicate JsRecordWire(hash: seq<byte> -> byte, record: seq<byte>, cells: seq<Value>, w: nat, depth: nat) {
    var n, size := |cells|, |record| - |cells| * w;
    size >= 0 && forall i :: 0 <= i < n ==> JsValueAt(hash, record, size, w, n, record[..size], cells[i], i, depth)
  }

  predicate JsRecordAt(hash: seq<byte> -> byte, b: seq<byte>, pos: nat, wide: nat, n: nat, body: seq<byte>, row: Row, k: nat, w: nat,
      i: nat, depth: nat)
  {
    && Piece(b, pos, wide, wide, n, |body|, i) && |row.cells| == k
    && JsRecordWire(hash, body[From(b, pos, wide, wide, i)..To(b, pos, wide, wide, n, |body|, i)], row.cells, w, depth)
  }

  predicate JsRecordsWire(hash: seq<byte> -> byte, b: seq<byte>, end: nat, rows: seq<Row>, k: nat, w: nat, wide: nat, depth: nat) {
    var n, size := |rows|, |b| - 2 - |rows| * wide - end;
    && |b| >= 2 && n == Num(b, |b| - 2, 2) && size >= 0
    && forall i :: 0 <= i < n ==> JsRecordAt(hash, b, end + size, wide, n, b[end..end + size], rows[i], k, w, i, depth)
  }

  /** Shared keys, then the records behind the last key. */
  predicate JsRowsWire(hash: seq<byte> -> byte, b: seq<byte>, keys: seq<seq<byte>>, rows: seq<Row>, depth: nat) {
    && |b| >= 5 && b[0] == 0xC1 && b[1] < 16 && VaruintDecode(b[2..]).Some?
    && var count: Varuint, widths: nat := VaruintDecode(b[2..]).value, b[1] as int;
    && count.value == |keys| && JsKeysWire(hash, b, 2 + count.used, keys)
    && JsRecordsWire(hash, b, JsKeysEnd(b, 2 + count.used, |keys|), rows, |keys|, widths % 4 + 1, widths / 4 + 1, depth)
  }

  lemma {:induction false} JsRecordsFromIff(hash: seq<byte> -> byte, body: seq<byte>, offsets: seq<nat>, k: nat, w: nat, i: nat, depth: nat,
      rows: seq<Row>)
    requires i <= |offsets|
    ensures JsRowsFrom(hash, body, offsets, k, w, i, depth) == Ok(rows) <==>
            && |rows| == |offsets| - i
            && forall j :: i <= j < |offsets| ==>
                 && InOrder(offsets, j, |body|)
                 && JsRow(hash, body[offsets[j]..NextOffset(offsets, j, |body|)], k, w, depth) == Ok(rows[j - i])
    decreases |offsets| - i
  {
    hide JsRow, InOrder, NextOffset;
    if i < |offsets| {
      InOrderBounds(offsets, i, |body|);
      if |rows| > 0 {
        JsRecordsFromIff(hash, body, offsets, k, w, i + 1, depth, rows[1..]);
        assert rows == [rows[0]] + rows[1..];
      }
    }
  }

  lemma JsRecordIff(hash: seq<byte> -> byte, record: seq<byte>, row: Row, k: nat, w: nat, depth: nat)
    ensures JsRow(hash, record, k, w, depth) == Ok(row) <==> |row.cells| == k && JsRecordWire(hash, record, row.cells, w, depth)
  {
    hide JsSpans, JsValueAt, ReadTable;
    if |record| >= k * w {
      var size := |record| - k * w;
      JsAllIff(hash, record, size, w, k, record[..size], row.cells, depth);
    }
  }

  lemma JsRecordAtIff(hash: seq<byte> -> byte, b: seq<byte>, pos: nat, wide: nat, n: nat, body: seq<byte>, row: Row,
      k: nat, w: nat, i: nat, depth: nat)
    requires pos + n * wide <= |b| && i < n
    ensures var offsets := ReadTable(b, pos, 0, wide, wide, n);
            && (InOrder(offsets, i, |body|) ==> offsets[i] <= NextOffset(offsets, i, |body|) <= |body|)
            && (InOrder(offsets, i, |body|) && JsRow(hash, body[offsets[i]..NextOffset(offsets, i, |body|)], k, w, depth) == Ok(row)
                <==> JsRecordAt(hash, b, pos, wide, n, body, row, k, w, i, depth))
  {
    hide ReadTable, From, To, NextOffset, JsRow, JsRecordWire;
    OffsetIs(b, pos, wide, wide, n, |body|, i);
    if Piece(b, pos, wide, wide, n, |body|, i) {
      JsRecordIff(hash, body[From(b, pos, wide, wide, i)..To(b, pos, wide, wide, n, |body|, i)], row, k, w, depth);
    }
  }

  lemma JsAllRecordsIff(hash: seq<byte> -> byte, b: seq<byte>, end: nat, rows: seq<Row>, k: nat, w: nat, wide: nat, depth: nat)
    requires |b| >= 2 && end >= 2
    ensures JsRecords(hash, b, end, k, w, wide, depth) == Ok(rows) <==> JsRecordsWire(hash, b, end, rows, k, w, wide, depth)
  {
    hide ReadTable, JsRowsFrom, JsRow, JsRecordAt, NextOffset, InOrder, Unle;
    var n := LastCount(b);
    var table := |b| - 2 - n * wide;
    if table >= end {
      var offsets, body := ReadTable(b, table, 0, wide, wide, n), b[end..table];
      JsRecordsFromIff(hash, body, offsets, k, w, 0, depth, rows);
      if |rows| == n {
        forall i | 0 <= i < n
          ensures InOrder(offsets, i, |body|) ==> offsets[i] <= NextOffset(offsets, i, |body|) <= |body|
          ensures InOrder(offsets, i, |body|) &&
                  JsRow(hash, body[offsets[i]..NextOffset(offsets, i, |body|)], k, w, depth) == Ok(rows[i])
                  <==> JsRecordAt(hash, b, table, wide, n, body, rows[i], k, w, i, depth)
        {
          JsRecordAtIff(hash, b, table, wide, n, body, rows[i], k, w, i, depth);
        }
      }
    }
  }

  /** Arrays of rows are read exactly from these bytes, down to their cells. */
  lemma JsRowsIff(hash: seq<byte> -> byte, b: seq<byte>, keys: seq<seq<byte>>, rows: seq<Row>, depth: nat)
    ensures JsDecode(hash, b, depth) == Ok(RowArray(keys, rows)) <==> depth <= 64 && JsRowsWire(hash, b, keys, rows, depth)
  {
    hide JsRecords, JsRecordsWire, JsKeysWire, JsSharedKeys, VaruintDecode, JsLeaf, JsArrayOf, JsObjectOf, JsKeysEnd;
    if b != [] { JsKindOf(hash, b, depth); }
    if |b| >= 5 && b[0] == 0xC1 && b[1] < 16 && VaruintDecode(b[2..]).Some? {
      var count, widths: int := VaruintDecode(b[2..]).value, b[1];
      JsKeysRead(hash, b, 2 + count.used, count.value);
      SomeKeys(hash, b, 2 + count.used, keys);
      if count.value == |keys| && keys != [] {
        JsSharedKeysIff(hash, b, 2 + count.used, keys);
        EndBehind(b, 2 + count.used, |keys|);
        JsAllRecordsIff(hash, b, JsKeysEnd(b, 2 + count.used, |keys|), rows, |keys|, widths % 4 + 1, widths / 4 + 1, depth);
      }
    }
  }

  lemma SomeKeys(hash: seq<byte> -> byte, b: seq<byte>, pos: nat, keys: seq<seq<byte>>)
    ensures JsKeysWire(hash, b, pos, keys) ==> keys != []
  {
  }

  lemma EndBehind(b: seq<byte>, pos: nat, k: nat)
    requires k > 0
    ensures JsKeysEnd(b, pos, k) >= pos
  {
  }
}
