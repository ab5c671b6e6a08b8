/** Values and the bytes that the conformance suite lists for them (conformance/fixtures), and the limits
    the encoder keeps to (cpp/conformance/pjson_conformance_driver.cpp, lines 862-1223). */
module PjsonExamples {
  import opened ByteStrings
  import opened Pjson
  import opened PjsonNumbers
  import opened Wrappers

  // ---------------------------------------------------------------- numbers

  lemma Le2(n: nat)
    ensures Le(n, 1) == [n % 256] && Le(n, 2) == [n % 256, n / 256 % 256]
  {
    assert Le(n / 256, 1) == [n / 256 % 256] + Le(n / 256 / 256, 0);
  }

  lemma OneByteMinimal(n: nat)
    requires 0 < n < 256
    ensures MinimalLe(n) == [n]
  {
    assert MinimalLe(n) == [n % 256] + MinimalLe(n / 256);
  }

  lemma TwoBytesMinimal(n: nat)
    requires 256 <= n < 0x1_0000
    ensures MinimalLe(n) == [n % 256, n / 256]
  {
    OneByteMinimal(n / 256);
    assert MinimalLe(n) == [n % 256] + MinimalLe(n / 256);
  }

  lemma ShortVaruint(v: nat)
    requires v < 0x40
    ensures VaruintEncode(v) == Some([v])
  {
    assert [v] + Le(v / 64, 0) == [v];
  }

  lemma TwoByteVaruint(v: nat)
    requires 0x40 <= v < 0x4000
    ensures VaruintEncode(v) == Some([64 + v % 64, v / 64])
  {
    Le2(v / 64);
    assert [64 + v % 64] + [v / 64] == [64 + v % 64, v / 64];
  }

  /** Small integers stand in the tag; the others have their bytes behind the tag and the byte count. */
  lemma Integers(hash: seq<byte> -> byte)
    ensures Encode(hash, Null) == Some([0x00])
    ensures Encode(hash, Bool(false)) == Some([0x10]) && Encode(hash, Bool(true)) == Some([0x11])
    ensures Encode(hash, Uint(0)) == Some([0x20]) && Encode(hash, Uint(15)) == Some([0x2F])
    ensures Encode(hash, NegInt(1)) == Some([0x31]) && Encode(hash, NegInt(15)) == Some([0x3F])
    ensures Encode(hash, Uint(16)) == Some([0x40, 0x10]) && Encode(hash, NegInt(16)) == Some([0x50, 0x10])
    ensures Encode(hash, Uint(256)) == Some([0x41, 0x00, 0x01])
    ensures Encode(hash, NumericString(Uint(42))) == Some([0x80, 0x40, 0x2A])
  {
    hide MinimalLe;
    OneByteMinimal(16);
    OneByteMinimal(42);
    TwoBytesMinimal(256);
    assert [0x40] + [0x10] == [0x40, 0x10] && [0x50] + [0x10] == [0x50, 0x10];
    assert [0x41] + [0x00, 0x01] == [0x41, 0x00, 0x01] && [0x40] + [0x2A] == [0x40, 0x2A];
    assert [0x80] + [0x40, 0x2A] == [0x80, 0x40, 0x2A];
  }

  /** 15 * 10^-1, 12345 and 10^33. */
  lemma Decimals(hash: seq<byte> -> byte)
    ensures Encode(hash, Decimal(15, -1)) == Some([0x70, 0x1E, 0x01])
    ensures Encode(hash, Decimal(12345, 0)) == Some([0x71, 0x72, 0x60, 0x00])
    ensures Encode(hash, Decimal(1, 33)) == Some([0x70, 0x02, 0x42, 0x01])
  {
    hide MinimalLe, ZigzagEncode, VaruintEncode;
    ZigzagIs(15, TWO_128);
    ZigzagIs(12345, TWO_128);
    ZigzagIs(1, TWO_128);
    ZigzagIs(-1, U32_LIMIT);
    ZigzagIs(0, U32_LIMIT);
    ZigzagIs(33, U32_LIMIT);
    OneByteMinimal(30);
    OneByteMinimal(2);
    TwoBytesMinimal(24690);
    ShortVaruint(0);
    ShortVaruint(1);
    TwoByteVaruint(66);
    assert [0x70] + [0x1E] + [0x01] == [0x70, 0x1E, 0x01];
    assert [0x71] + [0x72, 0x60] + [0x00] == [0x71, 0x72, 0x60, 0x00];
    assert [0x70] + [0x02] + [0x42, 0x01] == [0x70, 0x02, 0x42, 0x01];
  }

  // ---------------------------------------------------------------- floats, strings and bytes

  lemma LeShift(n: nat, size: nat)
    ensures Le(256 * n, size + 1) == [0] + Le(n, size)
  {
    assert 256 * n / 256 == n;
  }

  /** 1 in the widths of 2 and 4 bytes, the infinities of 8 bytes, and a NaN. */
  lemma Floats(hash: seq<byte> -> byte)
    ensures Encode(hash, Float(1, 0x3C00)) == Some([0x61, 0x00, 0x3C])
    ensures Encode(hash, Float(2, 0x3F80_0000)) == Some([0x62, 0x00, 0x00, 0x80, 0x3F])
    ensures Encode(hash, Float(3, 0x7FF0_0000_0000_0000)) == Some([0x63] + ([0, 0, 0] + ([0, 0, 0] + [0xF0, 0x7F])))
    ensures Encode(hash, Float(3, 0xFFF0_0000_0000_0000)) == Some([0x63] + ([0, 0, 0] + ([0, 0, 0] + [0xF0, 0xFF])))
    ensures Encode(hash, Float(3, 0x7FF0_0000_0000_0001)) == Some([0x63] + ([0, 0, 0] + ([0, 0, 0] + [0xF8, 0x7F])))
  {
    hide Le;
    Le2(0x3C00);
    FloatBytes4();
    FloatBytes8(0x7FF0);
    FloatBytes8(0xFFF0);
    FloatBytes8(0x7FF8);
    assert [0x61] + [0x00, 0x3C] == [0x61, 0x00, 0x3C];
    assert [0x62] + [0x00, 0x00, 0x80, 0x3F] == [0x62, 0x00, 0x00, 0x80, 0x3F];
  }

  lemma FloatBytes4()
    ensures Le(0x3F80_0000, 4) == [0x00, 0x00, 0x80, 0x3F]
  {
    Le2(0x3F80);
    LeShift(0x3F80, 2);
    LeShift(0x3F_8000, 3);
  }

  lemma ThreeZeros(n: nat, size: nat)
    ensures Le(0x100_0000 * n, size + 3) == [0, 0, 0] + Le(n, size)
  {
    hide Le;
    LeShift(n, size);
    LeShift(256 * n, size + 1);
    LeShift(256 * (256 * n), size + 2);
    var rest := Le(n, size);
    assert [0] + ([0] + ([0] + rest)) == [0, 0, 0] + rest;
  }

  lemma FloatBytes8(n: nat)
    requires n < 0x1_0000
    ensures Le(0x1_0000_0000_0000 * n, 8) == [0, 0, 0] + ([0, 0, 0] + [n % 256, n / 256])
  {
    hide Le;
    Le2(n);
    ThreeZeros(n, 2);
    ThreeZeros(0x100_0000 * n, 5);
  }

  /** Text, byte strings in their four notations, an extension and a typed array of bytes. */
  lemma Strings(hash: seq<byte> -> byte, text: seq<byte>)
    ensures Encode(hash, Text(0, text)) == Some([0x90] + text) && Encode(hash, Text(1, text)) == Some([0x91] + text)
    ensures forall hint: nat :: Encode(hash, Bytes(hint, text)) == if hint <= 3 then Some([0xA0 + hint] + text) else None
    ensures Encode(hash, Extension(5, [1, 2, 3])) == Some([0xD5, 1, 2, 3])
    ensures Encode(hash, TypedArray(4, [0x00, 0x01, 0xFF])) == Some([0xB5, 0x00, 0x01, 0xFF, 0x03, 0x00])
  {
    assert [0xD5] + [1, 2, 3] == [0xD5, 1, 2, 3];
    assert [0xB5] + [0x00, 0x01, 0xFF] + [0x03, 0x00] == [0xB5, 0x00, 0x01, 0xFF, 0x03, 0x00];
  }

  // ---------------------------------------------------------------- containers

  lemma {:induction false} ConcatMore(pieces: seq<seq<byte>>, piece: seq<byte>)
    ensures Concat(pieces + [piece]) == Concat(pieces) + piece
  {
    assert (pieces + [piece])[..|pieces|] == pieces;
  }

  lemma TableMore(pieces: seq<seq<byte>>, piece: seq<byte>, w: nat)
    ensures OffsetTable(pieces + [piece], w) == OffsetTable(pieces, w) + Le(|Concat(pieces)|, w)
  {
    assert (pieces + [piece])[..|pieces|] == pieces;
  }

  lemma SizedMore(pieces: seq<seq<byte>>, sizes: seq<byte>, piece: seq<byte>, size: byte, w: nat)
    requires |pieces| == |sizes|
    ensures SizedOffsetTable(pieces + [piece], sizes + [size], w)
            == SizedOffsetTable(pieces, sizes, w) + Le(|Concat(pieces)|, w) + [size]
  {
    assert (pieces + [piece])[..|pieces|] == pieces && (sizes + [size])[..|sizes|] == sizes;
  }

  lemma HashesMore(hash: seq<byte> -> byte, keys: seq<seq<byte>>, key: seq<byte>)
    ensures KeyHashes(hash, keys + [key]) == KeyHashes(hash, keys) + [hash(key)]
  {
    assert (keys + [key])[..|keys|] == keys;
  }

  /** Two pieces a and b of at most 255 bytes together. */
  lemma TwoPieces(a: seq<byte>, b: seq<byte>)
    requires |a| + |b| <= 0xFF
    ensures Concat([a, b]) == a + b && OffsetTable([a, b], 1) == [0, |a|]
    ensures OffsetWidth(|a + b|) == Some(1) && Count16(2) == [2, 0]
  {
    var none: seq<seq<byte>> := [];
    ConcatMore(none, a);
    ConcatMore([a], b);
    TableMore(none, a, 1);
    TableMore([a], b, 1);
    Le2(0);
    Le2(|a|);
    assert none + [a] == [a] && [a] + [b] == [a, b];
    assert Concat(none) == [] && [] + a == a && OffsetTable(none, 1) == [] && [] + [0] == [0];
    assert [0] + [|a|] == [0, |a|];
  }

  lemma OneMoreCode(hash: seq<byte> -> byte, v: Value, rest: seq<Value>)
    requires Encode(hash, v).Some? && EncodeAll(hash, rest).Some?
    ensures EncodeAll(hash, [v] + rest) == Some([Encode(hash, v).value] + EncodeAll(hash, rest).value)
  {
    hide Encode;
    assert ([v] + rest)[1..] == rest;
  }

  lemma TwoCodes(hash: seq<byte> -> byte, v: Value, u: Value)
    requires Encode(hash, v).Some? && Encode(hash, u).Some?
    ensures EncodeAll(hash, [v, u]) == Some([Encode(hash, v).value, Encode(hash, u).value])
  {
    hide Encode;
    var none: seq<Value> := [];
    assert EncodeAll(hash, none) == Some([]);
    OneMoreCode(hash, u, none);
    OneMoreCode(hash, v, [u] + none);
    assert [v] + ([u] + none) == [v, u];
    var a, b, nothing: seq<seq<byte>> := Encode(hash, v).value, Encode(hash, u).value, [];
    assert [a] + ([b] + nothing) == [a, b];
  }

  /** The array [5, true]: tag and width, the values, where they start, and their number. */
  lemma AnArray(hash: seq<byte> -> byte)
    ensures Encode(hash, Array([Uint(5), Bool(true)])) == Some([0xB0, 0x00, 0x25, 0x11, 0x00, 0x01, 0x02, 0x00])
  {
    TwoCodes(hash, Uint(5), Bool(true));
    TwoPieces([0x25], [0x11]);
    assert [0xB0, 0x00] + ([0x25] + [0x11]) + [0x00, 0x01] + [0x02, 0x00] == [0xB0, 0x00, 0x25, 0x11, 0x00, 0x01, 0x02, 0x00];
  }

  /** The object {"x": 5, "y": true}: the entries, the hashes of the keys, where each entry starts with the
      length of its key, and their number. */
  lemma AnObject(hash: seq<byte> -> byte)
    ensures Encode(hash, Object([Entry([0x78], Uint(5)), Entry([0x79], Bool(true))]))
            == Some([0xC0, 0x00] + ([0x78, 0x25] + [0x79, 0x11]) + [hash([0x78]), hash([0x79])] + [0x00, 0x01, 0x02, 0x01]
                    + [0x02, 0x00])
  {
    var x, y := Entry([0x78], Uint(5)), Entry([0x79], Bool(true));
    TwoEntryCodes(hash, x, y);
    AnEntry(hash, [0x78], Uint(5), 0x25);
    AnEntry(hash, [0x79], Bool(true), 0x11);
    assert Keys([x, y]) == [[0x78], [0x79]] && KeySizeBytes([x, y]) == [1, 1];
    TwoEntries(hash, [x, y], [0x78, 0x25], [0x79, 0x11]);
  }

  lemma AnEntry(hash: seq<byte> -> byte, key: seq<byte>, v: Value, code: byte)
    requires |key| == 1 && Encode(hash, v) == Some([code])
    ensures EncodeEntry(hash, Entry(key, v)) == Some([key[0], code])
  {
    hide Encode;
    assert [] + key + [code] == [key[0], code];
  }

  lemma TwoEntries(hash: seq<byte> -> byte, entries: seq<Entry>, a: seq<byte>, b: seq<byte>)
    requires |entries| == 2 && |entries[0].key| == |entries[1].key| == 1 && |a| == |b| == 2
    requires EncodeEntries(hash, entries) == Some([a, b])
    ensures Encode(hash, Object(entries))
            == Some([0xC0, 0x00] + (a + b) + [hash(entries[0].key), hash(entries[1].key)] + [0x00, 0x01, 0x02, 0x01] + [0x02, 0x00])
  {
    hide EncodeEntries, Concat, SizedOffsetTable, KeyHashes;
    TwoPieces(a, b);
    TwoSized(a, b, 1, 1);
    TwoHashes(hash, entries[0].key, entries[1].key);
    assert Keys(entries) == [entries[0].key, entries[1].key] && KeySizeBytes(entries) == [1, 1];
  }

  lemma TwoHashes(hash: seq<byte> -> byte, k: seq<byte>, l: seq<byte>)
    ensures KeyHashes(hash, [k, l]) == [hash(k), hash(l)]
  {
    var none: seq<seq<byte>> := [];
    assert KeyHashes(hash, none) == [];
    HashesMore(hash, none, k);
    HashesMore(hash, none + [k], l);
    assert none + [k] + [l] == [k, l] && [] + [hash(k)] + [hash(l)] == [hash(k), hash(l)];
  }

  lemma TwoSized(a: seq<byte>, b: seq<byte>, x: byte, y: byte)
    requires |a| <= 0xFF
    ensures SizedOffsetTable([a, b], [x, y], 1) == [0, x, |a|, y]
  {
    var none: seq<seq<byte>>, nothing: seq<byte> := [], [];
    assert SizedOffsetTable(none, nothing, 1) == [] && Concat(none) == [];
    SizedMore(none, nothing, a, x, 1);
    SizedMore(none + [a], nothing + [x], b, y, 1);
    ConcatMore(none, a);
    Le2(0);
    Le2(|a|);
    assert none + [a] + [b] == [a, b] && nothing + [x] + [y] == [x, y];
    assert [] + [0] + [x] == [0, x] && [0, x] + [|a|] + [y] == [0, x, |a|, y];
  }

  lemma OneMoreEntry(hash: seq<byte> -> byte, e: Entry, rest: seq<Entry>)
    requires EncodeEntry(hash, e).Some? && EncodeEntries(hash, rest).Some?
    ensures EncodeEntries(hash, [e] + rest) == Some([EncodeEntry(hash, e).value] + EncodeEntries(hash, rest).value)
  {
    hide EncodeEntry;
    assert ([e] + rest)[1..] == rest;
  }

  lemma TwoEntryCodes(hash: seq<byte> -> byte, e: Entry, f: Entry)
    requires EncodeEntry(hash, e).Some? && EncodeEntry(hash, f).Some?
    ensures EncodeEntries(hash, [e, f]) == Some([EncodeEntry(hash, e).value, EncodeEntry(hash, f).value])
  {
    hide EncodeEntry;
    var none: seq<Entry> := [];
    assert EncodeEntries(hash, none) == Some([]);
    OneMoreEntry(hash, f, none);
    OneMoreEntry(hash, e, [f] + none);
    assert [e] + ([f] + none) == [e, f];
    var a, b, nothing: seq<seq<byte>> := EncodeEntry(hash, e).value, EncodeEntry(hash, f).value, [];
    assert [a] + ([b] + nothing) == [a, b];
  }

  /** The record {"x": 5, "y": true} as an array of rows: the slots of the keys, their hashes and themselves,
      the cells and where they start, where each record starts, and their number. */
  lemma ARowArray(hash: seq<byte> -> byte)
    ensures Encode(hash, RowArray([[0x78], [0x79]], [Row([Uint(5), Bool(true)])]))
            == Some([0xC1, 0x00] + [0x02] + [0x00, 0x00, 0x00, 0x01, 0x01, 0x00, 0x00, 0x01] + [hash([0x78]), hash([0x79])]
                    + ([0x78] + [0x79]) + [0x25, 0x11, 0x00, 0x01] + [0x00] + [0x01, 0x00])
  {
    hide Encode, EncodeAll, RowsOf, KeysFit;
    var keys, row := [[0x78], [0x79]], Row([Uint(5), Bool(true)]);
    RowCodes(hash, row);
    TwoKeysFit(keys);
    ARowCode(hash);
    RowArrayCode(hash, keys, row);
  }

  lemma RowCodes(hash: seq<byte> -> byte, row: Row)
    requires row == Row([Uint(5), Bool(true)])
    ensures EncodeRows(hash, [row]) == Some([[[0x25], [0x11]]])
  {
    TwoCodes(hash, Uint(5), Bool(true));
    var none: seq<Row> := [];
    assert [row][1..] == none && EncodeRows(hash, none) == Some([]);
    assert [[[0x25], [0x11]]] + [] == [[[0x25], [0x11]]];
  }

  lemma TwoKeysFit(keys: seq<seq<byte>>)
    requires keys == [[0x78], [0x79]]
    ensures KeysFit(keys)
  {
    TwoPieces([0x78], [0x79]);
    var none: seq<seq<byte>> := [];
    ConcatMore(none, [0x78]);
    assert keys[..0] == none && keys[..1] == none + [[0x78]];
  }

  lemma RowArrayCode(hash: seq<byte> -> byte, keys: seq<seq<byte>>, row: Row)
    requires |keys| == |row.cells| && KeysFit(keys) && EncodeRows(hash, [row]).Some?
    ensures Encode(hash, RowArray(keys, [row])) == RowsOf(hash, keys, EncodeRows(hash, [row]).value)
  {
    hide RowsOf, KeysFit, EncodeRows;
  }

  lemma SlotsMore(keys: seq<seq<byte>>, key: seq<byte>)
    requires |Concat(keys)| < 256 && |key| == 1
    ensures KeySlots(keys + [key]) == KeySlots(keys) + Le(|Concat(keys)| + 0x100_0000, 4)
  {
    hide Le, Concat;
    assert (keys + [key])[..|keys|] == keys;
  }

  lemma TwoSlots(k: seq<byte>, l: seq<byte>)
    requires |k| == 1 && |l| == 1
    ensures KeySlots([k, l]) == [0x00, 0x00, 0x00, 0x01, 0x01, 0x00, 0x00, 0x01]
  {
    var none: seq<seq<byte>> := [];
    NoSlots(none);
    hide KeySlots, Concat, Le;
    ConcatMore(none, k);
    SlotsMore(none, k);
    SlotsMore(none + [k], l);
    LeSlot(0);
    LeSlot(1);
    assert none + [k] + [l] == [k, l];
    var a: seq<byte>, b: seq<byte> := [0x00, 0x00, 0x00, 0x01], [0x01, 0x00, 0x00, 0x01];
    assert [] + a + b == [0x00, 0x00, 0x00, 0x01, 0x01, 0x00, 0x00, 0x01];
  }

  lemma NoSlots(none: seq<seq<byte>>)
    requires none == []
    ensures KeySlots(none) == [] && Concat(none) == []
  {
  }

  lemma LeSlot(start: nat)
    requires start < 256
    ensures Le(start + 0x100_0000, 4) == [start, 0x00, 0x00, 0x01]
  {
    Le2(1);
    LeShift(1, 1);
    LeShift(0x100, 2);
    assert Le(start + 0x100_0000, 4) == [start] + Le(0x1_0000, 3);
  }

  /** The only record: its two cells and where they start. */
  lemma OneRecord()
    ensures var rows := [[[0x25], [0x11]]];
            LargestRow(rows) == 2 && Records(rows, 1) == [[0x25, 0x11, 0x00, 0x01]]
  {
    TwoPieces([0x25], [0x11]);
    var rows: seq<seq<seq<byte>>> := [[[0x25], [0x11]]];
    assert [0x25] + [0x11] == [0x25, 0x11] && [0x25, 0x11] + [0x00, 0x01] == [0x25, 0x11, 0x00, 0x01];
    assert rows[..0] == [];
  }

  lemma OnePiece(a: seq<byte>)
    ensures Concat([a]) == a && OffsetTable([a], 1) == [0]
  {
    var none: seq<seq<byte>> := [];
    ConcatMore(none, a);
    TableMore(none, a, 1);
    Le2(0);
    assert none + [a] == [a] && [] + a == a && [] + [0] == [0];
  }

  lemma ARowCode(hash: seq<byte> -> byte)
    ensures RowsOf(hash, [[0x78], [0x79]], [[[0x25], [0x11]]])
            == Some([0xC1, 0x00] + [0x02] + [0x00, 0x00, 0x00, 0x01, 0x01, 0x00, 0x00, 0x01] + [hash([0x78]), hash([0x79])]
                    + ([0x78] + [0x79]) + [0x25, 0x11, 0x00, 0x01] + [0x00] + [0x01, 0x00])
  {
    OneRecord();
    OnePiece([0x25, 0x11, 0x00, 0x01]);
    TwoSlots([0x78], [0x79]);
    TwoHashes(hash, [0x78], [0x79]);
    TwoPieces([0x78], [0x79]);
    ShortVaruint(2);
    hide KeySlots, KeyHashes, Concat, OffsetTable, Records, LargestRow, VaruintEncode;
    assert Count16(1) == [0x01, 0x00];
  }

  // ---------------------------------------------------------------- limits

  /** Offsets take the least number of bytes for the size of the data, and no more than four. */
  lemma OffsetWidthIs(size: nat, w: nat)
    ensures OffsetWidth(size) == Some(w) <==> 1 <= w <= 4 && size < Pow256(w) && (w > 1 ==> size >= Pow256(w - 1))
    ensures OffsetWidth(size) == None <==> size >= Pow256(4)
  {
    SmallPowers();
    if w > 4 { assert OffsetWidth(size) != Some(w); }
  }

  lemma ArrayFits(pieces: seq<seq<byte>>)
    ensures ArrayOf(pieces).Some? <==> |Concat(pieces)| < 0x1_0000_0000
  {
    hide Concat, OffsetTable, Count16;
  }

  /** What is refused without containers: negative zero, widths of floats and kinds of strings that do not
      exist, scales of 2^29 and more, and a string around something that is no number or refused itself. */
  lemma LeafLimits(hash: seq<byte> -> byte, v: Value)
    requires InRange(v)
    ensures v.Uint? ==> Encode(hash, v).Some?
    ensures v.NegInt? ==> (Encode(hash, v).Some? <==> v.magnitude != 0)
    ensures v.Float? ==> (Encode(hash, v).Some? <==> 1 <= v.width <= 4)
    ensures v.Decimal? ==> (Encode(hash, v).Some? <==> -0x2000_0000 <= v.scale < 0x2000_0000)
    ensures v.Text? ==> (Encode(hash, v).Some? <==> v.flag <= 1)
    ensures v.Extension? ==> (Encode(hash, v).Some? <==> v.subtype <= 15)
    ensures v.NumericString? ==>
              (Encode(hash, v).Some? <==>
               (v.inner.Uint? || v.inner.NegInt? || v.inner.Float? || v.inner.Decimal?) && Encode(hash, v.inner).Some?)
  {
    hide MinimalLe, ZigzagEncode, VaruintEncode, EncodeAll, EncodeEntries, EncodeRows, ArrayOf, ObjectOf, RowsOf, Concat;
    match v
    case Uint(n) => MinimalFits(n);
    case NegInt(m) => MinimalFits(m);
    case Decimal(m, s) =>
      ZigzagIs(m, TWO_128);
      ZigzagIs(s, U32_LIMIT);
      MinimalFits(ZigzagEncode(m, TWO_128));
      VaruintRoundTrip(ZigzagEncode(s, U32_LIMIT), []);
    case _ =>
  }

  /** Arrays of more than 65535 elements and of 4 GiB of data are refused, and so are objects. */
  lemma ArrayLimits(hash: seq<byte> -> byte, children: seq<Value>)
    ensures Encode(hash, Array(children)).Some? <==>
            && |children| <= 65535 && EncodeAll(hash, children).Some?
            && |Concat(EncodeAll(hash, children).value)| < 0x1_0000_0000
  {
    hide EncodeAll, ArrayOf, Concat;
    if EncodeAll(hash, children).Some? { ArrayFits(EncodeAll(hash, children).value); }
  }

  lemma ObjectLimits(hash: seq<byte> -> byte, entries: seq<Entry>)
    ensures Encode(hash, Object(entries)).Some? <==>
            && |entries| <= 65535 && EncodeEntries(hash, entries).Some?
            && |Concat(EncodeEntries(hash, entries).value)| < 0x1_0000_0000
  {
    hide EncodeEntries, ObjectOf, Concat;
    if EncodeEntries(hash, entries).Some? { ObjectFits(hash, entries, EncodeEntries(hash, entries).value); }
  }

  /** In an array of rows every record has a cell for each key, and every key starts below 2^24 and has at
      most 255 bytes. */
  lemma RowLimits(hash: seq<byte> -> byte, keys: seq<seq<byte>>, rows: seq<Row>)
    ensures Encode(hash, RowArray(keys, rows)).Some? <==>
            && |rows| <= 65535 && (forall r :: r in rows ==> |r.cells| == |keys|)
            && (forall i :: 0 <= i < |keys| ==> |Concat(keys[..i])| < 0x100_0000 && |keys[i]| <= 255)
            && EncodeRows(hash, rows).Some? && RecordsFit(keys, EncodeRows(hash, rows).value)
  {
    hide EncodeRows, RowsOf, Concat, RecordsFit, KeysFit;
    KeysFitIs(keys);
    if EncodeRows(hash, rows).Some? { RowsFit(hash, keys, EncodeRows(hash, rows).value); }
  }

  lemma KeysFitIs(keys: seq<seq<byte>>)
    ensures KeysFit(keys) <==> forall i :: 0 <= i < |keys| ==> |Concat(keys[..i])| < 0x100_0000 && |keys[i]| <= 255
  {
    hide Concat;
    if forall i :: 0 <= i < |keys| ==> |Concat(keys[..i])| < 0x100_0000 && |keys[i]| <= 255 {
      forall i | 0 <= i < |keys| ensures KeyFits(keys, i) {
        assert |keys[i]| <= 255;
      }
    }
    if KeysFit(keys) {
      forall i | 0 <= i < |keys| ensures |Concat(keys[..i])| < 0x100_0000 && |keys[i]| <= 255 {
        assert KeyFits(keys, i);
      }
    }
  }

  /** The cells of every record, all records together and the number of keys are within their limits. */
  predicate RecordsFit(keys: seq<seq<byte>>, rows: seq<seq<seq<byte>>>) {
    && |keys| < 0x4000_0000
    && (forall i :: 0 <= i < |rows| ==> |Concat(rows[i])| < 0x1_0000_0000)
    && OffsetWidth(LargestRow(rows)).Some?
    && |Concat(Records(rows, OffsetWidth(LargestRow(rows)).value))| < 0x1_0000_0000
  }

  lemma {:induction false} LargestIs(rows: seq<seq<seq<byte>>>, bound: nat)
    ensures LargestRow(rows) <= bound <==> forall i :: 0 <= i < |rows| ==> |Concat(rows[i])| <= bound
  {
    hide Concat;
    if rows != [] {
      var n := |rows| - 1;
      LargestIs(rows[..n], bound);
      assert forall i :: 0 <= i < n ==> rows[..n][i] == rows[i];
    }
  }

  lemma ObjectFits(hash: seq<byte> -> byte, entries: seq<Entry>, pieces: seq<seq<byte>>)
    requires |entries| == |pieces|
    ensures ObjectOf(hash, entries, pieces).Some? <==> |Concat(pieces)| < 0x1_0000_0000
  {
    hide Concat, SizedOffsetTable, KeyHashes, Count16;
  }

  lemma RowsFit(hash: seq<byte> -> byte, keys: seq<seq<byte>>, rows: seq<seq<seq<byte>>>)
    ensures RowsOf(hash, keys, rows).Some? <==> RecordsFit(keys, rows)
  {
    hide Concat, OffsetTable, KeyHashes, KeySlots, Count16, LargestRow, Records, VaruintEncode;
    VaruintRoundTrip(|keys|, []);
    LargestIs(rows, 0xFFFF_FFFF);
  }
}
