/** Encoding as it runs, into growing vectors of bytes
    (cpp/conformance/pjson_conformance_driver.cpp, lines 527-541 and 922-1223). */
module PjsonWriter {
  import opened Base58Methods
  import opened ByteStrings
  import opened Wrappers
  import opened PjsonNumbers
  import opened Pjson
  import opened PjsonRoundTrip

  /** A vector of bytes. */
  class ByteVector {
    var bytes: seq<byte>

    constructor ()
      ensures bytes == []
    {
      bytes := [];
    }

    method Push(b: byte)
      modifies this
      ensures bytes == old(bytes) + [b]
    {
      bytes := bytes + [b];
    }

    method Append(s: seq<byte>)
      modifies this
      ensures bytes == old(bytes) + s
    {
      bytes := bytes + s;
    }
  }

  // ---------------------------------------------------------------- numbers

  /** Sixteen bytes, then without the zeros at the end. */
  method MinimalBytes(n: nat) returns (s: seq<byte>)
    requires n < TWO_128
    ensures s == MinimalLe(n)
  {
    Pow256Of16();
    UnleLe(n, 16);
    s := Le(n, 16);
    while s != [] && s[|s| - 1] == 0
      invariant Unle(s) == n
    {
      assert s == s[..|s| - 1] + [0];
      UnleSnoc(s[..|s| - 1], 0);
      s := s[..|s| - 1];
    }
    TrimmedIsMinimal(s);
  }

  lemma {:induction false} LeSnoc(n: nat, k: nat)
    ensures Le(n, k + 1) == Le(n, k) + [n / Pow256(k) % 256]
    decreases k
  {
    if k == 0 {
      assert Le(n / 256, 0) == [];
    } else {
      LeSnoc(n / 256, k - 1);
      DivByBytes(n, Pow256(k - 1));
    }
  }

  lemma DivByBytes(n: nat, p: nat)
    requires p >= 1
    ensures n / 256 / p == n / (256 * p)
  {
    Powers.DivDiv(n, 256, p);
  }

  /** The low w bytes of a number, one by one. */
  method PushLe(n: nat, w: nat, out: ByteVector)
    modifies out
    ensures out.bytes == old(out.bytes) + Le(n, w)
  {
    var b: nat := 0;
    while b < w
      invariant b <= w && out.bytes == old(out.bytes) + Le(n, b)
    {
      LeSnoc(n, b);
      out.Push(n / Pow256(b) % 256);
      b := b + 1;
    }
  }

  /** A step of the encoder: it throws exactly if there is no code, or it appends the code. */
  predicate Wrote(before: seq<byte>, after: seq<byte>, ok: bool, code: Option<seq<byte>>) {
    ok == code.Some? && (ok ==> after == before + code.value)
  }

  method PushVaruint(v: nat, out: ByteVector) returns (ok: bool)
    modifies out
    ensures Wrote(old(out.bytes), out.bytes, ok, VaruintEncode(v))
  {
    var total := VaruintSize(v);
    if total == 0 {
      return false;
    }
    out.Push((total - 1) * 64 + v % 64);
    var shifted: nat := v / 64;
    ghost var head := out.bytes;
    var i: nat := 1;
    while i < total
      invariant 1 <= i <= total
      invariant head + Le(v / 64, total - 1) == out.bytes + Le(shifted, total - i)
    {
      ghost var rest := Le(shifted / 256, total - i - 1);
      assert Le(shifted, total - i) == [shifted % 256] + rest;
      assert out.bytes + ([shifted % 256] + rest) == out.bytes + [shifted % 256] + rest;
      out.Push(shifted % 256);
      shifted := shifted / 256;
      i := i + 1;
    }
    assert Le(shifted, total - i) == [];
    assert head + Le(v / 64, total - 1) == old(out.bytes) + ([(total - 1) * 64 + v % 64] + Le(v / 64, total - 1));
    return true;
  }

  method PushCount(n: nat, out: ByteVector)
    modifies out
    ensures out.bytes == old(out.bytes) + Count16(n)
  {
    out.Push(n % 256);
    out.Push(n / 256 % 256);
  }

  // ---------------------------------------------------------------- leaves

  method PushMagnitude(inlineTag: nat, tag: nat, n: nat, out: ByteVector) returns (ok: bool)
    requires inlineTag <= 15 && tag <= 15 && n < TWO_128
    modifies out
    ensures Wrote(old(out.bytes), out.bytes, ok, EncodeMagnitude(inlineTag, tag, n))
  {
    hide MinimalLe;
    if n <= 15 {
      out.Push(inlineTag * 16 + n);
    } else {
      MinimalFits(n);
      var bytes := MinimalBytes(n);
      out.Push(tag * 16 + (|bytes| - 1));
      out.Append(bytes);
    }
    return true;
  }

  method PushFloat(w: nat, bits: nat, out: ByteVector) returns (ok: bool)
    modifies out
    ensures Wrote(old(out.bytes), out.bytes, ok, EncodeFloat(w, bits))
  {
    hide CanonicalNaN;
    if w < 1 || w > 4 {
      return false;
    }
    out.Push(0x60 + w);
    PushLe(CanonicalNaN(w, bits), FloatBytes(w), out);
    return true;
  }

  method PushDecimal(m: int, s: int, out: ByteVector) returns (ok: bool)
    requires -TWO_127 <= m < TWO_127
    modifies out
    ensures Wrote(old(out.bytes), out.bytes, ok, EncodeDecimal(m, s))
  {
    hide MinimalLe, VaruintEncode, ZigzagEncode;
    ZigzagIs(m, TWO_128);
    var bytes := MinimalBytes(ZigzagEncode(m, TWO_128));
    if |bytes| == 0 {
      bytes := [0];
    }
    if |bytes| > 16 {
      return false;
    }
    out.Push(7 * 16 + (|bytes| - 1));
    out.Append(bytes);
    ok := PushVaruint(ZigzagEncode(s, U32_LIMIT), out);
  }

  method PushTypedArray(code: nat, raw: seq<byte>, out: ByteVector) returns (ok: bool)
    modifies out
    ensures Wrote(old(out.bytes), out.bytes, ok, EncodeTypedArray(code, raw))
  {
    var size := ElementSize(code);
    if size == 0 || |raw| % size != 0 {
      return false;
    }
    var n := |raw| / size;
    if n > 0xFFFF {
      return false;
    }
    out.Push(0xB0 + (code + 1));
    out.Append(raw);
    PushCount(n, out);
    return true;
  }

  // ---------------------------------------------------------------- tables

  lemma {:induction false} AllEncoded(hash: seq<byte> -> byte, vs: seq<Value>, pieces: seq<seq<byte>>)
    requires |pieces| == |vs| && forall j :: 0 <= j < |vs| ==> Encode(hash, vs[j]) == Some(pieces[j])
    ensures EncodeAll(hash, vs) == Some(pieces)
    decreases |vs|
  {
    hide Encode;
    if vs != [] {
      AllEncoded(hash, vs[1..], pieces[1..]);
      assert pieces == [pieces[0]] + pieces[1..];
    }
  }

  lemma {:induction false} EntriesEncoded(hash: seq<byte> -> byte, es: seq<Entry>, pieces: seq<seq<byte>>)
    requires |pieces| == |es| && forall j :: 0 <= j < |es| ==> EncodeEntry(hash, es[j]) == Some(pieces[j])
    ensures EncodeEntries(hash, es) == Some(pieces)
    decreases |es|
  {
    hide EncodeEntry;
    if es != [] {
      EntriesEncoded(hash, es[1..], pieces[1..]);
      assert pieces == [pieces[0]] + pieces[1..];
    }
  }

  lemma {:induction false} RowsEncoded(hash: seq<byte> -> byte, rows: seq<Row>, pieces: seq<seq<seq<byte>>>)
    requires |pieces| == |rows| && forall j :: 0 <= j < |rows| ==> EncodeAll(hash, rows[j].cells) == Some(pieces[j])
    ensures EncodeRows(hash, rows) == Some(pieces)
    decreases |rows|
  {
    hide EncodeAll;
    if rows != [] {
      RowsEncoded(hash, rows[1..], pieces[1..]);
      assert pieces == [pieces[0]] + pieces[1..];
    }
  }

  /** One more piece: the data and the starts grow. */
  lemma PiecesSnoc(pieces: seq<seq<byte>>, piece: seq<byte>)
    ensures Concat(pieces + [piece]) == Concat(pieces) + piece
    ensures Starts(pieces + [piece]) == Starts(pieces) + [|Concat(pieces)|]
  {
    assert (pieces + [piece])[..|pieces|] == pieces;
  }

  lemma TableSnoc(pieces: seq<seq<byte>>, w: nat, i: nat)
    requires i < |pieces|
    ensures OffsetTable(pieces[..i + 1], w) == OffsetTable(pieces[..i], w) + Le(Starts(pieces)[i], w)
  {
    hide Concat, Le, Starts;
    StartAt(pieces, i);
    assert pieces[..i + 1][..i] == pieces[..i];
  }

  lemma NothingYet(pieces: seq<seq<byte>>, w: nat)
    ensures OffsetTable(pieces[..0], w) == []
  {
  }

  method PushOffsets(offsets: seq<nat>, w: nat, ghost pieces: seq<seq<byte>>, out: ByteVector)
    requires offsets == Starts(pieces)
    modifies out
    ensures out.bytes == old(out.bytes) + OffsetTable(pieces, w)
  {
    hide OffsetTable, Starts, Le;
    var i: nat := 0;
    NothingYet(pieces, w);
    while i < |offsets|
      invariant i <= |offsets| && out.bytes == old(out.bytes) + OffsetTable(pieces[..i], w)
    {
      TableSnoc(pieces, w, i);
      PushLe(offsets[i], w, out);
      i := i + 1;
    }
    assert pieces[..i] == pieces;
  }

  lemma SizedTableSnoc(pieces: seq<seq<byte>>, sizes: seq<byte>, w: nat, i: nat)
    requires i < |pieces| == |sizes|
    ensures SizedOffsetTable(pieces[..i + 1], sizes[..i + 1], w)
            == SizedOffsetTable(pieces[..i], sizes[..i], w) + Le(Starts(pieces)[i], w) + [sizes[i]]
  {
    hide Concat, Le, Starts;
    StartAt(pieces, i);
    assert pieces[..i + 1][..i] == pieces[..i] && sizes[..i + 1][..i] == sizes[..i];
  }

  lemma NothingSized(pieces: seq<seq<byte>>, sizes: seq<byte>, w: nat)
    requires |pieces| == |sizes|
    ensures SizedOffsetTable(pieces[..0], sizes[..0], w) == []
  {
  }

  method PushSizedOffsets(offsets: seq<nat>, sizes: seq<byte>, w: nat, ghost pieces: seq<seq<byte>>, out: ByteVector)
    requires offsets == Starts(pieces) && |sizes| == |offsets|
    modifies out
    ensures out.bytes == old(out.bytes) + SizedOffsetTable(pieces, sizes, w)
  {
    hide SizedOffsetTable, Starts, Le;
    var i: nat := 0;
    NothingSized(pieces, sizes, w);
    while i < |offsets|
      invariant i <= |offsets| && out.bytes == old(out.bytes) + SizedOffsetTable(pieces[..i], sizes[..i], w)
    {
      SizedTableSnoc(pieces, sizes, w, i);
      PushLe(offsets[i], w, out);
      out.Push(sizes[i]);
      i := i + 1;
    }
    assert pieces[..i] == pieces && sizes[..i] == sizes;
  }

  lemma HashesSnoc(hash: seq<byte> -> byte, keys: seq<seq<byte>>, i: nat)
    requires i < |keys|
    ensures KeyHashes(hash, keys[..i + 1]) == KeyHashes(hash, keys[..i]) + [hash(keys[i])]
  {
    assert keys[..i + 1][..i] == keys[..i];
  }

  method PushHashes(hash: seq<byte> -> byte, keys: seq<seq<byte>>, out: ByteVector)
    modifies out
    ensures out.bytes == old(out.bytes) + KeyHashes(hash, keys)
  {
    hide KeyHashes;
    var i: nat := 0;
    NoHashes(hash, keys);
    while i < |keys|
      invariant i <= |keys| && out.bytes == old(out.bytes) + KeyHashes(hash, keys[..i])
    {
      HashesSnoc(hash, keys, i);
      out.Push(hash(keys[i]));
      i := i + 1;
    }
    assert keys[..i] == keys;
  }

  lemma NoHashes(hash: seq<byte> -> byte, keys: seq<seq<byte>>)
    ensures KeyHashes(hash, keys[..0]) == []
  {
  }

  // ---------------------------------------------------------------- values and containers

  method EncodeInto(hash: seq<byte> -> byte, v: Value, out: ByteVector) returns (ok: bool)
    requires InRange(v)
    modifies out
    ensures Wrote(old(out.bytes), out.bytes, ok, Encode(hash, v))
    decreases v, 1
  {
    hide Wrote, EncodeMagnitude, EncodeFloat, EncodeDecimal, EncodeTypedArray, EncodeAll, EncodeEntries, EncodeRows, ArrayOf,
         ObjectOf, RowsOf, KeysFit;
    match v
    case Null => out.Push(0x00); ok := true; Pushed(old(out.bytes), [0x00]);
    case Bool(b) => out.Push(if b then 0x11 else 0x10); ok := true; Pushed(old(out.bytes), [if b then 0x11 else 0x10]);
    case Uint(n) => ok := PushMagnitude(2, 4, n, out);
    case NegInt(m) =>
      if m == 0 {
        ok := false;
        Threw(old(out.bytes), out.bytes);
      } else {
        ok := PushMagnitude(3, 5, m, out);
      }
    case Float(w, bits) => ok := PushFloat(w, bits, out);
    case Decimal(m, s) => ok := PushDecimal(m, s, out);
    case TypedArray(code, raw) => ok := PushTypedArray(code, raw, out);
    case Text(flag, text) => ok := PushTagged(0x90, 1, flag, text, out);
    case Bytes(hint, content) => ok := PushTagged(0xA0, 3, hint, content, out);
    case Extension(subtype, body) => ok := PushTagged(0xD0, 15, subtype, body, out);
    case NumericString(inner) => ok := PushNumericString(hash, inner, out);
    case Array(children) => ok := PushArray(hash, children, out);
    case Object(entries) => ok := PushObject(hash, entries, out);
    case RowArray(keys, rows) => ok := PushRowArray(hash, keys, rows, out);
  }

  lemma Pushed(before: seq<byte>, code: seq<byte>)
    ensures Wrote(before, before + code, true, Some(code))
  {
  }

  lemma Threw(before: seq<byte>, after: seq<byte>)
    ensures Wrote(before, after, false, None)
  {
  }

  method PushTagged(tag: nat, limit: nat, low: nat, body: seq<byte>, out: ByteVector) returns (ok: bool)
    requires limit <= 15 && tag <= 0xF0
    modifies out
    ensures Wrote(old(out.bytes), out.bytes, ok, if low > limit then None else Some([tag + low] + body))
  {
    if low > limit {
      return false;
    }
    out.Push(tag + low);
    out.Append(body);
    return true;
  }

  method PushNumericString(hash: seq<byte> -> byte, inner: Value, out: ByteVector) returns (ok: bool)
    requires InRange(inner)
    modifies out
    ensures Wrote(old(out.bytes), out.bytes, ok, Encode(hash, NumericString(inner)))
    decreases inner, 2
  {
    hide Encode;
    NumericStringCode(hash, inner);
    if !(inner.Uint? || inner.NegInt? || inner.Float? || inner.Decimal?) {
      return false;
    }
    out.Push(0x80);
    ok := EncodeInto(hash, inner, out);
  }

  lemma NumericStringCode(hash: seq<byte> -> byte, inner: Value)
    ensures Encode(hash, NumericString(inner))
            == if !IsNumeric(inner) || Encode(hash, inner) == None then None else Some([0x80] + Encode(hash, inner).value)
  {
  }

  /** The values one after the other, and where each starts. */
  method PushAll(hash: seq<byte> -> byte, vs: seq<Value>, data: ByteVector)
    returns (ok: bool, offsets: seq<nat>, ghost pieces: seq<seq<byte>>)
    requires data.bytes == [] && forall v :: v in vs ==> InRange(v)
    modifies data
    ensures ok <==> EncodeAll(hash, vs).Some?
    ensures ok ==> EncodeAll(hash, vs) == Some(pieces) && data.bytes == Concat(pieces) && offsets == Starts(pieces)
    decreases vs, 0
  {
    hide Encode, EncodeAll, Concat, Starts, InRange;
    pieces, offsets := [], [];
    NoPieces(pieces);
    var i: nat := 0;
    while i < |vs|
      invariant i <= |vs| && |pieces| == i && data.bytes == Concat(pieces) && offsets == Starts(pieces)
      invariant forall j :: 0 <= j < i ==> Encode(hash, vs[j]) == Some(pieces[j])
    {
      offsets := offsets + [|data.bytes|];
      var wrote := EncodeInto(hash, vs[i], data);
      if !wrote {
        if EncodeAll(hash, vs).Some? { EncodedAt(hash, vs, EncodeAll(hash, vs).value, i); }
        return false, offsets, pieces;
      }
      PiecesSnoc(pieces, Encode(hash, vs[i]).value);
      pieces := pieces + [Encode(hash, vs[i]).value];
      i := i + 1;
    }
    AllEncoded(hash, vs, pieces);
    ok := true;
  }

  lemma NoPieces(none: seq<seq<byte>>)
    requires none == []
    ensures Concat(none) == [] && Starts(none) == []
  {
  }

  method PushArray(hash: seq<byte> -> byte, children: seq<Value>, out: ByteVector) returns (ok: bool)
    requires forall c :: c in children ==> InRange(c)
    modifies out
    ensures Wrote(old(out.bytes), out.bytes, ok, Encode(hash, Array(children)))
    decreases children, 1
  {
    hide Encode, EncodeAll, Concat, Starts, OffsetTable, Count16, ArrayOf, InRange;
    ArrayCode(hash, children);
    if |children| > 0xFFFF {
      return false;
    }
    var valueData := new ByteVector();
    var all, offsets, pieces := PushAll(hash, children, valueData);
    if !all {
      return false;
    }
    ArrayOfIs(pieces);
    var slotW := OffsetWidth(|valueData.bytes|);
    if slotW == None {
      return false;
    }
    out.Push(0xB0);
    out.Push(slotW.value - 1);
    out.Append(valueData.bytes);
    PushOffsets(offsets, slotW.value, pieces, out);
    PushCount(|children|, out);
    return true;
  }

  lemma ArrayCode(hash: seq<byte> -> byte, children: seq<Value>)
    ensures Encode(hash, Array(children))
            == if |children| > 0xFFFF || EncodeAll(hash, children) == None then None else ArrayOf(EncodeAll(hash, children).value)
  {
    hide ArrayOf, EncodeEntries, EncodeAll, EncodeRows;
  }

  lemma ArrayOfIs(pieces: seq<seq<byte>>)
    ensures ArrayOf(pieces)
            == match OffsetWidth(|Concat(pieces)|)
               case None => None
               case Some(w) => Some([0xB0, w - 1] + Concat(pieces) + OffsetTable(pieces, w) + Count16(|pieces|))
  {
    hide Concat, OffsetTable, Count16;
  }

  /** A key with what stands before it, and its value; the size byte goes to the slot. */
  method PushEntry(hash: seq<byte> -> byte, e: Entry, data: ByteVector) returns (ok: bool, size: byte)
    requires InRange(e.value)
    modifies data
    ensures Wrote(old(data.bytes), data.bytes, ok, EncodeEntry(hash, e))
    ensures ok ==> size == KeySizeByte(e.key)
    decreases e, 0
  {
    hide Encode, VaruintEncode;
    ghost var before := data.bytes;
    if |e.key| < 0xFF {
      size := |e.key|;
    } else {
      size := 0xFF;
      ok := PushVaruint(|e.key| - 0xFF, data);
      if !ok {
        return;
      }
    }
    data.Append(e.key);
    assert data.bytes == before + KeyPrefix(e.key).value + e.key;
    ok := EncodeInto(hash, e.value, data);
  }

  method PushEntries(hash: seq<byte> -> byte, es: seq<Entry>, data: ByteVector)
    returns (ok: bool, offsets: seq<nat>, sizes: seq<byte>, ghost pieces: seq<seq<byte>>)
    requires data.bytes == [] && forall e :: e in es ==> InRange(e.value)
    modifies data
    ensures ok <==> EncodeEntries(hash, es).Some?
    ensures ok ==> EncodeEntries(hash, es) == Some(pieces) && data.bytes == Concat(pieces)
    ensures ok ==> offsets == Starts(pieces) && sizes == KeySizeBytes(es)
    decreases es, 0
  {
    hide EncodeEntry, EncodeEntries, Concat, Starts, InRange, KeySizeByte;
    pieces, offsets, sizes := [], [], [];
    NoPieces(pieces);
    var i: nat := 0;
    while i < |es|
      invariant i <= |es| && |pieces| == |sizes| == i && data.bytes == Concat(pieces) && offsets == Starts(pieces)
      invariant forall j :: 0 <= j < i ==> EncodeEntry(hash, es[j]) == Some(pieces[j])
      invariant forall j :: 0 <= j < i ==> sizes[j] == KeySizeByte(es[j].key)
    {
      offsets := offsets + [|data.bytes|];
      var wrote, size := PushEntry(hash, es[i], data);
      if !wrote {
        if EncodeEntries(hash, es).Some? { EntryEncodedAt(hash, es, EncodeEntries(hash, es).value, i); }
        return false, offsets, sizes, pieces;
      }
      PiecesSnoc(pieces, EncodeEntry(hash, es[i]).value);
      pieces := pieces + [EncodeEntry(hash, es[i]).value];
      sizes := sizes + [size];
      i := i + 1;
    }
    EntriesEncoded(hash, es, pieces);
    ok := true;
  }

  method PushObject(hash: seq<byte> -> byte, entries: seq<Entry>, out: ByteVector) returns (ok: bool)
    requires forall e :: e in entries ==> InRange(e.value)
    modifies out
    ensures Wrote(old(out.bytes), out.bytes, ok, Encode(hash, Object(entries)))
    decreases entries, 1
  {
    hide Encode, EncodeEntries, Concat, Starts, SizedOffsetTable, Count16, ObjectOf, InRange, KeyHashes, KeySizeBytes, Keys;
    ObjectCode(hash, entries);
    if |entries| > 0xFFFF {
      return false;
    }
    var valueData := new ByteVector();
    var all, offsets, sizes, pieces := PushEntries(hash, entries, valueData);
    if !all {
      return false;
    }
    ObjectOfIs(hash, entries, pieces);
    var slotW := OffsetWidth(|valueData.bytes|);
    if slotW == None {
      return false;
    }
    out.Push(0xC0);
    out.Push(slotW.value - 1);
    out.Append(valueData.bytes);
    PushHashes(hash, Keys(entries), out);
    PushSizedOffsets(offsets, sizes, slotW.value, pieces, out);
    PushCount(|entries|, out);
    SixParts(old(out.bytes), slotW.value - 1, valueData.bytes, KeyHashes(hash, Keys(entries)),
             SizedOffsetTable(pieces, KeySizeBytes(entries), slotW.value), Count16(|entries|));
    return true;
  }

  lemma SixParts(before: seq<byte>, w: byte, data: seq<byte>, hashes: seq<byte>, table: seq<byte>, count: seq<byte>)
    ensures before + [0xC0] + [w] + data + hashes + table + count == before + ([0xC0, w] + data + hashes + table + count)
  {
  }

  lemma ObjectCode(hash: seq<byte> -> byte, entries: seq<Entry>)
    ensures Encode(hash, Object(entries))
            == if |entries| > 0xFFFF || EncodeEntries(hash, entries) == None then None
               else ObjectOf(hash, entries, EncodeEntries(hash, entries).value)
  {
    hide ObjectOf, EncodeEntries, EncodeAll, EncodeRows;
  }

  lemma ObjectOfIs(hash: seq<byte> -> byte, entries: seq<Entry>, pieces: seq<seq<byte>>)
    requires |pieces| == |entries|
    ensures ObjectOf(hash, entries, pieces)
            == match OffsetWidth(|Concat(pieces)|)
               case None => None
               case Some(w) => Some([0xC0, w - 1] + Concat(pieces) + KeyHashes(hash, Keys(entries))
                                    + SizedOffsetTable(pieces, KeySizeBytes(entries), w) + Count16(|entries|))
  {
    hide Concat, SizedOffsetTable, Count16, KeyHashes, Keys, KeySizeBytes;
  }

  // ---------------------------------------------------------------- row arrays

  /** The slot of a shared key. */
  function KeySlot(keys: seq<seq<byte>>, i: nat): nat
    requires i < |keys|
  {
    |Concat(keys[..i])| % 0x100_0000 + |keys[i]| % 256 * 0x100_0000
  }

  method ShareKeys(keys: seq<seq<byte>>) returns (ok: bool, area: seq<byte>, slots: seq<nat>)
    ensures ok <==> KeysFit(keys)
    ensures ok ==> area == Concat(keys) && |slots| == |keys| && forall i :: 0 <= i < |keys| ==> slots[i] == KeySlot(keys, i)
  {
    hide Concat, KeySlot;
    area, slots := [], [];
    NoPieces(keys[..0]);
    var i: nat := 0;
    while i < |keys|
      invariant i <= |keys| && |slots| == i && area == Concat(keys[..i])
      invariant forall j :: 0 <= j < i ==> KeyFits(keys, j) && slots[j] == KeySlot(keys, j)
    {
      if |area| > 0xFF_FFFF || |keys[i]| > 0xFF {
        assert !KeyFits(keys, i);
        return false, area, slots;
      }
      KeySlotIs(keys, i);
      slots := slots + [|keys[i]| * 0x100_0000 + |area| % 0x100_0000];
      ConcatNext(keys, i);
      area := area + keys[i];
      i := i + 1;
    }
    assert keys[..i] == keys;
    ok := true;
  }

  lemma KeySlotIs(keys: seq<seq<byte>>, i: nat)
    requires i < |keys| && |keys[i]| <= 0xFF
    ensures KeySlot(keys, i) == |keys[i]| * 0x100_0000 + |Concat(keys[..i])| % 0x100_0000
  {
    hide Concat;
  }

  lemma SlotsSnoc(keys: seq<seq<byte>>, i: nat)
    requires i < |keys|
    ensures KeySlots(keys[..i + 1]) == KeySlots(keys[..i]) + Le(KeySlot(keys, i), 4)
  {
    hide Concat, Le, KeySlots;
    KeysNext(keys, i + 1);
  }

  lemma NoSlots(keys: seq<seq<byte>>)
    ensures KeySlots(keys[..0]) == []
  {
  }

  method PushKeySlots(slots: seq<nat>, ghost keys: seq<seq<byte>>, out: ByteVector)
    requires |slots| == |keys| && forall i :: 0 <= i < |keys| ==> slots[i] == KeySlot(keys, i)
    modifies out
    ensures out.bytes == old(out.bytes) + KeySlots(keys)
  {
    hide KeySlot, KeySlots, Le;
    var i: nat := 0;
    NoSlots(keys);
    while i < |slots|
      invariant i <= |slots| && out.bytes == old(out.bytes) + KeySlots(keys[..i])
    {
      SlotsSnoc(keys, i);
      PushLe(slots[i], 4, out);
      i := i + 1;
    }
    assert keys[..i] == keys;
  }

  /** The cells of every record, in a vector each. */
  method PushRows(hash: seq<byte> -> byte, rows: seq<Row>)
    returns (ok: bool, data: seq<seq<byte>>, offsets: seq<seq<nat>>, ghost pieces: seq<seq<seq<byte>>>)
    requires forall r :: r in rows ==> forall c :: c in r.cells ==> InRange(c)
    ensures ok <==> EncodeRows(hash, rows).Some?
    ensures ok ==> EncodeRows(hash, rows) == Some(pieces) && |data| == |offsets| == |pieces|
    ensures ok ==> forall i :: 0 <= i < |pieces| ==> data[i] == Concat(pieces[i]) && offsets[i] == Starts(pieces[i])
    decreases rows, 0
  {
    hide Encode, EncodeAll, EncodeRows, Concat, Starts, InRange;
    data, offsets, pieces := [], [], [];
    var i: nat := 0;
    while i < |rows|
      invariant i <= |rows| && |pieces| == |data| == |offsets| == i
      invariant forall j :: 0 <= j < i ==> EncodeAll(hash, rows[j].cells) == Some(pieces[j])
      invariant forall j :: 0 <= j < i ==> data[j] == Concat(pieces[j]) && offsets[j] == Starts(pieces[j])
    {
      var valueData := new ByteVector();
      var all, starts, row := PushAll(hash, rows[i].cells, valueData);
      if !all {
        if EncodeRows(hash, rows).Some? { RowEncodedAt(hash, rows, EncodeRows(hash, rows).value, i); }
        return false, data, offsets, pieces;
      }
      data, offsets, pieces := data + [valueData.bytes], offsets + [starts], pieces + [row];
      i := i + 1;
    }
    RowsEncoded(hash, rows, pieces);
    ok := true;
  }

  lemma LargestSnoc(pieces: seq<seq<seq<byte>>>, i: nat)
    requires i < |pieces|
    ensures LargestRow(pieces[..i + 1])
            == if |Concat(pieces[i])| > LargestRow(pieces[..i]) then |Concat(pieces[i])| else LargestRow(pieces[..i])
  {
    hide Concat;
    assert pieces[..i + 1][..i] == pieces[..i];
  }

  method LargestSize(data: seq<seq<byte>>, ghost pieces: seq<seq<seq<byte>>>) returns (max: nat)
    requires |data| == |pieces| && forall i :: 0 <= i < |pieces| ==> data[i] == Concat(pieces[i])
    ensures max == LargestRow(pieces)
  {
    hide Concat;
    max := 0;
    var i: nat := 0;
    while i < |data|
      invariant i <= |data| && max == LargestRow(pieces[..i])
    {
      LargestSnoc(pieces, i);
      if |data[i]| > max {
        max := |data[i]|;
      }
      i := i + 1;
    }
    assert pieces[..i] == pieces;
  }

  lemma RecordsSnoc(pieces: seq<seq<seq<byte>>>, w: nat, i: nat)
    requires i < |pieces|
    ensures Records(pieces[..i + 1], w) == Records(pieces[..i], w) + [Concat(pieces[i]) + OffsetTable(pieces[i], w)]
  {
    hide Concat, OffsetTable;
  }

  /** The records one after the other, and where each starts. */
  method ComposeRecords(data: seq<seq<byte>>, offsets: seq<seq<nat>>, w: nat, ghost pieces: seq<seq<seq<byte>>>)
    returns (body: ByteVector, starts: seq<nat>)
    requires |data| == |offsets| == |pieces|
    requires forall i :: 0 <= i < |pieces| ==> data[i] == Concat(pieces[i]) && offsets[i] == Starts(pieces[i])
    ensures fresh(body) && body.bytes == Concat(Records(pieces, w)) && starts == Starts(Records(pieces, w))
  {
    hide Concat, Starts, OffsetTable, Records;
    body := new ByteVector();
    starts := [];
    NoRecords(pieces, w);
    var i: nat := 0;
    while i < |data|
      invariant i <= |data| && body.bytes == Concat(Records(pieces[..i], w)) && starts == Starts(Records(pieces[..i], w))
    {
      RecordsSnoc(pieces, w, i);
      PiecesSnoc(Records(pieces[..i], w), Concat(pieces[i]) + OffsetTable(pieces[i], w));
      starts := starts + [|body.bytes|];
      body.Append(data[i]);
      PushOffsets(offsets[i], w, pieces[i], body);
      i := i + 1;
    }
    assert pieces[..i] == pieces;
  }

  lemma NoRecords(pieces: seq<seq<seq<byte>>>, w: nat)
    ensures Concat(Records(pieces[..0], w)) == [] && Starts(Records(pieces[..0], w)) == []
  {
  }

  method PushRowArray(hash: seq<byte> -> byte, keys: seq<seq<byte>>, rows: seq<Row>, out: ByteVector) returns (ok: bool)
    requires forall r :: r in rows ==> forall c :: c in r.cells ==> InRange(c)
    modifies out
    ensures Wrote(old(out.bytes), out.bytes, ok, Encode(hash, RowArray(keys, rows)))
    decreases rows, 1
  {
    hide *;
    RowArrayCode(hash, keys, rows);
    if |rows| > 0xFFFF {
      Threw(old(out.bytes), out.bytes);
      return false;
    }
    var i: nat := 0;
    while i < |rows|
      invariant i <= |rows| && out.bytes == old(out.bytes)
      invariant forall j :: 0 <= j < i ==> |rows[j].cells| == |keys|
    {
      if |rows[i].cells| != |keys| {
        Threw(old(out.bytes), out.bytes);
        return false;
      }
      i := i + 1;
    }
    var fit, area, slots := ShareKeys(keys);
    if !fit {
      Threw(old(out.bytes), out.bytes);
      return false;
    }
    var all, data, offsets, pieces := PushRows(hash, rows);
    if !all {
      Threw(old(out.bytes), out.bytes);
      return false;
    }
    ok := PushRecords(hash, keys, area, slots, data, offsets, pieces, out);
  }

  lemma RowArrayCode(hash: seq<byte> -> byte, keys: seq<seq<byte>>, rows: seq<Row>)
    ensures Encode(hash, RowArray(keys, rows))
            == if |rows| > 0xFFFF || (exists r :: r in rows && |r.cells| != |keys|) || !KeysFit(keys) || EncodeRows(hash, rows) == None
               then None
               else RowsOf(hash, keys, EncodeRows(hash, rows).value)
  {
    hide RowsOf, KeysFit, EncodeRows;
  }

  /** Everything but the checks of a row array. */
  method PushRecords(hash: seq<byte> -> byte, keys: seq<seq<byte>>, area: seq<byte>, slots: seq<nat>, data: seq<seq<byte>>,
      offsets: seq<seq<nat>>, ghost pieces: seq<seq<seq<byte>>>, out: ByteVector) returns (ok: bool)
    requires area == Concat(keys) && |slots| == |keys| && forall i :: 0 <= i < |keys| ==> slots[i] == KeySlot(keys, i)
    requires |data| == |offsets| == |pieces|
    requires forall i :: 0 <= i < |pieces| ==> data[i] == Concat(pieces[i]) && offsets[i] == Starts(pieces[i])
    modifies out
    ensures Wrote(old(out.bytes), out.bytes, ok, RowsOf(hash, keys, pieces))
  {
    hide Concat, Starts, OffsetTable, Records, LargestRow, RowsOf, KeySlots, KeySlot, KeyHashes, VaruintEncode, Count16, PartsCode;
    RowsOfParts(hash, keys, pieces);
    var largest := LargestSize(data, pieces);
    var slotW := OffsetWidth(largest);
    if slotW == None {
      return false;
    }
    var body, starts := ComposeRecords(data, offsets, slotW.value, pieces);
    var recoffW := OffsetWidth(|body.bytes|);
    if recoffW == None {
      return false;
    }
    ok := PushParts(hash, keys, area, slots, body.bytes, starts, slotW.value, recoffW.value, pieces, out);
  }

  /** What the code of a row array is, given the widths. */
  function PartsCode(hash: seq<byte> -> byte, keys: seq<seq<byte>>, rows: seq<seq<seq<byte>>>, w: nat, recoffW: nat): Option<seq<byte>>
    requires 1 <= w <= 4 && 1 <= recoffW <= 4
  {
    match VaruintEncode(|keys|)
    case None => None
    case Some(code) => Some(Joined(PartsOf(hash, keys, rows, w, recoffW, code)))
  }

  method PushParts(hash: seq<byte> -> byte, keys: seq<seq<byte>>, area: seq<byte>, slots: seq<nat>, body: seq<byte>, starts: seq<nat>,
      slotW: nat, recoffW: nat, ghost pieces: seq<seq<seq<byte>>>, out: ByteVector) returns (ok: bool)
    requires 1 <= slotW <= 4 && 1 <= recoffW <= 4
    requires area == Concat(keys) && |slots| == |keys| && forall i :: 0 <= i < |keys| ==> slots[i] == KeySlot(keys, i)
    requires body == Concat(Records(pieces, slotW)) && starts == Starts(Records(pieces, slotW))
    modifies out
    ensures Wrote(old(out.bytes), out.bytes, ok, PartsCode(hash, keys, pieces, slotW, recoffW))
  {
    hide Concat, Starts, OffsetTable, Records, KeySlots, KeySlot, KeyHashes, VaruintEncode, Count16, Joined;
    ghost var before := out.bytes;
    out.Push(0xC1);
    out.Push((slotW - 1) + (recoffW - 1) * 4);
    assert out.bytes == before + [0xC1, (slotW - 1) + (recoffW - 1) * 4];
    ok := PushVaruint(|keys|, out);
    if !ok {
      return false;
    }
    PushKeySlots(slots, keys, out);
    PushHashes(hash, keys, out);
    out.Append(area);
    out.Append(body);
    PushOffsets(starts, recoffW, Records(pieces, slotW), out);
    PushCount(|starts|, out);
    JoinedFrom(before, PartsOf(hash, keys, pieces, slotW, recoffW, VaruintEncode(|keys|).value));
  }

  lemma JoinedFrom(before: seq<byte>, p: RowParts)
    ensures before + p.head + p.code + p.slots + p.hashes + p.area + p.body + p.table + p.count == before + Joined(p)
  {
    var s1 := p.head + p.code;
    var s2 := s1 + p.slots;
    var s3 := s2 + p.hashes;
    var s4 := s3 + p.area;
    var s5 := s4 + p.body;
    assert before + p.head + p.code == before + s1;
    assert before + s1 + p.slots == before + s2;
    assert before + s2 + p.hashes == before + s3;
    assert before + s3 + p.area == before + s4;
    assert before + s4 + p.body == before + s5;
  }

  lemma RowsOfParts(hash: seq<byte> -> byte, keys: seq<seq<byte>>, rows: seq<seq<seq<byte>>>)
    ensures RowsOf(hash, keys, rows)
            == match OffsetWidth(LargestRow(rows))
               case None => None
               case Some(w) =>
                 match OffsetWidth(|Concat(Records(rows, w))|)
                 case None => None
                 case Some(recoffW) => PartsCode(hash, keys, rows, w, recoffW)
  {
    hide Concat, OffsetTable, Records, LargestRow, KeySlots, KeyHashes, VaruintEncode, Count16;
  }

  /** A whole value, in a vector of its own. */
  method EncodeValue(hash: seq<byte> -> byte, v: Value) returns (code: Option<seq<byte>>)
    requires InRange(v)
    ensures code == Encode(hash, v)
  {
    hide Encode;
    var out := new ByteVector();
    ghost var before := out.bytes;
    var ok := EncodeInto(hash, v, out);
    if ok {
      code := Some(out.bytes);
      assert before + Encode(hash, v).value == Encode(hash, v).value;
    } else {
      code := None;
    }
  }
}
