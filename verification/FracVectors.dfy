/** Values and the bytes that the shared test vectors list for them (conformance/cpp-golden.json). */
module FracVectors {
  import opened ByteStrings
  import opened FracAccept
  import opened FracTypes
  import opened FracUnpack
  import opened FracView
  import opened Wrappers

  // ---------------------------------------------------------------- fields one by one

  lemma FirstField(t: Type, v: Value, ts: seq<Type>, vs: seq<Value>, dist: int)
    requires HasType(v, t) && HaveTypes(vs, ts) && !(t.Optional? && v.Null?)
    ensures HaveTypes([v] + vs, [t] + ts)
    ensures Slots([t] + ts, [v] + vs, dist) == Slot(t, v, dist) + Slots(ts, vs, dist - FixedSize(t) + |Heap(t, v)|)
    ensures Heaps([t] + ts, [v] + vs) == Heap(t, v) + Heaps(ts, vs)
    ensures Fixed([t] + ts, [v] + vs) == FixedSize(t) + Fixed(ts, vs)
  {
    hide Slot, Heap, FixedSize, HasType;
    assert ([t] + ts)[1..] == ts && ([v] + vs)[1..] == vs;
    FieldsUnfold([t] + ts, [v] + vs, dist);
  }

  lemma NoFields(ts: seq<Type>, vs: seq<Value>, dist: int)
    requires ts == [] && vs == []
    ensures Slots(ts, vs, dist) == [] && Heaps(ts, vs) == [] && Fixed(ts, vs) == 0
  {
  }

  const NUMBER: Type := Scalar(4, false)
  const TEXT: Type := Blob(true)

  lemma FourBytes(n: nat)
    requires n < U32_LIMIT
    ensures Le(n, 4) == U32(n)
  {
    var a, b, c := n / 256, n / 65536, n / 16777216;
    assert Le(c, 1) == [c % 256] + Le(c / 256, 0);
    assert Le(b, 2) == [b % 256] + Le(c, 1);
    assert Le(a, 3) == [a % 256] + Le(b, 2);
    assert Le(n, 4) == [n % 256] + Le(a, 3);
  }

  lemma SmallU32(n: nat)
    requires n < 256
    ensures U32(n) == [n, 0, 0, 0]
  {
  }

  lemma NumberField(n: nat, dist: int)
    requires n < U32_LIMIT
    ensures HasType(Number(n), NUMBER) && Slot(NUMBER, Number(n), dist) == U32(n) && Heap(NUMBER, Number(n)) == []
  {
    SmallPowers();
    FourBytes(n);
  }

  /** A number and an optional text: the size of the slots that are there, the slots, then the text behind
      its length. A null at the end is left out; an empty text is the offset 0. */
  lemma RecordPacked(id: nat, name: seq<byte>)
    requires id < U32_LIMIT && 0 < |name| < 256
    ensures HaveTypes([Number(id), Data(name)], [NUMBER, Optional(TEXT)])
    ensures HaveTypes([Number(id), Data([])], [NUMBER, Optional(TEXT)]) && HaveTypes([Number(id), Null], [NUMBER, Optional(TEXT)])
    ensures PackStruct([NUMBER, Optional(TEXT)], [Number(id), Data(name)])
            == [8, 0] + (U32(id) + [4, 0, 0, 0]) + ([|name|, 0, 0, 0] + name)
    ensures PackStruct([NUMBER, Optional(TEXT)], [Number(id), Data([])]) == [8, 0] + (U32(id) + [0, 0, 0, 0])
    ensures PackStruct([NUMBER, Optional(TEXT)], [Number(id), Null]) == [4, 0] + U32(id)
  {
    TextLast(id, Data(name), [4, 0, 0, 0], [|name|, 0, 0, 0] + name) by { OptionalText(name); }
    TextLast(id, Data([]), [0, 0, 0, 0], []) by { OptionalText([]); }
    NullLast(id);
  }

  lemma OptionalText(text: seq<byte>)
    requires |text| < 256
    ensures HasType(Data(text), Optional(TEXT))
    ensures Slot(Optional(TEXT), Data(text), 4) == if text == [] then [0, 0, 0, 0] else [4, 0, 0, 0]
    ensures Heap(Optional(TEXT), Data(text)) == if text == [] then [] else [|text|, 0, 0, 0] + text
  {
    SmallU32(|text|);
    SmallU32(0);
    SmallU32(4);
  }

  lemma TextLast(id: nat, v: Value, slot: seq<byte>, heap: seq<byte>)
    requires id < U32_LIMIT && HasType(v, Optional(TEXT)) && !v.Null?
    requires Slot(Optional(TEXT), v, 4) == slot && Heap(Optional(TEXT), v) == heap
    ensures HaveTypes([Number(id), v], [NUMBER, Optional(TEXT)])
    ensures PackStruct([NUMBER, Optional(TEXT)], [Number(id), v]) == [8, 0] + (U32(id) + slot) + heap
  {
    var ts: seq<Type>, vs: seq<Value> := [], [];
    NoFields(ts, vs, 4 - 4 + |heap|);
    FirstField(Optional(TEXT), v, ts, vs, 4);
    assert [Optional(TEXT)] + ts == [Optional(TEXT)] && [v] + vs == [v] && slot + [] == slot && heap + [] == heap;
    NumberFirst(id, [Optional(TEXT)], [v], slot, heap, 4);
  }

  /** A number in front of fields whose slots and heap parts are known. */
  lemma NumberFirst(id: nat, ts: seq<Type>, vs: seq<Value>, slots: seq<byte>, heaps: seq<byte>, size: nat)
    requires id < U32_LIMIT && HaveTypes(vs, ts) && size < 250 && Fixed(ts, vs) == size
    requires Slots(ts, vs, size) == slots && Heaps(ts, vs) == heaps
    ensures HaveTypes([Number(id)] + vs, [NUMBER] + ts)
    ensures PackStruct([NUMBER] + ts, [Number(id)] + vs) == [4 + size, 0] + (U32(id) + slots) + heaps
  {
    hide Slot, Heap, HasType, Slots, Heaps, Fixed, U32;
    NumberField(id, 4 + size);
    FirstField(NUMBER, Number(id), ts, vs, 4 + size);
    assert [] + heaps == heaps && U16(4 + size) == [4 + size, 0];
  }

  lemma NullLast(id: nat)
    requires id < U32_LIMIT
    ensures HaveTypes([Number(id), Null], [NUMBER, Optional(TEXT)])
    ensures PackStruct([NUMBER, Optional(TEXT)], [Number(id), Null]) == [4, 0] + U32(id)
  {
    var ts, vs, none: seq<byte> := [Optional(TEXT)], [Null], [];
    NullIsAbsent(ts, vs, 0);
    NumberFirst(id, ts, vs, none, none, 0);
    assert U32(id) + none == U32(id) && [4, 0] + U32(id) + none == [4, 0] + U32(id);
  }

  lemma NullIsAbsent(ts: seq<Type>, vs: seq<Value>, dist: int)
    requires |ts| == |vs| == 1 && ts[0].Optional? && vs[0].Null?
    ensures HaveTypes(vs, ts) && Slots(ts, vs, dist) == [] && Heaps(ts, vs) == [] && Fixed(ts, vs) == 0
  {
    assert ts[1..] == [] && vs[1..] == [];
    assert Absent(ts, vs);
  }

  // ---------------------------------------------------------------- lists, variants and optionals

  /** Two elements of variable size: the size of the slots, the slots, then the elements. */
  lemma PairPacked(elem: Type, x: Value, y: Value)
    requires IsVar(elem) && HasType(x, elem) && HasType(y, elem) && |Pack(elem, x)| < 252
    ensures HasType(Items([x, y]), Vec(elem))
    ensures Pack(Vec(elem), Items([x, y]))
            == [8, 0, 0, 0] + ([8, 0, 0, 0] + [4 + |Pack(elem, x)|, 0, 0, 0]) + (Pack(elem, x) + Pack(elem, y))
  {
    SmallU32(8);
    SmallU32(4 + |Pack(elem, x)|);
    PairElements(elem, x, y);
    PairSlots(elem, x, y);
    VecIs(elem, [x, y]);
  }

  lemma PairElements(elem: Type, x: Value, y: Value)
    requires HasType(x, elem) && HasType(y, elem)
    ensures Elements(elem, [x, y]) == Pack(elem, x) + Pack(elem, y)
  {
    hide Pack, HasType;
    var none: seq<Value>, nothing: seq<byte> := [], [];
    assert [x, y][1..] == [y] && [y][1..] == none;
    assert Elements(elem, none) == nothing;
    assert Elements(elem, [y]) == Pack(elem, y) + nothing == Pack(elem, y);
  }

  lemma VecIs(elem: Type, vs: seq<Value>)
    requires IsVar(elem) && forall v :: v in vs ==> HasType(v, elem)
    ensures HasType(Items(vs), Vec(elem))
    ensures Pack(Vec(elem), Items(vs)) == U32(|vs| * 4) + ElementSlots(elem, vs, 4 * |vs|) + Elements(elem, vs)
  {
    hide Elements, ElementSlots, IsVar;
  }

  lemma PairSlots(elem: Type, x: Value, y: Value)
    requires HasType(x, elem) && HasType(y, elem)
    ensures ElementSlots(elem, [x, y], 8) == U32(8) + U32(4 + |Pack(elem, x)|)
  {
    hide Pack, HasType, U32;
    var none: seq<Value>, nothing: seq<byte> := [], [];
    assert [x, y][1..] == [y] && [y][1..] == none;
    assert ElementSlots(elem, none, 4 + |Pack(elem, x)| - 4 + |Pack(elem, y)|) == nothing;
    assert ElementSlots(elem, [y], 4 + |Pack(elem, x)|) == U32(4 + |Pack(elem, x)|) + nothing == U32(4 + |Pack(elem, x)|);
  }

  /** A text is its length and its bytes; of an optional one, null is 1, an empty one 0, and others stand
      4 bytes on. A variant is the number of its case, the size of its value and the value. */
  lemma PackedAlone(text: seq<byte>, n: nat)
    requires |text| < 200 && n < U32_LIMIT
    ensures HasType(Data(text), TEXT) && Pack(TEXT, Data(text)) == [|text|, 0, 0, 0] + text
    ensures HasType(Null, Optional(TEXT)) && Pack(Optional(TEXT), Null) == [1, 0, 0, 0]
    ensures HasType(Data(text), Optional(TEXT))
    ensures Pack(Optional(TEXT), Data(text)) == if text == [] then [0, 0, 0, 0] else [4, 0, 0, 0] + ([|text|, 0, 0, 0] + text)
    ensures HasType(Number(n), NUMBER) && Pack(NUMBER, Number(n)) == U32(n)
    ensures HasType(Number(n), Optional(NUMBER)) && Pack(Optional(NUMBER), Number(n)) == [4, 0, 0, 0] + U32(n)
    ensures HasType(Case(1, Data(text)), Variant([NUMBER, TEXT]))
    ensures Pack(Variant([NUMBER, TEXT]), Case(1, Data(text))) == [1] + [4 + |text|, 0, 0, 0] + ([|text|, 0, 0, 0] + text)
  {
    SmallU32(|text|);
    SmallU32(0);
    SmallU32(1);
    SmallU32(4);
    SmallU32(4 + |text|);
    NumberField(n, 0);
    hide U32;
  }

  /** A list of texts and one of optional texts, with an empty one in front. */
  lemma TextsPacked(text: seq<byte>)
    requires 0 < |text| < 200
    ensures HasType(Items([Data([]), Data(text)]), Vec(TEXT)) && HasType(Items([Null, Data(text)]), Vec(Optional(TEXT)))
    ensures Pack(Vec(TEXT), Items([Data([]), Data(text)]))
            == [8, 0, 0, 0] + ([8, 0, 0, 0] + [8, 0, 0, 0]) + ([0, 0, 0, 0] + ([|text|, 0, 0, 0] + text))
    ensures Pack(Vec(Optional(TEXT)), Items([Null, Data(text)]))
            == [8, 0, 0, 0] + ([8, 0, 0, 0] + [8, 0, 0, 0]) + ([1, 0, 0, 0] + ([4, 0, 0, 0] + ([|text|, 0, 0, 0] + text)))
  {
    hide Pack, HasType;
    PackedAlone([], 0);
    PackedAlone(text, 0);
    PairPacked(TEXT, Data([]), Data(text));
    PairPacked(Optional(TEXT), Null, Data(text));
    assert [0, 0, 0, 0] + [] == [0, 0, 0, 0];
  }

  /** The malformed lists of the shared vectors: an offset of 0 to 3 does not lead behind the slots. */
  lemma ShortOffsetsRefused(elem: Type, x: byte)
    requires WellFormed(elem) && IsVar(elem) && x < 4
    ensures UnpackAll(Vec(elem), [4, 0, 0, 0, x, 0, 0, 0]) == Failure
  {
    var d: seq<byte> := [4, 0, 0, 0, x, 0, 0, 0];
    assert Read32(d, 0) == 4 && Read32(d, 4) == x as int && FixedSize(elem) == 4;
    FirstElementRefused(elem, d, 8, 4, 1);
  }

  lemma FirstElementRefused(elem: Type, d: seq<byte>, r: nat, c: nat, n: nat)
    requires WellFormed(elem) && IsVar(elem) && n > 0 && LeadsTo(d, c) < r
    ensures UnpackElements(elem, d, r, c, n) == Refused
  {
    hide Unpack;
  }

  // ---------------------------------------------------------------- a header that ends within a slot

  const CUT: seq<byte> := [6, 0, 42, 0, 0, 0, 4, 0, 0, 0, 0, 0, 0, 0]

  /** The header covers half of the second field's slot: the eager reader follows the offset in it, the
      view takes the field for a null. */
  lemma CutSlotIsReadTwice()
    ensures WellFormed(Struct([NUMBER, TEXT]))
    ensures UnpackAll(Struct([NUMBER, TEXT]), CUT) == Ok(Items([Number(42), Data([])]))
    ensures View(Struct([NUMBER, TEXT]), CUT, 0) == Ok(Items([Number(42), Null]))
  {
    CutWellFormed();
    CutNumbers();
    CutUnpacked();
    CutViewed();
  }

  lemma CutWellFormed()
    ensures WellFormed(Struct([NUMBER, TEXT]))
  {
    var none: seq<Type> := [];
    assert [NUMBER, TEXT][1..] == [TEXT] && [TEXT][1..] == none;
    assert FixedTotal(none) == 0 && FixedTotal([TEXT]) == 4 && FixedTotal([NUMBER, TEXT]) == 8;
  }

  lemma CutNumbers()
    ensures Read16(CUT, 0) == 6 && Read32(CUT, 6) == 4 && Read32(CUT, 10) == 0 && Unle(CUT[2..6]) == 42
  {
    SmallNumber(42);
    hide Unle;
    assert CUT[2..6] == [42, 0, 0, 0];
    assert ByteAt(CUT, 0) == 6 && ByteAt(CUT, 1) == 0;
  }

  lemma SmallNumber(n: nat)
    requires n < 256
    ensures Unle([n, 0, 0, 0]) == n
  {
    hide Unle, Le, Pow256;
    SmallPowers();
    FourBytes(n);
    SmallU32(n);
    UnleLe(n, 4);
  }

  lemma CutUnpacked()
    requires WellFormed(Struct([NUMBER, TEXT]))
    requires Read16(CUT, 0) == 6 && Read32(CUT, 6) == 4 && Read32(CUT, 10) == 0 && Unle(CUT[2..6]) == 42
    ensures Unpack(Struct([NUMBER, TEXT]), CUT, 0) == Parsed(Items([Number(42), Data([])]), 14)
  {
    var ts, one, none: seq<Type> := [NUMBER, TEXT], [TEXT], [];
    assert ts[1..] == one && one[1..] == none;
    assert Required(one);
    assert UnpackSlot(NUMBER, CUT, 8, 2) == Parsed(Number(42), 8);
    assert CUT[14..14] == [];
    assert Unpack(TEXT, CUT, 10) == Parsed(Data([]), 14);
    assert UnpackSlot(TEXT, CUT, 8, 6) == Parsed(Data([]), 14);
    assert UnpackFields(none, CUT, 14, 10, 8) == Parsed([], 14);
    var text, nothing: seq<Value> := [Data([])], [];
    assert text + nothing == text && [Number(42)] + text == [Number(42), Data([])];
    assert UnpackFields(one, CUT, 8, 6, 8) == Parsed(text, 14);
  }

  lemma CutViewed()
    requires WellFormed(Struct([NUMBER, TEXT]))
    requires Read16(CUT, 0) == 6 && Unle(CUT[2..6]) == 42
    ensures View(Struct([NUMBER, TEXT]), CUT, 0) == Ok(Items([Number(42), Null]))
  {
    var ts, one, none: seq<Type> := [NUMBER, TEXT], [TEXT], [];
    assert ts[1..] == one && one[1..] == none;
    assert ViewFields(none, CUT, 10, 8) == Ok([]);
    assert ViewField(TEXT, CUT, 6, 8) == Ok(Null) && ViewField(NUMBER, CUT, 2, 8) == Ok(Number(42));
    var nulls, nothing: seq<Value> := [Null], [];
    assert nulls + nothing == nulls && [Number(42)] + nulls == [Number(42), Null];
    assert ViewFields(one, CUT, 6, 8) == Ok(nulls);
  }
}
