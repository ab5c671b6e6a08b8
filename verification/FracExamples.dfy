/** Inputs on which the documentation of the view, of schema evolution and of the canonical mode
    promises more than the code does. */
module FracExamples {
  import opened ByteStrings
  import opened Wrappers
  import opened FracTypes
  import opened FracView
  import opened FracUnpack
  import opened FracExtend
  import opened FracFields
  import opened FracMutate
  import opened FracSet
  import opened FracSize
  import opened FracRun
  import opened FracCanonical

  /** An optional byte string that is present but empty: unpacking returns it, the view fails. */
  lemma EmptyOptionalIsNotShown(v: Value)
    requires v == Items([Data([])])
    ensures WellFormed(Struct([Optional(Blob(false))])) && HasType(v, Struct([Optional(Blob(false))]))
    ensures UnpackAll(Struct([Optional(Blob(false))]), Pack(Struct([Optional(Blob(false))]), v)) == Ok(v)
    ensures View(Struct([Optional(Blob(false))]), Pack(Struct([Optional(Blob(false))]), v), 0) == Failure
  {
    var t, x := Optional(Blob(false)), v.items[0];
    OneField(t, x);
    ViewReads(Struct([t]), Pack(Struct([t]), v), 0, v);
    UnpackPack(Struct([t]), v);
  }

  /** New data whose added field has a value: an old schema cannot unpack it. */
  lemma OldSchemaRefusesNewData(b: byte)
    ensures HasType(Items([Data([b])]), Struct([Optional(Blob(false))])) && WellFormed(Struct([]))
    ensures UnpackAll(Struct([]), Pack(Struct([Optional(Blob(false))]), Items([Data([b])]))) == Failure
  {
    var t, x := Optional(Blob(false)), Data([b]);
    OneField(t, x);
    assert [] + [t] == [t] && [] + [x] == [x];
    assert HasHeap([t][0], [x][0]);
    assert WellFormed(Struct([])) && AllOptional([t]);
    assert WellFormed(Struct([] + [t]));
    OldReadsNew([], [t], [], [x]);
  }

  /** Null put into the only field: packing leaves the field out, the assignment keeps its slot. */
  lemma NullInLastFieldIsNoRepack(b: byte)
    ensures HaveTypes([Data([b])], [Optional(Blob(false))]) && HaveTypes([Null], [Optional(Blob(false))])
    ensures CanSet(PackStruct([Optional(Blob(false))], [Data([b])]), [Optional(Blob(false))], 0)
    ensures SetCanonical(PackStruct([Optional(Blob(false))], [Data([b])]), [Optional(Blob(false))], 0, Null) != PackStruct([Optional(Blob(false))], [Null])
  {
    var t, x := Optional(Blob(false)), Data([b]);
    OneField(t, x);
    OneField(t, Null);
    PackedIsGood([t], [x]);
    GoodCanSet(PackStruct([t], [x]), [t], [x], 1, 0);
    CanonicalSize(PackStruct([t], [x]), [t], [x], 1, 0, Null);
    assert [x][0 := Null] == [Null];
    CanonicalIsRepack([t], [x], 0, Null);
  }

  // ---------------------------------------------------------------- lists of optionals are measured wrong

  const LIST: Type := Vec(Optional(Blob(false)))

  lemma ListOf(x: Value, bytes: seq<byte>)
    requires HasType(x, Optional(Blob(false))) && Pack(Optional(Blob(false)), x) == bytes
    ensures HasType(Items([x]), LIST) && Pack(LIST, Items([x])) == U32(4) + U32(4) + bytes
  {
    hide Pack;
    var vs := [x];
    assert vs[1..] == [];
    assert PackVec(Optional(Blob(false)), vs) == U32(4) + ElementSlots(Optional(Blob(false)), vs, 4) + Elements(Optional(Blob(false)), vs);
    assert ElementSlots(Optional(Blob(false)), vs, 4) == U32(4) + [] && Elements(Optional(Blob(false)), vs) == bytes + [];
    VecParts(Optional(Blob(false)), vs);
  }

  /** A list of one optional byte string of one byte is measured one byte too short. */
  lemma OptionalListIsMeasuredShort(b: byte)
    ensures HasType(Items([Data([b])]), LIST) && |Pack(LIST, Items([Data([b])]))| == 17
    ensures PackedSizeAt(LIST, Pack(LIST, Items([Data([b])])), 0) == Some(16)
  {
    var x := Data([b]);
    assert Pack(Optional(Blob(false)), x) == U32(4) + (U32(1) + [b]);
    ListOf(x, U32(4) + (U32(1) + [b]));
    OptionalBytesMeasured(false, Pack(LIST, Items([x])), 0, [x]);
  }

  /** The two bytes of a header and four of an offset, for numbers that fit one. */
  lemma Small(n: byte)
    ensures U32(n) == [n, 0, 0, 0] && U16(n) == [n, 0]
  {
  }

  lemma OneFieldPacked(v: Value, bytes: seq<byte>)
    requires HasType(v, LIST) && Pack(LIST, v) == bytes && !IsEmptyContainer(LIST, v)
    ensures HaveTypes([v], [LIST]) && PackStruct([LIST], [v]) == [4, 0] + [4, 0, 0, 0] + bytes
    ensures Heap(LIST, v) == bytes
  {
    hide Pack;
    OneField(LIST, v);
    var ts, vs := [LIST], [v];
    assert ts[1..] == [] && vs[1..] == [];
    assert Slots(ts, vs, 4) == U32(4) + [];
    Small(4);
  }

  lemma NothingToPatch(d: seq<byte>, at: nat, delta: int)
    requires SlotsInside(d, [LIST], Read16(d, 0))
    ensures PatchSiblings(d, [LIST], 0, at, delta) == d
  {
    hide PatchOffset, Read16;
    var ts := [LIST];
    if delta != 0 {
      assert PatchFields(d, ts, 0, 0, Read16(d, 0), at, delta) == d;
      assert PatchFields(d, ts, 1, 0, Read16(d, 0), at, delta) == d;
    }
  }

  /** Such a list replaced by the empty list: a byte of it stays behind. */
  lemma DeadByteIsLeft(b: byte)
    ensures HaveTypes([Items([Data([b])])], [LIST]) && CanSet(PackStruct([LIST], [Items([Data([b])])]), [LIST], 0)
    ensures SetCanonical(PackStruct([LIST], [Items([Data([b])])]), [LIST], 0, Items([])) == [4, 0, 0, 0, 0, 0, b]
    ensures PackStruct([LIST], [Items([])]) == [4, 0, 0, 0, 0, 0]
  {
    var v := Items([Data([b])]);
    var d := OneStringPacked(b);
    var ts, vs := [LIST], [v];
    OneField(LIST, v);
    hide PackStruct, HasType, Pack, PackedSizeAt, Good, CanSet, SetCanonical;
    PackedIsGood(ts, vs);
    NotOverByString(b);
    GoodCanSet(d, ts, vs, 1, 0);
    OptionalBytesMeasured(false, d, 6, [Data([b])]);
    DeadByteSplice(d, b);
    EmptyPacked();
  }

  lemma OneStringPacked(b: byte) returns (d: seq<byte>)
    ensures HasType(Items([Data([b])]), LIST) && HaveTypes([Items([Data([b])])], [LIST])
    ensures d == PackStruct([LIST], [Items([Data([b])])])
    ensures d == [4, 0, 4, 0, 0, 0, 4, 0, 0, 0, 4, 0, 0, 0, 4, 0, 0, 0, 1, 0, 0, 0, b]
    ensures At(d, 6, Pack(LIST, Items([Data([b])]))) && |Pack(LIST, Items([Data([b])]))| == 17
  {
    StringPacked(b);
    hide Pack, PackStruct, At, U32, HasType;
    var text := U32(4) + (U32(1) + [b]);
    ListOf(Data([b]), text);
    OneFieldPacked(Items([Data([b])]), U32(4) + U32(4) + text);
    d := PackStruct([LIST], [Items([Data([b])])]);
    Small(4);
    Small(1);
    ListIsHere(d, U32(4) + U32(4) + text);
  }

  lemma ListIsHere(d: seq<byte>, list: seq<byte>)
    requires d == [4, 0] + [4, 0, 0, 0] + list
    ensures At(d, 6, list)
  {
  }

  lemma StringPacked(b: byte)
    ensures HasType(Data([b]), Optional(Blob(false))) && Pack(Optional(Blob(false)), Data([b])) == U32(4) + (U32(1) + [b])
  {
    hide U32;
  }

  lemma NotOverByString(b: byte)
    requires HasType(Items([Data([b])]), LIST)
    ensures NotOver(LIST, Items([Data([b])]))
  {
  }

  lemma DeadByteSplice(d: seq<byte>, b: byte)
    requires d == [4, 0, 4, 0, 0, 0, 4, 0, 0, 0, 4, 0, 0, 0, 4, 0, 0, 0, 1, 0, 0, 0, b]
    requires CanSet(d, [LIST], 0) && PackedSizeAt(LIST, d, 6) == Some(16)
    ensures SetCanonical(d, [LIST], 0, Items([])) == [4, 0, 0, 0, 0, 0, b]
  {
    hide PackedSizeAt, PatchSiblings, SlotsInside;
    var ts := [LIST];
    assert Offset(ts, 0) == 0 && Read16(d, 0) == 4 && Read32(d, 2) == 4;
    var e := Splice(d, 6, 16, []);
    assert e == [4, 0, 4, 0, 0, 0, b];
    var w := Write(e, 2, U32(0));
    Small(0);
    assert w == [4, 0, 0, 0, 0, 0, b];
    WriteInside(d, ts, 0, U32(0));
    SpliceInside(d, ts, 6, 16, []);
    WriteInside(e, ts, 0, U32(0));
    ClearFieldIs(d, ts, 0, 0, w, -16);
    NothingToPatch(w, 6, -16);
  }

  lemma EmptyPacked()
    ensures HaveTypes([Items([])], [LIST]) && PackStruct([LIST], [Items([])]) == [4, 0, 0, 0, 0, 0]
  {
    var ts, vs := [LIST], [Items([])];
    OneField(LIST, Items([]));
    assert ts[1..] == [] && vs[1..] == [];
    assert Slots(ts, vs, 4) == U32(0) + [];
    Small(4);
    Small(0);
  }

  const PAIR: seq<Type> := [LIST, Blob(false)]

  /** A list that ends with a null, and a byte string behind it. */
  function Neighbours(b: byte): seq<Value> {
    [Items([Null]), Data([b])]
  }

  lemma NeighboursPacked(b: byte) returns (d: seq<byte>)
    ensures HaveTypes(Neighbours(b), PAIR) && d == PackStruct(PAIR, Neighbours(b))
    ensures d == [8, 0, 8, 0, 0, 0, 16, 0, 0, 0, 4, 0, 0, 0, 4, 0, 0, 0, 1, 0, 0, 0, 1, 0, 0, 0, b]
    ensures HasType(Items([Null]), LIST) && At(d, 10, Pack(LIST, Items([Null]))) && |Pack(LIST, Items([Null]))| == 12
  {
    NullListPacked();
    NeighbourHeaps(b);
    hide Pack, Heap, PackStruct, Slots, Heaps, U16, U32, At, HasType;
    PairPacked(Neighbours(b));
    d := PackStruct(PAIR, Neighbours(b));
    Small(1);
    Small(4);
    Small(8);
    Small(16);
    NeighbourBytes(d, b);
  }

  lemma NeighbourBytes(d: seq<byte>, b: byte)
    requires d == [8, 0] + ([8, 0, 0, 0] + [16, 0, 0, 0]) + (([4, 0, 0, 0] + [4, 0, 0, 0] + [1, 0, 0, 0]) + ([1, 0, 0, 0] + [b]))
    ensures d == [8, 0, 8, 0, 0, 0, 16, 0, 0, 0, 4, 0, 0, 0, 4, 0, 0, 0, 1, 0, 0, 0, 1, 0, 0, 0, b]
    ensures At(d, 10, [4, 0, 0, 0] + [4, 0, 0, 0] + [1, 0, 0, 0])
  {
    ListIsAt(d, [4, 0, 0, 0] + [4, 0, 0, 0] + [1, 0, 0, 0]);
  }

  lemma ListIsAt(d: seq<byte>, list: seq<byte>)
    requires |d| >= 22 && |list| == 12 && d[10..22] == list
    ensures At(d, 10, list)
  {
  }

  lemma NullListPacked()
    ensures HasType(Items([Null]), LIST) && Pack(LIST, Items([Null])) == U32(4) + U32(4) + U32(1)
  {
    assert Pack(Optional(Blob(false)), Null) == U32(1);
    ListOf(Null, U32(1));
  }

  lemma NeighbourHeaps(b: byte)
    requires HasType(Items([Null]), LIST)
    ensures HaveTypes(Neighbours(b), PAIR)
    ensures !IsEmptyContainer(LIST, Neighbours(b)[0]) && !IsEmptyContainer(Blob(false), Neighbours(b)[1])
    ensures Heap(LIST, Neighbours(b)[0]) == Pack(LIST, Items([Null])) && Heap(Blob(false), Neighbours(b)[1]) == U32(1) + [b]
  {
    hide PackVec;
  }

  lemma PairPacked(vs: seq<Value>)
    requires HaveTypes(vs, PAIR) && !IsEmptyContainer(LIST, vs[0]) && !IsEmptyContainer(Blob(false), vs[1]) && |Heap(LIST, vs[0])| == 12
    ensures PackStruct(PAIR, vs) == U16(8) + (U32(8) + U32(16)) + (Heap(LIST, vs[0]) + Heap(Blob(false), vs[1]))
  {
    hide Heap, Pack, U16, U32;
    var ts := PAIR;
    assert HasType(vs[0], LIST) && HasType(vs[1], Blob(false));
    var ts1, vs1 := ts[1..], vs[1..];
    assert ts1 == [Blob(false)] && vs1 == [vs[1]] && ts1[1..] == [] && vs1[1..] == [];
    assert Fixed(ts1, vs1) == 4 && Fixed(ts, vs) == 8;
    assert Slots(ts1, vs1, 16) == U32(16) + [];
    assert Slots(ts, vs, 8) == U32(8) + Slots(ts1, vs1, 8 - 4 + 12);
    assert Heaps(ts1, vs1) == Heap(Blob(false), vs[1]) + [];
  }

  /** Such a list replaced by the empty list: the byte string behind it is read as empty. */
  lemma NeighbourIsLost(b: byte)
    ensures HaveTypes(Neighbours(b), PAIR) && CanSet(PackStruct(PAIR, Neighbours(b)), PAIR, 0)
    ensures var e := SetCanonical(PackStruct(PAIR, Neighbours(b)), PAIR, 0, Items([]));
            && e == [8, 0, 0, 0, 0, 0, 3, 0, 0, 0, 0, 0, 0, b]
            && ViewField(Blob(false), e, SlotPos(PAIR, 1), 2 + Read16(e, 0)) == Ok(Data([]))
  {
    var d := NeighboursPacked(b);
    hide *;
    NeighbourCanSet(d, b);
    NeighbourSplice(d, b);
    NeighbourRead([8, 0, 0, 0, 0, 0, 3, 0, 0, 0, 0, 0, 0, b], b);
  }

  lemma NeighbourCanSet(d: seq<byte>, b: byte)
    requires d == [8, 0, 8, 0, 0, 0, 16, 0, 0, 0, 4, 0, 0, 0, 4, 0, 0, 0, 1, 0, 0, 0, 1, 0, 0, 0, b]
    requires HasType(Items([Null]), LIST) && At(d, 10, Pack(LIST, Items([Null]))) && |Pack(LIST, Items([Null]))| == 12
    ensures PackedSizeAt(LIST, d, 10) == Some(13) && CanSet(d, PAIR, 0) && !Elided(d, PAIR, 0)
  {
    hide PackedSizeAt, Pack;
    OptionalBytesMeasured(false, d, 10, [Null]);
    var ts := PAIR;
    assert Offset(ts, 1) == 4 + Offset(ts[1..], 0) == 4 && Offset(ts, 0) == 0;
    assert Read16(d, 0) == 8 && Read32(d, 2) == 8;
    assert Target(d, ts, 0) == 10;
  }

  lemma NeighbourSplice(d: seq<byte>, b: byte)
    requires d == [8, 0, 8, 0, 0, 0, 16, 0, 0, 0, 4, 0, 0, 0, 4, 0, 0, 0, 1, 0, 0, 0, 1, 0, 0, 0, b]
    requires CanSet(d, PAIR, 0) && !Elided(d, PAIR, 0) && PackedSizeAt(LIST, d, 10) == Some(13)
    ensures SetCanonical(d, PAIR, 0, Items([])) == [8, 0, 0, 0, 0, 0, 3, 0, 0, 0, 0, 0, 0, b]
  {
    hide PackedSizeAt, PatchSiblings, SlotsInside, Write, Splice, U32;
    var ts := PAIR;
    PairSlots(d);
    var e := Splice(d, 10, 13, []);
    WriteInside(d, ts, 0, U32(0));
    SpliceInside(d, ts, 10, 13, []);
    WriteInside(e, ts, 0, U32(0));
    var w := Write(e, 2, U32(0));
    NeighbourCut(d, e, w, b);
    ClearFieldIs(d, ts, 0, 0, w, -13);
    NeighbourPatched(w, b);
  }

  lemma PairSlots(d: seq<byte>)
    requires |d| >= 6 && d[..6] == [8, 0, 8, 0, 0, 0]
    ensures Offset(PAIR, 0) == 0 && Offset(PAIR, 1) == 4 && Read16(d, 0) == 8 && Read32(d, 2) == 8 && Target(d, PAIR, 0) == 10
  {
    var ts := PAIR;
    assert Offset(ts, 1) == 4 + Offset(ts[1..], 0) == 4 && Offset(ts, 0) == 0;
    assert d[..6][0] == 8 && d[..6][1] == 0 && d[..6][2] == 8 && d[..6][3] == 0 && d[..6][4] == 0 && d[..6][5] == 0;
  }

  lemma NeighbourCut(d: seq<byte>, e: seq<byte>, w: seq<byte>, b: byte)
    requires d == [8, 0, 8, 0, 0, 0, 16, 0, 0, 0, 4, 0, 0, 0, 4, 0, 0, 0, 1, 0, 0, 0, 1, 0, 0, 0, b]
    requires e == Splice(d, 10, 13, []) && |e| >= 6 && w == Write(e, 2, U32(0))
    ensures |e| == 14 && w == [8, 0, 0, 0, 0, 0, 16, 0, 0, 0, 0, 0, 0, b]
  {
    assert e == [8, 0, 8, 0, 0, 0, 16, 0, 0, 0, 0, 0, 0, b];
    Small(0);
  }

  lemma NeighbourRead(e: seq<byte>, b: byte)
    requires e == [8, 0, 0, 0, 0, 0, 3, 0, 0, 0, 0, 0, 0, b]
    ensures ViewField(Blob(false), e, SlotPos(PAIR, 1), 2 + Read16(e, 0)) == Ok(Data([]))
  {
    var ts := PAIR;
    assert Offset(ts, 1) == 4 + Offset(ts[1..], 0) == 4;
    assert Read16(e, 0) == 8 && Read32(e, 6) == 3 && Read32(e, 9) == 0;
    assert e[13..13] == [];
  }

  lemma NeighbourPatched(w: seq<byte>, b: byte)
    requires w == [8, 0, 0, 0, 0, 0, 16, 0, 0, 0, 0, 0, 0, b] && SlotsInside(w, PAIR, Read16(w, 0))
    ensures PatchSiblings(w, PAIR, 0, 10, -13) == [8, 0, 0, 0, 0, 0, 3, 0, 0, 0, 0, 0, 0, b]
  {
    hide SlotsInside;
    var ts := PAIR;
    assert Offset(ts, 1) == 4 + Offset(ts[1..], 0) == 4 && Offset(ts, 0) == 0;
    assert Read16(w, 0) == 8 && Read32(w, 6) == 16;
    assert PatchFields(w, ts, 0, 0, 8, 10, -13) == w;
    assert PatchFields(w, ts, 1, 0, 8, 10, -13) == w;
    Small(3);
    assert PatchOffset(w, 6, 10, -13) == Write(w, 6, U32(3));
    assert PatchFields(w, ts, 2, 0, 8, 10, -13) == Write(w, 6, U32(3));
  }
}
