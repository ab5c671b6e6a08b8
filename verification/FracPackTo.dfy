/** Packing into the writer: every type's own two passes over its slots (js/src/fracpack.ts). */
module FracPackTo {
  import opened ByteStrings
  import opened FracFields
  import opened FracTypes
  import opened FracView
  import opened FracWriter

  // ---------------------------------------------------------------- patching

  lemma PatchMiddle(a: seq<byte>, b: seq<byte>, c: seq<byte>, bytes: seq<byte>)
    requires |bytes| == |b|
    ensures Write(a + b + c, |a|, bytes) == a + bytes + c
  {
  }

  lemma PatchLast(a: seq<byte>, b: seq<byte>, bytes: seq<byte>)
    requires |bytes| == |b|
    ensures Write(a + b, |a|, bytes) == a + bytes
  {
  }

  /** The slots of fields after the first pass, and between two rounds of the second. */
  function Between(start: seq<byte>, ts: seq<Type>, vs: seq<Value>, dist: int, i: nat, k: nat): seq<byte>
    requires HaveTypes(vs, ts) && i <= k <= |ts|
  {
    start + SlotsTo(ts, vs, dist, i) + Blanks(ts, vs, i, k) + HeapsTo(ts, vs, i)
  }

  /** One round: patch the slot, then append the heap part. */
  lemma Round(start: seq<byte>, ts: seq<Type>, vs: seq<Value>, dist: int, i: nat, k: nat)
    requires HaveTypes(vs, ts) && i < k <= |ts| && dist == Offset(ts, k)
    ensures var d := Between(start, ts, vs, dist, i, k);
            var slot, here := |start| + Offset(ts, i), |d|;
            slot + FixedSize(ts[i]) <= |d| && here - slot == Distance(ts, vs, dist, i)
            && Between(start, ts, vs, dist, i + 1, k)
               == (if HasHeap(ts[i], vs[i]) then Write(d, slot, U32(here - slot)) else d) + Heap(ts[i], vs[i])
  {
    hide Slot, Blank, Heap, HasType, Offset, HeapOffset, HeapsTo, SlotsTo, U32, Blanks;
    var t, v := ts[i], vs[i];
    var x := Distance(ts, vs, dist, i);
    var a, b, c := start + SlotsTo(ts, vs, dist, i), Blank(t, v), Blanks(ts, vs, i + 1, k) + HeapsTo(ts, vs, i);
    SlotsToSize(ts, vs, dist, i);
    HeapsToSize(ts, vs, i);
    BlanksSize(ts, vs, i, k);
    BetweenParts(start, ts, vs, dist, i, k);
    BetweenNext(start, ts, vs, dist, i, k);
    BlankOrSlot(t, v, x);
    if HasHeap(t, v) {
      PatchMiddle(a, b, c, U32(x));
    }
  }

  lemma BetweenParts(start: seq<byte>, ts: seq<Type>, vs: seq<Value>, dist: int, i: nat, k: nat)
    requires HaveTypes(vs, ts) && i < k <= |ts|
    ensures Between(start, ts, vs, dist, i, k)
            == start + SlotsTo(ts, vs, dist, i) + Blank(ts[i], vs[i]) + (Blanks(ts, vs, i + 1, k) + HeapsTo(ts, vs, i))
  {
    hide Blank, HasType, HeapsTo, SlotsTo;
  }

  lemma BetweenNext(start: seq<byte>, ts: seq<Type>, vs: seq<Value>, dist: int, i: nat, k: nat)
    requires HaveTypes(vs, ts) && i < k <= |ts|
    ensures Between(start, ts, vs, dist, i + 1, k)
            == start + SlotsTo(ts, vs, dist, i) + Slot(ts[i], vs[i], Distance(ts, vs, dist, i))
               + (Blanks(ts, vs, i + 1, k) + HeapsTo(ts, vs, i)) + Heap(ts[i], vs[i])
  {
    hide Slot, Heap, HasType, Blanks, Distance;
  }

  /** A blank slot is final unless the field has a heap part. */
  lemma BlankOrSlot(t: Type, v: Value, dist: int)
    requires HasType(v, t)
    ensures if HasHeap(t, v) then Slot(t, v, dist) == U32(dist) && FixedSize(t) == 4 else Blank(t, v) == Slot(t, v, dist)
  {
  }

  /** The slots of elements: those still zero, and those patched. */
  function Zeros(n: nat): (s: seq<byte>)
    ensures |s| == 4 * n
  {
    if n == 0 then [] else U32(0) + Zeros(n - 1)
  }

  lemma {:induction false} ZerosSnoc(n: nat)
    ensures Zeros(n + 1) == Zeros(n) + U32(0)
  {
    hide U32;
    if n > 0 {
      ZerosSnoc(n - 1);
    } else {
      assert Zeros(0) == [];
      assert Zeros(1) == U32(0) + Zeros(0);
    }
  }

  lemma {:induction false} ElementsSnoc(elem: Type, vs: seq<Value>, i: nat)
    requires (forall v :: v in vs ==> HasType(v, elem)) && i < |vs|
    ensures Elements(elem, vs[..i + 1]) == Elements(elem, vs[..i]) + Pack(elem, vs[i])
    decreases i
  {
    hide Pack, HasType;
    if i == 0 {
      assert vs[..0] == [] && vs[..1] == [vs[0]];
      assert Elements(elem, vs[..1][1..]) == [];
    } else {
      ElementsSnoc(elem, vs[1..], i - 1);
      assert vs[..i + 1][1..] == vs[1..][..i] && vs[..i][1..] == vs[1..][..i - 1];
    }
  }

  lemma {:induction false} ElementSlotsSnoc(elem: Type, vs: seq<Value>, dist: int, i: nat)
    requires (forall v :: v in vs ==> HasType(v, elem)) && i < |vs|
    ensures ElementSlots(elem, vs[..i + 1], dist)
            == ElementSlots(elem, vs[..i], dist) + U32(dist - 4 * i + |Elements(elem, vs[..i])|)
    decreases i
  {
    hide Pack, HasType, U32, ElementSlots, Elements;
    if i == 0 {
      OneElementSlot(elem, vs, dist);
    } else {
      var dist' := dist - 4 + |Pack(elem, vs[0])|;
      ElementSlotsSnoc(elem, vs[1..], dist', i - 1);
      ElementsFrom(elem, vs, dist, i + 1);
      ElementsFrom(elem, vs, dist, i);
    }
  }

  lemma OneElementSlot(elem: Type, vs: seq<Value>, dist: int)
    requires (forall v :: v in vs ==> HasType(v, elem)) && vs != []
    ensures ElementSlots(elem, vs[..0], dist) == [] && Elements(elem, vs[..0]) == []
    ensures ElementSlots(elem, vs[..1], dist) == U32(dist)
  {
    hide Pack, HasType, U32;
    assert vs[..0] == [] && vs[..1] == [vs[0]];
    assert ElementSlots(elem, vs[..1][1..], dist - 4 + |Pack(elem, vs[0])|) == [];
  }

  /** The first of i elements, and the others. */
  lemma ElementsFrom(elem: Type, vs: seq<Value>, dist: int, i: nat)
    requires (forall v :: v in vs ==> HasType(v, elem)) && 1 <= i <= |vs|
    ensures ElementSlots(elem, vs[..i], dist)
            == U32(dist) + ElementSlots(elem, vs[1..][..i - 1], dist - 4 + |Pack(elem, vs[0])|)
    ensures Elements(elem, vs[..i]) == Pack(elem, vs[0]) + Elements(elem, vs[1..][..i - 1])
  {
    hide Pack, HasType, U32;
    assert vs[..i][1..] == vs[1..][..i - 1] && vs[..i][0] == vs[0];
  }

  function Half(start: seq<byte>, elem: Type, vs: seq<Value>, i: nat): seq<byte>
    requires (forall v :: v in vs ==> HasType(v, elem)) && i <= |vs|
  {
    start + ElementSlots(elem, vs[..i], 4 * |vs|) + Zeros(|vs| - i) + Elements(elem, vs[..i])
  }

  lemma RoundParts(start: seq<byte>, slots: seq<byte>, blank: seq<byte>, zeros: seq<byte>, rest: seq<byte>,
      code: seq<byte>, next: seq<byte>)
    requires |code| == |blank|
    ensures var d := start + slots + (blank + zeros) + rest;
            Write(d, |start| + |slots|, code) + next == start + (slots + code) + zeros + (rest + next)
  {
    assert start + slots + (blank + zeros) + rest == (start + slots) + blank + (zeros + rest);
    PatchMiddle(start + slots, blank, zeros + rest, code);
  }

  lemma ElementRound(start: seq<byte>, elem: Type, vs: seq<Value>, i: nat)
    requires (forall v :: v in vs ==> HasType(v, elem)) && i < |vs|
    ensures var d := Half(start, elem, vs, i);
            var slot := |start| + 4 * i;
            slot + 4 <= |d| && Half(start, elem, vs, i + 1) == Write(d, slot, U32(|d| - slot)) + Pack(elem, vs[i])
  {
    hide Pack, HasType, U32, Elements, ElementSlots, Write;
    var n := |vs|;
    ElementsSnoc(elem, vs, i);
    ElementSlotsSnoc(elem, vs, 4 * n, i);
    var rest := Elements(elem, vs[..i]);
    RoundParts(start, ElementSlots(elem, vs[..i], 4 * n), U32(0), Zeros(n - i - 1), rest,
               U32(4 * n - 4 * i + |rest|), Pack(elem, vs[i]));
  }

  // ---------------------------------------------------------------- as it runs

  method TrailIndex(ts: seq<Type>, vs: seq<Value>) returns (k: nat)
    requires |ts| == |vs|
    ensures k == Count(ts, vs)
  {
    k := |ts|;
    while k > 0 && ts[k - 1].Optional? && vs[k - 1].Null?
      invariant k <= |ts|
      invariant forall i :: k <= i < |ts| ==> ts[i].Optional? && vs[i].Null?
    {
      k := k - 1;
    }
    CountUnique(ts, vs, k);
  }

  method PackTo(t: Type, v: Value, w: Writer)
    requires HasType(v, t) && WellFormed(t) && w.Valid()
    modifies w, w.buf
    ensures w.Valid() && w.Written() == old(w.Written()) + Pack(t, v)
    ensures w.buf == old(w.buf) || fresh(w.buf)
    decreases v, t, 2
  {
    match t
    case Scalar(size, _) => w.WriteBytes(Le(v.n, size));
    case Blob(_) =>
      w.WriteU32(|v.bytes|);
      w.WriteBytes(v.bytes);
    case Vec(elem) => PackElements(elem, v.items, w);
    case Optional(inner) => PackOptional(inner, v, w);
    case Struct(fields) => PackFields(fields, v.items, w);
    case Variant(cases) => PackCase(cases, v, w);
    case Tuple(elems) => PackFields(elems, v.items, w);
    case Array(item, len) => PackArray(item, len, v.items, w);
    case FixedStruct(parts) => PackFixed(parts, v.items, w);
  }

  lemma OptionalPack(inner: Type, v: Value)
    requires HasType(v, Optional(inner))
    ensures Pack(Optional(inner), v)
            == if v.Null? then U32(1)
               else if IsEmptyContainer(inner, v) then U32(0)
               else U32(4) + Pack(inner, v)
  {
  }

  lemma CasePack(cases: seq<Type>, v: Value)
    requires HasType(v, Variant(cases))
    ensures Pack(Variant(cases), v)
            == [v.index % 256] + U32(|Pack(cases[v.index], v.value)|) + Pack(cases[v.index], v.value)
  {
  }

  method PackOptional(inner: Type, v: Value, w: Writer)
    requires HasType(v, Optional(inner)) && WellFormed(Optional(inner)) && w.Valid()
    modifies w, w.buf
    ensures w.Valid() && w.Written() == old(w.Written()) + Pack(Optional(inner), v)
    ensures w.buf == old(w.buf) || fresh(w.buf)
    decreases v, inner, 4
  {
    hide U32, Write, Pack;
    OptionalPack(inner, v);
    if v.Null? {
      w.WriteU32(1);
      return;
    }
    ghost var start := w.Written();
    var fixedPos := w.pos;
    if !IsVar(inner) {
      w.WriteU32(1);
      PatchLast(start, U32(1), U32(4));
      w.PatchU32(fixedPos, w.pos - fixedPos);
      PackTo(inner, v, w);
    } else {
      w.WriteU32(0);
      if !IsEmptyContainer(inner, v) {
        PatchLast(start, U32(0), U32(4));
        w.PatchU32(fixedPos, w.pos - fixedPos);
        PackTo(inner, v, w);
      }
    }
  }

  method PackCase(cases: seq<Type>, v: Value, w: Writer)
    requires HasType(v, Variant(cases)) && WellFormed(Variant(cases)) && w.Valid()
    modifies w, w.buf
    ensures w.Valid() && w.Written() == old(w.Written()) + Pack(Variant(cases), v)
    ensures w.buf == old(w.buf) || fresh(w.buf)
    decreases v, cases, 1
  {
    hide U32, Write, Pack;
    CasePack(cases, v);
    ghost var body := Pack(cases[v.index], v.value);
    ghost var before := w.Written();
    w.WriteBytes([v.index % 256]);
    ghost var start := w.Written();
    var sizePos := w.pos;
    w.WriteU32(0);
    PackTo(cases[v.index], v.value, w);
    PatchMiddle(start, U32(0), body, U32(|body|));
    w.PatchU32(sizePos, w.pos - sizePos - 4);
    assert start + U32(|body|) + body == before + ([v.index % 256] + U32(|body|) + body);
  }

  method PackElements(elem: Type, vs: seq<Value>, w: Writer)
    requires (forall v :: v in vs ==> HasType(v, elem)) && WellFormed(elem) && w.Valid()
    modifies w, w.buf
    ensures w.Valid() && w.Written() == old(w.Written()) + PackVec(elem, vs)
    ensures w.buf == old(w.buf) || fresh(w.buf)
    decreases vs, elem, 1
  {
    hide U32, Write, PackVec, Pack, Half, Elements, HasType, WellFormed;
    ghost var before := w.Written();
    w.WriteU32(|vs| * FixedSize(elem));
    ghost var start := w.Written();
    if IsVar(elem) {
      PackOffsets(elem, vs, w);
    } else {
      var i: nat := 0;
      NoElementsYet(start, elem, vs);
      while i < |vs|
        invariant i <= |vs| && w.Valid() && w.Written() == start + Elements(elem, vs[..i])
        invariant w.buf == old(w.buf) || fresh(w.buf)
      {
        ElementsSnoc(elem, vs, i);
        PackTo(elem, vs[i], w);
        i := i + 1;
      }
      assert vs[..|vs|] == vs;
    }
    VecPack(before, elem, vs);
  }

  lemma NoElementsYet(start: seq<byte>, elem: Type, vs: seq<Value>)
    requires forall v :: v in vs ==> HasType(v, elem)
    ensures Elements(elem, vs[..0]) == []
    ensures Half(start, elem, vs, 0) == start + Zeros(|vs|)
  {
    hide HasType;
    assert vs[..0] == [];
  }

  lemma VecPack(before: seq<byte>, elem: Type, vs: seq<Value>)
    requires forall v :: v in vs ==> HasType(v, elem)
    ensures var start := before + U32(|vs| * FixedSize(elem));
            before + PackVec(elem, vs) == if IsVar(elem) then Half(start, elem, vs, |vs|) else start + Elements(elem, vs)
  {
    hide HasType, U32, Elements, ElementSlots, Pack;
    assert vs[..|vs|] == vs;
    var size, slots, rest := U32(|vs| * FixedSize(elem)), ElementSlots(elem, vs, 4 * |vs|), Elements(elem, vs);
    JoinVec(before, size, slots, rest);
    assert Zeros(|vs| - |vs|) == [];
  }

  lemma JoinVec(before: seq<byte>, size: seq<byte>, slots: seq<byte>, rest: seq<byte>)
    ensures before + (size + slots + rest) == before + size + slots + [] + rest
    ensures before + (size + [] + rest) == before + size + rest
  {
  }

  /** Zeros for the offsets, then each element behind its patched offset. */
  method PackOffsets(elem: Type, vs: seq<Value>, w: Writer)
    requires (forall v :: v in vs ==> HasType(v, elem)) && WellFormed(elem) && IsVar(elem) && w.Valid()
    modifies w, w.buf
    ensures w.Valid() && w.Written() == Half(old(w.Written()), elem, vs, |vs|)
    ensures w.buf == old(w.buf) || fresh(w.buf)
    decreases vs, elem, 0
  {
    hide U32, Write, Pack, Half, Elements, HasType, WellFormed;
    ghost var start := w.Written();
    var slots := w.pos;
    var i: nat := 0;
    while i < |vs|
      invariant i <= |vs| && w.Valid() && w.Written() == start + Zeros(i)
      invariant w.buf == old(w.buf) || fresh(w.buf)
    {
      ZerosSnoc(i);
      w.WriteU32(0);
      i := i + 1;
    }
    NoElementsYet(start, elem, vs);
    i := 0;
    while i < |vs|
      invariant i <= |vs| && w.Valid() && w.Written() == Half(start, elem, vs, i)
      invariant w.buf == old(w.buf) || fresh(w.buf)
    {
      ElementRound(start, elem, vs, i);
      w.PatchU32(slots + 4 * i, w.pos - (slots + 4 * i));
      PackTo(elem, vs[i], w);
      i := i + 1;
    }
  }

  method EmbFixedPack(t: Type, v: Value, w: Writer)
    requires HasType(v, t) && WellFormed(t) && w.Valid()
    modifies w, w.buf
    ensures w.Valid() && w.Written() == old(w.Written()) + Blank(t, v)
    ensures w.buf == old(w.buf) || fresh(w.buf)
    decreases v, t, 3
  {
    hide Pack;
    if !IsVar(t) {
      PackTo(t, v, w);
    } else if t.Optional? && (v.Null? || !IsVar(t.inner)) {
      w.WriteU32(1);
    } else {
      w.WriteU32(0);
    }
  }

  /** The slot's patch and the heap part, if there is one. */
  method EmbVarPack(t: Type, v: Value, fixedPos: nat, w: Writer)
    requires HasType(v, t) && WellFormed(t) && w.Valid() && fixedPos + FixedSize(t) <= w.pos
    modifies w, w.buf
    ensures w.Valid() && w.Written()
            == (if HasHeap(t, v) then Write(old(w.Written()), fixedPos, U32(old(w.pos) - fixedPos)) else old(w.Written()))
               + Heap(t, v)
    ensures w.buf == old(w.buf) || fresh(w.buf)
    decreases v, t, 3
  {
    hide U32, Write;
    if IsVar(t) && !v.Null? && !IsEmptyContainer(Payload(t), v) {
      w.PatchU32(fixedPos, w.pos - fixedPos);
      PackTo(Payload(t), v, w);
    }
  }

  method FixedSum(ts: seq<Type>, k: nat) returns (fixedSize: nat)
    requires k <= |ts|
    ensures fixedSize == Offset(ts, k)
  {
    fixedSize := 0;
    var i: nat := 0;
    while i < k
      invariant i <= k && fixedSize == Offset(ts, i)
    {
      OffsetNext(ts, i);
      fixedSize := fixedSize + FixedSize(ts[i]);
      i := i + 1;
    }
  }

  /** The first pass: a slot for every field, and where it is. */
  method BlankPass(ts: seq<Type>, vs: seq<Value>, k: nat, w: Writer) returns (positions: seq<nat>)
    requires HaveTypes(vs, ts) && (forall t :: t in ts ==> WellFormed(t)) && k <= |ts| && w.Valid()
    modifies w, w.buf
    ensures w.Valid() && w.Written() == old(w.Written()) + Blanks(ts, vs, 0, k)
    ensures |positions| == k && forall j :: 0 <= j < k ==> positions[j] == old(w.pos) + Offset(ts, j)
    ensures w.buf == old(w.buf) || fresh(w.buf)
    decreases vs, ts, 0
  {
    hide Blank, FixedSize, Blanks, Offset, HasType, WellFormed;
    ghost var start := w.Written();
    positions := [];
    var i: nat := 0;
    BlanksSize(ts, vs, 0, 0);
    while i < k
      invariant i <= k && |positions| == i && w.Valid() && w.Written() == start + Blanks(ts, vs, 0, i)
      invariant forall j :: 0 <= j < i ==> positions[j] == |start| + Offset(ts, j)
      invariant w.buf == old(w.buf) || fresh(w.buf)
    {
      NoOffset(ts);
      BlanksSize(ts, vs, 0, i);
      BlanksSnoc(ts, vs, 0, i);
      positions := positions + [w.pos];
      EmbFixedPack(ts[i], vs[i], w);
      i := i + 1;
    }
  }

  lemma NoOffset(ts: seq<Type>)
    ensures Offset(ts, 0) == 0
  {
  }

  /** The second pass: patch each slot and append what it leads to. */
  method HeapPass(ts: seq<Type>, vs: seq<Value>, k: nat, positions: seq<nat>, ghost start: seq<byte>, w: Writer)
    requires HaveTypes(vs, ts) && (forall t :: t in ts ==> WellFormed(t)) && k <= |ts| && w.Valid()
    requires |positions| == k && forall j :: 0 <= j < k ==> positions[j] == |start| + Offset(ts, j)
    requires w.Written() == Between(start, ts, vs, Offset(ts, k), 0, k)
    modifies w, w.buf
    ensures w.Valid() && w.Written() == Between(start, ts, vs, Offset(ts, k), k, k)
    ensures w.buf == old(w.buf) || fresh(w.buf)
    decreases vs, ts, 0
  {
    hide U32, Write, Heap, HasHeap, FixedSize, Between, Offset, WellFormed, HasType;
    var i: nat := 0;
    while i < k
      invariant i <= k && w.Valid() && w.Written() == Between(start, ts, vs, Offset(ts, k), i, k)
      invariant w.buf == old(w.buf) || fresh(w.buf)
    {
      Round(start, ts, vs, Offset(ts, k), i, k);
      EmbVarPack(ts[i], vs[i], positions[i], w);
      i := i + 1;
    }
  }

  lemma OneEach(ts: seq<Type>, vs: seq<Value>)
    requires HaveTypes(vs, ts)
    ensures |ts| == |vs|
  {
  }

  method PackFields(ts: seq<Type>, vs: seq<Value>, w: Writer)
    requires HaveTypes(vs, ts) && (forall t :: t in ts ==> WellFormed(t)) && w.Valid()
    modifies w, w.buf
    ensures w.Valid() && w.Written() == old(w.Written()) + PackStruct(ts, vs)
    ensures w.buf == old(w.buf) || fresh(w.buf)
    decreases vs, ts, 1
  {
    hide *;
    OneEach(ts, vs);
    var k := TrailIndex(ts, vs);
    var fixedSize := FixedSum(ts, k);
    ghost var before := w.Written();
    w.WriteU16(fixedSize);
    ghost var start := w.Written();
    var positions := BlankPass(ts, vs, k, w);
    BetweenFirst(start, ts, vs, fixedSize, k);
    HeapPass(ts, vs, k, positions, start, w);
    BetweenLast(before, start, ts, vs, k);
  }

  lemma BetweenFirst(start: seq<byte>, ts: seq<Type>, vs: seq<Value>, dist: int, k: nat)
    requires HaveTypes(vs, ts) && k <= |ts|
    ensures Between(start, ts, vs, dist, 0, k) == start + Blanks(ts, vs, 0, k)
  {
    hide HasType, Blanks;
    NoOffsets(ts, vs, dist);
  }

  lemma BetweenLast(before: seq<byte>, start: seq<byte>, ts: seq<Type>, vs: seq<Value>, k: nat)
    requires HaveTypes(vs, ts) && k == Count(ts, vs) && start == before + U16(Offset(ts, k))
    ensures Between(start, ts, vs, Offset(ts, k), k, k) == before + PackStruct(ts, vs)
  {
    hide HasType, SlotsTo, HeapsTo, PackStruct, Offset, U16, Count;
    FieldsWhole(ts, vs);
  }

  /** A fixed struct: the two passes, without a header. */
  method PackFixed(ts: seq<Type>, vs: seq<Value>, w: Writer)
    requires HaveTypes(vs, ts) && (forall t :: t in ts ==> WellFormed(t)) && w.Valid()
    modifies w, w.buf
    ensures w.Valid() && w.Written() == old(w.Written()) + PackParts(ts, vs)
    ensures w.buf == old(w.buf) || fresh(w.buf)
    decreases vs, ts, 1
  {
    hide *;
    OneEach(ts, vs);
    ghost var start := w.Written();
    var positions := BlankPass(ts, vs, |ts|, w);
    BetweenFirst(start, ts, vs, Offset(ts, |ts|), |ts|);
    HeapPass(ts, vs, |ts|, positions, start, w);
    AllPacked(start, ts, vs);
  }

  lemma AllPacked(start: seq<byte>, ts: seq<Type>, vs: seq<Value>)
    requires HaveTypes(vs, ts)
    ensures Between(start, ts, vs, Offset(ts, |ts|), |ts|, |ts|) == start + PackParts(ts, vs)
  {
    hide HasType, SlotsTo, HeapsTo, PackParts, Offset;
    PartsWhole(ts, vs);
  }

  /** An array: the same passes over one type, with the places of the slots computed. */
  method PackArray(item: Type, len: Size, vs: seq<Value>, w: Writer)
    requires HaveTypes(vs, Rep(item, len)) && WellFormed(item) && w.Valid()
    modifies w, w.buf
    ensures w.Valid() && w.Written() == old(w.Written()) + PackParts(Rep(item, len), vs)
    ensures w.buf == old(w.buf) || fresh(w.buf)
    decreases vs, Rep(item, len), 1
  {
    hide *;
    ghost var ts, before := Rep(item, len), w.Written();
    OneEach(ts, vs);
    var start := w.pos;
    var i: nat := 0;
    NoBlanks(ts, vs);
    while i < len
      invariant i <= len && w.Valid() && w.Written() == before + Blanks(ts, vs, 0, i)
      invariant w.buf == old(w.buf) || fresh(w.buf)
    {
      BlanksSnoc(ts, vs, 0, i);
      OfItem(item, len, vs, i);
      EmbFixedPack(item, vs[i], w);
      i := i + 1;
    }
    BetweenFirst(before, ts, vs, Offset(ts, len), len);
    i := 0;
    while i < len
      invariant i <= len && w.Valid() && w.Written() == Between(before, ts, vs, Offset(ts, len), i, len)
      invariant w.buf == old(w.buf) || fresh(w.buf)
    {
      Round(before, ts, vs, Offset(ts, len), i, len);
      OfItem(item, len, vs, i);
      EmbVarPack(item, vs[i], start + FixedSize(item) * i, w);
      i := i + 1;
    }
    AllPacked(before, ts, vs);
  }

  lemma NoBlanks(ts: seq<Type>, vs: seq<Value>)
    requires HaveTypes(vs, ts)
    ensures Blanks(ts, vs, 0, 0) == []
  {
  }

  lemma OfItem(item: Type, n: nat, vs: seq<Value>, i: nat)
    requires HaveTypes(vs, Rep(item, n)) && i < n
    ensures |vs| == n && Rep(item, n)[i] == item && HasType(vs[i], item)
    ensures Offset(Rep(item, n), i) == FixedSize(item) * i
  {
    hide FixedSize, HasType;
    assert HasType(vs[i], Rep(item, n)[i]);
    RepOffset(item, n, i);
  }

  lemma {:induction false} RepOffset(item: Type, n: nat, i: nat)
    requires i <= n
    ensures Offset(Rep(item, n), i) == FixedSize(item) * i
  {
    hide FixedSize, Rep;
    if i > 0 {
      RepTail(item, n);
      RepOffset(item, n - 1, i - 1);
      assert FixedSize(item) * i == FixedSize(item) + FixedSize(item) * (i - 1);
    }
  }

  /** A value's bytes, from a fresh writer. */
  method PackValue(t: Type, v: Value) returns (s: seq<byte>)
    requires HasType(v, t) && WellFormed(t)
    ensures s == Pack(t, v)
  {
    var w := new Writer(256);
    PackTo(t, v, w);
    s := w.Finish();
  }
}
