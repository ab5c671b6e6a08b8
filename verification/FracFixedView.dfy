/** The view of values of every type: fixed structs with optional parts, which their view reads through
    two offsets instead of one, at any depth (js/src/fracpack.ts, lines 292-301 and 1045-1066). */
module FracFixedView {
  import opened ByteStrings
  import opened Wrappers
  import opened FracTypes
  import opened FracView

  // ---------------------------------------------------------------- what is shown where

  /** The view shows the value packed at pos. Without optional parts of fixed structs inside, the
      bytes around do not matter. */
  predicate ShownAt(t: Type, v: Value, d: seq<byte>, pos: nat)
    requires WellFormed(t) && HasType(v, t)
    decreases v, t, 0
  {
    if Plain(t) then Viewable(t, v)
    else
      match t
      case Vec(elem) => ElementsShown(elem, v.items, d, pos + 4 + ElementsPart(elem, v.items))
      case Optional(inner) => v.Null? || IsEmptyContainer(inner, v) || ShownAt(inner, v, d, pos + 4)
      case Struct(fields) =>
        assert HaveTypes(v.items, fields);
        FieldsShown(fields, v.items, d, pos + 2 + Fixed(fields, v.items))
      case Variant(cases) => ShownAt(cases[v.index], v.value, d, pos + 5)
      case Tuple(elems) =>
        assert HaveTypes(v.items, elems);
        SlotsShown(elems, v.items, d, pos + 2 + Fixed(elems, v.items))
      case Array(item, len) => SlotsShown(Rep(item, len), v.items, d, pos + FixedTotal(Rep(item, len)))
      case FixedStruct(parts) => PartsShown(parts, v.items, d, pos + FixedTotal(parts))
      case _ => true
  }

  /** The elements that follow each other from h on. */
  predicate ElementsShown(elem: Type, vs: seq<Value>, d: seq<byte>, h: nat)
    requires WellFormed(elem) && forall v :: v in vs ==> HasType(v, elem)
    decreases vs, elem, 0
  {
    vs == [] || (ShownAt(elem, vs[0], d, h) && ElementsShown(elem, vs[1..], d, h + |Pack(elem, vs[0])|))
  }

  /** A value read through its slot, whose heap part, if any, is at h. */
  predicate SlotShown(t: Type, v: Value, d: seq<byte>, h: nat)
    requires WellFormed(t) && HasType(v, t)
    decreases v, t, 1
  {
    HasHeap(t, v) ==> ShownAt(Payload(t), v, d, h)
  }

  predicate SlotsShown(ts: seq<Type>, vs: seq<Value>, d: seq<byte>, h: nat)
    requires (forall t :: t in ts ==> WellFormed(t)) && HaveTypes(vs, ts)
    decreases vs, ts, 0
  {
    ts == [] || (SlotShown(ts[0], vs[0], d, h) && SlotsShown(ts[1..], vs[1..], d, h + |Heap(ts[0], vs[0])|))
  }

  predicate FieldsShown(ts: seq<Type>, vs: seq<Value>, d: seq<byte>, h: nat)
    requires (forall t :: t in ts ==> WellFormed(t)) && HaveTypes(vs, ts)
    decreases vs, ts, 0
  {
    ts == []
    || (!(ts[0].Optional? && IsEmptyContainer(ts[0].inner, vs[0])) && SlotShown(ts[0], vs[0], d, h)
        && FieldsShown(ts[1..], vs[1..], d, h + |Heap(ts[0], vs[0])|))
  }

  /** A part of a fixed struct: an optional is shown only if it has a heap part, and the first four
      bytes of that, taken as an offset from there, lead to the value once more. */
  predicate PartShown(t: Type, v: Value, d: seq<byte>, h: nat)
    requires WellFormed(t) && HasType(v, t)
    decreases v, t, 2
  {
    if t.Optional? then
      && HasHeap(t, v) && h + 4 <= |d| && Read32(d, h) > 1
      && View(t.inner, d, h + Read32(d, h)) == Ok(v)
    else SlotShown(t, v, d, h)
  }

  predicate PartsShown(ts: seq<Type>, vs: seq<Value>, d: seq<byte>, h: nat)
    requires (forall t :: t in ts ==> WellFormed(t)) && HaveTypes(vs, ts)
    decreases vs, ts, 0
  {
    ts == [] || (PartShown(ts[0], vs[0], d, h) && PartsShown(ts[1..], vs[1..], d, h + |Heap(ts[0], vs[0])|))
  }

  // ---------------------------------------------------------------- optional parts

  lemma ViewIsNotNull(t: Type, d: seq<byte>, pos: nat)
    requires WellFormed(t) && !t.Optional?
    ensures View(t, d, pos) != Ok(Null)
  {
    hide ViewFields, ViewElements, ViewTuple, ViewArray, ViewParts, Read32, Read16;
  }

  lemma NotItsEmptyForm(t: Type, v: Value)
    requires HasType(v, t) && !IsEmptyContainer(t, v)
    ensures EmptyOf(t) != Ok(v)
  {
  }

  /** A slot that says null: its last three bytes and the byte behind are taken for an offset. */
  lemma NullPartIsLost(t: Type, d: seq<byte>, s: nat)
    requires t.Optional? && WellFormed(t) && At(d, s, U32(1))
    ensures ViewPart(t, d, s) != Ok(Null)
  {
    hide View, WellFormed;
    AtInside(d, s, U32(1));
    Read32At(d, s, 1);
    AtIndex(d, s, U32(1), 1);
    assert Read32(d, s + 1) % 256 == 0;
    OptionalView(t, d, s + 1);
    if s + 5 <= |d| && Read32(d, s + 1) > 1 { ViewIsNotNull(t.inner, d, s + 1 + Read32(d, s + 1)); }
  }

  lemma OptionalView(t: Type, d: seq<byte>, pos: nat)
    requires t.Optional? && WellFormed(t)
    ensures WellFormed(t.inner) && !t.inner.Optional?
    ensures View(t, d, pos) ==
            if pos + 4 > |d| then Failure
            else if Read32(d, pos) == 1 then Ok(Null)
            else if Read32(d, pos) == 0 then EmptyOf(t.inner)
            else View(t.inner, d, pos + Read32(d, pos))
    ensures EmptyOf(t.inner) != Ok(Null)
  {
    hide Read32;
  }

  lemma OptionalPart(t: Type, d: seq<byte>, s: nat, h: nat, v: Value)
    requires t.Optional? && WellFormed(t) && HasType(v, t) && At(d, s, Slot(t, v, h - s)) && At(d, h, Heap(t, v))
    requires s + 4 <= h && h - s + |Heap(t, v)| < U32_LIMIT
    ensures ViewPart(t, d, s) == Ok(v) <==> PartShown(t, v, d, h)
  {
    hide View, Read32, U32, At, Pack, WellFormed, HasType;
    OptionalView(t, d, h);
    FieldFacts(t, v);
    AtInside(d, s, Slot(t, v, h - s));
    if v.Null? {
      NullPartIsLost(t, d, s);
    } else if IsEmptyContainer(t.inner, v) {
      Read32At(d, s, 0);
    } else {
      Read32At(d, s, h - s);
      NotItsEmptyForm(t.inner, v);
    }
  }

  // ---------------------------------------------------------------- the view shows exactly these

  lemma PrependIs(x: Result<Value>, rest: Result<seq<Value>>, vs: seq<Value>)
    requires vs != []
    ensures Prepend(x, rest) == Ok(vs) <==> x == Ok(vs[0]) && rest == Ok(vs[1..])
  {
    assert vs == [vs[0]] + vs[1..];
    if x.Ok? && rest.Ok? {
      assert ([x.value] + rest.value)[0] == x.value && ([x.value] + rest.value)[1..] == rest.value;
    }
  }

  /** Whatever surrounds a packed value of whatever type, the view reads it back exactly if it is
      shown there. */
  lemma {:induction false} ViewShows(t: Type, d: seq<byte>, pos: nat, v: Value)
    requires WellFormed(t) && HasType(v, t) && At(d, pos, Pack(t, v)) && |Pack(t, v)| < U32_LIMIT
    ensures View(t, d, pos) == Ok(v) <==> ShownAt(t, v, d, pos)
    decreases v, t, 1
  {
    hide Slots, Heaps, Elements, ElementSlots, ViewFields, ViewElements, Read32, Read16, U32, U16, Absent, Fixed, At, PackVec, PackStruct,
         AllSlots, PackParts, ViewTuple, ViewArray, ViewParts, Viewable, FixedTotal, FixedSize, IsVar, HaveTypes, Plain, ElementsShown,
         FieldsShown, SlotsShown, PartsShown;
    if Plain(t) {
      ViewReads(t, d, pos, v);
    } else {
      PlainLeaf(t);
      match t
      case Vec(elem) => VecShows(t, d, pos, v);
      case Optional(inner) => OptionalShows(t, d, pos, v);
      case Struct(fields) => StructShows(t, d, pos, v);
      case Variant(cases) => {
        VariantAt(d, cases, v, pos);
        ViewShows(cases[v.index], d, pos + 5, v.value);
      }
      case Tuple(elems) => TupleShows(t, d, pos, v);
      case Array(item, len) => ArrayShows(t, d, pos, v);
      case FixedStruct(parts) => FixedStructShows(t, d, pos, v);
    }
  }

  lemma PlainLeaf(t: Type)
    ensures t.Scalar? || t.Blob? ==> Plain(t)
  {
  }

  lemma {:induction false} VecShows(t: Type, d: seq<byte>, pos: nat, v: Value)
    requires t.Vec? && WellFormed(t) && !Plain(t) && HasType(v, t) && At(d, pos, Pack(t, v)) && |Pack(t, v)| < U32_LIMIT
    ensures View(t, d, pos) == Ok(v) <==> ShownAt(t, v, d, pos)
    decreases v, t, 0
  {
    hide Elements, ElementSlots, ViewElements, Read32, At, PackVec, ElementsAt, ElementsShown, Plain, FixedSize;
    VecAt(d, t.elem, v.items, pos);
    WholeSlots(|v.items|, FixedSize(t.elem));
    ElementsShow(t.elem, d, pos + 4, pos + 4 + ElementsPart(t.elem, v.items), v.items);
  }

  lemma {:induction false} ElementsShow(elem: Type, d: seq<byte>, s: nat, h: nat, vs: seq<Value>)
    requires WellFormed(elem) && ElementsAt(d, elem, vs, s, h) && |Elements(elem, vs)| < U32_LIMIT
    ensures ViewElements(elem, d, s, |vs|) == Ok(vs) <==> ElementsShown(elem, vs, d, h)
    decreases vs, elem, 0
  {
    hide View, ShownAt, At, Pack, Read32, U32, ElementSlots, FixedSize, IsVar, HasType, WellFormed, Elements, Prepend;
    if vs != [] {
      ElementsSize(elem, vs);
      ElementsAtStep(d, elem, vs, s, h);
      ViewShows(elem, d, h, vs[0]);
      if IsVar(elem) { Read32At(d, s, h - s); }
      ElementsShow(elem, d, s + FixedSize(elem), h + |Pack(elem, vs[0])|, vs[1..]);
      PrependIs(if !IsVar(elem) then View(elem, d, s)
                else if s + 4 > |d| then Failure
                else View(elem, d, s + Read32(d, s)),
                ViewElements(elem, d, s + FixedSize(elem), |vs| - 1), vs);
    }
  }

  lemma {:induction false} OptionalShows(t: Type, d: seq<byte>, pos: nat, v: Value)
    requires t.Optional? && WellFormed(t) && !Plain(t) && HasType(v, t) && At(d, pos, Pack(t, v)) && |Pack(t, v)| < U32_LIMIT
    ensures View(t, d, pos) == Ok(v) <==> ShownAt(t, v, d, pos)
    decreases v, t, 0
  {
    hide View, Read32, U32, At, Plain, WellFormed, HasType;
    OptionalView(t, d, pos);
    FieldFacts(t, v);
    if v.Null? {
      AtInside(d, pos, U32(1));
      Read32At(d, pos, 1);
    } else if IsEmptyContainer(t.inner, v) {
      AtInside(d, pos, U32(0));
      Read32At(d, pos, 0);
    } else {
      AtSplit(d, pos, U32(4), Pack(t.inner, v));
      AtInside(d, pos, U32(4));
      Read32At(d, pos, 4);
      ViewShows(t.inner, d, pos + 4, v);
    }
  }

  lemma {:induction false} StructShows(t: Type, d: seq<byte>, pos: nat, v: Value)
    requires t.Struct? && WellFormed(t) && !Plain(t) && HasType(v, t) && At(d, pos, Pack(t, v)) && |Pack(t, v)| < U32_LIMIT
    ensures View(t, d, pos) == Ok(v) <==> ShownAt(t, v, d, pos)
    decreases v, t, 0
  {
    hide FieldsAt, Heaps, ViewFields, Read16, At, PackStruct, FixedTotal, Fixed, FieldsShown, Plain;
    StructAt(d, t.fields, v.items, pos);
    FieldsShow(t.fields, d, pos + 2, pos + 2 + Fixed(t.fields, v.items), v.items);
  }

  lemma {:induction false} TupleShows(t: Type, d: seq<byte>, pos: nat, v: Value)
    requires t.Tuple? && WellFormed(t) && !Plain(t) && HasType(v, t) && At(d, pos, Pack(t, v)) && |Pack(t, v)| < U32_LIMIT
    ensures View(t, d, pos) == Ok(v) <==> ShownAt(t, v, d, pos)
    decreases v, t, 0
  {
    hide FieldsAt, Heaps, ViewTuple, Read16, At, PackStruct, FixedTotal, Fixed, SlotsShown, Plain;
    StructAt(d, t.elems, v.items, pos);
    TupleSlotsShow(t.elems, d, pos + 2, pos + 2 + Fixed(t.elems, v.items), v.items);
  }

  lemma {:induction false} ArrayShows(t: Type, d: seq<byte>, pos: nat, v: Value)
    requires t.Array? && WellFormed(t) && !Plain(t) && HasType(v, t) && At(d, pos, Pack(t, v)) && |Pack(t, v)| < U32_LIMIT
    ensures View(t, d, pos) == Ok(v) <==> ShownAt(t, v, d, pos)
    decreases v, t, 0
  {
    hide PartsAt, Heaps, ViewArray, At, PackParts, FixedTotal, SlotsShown, Rep, HaveTypes, Plain;
    var ts := Rep(t.item, t.len);
    PartsHere(d, ts, v.items, pos);
    ArraySlotsShow(t.item, t.len, d, pos, pos + FixedTotal(ts), v.items);
  }

  lemma {:induction false} FixedStructShows(t: Type, d: seq<byte>, pos: nat, v: Value)
    requires t.FixedStruct? && WellFormed(t) && HasType(v, t) && At(d, pos, Pack(t, v)) && |Pack(t, v)| < U32_LIMIT
    ensures View(t, d, pos) == Ok(v) <==> PartsShown(t.parts, v.items, d, pos + FixedTotal(t.parts))
    decreases v, t, 0
  {
    hide PartsAt, Heaps, ViewParts, At, PackParts, FixedTotal, PartsShown, HaveTypes;
    PartsHere(d, t.parts, v.items, pos);
    PartsShow(t.parts, d, pos, pos + FixedTotal(t.parts), v.items);
  }

  /** What follows a slot whose value stands in it is shown; else the heap part decides. */
  lemma {:induction false} HeapShows(t: Type, d: seq<byte>, h: nat, v: Value)
    requires WellFormed(t) && HasType(v, t) && At(d, h, Heap(t, v)) && |Heap(t, v)| < U32_LIMIT && HasHeap(t, v)
    ensures WellFormed(Payload(t)) && (View(Payload(t), d, h) == Ok(v) <==> SlotShown(t, v, d, h))
    decreases v, t, 2
  {
    hide View, ShownAt, At, Pack, HasType, WellFormed;
    PayloadFacts(t, v);
    ViewShows(Payload(t), d, h, v);
  }

  lemma PayloadFacts(t: Type, v: Value)
    requires WellFormed(t) && HasType(v, t) && !v.Null?
    ensures WellFormed(Payload(t)) && HasType(v, Payload(t))
  {
  }

  lemma InlineShows(t: Type, d: seq<byte>, s: nat, v: Value)
    requires WellFormed(t) && HasType(v, t) && !IsVar(t) && At(d, s, Pack(t, v)) && |Pack(t, v)| < U32_LIMIT
    ensures View(t, d, s) == Ok(v)
  {
    hide View, Viewable, Pack, HasType, WellFormed, Plain, At;
    FlatPlain(t);
    FlatViewable(t, v);
    ViewReads(t, d, s, v);
  }

  lemma {:induction false} SlotShows(t: Type, d: seq<byte>, s: nat, h: nat, v: Value)
    requires WellFormed(t) && HasType(v, t) && At(d, s, Slot(t, v, h - s)) && At(d, h, Heap(t, v))
    requires s + FixedSize(t) <= h && h - s + |Heap(t, v)| < U32_LIMIT
    ensures ViewSlot(t, d, s) == Ok(v) <==> SlotShown(t, v, d, h)
    decreases v, t, 3
  {
    hide View, SlotShown, Read32, U32, At, Pack, FixedSize, IsVar, HasType, WellFormed;
    FieldFacts(t, v);
    if !IsVar(t) {
      InlineShows(t, d, s, v);
      NoHeapShown(t, v, d, h);
    } else {
      AtInside(d, s, Slot(t, v, h - s));
      if v.Null? {
        Read32At(d, s, 1);
        NoHeapShown(t, v, d, h);
      } else if IsEmptyContainer(Payload(t), v) {
        Read32At(d, s, 0);
        ViewableEmpty(Payload(t), v);
        NoHeapShown(t, v, d, h);
      } else {
        Read32At(d, s, h - s);
        HeapShows(t, d, h, v);
      }
    }
  }

  lemma NoHeapShown(t: Type, v: Value, d: seq<byte>, h: nat)
    requires WellFormed(t) && HasType(v, t) && !HasHeap(t, v)
    ensures SlotShown(t, v, d, h)
  {
  }

  lemma {:induction false} FieldShows(t: Type, d: seq<byte>, s: nat, h: nat, end: nat, v: Value)
    requires WellFormed(t) && HasType(v, t) && At(d, s, Slot(t, v, h - s)) && At(d, h, Heap(t, v))
    requires s + FixedSize(t) <= end && s + FixedSize(t) <= h && h - s + |Heap(t, v)| < U32_LIMIT
    ensures ViewField(t, d, s, end) == Ok(v) <==> !(t.Optional? && IsEmptyContainer(t.inner, v)) && SlotShown(t, v, d, h)
    decreases v, t, 4
  {
    hide View, SlotShown, Read32, U32, At, Pack, FixedSize, IsVar, HasType, WellFormed;
    FieldFacts(t, v);
    if t.Optional? && IsEmptyContainer(t.inner, v) {
      OptionalIsVar(t);
      AtInside(d, s, Slot(t, v, h - s));
      Read32At(d, s, 0);
    } else {
      SlotShows(t, d, s, h, v);
      FieldIsSlot(t, d, s, h, end, v);
    }
  }

  lemma OptionalIsVar(t: Type)
    requires t.Optional?
    ensures IsVar(t) && FixedSize(t) == 4
  {
  }

  /** A slot in a struct is read like others unless it says that an optional container is empty. */
  lemma FieldIsSlot(t: Type, d: seq<byte>, s: nat, h: nat, end: nat, v: Value)
    requires WellFormed(t) && HasType(v, t) && At(d, s, Slot(t, v, h - s)) && s + FixedSize(t) <= end
    requires IsVar(t) ==> !(t.Optional? && IsEmptyContainer(t.inner, v)) && s + 4 <= h && h - s < U32_LIMIT
    ensures ViewField(t, d, s, end) == ViewSlot(t, d, s)
  {
    hide View, Read32, U32, At, Pack, HasType, WellFormed, FixedSize;
    if IsVar(t) {
      AtInside(d, s, Slot(t, v, h - s));
      if v.Null? {
        Read32At(d, s, 1);
      } else if HasHeap(t, v) {
        Read32At(d, s, h - s);
      }
    }
  }

  lemma {:induction false} FieldsShow(ts: seq<Type>, d: seq<byte>, s: nat, h: nat, vs: seq<Value>)
    requires (forall t :: t in ts ==> WellFormed(t)) && FieldsAt(d, ts, vs, s, h)
    ensures ViewFields(ts, d, s, s + Fixed(ts, vs)) == Ok(vs) <==> FieldsShown(ts, vs, d, h)
    decreases vs, ts, 0
  {
    hide ViewField, SlotShown, At, Slot, Heap, Slots, Heaps, Absent, FixedSize, HasType, WellFormed, Prepend;
    if Absent(ts, vs) {
      NoneFixed(ts, vs);
      ViewAbsent(ts, d, s, s, vs);
      AbsentShown(ts, vs, d, h);
    } else {
      FieldsAtStep(d, ts, vs, s, h);
      FieldsUnfold(ts, vs, h - s);
      FieldShows(ts[0], d, s, h, s + Fixed(ts, vs), vs[0]);
      FieldsShow(ts[1..], d, s + FixedSize(ts[0]), h + |Heap(ts[0], vs[0])|, vs[1..]);
      PrependIs(ViewField(ts[0], d, s, s + Fixed(ts, vs)), ViewFields(ts[1..], d, s + FixedSize(ts[0]), s + Fixed(ts, vs)), vs);
    }
  }

  lemma {:induction false} AbsentShown(ts: seq<Type>, vs: seq<Value>, d: seq<byte>, h: nat)
    requires (forall t :: t in ts ==> WellFormed(t)) && HaveTypes(vs, ts) && Absent(ts, vs)
    ensures FieldsShown(ts, vs, d, h) && SlotsShown(ts, vs, d, h)
    decreases |ts|
  {
    hide ShownAt, HasType, Heap;
    if ts != [] { AbsentShown(ts[1..], vs[1..], d, h + |Heap(ts[0], vs[0])|); }
  }

  lemma {:induction false} TupleSlotsShow(ts: seq<Type>, d: seq<byte>, s: nat, h: nat, vs: seq<Value>)
    requires (forall t :: t in ts ==> WellFormed(t)) && FieldsAt(d, ts, vs, s, h)
    ensures ViewTuple(ts, d, s, s + Fixed(ts, vs)) == Ok(vs) <==> SlotsShown(ts, vs, d, h)
    decreases vs, ts, 0
  {
    hide ViewSlot, SlotShown, At, Slot, Heap, Slots, Heaps, Absent, Required, FixedSize, HasType, WellFormed, Prepend, AllViewable;
    if Absent(ts, vs) {
      NoneFixed(ts, vs);
      ViewTupleAbsent(ts, d, s, s, vs);
      AbsentShown(ts, vs, d, h);
    } else {
      FieldsAtStep(d, ts, vs, s, h);
      FieldsUnfold(ts, vs, h - s);
      SlotShows(ts[0], d, s, h, vs[0]);
      TupleSlotsShow(ts[1..], d, s + FixedSize(ts[0]), h + |Heap(ts[0], vs[0])|, vs[1..]);
      PrependIs(ViewSlot(ts[0], d, s), ViewTuple(ts[1..], d, s + FixedSize(ts[0]), s + Fixed(ts, vs)), vs);
    }
  }

  lemma {:induction false} ArraySlotsShow(item: Type, n: nat, d: seq<byte>, s: nat, h: nat, vs: seq<Value>)
    requires WellFormed(item) && PartsAt(d, Rep(item, n), vs, s, h)
    ensures ViewArray(item, d, s, n) == Ok(vs) <==> SlotsShown(Rep(item, n), vs, d, h)
    decreases vs, item, 0
  {
    hide ViewSlot, SlotShown, At, Slot, Heap, AllSlots, Heaps, Rep, FixedSize, HasType, WellFormed, Prepend;
    if n > 0 {
      RepTail(item, n);
      PartsAtStep(d, Rep(item, n), vs, s, h);
      SlotShows(item, d, s, h, vs[0]);
      ArraySlotsShow(item, n - 1, d, s + FixedSize(item), h + |Heap(item, vs[0])|, vs[1..]);
      PrependIs(ViewSlot(item, d, s), ViewArray(item, d, s + FixedSize(item), n - 1), vs);
    }
  }

  lemma {:induction false} PartsShow(ts: seq<Type>, d: seq<byte>, s: nat, h: nat, vs: seq<Value>)
    requires (forall t :: t in ts ==> WellFormed(t)) && PartsAt(d, ts, vs, s, h)
    ensures ViewParts(ts, d, s) == Ok(vs) <==> PartsShown(ts, vs, d, h)
    decreases vs, ts, 0
  {
    hide ViewPart, At, Slot, Heap, AllSlots, Heaps, FixedSize, HasType, WellFormed, PartShown, Prepend;
    if ts != [] {
      PartsAtStep(d, ts, vs, s, h);
      PartReads(ts[0], d, s, h, vs[0]);
      PartsShow(ts[1..], d, s + FixedSize(ts[0]), h + |Heap(ts[0], vs[0])|, vs[1..]);
      PrependIs(ViewPart(ts[0], d, s), ViewParts(ts[1..], d, s + FixedSize(ts[0])), vs);
    }
  }

  lemma {:induction false} PartReads(t: Type, d: seq<byte>, s: nat, h: nat, v: Value)
    requires WellFormed(t) && HasType(v, t) && At(d, s, Slot(t, v, h - s)) && At(d, h, Heap(t, v))
    requires s + FixedSize(t) <= h && h - s + |Heap(t, v)| < U32_LIMIT
    ensures ViewPart(t, d, s) == Ok(v) <==> PartShown(t, v, d, h)
    decreases v, t, 4
  {
    hide View, SlotShown, ViewSlot, ViewPart, Read32, U32, At, Pack, Slot, Heap, HasType, HasHeap;
    if t.Optional? {
      OptionalPart(t, d, s, h, v);
    } else {
      SlotShows(t, d, s, h, v);
      PartIsSlot(t, d, s);
    }
  }

  // ---------------------------------------------------------------- fixed structs

  /** Whatever surrounds a packed fixed struct, its view reads the value back exactly when each
      part that is no optional is shown and every optional part happens to be found once more. */
  lemma FixedStructReads(t: Type, d: seq<byte>, pos: nat, v: Value)
    requires t.FixedStruct? && WellFormed(t) && HasType(v, t) && At(d, pos, Pack(t, v)) && |Pack(t, v)| < U32_LIMIT
    ensures View(t, d, pos) == Ok(v) <==> PartsShown(t.parts, v.items, d, pos + FixedTotal(t.parts))
  {
    FixedStructShows(t, d, pos, v);
  }

  lemma {:induction false} NullIsNotShown(ts: seq<Type>, vs: seq<Value>, d: seq<byte>, h: nat, i: nat)
    requires (forall t :: t in ts ==> WellFormed(t)) && HaveTypes(vs, ts) && i < |ts|
    requires ts[i].Optional? && !HasHeap(ts[i], vs[i])
    ensures !PartsShown(ts, vs, d, h)
    decreases i
  {
    hide View, SlotShown, Read32, Heap, HasType;
    if i > 0 { NullIsNotShown(ts[1..], vs[1..], d, h + |Heap(ts[0], vs[0])|, i - 1); }
  }

  /** Null and empty containers in optional parts are never viewed right, whatever surrounds the
      value and whatever the other parts are. */
  lemma AbsentPartIsLost(t: Type, d: seq<byte>, pos: nat, v: Value, i: nat)
    requires t.FixedStruct? && WellFormed(t) && HasType(v, t) && At(d, pos, Pack(t, v)) && |Pack(t, v)| < U32_LIMIT
    requires i < |t.parts| == |v.items| && t.parts[i].Optional? && (v.items[i].Null? || IsEmptyContainer(t.parts[i].inner, v.items[i]))
    ensures View(t, d, pos) != Ok(v)
  {
    hide View, At, Pack, PartsShown, FixedTotal;
    FixedStructReads(t, d, pos, v);
    NullIsNotShown(t.parts, v.items, d, pos + FixedTotal(t.parts), i);
  }
}
