/** Where the parts of a packed value lie, and the lazy view that reads them (js/src/fracpack.ts). */
module FracView {
  import opened ByteStrings
  import opened Wrappers
  import opened FracTypes
  import opened Powers

  // ---------------------------------------------------------------- layout

  /** The slots of the fields are at s and their heap parts at h. */
  predicate FieldsAt(d: seq<byte>, ts: seq<Type>, vs: seq<Value>, s: nat, h: nat) {
    && HaveTypes(vs, ts) && s + Fixed(ts, vs) <= h
    && At(d, s, Slots(ts, vs, h - s)) && At(d, h, Heaps(ts, vs))
    && h + |Heaps(ts, vs)| < s + U32_LIMIT
  }

  lemma FieldsUnfold(ts: seq<Type>, vs: seq<Value>, dist: int)
    requires HaveTypes(vs, ts) && !Absent(ts, vs)
    ensures ts != [] && HaveTypes(vs[1..], ts[1..])
    ensures Slots(ts, vs, dist) ==
            Slot(ts[0], vs[0], dist) + Slots(ts[1..], vs[1..], dist - FixedSize(ts[0]) + |Heap(ts[0], vs[0])|)
    ensures Heaps(ts, vs) == Heap(ts[0], vs[0]) + Heaps(ts[1..], vs[1..])
    ensures Fixed(ts, vs) == FixedSize(ts[0]) + Fixed(ts[1..], vs[1..])
  {
  }

  /** One field further. */
  lemma FieldsAtStep(d: seq<byte>, ts: seq<Type>, vs: seq<Value>, s: nat, h: nat)
    requires FieldsAt(d, ts, vs, s, h) && !Absent(ts, vs)
    ensures At(d, s, Slot(ts[0], vs[0], h - s)) && At(d, h, Heap(ts[0], vs[0]))
    ensures FieldsAt(d, ts[1..], vs[1..], s + FixedSize(ts[0]), h + |Heap(ts[0], vs[0])|)
    ensures s + FixedSize(ts[0]) <= h && h - s + |Heap(ts[0], vs[0])| < U32_LIMIT
  {
    hide Heap, Slot, At, Slots, Heaps, Fixed, Absent;
    FieldsUnfold(ts, vs, h - s);
    var gap := h - s - FixedSize(ts[0]) + |Heap(ts[0], vs[0])|;
    AtSplit(d, s, Slot(ts[0], vs[0], h - s), Slots(ts[1..], vs[1..], gap));
    AtSplit(d, h, Heap(ts[0], vs[0]), Heaps(ts[1..], vs[1..]));
  }

  lemma {:induction false} SlotsSize(ts: seq<Type>, vs: seq<Value>, dist: int)
    requires HaveTypes(vs, ts)
    ensures |Slots(ts, vs, dist)| == Fixed(ts, vs)
    decreases |ts|
  {
    hide Heap, Slot;
    if !Absent(ts, vs) {
      SlotsSize(ts[1..], vs[1..], dist - FixedSize(ts[0]) + |Heap(ts[0], vs[0])|);
    }
  }

  lemma {:induction false} AbsentHeaps(ts: seq<Type>, vs: seq<Value>)
    requires HaveTypes(vs, ts) && Absent(ts, vs)
    ensures Heaps(ts, vs) == []
    decreases |ts|
  {
    if ts != [] { AbsentHeaps(ts[1..], vs[1..]); }
  }

  /** A packed struct: its header, then its slots and heap parts. */
  lemma StructAt(d: seq<byte>, ts: seq<Type>, vs: seq<Value>, pos: nat)
    requires HaveTypes(vs, ts) && At(d, pos, PackStruct(ts, vs))
    requires FixedTotal(ts) < U16_LIMIT && |PackStruct(ts, vs)| < U32_LIMIT
    ensures pos + 2 <= |d| && Read16(d, pos) == Fixed(ts, vs)
    ensures FieldsAt(d, ts, vs, pos + 2, pos + 2 + Fixed(ts, vs))
    ensures |PackStruct(ts, vs)| == 2 + Fixed(ts, vs) + |Heaps(ts, vs)|
  {
    hide At, Slots, Heaps, Read16, U16;
    var f := Fixed(ts, vs);
    SlotsSize(ts, vs, f);
    AtSplit(d, pos, U16(f) + Slots(ts, vs, f), Heaps(ts, vs));
    AtSplit(d, pos, U16(f), Slots(ts, vs, f));
    Read16At(d, pos, f);
    AtInside(d, pos, U16(f));
  }

  /** The slots of all parts are at s and their heap parts at h. */
  predicate PartsAt(d: seq<byte>, ts: seq<Type>, vs: seq<Value>, s: nat, h: nat) {
    && HaveTypes(vs, ts) && s + FixedTotal(ts) <= h
    && At(d, s, AllSlots(ts, vs, h - s)) && At(d, h, Heaps(ts, vs))
    && h + |Heaps(ts, vs)| < s + U32_LIMIT
  }

  lemma PartsUnfold(ts: seq<Type>, vs: seq<Value>, dist: int)
    requires HaveTypes(vs, ts) && ts != []
    ensures HaveTypes(vs[1..], ts[1..])
    ensures AllSlots(ts, vs, dist) ==
            Slot(ts[0], vs[0], dist) + AllSlots(ts[1..], vs[1..], dist - FixedSize(ts[0]) + |Heap(ts[0], vs[0])|)
    ensures Heaps(ts, vs) == Heap(ts[0], vs[0]) + Heaps(ts[1..], vs[1..])
    ensures FixedTotal(ts) == FixedSize(ts[0]) + FixedTotal(ts[1..])
  {
    hide Slot, Heap, HasType, FixedSize;
  }

  /** One part further. */
  lemma PartsAtStep(d: seq<byte>, ts: seq<Type>, vs: seq<Value>, s: nat, h: nat)
    requires PartsAt(d, ts, vs, s, h) && ts != []
    ensures At(d, s, Slot(ts[0], vs[0], h - s)) && At(d, h, Heap(ts[0], vs[0]))
    ensures PartsAt(d, ts[1..], vs[1..], s + FixedSize(ts[0]), h + |Heap(ts[0], vs[0])|)
    ensures s + FixedSize(ts[0]) <= h && h - s + |Heap(ts[0], vs[0])| < U32_LIMIT
  {
    hide Heap, Slot, At, AllSlots, Heaps, FixedTotal, FixedSize;
    PartsUnfold(ts, vs, h - s);
    var gap := h - s - FixedSize(ts[0]) + |Heap(ts[0], vs[0])|;
    AtSplit(d, s, Slot(ts[0], vs[0], h - s), AllSlots(ts[1..], vs[1..], gap));
    AtSplit(d, h, Heap(ts[0], vs[0]), Heaps(ts[1..], vs[1..]));
  }

  /** Packed parts: their slots, then their heap parts. */
  lemma PartsHere(d: seq<byte>, ts: seq<Type>, vs: seq<Value>, pos: nat)
    requires HaveTypes(vs, ts) && At(d, pos, PackParts(ts, vs)) && |PackParts(ts, vs)| < U32_LIMIT
    ensures PartsAt(d, ts, vs, pos, pos + FixedTotal(ts)) && pos + FixedTotal(ts) <= |d|
    ensures |PackParts(ts, vs)| == FixedTotal(ts) + |Heaps(ts, vs)|
  {
    hide At, AllSlots, Heaps, FixedTotal, HasType;
    AtSplit(d, pos, AllSlots(ts, vs, FixedTotal(ts)), Heaps(ts, vs));
    AtInside(d, pos, AllSlots(ts, vs, FixedTotal(ts)));
  }

  lemma RepTail(t: Type, n: nat)
    requires n > 0
    ensures Rep(t, n)[0] == t && Rep(t, n)[1..] == Rep(t, n - 1)
  {
  }

  lemma AtInside(d: seq<byte>, pos: nat, part: seq<byte>)
    requires At(d, pos, part)
    ensures pos + |part| <= |d|
  {
  }

  /** The elements of a list: slots at s and packed elements at h, or the elements alone at s. */
  predicate ElementsAt(d: seq<byte>, elem: Type, vs: seq<Value>, s: nat, h: nat) {
    && (forall v :: v in vs ==> HasType(v, elem))
    && At(d, h, Elements(elem, vs))
    && if IsVar(elem) then
         s + 4 * |vs| <= h && h + |Elements(elem, vs)| < s + U32_LIMIT && At(d, s, ElementSlots(elem, vs, h - s))
       else h == s
  }

  lemma ElementsAtStep(d: seq<byte>, elem: Type, vs: seq<Value>, s: nat, h: nat)
    requires ElementsAt(d, elem, vs, s, h) && vs != []
    ensures HasType(vs[0], elem) && At(d, h, Pack(elem, vs[0]))
    ensures IsVar(elem) ==> s + 4 <= h && s + 4 <= |d| && At(d, s, U32(h - s)) && h - s + |Pack(elem, vs[0])| < U32_LIMIT
    ensures ElementsAt(d, elem, vs[1..], s + FixedSize(elem), h + |Pack(elem, vs[0])|)
  {
    hide At, Pack, FixedSize, IsVar, HasType, U32;
    AtSplit(d, h, Pack(elem, vs[0]), Elements(elem, vs[1..]));
    if IsVar(elem) {
      AtSplit(d, s, U32(h - s), ElementSlots(elem, vs[1..], h - s - 4 + |Pack(elem, vs[0])|));
      AtInside(d, s, U32(h - s));
    }
  }

  /** The part of a packed list that holds its elements. */
  function ElementsPart(elem: Type, vs: seq<Value>): nat {
    if IsVar(elem) then 4 * |vs| else 0
  }

  lemma VecAt(d: seq<byte>, elem: Type, vs: seq<Value>, pos: nat)
    requires (forall v :: v in vs ==> HasType(v, elem)) && WellFormed(elem)
    requires At(d, pos, PackVec(elem, vs)) && |PackVec(elem, vs)| < U32_LIMIT
    ensures pos + 4 <= |d| && Read32(d, pos) == |vs| * FixedSize(elem)
    ensures ElementsAt(d, elem, vs, pos + 4, pos + 4 + ElementsPart(elem, vs))
    ensures |PackVec(elem, vs)| == 4 + ElementsPart(elem, vs) + |Elements(elem, vs)|
    ensures pos + 4 + |vs| * FixedSize(elem) <= |d|
    ensures !IsVar(elem) ==> |Elements(elem, vs)| == |vs| * FixedSize(elem)
  {
    hide At, Elements, ElementSlots, Read32, U32;
    var slots := if IsVar(elem) then ElementSlots(elem, vs, 4 * |vs|) else [];
    AtSplit(d, pos, U32(|vs| * FixedSize(elem)) + slots, Elements(elem, vs));
    AtSplit(d, pos, U32(|vs| * FixedSize(elem)), slots);
    AtInside(d, pos, PackVec(elem, vs));
    if !IsVar(elem) { FlatElements(elem, vs); }
    Read32At(d, pos, |vs| * FixedSize(elem));
  }

  lemma {:induction false} FlatElements(elem: Type, vs: seq<Value>)
    requires (forall v :: v in vs ==> HasType(v, elem)) && !IsVar(elem)
    ensures |Elements(elem, vs)| == |vs| * FixedSize(elem)
  {
    hide Pack, HasType, FixedSize, IsVar;
    if vs != [] {
      FlatElements(elem, vs[1..]);
      OneMore(|vs[1..]|, FixedSize(elem));
    }
  }

  lemma OneMore(n: nat, size: nat)
    ensures (n + 1) * size == n * size + size
  {
  }

  lemma VariantAt(d: seq<byte>, cases: seq<Type>, v: Value, pos: nat)
    requires HasType(v, Variant(cases)) && |cases| <= 256
    requires At(d, pos, Pack(Variant(cases), v)) && |Pack(Variant(cases), v)| < U32_LIMIT
    ensures pos + 5 <= |d| && d[pos] == v.index
    ensures At(d, pos + 5, Pack(cases[v.index], v.value)) && Read32(d, pos + 1) == |Pack(cases[v.index], v.value)|
    ensures |Pack(Variant(cases), v)| == 5 + |Pack(cases[v.index], v.value)|
  {
    hide Read32, U32;
    var body := Pack(cases[v.index], v.value);
    var tag: seq<byte> := [v.index % 256];
    AtSplit(d, pos, tag + U32(|body|), body);
    AtSplit(d, pos, tag, U32(|body|));
    AtIndex(d, pos, tag, 0);
    Read32At(d, pos + 1, |body|);
  }

  lemma BlobAt(d: seq<byte>, bytes: seq<byte>, pos: nat)
    requires At(d, pos, U32(|bytes|) + bytes) && |bytes| < U32_LIMIT
    ensures pos + 4 + |bytes| <= |d| && Read32(d, pos) == |bytes| && d[pos + 4..pos + 4 + |bytes|] == bytes
  {
    AtSplit(d, pos, U32(|bytes|), bytes);
    Read32At(d, pos, |bytes|);
  }

  lemma PackNotEmpty(t: Type, v: Value)
    requires HasType(v, t)
    ensures |Pack(t, v)| >= 1
  {
    hide Slots, Heaps, Elements, ElementSlots, FixedTotal;
    match t
    case Array(item, len) => PartsNotEmpty(Rep(item, len), v.items);
    case FixedStruct(parts) => PartsNotEmpty(parts, v.items);
    case _ =>
  }

  lemma PartsNotEmpty(ts: seq<Type>, vs: seq<Value>)
    requires HaveTypes(vs, ts) && ts != []
    ensures |PackParts(ts, vs)| >= 1
  {
    hide HasType, FixedTotal, Heaps, AllSlots;
  }

  // ---------------------------------------------------------------- the view

  function Min(a: nat, b: nat): nat {
    if a < b then a else b
  }

  /** The value a zero offset stands for; only lists and byte strings have one. */
  function EmptyOf(t: Type): Result<Value> {
    if t.Blob? then Ok(Data([])) else if t.Vec? then Ok(Items([])) else Failure
  }

  function Prepend(x: Result<Value>, rest: Result<seq<Value>>): Result<seq<Value>> {
    if x.Ok? && rest.Ok? then Ok([x.value] + rest.value) else Failure
  }

  function AsItems(r: Result<seq<Value>>): Result<Value> {
    if r.Ok? then Ok(Items(r.value)) else Failure
  }

  /** The value at pos, with everything a reader can reach from it. */
  function View(t: Type, d: seq<byte>, pos: nat): Result<Value>
    requires WellFormed(t)
    decreases t, 0
  {
    match t
    case Scalar(size, isBool) =>
      if pos + size > |d| then Failure
      else
        var n := Unle(d[pos..pos + size]);
        if isBool && n > 1 then Failure else Ok(Number(n))
    case Blob(isText) =>
      if pos + 4 > |d| && !isText then Failure
      else Ok(Data(d[Min(|d|, pos + 4)..Min(|d|, pos + 4 + Read32(d, pos))]))
    case Vec(elem) =>
      if pos + 4 > |d| || Read32(d, pos) % FixedSize(elem) != 0 then Failure
      else AsItems(ViewElements(elem, d, pos + 4, Read32(d, pos) / FixedSize(elem)))
    case Optional(inner) =>
      if pos + 4 > |d| then Failure
      else if Read32(d, pos) == 1 then Ok(Null)
      else if Read32(d, pos) == 0 then EmptyOf(inner)
      else View(inner, d, pos + Read32(d, pos))
    case Struct(fields) =>
      if pos + 2 > |d| then Failure
      else AsItems(ViewFields(fields, d, pos + 2, pos + 2 + Read16(d, pos)))
    case Variant(cases) =>
      if pos >= |d| || d[pos] >= |cases| then Failure
      else
        var value := View(cases[d[pos]], d, pos + 5);
        if value.Ok? then Ok(Case(d[pos], value.value)) else Failure
    case Tuple(elems) =>
      if pos + 2 > |d| then Failure
      else AsItems(ViewTuple(elems, d, pos + 2, pos + 2 + Read16(d, pos)))
    case Array(item, len) => AsItems(ViewArray(item, d, pos, len))
    case FixedStruct(parts) => AsItems(ViewParts(parts, d, pos))
  }

  /** A value embedded among others, read through its slot: what arrays and tuples do. */
  function ViewSlot(t: Type, d: seq<byte>, slot: nat): Result<Value>
    requires WellFormed(t)
    decreases t, 1
  {
    if !IsVar(t) then View(t, d, slot)
    else if slot + 4 > |d| then Failure
    else if t.Optional? && Read32(d, slot) == 1 then Ok(Null)
    else if Read32(d, slot) == 0 then EmptyOf(Payload(t))
    else View(Payload(t), d, slot + Read32(d, slot))
  }

  function ViewArray(item: Type, d: seq<byte>, slot: nat, n: nat): Result<seq<Value>>
    requires WellFormed(item)
    decreases item, n + 1
  {
    if n == 0 then Ok([])
    else Prepend(ViewSlot(item, d, slot), ViewArray(item, d, slot + FixedSize(item), n - 1))
  }

  /** The parts of a tuple; optional ones missing at the end are null. */
  function ViewTuple(ts: seq<Type>, d: seq<byte>, slot: nat, heap: nat): Result<seq<Value>>
    requires forall t :: t in ts ==> WellFormed(t)
    decreases ts
  {
    if ts == [] then Ok([])
    else if Required(ts) || slot < heap then
      Prepend(ViewSlot(ts[0], d, slot), ViewTuple(ts[1..], d, slot + FixedSize(ts[0]), heap))
    else Prepend(Ok(Null), ViewTuple(ts[1..], d, slot, heap))
  }

  /** Some field from here on is not optional. */
  predicate Required(ts: seq<Type>) {
    ts != [] && (!ts[0].Optional? || Required(ts[1..]))
  }

  /** A part of a fixed struct. What an optional's offset leads to is taken for the optional, so
      that its first bytes are taken for another offset; and 1 is an offset like others. */
  function ViewPart(t: Type, d: seq<byte>, slot: nat): Result<Value>
    requires WellFormed(t)
    decreases t, 1
  {
    if !IsVar(t) then View(t, d, slot)
    else if slot + 4 > |d| then Failure
    else if Read32(d, slot) == 0 then EmptyOf(t)
    else View(t, d, slot + Read32(d, slot))
  }

  function ViewParts(ts: seq<Type>, d: seq<byte>, slot: nat): Result<seq<Value>>
    requires forall t :: t in ts ==> WellFormed(t)
    decreases ts
  {
    if ts == [] then Ok([]) else Prepend(ViewPart(ts[0], d, slot), ViewParts(ts[1..], d, slot + FixedSize(ts[0])))
  }

  function ViewElements(elem: Type, d: seq<byte>, slot: nat, n: nat): Result<seq<Value>>
    requires WellFormed(elem)
    decreases elem, n + 1
  {
    if n == 0 then Ok([])
    else
      var x := if !IsVar(elem) then View(elem, d, slot)
               else if slot + 4 > |d| then Failure
               else View(elem, d, slot + Read32(d, slot));
      Prepend(x, ViewElements(elem, d, slot + FixedSize(elem), n - 1))
  }

  /** A field of a struct, read through its slot. */
  function ViewField(t: Type, d: seq<byte>, slot: nat, end: nat): Result<Value>
    requires WellFormed(t)
    decreases t, 1
  {
    if slot + FixedSize(t) > end then Ok(Null)
    else if !IsVar(t) then View(t, d, slot)
    else if slot + 4 > |d| then Failure
    else if Read32(d, slot) == 0 then EmptyOf(t)
    else if Read32(d, slot) == 1 && t.Optional? then Ok(Null)
    else View(Payload(t), d, slot + Read32(d, slot))
  }

  function ViewFields(ts: seq<Type>, d: seq<byte>, slot: nat, end: nat): Result<seq<Value>>
    requires forall t :: t in ts ==> WellFormed(t)
    decreases ts
  {
    if ts == [] then Ok([])
    else Prepend(ViewField(ts[0], d, slot, end), ViewFields(ts[1..], d, slot + FixedSize(ts[0]), end))
  }

  /** No struct inside has an optional field that holds an empty container: for such a field the
      view asks the optional, not the container, for its empty form. */
  predicate Viewable(t: Type, v: Value)
    requires HasType(v, t)
    decreases v, t, 0
  {
    match t
    case Scalar(_, _) => true
    case Blob(_) => true
    case Vec(elem) => forall x :: x in v.items ==> Viewable(elem, x)
    case Optional(inner) => v.Null? || Viewable(inner, v)
    case Struct(fields) => ViewableFields(fields, v.items)
    case Variant(cases) => Viewable(cases[v.index], v.value)
    case Tuple(elems) => AllViewable(elems, v.items)
    case Array(item, len) => AllViewable(Rep(item, len), v.items)
    case FixedStruct(parts) => AllViewable(parts, v.items)
  }

  predicate AllViewable(ts: seq<Type>, vs: seq<Value>)
    requires HaveTypes(vs, ts)
    decreases vs, ts, 0
  {
    ts == [] || (Viewable(ts[0], vs[0]) && AllViewable(ts[1..], vs[1..]))
  }

  predicate ViewableField(t: Type, v: Value)
    requires HasType(v, t)
    decreases v, t, 1
  {
    (t.Optional? ==> !IsEmptyContainer(t.inner, v)) && ((t.Optional? && v.Null?) || Viewable(Payload(t), v))
  }

  predicate ViewableFields(ts: seq<Type>, vs: seq<Value>)
    requires HaveTypes(vs, ts)
    decreases vs, ts, 0
  {
    ts == [] || (ViewableField(ts[0], vs[0]) && ViewableFields(ts[1..], vs[1..]))
  }

  /** No fixed struct inside has an optional part. */
  predicate Plain(t: Type) {
    match t
    case Scalar(_, _) => true
    case Blob(_) => true
    case Vec(elem) => Plain(elem)
    case Optional(inner) => Plain(inner)
    case Struct(fields) => forall f :: f in fields ==> Plain(f)
    case Variant(cases) => forall c :: c in cases ==> Plain(c)
    case Tuple(elems) => forall e :: e in elems ==> Plain(e)
    case Array(item, _) => Plain(item)
    case FixedStruct(parts) => forall p :: p in parts ==> !p.Optional? && Plain(p)
  }

  predicate AllPlain(ts: seq<Type>) {
    forall t :: t in ts ==> Plain(t)
  }

  // ---------------------------------------------------------------- the view reads what was packed

  /** What the view makes of a packed value: the value, unless it is not viewable. */
  predicate Views<T(==)>(r: Result<T>, v: T, ok: bool) {
    r == if ok then Ok(v) else Failure
  }

  /** Whatever surrounds a packed value, the view reads the value back exactly when no struct in it
      has an optional field holding an empty container, and fails otherwise. */
  lemma {:induction false} ViewReads(t: Type, d: seq<byte>, pos: nat, v: Value)
    requires WellFormed(t) && Plain(t) && HasType(v, t) && At(d, pos, Pack(t, v)) && |Pack(t, v)| < U32_LIMIT
    ensures Views(View(t, d, pos), v, Viewable(t, v))
    decreases v, t, 1
  {
    hide Slots, Heaps, Elements, ElementSlots, ViewFields, ViewElements, Read32, Read16, U32, U16, Absent, Fixed, At, PackVec, PackStruct, ViewableFields,
         AllSlots, PackParts, ViewTuple, ViewArray, ViewParts, AllViewable, FixedTotal, FixedSize, IsVar, HaveTypes;
    match t
    case Scalar(size, isBool) => ViewScalar(t, d, pos, v);
    case Blob(_) => BlobAt(d, v.bytes, pos);
    case Vec(elem) => ViewVec(elem, d, pos, v.items);
    case Optional(inner) => ViewOptional(t, d, pos, v);
    case Struct(fields) => ViewStruct(t, d, pos, v);
    case Variant(cases) =>
      VariantAt(d, cases, v, pos);
      ViewReads(cases[v.index], d, pos + 5, v.value);
    case Tuple(elems) => ViewWholeTuple(t, d, pos, v);
    case Array(item, len) => ViewWholeArray(t, d, pos, v);
    case FixedStruct(parts) => ViewFixedStruct(t, d, pos, v);
  }

  lemma {:induction false} ViewStruct(t: Type, d: seq<byte>, pos: nat, v: Value)
    requires t.Struct? && WellFormed(t) && Plain(t) && HasType(v, t) && At(d, pos, Pack(t, v)) && |Pack(t, v)| < U32_LIMIT
    ensures Views(View(t, d, pos), v, Viewable(t, v))
    decreases v, t, 0
  {
    hide FieldsAt, Heaps, ViewFields, Read16, At, PackStruct, FixedTotal, Fixed, ViewableFields;
    StructAt(d, t.fields, v.items, pos);
    ViewFieldsRead(t.fields, d, pos + 2, pos + 2 + Fixed(t.fields, v.items), v.items);
  }

  lemma {:induction false} ViewWholeTuple(t: Type, d: seq<byte>, pos: nat, v: Value)
    requires t.Tuple? && WellFormed(t) && Plain(t) && HasType(v, t) && At(d, pos, Pack(t, v)) && |Pack(t, v)| < U32_LIMIT
    ensures Views(View(t, d, pos), v, Viewable(t, v))
    decreases v, t, 0
  {
    hide FieldsAt, Heaps, ViewTuple, Read16, At, PackStruct, FixedTotal, Fixed, AllViewable;
    StructAt(d, t.elems, v.items, pos);
    ViewTupleRead(t.elems, d, pos + 2, pos + 2 + Fixed(t.elems, v.items), v.items);
  }

  lemma {:induction false} ViewWholeArray(t: Type, d: seq<byte>, pos: nat, v: Value)
    requires t.Array? && WellFormed(t) && Plain(t) && HasType(v, t) && At(d, pos, Pack(t, v)) && |Pack(t, v)| < U32_LIMIT
    ensures Views(View(t, d, pos), v, Viewable(t, v))
    decreases v, t, 0
  {
    hide PartsAt, Heaps, ViewArray, At, PackParts, FixedTotal, AllViewable, Rep, HaveTypes;
    var ts := Rep(t.item, t.len);
    PartsHere(d, ts, v.items, pos);
    ViewArrayRead(t.item, t.len, d, pos, pos + FixedTotal(ts), v.items);
  }

  lemma {:induction false} ViewFixedStruct(t: Type, d: seq<byte>, pos: nat, v: Value)
    requires t.FixedStruct? && WellFormed(t) && Plain(t) && HasType(v, t) && At(d, pos, Pack(t, v)) && |Pack(t, v)| < U32_LIMIT
    ensures Views(View(t, d, pos), v, Viewable(t, v))
    decreases v, t, 0
  {
    hide PartsAt, Heaps, ViewParts, At, PackParts, FixedTotal, AllViewable, HaveTypes;
    PartsHere(d, t.parts, v.items, pos);
    ViewPartsRead(t.parts, d, pos, pos + FixedTotal(t.parts), v.items);
  }

  lemma {:induction false} ViewVec(elem: Type, d: seq<byte>, pos: nat, vs: seq<Value>)
    requires WellFormed(elem) && Plain(elem) && (forall v :: v in vs ==> HasType(v, elem))
    requires At(d, pos, PackVec(elem, vs)) && |PackVec(elem, vs)| < U32_LIMIT
    ensures pos + 4 <= |d| && Read32(d, pos) % FixedSize(elem) == 0
    ensures Views(ViewElements(elem, d, pos + 4, Read32(d, pos) / FixedSize(elem)), vs, forall x :: x in vs ==> Viewable(elem, x))
    decreases vs, elem, 1
  {
    hide Elements, ElementSlots, ViewElements, Read32, U32, At, PackVec, HasType, Viewable, WellFormed, ElementsAt;
    VecAt(d, elem, vs, pos);
    WholeSlots(|vs|, FixedSize(elem));
    ViewElementsRead(elem, d, pos + 4, pos + 4 + ElementsPart(elem, vs), vs);
  }

  lemma WholeSlots(n: nat, size: nat)
    requires size >= 1
    ensures n * size % size == 0 && n * size / size == n
  {
    DivUnique(n * size, size, n, 0);
  }

  lemma ViewScalar(t: Type, d: seq<byte>, pos: nat, v: Value)
    requires t.Scalar? && WellFormed(t) && HasType(v, t) && At(d, pos, Pack(t, v))
    ensures View(t, d, pos) == Ok(v)
  {
    UnleLe(v.n, t.size);
  }

  lemma {:induction false} ViewOptional(t: Type, d: seq<byte>, pos: nat, v: Value)
    requires t.Optional? && WellFormed(t) && Plain(t) && HasType(v, t) && At(d, pos, Pack(t, v)) && |Pack(t, v)| < U32_LIMIT
    ensures Views(View(t, d, pos), v, Viewable(t, v))
    decreases v, t.inner, 2
  {
    hide Read32, U32, At, Elements, ElementSlots, ViewElements, ViewFields;
    if v.Null? {
      AtInside(d, pos, U32(1));
      Read32At(d, pos, 1);
    } else if IsEmptyContainer(t.inner, v) {
      AtInside(d, pos, U32(0));
      Read32At(d, pos, 0);
    } else {
      AtSplit(d, pos, U32(4), Pack(t.inner, v));
      AtInside(d, pos, U32(4));
      Read32At(d, pos, 4);
      ViewReads(t.inner, d, pos + 4, v);
    }
  }

  lemma {:induction false} ViewElementsRead(elem: Type, d: seq<byte>, s: nat, h: nat, vs: seq<Value>)
    requires WellFormed(elem) && Plain(elem) && ElementsAt(d, elem, vs, s, h) && |Elements(elem, vs)| < U32_LIMIT
    ensures Views(ViewElements(elem, d, s, |vs|), vs, forall x :: x in vs ==> Viewable(elem, x))
    decreases vs, elem, 0
  {
    hide View, Viewable, At, Pack, Read32, U32, ElementSlots, FixedSize, IsVar, HasType, WellFormed, Plain, Elements;
    if vs != [] {
      assert vs == [vs[0]] + vs[1..];
      ElementsSize(elem, vs);
      ElementsAtStep(d, elem, vs, s, h);
      ViewReads(elem, d, h, vs[0]);
      if IsVar(elem) { Read32At(d, s, h - s); }
      ViewElementsRead(elem, d, s + FixedSize(elem), h + |Pack(elem, vs[0])|, vs[1..]);
    }
  }

  lemma ElementsSize(elem: Type, vs: seq<Value>)
    requires (forall v :: v in vs ==> HasType(v, elem)) && vs != []
    ensures HasType(vs[0], elem) && (forall v :: v in vs[1..] ==> HasType(v, elem))
    ensures |Elements(elem, vs)| == |Pack(elem, vs[0])| + |Elements(elem, vs[1..])|
  {
    hide Pack;
  }

  lemma {:induction false} ViewFieldRead(t: Type, d: seq<byte>, s: nat, h: nat, end: nat, v: Value)
    requires WellFormed(t) && Plain(t) && HasType(v, t) && At(d, s, Slot(t, v, h - s)) && At(d, h, Heap(t, v))
    requires s + FixedSize(t) <= end && s + FixedSize(t) <= h && h - s + |Heap(t, v)| < U32_LIMIT
    ensures Views(ViewField(t, d, s, end), v, ViewableField(t, v))
    decreases v, t, 2
  {
    hide View, Viewable, Read32, U32, At, Pack, FixedSize, IsVar, HasType, WellFormed, Plain;
    FieldFacts(t, v);
    if !IsVar(t) {
      ViewReads(t, d, s, v);
    } else {
      AtInside(d, s, Slot(t, v, h - s));
      if v.Null? {
        Read32At(d, s, 1);
      } else if IsEmptyContainer(Payload(t), v) {
        Read32At(d, s, 0);
        ViewableEmpty(Payload(t), v);
      } else {
        Read32At(d, s, h - s);
        ViewReads(Payload(t), d, h, v);
      }
    }
  }

  lemma FieldFacts(t: Type, v: Value)
    requires HasType(v, t)
    ensures v.Null? ==> t.Optional?
    ensures !v.Null? ==> HasType(v, Payload(t))
    ensures !IsVar(t) ==> !t.Optional? && !v.Null?
    ensures WellFormed(t) && Plain(t) ==> WellFormed(Payload(t)) && Plain(Payload(t))
  {
  }

  lemma ViewableEmpty(t: Type, v: Value)
    requires HasType(v, t) && IsEmptyContainer(t, v)
    ensures Viewable(t, v) && EmptyOf(t) == Ok(v)
  {
  }

  lemma {:induction false} ViewAbsent(ts: seq<Type>, d: seq<byte>, end: nat, s: nat, vs: seq<Value>)
    requires (forall t :: t in ts ==> WellFormed(t)) && HaveTypes(vs, ts) && Absent(ts, vs) && s >= end
    ensures ViewFields(ts, d, s, end) == Ok(vs) && ViewableFields(ts, vs)
    decreases |ts|
  {
    hide View;
    if ts != [] {
      assert vs == [vs[0]] + vs[1..];
      ViewAbsent(ts[1..], d, end, s + FixedSize(ts[0]), vs[1..]);
    }
  }

  lemma {:induction false} ViewFieldsRead(ts: seq<Type>, d: seq<byte>, s: nat, h: nat, vs: seq<Value>)
    requires (forall t :: t in ts ==> WellFormed(t) && Plain(t)) && FieldsAt(d, ts, vs, s, h)
    ensures Views(ViewFields(ts, d, s, s + Fixed(ts, vs)), vs, ViewableFields(ts, vs))
    decreases vs, ts, 0
  {
    hide ViewField, ViewableField, At, Slot, Heap, Slots, Heaps, Absent, FixedSize, HasType, WellFormed, Plain;
    if Absent(ts, vs) {
      NoneFixed(ts, vs);
      ViewAbsent(ts, d, s, s, vs);
    } else {
      assert vs == [vs[0]] + vs[1..];
      FieldsAtStep(d, ts, vs, s, h);
      FieldsUnfold(ts, vs, h - s);
      ViewFieldRead(ts[0], d, s, h, s + Fixed(ts, vs), vs[0]);
      ViewFieldsRead(ts[1..], d, s + FixedSize(ts[0]), h + |Heap(ts[0], vs[0])|, vs[1..]);
    }
  }

  /** A slot that is read as arrays and tuples read it shows an optional empty container too. */
  lemma {:induction false} ViewSlotRead(t: Type, d: seq<byte>, s: nat, h: nat, v: Value)
    requires WellFormed(t) && Plain(t) && HasType(v, t) && At(d, s, Slot(t, v, h - s)) && At(d, h, Heap(t, v))
    requires s + FixedSize(t) <= h && h - s + |Heap(t, v)| < U32_LIMIT
    ensures Views(ViewSlot(t, d, s), v, Viewable(t, v))
    decreases v, t, 2
  {
    hide View, Viewable, Read32, U32, At, Pack, FixedSize, IsVar, HasType, WellFormed, Plain;
    ViewableOptional(t, v);
    FieldFacts(t, v);
    if !IsVar(t) {
      ViewReads(t, d, s, v);
    } else {
      AtInside(d, s, Slot(t, v, h - s));
      if v.Null? {
        Read32At(d, s, 1);
      } else if IsEmptyContainer(Payload(t), v) {
        Read32At(d, s, 0);
        ViewableEmpty(Payload(t), v);
      } else {
        Read32At(d, s, h - s);
        ViewReads(Payload(t), d, h, v);
      }
    }
  }

  lemma ViewableOptional(t: Type, v: Value)
    requires HasType(v, t)
    ensures t.Optional? ==> (Viewable(t, v) <==> v.Null? || Viewable(t.inner, v))
  {
  }

  lemma {:induction false} ViewTupleAbsent(ts: seq<Type>, d: seq<byte>, s: nat, heap: nat, vs: seq<Value>)
    requires (forall t :: t in ts ==> WellFormed(t)) && HaveTypes(vs, ts) && Absent(ts, vs) && s >= heap
    ensures ViewTuple(ts, d, s, heap) == Ok(vs) && AllViewable(ts, vs)
    decreases |ts|
  {
    hide ViewSlot;
    NotRequired(ts, vs);
    if ts != [] {
      assert vs == [vs[0]] + vs[1..];
      ViewTupleAbsent(ts[1..], d, s, heap, vs[1..]);
    }
  }

  lemma {:induction false} NotRequired(ts: seq<Type>, vs: seq<Value>)
    requires |ts| == |vs| && Absent(ts, vs)
    ensures !Required(ts)
  {
    if ts != [] { NotRequired(ts[1..], vs[1..]); }
  }

  lemma {:induction false} ViewTupleRead(ts: seq<Type>, d: seq<byte>, s: nat, h: nat, vs: seq<Value>)
    requires (forall t :: t in ts ==> WellFormed(t) && Plain(t)) && FieldsAt(d, ts, vs, s, h)
    ensures Views(ViewTuple(ts, d, s, s + Fixed(ts, vs)), vs, AllViewable(ts, vs))
    decreases vs, ts, 0
  {
    hide ViewSlot, Viewable, At, Slot, Heap, Slots, Heaps, Absent, Required, FixedSize, HasType, WellFormed, Plain;
    if Absent(ts, vs) {
      NoneFixed(ts, vs);
      ViewTupleAbsent(ts, d, s, s, vs);
    } else {
      assert vs == [vs[0]] + vs[1..];
      FieldsAtStep(d, ts, vs, s, h);
      FieldsUnfold(ts, vs, h - s);
      ViewSlotRead(ts[0], d, s, h, vs[0]);
      ViewTupleRead(ts[1..], d, s + FixedSize(ts[0]), h + |Heap(ts[0], vs[0])|, vs[1..]);
    }
  }

  lemma {:induction false} ViewArrayRead(item: Type, n: nat, d: seq<byte>, s: nat, h: nat, vs: seq<Value>)
    requires WellFormed(item) && Plain(item) && PartsAt(d, Rep(item, n), vs, s, h)
    ensures Views(ViewArray(item, d, s, n), vs, AllViewable(Rep(item, n), vs))
    decreases vs, item, 0
  {
    hide ViewSlot, Viewable, At, Slot, Heap, AllSlots, Heaps, Rep, FixedSize, HasType, WellFormed, Plain;
    if n > 0 {
      assert vs == [vs[0]] + vs[1..];
      RepTail(item, n);
      PartsAtStep(d, Rep(item, n), vs, s, h);
      ViewSlotRead(item, d, s, h, vs[0]);
      ViewArrayRead(item, n - 1, d, s + FixedSize(item), h + |Heap(item, vs[0])|, vs[1..]);
    }
  }

  lemma {:induction false} ViewPartsRead(ts: seq<Type>, d: seq<byte>, s: nat, h: nat, vs: seq<Value>)
    requires (forall t :: t in ts ==> WellFormed(t) && !t.Optional? && Plain(t)) && PartsAt(d, ts, vs, s, h)
    ensures Views(ViewParts(ts, d, s), vs, AllViewable(ts, vs))
    decreases vs, ts, 0
  {
    hide ViewSlot, ViewPart, Viewable, At, Slot, Heap, AllSlots, Heaps, FixedSize, HasType, WellFormed, Plain;
    if ts != [] {
      assert vs == [vs[0]] + vs[1..];
      PartsAtStep(d, ts, vs, s, h);
      ViewSlotRead(ts[0], d, s, h, vs[0]);
      PartIsSlot(ts[0], d, s);
      ViewPartsRead(ts[1..], d, s + FixedSize(ts[0]), h + |Heap(ts[0], vs[0])|, vs[1..]);
    }
  }

  /** Only optionals are read differently in fixed structs. */
  lemma PartIsSlot(t: Type, d: seq<byte>, slot: nat)
    requires WellFormed(t) && !t.Optional?
    ensures ViewPart(t, d, slot) == ViewSlot(t, d, slot)
  {
    hide View, Read32;
  }

  lemma NoneFixed(ts: seq<Type>, vs: seq<Value>)
    requires |ts| == |vs| && Absent(ts, vs)
    ensures Fixed(ts, vs) == 0
  {
  }

  // ---------------------------------------------------------------- values that stand in their slots

  lemma {:induction false} FlatViewable(t: Type, v: Value)
    requires !IsVar(t) && HasType(v, t)
    ensures Viewable(t, v)
    decreases v, t, 1
  {
    match t
    case Array(item, len) => FlatAllViewable(Rep(item, len), v.items);
    case FixedStruct(parts) => FlatAllViewable(parts, v.items);
    case _ =>
  }

  lemma {:induction false} FlatAllViewable(ts: seq<Type>, vs: seq<Value>)
    requires Flat(ts) && HaveTypes(vs, ts)
    ensures AllViewable(ts, vs)
    decreases vs, ts, 0
  {
    hide Viewable, HasType;
    if ts != [] {
      FlatViewable(ts[0], vs[0]);
      FlatAllViewable(ts[1..], vs[1..]);
    }
  }

  lemma {:induction false} FlatPlain(t: Type)
    requires !IsVar(t)
    ensures Plain(t)
  {
    match t
    case Array(item, _) => FlatPlain(item);
    case FixedStruct(parts) =>
      forall p | p in parts ensures !p.Optional? && Plain(p) {
        assert !IsVar(p);
        FlatPlain(p);
      }
    case _ =>
  }
}
