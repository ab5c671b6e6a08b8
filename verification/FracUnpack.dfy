/** The eager reader, whose position only moves forward (js/src/fracpack.ts). */
module FracUnpack {
  import opened ByteStrings
  import opened Wrappers
  import opened FracTypes
  import opened FracView
  import opened FracFixedView

  /** A value with the reader's position behind it, or an error. */
  datatype Parsed<T> = Parsed(value: T, pos: nat) | Refused

  function UnpackScalar(t: Type, d: seq<byte>, at: nat): Parsed<Value>
    requires t.Scalar?
  {
    if at + t.size > |d| then Refused
    else
      var n := Unle(d[at..at + t.size]);
      if t.isBool && n > 1 then Refused else Parsed(Number(n), at + t.size)
  }

  function Unpack(t: Type, d: seq<byte>, r: nat): (p: Parsed<Value>)
    requires WellFormed(t)
    ensures p.Parsed? ==> r <= p.pos
    decreases t, 0
  {
    match t
    case Scalar(_, _) => UnpackScalar(t, d, r)
    case Blob(isText) =>
      if r + 4 > |d| || (r + 4 + Read32(d, r) > |d| && !isText) then Refused
      else Parsed(Data(d[r + 4..Min(|d|, r + 4 + Read32(d, r))]), r + 4 + Read32(d, r))
    case Vec(elem) =>
      if r + 4 > |d| || Read32(d, r) % FixedSize(elem) != 0 || r + 4 + Read32(d, r) > |d| then Refused
      else
        var p := UnpackElements(elem, d, r + 4 + Read32(d, r), r + 4, Read32(d, r) / FixedSize(elem));
        if p.Parsed? then Parsed(Items(p.value), p.pos) else Refused
    case Optional(inner) => if r + 4 > |d| then Refused else UnpackOptional(inner, d, r + 4, r)
    case Struct(fields) =>
      if r + 2 > |d| || r + 2 + Read16(d, r) > |d| then Refused
      else
        var heap := r + 2 + Read16(d, r);
        var p := UnpackFields(fields, d, heap, r + 2, heap);
        if p.Parsed? then Parsed(Items(p.value), p.pos) else Refused
    case Variant(cases) =>
      if r + 5 > |d| || d[r] >= |cases| then Refused
      else
        var p := Unpack(cases[d[r]], d, r + 5);
        if p.Parsed? then Parsed(Case(d[r], p.value), r + 5 + Read32(d, r + 1)) else Refused
    case Tuple(elems) =>
      if r + 2 > |d| || r + 2 + Read16(d, r) > |d| then Refused
      else
        var heap := r + 2 + Read16(d, r);
        var p := UnpackFields(elems, d, heap, r + 2, heap);
        if p.Parsed? then Parsed(Items(p.value), p.pos) else Refused
    case Array(item, len) =>
      var heap := r + FixedSize(item) * len;
      if heap > |d| then Refused
      else
        var p := UnpackArray(item, d, heap, r, len);
        if p.Parsed? then Parsed(Items(p.value), p.pos) else Refused
    case FixedStruct(parts) =>
      var heap := r + FixedTotal(parts);
      if heap > |d| then Refused
      else
        var p := UnpackParts(parts, d, heap, r);
        if p.Parsed? then Parsed(Items(p.value), p.pos) else Refused
  }

  /** Follow the offset at c; zero stands for the empty container. */
  function Follow(t: Type, d: seq<byte>, r: nat, c: nat): (p: Parsed<Value>)
    requires WellFormed(t)
    ensures p.Parsed? ==> r <= p.pos
    decreases t, 2
  {
    if c + 4 > |d| then Refused
    else if Read32(d, c) == 0 then
      match EmptyOf(t)
      case Ok(v) => Parsed(v, r)
      case Failure => Refused
    else Jump(t, d, r, c)
  }

  /** The value an offset leads to, which must not lie behind the reader. */
  function Jump(t: Type, d: seq<byte>, r: nat, c: nat): (p: Parsed<Value>)
    requires WellFormed(t)
    ensures p.Parsed? ==> r <= p.pos
    decreases t, 1
  {
    if c + 4 > |d| || c + Read32(d, c) > |d| || c + Read32(d, c) < r then Refused
    else Unpack(t, d, c + Read32(d, c))
  }

  function UnpackOptional(inner: Type, d: seq<byte>, r: nat, c: nat): (p: Parsed<Value>)
    requires WellFormed(inner)
    ensures p.Parsed? ==> r <= p.pos
    decreases inner, 3
  {
    if c + 4 > |d| then Refused
    else if Read32(d, c) == 1 then Parsed(Null, r)
    else Follow(inner, d, r, c)
  }

  /** A value embedded among others: its slot is at c, the reader stands at r. */
  function UnpackSlot(t: Type, d: seq<byte>, r: nat, c: nat): (p: Parsed<Value>)
    requires WellFormed(t)
    ensures p.Parsed? ==> r <= p.pos
    decreases t, 4
  {
    if !IsVar(t) then
      var p := Unpack(t, d, c);
      if p.Parsed? then Parsed(p.value, r) else Refused
    else if t.Optional? then UnpackOptional(t.inner, d, r, c)
    else Follow(t, d, r, c)
  }

  function UnpackElements(elem: Type, d: seq<byte>, r: nat, c: nat, n: nat): (p: Parsed<seq<Value>>)
    requires WellFormed(elem)
    ensures p.Parsed? ==> r <= p.pos
    decreases elem, n + 5
  {
    if n == 0 then Parsed([], r)
    else
      var x := if IsVar(elem) then Jump(elem, d, r, c) else UnpackSlot(elem, d, r, c);
      if x.Refused? then Refused
      else
        var rest := UnpackElements(elem, d, x.pos, c + FixedSize(elem), n - 1);
        if rest.Parsed? then Parsed([x.value] + rest.value, rest.pos) else Refused
  }

  function UnpackArray(item: Type, d: seq<byte>, r: nat, c: nat, n: nat): (p: Parsed<seq<Value>>)
    requires WellFormed(item)
    ensures p.Parsed? ==> r <= p.pos
    decreases item, n + 5
  {
    if n == 0 then Parsed([], r)
    else
      var x := UnpackSlot(item, d, r, c);
      if x.Refused? then Refused
      else
        var rest := UnpackArray(item, d, x.pos, c + FixedSize(item), n - 1);
        if rest.Parsed? then Parsed([x.value] + rest.value, rest.pos) else Refused
  }

  function UnpackParts(ts: seq<Type>, d: seq<byte>, r: nat, c: nat): (p: Parsed<seq<Value>>)
    requires forall t :: t in ts ==> WellFormed(t)
    ensures p.Parsed? ==> r <= p.pos
    decreases ts
  {
    if ts == [] then Parsed([], r)
    else
      var x := UnpackSlot(ts[0], d, r, c);
      if x.Refused? then Refused
      else
        var rest := UnpackParts(ts[1..], d, x.pos, c + FixedSize(ts[0]));
        if rest.Parsed? then Parsed([x.value] + rest.value, rest.pos) else Refused
  }

  /** The fields of a struct or a tuple; those missing at the end are null, unknown ones are skipped. */
  function UnpackFields(ts: seq<Type>, d: seq<byte>, r: nat, c: nat, heap: nat): (p: Parsed<seq<Value>>)
    requires forall t :: t in ts ==> WellFormed(t)
    ensures p.Parsed? ==> r <= p.pos
    decreases ts
  {
    if ts == [] then SkipUnknown(d, r, c, heap)
    else
      var present := Required(ts) || c < heap;
      var x := if present then UnpackSlot(ts[0], d, r, c) else Parsed(Null, r);
      if x.Refused? then Refused
      else
        var rest := UnpackFields(ts[1..], d, x.pos, if present then c + FixedSize(ts[0]) else c, heap);
        if rest.Parsed? then Parsed([x.value] + rest.value, rest.pos) else Refused
  }

  /** Offsets of fields the schema does not know: the reader moves to where they lead. */
  function SkipUnknown(d: seq<byte>, r: nat, c: nat, heap: nat): (p: Parsed<seq<Value>>)
    ensures p.Parsed? ==> r <= p.pos && p.value == []
    decreases heap - c
  {
    if c >= heap then Parsed([], r)
    else if c + 4 > |d| then Refused
    else if Read32(d, c) <= 1 then SkipUnknown(d, r, c + 4, heap)
    else if c + Read32(d, c) > |d| || c + Read32(d, c) < r then Refused
    else SkipUnknown(d, c + Read32(d, c), c + 4, heap)
  }

  /** Unpack a whole buffer; bytes left over are an error. */
  function UnpackAll(t: Type, d: seq<byte>): Result<Value>
    requires WellFormed(t)
  {
    match Unpack(t, d, 0)
    case Parsed(v, pos) => if pos == |d| then Ok(v) else Failure
    case Refused => Failure
  }

  // ---------------------------------------------------------------- unpacking undoes packing

  /** Whatever surrounds a packed value, unpacking it gives the value and ends right behind it. */
  lemma {:induction false} UnpackReads(t: Type, d: seq<byte>, r: nat, v: Value)
    requires WellFormed(t) && HasType(v, t) && At(d, r, Pack(t, v)) && |Pack(t, v)| < U32_LIMIT
    ensures Unpack(t, d, r) == Parsed(v, r + |Pack(t, v)|)
    decreases v, t, 2
  {
    hide Slots, Heaps, Elements, ElementSlots, UnpackFields, UnpackElements, Read32, Read16, U32, U16, Absent, Fixed, At, Follow,
         AllSlots, PackParts, PackStruct, PackVec, UnpackArray, UnpackParts, FixedTotal, FixedSize, IsVar;
    match t
    case Scalar(_, _) => ScalarReads(t, d, r, v);
    case Blob(_) => BlobAt(d, v.bytes, r);
    case Vec(elem) => VecReads(t, d, r, v);
    case Optional(inner) => OptionalReads(t, d, r, v);
    case Struct(fields) => StructReads(t, fields, d, r, v);
    case Variant(cases) =>
      VariantAt(d, cases, v, r);
      UnpackReads(cases[v.index], d, r + 5, v.value);
    case Tuple(elems) => StructReads(t, elems, d, r, v);
    case Array(item, len) => ArrayReads(t, d, r, v);
    case FixedStruct(parts) => FixedStructReads(t, d, r, v);
  }

  lemma {:induction false} VecReads(t: Type, d: seq<byte>, r: nat, v: Value)
    requires t.Vec? && WellFormed(t) && HasType(v, t) && At(d, r, Pack(t, v)) && |Pack(t, v)| < U32_LIMIT
    ensures Unpack(t, d, r) == Parsed(v, r + |Pack(t, v)|)
    decreases v, t, 1
  {
    hide Elements, ElementSlots, UnpackElements, Read32, At, PackVec, FixedSize, IsVar, ElementsAt;
    var elem := t.elem;
    VecAt(d, elem, v.items, r);
    WholeSlots(|v.items|, FixedSize(elem));
    var h := r + 4 + ElementsPart(elem, v.items);
    ElementsRead(elem, d, r + 4, h, r + 4 + |v.items| * FixedSize(elem), v.items);
  }

  lemma {:induction false} StructReads(t: Type, ts: seq<Type>, d: seq<byte>, r: nat, v: Value)
    requires t == Struct(ts) || t == Tuple(ts)
    requires WellFormed(t) && HasType(v, t) && At(d, r, Pack(t, v)) && |Pack(t, v)| < U32_LIMIT
    ensures Unpack(t, d, r) == Parsed(v, r + |Pack(t, v)|)
    decreases v, t, 1
  {
    hide FieldsAt, Heaps, UnpackFields, Read16, At, PackStruct, FixedTotal, Fixed;
    StructAt(d, ts, v.items, r);
    AtInside(d, r, PackStruct(ts, v.items));
    FieldsRead(ts, d, r + 2, r + 2 + Fixed(ts, v.items), v.items);
  }

  lemma {:induction false} ArrayReads(t: Type, d: seq<byte>, r: nat, v: Value)
    requires t.Array? && WellFormed(t) && HasType(v, t) && At(d, r, Pack(t, v)) && |Pack(t, v)| < U32_LIMIT
    ensures Unpack(t, d, r) == Parsed(v, r + |Pack(t, v)|)
    decreases v, t, 1
  {
    hide PartsAt, Heaps, UnpackArray, At, PackParts, FixedTotal, FixedSize, HaveTypes, Rep;
    var ts := Rep(t.item, t.len);
    PartsHere(d, ts, v.items, r);
    RepTotal(t.item, t.len);
    ArrayRead(t.item, t.len, d, r, r + FixedTotal(ts), v.items);
  }

  lemma {:induction false} FixedStructReads(t: Type, d: seq<byte>, r: nat, v: Value)
    requires t.FixedStruct? && WellFormed(t) && HasType(v, t) && At(d, r, Pack(t, v)) && |Pack(t, v)| < U32_LIMIT
    ensures Unpack(t, d, r) == Parsed(v, r + |Pack(t, v)|)
    decreases v, t, 1
  {
    hide PartsAt, Heaps, UnpackParts, At, PackParts, FixedTotal, HaveTypes;
    PartsHere(d, t.parts, v.items, r);
    PartsRead(t.parts, d, r, r + FixedTotal(t.parts), v.items);
  }

  lemma ScalarReads(t: Type, d: seq<byte>, r: nat, v: Value)
    requires t.Scalar? && HasType(v, t) && At(d, r, Pack(t, v))
    ensures UnpackScalar(t, d, r) == Parsed(v, r + |Pack(t, v)|) && |Pack(t, v)| == t.size
  {
    UnleLe(v.n, t.size);
  }

  lemma FollowIs(t: Type, d: seq<byte>, r: nat, c: nat)
    requires WellFormed(t) && c + 4 <= |d| && Read32(d, c) != 0 && r <= c + Read32(d, c) <= |d|
    ensures Follow(t, d, r, c) == Unpack(t, d, c + Read32(d, c))
  {
    hide Unpack, Read32;
    assert Jump(t, d, r, c) == Unpack(t, d, c + Read32(d, c));
  }

  lemma OptionalIs(t: Type, d: seq<byte>, r: nat)
    requires t.Optional? && WellFormed(t) && r + 4 <= |d|
    ensures Unpack(t, d, r) == if Read32(d, r) == 1 then Parsed(Null, r + 4) else Follow(t.inner, d, r + 4, r)
  {
    hide Read32, Follow;
    assert UnpackOptional(t.inner, d, r + 4, r) == if Read32(d, r) == 1 then Parsed(Null, r + 4) else Follow(t.inner, d, r + 4, r);
  }

  lemma FollowZero(t: Type, d: seq<byte>, r: nat, c: nat, v: Value)
    requires WellFormed(t) && c + 4 <= |d| && Read32(d, c) == 0 && EmptyOf(t) == Ok(v)
    ensures Follow(t, d, r, c) == Parsed(v, r)
  {
    hide Read32;
  }

  lemma EmptyIs(t: Type, v: Value)
    requires HasType(v, t) && IsEmptyContainer(t, v)
    ensures EmptyOf(t) == Ok(v)
  {
  }

  lemma {:induction false} OptionalReads(t: Type, d: seq<byte>, r: nat, v: Value)
    requires t.Optional? && WellFormed(t) && HasType(v, t) && At(d, r, Pack(t, v)) && |Pack(t, v)| < U32_LIMIT
    ensures Unpack(t, d, r) == Parsed(v, r + |Pack(t, v)|)
    decreases v, t.inner, 3
  {
    hide Read32, U32, At, Elements, ElementSlots, Unpack, Follow, EmptyOf;
    AtInside(d, r, Pack(t, v));
    OptionalIs(t, d, r);
    if v.Null? {
      Read32At(d, r, 1);
    } else if IsEmptyContainer(t.inner, v) {
      Read32At(d, r, 0);
      EmptyIs(t.inner, v);
      FollowZero(t.inner, d, r + 4, r, v);
    } else {
      AtSplit(d, r, U32(4), Pack(t.inner, v));
      Read32At(d, r, 4);
      UnpackReads(t.inner, d, r + 4, v);
      FollowIs(t.inner, d, r + 4, r);
    }
  }

  lemma JumpIs(t: Type, d: seq<byte>, r: nat, c: nat)
    requires WellFormed(t) && c + 4 <= |d| && r <= c + Read32(d, c) <= |d|
    ensures Jump(t, d, r, c) == Unpack(t, d, c + Read32(d, c))
  {
    hide Unpack, Read32;
  }

  /** One element read, the others left. */
  lemma ElementsUnfold(elem: Type, d: seq<byte>, r: nat, c: nat, n: nat, v: Value, r': nat, rest: seq<Value>, end: nat)
    requires WellFormed(elem) && n > 0
    requires r <= r' && (if IsVar(elem) then Jump(elem, d, r, c) else UnpackSlot(elem, d, r, c)) == Parsed(v, r')
    requires UnpackElements(elem, d, r', c + FixedSize(elem), n - 1) == Parsed(rest, end)
    ensures UnpackElements(elem, d, r, c, n) == Parsed([v] + rest, end)
  {
    hide Jump, UnpackSlot;
  }

  lemma NoElements(elem: Type, d: seq<byte>, r: nat, c: nat, none: seq<Value>)
    requires WellFormed(elem) && none == []
    ensures UnpackElements(elem, d, r, c, 0) == Parsed(none, r) && |Elements(elem, none)| == 0
  {
  }

  /** An element behind its offset. */
  lemma {:induction false} OffsetReads(elem: Type, d: seq<byte>, s: nat, h: nat, v: Value)
    requires WellFormed(elem) && HasType(v, elem) && At(d, h, Pack(elem, v)) && |Pack(elem, v)| < U32_LIMIT
    requires s + 4 <= h < s + U32_LIMIT && s + 4 <= |d| && At(d, s, U32(h - s))
    ensures Jump(elem, d, h, s) == Parsed(v, h + |Pack(elem, v)|)
    decreases v, elem, 3
  {
    hide At, Pack, Read32, U32, Unpack, HasType, WellFormed, Jump;
    AtInside(d, h, Pack(elem, v));
    Read32At(d, s, h - s);
    UnpackReads(elem, d, h, v);
    JumpIs(elem, d, h, s);
  }

  lemma {:induction false} ElementsRead(elem: Type, d: seq<byte>, s: nat, h: nat, r: nat, vs: seq<Value>)
    requires WellFormed(elem) && ElementsAt(d, elem, vs, s, h) && |Elements(elem, vs)| < U32_LIMIT
    requires if IsVar(elem) then r == h else r == s + |vs| * FixedSize(elem)
    ensures UnpackElements(elem, d, r, s, |vs|) == Parsed(vs, if IsVar(elem) then h + |Elements(elem, vs)| else r)
    decreases vs, elem, 0
  {
    hide At, Pack, Read32, U32, ElementSlots, Unpack, UnpackSlot, WellFormed, Jump, UnpackElements, Elements, HasType, FixedSize, IsVar;
    if vs == [] {
      NoElements(elem, d, r, s, vs);
    } else {
      assert vs == [vs[0]] + vs[1..];
      ElementsSize(elem, vs);
      ElementsAtStep(d, elem, vs, s, h);
      var h' := h + |Pack(elem, vs[0])|;
      if IsVar(elem) {
        OffsetReads(elem, d, s, h, vs[0]);
        ElementsRead(elem, d, s + 4, h', h', vs[1..]);
        ElementsUnfold(elem, d, r, s, |vs|, vs[0], h', vs[1..], h + |Elements(elem, vs)|);
      } else {
        OneMore(|vs[1..]|, FixedSize(elem));
        FlatReads(elem, d, r, s, vs[0]);
        ElementsRead(elem, d, s + FixedSize(elem), h', r, vs[1..]);
        ElementsUnfold(elem, d, r, s, |vs|, vs[0], r, vs[1..], r);
      }
    }
  }

  /** A value that stands in its slot is read there, and the reader is put back. */
  lemma {:induction false} FlatReads(t: Type, d: seq<byte>, r: nat, c: nat, v: Value)
    requires WellFormed(t) && HasType(v, t) && !IsVar(t) && At(d, c, Pack(t, v)) && |Pack(t, v)| < U32_LIMIT
    ensures UnpackSlot(t, d, r, c) == Parsed(v, r)
    decreases v, t, 3
  {
    hide Unpack, Pack;
    UnpackReads(t, d, c, v);
  }

  /** A field's slot and heap part are read back, and the reader passes the heap part. */
  lemma {:induction false} SlotReads(t: Type, d: seq<byte>, s: nat, h: nat, v: Value)
    requires WellFormed(t) && HasType(v, t) && At(d, s, Slot(t, v, h - s)) && At(d, h, Heap(t, v))
    requires s + FixedSize(t) <= h && h - s + |Heap(t, v)| < U32_LIMIT
    ensures UnpackSlot(t, d, h, s) == Parsed(v, h + |Heap(t, v)|)
    decreases v, t, 3
  {
    hide Unpack, UnpackScalar, Read32, U32, At, Pack, Follow, EmptyOf;
    AtInside(d, s, Slot(t, v, h - s));
    AtInside(d, h, Heap(t, v));
    if !IsVar(t) {
      UnpackReads(t, d, s, v);
    } else if v.Null? {
      Read32At(d, s, 1);
    } else if IsEmptyContainer(Payload(t), v) {
      Read32At(d, s, 0);
      EmptyIs(Payload(t), v);
      FollowZero(Payload(t), d, h, s, v);
    } else {
      Read32At(d, s, h - s);
      UnpackReads(Payload(t), d, h, v);
      FollowIs(Payload(t), d, h, s);
    }
  }

  lemma {:induction false} AbsentReads(ts: seq<Type>, d: seq<byte>, r: nat, c: nat, heap: nat, vs: seq<Value>)
    requires (forall t :: t in ts ==> WellFormed(t)) && HaveTypes(vs, ts) && Absent(ts, vs) && c >= heap
    ensures UnpackFields(ts, d, r, c, heap) == Parsed(vs, r) && Heaps(ts, vs) == []
    decreases |ts|
  {
    hide UnpackSlot;
    NotRequired(ts, vs);
    if ts != [] {
      assert vs == [vs[0]] + vs[1..];
      AbsentReads(ts[1..], d, r, c, heap, vs[1..]);
    }
  }

  /** A field whose slot starts before the heap is there. */
  lemma UnpackPresent(ts: seq<Type>, d: seq<byte>, r: nat, c: nat, heap: nat)
    requires (forall t :: t in ts ==> WellFormed(t)) && ts != [] && c < heap
    ensures var x := UnpackSlot(ts[0], d, r, c);
            x.Parsed? ==>
              var rest := UnpackFields(ts[1..], d, x.pos, c + FixedSize(ts[0]), heap);
              UnpackFields(ts, d, r, c, heap) == if rest.Parsed? then Parsed([x.value] + rest.value, rest.pos) else Refused
  {
    hide UnpackSlot, FixedSize, WellFormed;
  }

  lemma {:induction false} FieldsRead(ts: seq<Type>, d: seq<byte>, s: nat, h: nat, vs: seq<Value>)
    requires (forall t :: t in ts ==> WellFormed(t)) && FieldsAt(d, ts, vs, s, h)
    ensures UnpackFields(ts, d, h, s, s + Fixed(ts, vs)) == Parsed(vs, h + |Heaps(ts, vs)|)
    decreases vs, ts, 0
  {
    hide UnpackSlot, UnpackFields, At, Slot, Heap, Slots, Heaps, Absent, FixedSize, HasType, WellFormed, Required, Fixed;
    if Absent(ts, vs) {
      NoneFixed(ts, vs);
      AbsentReads(ts, d, h, s, s, vs);
    } else {
      FieldsUnfold(ts, vs, h - s);
      assert vs == [vs[0]] + vs[1..];
      FieldsAtStep(d, ts, vs, s, h);
      UnpackPresent(ts, d, h, s, s + Fixed(ts, vs));
      SlotReads(ts[0], d, s, h, vs[0]);
      FieldsRead(ts[1..], d, s + FixedSize(ts[0]), h + |Heap(ts[0], vs[0])|, vs[1..]);
    }
  }

  lemma {:induction false} ArrayRead(item: Type, n: nat, d: seq<byte>, s: nat, h: nat, vs: seq<Value>)
    requires WellFormed(item) && PartsAt(d, Rep(item, n), vs, s, h)
    ensures UnpackArray(item, d, h, s, n) == Parsed(vs, h + |Heaps(Rep(item, n), vs)|)
    decreases vs, item, 0
  {
    hide UnpackSlot, At, Slot, Heap, AllSlots, Heaps, Rep, FixedTotal, FixedSize, HasType, WellFormed;
    if n == 0 {
      NoHeaps(Rep(item, n), vs);
    } else {
      assert vs == [vs[0]] + vs[1..];
      RepTail(item, n);
      PartsUnfold(Rep(item, n), vs, h - s);
      PartsAtStep(d, Rep(item, n), vs, s, h);
      SlotReads(item, d, s, h, vs[0]);
      ArrayRead(item, n - 1, d, s + FixedSize(item), h + |Heap(item, vs[0])|, vs[1..]);
    }
  }

  lemma NoHeaps(ts: seq<Type>, vs: seq<Value>)
    requires HaveTypes(vs, ts) && ts == []
    ensures Heaps(ts, vs) == []
  {
  }

  lemma {:induction false} PartsRead(ts: seq<Type>, d: seq<byte>, s: nat, h: nat, vs: seq<Value>)
    requires (forall t :: t in ts ==> WellFormed(t)) && PartsAt(d, ts, vs, s, h)
    ensures UnpackParts(ts, d, h, s) == Parsed(vs, h + |Heaps(ts, vs)|)
    decreases vs, ts, 0
  {
    hide UnpackSlot, At, Slot, Heap, AllSlots, Heaps, FixedTotal, FixedSize, HasType, WellFormed;
    if ts == [] {
      NoHeaps(ts, vs);
    } else {
      assert vs == [vs[0]] + vs[1..];
      PartsUnfold(ts, vs, h - s);
      PartsAtStep(d, ts, vs, s, h);
      SlotReads(ts[0], d, s, h, vs[0]);
      PartsRead(ts[1..], d, s + FixedSize(ts[0]), h + |Heap(ts[0], vs[0])|, vs[1..]);
    }
  }

  /** The round trip over a whole buffer. */
  lemma UnpackPack(t: Type, v: Value)
    requires WellFormed(t) && HasType(v, t) && |Pack(t, v)| < U32_LIMIT
    ensures UnpackAll(t, Pack(t, v)) == Ok(v)
  {
    hide Unpack, Pack;
    UnpackReads(t, Pack(t, v), 0, v);
  }

  /** The view agrees with unpacking exactly on the values it shows. */
  lemma ViewAgrees(t: Type, v: Value)
    requires WellFormed(t) && HasType(v, t) && |Pack(t, v)| < U32_LIMIT
    ensures View(t, Pack(t, v), 0) == UnpackAll(t, Pack(t, v)) <==> ShownAt(t, v, Pack(t, v), 0)
  {
    hide Unpack, View, Pack, ShownAt;
    ViewShows(t, Pack(t, v), 0, v);
    UnpackPack(t, v);
  }
}
