/** Measuring a packed value without decoding it (js/src/mutation.ts, lines 157-289). */
module FracSize {
  import opened ByteStrings
  import opened Wrappers
  import opened FracTypes
  import opened FracUnpack
  import opened FracView

  function Max(a: nat, b: nat): nat {
    if a < b then b else a
  }

  /** The end of the value at pos, None for an exception. Every number read past the end of the data
      is 0. An array is not measured but unpacked. */
  function EndOf(t: Type, d: seq<byte>, pos: nat): (end: Option<nat>)
    requires WellFormed(t)
    ensures end.Some? ==> pos <= end.value
    decreases t, 0
  {
    match t
    case Scalar(size, _) => Some(pos + size)
    case Blob(_) => Some(pos + 4 + Read32(d, pos))
    case Vec(elem) =>
      var size := Read32(d, pos);
      if !IsVar(elem) then Some(pos + 4 + size)
      else ElementsEnd(elem, d, pos + 4, (size + FixedSize(elem) - 1) / FixedSize(elem), pos + 4 + size)
    case Optional(inner) => EndOf(inner, d, pos)
    case Struct(fields) => StructEnd(fields, d, pos)
    case Variant(_) => Some(pos + 1 + 4 + Read32(d, pos + 1))
    case Tuple(elems) => StructEnd(elems, d, pos)
    case Array(_, _) => UnpackedEnd(t, d, pos)
    case FixedStruct(parts) =>
      var heap := pos + FixedTotal(parts);
      FieldsEnd(parts, d, pos, heap, heap)
  }

  function StructEnd(ts: seq<Type>, d: seq<byte>, pos: nat): (end: Option<nat>)
    requires forall t :: t in ts ==> WellFormed(t)
    ensures end.Some? ==> pos <= end.value
    decreases ts, 1
  {
    var heap := pos + 2 + Read16(d, pos);
    FieldsEnd(ts, d, pos + 2, heap, heap)
  }

  function UnpackedEnd(t: Type, d: seq<byte>, pos: nat): (end: Option<nat>)
    requires WellFormed(t)
    ensures end.Some? ==> pos <= end.value
  {
    match Unpack(t, d[Min(pos, |d|)..], 0)
    case Parsed(_, end) => Some(pos + end)
    case Refused => None
  }

  /** The furthest end of what the n slots from `slot` on lead to. */
  function ElementsEnd(elem: Type, d: seq<byte>, slot: nat, n: nat, end: nat): (r: Option<nat>)
    requires WellFormed(elem)
    ensures r.Some? ==> end <= r.value
    decreases elem, n + 1
  {
    if n == 0 then Some(end)
    else
      var offset := Read32(d, slot);
      if offset <= 1 then ElementsEnd(elem, d, slot + FixedSize(elem), n - 1, end)
      else
        match EndOf(elem, d, slot + offset)
        case None => None
        case Some(e) => ElementsEnd(elem, d, slot + FixedSize(elem), n - 1, Max(end, e))
  }

  function FieldEnd(t: Type, d: seq<byte>, slot: nat, end: nat): (r: Option<nat>)
    requires WellFormed(t)
    ensures r.Some? ==> end <= r.value
    decreases t, 1
  {
    if !IsVar(t) || Read32(d, slot) <= 1 then Some(end)
    else
      match EndOf(t, d, slot + Read32(d, slot))
      case None => None
      case Some(e) => Some(Max(end, e))
  }

  function FieldsEnd(ts: seq<Type>, d: seq<byte>, slot: nat, heap: nat, end: nat): (r: Option<nat>)
    requires forall t :: t in ts ==> WellFormed(t)
    ensures r.Some? ==> end <= r.value
    decreases ts, 0
  {
    if ts == [] || slot >= heap then Some(end)
    else
      match FieldEnd(ts[0], d, slot, end)
      case None => None
      case Some(e) => FieldsEnd(ts[1..], d, slot + FixedSize(ts[0]), heap, e)
  }

  function PackedSizeAt(t: Type, d: seq<byte>, pos: nat): Option<nat>
    requires WellFormed(t)
  {
    match EndOf(t, d, pos)
    case None => None
    case Some(end) => Some(end - pos)
  }

  // ---------------------------------------------------------------- what is measured right

  /** A byte string, or a list whose elements stand in the list itself: a length, then so many bytes. */
  predicate Run(t: Type) {
    t.Blob? || (t.Vec? && !IsVar(t.elem))
  }

  /** A type measured as the size of its slot. */
  predicate Block(t: Type) {
    t.Scalar? || (t.FixedStruct? && !IsVar(t))
  }

  /** The measured size of a list of optionals is right. An element keeps its own offset, and it is
      this offset that is measured as if it were the value; what counts is the last element. */
  predicate ExactLast(inner: Type, vs: seq<Value>) {
    vs == [] ||
    var last := vs[|vs| - 1];
    (Run(inner) && IsEmptyContainer(inner, last)) || (Block(inner) && last.Null? && FixedSize(inner) == 4)
  }

  /** The measured size of a list of optionals is not too large. */
  predicate NotOverLast(inner: Type, vs: seq<Value>) {
    vs == [] ||
    var last := vs[|vs| - 1];
    (Run(inner) && !last.Null?) || (Block(inner) && (!last.Null? || FixedSize(inner) <= 4))
  }

  /** The last heap part inside the value is measured right, down to a list of optionals: the parts
      before it end before it. */
  predicate Exact(t: Type, v: Value)
    requires HasType(v, t)
    decreases v, t, 1
  {
    match t
    case Scalar(_, _) => true
    case Blob(_) => true
    case Vec(elem) =>
      if !IsVar(elem) || v.items == [] then true
      else if elem.Optional? then ExactLast(elem.inner, v.items)
      else
        assert v.items[|v.items| - 1] in v.items;
        Exact(elem, v.items[|v.items| - 1])
    case Optional(inner) => v.Null? || Exact(inner, v)
    case Struct(fields) => LastExact(fields, v.items)
    case Variant(_) => true
    case Tuple(elems) => LastExact(elems, v.items)
    case Array(_, _) => true
    case FixedStruct(parts) => LastExact(parts, v.items)
  }

  predicate NoHeapParts(ts: seq<Type>, vs: seq<Value>) {
    |ts| == |vs| && forall i :: 0 <= i < |ts| ==> !HasHeap(ts[i], vs[i])
  }

  predicate LastExact(ts: seq<Type>, vs: seq<Value>)
    requires HaveTypes(vs, ts)
    decreases vs, ts, 0
  {
    if NoHeapParts(ts, vs) then true
    else if NoHeapParts(ts[1..], vs[1..]) then Exact(ts[0], vs[0])
    else LastExact(ts[1..], vs[1..])
  }

  /** No list of optionals that is measured, inside the value, is measured too large. */
  predicate NotOver(t: Type, v: Value)
    requires HasType(v, t)
    decreases v, t, 1
  {
    match t
    case Scalar(_, _) => true
    case Blob(_) => true
    case Vec(elem) =>
      if !IsVar(elem) then true
      else if elem.Optional? then NotOverLast(elem.inner, v.items)
      else forall x :: x in v.items ==> NotOver(elem, x)
    case Optional(inner) => v.Null? || NotOver(inner, v)
    case Struct(fields) => AllNotOver(fields, v.items)
    case Variant(_) => true
    case Tuple(elems) => AllNotOver(elems, v.items)
    case Array(_, _) => true
    case FixedStruct(parts) => AllNotOver(parts, v.items)
  }

  predicate AllNotOver(ts: seq<Type>, vs: seq<Value>)
    requires HaveTypes(vs, ts)
    decreases vs, ts, 0
  {
    ts == [] || (NotOver(ts[0], vs[0]) && AllNotOver(ts[1..], vs[1..]))
  }

  /** A measured end: not behind the real one, and the real one exactly if it is measured right. */
  predicate Ends(r: Option<nat>, end: nat, exact: bool) {
    r.Some? && r.value <= end && (r.value == end <==> exact)
  }

  // ---------------------------------------------------------------- lists of optionals

  /** What is measured in place of an optional element. */
  function Seen(inner: Type, v: Value): nat {
    if Block(inner) then FixedSize(inner)
    else if v.Null? then 5
    else if IsEmptyContainer(inner, v) then 4
    else 8
  }

  lemma OptionalSize(inner: Type, v: Value)
    requires HasType(v, Optional(inner)) && (Run(inner) || Block(inner))
    ensures |Pack(Optional(inner), v)| ==
            if v.Null? || IsEmptyContainer(inner, v) then 4 else 4 + |Pack(inner, v)|
    ensures !v.Null? ==> if Block(inner) then |Pack(inner, v)| == FixedSize(inner)
                         else |Pack(inner, v)| >= 4 && (|Pack(inner, v)| == 4 <==> IsEmptyContainer(inner, v))
  {
    hide ElementSlots, FixedSize;
    if inner.Vec? && !v.Null? {
      FlatElements(inner.elem, v.items);
      AtLeastOne(|v.items|, FixedSize(inner.elem));
    }
  }

  lemma AtLeastOne(n: nat, size: Size)
    ensures n * size >= n
  {
  }

  lemma ElementSeen(inner: Type, d: seq<byte>, h: nat, v: Value)
    requires WellFormed(Optional(inner)) && HasType(v, Optional(inner)) && (Run(inner) || Block(inner))
    requires At(d, h, Pack(Optional(inner), v))
    ensures EndOf(Optional(inner), d, h) == Some(h + Seen(inner, v))
  {
    hide Read32, U32, Pack, At, FieldsEnd, FixedTotal;
    OptionalSize(inner, v);
    if Block(inner) {
      BlockEnd(inner, d, h);
    } else {
      FirstWord(inner, d, h, v);
    }
  }

  lemma BlockEnd(t: Type, d: seq<byte>, pos: nat)
    requires WellFormed(t) && Block(t)
    ensures EndOf(t, d, pos) == Some(pos + FixedSize(t))
  {
    hide FieldsEnd, FixedTotal;
    if t.FixedStruct? { FlatEnd(t.parts, d, pos, pos + FixedTotal(t.parts), pos + FixedTotal(t.parts)); }
  }

  lemma {:induction false} FlatEnd(ts: seq<Type>, d: seq<byte>, slot: nat, heap: nat, end: nat)
    requires (forall t :: t in ts ==> WellFormed(t)) && Flat(ts)
    ensures FieldsEnd(ts, d, slot, heap, end) == Some(end)
  {
    hide EndOf, Read32, FixedSize, IsVar, WellFormed;
    if ts != [] && slot < heap { FlatEnd(ts[1..], d, slot + FixedSize(ts[0]), heap, end); }
  }

  lemma FirstWord(inner: Type, d: seq<byte>, h: nat, v: Value)
    requires HasType(v, Optional(inner)) && At(d, h, Pack(Optional(inner), v))
    ensures Read32(d, h) == if v.Null? then 1 else if IsEmptyContainer(inner, v) then 0 else 4
  {
    hide Read32, U32;
    if v.Null? {
      Read32At(d, h, 1);
    } else if IsEmptyContainer(inner, v) {
      Read32At(d, h, 0);
    } else {
      AtSplit(d, h, U32(4), Pack(inner, v));
      Read32At(d, h, 4);
    }
  }

  /** The least that is measured in place of an element. */
  function LeastSeen(inner: Type): nat {
    if Block(inner) then FixedSize(inner) else 4
  }

  lemma SeenBounds(inner: Type, v: Value)
    requires HasType(v, Optional(inner)) && (Run(inner) || Block(inner))
    ensures LeastSeen(inner) <= Seen(inner, v) <= |Pack(Optional(inner), v)| + LeastSeen(inner)
  {
    hide Pack, HasType, FixedSize;
    OptionalSize(inner, v);
  }

  lemma OneElementEnd(elem: Type, d: seq<byte>, slot: nat, n: nat, end: nat, e: nat)
    requires WellFormed(elem) && n > 0 && Read32(d, slot) > 1 && EndOf(elem, d, slot + Read32(d, slot)) == Some(e)
    ensures ElementsEnd(elem, d, slot, n, end) == ElementsEnd(elem, d, slot + FixedSize(elem), n - 1, Max(end, e))
  {
    hide EndOf, Read32, FixedSize, WellFormed;
  }

  lemma NoElementsEnd(elem: Type, d: seq<byte>, slot: nat, end: nat)
    requires WellFormed(elem)
    ensures ElementsEnd(elem, d, slot, 0, end) == Some(end)
  {
  }

  /** The last element decides: the others end before what is measured in its place. */
  lemma {:induction false} OptionalsEnd(inner: Type, d: seq<byte>, s: nat, h: nat, vs: seq<Value>, end: nat)
    requires WellFormed(Optional(inner)) && (Run(inner) || Block(inner)) && vs != []
    requires ElementsAt(d, Optional(inner), vs, s, h) && end <= h + LeastSeen(inner)
    ensures var last := vs[|vs| - 1];
            HasType(last, Optional(inner)) && |Pack(Optional(inner), last)| <= |Elements(Optional(inner), vs)|
            && ElementsEnd(Optional(inner), d, s, |vs|, end)
               == Some(h + |Elements(Optional(inner), vs)| - |Pack(Optional(inner), last)| + Seen(inner, last))
    decreases |vs|
  {
    hide At, Pack, Read32, U32, ElementSlots, EndOf, HasType, WellFormed, ElementsEnd, Elements, FixedSize, Seen, Run, Block, LeastSeen;
    var t := Optional(inner);
    ElementsSize(t, vs);
    ElementsAtStep(d, t, vs, s, h);
    Read32At(d, s, h - s);
    ElementSeen(inner, d, h, vs[0]);
    SeenBounds(inner, vs[0]);
    OneElementEnd(t, d, s, |vs|, end, h + Seen(inner, vs[0]));
    if |vs| == 1 {
      NoElementsEnd(t, d, s + 4, h + Seen(inner, vs[0]));
      NoElementsSize(t, vs[1..]);
    } else {
      OptionalsEnd(inner, d, s + 4, h + |Pack(t, vs[0])|, vs[1..], h + Seen(inner, vs[0]));
    }
  }

  lemma NoElementsSize(elem: Type, none: seq<Value>)
    requires none == []
    ensures Elements(elem, none) == []
  {
  }

  lemma CountOf(n: nat)
    ensures (n * 4 + 4 - 1) / 4 == n
  {
  }

  /** A list of optional byte strings, of optional lists without offsets, or of optionals of fixed
      size: what is measured differs from the packed size by what the last element is mistaken for. */
  lemma OptionalsMeasured(inner: Type, d: seq<byte>, pos: nat, vs: seq<Value>)
    requires WellFormed(Optional(inner)) && (Run(inner) || Block(inner)) && vs != []
    requires HasType(Items(vs), Vec(Optional(inner))) && |Pack(Vec(Optional(inner)), Items(vs))| < U32_LIMIT
    requires At(d, pos, Pack(Vec(Optional(inner)), Items(vs)))
    ensures var last := vs[|vs| - 1];
            HasType(last, Optional(inner)) && PackedSizeAt(Vec(Optional(inner)), d, pos)
              == Some(|Pack(Vec(Optional(inner)), Items(vs))| - |Pack(Optional(inner), last)| + Seen(inner, last))
  {
    hide *;
    var t := Optional(inner);
    VecParts(t, vs);
    OptionalIsVar(inner, vs);
    VecAt(d, t, vs, pos);
    var h := pos + 4 + 4 * |vs|;
    OptionalsEnd(inner, d, pos + 4, h, vs, h);
    ListSize(t, d, pos, |vs|, ElementsEnd(t, d, pos + 4, |vs|, h).value);
  }

  lemma OptionalIsVar(inner: Type, vs: seq<Value>)
    ensures IsVar(Optional(inner)) && FixedSize(Optional(inner)) == 4 && ElementsPart(Optional(inner), vs) == 4 * |vs|
    ensures WellFormed(Optional(inner)) ==> WellFormed(Vec(Optional(inner)))
  {
  }

  lemma ListSize(elem: Type, d: seq<byte>, pos: nat, n: nat, end: nat)
    requires WellFormed(elem) && IsVar(elem) && Read32(d, pos) == n * 4 && pos <= end
    requires ElementsEnd(elem, d, pos + 4, n, pos + 4 + 4 * n) == Some(end)
    ensures WellFormed(Vec(elem)) && PackedSizeAt(Vec(elem), d, pos) == Some(end - pos)
  {
    hide ElementsEnd, Read32;
    CountOf(n);
  }

  lemma VecParts(elem: Type, vs: seq<Value>)
    requires HasType(Items(vs), Vec(elem))
    ensures forall v :: v in vs ==> HasType(v, elem)
    ensures Pack(Vec(elem), Items(vs)) == PackVec(elem, vs)
  {
    assert Items(vs).items == vs;
  }

  /** Such a list is measured right exactly when it is empty, ends with an empty container, or is of
      optionals of four bytes and ends with a null. */
  lemma OptionalsExactIff(inner: Type, d: seq<byte>, pos: nat, vs: seq<Value>)
    requires WellFormed(Optional(inner)) && (Run(inner) || Block(inner))
    requires HasType(Items(vs), Vec(Optional(inner))) && |Pack(Vec(Optional(inner)), Items(vs))| < U32_LIMIT
    requires At(d, pos, Pack(Vec(Optional(inner)), Items(vs)))
    ensures PackedSizeAt(Vec(Optional(inner)), d, pos).Some?
    ensures PackedSizeAt(Vec(Optional(inner)), d, pos).value == |Pack(Vec(Optional(inner)), Items(vs))| <==> ExactLast(inner, vs)
    ensures PackedSizeAt(Vec(Optional(inner)), d, pos).value <= |Pack(Vec(Optional(inner)), Items(vs))| <==> NotOverLast(inner, vs)
  {
    hide At, PackVec, Pack, HasType, WellFormed, PackedSizeAt;
    if vs == [] {
      EmptyListMeasured(inner, d, pos, vs);
    } else {
      var last := vs[|vs| - 1];
      OptionalsMeasured(inner, d, pos, vs);
      OptionalSize(inner, last);
    }
  }

  lemma EmptyListMeasured(inner: Type, d: seq<byte>, pos: nat, none: seq<Value>)
    requires WellFormed(Optional(inner)) && none == []
    requires HasType(Items(none), Vec(Optional(inner))) && At(d, pos, Pack(Vec(Optional(inner)), Items(none)))
    ensures PackedSizeAt(Vec(Optional(inner)), d, pos) == Some(4) && |Pack(Vec(Optional(inner)), Items(none))| == 4
  {
    hide At, Read32, ElementsEnd;
    var t := Optional(inner);
    VecParts(t, none);
    NoElementsSize(t, none);
    VecAt(d, t, none, pos);
    NoElementsEnd(t, d, pos + 4, pos + 4);
  }

  /** For optional byte strings and texts: a null at the end counts one byte too many, and a string of n bytes
      there n too few. */
  lemma OptionalBytesMeasured(isText: bool, d: seq<byte>, pos: nat, vs: seq<Value>)
    requires HasType(Items(vs), Vec(Optional(Blob(isText)))) && vs != [] && |Pack(Vec(Optional(Blob(isText))), Items(vs))| < U32_LIMIT
    requires At(d, pos, Pack(Vec(Optional(Blob(isText))), Items(vs)))
    ensures WellFormed(Optional(Blob(isText))) && WellFormed(Vec(Optional(Blob(isText))))
    ensures var last := vs[|vs| - 1];
            (last.Null? || last.Data?)
            && PackedSizeAt(Vec(Optional(Blob(isText))), d, pos)
               == Some(|Pack(Vec(Optional(Blob(isText))), Items(vs))| + if last.Null? then 1 else -|last.bytes|)
  {
    hide At, PackVec, PackedSizeAt;
    OptionalsMeasured(Blob(isText), d, pos, vs);
    OptionalSize(Blob(isText), vs[|vs| - 1]);
  }

  // ---------------------------------------------------------------- whole values

  /** Whatever surrounds a packed value, its measured end. */
  lemma {:induction false} EndOfPacked(t: Type, d: seq<byte>, pos: nat, v: Value)
    requires WellFormed(t) && !t.Optional? && HasType(v, t) && NotOver(t, v)
    requires At(d, pos, Pack(t, v)) && |Pack(t, v)| < U32_LIMIT
    ensures Ends(EndOf(t, d, pos), pos + |Pack(t, v)|, Exact(t, v))
    decreases v, t, 1
  {
    hide Slots, Heaps, Elements, ElementSlots, FieldsEnd, ElementsEnd, Read32, Read16, U32, U16, Absent, Fixed, At, AllSlots, FixedTotal,
         PackStruct, PackParts, PackVec, UnpackedEnd, LastExact, AllNotOver, StructEnd, IsVar, FixedSize, NoHeapParts;
    match t
    case Scalar(size, _) => assert |Le(v.n, size)| == size;
    case Blob(_) => BlobAt(d, v.bytes, pos);
    case Vec(elem) => ListEnd(t, d, pos, v);
    case Struct(fields) => StructEndPacked(fields, d, pos, v.items);
    case Variant(cases) => VariantAt(d, cases, v, pos);
    case Tuple(elems) => StructEndPacked(elems, d, pos, v.items);
    case Array(item, len) => UnpackedEndIs(t, d, pos, v);
    case FixedStruct(parts) =>
      PartsHere(d, parts, v.items, pos);
      NoPartsExact(parts, v.items);
      PartsEndPacked(parts, d, pos, pos + FixedTotal(parts), v.items, pos + FixedTotal(parts));
  }

  lemma {:induction false} ListEnd(t: Type, d: seq<byte>, pos: nat, v: Value)
    requires t.Vec? && WellFormed(t) && HasType(v, t) && NotOver(t, v)
    requires At(d, pos, Pack(t, v)) && |Pack(t, v)| < U32_LIMIT
    ensures Ends(EndOf(t, d, pos), pos + |Pack(t, v)|, Exact(t, v))
    decreases v, t, 0
  {
    hide Elements, ElementSlots, ElementsEnd, Read32, At, PackVec, FixedSize, IsVar, ElementsAt, ExactLast, NotOverLast;
    var elem := t.elem;
    if IsVar(elem) && elem.Optional? {
      LastIsKnown(elem.inner, v.items);
      if v.items != [] {
        OptionalsExactIff(elem.inner, d, pos, v.items);
      } else {
        EmptyListMeasured(elem.inner, d, pos, v.items);
      }
    } else {
      VecAt(d, elem, v.items, pos);
      if IsVar(elem) {
        CountOf(|v.items|);
        ElementsEndPacked(elem, d, pos + 4, pos + 4 + 4 * |v.items|, v.items, pos + 4 + 4 * |v.items|);
      }
    }
  }

  lemma LastIsKnown(inner: Type, vs: seq<Value>)
    requires NotOverLast(inner, vs)
    ensures vs == [] || Run(inner) || Block(inner)
  {
    hide Run, Block;
  }

  /** An array is unpacked, which ends right behind it. */
  lemma UnpackedEndIs(t: Type, d: seq<byte>, pos: nat, v: Value)
    requires WellFormed(t) && HasType(v, t) && At(d, pos, Pack(t, v)) && |Pack(t, v)| < U32_LIMIT
    ensures UnpackedEnd(t, d, pos) == Some(pos + |Pack(t, v)|)
  {
    hide Pack, Unpack, HasType, WellFormed;
    AtTail(d, pos, Pack(t, v));
    UnpackReads(t, d[pos..], 0, v);
  }

  lemma AtTail(d: seq<byte>, pos: nat, part: seq<byte>)
    requires At(d, pos, part)
    ensures pos <= |d| && At(d[pos..], 0, part)
  {
  }

  lemma {:induction false} StructEndPacked(ts: seq<Type>, d: seq<byte>, pos: nat, vs: seq<Value>)
    requires (forall t :: t in ts ==> WellFormed(t)) && FixedTotal(ts) < U16_LIMIT
    requires HaveTypes(vs, ts) && AllNotOver(ts, vs)
    requires At(d, pos, PackStruct(ts, vs)) && |PackStruct(ts, vs)| < U32_LIMIT
    ensures Ends(StructEnd(ts, d, pos), pos + |PackStruct(ts, vs)|, LastExact(ts, vs))
    decreases vs, ts, 1
  {
    hide Heaps, FieldsEnd, Read16, FieldsAt, PackStruct, At, LastExact, AllNotOver, FixedTotal, Fixed, HasType, NoHeapParts;
    StructAt(d, ts, vs, pos);
    NoPartsExact(ts, vs);
    var h := pos + 2 + Fixed(ts, vs);
    FieldsEndPacked(ts, d, pos + 2, h, vs, h);
  }

  lemma NoPartsExact(ts: seq<Type>, vs: seq<Value>)
    requires HaveTypes(vs, ts)
    ensures NoHeapParts(ts, vs) ==> LastExact(ts, vs)
  {
    hide Exact;
  }

  /** The heap bytes are none exactly if there are no heap parts. */
  lemma {:induction false} HeapsOf(ts: seq<Type>, vs: seq<Value>)
    requires HaveTypes(vs, ts)
    ensures NoHeapParts(ts, vs) <==> |Heaps(ts, vs)| == 0
    ensures ts != [] ==> (NoHeapParts(ts, vs) <==> !HasHeap(ts[0], vs[0]) && NoHeapParts(ts[1..], vs[1..]))
    decreases |ts|
  {
    hide HasType, HasHeap, Pack, Heap;
    if ts != [] {
      HeapPart(ts[0], vs[0]);
      HeapsOf(ts[1..], vs[1..]);
      forall i | 0 < i < |ts| ensures HasHeap(ts[i], vs[i]) == HasHeap(ts[1..][i - 1], vs[1..][i - 1]) {}
      if NoHeapParts(ts, vs) {
        forall i | 0 <= i < |ts[1..]| ensures !HasHeap(ts[1..][i], vs[1..][i]) { assert !HasHeap(ts[i + 1], vs[i + 1]); }
      }
    }
  }

  lemma HeapPart(t: Type, v: Value)
    requires HasType(v, t)
    ensures HasHeap(t, v) <==> |Heap(t, v)| > 0
  {
    hide Pack;
    if HasHeap(t, v) { PackNotEmpty(Payload(t), v); }
  }

  lemma {:induction false} ElementsEndPacked(elem: Type, d: seq<byte>, s: nat, h: nat, vs: seq<Value>, end: nat)
    requires WellFormed(elem) && IsVar(elem) && !elem.Optional? && end <= h
    requires ElementsAt(d, elem, vs, s, h) && |Elements(elem, vs)| < U32_LIMIT && forall x :: x in vs ==> NotOver(elem, x)
    ensures vs != [] ==> vs[|vs| - 1] in vs
    ensures Ends(ElementsEnd(elem, d, s, |vs|, end), h + |Elements(elem, vs)|, if vs == [] then end == h else Exact(elem, vs[|vs| - 1]))
    decreases vs, elem, 0
  {
    hide At, Pack, Read32, U32, ElementSlots, EndOf, WellFormed, HasType, ElementsEnd, Elements, FixedSize, IsVar, Exact, NotOver;
    if vs == [] {
      NoElementsEnd(elem, d, s, end);
      NoElementsSize(elem, vs);
    } else {
      assert vs[0] in vs && forall x :: x in vs[1..] ==> x in vs;
      PackNotEmpty(elem, vs[0]);
      ElementsSize(elem, vs);
      ElementsAtStep(d, elem, vs, s, h);
      Read32At(d, s, h - s);
      EndOfPacked(elem, d, h, vs[0]);
      var e, h' := EndOf(elem, d, h).value, h + |Pack(elem, vs[0])|;
      OneElementEnd(elem, d, s, |vs|, end, e);
      ElementsEndPacked(elem, d, s + 4, h', vs[1..], Max(end, e));
    }
  }

  lemma {:induction false} FieldEndPacked(t: Type, d: seq<byte>, s: nat, h: nat, v: Value, end: nat)
    requires WellFormed(t) && HasType(v, t) && NotOver(t, v) && At(d, s, Slot(t, v, h - s)) && At(d, h, Heap(t, v))
    requires s + FixedSize(t) <= h && h - s + |Heap(t, v)| < U32_LIMIT && end <= h
    ensures Ends(FieldEnd(t, d, s, end), h + |Heap(t, v)|, if HasHeap(t, v) then Exact(t, v) else end == h)
    decreases v, t, 2
  {
    hide EndOf, Read32, U32, At, Pack, HasType, WellFormed, FixedSize, IsVar, Exact, NotOver;
    FieldFacts(t, v);
    if IsVar(t) {
      if v.Null? {
        Read32At(d, s, 1);
      } else if IsEmptyContainer(Payload(t), v) {
        Read32At(d, s, 0);
      } else {
        Read32At(d, s, h - s);
        PayloadMeasure(t, v);
        PackNotEmpty(Payload(t), v);
        EndOfPacked(Payload(t), d, h, v);
        EndOfPayload(t, d, h);
      }
    }
  }

  lemma PayloadMeasure(t: Type, v: Value)
    requires WellFormed(t) && HasType(v, t) && !v.Null?
    ensures HasType(v, Payload(t)) && WellFormed(Payload(t)) && !Payload(t).Optional?
    ensures Exact(t, v) == Exact(Payload(t), v) && NotOver(t, v) == NotOver(Payload(t), v)
  {
  }

  lemma EndOfPayload(t: Type, d: seq<byte>, pos: nat)
    requires WellFormed(t)
    ensures WellFormed(Payload(t)) && EndOf(t, d, pos) == EndOf(Payload(t), d, pos)
  {
  }

  lemma FieldsEndStep(ts: seq<Type>, d: seq<byte>, slot: nat, heap: nat, end: nat, e: nat)
    requires (forall t :: t in ts ==> WellFormed(t)) && ts != [] && slot < heap && FieldEnd(ts[0], d, slot, end) == Some(e)
    ensures FieldsEnd(ts, d, slot, heap, end) == FieldsEnd(ts[1..], d, slot + FixedSize(ts[0]), heap, e)
  {
    hide FieldEnd, WellFormed, FixedSize;
  }

  lemma {:induction false} FieldsEndPacked(ts: seq<Type>, d: seq<byte>, s: nat, h: nat, vs: seq<Value>, end: nat)
    requires (forall t :: t in ts ==> WellFormed(t)) && FieldsAt(d, ts, vs, s, h) && AllNotOver(ts, vs) && end <= h
    ensures Ends(FieldsEnd(ts, d, s, s + Fixed(ts, vs), end), h + |Heaps(ts, vs)|, if NoHeapParts(ts, vs) then end == h else LastExact(ts, vs))
    decreases vs, ts, 0
  {
    hide FieldEnd, FieldsEnd, At, Slot, Heap, Slots, Heaps, Absent, Fixed, FixedSize, HasType, WellFormed, Exact, NotOver, HasHeap, NoHeapParts;
    HeapsOf(ts, vs);
    if Absent(ts, vs) {
      NoneFixed(ts, vs);
      AbsentHeaps(ts, vs);
      NoFieldsEnd(ts, d, s, end);
    } else {
      FieldsUnfold(ts, vs, h - s);
      FieldsAtStep(d, ts, vs, s, h);
      FieldEndPacked(ts[0], d, s, h, vs[0], end);
      var e := FieldEnd(ts[0], d, s, end).value;
      FieldsEndStep(ts, d, s, s + Fixed(ts, vs), end, e);
      HeapPart(ts[0], vs[0]);
      HeapsOf(ts[1..], vs[1..]);
      FieldsEndPacked(ts[1..], d, s + FixedSize(ts[0]), h + |Heap(ts[0], vs[0])|, vs[1..], e);
    }
  }

  lemma NoFieldsEnd(ts: seq<Type>, d: seq<byte>, slot: nat, end: nat)
    requires forall t :: t in ts ==> WellFormed(t)
    ensures FieldsEnd(ts, d, slot, slot, end) == Some(end)
  {
  }

  lemma {:induction false} PartsEndPacked(ts: seq<Type>, d: seq<byte>, s: nat, h: nat, vs: seq<Value>, end: nat)
    requires (forall t :: t in ts ==> WellFormed(t)) && PartsAt(d, ts, vs, s, h) && AllNotOver(ts, vs) && end <= h
    ensures Ends(FieldsEnd(ts, d, s, s + FixedTotal(ts), end), h + |Heaps(ts, vs)|, if NoHeapParts(ts, vs) then end == h else LastExact(ts, vs))
    decreases vs, ts, 0
  {
    hide FieldEnd, FieldsEnd, At, Slot, Heap, AllSlots, Heaps, FixedSize, FixedTotal, HasType, WellFormed, Exact, NotOver, HasHeap, NoHeapParts;
    HeapsOf(ts, vs);
    if ts == [] {
      NoHeaps(ts, vs);
      NoSlots(ts);
      NoFieldsEnd(ts, d, s, end);
    } else {
      PartsUnfold(ts, vs, h - s);
      PartsAtStep(d, ts, vs, s, h);
      FieldEndPacked(ts[0], d, s, h, vs[0], end);
      var e := FieldEnd(ts[0], d, s, end).value;
      FieldsEndStep(ts, d, s, s + FixedTotal(ts), end, e);
      HeapPart(ts[0], vs[0]);
      HeapsOf(ts[1..], vs[1..]);
      PartsEndPacked(ts[1..], d, s + FixedSize(ts[0]), h + |Heap(ts[0], vs[0])|, vs[1..], e);
    }
  }

  lemma NoSlots(ts: seq<Type>)
    requires ts == []
    ensures FixedTotal(ts) == 0
  {
  }

  /** Whatever surrounds a packed value, its measured size is not larger than its packing unless a
      list of optionals in it is measured too large, and then the same exactly if its last heap part is
      measured right. */
  lemma MeasuresPacked(t: Type, d: seq<byte>, pos: nat, v: Value)
    requires WellFormed(t) && HasType(v, t) && !v.Null? && HasType(v, Payload(t)) && NotOver(t, v)
    requires |Pack(Payload(t), v)| < U32_LIMIT && At(d, pos, Pack(Payload(t), v))
    ensures PackedSizeAt(t, d, pos).Some?
    ensures PackedSizeAt(t, d, pos).value <= |Pack(Payload(t), v)|
    ensures PackedSizeAt(t, d, pos).value == |Pack(Payload(t), v)| <==> Exact(t, v)
  {
    hide EndOf, Pack, At, Exact, NotOver, HasType, WellFormed;
    PayloadMeasure(t, v);
    EndOfPacked(Payload(t), d, pos, v);
    EndOfPayload(t, d, pos);
  }
}
