/** Fracpack types and values, and the bytes a value packs to (js/src/fracpack.ts). */
module FracTypes {
  import opened ByteStrings

  type Size = n: nat | n >= 1 witness 1

  /** A text is the byte string of its encoding. */
  datatype Type =
    | Scalar(size: Size, isBool: bool)
    | Blob(isText: bool)
    | Vec(elem: Type)
    | Optional(inner: Type)
    | Struct(fields: seq<Type>)
    | Variant(cases: seq<Type>)
    | Tuple(elems: seq<Type>)
    | Array(item: Type, len: Size)
    | FixedStruct(parts: seq<Type>)

  datatype Value =
    | Null
    | Number(n: nat)
    | Data(bytes: seq<byte>)
    | Items(items: seq<Value>)
    | Case(index: nat, value: Value)

  /** Types the builders make: an optional is not nested in an optional, the fixed part of a struct
      or a tuple fits its 16-bit header, a variant's index fits a byte, and a fixed struct has a part. */
  predicate WellFormed(t: Type) {
    match t
    case Scalar(size, isBool) => isBool ==> size == 1
    case Blob(_) => true
    case Vec(elem) => WellFormed(elem)
    case Optional(inner) => !inner.Optional? && WellFormed(inner)
    case Struct(fields) => (forall f :: f in fields ==> WellFormed(f)) && FixedTotal(fields) < U16_LIMIT
    case Variant(cases) => (forall c :: c in cases ==> WellFormed(c)) && |cases| <= 256
    case Tuple(elems) => (forall e :: e in elems ==> WellFormed(e)) && FixedTotal(elems) < U16_LIMIT
    case Array(item, _) => WellFormed(item)
    case FixedStruct(parts) => parts != [] && forall p :: p in parts ==> WellFormed(p)
  }

  /** n times the same type. */
  function Rep(t: Type, n: nat): (ts: seq<Type>)
    ensures |ts| == n && forall i :: 0 <= i < n ==> ts[i] == t
  {
    seq(n, _ => t)
  }

  predicate HasType(v: Value, t: Type)
    decreases v, t
  {
    match t
    case Scalar(size, isBool) => v.Number? && v.n < Pow256(size) && (isBool ==> v.n <= 1)
    case Blob(_) => v.Data?
    case Vec(elem) => v.Items? && forall x :: x in v.items ==> HasType(x, elem)
    case Optional(inner) => v.Null? || HasType(v, inner)
    case Struct(fields) => v.Items? && HaveTypes(v.items, fields)
    case Variant(cases) => v.Case? && v.index < |cases| && HasType(v.value, cases[v.index])
    case Tuple(elems) => v.Items? && HaveTypes(v.items, elems)
    case Array(item, len) => v.Items? && HaveTypes(v.items, Rep(item, len))
    case FixedStruct(parts) => v.Items? && parts != [] && HaveTypes(v.items, parts)
  }

  predicate HaveTypes(vs: seq<Value>, ts: seq<Type>)
    decreases vs
  {
    |vs| == |ts| && forall i :: 0 <= i < |vs| ==> HasType(vs[i], ts[i])
  }

  /** The size of the slot of a value among its neighbours. */
  function FixedSize(t: Type): (n: Size)
    ensures IsVar(t) ==> n == 4
  {
    match t
    case Scalar(size, _) => size
    case Array(item, len) =>
      if IsVar(item) then 4
      else
        ProductSize(FixedSize(item), len);
        FixedSize(item) * len
    case FixedStruct(parts) => if IsVar(t) then 4 else if parts == [] then 1 else FixedTotal(parts)
    case _ => 4
  }

  lemma ProductSize(m: Size, n: Size)
    ensures m * n >= 1
  {
  }

  function FixedTotal(ts: seq<Type>): (n: nat)
    ensures ts != [] ==> n >= 1
  {
    if ts == [] then 0 else FixedSize(ts[0]) + FixedTotal(ts[1..])
  }

  /** Values of this type live on the heap and are reached through an offset. Scalars do not, nor
      arrays and fixed structs of parts that do not: their bytes stand in the slot itself. */
  predicate IsVar(t: Type) {
    match t
    case Scalar(_, _) => false
    case Array(item, _) => IsVar(item)
    case FixedStruct(parts) => !Flat(parts)
    case _ => true
  }

  predicate Flat(ts: seq<Type>) {
    forall t :: t in ts ==> !IsVar(t)
  }

  /** The type of what an offset leads to. */
  function Payload(t: Type): Type {
    if t.Optional? then t.inner else t
  }

  /** The containers that have an empty form without heap bytes. */
  predicate IsEmptyContainer(t: Type, v: Value) {
    (t.Blob? && v.Data? && v.bytes == []) || (t.Vec? && v.Items? && v.items == [])
  }

  predicate HasHeap(t: Type, v: Value) {
    IsVar(t) && !v.Null? && !IsEmptyContainer(Payload(t), v)
  }

  /** All fields from here on are optional and null: they are left out of the packed struct. */
  predicate Absent(ts: seq<Type>, vs: seq<Value>)
    requires |ts| == |vs|
  {
    ts == [] || (ts[0].Optional? && vs[0].Null? && Absent(ts[1..], vs[1..]))
  }

  // ---------------------------------------------------------------- packing

  /** The bytes of a value on its own. */
  function Pack(t: Type, v: Value): (s: seq<byte>)
    requires HasType(v, t)
    ensures !IsVar(t) ==> |s| == FixedSize(t)
    decreases v, t, 0
  {
    match t
    case Scalar(size, _) => Le(v.n, size)
    case Blob(_) => U32(|v.bytes|) + v.bytes
    case Vec(elem) => PackVec(elem, v.items)
    case Optional(inner) =>
      if v.Null? then U32(1)
      else if IsEmptyContainer(inner, v) then U32(0)
      else U32(4) + Pack(inner, v)
    case Struct(fields) => PackStruct(fields, v.items)
    case Variant(cases) =>
      var body := Pack(cases[v.index], v.value);
      [v.index % 256] + U32(|body|) + body
    case Tuple(elems) => PackStruct(elems, v.items)
    case Array(item, len) =>
      RepTotal(item, len);
      PackParts(Rep(item, len), v.items)
    case FixedStruct(parts) => PackParts(parts, v.items)
  }

  lemma {:induction false} RepTotal(t: Type, n: nat)
    ensures FixedTotal(Rep(t, n)) == FixedSize(t) * n
    ensures Flat(Rep(t, n)) <==> n == 0 || !IsVar(t)
  {
    hide FixedSize, IsVar;
    if n > 0 {
      RepTotal(t, n - 1);
      assert Rep(t, n)[1..] == Rep(t, n - 1);
      assert Rep(t, n)[0] in Rep(t, n);
      assert FixedSize(t) * n == FixedSize(t) + FixedSize(t) * (n - 1);
    }
  }

  /** What a field adds to the heap. */
  function Heap(t: Type, v: Value): seq<byte>
    requires HasType(v, t)
    decreases v, t, 1
  {
    if HasHeap(t, v) then Pack(Payload(t), v) else []
  }

  /** The slot of a field whose heap part, if any, starts `dist` bytes further on. */
  function Slot(t: Type, v: Value, dist: int): (s: seq<byte>)
    requires HasType(v, t)
    ensures |s| == FixedSize(t)
    decreases v, t, 1
  {
    if !IsVar(t) then Pack(t, v)
    else if v.Null? then U32(1)
    else if IsEmptyContainer(Payload(t), v) then U32(0)
    else U32(dist)
  }

  function Slots(ts: seq<Type>, vs: seq<Value>, dist: int): seq<byte>
    requires HaveTypes(vs, ts)
    decreases vs, ts, 0
  {
    if Absent(ts, vs) then []
    else Slot(ts[0], vs[0], dist) + Slots(ts[1..], vs[1..], dist - FixedSize(ts[0]) + |Heap(ts[0], vs[0])|)
  }

  function Heaps(ts: seq<Type>, vs: seq<Value>): (s: seq<byte>)
    requires HaveTypes(vs, ts)
    ensures Flat(ts) ==> s == []
    decreases vs, ts, 0
  {
    if ts == [] then [] else Heap(ts[0], vs[0]) + Heaps(ts[1..], vs[1..])
  }

  /** The size of the slots that are present. */
  function Fixed(ts: seq<Type>, vs: seq<Value>): (n: nat)
    requires |ts| == |vs|
    ensures n <= FixedTotal(ts)
  {
    if Absent(ts, vs) then 0 else FixedSize(ts[0]) + Fixed(ts[1..], vs[1..])
  }

  function PackStruct(ts: seq<Type>, vs: seq<Value>): seq<byte>
    requires HaveTypes(vs, ts)
    decreases vs, ts, 1
  {
    U16(Fixed(ts, vs)) + Slots(ts, vs, Fixed(ts, vs)) + Heaps(ts, vs)
  }

  /** The slots of all parts, without a header and also of nulls at the end. */
  function AllSlots(ts: seq<Type>, vs: seq<Value>, dist: int): (s: seq<byte>)
    requires HaveTypes(vs, ts)
    ensures |s| == FixedTotal(ts)
    decreases vs, ts, 0
  {
    if ts == [] then []
    else Slot(ts[0], vs[0], dist) + AllSlots(ts[1..], vs[1..], dist - FixedSize(ts[0]) + |Heap(ts[0], vs[0])|)
  }

  /** An array or a fixed struct: all slots, then the heap parts. */
  function PackParts(ts: seq<Type>, vs: seq<Value>): (s: seq<byte>)
    requires HaveTypes(vs, ts)
    ensures Flat(ts) ==> |s| == FixedTotal(ts)
    decreases vs, ts, 1
  {
    AllSlots(ts, vs, FixedTotal(ts)) + Heaps(ts, vs)
  }

  /** Elements of variable size always go through an offset, even empty ones. */
  function ElementSlots(elem: Type, vs: seq<Value>, dist: int): (s: seq<byte>)
    requires forall v :: v in vs ==> HasType(v, elem)
    ensures |s| == 4 * |vs|
    decreases vs, elem, 0
  {
    if vs == [] then [] else U32(dist) + ElementSlots(elem, vs[1..], dist - 4 + |Pack(elem, vs[0])|)
  }

  function Elements(elem: Type, vs: seq<Value>): seq<byte>
    requires forall v :: v in vs ==> HasType(v, elem)
    decreases vs, elem, 0
  {
    if vs == [] then [] else Pack(elem, vs[0]) + Elements(elem, vs[1..])
  }

  function PackVec(elem: Type, vs: seq<Value>): seq<byte>
    requires forall v :: v in vs ==> HasType(v, elem)
    decreases vs, elem, 1
  {
    U32(|vs| * FixedSize(elem)) + (if IsVar(elem) then ElementSlots(elem, vs, 4 * |vs|) else []) + Elements(elem, vs)
  }
}
