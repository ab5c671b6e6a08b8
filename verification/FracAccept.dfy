/** What the eager reader accepts among all byte strings (js/src/fracpack.ts). */
module FracAccept {
  import opened ByteStrings
  import opened FracTypes
  import opened FracUnpack
  import opened FracView
  import opened Wrappers

  // ---------------------------------------------------------------- what is read has the type

  lemma EmptyTyped(t: Type)
    ensures EmptyOf(t).Ok? ==> HasType(EmptyOf(t).value, t)
  {
  }

  /** Whatever the bytes are, a value that is read has the type it was read as. */
  lemma {:induction false} UnpackTyped(t: Type, d: seq<byte>, r: nat)
    requires WellFormed(t)
    ensures Unpack(t, d, r).Parsed? ==> HasType(Unpack(t, d, r).value, t)
    decreases t, 0
  {
    hide UnpackFields, UnpackElements, UnpackArray, UnpackParts, UnpackOptional, FixedSize, FixedTotal, Read32, Read16;
    match t
    case Scalar(_, _) => ScalarTyped(t, d, r);
    case Blob(_) =>
    case Vec(elem) =>
      if Unpack(t, d, r).Parsed? { ElementsTyped(elem, d, r + 4 + Read32(d, r), r + 4, Read32(d, r) / FixedSize(elem)); }
    case Optional(inner) => if r + 4 <= |d| { OptionalTyped(inner, d, r + 4, r); }
    case Struct(fields) =>
      if r + 2 <= |d| { FieldsTyped(fields, d, r + 2 + Read16(d, r), r + 2, r + 2 + Read16(d, r)); }
    case Variant(cases) => if r + 5 <= |d| && d[r] < |cases| { UnpackTyped(cases[d[r]], d, r + 5); }
    case Tuple(elems) =>
      if r + 2 <= |d| { FieldsTyped(elems, d, r + 2 + Read16(d, r), r + 2, r + 2 + Read16(d, r)); }
    case Array(item, len) => ArrayTyped(item, d, r + FixedSize(item) * len, r, len);
    case FixedStruct(parts) => PartsTyped(parts, d, r + FixedTotal(parts), r);
  }

  lemma ScalarTyped(t: Type, d: seq<byte>, r: nat)
    requires t.Scalar?
    ensures UnpackScalar(t, d, r).Parsed? ==> HasType(UnpackScalar(t, d, r).value, t)
  {
    if r + t.size <= |d| { LeUnle(d[r..r + t.size]); }
  }

  lemma {:induction false} FollowTyped(t: Type, d: seq<byte>, r: nat, c: nat)
    requires WellFormed(t)
    ensures Follow(t, d, r, c).Parsed? ==> HasType(Follow(t, d, r, c).value, t)
    ensures Jump(t, d, r, c).Parsed? ==> HasType(Jump(t, d, r, c).value, t)
    decreases t, 2
  {
    hide Unpack, Read32, HasType;
    EmptyTyped(t);
    if c + 4 <= |d| { UnpackTyped(t, d, c + Read32(d, c)); }
  }

  lemma {:induction false} OptionalTyped(inner: Type, d: seq<byte>, r: nat, c: nat)
    requires WellFormed(inner)
    ensures UnpackOptional(inner, d, r, c).Parsed? ==> HasType(UnpackOptional(inner, d, r, c).value, Optional(inner))
    decreases inner, 3
  {
    hide Follow, Read32;
    FollowTyped(inner, d, r, c);
  }

  lemma {:induction false} SlotTyped(t: Type, d: seq<byte>, r: nat, c: nat)
    requires WellFormed(t)
    ensures UnpackSlot(t, d, r, c).Parsed? ==> HasType(UnpackSlot(t, d, r, c).value, t)
    decreases t, 4
  {
    hide Unpack, UnpackOptional, Follow, IsVar, HasType;
    if !IsVar(t) {
      UnpackTyped(t, d, c);
    } else if t.Optional? {
      OptionalTyped(t.inner, d, r, c);
    } else {
      FollowTyped(t, d, r, c);
    }
  }

  lemma {:induction false} ElementsTyped(elem: Type, d: seq<byte>, r: nat, c: nat, n: nat)
    requires WellFormed(elem)
    ensures var p := UnpackElements(elem, d, r, c, n); p.Parsed? ==> forall x :: x in p.value ==> HasType(x, elem)
    decreases elem, n + 5
  {
    hide UnpackSlot, Jump, IsVar, HasType, FixedSize;
    if n > 0 {
      SlotTyped(elem, d, r, c);
      FollowTyped(elem, d, r, c);
      var x := if IsVar(elem) then Jump(elem, d, r, c) else UnpackSlot(elem, d, r, c);
      if x.Parsed? { ElementsTyped(elem, d, x.pos, c + FixedSize(elem), n - 1); }
    }
  }

  lemma {:induction false} ArrayTyped(item: Type, d: seq<byte>, r: nat, c: nat, n: nat)
    requires WellFormed(item)
    ensures var p := UnpackArray(item, d, r, c, n);
            p.Parsed? ==> |p.value| == n && forall i :: 0 <= i < n ==> HasType(p.value[i], item)
    decreases item, n + 5
  {
    hide UnpackSlot, HasType, FixedSize;
    if n > 0 {
      SlotTyped(item, d, r, c);
      var x := UnpackSlot(item, d, r, c);
      if x.Parsed? { ArrayTyped(item, d, x.pos, c + FixedSize(item), n - 1); }
    }
  }

  lemma {:induction false} PartsTyped(ts: seq<Type>, d: seq<byte>, r: nat, c: nat)
    requires forall t :: t in ts ==> WellFormed(t)
    ensures var p := UnpackParts(ts, d, r, c); p.Parsed? ==> HaveTypes(p.value, ts)
    decreases ts
  {
    hide UnpackSlot, HasType, FixedSize;
    if ts != [] {
      SlotTyped(ts[0], d, r, c);
      var x := UnpackSlot(ts[0], d, r, c);
      if x.Parsed? { PartsTyped(ts[1..], d, x.pos, c + FixedSize(ts[0])); }
    }
  }

  lemma {:induction false} FieldsTyped(ts: seq<Type>, d: seq<byte>, r: nat, c: nat, heap: nat)
    requires forall t :: t in ts ==> WellFormed(t)
    ensures var p := UnpackFields(ts, d, r, c, heap); p.Parsed? ==> HaveTypes(p.value, ts)
    decreases ts
  {
    hide UnpackSlot, FixedSize;
    if ts != [] {
      SlotTyped(ts[0], d, r, c);
      var present := Required(ts) || c < heap;
      var x := if present then UnpackSlot(ts[0], d, r, c) else Parsed(Null, r);
      if x.Parsed? { FieldsTyped(ts[1..], d, x.pos, if present then c + FixedSize(ts[0]) else c, heap); }
    }
  }

  // ---------------------------------------------------------------- no accepted buffer starts another one

  lemma ReadsAlike(d: seq<byte>, tail: seq<byte>, c: nat)
    ensures c + 4 <= |d| ==> Read32(d + tail, c) == Read32(d, c)
    ensures c + 2 <= |d| ==> Read16(d + tail, c) == Read16(d, c)
    ensures c < |d| ==> (d + tail)[c] == d[c]
  {
  }

  /** p is accepted with more bytes behind the data too, and ends at the same place. */
  predicate EndsAlike<T>(p: Parsed<T>, q: Parsed<T>) {
    p.Parsed? ==> q.Parsed? && q.pos == p.pos
  }

  /** What is accepted stays accepted with more bytes behind it, and ends at the same place. */
  lemma {:induction false} UnpackGrows(t: Type, d: seq<byte>, tail: seq<byte>, r: nat)
    requires WellFormed(t)
    ensures EndsAlike(Unpack(t, d, r), Unpack(t, d + tail, r))
    decreases t, 1
  {
    match t
    case Scalar(_, _) => ScalarGrows(t, d, tail, r);
    case Blob(_) => BlobGrows(t, d, tail, r);
    case Vec(elem) => VecGrows(t, d, tail, r);
    case Optional(inner) =>
      hide UnpackOptional;
      if r + 4 <= |d| { OptionalGrows(inner, d, tail, r + 4, r); }
    case Struct(fields) => StructGrows(t, fields, d, tail, r);
    case Variant(cases) => VariantGrows(t, d, tail, r);
    case Tuple(elems) => StructGrows(t, elems, d, tail, r);
    case Array(item, len) =>
      hide UnpackArray, FixedSize;
      ArrayGrows(item, d, tail, r + FixedSize(item) * len, r, len);
    case FixedStruct(parts) =>
      hide UnpackParts, FixedTotal;
      PartsGrow(parts, d, tail, r + FixedTotal(parts), r);
  }

  lemma BlobGrows(t: Type, d: seq<byte>, tail: seq<byte>, r: nat)
    requires t.Blob?
    ensures EndsAlike(Unpack(t, d, r), Unpack(t, d + tail, r))
  {
    hide Read32;
    ReadsAlike(d, tail, r);
  }

  lemma {:induction false} VecGrows(t: Type, d: seq<byte>, tail: seq<byte>, r: nat)
    requires t.Vec? && WellFormed(t)
    ensures EndsAlike(Unpack(t, d, r), Unpack(t, d + tail, r))
    decreases t, 0
  {
    hide UnpackElements, FixedSize, Read32;
    ReadsAlike(d, tail, r);
    if r + 4 <= |d| { ElementsGrow(t.elem, d, tail, r + 4 + Read32(d, r), r + 4, Read32(d, r) / FixedSize(t.elem)); }
  }

  lemma {:induction false} StructGrows(t: Type, ts: seq<Type>, d: seq<byte>, tail: seq<byte>, r: nat)
    requires WellFormed(t) && (t == Struct(ts) || t == Tuple(ts))
    ensures EndsAlike(Unpack(t, d, r), Unpack(t, d + tail, r))
    decreases t, 0
  {
    hide UnpackFields, Read16;
    ReadsAlike(d, tail, r);
    if r + 2 <= |d| { FieldsGrow(ts, d, tail, r + 2 + Read16(d, r), r + 2, r + 2 + Read16(d, r)); }
  }

  lemma {:induction false} VariantGrows(t: Type, d: seq<byte>, tail: seq<byte>, r: nat)
    requires t.Variant? && WellFormed(t)
    ensures EndsAlike(Unpack(t, d, r), Unpack(t, d + tail, r))
    decreases t, 0
  {
    hide Read32;
    if r + 5 <= |d| && d[r] < |t.cases| {
      ReadsAlike(d, tail, r);
      ReadsAlike(d, tail, r + 1);
      UnpackGrows(t.cases[d[r]], d, tail, r + 5);
    }
  }

  lemma ScalarGrows(t: Type, d: seq<byte>, tail: seq<byte>, r: nat)
    requires t.Scalar?
    ensures EndsAlike(UnpackScalar(t, d, r), UnpackScalar(t, d + tail, r))
  {
    if r + t.size <= |d| { assert (d + tail)[r..r + t.size] == d[r..r + t.size]; }
  }

  lemma {:induction false} FollowGrows(t: Type, d: seq<byte>, tail: seq<byte>, r: nat, c: nat)
    requires WellFormed(t)
    ensures EndsAlike(Follow(t, d, r, c), Follow(t, d + tail, r, c)) && EndsAlike(Jump(t, d, r, c), Jump(t, d + tail, r, c))
    decreases t, 2
  {
    hide Unpack, Read32;
    ReadsAlike(d, tail, c);
    if c + 4 <= |d| { UnpackGrows(t, d, tail, c + Read32(d, c)); }
  }

  lemma {:induction false} OptionalGrows(inner: Type, d: seq<byte>, tail: seq<byte>, r: nat, c: nat)
    requires WellFormed(inner)
    ensures EndsAlike(UnpackOptional(inner, d, r, c), UnpackOptional(inner, d + tail, r, c))
    decreases inner, 3
  {
    hide Follow, Read32;
    ReadsAlike(d, tail, c);
    FollowGrows(inner, d, tail, r, c);
  }

  lemma {:induction false} SlotGrows(t: Type, d: seq<byte>, tail: seq<byte>, r: nat, c: nat)
    requires WellFormed(t)
    ensures EndsAlike(UnpackSlot(t, d, r, c), UnpackSlot(t, d + tail, r, c))
    decreases t, 4
  {
    hide Unpack, UnpackOptional, Follow, IsVar;
    if !IsVar(t) {
      UnpackGrows(t, d, tail, c);
    } else if t.Optional? {
      OptionalGrows(t.inner, d, tail, r, c);
    } else {
      FollowGrows(t, d, tail, r, c);
    }
  }

  /** The first of some elements. */
  function FirstElement(elem: Type, d: seq<byte>, r: nat, c: nat): Parsed<Value>
    requires WellFormed(elem)
  {
    if IsVar(elem) then Jump(elem, d, r, c) else UnpackSlot(elem, d, r, c)
  }

  lemma ElementsUnfold(elem: Type, d: seq<byte>, r: nat, c: nat, n: nat)
    requires WellFormed(elem) && n > 0
    ensures UnpackElements(elem, d, r, c, n) ==
            match FirstElement(elem, d, r, c)
            case Refused => Refused
            case Parsed(v, pos) =>
              match UnpackElements(elem, d, pos, c + FixedSize(elem), n - 1)
              case Refused => Refused
              case Parsed(vs, end) => Parsed([v] + vs, end)
  {
    hide Jump, UnpackSlot, IsVar, FixedSize;
  }

  lemma {:induction false} ElementsGrow(elem: Type, d: seq<byte>, tail: seq<byte>, r: nat, c: nat, n: nat)
    requires WellFormed(elem)
    ensures EndsAlike(UnpackElements(elem, d, r, c, n), UnpackElements(elem, d + tail, r, c, n))
    decreases elem, n + 5
  {
    if n > 0 {
      SlotGrows(elem, d, tail, r, c);
      FollowGrows(elem, d, tail, r, c);
      ElementsUnfold(elem, d, r, c, n);
      ElementsUnfold(elem, d + tail, r, c, n);
      var x := FirstElement(elem, d, r, c);
      assert EndsAlike(x, FirstElement(elem, d + tail, r, c));
      hide UnpackElements, FirstElement, FixedSize;
      if x.Parsed? { ElementsGrow(elem, d, tail, x.pos, c + FixedSize(elem), n - 1); }
    }
  }

  lemma {:induction false} ArrayGrows(item: Type, d: seq<byte>, tail: seq<byte>, r: nat, c: nat, n: nat)
    requires WellFormed(item)
    ensures EndsAlike(UnpackArray(item, d, r, c, n), UnpackArray(item, d + tail, r, c, n))
    decreases item, n + 5
  {
    hide UnpackSlot, FixedSize;
    if n > 0 {
      SlotGrows(item, d, tail, r, c);
      var x := UnpackSlot(item, d, r, c);
      if x.Parsed? { ArrayGrows(item, d, tail, x.pos, c + FixedSize(item), n - 1); }
    }
  }

  lemma {:induction false} PartsGrow(ts: seq<Type>, d: seq<byte>, tail: seq<byte>, r: nat, c: nat)
    requires forall t :: t in ts ==> WellFormed(t)
    ensures EndsAlike(UnpackParts(ts, d, r, c), UnpackParts(ts, d + tail, r, c))
    decreases ts
  {
    hide UnpackSlot, FixedSize;
    if ts != [] {
      SlotGrows(ts[0], d, tail, r, c);
      var x := UnpackSlot(ts[0], d, r, c);
      if x.Parsed? { PartsGrow(ts[1..], d, tail, x.pos, c + FixedSize(ts[0])); }
    }
  }

  lemma {:induction false} FieldsGrow(ts: seq<Type>, d: seq<byte>, tail: seq<byte>, r: nat, c: nat, heap: nat)
    requires forall t :: t in ts ==> WellFormed(t)
    ensures EndsAlike(UnpackFields(ts, d, r, c, heap), UnpackFields(ts, d + tail, r, c, heap))
    decreases ts
  {
    hide UnpackSlot, FixedSize, SkipUnknown;
    if ts == [] {
      SkipGrows(d, tail, r, c, heap);
    } else {
      SlotGrows(ts[0], d, tail, r, c);
      var present := Required(ts) || c < heap;
      var x := if present then UnpackSlot(ts[0], d, r, c) else Parsed(Null, r);
      if x.Parsed? { FieldsGrow(ts[1..], d, tail, x.pos, if present then c + FixedSize(ts[0]) else c, heap); }
    }
  }

  lemma {:induction false} SkipGrows(d: seq<byte>, tail: seq<byte>, r: nat, c: nat, heap: nat)
    ensures EndsAlike(SkipUnknown(d, r, c, heap), SkipUnknown(d + tail, r, c, heap))
    decreases heap - c
  {
    hide Read32;
    ReadsAlike(d, tail, c);
    if c < heap && c + 4 <= |d| {
      SkipGrows(d, tail, if Read32(d, c) <= 1 then r else c + Read32(d, c), c + 4, heap);
    }
  }

  /** A buffer that is accepted as a whole is the start of no other one. */
  lemma PrefixFree(t: Type, d: seq<byte>, tail: seq<byte>)
    requires WellFormed(t) && UnpackAll(t, d).Ok? && tail != []
    ensures UnpackAll(t, d + tail) == Failure
  {
    hide Unpack;
    UnpackGrows(t, d, tail, 0);
  }

  // ---------------------------------------------------------------- what is refused

  /** Where the offset at c leads. */
  function LeadsTo(d: seq<byte>, c: nat): nat {
    c + Read32(d, c)
  }

  /** The n offsets from c on are inside the data and lead into it, none of them back behind r or behind
      the one before it. */
  predicate LeadForward(d: seq<byte>, r: nat, c: nat, n: nat)
    decreases n
  {
    n == 0 || (c + 4 <= |d| && r <= LeadsTo(d, c) <= |d| && LeadForward(d, LeadsTo(d, c), c + 4, n - 1))
  }

  lemma LeadEarlier(d: seq<byte>, r: nat, s: nat, c: nat, n: nat)
    requires r <= s && LeadForward(d, s, c, n)
    ensures LeadForward(d, r, c, n)
  {
  }

  /** Elements of variable size are read only through offsets that lead forward; there is no offset for an
      empty element. */
  lemma {:induction false} ElementsLeadForward(elem: Type, d: seq<byte>, r: nat, c: nat, n: nat)
    requires WellFormed(elem) && IsVar(elem) && UnpackElements(elem, d, r, c, n).Parsed?
    ensures LeadForward(d, r, c, n)
    decreases n
  {
    hide Unpack, Read32;
    if n > 0 {
      var x := Jump(elem, d, r, c);
      ElementsLeadForward(elem, d, x.pos, c + 4, n - 1);
      LeadEarlier(d, LeadsTo(d, c), x.pos, c + 4, n - 1);
    }
  }

  /** A list is accepted only if its size is a number of elements and lies inside the data, and if its
      offsets lead forward from behind it. */
  lemma AcceptedList(elem: Type, d: seq<byte>, r: nat)
    requires WellFormed(elem) && Unpack(Vec(elem), d, r).Parsed?
    ensures r + 4 <= |d| && Read32(d, r) % FixedSize(elem) == 0 && r + 4 + Read32(d, r) <= |d|
    ensures Unpack(Vec(elem), d, r).value.Items?
    ensures |Unpack(Vec(elem), d, r).value.items| * FixedSize(elem) == Read32(d, r)
    ensures IsVar(elem) ==> LeadForward(d, r + 4 + Read32(d, r), r + 4, |Unpack(Vec(elem), d, r).value.items|)
  {
    hide Read32, UnpackElements, FixedSize, LeadForward;
    var size := Read32(d, r);
    ElementCount(elem, d, r + 4 + size, r + 4, size / FixedSize(elem));
    if IsVar(elem) { ElementsLeadForward(elem, d, r + 4 + size, r + 4, size / FixedSize(elem)); }
  }

  lemma {:induction false} ElementCount(elem: Type, d: seq<byte>, r: nat, c: nat, n: nat)
    requires WellFormed(elem)
    ensures var p := UnpackElements(elem, d, r, c, n); p.Parsed? ==> |p.value| == n
    decreases n
  {
    hide UnpackSlot, Jump, FixedSize, IsVar;
    if n > 0 {
      var x := if IsVar(elem) then Jump(elem, d, r, c) else UnpackSlot(elem, d, r, c);
      if x.Parsed? { ElementCount(elem, d, x.pos, c + FixedSize(elem), n - 1); }
    }
  }

  /** Slots that no field is known for hold 0 or 1 or lead forward too. */
  lemma {:induction false} AcceptedUnknown(d: seq<byte>, r: nat, c: nat, heap: nat, at: nat)
    requires SkipUnknown(d, r, c, heap).Parsed? && c <= at < heap && (at - c) % 4 == 0
    ensures at + 4 <= |d| && (Read32(d, at) <= 1 || r <= LeadsTo(d, at) <= |d|)
    decreases heap - c
  {
    hide Read32;
    if c < at { AcceptedUnknown(d, if Read32(d, c) <= 1 then r else LeadsTo(d, c), c + 4, heap, at); }
  }

  /** Structs and tuples lie inside the data with their slots, and a variant's case is one of its type. */
  lemma AcceptedHeaders(t: Type, d: seq<byte>, r: nat)
    requires WellFormed(t) && Unpack(t, d, r).Parsed?
    ensures t.Struct? || t.Tuple? ==> r + 2 <= |d| && r + 2 + Read16(d, r) <= |d|
    ensures t.Variant? ==> r + 5 <= |d| && d[r] < |t.cases| && Unpack(t, d, r).pos == r + 5 + Read32(d, r + 1)
    ensures t.Array? ==> r + FixedSize(t.item) * t.len <= |d|
    ensures t.FixedStruct? ==> r + FixedTotal(t.parts) <= |d|
    ensures t == Blob(false) ==> r + 4 + Read32(d, r) <= |d|
  {
    hide UnpackElements, UnpackFields, UnpackArray, UnpackParts, UnpackOptional, FixedSize, FixedTotal, Read32, Read16;
  }

  /** What the view needs to see at the place of a value before it reads on. */
  lemma ViewedHeaders(t: Type, d: seq<byte>, pos: nat)
    requires WellFormed(t) && View(t, d, pos).Ok?
    ensures t.Scalar? ==> pos + t.size <= |d| && View(t, d, pos).value == Number(Unle(d[pos..pos + t.size]))
    ensures t.Scalar? && t.isBool ==> View(t, d, pos).value == Number(0) || View(t, d, pos).value == Number(1)
    ensures t == Blob(false) || t.Vec? || t.Optional? ==> pos + 4 <= |d|
    ensures t.Vec? ==> View(t, d, pos).value.Items? && |View(t, d, pos).value.items| * FixedSize(t.elem) == Read32(d, pos)
    ensures t.Struct? || t.Tuple? ==> pos + 2 <= |d|
    ensures t.Variant? ==> pos < |d| && d[pos] < |t.cases|
  {
    hide ViewElements, ViewFields, ViewTuple, ViewArray, ViewParts, FixedSize, Read32, Read16, Unle;
    if t.Vec? && pos + 4 <= |d| { ViewCount(t.elem, d, pos + 4, Read32(d, pos) / FixedSize(t.elem)); }
  }

  lemma {:induction false} ViewCount(elem: Type, d: seq<byte>, slot: nat, n: nat)
    requires WellFormed(elem)
    ensures ViewElements(elem, d, slot, n).Ok? ==> |ViewElements(elem, d, slot, n).value| == n
    decreases n
  {
    hide View, FixedSize, IsVar;
    if n > 0 { ViewCount(elem, d, slot + FixedSize(elem), n - 1); }
  }
}
