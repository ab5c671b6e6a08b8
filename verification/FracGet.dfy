/** Reading a field through a mutable view (js/src/mutation.ts, lines 129-139 and 457-490). */
module FracGet {
  import opened ByteStrings
  import opened Wrappers
  import opened FracTypes
  import opened FracView
  import opened FracFields
  import opened FracMutate
  import opened FracSet
  import opened FracRun
  import opened FracUnpack

  /** An optional is looked through only if what it holds is of variable size. */
  function Effective(t: Type): Type {
    if t.Optional? && IsVar(t.inner) then t.inner else t
  }

  /** Bytes of an offset that are behind the end of the data are taken for 0. */
  function GetField(d: seq<byte>, ts: seq<Type>, i: nat): Result<Value>
    requires i < |ts| && WellFormed(ts[i])
  {
    var slot := SlotPos(ts, i);
    if Elided(d, ts, i) then Ok(Null)
    else if !IsVar(ts[i]) then View(ts[i], d, slot)
    else if Read32(d, slot) == 0 then EmptyOf(ts[i])
    else if Read32(d, slot) == 1 && ts[i].Optional? then Ok(Null)
    else View(Effective(ts[i]), d, slot + Read32(d, slot))
  }

  /** An optional of what has no heap part of its own: a scalar, or an array or a fixed struct of such. */
  predicate InlineOptional(t: Type) {
    t.Optional? && !IsVar(t.inner)
  }

  /** Every field but such an optional is read as the struct's view reads it, after any run of
      assignments. */
  lemma GetReads(d: seq<byte>, ts: seq<Type>, vs: seq<Value>, k: nat, i: nat)
    requires Schema(ts) && Good(d, ts, vs, k) && i < |ts| && Plain(ts[i]) && !InlineOptional(ts[i])
    ensures WellFormed(ts[i]) && HasType(vs[i], ts[i])
    ensures Views(GetField(d, ts, i), vs[i], Shown(d, ts, vs, i))
  {
    SchemaField(ts, i);
    hide Schema, Good, View, Read32, Read16, WellFormed, HasType, Shown, Plain, FixedSize, IsVar;
    GoodDeclares(d, ts, vs, k);
    GoodReads(d, ts, vs, k, i);
    GetIsView(d, ts, k, i);
  }

  lemma GetIsView(d: seq<byte>, ts: seq<Type>, k: nat, i: nat)
    requires i < |ts| && WellFormed(ts[i]) && k <= |ts| && Read16(d, 0) == Offset(ts, k) && !InlineOptional(ts[i])
    requires SlotPos(ts, k) <= |d|
    ensures GetField(d, ts, i) == ViewField(ts[i], d, SlotPos(ts, i), 2 + Read16(d, 0))
  {
    hide View, Read32, Read16, WellFormed, FixedSize, IsVar;
    if i >= k {
      if k < i { OffsetGrows(ts, k, i); }
    } else {
      OffsetGrows(ts, i, k);
    }
  }

  // ---------------------------------------------------------------- optionals without a heap part

  /** The value whose bytes are all zero. */
  function Zero(t: Type): (v: Value)
    requires !IsVar(t)
    decreases t, 1
  {
    match t
    case Scalar(_, _) => Number(0)
    case Array(item, len) => Items(seq(len, i requires 0 <= i < len => Zero(item)))
    case FixedStruct(parts) => Items(ZeroAll(parts))
  }

  function ZeroAll(ts: seq<Type>): (vs: seq<Value>)
    requires Flat(ts)
    ensures |vs| == |ts|
    decreases ts, 0
  {
    if ts == [] then [] else [Zero(ts[0])] + ZeroAll(ts[1..])
  }

  function Zeros(n: nat): (s: seq<byte>)
    ensures |s| == n
  {
    seq(n, _ => 0)
  }

  lemma {:induction false} LeZero(size: nat)
    ensures Le(0, size) == Zeros(size) && 0 < Pow256(size)
  {
    if size > 0 { LeZero(size - 1); }
  }

  lemma {:induction false} ZeroPacks(t: Type)
    requires WellFormed(t) && !IsVar(t)
    ensures HasType(Zero(t), t) && Pack(t, Zero(t)) == Zeros(FixedSize(t))
    decreases t, 1
  {
    hide PackParts, FixedTotal;
    match t
    case Scalar(size, _) => LeZero(size);
    case Array(item, len) =>
      var vs := Zero(t).items;
      ZeroPacks(item);
      RepTotal(item, len);
      ZeroRepPack(item, len, vs);
    case FixedStruct(parts) => ZeroAllPack(parts);
  }

  lemma ZeroPartsPack(ts: seq<Type>, vs: seq<Value>)
    requires HaveTypes(vs, ts) && Flat(ts) && AllSlots(ts, vs, FixedTotal(ts)) == Zeros(FixedTotal(ts))
    ensures PackParts(ts, vs) == Zeros(FixedTotal(ts))
  {
    hide AllSlots, Heaps, HasType, FixedTotal;
  }

  lemma {:induction false} ZeroAllPack(ts: seq<Type>)
    requires (forall t :: t in ts ==> WellFormed(t)) && Flat(ts)
    ensures HaveTypes(ZeroAll(ts), ts) && PackParts(ts, ZeroAll(ts)) == Zeros(FixedTotal(ts))
    decreases ts, 1
  {
    hide PackParts;
    ZeroSlots(ts, FixedTotal(ts));
    ZeroPartsPack(ts, ZeroAll(ts));
  }

  lemma {:induction false} ZeroSlots(ts: seq<Type>, dist: int)
    requires (forall t :: t in ts ==> WellFormed(t)) && Flat(ts)
    ensures HaveTypes(ZeroAll(ts), ts) && AllSlots(ts, ZeroAll(ts), dist) == Zeros(FixedTotal(ts))
    decreases ts, 0
  {
    hide Pack, HasType, WellFormed, FixedSize;
    var vs := ZeroAll(ts);
    if ts != [] {
      ZeroPacks(ts[0]);
      ZeroSlots(ts[1..], dist - FixedSize(ts[0]) + |Heap(ts[0], vs[0])|);
      assert vs[0] == Zero(ts[0]) && vs[1..] == ZeroAll(ts[1..]);
      ZerosJoin(FixedSize(ts[0]), FixedTotal(ts[1..]));
    }
  }

  lemma ZerosJoin(m: nat, n: nat)
    ensures Zeros(m) + Zeros(n) == Zeros(m + n)
  {
  }

  lemma ZeroRepPack(item: Type, n: nat, vs: seq<Value>)
    requires !IsVar(item) && HasType(Zero(item), item) && Pack(item, Zero(item)) == Zeros(FixedSize(item))
    requires |vs| == n && forall i :: 0 <= i < n ==> vs[i] == Zero(item)
    ensures HaveTypes(vs, Rep(item, n)) && PackParts(Rep(item, n), vs) == Zeros(FixedTotal(Rep(item, n)))
  {
    hide Pack, HasType, FixedSize, IsVar, FixedTotal, Zero;
    assert Flat(Rep(item, n));
    ZeroRepSlots(item, n, vs, FixedTotal(Rep(item, n)));
    ZeroPartsPack(Rep(item, n), vs);
  }

  lemma {:induction false} ZeroRepSlots(item: Type, n: nat, vs: seq<Value>, dist: int)
    requires !IsVar(item) && HasType(Zero(item), item) && Pack(item, Zero(item)) == Zeros(FixedSize(item))
    requires |vs| == n && forall i :: 0 <= i < n ==> vs[i] == Zero(item)
    ensures HaveTypes(vs, Rep(item, n)) && AllSlots(Rep(item, n), vs, dist) == Zeros(FixedTotal(Rep(item, n)))
    decreases n
  {
    hide Pack, HasType, FixedSize, IsVar, Zero;
    if n > 0 {
      RepTail(item, n);
      ZeroRepSlots(item, n - 1, vs[1..], dist - FixedSize(item) + |Heap(item, vs[0])|);
      ZerosJoin(FixedSize(item), FixedTotal(Rep(item, n - 1)));
    }
  }

  /** Zeros taken for an offset lead nowhere, and fewer than four bytes are none. */
  lemma ZeroIsMisread(d: seq<byte>, t: Type, pos: nat)
    requires InlineOptional(t) && WellFormed(t) && |d| == pos + FixedSize(t.inner) && At(d, pos, Zeros(FixedSize(t.inner)))
    ensures View(t, d, pos) == Failure
  {
    hide FixedSize, WellFormed;
    if pos + 4 <= |d| {
      assert d[pos..pos + FixedSize(t.inner)][..4] == Zeros(FixedSize(t.inner))[..4] == [0, 0, 0, 0];
      assert d[pos] == d[pos + 1] == d[pos + 2] == d[pos + 3] == 0 by {
        AtIndex(d, pos, Zeros(FixedSize(t.inner)), 0);
        AtIndex(d, pos, Zeros(FixedSize(t.inner)), 1);
        AtIndex(d, pos, Zeros(FixedSize(t.inner)), 2);
        AtIndex(d, pos, Zeros(FixedSize(t.inner)), 3);
      }
      assert Read32(d, pos) == 0;
    }
  }

  lemma OneFieldStruct(t: Type)
    requires WellFormed(t) && FixedTotal([t]) < U16_LIMIT
    ensures WellFormed(Struct([t]))
  {
    hide FixedTotal;
  }

  lemma WholeIsAt(d: seq<byte>)
    ensures At(d, 0, d)
  {
  }

  lemma SlotOfInline(t: Type, v: Value)
    requires InlineOptional(t) && HasType(v, t) && !v.Null?
    ensures Slot(t, v, 4) == U32(4) && HasType(v, t.inner) && Heap(t, v) == Pack(t.inner, v)
  {
    hide U32, Pack;
  }

  /** For every type of such optionals there is a record whose field is misread: the value's own
      bytes are taken for an offset. */
  lemma GetMisreads(t: Type)
    requires InlineOptional(t) && WellFormed(t) && 6 + FixedSize(t.inner) < U32_LIMIT
    ensures var v := Zero(t.inner);
            HaveTypes([v], [t])
            && GetField(PackStruct([t], [v]), [t], 0) == Failure
            && UnpackAll(Struct([t]), PackStruct([t], [v])) == Ok(Items([v]))
  {
    var v := Zero(t.inner);
    ZeroPacks(t.inner);
    hide View, Read32, Read16, Pack, U32, Slot, At, FixedSize, IsVar, Zero, HasType, PackStruct;
    var d := ZeroRecord(t, v);
    OneFieldStruct(t);
    UnpackPack(Struct([t]), Items([v]));
    ZeroIsMisread(d, t, 6);
  }

  lemma ZeroRecord(t: Type, v: Value) returns (d: seq<byte>)
    requires InlineOptional(t) && WellFormed(t) && 6 + FixedSize(t.inner) < U32_LIMIT && HasType(v, t.inner) && !v.Null?
    requires Pack(t.inner, v) == Zeros(FixedSize(t.inner))
    ensures HasType(v, t) && HaveTypes([v], [t]) && d == PackStruct([t], [v]) && |d| == 6 + FixedSize(t.inner)
    ensures At(d, 6, Zeros(FixedSize(t.inner))) && Read16(d, 0) == 4 && Read32(d, 2) == 4
    ensures FixedTotal([t]) < U16_LIMIT
  {
    hide View, Read32, Read16, Pack, U32, Slot, At, FixedSize, IsVar;
    SlotOfInline(t, v);
    OneField(t, v);
    d := PackStruct([t], [v]);
    WholeIsAt(d);
    StructAt(d, [t], [v], 0);
    FieldsAtStep(d, [t], [v], 2, 6);
    Read32At(d, 2, 4);
  }

  /** On a packed record of one field: reading it through the mutable view gives what the view of
      the record gives. */
  predicate GetAgrees(t: Type, v: Value)
    requires WellFormed(t)
  {
    HaveTypes([v], [t]) && |PackStruct([t], [v])| < U32_LIMIT ==>
      GetField(PackStruct([t], [v]), [t], 0)
      == ViewField(t, PackStruct([t], [v]), 2, 2 + Read16(PackStruct([t], [v]), 0))
  }

  lemma ZeroDisagrees(t: Type)
    requires InlineOptional(t) && WellFormed(t) && 6 + FixedSize(t.inner) < U32_LIMIT
    ensures !GetAgrees(t, Zero(t.inner))
  {
    var v := Zero(t.inner);
    GetMisreads(t);
    ZeroPacks(t.inner);
    FlatViewable(t.inner, v);
    FlatPlain(t.inner);
    hide View, Read32, Read16, Pack, U32, Slot, At, FixedSize, IsVar, Zero, HasType, PackStruct, Viewable, Plain, WellFormed, GetField, ViewField;
    var d := ZeroRecord(t, v);
    SlotOfInline(t, v);
    OneField(t, v);
    StructAt(d, [t], [v], 0) by { WholeIsAt(d); }
    FieldsAtStep(d, [t], [v], 2, 6);
    FieldFacts(t, v);
    InlineField(t, v);
    ViewFieldRead(t, d, 2, 6, 6, v);
  }

  lemma InlineField(t: Type, v: Value)
    requires InlineOptional(t) && Plain(t.inner) && HasType(v, t) && HasType(v, t.inner) && Viewable(t.inner, v)
    ensures Plain(t) && FixedSize(t) == 4 && ViewableField(t, v)
  {
    hide Viewable, HasType;
  }

  /** The types of fields that the mutable view reads as the view does, whatever the value: all but
      optionals of what has no heap part of its own. */
  lemma GetAgreesIff(t: Type)
    requires WellFormed(t) && FixedSize(t) < U16_LIMIT
    requires InlineOptional(t) ==> 6 + FixedSize(t.inner) < U32_LIMIT
    ensures (forall v :: GetAgrees(t, v)) <==> !InlineOptional(t)
  {
    hide GetAgrees, WellFormed, FixedSize, InlineOptional;
    if InlineOptional(t) {
      ZeroDisagrees(t);
    } else {
      forall v ensures GetAgrees(t, v) { AgreesOnPacked(t, v); }
    }
  }

  lemma AgreesOnPacked(t: Type, v: Value)
    requires WellFormed(t) && FixedSize(t) < U16_LIMIT && !InlineOptional(t)
    ensures GetAgrees(t, v)
  {
    hide WellFormed, FixedSize, InlineOptional, GetField, ViewField, PackStruct, HasType, Read16;
    if HaveTypes([v], [t]) && |PackStruct([t], [v])| < U32_LIMIT {
      var d := PackStruct([t], [v]);
      TypedOne(t, v);
      OneField(t, v);
      WholeIsAt(d);
      StructAt(d, [t], [v], 0);
      FixedIsOffset([t], [v]);
      GetIsView(d, [t], Count([t], [v]), 0);
    }
  }

  lemma TypedOne(t: Type, v: Value)
    requires HaveTypes([v], [t])
    ensures HasType(v, t) && SlotPos([t], 0) == 2
  {
    hide HasType;
    assert HasType([v][0], [t][0]);
  }
}
