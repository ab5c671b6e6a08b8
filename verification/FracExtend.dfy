/** Schemas that differ by optional fields at the end (js/README.md, lines 138-152). */
module FracExtend {
  import opened ByteStrings
  import opened Wrappers
  import opened FracTypes
  import opened FracView
  import opened FracUnpack

  predicate AllOptional(ts: seq<Type>) {
    forall t :: t in ts ==> t.Optional? && WellFormed(t)
  }

  function Nulls(n: nat): (vs: seq<Value>)
    ensures |vs| == n && forall i :: 0 <= i < n ==> vs[i] == Null
  {
    seq(n, _ => Null)
  }

  lemma {:induction false} NullsAbsent(ts: seq<Type>, vs: seq<Value>)
    requires AllOptional(ts) && |ts| == |vs| && forall i :: 0 <= i < |vs| ==> vs[i] == Null
    ensures HaveTypes(vs, ts) && Absent(ts, vs) && Heaps(ts, vs) == []
    decreases |ts|
  {
    forall i | 0 <= i < |ts| ensures HasType(vs[i], ts[i]) {
      assert ts[i] in ts;
    }
    if ts != [] { NullsAbsent(ts[1..], vs[1..]); }
  }

  lemma UnfoldAll(ts: seq<Type>, vs: seq<Value>, dist: int)
    requires HaveTypes(vs, ts) && ts != []
    ensures HaveTypes(vs[1..], ts[1..])
    ensures Absent(ts, vs) == (ts[0].Optional? && vs[0].Null? && Absent(ts[1..], vs[1..]))
    ensures Fixed(ts, vs) == if Absent(ts, vs) then 0 else FixedSize(ts[0]) + Fixed(ts[1..], vs[1..])
    ensures Slots(ts, vs, dist) ==
            if Absent(ts, vs) then []
            else Slot(ts[0], vs[0], dist) + Slots(ts[1..], vs[1..], dist - FixedSize(ts[0]) + |Heap(ts[0], vs[0])|)
    ensures Heaps(ts, vs) == Heap(ts[0], vs[0]) + Heaps(ts[1..], vs[1..])
  {
    hide Slot, Heap, HasType;
  }

  lemma AbsentAll(ts: seq<Type>, vs: seq<Value>, dist: int)
    requires HaveTypes(vs, ts) && Absent(ts, vs)
    ensures Fixed(ts, vs) == 0 && Slots(ts, vs, dist) == [] && Heaps(ts, vs) == []
  {
    hide Slot, Heap, HasType;
    AbsentHeaps(ts, vs);
  }

  lemma NoneAbsent(ts: seq<Type>, vs: seq<Value>)
    requires |ts| == |vs| == 0
    ensures Absent(ts, vs)
  {
  }

  lemma JoinTypes(fs: seq<Type>, extra: seq<Type>, vs: seq<Value>, es: seq<Value>)
    requires HaveTypes(vs, fs) && HaveTypes(es, extra)
    ensures HaveTypes(vs + es, fs + extra)
  {
    hide HasType;
  }

  /** Null optional fields at the end add nothing to a packed struct. */
  lemma {:induction false} NullsPackToNothing(fs: seq<Type>, extra: seq<Type>, vs: seq<Value>, nulls: seq<Value>, dist: int)
    requires HaveTypes(vs, fs) && HaveTypes(nulls, extra) && Absent(extra, nulls)
    ensures HaveTypes(vs + nulls, fs + extra)
    ensures Absent(fs + extra, vs + nulls) == Absent(fs, vs)
    ensures Fixed(fs + extra, vs + nulls) == Fixed(fs, vs)
    ensures Slots(fs + extra, vs + nulls, dist) == Slots(fs, vs, dist)
    ensures Heaps(fs + extra, vs + nulls) == Heaps(fs, vs)
    decreases |fs|
  {
    hide Slot, Heap, Slots, Heaps, Fixed, Absent, HasType, FixedSize;
    JoinTypes(fs, extra, vs, nulls);
    if fs == [] {
      assert fs + extra == extra && vs + nulls == nulls;
      NoneAbsent(fs, vs);
      AbsentAll(extra, nulls, dist);
      AbsentAll(fs, vs, dist);
    } else {
      JoinTails(fs, extra, vs, nulls);
      UnfoldAll(fs, vs, dist);
      UnfoldAll(fs + extra, vs + nulls, dist);
      NullsPackToNothing(fs[1..], extra, vs[1..], nulls, dist - FixedSize(fs[0]) + |Heap(fs[0], vs[0])|);
    }
  }

  lemma JoinTails(fs: seq<Type>, extra: seq<Type>, vs: seq<Value>, es: seq<Value>)
    requires |fs| == |vs| > 0
    ensures (fs + extra)[0] == fs[0] && (vs + es)[0] == vs[0]
    ensures (fs + extra)[1..] == fs[1..] + extra && (vs + es)[1..] == vs[1..] + es
  {
  }

  predicate Extendable(fs: seq<Type>, extra: seq<Type>) {
    WellFormed(Struct(fs)) && WellFormed(Struct(fs + extra)) && AllOptional(extra)
  }

  /** A schema extended by optional fields reads old data: the old fields, then nulls. */
  lemma NewReadsOld(fs: seq<Type>, extra: seq<Type>, v: Value, d: seq<byte>, r: nat)
    requires Extendable(fs, extra) && HasType(v, Struct(fs))
    requires At(d, r, Pack(Struct(fs), v)) && |Pack(Struct(fs), v)| < U32_LIMIT
    ensures Unpack(Struct(fs + extra), d, r) == Parsed(Items(v.items + Nulls(|extra|)), r + |Pack(Struct(fs), v)|)
    ensures AllPlain(fs + extra) ==>
              Views(View(Struct(fs + extra), d, r), Items(v.items + Nulls(|extra|)), Viewable(Struct(fs), v))
  {
    hide Unpack, View, WellFormed, Heaps, Slots, Fixed, Absent, ViewableFields, FixedTotal;
    var nulls := Nulls(|extra|);
    NullsAbsent(extra, nulls);
    NullsPackToNothing(fs, extra, v.items, nulls, Fixed(fs, v.items));
    var v' := Items(v.items + nulls);
    UnpackReads(Struct(fs + extra), d, r, v');
    if AllPlain(fs + extra) { ViewReads(Struct(fs + extra), d, r, v'); }
    NullsViewable(fs, extra, v.items, nulls);
  }

  lemma {:induction false} NullsViewable(fs: seq<Type>, extra: seq<Type>, vs: seq<Value>, nulls: seq<Value>)
    requires HaveTypes(vs, fs) && HaveTypes(nulls, extra) && Absent(extra, nulls)
    requires HaveTypes(vs + nulls, fs + extra)
    ensures ViewableFields(fs + extra, vs + nulls) == ViewableFields(fs, vs)
    decreases |fs| + |extra|
  {
    hide Viewable;
    if fs == [] {
      assert fs + extra == extra && vs + nulls == nulls;
      if extra != [] {
        NullsViewable(fs, extra[1..], vs, nulls[1..]);
        assert fs + extra[1..] == extra[1..] && vs + nulls[1..] == nulls[1..];
      }
    } else {
      assert (fs + extra)[1..] == fs[1..] + extra && (vs + nulls)[1..] == vs[1..] + nulls;
      NullsViewable(fs[1..], extra, vs[1..], nulls);
    }
  }

  // ---------------------------------------------------------------- an old schema on new data

  predicate AnyHeap(ts: seq<Type>, vs: seq<Value>)
    requires |ts| == |vs|
  {
    exists i :: 0 <= i < |ts| && HasHeap(ts[i], vs[i])
  }

  /** Where the reader ends when it skips fields it does not know: at the start of the last heap
      part among them, not behind it. */
  function SkipsTo(ts: seq<Type>, vs: seq<Value>, r: nat, h: nat): nat
    requires HaveTypes(vs, ts)
    decreases |ts|
  {
    if Absent(ts, vs) then r
    else SkipsTo(ts[1..], vs[1..], if HasHeap(ts[0], vs[0]) then h else r, h + |Heap(ts[0], vs[0])|)
  }

  lemma OptionalSlot(t: Type, v: Value, d: seq<byte>, s: nat, h: nat)
    requires t.Optional? && HasType(v, t) && At(d, s, Slot(t, v, h - s)) && s + 4 <= h < s + U32_LIMIT
    ensures s + 4 <= |d|
    ensures if HasHeap(t, v) then Read32(d, s) == h - s else Read32(d, s) <= 1
  {
    hide U32, Read32, At, HasType;
    AtInside(d, s, Slot(t, v, h - s));
    if v.Null? {
      Read32At(d, s, 1);
    } else if IsEmptyContainer(t.inner, v) {
      Read32At(d, s, 0);
    } else {
      Read32At(d, s, h - s);
    }
  }

  lemma {:induction false} SkipsUnknown(ts: seq<Type>, vs: seq<Value>, d: seq<byte>, s: nat, r: nat, h: nat)
    requires AllOptional(ts) && FieldsAt(d, ts, vs, s, h) && r <= h
    ensures SkipUnknown(d, r, s, s + Fixed(ts, vs)) == Parsed([], SkipsTo(ts, vs, r, h))
    decreases |ts|
  {
    hide At, Slots, Heaps, Slot, Heap, Absent, HasHeap, Read32;
    if Absent(ts, vs) {
      NoneFixed(ts, vs);
    } else {
      FieldsUnfold(ts, vs, h - s);
      FieldsAtStep(d, ts, vs, s, h);
      AtInside(d, h, Heap(ts[0], vs[0]));
      OptionalSlot(ts[0], vs[0], d, s, h);
      SkipsUnknown(ts[1..], vs[1..], d, s + 4, if HasHeap(ts[0], vs[0]) then h else r, h + |Heap(ts[0], vs[0])|);
    }
  }

  /** The old fields of new data, read with the old schema. */
  lemma {:induction false} OldFieldsRead(fs: seq<Type>, extra: seq<Type>, vs: seq<Value>, es: seq<Value>, d: seq<byte>, s: nat, h: nat)
    requires (forall f :: f in fs ==> WellFormed(f)) && AllOptional(extra)
    requires HaveTypes(vs, fs) && HaveTypes(es, extra) && FieldsAt(d, fs + extra, vs + es, s, h)
    ensures UnpackFields(fs, d, h, s, s + Fixed(fs + extra, vs + es))
         == Parsed(vs, SkipsTo(extra, es, h + |Heaps(fs, vs)|, h + |Heaps(fs, vs)|))
    decreases |fs|
  {
    hide *;
    TypedLengths(fs, vs);
    TypedLengths(extra, es);
    if fs == [] {
      assert fs + extra == extra && vs + es == es;
      NoFieldsLeft(fs, vs, d, h, s, s + Fixed(extra, es));
      SkipsUnknown(extra, es, d, s, h, h);
    } else if Absent(fs + extra, vs + es) {
      NoneFixed(fs + extra, vs + es);
      AbsentParts(fs, extra, vs, es);
      AbsentReads(fs, d, h, s, s, vs);
      SkipsNothing(extra, es, h);
    } else {
      OldFieldStep(fs, extra, vs, es, d, s, h);
      OldFieldsRead(fs[1..], extra, vs[1..], es, d, s + FixedSize(fs[0]), h + |Heap(fs[0], vs[0])|);
    }
  }

  lemma TypedLengths(ts: seq<Type>, vs: seq<Value>)
    requires HaveTypes(vs, ts)
    ensures |ts| == |vs|
  {
    hide HasType;
  }

  /** The first old field is read, and the reader stands where the others can be read. */
  lemma OldFieldStep(fs: seq<Type>, extra: seq<Type>, vs: seq<Value>, es: seq<Value>, d: seq<byte>, s: nat, h: nat)
    requires (forall f :: f in fs ==> WellFormed(f)) && HaveTypes(vs, fs) && HaveTypes(es, extra) && fs != []
    requires FieldsAt(d, fs + extra, vs + es, s, h) && !Absent(fs + extra, vs + es)
    ensures |vs| == |fs| && vs == [vs[0]] + vs[1..] && HaveTypes(vs[1..], fs[1..])
    ensures HasType(vs[0], fs[0]) && Heaps(fs, vs) == Heap(fs[0], vs[0]) + Heaps(fs[1..], vs[1..])
    ensures FieldsAt(d, fs[1..] + extra, vs[1..] + es, s + FixedSize(fs[0]), h + |Heap(fs[0], vs[0])|)
    ensures Fixed(fs + extra, vs + es) == FixedSize(fs[0]) + Fixed(fs[1..] + extra, vs[1..] + es)
    ensures UnpackSlot(fs[0], d, h, s) == Parsed(vs[0], h + |Heap(fs[0], vs[0])|)
    ensures var rest := UnpackFields(fs[1..], d, h + |Heap(fs[0], vs[0])|, s + FixedSize(fs[0]), s + Fixed(fs + extra, vs + es));
            UnpackFields(fs, d, h, s, s + Fixed(fs + extra, vs + es))
            == if rest.Parsed? then Parsed([vs[0]] + rest.value, rest.pos) else Refused
  {
    hide At, Slots, Slot, Heap, Absent, UnpackSlot, UnpackFields, WellFormed, HasType, FixedSize, Heaps, Fixed;
    assert (fs + extra)[0] == fs[0] && (vs + es)[0] == vs[0];
    assert (fs + extra)[1..] == fs[1..] + extra && (vs + es)[1..] == vs[1..] + es;
    FieldsUnfold(fs + extra, vs + es, h - s);
    HeapsUnfold(fs, vs);
    FieldsAtStep(d, fs + extra, vs + es, s, h);
    SlotReads(fs[0], d, s, h, vs[0]);
    UnpackPresent(fs, d, h, s, s + Fixed(fs + extra, vs + es));
  }

  lemma NoFieldsLeft(fs: seq<Type>, vs: seq<Value>, d: seq<byte>, r: nat, c: nat, heap: nat)
    requires fs == [] && HaveTypes(vs, fs)
    ensures UnpackFields(fs, d, r, c, heap) == SkipUnknown(d, r, c, heap) && Heaps(fs, vs) == [] && vs == []
  {
    hide SkipUnknown;
  }

  lemma HeapsUnfold(ts: seq<Type>, vs: seq<Value>)
    requires HaveTypes(vs, ts) && ts != []
    ensures HaveTypes(vs[1..], ts[1..]) && Heaps(ts, vs) == Heap(ts[0], vs[0]) + Heaps(ts[1..], vs[1..])
  {
    hide Heap, HasType;
  }

  lemma {:induction false} OldFieldsView(fs: seq<Type>, extra: seq<Type>, vs: seq<Value>, es: seq<Value>, d: seq<byte>, s: nat, h: nat)
    requires (forall f :: f in fs ==> WellFormed(f)) && AllPlain(fs)
    requires HaveTypes(vs, fs) && HaveTypes(es, extra) && FieldsAt(d, fs + extra, vs + es, s, h)
    ensures Views(ViewFields(fs, d, s, s + Fixed(fs + extra, vs + es)), vs, ViewableFields(fs, vs))
    decreases |fs|
  {
    hide At, Slots, Slot, Heap, Absent, ViewField, ViewableField, WellFormed, HasType, Read32, Read16, FixedSize, Heaps, Plain;
    if fs != [] {
      assert vs == [vs[0]] + vs[1..];
      assert (fs + extra)[1..] == fs[1..] + extra && (vs + es)[1..] == vs[1..] + es;
      if Absent(fs + extra, vs + es) {
        NoneFixed(fs + extra, vs + es);
        AbsentParts(fs, extra, vs, es);
        ViewAbsent(fs, d, s, s, vs);
      } else {
        FieldsUnfold(fs + extra, vs + es, h - s);
        FieldsAtStep(d, fs + extra, vs + es, s, h);
        ViewFieldRead(fs[0], d, s, h, s + Fixed(fs + extra, vs + es), vs[0]);
        OldFieldsView(fs[1..], extra, vs[1..], es, d, s + FixedSize(fs[0]), h + |Heap(fs[0], vs[0])|);
      }
    }
  }

  lemma SkipsNothing(ts: seq<Type>, vs: seq<Value>, h: nat)
    requires HaveTypes(vs, ts) && Absent(ts, vs)
    ensures SkipsTo(ts, vs, h, h) == h
  {
  }

  lemma {:induction false} AbsentParts(fs: seq<Type>, extra: seq<Type>, vs: seq<Value>, es: seq<Value>)
    requires |fs| == |vs| && |extra| == |es| && Absent(fs + extra, vs + es)
    ensures Absent(fs, vs) && Absent(extra, es)
    decreases |fs|
  {
    if fs == [] {
      assert fs + extra == extra && vs + es == es;
    } else {
      assert (fs + extra)[1..] == fs[1..] + extra && (vs + es)[1..] == vs[1..] + es;
      AbsentParts(fs[1..], extra, vs[1..], es);
    }
  }

  lemma HeapIsPayload(t: Type, v: Value)
    requires HasType(v, t) && HasHeap(t, v)
    ensures HasType(v, Payload(t)) && Heap(t, v) == Pack(Payload(t), v)
  {
    hide Pack;
  }

  /** The reader gets to the end exactly when there is nothing on the heap to skip. */
  lemma {:induction false} SkipsToEnd(ts: seq<Type>, vs: seq<Value>, r: nat, h: nat)
    requires HaveTypes(vs, ts) && r <= h
    ensures if AnyHeap(ts, vs) then SkipsTo(ts, vs, r, h) < h + |Heaps(ts, vs)|
            else SkipsTo(ts, vs, r, h) == r && Heaps(ts, vs) == []
    decreases |ts|
  {
    hide HasHeap, Pack;
    if Absent(ts, vs) {
      AbsentHasNone(ts, vs);
      AbsentHeaps(ts, vs);
    } else {
      var now := HasHeap(ts[0], vs[0]);
      SkipsToEnd(ts[1..], vs[1..], if now then h else r, h + |Heap(ts[0], vs[0])|);
      if now {
        HeapIsPayload(ts[0], vs[0]);
        PackNotEmpty(Payload(ts[0]), vs[0]);
        assert AnyHeap(ts, vs);
      } else {
        AnyHeapTail(ts, vs);
      }
    }
  }

  lemma AnyHeapTail(ts: seq<Type>, vs: seq<Value>)
    requires |ts| == |vs| && ts != [] && !HasHeap(ts[0], vs[0])
    ensures AnyHeap(ts, vs) == AnyHeap(ts[1..], vs[1..])
  {
    hide HasHeap;
    var rest, others := ts[1..], vs[1..];
    if AnyHeap(ts, vs) {
      var i :| 0 <= i < |ts| && HasHeap(ts[i], vs[i]);
      assert HasHeap(rest[i - 1], others[i - 1]);
    }
    if AnyHeap(rest, others) {
      var i :| 0 <= i < |rest| && HasHeap(rest[i], others[i]);
      assert HasHeap(ts[i + 1], vs[i + 1]);
    }
  }

  lemma {:induction false} AbsentHasNone(ts: seq<Type>, vs: seq<Value>)
    requires |ts| == |vs| && Absent(ts, vs)
    ensures !AnyHeap(ts, vs)
    decreases |ts|
  {
    if ts != [] {
      AbsentHasNone(ts[1..], vs[1..]);
      AnyHeapTail(ts, vs);
    }
  }

  lemma {:induction false} HeapsJoin(fs: seq<Type>, extra: seq<Type>, vs: seq<Value>, es: seq<Value>)
    requires HaveTypes(vs, fs) && HaveTypes(es, extra)
    ensures HaveTypes(vs + es, fs + extra) && Heaps(fs + extra, vs + es) == Heaps(fs, vs) + Heaps(extra, es)
    decreases |fs|
  {
    hide Heap;
    if fs == [] {
      assert fs + extra == extra && vs + es == es;
    } else {
      assert (fs + extra)[1..] == fs[1..] + extra && (vs + es)[1..] == vs[1..] + es;
      HeapsJoin(fs[1..], extra, vs[1..], es);
    }
  }

  lemma ExtendableFacts(fs: seq<Type>, extra: seq<Type>)
    requires Extendable(fs, extra)
    ensures WellFormed(Struct(fs)) && AllOptional(extra) && FixedTotal(fs + extra) < U16_LIMIT
  {
  }

  lemma StructWhole(ts: seq<Type>, vs: seq<Value>, d: seq<byte>)
    requires HaveTypes(vs, ts) && d == PackStruct(ts, vs) && FixedTotal(ts) < U16_LIMIT && |d| < U32_LIMIT
    ensures Read16(d, 0) == Fixed(ts, vs) && FieldsAt(d, ts, vs, 2, 2 + Fixed(ts, vs))
    ensures |d| == 2 + Fixed(ts, vs) + |Heaps(ts, vs)|
  {
    hide PackStruct, FieldsAt, HasType, Fixed, Heaps, Read16;
    StructAt(d, ts, vs, 0);
  }

  lemma StructUnfold(ts: seq<Type>, d: seq<byte>, f: nat)
    requires WellFormed(Struct(ts)) && Read16(d, 0) == f && 2 + f <= |d|
    ensures forall t :: t in ts ==> WellFormed(t)
    ensures UnpackFields(ts, d, 2 + f, 2, 2 + f).Parsed? ==>
              var p := UnpackFields(ts, d, 2 + f, 2, 2 + f); Unpack(Struct(ts), d, 0) == Parsed(Items(p.value), p.pos)
    ensures View(Struct(ts), d, 0) == AsItems(ViewFields(ts, d, 2, 2 + f))
  {
    hide Read16, UnpackFields, ViewFields;
  }

  /** What an old schema makes of new data before the test for bytes left over. */
  lemma OldStructRead(fs: seq<Type>, extra: seq<Type>, vs: seq<Value>, es: seq<Value>, d: seq<byte>)
    requires Extendable(fs, extra) && HaveTypes(vs, fs) && HaveTypes(es, extra) && HaveTypes(vs + es, fs + extra)
    requires d == PackStruct(fs + extra, vs + es) && |d| < U32_LIMIT
    ensures |d| >= |Heaps(extra, es)|
    ensures Unpack(Struct(fs), d, 0) == Parsed(Items(vs), SkipsTo(extra, es, |d| - |Heaps(extra, es)|, |d| - |Heaps(extra, es)|))
    ensures AllPlain(fs) ==> Views(View(Struct(fs), d, 0), Items(vs), ViewableFields(fs, vs))
  {
    ExtendableFacts(fs, extra);
    hide *;
    StructWhole(fs + extra, vs + es, d);
    HeapsJoin(fs, extra, vs, es);
    OldFields(fs, extra, vs, es, fs + extra, vs + es, d, Fixed(fs + extra, vs + es));
  }

  lemma OldFields(fs: seq<Type>, extra: seq<Type>, vs: seq<Value>, es: seq<Value>, all: seq<Type>, values: seq<Value>, d: seq<byte>, f: nat)
    requires WellFormed(Struct(fs)) && AllOptional(extra) && all == fs + extra && values == vs + es
    requires HaveTypes(vs, fs) && HaveTypes(es, extra) && HaveTypes(values, all)
    requires f == Fixed(all, values) && Read16(d, 0) == f && FieldsAt(d, all, values, 2, 2 + f)
    requires |d| == 2 + f + |Heaps(fs, vs)| + |Heaps(extra, es)|
    ensures Unpack(Struct(fs), d, 0) == Parsed(Items(vs), SkipsTo(extra, es, |d| - |Heaps(extra, es)|, |d| - |Heaps(extra, es)|))
    ensures AllPlain(fs) ==> Views(View(Struct(fs), d, 0), Items(vs), ViewableFields(fs, vs))
  {
    hide *;
    StructUnfold(fs, d, f);
    OldFieldsRead(fs, extra, vs, es, d, 2, 2 + f);
    if AllPlain(fs) {
      OldFieldsView(fs, extra, vs, es, d, 2, 2 + f);
      ViewsAsItems(ViewFields(fs, d, 2, 2 + f), vs, ViewableFields(fs, vs));
    }
  }

  lemma ViewsAsItems(r: Result<seq<Value>>, vs: seq<Value>, ok: bool)
    requires Views(r, vs, ok)
    ensures Views(AsItems(r), Items(vs), ok)
  {
  }

  /** New data read with the old schema: inside other data every field is read, and the view reads
      every field too. Unpacking a whole buffer succeeds exactly when none of the unknown fields has
      a heap part, because the reader stops at the start of the last one. */
  lemma OldReadsNew(fs: seq<Type>, extra: seq<Type>, vs: seq<Value>, es: seq<Value>)
    requires Extendable(fs, extra) && HaveTypes(vs, fs) && HaveTypes(es, extra)
    requires HaveTypes(vs + es, fs + extra) && |PackStruct(fs + extra, vs + es)| < U32_LIMIT
    ensures Views(UnpackAll(Struct(fs), PackStruct(fs + extra, vs + es)), Items(vs), !AnyHeap(extra, es))
    ensures AllPlain(fs) ==> Views(View(Struct(fs), PackStruct(fs + extra, vs + es), 0), Items(vs), ViewableFields(fs, vs))
  {
    hide Unpack, View, ViewableFields, AnyHeap, Heaps, HasType, SkipsTo, PackStruct, FixedTotal, AllOptional, HaveTypes, Extendable;
    var d := PackStruct(fs + extra, vs + es);
    OldStructRead(fs, extra, vs, es, d);
    SkipsToEnd(extra, es, |d| - |Heaps(extra, es)|, |d| - |Heaps(extra, es)|);
  }
}
