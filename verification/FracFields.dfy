/** The fields of a packed struct by index. */
module FracFields {
  import opened ByteStrings
  import opened FracTypes
  import opened FracView

  /** How far into the slots the i-th one starts. */
  function Offset(ts: seq<Type>, i: nat): nat
    requires i <= |ts|
  {
    if i == 0 then 0 else FixedSize(ts[0]) + Offset(ts[1..], i - 1)
  }

  lemma {:induction false} OffsetNext(ts: seq<Type>, i: nat)
    requires i < |ts|
    ensures Offset(ts, i + 1) == Offset(ts, i) + FixedSize(ts[i])
    decreases i
  {
    if i > 0 { OffsetNext(ts[1..], i - 1); }
  }

  lemma {:induction false} OffsetGrows(ts: seq<Type>, i: nat, j: nat)
    requires i < j <= |ts|
    ensures Offset(ts, i) + FixedSize(ts[i]) <= Offset(ts, j)
    decreases j
  {
    OffsetNext(ts, j - 1);
    if i < j - 1 { OffsetGrows(ts, i, j - 1); }
  }

  lemma {:induction false} OffsetTotal(ts: seq<Type>)
    ensures Offset(ts, |ts|) == FixedTotal(ts)
  {
    if ts != [] { OffsetTotal(ts[1..]); }
  }

  /** How many fields are packed: all up to the last that is not an absent optional. */
  function Count(ts: seq<Type>, vs: seq<Value>): (k: nat)
    requires |ts| == |vs|
    ensures k <= |ts|
  {
    if Absent(ts, vs) then 0 else 1 + Count(ts[1..], vs[1..])
  }

  lemma {:induction false} FixedIsOffset(ts: seq<Type>, vs: seq<Value>)
    requires |ts| == |vs|
    ensures Fixed(ts, vs) == Offset(ts, Count(ts, vs))
    decreases |ts|
  {
    if !Absent(ts, vs) { FixedIsOffset(ts[1..], vs[1..]); }
  }

  lemma {:induction false} CountIs(ts: seq<Type>, vs: seq<Value>, i: nat)
    requires |ts| == |vs| && i < |ts|
    ensures i >= Count(ts, vs) ==> ts[i].Optional? && vs[i].Null?
    ensures i + 1 == Count(ts, vs) ==> !(ts[i].Optional? && vs[i].Null?)
    decreases i
  {
    if Absent(ts, vs) {
      AbsentAt(ts, vs, i);
    } else if i > 0 {
      CountIs(ts[1..], vs[1..], i - 1);
    }
  }

  lemma {:induction false} AbsentAt(ts: seq<Type>, vs: seq<Value>, i: nat)
    requires |ts| == |vs| && i < |ts| && Absent(ts, vs)
    ensures ts[i].Optional? && vs[i].Null?
    decreases i
  {
    if i > 0 { AbsentAt(ts[1..], vs[1..], i - 1); }
  }

  /** The count is the only index with absent fields from it on and a present one before it. */
  lemma {:induction false} CountUnique(ts: seq<Type>, vs: seq<Value>, k: nat)
    requires |ts| == |vs| && k <= |ts|
    requires forall i :: k <= i < |ts| ==> ts[i].Optional? && vs[i].Null?
    requires k > 0 ==> !(ts[k - 1].Optional? && vs[k - 1].Null?)
    ensures Count(ts, vs) == k
  {
    var n := Count(ts, vs);
    if k < n {
      CountIs(ts, vs, n - 1);
    } else if n < k {
      CountIs(ts, vs, k - 1);
    }
  }

  /** How far into the heap the part of the i-th field starts. */
  function HeapOffset(ts: seq<Type>, vs: seq<Value>, i: nat): nat
    requires HaveTypes(vs, ts) && i <= |ts|
    decreases i
  {
    if i == 0 then 0 else |Heap(ts[0], vs[0])| + HeapOffset(ts[1..], vs[1..], i - 1)
  }

  lemma {:induction false} HeapOffsetNext(ts: seq<Type>, vs: seq<Value>, i: nat)
    requires HaveTypes(vs, ts) && i < |ts|
    ensures HeapOffset(ts, vs, i + 1) == HeapOffset(ts, vs, i) + |Heap(ts[i], vs[i])|
    decreases i
  {
    hide Heap;
    if i > 0 { HeapOffsetNext(ts[1..], vs[1..], i - 1); }
  }

  lemma {:induction false} HeapOffsetGrows(ts: seq<Type>, vs: seq<Value>, i: nat, j: nat)
    requires HaveTypes(vs, ts) && i < j <= |ts|
    ensures HeapOffset(ts, vs, i) + |Heap(ts[i], vs[i])| <= HeapOffset(ts, vs, j)
    decreases j
  {
    hide Heap, HeapOffset;
    HeapOffsetNext(ts, vs, j - 1);
    if i < j - 1 { HeapOffsetGrows(ts, vs, i, j - 1); }
  }

  lemma {:induction false} HeapOffsetTotal(ts: seq<Type>, vs: seq<Value>)
    requires HaveTypes(vs, ts)
    ensures HeapOffset(ts, vs, |ts|) == |Heaps(ts, vs)|
    decreases |ts|
  {
    hide Heap;
    if ts != [] { HeapOffsetTotal(ts[1..], vs[1..]); }
  }

  /** A record with one field. */
  lemma OneField(t: Type, v: Value)
    requires HasType(v, t)
    ensures HaveTypes([v], [t]) && HasType(Items([v]), Struct([t]))
    ensures Absent([t], [v]) == (t.Optional? && v.Null?)
    ensures Count([t], [v]) == if t.Optional? && v.Null? then 0 else 1
    ensures Fixed([t], [v]) == if t.Optional? && v.Null? then 0 else FixedSize(t)
    ensures Heaps([t], [v]) == Heap(t, v) && FixedTotal([t]) == FixedSize(t)
    ensures |PackStruct([t], [v])| == 2 + Fixed([t], [v]) + |Heap(t, v)|
  {
    hide Slot, Heap, FixedSize;
    var ts, vs := [t], [v];
    assert ts[1..] == [] && vs[1..] == [];
    SlotsSize(ts, vs, Fixed(ts, vs));
  }

  // ---------------------------------------------------------------- both views of a packed struct

  /** The i-th field where the canonical order puts it, for slots at s and a heap at h. */
  predicate FieldAt(d: seq<byte>, ts: seq<Type>, vs: seq<Value>, s: nat, h: nat, i: nat)
    requires HaveTypes(vs, ts) && i < |ts|
  {
    var slot, heap := s + Offset(ts, i), h + HeapOffset(ts, vs, i);
    At(d, slot, Slot(ts[i], vs[i], heap - slot)) && At(d, heap, Heap(ts[i], vs[i]))
  }

  lemma {:induction false} FieldByIndex(d: seq<byte>, ts: seq<Type>, vs: seq<Value>, s: nat, h: nat, i: nat)
    requires FieldsAt(d, ts, vs, s, h) && i < Count(ts, vs)
    ensures FieldAt(d, ts, vs, s, h, i)
    decreases i
  {
    hide Slot, Heap, At, Absent, Slots, Heaps;
    FieldsAtStep(d, ts, vs, s, h);
    if i > 0 {
      FieldByIndex(d, ts[1..], vs[1..], s + FixedSize(ts[0]), h + |Heap(ts[0], vs[0])|, i - 1);
    }
  }

  lemma {:induction false} FieldsFromIndex(d: seq<byte>, ts: seq<Type>, vs: seq<Value>, s: nat, h: nat)
    requires HaveTypes(vs, ts) && s <= |d| && h <= |d|
    requires forall i :: 0 <= i < Count(ts, vs) ==> FieldAt(d, ts, vs, s, h, i)
    ensures At(d, s, Slots(ts, vs, h - s)) && At(d, h, Heaps(ts, vs))
    decreases |ts|
  {
    hide Slot, Heap, FieldAt, At;
    if Absent(ts, vs) {
      AbsentHeaps(ts, vs);
      AtNothing(d, s, Slots(ts, vs, h - s));
      AtNothing(d, h, Heaps(ts, vs));
    } else {
      var s', h' := s + FixedSize(ts[0]), h + |Heap(ts[0], vs[0])|;
      FirstField(d, ts, vs, s, h);
      forall i | 0 <= i < Count(ts[1..], vs[1..]) ensures FieldAt(d, ts[1..], vs[1..], s', h', i) {
        FieldLater(d, ts, vs, s, h, i);
      }
      FieldsFromIndex(d, ts[1..], vs[1..], s', h');
      AtJoin(d, s, Slot(ts[0], vs[0], h - s), Slots(ts[1..], vs[1..], h' - s'));
      AtJoin(d, h, Heap(ts[0], vs[0]), Heaps(ts[1..], vs[1..]));
    }
  }

  lemma AtNothing(d: seq<byte>, pos: nat, part: seq<byte>)
    requires pos <= |d| && part == []
    ensures At(d, pos, part)
  {
  }

  lemma FirstField(d: seq<byte>, ts: seq<Type>, vs: seq<Value>, s: nat, h: nat)
    requires HaveTypes(vs, ts) && ts != [] && FieldAt(d, ts, vs, s, h, 0)
    ensures At(d, s, Slot(ts[0], vs[0], h - s)) && At(d, h, Heap(ts[0], vs[0]))
    ensures s + FixedSize(ts[0]) <= |d| && h + |Heap(ts[0], vs[0])| <= |d|
  {
    hide Heap;
  }

  lemma OffsetTail(ts: seq<Type>, vs: seq<Value>, i: nat)
    requires HaveTypes(vs, ts) && i < |ts|
    ensures Offset(ts, i + 1) == FixedSize(ts[0]) + Offset(ts[1..], i)
    ensures HeapOffset(ts, vs, i + 1) == |Heap(ts[0], vs[0])| + HeapOffset(ts[1..], vs[1..], i)
  {
    hide Heap, HasType;
  }

  lemma FieldLater(d: seq<byte>, ts: seq<Type>, vs: seq<Value>, s: nat, h: nat, i: nat)
    requires HaveTypes(vs, ts) && i + 1 < |ts| && FieldAt(d, ts, vs, s, h, i + 1)
    ensures FieldAt(d, ts[1..], vs[1..], s + FixedSize(ts[0]), h + |Heap(ts[0], vs[0])|, i)
  {
    hide Heap, Slot, At, HasType, Offset, HeapOffset;
    OffsetTail(ts, vs, i);
  }
}
