/** Declaring fields that were left out at the end of a packed struct (js/src/mutation.ts, lines 340-400). */
module FracExpand {
  import opened ByteStrings
  import opened FracTypes
  import opened FracFields
  import opened FracMutate
  import opened FracSet

  /** The slots inserted up to the first n fields: zeros, and the null marker for optionals. */
  function FilledSlots(ts: seq<Type>, n: nat, declared: nat, i: nat): (s: seq<byte>)
    requires n <= |ts| && i < |ts| && declared <= Offset(ts, i + 1)
    ensures |s| == Offset(ts, i + 1) - declared
    decreases n
  {
    if n == 0 then seq(Offset(ts, i + 1) - declared, _ => 0)
    else
      var s := FilledSlots(ts, n - 1, declared, i);
      if declared <= Offset(ts, n - 1) < Offset(ts, i + 1) && ts[n - 1].Optional? then
        FilledInside(ts, n - 1, i);
        Write(s, Offset(ts, n - 1) - declared, U32(1))
      else s
  }

  lemma FilledInside(ts: seq<Type>, j: nat, i: nat)
    requires j < |ts| && i < |ts| && Offset(ts, j) < Offset(ts, i + 1)
    ensures j <= i && Offset(ts, j) + FixedSize(ts[j]) <= Offset(ts, i + 1)
  {
    DeclaredIs(ts, i + 1, j);
    OffsetGrows(ts, j, i + 1);
  }

  /** Insert the slots up to field i, declare them, and correct the offsets of the others. */
  function Expand(d: seq<byte>, ts: seq<Type>, i: nat): seq<byte>
    requires SlotsInside(d, ts, Read16(d, 0)) && i < |ts|
  {
    var declared, needed := Read16(d, 0), Offset(ts, i + 1);
    if needed <= declared then d
    else
      var slots := FilledSlots(ts, |ts|, declared, i);
      var e := Write(Splice(d, 2 + declared, 0, slots), 0, U16(needed));
      PatchFields(e, ts, |ts|, -1, declared, 2 + declared, |slots|)
  }

  lemma {:induction false} FilledWith(ts: seq<Type>, n: nat, k: nat, i: nat, j: nat)
    requires n <= |ts| && k <= j <= i < |ts| && j < n && ts[j].Optional? && Offset(ts, k) <= Offset(ts, i + 1)
    ensures Offset(ts, k) <= Offset(ts, j) && At(FilledSlots(ts, n, Offset(ts, k), i), Offset(ts, j) - Offset(ts, k), U32(1))
    decreases n
  {
    hide At, U32, Write;
    if k < j { OffsetGrows(ts, k, j); }
    OffsetGrows(ts, j, i + 1);
    var s := FilledSlots(ts, n - 1, Offset(ts, k), i);
    if j == n - 1 {
      WriteAt(s, Offset(ts, j) - Offset(ts, k), U32(1));
    } else {
      FilledWith(ts, n - 1, k, i, j);
      if Offset(ts, k) <= Offset(ts, n - 1) < Offset(ts, i + 1) && ts[n - 1].Optional? {
        FilledInside(ts, n - 1, i);
        SlotsDisjoint(ts, j, n - 1);
        WriteKeeps(s, Offset(ts, n - 1) - Offset(ts, k), U32(1), Offset(ts, j) - Offset(ts, k), U32(1));
      }
    }
  }

  /** The expanded data before the offsets are corrected. */
  predicate Inserted(d: seq<byte>, e: seq<byte>, ts: seq<Type>, k: nat, slots: seq<byte>, needed: nat) {
    && k <= |ts| && SlotPos(ts, k) <= |d| && |e| == |d| + |slots|
    && Read16(e, 0) == needed
    && (forall j :: 0 <= j < k ==> SlotSame(d, e, ts, j))
    && At(e, SlotPos(ts, k), slots) && e[SlotPos(ts, k) + |slots|..] == d[SlotPos(ts, k)..]
  }

  lemma InsertedIs(d: seq<byte>, ts: seq<Type>, k: nat, slots: seq<byte>, needed: nat)
    requires k <= |ts| && SlotPos(ts, k) <= |d| && needed < U16_LIMIT
    ensures Inserted(d, Write(Splice(d, SlotPos(ts, k), 0, slots), 0, U16(needed)), ts, k, slots, needed)
  {
    hide Read16, U16, Write;
    var s := Splice(d, SlotPos(ts, k), 0, slots);
    var e := Write(s, 0, U16(needed));
    WriteAt(s, 0, U16(needed));
    Read16At(e, 0, needed);
    var heap := SlotPos(ts, k);
    WriteSlice(s, 0, U16(needed), heap, heap + |slots|);
    WriteSlice(s, 0, U16(needed), heap + |slots|, |e|);
    forall j | 0 <= j < k ensures SlotSame(d, e, ts, j) {
      OffsetGrows(ts, j, k);
      var slot, end := SlotPos(ts, j), SlotPos(ts, j) + FixedSize(ts[j]);
      WriteSlice(s, 0, U16(needed), slot, end);
      assert s[..heap] == d[..heap];
      SliceSlice(s, 0, heap, slot, end);
      SliceSlice(d, 0, heap, slot, end);
    }
  }

  /** What expanding does to data that holds a record: old slots corrected, new ones null, the heap
      part moved as a whole. */
  predicate Expanded(d: seq<byte>, e: seq<byte>, ts: seq<Type>, k: nat, i: nat) {
    && k <= i < |ts| && SlotPos(ts, k) <= |d| && SlotPos(ts, k) <= SlotPos(ts, i + 1)
    && |e| == |d| + SlotPos(ts, i + 1) - SlotPos(ts, k) && Read16(e, 0) == Offset(ts, i + 1)
    && SlotsMoved(d, e, ts, k, k, SlotPos(ts, k), SlotPos(ts, i + 1) - SlotPos(ts, k)) && SlotsNull(e, ts, k, i)
    && e[SlotPos(ts, i + 1)..] == d[SlotPos(ts, k)..]
  }

  predicate SlotsNull(e: seq<byte>, ts: seq<Type>, k: nat, i: nat)
    requires k <= i < |ts|
  {
    forall j :: k <= j <= i ==> At(e, SlotPos(ts, j), U32(1))
  }

  /** Correcting the offsets after the insertion. */
  lemma CorrectedIs(d: seq<byte>, e: seq<byte>, ts: seq<Type>, vs: seq<Value>, k: nat, i: nat, slots: seq<byte>)
    requires Schema(ts) && Good(d, ts, vs, k) && k <= i < |ts| && Inserted(d, e, ts, k, slots, Offset(ts, i + 1))
    requires SlotPos(ts, k) + |slots| == SlotPos(ts, i + 1) && |e| < U32_LIMIT
    requires SlotsInside(e, ts, Offset(ts, k))
    ensures var r := PatchFields(e, ts, |ts|, -1, Offset(ts, k), SlotPos(ts, k), |slots|);
            && |r| == |e| && Read16(r, 0) == Offset(ts, i + 1)
            && SlotsMoved(d, r, ts, k, k, SlotPos(ts, k), |slots|)
            && r[SlotPos(ts, k)..] == e[SlotPos(ts, k)..]
  {
    hide Schema, Good, PatchFields, Read32, Read16, SlotsInside, Patched;
    var heap, delta := SlotPos(ts, k), |slots|;
    forall j | 0 <= j < k ensures PatchFits(e, ts, -1, heap, delta, j) {
      InsertFits(d, ts, vs, k, delta, j);
      assert SlotSame(d, e, ts, j);
      if IsVar(ts[j]) { SlotRead(d, e, ts, j); }
    }
    PatchFieldsIs(e, ts, k, |ts|, -1, heap, delta);
    var r := PatchFields(e, ts, |ts|, -1, Offset(ts, k), heap, delta);
    Read16Same(e, r);
    forall j | 0 <= j < k && j != k ensures SlotMoved(d, r, ts, j, heap, delta) {
      assert SlotSame(d, e, ts, j) && SlotState(e, r, ts, |ts|, -1, heap, delta, j);
      if IsVar(ts[j]) { SlotRead(d, e, ts, j); }
    }
  }

  lemma InsertFits(d: seq<byte>, ts: seq<Type>, vs: seq<Value>, k: nat, delta: nat, j: nat)
    requires Schema(ts) && Good(d, ts, vs, k) && j < k && |d| + delta < U32_LIMIT
    ensures PatchFits(d, ts, -1, SlotPos(ts, k), delta, j)
  {
    hide HeapForm;
    if Live(d, ts, j) { LiveBounds(d, ts, vs, k, j); }
  }

  lemma ExpandIs(d: seq<byte>, ts: seq<Type>, vs: seq<Value>, k: nat, i: nat)
    requires Schema(ts) && Good(d, ts, vs, k) && k <= i < |ts|
    requires |d| + Offset(ts, i + 1) - Offset(ts, k) < U32_LIMIT
    ensures SlotsInside(d, ts, Read16(d, 0)) && Expanded(d, Expand(d, ts, i), ts, k, i)
  {
    hide Schema, Good, PatchFields, Read32, Read16, SlotsInside, Patched, FilledSlots, SlotsMoved, Inserted, Write;
    GoodDeclares(d, ts, vs, k);
    OffsetGrows(ts, k, i + 1);
    TotalBounds(ts, i);
    DeclaredInside(d, ts, k);
    var slots := FilledSlots(ts, |ts|, Offset(ts, k), i);
    var e := Write(Splice(d, SlotPos(ts, k), 0, slots), 0, U16(Offset(ts, i + 1)));
    InsertedIs(d, ts, k, slots, Offset(ts, i + 1));
    InsertedSize(d, e, ts, k, slots, Offset(ts, i + 1));
    DeclaredInside(e, ts, k);
    CorrectedIs(d, e, ts, vs, k, i, slots);
    var r := Expand(d, ts, i);
    InsertedParts(d, e, r, ts, vs, k, i, slots);
  }

  lemma TotalBounds(ts: seq<Type>, i: nat)
    requires Schema(ts) && i < |ts|
    ensures Offset(ts, i + 1) < U16_LIMIT
  {
    OffsetTotal(ts);
    if i + 1 < |ts| { OffsetGrows(ts, i + 1, |ts|); }
  }

  lemma InsertedSize(d: seq<byte>, e: seq<byte>, ts: seq<Type>, k: nat, slots: seq<byte>, needed: nat)
    requires Inserted(d, e, ts, k, slots, needed)
    ensures k <= |ts| && |e| == |d| + |slots| && SlotPos(ts, k) <= |e|
  {
  }

  lemma InsertedParts(d: seq<byte>, e: seq<byte>, r: seq<byte>, ts: seq<Type>, vs: seq<Value>, k: nat, i: nat, slots: seq<byte>)
    requires Schema(ts) && Good(d, ts, vs, k) && k <= i < |ts| && Inserted(d, e, ts, k, slots, Offset(ts, i + 1))
    requires SlotPos(ts, k) + |slots| == SlotPos(ts, i + 1) && |r| == |e| && r[SlotPos(ts, k)..] == e[SlotPos(ts, k)..]
    requires Offset(ts, k) <= Offset(ts, i + 1) && slots == FilledSlots(ts, |ts|, Offset(ts, k), i)
    ensures SlotsNull(r, ts, k, i) && r[SlotPos(ts, i + 1)..] == d[SlotPos(ts, k)..]
  {
    hide Schema, Good, Read16, Read32, FilledSlots, U32;
    var heap := SlotPos(ts, k);
    GoodDeclares(d, ts, vs, k);
    TailSlice(e, r, heap, heap, heap + |slots|);
    TailSlice(e, r, heap, heap + |slots|, |e|);
    forall j | k <= j <= i ensures At(r, SlotPos(ts, j), U32(1)) {
      FilledWith(ts, |ts|, k, i, j);
      AtWithin(r, heap, slots, Offset(ts, j) - Offset(ts, k), U32(1));
    }
  }

  lemma AtWithin(d: seq<byte>, pos: nat, part: seq<byte>, at: nat, inner: seq<byte>)
    requires At(d, pos, part) && At(part, at, inner)
    ensures At(d, pos + at, inner)
  {
    SliceSlice(d, pos, pos + |part|, pos + at, pos + at + |inner|);
  }

  // ---------------------------------------------------------------- expanding keeps the record

  lemma ExpandedField(d: seq<byte>, e: seq<byte>, ts: seq<Type>, vs: seq<Value>, k: nat, i: nat, j: nat)
    requires Schema(ts) && Good(d, ts, vs, k) && Expanded(d, e, ts, k, i) && j < k
    ensures FieldOk(e, ts, vs, SlotPos(ts, i + 1), j) && Live(e, ts, j) == Live(d, ts, j)
    ensures Live(d, ts, j) ==> Target(e, ts, j) == Target(d, ts, j) + SlotPos(ts, i + 1) - SlotPos(ts, k)
    ensures Live(d, ts, j) ==> RegionEnd(e, ts, vs, j) - Target(e, ts, j) == RegionEnd(d, ts, vs, j) - Target(d, ts, j)
  {
    hide Schema, HeapForm, Slot, Read32, Read16, HasType, SlotsNull;
    var heap, delta := SlotPos(ts, k), SlotPos(ts, i + 1) - SlotPos(ts, k);
    assert SlotMoved(d, e, ts, j, heap, delta);
    OffsetGrows(ts, j, k);
    assert FieldOk(d, ts, vs, heap, j);
    if !IsVar(ts[j]) {
      ScalarMoved(d, e, ts, vs, j, heap, delta);
    } else if Live(d, ts, j) {
      LiveBounds(d, ts, vs, k, j);
      ShiftedBytes(d, e, heap, heap + delta, Target(d, ts, j), HeapForm(ts[j], vs[j]));
    }
  }

  lemma ShiftedBytes(d: seq<byte>, e: seq<byte>, from: nat, to: nat, pos: nat, part: seq<byte>)
    requires from <= |d| && to <= |e| && e[to..] == d[from..] && from <= pos && At(d, pos, part)
    ensures At(e, pos - from + to, part)
  {
    SliceSlice(d, from, |d|, pos, pos + |part|);
    SliceSlice(e, to, |e|, pos - from + to, pos - from + to + |part|);
  }

  lemma ExpandedNull(e: seq<byte>, ts: seq<Type>, vs: seq<Value>, k: nat, i: nat, heap: nat, j: nat)
    requires k <= j <= i < |ts| && SlotsNull(e, ts, k, i) && HaveTypes(vs, ts) && ts[j].Optional? && vs[j].Null?
    ensures FieldOk(e, ts, vs, heap, j) && !Live(e, ts, j)
  {
    hide Read32, U32, At;
    Read32At(e, SlotPos(ts, j), 1);
  }

  /** Expanding the declared part keeps the record; the new fields are null. */
  lemma ExpandKeepsGood(d: seq<byte>, ts: seq<Type>, vs: seq<Value>, k: nat, i: nat)
    requires Schema(ts) && Good(d, ts, vs, k) && k <= i < |ts|
    requires |d| + Offset(ts, i + 1) - Offset(ts, k) < U32_LIMIT
    ensures SlotsInside(d, ts, Read16(d, 0)) && Good(Expand(d, ts, i), ts, vs, i + 1)
  {
    ExpandIs(d, ts, vs, k, i);
    hide Schema, Expand, FieldOk, Apart, Read16, SlotsMoved, SlotsNull, Target, Live, RegionEnd, SlotsInside;
    var e, heap := Expand(d, ts, i), SlotPos(ts, i + 1);
    forall j | 0 <= j < i + 1 ensures FieldOk(e, ts, vs, heap, j) {
      if j < k { ExpandedField(d, e, ts, vs, k, i, j); } else { ExpandedNull(e, ts, vs, k, i, heap, j); }
    }
    forall j, l | 0 <= j < l < i + 1 ensures Apart(e, ts, vs, j, l) {
      if l < k {
        ExpandedApart(d, e, ts, vs, k, i, j, l);
      } else {
        ExpandedNull(e, ts, vs, k, i, heap, l);
        NullApart(e, ts, vs, j, l);
      }
    }
  }

  lemma ExpandedApart(d: seq<byte>, e: seq<byte>, ts: seq<Type>, vs: seq<Value>, k: nat, i: nat, j: nat, l: nat)
    requires Schema(ts) && Good(d, ts, vs, k) && Expanded(d, e, ts, k, i) && j < l < k
    ensures Apart(e, ts, vs, j, l)
  {
    hide Schema, Expanded, FieldOk, Target, Live, RegionEnd;
    ExpandedField(d, e, ts, vs, k, i, j);
    ExpandedField(d, e, ts, vs, k, i, l);
    assert Apart(d, ts, vs, j, l);
  }

  lemma NullApart(e: seq<byte>, ts: seq<Type>, vs: seq<Value>, j: nat, l: nat)
    requires HaveTypes(vs, ts) && j < |ts| && l < |ts| && !Live(e, ts, l)
    ensures Apart(e, ts, vs, j, l)
  {
  }

  lemma ExpandSize(d: seq<byte>, ts: seq<Type>, i: nat)
    requires SlotsInside(d, ts, Read16(d, 0)) && i < |ts|
    ensures |Expand(d, ts, i)| == |d| + if Offset(ts, i + 1) <= Read16(d, 0) then 0 else Offset(ts, i + 1) - Read16(d, 0)
  {
    hide Read16, PatchFields, Write, FilledSlots;
  }
}
