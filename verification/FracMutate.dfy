/** What a field assignment does to a packed struct, and what it keeps (js/src/mutation.ts). */
module FracMutate {
  import opened ByteStrings
  import opened FracTypes
  import opened FracView
  import opened FracFields

  // ---------------------------------------------------------------- the operations

  /** The slot of the i-th field: the struct lies at 0, behind a two-byte header. */
  function SlotPos(ts: seq<Type>, i: nat): nat
    requires i <= |ts|
  {
    2 + Offset(ts, i)
  }

  /** Replace oldLen bytes at pos, and shift the rest. */
  function Splice(d: seq<byte>, pos: nat, oldLen: nat, bytes: seq<byte>): seq<byte>
    requires pos + oldLen <= |d|
  {
    d[..pos] + bytes + d[pos + oldLen..]
  }

  /** Where a slot's offset must lead after a splice: 0 and 1 are no offsets. */
  function Patched(slot: nat, offset: nat, splicePos: nat, delta: int): int {
    if offset > 1 && slot + offset >= splicePos then offset + delta else offset
  }

  function PatchOffset(d: seq<byte>, slot: nat, splicePos: nat, delta: int): (r: seq<byte>)
    requires slot + 4 <= |d|
    ensures |r| == |d|
  {
    var offset := Read32(d, slot);
    if offset <= 1 || slot + offset < splicePos then d else Write(d, slot, U32(offset + delta))
  }

  /** The fields whose offset is patched: of variable size, present, and not the one being set. */
  predicate PatchesField(ts: seq<Type>, j: nat, skip: int, declared: nat)
    requires j < |ts|
  {
    j != skip && IsVar(ts[j]) && Offset(ts, j) < declared
  }

  /** All slots that start in the declared part end in it, and it lies inside the data. */
  predicate SlotsInside(d: seq<byte>, ts: seq<Type>, declared: nat) {
    2 + declared <= |d|
    && forall j :: 0 <= j < |ts| && Offset(ts, j) < declared ==> Offset(ts, j) + FixedSize(ts[j]) <= declared
  }

  /** Patch the first n fields in turn. */
  function PatchFields(d: seq<byte>, ts: seq<Type>, n: nat, skip: int, declared: nat, splicePos: nat, delta: int): (r: seq<byte>)
    requires n <= |ts| && SlotsInside(d, ts, declared)
    ensures |r| == |d|
    decreases n
  {
    if n == 0 then d
    else
      var r := PatchFields(d, ts, n - 1, skip, declared, splicePos, delta);
      if PatchesField(ts, n - 1, skip, declared) then PatchOffset(r, SlotPos(ts, n - 1), splicePos, delta) else r
  }

  // ---------------------------------------------------------------- buffers that hold a record

  /** Where the heap part of the i-th field is, if it has one. */
  function Target(d: seq<byte>, ts: seq<Type>, i: nat): nat
    requires i < |ts|
  {
    SlotPos(ts, i) + Read32(d, SlotPos(ts, i))
  }

  predicate Live(d: seq<byte>, ts: seq<Type>, i: nat)
    requires i < |ts|
  {
    IsVar(ts[i]) && Read32(d, SlotPos(ts, i)) > 1
  }

  lemma PayloadTyped(t: Type, v: Value)
    requires HasType(v, t) && !v.Null?
    ensures HasType(v, Payload(t))
  {
  }

  /** A field's value as it is packed on the heap. */
  function HeapForm(t: Type, v: Value): seq<byte>
    requires HasType(v, t) && !v.Null?
  {
    PayloadTyped(t, v);
    Pack(Payload(t), v)
  }

  lemma HeapFormNotEmpty(t: Type, v: Value)
    requires HasType(v, t) && !v.Null?
    ensures |HeapForm(t, v)| >= 1
  {
    PayloadTyped(t, v);
    PackNotEmpty(Payload(t), v);
  }

  /** The slot of the i-th field, and behind its offset the heap, hold the value. An optional may
      hold an empty container on the heap instead of the offset 0; everything else is as packed. */
  predicate FieldOk(d: seq<byte>, ts: seq<Type>, vs: seq<Value>, heap: nat, i: nat)
    requires HaveTypes(vs, ts) && i < |ts|
  {
    var slot, offset := SlotPos(ts, i), Read32(d, SlotPos(ts, i));
    if !IsVar(ts[i]) then At(d, slot, Slot(ts[i], vs[i], 0))
    else if vs[i].Null? then offset == 1
    else if offset == 0 then IsEmptyContainer(Payload(ts[i]), vs[i])
    else
      && heap <= Target(d, ts, i) && At(d, Target(d, ts, i), HeapForm(ts[i], vs[i]))
      && |HeapForm(ts[i], vs[i])| < U32_LIMIT
  }

  /** The end of the heap part of the i-th field. */
  function RegionEnd(d: seq<byte>, ts: seq<Type>, vs: seq<Value>, i: nat): nat
    requires HaveTypes(vs, ts) && i < |ts|
  {
    if vs[i].Null? then Target(d, ts, i) else Target(d, ts, i) + |HeapForm(ts[i], vs[i])|
  }

  predicate Apart(d: seq<byte>, ts: seq<Type>, vs: seq<Value>, i: nat, j: nat)
    requires HaveTypes(vs, ts) && i < |ts| && j < |ts|
  {
    Live(d, ts, i) && Live(d, ts, j) ==> RegionEnd(d, ts, vs, i) <= Target(d, ts, j) || RegionEnd(d, ts, vs, j) <= Target(d, ts, i)
  }

  /** The first k fields are declared; they lie inside the data, in order, and hold their values. */
  predicate Declares(d: seq<byte>, ts: seq<Type>, vs: seq<Value>, k: nat) {
    && HaveTypes(vs, ts) && k <= |ts| && Read16(d, 0) == Offset(ts, k) && SlotPos(ts, k) <= |d| < U32_LIMIT
    && forall i :: k <= i < |ts| ==> ts[i].Optional? && vs[i].Null?
  }

  /** The data holds the record vs in the first k fields: every live heap part is in bounds and
      holds its value, and no two of them overlap. */
  predicate Good(d: seq<byte>, ts: seq<Type>, vs: seq<Value>, k: nat) {
    && Declares(d, ts, vs, k)
    && (forall i :: 0 <= i < k ==> FieldOk(d, ts, vs, SlotPos(ts, k), i))
    && (forall i, j :: 0 <= i < j < k ==> Apart(d, ts, vs, i, j))
  }

  /** A live field has its whole heap part in bounds, past the slots. */
  lemma LiveRegion(d: seq<byte>, ts: seq<Type>, vs: seq<Value>, heap: nat, i: nat)
    requires HaveTypes(vs, ts) && i < |ts| && FieldOk(d, ts, vs, heap, i) && Live(d, ts, i)
    ensures !vs[i].Null? && |HeapForm(ts[i], vs[i])| < U32_LIMIT
    ensures heap <= Target(d, ts, i) < RegionEnd(d, ts, vs, i) <= |d|
    ensures At(d, Target(d, ts, i), HeapForm(ts[i], vs[i]))
    ensures RegionEnd(d, ts, vs, i) == Target(d, ts, i) + |HeapForm(ts[i], vs[i])|
  {
    hide HeapForm, At;
    HeapFormNotEmpty(ts[i], vs[i]);
    AtInside(d, Target(d, ts, i), HeapForm(ts[i], vs[i]));
  }

  // ---------------------------------------------------------------- one change to the heap

  predicate SlotSame(d: seq<byte>, r: seq<byte>, ts: seq<Type>, j: nat)
    requires j < |ts|
  {
    var slot, end := SlotPos(ts, j), SlotPos(ts, j) + FixedSize(ts[j]);
    end <= |d| && end <= |r| && r[slot..end] == d[slot..end]
  }

  /** The slot of field j after a splice: its bytes, or its offset corrected. */
  predicate SlotMoved(d: seq<byte>, e: seq<byte>, ts: seq<Type>, j: nat, at: nat, delta: int)
    requires j < |ts|
  {
    var slot := SlotPos(ts, j);
    if IsVar(ts[j]) then Read32(e, slot) == Patched(slot, Read32(d, slot), at, delta)
    else SlotSame(d, e, ts, j)
  }

  predicate SlotsMoved(d: seq<byte>, e: seq<byte>, ts: seq<Type>, k: nat, i: nat, at: nat, delta: int)
    requires k <= |ts|
  {
    forall j :: 0 <= j < k && j != i ==> SlotMoved(d, e, ts, j, at, delta)
  }

  /** e is d with oldLen heap bytes at `at` replaced, and the slots of all fields but i corrected. */
  predicate Spliced(d: seq<byte>, e: seq<byte>, ts: seq<Type>, k: nat, i: nat, at: nat, oldLen: nat, bytes: seq<byte>) {
    && k <= |ts| && SlotPos(ts, k) <= at && at + oldLen <= |d| && |e| == |d| - oldLen + |bytes|
    && Read16(e, 0) == Read16(d, 0)
    && SlotsMoved(d, e, ts, k, i, at, |bytes| - oldLen)
    && e[SlotPos(ts, k)..at] == d[SlotPos(ts, k)..at] && e[at..at + |bytes|] == bytes && e[at + |bytes|..] == d[at + oldLen..]
  }

  /** The heap part of field j does not touch the bytes that are replaced. */
  predicate Clear(d: seq<byte>, ts: seq<Type>, vs: seq<Value>, j: nat, at: nat, oldLen: nat)
    requires HaveTypes(vs, ts) && j < |ts|
  {
    Live(d, ts, j) ==> RegionEnd(d, ts, vs, j) <= at || at + oldLen <= Target(d, ts, j)
  }

  /** A heap position after the splice. */
  function Moved(pos: nat, at: nat, delta: int): int {
    if pos >= at then pos + delta else pos
  }

  /** The bytes outside the hole are found where the splice moved them. */
  lemma MovedBytes(d: seq<byte>, e: seq<byte>, heap: nat, at: nat, oldLen: nat, bytes: seq<byte>, pos: nat, part: seq<byte>)
    requires heap <= at && at + oldLen <= |d| && |e| == |d| - oldLen + |bytes|
    requires e[heap..at] == d[heap..at] && e[at + |bytes|..] == d[at + oldLen..]
    requires heap <= pos && At(d, pos, part) && |part| > 0 && (pos + |part| <= at || at + oldLen <= pos)
    ensures Moved(pos, at, |bytes| - oldLen) >= 0 && At(e, Moved(pos, at, |bytes| - oldLen), part)
  {
    if pos + |part| <= at {
      SliceSlice(d, heap, at, pos, pos + |part|);
      SliceSlice(e, heap, at, pos, pos + |part|);
    } else {
      var q := pos - oldLen + |bytes|;
      SliceSlice(d, at + oldLen, |d|, pos, pos + |part|);
      SliceSlice(e, at + |bytes|, |e|, q, q + |part|);
    }
  }

  /** A field other than the one being set still holds its value, wherever its heap part went. */
  lemma OtherField(d: seq<byte>, e: seq<byte>, ts: seq<Type>, vs: seq<Value>, k: nat, i: nat, at: nat, oldLen: nat, bytes: seq<byte>, j: nat)
    requires HaveTypes(vs, ts) && Spliced(d, e, ts, k, i, at, oldLen, bytes) && j < k && j != i
    requires FieldOk(d, ts, vs, SlotPos(ts, k), j) && Clear(d, ts, vs, j, at, oldLen)
    ensures FieldOk(e, ts, vs, SlotPos(ts, k), j) && Live(e, ts, j) == Live(d, ts, j)
    ensures Live(d, ts, j) ==> Target(e, ts, j) == Moved(Target(d, ts, j), at, |bytes| - oldLen)
    ensures Live(d, ts, j) ==> RegionEnd(e, ts, vs, j) - Target(e, ts, j) == RegionEnd(d, ts, vs, j) - Target(d, ts, j)
  {
    hide HeapForm, Slot, Read32, Read16, HasType;
    assert SlotMoved(d, e, ts, j, at, |bytes| - oldLen);
    OffsetGrows(ts, j, k);
    if !IsVar(ts[j]) {
      ScalarMoved(d, e, ts, vs, j, at, |bytes| - oldLen);
    } else if Live(d, ts, j) {
      LiveRegion(d, ts, vs, SlotPos(ts, k), j);
      MovedBytes(d, e, SlotPos(ts, k), at, oldLen, bytes, Target(d, ts, j), HeapForm(ts[j], vs[j]));
    }
  }

  lemma ScalarMoved(d: seq<byte>, e: seq<byte>, ts: seq<Type>, vs: seq<Value>, j: nat, at: nat, delta: int)
    requires HaveTypes(vs, ts) && j < |ts| && !IsVar(ts[j]) && SlotMoved(d, e, ts, j, at, delta)
    requires At(d, SlotPos(ts, j), Slot(ts[j], vs[j], 0))
    ensures At(e, SlotPos(ts, j), Slot(ts[j], vs[j], 0))
  {
    hide Slot;
  }

  /** The slot of the field being set, and what lies at `at`, are those of the value v. */
  predicate FieldSet(e: seq<byte>, t: Type, v: Value, slot: nat, at: nat, bytes: seq<byte>)
    requires HasType(v, t)
  {
    if !IsVar(t) then At(e, slot, Slot(t, v, 0))
    else if v.Null? then Read32(e, slot) == 1
    else if IsEmptyContainer(t, v) then Read32(e, slot) == 0
    else slot + Read32(e, slot) == at && bytes == HeapForm(t, v) && |bytes| < U32_LIMIT
  }

  lemma SetFieldOk(e: seq<byte>, ts: seq<Type>, vs: seq<Value>, i: nat, v: Value, heap: nat, at: nat, bytes: seq<byte>)
    requires HaveTypes(vs, ts) && i < |ts| && HasType(v, ts[i]) && FieldSet(e, ts[i], v, SlotPos(ts, i), at, bytes)
    requires SlotPos(ts, i) + FixedSize(ts[i]) <= heap <= at && at + |bytes| <= |e| && e[at..at + |bytes|] == bytes
    ensures HaveTypes(vs[i := v], ts) && FieldOk(e, ts, vs[i := v], heap, i)
    ensures Live(e, ts, i) ==> Target(e, ts, i) == at && RegionEnd(e, ts, vs[i := v], i) == at + |bytes|
  {
    hide HeapForm, Slot, Read32;
  }

  /** A splice that clears all other heap parts, with the slot of field i written: the data holds
      the record with field i updated. */
  lemma GoodAfter(d: seq<byte>, e: seq<byte>, ts: seq<Type>, vs: seq<Value>, k: nat, i: nat, v: Value,
                  at: nat, oldLen: nat, bytes: seq<byte>)
    requires Good(d, ts, vs, k) && i < k && HasType(v, ts[i])
    requires Spliced(d, e, ts, k, i, at, oldLen, bytes) && |e| < U32_LIMIT
    requires forall j :: 0 <= j < k && j != i ==> Clear(d, ts, vs, j, at, oldLen)
    requires FieldSet(e, ts[i], v, SlotPos(ts, i), at, bytes)
    ensures Good(e, ts, vs[i := v], k)
  {
    hide FieldOk, Spliced, Clear, Target, RegionEnd, Live, FieldSet, HasType, Apart;
    var vs' := vs[i := v];
    SetDeclares(d, e, ts, vs, k, i, v, at, oldLen, bytes);
    forall j | 0 <= j < k ensures FieldOk(e, ts, vs', SlotPos(ts, k), j) {
      FieldAfter(d, e, ts, vs, k, i, v, at, oldLen, bytes, j);
    }
    forall j, l | 0 <= j < l < k ensures Apart(e, ts, vs', j, l) {
      FieldAfter(d, e, ts, vs, k, i, v, at, oldLen, bytes, j);
      FieldAfter(d, e, ts, vs, k, i, v, at, oldLen, bytes, l);
      ApartAfter(d, e, ts, vs, k, i, v, at, oldLen, bytes, j, l);
    }
  }

  lemma SetDeclares(d: seq<byte>, e: seq<byte>, ts: seq<Type>, vs: seq<Value>, k: nat, i: nat, v: Value,
                    at: nat, oldLen: nat, bytes: seq<byte>)
    requires Declares(d, ts, vs, k) && i < k && HasType(v, ts[i])
    requires Spliced(d, e, ts, k, i, at, oldLen, bytes) && |e| < U32_LIMIT
    ensures Declares(e, ts, vs[i := v], k)
  {
    hide HasType, Read16;
  }

  /** What is known of field j after the change: its value, and where its heap part went. */
  predicate Went(d: seq<byte>, e: seq<byte>, ts: seq<Type>, vs: seq<Value>, vs': seq<Value>, i: nat, at: nat, oldLen: nat, added: nat, j: nat)
    requires HaveTypes(vs, ts) && HaveTypes(vs', ts) && j < |ts|
  {
    if j == i then Live(e, ts, j) ==> Target(e, ts, j) == at && RegionEnd(e, ts, vs', j) == at + added
    else
      && Live(e, ts, j) == Live(d, ts, j)
      && (Live(d, ts, j) ==>
        && Target(e, ts, j) == Moved(Target(d, ts, j), at, added - oldLen)
        && RegionEnd(e, ts, vs', j) - Target(e, ts, j) == RegionEnd(d, ts, vs, j) - Target(d, ts, j) > 0)
  }

  lemma FieldAfter(d: seq<byte>, e: seq<byte>, ts: seq<Type>, vs: seq<Value>, k: nat, i: nat, v: Value,
                   at: nat, oldLen: nat, bytes: seq<byte>, j: nat)
    requires Good(d, ts, vs, k) && i < k && j < k && HasType(v, ts[i]) && Declares(e, ts, vs[i := v], k)
    requires Spliced(d, e, ts, k, i, at, oldLen, bytes)
    requires j != i ==> Clear(d, ts, vs, j, at, oldLen)
    requires FieldSet(e, ts[i], v, SlotPos(ts, i), at, bytes)
    ensures FieldOk(e, ts, vs[i := v], SlotPos(ts, k), j)
    ensures Went(d, e, ts, vs, vs[i := v], i, at, oldLen, |bytes|, j)
  {
    hide FieldOk, Clear, FieldSet, HasType, Apart, Moved, Read32, Read16, SlotsMoved, Live, Target;
    OffsetGrows(ts, i, k);
    if j == i {
      SetFieldOk(e, ts, vs, i, v, SlotPos(ts, k), at, bytes);
    } else {
      OtherField(d, e, ts, vs, k, i, at, oldLen, bytes, j);
      if Live(d, ts, j) { LiveRegion(d, ts, vs, SlotPos(ts, k), j); }
      SameField(e, ts, vs, vs[i := v], SlotPos(ts, k), j);
    }
  }

  lemma SameField(e: seq<byte>, ts: seq<Type>, vs: seq<Value>, vs': seq<Value>, heap: nat, j: nat)
    requires HaveTypes(vs, ts) && HaveTypes(vs', ts) && j < |ts| && vs[j] == vs'[j]
    ensures FieldOk(e, ts, vs, heap, j) == FieldOk(e, ts, vs', heap, j)
    ensures RegionEnd(e, ts, vs, j) == RegionEnd(e, ts, vs', j)
  {
    hide Slot, HeapForm, Read32;
  }

  lemma ApartAfter(d: seq<byte>, e: seq<byte>, ts: seq<Type>, vs: seq<Value>, k: nat, i: nat, v: Value,
                   at: nat, oldLen: nat, bytes: seq<byte>, j: nat, l: nat)
    requires Good(d, ts, vs, k) && i < k && j < l < k && HasType(v, ts[i]) && Declares(e, ts, vs[i := v], k)
    requires j != i ==> Clear(d, ts, vs, j, at, oldLen)
    requires l != i ==> Clear(d, ts, vs, l, at, oldLen)
    requires Went(d, e, ts, vs, vs[i := v], i, at, oldLen, |bytes|, j)
    requires Went(d, e, ts, vs, vs[i := v], i, at, oldLen, |bytes|, l)
    ensures Apart(e, ts, vs[i := v], j, l)
  {
    hide FieldOk, HasType, Target, RegionEnd, Live;
    assert Apart(d, ts, vs, j, l);
  }

  // ---------------------------------------------------------------- patching

  /** After the first n fields: their slots are patched, everything else is unchanged. */
  predicate SlotState(d: seq<byte>, r: seq<byte>, ts: seq<Type>, n: nat, skip: int, at: nat, delta: int, j: nat)
    requires j < |ts|
  {
    var slot := SlotPos(ts, j);
    if j < n && j != skip && IsVar(ts[j]) then Read32(r, slot) == Patched(slot, Read32(d, slot), at, delta)
    else SlotSame(d, r, ts, j)
  }

  predicate PatchState(d: seq<byte>, r: seq<byte>, ts: seq<Type>, k: nat, n: nat, skip: int, at: nat, delta: int)
    requires k <= |ts|
  {
    && |r| == |d| && SlotPos(ts, k) <= |d|
    && r[..2] == d[..2] && r[SlotPos(ts, k)..] == d[SlotPos(ts, k)..]
    && forall j :: 0 <= j < k ==> SlotState(d, r, ts, n, skip, at, delta, j)
  }

  /** Every corrected offset is still a 32-bit number. */
  predicate PatchFits(d: seq<byte>, ts: seq<Type>, skip: int, at: nat, delta: int, j: nat)
    requires j < |ts|
  {
    var slot := SlotPos(ts, j);
    j != skip && IsVar(ts[j]) ==> 0 <= Patched(slot, Read32(d, slot), at, delta) < U32_LIMIT
  }

  lemma SlotsDisjoint(ts: seq<Type>, i: nat, j: nat)
    requires i < |ts| && j < |ts| && i != j
    ensures SlotPos(ts, i) + FixedSize(ts[i]) <= SlotPos(ts, j) || SlotPos(ts, j) + FixedSize(ts[j]) <= SlotPos(ts, i)
  {
    if i < j { OffsetGrows(ts, i, j); } else { OffsetGrows(ts, j, i); }
  }

  lemma DeclaredIs(ts: seq<Type>, k: nat, j: nat)
    requires k <= |ts| && j < |ts|
    ensures Offset(ts, j) < Offset(ts, k) <==> j < k
  {
    if j < k {
      OffsetGrows(ts, j, k);
    } else if k < j {
      OffsetGrows(ts, k, j);
    }
  }

  lemma DeclaredInside(d: seq<byte>, ts: seq<Type>, k: nat)
    requires k <= |ts| && SlotPos(ts, k) <= |d|
    ensures SlotsInside(d, ts, Offset(ts, k))
  {
    forall j | 0 <= j < |ts| && Offset(ts, j) < Offset(ts, k) ensures Offset(ts, j) + FixedSize(ts[j]) <= Offset(ts, k) {
      DeclaredIs(ts, k, j);
      OffsetGrows(ts, j, k);
    }
  }

  lemma SlotRead(d: seq<byte>, r: seq<byte>, ts: seq<Type>, j: nat)
    requires j < |ts| && IsVar(ts[j]) && SlotSame(d, r, ts, j)
    ensures Read32(r, SlotPos(ts, j)) == Read32(d, SlotPos(ts, j))
  {
    hide Read32;
    Read32Same(d, SlotPos(ts, j), r, SlotPos(ts, j));
  }

  lemma {:induction false} PatchFieldsIs(d: seq<byte>, ts: seq<Type>, k: nat, n: nat, skip: int, at: nat, delta: int)
    requires k <= |ts| && n <= |ts| && SlotPos(ts, k) <= |d| && SlotsInside(d, ts, Offset(ts, k))
    requires forall j :: 0 <= j < k ==> PatchFits(d, ts, skip, at, delta, j)
    ensures PatchState(d, PatchFields(d, ts, n, skip, Offset(ts, k), at, delta), ts, k, n, skip, at, delta)
    decreases n
  {
    hide Read32, SlotState, PatchOffset, SlotsInside;
    if n == 0 {
      forall j | 0 <= j < k ensures SlotState(d, d, ts, 0, skip, at, delta, j) {
        OffsetGrows(ts, j, k);
        SlotUnchanged(d, ts, skip, at, delta, j);
      }
    } else {
      PatchFieldsIs(d, ts, k, n - 1, skip, at, delta);
      var r := PatchFields(d, ts, n - 1, skip, Offset(ts, k), at, delta);
      DeclaredIs(ts, k, n - 1);
      PatchNext(d, r, ts, k, n, skip, at, delta);
    }
  }

  lemma SlotUnchanged(d: seq<byte>, ts: seq<Type>, skip: int, at: nat, delta: int, j: nat)
    requires j < |ts| && SlotPos(ts, j) + FixedSize(ts[j]) <= |d|
    ensures SlotState(d, d, ts, 0, skip, at, delta, j)
  {
  }

  /** One more field. */
  lemma PatchNext(d: seq<byte>, r: seq<byte>, ts: seq<Type>, k: nat, n: nat, skip: int, at: nat, delta: int)
    requires k <= |ts| && 1 <= n <= |ts| && PatchState(d, r, ts, k, n - 1, skip, at, delta)
    requires forall j :: 0 <= j < k ==> PatchFits(d, ts, skip, at, delta, j)
    ensures n - 1 < k ==> SlotPos(ts, n - 1) + FixedSize(ts[n - 1]) <= |d|
    ensures PatchState(d, if n - 1 != skip && IsVar(ts[n - 1]) && n - 1 < k then PatchOffset(r, SlotPos(ts, n - 1), at, delta) else r,
                       ts, k, n, skip, at, delta)
  {
    hide Read32, SlotState, PatchOffset, PatchFits;
    if n - 1 < k { OffsetGrows(ts, n - 1, k); }
    if n - 1 != skip && IsVar(ts[n - 1]) && n - 1 < k {
      assert SlotState(d, r, ts, n - 1, skip, at, delta, n - 1) && PatchFits(d, ts, skip, at, delta, n - 1);
      var r' := PatchOne(d, r, ts, n, skip, at, delta);
      WriteRegion(r, r', SlotPos(ts, n - 1), 0, 2);
      WriteRegion(r, r', SlotPos(ts, n - 1), SlotPos(ts, k), |d|);
      forall j | 0 <= j < k ensures SlotState(d, r', ts, n, skip, at, delta, j) {
        assert SlotState(d, r, ts, n - 1, skip, at, delta, j);
        OffsetGrows(ts, j, k);
        if j != n - 1 { PatchOther(d, r, r', ts, n, skip, at, delta, j); }
      }
    } else {
      forall j | 0 <= j < k ensures SlotState(d, r, ts, n, skip, at, delta, j) {
        assert SlotState(d, r, ts, n - 1, skip, at, delta, j);
        PatchNone(d, r, ts, n, skip, at, delta, j);
      }
    }
  }

  /** r' is r with something written over the slot at `slot`. */
  predicate Overwrote(r: seq<byte>, r': seq<byte>, slot: nat) {
    |r'| == |r| && slot + 4 <= |r| && r'[..slot] == r[..slot] && r'[slot + 4..] == r[slot + 4..]
  }

  lemma WriteRegion(r: seq<byte>, r': seq<byte>, slot: nat, i: nat, j: nat)
    requires Overwrote(r, r', slot) && i <= j <= |r| && (j <= slot || slot + 4 <= i)
    ensures r'[i..j] == r[i..j]
  {
    if j <= slot {
      SliceSlice(r, 0, slot, i, j);
      SliceSlice(r', 0, slot, i, j);
    } else {
      SliceSlice(r, slot + 4, |r|, i, j);
      SliceSlice(r', slot + 4, |r|, i, j);
    }
  }

  lemma PatchOne(d: seq<byte>, r: seq<byte>, ts: seq<Type>, n: nat, skip: int, at: nat, delta: int) returns (r': seq<byte>)
    requires 1 <= n <= |ts| && n - 1 != skip && IsVar(ts[n - 1]) && |r| == |d|
    requires SlotState(d, r, ts, n - 1, skip, at, delta, n - 1) && PatchFits(d, ts, skip, at, delta, n - 1)
    ensures SlotPos(ts, n - 1) + 4 <= |r| && r' == PatchOffset(r, SlotPos(ts, n - 1), at, delta)
    ensures Overwrote(r, r', SlotPos(ts, n - 1)) && SlotState(d, r', ts, n, skip, at, delta, n - 1)
  {
    hide Read32, U32;
    var slot := SlotPos(ts, n - 1);
    SlotRead(d, r, ts, n - 1);
    r' := PatchOffset(r, slot, at, delta);
    if Read32(r, slot) > 1 && slot + Read32(r, slot) >= at { WriteRead32(r, slot, Read32(r, slot) + delta); }
  }

  lemma PatchOther(d: seq<byte>, r: seq<byte>, r': seq<byte>, ts: seq<Type>, n: nat, skip: int, at: nat, delta: int, j: nat)
    requires 1 <= n <= |ts| && j < |ts| && j != n - 1 && Overwrote(r, r', SlotPos(ts, n - 1)) && IsVar(ts[n - 1])
    requires SlotState(d, r, ts, n - 1, skip, at, delta, j) && SlotPos(ts, j) + FixedSize(ts[j]) <= |r|
    ensures SlotState(d, r', ts, n, skip, at, delta, j)
  {
    hide Read32;
    SlotsDisjoint(ts, j, n - 1);
    var slot := SlotPos(ts, j);
    WriteRegion(r, r', SlotPos(ts, n - 1), slot, slot + FixedSize(ts[j]));
    if IsVar(ts[j]) { Read32Same(r, slot, r', slot); }
  }

  lemma PatchNone(d: seq<byte>, r: seq<byte>, ts: seq<Type>, n: nat, skip: int, at: nat, delta: int, j: nat)
    requires 1 <= n <= |ts| && j < |ts| && SlotState(d, r, ts, n - 1, skip, at, delta, j)
    requires j != n - 1 || j == skip || !IsVar(ts[j])
    ensures SlotState(d, r, ts, n, skip, at, delta, j)
  {
  }
}
