/** Setting one field of a packed struct, in canonical and in fast mode (js/src/mutation.ts, lines 351-694). */
module FracSet {
  import opened ByteStrings
  import opened Wrappers
  import opened FracTypes
  import opened FracSize
  import opened FracFields
  import opened FracMutate

  // ---------------------------------------------------------------- a field that is present

  /** What an assignment to field i reads lies inside the data: the declared slots, and behind them
      the measured heap part of the field, if it has one. */
  predicate Readable(d: seq<byte>, ts: seq<Type>, i: nat)
    requires i < |ts| && WellFormed(ts[i])
  {
    SlotsInside(d, ts, Read16(d, 0)) && (Offset(ts, i) < Read16(d, 0) ==> Measured(d, ts, i))
  }

  predicate Measured(d: seq<byte>, ts: seq<Type>, i: nat)
    requires i < |ts| && WellFormed(ts[i])
  {
    Live(d, ts, i) ==>
      && 2 + Read16(d, 0) <= Target(d, ts, i) && PackedSizeAt(ts[i], d, Target(d, ts, i)).Some?
      && Target(d, ts, i) + PackedSizeAt(ts[i], d, Target(d, ts, i)).value <= |d|
  }

  predicate Elided(d: seq<byte>, ts: seq<Type>, i: nat)
    requires i < |ts|
  {
    Offset(ts, i) >= Read16(d, 0)
  }

  /** Changes behind the declared slots keep them where they are. */
  lemma SpliceInside(d: seq<byte>, ts: seq<Type>, at: nat, oldLen: nat, bytes: seq<byte>)
    requires SlotsInside(d, ts, Read16(d, 0)) && 2 + Read16(d, 0) <= at && at + oldLen <= |d|
    ensures Read16(Splice(d, at, oldLen, bytes), 0) == Read16(d, 0)
    ensures SlotsInside(Splice(d, at, oldLen, bytes), ts, Read16(d, 0))
  {
    hide Read16;
    var e := Splice(d, at, oldLen, bytes);
    assert e[..2] == d[..2];
    Read16Same(d, e);
  }

  lemma WriteInside(d: seq<byte>, ts: seq<Type>, i: nat, bytes: seq<byte>)
    requires SlotsInside(d, ts, Read16(d, 0)) && i < |ts| && !Elided(d, ts, i) && |bytes| == FixedSize(ts[i])
    ensures SlotPos(ts, i) + |bytes| <= |d|
    ensures Read16(Write(d, SlotPos(ts, i), bytes), 0) == Read16(d, 0)
    ensures SlotsInside(Write(d, SlotPos(ts, i), bytes), ts, Read16(d, 0))
  {
    hide Read16;
    var e := Write(d, SlotPos(ts, i), bytes);
    assert e[..2] == d[..2];
    Read16Same(d, e);
  }

  function PatchSiblings(d: seq<byte>, ts: seq<Type>, i: nat, at: nat, delta: int): (r: seq<byte>)
    requires SlotsInside(d, ts, Read16(d, 0))
    ensures |r| == |d|
  {
    if delta == 0 then d else PatchFields(d, ts, |ts|, i, Read16(d, 0), at, delta)
  }

  /** Take the heap part of a field away, if it has one, and leave a marker in its slot. */
  function ClearField(d: seq<byte>, ts: seq<Type>, i: nat, marker: nat): seq<byte>
    requires i < |ts| && WellFormed(ts[i]) && Readable(d, ts, i) && IsVar(ts[i]) && !Elided(d, ts, i)
  {
    var slot, at := SlotPos(ts, i), Target(d, ts, i);
    WriteInside(d, ts, i, U32(marker));
    if Read32(d, slot) <= 1 then Write(d, slot, U32(marker))
    else
      assert Measured(d, ts, i);
      var size := PackedSizeAt(ts[i], d, at).value;
      SpliceInside(d, ts, at, size, []);
      var e := Splice(d, at, size, []);
      WriteInside(e, ts, i, U32(marker));
      PatchSiblings(Write(e, slot, U32(marker)), ts, i, at, |e| - |d|)
  }

  /** Put bytes in place of the heap part of a field, or at the end if it has none. */
  function ReplaceField(d: seq<byte>, ts: seq<Type>, i: nat, bytes: seq<byte>): seq<byte>
    requires i < |ts| && WellFormed(ts[i]) && Readable(d, ts, i) && IsVar(ts[i]) && !Elided(d, ts, i)
  {
    var slot, at := SlotPos(ts, i), Target(d, ts, i);
    WriteInside(d, ts, i, U32(0));
    if Read32(d, slot) <= 1 then AppendField(d, ts, i, bytes)
    else
      assert Measured(d, ts, i);
      var size := PackedSizeAt(ts[i], d, at).value;
      SpliceInside(d, ts, at, size, bytes);
      PatchSiblings(Splice(d, at, size, bytes), ts, i, at, |bytes| - size)
  }

  function AppendField(d: seq<byte>, ts: seq<Type>, i: nat, bytes: seq<byte>): seq<byte>
    requires i < |ts| && WellFormed(ts[i]) && Readable(d, ts, i) && IsVar(ts[i]) && !Elided(d, ts, i)
  {
    WriteInside(d, ts, i, U32(0));
    Write(d + bytes, SlotPos(ts, i), U32(|d| - SlotPos(ts, i)))
  }

  function PutCanonical(d: seq<byte>, ts: seq<Type>, i: nat, v: Value): seq<byte>
    requires i < |ts| && WellFormed(ts[i]) && Readable(d, ts, i) && !Elided(d, ts, i) && HasType(v, ts[i])
  {
    if !IsVar(ts[i]) then
      WriteInside(d, ts, i, Pack(ts[i], v));
      Write(d, SlotPos(ts, i), Pack(ts[i], v))
    else if v.Null? then ClearField(d, ts, i, 1)
    else if IsEmptyContainer(ts[i], v) then ClearField(d, ts, i, 0)
    else ReplaceField(d, ts, i, HeapForm(ts[i], v))
  }

  /** The fast mode leaves dead bytes behind: it only marks slots, overwrites and appends. */
  function PutFast(d: seq<byte>, ts: seq<Type>, i: nat, v: Value): seq<byte>
    requires i < |ts| && WellFormed(ts[i]) && Readable(d, ts, i) && !Elided(d, ts, i) && HasType(v, ts[i])
  {
    var slot, at := SlotPos(ts, i), Target(d, ts, i);
    if !IsVar(ts[i]) then PutCanonical(d, ts, i, v)
    else
      WriteInside(d, ts, i, U32(0));
      if v.Null? then Write(d, slot, U32(1))
      else if IsEmptyContainer(ts[i], v) then Write(d, slot, U32(0))
      else
        var bytes := HeapForm(ts[i], v);
        if Read32(d, slot) <= 1 then AppendField(d, ts, i, bytes)
        else
          assert Measured(d, ts, i);
          if |bytes| <= PackedSizeAt(ts[i], d, at).value then Write(d, at, bytes)
          else AppendField(d, ts, i, bytes)
  }

  // ---------------------------------------------------------------- before the siblings are patched

  /** As Spliced, but with all slots except the i-th still as they were. */
  predicate RawSplice(d: seq<byte>, e: seq<byte>, ts: seq<Type>, k: nat, i: nat, at: nat, oldLen: nat, bytes: seq<byte>) {
    && k <= |ts| && SlotPos(ts, k) <= at && at + oldLen <= |d| && |e| == |d| - oldLen + |bytes|
    && e[..2] == d[..2]
    && (forall j :: 0 <= j < k && j != i ==> SlotSame(d, e, ts, j))
    && e[SlotPos(ts, k)..at] == d[SlotPos(ts, k)..at] && e[at..at + |bytes|] == bytes && e[at + |bytes|..] == d[at + oldLen..]
  }

  lemma RawOfSplice(d: seq<byte>, ts: seq<Type>, k: nat, i: nat, at: nat, oldLen: nat, bytes: seq<byte>)
    requires k <= |ts| && SlotPos(ts, k) <= at && at + oldLen <= |d|
    ensures RawSplice(d, Splice(d, at, oldLen, bytes), ts, k, i, at, oldLen, bytes)
    ensures i < k ==> SlotSame(d, Splice(d, at, oldLen, bytes), ts, i)
  {
    var e := Splice(d, at, oldLen, bytes);
    assert e[..at] == d[..at];
    forall j | 0 <= j < k ensures SlotSame(d, e, ts, j) {
      OffsetGrows(ts, j, k);
      SliceSlice(d, 0, at, SlotPos(ts, j), SlotPos(ts, j) + FixedSize(ts[j]));
      SliceSlice(e, 0, at, SlotPos(ts, j), SlotPos(ts, j) + FixedSize(ts[j]));
    }
    SliceSlice(d, 0, at, SlotPos(ts, k), at);
    SliceSlice(e, 0, at, SlotPos(ts, k), at);
    assert e[..2] == e[..at][..2] == d[..at][..2];
  }

  /** Writing the slot of field i leaves everything else. */
  lemma RawThenWrite(d: seq<byte>, e: seq<byte>, ts: seq<Type>, k: nat, i: nat, at: nat, oldLen: nat, bytes: seq<byte>, slot: seq<byte>)
    requires RawSplice(d, e, ts, k, i, at, oldLen, bytes) && i < k && |slot| == FixedSize(ts[i])
    ensures SlotPos(ts, i) + |slot| <= SlotPos(ts, k) <= |e|
    ensures RawSplice(d, Write(e, SlotPos(ts, i), slot), ts, k, i, at, oldLen, bytes)
  {
    hide Write, FixedSize, Offset, SlotSame;
    OffsetGrows(ts, i, k);
    var pos := SlotPos(ts, i);
    var w := Write(e, pos, slot);
    WriteSlice(e, pos, slot, 0, 2);
    WriteSlice(e, pos, slot, SlotPos(ts, k), at);
    WriteSlice(e, pos, slot, at, at + |bytes|);
    WriteSlice(e, pos, slot, at + |bytes|, |e|);
    forall j | 0 <= j < k && j != i ensures SlotSame(d, w, ts, j) {
      assert SlotSame(d, e, ts, j);
      SlotUnwritten(d, e, ts, i, j, slot);
    }
  }

  lemma SlotUnwritten(d: seq<byte>, e: seq<byte>, ts: seq<Type>, i: nat, j: nat, slot: seq<byte>)
    requires i < |ts| && j < |ts| && j != i && |slot| == FixedSize(ts[i]) && SlotPos(ts, i) + |slot| <= |e| && SlotSame(d, e, ts, j)
    ensures SlotSame(d, Write(e, SlotPos(ts, i), slot), ts, j)
  {
    hide Write, FixedSize, Offset;
    SlotsDisjoint(ts, i, j);
    WriteSlice(e, SlotPos(ts, i), slot, SlotPos(ts, j), SlotPos(ts, j) + FixedSize(ts[j]));
  }

  /** The offset of field j needs no correction. */
  predicate Settled(d: seq<byte>, ts: seq<Type>, at: nat, delta: int, j: nat)
    requires j < |ts|
  {
    IsVar(ts[j]) ==> Patched(SlotPos(ts, j), Read32(d, SlotPos(ts, j)), at, delta) == Read32(d, SlotPos(ts, j))
  }

  lemma RawUnpatched(d: seq<byte>, e: seq<byte>, ts: seq<Type>, k: nat, i: nat, at: nat, oldLen: nat, bytes: seq<byte>, delta: int)
    requires RawSplice(d, e, ts, k, i, at, oldLen, bytes) && delta == |bytes| - oldLen
    requires forall j :: 0 <= j < k && j != i ==> Settled(d, ts, at, delta, j)
    ensures Spliced(d, e, ts, k, i, at, oldLen, bytes)
  {
    hide Read16, Read32, Patched;
    Read16Same(d, e);
    forall j | 0 <= j < k && j != i ensures SlotMoved(d, e, ts, j, at, delta) {
      assert SlotSame(d, e, ts, j) && Settled(d, ts, at, delta, j);
      if IsVar(ts[j]) { SlotRead(d, e, ts, j); }
    }
  }

  lemma RawPatched(d: seq<byte>, e: seq<byte>, ts: seq<Type>, k: nat, i: nat, at: nat, oldLen: nat, bytes: seq<byte>, delta: int)
    requires delta == |bytes| - oldLen && RawSplice(d, e, ts, k, i, at, oldLen, bytes) && Read16(d, 0) == Offset(ts, k) && i < k
    requires SlotSame(e, e, ts, i)
    requires forall j :: 0 <= j < k ==> PatchFits(d, ts, i, at, delta, j)
    ensures Read16(e, 0) == Offset(ts, k) && SlotsInside(e, ts, Offset(ts, k))
    ensures Spliced(d, PatchSiblings(e, ts, i, at, delta), ts, k, i, at, oldLen, bytes)
    ensures SlotSame(e, PatchSiblings(e, ts, i, at, delta), ts, i)
  {
    hide Read16, Read32, Patched, SlotsInside, PatchFields;
    Read16Same(d, e);
    DeclaredInside(e, ts, k);
    if delta == 0 {
      forall j | 0 <= j < k && j != i ensures Settled(d, ts, at, delta, j) {
        PatchedByNothing(SlotPos(ts, j), Read32(d, SlotPos(ts, j)), at);
      }
      RawUnpatched(d, e, ts, k, i, at, oldLen, bytes, delta);
    } else {
      forall j | 0 <= j < k ensures PatchFits(e, ts, i, at, delta, j) {
        assert PatchFits(d, ts, i, at, delta, j);
        if j != i && IsVar(ts[j]) { assert SlotSame(d, e, ts, j); SlotRead(d, e, ts, j); }
      }
      PatchFieldsIs(e, ts, k, |ts|, i, at, delta);
      SplicedByPatch(d, e, PatchFields(e, ts, |ts|, i, Offset(ts, k), at, delta), ts, k, i, at, oldLen, bytes);
    }
  }

  lemma PatchedByNothing(slot: nat, offset: nat, at: nat)
    ensures Patched(slot, offset, at, 0) == offset
  {
  }

  lemma SplicedByPatch(d: seq<byte>, e: seq<byte>, r: seq<byte>, ts: seq<Type>, k: nat, i: nat, at: nat, oldLen: nat, bytes: seq<byte>)
    requires RawSplice(d, e, ts, k, i, at, oldLen, bytes) && i < k
    requires PatchState(e, r, ts, k, |ts|, i, at, |bytes| - oldLen)
    ensures Spliced(d, r, ts, k, i, at, oldLen, bytes) && SlotSame(e, r, ts, i)
  {
    hide Read16, Read32, Patched;
    var delta, heap := |bytes| - oldLen, SlotPos(ts, k);
    assert SlotState(e, r, ts, |ts|, i, at, delta, i);
    Read16Same(d, r);
    TailSlice(e, r, heap, heap, at);
    TailSlice(e, r, heap, at, at + |bytes|);
    TailSlice(e, r, heap, at + |bytes|, |e|);
    forall j | 0 <= j < k && j != i ensures SlotMoved(d, r, ts, j, at, delta) {
      assert SlotSame(d, e, ts, j) && SlotState(e, r, ts, |ts|, i, at, delta, j);
      if IsVar(ts[j]) { SlotRead(d, e, ts, j); }
    }
  }

  lemma TailSlice(e: seq<byte>, r: seq<byte>, heap: nat, i: nat, j: nat)
    requires |e| == |r| && heap <= i <= j <= |e| && r[heap..] == e[heap..]
    ensures r[i..j] == e[i..j]
  {
    SliceSlice(e, heap, |e|, i, j);
    SliceSlice(r, heap, |r|, i, j);
  }

  // ---------------------------------------------------------------- what an assignment does to a good buffer

  /** The fields of a struct, whose slots fit its header. */
  predicate Schema(ts: seq<Type>) {
    (forall i :: 0 <= i < |ts| ==> WellFormed(ts[i])) && FixedTotal(ts) < U16_LIMIT
  }

  lemma SchemaField(ts: seq<Type>, i: nat)
    requires Schema(ts) && i < |ts|
    ensures WellFormed(ts[i])
  {
  }

  /** A live field lies behind the slots. */
  lemma LiveBounds(d: seq<byte>, ts: seq<Type>, vs: seq<Value>, k: nat, i: nat)
    requires Good(d, ts, vs, k) && i < k && Live(d, ts, i)
    ensures !vs[i].Null? && |HeapForm(ts[i], vs[i])| >= 1
    ensures SlotPos(ts, k) <= Target(d, ts, i) && Target(d, ts, i) + |HeapForm(ts[i], vs[i])| <= |d|
    ensures RegionEnd(d, ts, vs, i) == Target(d, ts, i) + |HeapForm(ts[i], vs[i])|
  {
    hide Pack, Read32, Read16, Apart;
    LiveRegion(d, ts, vs, SlotPos(ts, k), i);
  }

  /** A live field is measured. */
  lemma LiveMeasured(d: seq<byte>, ts: seq<Type>, vs: seq<Value>, k: nat, i: nat)
    requires Schema(ts) && Good(d, ts, vs, k) && i < k && Live(d, ts, i) && NotOver(ts[i], vs[i])
    ensures !vs[i].Null? && PackedSizeAt(ts[i], d, Target(d, ts, i)) == Some(OldLen(d, ts, i))
    ensures OldLen(d, ts, i) <= |HeapForm(ts[i], vs[i])|
    ensures OldLen(d, ts, i) == |HeapForm(ts[i], vs[i])| <==> Exact(ts[i], vs[i])
  {
    hide Pack, Read32, Read16, WellFormed, Apart, NotOver, Exact;
    LiveRegion(d, ts, vs, SlotPos(ts, k), i);
    MeasuresPacked(ts[i], d, Target(d, ts, i), vs[i]);
  }

  lemma GoodDeclared(d: seq<byte>, ts: seq<Type>, vs: seq<Value>, k: nat, i: nat)
    requires Good(d, ts, vs, k) && i < |ts|
    ensures SlotsInside(d, ts, Read16(d, 0)) && (Elided(d, ts, i) <==> i >= k)
  {
    hide FieldOk, Apart, Read16;
    DeclaredInside(d, ts, k);
    DeclaredIs(ts, k, i);
  }

  /** A field of a good buffer can be set, unless its value is measured too large. */
  lemma GoodReadable(d: seq<byte>, ts: seq<Type>, vs: seq<Value>, k: nat, i: nat)
    requires Schema(ts) && Good(d, ts, vs, k) && i < |ts| && NotOver(ts[i], vs[i])
    ensures Readable(d, ts, i) && (Elided(d, ts, i) <==> i >= k)
  {
    SchemaField(ts, i);
    hide Schema, Good, Live, Target, Read16, PackedSizeAt, SlotsInside, NotOver, HeapForm, OldLen;
    GoodDeclared(d, ts, vs, k, i);
    GoodDeclares(d, ts, vs, k);
    if i < k && Live(d, ts, i) {
      LiveBounds(d, ts, vs, k, i);
      LiveMeasured(d, ts, vs, k, i);
    }
  }

  /** Nothing lies at or behind the end of the data. */
  lemma EndIsClear(d: seq<byte>, ts: seq<Type>, vs: seq<Value>, k: nat, delta: int, j: nat)
    requires Good(d, ts, vs, k) && j < k
    ensures Settled(d, ts, |d|, delta, j) && Clear(d, ts, vs, j, |d|, 0)
  {
    if Live(d, ts, j) { LiveBounds(d, ts, vs, k, j); }
  }

  /** The heap part of a live field is clear of all others. */
  lemma RegionIsClear(d: seq<byte>, ts: seq<Type>, vs: seq<Value>, k: nat, i: nat, j: nat)
    requires Good(d, ts, vs, k) && i < k && j < k && i != j && Live(d, ts, i)
    ensures !vs[i].Null? && Clear(d, ts, vs, j, Target(d, ts, i), |HeapForm(ts[i], vs[i])|)
  {
    hide FieldOk, Live, Target, Read32, HeapForm;
    LiveBounds(d, ts, vs, k, i);
    assert Apart(d, ts, vs, if i < j then i else j, if i < j then j else i);
  }

  /** Offsets corrected for a change at a clear place stay in range. */
  lemma PatchStaysInRange(d: seq<byte>, ts: seq<Type>, vs: seq<Value>, k: nat, i: nat, at: nat, oldLen: nat, added: nat, j: nat)
    requires Good(d, ts, vs, k) && j < k && SlotPos(ts, k) <= at && at + oldLen <= |d|
    requires |d| - oldLen + added < U32_LIMIT
    requires j != i ==> Clear(d, ts, vs, j, at, oldLen)
    ensures PatchFits(d, ts, i, at, added - oldLen, j)
  {
    hide HeapForm;
    OffsetGrows(ts, j, k);
    if Live(d, ts, j) { LiveBounds(d, ts, vs, k, j); }
  }

  /** The heap bytes an assignment takes away: where, and how many. */
  function OldAt(d: seq<byte>, ts: seq<Type>, i: nat): nat
    requires i < |ts|
  {
    if Live(d, ts, i) then Target(d, ts, i) else |d|
  }

  function OldLen(d: seq<byte>, ts: seq<Type>, i: nat): nat
    requires i < |ts| && WellFormed(ts[i])
  {
    if Live(d, ts, i) && PackedSizeAt(ts[i], d, Target(d, ts, i)).Some? then PackedSizeAt(ts[i], d, Target(d, ts, i)).value else 0
  }

  /** The heap bytes an assignment writes. An optional writes even an empty container. */
  function NewBytes(t: Type, v: Value): seq<byte>
    requires HasType(v, t)
  {
    if !IsVar(t) || v.Null? || IsEmptyContainer(t, v) then [] else HeapForm(t, v)
  }

  lemma OldIsClear(d: seq<byte>, ts: seq<Type>, vs: seq<Value>, k: nat, i: nat, added: nat, j: nat)
    requires Schema(ts) && Good(d, ts, vs, k) && i < k && j < k && NotOver(ts[i], vs[i])
    requires |d| - OldLen(d, ts, i) + added < U32_LIMIT
    ensures SlotPos(ts, k) <= OldAt(d, ts, i) && OldAt(d, ts, i) + OldLen(d, ts, i) <= |d|
    ensures j != i ==> Clear(d, ts, vs, j, OldAt(d, ts, i), OldLen(d, ts, i))
    ensures PatchFits(d, ts, i, OldAt(d, ts, i), added - OldLen(d, ts, i), j)
    ensures !Live(d, ts, i) ==> Settled(d, ts, OldAt(d, ts, i), added - OldLen(d, ts, i), j)
  {
    SchemaField(ts, i);
    hide Schema, Good, HeapForm, PackedSizeAt, Target, Clear, PatchFits, Settled, NotOver;
    GoodDeclares(d, ts, vs, k);
    if Live(d, ts, i) {
      LiveBounds(d, ts, vs, k, i);
      LiveMeasured(d, ts, vs, k, i);
      if j != i {
        RegionIsClear(d, ts, vs, k, i, j);
        ClearLess(d, ts, vs, j, Target(d, ts, i), |HeapForm(ts[i], vs[i])|, OldLen(d, ts, i));
      }
    } else {
      EndIsClear(d, ts, vs, k, added, j);
    }
    PatchStaysInRange(d, ts, vs, k, i, OldAt(d, ts, i), OldLen(d, ts, i), added, j);
  }

  lemma ClearLess(d: seq<byte>, ts: seq<Type>, vs: seq<Value>, j: nat, at: nat, oldLen: nat, less: nat)
    requires HaveTypes(vs, ts) && j < |ts| && Clear(d, ts, vs, j, at, oldLen) && less <= oldLen
    ensures Clear(d, ts, vs, j, at, less)
  {
    hide RegionEnd, Target, Live;
  }

  lemma GoodDeclares(d: seq<byte>, ts: seq<Type>, vs: seq<Value>, k: nat)
    requires Good(d, ts, vs, k)
    ensures Declares(d, ts, vs, k)
  {
  }

  // ---------------------------------------------------------------- each case is a splice

  lemma InlineSplices(d: seq<byte>, ts: seq<Type>, vs: seq<Value>, k: nat, i: nat, slot: seq<byte>)
    requires Good(d, ts, vs, k) && i < k && |slot| == FixedSize(ts[i])
    ensures SlotPos(ts, i) + |slot| <= |d|
    ensures Spliced(d, Write(d, SlotPos(ts, i), slot), ts, k, i, |d|, 0, [])
  {
    hide Good, Settled, Clear, Splice, RawSplice, Spliced, Write;
    GoodDeclares(d, ts, vs, k);
    WholeSplice(d);
    RawOfSplice(d, ts, k, i, |d|, 0, []);
    RawThenWrite(d, d, ts, k, i, |d|, 0, [], slot);
    forall j | 0 <= j < k && j != i ensures Settled(d, ts, |d|, 0, j) { EndIsClear(d, ts, vs, k, 0, j); }
    RawUnpatched(d, Write(d, SlotPos(ts, i), slot), ts, k, i, |d|, 0, [], 0);
  }

  lemma WholeSplice(d: seq<byte>)
    ensures Splice(d, |d|, 0, []) == d
  {
  }

  lemma AppendSplices(d: seq<byte>, ts: seq<Type>, vs: seq<Value>, k: nat, i: nat, bytes: seq<byte>)
    requires Schema(ts) && Good(d, ts, vs, k) && i < k && IsVar(ts[i]) && Readable(d, ts, i) && !Elided(d, ts, i)
    ensures SlotPos(ts, i) + 4 <= |d|
    ensures Spliced(d, AppendField(d, ts, i, bytes), ts, k, i, |d|, 0, bytes)
    ensures Read32(AppendField(d, ts, i, bytes), SlotPos(ts, i)) == |d| - SlotPos(ts, i)
  {
    SchemaField(ts, i);
    hide Schema, Good, Settled, Clear, Splice, RawSplice, Spliced, Write, U32, Read32, Readable;
    GoodDeclares(d, ts, vs, k);
    var slot := U32(|d| - SlotPos(ts, i));
    EndSplice(d, bytes);
    RawOfSplice(d, ts, k, i, |d|, 0, bytes);
    RawThenWrite(d, d + bytes, ts, k, i, |d|, 0, bytes, slot);
    OffsetGrows(ts, i, k);
    WriteRead32(d + bytes, SlotPos(ts, i), |d| - SlotPos(ts, i));
    forall j | 0 <= j < k && j != i ensures Settled(d, ts, |d|, |bytes|, j) { EndIsClear(d, ts, vs, k, |bytes|, j); }
    RawUnpatched(d, AppendField(d, ts, i, bytes), ts, k, i, |d|, 0, bytes, |bytes|);
  }

  lemma EndSplice(d: seq<byte>, bytes: seq<byte>)
    ensures Splice(d, |d|, 0, bytes) == d + bytes
  {
  }

  /** Taking a heap part away and marking the slot. */
  lemma ClearSplices(d: seq<byte>, ts: seq<Type>, vs: seq<Value>, k: nat, i: nat, marker: nat)
    requires Schema(ts) && Good(d, ts, vs, k) && i < k && NotOver(ts[i], vs[i]) && IsVar(ts[i]) && marker <= 1
    requires Readable(d, ts, i) && !Elided(d, ts, i)
    ensures Spliced(d, ClearField(d, ts, i, marker), ts, k, i, OldAt(d, ts, i), OldLen(d, ts, i), [])
    ensures Read32(ClearField(d, ts, i, marker), SlotPos(ts, i)) == marker
  {
    SchemaField(ts, i);
    hide Schema, Good, Settled, Clear, Splice, RawSplice, Spliced, Write, U32, Read32, Readable, PatchSiblings, PackedSizeAt, HeapForm;
    GoodDeclares(d, ts, vs, k);
    OffsetGrows(ts, i, k);
    if Read32(d, SlotPos(ts, i)) <= 1 {
      InlineSplices(d, ts, vs, k, i, U32(marker));
      WriteRead32(d, SlotPos(ts, i), marker);
    } else {
      ClearLive(d, ts, vs, k, i, marker);
    }
  }

  /** What is done to a field with a heap part. */
  lemma ClearFieldIs(d: seq<byte>, ts: seq<Type>, i: nat, marker: nat, w: seq<byte>, delta: int)
    requires i < |ts| && WellFormed(ts[i]) && Readable(d, ts, i) && !Elided(d, ts, i) && Live(d, ts, i)
    requires Target(d, ts, i) + OldLen(d, ts, i) <= |d| && SlotPos(ts, i) + 4 <= |Splice(d, Target(d, ts, i), OldLen(d, ts, i), [])|
    requires w == Write(Splice(d, Target(d, ts, i), OldLen(d, ts, i), []), SlotPos(ts, i), U32(marker))
    requires SlotsInside(w, ts, Read16(w, 0)) && delta == 0 - OldLen(d, ts, i)
    ensures ClearField(d, ts, i, marker) == PatchSiblings(w, ts, i, Target(d, ts, i), delta)
  {
    hide PatchSiblings, PackedSizeAt, U32, SlotsInside, Read16, Read32;
    assert Measured(d, ts, i);
    SpliceShrinks(d, Target(d, ts, i), OldLen(d, ts, i));
  }

  lemma ReplaceFieldIs(d: seq<byte>, ts: seq<Type>, i: nat, bytes: seq<byte>, e: seq<byte>)
    requires i < |ts| && WellFormed(ts[i]) && Readable(d, ts, i) && !Elided(d, ts, i) && Live(d, ts, i)
    requires Target(d, ts, i) + OldLen(d, ts, i) <= |d| && e == Splice(d, Target(d, ts, i), OldLen(d, ts, i), bytes)
    requires SlotsInside(e, ts, Read16(e, 0))
    ensures ReplaceField(d, ts, i, bytes) == PatchSiblings(e, ts, i, Target(d, ts, i), |bytes| - OldLen(d, ts, i))
  {
    hide PatchSiblings, PackedSizeAt, SlotsInside, Read16, Read32, Splice;
    assert Measured(d, ts, i);
  }

  lemma ClearLive(d: seq<byte>, ts: seq<Type>, vs: seq<Value>, k: nat, i: nat, marker: nat)
    requires Schema(ts) && Good(d, ts, vs, k) && i < k && NotOver(ts[i], vs[i]) && Live(d, ts, i) && marker <= 1
    requires Readable(d, ts, i) && !Elided(d, ts, i)
    ensures Spliced(d, ClearField(d, ts, i, marker), ts, k, i, OldAt(d, ts, i), OldLen(d, ts, i), [])
    ensures Read32(ClearField(d, ts, i, marker), SlotPos(ts, i)) == marker
  {
    SchemaField(ts, i);
    hide *;
    LiveIs(d, ts, i);
    OldInside(d, ts, vs, k, i);
    GoodShort(d, ts, vs, k);
    var w := ClearRaw(d, ts, k, i, Target(d, ts, i), OldLen(d, ts, i), marker);
    var none: seq<byte>, delta := [], |w| - |d|;
    PatchRest(d, w, ts, vs, k, i, none);
    ClearFieldIs(d, ts, i, marker, w, delta);
    SlotRead(w, PatchSiblings(w, ts, i, Target(d, ts, i), delta), ts, i);
  }

  /** Cutting the heap part out and writing the marker. */
  lemma ClearRaw(d: seq<byte>, ts: seq<Type>, k: nat, i: nat, at: nat, size: nat, marker: nat) returns (w: seq<byte>)
    requires i < k <= |ts| && SlotPos(ts, k) <= at && at + size <= |d| && FixedSize(ts[i]) == 4 && marker <= 1
    ensures |Splice(d, at, size, [])| == |d| - size && SlotPos(ts, i) + 4 <= |d| - size
    ensures w == Write(Splice(d, at, size, []), SlotPos(ts, i), U32(marker))
    ensures RawSplice(d, w, ts, k, i, at, size, []) && Read32(w, SlotPos(ts, i)) == marker
  {
    hide At, FixedSize, RawSplice, Splice, Write, U32, Read32, SlotPos;
    var e := Splice(d, at, size, []);
    RawOfSplice(d, ts, k, i, at, size, []);
    SpliceShrinks(d, at, size);
    RawThenWrite(d, e, ts, k, i, at, size, [], U32(marker));
    w := Write(e, SlotPos(ts, i), U32(marker));
    WriteRead32(e, SlotPos(ts, i), marker);
  }

  lemma OldInside(d: seq<byte>, ts: seq<Type>, vs: seq<Value>, k: nat, i: nat)
    requires Schema(ts) && Good(d, ts, vs, k) && i < k && NotOver(ts[i], vs[i]) && Live(d, ts, i)
    ensures WellFormed(ts[i]) && SlotPos(ts, k) <= Target(d, ts, i) && Target(d, ts, i) + OldLen(d, ts, i) <= |d|
  {
    SchemaField(ts, i);
    hide *;
    LiveBounds(d, ts, vs, k, i);
    LiveMeasured(d, ts, vs, k, i);
  }

  lemma LiveIs(d: seq<byte>, ts: seq<Type>, i: nat)
    requires i < |ts| && Live(d, ts, i)
    ensures IsVar(ts[i]) && FixedSize(ts[i]) == 4 && OldAt(d, ts, i) == Target(d, ts, i)
    ensures Target(d, ts, i) == SlotPos(ts, i) + Read32(d, SlotPos(ts, i))
  {
    hide Read32;
  }

  lemma GoodShort(d: seq<byte>, ts: seq<Type>, vs: seq<Value>, k: nat)
    requires Good(d, ts, vs, k)
    ensures k <= |ts| && SlotPos(ts, k) <= |d| < U32_LIMIT && Read16(d, 0) == Offset(ts, k)
  {
    hide Read16;
  }

  lemma SpliceShrinks(d: seq<byte>, at: nat, size: nat)
    requires at + size <= |d|
    ensures |Splice(d, at, size, [])| == |d| - size
  {
  }

  /** The raw splice of a field's old heap part, once the siblings are patched. */
  lemma PatchRest(d: seq<byte>, e: seq<byte>, ts: seq<Type>, vs: seq<Value>, k: nat, i: nat, bytes: seq<byte>)
    requires Schema(ts) && Good(d, ts, vs, k) && i < k && NotOver(ts[i], vs[i]) && |d| - OldLen(d, ts, i) + |bytes| < U32_LIMIT
    requires RawSplice(d, e, ts, k, i, OldAt(d, ts, i), OldLen(d, ts, i), bytes)
    ensures SlotsInside(e, ts, Read16(e, 0)) && SlotPos(ts, i) + FixedSize(ts[i]) <= |e|
    ensures var r := PatchSiblings(e, ts, i, OldAt(d, ts, i), |bytes| - OldLen(d, ts, i));
            Spliced(d, r, ts, k, i, OldAt(d, ts, i), OldLen(d, ts, i), bytes) && SlotSame(e, r, ts, i)
  {
    SchemaField(ts, i);
    hide *;
    GoodShort(d, ts, vs, k);
    var delta := |bytes| - OldLen(d, ts, i);
    AllPatchesFit(d, ts, vs, k, i, |bytes|, delta);
    SlotBefore(e, ts, i, k);
    RawLong(d, e, ts, k, i, OldAt(d, ts, i), OldLen(d, ts, i), bytes);
    RawPatched(d, e, ts, k, i, OldAt(d, ts, i), OldLen(d, ts, i), bytes, delta);
  }

  lemma AllPatchesFit(d: seq<byte>, ts: seq<Type>, vs: seq<Value>, k: nat, i: nat, added: nat, delta: int)
    requires Schema(ts) && Good(d, ts, vs, k) && i < k && NotOver(ts[i], vs[i]) && |d| - OldLen(d, ts, i) + added < U32_LIMIT
    requires delta == added - OldLen(d, ts, i)
    ensures forall j :: 0 <= j < k ==> PatchFits(d, ts, i, OldAt(d, ts, i), delta, j)
  {
    SchemaField(ts, i);
    hide *;
    GoodShort(d, ts, vs, k);
    forall j | 0 <= j < k ensures PatchFits(d, ts, i, OldAt(d, ts, i), delta, j) {
      OldIsClear(d, ts, vs, k, i, added, j);
    }
  }

  lemma SlotBefore(e: seq<byte>, ts: seq<Type>, i: nat, k: nat)
    requires i < k <= |ts|
    ensures SlotPos(ts, i) + FixedSize(ts[i]) <= SlotPos(ts, k)
    ensures SlotPos(ts, k) <= |e| ==> SlotSame(e, e, ts, i)
  {
    OffsetGrows(ts, i, k);
  }

  lemma RawLong(d: seq<byte>, e: seq<byte>, ts: seq<Type>, k: nat, i: nat, at: nat, oldLen: nat, bytes: seq<byte>)
    requires RawSplice(d, e, ts, k, i, at, oldLen, bytes)
    ensures k <= |ts| && SlotPos(ts, k) <= |e|
  {
  }

  /** Replacing a heap part, or appending one. */
  lemma ReplaceSplices(d: seq<byte>, ts: seq<Type>, vs: seq<Value>, k: nat, i: nat, bytes: seq<byte>)
    requires Schema(ts) && Good(d, ts, vs, k) && i < k && NotOver(ts[i], vs[i]) && IsVar(ts[i]) && Readable(d, ts, i) && !Elided(d, ts, i)
    requires |d| - OldLen(d, ts, i) + |bytes| < U32_LIMIT
    ensures Spliced(d, ReplaceField(d, ts, i, bytes), ts, k, i, OldAt(d, ts, i), OldLen(d, ts, i), bytes)
    ensures SlotPos(ts, i) + Read32(ReplaceField(d, ts, i, bytes), SlotPos(ts, i)) == OldAt(d, ts, i)
  {
    SchemaField(ts, i);
    hide Schema, Good, RawSplice, Spliced, Read32, PatchSiblings, OldLen, HeapForm, Read16, AppendField, SlotsInside, NotOver, Readable,
         SlotSame, Splice, ReplaceField;
    if Live(d, ts, i) {
      ReplaceLive(d, ts, vs, k, i, bytes);
    } else {
      DeadIs(d, ts, i, bytes);
      AppendSplices(d, ts, vs, k, i, bytes);
    }
  }

  lemma DeadIs(d: seq<byte>, ts: seq<Type>, i: nat, bytes: seq<byte>)
    requires i < |ts| && WellFormed(ts[i]) && IsVar(ts[i]) && Readable(d, ts, i) && !Elided(d, ts, i) && !Live(d, ts, i)
    ensures OldAt(d, ts, i) == |d| && OldLen(d, ts, i) == 0
    ensures ReplaceField(d, ts, i, bytes) == AppendField(d, ts, i, bytes)
  {
    hide PackedSizeAt, Readable, Read32, AppendField;
  }

  lemma ReplaceLive(d: seq<byte>, ts: seq<Type>, vs: seq<Value>, k: nat, i: nat, bytes: seq<byte>)
    requires Schema(ts) && Good(d, ts, vs, k) && i < k && NotOver(ts[i], vs[i]) && Live(d, ts, i) && Readable(d, ts, i) && !Elided(d, ts, i)
    requires |d| - OldLen(d, ts, i) + |bytes| < U32_LIMIT
    ensures Spliced(d, ReplaceField(d, ts, i, bytes), ts, k, i, OldAt(d, ts, i), OldLen(d, ts, i), bytes)
    ensures SlotPos(ts, i) + Read32(ReplaceField(d, ts, i, bytes), SlotPos(ts, i)) == OldAt(d, ts, i)
  {
    SchemaField(ts, i);
    hide *;
    LiveIs(d, ts, i);
    OldInside(d, ts, vs, k, i);
    GoodShort(d, ts, vs, k);
    var at, size := Target(d, ts, i), OldLen(d, ts, i);
    var e := Splice(d, at, size, bytes);
    RawOfSplice(d, ts, k, i, at, size, bytes);
    SlotRead(d, e, ts, i);
    PatchRest(d, e, ts, vs, k, i, bytes);
    ReplaceFieldIs(d, ts, i, bytes, e);
    SlotRead(e, PatchSiblings(e, ts, i, at, |bytes| - size), ts, i);
  }

  // ---------------------------------------------------------------- one assignment

  /** The canonical assignment is a splice of the field's old heap part by its new one. */
  lemma CanonicalSplices(d: seq<byte>, ts: seq<Type>, vs: seq<Value>, k: nat, i: nat, v: Value)
    requires Schema(ts) && Good(d, ts, vs, k) && i < k && NotOver(ts[i], vs[i]) && HasType(v, ts[i])
    requires |d| - OldLen(d, ts, i) + |NewBytes(ts[i], v)| < U32_LIMIT
    ensures Readable(d, ts, i) && !Elided(d, ts, i)
    ensures var e := PutCanonical(d, ts, i, v);
            && Spliced(d, e, ts, k, i, OldAt(d, ts, i), OldLen(d, ts, i), NewBytes(ts[i], v))
            && FieldSet(e, ts[i], v, SlotPos(ts, i), OldAt(d, ts, i), NewBytes(ts[i], v))
  {
    GoodReadable(d, ts, vs, k, i);
    SchemaField(ts, i);
    hide Schema, Good, Readable, Elided, Spliced, Read32, HeapForm, ReplaceField, ClearField, Write, SlotPos, OldAt, OldLen;
    if !IsVar(ts[i]) {
      InlineIsOld(d, ts, i);
      InlineSplices(d, ts, vs, k, i, Pack(ts[i], v));
      WriteAt(d, SlotPos(ts, i), Pack(ts[i], v));
    } else if v.Null? {
      ClearSplices(d, ts, vs, k, i, 1);
    } else if IsEmptyContainer(ts[i], v) {
      ClearSplices(d, ts, vs, k, i, 0);
    } else {
      var bytes := HeapForm(ts[i], v);
      ReplaceSplices(d, ts, vs, k, i, bytes);
      GoodDeclares(d, ts, vs, k);
      OldFits(d, ts, vs, k, i);
    }
  }

  lemma InlineIsOld(d: seq<byte>, ts: seq<Type>, i: nat)
    requires i < |ts| && WellFormed(ts[i]) && !IsVar(ts[i])
    ensures OldAt(d, ts, i) == |d| && OldLen(d, ts, i) == 0
  {
  }

  lemma OldFits(d: seq<byte>, ts: seq<Type>, vs: seq<Value>, k: nat, i: nat)
    requires Schema(ts) && Good(d, ts, vs, k) && i < k && NotOver(ts[i], vs[i])
    ensures OldLen(d, ts, i) <= |d|
  {
    hide HeapForm, PackedSizeAt;
    if Live(d, ts, i) {
      LiveBounds(d, ts, vs, k, i);
      LiveMeasured(d, ts, vs, k, i);
    }
  }

  lemma CanonicalSize(d: seq<byte>, ts: seq<Type>, vs: seq<Value>, k: nat, i: nat, v: Value)
    requires Schema(ts) && Good(d, ts, vs, k) && i < k && NotOver(ts[i], vs[i]) && HasType(v, ts[i]) && Readable(d, ts, i) && !Elided(d, ts, i)
    ensures |PutCanonical(d, ts, i, v)| == |d| - OldLen(d, ts, i) + |NewBytes(ts[i], v)|
  {
    SchemaField(ts, i);
    hide Schema, Good, Read32, Read16, HeapForm, PatchFields, Write, PackedSizeAt, SlotsInside, Measured;
    GoodDeclares(d, ts, vs, k);
    if Live(d, ts, i) { LiveMeasured(d, ts, vs, k, i); }
  }

  /** A canonical assignment to a present field keeps the buffer good for the updated record. */
  lemma CanonicalKeepsGood(d: seq<byte>, ts: seq<Type>, vs: seq<Value>, k: nat, i: nat, v: Value)
    requires Schema(ts) && Good(d, ts, vs, k) && i < k && NotOver(ts[i], vs[i]) && HasType(v, ts[i])
    requires Readable(d, ts, i) && !Elided(d, ts, i) && |PutCanonical(d, ts, i, v)| < U32_LIMIT
    ensures Good(PutCanonical(d, ts, i, v), ts, vs[i := v], k)
  {
    CanonicalSize(d, ts, vs, k, i, v);
    CanonicalSplices(d, ts, vs, k, i, v);
    SchemaField(ts, i);
    hide Schema, Good, Readable, Elided, PutCanonical, FieldSet, Clear, OldAt, OldLen, NewBytes, SlotsMoved;
    forall j | 0 <= j < k && j != i ensures Clear(d, ts, vs, j, OldAt(d, ts, i), OldLen(d, ts, i)) {
      OldIsClear(d, ts, vs, k, i, |NewBytes(ts[i], v)|, j);
    }
    GoodAfter(d, PutCanonical(d, ts, i, v), ts, vs, k, i, v, OldAt(d, ts, i), OldLen(d, ts, i), NewBytes(ts[i], v));
  }

  /** The fast assignment is a splice too: of nothing, of bytes that fit over old ones, or at the end. */
  lemma FastSplices(d: seq<byte>, ts: seq<Type>, vs: seq<Value>, k: nat, i: nat, v: Value)
    returns (at: nat, oldLen: nat, bytes: seq<byte>)
    requires Schema(ts) && Good(d, ts, vs, k) && i < k && NotOver(ts[i], vs[i]) && HasType(v, ts[i])
    requires Readable(d, ts, i) && !Elided(d, ts, i) && |PutFast(d, ts, i, v)| < U32_LIMIT
    ensures var e := PutFast(d, ts, i, v);
            Spliced(d, e, ts, k, i, at, oldLen, bytes) && FieldSet(e, ts[i], v, SlotPos(ts, i), at, bytes)
    ensures forall j :: 0 <= j < k && j != i ==> Clear(d, ts, vs, j, at, oldLen)
  {
    SchemaField(ts, i);
    hide Schema, Good, Readable, Elided, Spliced, Read32, HeapForm, AppendField, Write, SlotPos, OldAt, Clear, PackedSizeAt, U32, NotOver,
         Pack, FixedSize, IsVar, WellFormed, HasType;
    GoodDeclares(d, ts, vs, k);
    at, oldLen, bytes := |d|, 0, [];
    forall j | 0 <= j < k && j != i ensures Clear(d, ts, vs, j, |d|, 0) { EndIsClear(d, ts, vs, k, 0, j); }
    if !IsVar(ts[i]) {
      InlineSplices(d, ts, vs, k, i, Pack(ts[i], v));
      WriteAt(d, SlotPos(ts, i), Pack(ts[i], v));
    } else if v.Null? || IsEmptyContainer(ts[i], v) {
      var marker := if v.Null? then 1 else 0;
      InlineSplices(d, ts, vs, k, i, U32(marker));
      WriteRead32(d, SlotPos(ts, i), marker);
    } else {
      bytes := HeapForm(ts[i], v);
      if Live(d, ts, i) && |bytes| <= PackedSizeAt(ts[i], d, Target(d, ts, i)).value {
        at, oldLen := OverwriteSplices(d, ts, vs, k, i, bytes);
      } else {
        AppendSplices(d, ts, vs, k, i, bytes);
        AppendSize(d, ts, i, bytes);
      }
    }
  }

  lemma AppendSize(d: seq<byte>, ts: seq<Type>, i: nat, bytes: seq<byte>)
    requires i < |ts| && WellFormed(ts[i]) && Readable(d, ts, i) && IsVar(ts[i]) && !Elided(d, ts, i)
    ensures |AppendField(d, ts, i, bytes)| == |d| + |bytes|
  {
    hide Readable, Write;
  }

  lemma OverwriteSplices(d: seq<byte>, ts: seq<Type>, vs: seq<Value>, k: nat, i: nat, bytes: seq<byte>)
    returns (at: nat, oldLen: nat)
    requires Schema(ts) && Good(d, ts, vs, k) && i < k && NotOver(ts[i], vs[i]) && Live(d, ts, i)
    requires |bytes| <= OldLen(d, ts, i)
    ensures at == Target(d, ts, i) && oldLen == |bytes| && at + oldLen <= |d|
    ensures Spliced(d, Write(d, at, bytes), ts, k, i, at, oldLen, bytes)
    ensures SlotPos(ts, i) + Read32(Write(d, at, bytes), SlotPos(ts, i)) == at
    ensures forall j :: 0 <= j < k && j != i ==> Clear(d, ts, vs, j, at, oldLen)
  {
    SchemaField(ts, i);
    hide Schema, Good, RawSplice, Spliced, Read32, HeapForm, PackedSizeAt, Settled, SlotSame;
    GoodDeclares(d, ts, vs, k);
    LiveBounds(d, ts, vs, k, i);
    LiveMeasured(d, ts, vs, k, i);
    at, oldLen := Target(d, ts, i), |bytes|;
    RawOfSplice(d, ts, k, i, at, oldLen, bytes);
    SlotRead(d, Write(d, at, bytes), ts, i);
    forall j | 0 <= j < k && j != i
      ensures Clear(d, ts, vs, j, at, oldLen) && Settled(d, ts, at, 0, j)
    {
      RegionIsClear(d, ts, vs, k, i, j);
      ClearLess(d, ts, vs, j, at, |HeapForm(ts[i], vs[i])|, oldLen);
      NothingSettles(d, ts, at, j);
    }
    RawUnpatched(d, Write(d, at, bytes), ts, k, i, at, oldLen, bytes, 0);
  }

  lemma NothingSettles(d: seq<byte>, ts: seq<Type>, at: nat, j: nat)
    requires j < |ts|
    ensures Settled(d, ts, at, 0, j)
  {
  }

  lemma FastKeepsGood(d: seq<byte>, ts: seq<Type>, vs: seq<Value>, k: nat, i: nat, v: Value)
    requires Schema(ts) && Good(d, ts, vs, k) && i < k && NotOver(ts[i], vs[i]) && HasType(v, ts[i])
    requires Readable(d, ts, i) && !Elided(d, ts, i) && |PutFast(d, ts, i, v)| < U32_LIMIT
    ensures Good(PutFast(d, ts, i, v), ts, vs[i := v], k)
  {
    var at, oldLen, bytes := FastSplices(d, ts, vs, k, i, v);
    SchemaField(ts, i);
    hide Schema, Good, Readable, Elided, PutFast, FieldSet, Clear, NewBytes, SlotsMoved;
    GoodAfter(d, PutFast(d, ts, i, v), ts, vs, k, i, v, at, oldLen, bytes);
  }
}
