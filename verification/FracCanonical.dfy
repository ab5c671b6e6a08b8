/** When a canonical assignment gives what packing the updated record gives (js/src/mutation.ts). */
module FracCanonical {
  import opened ByteStrings
  import opened Wrappers
  import opened FracTypes
  import opened FracView
  import opened FracSize
  import opened FracFields
  import opened FracMutate
  import opened FracSet
  import opened FracExpand
  import opened FracRun

  // ---------------------------------------------------------------- packed in order

  /** The first k fields are declared, and every one is where packing puts it. */
  predicate Laid(d: seq<byte>, ts: seq<Type>, vs: seq<Value>, k: nat) {
    && Declares(d, ts, vs, k)
    && |d| == SlotPos(ts, k) + HeapOffset(ts, vs, |ts|)
    && forall j :: 0 <= j < k ==> FieldAt(d, ts, vs, 2, SlotPos(ts, k), j)
  }

  lemma PackedIsLaid(ts: seq<Type>, vs: seq<Value>)
    requires Schema(ts) && HaveTypes(vs, ts) && |PackStruct(ts, vs)| < U32_LIMIT
    ensures Laid(PackStruct(ts, vs), ts, vs, Count(ts, vs))
  {
    hide WellFormed, PackStruct, FieldsAt, FieldAt, HeapOffset, Read16, HasType;
    var d, k := PackStruct(ts, vs), Count(ts, vs);
    StructAt(d, ts, vs, 0);
    FixedIsOffset(ts, vs);
    HeapOffsetTotal(ts, vs);
    forall j | 0 <= j < k ensures FieldAt(d, ts, vs, 2, SlotPos(ts, k), j) {
      FieldByIndex(d, ts, vs, 2, 2 + Fixed(ts, vs), j);
    }
    forall j | k <= j < |ts| ensures ts[j].Optional? && vs[j].Null? { CountIs(ts, vs, j); }
  }

  lemma LaidIsPacked(d: seq<byte>, ts: seq<Type>, vs: seq<Value>, k: nat)
    requires Laid(d, ts, vs, k) && k == Count(ts, vs)
    ensures d == PackStruct(ts, vs)
  {
    hide FieldAt, HeapOffset, Read16, U16, Slots, Heaps, Offset, HasType;
    FixedIsOffset(ts, vs);
    HeapOffsetTotal(ts, vs);
    var f := Fixed(ts, vs);
    FieldsFromIndex(d, ts, vs, 2, 2 + f);
    ReadIs16(d, 0);
    AtJoin(d, 0, U16(f), Slots(ts, vs, f));
    SlotsSize(ts, vs, f);
    AtJoin(d, 0, U16(f) + Slots(ts, vs, f), Heaps(ts, vs));
  }

  /** An optional field holds an empty container. */
  predicate HiddenEmpty(t: Type, v: Value) {
    t.Optional? && IsEmptyContainer(t.inner, v)
  }

  lemma HeapIsForm(t: Type, v: Value)
    requires HasType(v, t)
    ensures HasHeap(t, v) ==> Heap(t, v) == HeapForm(t, v) && |Heap(t, v)| >= 1
    ensures !HasHeap(t, v) ==> Heap(t, v) == []
  {
    if HasHeap(t, v) { HeapFormNotEmpty(t, v); }
  }

  /** A field where packing puts it: its slot, and where its heap part lies. */
  lemma LaidField(d: seq<byte>, ts: seq<Type>, vs: seq<Value>, k: nat, j: nat)
    requires Laid(d, ts, vs, k) && j < k
    ensures FieldOk(d, ts, vs, SlotPos(ts, k), j) && (Live(d, ts, j) <==> HasHeap(ts[j], vs[j]))
    ensures Live(d, ts, j) ==> Target(d, ts, j) == SlotPos(ts, k) + HeapOffset(ts, vs, j)
    ensures Live(d, ts, j) ==> RegionEnd(d, ts, vs, j) == Target(d, ts, j) + |Heap(ts[j], vs[j])|
    ensures SlotPos(ts, k) + HeapOffset(ts, vs, j) + |Heap(ts[j], vs[j])| <= |d|
  {
    hide Pack, Read32, U32, Heap, HeapForm, HeapOffset, Offset, Read16, Le, HasType;
    var t, v, slot, heap := ts[j], vs[j], SlotPos(ts, j), SlotPos(ts, k) + HeapOffset(ts, vs, j);
    assert FieldAt(d, ts, vs, 2, SlotPos(ts, k), j);
    OffsetGrows(ts, j, k);
    HeapIsForm(t, v);
    HeapOffsetGrows(ts, vs, j, |ts|);
    if IsVar(t) {
      if v.Null? {
        Read32At(d, slot, 1);
      } else if IsEmptyContainer(Payload(t), v) {
        Read32At(d, slot, 0);
      } else {
        Read32At(d, slot, heap - slot);
      }
    }
  }

  lemma LaidIsGood(d: seq<byte>, ts: seq<Type>, vs: seq<Value>, k: nat)
    requires Laid(d, ts, vs, k)
    ensures Good(d, ts, vs, k)
  {
    hide FieldAt, FieldOk, HeapOffset, Heap, Live, HasHeap, Read16, Target, RegionEnd, HasType, HiddenEmpty;
    forall j | 0 <= j < k ensures FieldOk(d, ts, vs, SlotPos(ts, k), j) { LaidField(d, ts, vs, k, j); }
    forall j, l | 0 <= j < l < k ensures Apart(d, ts, vs, j, l) {
      LaidField(d, ts, vs, k, j);
      LaidField(d, ts, vs, k, l);
      HeapOffsetGrows(ts, vs, j, l);
    }
  }

  /** A freshly packed record is a good buffer. */
  lemma PackedIsGood(ts: seq<Type>, vs: seq<Value>)
    requires Schema(ts) && HaveTypes(vs, ts) && |PackStruct(ts, vs)| < U32_LIMIT
    ensures Good(PackStruct(ts, vs), ts, vs, Count(ts, vs))
  {
    hide Laid, Good, Schema;
    PackedIsLaid(ts, vs);
    LaidIsGood(PackStruct(ts, vs), ts, vs, Count(ts, vs));
  }

  /** Repacking what the view shows: dead bytes are gone and the fields are in order again. */
  function Compacted(d: seq<byte>, ts: seq<Type>): Result<seq<byte>>
    requires WellFormed(Struct(ts))
  {
    match View(Struct(ts), d, 0)
    case Ok(v) => if HasType(v, Struct(ts)) then Ok(Pack(Struct(ts), v)) else Failure
    case Failure => Failure
  }

  lemma CompactedIsPacked(d: seq<byte>, ts: seq<Type>, vs: seq<Value>, k: nat)
    requires Schema(ts) && AllPlain(ts) && Good(d, ts, vs, k)
    ensures WellFormed(Struct(ts)) && HaveTypes(vs, ts)
    ensures Views(Compacted(d, ts), PackStruct(ts, vs), AllShown(d, ts, vs, 0))
  {
    hide Schema, Good, View, AllShown, PackStruct, HaveTypes, WellFormed;
    GoodViews(d, ts, vs, k);
  }

  // ---------------------------------------------------------------- an assignment in order

  lemma {:induction false} HeapOffsetUpdate(ts: seq<Type>, vs: seq<Value>, i: nat, v: Value, j: nat)
    requires HaveTypes(vs, ts) && i < |ts| && HasType(v, ts[i]) && j <= |ts|
    ensures HaveTypes(vs[i := v], ts)
    ensures HeapOffset(ts, vs[i := v], j) ==
            HeapOffset(ts, vs, j) + if j > i then |Heap(ts[i], v)| - |Heap(ts[i], vs[i])| else 0
    decreases j
  {
    hide Heap, HeapOffset, HasType;
    HeapOffsetZero(ts, vs);
    HeapOffsetZero(ts, vs[i := v]);
    if j > 0 {
      HeapOffsetUpdate(ts, vs, i, v, j - 1);
      HeapOffsetNext(ts, vs, j - 1);
      HeapOffsetNext(ts, vs[i := v], j - 1);
    }
  }

  lemma HeapOffsetZero(ts: seq<Type>, vs: seq<Value>)
    requires HaveTypes(vs, ts)
    ensures HeapOffset(ts, vs, 0) == 0
  {
  }

  /** The slot packing gives a field whose heap part starts at `heap`. */
  predicate SlotFor(e: seq<byte>, t: Type, v: Value, slot: nat, heap: nat)
    requires HasType(v, t)
  {
    At(e, slot, Slot(t, v, heap - slot))
  }

  /** The number in the slot of a variable-size field. */
  function SlotCode(t: Type, v: Value, dist: int): int {
    if v.Null? then 1 else if IsEmptyContainer(Payload(t), v) then 0 else dist
  }

  lemma SlotIsCode(t: Type, v: Value, dist: int)
    requires HasType(v, t) && IsVar(t)
    ensures Slot(t, v, dist) == U32(SlotCode(t, v, dist))
    ensures HasHeap(t, v) <==> !v.Null? && !IsEmptyContainer(Payload(t), v)
  {
    hide U32;
  }

  lemma CodeAfter(d: seq<byte>, e: seq<byte>, slot: nat, t: Type, v: Value, heap: nat, heap': nat, at: nat, delta: int)
    requires At(d, slot, U32(SlotCode(t, v, heap - slot))) && slot + 4 <= |e| && slot + 4 <= heap < U32_LIMIT
    requires Read32(e, slot) == Patched(slot, Read32(d, slot), at, delta)
    requires !v.Null? && !IsEmptyContainer(Payload(t), v) ==> heap' == Moved(heap, at, delta)
    ensures At(e, slot, U32(SlotCode(t, v, heap' - slot)))
  {
    hide Read32, U32, IsEmptyContainer, At;
    Read32At(d, slot, SlotCode(t, v, heap - slot));
    ReadIs32(e, slot);
  }

  lemma VarSlotAfter(d: seq<byte>, e: seq<byte>, t: Type, v: Value, slot: nat, heap: nat, heap': nat, at: nat, delta: int)
    requires HasType(v, t) && IsVar(t) && SlotFor(d, t, v, slot, heap) && slot + 4 <= |e| && slot + 4 <= heap < U32_LIMIT
    requires Read32(e, slot) == Patched(slot, Read32(d, slot), at, delta)
    requires HasHeap(t, v) ==> heap' == Moved(heap, at, delta)
    ensures SlotFor(e, t, v, slot, heap')
  {
    hide Read32, U32, HasType, Slot, IsEmptyContainer, HasHeap, SlotCode, Moved, Patched, At;
    SlotIsCode(t, v, heap - slot);
    SlotIsCode(t, v, heap' - slot);
    CodeAfter(d, e, slot, t, v, heap, heap', at, delta);
  }

  lemma ScalarSlotAfter(d: seq<byte>, e: seq<byte>, t: Type, v: Value, slot: nat, heap: nat, heap': nat)
    requires HasType(v, t) && !IsVar(t) && SlotFor(d, t, v, slot, heap)
    requires slot + FixedSize(t) <= |d| && slot + FixedSize(t) <= |e| && e[slot..slot + FixedSize(t)] == d[slot..slot + FixedSize(t)]
    ensures SlotFor(e, t, v, slot, heap')
  {
  }

  lemma SlotMovedParts(d: seq<byte>, e: seq<byte>, ts: seq<Type>, j: nat, at: nat, delta: int)
    requires j < |ts| && SlotMoved(d, e, ts, j, at, delta)
    ensures IsVar(ts[j]) ==> FixedSize(ts[j]) == 4 && Read32(e, SlotPos(ts, j)) == Patched(SlotPos(ts, j), Read32(d, SlotPos(ts, j)), at, delta)
    ensures !IsVar(ts[j]) ==>
              var slot, end := SlotPos(ts, j), SlotPos(ts, j) + FixedSize(ts[j]);
              end <= |d| && end <= |e| && e[slot..end] == d[slot..end]
  {
    hide Read32, Offset, Patched;
  }

  /** A slot corrected by a splice is the one packing gives for where its heap part has gone. */
  lemma SlotAfter(d: seq<byte>, e: seq<byte>, ts: seq<Type>, vs: seq<Value>, j: nat, heap: nat, heap': nat, at: nat, delta: int)
    requires HaveTypes(vs, ts) && j < |ts| && SlotFor(d, ts[j], vs[j], SlotPos(ts, j), heap)
    requires SlotMoved(d, e, ts, j, at, delta) && SlotPos(ts, j) + FixedSize(ts[j]) <= |e|
    requires HasHeap(ts[j], vs[j]) ==> heap' == Moved(heap, at, delta)
    requires SlotPos(ts, j) + 4 <= heap < U32_LIMIT || !IsVar(ts[j])
    ensures SlotFor(e, ts[j], vs[j], SlotPos(ts, j), heap')
  {
    hide SlotMoved, SlotFor, SlotPos, FixedSize, Read32, Patched, Moved, HasHeap, HasType;
    SlotMovedParts(d, e, ts, j, at, delta);
    if IsVar(ts[j]) {
      VarSlotAfter(d, e, ts[j], vs[j], SlotPos(ts, j), heap, heap', at, delta);
    } else {
      ScalarSlotAfter(d, e, ts[j], vs[j], SlotPos(ts, j), heap, heap');
    }
  }

  /** What replacing the heap part of field i in place, in data packed in order, comes to. */
  predicate InPlace(d: seq<byte>, e: seq<byte>, ts: seq<Type>, vs: seq<Value>, k: nat, i: nat, v: Value)
  {
    && Laid(d, ts, vs, k) && i < k && HasType(v, ts[i]) && |e| < U32_LIMIT
    && Spliced(d, e, ts, k, i, SlotPos(ts, k) + HeapOffset(ts, vs, i), |Heap(ts[i], vs[i])|, Heap(ts[i], v))
    && SlotFor(e, ts[i], v, SlotPos(ts, i), SlotPos(ts, k) + HeapOffset(ts, vs, i))
  }

  /** The parts of it that field j depends on. */
  lemma InPlaceParts(d: seq<byte>, e: seq<byte>, ts: seq<Type>, vs: seq<Value>, k: nat, i: nat, v: Value, j: nat)
    returns (heap: nat, heap': nat, at: nat, delta: int)
    requires InPlace(d, e, ts, vs, k, i, v) && j < k && j != i
    ensures HaveTypes(vs[i := v], ts) && at == SlotPos(ts, k) + HeapOffset(ts, vs, i)
    ensures delta == |Heap(ts[i], v)| - |Heap(ts[i], vs[i])|
    ensures heap == SlotPos(ts, k) + HeapOffset(ts, vs, j) && heap' == SlotPos(ts, k) + HeapOffset(ts, vs[i := v], j)
    ensures heap' == heap + if j > i then delta else 0
    ensures HasHeap(ts[j], vs[j]) ==> heap' == Moved(heap, at, delta)
    ensures SlotMoved(d, e, ts, j, at, delta) && SlotPos(ts, j) + FixedSize(ts[j]) <= SlotPos(ts, k) <= heap <= |d| < U32_LIMIT
    ensures heap' + |Heap(ts[j], vs[j])| <= |e| && SlotPos(ts, k) <= |e|
    ensures SlotFor(d, ts[j], vs[j], SlotPos(ts, j), heap) && At(d, heap, Heap(ts[j], vs[j]))
    ensures heap + |Heap(ts[j], vs[j])| <= at || at + |Heap(ts[i], vs[i])| <= heap
  {
    hide Heap, HeapOffset, Offset, Slot, Read16, HasType, SlotMoved, Declares, At, HasHeap, SlotsMoved, Moved;
    LaidDeclares(d, ts, vs, k);
    HeapOffsetUpdate(ts, vs, i, v, j);
    at, delta := SlotPos(ts, k) + HeapOffset(ts, vs, i), |Heap(ts[i], v)| - |Heap(ts[i], vs[i])|;
    heap, heap' := SlotPos(ts, k) + HeapOffset(ts, vs, j), SlotPos(ts, k) + HeapOffset(ts, vs[i := v], j);
    assert FieldAt(d, ts, vs, 2, SlotPos(ts, k), j);
    LaidHeapMoves(d, ts, vs, k, i, j, delta);
    OffsetGrows(ts, j, k);
    OtherSlotMoved(d, e, ts, k, i, at, delta, j);
    HeapOffsetUpdate(ts, vs, i, v, |ts|);
    HeapOffsetGrows(ts, vs[i := v], j, |ts|);
  }

  /** Every field is where packing the updated record puts it. */
  lemma LaidFieldAfter(d: seq<byte>, e: seq<byte>, ts: seq<Type>, vs: seq<Value>, k: nat, i: nat, v: Value, j: nat)
    requires InPlace(d, e, ts, vs, k, i, v) && j < k && HaveTypes(vs[i := v], ts)
    ensures FieldAt(e, ts, vs[i := v], 2, SlotPos(ts, k), j)
  {
    hide Heap, HeapOffset, Offset, Slot, Read16, HasType, SlotMoved, Laid, At, HasHeap, SlotsMoved, Moved;
    LaidDeclares(d, ts, vs, k);
    if j != i {
      var heap, heap', at, delta := InPlaceParts(d, e, ts, vs, k, i, v, j);
      SlotAfter(d, e, ts, vs, j, heap, heap', at, delta);
      HeapIsForm(ts[j], vs[j]);
      if HasHeap(ts[j], vs[j]) {
        MovedBytes(d, e, SlotPos(ts, k), at, |Heap(ts[i], vs[i])|, Heap(ts[i], v), heap, Heap(ts[j], vs[j]));
      } else {
        AtNothing(e, heap', Heap(ts[j], vs[j]));
      }
    } else {
      HeapOffsetUpdate(ts, vs, i, v, j);
      AtHere(e, SlotPos(ts, k) + HeapOffset(ts, vs, i), Heap(ts[i], v));
    }
  }

  lemma AtHere(e: seq<byte>, at: nat, bytes: seq<byte>)
    requires at + |bytes| <= |e| && e[at..at + |bytes|] == bytes
    ensures At(e, at, bytes)
  {
  }

  lemma LaidDeclares(d: seq<byte>, ts: seq<Type>, vs: seq<Value>, k: nat)
    requires Laid(d, ts, vs, k)
    ensures HaveTypes(vs, ts) && k <= |ts| && SlotPos(ts, k) <= |d| < U32_LIMIT
  {
  }

  lemma OtherSlotMoved(d: seq<byte>, e: seq<byte>, ts: seq<Type>, k: nat, i: nat, at: nat, delta: int, j: nat)
    requires k <= |ts| && SlotsMoved(d, e, ts, k, i, at, delta) && j < k && j != i
    ensures SlotMoved(d, e, ts, j, at, delta)
  {
  }

  /** Heap parts before the replaced one stay, those behind it move. */
  lemma LaidHeapMoves(d: seq<byte>, ts: seq<Type>, vs: seq<Value>, k: nat, i: nat, j: nat, delta: int)
    requires Laid(d, ts, vs, k) && i < k && j < k && i != j
    ensures var heap, at, n := SlotPos(ts, k) + HeapOffset(ts, vs, j), SlotPos(ts, k) + HeapOffset(ts, vs, i), |Heap(ts[i], vs[i])|;
            && heap + |Heap(ts[j], vs[j])| <= |d| && at + n <= |d|
            && (if j < i then heap + |Heap(ts[j], vs[j])| <= at else at + n <= heap)
            && (HasHeap(ts[j], vs[j]) ==> Moved(heap, at, delta) == heap + if j > i then delta else 0)
  {
    hide Heap, HeapOffset, Offset, HasType, HasHeap, FieldAt, Declares;
    LaidDeclares(d, ts, vs, k);
    HeapIsForm(ts[j], vs[j]);
    HeapOffsetGrows(ts, vs, j, |ts|);
    HeapOffsetGrows(ts, vs, i, |ts|);
    if j < i { HeapOffsetGrows(ts, vs, j, i); } else { HeapOffsetGrows(ts, vs, i, j); }
  }

  /** Replacing a heap part in its place keeps the data packed in order. */
  lemma LaidAfter(d: seq<byte>, e: seq<byte>, ts: seq<Type>, vs: seq<Value>, k: nat, i: nat, v: Value)
    requires InPlace(d, e, ts, vs, k, i, v)
    ensures Laid(e, ts, vs[i := v], k)
  {
    hide FieldAt, Heap, HeapOffset, Offset, Declares, HasType, SlotFor, SlotsMoved;
    LaidDeclares(d, ts, vs, k);
    SetDeclares(d, e, ts, vs, k, i, v, SlotPos(ts, k) + HeapOffset(ts, vs, i), |Heap(ts[i], vs[i])|, Heap(ts[i], v));
    HeapOffsetUpdate(ts, vs, i, v, |ts|);
    var vs', heap := vs[i := v], SlotPos(ts, k);
    forall j | 0 <= j < k ensures FieldAt(e, ts, vs', 2, heap, j) {
      LaidFieldAfter(d, e, ts, vs, k, i, v, j);
    }
  }

  // ---------------------------------------------------------------- the canonical assignment of a present field

  /** The i-th field has no heap part, or nothing is on the heap behind it. */
  predicate RoomAtEnd(ts: seq<Type>, vs: seq<Value>, i: nat)
    requires |ts| == |vs| && i < |ts|
  {
    HasHeap(ts[i], vs[i]) || forall j :: i < j < |ts| ==> !HasHeap(ts[j], vs[j])
  }

  lemma {:induction false} NothingBehind(ts: seq<Type>, vs: seq<Value>, i: nat, j: nat)
    requires HaveTypes(vs, ts) && i <= j <= |ts| && forall l :: i <= l < |ts| ==> !HasHeap(ts[l], vs[l])
    ensures HeapOffset(ts, vs, i) == HeapOffset(ts, vs, j)
    decreases j
  {
    hide Heap, HeapOffset, HasHeap, HasType;
    if i < j {
      NothingBehind(ts, vs, i, j - 1);
      HeapOffsetNext(ts, vs, j - 1);
      HeapIsForm(ts[j - 1], vs[j - 1]);
    }
  }

  /** The heap part of a field is measured as what it is, or it has none. */
  predicate MeasuredRight(d: seq<byte>, ts: seq<Type>, vs: seq<Value>, i: nat)
    requires HaveTypes(vs, ts) && i < |ts| && WellFormed(ts[i])
  {
    HasHeap(ts[i], vs[i]) ==> PackedSizeAt(ts[i], d, Target(d, ts, i)) == Some(|Heap(ts[i], vs[i])|)
  }

  /** Where the old heap bytes of a field in order are. */
  lemma OldInOrder(d: seq<byte>, ts: seq<Type>, vs: seq<Value>, k: nat, i: nat)
    requires Laid(d, ts, vs, k) && i < k && WellFormed(ts[i])
    ensures MeasuredRight(d, ts, vs, i) ==> OldLen(d, ts, i) == |Heap(ts[i], vs[i])|
    ensures HasHeap(ts[i], vs[i]) ==> OldAt(d, ts, i) == SlotPos(ts, k) + HeapOffset(ts, vs, i)
    ensures !HasHeap(ts[i], vs[i]) ==> OldAt(d, ts, i) == |d| == SlotPos(ts, k) + HeapOffset(ts, vs, |ts|)
  {
    hide Heap, HeapForm, HeapOffset, Offset, HasType, FieldAt, FieldOk, PackedSizeAt, WellFormed, HasHeap;
    LaidField(d, ts, vs, k, i);
    HeapIsForm(ts[i], vs[i]);
  }

  /** Nothing spliced at the end is nothing spliced anywhere. */
  lemma NothingAnywhere(d: seq<byte>, e: seq<byte>, ts: seq<Type>, k: nat, i: nat, at: nat, none: seq<byte>)
    requires Spliced(d, e, ts, k, i, |d|, 0, none) && none == [] && SlotPos(ts, k) <= at <= |d|
    ensures Spliced(d, e, ts, k, i, at, 0, none)
  {
    hide Read16, Read32, SlotPos;
    forall j | 0 <= j < k && j != i ensures SlotMoved(d, e, ts, j, at, 0) {
      assert SlotMoved(d, e, ts, j, |d|, 0);
    }
    var heap := SlotPos(ts, k);
    assert e[heap..|d|] == d[heap..|d|];
    SliceSlice(d, heap, |d|, heap, at);
    SliceSlice(e, heap, |d|, heap, at);
    SliceSlice(d, heap, |d|, at, |d|);
    SliceSlice(e, heap, |d|, at, |d|);
  }

  /** A new value that leaves its heap bytes in their place. */
  predicate InOrder(ts: seq<Type>, vs: seq<Value>, i: nat, v: Value)
    requires |ts| == |vs| && i < |ts|
  {
    !HiddenEmpty(ts[i], v) && (HasHeap(ts[i], v) ==> RoomAtEnd(ts, vs, i))
  }

  lemma NewIsHeap(t: Type, v: Value)
    requires HasType(v, t) && !HiddenEmpty(t, v)
    ensures NewBytes(t, v) == Heap(t, v)
  {
    hide Pack;
  }

  /** The slot a field is left with is the one packing gives it. */
  lemma SetSlotIs(e: seq<byte>, t: Type, v: Value, slot: nat, at: nat, heap: nat, bytes: seq<byte>)
    requires HasType(v, t) && !HiddenEmpty(t, v) && FieldSet(e, t, v, slot, at, bytes) && slot + FixedSize(t) <= |e|
    requires HasHeap(t, v) ==> at == heap
    ensures SlotFor(e, t, v, slot, heap)
  {
    hide Read32, U32, Le, HeapForm;
    if IsVar(t) { ReadIs32(e, slot); }
  }

  lemma PutInOrder(d: seq<byte>, ts: seq<Type>, vs: seq<Value>, k: nat, i: nat, v: Value)
    requires Schema(ts) && Laid(d, ts, vs, k) && i < k && HasType(v, ts[i]) && NotOver(ts[i], vs[i])
    requires InOrder(ts, vs, i, v) && MeasuredRight(d, ts, vs, i)
    requires Readable(d, ts, i) && !Elided(d, ts, i) && |PutCanonical(d, ts, i, v)| < U32_LIMIT
    ensures Laid(PutCanonical(d, ts, i, v), ts, vs[i := v], k)
  {
    SchemaField(ts, i);
    hide *;
    LaidDeclares(d, ts, vs, k);
    var e := PutCanonical(d, ts, i, v);
    LaidIsGood(d, ts, vs, k);
    CanonicalSize(d, ts, vs, k, i, v);
    CanonicalSplices(d, ts, vs, k, i, v);
    InOrderNew(ts, vs, i, v);
    PutAtHome(d, e, ts, vs, k, i, v);
    LaidAfter(d, e, ts, vs, k, i, v);
  }

  lemma InOrderNew(ts: seq<Type>, vs: seq<Value>, i: nat, v: Value)
    requires HaveTypes(vs, ts) && i < |ts| && HasType(v, ts[i]) && InOrder(ts, vs, i, v)
    ensures NewBytes(ts[i], v) == Heap(ts[i], v)
  {
    hide RoomAtEnd, HasHeap, HasType, Heap, NewBytes;
    NewIsHeap(ts[i], v);
  }

  /** The splice happens where the heap part belongs. */
  lemma PutAtHome(d: seq<byte>, e: seq<byte>, ts: seq<Type>, vs: seq<Value>, k: nat, i: nat, v: Value)
    requires Laid(d, ts, vs, k) && i < k && WellFormed(ts[i]) && HasType(v, ts[i]) && InOrder(ts, vs, i, v) && |e| < U32_LIMIT
    requires MeasuredRight(d, ts, vs, i)
    requires Spliced(d, e, ts, k, i, OldAt(d, ts, i), OldLen(d, ts, i), Heap(ts[i], v))
    requires FieldSet(e, ts[i], v, SlotPos(ts, i), OldAt(d, ts, i), Heap(ts[i], v))
    ensures InPlace(d, e, ts, vs, k, i, v)
  {
    hide Laid, Heap, HeapOffset, Offset, HasType, Spliced, FieldSet, OldAt, OldLen, SlotFor, HasHeap, HiddenEmpty;
    LaidDeclares(d, ts, vs, k);
    OldInOrder(d, ts, vs, k, i);
    HeapIsForm(ts[i], v);
    HeapIsForm(ts[i], vs[i]);
    OffsetGrows(ts, i, k);
    SplicedLong(d, e, ts, k, i, OldAt(d, ts, i), OldLen(d, ts, i), Heap(ts[i], v));
    var home := SlotPos(ts, k) + HeapOffset(ts, vs, i);
    HeapOffsetGrows(ts, vs, i, |ts|);
    LaidEnd(d, ts, vs, k);
    if !HasHeap(ts[i], vs[i]) {
      if HasHeap(ts[i], v) {
        NothingBehind(ts, vs, i, |ts|);
      } else {
        NothingAnywhere(d, e, ts, k, i, home, Heap(ts[i], v));
      }
    }
    SetSlotIs(e, ts[i], v, SlotPos(ts, i), OldAt(d, ts, i), home, Heap(ts[i], v));
  }

  lemma LaidEnd(d: seq<byte>, ts: seq<Type>, vs: seq<Value>, k: nat)
    requires Laid(d, ts, vs, k)
    ensures HaveTypes(vs, ts) && k <= |ts| && |d| == SlotPos(ts, k) + HeapOffset(ts, vs, |ts|)
  {
  }

  lemma SplicedLong(d: seq<byte>, e: seq<byte>, ts: seq<Type>, k: nat, i: nat, at: nat, oldLen: nat, bytes: seq<byte>)
    requires Spliced(d, e, ts, k, i, at, oldLen, bytes)
    ensures k <= |ts| && SlotPos(ts, k) <= |e|
  {
  }

  // ---------------------------------------------------------------- a field that was left out

  lemma {:induction false} HeapEndsAt(ts: seq<Type>, vs: seq<Value>, k: nat, j: nat)
    requires HaveTypes(vs, ts) && k <= j <= |ts| && forall l :: k <= l < |ts| ==> ts[l].Optional? && vs[l].Null?
    ensures HeapOffset(ts, vs, j) == HeapOffset(ts, vs, k)
    decreases j
  {
    hide Heap, HeapOffset, HasType;
    if k < j {
      HeapEndsAt(ts, vs, k, j - 1);
      HeapOffsetNext(ts, vs, j - 1);
      HeapIsForm(ts[j - 1], vs[j - 1]);
    }
  }

  /** Expanding moves a field and its heap part as packing with more slots would. */
  lemma ExpandedLaidField(d: seq<byte>, e: seq<byte>, ts: seq<Type>, vs: seq<Value>, k: nat, i: nat, j: nat)
    requires Laid(d, ts, vs, k) && Expanded(d, e, ts, k, i) && j < k && |e| < U32_LIMIT
    ensures FieldAt(e, ts, vs, 2, SlotPos(ts, i + 1), j)
  {
    hide Heap, HeapOffset, Offset, Slot, Read16, HasType, SlotMoved, Declares, At, HasHeap, SlotsNull, HiddenEmpty;
    LaidEnd(d, ts, vs, k);
    var at, delta := SlotPos(ts, k), SlotPos(ts, i + 1) - SlotPos(ts, k);
    assert FieldAt(d, ts, vs, 2, SlotPos(ts, k), j) && SlotMoved(d, e, ts, j, at, delta);
    var heap := SlotPos(ts, k) + HeapOffset(ts, vs, j);
    OffsetGrows(ts, j, k);
    HeapOffsetGrows(ts, vs, j, |ts|);
    SlotAfter(d, e, ts, vs, j, heap, heap + delta, at, delta);
    ShiftedBytes(d, e, SlotPos(ts, k), SlotPos(ts, i + 1), heap, Heap(ts[j], vs[j]));
  }

  lemma ExpandedLaidNull(d: seq<byte>, e: seq<byte>, ts: seq<Type>, vs: seq<Value>, k: nat, i: nat, j: nat)
    requires Laid(d, ts, vs, k) && Expanded(d, e, ts, k, i) && k <= j <= i
    ensures FieldAt(e, ts, vs, 2, SlotPos(ts, i + 1), j)
  {
    hide Pack, HeapOffset, Offset, Read16, HasType, At, U32;
    HeapEndsAt(ts, vs, k, j);
    HeapEndsAt(ts, vs, k, |ts|);
    HeapIsForm(ts[j], vs[j]);
    assert At(e, SlotPos(ts, j), U32(1));
    AtNothing(e, SlotPos(ts, i + 1) + HeapOffset(ts, vs, j), Heap(ts[j], vs[j]));
  }

  lemma ExpandedIsLaid(d: seq<byte>, e: seq<byte>, ts: seq<Type>, vs: seq<Value>, k: nat, i: nat)
    requires Laid(d, ts, vs, k) && Expanded(d, e, ts, k, i) && |e| < U32_LIMIT
    ensures Laid(e, ts, vs, i + 1)
  {
    hide FieldAt, HeapOffset, Offset, HasType, SlotsMoved, SlotsNull, Read16, HiddenEmpty;
    var heap := SlotPos(ts, i + 1);
    forall j | 0 <= j < i + 1 ensures FieldAt(e, ts, vs, 2, heap, j) {
      if j < k { ExpandedLaidField(d, e, ts, vs, k, i, j); } else { ExpandedLaidNull(d, e, ts, vs, k, i, j); }
    }
  }

  /** The buffer an assignment works on is still packed in order. */
  lemma PreparedIsLaid(d: seq<byte>, ts: seq<Type>, vs: seq<Value>, k: nat, i: nat)
    requires Schema(ts) && Laid(d, ts, vs, k) && i < |ts| && CanSet(d, ts, i)
    requires |Prepared(d, ts, i)| < U32_LIMIT
    ensures Elided(d, ts, i) <==> i >= k
    ensures Laid(Prepared(d, ts, i), ts, vs, if i < k then k else i + 1)
  {
    SchemaField(ts, i);
    hide Schema, Laid, Good, Expand, Expanded, Elided, Readable, SlotsInside, WellFormed;
    LaidIsGood(d, ts, vs, k);
    GoodDeclared(d, ts, vs, k, i);
    if i >= k {
      PreparedSize(d, ts, vs, k, i);
      ExpandIs(d, ts, vs, k, i);
      ExpandedIsLaid(d, Expand(d, ts, i), ts, vs, k, i);
    }
  }

  // ---------------------------------------------------------------- when it is a repack

  /** The assignments that give what packing the updated record gives: not a null into the last
      packed field, not an empty container into an optional, and new heap bytes only in place of
      old ones or where nothing follows. */
  predicate Repacks(ts: seq<Type>, vs: seq<Value>, i: nat, v: Value)
    requires |ts| == |vs| && i < |ts|
  {
    InOrder(ts, vs, i, v) && (v.Null? ==> i + 1 != Count(ts, vs))
  }

  /** The number of packed fields after the assignment. */
  lemma CountAfter(ts: seq<Type>, vs: seq<Value>, i: nat, v: Value)
    requires HaveTypes(vs, ts) && i < |ts| && HasType(v, ts[i])
    ensures HaveTypes(vs[i := v], ts)
    ensures !v.Null? ==> i < Count(ts, vs[i := v])
    ensures v.Null? && i + 1 == Count(ts, vs) ==> Count(ts, vs[i := v]) < Count(ts, vs)
    ensures !(v.Null? && i + 1 == Count(ts, vs)) ==> Count(ts, vs[i := v]) == DeclaredAfter(Count(ts, vs), i, v)
  {
    hide HasType;
    var vs', k := vs[i := v], Count(ts, vs);
    assert HaveTypes(vs', ts);
    forall j | 0 <= j < |ts| ensures j >= k ==> ts[j].Optional? && vs[j].Null? { CountIs(ts, vs, j); }
    if v.Null? { NullIsOptional(ts[i], v); }
    if v.Null? && i + 1 == k {
      CountShrinks(ts, vs', k);
    } else {
      if k > 0 { CountIs(ts, vs, k - 1); }
      CountUnique(ts, vs', DeclaredAfter(k, i, v));
    }
  }

  lemma CountShrinks(ts: seq<Type>, vs: seq<Value>, k: nat)
    requires |ts| == |vs| && 1 <= k <= |ts| && forall j :: k - 1 <= j < |ts| ==> ts[j].Optional? && vs[j].Null?
    ensures Count(ts, vs) < k
  {
    var n := Count(ts, vs);
    if n >= k { CountIs(ts, vs, n - 1); }
  }

  lemma RepacksInOrder(ts: seq<Type>, vs: seq<Value>, i: nat, v: Value)
    requires Schema(ts) && HaveTypes(vs, ts) && i < |ts| && HasType(v, ts[i]) && Repacks(ts, vs, i, v) && NotOver(ts[i], vs[i])
    requires |PackStruct(ts, vs)| < U32_LIMIT && MeasuredRight(PackStruct(ts, vs), ts, vs, i)
    requires CanSet(PackStruct(ts, vs), ts, i) && |Prepared(PackStruct(ts, vs), ts, i)| < U32_LIMIT
    requires |SetCanonical(PackStruct(ts, vs), ts, i, v)| < U32_LIMIT
    ensures HaveTypes(vs[i := v], ts) && SetCanonical(PackStruct(ts, vs), ts, i, v) == PackStruct(ts, vs[i := v])
  {
    SchemaField(ts, i);
    hide Schema, Laid, Good, Readable, Elided, PutCanonical, HasType, InOrder, PackStruct, Prepared, Count, MeasuredRight, NotOver, WellFormed;
    var d, k := PackStruct(ts, vs), Count(ts, vs);
    PackedIsLaid(ts, vs);
    CountAfter(ts, vs, i, v);
    PreparedIsLaid(d, ts, vs, k, i);
    if i >= k && v.Null? {
      LaidIsGood(d, ts, vs, k);
      NullStays(d, ts, vs, k, i);
    } else {
      var e, k' := Prepared(d, ts, i), if i < k then k else i + 1;
      LaidIsGood(e, ts, vs, k');
      GoodReadable(e, ts, vs, k', i);
      StillMeasured(d, ts, vs, i);
      PutInOrder(e, ts, vs, k', i, v);
      LaidIsPacked(PutCanonical(e, ts, i, v), ts, vs[i := v], k');
    }
  }

  /** A field that was left out has no heap part, before and after its slot is declared. */
  lemma StillMeasured(d: seq<byte>, ts: seq<Type>, vs: seq<Value>, i: nat)
    requires HaveTypes(vs, ts) && i < |ts| && WellFormed(ts[i]) && CanSet(d, ts, i) && MeasuredRight(d, ts, vs, i)
    requires Elided(d, ts, i) <==> i >= Count(ts, vs)
    ensures MeasuredRight(Prepared(d, ts, i), ts, vs, i)
  {
    hide Readable, Elided, Expand, HasHeap, Heap, HasType;
    if HasHeap(ts[i], vs[i]) { HeapIsCounted(ts, vs, i); }
  }

  /** The slot of a field with a value, in data packed in order. */
  lemma PackedSlot(e: seq<byte>, ts: seq<Type>, vs: seq<Value>, k: nat, i: nat)
    requires Laid(e, ts, vs, k) && i < k && IsVar(ts[i])
    ensures SlotPos(ts, i) + 4 <= SlotPos(ts, k)
    ensures HiddenEmpty(ts[i], vs[i]) ==> Read32(e, SlotPos(ts, i)) == 0
    ensures HasHeap(ts[i], vs[i]) ==> SlotPos(ts, i) + Read32(e, SlotPos(ts, i)) == SlotPos(ts, k) + HeapOffset(ts, vs, i)
  {
    hide Read32, U32, Heap, HeapOffset, Offset, Read16, Le, HasType;
    var slot, heap := SlotPos(ts, i), SlotPos(ts, k) + HeapOffset(ts, vs, i);
    assert FieldAt(e, ts, vs, 2, SlotPos(ts, k), i);
    OffsetGrows(ts, i, k);
    HeapOffsetGrows(ts, vs, i, |ts|);
    if HiddenEmpty(ts[i], vs[i]) { Read32At(e, slot, 0); }
    if HasHeap(ts[i], vs[i]) { Read32At(e, slot, heap - slot); }
  }

  /** A null in the last packed field leaves its slot declared. */
  lemma LastNullDiffers(d: seq<byte>, e: seq<byte>, ts: seq<Type>, vs: seq<Value>, vs': seq<Value>, k: nat, k': nat)
    requires Laid(d, ts, vs, k) && Laid(e, ts, vs', k') && k' < k
    ensures Read16(e, 0) != Read16(d, 0)
  {
    hide Read16, FieldAt, HeapOffset, HasType;
    DeclaredIs(ts, k, k');
  }

  /** An empty container put into an optional takes heap bytes; packing uses none. */
  lemma HiddenDiffers(e: seq<byte>, ts: seq<Type>, vs: seq<Value>, i: nat, at: nat, k: nat, k': nat)
    requires Laid(e, ts, vs, k') && i < k' && HiddenEmpty(ts[i], vs[i]) && i < k <= |ts| && SlotPos(ts, k) <= at
    ensures SlotPos(ts, i) + Read32(e, SlotPos(ts, i)) != at
  {
    hide Read32, Laid;
    LaidDeclares(e, ts, vs, k');
    PackedSlot(e, ts, vs, k', i);
    OffsetGrows(ts, i, k);
  }

  /** Heap bytes appended at the end are out of order if another part is behind them. */
  lemma AppendDiffers(d: seq<byte>, e: seq<byte>, ts: seq<Type>, vs: seq<Value>, k: nat, i: nat, v: Value, j: nat)
    requires Laid(d, ts, vs, k) && i < j < k && HasHeap(ts[j], vs[j]) && HasType(v, ts[i]) && HasHeap(ts[i], v)
    requires HaveTypes(vs[i := v], ts) && Laid(e, ts, vs[i := v], k)
    ensures SlotPos(ts, i) + Read32(e, SlotPos(ts, i)) != |d|
  {
    hide Read32, Laid, Heap, HeapOffset, Offset, HasType;
    LaidEnd(d, ts, vs, k);
    PackedSlot(e, ts, vs[i := v], k, i);
    HeapOffsetUpdate(ts, vs, i, v, i);
    HeapOffsetGrows(ts, vs, i, j);
    HeapOffsetGrows(ts, vs, j, |ts|);
    HeapIsForm(ts[j], vs[j]);
  }

  /** What is known of a canonical assignment to data packed in order, whether it repacks or not. */
  lemma PutFacts(d: seq<byte>, ts: seq<Type>, vs: seq<Value>, k: nat, i: nat, v: Value)
    requires Schema(ts) && Laid(d, ts, vs, k) && i < k && HasType(v, ts[i]) && NotOver(ts[i], vs[i])
    requires Readable(d, ts, i) && !Elided(d, ts, i) && |PutCanonical(d, ts, i, v)| < U32_LIMIT
    ensures Read16(PutCanonical(d, ts, i, v), 0) == Read16(d, 0) && SlotPos(ts, k) <= OldAt(d, ts, i)
    ensures IsVar(ts[i]) && !v.Null? && !IsEmptyContainer(ts[i], v) ==>
              SlotPos(ts, i) + Read32(PutCanonical(d, ts, i, v), SlotPos(ts, i)) == OldAt(d, ts, i)
    ensures !HasHeap(ts[i], vs[i]) ==> OldAt(d, ts, i) == |d|
  {
    SchemaField(ts, i);
    hide Schema, Laid, Good, Readable, Elided, PutCanonical, Read16, Read32, HasType, OldAt, OldLen, HeapForm, SlotsMoved, HeapOffset, NotOver,
         WellFormed, FixedSize, MeasuredRight, HasHeap;
    LaidIsGood(d, ts, vs, k);
    LaidDeclares(d, ts, vs, k);
    CanonicalSize(d, ts, vs, k, i, v);
    CanonicalSplices(d, ts, vs, k, i, v);
    OldInOrder(d, ts, vs, k, i);
  }

  lemma OutOfOrderDiffers(ts: seq<Type>, vs: seq<Value>, i: nat, v: Value)
    requires Schema(ts) && HaveTypes(vs, ts) && i < |ts| && HasType(v, ts[i]) && !Repacks(ts, vs, i, v) && NotOver(ts[i], vs[i])
    requires CanSet(PackStruct(ts, vs), ts, i) && |PackStruct(ts, vs)| < U32_LIMIT && |Prepared(PackStruct(ts, vs), ts, i)| < U32_LIMIT
    requires |SetCanonical(PackStruct(ts, vs), ts, i, v)| < U32_LIMIT && |PackStruct(ts, vs[i := v])| < U32_LIMIT
    ensures HaveTypes(vs[i := v], ts) && SetCanonical(PackStruct(ts, vs), ts, i, v) != PackStruct(ts, vs[i := v])
  {
    SchemaField(ts, i);
    hide Schema, Laid, Good, Readable, Elided, PutCanonical, HasType, PackStruct, Prepared, Count, Read16, Read32, OldAt,
         CanSet, Offset, HasHeap, HiddenEmpty, NotOver, WellFormed;
    var d, k := PackStruct(ts, vs), Count(ts, vs);
    PackedIsLaid(ts, vs);
    CountAfter(ts, vs, i, v);
    PreparedIsLaid(d, ts, vs, k, i);
    HeaplessNull(ts[i], v);
    assert v.Null? ==> i < k;
    if SetCanonical(d, ts, i, v) == PackStruct(ts, vs[i := v]) {
      var e, k0 := Prepared(d, ts, i), if i < k then k else i + 1;
      LaidIsGood(e, ts, vs, k0);
      GoodReadable(e, ts, vs, k0, i);
      PackedIsLaid(ts, vs[i := v]);
      PutFacts(e, ts, vs, k0, i, v);
      OutOfOrderCases(e, PutCanonical(e, ts, i, v), ts, vs, k0, i, v);
    }
  }

  /** A heap part measured too small leaves dead bytes behind. */
  lemma ShortMeasureDiffers(ts: seq<Type>, vs: seq<Value>, i: nat, v: Value)
    requires Schema(ts) && HaveTypes(vs, ts) && i < |ts| && HasType(v, ts[i]) && NotOver(ts[i], vs[i])
    requires |PackStruct(ts, vs)| < U32_LIMIT && !MeasuredRight(PackStruct(ts, vs), ts, vs, i)
    requires CanSet(PackStruct(ts, vs), ts, i) && |SetCanonical(PackStruct(ts, vs), ts, i, v)| < U32_LIMIT
    ensures HaveTypes(vs[i := v], ts) && |SetCanonical(PackStruct(ts, vs), ts, i, v)| > |PackStruct(ts, vs[i := v])|
  {
    SchemaField(ts, i);
    hide Schema, Laid, Good, Readable, Elided, PutCanonical, HasType, PackStruct, Count, HasHeap, NotOver, WellFormed, OldLen, NewBytes,
         PackedSizeAt, Heap, HeapOffset, Offset, HeapForm;
    var d, k := PackStruct(ts, vs), Count(ts, vs);
    HeapIsCounted(ts, vs, i);
    PackedIsLaid(ts, vs);
    LaidIsGood(d, ts, vs, k);
    GoodReadable(d, ts, vs, k, i);
    CountAfter(ts, vs, i, v);
    LaidField(d, ts, vs, k, i);
    HeapIsForm(ts[i], vs[i]);
    LiveMeasured(d, ts, vs, k, i);
    CanonicalSize(d, ts, vs, k, i, v);
    PackedLength(ts, vs);
    PackedLength(ts, vs[i := v]);
    HeapOffsetUpdate(ts, vs, i, v, |ts|);
    HeapAtMostNew(ts[i], v);
    if Count(ts, vs[i := v]) < k { OffsetGrows(ts, Count(ts, vs[i := v]), k); }
  }

  lemma PackedLength(ts: seq<Type>, vs: seq<Value>)
    requires HaveTypes(vs, ts)
    ensures |PackStruct(ts, vs)| == SlotPos(ts, Count(ts, vs)) + HeapOffset(ts, vs, |ts|)
  {
    hide HasType, Heaps, Slots, HeapOffset, Offset, Count, Fixed;
    SlotsSize(ts, vs, Fixed(ts, vs));
    FixedIsOffset(ts, vs);
    HeapOffsetTotal(ts, vs);
  }

  lemma HeapAtMostNew(t: Type, v: Value)
    requires HasType(v, t)
    ensures |Heap(t, v)| <= |NewBytes(t, v)|
  {
    hide Pack;
    HeapIsForm(t, v);
  }

  lemma HeaplessNull(t: Type, v: Value)
    requires HasType(v, t)
    ensures v.Null? ==> !HasHeap(t, v) && !HiddenEmpty(t, v)
    ensures HasHeap(t, v) || HiddenEmpty(t, v) ==> IsVar(t) && !v.Null? && !IsEmptyContainer(t, v)
  {
  }

  lemma OutOfOrderCases(d: seq<byte>, e: seq<byte>, ts: seq<Type>, vs: seq<Value>, k: nat, i: nat, v: Value)
    requires Laid(d, ts, vs, k) && HaveTypes(vs, ts) && i < k && HasType(v, ts[i]) && !Repacks(ts, vs, i, v)
    requires k == if i < Count(ts, vs) then Count(ts, vs) else i + 1
    requires HaveTypes(vs[i := v], ts) && Read16(e, 0) == Read16(d, 0) && SlotPos(ts, k) <= OldAt(d, ts, i)
    requires IsVar(ts[i]) && !v.Null? && !IsEmptyContainer(ts[i], v) ==> SlotPos(ts, i) + Read32(e, SlotPos(ts, i)) == OldAt(d, ts, i)
    requires !HasHeap(ts[i], vs[i]) ==> OldAt(d, ts, i) == |d|
    ensures !Laid(e, ts, vs[i := v], Count(ts, vs[i := v]))
  {
    hide Laid, Count, Read16, Read32, OldAt, Offset, HasHeap, HiddenEmpty, HasType;
    LaidDeclares(d, ts, vs, k);
    var k' := Count(ts, vs[i := v]);
    if Laid(e, ts, vs[i := v], k') {
      CountAfter(ts, vs, i, v);
      HeaplessNull(ts[i], v);
      if HiddenEmpty(ts[i], v) {
        HiddenDiffers(e, ts, vs[i := v], i, OldAt(d, ts, i), k, k');
      } else if HasHeap(ts[i], v) && !RoomAtEnd(ts, vs, i) {
        var j :| i < j < |ts| && HasHeap(ts[j], vs[j]);
        HeapIsCounted(ts, vs, j);
        AppendDiffers(d, e, ts, vs, k, i, v, j);
      } else {
        LastNullDiffers(d, e, ts, vs, vs[i := v], k, k');
      }
    }
  }

  lemma HeapIsCounted(ts: seq<Type>, vs: seq<Value>, j: nat)
    requires HaveTypes(vs, ts) && j < |ts| && HasHeap(ts[j], vs[j])
    ensures j < Count(ts, vs)
  {
    CountIs(ts, vs, j);
  }

  lemma FlatParts(ts: seq<Type>, vs: seq<Value>)
    requires HaveTypes(vs, ts) && Flat(ts)
    ensures NoHeapParts(ts, vs)
  {
  }

  lemma HeaplessIsExact(t: Type, v: Value)
    requires HasType(v, t) && !HasHeap(t, v)
    ensures Exact(t, v)
  {
    hide FixedTotal, LastExact;
    match t
    case FixedStruct(parts) => {
      FlatParts(parts, v.items);
      NoPartsExact(parts, v.items);
    }
    case _ =>
  }

  /** A field that is not measured too large is measured as what it is exactly if its value's last
      heap part is. */
  lemma MeasuredRightIff(ts: seq<Type>, vs: seq<Value>, i: nat)
    requires Schema(ts) && HaveTypes(vs, ts) && i < |ts| && |PackStruct(ts, vs)| < U32_LIMIT && NotOver(ts[i], vs[i])
    ensures WellFormed(ts[i])
    ensures MeasuredRight(PackStruct(ts, vs), ts, vs, i) <==> Exact(ts[i], vs[i])
  {
    SchemaField(ts, i);
    hide Schema, Laid, Good, HasType, PackStruct, Count, HasHeap, NotOver, Exact, WellFormed, OldLen, PackedSizeAt, Heap, HeapForm;
    if HasHeap(ts[i], vs[i]) {
      var d, k := PackStruct(ts, vs), Count(ts, vs);
      HeapIsCounted(ts, vs, i);
      PackedIsGood(ts, vs);
      PackedIsLaid(ts, vs);
      LaidField(d, ts, vs, k, i);
      HeapIsForm(ts[i], vs[i]);
      LiveMeasured(d, ts, vs, k, i);
    } else {
      HeaplessIsExact(ts[i], vs[i]);
    }
  }

  /** A canonical assignment to a packed record gives the packing of the updated record exactly in
      the cases of Repacks in which the last heap part of the value replaced is measured right. */
  lemma CanonicalIsRepack(ts: seq<Type>, vs: seq<Value>, i: nat, v: Value)
    requires Schema(ts) && HaveTypes(vs, ts) && i < |ts| && HasType(v, ts[i]) && NotOver(ts[i], vs[i])
    requires CanSet(PackStruct(ts, vs), ts, i) && |PackStruct(ts, vs)| < U32_LIMIT && |Prepared(PackStruct(ts, vs), ts, i)| < U32_LIMIT
    requires |SetCanonical(PackStruct(ts, vs), ts, i, v)| < U32_LIMIT
    ensures HaveTypes(vs[i := v], ts)
    ensures SetCanonical(PackStruct(ts, vs), ts, i, v) == PackStruct(ts, vs[i := v])
            <==> Repacks(ts, vs, i, v) && Exact(ts[i], vs[i])
  {
    SchemaField(ts, i);
    hide Schema, HasType, PackStruct, SetCanonical, CanSet, Prepared, Repacks, MeasuredRight, NotOver, Exact, WellFormed;
    MeasuredRightIff(ts, vs, i);
    if !MeasuredRight(PackStruct(ts, vs), ts, vs, i) {
      ShortMeasureDiffers(ts, vs, i, v);
    } else if Repacks(ts, vs, i, v) {
      RepacksInOrder(ts, vs, i, v);
    } else if SetCanonical(PackStruct(ts, vs), ts, i, v) == PackStruct(ts, vs[i := v]) {
      OutOfOrderDiffers(ts, vs, i, v);
    }
  }
}
