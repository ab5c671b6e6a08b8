/** Which bytes an assignment changes (js/src/mutation.ts, lines 495-509 and 632-694). */
module FracFootprint {
  import opened ByteStrings
  import opened FracTypes
  import opened FracSize
  import opened FracFields
  import opened FracMutate
  import opened FracSet
  import opened FracRun

  /** The same bytes except for n of them from `at` on, which are `bytes`. */
  predicate Overwrites(d: seq<byte>, e: seq<byte>, at: nat, bytes: seq<byte>) {
    && |e| == |d| && at + |bytes| <= |d|
    && e[at..at + |bytes|] == bytes
    && forall p :: 0 <= p < |d| && !(at <= p < at + |bytes|) ==> e[p] == d[p]
  }

  /** The bytes are put behind the data, and below its end nothing but the four bytes of the slot
      changes, which lead there. */
  predicate Appends(d: seq<byte>, e: seq<byte>, slot: nat, bytes: seq<byte>) {
    && |e| == |d| + |bytes| && e[|d|..] == bytes && slot + 4 <= |d|
    && (forall p :: 0 <= p < |d| && !(slot <= p < slot + 4) ==> e[p] == d[p])
    && (|d| < U32_LIMIT ==> slot + Read32(e, slot) == |d|)
  }

  /** The heap part that the slot of field i leads to was measured to be at least n bytes long. */
  predicate HasRoom(d: seq<byte>, ts: seq<Type>, i: nat, n: nat)
    requires i < |ts| && WellFormed(ts[i])
  {
    var slot := SlotPos(ts, i);
    && Read32(d, slot) > 1
    && PackedSizeAt(ts[i], d, slot + Read32(d, slot)).Some?
    && n <= PackedSizeAt(ts[i], d, slot + Read32(d, slot)).value
  }

  /** What the fast mode does to a present field: a null and an empty container change the slot only,
      a value that has room is written over the old one and leaves all slots, and any other is put
      behind everything. */
  predicate FastWrites(d: seq<byte>, e: seq<byte>, ts: seq<Type>, i: nat, v: Value)
    requires i < |ts| && WellFormed(ts[i]) && HasType(v, ts[i])
  {
    var slot := SlotPos(ts, i);
    if !IsVar(ts[i]) then Overwrites(d, e, slot, Pack(ts[i], v))
    else if v.Null? then Overwrites(d, e, slot, [1, 0, 0, 0])
    else if IsEmptyContainer(ts[i], v) then Overwrites(d, e, slot, [0, 0, 0, 0])
    else if HasRoom(d, ts, i, |HeapForm(ts[i], v)|) then Overwrites(d, e, slot + Read32(d, slot), HeapForm(ts[i], v))
    else Appends(d, e, slot, HeapForm(ts[i], v))
  }

  lemma WriteOverwrites(d: seq<byte>, at: nat, bytes: seq<byte>)
    requires at + |bytes| <= |d|
    ensures Overwrites(d, Write(d, at, bytes), at, bytes)
  {
  }

  lemma AppendAppends(d: seq<byte>, ts: seq<Type>, i: nat, bytes: seq<byte>)
    requires i < |ts| && WellFormed(ts[i]) && Readable(d, ts, i) && IsVar(ts[i]) && !Elided(d, ts, i)
    ensures Appends(d, AppendField(d, ts, i, bytes), SlotPos(ts, i), bytes)
  {
    hide Readable, Read32, U32, Write, Read16;
    var slot := SlotPos(ts, i);
    WriteInside(d, ts, i, U32(0)) by { Reads(d, ts, i); }
    WriteOverwrites(d + bytes, slot, U32(|d| - slot));
    var e := Write(d + bytes, slot, U32(|d| - slot));
    assert e[|d|..] == bytes;
    if |d| < U32_LIMIT { WriteRead32(d + bytes, slot, |d| - slot); }
  }

  lemma Reads(d: seq<byte>, ts: seq<Type>, i: nat)
    requires i < |ts| && WellFormed(ts[i]) && Readable(d, ts, i)
    ensures SlotsInside(d, ts, Read16(d, 0))
  {
    hide SlotsInside, Read16;
  }

  lemma Markers()
    ensures U32(1) == [1, 0, 0, 0] && U32(0) == [0, 0, 0, 0]
  {
  }

  /** A fast assignment to a present field changes those bytes and no others. */
  lemma FastFootprint(d: seq<byte>, ts: seq<Type>, i: nat, v: Value)
    requires i < |ts| && WellFormed(ts[i]) && Readable(d, ts, i) && !Elided(d, ts, i) && HasType(v, ts[i])
    ensures FastWrites(d, PutFast(d, ts, i, v), ts, i, v)
  {
    hide SlotsInside, Read16, Read32, HeapForm, Pack, Overwrites, Appends, Write, AppendField, PackedSizeAt, U32, HasType;
    Reads(d, ts, i);
    var slot := SlotPos(ts, i);
    if !IsVar(ts[i]) {
      WriteInside(d, ts, i, Pack(ts[i], v));
      WriteOverwrites(d, slot, Pack(ts[i], v));
    } else {
      WriteInside(d, ts, i, U32(0));
      Markers();
      WriteOverwrites(d, slot, U32(1));
      WriteOverwrites(d, slot, U32(0));
      if !v.Null? {
        var bytes := HeapForm(ts[i], v);
        AppendAppends(d, ts, i, bytes);
        assert Live(d, ts, i) ==> Measured(d, ts, i);
        if HasRoom(d, ts, i, |bytes|) { WriteOverwrites(d, Target(d, ts, i), bytes); }
      }
    }
  }

  /** Setting a field that is left out to null changes nothing; setting a present field in the fast
      mode writes as above. */
  lemma SetFootprint(d: seq<byte>, ts: seq<Type>, i: nat, v: Value)
    requires i < |ts| && WellFormed(ts[i]) && HasType(v, ts[i]) && CanSet(d, ts, i)
    ensures Offset(ts, i) >= Read16(d, 0) && v.Null? ==> SetFast(d, ts, i, v) == SetCanonical(d, ts, i, v) == d
    ensures Offset(ts, i) < Read16(d, 0) ==> FastWrites(d, SetFast(d, ts, i, v), ts, i, v)
  {
    hide Readable, PutFast, PutCanonical, FastWrites, Read16, HasType, WellFormed;
    if Offset(ts, i) < Read16(d, 0) { FastFootprint(d, ts, i, v); }
  }
}
