/** The mutable view: a buffer that is spliced, patched, overwritten or appended to in place
    (js/src/mutation.ts). */
module FracMutView {
  import opened ByteStrings
  import opened Wrappers
  import opened FracTypes
  import opened FracView
  import opened FracUnpack
  import opened FracSize
  import opened FracFields
  import opened FracMutate
  import opened FracSet
  import opened FracExpand
  import opened FracFootprint
  import opened FracGet
  import opened FracRun
  import opened FracCanonical
  import opened FracPackTo
  import opened FracReader

  // ---------------------------------------------------------------- buffer primitives

  /** Replace oldLen bytes at pos: in place when the length stays, in a new buffer otherwise. */
  method SpliceBuffer(data: array<byte>, pos: nat, oldLen: nat, bytes: seq<byte>) returns (result: array<byte>, delta: int)
    requires pos + oldLen <= data.Length
    modifies data
    ensures result[..] == Splice(old(data[..]), pos, oldLen, bytes) && delta == |bytes| - oldLen
    ensures if delta == 0 then result == data else fresh(result) && data[..] == old(data[..])
  {
    delta := |bytes| - oldLen;
    if delta == 0 {
      forall k | 0 <= k < |bytes| { data[pos + k] := bytes[k]; }
      assert data[..] == Splice(old(data[..]), pos, oldLen, bytes);
      return data, 0;
    }
    ghost var target := Splice(data[..], pos, oldLen, bytes);
    result := new byte[data.Length + delta];
    forall k | 0 <= k < pos { result[k] := data[k]; }
    forall k | 0 <= k < |bytes| { result[pos + k] := bytes[k]; }
    forall k | 0 <= k < data.Length - pos - oldLen { result[pos + |bytes| + k] := data[pos + oldLen + k]; }
    assert result[..] == target;
  }

  method WriteBytes(data: array<byte>, pos: nat, bytes: seq<byte>)
    requires pos + |bytes| <= data.Length
    modifies data
    ensures data[..] == Write(old(data[..]), pos, bytes)
  {
    forall k | 0 <= k < |bytes| { data[pos + k] := bytes[k]; }
  }

  /** Correct an offset that leads to or behind the place of a splice. */
  method PatchSlot(data: array<byte>, slot: nat, splicePos: nat, delta: int)
    requires slot + 4 <= data.Length
    modifies data
    ensures data[..] == PatchOffset(old(data[..]), slot, splicePos, delta)
  {
    hide Read32, U32;
    var offset := Read32(data[..], slot);
    if offset <= 1 { return; }
    var target := slot + offset;
    if target >= splicePos { WriteBytes(data, slot, U32(offset + delta)); }
  }

  /** The loop over the fields whose offsets are to be corrected. */
  method PatchAll(data: array<byte>, ts: seq<Type>, skip: int, declared: nat, splicePos: nat, delta: int)
    requires SlotsInside(data[..], ts, declared)
    modifies data
    ensures data[..] == PatchFields(old(data[..]), ts, |ts|, skip, declared, splicePos, delta)
  {
    hide PatchOffset;
    var i, offset := 0, 0;
    while i < |ts|
      invariant i <= |ts| && offset == Offset(ts, i) && SlotsInside(data[..], ts, declared)
      invariant data[..] == PatchFields(old(data[..]), ts, i, skip, declared, splicePos, delta)
    {
      OffsetNext(ts, i);
      if i != skip && IsVar(ts[i]) && offset < declared { PatchSlot(data, 2 + offset, splicePos, delta); }
      offset := offset + FixedSize(ts[i]);
      i := i + 1;
    }
  }

  method PatchTheSiblings(data: array<byte>, ts: seq<Type>, i: nat, splicePos: nat, delta: int)
    requires SlotsInside(data[..], ts, Read16(data[..], 0))
    modifies data
    ensures data[..] == PatchSiblings(old(data[..]), ts, i, splicePos, delta)
  {
    if delta == 0 { return; }
    PatchAll(data, ts, i, Read16(data[..], 0), splicePos, delta);
  }

  // ---------------------------------------------------------------- measuring

  function SizeFrom(end: Option<nat>, pos: nat): Option<nat>
    requires end.Some? ==> pos <= end.value
  {
    match end
    case None => None
    case Some(e) => Some(e - pos)
  }

  /** The size of a packed value: the furthest end any of its offsets leads to; None for an
      exception, which unpacking an array may throw. */
  method PackedSize(t: Type, data: array<byte>, pos: nat) returns (size: Option<nat>)
    requires WellFormed(t)
    ensures size == PackedSizeAt(t, data[..], pos)
    decreases t, 2
  {
    hide Read32, Read16, Unpack, StructEnd, FieldsEnd, ElementsEnd, FixedSize, IsVar, UnpackedEnd;
    match t
    case Scalar(n, _) => size := Some(n);
    case Blob(_) => size := Some(4 + Read32(data[..], pos));
    case Optional(inner) => size := PackedSize(inner, data, pos);
    case Variant(_) => size := Some(1 + 4 + Read32(data[..], pos + 1));
    case Vec(elem) => size := ListSize(elem, data, pos);
    case Struct(fields) => size := StructSize(fields, data, pos);
    case Tuple(elems) => size := StructSize(elems, data, pos);
    case FixedStruct(parts) => size := PartsSize(parts, data, pos);
    case Array(_, _) => size := UnpackedSize(t, data, pos);
  }

  method ListSize(elem: Type, data: array<byte>, pos: nat) returns (size: Option<nat>)
    requires WellFormed(elem)
    ensures size == PackedSizeAt(Vec(elem), data[..], pos)
    decreases elem, 3
  {
    hide Read32, Read16, FixedSize, IsVar;
    ghost var d := data[..];
    var dataSize := Read32(data[..], pos);
    if !IsVar(elem) { return Some(4 + dataSize); }
    var count := (dataSize + FixedSize(elem) - 1) / FixedSize(elem);
    var end: nat, slot: nat, i: nat := pos + 4 + dataSize, pos + 4, 0;
    while i < count
      invariant i <= count && end >= pos
      invariant ElementsEnd(elem, d, slot, count - i, end) == EndOf(Vec(elem), d, pos)
    {
      var offset := Read32(data[..], slot);
      if offset > 1 {
        var inner := PackedSize(elem, data, slot + offset);
        if inner == None { return None; }
        end := Max(end, slot + offset + inner.value);
      }
      slot, i := slot + FixedSize(elem), i + 1;
    }
    return Some(end - pos);
  }

  method StructSize(fields: seq<Type>, data: array<byte>, pos: nat) returns (size: Option<nat>)
    requires forall f :: f in fields ==> WellFormed(f)
    ensures size == SizeFrom(StructEnd(fields, data[..], pos), pos)
    decreases fields, 1
  {
    hide Read32, Read16, WellFormed, FixedSize, IsVar;
    ghost var d := data[..];
    var heap := pos + 2 + Read16(data[..], pos);
    var end: nat, slot: nat, i: nat := heap, pos + 2, 0;
    assert fields[0..] == fields;
    while i < |fields| && slot < heap
      invariant i <= |fields| && end >= pos
      invariant FieldsEnd(fields[i..], d, slot, heap, end) == StructEnd(fields, d, pos)
    {
      assert fields[i..][0] == fields[i] && fields[i..][1..] == fields[i + 1..];
      if IsVar(fields[i]) {
        var offset := Read32(data[..], slot);
        if offset > 1 {
          var inner := PackedSize(fields[i], data, slot + offset);
          if inner == None { return None; }
          end := Max(end, slot + offset + inner.value);
        }
      }
      slot, i := slot + FixedSize(fields[i]), i + 1;
    }
    return Some(end - pos);
  }

  /** A fixed struct has all its slots. */
  method PartsSize(parts: seq<Type>, data: array<byte>, pos: nat) returns (size: Option<nat>)
    requires forall p :: p in parts ==> WellFormed(p)
    ensures size == SizeFrom(FieldsEnd(parts, data[..], pos, pos + FixedTotal(parts), pos + FixedTotal(parts)), pos)
    decreases parts, 1
  {
    hide Read32, Read16, WellFormed, FixedSize, FixedTotal, IsVar, Offset;
    ghost var d := data[..];
    ghost var heap := pos + FixedTotal(parts);
    var end: nat, slot: nat, i: nat := pos + FixedTotal(parts), pos, 0;
    assert parts[0..] == parts;
    SlotsBefore(parts, 0);
    while i < |parts|
      invariant i <= |parts| && end >= pos && slot == pos + Offset(parts, i)
      invariant FieldsEnd(parts[i..], d, slot, heap, end) == FieldsEnd(parts, d, pos, heap, heap)
    {
      assert parts[i..][0] == parts[i] && parts[i..][1..] == parts[i + 1..];
      SlotsBefore(parts, i);
      if IsVar(parts[i]) {
        var offset := Read32(data[..], slot);
        if offset > 1 {
          var inner := PackedSize(parts[i], data, slot + offset);
          if inner == None { return None; }
          end := Max(end, slot + offset + inner.value);
        }
      }
      slot, i := slot + FixedSize(parts[i]), i + 1;
    }
    return Some(end - pos);
  }

  lemma SlotsBefore(ts: seq<Type>, i: nat)
    requires i <= |ts|
    ensures Offset(ts, 0) == 0
    ensures i < |ts| ==> Offset(ts, i) < FixedTotal(ts) && Offset(ts, i + 1) == Offset(ts, i) + FixedSize(ts[i])
  {
    hide FixedSize;
    if i < |ts| {
      OffsetTotal(ts);
      OffsetNext(ts, i);
      OffsetGrows(ts, i, |ts|);
    }
  }

  /** The fallback: unpack what starts here, and see how far the reader has come. */
  method UnpackedSize(t: Type, data: array<byte>, pos: nat) returns (size: Option<nat>)
    requires WellFormed(t)
    ensures size == SizeFrom(UnpackedEnd(t, data[..], pos), pos)
  {
    hide Unpack, WellFormed;
    var r := new Reader(data[Min(pos, data.Length)..]);
    assert r.data == data[..][Min(pos, |data[..]|)..];
    var v := r.UnpackFrom(t);
    if v == None { return None; }
    return Some(r.pos);
  }

  // ---------------------------------------------------------------- expanding

  /** The slots to insert: zeros, with the null marker for optional fields. */
  method NewSlots(ts: seq<Type>, declared: nat, i: nat) returns (slots: array<byte>)
    requires i < |ts| && declared <= Offset(ts, i + 1)
    ensures fresh(slots) && slots[..] == FilledSlots(ts, |ts|, declared, i)
  {
    hide U32, Write;
    var needed := Offset(ts, i + 1);
    slots := new byte[needed - declared](_ => 0);
    var j, offset := 0, 0;
    while j < |ts|
      invariant j <= |ts| && offset == Offset(ts, j) && slots[..] == FilledSlots(ts, j, declared, i)
    {
      OffsetNext(ts, j);
      if declared <= offset && offset < needed {
        if ts[j].Optional? {
          FilledInside(ts, j, i);
          WriteBytes(slots, offset - declared, U32(1));
        }
      }
      offset := offset + FixedSize(ts[j]);
      j := j + 1;
    }
  }

  method ExpandFixedRegion(data: array<byte>, ts: seq<Type>, i: nat) returns (result: array<byte>)
    requires SlotsInside(data[..], ts, Read16(data[..], 0)) && i < |ts|
    modifies data
    ensures result[..] == Expand(old(data[..]), ts, i) && (fresh(result) || result == data)
  {
    hide Read16, U16, Write, PatchFields;
    var declared, needed := Read16(data[..], 0), Offset(ts, i + 1);
    if needed <= declared { return data; }
    var slots := NewSlots(ts, declared, i);
    var delta;
    result, delta := SpliceBuffer(data, 2 + declared, 0, slots[..]);
    WriteBytes(result, 0, U16(needed));
    PatchAll(result, ts, -1, declared, 2 + declared, delta);
  }

  // ---------------------------------------------------------------- the view

  /** The sum of the slots before the i-th. */
  method SlotOffset(ts: seq<Type>, i: nat) returns (offset: nat)
    requires i <= |ts|
    ensures offset == Offset(ts, i)
  {
    hide FixedSize;
    offset := 0;
    var j: nat := 0;
    while j < i
      invariant j <= i && offset == Offset(ts, j)
    {
      OffsetNext(ts, j);
      offset, j := offset + FixedSize(ts[j]), j + 1;
    }
  }

  class MutView {
    var data: array<byte>
    const fields: seq<Type>
    const fast: bool
    ghost var record: seq<Value>
    ghost var declared: nat

    /** The buffer holds the record in its first declared fields. */
    ghost predicate Valid()
      reads this, data
    {
      Schema(fields) && Good(data[..], fields, record, declared)
    }

    /** A view of a copy of the bytes. They hold the record vs in k declared fields: a packed record
        does, and so does whatever a run of assignments makes of one. */
    constructor (ts: seq<Type>, bytes: seq<byte>, fastMode: bool, ghost vs: seq<Value>, ghost k: nat)
      ensures fresh(data) && data[..] == bytes && fields == ts && fast == fastMode && record == vs && declared == k
      ensures Schema(ts) && Good(bytes, ts, vs, k) ==> Valid()
    {
      fields, fast, record, declared := ts, fastMode, vs, k;
      var buffer := new byte[|bytes|](k requires 0 <= k < |bytes| => bytes[k]);
      data := buffer;
      new;
      assert data[..] == bytes;
    }

    /** Read a field. In a valid view it reads as the record's, unless it is an optional of what has
        no heap part of its own. */
    method Get(i: nat) returns (v: Result<Value>)
      requires i < |fields| && WellFormed(fields[i])
      ensures v == GetField(data[..], fields, i)
      ensures Valid() && Plain(fields[i]) && !InlineOptional(fields[i]) ==>
                HaveTypes(record, fields) && Views(v, record[i], Shown(data[..], fields, record, i))
    {
      hide Schema, Good, View, Shown, WellFormed, HasType, Read16, Read32, Plain, IsVar, FixedSize;
      if Valid() && Plain(fields[i]) && !InlineOptional(fields[i]) {
        GoodDeclares(data[..], fields, record, declared);
        GetReads(data[..], fields, record, declared, i);
      }
      var fieldOffset := SlotOffset(fields, i);
      if fieldOffset >= Read16(data[..], 0) { return Ok(Null); }
      var absPos := 2 + fieldOffset;
      if !IsVar(fields[i]) {
        v := View(fields[i], data[..], absPos);
        return;
      }
      var offset := Read32(data[..], absPos);
      if offset == 0 {
        v := EmptyOf(fields[i]);
      } else if offset == 1 && fields[i].Optional? {
        v := Ok(Null);
      } else if fields[i].Optional? && IsVar(fields[i].inner) {
        InnerWellFormed(fields[i]);
        v := View(fields[i].inner, data[..], absPos + offset);
      } else {
        v := View(fields[i], data[..], absPos + offset);
      }
    }

    /** What an assignment in this view's mode makes of a buffer. */
    ghost function Assigned(d: seq<byte>, i: nat, v: Value): seq<byte>
      requires i < |fields| && WellFormed(fields[i]) && HasType(v, fields[i]) && CanSet(d, fields, i)
    {
      if fast then SetFast(d, fields, i, v) else SetCanonical(d, fields, i, v)
    }

    /** Declare the field if it was left out. */
    method Prepare(i: nat)
      requires i < |fields| && WellFormed(fields[i]) && CanSet(data[..], fields, i)
      modifies this`data, data
      ensures data[..] == Prepared(old(data[..]), fields, i) && (data == old(data) || fresh(data))
    {
      hide Readable, Expand;
      if Offset(fields, i) >= Read16(data[..], 0) {
        ReadableSlots(data[..], fields, i);
        var result := ExpandFixedRegion(data, fields, i);
        data := result;
      }
    }

    /** A field whose value stands in its slot. */
    method SetScalar(i: nat, v: Value)
      requires i < |fields| && WellFormed(fields[i]) && HasType(v, fields[i]) && !IsVar(fields[i])
      requires Readable(data[..], fields, i) && !Elided(data[..], fields, i)
      modifies data
      ensures data[..] == PutCanonical(old(data[..]), fields, i, v)
    {
      hide Readable, Write, Pack;
      ReadableSlots(data[..], fields, i);
      var bytes := PackValue(fields[i], v);
      WriteInside(data[..], fields, i, bytes);
      WriteBytes(data, 2 + Offset(fields, i), bytes);
    }

    /** Remove the heap part of a field and mark its slot null or empty. */
    method RemoveHeap(i: nat, marker: nat)
      requires i < |fields| && WellFormed(fields[i]) && IsVar(fields[i])
      requires Readable(data[..], fields, i) && !Elided(data[..], fields, i)
      modifies this`data, data
      ensures data[..] == ClearField(old(data[..]), fields, i, marker) && (data == old(data) || fresh(data))
    {
      hide Read32, Read16, Write, PackedSizeAt, SlotsInside, PatchSiblings, U32;
      ghost var d := data[..];
      var slot := 2 + Offset(fields, i);
      WriteInside(d, fields, i, U32(marker));
      var oldOffset := Read32(data[..], slot);
      if oldOffset <= 1 {
        WriteBytes(data, slot, U32(marker));
        return;
      }
      var target := slot + oldOffset;
      assert Measured(d, fields, i);
      var measured := PackedSize(fields[i], data, target);
      var oldSize := measured.value;
      SpliceInside(d, fields, target, oldSize, []);
      WriteInside(Splice(d, target, oldSize, []), fields, i, U32(marker));
      var result, delta := SpliceBuffer(data, target, oldSize, []);
      data := result;
      WriteBytes(data, slot, U32(marker));
      PatchTheSiblings(data, fields, i, target, delta);
    }

    /** Put new bytes at the end and let the slot lead there. */
    method Append(i: nat, bytes: seq<byte>)
      requires i < |fields| && WellFormed(fields[i]) && IsVar(fields[i])
      requires Readable(data[..], fields, i) && !Elided(data[..], fields, i)
      modifies this`data, data
      ensures data[..] == AppendField(old(data[..]), fields, i, bytes) && (data == old(data) || fresh(data))
    {
      hide Readable, Write, U32;
      ghost var d := data[..];
      var slot, insertPos := 2 + Offset(fields, i), data.Length;
      ReadableSlots(d, fields, i);
      WriteInside(d, fields, i, U32(0));
      var result, delta := SpliceBuffer(data, insertPos, 0, bytes);
      EndSplice(d, bytes);
      data := result;
      WriteBytes(data, slot, U32(insertPos - slot));
    }

    /** A variable-size field, keeping the buffer without dead bytes. */
    method SetVariableCanonical(i: nat, v: Value)
      requires i < |fields| && WellFormed(fields[i]) && HasType(v, fields[i]) && IsVar(fields[i])
      requires Readable(data[..], fields, i) && !Elided(data[..], fields, i)
      modifies this`data, data
      ensures data[..] == PutCanonical(old(data[..]), fields, i, v) && (data == old(data) || fresh(data))
    {
      hide Read32, Read16, Write, PackedSizeAt, SlotsInside, PatchSiblings, HeapForm, ClearField, AppendField;
      if v.Null? {
        RemoveHeap(i, 1);
      } else if IsEmptyContainer(fields[i], v) {
        RemoveHeap(i, 0);
      } else {
        var bytes := PackForHeap(fields[i], v);
        Replace(i, bytes);
      }
    }

    method Replace(i: nat, bytes: seq<byte>)
      requires i < |fields| && WellFormed(fields[i]) && IsVar(fields[i])
      requires Readable(data[..], fields, i) && !Elided(data[..], fields, i)
      modifies this`data, data
      ensures data[..] == ReplaceField(old(data[..]), fields, i, bytes) && (data == old(data) || fresh(data))
    {
      hide Read32, Read16, Write, PackedSizeAt, SlotsInside, PatchSiblings, AppendField, U32;
      ghost var d := data[..];
      var slot := 2 + Offset(fields, i);
      WriteInside(d, fields, i, U32(0));
      var oldOffset := Read32(data[..], slot);
      if oldOffset <= 1 {
        Append(i, bytes);
        return;
      }
      var target := slot + oldOffset;
      assert Measured(d, fields, i);
      var measured := PackedSize(fields[i], data, target);
      var oldSize := measured.value;
      SpliceInside(d, fields, target, oldSize, bytes);
      var result, delta := SpliceBuffer(data, target, oldSize, bytes);
      data := result;
      PatchTheSiblings(data, fields, i, target, delta);
    }

    /** A variable-size field without moving others: overwrite what fits, append what does not. */
    method SetVariableFast(i: nat, v: Value)
      requires i < |fields| && WellFormed(fields[i]) && HasType(v, fields[i]) && IsVar(fields[i])
      requires Readable(data[..], fields, i) && !Elided(data[..], fields, i)
      modifies this`data, data
      ensures data[..] == PutFast(old(data[..]), fields, i, v) && (data == old(data) || fresh(data))
      ensures FastWrites(old(data[..]), data[..], fields, i, v)
    {
      hide Read32, Read16, Write, PackedSizeAt, SlotsInside, HeapForm, AppendField, U32, FastWrites;
      ghost var d := data[..];
      FastFootprint(d, fields, i, v);
      var slot := 2 + Offset(fields, i);
      WriteInside(d, fields, i, U32(0));
      if v.Null? {
        WriteBytes(data, slot, U32(1));
        return;
      }
      if IsEmptyContainer(fields[i], v) {
        WriteBytes(data, slot, U32(0));
        return;
      }
      var bytes := PackForHeap(fields[i], v);
      var oldOffset := Read32(data[..], slot);
      if oldOffset > 1 {
        var target := slot + oldOffset;
        assert Measured(d, fields, i);
        var measured := PackedSize(fields[i], data, target);
        var oldSize := measured.value;
        if |bytes| <= oldSize {
          WriteBytes(data, target, bytes);
          return;
        }
      }
      Append(i, bytes);
    }

    /** Set a field. Over any sequence of calls the buffer keeps holding the record, with exactly
        the fields set so far updated, as long as no value that is replaced is measured too large. */
    method Set(i: nat, v: Value)
      requires Valid() && i < |fields| && WellFormed(fields[i]) && HasType(v, fields[i]) && CanSet(data[..], fields, i)
      requires HaveTypes(record, fields) && NotOver(fields[i], record[i])
      requires |Prepared(data[..], fields, i)| < U32_LIMIT && |Assigned(data[..], i, v)| < U32_LIMIT
      modifies this, data
      ensures Valid() && record == old(record)[i := v] && (data == old(data) || fresh(data))
      ensures data[..] == old(Assigned(data[..], i, v))
      ensures old(Elided(data[..], fields, i)) && v.Null? ==> data[..] == old(data[..])
      ensures old(!Elided(data[..], fields, i)) && fast ==> FastWrites(old(data[..]), data[..], fields, i, v)
    {
      hide Schema, Good, CanSet, SetFast, SetCanonical, Prepared, HasType, NotOver, WellFormed, Read16, FastWrites;
      ghost var d := data[..];
      SetFootprint(d, fields, i, v);
      GoodDeclares(d, fields, record, declared);
      if declared <= i { PreparedSize(d, fields, record, declared, i); }
      SetKeepsGood(d, fields, record, declared, i, v);
      record, declared := record[i := v], DeclaredAfter(declared, i, v);
      Assign(i, v);
    }

    method Assign(i: nat, v: Value)
      requires i < |fields| && WellFormed(fields[i]) && HasType(v, fields[i]) && CanSet(data[..], fields, i)
      modifies this`data, data
      ensures data[..] == old(Assigned(data[..], i, v)) && (data == old(data) || fresh(data))
    {
      hide Readable, PutCanonical, PutFast, Prepared, HasType, Read16, WellFormed, IsVar;
      if Offset(fields, i) >= Read16(data[..], 0) && v.Null? { return; }
      PreparedReadable(data[..], fields, i);
      Prepare(i);
      if !IsVar(fields[i]) {
        InlineFast(data[..], fields, i, v);
        SetScalar(i, v);
      } else if fast {
        SetVariableFast(i, v);
      } else {
        SetVariableCanonical(i, v);
      }
    }

    /** Repack what the view shows. If no fixed struct in the record has an optional part, the view
        stays valid, and what was not shown makes the buffer stay as it was. */
    method Compact() returns (ok: bool)
      requires WellFormed(Struct(fields))
      modifies this
      ensures record == old(record) && (data == old(data) || fresh(data))
      ensures old(Compacted(data[..], fields)) == if ok then Ok(data[..]) else Failure
      ensures !ok ==> data == old(data)
      ensures old(Valid()) && AllPlain(fields) ==> HaveTypes(record, fields) && ok == old(AllShown(data[..], fields, record, 0))
      ensures old(Valid()) && AllPlain(fields) && ok ==> data[..] == PackStruct(fields, record)
      ensures old(Valid()) && AllPlain(fields) && |PackStruct(fields, record)| < U32_LIMIT ==> Valid()
    {
      hide Schema, Good, View, AllShown, PackStruct, HasType, WellFormed, Compacted, AllPlain;
      ghost var plain := Valid() && AllPlain(fields);
      if plain { CompactedIsPacked(data[..], fields, record, declared); }
      match Compacted(data[..], fields)
      case Failure => ok := false;
      case Ok(bytes) =>
        ok := true;
        data := new byte[|bytes|](k requires 0 <= k < |bytes| => bytes[k]);
        assert data[..] == bytes;
        if plain {
          declared := Count(fields, record);
          if |PackStruct(fields, record)| < U32_LIMIT { PackedIsGood(fields, record); }
        }
    }
  }

  /** What an assignment packs: an optional's value as it is on the heap. */
  method PackForHeap(t: Type, v: Value) returns (bytes: seq<byte>)
    requires WellFormed(t) && HasType(v, t) && !v.Null?
    ensures bytes == HeapForm(t, v)
  {
    hide Pack;
    PayloadTyped(t, v);
    if t.Optional? {
      bytes := PackValue(t.inner, v);
    } else {
      bytes := PackValue(t, v);
    }
  }

  lemma InnerWellFormed(t: Type)
    requires t.Optional? && WellFormed(t)
    ensures WellFormed(t.inner)
  {
  }

  lemma ReadableSlots(d: seq<byte>, ts: seq<Type>, i: nat)
    requires i < |ts| && WellFormed(ts[i]) && Readable(d, ts, i)
    ensures SlotsInside(d, ts, Read16(d, 0))
  {
  }

  lemma PreparedReadable(d: seq<byte>, ts: seq<Type>, i: nat)
    requires i < |ts| && WellFormed(ts[i]) && CanSet(d, ts, i)
    ensures Readable(Prepared(d, ts, i), ts, i) && !Elided(Prepared(d, ts, i), ts, i)
  {
  }

  lemma InlineFast(d: seq<byte>, ts: seq<Type>, i: nat, v: Value)
    requires i < |ts| && WellFormed(ts[i]) && Readable(d, ts, i) && !Elided(d, ts, i) && HasType(v, ts[i]) && !IsVar(ts[i])
    ensures PutFast(d, ts, i, v) == PutCanonical(d, ts, i, v)
  {
  }
}
