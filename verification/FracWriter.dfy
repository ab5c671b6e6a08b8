/** Packing as it runs: a growing buffer whose offsets are written before the bytes they lead to
    (js/src/fracpack.ts). */
module FracWriter {
  import opened ByteStrings
  import opened FracFields
  import opened FracTypes
  import opened FracView

  // ---------------------------------------------------------------- what is written when

  /** The slot of a field before the heap part is known. */
  function Blank(t: Type, v: Value): (s: seq<byte>)
    requires HasType(v, t)
    ensures |s| == FixedSize(t)
  {
    if !IsVar(t) then Pack(t, v)
    else if t.Optional? && (v.Null? || !IsVar(t.inner)) then U32(1)
    else U32(0)
  }

  /** The blank slots of the fields from i to k. */
  function Blanks(ts: seq<Type>, vs: seq<Value>, i: nat, k: nat): (s: seq<byte>)
    requires HaveTypes(vs, ts) && i <= k <= |ts|
    decreases k - i
  {
    if i == k then [] else Blank(ts[i], vs[i]) + Blanks(ts, vs, i + 1, k)
  }

  /** From the slot of the i-th field to its heap part. */
  function Distance(ts: seq<Type>, vs: seq<Value>, dist: int, i: nat): int
    requires HaveTypes(vs, ts) && i <= |ts|
  {
    dist + HeapOffset(ts, vs, i) - Offset(ts, i)
  }

  /** The slots, and the heap parts, of the first i fields. */
  function SlotsTo(ts: seq<Type>, vs: seq<Value>, dist: int, i: nat): (s: seq<byte>)
    requires HaveTypes(vs, ts) && i <= |ts|
  {
    if i == 0 then [] else SlotsTo(ts, vs, dist, i - 1) + Slot(ts[i - 1], vs[i - 1], Distance(ts, vs, dist, i - 1))
  }

  function HeapsTo(ts: seq<Type>, vs: seq<Value>, i: nat): (s: seq<byte>)
    requires HaveTypes(vs, ts) && i <= |ts|
  {
    if i == 0 then [] else HeapsTo(ts, vs, i - 1) + Heap(ts[i - 1], vs[i - 1])
  }

  lemma {:induction false} BlanksSnoc(ts: seq<Type>, vs: seq<Value>, i: nat, k: nat)
    requires HaveTypes(vs, ts) && i <= k < |ts|
    ensures Blanks(ts, vs, i, k + 1) == Blanks(ts, vs, i, k) + Blank(ts[k], vs[k])
    decreases k - i
  {
    hide Blank, HasType;
    if i < k {
      BlanksSnoc(ts, vs, i + 1, k);
    } else {
      assert Blanks(ts, vs, k + 1, k + 1) == [];
    }
  }

  lemma {:induction false} SlotsToSize(ts: seq<Type>, vs: seq<Value>, dist: int, i: nat)
    requires HaveTypes(vs, ts) && i <= |ts|
    ensures |SlotsTo(ts, vs, dist, i)| == Offset(ts, i)
    decreases i
  {
    hide Slot, HasType, Distance;
    if i > 0 {
      SlotsToSize(ts, vs, dist, i - 1);
      OffsetNext(ts, i - 1);
    }
  }

  lemma {:induction false} HeapsToSize(ts: seq<Type>, vs: seq<Value>, i: nat)
    requires HaveTypes(vs, ts) && i <= |ts|
    ensures |HeapsTo(ts, vs, i)| == HeapOffset(ts, vs, i)
    decreases i
  {
    hide Heap, HasType;
    if i > 0 {
      HeapsToSize(ts, vs, i - 1);
      HeapOffsetNext(ts, vs, i - 1);
    }
  }

  lemma {:induction false} BlanksSize(ts: seq<Type>, vs: seq<Value>, i: nat, k: nat)
    requires HaveTypes(vs, ts) && i <= k <= |ts|
    ensures |Blanks(ts, vs, i, k)| == Offset(ts, k) - Offset(ts, i)
    decreases k - i
  {
    hide Blank, HasType;
    if i < k {
      BlanksSize(ts, vs, i + 1, k);
      OffsetNext(ts, i);
    }
  }

  lemma {:induction false} CountFrom(ts: seq<Type>, vs: seq<Value>, i: nat)
    requires |ts| == |vs| && i <= |ts|
    ensures Absent(ts[i..], vs[i..]) <==> i >= Count(ts, vs)
    decreases i
  {
    if i == 0 {
      assert ts[0..] == ts && vs[0..] == vs;
    } else if Absent(ts, vs) {
      AbsentFrom(ts, vs, i);
    } else {
      CountFrom(ts[1..], vs[1..], i - 1);
      assert ts[1..][i - 1..] == ts[i..] && vs[1..][i - 1..] == vs[i..];
    }
  }

  lemma {:induction false} AbsentFrom(ts: seq<Type>, vs: seq<Value>, i: nat)
    requires |ts| == |vs| && i <= |ts| && Absent(ts, vs)
    ensures Absent(ts[i..], vs[i..])
    decreases i
  {
    if i == 0 {
      assert ts[0..] == ts && vs[0..] == vs;
    } else {
      AbsentFrom(ts[1..], vs[1..], i - 1);
      assert ts[1..][i - 1..] == ts[i..] && vs[1..][i - 1..] == vs[i..];
    }
  }

  /** The packed fields are the first ones and the others. */
  lemma {:induction false} FieldsSplit(ts: seq<Type>, vs: seq<Value>, dist: int, i: nat)
    requires HaveTypes(vs, ts) && i <= Count(ts, vs)
    ensures HaveTypes(vs[i..], ts[i..])
    ensures Slots(ts, vs, dist) == SlotsTo(ts, vs, dist, i) + Slots(ts[i..], vs[i..], Distance(ts, vs, dist, i))
    ensures Heaps(ts, vs) == HeapsTo(ts, vs, i) + Heaps(ts[i..], vs[i..])
    decreases i
  {
    hide *;
    if i == 0 {
      assert ts[0..] == ts && vs[0..] == vs;
      NoOffsets(ts, vs, dist);
    } else {
      SameLength(ts, vs);
      FieldsSplit(ts, vs, dist, i - 1);
      CountFrom(ts, vs, i - 1);
      TailOfTail(ts, vs, i);
      FieldsUnfold(ts[i - 1..], vs[i - 1..], Distance(ts, vs, dist, i - 1));
      SplitNext(ts, vs, dist, i);
    }
  }

  /** One field further: its slot, its heap part, and the distance of the next. */
  lemma SplitNext(ts: seq<Type>, vs: seq<Value>, dist: int, i: nat)
    requires HaveTypes(vs, ts) && 1 <= i <= |ts|
    ensures SlotsTo(ts, vs, dist, i) == SlotsTo(ts, vs, dist, i - 1) + Slot(ts[i - 1], vs[i - 1], Distance(ts, vs, dist, i - 1))
    ensures HeapsTo(ts, vs, i) == HeapsTo(ts, vs, i - 1) + Heap(ts[i - 1], vs[i - 1])
    ensures Distance(ts, vs, dist, i)
            == Distance(ts, vs, dist, i - 1) - FixedSize(ts[i - 1]) + |Heap(ts[i - 1], vs[i - 1])|
  {
    hide Slot, Heap, HasType, FixedSize, Offset, HeapOffset;
    OffsetNext(ts, i - 1);
    HeapOffsetNext(ts, vs, i - 1);
  }

  lemma TailOfTail(ts: seq<Type>, vs: seq<Value>, i: nat)
    requires 1 <= i <= |ts| == |vs|
    ensures ts[i - 1..][1..] == ts[i..] && vs[i - 1..][1..] == vs[i..] && ts[i - 1..][0] == ts[i - 1] && vs[i - 1..][0] == vs[i - 1]
  {
  }

  lemma NoOffsets(ts: seq<Type>, vs: seq<Value>, dist: int)
    requires HaveTypes(vs, ts)
    ensures Distance(ts, vs, dist, 0) == dist && SlotsTo(ts, vs, dist, 0) == [] && HeapsTo(ts, vs, 0) == []
  {
  }

  lemma NothingLeft(ts: seq<Type>, vs: seq<Value>, dist: int)
    requires HaveTypes(vs, ts) && Absent(ts, vs)
    ensures Slots(ts, vs, dist) == [] && Heaps(ts, vs) == []
  {
    hide HasType;
    AbsentHeaps(ts, vs);
  }

  lemma FieldsWhole(ts: seq<Type>, vs: seq<Value>)
    requires HaveTypes(vs, ts)
    ensures var k := Count(ts, vs);
            PackStruct(ts, vs) == U16(Offset(ts, k)) + SlotsTo(ts, vs, Offset(ts, k), k) + HeapsTo(ts, vs, k)
  {
    hide Slots, Heaps, HasType, SlotsTo, HeapsTo, Offset, Fixed, U16, Count, Absent;
    var k := Count(ts, vs);
    FixedIsOffset(ts, vs);
    FieldsSplit(ts, vs, Offset(ts, k), k);
    CountFrom(ts, vs, k);
    NothingLeft(ts[k..], vs[k..], Distance(ts, vs, Offset(ts, k), k));
  }

  /** The same for parts, all of which have a slot. */
  lemma {:induction false} PartsSplit(ts: seq<Type>, vs: seq<Value>, dist: int, i: nat)
    requires HaveTypes(vs, ts) && i <= |ts|
    ensures HaveTypes(vs[i..], ts[i..])
    ensures AllSlots(ts, vs, dist) == SlotsTo(ts, vs, dist, i) + AllSlots(ts[i..], vs[i..], Distance(ts, vs, dist, i))
    ensures Heaps(ts, vs) == HeapsTo(ts, vs, i) + Heaps(ts[i..], vs[i..])
    decreases i
  {
    hide *;
    if i == 0 {
      assert ts[0..] == ts && vs[0..] == vs;
      NoOffsets(ts, vs, dist);
    } else {
      PartsSplit(ts, vs, dist, i - 1);
      SameLength(ts, vs);
      TailOfTail(ts, vs, i);
      PartsUnfold(ts[i - 1..], vs[i - 1..], Distance(ts, vs, dist, i - 1));
      SplitNext(ts, vs, dist, i);
    }
  }

  lemma SameLength(ts: seq<Type>, vs: seq<Value>)
    requires HaveTypes(vs, ts)
    ensures |ts| == |vs|
  {
    hide HasType;
  }

  lemma PartsWhole(ts: seq<Type>, vs: seq<Value>)
    requires HaveTypes(vs, ts)
    ensures Offset(ts, |ts|) == FixedTotal(ts)
    ensures PackParts(ts, vs) == SlotsTo(ts, vs, Offset(ts, |ts|), |ts|) + HeapsTo(ts, vs, |ts|)
  {
    hide AllSlots, Heaps, HasType, SlotsTo, HeapsTo, Offset, FixedTotal;
    var k := |ts|;
    OffsetTotal(ts);
    PartsSplit(ts, vs, Offset(ts, k), k);
    NoPartsLeft(ts[k..], vs[k..], Distance(ts, vs, Offset(ts, k), k));
  }

  lemma NoPartsLeft(ts: seq<Type>, vs: seq<Value>, dist: int)
    requires HaveTypes(vs, ts) && ts == []
    ensures AllSlots(ts, vs, dist) == [] && Heaps(ts, vs) == []
  {
  }

  // ---------------------------------------------------------------- the writer

  class Writer {
    var buf: array<byte>
    var pos: nat

    ghost predicate Valid()
      reads this
    {
      pos <= buf.Length
    }

    /** What is finished so far. */
    ghost function Written(): (s: seq<byte>)
      requires Valid()
      reads this, buf
      ensures |s| == pos
    {
      buf[..pos]
    }

    constructor (initialSize: nat)
      ensures Valid() && fresh(buf) && Written() == []
    {
      buf := new byte[initialSize](_ => 0);
      pos := 0;
    }

    method Grow(needed: nat)
      requires Valid()
      modifies this`buf
      ensures pos + needed <= buf.Length && Written() == old(Written())
      ensures buf == old(buf) || fresh(buf)
    {
      var required := pos + needed;
      if required > buf.Length {
        var newSize := if buf.Length * 2 >= required then buf.Length * 2 else required;
        var newBuf := new byte[newSize](_ => 0);
        forall i | 0 <= i < buf.Length {
          newBuf[i] := buf[i];
        }
        buf := newBuf;
      }
    }

    method WriteBytes(data: seq<byte>)
      requires Valid()
      modifies this, buf
      ensures Valid() && Written() == old(Written()) + data
      ensures buf == old(buf) || fresh(buf)
    {
      Grow(|data|);
      forall i | 0 <= i < |data| {
        buf[pos + i] := data[i];
      }
      pos := pos + |data|;
      assert buf[..pos - |data|] == old(Written());
    }

    method WriteU16(n: nat)
      requires Valid()
      modifies this, buf
      ensures Valid() && Written() == old(Written()) + U16(n)
      ensures buf == old(buf) || fresh(buf)
    {
      WriteBytes(U16(n));
    }

    method WriteU32(n: nat)
      requires Valid()
      modifies this, buf
      ensures Valid() && Written() == old(Written()) + U32(n)
      ensures buf == old(buf) || fresh(buf)
    {
      WriteBytes(U32(n));
    }

    method PatchU32(offset: nat, n: nat)
      requires Valid() && offset + 4 <= pos
      modifies buf
      ensures Written() == Write(old(Written()), offset, U32(n))
    {
      var code := U32(n);
      buf[offset] := code[0];
      buf[offset + 1] := code[1];
      buf[offset + 2] := code[2];
      buf[offset + 3] := code[3];
      assert code == [code[0], code[1], code[2], code[3]];
    }

    method Finish() returns (s: seq<byte>)
      requires Valid()
      ensures s == Written()
    {
      s := buf[..pos];
    }
  }
}
