/** Unpacking as it runs: a reader that moves forward over the heap parts, and a cursor over the slots
    (js/src/fracpack.ts). */
module FracReader {
  import opened ByteStrings
  import opened Wrappers
  import opened FracTypes
  import opened FracUnpack
  import opened FracView

  /** The part of a list that is read already, and what reading the others gives. */
  function After(done: seq<Value>, rest: Parsed<seq<Value>>): Parsed<seq<Value>> {
    if rest.Refused? then Refused else Parsed(done + rest.value, rest.pos)
  }

  lemma AfterMore(done: seq<Value>, x: Value, rest: Parsed<seq<Value>>)
    ensures After(done, After([x], rest)) == After(done + [x], rest)
  {
    if rest.Parsed? { assert done + ([x] + rest.value) == done + [x] + rest.value; }
  }

  lemma AfterNothing(none: seq<Value>, rest: Parsed<seq<Value>>)
    requires none == []
    ensures After(none, rest) == rest
  {
    if rest.Parsed? { assert none + rest.value == rest.value; }
  }

  lemma AfterAll(done: seq<Value>, pos: nat)
    ensures After(done, Parsed([], pos)) == Parsed(done, pos)
  {
    assert done + [] == done;
  }

  class Reader {
    const data: seq<byte>
    var pos: nat

    constructor (data: seq<byte>)
      ensures this.data == data && pos == 0
    {
      this.data := data;
      pos := 0;
    }

    /** The outcome of a step, None for an exception, is the one of the function. */
    predicate Agrees<T(==)>(r: Option<T>, p: Parsed<T>)
      reads this
    {
      match p
      case Refused => r == None
      case Parsed(x, end) => r == Some(x) && pos == end
    }

    method ReadU16() returns (n: Option<nat>)
      modifies this`pos
      ensures n == if old(pos) + 2 > |data| then None else Some(Read16(data, old(pos)))
      ensures n.Some? ==> pos == old(pos) + 2
    {
      if pos + 2 > |data| {
        return None;
      }
      n := Some(Read16(data, pos));
      pos := pos + 2;
    }

    method ReadU32() returns (n: Option<nat>)
      modifies this`pos
      ensures n == if old(pos) + 4 > |data| then None else Some(Read32(data, old(pos)))
      ensures n.Some? ==> pos == old(pos) + 4
    {
      if pos + 4 > |data| {
        return None;
      }
      n := Some(Read32(data, pos));
      pos := pos + 4;
    }

    method ReadU32At(at: nat) returns (n: Option<nat>)
      ensures n == if at + 4 > |data| then None else Some(Read32(data, at))
    {
      if at + 4 > |data| {
        return None;
      }
      n := Some(Read32(data, at));
    }

    method ReadBytes(size: nat) returns (bytes: Option<seq<byte>>)
      modifies this`pos
      ensures bytes == if old(pos) + size > |data| then None else Some(data[old(pos)..old(pos) + size])
      ensures bytes.Some? ==> pos == old(pos) + size
    {
      if pos + size > |data| {
        return None;
      }
      bytes := Some(data[pos..pos + size]);
      pos := pos + size;
    }

    method Advance(size: nat) returns (from: Option<nat>)
      modifies this`pos
      ensures from == if old(pos) + size > |data| then None else Some(old(pos))
      ensures from.Some? ==> pos == old(pos) + size
    {
      if pos + size > |data| {
        return None;
      }
      from := Some(pos);
      pos := pos + size;
    }

    method SetPos(newPos: nat) returns (ok: bool)
      modifies this`pos
      ensures ok <==> old(pos) <= newPos <= |data|
      ensures pos == if ok then newPos else old(pos)
    {
      ok := pos <= newPos <= |data|;
      if ok { pos := newPos; }
    }

    // -------------------------------------------------------------- types

    method ReadScalar(t: Type) returns (v: Option<Value>)
      requires t.Scalar?
      modifies this`pos
      ensures Agrees(v, UnpackScalar(t, data, old(pos)))
    {
      var bytes := ReadBytes(t.size);
      if bytes == None {
        return None;
      }
      var n := Unle(bytes.value);
      if t.isBool && n > 1 {
        return None;
      }
      return Some(Number(n));
    }

    method UnpackFrom(t: Type) returns (v: Option<Value>)
      requires WellFormed(t)
      modifies this`pos
      ensures Agrees(v, Unpack(t, data, old(pos)))
      decreases t, 0
    {
      match t
      case Scalar(_, _) => v := ReadScalar(t);
      case Blob(isText) => v := ReadBlob(isText);
      case Vec(elem) => v := ReadVec(elem);
      case Optional(inner) =>
        var from := Advance(4);
        if from == None {
          return None;
        }
        v := ReadOptional(inner, from.value);
      case Struct(fields) => v := ReadStruct(fields);
      case Variant(cases) => v := ReadCase(cases);
      case Tuple(elems) => v := ReadTuple(elems);
      case Array(item, len) => v := ReadArray(item, len);
      case FixedStruct(parts) => v := ReadFixed(parts);
    }

    /** Bytes are checked to be there; the end of a text is cut off at the end of the data. */
    method ReadBlob(isText: bool) returns (v: Option<Value>)
      modifies this`pos
      ensures Agrees(v, Unpack(Blob(isText), data, old(pos)))
    {
      hide Read32;
      var size := ReadU32();
      if size == None {
        return None;
      }
      if isText {
        var start := pos;
        pos := pos + size.value;
        return Some(Data(data[start..Min(|data|, pos)]));
      }
      var bytes := ReadBytes(size.value);
      if bytes == None {
        return None;
      }
      return Some(Data(bytes.value));
    }

    method ReadCase(cases: seq<Type>) returns (v: Option<Value>)
      requires WellFormed(Variant(cases))
      modifies this`pos
      ensures Agrees(v, Unpack(Variant(cases), data, old(pos)))
      decreases cases, 1
    {
      hide Read32;
      if pos + 1 > |data| {
        return None;
      }
      var index: nat := data[pos];
      pos := pos + 1;
      if index >= |cases| {
        return None;
      }
      var size := ReadU32();
      if size == None {
        return None;
      }
      var endPos := pos + size.value;
      var body := UnpackFrom(cases[index]);
      if body == None {
        return None;
      }
      pos := endPos;
      return Some(Case(index, body.value));
    }

    /** Follow the offset at c; zero stands for the empty container. */
    method ReadFollow(t: Type, c: nat) returns (v: Option<Value>)
      requires WellFormed(t)
      modifies this`pos
      ensures Agrees(v, Follow(t, data, old(pos), c))
      decreases t, 2
    {
      hide Read32, Unpack;
      var offset := ReadU32At(c);
      if offset == None {
        return None;
      }
      if offset.value == 0 {
        match EmptyOf(t)
        case Ok(empty) => return Some(empty);
        case Failure => return None;
      }
      v := ReadJump(t, c);
    }

    method ReadJump(t: Type, c: nat) returns (v: Option<Value>)
      requires WellFormed(t)
      modifies this`pos
      ensures Agrees(v, Jump(t, data, old(pos), c))
      decreases t, 1
    {
      hide Read32, Unpack;
      var offset := ReadU32At(c);
      if offset == None {
        return None;
      }
      var ok := SetPos(c + offset.value);
      if !ok {
        return None;
      }
      v := UnpackFrom(t);
    }

    method ReadOptional(inner: Type, c: nat) returns (v: Option<Value>)
      requires WellFormed(inner)
      modifies this`pos
      ensures Agrees(v, UnpackOptional(inner, data, old(pos), c))
      decreases inner, 3
    {
      hide Read32, Follow;
      var offset := ReadU32At(c);
      if offset == None {
        return None;
      }
      if offset.value == 1 {
        return Some(Null);
      }
      v := ReadFollow(inner, c);
    }

    /** A value in a slot at c, and where the next slot is. A value without a heap part is read
        where it stands: the reader goes there, the cursor behind it, and the reader back. */
    method ReadSlot(t: Type, c: nat) returns (v: Option<Value>, next: nat)
      requires WellFormed(t)
      modifies this`pos
      ensures Agrees(v, UnpackSlot(t, data, old(pos), c))
      ensures v.Some? ==> next == c + FixedSize(t)
      decreases t, 4
    {
      hide Follow, UnpackOptional, Unpack, FixedSize, IsVar;
      if !IsVar(t) {
        var saved := pos;
        pos := c;
        v := UnpackFrom(t);
        FlatEndsAt(t, data, c);
        next := pos;
        pos := saved;
      } else if t.Optional? {
        v := ReadOptional(t.inner, c);
        next := c + 4;
      } else {
        v := ReadFollow(t, c);
        next := c + 4;
      }
    }

    method ReadVec(elem: Type) returns (v: Option<Value>)
      requires WellFormed(elem)
      modifies this`pos
      ensures Agrees(v, Unpack(Vec(elem), data, old(pos)))
      decreases elem, 6
    {
      hide Read32, UnpackElements, Jump, UnpackSlot;
      var size := ReadU32();
      if size == None || size.value % FixedSize(elem) != 0 {
        return None;
      }
      var from := Advance(size.value);
      if from == None {
        return None;
      }
      var items := ReadElements(elem, from.value, size.value / FixedSize(elem));
      if items == None {
        return None;
      }
      return Some(Items(items.value));
    }

    method ReadElements(elem: Type, from: nat, n: nat) returns (items: Option<seq<Value>>)
      requires WellFormed(elem)
      modifies this`pos
      ensures Agrees(items, UnpackElements(elem, data, old(pos), from, n))
      decreases elem, 5
    {
      hide Read32, Jump, UnpackSlot, UnpackElements, WellFormed, FixedSize, IsVar;
      var c: nat, i: nat := from, 0;
      var result: seq<Value> := [];
      ghost var whole := UnpackElements(elem, data, pos, from, n);
      AfterNothing(result, whole);
      while i < n
        invariant i <= n
        invariant whole == After(result, UnpackElements(elem, data, pos, c, n - i))
      {
        var v: Option<Value>, next: nat;
        ElementsNext(elem, data, pos, c, n - i);
        if IsVar(elem) {
          v := ReadJump(elem, c);
          next := c + 4;
        } else {
          v, next := ReadSlot(elem, c);
        }
        if v == None {
          return None;
        }
        AfterMore(result, v.value, UnpackElements(elem, data, pos, c + FixedSize(elem), n - i - 1));
        c := next;
        result := result + [v.value];
        i := i + 1;
      }
      NoneLeft(elem, data, pos, c);
      AfterAll(result, pos);
      return Some(result);
    }

    method ReadStruct(fields: seq<Type>) returns (v: Option<Value>)
      requires WellFormed(Struct(fields))
      modifies this`pos
      ensures Agrees(v, Unpack(Struct(fields), data, old(pos)))
      decreases fields, 1
    {
      hide Read16, UnpackFields;
      var size := ReadU16();
      if size == None {
        return None;
      }
      var from := Advance(size.value);
      if from == None {
        return None;
      }
      var items := ReadFields(fields, from.value, pos);
      if items == None {
        return None;
      }
      return Some(Items(items.value));
    }

    method ReadTuple(elems: seq<Type>) returns (v: Option<Value>)
      requires WellFormed(Tuple(elems))
      modifies this`pos
      ensures Agrees(v, Unpack(Tuple(elems), data, old(pos)))
      decreases elems, 1
    {
      hide Read16, UnpackFields;
      var size := ReadU16();
      if size == None {
        return None;
      }
      var from := Advance(size.value);
      if from == None {
        return None;
      }
      var items := ReadFields(elems, from.value, pos);
      if items == None {
        return None;
      }
      return Some(Items(items.value));
    }

    method ReadArray(item: Type, len: Size) returns (v: Option<Value>)
      requires WellFormed(item)
      modifies this`pos
      ensures Agrees(v, Unpack(Array(item, len), data, old(pos)))
      decreases item, 6
    {
      hide UnpackSlot, WellFormed, FixedSize;
      ghost var r := pos;
      var from := Advance(FixedSize(item) * len);
      if from == None {
        return None;
      }
      var c: nat, i: nat := from.value, 0;
      var result: seq<Value> := [];
      ghost var whole := UnpackArray(item, data, pos, c, len);
      AfterNothing(result, whole);
      while i < len
        invariant i <= len
        invariant whole == After(result, UnpackArray(item, data, pos, c, len - i))
      {
        var v, next := ReadSlot(item, c);
        if v == None {
          return None;
        }
        AfterMore(result, v.value, UnpackArray(item, data, pos, c + FixedSize(item), len - i - 1));
        c := next;
        result := result + [v.value];
        i := i + 1;
      }
      AfterAll(result, pos);
      return Some(Items(result));
    }

    method ReadFixed(ts: seq<Type>) returns (v: Option<Value>)
      requires WellFormed(FixedStruct(ts))
      modifies this`pos
      ensures Agrees(v, Unpack(FixedStruct(ts), data, old(pos)))
      decreases ts, 0
    {
      hide UnpackSlot, WellFormed, FixedSize, FixedTotal;
      PartsWellFormed(ts);
      var from := Advance(FixedTotal(ts));
      if from == None {
        return None;
      }
      var c: nat, i: nat := from.value, 0;
      var result: seq<Value> := [];
      ghost var whole := UnpackParts(ts, data, pos, c);
      assert ts[0..] == ts;
      AfterNothing(result, whole);
      while i < |ts|
        invariant i <= |ts|
        invariant whole == After(result, UnpackParts(ts[i..], data, pos, c))
      {
        assert ts[i..][1..] == ts[i + 1..] && ts[i..][0] == ts[i];
        var v, next := ReadSlot(ts[i], c);
        if v == None {
          return None;
        }
        AfterMore(result, v.value, UnpackParts(ts[i + 1..], data, pos, c + FixedSize(ts[i])));
        c := next;
        result := result + [v.value];
        i := i + 1;
      }
      AfterAll(result, pos);
      return Some(Items(result));
    }

    method ReadFields(ts: seq<Type>, from: nat, heapPos: nat) returns (items: Option<seq<Value>>)
      requires forall t :: t in ts ==> WellFormed(t)
      modifies this`pos
      ensures Agrees(items, UnpackFields(ts, data, old(pos), from, heapPos))
      decreases ts, 0
    {
      hide UnpackSlot, WellFormed;
      var required := RequiredCount(ts);
      var c: nat, i: nat := from, 0;
      var result: seq<Value> := [];
      ghost var whole := UnpackFields(ts, data, pos, from, heapPos);
      assert ts[0..] == ts;
      AfterNothing(result, whole);
      while i < |ts|
        invariant i <= |ts|
        invariant whole == After(result, UnpackFields(ts[i..], data, pos, c, heapPos))
      {
        assert ts[i..][1..] == ts[i + 1..] && ts[i..][0] == ts[i];
        if i < required || c < heapPos {
          var v, next := ReadSlot(ts[i], c);
          if v == None {
            return None;
          }
          AfterMore(result, v.value, UnpackFields(ts[i + 1..], data, pos, c + FixedSize(ts[i]), heapPos));
          c := next;
          result := result + [v.value];
        } else {
          AfterMore(result, Null, UnpackFields(ts[i + 1..], data, pos, c, heapPos));
          result := result + [Null];
        }
        i := i + 1;
      }
      var ok := ConsumeTrailing(c, heapPos);
      if !ok {
        return None;
      }
      AfterAll(result, pos);
      return Some(result);
    }

    method ConsumeTrailing(from: nat, heapPos: nat) returns (ok: bool)
      modifies this`pos
      ensures var p := SkipUnknown(data, old(pos), from, heapPos);
              if p.Refused? then !ok else ok && pos == p.pos
    {
      hide Read32;
      var c := from;
      while c < heapPos
        invariant SkipUnknown(data, pos, c, heapPos) == SkipUnknown(data, old(pos), from, heapPos)
      {
        var offset := ReadU32At(c);
        if offset == None {
          return false;
        }
        if offset.value > 1 {
          var target := c + offset.value;
          if target > |data| || target < pos {
            return false;
          }
          pos := target;
        }
        c := c + 4;
      }
      return true;
    }
  }

  /** One element is read, then the others. */
  lemma ElementsNext(elem: Type, d: seq<byte>, r: nat, c: nat, n: nat)
    requires WellFormed(elem) && n > 0
    ensures var x := if IsVar(elem) then Jump(elem, d, r, c) else UnpackSlot(elem, d, r, c);
            UnpackElements(elem, d, r, c, n)
            == if x.Refused? then Refused else After([x.value], UnpackElements(elem, d, x.pos, c + FixedSize(elem), n - 1))
  {
    hide Jump, UnpackSlot, FixedSize, IsVar;
  }

  lemma NoneLeft(elem: Type, d: seq<byte>, r: nat, c: nat)
    requires WellFormed(elem)
    ensures UnpackElements(elem, d, r, c, 0) == Parsed([], r)
  {
  }

  lemma PartsWellFormed(ts: seq<Type>)
    requires WellFormed(FixedStruct(ts))
    ensures forall t :: t in ts ==> WellFormed(t)
  {
  }

  /** Reading a value without a heap part leaves the reader right behind it. */
  lemma {:induction false} FlatEndsAt(t: Type, d: seq<byte>, r: nat)
    requires WellFormed(t) && !IsVar(t)
    ensures var p := Unpack(t, d, r); p.Parsed? ==> p.pos == r + FixedSize(t)
    decreases t, 1
  {
    hide UnpackArray, UnpackParts, FixedTotal;
    match t
    case Scalar(_, _) =>
    case Array(item, len) => FlatArrayStays(item, d, r + FixedSize(item) * len, r, len);
    case FixedStruct(parts) => FlatPartsStay(parts, d, r + FixedTotal(parts), r);
  }

  lemma FlatSlotStays(t: Type, d: seq<byte>, r: nat, c: nat)
    requires WellFormed(t) && !IsVar(t)
    ensures var p := UnpackSlot(t, d, r, c); p.Parsed? ==> p.pos == r
  {
    hide Unpack;
  }

  lemma {:induction false} FlatArrayStays(item: Type, d: seq<byte>, r: nat, c: nat, n: nat)
    requires WellFormed(item) && !IsVar(item)
    ensures var p := UnpackArray(item, d, r, c, n); p.Parsed? ==> p.pos == r
    decreases n
  {
    hide UnpackSlot, WellFormed, IsVar, FixedSize;
    if n > 0 {
      FlatSlotStays(item, d, r, c);
      FlatArrayStays(item, d, r, c + FixedSize(item), n - 1);
    }
  }

  lemma {:induction false} FlatPartsStay(ts: seq<Type>, d: seq<byte>, r: nat, c: nat)
    requires (forall t :: t in ts ==> WellFormed(t)) && Flat(ts)
    ensures var p := UnpackParts(ts, d, r, c); p.Parsed? ==> p.pos == r
    decreases |ts|
  {
    hide UnpackSlot, WellFormed, IsVar, FixedSize;
    if ts != [] {
      FlatSlotStays(ts[0], d, r, c);
      FlatPartsStay(ts[1..], d, r, c + FixedSize(ts[0]));
    }
  }

  /** The last field that is not optional, counted from one. */
  method RequiredCount(ts: seq<Type>) returns (n: nat)
    ensures n <= |ts| && forall i :: 0 <= i < |ts| ==> (i < n <==> Required(ts[i..]))
  {
    n := |ts|;
    while n > 0 && ts[n - 1].Optional?
      invariant n <= |ts|
      invariant forall i :: n <= i < |ts| ==> !Required(ts[i..])
    {
      assert ts[n - 1..][1..] == ts[n..] && ts[n - 1..][0] == ts[n - 1];
      n := n - 1;
    }
    forall i | 0 <= i < |ts| ensures i < n <==> Required(ts[i..]) {
      if i < n { RequiredBefore(ts, i, n - 1); }
    }
  }

  lemma {:induction false} RequiredBefore(ts: seq<Type>, i: nat, k: nat)
    requires i <= k < |ts| && !ts[k].Optional?
    ensures Required(ts[i..])
    decreases k - i
  {
    assert ts[i..][0] == ts[i] && ts[i..][1..] == ts[i + 1..];
    if i < k { RequiredBefore(ts, i + 1, k); }
  }

  /** A whole buffer. */
  method UnpackValue(t: Type, data: seq<byte>) returns (v: Result<Value>)
    requires WellFormed(t)
    ensures v == UnpackAll(t, data)
  {
    var r := new Reader(data);
    var value := r.UnpackFrom(t);
    if value == None || r.pos != |data| {
      return Failure;
    }
    return Ok(value.value);
  }
}
