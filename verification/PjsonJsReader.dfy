/** The second pjson decoder as it runs: one loop for arrays and objects over absolute positions, and
    one for row arrays (js/src/pjson.ts, lines 58-77 and 202-299). */
module PjsonJsReader {
  import opened ByteStrings
  import opened Wrappers
  import opened PjsonNumbers
  import opened Pjson
  import opened PjsonDecode
  import opened PjsonReader
  import opened PjsonJs
  import opened PjsonJsDecode

  // ---------------------------------------------------------------- numbers

  lemma UnleFront(b: seq<byte>, p: nat, q: nat)
    requires p < q <= |b|
    ensures Unle(b[p..q]) == b[p] as int + 256 * Unle(b[p + 1..q])
  {
    UnleUnfold(b[p..q]);
    assert b[p..q][1..] == b[p + 1..q];
  }

  /** A number from its highest byte down. */
  method Read(data: seq<byte>, at: int, width: nat) returns (n: Option<nat>)
    ensures n == if at < 0 || at + width > |data| then None else Some(ReadLe(data, at, width))
  {
    hide Unle;
    if at < 0 || at + width > |data| {
      return None;
    }
    var x: nat, i := 0, width;
    NoBytes(data, at + width);
    while i > 0
      invariant 0 <= i <= width && x == Unle(data[at + i..at + width])
    {
      i := i - 1;
      UnleFront(data, at + i, at + width);
      x := x * 256 + data[at + i] as int;
    }
    return Some(x);
  }

  method ReadVar(data: seq<byte>, at: nat) returns (r: Option<Varuint>)
    requires at <= |data|
    ensures r == VaruintDecode(data[at..])
  {
    hide Unle;
    if at == |data| {
      return None;
    }
    var first: int := data[at];
    var count := first / 64 + 1;
    var rest := Read(data, at + 1, count - 1);
    if rest == None {
      return None;
    }
    SliceSlice(data, at, |data|, at + 1, at + count);
    assert data[at..|data|] == data[at..];
    return Some(Varuint(first % 64 + 64 * rest.value, count));
  }

  // ---------------------------------------------------------------- tables

  /** The number `at` bytes into the i-th row of a table. */
  method Slot(b: seq<byte>, table: nat, at: nat, w: nat, stride: nat, n: nat, i: nat) returns (x: nat)
    requires at + w <= stride && table + n * stride <= |b| && i < n
    ensures x == ReadTable(b, table, at, w, stride, n)[i]
  {
    hide ReadLe, ReadTable;
    TableAt(b, table, at, w, stride, n, i);
    var number := Read(b, table + i * stride + at, w);
    return number.value;
  }

  /** Where the i-th part starts and ends, as positions in the whole. */
  method Bounds(b: seq<byte>, table: nat, w: nat, stride: nat, n: nat, i: nat, base: nat, end: nat) returns (at: nat, next: nat)
    requires w <= stride && table + n * stride <= |b| && i < n && base <= end
    ensures var offsets := ReadTable(b, table, 0, w, stride, n);
            at == base + offsets[i] && next == base + NextOffset(offsets, i, end - base)
  {
    hide ReadTable;
    var off := Slot(b, table, 0, w, stride, n, i);
    at, next := base + off, end;
    if i + 1 < n {
      off := Slot(b, table, 0, w, stride, n, i + 1);
      next := base + off;
    }
  }

  /** A table inside a part is the table at its place in the whole. */
  lemma {:induction false} TableInside(b: seq<byte>, from: nat, to: nat, pos: nat, w: nat, n: nat)
    requires from <= to <= |b| && from + pos + n * w <= to
    ensures ReadTable(b[from..to], pos, 0, w, w, n) == ReadTable(b, from + pos, 0, w, w, n)
    decreases n
  {
    hide Unle;
    if n > 0 {
      StepLess(n, w);
      TableInside(b, from, to, pos, w, n - 1);
      SliceSlice(b, from, to, from + pos + (n - 1) * w, from + pos + (n - 1) * w + w);
    }
  }

  // ---------------------------------------------------------------- what is left to read

  function Unmark(utf8: seq<byte> -> bool, r: Result<Value>): Result<Value> {
    if r.Ok? then Ok(Unmarked(utf8, r.value)) else Failure
  }

  /** What reading the parts from the i-th offset on gives. */
  function SpansLeft(hash: seq<byte> -> byte, utf8: seq<byte> -> bool, data: seq<byte>, offsets: seq<nat>, i: nat, depth: nat)
    : Result<seq<Value>>
    requires i <= |offsets|
  {
    var r := JsSpans(hash, data, offsets, i, depth);
    if r.Ok? then Ok(UnmarkedAll(utf8, r.value)) else Failure
  }

  lemma SpansStep(hash: seq<byte> -> byte, utf8: seq<byte> -> bool, data: seq<byte>, offsets: seq<nat>, i: nat, depth: nat)
    requires i < |offsets|
    ensures !InOrder(offsets, i, |data|) ==> SpansLeft(hash, utf8, data, offsets, i, depth) == Failure
    ensures InOrder(offsets, i, |data|) ==>
              var first := JsRead(hash, utf8, data[offsets[i]..NextOffset(offsets, i, |data|)], depth + 1);
              SpansLeft(hash, utf8, data, offsets, i, depth)
              == if first.Failure? then Failure else After([first.value], SpansLeft(hash, utf8, data, offsets, i + 1, depth))
  {
    hide JsDecode, Unmarked;
    if InOrder(offsets, i, |data|) {
      var first := JsDecode(hash, data[offsets[i]..NextOffset(offsets, i, |data|)], depth + 1);
      var rest := JsSpans(hash, data, offsets, i + 1, depth);
      if first.Ok? && rest.Ok? { AllStep(utf8, first.value, rest.value); }
    }
  }

  lemma AllStep(utf8: seq<byte> -> bool, v: Value, rest: seq<Value>)
    ensures UnmarkedAll(utf8, [v] + rest) == [Unmarked(utf8, v)] + UnmarkedAll(utf8, rest)
  {
    hide Unmarked;
    assert ([v] + rest)[1..] == rest;
  }

  lemma NoneLeft(hash: seq<byte> -> byte, utf8: seq<byte> -> bool, data: seq<byte>, offsets: seq<nat>, depth: nat)
    ensures SpansLeft(hash, utf8, data, offsets, |offsets|, depth) == Ok([])
  {
  }

  /** The same for the entries of an object. */
  function EntriesLeft(hash: seq<byte> -> byte, utf8: seq<byte> -> bool, data: seq<byte>, hashes: seq<byte>,
      offsets: seq<nat>, sizes: seq<nat>, i: nat, depth: nat)
    : Result<seq<Entry>>
    requires i <= |offsets| == |sizes| == |hashes|
  {
    var r := JsEntries(hash, data, hashes, offsets, sizes, i, depth);
    if r.Ok? then Ok(UnmarkedEntries(utf8, r.value)) else Failure
  }

  lemma EntryStep(hash: seq<byte> -> byte, utf8: seq<byte> -> bool, data: seq<byte>, hashes: seq<byte>,
      offsets: seq<nat>, sizes: seq<nat>, i: nat, depth: nat)
    requires i < |offsets| == |sizes| == |hashes|
    ensures EntriesLeft(hash, utf8, data, hashes, offsets, sizes, i, depth)
            == if !InOrder(offsets, i, |data|) then Failure
               else
                 var entry := data[offsets[i]..NextOffset(offsets, i, |data|)];
                 match ReadKey(entry, sizes[i])
                 case Failure => Failure
                 case Ok(k) =>
                   if hashes[i] != hash(k.key) then Failure
                   else
                     var value := JsRead(hash, utf8, entry[k.used..], depth + 1);
                     if value.Failure? then Failure
                     else After([Entry(Shown(utf8, k.key), value.value)],
                                EntriesLeft(hash, utf8, data, hashes, offsets, sizes, i + 1, depth))
  {
    hide JsDecode, Unmarked, Shown, ReadKey;
    if InOrder(offsets, i, |data|) {
      var entry := data[offsets[i]..NextOffset(offsets, i, |data|)];
      var key := ReadKey(entry, sizes[i]);
      if key.Ok? {
        var value := JsDecode(hash, entry[key.value.used..], depth + 1);
        var rest := JsEntries(hash, data, hashes, offsets, sizes, i + 1, depth);
        if value.Ok? && rest.Ok? { EntriesMore(utf8, Entry(key.value.key, value.value), rest.value); }
      }
    }
  }

  lemma EntriesMore(utf8: seq<byte> -> bool, e: Entry, rest: seq<Entry>)
    ensures UnmarkedEntries(utf8, [e] + rest) == [Entry(Shown(utf8, e.key), Unmarked(utf8, e.value))] + UnmarkedEntries(utf8, rest)
  {
    hide Unmarked, Shown;
    assert ([e] + rest)[1..] == rest;
  }

  lemma NoEntryLeft(hash: seq<byte> -> byte, utf8: seq<byte> -> bool, data: seq<byte>, hashes: seq<byte>,
      offsets: seq<nat>, sizes: seq<nat>, depth: nat)
    requires |offsets| == |sizes| == |hashes|
    ensures EntriesLeft(hash, utf8, data, hashes, offsets, sizes, |offsets|, depth) == Ok([])
  {
  }

  // ---------------------------------------------------------------- values

  method ReadJsLeaf(utf8: seq<byte> -> bool, b: seq<byte>, tag: nat, low: nat) returns (r: Result<Value>)
    requires |b| >= 1 && low < 16
    ensures r == Unmark(utf8, JsLeaf(b, tag, low))
  {
    hide Unle, JsDecimalOf, Shown;
    if tag == 0 {
      return if |b| == 1 then Ok(Null) else Failure;
    }
    if tag == 1 {
      return if |b| == 1 && low <= 1 then Ok(Bool(low == 1)) else Failure;
    }
    if tag == 2 {
      return if |b| == 1 then Ok(Uint(low)) else Failure;
    }
    if tag == 3 {
      return if |b| == 1 && low != 0 then Ok(NegInt(low)) else Failure;
    }
    if tag == 4 || tag == 5 {
      if |b| != low + 2 {
        return Failure;
      }
      var n := Read(b, 1, low + 1);
      assert b[1..1 + (low + 1)] == b[1..];
      if tag == 5 && n.value == 0 {
        return Failure;
      }
      return Ok(if tag == 5 then NegInt(n.value) else Uint(n.value));
    }
    if tag == 7 {
      DecimalStays(utf8, b, low + 1);
      r := ReadJsDecimal(b, low + 1);
      return;
    }
    if tag == 6 {
      var w := low % 8;
      if w < 1 || w > 3 || |b| != 1 + FloatBytes(w) {
        return Failure;
      }
      var bits := Read(b, 1, FloatBytes(w));
      assert b[1..1 + FloatBytes(w)] == b[1..];
      return Ok(Float(low, bits.value));
    }
    if tag == 9 {
      if low > 1 {
        return Failure;
      }
      return Ok(Text(low, if low == 1 then b[1..] else Shown(utf8, b[1..])));
    }
    if tag == 10 {
      return if low == 0 then Ok(Bytes(0, b[1..])) else Failure;
    }
    if tag == 11 && low != 0 {
      if low > 10 || |b| < 3 {
        return Failure;
      }
      var count := Read(b, |b| - 2, 2);
      if |b| != 3 + count.value * ElementSize(low - 1) {
        return Failure;
      }
      return Ok(TypedArray(low - 1, b[1..|b| - 2]));
    }
    return Failure;
  }

  lemma DecimalStays(utf8: seq<byte> -> bool, b: seq<byte>, count: nat)
    requires 1 <= count <= 16 && |b| >= 1
    ensures Unmark(utf8, JsDecimalOf(b, count)) == JsDecimalOf(b, count)
  {
    hide Unle, VaruintDecode, Unzigzag;
  }

  method ReadJsDecimal(b: seq<byte>, count: nat) returns (r: Result<Value>)
    requires 1 <= count <= 16 && |b| >= 1
    ensures r == JsDecimalOf(b, count)
  {
    hide Unle, VaruintDecode;
    var zz := Read(b, 1, count);
    if zz == None {
      return Failure;
    }
    var scale := ReadVar(b, 1 + count);
    if scale == None || |b| != 1 + count + scale.value.used {
      return Failure;
    }
    return Ok(Decimal(Unzigzag(zz.value), Unzigzag(scale.value.value)));
  }

  method ReadAny(hash: seq<byte> -> byte, utf8: seq<byte> -> bool, b: seq<byte>, depth: nat) returns (r: Result<Value>)
    ensures r == JsRead(hash, utf8, b, depth)
    decreases |b|, 5
  {
    hide JsLeaf, JsArrayOf, JsObjectOf, JsRowsOf, Unmarked;
    if depth > MAX_DEPTH || |b| == 0 {
      return Failure;
    }
    var first: int := b[0];
    var tag, low := first / 16, first % 16;
    if tag == 12 && low == 1 {
      r := ReadRows(hash, utf8, b, depth);
    } else if (tag == 11 || tag == 12) && low == 0 {
      r := ReadContainer(hash, utf8, b, tag == 12, depth);
    } else {
      r := ReadJsLeaf(utf8, b, tag, low);
    }
  }

  // ---------------------------------------------------------------- arrays and objects

  /** The end of the data, the hashes, and the table of offsets fit the buffer. */
  predicate Layout(b: seq<byte>, keyed: bool, end: nat, w: nat, count: nat) {
    2 <= end && 1 <= w && if keyed then end + count + count * (w + 1) <= |b| else end + count * w <= |b|
  }

  function ChildrenFrom(hash: seq<byte> -> byte, utf8: seq<byte> -> bool, b: seq<byte>, end: nat, w: nat, count: nat,
      i: nat, depth: nat)
    : Result<seq<Value>>
    requires Layout(b, false, end, w, count) && i <= count
  {
    SpansLeft(hash, utf8, b[2..end], ReadTable(b, end, 0, w, w, count), i, depth)
  }

  function EntriesFrom(hash: seq<byte> -> byte, utf8: seq<byte> -> bool, b: seq<byte>, end: nat, w: nat, count: nat,
      i: nat, depth: nat)
    : Result<seq<Entry>>
    requires Layout(b, true, end, w, count) && i <= count
  {
    var table := end + count;
    EntriesLeft(hash, utf8, b[2..end], b[end..table], ReadTable(b, table, 0, w, w + 1, count), ReadTable(b, table, w,
        1, w + 1, count), i, depth)
  }

  /** The key that starts at a position and ends before `next`; a long one has the rest of its length
      before it. */
  method ReadKeyAt(b: seq<byte>, at: nat, next: nat, sizeByte: nat) returns (r: Result<KeyRead>)
    requires at <= next <= |b|
    ensures r == ReadKey(b[at..next], sizeByte)
  {
    hide VaruintDecode;
    var start, size := at, sizeByte;
    if size == 255 {
      assert b[..next][at..] == b[at..next];
      var excess := ReadVar(b[..next], at);
      if excess == None {
        return Failure;
      }
      size, start := size + excess.value.value, start + excess.value.used;
    }
    if start + size > next {
      return Failure;
    }
    SliceSlice(b, at, next, start, start + size);
    return Ok(KeyRead(b[start..start + size], start + size - at));
  }

  /** The i-th child, with its key if it is in an object. */
  method ReadChild(hash: seq<byte> -> byte, utf8: seq<byte> -> bool, b: seq<byte>, keyed: bool, end: nat, w: nat,
      count: nat, i: nat, depth: nat)
    returns (child: Result<Entry>)
    requires Layout(b, keyed, end, w, count) && i < count
    ensures !keyed ==>
              ChildrenFrom(hash, utf8, b, end, w, count, i, depth)
              == if child.Failure? then Failure
                 else After([child.value.value], ChildrenFrom(hash, utf8, b, end, w, count, i + 1, depth))
    ensures keyed ==>
              EntriesFrom(hash, utf8, b, end, w, count, i, depth)
              == if child.Failure? then Failure
                 else After([child.value], EntriesFrom(hash, utf8, b, end, w, count, i + 1, depth))
    decreases end, 6
  {
    if keyed {
      child := ReadObjectChild(hash, utf8, b, end, w, count, i, depth);
    } else {
      var value := ReadSpan(hash, utf8, b, 2, end, w, count, i, depth);
      child := if value.Failure? then Failure else Ok(Entry([], value.value));
    }
  }

  /** The value between two positions, then the others. */
  lemma SpanAt(hash: seq<byte> -> byte, utf8: seq<byte> -> bool, b: seq<byte>, base: nat, end: nat,
      offsets: seq<nat>, i: nat, at: nat, next: nat, depth: nat)
    requires base <= end <= |b| && i < |offsets| && at == base + offsets[i] && next == base + NextOffset(offsets, i, end - base)
    ensures var spans := SpansLeft(hash, utf8, b[base..end], offsets, i, depth);
            if at > next || next > end then spans == Failure
            else
              var first := JsRead(hash, utf8, b[at..next], depth + 1);
              spans == if first.Failure? then Failure
                       else After([first.value], SpansLeft(hash, utf8, b[base..end], offsets, i + 1, depth))
  {
    hide JsRead, SpansLeft, After;
    SpansStep(hash, utf8, b[base..end], offsets, i, depth);
    if at <= next <= end { SliceSlice(b, base, end, at, next); }
  }

  /** The value between two offsets of a table that follows the data. */
  method ReadSpan(hash: seq<byte> -> byte, utf8: seq<byte> -> bool, b: seq<byte>, base: nat, end: nat, w: nat,
      n: nat, i: nat, depth: nat)
    returns (child: Result<Value>)
    requires base <= end && end + n * w <= |b| && i < n
    ensures var data, offsets := b[base..end], ReadTable(b, end, 0, w, w, n);
            SpansLeft(hash, utf8, data, offsets, i, depth)
            == if child.Failure? then Failure else After([child.value], SpansLeft(hash, utf8, data, offsets, i + 1, depth))
    decreases end - base, 6
  {
    hide *;
    var at, next := Bounds(b, end, w, w, n, i, base, end);
    SpanAt(hash, utf8, b, base, end, ReadTable(b, end, 0, w, w, n), i, at, next, depth);
    if at > next || next > end {
      return Failure;
    }
    child := ReadAny(hash, utf8, b[at..next], depth + 1);
  }

  method ReadObjectChild(hash: seq<byte> -> byte, utf8: seq<byte> -> bool, b: seq<byte>, end: nat, w: nat,
      count: nat, i: nat, depth: nat)
    returns (child: Result<Entry>)
    requires Layout(b, true, end, w, count) && i < count
    ensures EntriesFrom(hash, utf8, b, end, w, count, i, depth)
            == if child.Failure? then Failure else After([child.value], EntriesFrom(hash, utf8, b, end, w, count, i + 1, depth))
    decreases end, 5
  {
    hide JsRead, EntriesLeft, ReadTable, ReadLe, ReadKey, After, Shown;
    var table := end + count;
    EntryStep(hash, utf8, b[2..end], b[end..table], ReadTable(b, table, 0, w, w + 1, count), ReadTable(b, table, w,
        1, w + 1, count), i, depth);
    var at, next := Bounds(b, table, w, w + 1, count, i, 2, end);
    if at > next || next > end {
      return Failure;
    }
    SliceSlice(b, 2, end, at, next);
    var size := Slot(b, table, w, 1, w + 1, count, i);
    var key := ReadKeyAt(b, at, next, size);
    if key.Failure? || hash(key.value.key) != b[end + i] {
      return Failure;
    }
    assert b[at..next][key.value.used..] == b[at + key.value.used..next];
    var value := ReadAny(hash, utf8, b[at + key.value.used..next], depth + 1);
    if value.Failure? {
      return Failure;
    }
    return Ok(Entry(Shown(utf8, key.value.key), value.value));
  }

  lemma ArrayIs(hash: seq<byte> -> byte, utf8: seq<byte> -> bool, b: seq<byte>, end: nat, w: nat, count: nat, depth: nat)
    requires |b| >= 4 && b[1] < 4 && w == b[1] as int + 1 && count == LastCount(b) && end == |b| - 2 - count * w && end >= 2
    ensures Layout(b, false, end, w, count)
    ensures Unmark(utf8, JsArrayOf(hash, b, depth))
            == var r := ChildrenFrom(hash, utf8, b, end, w, count, 0, depth); if r.Ok? then Ok(Array(r.value)) else Failure
  {
    hide LastCount, ReadTable, JsSpans;
    Commutes(w, count);
  }

  lemma ObjectIs(hash: seq<byte> -> byte, utf8: seq<byte> -> bool, b: seq<byte>, end: nat, w: nat, count: nat, depth: nat)
    requires |b| >= 4 && b[1] < 4 && w == b[1] as int + 1 && count == LastCount(b)
    requires end == |b| - 2 - count * (w + 1) - count && end >= 2
    ensures Layout(b, true, end, w, count)
    ensures Unmark(utf8, JsObjectOf(hash, b, depth))
            == var r := EntriesFrom(hash, utf8, b, end, w, count, 0, depth); if r.Ok? then Ok(Object(r.value)) else Failure
  {
    hide LastCount, ReadTable, JsEntries;
    Commutes(w + 1, count);
  }

  lemma TooShort(hash: seq<byte> -> byte, utf8: seq<byte> -> bool, b: seq<byte>, w: nat, count: nat, depth: nat)
    requires |b| >= 4 && b[1] < 4 && w == b[1] as int + 1 && count == LastCount(b)
    ensures |b| - 2 - count * w < 2 ==> Unmark(utf8, JsArrayOf(hash, b, depth)) == Failure
    ensures |b| - 2 - count * (w + 1) - count < 2 ==> Unmark(utf8, JsObjectOf(hash, b, depth)) == Failure
  {
    hide LastCount, ReadTable, JsEntries, JsSpans;
    Commutes(w, count);
    Commutes(w + 1, count);
  }

  /** The container's bytes and where its data end. */
  lemma ContainerIs(hash: seq<byte> -> byte, utf8: seq<byte> -> bool, b: seq<byte>, keyed: bool, w: nat, stride: nat,
      count: nat, end: int, depth: nat)
    requires |b| >= 4 && b[1] < 4 && w == b[1] as int + 1 && count == ReadLe(b, |b| - 2, 2)
    requires stride == (if keyed then w + 1 else w) && end == |b| - 2 - count * stride - if keyed then count else 0
    ensures end < 2 ==> Unmark(utf8, if keyed then JsObjectOf(hash, b, depth) else JsArrayOf(hash, b, depth)) == Failure
    ensures end >= 2 ==> Layout(b, keyed, end, w, count)
    ensures end >= 2 && keyed ==>
              Unmark(utf8, JsObjectOf(hash, b, depth))
              == var r := EntriesFrom(hash, utf8, b, end, w, count, 0, depth); if r.Ok? then Ok(Object(r.value)) else Failure
    ensures end >= 2 && !keyed ==>
              Unmark(utf8, JsArrayOf(hash, b, depth))
              == var r := ChildrenFrom(hash, utf8, b, end, w, count, 0, depth); if r.Ok? then Ok(Array(r.value)) else Failure
  {
    hide ReadLe, Unmark, Layout, JsObjectOf, JsArrayOf, EntriesFrom, ChildrenFrom;
    TooShort(hash, utf8, b, w, count, depth);
    if end >= 2 {
      if keyed { ObjectIs(hash, utf8, b, end, w, count, depth); } else { ArrayIs(hash, utf8, b, end, w, count, depth); }
    }
  }

  method ReadContainer(hash: seq<byte> -> byte, utf8: seq<byte> -> bool, b: seq<byte>, keyed: bool,
      depth: nat) returns (r: Result<Value>)
    ensures r == Unmark(utf8, if keyed then JsObjectOf(hash, b, depth) else JsArrayOf(hash, b, depth))
    decreases |b|, 4
  {
    hide *;
    if |b| < 4 || b[1] >= 4 {
      NoHeader(hash, utf8, b, depth);
      return Failure;
    }
    var w: nat := b[1] + 1;
    var stride := if keyed then w + 1 else w;
    var last := Read(b, |b| - 2, 2);
    var count := last.value;
    var table := |b| - 2 - count * stride;
    var end := table - if keyed then count else 0;
    ContainerIs(hash, utf8, b, keyed, w, stride, count, end, depth);
    if end < 2 {
      return Failure;
    }
    Powers.MulMono(0, count, stride);
    r := ReadChildren(hash, utf8, b, keyed, end, w, count, depth);
  }

  lemma NoHeader(hash: seq<byte> -> byte, utf8: seq<byte> -> bool, b: seq<byte>, depth: nat)
    requires |b| < 4 || b[1] >= 4
    ensures Unmark(utf8, JsArrayOf(hash, b, depth)) == Failure && Unmark(utf8, JsObjectOf(hash, b, depth)) == Failure
  {
  }

  method ReadChildren(hash: seq<byte> -> byte, utf8: seq<byte> -> bool, b: seq<byte>, keyed: bool, end: nat, w: nat,
      count: nat, depth: nat)
    returns (r: Result<Value>)
    requires Layout(b, keyed, end, w, count)
    ensures !keyed ==>
              r == var values := ChildrenFrom(hash, utf8, b, end, w, count, 0, depth);
                   if values.Ok? then Ok(Array(values.value)) else Failure
    ensures keyed ==>
              r == var entries := EntriesFrom(hash, utf8, b, end, w, count, 0, depth);
                   if entries.Ok? then Ok(Object(entries.value)) else Failure
    decreases end, 7
  {
    hide ChildrenFrom, EntriesFrom, Layout;
    var children: seq<Value>, entries: seq<Entry> := [], [];
    var i: nat := 0;
    if keyed { AfterNothing(entries, EntriesFrom(hash, utf8, b, end, w, count, 0, depth)); }
    else { AfterNothing(children, ChildrenFrom(hash, utf8, b, end, w, count, 0, depth)); }
    while i < count
      invariant i <= count
      invariant !keyed ==> ChildrenFrom(hash, utf8, b, end, w, count, 0, depth)
                            == After(children, ChildrenFrom(hash, utf8, b, end, w, count, i, depth))
      invariant keyed ==> EntriesFrom(hash, utf8, b, end, w, count, 0, depth)
                           == After(entries, EntriesFrom(hash, utf8, b, end, w, count, i, depth))
    {
      var child := ReadChild(hash, utf8, b, keyed, end, w, count, i, depth);
      if child.Failure? {
        return Failure;
      }
      if keyed {
        AfterMore(entries, child.value, EntriesFrom(hash, utf8, b, end, w, count, i + 1, depth));
        entries := entries + [child.value];
      } else {
        AfterMore(children, child.value.value, ChildrenFrom(hash, utf8, b, end, w, count, i + 1, depth));
        children := children + [child.value.value];
      }
      i := i + 1;
    }
    if keyed {
      AllEntriesRead(hash, utf8, b, end, w, count, depth);
      AfterAll(entries);
      return Ok(Object(entries));
    }
    AllChildrenRead(hash, utf8, b, end, w, count, depth);
    AfterAll(children);
    return Ok(Array(children));
  }

  lemma AllChildrenRead(hash: seq<byte> -> byte, utf8: seq<byte> -> bool, b: seq<byte>, end: nat, w: nat, count: nat, depth: nat)
    requires Layout(b, false, end, w, count)
    ensures ChildrenFrom(hash, utf8, b, end, w, count, count, depth) == Ok([])
  {
    hide SpansLeft, ReadTable;
    NoneLeft(hash, utf8, b[2..end], ReadTable(b, end, 0, w, w, count), depth);
  }

  lemma AllEntriesRead(hash: seq<byte> -> byte, utf8: seq<byte> -> bool, b: seq<byte>, end: nat, w: nat, count: nat, depth: nat)
    requires Layout(b, true, end, w, count)
    ensures EntriesFrom(hash, utf8, b, end, w, count, count, depth) == Ok([])
  {
    hide EntriesLeft, ReadTable;
    var table := end + count;
    NoEntryLeft(hash, utf8, b[2..end], b[end..table], ReadTable(b, table, 0, w, w + 1, count), ReadTable(b, table, w,
        1, w + 1, count), depth);
  }

  // ---------------------------------------------------------------- row arrays

  /** The slots of the shared keys, none of them long. */
  method ReadSpecs(b: seq<byte>, slots: nat, k: nat) returns (ok: bool, starts: seq<nat>, lengths: seq<nat>)
    requires slots + k * 4 <= |b|
    ensures ok <==> AllShort(ReadTable(b, slots, 3, 1, 4, k))
    ensures ok ==> starts == ReadTable(b, slots, 0, 3, 4, k) && lengths == ReadTable(b, slots, 3, 1, 4, k)
  {
    hide ReadTable;
    ok, starts, lengths := true, [], [];
    var j: nat := 0;
    while j < k
      invariant j <= k && |starts| == |lengths| == j
      invariant starts == ReadTable(b, slots, 0, 3, 4, k)[..j] && lengths == ReadTable(b, slots, 3, 1, 4, k)[..j]
      invariant AllShort(lengths)
    {
      var off := Slot(b, slots, 0, 3, 4, k, j);
      var size := Slot(b, slots, 3, 1, 4, k, j);
      if size >= 255 {
        ok := false;
        return;
      }
      starts, lengths, j := starts + [off], lengths + [size], j + 1;
    }
  }

  function KeysLeft(hash: seq<byte> -> byte, utf8: seq<byte> -> bool, area: seq<byte>, hashes: seq<byte>,
      starts: seq<nat>, lengths: seq<nat>, i: nat)
    : Result<seq<seq<byte>>>
    requires i <= |starts| == |lengths| == |hashes|
  {
    var r := DecodeKeys(hash, area, hashes, starts, lengths, i);
    if r.Ok? then Ok(ShownAll(utf8, r.value)) else Failure
  }

  lemma KeysStep(hash: seq<byte> -> byte, utf8: seq<byte> -> bool, area: seq<byte>, hashes: seq<byte>,
      starts: seq<nat>, lengths: seq<nat>, i: nat)
    requires i < |starts| == |lengths| == |hashes|
    ensures KeysLeft(hash, utf8, area, hashes, starts, lengths, i)
            == if starts[i] + lengths[i] > |area| then Failure
               else
                 var key := area[starts[i]..starts[i] + lengths[i]];
                 if hashes[i] != hash(key) then Failure
                 else After([Shown(utf8, key)], KeysLeft(hash, utf8, area, hashes, starts, lengths, i + 1))
  {
    hide Shown;
    var rest := DecodeKeys(hash, area, hashes, starts, lengths, i + 1);
    if starts[i] + lengths[i] <= |area| && rest.Ok? {
      var key := area[starts[i]..starts[i] + lengths[i]];
      assert ([key] + rest.value)[1..] == rest.value;
    }
  }

  lemma NoKeyLeft(hash: seq<byte> -> byte, utf8: seq<byte> -> bool, area: seq<byte>, hashes: seq<byte>,
      starts: seq<nat>, lengths: seq<nat>)
    requires |starts| == |lengths| == |hashes|
    ensures KeysLeft(hash, utf8, area, hashes, starts, lengths, |starts|) == Ok([])
  {
  }

  method ReadNames(hash: seq<byte> -> byte, utf8: seq<byte> -> bool, b: seq<byte>, hashes: nat, keysAt: nat,
      keysSize: nat, starts: seq<nat>, lengths: seq<nat>)
    returns (names: Result<seq<seq<byte>>>)
    requires |starts| == |lengths| && keysAt == hashes + |starts| && keysAt + keysSize <= |b|
    ensures names == KeysLeft(hash, utf8, b[keysAt..keysAt + keysSize], b[hashes..keysAt], starts, lengths, 0)
  {
    hide KeysLeft, Shown;
    ghost var area, marks := b[keysAt..keysAt + keysSize], b[hashes..keysAt];
    var result: seq<seq<byte>> := [];
    var j: nat := 0;
    AfterNothing(result, KeysLeft(hash, utf8, area, marks, starts, lengths, 0));
    while j < |starts|
      invariant j <= |starts|
      invariant KeysLeft(hash, utf8, area, marks, starts, lengths, 0)
                == After(result, KeysLeft(hash, utf8, area, marks, starts, lengths, j))
    {
      var off, size := starts[j], lengths[j];
      KeysStep(hash, utf8, area, marks, starts, lengths, j);
      if off + size > keysSize {
        return Failure;
      }
      SliceSlice(b, keysAt, keysAt + keysSize, keysAt + off, keysAt + off + size);
      var bytes := b[keysAt + off..keysAt + off + size];
      if hash(bytes) != b[hashes + j] {
        return Failure;
      }
      AfterMore(result, Shown(utf8, bytes), KeysLeft(hash, utf8, area, marks, starts, lengths, j + 1));
      result, j := result + [Shown(utf8, bytes)], j + 1;
    }
    NoKeyLeft(hash, utf8, area, marks, starts, lengths);
    AfterAll(result);
    return Ok(result);
  }

  function RowsLeft(hash: seq<byte> -> byte, utf8: seq<byte> -> bool, body: seq<byte>, offsets: seq<nat>, k: nat,
      w: nat, i: nat, depth: nat)
    : Result<seq<Row>>
    requires i <= |offsets|
  {
    var r := JsRowsFrom(hash, body, offsets, k, w, i, depth);
    if r.Ok? then Ok(UnmarkedRows(utf8, r.value)) else Failure
  }

  function RowRead(hash: seq<byte> -> byte, utf8: seq<byte> -> bool, record: seq<byte>, k: nat, w: nat, depth: nat): Result<Row> {
    var r := JsRow(hash, record, k, w, depth);
    if r.Ok? then Ok(Row(UnmarkedAll(utf8, r.value.cells))) else Failure
  }

  lemma RowsStep(hash: seq<byte> -> byte, utf8: seq<byte> -> bool, body: seq<byte>, offsets: seq<nat>, k: nat,
      w: nat, i: nat, depth: nat)
    requires i < |offsets|
    ensures !InOrder(offsets, i, |body|) ==> RowsLeft(hash, utf8, body, offsets, k, w, i, depth) == Failure
    ensures InOrder(offsets, i, |body|) ==>
              var first := RowRead(hash, utf8, body[offsets[i]..NextOffset(offsets, i, |body|)], k, w, depth);
              RowsLeft(hash, utf8, body, offsets, k, w, i, depth)
              == if first.Failure? then Failure else After([first.value], RowsLeft(hash, utf8, body, offsets, k, w, i + 1, depth))
  {
    hide JsRow, UnmarkedAll;
    if InOrder(offsets, i, |body|) {
      var first := JsRow(hash, body[offsets[i]..NextOffset(offsets, i, |body|)], k, w, depth);
      var rest := JsRowsFrom(hash, body, offsets, k, w, i + 1, depth);
      if first.Ok? && rest.Ok? { RowsMore(utf8, first.value, rest.value); }
    }
  }

  lemma RowsMore(utf8: seq<byte> -> bool, row: Row, rest: seq<Row>)
    ensures UnmarkedRows(utf8, [row] + rest) == [Row(UnmarkedAll(utf8, row.cells))] + UnmarkedRows(utf8, rest)
  {
    hide UnmarkedAll;
    assert ([row] + rest)[1..] == rest;
  }

  lemma NoRowLeft(hash: seq<byte> -> byte, utf8: seq<byte> -> bool, body: seq<byte>, offsets: seq<nat>, k: nat, w: nat, depth: nat)
    ensures RowsLeft(hash, utf8, body, offsets, k, w, |offsets|, depth) == Ok([])
  {
  }

  lemma RowReadIs(hash: seq<byte> -> byte, utf8: seq<byte> -> bool, b: seq<byte>, at: nat, next: nat, k: nat, w: nat, depth: nat)
    requires at <= next <= |b|
    ensures next - at < k * w ==> RowRead(hash, utf8, b[at..next], k, w, depth) == Failure
    ensures next - at >= k * w ==>
              var fields := next - k * w;
              var cells := SpansLeft(hash, utf8, b[at..fields], ReadTable(b, fields, 0, w, w, k), 0, depth);
              RowRead(hash, utf8, b[at..next], k, w, depth) == if cells.Ok? then Ok(Row(cells.value)) else Failure
  {
    hide JsSpans, ReadTable, UnmarkedAll;
    if next - at >= k * w {
      var size := next - at - k * w;
      TableInside(b, at, next, size, w, k);
      assert b[at..next][..size] == b[at..at + size];
    }
  }

  method ReadCells(hash: seq<byte> -> byte, utf8: seq<byte> -> bool, b: seq<byte>, at: nat, next: nat, k: nat, sw: nat, depth: nat)
    returns (row: Result<Row>)
    requires at <= next <= |b|
    ensures row == RowRead(hash, utf8, b[at..next], k, sw, depth)
    decreases next - at, 7
  {
    hide SpansLeft, RowRead, ReadTable;
    var fields := next - k * sw;
    RowReadIs(hash, utf8, b, at, next, k, sw, depth);
    if at > fields {
      return Failure;
    }
    ghost var data, offsets := b[at..fields], ReadTable(b, fields, 0, sw, sw, k);
    var record: seq<Value> := [];
    var j: nat := 0;
    AfterNothing(record, SpansLeft(hash, utf8, data, offsets, 0, depth));
    while j < k
      invariant j <= k
      invariant SpansLeft(hash, utf8, data, offsets, 0, depth) == After(record, SpansLeft(hash, utf8, data, offsets, j, depth))
    {
      var cell := ReadSpan(hash, utf8, b, at, fields, sw, k, j, depth);
      if cell.Failure? {
        return Failure;
      }
      AfterMore(record, cell.value, SpansLeft(hash, utf8, data, offsets, j + 1, depth));
      record, j := record + [cell.value], j + 1;
    }
    NoneLeft(hash, utf8, data, offsets, depth);
    AfterAll(record);
    return Ok(Row(record));
  }

  /** The records between the end of the keys and the table of their offsets. */
  method ReadJsRecords(hash: seq<byte> -> byte, utf8: seq<byte> -> bool, b: seq<byte>, start: nat, table: nat,
      k: nat, sw: nat, rw: nat, count: nat, depth: nat)
    returns (records: Result<seq<Row>>)
    requires start <= table && table + count * rw <= |b|
    ensures records == RowsLeft(hash, utf8, b[start..table], ReadTable(b, table, 0, rw, rw, count), k, sw, 0, depth)
    decreases table - start, 8
  {
    hide RowsLeft, RowRead, ReadTable;
    ghost var body, offsets := b[start..table], ReadTable(b, table, 0, rw, rw, count);
    var result: seq<Row> := [];
    var i: nat := 0;
    AfterNothing(result, RowsLeft(hash, utf8, body, offsets, k, sw, 0, depth));
    while i < count
      invariant i <= count
      invariant RowsLeft(hash, utf8, body, offsets, k, sw, 0, depth)
                == After(result, RowsLeft(hash, utf8, body, offsets, k, sw, i, depth))
    {
      RowsStep(hash, utf8, body, offsets, k, sw, i, depth);
      var at, next := Bounds(b, table, rw, rw, count, i, start, table);
      if at > next || next > table {
        return Failure;
      }
      SliceSlice(b, start, table, at, next);
      var row := ReadCells(hash, utf8, b, at, next, k, sw, depth);
      if row.Failure? {
        return Failure;
      }
      AfterMore(result, row.value, RowsLeft(hash, utf8, body, offsets, k, sw, i + 1, depth));
      result, i := result + [row.value], i + 1;
    }
    NoRowLeft(hash, utf8, body, offsets, k, sw, depth);
    AfterAll(result);
    return Ok(result);
  }

  /** What the code of a row array says before the records: widths, keys and their slots. */
  datatype Header = Header(k: nat, slots: nat, starts: seq<nat>, lengths: seq<nat>) {
    function Hashes(): nat { slots + k * 4 }

    function KeysAt(): nat { slots + k * 4 + k }

    function Start(): nat
      requires 0 < k == |starts| == |lengths|
    {
      KeysAt() + (starts[k - 1] + lengths[k - 1])
    }
  }

  predicate HeaderOf(b: seq<byte>, h: Header, used: nat) {
    && h.k > 0 && h.slots == 2 + used && h.KeysAt() + 2 <= |b|
    && h.starts == ReadTable(b, h.slots, 0, 3, 4, h.k) && h.lengths == ReadTable(b, h.slots, 3, 1, 4, h.k)
    && AllShort(h.lengths)
  }

  lemma SharedKeysAre(hash: seq<byte> -> byte, b: seq<byte>, h: Header, used: nat)
    requires HeaderOf(b, h, used)
    ensures |b| < h.Start() ==> JsSharedKeys(hash, b, h.slots, h.k) == Failure
    ensures |b| >= h.Start() ==>
              JsSharedKeys(hash, b, h.slots, h.k)
              == var keys := DecodeKeys(hash, b[h.KeysAt()..h.Start()], b[h.Hashes()..h.KeysAt()], h.starts, h.lengths, 0);
                 if keys.Ok? then Ok(SharedKeys(keys.value, h.Start())) else Failure
  {
    hide ReadTable, DecodeKeys, AllShort;
  }

  lemma NoSchema(hash: seq<byte> -> byte, utf8: seq<byte> -> bool, b: seq<byte>, v: Varuint, depth: nat)
    requires |b| >= 5 && b[1] < 16 && VaruintDecode(b[2..]) == Some(v)
    requires JsSharedKeys(hash, b, 2 + v.used, v.value) == Failure
    ensures Unmark(utf8, JsRowsOf(hash, b, depth)) == Failure
  {
    hide VaruintDecode, JsSharedKeys, JsRecords;
  }

  lemma BadSlots(hash: seq<byte> -> byte, b: seq<byte>, pos: nat, k: nat)
    requires k == 0 || |b| < pos + k * 4 + k + 2 || !AllShort(ReadTable(b, pos, 3, 1, 4, k))
    ensures JsSharedKeys(hash, b, pos, k) == Failure
  {
    hide ReadTable, DecodeKeys, AllShort;
  }

  lemma RecordsAre(hash: seq<byte> -> byte, utf8: seq<byte> -> bool, b: seq<byte>, v: Varuint, shared: SharedKeys,
      sw: nat, rw: nat, count: nat, depth: nat)
    requires |b| >= 5 && b[1] < 16 && VaruintDecode(b[2..]) == Some(v) && JsSharedKeys(hash, b, 2 + v.used, v.value) == Ok(shared)
    requires shared.end >= 2 && sw == b[1] as int % 4 + 1 && rw == b[1] as int / 4 + 1 && count == LastCount(b)
    ensures |b| - 2 - count * rw < shared.end ==> Unmark(utf8, JsRowsOf(hash, b, depth)) == Failure
    ensures var table := |b| - 2 - count * rw;
            table >= shared.end ==>
              var rows := RowsLeft(hash, utf8, b[shared.end..table], ReadTable(b, table, 0, rw, rw, count), v.value, sw, 0, depth);
              Unmark(utf8, JsRowsOf(hash, b, depth))
              == if rows.Ok? then Ok(RowArray(ShownAll(utf8, shared.keys), rows.value)) else Failure
  {
    hide VaruintDecode, JsSharedKeys, LastCount, ReadTable, JsRowsFrom, ShownAll, UnmarkedRows;
  }

  lemma NoRowHeader(hash: seq<byte> -> byte, utf8: seq<byte> -> bool, b: seq<byte>, depth: nat)
    ensures |b| < 5 || b[1] >= 16 || VaruintDecode(b[2..]) == None ==> Unmark(utf8, JsRowsOf(hash, b, depth)) == Failure
  {
    hide VaruintDecode, JsSharedKeys, JsRecords;
  }

  function NamesOf(hash: seq<byte> -> byte, utf8: seq<byte> -> bool, b: seq<byte>, h: Header, used: nat): Result<seq<seq<byte>>>
    requires HeaderOf(b, h, used) && h.Start() <= |b|
  {
    KeysLeft(hash, utf8, b[h.KeysAt()..h.Start()], b[h.Hashes()..h.KeysAt()], h.starts, h.lengths, 0)
  }

  lemma NamesAre(hash: seq<byte> -> byte, utf8: seq<byte> -> bool, b: seq<byte>, h: Header, used: nat)
    requires HeaderOf(b, h, used)
    ensures |b| < h.Start() ==> JsSharedKeys(hash, b, h.slots, h.k) == Failure
    ensures h.Start() <= |b| ==>
              var shared := JsSharedKeys(hash, b, h.slots, h.k);
              NamesOf(hash, utf8, b, h, used) == (if shared.Ok? then Ok(ShownAll(utf8, shared.value.keys)) else Failure)
              && (shared.Ok? ==> shared.value.end == h.Start())
  {
    hide ReadTable, DecodeKeys, AllShort, JsSharedKeys, ShownAll, HeaderOf;
    SharedKeysAre(hash, b, h, used);
  }

  lemma HeaderStarts(b: seq<byte>, h: Header, used: nat)
    requires HeaderOf(b, h, used)
    ensures h.slots == 2 + used && h.Start() >= 2
  {
    hide ReadTable, AllShort;
  }

  /** Names and records behind a header. */
  lemma RowsAre(hash: seq<byte> -> byte, utf8: seq<byte> -> bool, b: seq<byte>, v: Varuint, h: Header, sw: nat,
      rw: nat, count: nat, depth: nat)
    requires |b| >= 5 && b[1] < 16 && VaruintDecode(b[2..]) == Some(v) && HeaderOf(b, h, v.used) && h.k == v.value
    requires sw == b[1] as int % 4 + 1 && rw == b[1] as int / 4 + 1 && count == LastCount(b)
    ensures |b| - 2 - count * rw < h.Start() ==> Unmark(utf8, JsRowsOf(hash, b, depth)) == Failure
    ensures var table := |b| - 2 - count * rw;
            table >= h.Start() ==>
              var names := NamesOf(hash, utf8, b, h, v.used);
              var rows := RowsLeft(hash, utf8, b[h.Start()..table], ReadTable(b, table, 0, rw, rw, count), h.k, sw, 0, depth);
              Unmark(utf8, JsRowsOf(hash, b, depth))
              == if names.Ok? && rows.Ok? then Ok(RowArray(names.value, rows.value)) else Failure
  {
    hide *;
    HeaderStarts(b, h, v.used);
    NamesAre(hash, utf8, b, h, v.used);
    match JsSharedKeys(hash, b, h.slots, h.k)
    case Failure => NoSchema(hash, utf8, b, v, depth);
    case Ok(shared) => RecordsAre(hash, utf8, b, v, shared, sw, rw, count, depth);
  }

  method ReadRows(hash: seq<byte> -> byte, utf8: seq<byte> -> bool, b: seq<byte>, depth: nat) returns (r: Result<Value>)
    ensures r == Unmark(utf8, JsRowsOf(hash, b, depth))
    decreases |b|, 4
  {
    hide ReadTable, KeysLeft, RowsLeft, VaruintDecode, AllShort, JsRowsOf, JsSharedKeys, Unmark, ReadLe;
    NoRowHeader(hash, utf8, b, depth);
    if |b| < 5 || b[1] >= 16 {
      return Failure;
    }
    var widths: int := b[1];
    var sw, rw := widths % 4 + 1, widths / 4 + 1;
    var schema := ReadVar(b, 2);
    if schema == None {
      return Failure;
    }
    var k, slots := schema.value.value, 2 + schema.value.used;
    var hashes := slots + k * 4;
    var keysAt := hashes + k;
    if k == 0 || keysAt > |b| - 2 {
      BadSlots(hash, b, slots, k);
      NoSchema(hash, utf8, b, schema.value, depth);
      return Failure;
    }
    var short, starts, lengths := ReadSpecs(b, slots, k);
    if !short {
      BadSlots(hash, b, slots, k);
      NoSchema(hash, utf8, b, schema.value, depth);
      return Failure;
    }
    var keysSize := starts[k - 1] + lengths[k - 1];
    var start := keysAt + keysSize;
    var last := Read(b, |b| - 2, 2);
    var count := last.value;
    var table := |b| - 2 - count * rw;
    RowsAre(hash, utf8, b, schema.value, Header(k, slots, starts, lengths), sw, rw, count, depth);
    if start > table {
      return Failure;
    }
    var names := ReadNames(hash, utf8, b, hashes, keysAt, keysSize, starts, lengths);
    if names.Failure? {
      return Failure;
    }
    var records := ReadJsRecords(hash, utf8, b, start, table, k, sw, rw, count, depth);
    if records.Failure? {
      return Failure;
    }
    return Ok(RowArray(names.value, records.value));
  }

  /** A whole buffer. */
  method JsDecodeBuffer(hash: seq<byte> -> byte, utf8: seq<byte> -> bool, b: seq<byte>) returns (r: Result<Value>)
    ensures r == JsRead(hash, utf8, b, 0)
  {
    r := ReadAny(hash, utf8, b, 0);
  }
}
