/** Reading pjson bytes back (cpp/conformance/pjson_conformance_driver.cpp, lines 1290-1675). */
module PjsonDecode {
  import opened ByteStrings
  import opened Powers
  import opened Wrappers
  import opened PjsonNumbers
  import opened Pjson

  const MAX_DECODE_DEPTH := 256

  function ReadLe(b: seq<byte>, pos: nat, w: nat): nat
    requires pos + w <= |b|
  {
    Unle(b[pos..pos + w])
  }

  /** The count in the last two bytes. */
  function LastCount(b: seq<byte>): nat
    requires |b| >= 2
  {
    ReadLe(b, |b| - 2, 2)
  }

  /** The numbers of w bytes that stand `at` bytes into each of n rows of `step` bytes. */
  function ReadTable(b: seq<byte>, pos: nat, at: nat, w: nat, step: nat, n: nat): (r: seq<nat>)
    requires at + w <= step && pos + n * step <= |b|
    ensures |r| == n
    decreases n
  {
    if n == 0 then []
    else
      StepLess(n, step);
      ReadTable(b, pos, at, w, step, n - 1) + [ReadLe(b, pos + (n - 1) * step + at, w)]
  }

  lemma StepLess(n: nat, step: nat)
    requires n >= 1
    ensures (n - 1) * step + step == n * step
  {
  }

  lemma {:induction false} TableAt(b: seq<byte>, pos: nat, at: nat, w: nat, step: nat, n: nat, i: nat)
    requires at + w <= step && pos + n * step <= |b| && i < n
    ensures pos + i * step + at + w <= |b|
    ensures ReadTable(b, pos, at, w, step, n)[i] == ReadLe(b, pos + i * step + at, w)
    decreases n
  {
    hide ReadLe;
    StepLess(n, step);
    MulMono(i, n - 1, step);
    if i < n - 1 { TableAt(b, pos, at, w, step, n - 1, i); }
  }

  /** The end of the i-th piece: the next offset, or the end of the data. */
  function NextOffset(offsets: seq<nat>, i: nat, size: nat): nat
    requires i < |offsets|
  {
    if i + 1 < |offsets| then offsets[i + 1] else size
  }

  predicate InOrder(offsets: seq<nat>, i: nat, size: nat)
    requires i < |offsets|
  {
    offsets[i] <= size && offsets[i] <= NextOffset(offsets, i, size) <= size
  }

  function Exactly(ok: bool, v: Value): Result<Value> {
    if ok then Ok(v) else Failure
  }

  function DecodeDecimal(b: seq<byte>, count: nat): Result<Value>
    requires 1 <= count <= 16 && |b| >= 1
  {
    if |b| < 1 + count then Failure
    else
      DecimalInRange(b[1..1 + count]);
      var mantissa := ZigzagDecode(Unle(b[1..1 + count]), TWO_128);
      match VaruintDecode(b[1 + count..])
      case None => Failure
      case Some(scale) =>
        if |b| != 1 + count + scale.used then Failure
        else Ok(Decimal(mantissa, ZigzagDecode(scale.value, U32_LIMIT)))
  }

  lemma DecimalInRange(s: seq<byte>)
    requires |s| <= 16
    ensures Unle(s) < TWO_128
  {
    LeUnle(s);
    Pow256Mono(|s|, 16);
    Pow256Of16();
  }

  lemma {:induction false} Pow256Mono(a: nat, b: nat)
    requires a <= b
    ensures Pow256(a) <= Pow256(b)
  {
    if a < b { Pow256Mono(a, b - 1); }
  }

  /** The values without containers, by their tag. */
  function DecodeLeaf(b: seq<byte>, high: nat, low: nat): Result<Value>
    requires |b| >= 1 && low < 16
  {
    if high == 0 then Exactly(low == 0 && |b| == 1, Null)
    else if high == 1 then Exactly(low <= 1 && |b| == 1, Bool(low == 1))
    else if high == 2 then Exactly(|b| == 1, Uint(low))
    else if high == 3 then Exactly(|b| == 1 && low != 0, NegInt(low))
    else if high == 4 then if |b| == 2 + low then Ok(Uint(Unle(b[1..]))) else Failure
    else if high == 5 then if |b| == 2 + low && Unle(b[1..]) != 0 then Ok(NegInt(Unle(b[1..]))) else Failure
    else if high == 6 then
      if 1 <= low <= 4 && |b| == 1 + FloatBytes(low) then Ok(Float(low, Unle(b[1..]))) else Failure
    else if high == 7 then DecodeDecimal(b, low + 1)
    else if high == 9 then Exactly(low <= 1, Text(low, b[1..]))
    else if high == 10 then Exactly(low <= 3, Bytes(low, b[1..]))
    else if high == 11 && 1 <= low <= 10 then DecodeTypedArray(b, low - 1)
    else if high == 13 then Ok(Extension(low, b[1..]))
    else Failure
  }

  function DecodeTypedArray(b: seq<byte>, code: nat): Result<Value>
    requires |b| >= 1
  {
    var size := ElementSize(code);
    if size == 0 || |b| < 3 || |b| != 3 + LastCount(b) * size then Failure
    else Ok(TypedArray(code, b[1..|b| - 2]))
  }

  /** The value that takes up exactly the bytes b, nested `depth` containers deep. */
  function Decode(hash: seq<byte> -> byte, b: seq<byte>, depth: nat): Result<Value>
    decreases |b|, 0
  {
    if depth >= MAX_DECODE_DEPTH || b == [] then Failure
    else
      var tag: int := b[0];
      var high: nat, low: nat := tag / 16, tag % 16;
      if high == 8 then
        if low != 0 then Failure
        else
          match Decode(hash, b[1..], depth + 1)
          case Ok(inner) => Exactly(IsNumeric(inner), NumericString(inner))
          case Failure => Failure
      else if tag == 0xB0 then DecodeArray(hash, b, depth)
      else if tag == 0xC0 then DecodeObject(hash, b, depth)
      else if tag == 0xC1 then DecodeRowArray(hash, b, depth)
      else DecodeLeaf(b, high, low)
  }

  function DecodeArray(hash: seq<byte> -> byte, b: seq<byte>, depth: nat): Result<Value>
    decreases |b| - 1, |b| + 3
  {
    if |b| < 4 || b[1] >= 4 then Failure
    else
      var w: nat, n := (b[1] + 1) as int, LastCount(b);
      if |b| < 4 + w * n then Failure
      else
        var size := |b| - (4 + w * n);
        if w < NeededWidth(size) then Failure
        else
          var values := DecodeSpans(hash, b[2..2 + size], ReadTable(b, 2 + size, 0, w, w, n), 0, depth);
          if values.Ok? then Ok(Array(values.value)) else Failure
  }

  /** The least width the reader accepts for offsets into `size` bytes. */
  function NeededWidth(size: nat): nat {
    match OffsetWidth(size)
    case Some(w) => w
    case None => 4
  }

  /** The values in the pieces from the i-th on. */
  function DecodeSpans(hash: seq<byte> -> byte, data: seq<byte>, offsets: seq<nat>, i: nat, depth: nat): Result<seq<Value>>
    requires i <= |offsets|
    decreases |data|, |offsets| - i + 1
  {
    if i == |offsets| then Ok([])
    else if !InOrder(offsets, i, |data|) then Failure
    else
      var first := Decode(hash, data[offsets[i]..NextOffset(offsets, i, |data|)], depth + 1);
      if first.Failure? then Failure
      else
        var rest := DecodeSpans(hash, data, offsets, i + 1, depth);
        if rest.Ok? then Ok([first.value] + rest.value) else Failure
  }

  function DecodeObject(hash: seq<byte> -> byte, b: seq<byte>, depth: nat): Result<Value>
    decreases |b| - 1, |b| + 3
  {
    if |b| < 4 || b[1] >= 4 then Failure
    else
      var w: nat, n := (b[1] + 1) as int, LastCount(b);
      if |b| < 4 + n + (w + 1) * n then Failure
      else
        var size := |b| - (4 + n + (w + 1) * n);
        var entries := DecodeEntries(hash, b[2..2 + size], b[2 + size..2 + size + n],
                                     ReadTable(b, 2 + size + n, 0, w, w + 1, n),
                                     ReadTable(b, 2 + size + n, w, 1, w + 1, n), 0, depth);
        if entries.Ok? then Ok(Object(entries.value)) else Failure
  }

  /** A key and the length of everything before the value. */
  datatype KeyRead = KeyRead(key: seq<byte>, used: nat)

  function ReadKey(entry: seq<byte>, sizeByte: nat): (r: Result<KeyRead>)
    ensures r.Ok? ==> r.value.used <= |entry|
  {
    if sizeByte != 0xFF then
      if sizeByte > |entry| then Failure else Ok(KeyRead(entry[..sizeByte], sizeByte))
    else
      match VaruintDecode(entry)
      case None => Failure
      case Some(excess) =>
        var end := excess.used + (0xFF + excess.value);
        if end > |entry| then Failure else Ok(KeyRead(entry[excess.used..end], end))
  }

  function DecodeEntries(hash: seq<byte> -> byte, data: seq<byte>, hashes: seq<byte>, offsets: seq<nat>, sizes: seq<nat>, i: nat, depth: nat)
    : Result<seq<Entry>>
    requires i <= |offsets| == |sizes| == |hashes|
    decreases |data|, |offsets| - i + 1
  {
    if i == |offsets| then Ok([])
    else if !InOrder(offsets, i, |data|) then Failure
    else
      var entry := data[offsets[i]..NextOffset(offsets, i, |data|)];
      match ReadKey(entry, sizes[i])
      case Failure => Failure
      case Ok(k) =>
        if hashes[i] != hash(k.key) then Failure
        else
          var value := Decode(hash, entry[k.used..], depth + 1);
          if value.Failure? then Failure
          else
            var rest := DecodeEntries(hash, data, hashes, offsets, sizes, i + 1, depth);
            if rest.Ok? then Ok([Entry(k.key, value.value)] + rest.value) else Failure
  }

  function Sum(s: seq<nat>): nat {
    if s == [] then 0 else Sum(s[..|s| - 1]) + s[|s| - 1]
  }

  /** The shared keys, each checked against its hash. */
  function DecodeKeys(hash: seq<byte> -> byte, area: seq<byte>, hashes: seq<byte>, starts: seq<nat>, lengths: seq<nat>, i: nat)
    : Result<seq<seq<byte>>>
    requires i <= |starts| == |lengths| == |hashes|
    decreases |starts| - i
  {
    if i == |starts| then Ok([])
    else if starts[i] + lengths[i] > |area| then Failure
    else
      var key := area[starts[i]..starts[i] + lengths[i]];
      if hashes[i] != hash(key) then Failure
      else
        var rest := DecodeKeys(hash, area, hashes, starts, lengths, i + 1);
        if rest.Ok? then Ok([key] + rest.value) else Failure
  }

  /** The shared keys and the position behind them. */
  datatype SharedKeys = SharedKeys(keys: seq<seq<byte>>, end: nat)

  function ReadSharedKeys(hash: seq<byte> -> byte, b: seq<byte>, pos: nat, k: nat): (r: Result<SharedKeys>)
    ensures r.Ok? ==> pos <= r.value.end <= |b|
  {
    var area := pos + k * 4 + k;
    if |b| < area then Failure
    else
      var starts, lengths := ReadTable(b, pos, 0, 3, 4, k), ReadTable(b, pos, 3, 1, 4, k);
      var end := area + Sum(lengths);
      if |b| < end then Failure
      else
        var keys := DecodeKeys(hash, b[area..end], b[pos + k * 4..area], starts, lengths, 0);
        if keys.Failure? then Failure else Ok(SharedKeys(keys.value, end))
  }

  function DecodeRowArray(hash: seq<byte> -> byte, b: seq<byte>, depth: nat): Result<Value>
    decreases |b| - 1, |b| + 3
  {
    if |b| < 5 || b[1] >= 16 then Failure
    else
      match VaruintDecode(b[2..])
      case None => Failure
      case Some(count) =>
        match ReadSharedKeys(hash, b, 2 + count.used, count.value)
        case Failure => Failure
        case Ok(shared) =>
          var widths: int := b[1];
          var rows := DecodeRecords(hash, b, shared.end, count.value, widths % 4 + 1, widths / 4 + 1, depth);
          if rows.Ok? then Ok(RowArray(shared.keys, rows.value)) else Failure
  }

  /** The records between the keys and the table of their offsets. */
  function DecodeRecords(hash: seq<byte> -> byte, b: seq<byte>, body: nat, k: nat, w: nat, recoffW: nat, depth: nat): Result<seq<Row>>
    requires |b| >= 2 && body >= 2
    decreases |b| - 1, |b| + 2
  {
    var n := LastCount(b);
    var table := |b| - 2 - n * recoffW;
    if table < body then Failure
    else DecodeRows(hash, b[body..table], ReadTable(b, table, 0, recoffW, recoffW, n), k, w, 0, depth)
  }

  function DecodeRows(hash: seq<byte> -> byte, body: seq<byte>, offsets: seq<nat>, k: nat, w: nat, i: nat, depth: nat): Result<seq<Row>>
    requires i <= |offsets|
    decreases |body|, |offsets| - i + k + 2
  {
    if i == |offsets| then Ok([])
    else if !InOrder(offsets, i, |body|) then Failure
    else
      var row := DecodeRow(hash, body[offsets[i]..NextOffset(offsets, i, |body|)], k, w, depth);
      if row.Failure? then Failure
      else
        var rest := DecodeRows(hash, body, offsets, k, w, i + 1, depth);
        if rest.Ok? then Ok([row.value] + rest.value) else Failure
  }

  /** One record: its cells' data, then their offsets. */
  function DecodeRow(hash: seq<byte> -> byte, record: seq<byte>, k: nat, w: nat, depth: nat): Result<Row>
    decreases |record|, k + 2
  {
    if |record| < k * w then Failure
    else
      var size := |record| - k * w;
      var cells := DecodeSpans(hash, record[..size], ReadTable(record, size, 0, w, w, k), 0, depth);
      if cells.Ok? then Ok(Row(cells.value)) else Failure
  }
}
