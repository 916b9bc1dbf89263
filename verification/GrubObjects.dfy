/**
 The object table of a GRUB image (anduinos-grub/assemble-efi.py, region and grub_objects): a
 header, then objects that are padded to eight bytes.
 */
module GrubObjects {
  import opened Sequences

  type Bytes = seq<Byte>

  datatype Object = Object(kind: nat, payload: Bytes)

  datatype Error = Truncated | InvalidTable | InvalidLength | InvalidAlignment

  datatype Result = Ok(objects: seq<Object>) | Err(error: Error)

  const MAGIC := 0x676D_696D

  // ---------------------------------------------------------------- little-endian numbers

  function Power256(k: nat): nat {
    if k == 0 then 1 else 256 * Power256(k - 1)
  }

  function Number(s: Bytes): nat {
    if s == [] then 0 else s[0] + 256 * Number(s[1..])
  }

  function Encoded(n: nat, k: nat): Bytes
    decreases k
  {
    if k == 0 then [] else [n % 256] + Encoded(n / 256, k - 1)
  }

  lemma {:induction false} NumberOfEncoded(n: nat, k: nat)
    requires n < Power256(k)
    ensures |Encoded(n, k)| == k && Number(Encoded(n, k)) == n
    decreases k
  {
    if k > 0 {
      NumberOfEncoded(n / 256, k - 1);
      assert Encoded(n, k)[1..] == Encoded(n / 256, k - 1);
    }
  }

  lemma LowAndHigh(low: Byte, high: nat)
    ensures (low + 256 * high) % 256 == low && (low + 256 * high) / 256 == high
  {
  }

  lemma {:induction false} EncodedOfNumber(s: Bytes)
    ensures Number(s) < Power256(|s|) && Encoded(Number(s), |s|) == s
  {
    if s != [] {
      EncodedOfNumber(s[1..]);
      LowAndHigh(s[0], Number(s[1..]));
      assert Encoded(Number(s), |s|) == [s[0]] + Encoded(Number(s[1..]), |s| - 1);
    }
  }

  /** The least significant byte comes first. */
  lemma NumberOfFour(s: Bytes)
    requires |s| == 4
    ensures Number(s) ==
            (s[0] as int) + 0x100 * (s[1] as int) + 0x1_0000 * (s[2] as int) + 0x100_0000 * (s[3] as int)
  {
    assert s[1..][1..] == s[2..] && s[2..][1..] == s[3..] && s[3..] == [s[3]];
    assert Number([s[3]]) == s[3];
    assert Number(s[2..]) == (s[2] as int) + 256 * (s[3] as int);
  }

  // ---------------------------------------------------------------- reading

  /** A slice of the data, unless it would reach beyond the end. */
  function Region(data: Bytes, offset: int, size: int): Option<Bytes> {
    if offset < 0 || size < 0 || offset + size > |data| then None else Some(data[offset..offset + size])
  }

  /** The size rounded up to a multiple of eight. */
  function Rounded(size: nat): nat {
    (size + 7) / 8 * 8
  }

  lemma RoundedMeans(size: nat)
    ensures Rounded(size) % 8 == 0 && size <= Rounded(size) < size + 8
  {
  }

  /** One object at `offset`, which has to end before `end`. */
  function OneObject(data: Bytes, offset: nat, end: nat): Result
    ensures OneObject(data, offset, end).Ok? ==> |OneObject(data, offset, end).objects| == 1
  {
    var head := Region(data, offset, 8);
    if head.None? then Err(Truncated)
    else
      var kind, size := Number(head.value[..4]), Number(head.value[4..8]);
      if size < 8 || offset + size > end then Err(InvalidLength)
      else
        var body := Region(data, offset + 8, size - 8);
        if body.None? then Err(Truncated) else Ok([Object(kind, body.value)])
  }

  /** The bytes an object takes with its filling. */
  function Span(o: Object): nat {
    Rounded(8 + |o.payload|)
  }

  /** Objects from `offset` to `end`, one after another. */
  function Objects(data: Bytes, offset: nat, end: nat): Result
    decreases end - offset
  {
    if offset < end then
      var first := OneObject(data, offset, end);
      if first.Err? then first
      else Preceded(first.objects, Objects(data, offset + Span(first.objects[0]), end))
    else if offset != end then Err(InvalidAlignment)
    else Ok([])
  }

  function Preceded(objects: seq<Object>, r: Result): Result {
    if r.Ok? then Ok(objects + r.objects) else r
  }

  /** What grub_objects makes of a whole image. */
  function Table(data: Bytes): Result {
    if |data| < 24 then Err(Truncated)
    else
      var offset, end := Number(data[8..16]), Number(data[16..24]);
      if Number(data[..4]) != MAGIC || !(24 <= offset <= end <= |data|) then Err(InvalidTable)
      else Objects(data, offset, end)
  }

  /** grub_objects */
  method Read(data: Bytes) returns (r: Result)
    ensures r == Table(data)
    ensures forall objects :: r == Ok(objects) <==> exists fill :: IsTable(data, objects, fill)
  {
    forall objects
      ensures Table(data) == Ok(objects) <==> exists fill :: IsTable(data, objects, fill)
    {
      AcceptsExactlyTables(data, objects);
    }
    var header := Region(data, 0, 24);
    if header.None? {
      return Err(Truncated);
    }
    assert header.value[..4] == data[..4] && header.value[8..16] == data[8..16] && header.value[16..24] == data[16..24];
    var magic, offset, end := Number(header.value[..4]), Number(header.value[8..16]), Number(header.value[16..24]);
    if magic != MAGIC || !(24 <= offset <= end <= |data|) {
      return Err(InvalidTable);
    }
    r := ReadObjects(data, offset, end);
  }

  /** Lines 69-79: the loop over the objects. */
  method ReadObjects(data: Bytes, start: nat, end: nat) returns (r: Result)
    ensures r == Objects(data, start, end)
  {
    var offset := start;
    var objects: seq<Object> := [];
    assert Preceded([], Objects(data, start, end)) == Objects(data, start, end);
    while offset < end
      invariant 0 <= offset
      invariant Objects(data, start, end) == Preceded(objects, Objects(data, offset, end))
      decreases end - offset
    {
      var head := Region(data, offset, 8);
      if head.None? {
        return Err(Truncated);
      }
      var kind, size := Number(head.value[..4]), Number(head.value[4..8]);
      if size < 8 || offset + size > end {
        return Err(InvalidLength);
      }
      var body := Region(data, offset + 8, size - 8);
      if body.None? {
        return Err(Truncated);
      }
      assert OneObject(data, offset, end) == Ok([Object(kind, body.value)]);
      PrecededTwice(objects, [Object(kind, body.value)], Objects(data, offset + Rounded(size), end));
      objects := objects + [Object(kind, body.value)];
      offset := offset + Rounded(size);
    }
    if offset != end {
      return Err(InvalidAlignment);
    }
    assert objects + [] == objects;
    return Ok(objects);
  }

  lemma PrecededTwice(a: seq<Object>, b: seq<Object>, r: Result)
    ensures Preceded(a, Preceded(b, r)) == Preceded(a + b, r)
  {
  }

  // ---------------------------------------------------------------- stretches of bytes

  /** Taking a stretch of data apart where it was put together. */
  lemma Cut(data: Bytes, offset: nat, end: nat, x: Bytes, y: Bytes, z: Bytes)
    requires offset <= end <= |data| && data[offset..end] == x + y + z
    ensures offset + |x| + |y| + |z| == end
    ensures data[offset..offset + |x|] == x && data[offset + |x| + |y|..end] == z
  {
    var all := x + y + z;
    assert all[..|x|] == x && all[|x| + |y|..] == z;
    assert data[offset..offset + |x|] == data[offset..end][..|x|];
    assert data[offset + |x| + |y|..end] == data[offset..end][|x| + |y|..];
  }

  lemma Glue(data: Bytes, a: nat, b: nat, c: nat, d: nat)
    requires a <= b <= c <= d <= |data|
    ensures data[a..d] == data[a..b] + data[b..c] + data[c..d]
  {
  }

  /** Blocks of bytes one after another, each followed by its filling. */
  function Interleaved(blocks: seq<Bytes>, fill: seq<Bytes>): Bytes
    requires |blocks| == |fill|
  {
    if blocks == [] then [] else blocks[0] + fill[0] + Interleaved(blocks[1..], fill[1..])
  }

  /** Each filling reaches up to the next multiple of eight. */
  ghost predicate Padded(blocks: seq<Bytes>, fill: seq<Bytes>) {
    && |blocks| == |fill|
    && forall i :: 0 <= i < |blocks| ==> |blocks[i]| + |fill[i]| == Rounded(|blocks[i]|)
  }

  lemma FirstBlock(data: Bytes, offset: nat, end: nat, blocks: seq<Bytes>, fill: seq<Bytes>)
    requires offset <= end <= |data| && blocks != [] && Padded(blocks, fill)
    requires data[offset..end] == Interleaved(blocks, fill)
    ensures offset + |blocks[0]| <= offset + Rounded(|blocks[0]|) <= end
    ensures data[offset..offset + |blocks[0]|] == blocks[0]
    ensures Padded(blocks[1..], fill[1..])
    ensures data[offset + Rounded(|blocks[0]|)..end] == Interleaved(blocks[1..], fill[1..])
  {
    Cut(data, offset, end, blocks[0], fill[0], Interleaved(blocks[1..], fill[1..]));
  }

  lemma OneMoreBlock(data: Bytes, offset: nat, end: nat, size: nat, blocks: seq<Bytes>, fill: seq<Bytes>)
    returns (blocks': seq<Bytes>, fill': seq<Bytes>)
    requires offset + size <= offset + Rounded(size) <= end <= |data| && Padded(blocks, fill)
    requires data[offset + Rounded(size)..end] == Interleaved(blocks, fill)
    ensures blocks' == [data[offset..offset + size]] + blocks
    ensures Padded(blocks', fill') && data[offset..end] == Interleaved(blocks', fill')
  {
    var next := offset + Rounded(size);
    blocks', fill' := [data[offset..offset + size]] + blocks, [data[offset + size..next]] + fill;
    assert blocks'[1..] == blocks && fill'[1..] == fill;
    Glue(data, offset, offset + size, next, end);
  }

  // ---------------------------------------------------------------- objects as bytes

  /** The block `own` reads as the object `o`. */
  predicate Means(own: Bytes, o: Object) {
    && |own| == 8 + |o.payload|
    && Number(own[..4]) == o.kind && Number(own[4..8]) == |own| && own[8..] == o.payload
  }

  ghost predicate MeanAll(blocks: seq<Bytes>, objects: seq<Object>) {
    |blocks| == |objects| && forall i :: 0 <= i < |blocks| ==> Means(blocks[i], objects[i])
  }

  lemma PartsAt(data: Bytes, offset: nat, own: Bytes)
    requires |own| >= 8 && offset + |own| <= |data| && data[offset..offset + |own|] == own
    ensures data[offset..offset + 8][..4] == own[..4] && data[offset..offset + 8][4..8] == own[4..8]
    ensures data[offset + 8..offset + |own|] == own[8..]
  {
    assert data[offset..offset + 8] == own[..8];
    assert own[..8][..4] == own[..4] && own[..8][4..8] == own[4..8];
  }

  /** Reading a block gives what it means. */
  lemma BlockReads(data: Bytes, offset: nat, end: nat, own: Bytes, o: Object)
    requires Means(own, o) && offset + |own| <= end <= |data| && data[offset..offset + |own|] == own
    ensures OneObject(data, offset, end) == Ok([o])
  {
    PartsAt(data, offset, own);
  }

  /** Whatever was read is the meaning of the block it was read from. */
  lemma ReadsBlock(data: Bytes, offset: nat, end: nat)
    requires end <= |data| && OneObject(data, offset, end).Ok?
    ensures var o := OneObject(data, offset, end).objects[0];
            offset + 8 + |o.payload| <= end && Means(data[offset..offset + 8 + |o.payload|], o)
  {
    var size := Number(data[offset..offset + 8][4..8]);
    PartsAt(data, offset, data[offset..offset + size]);
  }

  lemma Joined(data: Bytes, offset: nat, end: nat, objects: seq<Object>)
    requires offset < end && objects != [] && OneObject(data, offset, end) == Ok([objects[0]])
    requires Objects(data, offset + Span(objects[0]), end) == Ok(objects[1..])
    ensures Objects(data, offset, end) == Ok(objects)
  {
    assert [objects[0]] + objects[1..] == objects;
  }

  lemma Parted(data: Bytes, offset: nat, end: nat) returns (o: Object)
    requires offset < end && Objects(data, offset, end).Ok?
    ensures OneObject(data, offset, end) == Ok([o]) && Objects(data, offset + Span(o), end).Ok?
    ensures Objects(data, offset, end).objects == [o] + Objects(data, offset + Span(o), end).objects
  {
    o := OneObject(data, offset, end).objects[0];
    assert OneObject(data, offset, end).objects == [o];
  }

  /** Reading a layout gives back its objects, whatever the filling and whatever surrounds it. */
  lemma {:induction false} LayoutReads(data: Bytes, offset: nat, end: nat,
                                       blocks: seq<Bytes>, fill: seq<Bytes>, objects: seq<Object>)
    requires offset <= end <= |data| && Padded(blocks, fill) && MeanAll(blocks, objects)
    requires data[offset..end] == Interleaved(blocks, fill)
    ensures Objects(data, offset, end) == Ok(objects)
    decreases |objects|
  {
    if objects == [] {
      assert |data[offset..end]| == 0;
    } else {
      FirstBlock(data, offset, end, blocks, fill);
      assert Means(blocks[0], objects[0]);
      BlockReads(data, offset, end, blocks[0], objects[0]);
      LayoutReads(data, offset + Span(objects[0]), end, blocks[1..], fill[1..], objects[1..]);
      Joined(data, offset, end, objects);
    }
  }

  /** Whatever is read is such a layout: the rounded blocks tile the region exactly. */
  lemma {:induction false} ReadsLayout(data: Bytes, offset: nat, end: nat)
    returns (blocks: seq<Bytes>, fill: seq<Bytes>)
    requires end <= |data| && Objects(data, offset, end).Ok?
    ensures offset <= end && Padded(blocks, fill) && MeanAll(blocks, Objects(data, offset, end).objects)
    ensures data[offset..end] == Interleaved(blocks, fill)
    decreases end - offset
  {
    if offset == end {
      blocks, fill := [], [];
    } else {
      var o := Parted(data, offset, end);
      var rest := Objects(data, offset + Span(o), end).objects;
      blocks, fill := ReadsLayout(data, offset + Span(o), end);
      blocks, fill := ReadsOneMore(data, offset, end, o, rest, blocks, fill);
    }
  }

  lemma ReadsOneMore(data: Bytes, offset: nat, end: nat, o: Object, rest: seq<Object>,
                     blocks: seq<Bytes>, fill: seq<Bytes>)
    returns (blocks': seq<Bytes>, fill': seq<Bytes>)
    requires offset + Span(o) <= end <= |data| && OneObject(data, offset, end) == Ok([o])
    requires Padded(blocks, fill) && MeanAll(blocks, rest) && data[offset + Span(o)..end] == Interleaved(blocks, fill)
    ensures Padded(blocks', fill') && MeanAll(blocks', [o] + rest) && data[offset..end] == Interleaved(blocks', fill')
  {
    ReadsBlock(data, offset, end);
    MeanCons(data[offset..offset + 8 + |o.payload|], o, blocks, rest);
    blocks', fill' := OneMoreBlock(data, offset, end, 8 + |o.payload|, blocks, fill);
  }

  lemma MeanCons(own: Bytes, o: Object, blocks: seq<Bytes>, objects: seq<Object>)
    requires Means(own, o) && MeanAll(blocks, objects)
    ensures MeanAll([own] + blocks, [o] + objects)
  {
  }

  // ---------------------------------------------------------------- writing

  /** Objects whose fields fit the format. */
  predicate Fits(o: Object) {
    o.kind < Power256(4) && 8 + |o.payload| < Power256(4)
  }

  function Written(o: Object): Bytes {
    Encoded(o.kind, 4) + Encoded(8 + |o.payload|, 4) + o.payload
  }

  function AllWritten(objects: seq<Object>): seq<Bytes> {
    seq(|objects|, i requires 0 <= i < |objects| => Written(objects[i]))
  }

  /** What is written means the object that was written, and nothing else does. */
  lemma MeansWritten(own: Bytes, o: Object)
    ensures Means(own, o) <==> Fits(o) && own == Written(o)
  {
    if Means(own, o) {
      EncodedOfNumber(own[..4]);
      EncodedOfNumber(own[4..8]);
      assert own == own[..4] + own[4..8] + own[8..];
    }
    if Fits(o) && own == Written(o) {
      NumberOfEncoded(o.kind, 4);
      NumberOfEncoded(8 + |o.payload|, 4);
      assert own[..4] == Encoded(o.kind, 4) && own[4..8] == Encoded(8 + |o.payload|, 4) && own[8..] == o.payload;
    }
  }

  lemma MeanAllWritten(blocks: seq<Bytes>, objects: seq<Object>)
    ensures MeanAll(blocks, objects) <==>
            blocks == AllWritten(objects) && forall i :: 0 <= i < |objects| ==> Fits(objects[i])
  {
    if |blocks| == |objects| {
      forall i | 0 <= i < |objects|
        ensures Means(blocks[i], objects[i]) <==> Fits(objects[i]) && blocks[i] == AllWritten(objects)[i]
      {
        MeansWritten(blocks[i], objects[i]);
      }
    }
  }

  /** The bytes of a table body: the objects, each with some filling. */
  function Layout(objects: seq<Object>, fill: seq<Bytes>): Bytes
    requires |objects| == |fill|
  {
    Interleaved(AllWritten(objects), fill)
  }

  ghost predicate Tiles(objects: seq<Object>, fill: seq<Bytes>) {
    (forall i :: 0 <= i < |objects| ==> Fits(objects[i])) && Padded(AllWritten(objects), fill)
  }

  // ---------------------------------------------------------------- the whole table

  /** A valid header whose region holds exactly these objects. */
  ghost predicate IsTable(data: Bytes, objects: seq<Object>, fill: seq<Bytes>) {
    && |data| >= 24 && data[..4] == [0x6D, 0x69, 0x6D, 0x67]
    && var offset, end := Number(data[8..16]), Number(data[16..24]);
    && 24 <= offset <= end <= |data|
    && Tiles(objects, fill) && data[offset..end] == Layout(objects, fill)
  }

  /** The magic number is stored as the bytes "mimg". */
  lemma MagicBytes(s: Bytes)
    requires |s| == 4
    ensures Number(s) == MAGIC <==> s == [0x6D, 0x69, 0x6D, 0x67]
  {
    NumberOfFour(s);
  }

  /** The reader accepts exactly the tables, and returns their objects. */
  lemma AcceptsExactlyTables(data: Bytes, objects: seq<Object>)
    ensures Table(data) == Ok(objects) <==> exists fill :: IsTable(data, objects, fill)
  {
    if |data| >= 24 {
      MagicBytes(data[..4]);
    }
    if exists fill :: IsTable(data, objects, fill) {
      var fill :| IsTable(data, objects, fill);
      MeanAllWritten(AllWritten(objects), objects);
      LayoutReads(data, Number(data[8..16]), Number(data[16..24]), AllWritten(objects), fill, objects);
    }
    if Table(data) == Ok(objects) {
      var blocks, fill := ReadsLayout(data, Number(data[8..16]), Number(data[16..24]));
      MeanAllWritten(blocks, objects);
      assert IsTable(data, objects, fill);
    }
  }

  /** An image with these objects right after its header. */
  function Image(objects: seq<Object>, fill: seq<Bytes>, reserved: nat): Bytes
    requires |objects| == |fill|
  {
    var body := Layout(objects, fill);
    Encoded(MAGIC, 4) + Encoded(reserved, 4) + Encoded(24, 8) + Encoded(24 + |body|, 8) + body
  }

  /** Any list of objects that fits the format survives being written and read. */
  lemma RoundTrip(objects: seq<Object>, fill: seq<Bytes>, reserved: nat)
    requires Tiles(objects, fill) && 24 + |Layout(objects, fill)| < Power256(8) && reserved < Power256(4)
    ensures Table(Image(objects, fill, reserved)) == Ok(objects)
  {
    var body, data := Layout(objects, fill), Image(objects, fill, reserved);
    Powers();
    NumberOfEncoded(MAGIC, 4);
    NumberOfEncoded(reserved, 4);
    NumberOfEncoded(24, 8);
    NumberOfEncoded(24 + |body|, 8);
    HeaderParts(Encoded(MAGIC, 4), Encoded(reserved, 4), Encoded(24, 8), Encoded(24 + |body|, 8), body);
    MeanAllWritten(AllWritten(objects), objects);
    LayoutReads(data, 24, 24 + |body|, AllWritten(objects), fill, objects);
  }

  lemma Powers()
    ensures Power256(4) == 0x1_0000_0000 && Power256(8) == 0x1_0000_0000_0000_0000
  {
  }

  lemma HeaderParts(magic: Bytes, reserved: Bytes, offset: Bytes, end: Bytes, body: Bytes)
    requires |magic| == 4 && |reserved| == 4 && |offset| == 8 && |end| == 8
    ensures var data := magic + reserved + offset + end + body;
            && |data| == 24 + |body| && data[..4] == magic && data[8..16] == offset && data[16..24] == end
            && data[24..24 + |body|] == body
  {
  }
}
