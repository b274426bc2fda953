/**
  Sending and receiving blocks over the stream stack of the client (clickhouse/client.cpp, WriteBlock, ReadBlock,
  SendBlockData and ReceiveData), with or without compression.
 */
module BlockTransfer {
  import opened WireFormat
  import opened Frames
  import opened Columns
  import ColumnSerial
  import opened BlockFormat
  import opened OutputStreams
  import opened InputStreams

  // ----- writing -----

  method SaveBody(c: Column, output: BufferedOutput) returns (r: Outcome)
    requires output.Valid()
    modifies output.Repr
    ensures output.Valid()
    ensures r.Pass? ==> output.Accepted() == old(output.Accepted()) + ColumnSerial.SaveBody(c)
    ensures output.Reliable(|ColumnSerial.SaveBody(c)|) ==> r.Pass?
    decreases c
  {
    match c
    case Vector(_, cells) =>
      r := WriteAll(output, ColumnSerial.CellBytes(cells));
    case Nested(d, offsets) =>
      ghost var was := output.Accepted();
      :- WriteAll(output, ColumnSerial.OffsetBytes(offsets));
      if Size(d) > 0 {
        :- SaveBody(d, output);
        Concat3(was, ColumnSerial.OffsetBytes(offsets), ColumnSerial.SaveBody(d));
      } else {
        assert ColumnSerial.OffsetBytes(offsets) + [] == ColumnSerial.OffsetBytes(offsets);
      }
      r := Pass;
  }

  method Save(c: Column, output: BufferedOutput) returns (r: Outcome)
    requires output.Valid()
    modifies output.Repr
    ensures output.Valid()
    ensures r.Pass? ==> output.Accepted() == old(output.Accepted()) + ColumnSerial.Save(c)
    ensures output.Reliable(|ColumnSerial.Save(c)|) ==> r.Pass?
  {
    Concat3(output.Accepted(), ColumnSerial.SavePrefix(c), ColumnSerial.SaveBody(c));
    :- WriteAll(output, ColumnSerial.SavePrefix(c));
    r := SaveBody(c, output);
  }

  method WriteInfo(revision: nat, info: BlockInfo, output: BufferedOutput) returns (r: Outcome)
    requires output.Valid() && -0x8000_0000 <= info.bucketNum < 0x8000_0000
    modifies output.Repr
    ensures output.Valid()
    ensures r.Pass? ==> output.Accepted() == old(output.Accepted()) + EncodeInfo(revision, info)
    ensures output.Reliable(|EncodeInfo(revision, info)|) ==> r.Pass?
  {
    ghost var was := output.Accepted();
    if revision >= DBMS_MIN_REVISION_WITH_BLOCK_INFO {
      :- WriteVarint64(output, 1);
      :- WriteFixed(output, info.isOverflows, 1);
      :- WriteVarint64(output, 2);
      :- WriteFixed(output, ToUInt32(info.bucketNum), 4);
      :- WriteVarint64(output, 0);
      InfoPieces(was, Varint(1), Fixed(info.isOverflows, 1), Varint(2), Fixed(ToUInt32(info.bucketNum), 4), Varint(0));
    } else {
      assert was + [] == was;
    }
    r := Pass;
  }

  lemma InfoPieces(was: seq<byte>, a: seq<byte>, b: seq<byte>, c: seq<byte>, d: seq<byte>, e: seq<byte>)
    ensures was + a + b + c + d + e == was + (a + (b + (c + (d + e))))
  {
  }

  method WriteItem(revision: nat, k: Catalog, item: ColumnItem, rows: nat, output: BufferedOutput) returns (r: Outcome)
    requires output.Valid() && |item.name| < TWO_64 && |k.name(TypeOf(item.column))| < TWO_64
    modifies output.Repr
    ensures output.Valid()
    ensures r.Pass? ==> output.Accepted() == old(output.Accepted()) + EncodeItem(revision, k, item, rows)
    ensures output.Reliable(|EncodeItem(revision, k, item, rows)|) ==> r.Pass?
  {
    ghost var was := output.Accepted();
    var typeName := k.name(TypeOf(item.column));
    :- WriteString(output, item.name);
    :- WriteString(output, typeName);
    :- WriteAll(output, CustomFlag(revision));
    ghost var body: seq<byte> := [];
    if rows > 0 {
      body := ColumnSerial.Save(item.column);
      :- Save(item.column, output);
    }
    ItemPieces(was, EncodeString(item.name), EncodeString(typeName), CustomFlag(revision), body);
    r := Pass;
  }

  lemma ItemPieces(was: seq<byte>, a: seq<byte>, b: seq<byte>, c: seq<byte>, d: seq<byte>)
    ensures was + a + b + c + d == was + (a + (b + (c + d)))
    ensures d == [] ==> was + a + b + c == was + (a + (b + (c + d)))
  {
  }

  /** The loop over the columns. */
  method WriteItems(revision: nat, k: Catalog, items: seq<ColumnItem>, rows: nat, output: BufferedOutput)
    returns (r: Outcome)
    requires output.Valid() && forall i :: 0 <= i < |items| ==> Sendable(k, items[i], rows)
    modifies output.Repr
    ensures output.Valid()
    ensures r.Pass? ==> output.Accepted() == old(output.Accepted()) + EncodeItems(revision, k, items, rows)
    ensures output.Reliable(|EncodeItems(revision, k, items, rows)|) ==> r.Pass?
  {
    ghost var goal := output.Accepted() + EncodeItems(revision, k, items, rows);
    var i := 0;
    assert items[0..] == items;
    while i < |items|
      invariant output.Valid() && i <= |items|
      invariant output.Accepted() + EncodeItems(revision, k, items[i..], rows) == goal
      invariant |output.Accepted()| >= |old(output.Accepted())|
    {
      NextItem(output.Accepted(), revision, k, items, i, rows);
      assert Sendable(k, items[i], rows);
      :- WriteItem(revision, k, items[i], rows, output);
      i := i + 1;
    }
    r := Pass;
  }

  lemma NextItem(was: seq<byte>, revision: nat, k: Catalog, items: seq<ColumnItem>, i: nat, rows: nat)
    requires i < |items|
    ensures was + EncodeItems(revision, k, items[i..], rows) ==
              was + EncodeItem(revision, k, items[i], rows) + EncodeItems(revision, k, items[i + 1..], rows)
  {
    assert items[i..][1..] == items[i + 1..];
    Concat3(was, EncodeItem(revision, k, items[i], rows), EncodeItems(revision, k, items[i + 1..], rows));
  }

  method WriteBlock(revision: nat, k: Catalog, b: Block, output: BufferedOutput) returns (r: Outcome)
    requires output.Valid() && WellFormed(k, b)
    modifies output.Repr
    ensures output.Valid()
    ensures r.Pass? ==> output.Accepted() == old(output.Accepted()) + EncodeBlock(revision, k, b) && output.pos == 0
    ensures output.Reliable(|EncodeBlock(revision, k, b)|) ==> r.Pass?
  {
    ghost var was := output.Accepted();
    :- WriteInfo(revision, b.info, output);
    :- WriteVarint64(output, |b.columns|);
    :- WriteVarint64(output, b.rows);
    :- WriteItems(revision, k, b.columns, b.rows, output);
    ItemPieces(was, EncodeInfo(revision, b.info), Varint(|b.columns|), Varint(b.rows),
               EncodeItems(revision, k, b.columns, b.rows));
    r := output.Flush();
  }

  // ----- reading -----

  method LoadPrefix(t: Type, rows: nat, input: InputStream) returns (r: Result<()>)
    requires input.Valid()
    modifies input.Repr()
    ensures input.Valid()
    ensures ColumnSerial.LoadPrefix(t, rows, old(input.Remaining())).Got? ==>
              && r.Ok? && Got((), input.Remaining()) == ColumnSerial.LoadPrefix(t, rows, old(input.Remaining()))
              && input.Beyond() == old(input.Beyond())
    ensures input.Plain? && ColumnSerial.LoadPrefix(t, rows, old(input.Remaining())).Fail? ==> r.Failed?
    decreases t
  {
    match t
    case Array(item) =>
      if rows == 0 {
        return Ok(());
      }
      r := LoadPrefix(item, rows, input);
    case Leaf(_, _, prefix) =>
      ghost var all := input.Remaining();
      var bytes :- ReadAll(input, |prefix|);
      if bytes != prefix {
        assert |prefix| <= |all| ==> bytes == all[..|prefix|];
        return Failed;
      }
      return Ok(());
    case _ =>
      return Ok(());
  }

  method LoadBody(c: Column, rows: nat, input: InputStream) returns (r: Result<Column>)
    requires input.Valid()
    modifies input.Repr()
    ensures input.Valid()
    ensures ColumnSerial.LoadBody(c, rows, old(input.Remaining())).Got? ==>
              && r.Ok? && Got(r.value, input.Remaining()) == ColumnSerial.LoadBody(c, rows, old(input.Remaining()))
              && input.Beyond() == old(input.Beyond())
    ensures input.Plain? && ColumnSerial.LoadBody(c, rows, old(input.Remaining())).Fail? ==> r.Failed?
    decreases c
  {
    hide InputStream.Valid, InputStream.Remaining, InputStream.Beyond, ColumnSerial.CellsFrom, ColumnSerial.OffsetsFrom;
    match c
    case Vector(t, _) =>
      var bytes :- ReadAll(input, rows * Width(t));
      return Ok(Vector(t, ColumnSerial.CellsFrom(bytes, Width(t), rows)));
    case Nested(d, _) =>
      if rows == 0 {
        return Ok(c);
      }
      var bytes :- ReadAll(input, 8 * rows);
      var offsets := ColumnSerial.OffsetsFrom(bytes, rows);
      if offsets[rows - 1] == 0 {
        return Ok(Nested(d, offsets));
      }
      var d' :- LoadBody(d, offsets[rows - 1], input);
      return Ok(Nested(d', offsets));
  }

  method Load(c: Column, rows: nat, input: InputStream) returns (r: Result<Column>)
    requires input.Valid()
    modifies input.Repr()
    ensures input.Valid()
    ensures ColumnSerial.Load(c, rows, old(input.Remaining())).Got? ==>
              && r.Ok? && Got(r.value, input.Remaining()) == ColumnSerial.Load(c, rows, old(input.Remaining()))
              && input.Beyond() == old(input.Beyond())
    ensures input.Plain? && ColumnSerial.Load(c, rows, old(input.Remaining())).Fail? ==> r.Failed?
  {
    var _ :- LoadPrefix(TypeOf(c), rows, input);
    r := LoadBody(c, rows, input);
  }

  method ReadInfo(revision: nat, input: InputStream) returns (r: Result<BlockInfo>)
    requires input.Valid()
    modifies input.Repr()
    ensures input.Valid()
    ensures DecodeInfo(revision, old(input.Remaining())).Got? ==>
              && r.Ok? && Got(r.value, input.Remaining()) == DecodeInfo(revision, old(input.Remaining()))
              && input.Beyond() == old(input.Beyond())
    ensures input.Plain? && DecodeInfo(revision, old(input.Remaining())).Fail? ==> r.Failed?
  {
    hide DecodeVarint, DecodeFixed, Lawful, Readable, FrameStream, Payload;
    if revision < DBMS_MIN_REVISION_WITH_BLOCK_INFO {
      return Ok(DEFAULT_INFO);
    }
    var _ :- ReadVarint64(input);
    var overflows :- ReadFixed(input, 1);
    var _ :- ReadVarint64(input);
    var bucket :- ReadFixed(input, 4);
    var _ :- ReadVarint64(input);
    return Ok(BlockInfo(overflows % 256, ToInt32(bucket)));
  }

  method ReadFlag(revision: nat, input: InputStream) returns (r: Result<()>)
    requires input.Valid()
    modifies input.Repr()
    ensures input.Valid()
    ensures DecodeFlag(revision, old(input.Remaining())).Got? ==>
              && r.Ok? && Got((), input.Remaining()) == DecodeFlag(revision, old(input.Remaining()))
              && input.Beyond() == old(input.Beyond())
    ensures input.Plain? && DecodeFlag(revision, old(input.Remaining())).Fail? ==> r.Failed?
  {
    if revision < DBMS_MIN_REVISION_WITH_CUSTOM_SERIALIZATION {
      return Ok(());
    }
    var flag :- ReadFixed(input, 1);
    return if flag > 0 then Failed else Ok(());
  }

  method ReadItem(revision: nat, k: Catalog, rows: nat, input: InputStream) returns (r: Result<ColumnItem>)
    requires input.Valid()
    modifies input.Repr()
    ensures input.Valid()
    ensures DecodeItem(revision, k, rows, old(input.Remaining())).Got? ==>
              && r.Ok? && Got(r.value, input.Remaining()) == DecodeItem(revision, k, rows, old(input.Remaining()))
              && input.Beyond() == old(input.Beyond())
    ensures input.Plain? && DecodeItem(revision, k, rows, old(input.Remaining())).Fail? ==> r.Failed?
  {
    var name :- ReadString(input);
    var typeName :- ReadString(input);
    var _ :- ReadFlag(revision, input);
    var t := k.create(typeName);
    if t.None? {
      return Failed;
    }
    if rows == 0 {
      return Ok(ColumnItem(name, Empty(t.value)));
    }
    var c :- Load(Empty(t.value), rows, input);
    return Ok(ColumnItem(name, c));
  }

  /** The loop over the columns, each appended to the block or refused. */
  method ReadItems(revision: nat, k: Catalog, n: nat, rows: nat, start: Block, input: InputStream)
    returns (r: Result<Block>)
    requires input.Valid()
    modifies input.Repr()
    ensures input.Valid()
    ensures DecodeItems(revision, k, n, rows, start, old(input.Remaining())).Got? ==>
              && r.Ok?
              && Got(r.value, input.Remaining()) == DecodeItems(revision, k, n, rows, start, old(input.Remaining()))
              && input.Beyond() == old(input.Beyond())
    ensures input.Plain? && DecodeItems(revision, k, n, rows, start, old(input.Remaining())).Fail? ==> r.Failed?
  {
    hide DecodeItem, DecodeItems, AppendColumn, InputStream.Valid, InputStream.Remaining, InputStream.Beyond;
    ghost var spec := DecodeItems(revision, k, n, rows, start, input.Remaining());
    ghost var sure := spec.Got? || input.Plain?;
    var b := start;
    for i := 0 to n
      invariant input.Valid()
      invariant sure ==>
                  && input.Beyond() == old(input.Beyond())
                  && DecodeItems(revision, k, n - i, rows, b, input.Remaining()) == spec
    {
      NextColumn(revision, k, n - i, rows, b, input.Remaining());
      var item :- ReadItem(revision, k, rows, input);
      var more := AppendColumn(b, item);
      if more.None? {
        return Failed;
      }
      b := more.value;
    }
    NoColumn(revision, k, rows, b, input.Remaining());
    return Ok(b);
  }

  lemma NoColumn(revision: nat, k: Catalog, rows: nat, b: Block, s: seq<byte>)
    ensures DecodeItems(revision, k, 0, rows, b, s) == Got(b, s)
  {
  }

  /** One round of the loop. */
  lemma NextColumn(revision: nat, k: Catalog, n: nat, rows: nat, b: Block, s: seq<byte>)
    requires n > 0
    ensures DecodeItems(revision, k, n, rows, b, s) ==
              match DecodeItem(revision, k, rows, s)
              case Fail => Fail
              case Got(item, rest) =>
                match AppendColumn(b, item)
                case None => Fail
                case Some(b') => DecodeItems(revision, k, n - 1, rows, b', rest)
  {
  }

  method ReadBlock(revision: nat, k: Catalog, input: InputStream) returns (r: Result<Block>)
    requires input.Valid()
    modifies input.Repr()
    ensures input.Valid()
    ensures DecodeBlock(revision, k, old(input.Remaining())).Got? ==>
              && r.Ok? && Got(r.value, input.Remaining()) == DecodeBlock(revision, k, old(input.Remaining()))
              && input.Beyond() == old(input.Beyond())
    ensures input.Plain? && DecodeBlock(revision, k, old(input.Remaining())).Fail? ==> r.Failed?
  {
    var info :- ReadInfo(revision, input);
    var n :- ReadVarint64(input);
    var rows :- ReadVarint64(input);
    r := ReadItems(revision, k, n, rows, NO_BLOCK.(info := info), input);
  }

  // ----- data packets -----

  const DBMS_MIN_REVISION_WITH_TEMPORARY_TABLES: nat := 50264
  const CLIENT_DATA: nat := 2

  datatype Compression = Off | On(codec: Codec, limit: nat)

  /** The frames hold the bytes in order, each within the chunk limit and the preallocated buffer. */
  ghost predicate CutFrom(z: Compression, bytes: seq<byte>, frames: seq<Frame>)
    requires z.On?
  {
    Payload(frames) == bytes && forall i :: 0 <= i < |frames| ==> Emitted(z.codec, z.limit, frames[i])
  }

  /** The block as plain bytes, or cut into frames behind a buffer of the chunk size. */
  method SendBlockData(revision: nat, k: Catalog, b: Block, z: Compression, output: BufferedOutput)
    returns (r: Outcome, ghost frames: seq<Frame>)
    requires output.Valid() && output.destination.ToSocket? && WellFormed(k, b) && (z.On? ==> Lawful(z.codec))
    modifies output.Repr
    ensures output.Valid()
    ensures z.Off? ==> r.Pass? && output.Accepted() == old(output.Accepted()) + EncodeBlock(revision, k, b)
    ensures z.On? && r.Pass? ==>
              && output.Accepted() == old(output.Accepted()) + FrameStream(z.codec, frames)
              && CutFrom(z, EncodeBlock(revision, k, b), frames)
    ensures r.Pass? ==> output.pos == 0
    ensures z.On? && z.codec.bound(z.limit).None? ==> r.Throw?
    ensures z.On? && z.codec.bound(ChunkBound(z.limit, |EncodeBlock(revision, k, b)|)).Some? ==> r.Pass?
  {
    hide EncodeBlock, FrameStream, Emitted;
    frames := [];
    if z.Off? {
      r := WriteBlock(revision, k, b, output);
    } else {
      if z.codec.bound(z.limit).None? {
        return Throw, [];
      }
      var c := new CompressedOutput(output, z.limit, z.codec);
      var buffered := new BufferedOutput.OverFrames(c, z.limit);
      ghost var n := |EncodeBlock(revision, k, b)|;
      if z.limit == 0 && z.codec.bound(n).Some? {
        BoundTakes(z.codec, n);
      }
      r := WriteBlock(revision, k, b, buffered);
      assert c.Connected();
      frames := c.frames;
      if r.Pass? {
        assert buffered.Accepted() == [] + EncodeBlock(revision, k, b) == EncodeBlock(revision, k, b);
        assert buffered.Accepted() == Payload(frames) + buffered.buffer[..0] == Payload(frames);
        BlockNotEmpty(revision, k, b);
      }
    }
  }

  lemma BlockNotEmpty(revision: nat, k: Catalog, b: Block)
    requires -0x8000_0000 <= b.info.bucketNum < 0x8000_0000
    ensures EncodeBlock(revision, k, b) != []
  {
  }

  /** The bytes of a data packet around its block bytes. */
  function PacketHead(revision: nat): seq<byte> {
    Varint(CLIENT_DATA) + if revision >= DBMS_MIN_REVISION_WITH_TEMPORARY_TABLES then EncodeString([]) else []
  }

  method SendData(revision: nat, k: Catalog, b: Block, z: Compression, output: BufferedOutput)
    returns (r: Outcome, ghost frames: seq<Frame>)
    requires output.Valid() && output.destination.ToSocket? && WellFormed(k, b) && (z.On? ==> Lawful(z.codec))
    modifies output.Repr
    ensures output.Valid()
    ensures z.Off? ==>
              && r.Pass?
              && output.Accepted() == old(output.Accepted()) + PacketHead(revision) + EncodeBlock(revision, k, b)
    ensures z.On? && r.Pass? ==>
              && output.Accepted() == old(output.Accepted()) + PacketHead(revision) + FrameStream(z.codec, frames)
              && CutFrom(z, EncodeBlock(revision, k, b), frames)
    ensures r.Pass? ==> output.pos == 0
    ensures z.On? && z.codec.bound(z.limit).None? ==> r.Throw?
    ensures z.On? && z.codec.bound(ChunkBound(z.limit, |EncodeBlock(revision, k, b)|)).Some? ==> r.Pass?
  {
    ghost var was := output.Accepted();
    r := WriteVarint64(output, CLIENT_DATA);
    if revision >= DBMS_MIN_REVISION_WITH_TEMPORARY_TABLES {
      r := WriteString(output, []);
      Concat3(was, Varint(CLIENT_DATA), EncodeString([]));
    }
    assert output.Accepted() == was + PacketHead(revision);
    r, frames := SendBlockData(revision, k, b, z, output);
    if r.Pass? {
      r := output.Flush();
    }
  }

  /** The bytes are frames that hold exactly the payload, and then rest. */
  ghost predicate WholeFrames(codec: Codec, payload: seq<byte>, bytes: seq<byte>, rest: seq<byte>) {
    exists fs :: Readable(codec, fs) && Payload(fs) == payload && bytes == FrameStream(codec, fs) + rest
  }

  /** So many bytes of the frames' payload are those of a number of whole frames at the end. */
  ghost predicate AtBoundary(frames: seq<Frame>, left: nat) {
    exists i :: 0 <= i <= |frames| && |Payload(frames[i..])| == left
  }

  lemma {:induction false} PayloadShrinks(frames: seq<Frame>, i: nat, j: nat)
    requires i <= j <= |frames|
    ensures |Payload(frames[i..])| >= |Payload(frames[j..])|
    decreases j - i
  {
    if i < j {
      assert frames[i..][1..] == frames[i + 1..];
      PayloadShrinks(frames, i + 1, j);
    }
  }

  /** Inside the frame before the last n frames there is no boundary. */
  lemma InsideFrame(all: seq<Frame>, n: nat, left: nat)
    requires 0 < n <= |all|
    requires |Payload(all[n..])| < left < |Payload(all[n - 1..])|
    ensures !AtBoundary(all, left)
  {
    hide Payload;
    forall i | 0 <= i <= |all|
      ensures |Payload(all[i..])| != left
    {
      if i < n { PayloadShrinks(all, i, n - 1); } else { PayloadShrinks(all, n, i); }
    }
  }

  lemma PayloadFrom(all: seq<Frame>, n: nat)
    requires n < |all|
    ensures Payload(all[n..]) == all[n].data + Payload(all[n + 1..])
  {
    assert all[n..][1..] == all[n + 1..];
  }

  /** What is left of a stream that has read from every frame it opened is at a boundary exactly if none is open. */
  lemma LeftOver(codec: Codec, all: seq<Frame>, frames: seq<Frame>, data: seq<byte>, pos: nat)
    requires Readable(codec, all) && IsOpened(all, frames, data) && pos <= |data| && (data == [] || pos > 0)
    ensures pos == |data| <==> AtBoundary(all, |data[pos..] + Payload(frames)|)
    ensures pos == |data| ==> data[pos..] + Payload(frames) == Payload(frames)
  {
    hide Payload, Readable;
    var n, left := |all| - |frames|, data[pos..] + Payload(frames);
    assert all[n..] == frames;
    if pos == |data| {
      assert data[pos..] == [] && left == Payload(all[n..]);
    } else {
      PayloadFrom(all, n - 1);
      InsideFrame(all, n, |left|);
    }
  }

  lemma NothingLeft(codec: Codec, all: seq<Frame>, frames: seq<Frame>, data: seq<byte>, pos: nat)
    requires Readable(codec, all) && IsOpened(all, frames, data) && pos <= |data|
    ensures data[pos..] + Payload(frames) == [] ==> pos == |data| && frames == []
  {
    if frames != [] {
      assert Genuine(codec, all[|all| - |frames|]);
      PayloadHead(codec, frames);
    }
  }

  /** The body of a data packet; frames and rest say what the compressed bytes are. */
  method ReceiveData(revision: nat, k: Catalog, z: Compression, input: BufferedInput,
                     ghost frames: seq<Frame>, ghost rest: seq<byte>)
    returns (r: Result<Block>)
    requires input.Valid() && input.buffer.Length > 0
    requires z.On? ==> Lawful(z.codec) && Readable(z.codec, frames)
    requires z.Off? ==> frames == []
    modifies input.Repr()
    ensures input.Valid()
    ensures z.Off? ==>
              && (DecodePacket(revision, k, old(input.Remaining())).Got? <==> r.Ok?)
              && (r.Ok? ==> Got(r.value, input.Remaining()) == DecodePacket(revision, k, old(input.Remaining())))
    ensures z.On? && TableName(revision, old(input.Remaining())) == Got((), FrameStream(z.codec, frames) + rest) ==>
              var p := DecodeBlock(revision, k, Payload(frames));
              && (p.Got? ==> (r.Ok? <==> AtBoundary(frames, |p.rest|)))
              && (p.Got? && r.Ok? ==> r.value == p.value && WholeFrames(z.codec, p.rest, input.Remaining(), rest))
              && (p.Got? && p.rest == [] ==> r.Ok? && input.Remaining() == rest)
  {
    hide DecodeBlock, WholeFrames, Lawful;
    ghost var head := TableName(revision, input.Remaining());
    if revision >= DBMS_MIN_REVISION_WITH_TEMPORARY_TABLES {
      var _ :- SkipString(Plain(input));
    }
    if z.Off? {
      r := ReadBlock(revision, k, Plain(input));
    } else {
      ghost var known := head == Got((), FrameStream(z.codec, frames) + rest);
      ghost var fs := if known then frames else [];
      ghost var beyond := if known then rest else input.Remaining();
      assert [] + beyond == beyond;
      r := ReadFramed(revision, k, z.codec, input, fs, beyond);
    }
  }

  /** Reads a block through a decompressing stream, which throws if it is left with part of an opened frame. */
  method ReadFramed(revision: nat, k: Catalog, codec: Codec, input: BufferedInput,
                    ghost frames: seq<Frame>, ghost rest: seq<byte>)
    returns (r: Result<Block>)
    requires input.Valid() && input.buffer.Length > 0 && Lawful(codec) && Readable(codec, frames)
    requires input.Remaining() == FrameStream(codec, frames) + rest
    modifies input.Repr()
    ensures input.Valid()
    ensures var p := DecodeBlock(revision, k, Payload(frames));
            && (p.Got? ==> (r.Ok? <==> AtBoundary(frames, |p.rest|)))
            && (p.Got? && r.Ok? ==> r.value == p.value && WholeFrames(codec, p.rest, input.Remaining(), rest))
            && (p.Got? && p.rest == [] ==> r.Ok? && input.Remaining() == rest)
  {
    hide DecodeBlock, FrameStream, Readable, Lawful, IsOpened, AtBoundary;
    var c := new CompressedInput(input, codec, frames, rest);
    r := ReadBlock(revision, k, Framed(c));
    var clean := c.Close();
    if DecodeBlock(revision, k, Payload(frames)).Got? {
      LeftOver(codec, frames, c.frames, c.data, c.pos);
      NothingLeft(codec, frames, c.frames, c.data, c.pos);
    }
    if !clean {
      r := Failed;
    }
  }

  /** The table name that newer servers put in front of a block. */
  function TableName(revision: nat, s: seq<byte>): Parse<()> {
    if revision < DBMS_MIN_REVISION_WITH_TEMPORARY_TABLES then Got((), s)
    else match DecodeString(s)
      case Got(_, rest) => Got((), rest)
      case Fail => Fail
  }

  function DecodePacket(revision: nat, k: Catalog, s: seq<byte>): Parse<Block> {
    match TableName(revision, s)
    case Got(_, rest) => DecodeBlock(revision, k, rest)
    case Fail => Fail
  }

  /** A data packet starts with its code, and from revision 50264 on with an empty table name. */
  lemma HeadBytes(revision: nat)
    ensures PacketHead(revision) == if revision >= 50264 then [2, 0] else [2]
  {
    assert Varint(2) == [2] && Varint(0) == [0];
  }

  lemma HeadRoundTrip(revision: nat, tail: seq<byte>)
    ensures DecodeVarint(PacketHead(revision) + tail).Got?
    ensures var p := DecodeVarint(PacketHead(revision) + tail);
            p.value == CLIENT_DATA && TableName(revision, p.rest) == Got((), tail)
  {
    var name := if revision >= DBMS_MIN_REVISION_WITH_TEMPORARY_TABLES then EncodeString([]) else [];
    Concat3(Varint(CLIENT_DATA), name, tail);
    VarintRoundTrip(CLIENT_DATA, name + tail);
    if revision >= DBMS_MIN_REVISION_WITH_TEMPORARY_TABLES {
      StringRoundTrip([], tail);
    } else {
      assert name + tail == tail;
    }
  }

  /** The bytes after the packet head. */
  function BodyBytes(revision: nat, k: Catalog, b: Block, z: Compression, frames: seq<Frame>): seq<byte>
    requires WellFormed(k, b)
  {
    if z.On? then FrameStream(z.codec, frames) else EncodeBlock(revision, k, b)
  }

  /** Sends one data packet on a new connection; wire is what the socket delivered. */
  method Transmit(revision: nat, k: Catalog, b: Block, z: Compression, size: nat, schedule: seq<nat>)
    returns (sent: bool, wire: seq<byte>, ghost frames: seq<Frame>)
    requires WellFormed(k, b) && (z.On? ==> Lawful(z.codec))
    ensures z.Off? ==> sent
    ensures z.On? && z.codec.bound(z.limit).None? ==> !sent
    ensures z.On? && z.codec.bound(ChunkBound(z.limit, |EncodeBlock(revision, k, b)|)).Some? ==> sent
    ensures sent ==> wire == PacketHead(revision) + BodyBytes(revision, k, b, z, frames)
    ensures sent && z.On? ==> CutFrom(z, EncodeBlock(revision, k, b), frames)
  {
    hide EncodeBlock, FrameStream, Payload, Emitted, PacketHead, Lawful, WellFormed;
    var socket := new SocketOutput(schedule);
    var output := new BufferedOutput.OverSocket(socket, size);
    var r;
    r, frames := SendData(revision, k, b, z, output);
    sent, wire := r.Pass?, socket.delivered;
    if sent {
      assert output.Accepted() == wire + output.buffer[..0] == wire;
      Concat3([], PacketHead(revision), BodyBytes(revision, k, b, z, frames));
    }
  }

  /**
    A block sent as a data packet and received again: for every revision, with or without compression, every chunk
    size, every buffer size and every way the sockets split the bytes, the same block arrives and no byte is left.
   */
  method Exchange(revision: nat, k: Catalog, b: Block, z: Compression,
                  outSize: nat, inSize: nat, sends: seq<nat>, receives: seq<nat>)
    returns (sent: bool, received: Result<Block>, leftover: bool)
    requires Faithful(k) && WellFormed(k, b) && inSize > 0
    requires z.On? ==> Lawful(z.codec) && Manageable(z.codec, ChunkBound(z.limit, |EncodeBlock(revision, k, b)|))
    ensures sent && received == Ok(Carried(revision, b)) && !leftover
  {
    ghost var frames;
    var wire;
    sent, wire, frames := Transmit(revision, k, b, z, outSize, sends);
    received, leftover := Accept(revision, k, b, z, inSize, receives, wire, frames);
  }

  /** Receives one data packet on a connection that carries exactly its bytes. */
  method Accept(revision: nat, k: Catalog, ghost b: Block, z: Compression, size: nat, schedule: seq<nat>,
                wire: seq<byte>, ghost frames: seq<Frame>)
    returns (received: Result<Block>, leftover: bool)
    requires Faithful(k) && WellFormed(k, b) && size > 0
    requires wire == PacketHead(revision) + BodyBytes(revision, k, b, z, frames)
    requires z.On? ==>
               && Lawful(z.codec) && Manageable(z.codec, ChunkBound(z.limit, |EncodeBlock(revision, k, b)|))
               && CutFrom(z, EncodeBlock(revision, k, b), frames)
    ensures received == Ok(Carried(revision, b)) && !leftover
  {
    hide DecodeBlock, EncodeBlock, Manageable, Carried, WellFormed, Faithful, PacketHead, FrameStream, CutFrom,
      DecodeVarint, TableName, Lawful, Readable, Payload;
    Delivered(revision, k, b, z, frames);
    ghost var body := BodyBytes(revision, k, b, z, frames);
    var socket := new SocketInput(wire, schedule);
    var input := new BufferedInput(socket, size);
    HeadRoundTrip(revision, body);
    assert input.Remaining() == PacketHead(revision) + body;
    var code := ReadVarint64(Plain(input));
    received, leftover := AcceptBody(revision, k, z, input, body, Carried(revision, b), frames);
  }

  method AcceptBody(revision: nat, k: Catalog, z: Compression, input: BufferedInput,
                    ghost body: seq<byte>, ghost b: Block, ghost frames: seq<Frame>)
    returns (received: Result<Block>, leftover: bool)
    requires input.Valid() && input.buffer.Length > 0 && TableName(revision, input.Remaining()) == Got((), body)
    requires z.Off? ==> DecodeBlock(revision, k, body) == Got(b, [])
    requires z.On? ==>
               && Lawful(z.codec) && Readable(z.codec, frames) && body == FrameStream(z.codec, frames)
               && DecodeBlock(revision, k, Payload(frames)) == Got(b, [])
    modifies input.Repr()
    ensures received == Ok(b) && !leftover
  {
    hide DecodeBlock, TableName, FrameStream;
    if z.On? {
      assert FrameStream(z.codec, frames) + [] == FrameStream(z.codec, frames);
      received := ReceiveData(revision, k, z, input, frames, []);
    } else {
      received := ReceiveData(revision, k, z, input, [], []);
    }
    assert input.Remaining() == [];
    leftover := input.avail > 0 || |input.source.remaining| > 0;
  }

  /** What the receiver needs to know about what was sent. */
  lemma Delivered(revision: nat, k: Catalog, b: Block, z: Compression, frames: seq<Frame>)
    requires Faithful(k) && WellFormed(k, b)
    requires z.On? ==>
               && Lawful(z.codec) && Manageable(z.codec, ChunkBound(z.limit, |EncodeBlock(revision, k, b)|))
               && CutFrom(z, EncodeBlock(revision, k, b), frames)
    ensures DecodeBlock(revision, k, EncodeBlock(revision, k, b)) == Got(Carried(revision, b), [])
    ensures z.On? ==>
              Readable(z.codec, frames) && DecodeBlock(revision, k, Payload(frames)) == Got(Carried(revision, b), [])
  {
    BlockRoundTrip(revision, k, b, []);
    assert EncodeBlock(revision, k, b) + [] == EncodeBlock(revision, k, b);
    if z.On? {
      EmittedReadable(z.codec, z.limit, frames);
    }
  }
}
