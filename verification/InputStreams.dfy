/**
  Input streams (clickhouse/base/input.cpp, clickhouse/base/compressed.cpp) in the stack the client builds: a buffered
  stream over a socket, and a decompressing stream over the former.
 */
module InputStreams {
  import opened Arith
  import opened Sequences
  import opened WireFormat
  import opened Frames

  /** What a read returns: a value, or failure (the original returns false or throws). */
  datatype Result<+T> = Ok(value: T) | Failed {
    predicate IsFailure() { Failed? }
    function PropagateFailure<U>(): Result<U> requires Failed? { Failed }
    function Extract(): T requires Ok? { value }
  }

  function Min(a: nat, b: nat): nat {
    if a < b then a else b
  }

  /** A socket that gives some of the bytes that are left, at least one, as its schedule says; none at the end. */
  class SocketInput {
    var remaining: seq<byte>
    var schedule: seq<nat>

    constructor (bytes: seq<byte>, schedule: seq<nat>)
      ensures remaining == bytes && this.schedule == schedule
    {
      remaining, this.schedule := bytes, schedule;
    }

    method Read(len: nat) returns (bytes: seq<byte>)
      modifies this
      ensures |bytes| <= len && bytes + remaining == old(remaining)
      ensures len > 0 && old(remaining) != [] ==> bytes != []
    {
      var n := Min(len, |remaining|);
      if schedule != [] {
        n := if schedule[0] == 0 then Min(n, 1) else Min(schedule[0], n);
        schedule := schedule[1..];
      }
      bytes := remaining[..n];
      remaining := remaining[n..];
    }
  }

  class BufferedInput {
    const source: SocketInput
    const buffer: array<byte>
    var start: nat
    var avail: nat

    ghost predicate Valid()
      reads this, buffer
    {
      start + avail <= buffer.Length
    }

    ghost function Repr(): set<object> {
      {this, buffer, source}
    }

    /** Every byte not yet handed out, in order. */
    ghost function Remaining(): seq<byte>
      requires Valid()
      reads this, buffer, source
    {
      buffer[start..start + avail] + source.remaining
    }

    constructor (source: SocketInput, size: nat)
      ensures Valid() && fresh(this) && fresh(buffer) && this.source == source
      ensures buffer.Length == size && Remaining() == source.remaining
    {
      this.source := source;
      var b := new byte[size];
      buffer := b;
      start, avail := 0, 0;
      new;
      assert buffer[0..0] == [];
    }

    /** Replaces the exhausted window by one read from the source. */
    method Refill()
      requires Valid() && avail == 0
      modifies this, buffer, source
      ensures Valid() && Remaining() == old(Remaining())
      ensures buffer.Length > 0 && Remaining() != [] ==> avail > 0
    {
      var bytes := source.Read(buffer.Length);
      CopyIn(bytes);
      start, avail := 0, |bytes|;
      assert buffer[0..|bytes|] == bytes;
      assert old(buffer[start..start + avail]) == [];
    }

    method CopyIn(bytes: seq<byte>)
      requires |bytes| <= buffer.Length
      modifies buffer
      ensures buffer[..|bytes|] == bytes
    {
      for n := 0 to |bytes|
        invariant buffer[..n] == bytes[..n]
      {
        buffer[n] := bytes[n];
        assert buffer[..n + 1] == buffer[..n] + [bytes[n]];
      }
    }

    /** Hands out bytes from the window (ArrayInput::DoNext). */
    method FromWindow(len: nat) returns (bytes: seq<byte>)
      requires Valid()
      modifies this
      ensures Valid() && |bytes| == Min(len, old(avail)) && bytes + Remaining() == old(Remaining())
      ensures source.remaining == old(source.remaining)
    {
      var n := Min(len, avail);
      bytes := buffer[start..start + n];
      ghost var window := buffer[start..start + avail];
      start, avail := start + n, avail - n;
      assert window == bytes + buffer[start..start + avail];
      Concat3(bytes, buffer[start..start + avail], source.remaining);
    }

    method Next(len: nat) returns (bytes: seq<byte>)
      requires Valid()
      modifies Repr()
      ensures Valid() && |bytes| <= len && bytes + Remaining() == old(Remaining())
      ensures len > 0 && buffer.Length > 0 && old(Remaining()) != [] ==> bytes != []
      ensures old(avail) > 0 ==> |bytes| == Min(len, old(avail)) && source.remaining == old(source.remaining)
    {
      if avail == 0 {
        Refill();
      }
      bytes := FromWindow(len);
    }

    method Read(len: nat) returns (bytes: seq<byte>)
      requires Valid()
      modifies Repr()
      ensures Valid() && |bytes| <= len && bytes + Remaining() == old(Remaining())
      ensures len > 0 && old(Remaining()) != [] ==> bytes != []
      ensures old(avail) > 0 ==> |bytes| == Min(len, old(avail)) && source.remaining == old(source.remaining)
      ensures old(avail) == 0 && len > buffer.Length / 2 ==> avail == 0
    {
      if avail == 0 {
        if len > buffer.Length / 2 {
          bytes := source.Read(len);
          assert buffer[start..start + avail] == [];
          return;
        }
        Refill();
      }
      bytes := FromWindow(len);
    }

    /** Drops exactly len bytes, or all of them when there are fewer. */
    method Skip(len: nat) returns (ok: bool)
      requires Valid() && buffer.Length > 0
      modifies Repr()
      ensures Valid() && (ok <==> len <= |old(Remaining())|)
      ensures Remaining() == if ok then old(Remaining())[len..] else []
    {
      ghost var all := Remaining();
      var left: nat := len;
      while left > 0
        invariant Valid() && left <= len && len - left <= |all|
        invariant Remaining() == all[len - left..]
      {
        ghost var before := Remaining();
        var bytes := Next(left);
        if |bytes| == 0 {
          return false;
        }
        assert Remaining() == before[|bytes|..];
        assert before[|bytes|..] == all[len - left + |bytes|..];
        left := left - |bytes|;
      }
      return true;
    }
  }

  class CompressedInput {
    const input: BufferedInput
    const codec: Codec
    var data: seq<byte>
    var pos: nat
    ghost const all: seq<Frame>
    ghost var frames: seq<Frame>
    ghost var rest: seq<byte>
    ghost var strayed: bool

    /** Until it has strayed, the stream has opened frames in order, and read from every one that it opened. */
    ghost predicate Valid()
      reads this, input, input.buffer, input.source
    {
      Aligned() && (strayed || data == [] || pos > 0)
    }

    /** The underlying bytes are the frames not yet opened and then rest; data are those of the last opened. */
    ghost predicate Aligned()
      reads this, input, input.buffer, input.source
    {
      && (strayed || IsOpened(all, frames, data))
      && input.Valid() && input.buffer.Length > 0 && pos <= |data| && Lawful(codec) && Readable(codec, frames)
      && input.Remaining() == FrameStream(codec, frames) + rest
    }

    ghost function Repr(): set<object> {
      {this} + input.Repr()
    }

    /** The payload of those frames that has not been handed out. */
    ghost function Remaining(): seq<byte>
      reads this
      requires pos <= |data|
    {
      data[pos..] + Payload(frames)
    }

    constructor (input: BufferedInput, codec: Codec, ghost frames: seq<Frame>, ghost rest: seq<byte>)
      requires input.Valid() && input.buffer.Length > 0 && Lawful(codec) && Readable(codec, frames)
      requires input.Remaining() == FrameStream(codec, frames) + rest
      ensures Valid() && fresh(this) && this.input == input && this.codec == codec && all == frames && !strayed
      ensures Remaining() == Payload(frames) && this.rest == rest
    {
      hide IsOpened, Lawful, Readable, FrameStream, Payload;
      this.input, this.codec, this.data, this.pos := input, codec, [], 0;
      this.all, this.frames, this.rest, this.strayed := frames, frames, rest, false;
      new;
      NoneOpened(frames);
      assert data[pos..] == [];
    }

    /** Opens the next frame into data; an empty frame counts as the end of the data. */
    method Decompress() returns (r: Result<()>)
      requires Valid() && pos == |data|
      modifies Repr()
      ensures Aligned() && (r.Failed? ==> Valid()) && (r.Ok? ==> pos == 0)
      ensures old(frames) != [] ==>
                && r.Ok? && data == old(frames[0].data) && frames == old(frames)[1..]
                && rest == old(rest) && strayed == old(strayed)
      decreases 2, 0
    {
      hide IsOpened, Lawful, Readable, FrameStream, Payload, DecodeFrame;
      NoFrames(codec);
      if frames != [] {
        HeadFrame(codec, frames, rest);
        if !strayed {
          OpenedNext(all, frames, data);
        }
      }
      var frame := OpenFrame(input, codec);
      if frame.Failed? {
        frames, rest, strayed := [], input.Remaining(), true;
        assert [] + rest == rest;
        return Failed;
      }
      data, pos := frame.value, 0;
      if frames != [] {
        frames := frames[1..];
      } else {
        rest, strayed := input.Remaining(), true;
        assert [] + rest == rest;
      }
      return Ok(());
    }

    method Next(len: nat) returns (r: Result<seq<byte>>)
      requires Valid()
      modifies Repr()
      ensures Valid() && (r.Ok? ==> |r.value| <= len)
      ensures len > 0 && old(Remaining()) != [] ==>
                && r.Ok? && r.value != []
                && r.value + Remaining() == old(Remaining()) && rest == old(rest) && strayed == old(strayed)
      decreases 3, 0
    {
      if pos == |data| {
        if frames != [] {
          PayloadHead(codec, frames);
          assert data[pos..] == [];
        }
        var more := Decompress();
        if more.Failed? {
          return Failed;
        }
      }
      strayed := strayed || len == 0;
      r := FromWindow(len);
    }

    /** Hands out bytes of the opened frame. */
    method FromWindow(len: nat) returns (r: Result<seq<byte>>)
      requires pos <= |data|
      modifies this`pos
      ensures pos <= |data| && r.Ok? && |r.value| == Min(len, |data| - old(pos))
      ensures r.value + Remaining() == old(Remaining())
    {
      var n := Min(len, |data| - pos);
      var bytes := data[pos..pos + n];
      ghost var window := data[pos..];
      pos := pos + n;
      assert window == bytes + data[pos..];
      Concat3(bytes, data[pos..], Payload(frames));
      return Ok(bytes);
    }

    /** The destructor's complaint: it throws unless everything decompressed was read. */
    method Close() returns (ok: bool)
      requires Valid()
      ensures ok <==> pos == |data|
      ensures Remaining() == [] ==> ok && input.Remaining() == rest
    {
      ok := pos == |data|;
      if Remaining() == [] {
        if frames != [] {
          PayloadHead(codec, frames);
          assert false;
        }
        assert [] + rest == rest;
      }
    }
  }

  /** The frames not opened are the last ones of all, and data are those of the one before them. */
  ghost predicate IsOpened(all: seq<Frame>, frames: seq<Frame>, data: seq<byte>) {
    && |frames| <= |all| && frames == all[|all| - |frames|..]
    && data == if |frames| == |all| then [] else all[|all| - |frames| - 1].data
  }

  lemma NoneOpened(all: seq<Frame>)
    ensures IsOpened(all, all, [])
  {
  }

  lemma NoFrames(codec: Codec)
    ensures Readable(codec, []) && FrameStream(codec, []) == []
  {
  }

  lemma OpenedNext(all: seq<Frame>, frames: seq<Frame>, data: seq<byte>)
    requires frames != [] && IsOpened(all, frames, data)
    ensures IsOpened(all, frames[1..], frames[0].data)
  {
  }

  lemma PayloadHead(c: Codec, fs: seq<Frame>)
    requires fs != [] && Readable(c, fs)
    ensures fs[0].data != [] && Payload(fs) == fs[0].data + Payload(fs[1..])
  {
    assert Genuine(c, fs[0]);
  }

  /** The first frame of the unopened bytes. */
  lemma HeadFrame(c: Codec, fs: seq<Frame>, tail: seq<byte>)
    requires Lawful(c) && fs != [] && Readable(c, fs)
    ensures DecodeFrame(c, FrameStream(c, fs) + tail) == Got(fs[0].data, FrameStream(c, fs[1..]) + tail)
    ensures Readable(c, fs[1..])
  {
    hide Lawful, DecodeFrame, EncodeFrame;
    Concat3(EncodeFrame(c, fs[0]), FrameStream(c, fs[1..]), tail);
    assert Genuine(c, fs[0]);
    FrameRoundTrip(c, fs[0], FrameStream(c, fs[1..]) + tail);
  }

  datatype InputStream = Plain(buffered: BufferedInput) | Framed(compressed: CompressedInput) {

    ghost function Repr(): set<object> {
      match this case Plain(b) => b.Repr() case Framed(c) => c.Repr()
    }

    ghost predicate Valid()
      reads Repr()
    {
      match this
      case Plain(b) => b.Valid() && b.buffer.Length > 0
      case Framed(c) => c.Valid()
    }

    /** The bytes this stream can be relied on to give. */
    ghost function Remaining(): seq<byte>
      requires Valid()
      reads Repr()
    {
      match this case Plain(b) => b.Remaining() case Framed(c) => c.Remaining()
    }

    /** The bytes beyond them, which must not be touched, and whether the stream has strayed. */
    ghost function Beyond(): (seq<byte>, bool)
      reads Repr()
    {
      match this case Plain(b) => ([], false) case Framed(c) => (c.rest, c.strayed)
    }
  }

  method ReadSome(input: InputStream, len: nat) returns (r: Result<seq<byte>>)
    requires input.Valid()
    modifies input.Repr()
    ensures input.Valid()
    ensures r.Ok? ==> |r.value| <= len
    ensures input.Plain? ==> r.Ok? && r.value + input.Remaining() == old(input.Remaining())
    ensures len > 0 && old(input.Remaining()) != [] ==>
              && r.Ok? && r.value != []
              && r.value + input.Remaining() == old(input.Remaining()) && input.Beyond() == old(input.Beyond())
    decreases if input.Plain? then 0 else 5, 0
  {
    match input
    case Plain(b) =>
      var bytes := b.Read(len);
      r := Ok(bytes);
    case Framed(c) =>
      r := c.Next(len);
  }

  /** Reads exactly len bytes, however the stream splits them. */
  method ReadAll(input: InputStream, len: nat) returns (r: Result<seq<byte>>)
    requires input.Valid()
    modifies input.Repr()
    ensures input.Valid()
    ensures r.Ok? ==> |r.value| == len
    ensures input.Plain? ==> (r.Ok? <==> len <= |old(input.Remaining())|)
    ensures len <= |old(input.Remaining())| ==>
              && r == Ok(old(input.Remaining())[..len])
              && input.Remaining() == old(input.Remaining())[len..] && input.Beyond() == old(input.Beyond())
    decreases if input.Plain? then 0 else 5, 1
  {
    ghost var all := input.Remaining();
    ghost var sure := input.Plain? || len <= |all|;
    var bytes: seq<byte> := [];
    var previous: nat := 1;
    assert bytes + all == all;
    while |bytes| < len && previous != 0
      invariant input.Valid() && |bytes| <= len
      invariant sure ==> bytes + input.Remaining() == all && input.Beyond() == old(input.Beyond())
      invariant sure && previous == 0 && |bytes| < len ==> input.Remaining() == []
      decreases len - |bytes|, previous
    {
      var some := ReadSome(input, len - |bytes|);
      if some.Failed? {
        return Failed;
      }
      previous := |some.value|;
      Concat3(bytes, some.value, input.Remaining());
      bytes := bytes + some.value;
    }
    if |bytes| < len {
      return Failed;
    }
    return Ok(bytes);
  }

  /** The hash, the nine header bytes and what follows, or failure where the tag is not a known method. */
  ghost function SplitHead(s: seq<byte>): (r: Parse<(seq<byte>, seq<byte>)>) {
    if |s| < HASH_SIZE + HEADER_SIZE || (s[HASH_SIZE] != LZ4_BYTE && s[HASH_SIZE] != ZSTD_BYTE) then Fail
    else Got((s[..HASH_SIZE], s[HASH_SIZE..HASH_SIZE + HEADER_SIZE]), s[HASH_SIZE + HEADER_SIZE..])
  }

  /** Three consecutive pieces are the head of the bytes. */
  lemma HeadPieces(s: seq<byte>)
    requires |s| >= HASH_SIZE + HEADER_SIZE
    ensures s[HASH_SIZE..][..1] + s[HASH_SIZE..][1..][..8] == s[HASH_SIZE..HASH_SIZE + HEADER_SIZE]
    ensures s[HASH_SIZE..][1..][8..] == s[HASH_SIZE + HEADER_SIZE..]
  {
  }

  method ReadHead(input: BufferedInput) returns (r: Result<(seq<byte>, seq<byte>)>)
    requires input.Valid() && input.buffer.Length > 0
    modifies input.Repr()
    ensures input.Valid()
    ensures r.Ok? <==> SplitHead(old(input.Remaining())).Got?
    ensures r.Ok? ==> Got(r.value, input.Remaining()) == SplitHead(old(input.Remaining()))
    decreases 1, 0
  {
    ghost var s := input.Remaining();
    var hash :- ReadAll(Plain(input), HASH_SIZE);
    var head :- ReadAll(Plain(input), 1);
    if head[0] != LZ4_BYTE && head[0] != ZSTD_BYTE {
      return Failed;
    }
    var sizes :- ReadAll(Plain(input), 8);
    HeadPieces(s);
    return Ok((hash, head + sizes));
  }

  /** A frame's meaning in terms of its hash, its header and the bytes after them. */
  ghost function DecodeRest(codec: Codec, hash: seq<byte>, head: seq<byte>, s: seq<byte>): Parse<seq<byte>>
    requires |head| == HEADER_SIZE
  {
    var compressed, original := FromFixed(head[1..5]), FromFixed(head[5..]);
    if compressed > DBMS_MAX_COMPRESSED_SIZE || compressed < HEADER_SIZE || |s| < compressed - HEADER_SIZE then Fail
    else
      var n := compressed - HEADER_SIZE;
      if hash != codec.hash(head + s[..n]) then Fail
      else match codec.unpack(s[..n], original)
           case Some(d) => Got(Filled(d, original), s[n..])
           case None => Fail
  }

  lemma SplitBody(body: seq<byte>, h: nat, n: nat)
    requires h <= n <= |body|
    ensures body[..n] == body[..h] + body[h..][..n - h]
    ensures body[h..n] == body[h..][..n - h] && body[n..] == body[h..][n - h..]
  {
  }

  lemma DecodeInParts(codec: Codec, s: seq<byte>)
    ensures DecodeFrame(codec, s) ==
              match SplitHead(s)
              case Fail => Fail
              case Got(parts, rest) => DecodeRest(codec, parts.0, parts.1, rest)
  {
    hide FromFixed, Filled;
    if SplitHead(s).Got? {
      var body, head, rest := s[HASH_SIZE..], s[HASH_SIZE..HASH_SIZE + HEADER_SIZE], s[HASH_SIZE + HEADER_SIZE..];
      SliceOfSlice(s, HASH_SIZE, HASH_SIZE + HEADER_SIZE, 1, 5);
      SliceOfSlice(s, HASH_SIZE, HASH_SIZE + HEADER_SIZE, 5, 9);
      SliceOfSlice(s, HASH_SIZE, |s|, 1, 5);
      SliceOfSlice(s, HASH_SIZE, |s|, 5, 9);
      assert head[5..] == head[5..9] && s[HASH_SIZE..|s|] == body;
      var compressed := FromFixed(body[1..5]);
      if HEADER_SIZE <= compressed <= |body| {
        assert body[..HEADER_SIZE] == head && body[HEADER_SIZE..] == rest;
        SplitBody(body, HEADER_SIZE, compressed);
      }
    }
  }

  /** Reads and checks one frame. */
  method OpenFrame(input: BufferedInput, codec: Codec) returns (r: Result<seq<byte>>)
    requires input.Valid() && input.buffer.Length > 0
    modifies input.Repr()
    ensures input.Valid()
    ensures r.Ok? <==> DecodeFrame(codec, old(input.Remaining())).Got?
    ensures r.Ok? ==> Got(r.value, input.Remaining()) == DecodeFrame(codec, old(input.Remaining()))
    decreases 1, 1
  {
    hide DecodeFrame, FromFixed, Filled;
    DecodeInParts(codec, input.Remaining());
    var parts :- ReadHead(input);
    var hash, head := parts.0, parts.1;
    var compressed, original := FromFixed(head[1..5]), FromFixed(head[5..]);
    if compressed > DBMS_MAX_COMPRESSED_SIZE || compressed < HEADER_SIZE {
      return Failed;
    }
    var packed :- ReadAll(Plain(input), compressed - HEADER_SIZE);
    if hash != codec.hash(head + packed) {
      return Failed;
    }
    var data := codec.unpack(packed, original);
    if data.None? {
      return Failed;
    }
    return Ok(Filled(data.value, original));
  }

  // ----- the readers of wire_format.cpp -----

  /** One byte, or failure. */
  method ReadByte(input: InputStream) returns (r: Result<byte>)
    requires input.Valid()
    modifies input.Repr()
    ensures input.Valid()
    ensures old(input.Remaining()) != [] ==>
              && r == Ok(old(input.Remaining())[0])
              && input.Remaining() == old(input.Remaining())[1..] && input.Beyond() == old(input.Beyond())
    ensures input.Plain? && old(input.Remaining()) == [] ==> r.Failed?
  {
    var some := ReadSome(input, 1);
    if some.Failed? || |some.value| != 1 {
      return Failed;
    }
    return Ok(some.value[0]);
  }

  /** Reads a varint byte by byte; whatever the stream does, the value and position are those of the bytes. */
  method ReadVarint64(input: InputStream) returns (r: Result<nat>)
    requires input.Valid()
    modifies input.Repr()
    ensures input.Valid()
    ensures DecodeVarint(old(input.Remaining())).Got? ==>
              && r.Ok? && Got(r.value, input.Remaining()) == DecodeVarint(old(input.Remaining()))
              && input.Beyond() == old(input.Beyond())
    ensures input.Plain? && DecodeVarint(old(input.Remaining())).Fail? ==> r.Failed?
  {
    hide Shifted, Or, InputStream.Valid, InputStream.Remaining, InputStream.Beyond;
    ghost var spec := DecodeVarint(input.Remaining());
    ghost var sure := spec.Got? || input.Plain?;
    var value: nat := 0;
    for i := 0 to MAX_VARINT_BYTES
      invariant input.Valid() && value < Pow(128, i)
      invariant sure ==>
                  input.Beyond() == old(input.Beyond()) && spec == AddTo(value, DecodeVarintFrom(input.Remaining(), i))
    {
      if input.Remaining() != [] {
        VarintStep(input.Remaining(), i, value);
      }
      var b :- ReadByte(input);
      OrNextByte(value, b, i);
      value := Or(value, Shifted(b, i));
      if b < 128 {
        return Ok(value);
      }
    }
    return Failed;
  }

  lemma VarintStep(s: seq<byte>, i: nat, value: nat)
    requires i < MAX_VARINT_BYTES && s != []
    ensures AddTo(value, DecodeVarintFrom(s, i)) ==
              if s[0] < 128 then Got(value + Shifted(s[0], i), s[1..])
              else AddTo(value + Shifted(s[0], i), DecodeVarintFrom(s[1..], i + 1))
  {
  }

  ghost function AddTo(v: nat, p: Parse<nat>): Parse<nat> {
    match p case Got(w, rest) => Got(v + w, rest) case Fail => Fail
  }

  method ReadFixed(input: InputStream, size: nat) returns (r: Result<nat>)
    requires input.Valid()
    modifies input.Repr()
    ensures input.Valid()
    ensures DecodeFixed(old(input.Remaining()), size).Got? ==>
              && r.Ok? && Got(r.value, input.Remaining()) == DecodeFixed(old(input.Remaining()), size)
              && input.Beyond() == old(input.Beyond())
    ensures input.Plain? && DecodeFixed(old(input.Remaining()), size).Fail? ==> r.Failed?
  {
    var bytes :- ReadAll(input, size);
    return Ok(FromFixed(bytes));
  }

  method ReadString(input: InputStream) returns (r: Result<seq<byte>>)
    requires input.Valid()
    modifies input.Repr()
    ensures input.Valid()
    ensures DecodeString(old(input.Remaining())).Got? ==>
              && r.Ok? && Got(r.value, input.Remaining()) == DecodeString(old(input.Remaining()))
              && input.Beyond() == old(input.Beyond())
    ensures input.Plain? && DecodeString(old(input.Remaining())).Fail? ==> r.Failed?
  {
    var len :- ReadVarint64(input);
    if len > MAX_STRING {
      return Failed;
    }
    r := ReadAll(input, len);
  }

  /** Accepts the same strings as ReadString and stops at the same place. */
  method SkipString(input: InputStream) returns (r: Result<()>)
    requires input.Valid() && input.Plain?
    modifies input.Repr()
    ensures input.Valid()
    ensures r.Ok? <==> DecodeString(old(input.Remaining())).Got?
    ensures r.Ok? ==> input.Remaining() == DecodeString(old(input.Remaining())).rest
  {
    var len :- ReadVarint64(input);
    if len > MAX_STRING {
      return Failed;
    }
    var ok := input.buffered.Skip(len);
    return if ok then Ok(()) else Failed;
  }
}
