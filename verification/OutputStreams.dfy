/**
  Output streams (clickhouse/base/output.cpp, clickhouse/base/compressed.cpp) in the stack the client builds: a
  buffered stream over a socket, and a buffered stream over a compressing one that writes into the former.
  A stream's destination is a variant because virtual dispatch has only these two targets.
 */
module OutputStreams {
  import opened WireFormat
  import opened Frames

  datatype Outcome = Pass | Throw {
    predicate IsFailure() { Throw? }
    function PropagateFailure(): Outcome requires Throw? { Throw }
  }

  /** What a call to Write returns: how many bytes were taken, or an exception. */
  datatype Written = Wrote(n: nat) | Threw

  /** A socket that takes some of the bytes offered, at least one, as its schedule says. */
  class SocketOutput {
    var delivered: seq<byte>
    var schedule: seq<nat>

    constructor (schedule: seq<nat>)
      ensures delivered == [] && this.schedule == schedule
    {
      delivered, this.schedule := [], schedule;
    }

    method Write(data: seq<byte>) returns (n: nat)
      modifies this
      ensures n <= |data| && (data != [] ==> n > 0)
      ensures delivered == old(delivered) + data[..n]
    {
      n := |data|;
      if schedule != [] {
        n := if schedule[0] < |data| then schedule[0] else |data|;
        if n == 0 && data != [] {
          n := 1;
        }
        schedule := schedule[1..];
      }
      delivered := delivered + data[..n];
    }
  }

  datatype Destination = ToSocket(socket: SocketOutput) | ToFrames(frames: CompressedOutput)

  class BufferedOutput {
    const destination: Destination
    const buffer: array<byte>
    var pos: nat
    ghost const level: nat
    ghost const Repr: set<object>

    ghost predicate Valid()
      reads this, Repr
      decreases level, 0
    {
      && this in Repr && buffer in Repr && pos <= buffer.Length
      && match destination
         case ToSocket(s) => s in Repr
         case ToFrames(c) =>
           && c in Repr && c.Repr <= Repr && this !in c.Repr && buffer !in c.Repr
           && c.level < level && c.Valid()
    }

    /** What the destination has been given. */
    ghost function Passed(): seq<byte>
      requires Valid()
      reads this, Repr
      decreases level, 1
    {
      match destination
      case ToSocket(s) => s.delivered
      case ToFrames(c) => Payload(c.frames)
    }

    /** Every byte a Write has taken: passed on, or still in the buffer. */
    ghost function Accepted(): seq<byte>
      requires Valid()
      reads this, Repr
      decreases level, 2
    {
      Passed() + buffer[..pos]
    }

    /** Writing n bytes cannot throw, whatever is buffered: chunks are limited, or unlimited ones are small enough. */
    ghost predicate Reliable(n: nat) {
      destination.ToFrames? && destination.frames.limit == 0 ==>
        Takes(destination.frames.codec, n) && Takes(destination.frames.codec, buffer.Length)
    }

    constructor OverSocket(socket: SocketOutput, size: nat)
      ensures Valid() && fresh(this) && fresh(buffer) && Repr == {this, buffer, socket}
      ensures destination == ToSocket(socket) && level == 0 && pos == 0 && buffer.Length == size
      ensures Accepted() == socket.delivered
    {
      destination := ToSocket(socket);
      var b := new byte[size];
      buffer := b;
      pos := 0;
      level := 0;
      Repr := {this, b, socket};
      new;
      assert buffer[..0] == [];
    }

    constructor OverFrames(c: CompressedOutput, size: nat)
      requires c.Valid()
      ensures Valid() && fresh(this) && fresh(buffer) && Repr == {this, buffer, c} + c.Repr
      ensures destination == ToFrames(c) && pos == 0 && buffer.Length == size
      ensures Accepted() == Payload(c.frames)
    {
      destination := ToFrames(c);
      var b := new byte[size];
      buffer := b;
      pos := 0;
      level := c.level + 1;
      Repr := {this, b, c} + c.Repr;
      new;
      assert buffer[..0] == [];
    }

    function Avail(): int
      reads this
    {
      buffer.Length - pos
    }

    /** Copies as much as fits behind the bytes already buffered (ArrayOutput and ZeroCopyOutput::DoWrite). */
    method Stash(data: seq<byte>) returns (n: nat)
      requires Valid()
      modifies this, buffer
      ensures Valid()
      ensures n == (if |data| < old(Avail()) then |data| else old(Avail())) && pos == old(pos) + n
      ensures Accepted() == old(Accepted()) + data[..n] && Passed() == old(Passed())
    {
      n := 0;
      var from := pos;
      ghost var was := buffer[..pos];
      var len := if |data| < Avail() then |data| else Avail();
      while n < len
        invariant n <= len && pos == from
        invariant buffer[..from + n] == was + data[..n]
        invariant Valid() && Passed() == old(Passed())
      {
        buffer[from + n] := data[n];
        assert buffer[..from + n + 1] == buffer[..from + n] + [data[n]];
        n := n + 1;
      }
      pos := from + n;
      Concat3(old(Passed()), was, data[..n]);
    }

    /** Offers bytes to the destination, bypassing the buffer, which must be empty. */
    method Forward(data: seq<byte>) returns (w: Written)
      requires Valid()
      modifies Repr
      ensures Valid() && pos == old(pos) && buffer[..] == old(buffer[..])
      ensures w.Wrote? ==> w.n <= |data| && (data != [] ==> w.n > 0) && Passed() == old(Passed()) + data[..w.n]
      ensures w.Wrote? && destination.ToFrames? ==> w.n == |data|
      ensures w.Threw? ==> destination.ToFrames? && Passed() == old(Passed())
      ensures Reliable(|data|) ==> w.Wrote?
      decreases level, 0
    {
      match destination
      case ToSocket(s) =>
        var n := s.Write(data);
        w := Wrote(n);
      case ToFrames(c) =>
        w := c.Write(data);
    }

    /** Offers the buffered bytes until all are taken; the buffer itself is not touched. */
    method Drain() returns (r: Outcome)
      requires Valid()
      modifies Repr
      ensures Valid() && pos == old(pos)
      ensures r.Pass? ==> Passed() == old(Accepted())
      ensures r.Throw? ==> Accepted() == old(Accepted())
      ensures Reliable(0) ==> r.Pass?
      decreases level, 1
    {
      ghost var goal := Accepted();
      var data := buffer[..pos];
      var sent := 0;
      assert data[0..] == data;
      while sent < |data|
        invariant Valid() && sent <= |data| && pos == old(pos) && buffer[..] == old(buffer[..])
        invariant Passed() + data[sent..] == goal
        invariant destination.ToFrames? ==> sent == 0 || sent == |data|
      {
        ghost var passed := Passed();
        var w := Forward(data[sent..]);
        if w.Threw? {
          assert buffer[..pos] == buffer[..][..pos];
          return Throw;
        }
        Advance(passed, data, sent, w.n);
        sent := sent + w.n;
      }
      return Pass;
    }

    /** Empties the buffer into the destination; an empty buffer is not even reported to it. */
    method Flush() returns (r: Outcome)
      requires Valid()
      modifies Repr
      ensures Valid() && Accepted() == old(Accepted())
      ensures r.Pass? ==> pos == 0
      ensures Reliable(0) ==> r.Pass?
      decreases level, 2
    {
      if pos != 0 {
        :- Drain();
        match destination {
          case ToSocket(_) =>
          case ToFrames(c) => var _ := c.Flush();
        }
        pos := 0;
        assert buffer[..0] == [];
      }
      return Pass;
    }

    method Write(data: seq<byte>) returns (w: Written)
      requires Valid()
      modifies Repr
      ensures Valid()
      ensures w.Wrote? ==> w.n <= |data| && (data != [] ==> w.n > 0) && Accepted() == old(Accepted()) + data[..w.n]
      ensures w.Threw? ==> Accepted() == old(Accepted())
      ensures |data| <= old(Avail()) ==> w == Wrote(|data|) && pos == old(pos) + |data| && Passed() == old(Passed())
      ensures |data| > old(Avail()) && w.Wrote? ==> pos == if |data| > buffer.Length / 2 then 0 else |data|
      ensures Reliable(|data|) ==> w.Wrote?
      decreases level, 3
    {
      if Avail() < |data| {
        var r := Flush();
        if r.Throw? {
          return Threw;
        }
        if |data| > buffer.Length / 2 {
          w := Forward(data);
          return;
        }
      }
      var n := Stash(data);
      return Wrote(n);
    }
  }

  /** Every frame from number from on is full, except perhaps the last. */
  ghost predicate CutFull(frames: seq<Frame>, from: nat, size: nat) {
    forall i :: from <= i < |frames| - 1 ==> |frames[i].data| == size
  }

  class CompressedOutput {
    const destination: BufferedOutput
    const limit: nat
    const codec: Codec
    var compressedBuffer: seq<byte>
    ghost const base: seq<byte>
    ghost var frames: seq<Frame>
    ghost const level: nat
    ghost const Repr: set<object>

    ghost predicate Valid()
      reads this, Repr
      decreases level, 1
    {
      Connected() && (limit > 0 ==> Preallocated(codec, limit, |compressedBuffer|))
    }

    /** Everything but the size of the compression buffer. */
    ghost predicate Connected()
      reads this, Repr
      decreases level, 0
    {
      && this in Repr && destination in Repr && destination.Repr <= Repr && this !in destination.Repr
      && destination.level < level && destination.Valid() && destination.destination.ToSocket?
      && Lawful(codec)
      && (forall i :: 0 <= i < |frames| ==> Emitted(codec, limit, frames[i]))
      && destination.Accepted() == base + FrameStream(codec, frames)
      && (frames != [] ==> destination.pos == 0)
    }

    constructor (destination: BufferedOutput, limit: nat, codec: Codec)
      requires destination.Valid() && destination.destination.ToSocket? && Lawful(codec) && codec.bound(limit).Some?
      ensures Valid() && fresh(this) && Repr == {this} + destination.Repr
      ensures this.destination == destination && this.limit == limit && this.codec == codec
      ensures base == destination.Accepted() && frames == []
    {
      this.destination, this.limit, this.codec := destination, limit, codec;
      compressedBuffer := [];
      base := destination.Accepted();
      frames := [];
      level := destination.level + 1;
      Repr := {this} + destination.Repr;
      new;
      assert base + [] == base;
      var _ := PreallocateCompressBuffer(limit);
    }

    method PreallocateCompressBuffer(size: nat) returns (r: Outcome)
      requires Connected()
      modifies this`compressedBuffer
      ensures Connected() && (r.Pass? <==> codec.bound(size).Some?)
      ensures r.Pass? ==> Preallocated(codec, size, |compressedBuffer|)
      ensures r.Pass? ==> |compressedBuffer| == codec.bound(size).value + 9 + 4096
      ensures r.Throw? ==> compressedBuffer == old(compressedBuffer)
    {
      var bound := codec.bound(size);
      if bound.None? {
        return Throw;
      }
      compressedBuffer := Zeros(bound.value + HEADER_SIZE + EXTRA_COMPRESS_BUFFER_SIZE);
      return Pass;
    }

    /** Emits one chunk as one frame and flushes it. */
    method Compress(data: seq<byte>) returns (r: Outcome)
      requires Valid() && data != [] && |data| <= ChunkBound(limit, |data|)
      requires Preallocated(codec, ChunkBound(limit, |data|), |compressedBuffer|)
      modifies Repr
      ensures Valid() && r.Pass? && |compressedBuffer| == old(|compressedBuffer|)
      ensures Payload(frames) == old(Payload(frames)) + data
      ensures |frames| == |old(frames)| + 1 && frames[..|old(frames)|] == old(frames)
      ensures frames[|old(frames)|].data == data
      decreases level, 0
    {
      var f := PackFrame(codec, limit, data, |compressedBuffer|);
      var used := HEADER_SIZE + |f.packed|;
      compressedBuffer := Header(codec, f) + f.packed + compressedBuffer[used..];
      var body := compressedBuffer[..used];
      assert body == Header(codec, f) + f.packed;
      ghost var stream := FrameStream(codec, frames);
      r := WriteAndFlush(destination, codec.hash(body), body);
      StreamAppend(codec, frames, f);
      Concat3(base, stream, EncodeFrame(codec, f));
      frames := frames + [f];
    }

    method Flush() returns (r: Outcome)
      requires Valid()
      modifies Repr
      ensures Valid() && r.Pass? && destination.pos == 0
      ensures frames == old(frames) && compressedBuffer == old(compressedBuffer)
      decreases level, 0
    {
      r := destination.Flush();
    }

    /** Cuts the data into chunks of at most limit bytes (one chunk when limit is zero). */
    method Write(data: seq<byte>) returns (w: Written)
      requires Valid()
      modifies Repr
      ensures Valid()
      ensures w.Wrote? ==> w.n == |data| && Payload(frames) == old(Payload(frames)) + data
      ensures w.Wrote? ==> CutFull(frames, |old(frames)|, ChunkBound(limit, |data|))
      ensures w.Threw? ==> frames == old(frames)
      ensures w.Wrote? <==> limit > 0 || data == [] || codec.bound(|data|).Some?
      decreases level, 2
    {
      var chunk := if limit > 0 then limit else |data|;
      if chunk > limit {
        var r := PreallocateCompressBuffer(|data|);
        if r.Throw? {
          return Threw;
        }
      }
      if data == [] {
        assert Payload(frames) + data == Payload(frames);
        return Wrote(0);
      }
      CompressChunks(data, chunk);
      return Wrote(|data|);
    }

    method CompressChunks(data: seq<byte>, chunk: nat)
      requires Valid() && data != [] && chunk == ChunkBound(limit, |data|)
      requires Preallocated(codec, chunk, |compressedBuffer|)
      modifies Repr
      ensures Valid() && Payload(frames) == old(Payload(frames)) + data
      ensures CutFull(frames, |old(frames)|, chunk)
      decreases level, 1
    {
      ghost var goal := Payload(frames) + data;
      var done := 0;
      assert data[0..] == data;
      while done < |data|
        invariant Valid() && 0 <= done <= |data| && |compressedBuffer| == old(|compressedBuffer|)
        invariant limit == 0 ==> done == 0 || done == |data|
        invariant Payload(frames) + data[done..] == goal
        invariant |frames| >= |old(frames)| && CutFull(frames, |old(frames)|, chunk)
        invariant done < |data| ==> forall i :: |old(frames)| <= i < |frames| ==> |frames[i].data| == chunk
      {
        ghost var before := frames;
        var next := if |data| - done < chunk then |data| - done else chunk;
        Advance(Payload(frames), data, done, next);
        var r := Compress(data[done..done + next]);
        assert forall i :: 0 <= i < |before| ==> frames[i] == frames[..|before|][i];
        done := done + next;
      }
    }
  }

  /** Writes everything, however the stream splits it. */
  method WriteAll(output: BufferedOutput, data: seq<byte>) returns (r: Outcome)
    requires output.Valid()
    modifies output.Repr
    ensures output.Valid()
    ensures r.Pass? ==> output.Accepted() == old(output.Accepted()) + data
    ensures output.Reliable(|data|) ==> r.Pass?
    decreases output.level, 4
  {
    ghost var goal := output.Accepted() + data;
    var done: nat, written: nat := 0, 1;
    assert data[0..] == data;
    while done < |data| && written != 0
      invariant output.Valid() && done <= |data| && (written == 0 ==> done == |data|)
      invariant output.Accepted() + data[done..] == goal
      decreases |data| - done
    {
      ghost var before := output.Accepted();
      var w := output.Write(data[done..]);
      if w.Threw? {
        return Throw;
      }
      written := w.n;
      Advance(before, data, done, written);
      done := done + written;
    }
    return if done < |data| then Throw else Pass;
  }

  method WriteAndFlush(output: BufferedOutput, first: seq<byte>, second: seq<byte>) returns (r: Outcome)
    requires output.Valid()
    modifies output.Repr
    ensures output.Valid()
    ensures r.Pass? ==> output.Accepted() == old(output.Accepted()) + (first + second) && output.pos == 0
    ensures output.Reliable(|first| + |second|) ==> r.Pass?
    decreases output.level, 5
  {
    hide BufferedOutput.Valid, BufferedOutput.Accepted;
    ghost var was := output.Accepted();
    :- WriteAll(output, first);
    :- WriteAll(output, second);
    assert was + first + second == was + (first + second);
    r := output.Flush();
  }

  // ----- the writers of wire_format.cpp -----

  method WriteVarint64(output: BufferedOutput, number: nat) returns (r: Outcome)
    requires output.Valid() && number < TWO_64
    modifies output.Repr
    ensures output.Valid()
    ensures r.Pass? ==> output.Accepted() == old(output.Accepted()) + Varint(number)
    ensures output.Reliable(|Varint(number)|) ==> r.Pass?
  {
    var bytes := VarintBytes(number);
    r := WriteAll(output, bytes);
  }

  /** The loop that fills the ten-byte array; ten rounds are always enough. */
  method VarintBytes(number: nat) returns (bytes: seq<byte>)
    requires number < TWO_64
    ensures bytes == Varint(number)
  {
    bytes := [];
    var value := number;
    VarintFits(number);
    for i := 0 to MAX_VARINT_BYTES
      invariant |bytes| == i && |Varint(value)| + i <= MAX_VARINT_BYTES
      invariant bytes + Varint(value) == Varint(number)
    {
      var b: byte := value % 128;
      if value > 0x7F {
        b := b + 0x80;
      }
      bytes := bytes + [b];
      value := value / 128;
      if value == 0 {
        return;
      }
    }
  }

  method WriteFixed(output: BufferedOutput, number: nat, size: nat) returns (r: Outcome)
    requires output.Valid()
    modifies output.Repr
    ensures output.Valid()
    ensures r.Pass? ==> output.Accepted() == old(output.Accepted()) + Fixed(number, size)
    ensures output.Reliable(size) ==> r.Pass?
  {
    r := WriteAll(output, Fixed(number, size));
  }

  method WriteString(output: BufferedOutput, value: seq<byte>) returns (r: Outcome)
    requires output.Valid() && |value| < TWO_64
    modifies output.Repr
    ensures output.Valid()
    ensures r.Pass? ==> output.Accepted() == old(output.Accepted()) + EncodeString(value)
    ensures output.Reliable(|EncodeString(value)|) ==> r.Pass?
  {
    hide Varint, BufferedOutput.Valid, BufferedOutput.Accepted;
    ghost var was := output.Accepted();
    :- WriteVarint64(output, |value|);
    r := WriteAll(output, value);
    assert was + Varint(|value|) + value == was + EncodeString(value);
  }

  ghost predicate Unescaped(s: seq<byte>, from: nat, to: nat)
    requires from <= to <= |s|
  {
    forall i :: from <= i < to ==> !MustEscape(s[i])
  }

  /** The position of the first byte at or after start that must be escaped, or the length. */
  method FindQuotedChars(s: seq<byte>, start: nat) returns (at: nat)
    requires start <= |s|
    ensures start <= at <= |s| && (at < |s| ==> MustEscape(s[at])) && Unescaped(s, start, at)
  {
    at := start;
    while at < |s| && !MustEscape(s[at])
      invariant start <= at <= |s|
      invariant forall i :: start <= i < at ==> !MustEscape(s[i])
    {
      at := at + 1;
    }
  }

  lemma PlainStep(s: seq<byte>, start: nat)
    requires start < |s| && !MustEscape(s[start])
    ensures EscapeAll(s[start..]) == [s[start]] + EscapeAll(s[start + 1..])
    ensures CountEscapes(s[start..]) == CountEscapes(s[start + 1..])
  {
    assert s[start..][1..] == s[start + 1..];
  }

  /** A run of bytes that need no escape is copied as it is. */
  lemma {:induction false} PlainRun(s: seq<byte>, start: nat, at: nat)
    requires start <= at <= |s| && Unescaped(s, start, at)
    ensures EscapeAll(s[start..]) == s[start..at] + EscapeAll(s[at..])
    ensures CountEscapes(s[start..]) == CountEscapes(s[at..])
    decreases at - start
  {
    if start == at {
      assert s[start..at] == [];
    } else {
      PlainStep(s, start);
      PlainRun(s, start + 1, at);
      Concat3([s[start]], s[start + 1..at], EscapeAll(s[at..]));
      assert s[start..at] == [s[start]] + s[start + 1..at];
    }
  }

  lemma PlainTail(s: seq<byte>, start: nat)
    requires start <= |s| && Unescaped(s, start, |s|)
    ensures EscapeAll(s[start..]) == s[start..]
  {
    PlainRun(s, start, |s|);
    assert s[|s|..] == [] && s[start..|s|] == s[start..];
  }

  lemma EscapedStep(s: seq<byte>, at: nat)
    requires at < |s| && MustEscape(s[at])
    ensures EscapeAll(s[at..]) == ([BACKSLASH] + EscapeTail(s[at])) + EscapeAll(s[at + 1..])
    ensures CountEscapes(s[at..]) == 1 + CountEscapes(s[at + 1..])
  {
    assert s[at..][1..] == s[at + 1..];
  }

  /** A run of plain bytes up to an escape. */
  lemma EscapedRun(sent: seq<byte>, s: seq<byte>, start: nat, at: nat)
    requires start <= at < |s| && MustEscape(s[at]) && Unescaped(s, start, at)
    ensures sent + EscapeAll(s[start..]) ==
              sent + (s[start..at] + ([BACKSLASH] + EscapeTail(s[at]))) + EscapeAll(s[at + 1..])
  {
    PlainRun(s, start, at);
    EscapedStep(s, at);
    Concat3(s[start..at], [BACKSLASH] + EscapeTail(s[at]), EscapeAll(s[at + 1..]));
    Concat3(sent, s[start..at] + ([BACKSLASH] + EscapeTail(s[at])), EscapeAll(s[at + 1..]));
  }

  /** The counting pass. */
  method CountQuoted(s: seq<byte>) returns (count: nat)
    ensures count == CountEscapes(s)
  {
    count := 0;
    var at := FindQuotedChars(s, 0);
    PlainRun(s, 0, at);
    assert s[0..] == s;
    while at < |s|
      invariant at <= |s| && (at < |s| ==> MustEscape(s[at]))
      invariant count + CountEscapes(s[at..]) == CountEscapes(s)
      decreases |s| - at
    {
      EscapedStep(s, at);
      count := count + 1;
      var next := FindQuotedChars(s, at + 1);
      PlainRun(s, at + 1, next);
      at := next;
    }
  }

  /** The writing pass: runs of plain bytes alternate with escapes. */
  method WriteEscaped(output: BufferedOutput, s: seq<byte>) returns (r: Outcome)
    requires output.Valid()
    modifies output.Repr
    ensures output.Valid()
    ensures r.Pass? ==> output.Accepted() == old(output.Accepted()) + EscapeAll(s)
    ensures output.Reliable(|EscapeAll(s)|) ==> r.Pass?
  {
    hide EscapeAll, Unescaped, MustEscape, BufferedOutput.Valid, BufferedOutput.Accepted;
    ghost var goal := output.Accepted() + EscapeAll(s);
    var start := 0;
    var at := FindQuotedChars(s, 0);
    assert s[0..] == s;
    while at < |s|
      invariant output.Valid() && start <= at <= |s| && (at < |s| ==> MustEscape(s[at]))
      invariant Unescaped(s, start, at)
      invariant output.Accepted() + EscapeAll(s[start..]) == goal && |output.Accepted()| >= |old(output.Accepted())|
      decreases |s| - at
    {
      EscapedRun(output.Accepted(), s, start, at);
      :- WriteRun(output, s[start..at], [BACKSLASH], EscapeTail(s[at]));
      start := at + 1;
      at := FindQuotedChars(s, start);
    }
    PlainTail(s, start);
    r := WriteAll(output, s[start..]);
  }

  method WriteRun(output: BufferedOutput, a: seq<byte>, b: seq<byte>, c: seq<byte>) returns (r: Outcome)
    requires output.Valid()
    modifies output.Repr
    ensures output.Valid()
    ensures r.Pass? ==> output.Accepted() == old(output.Accepted()) + (a + (b + c))
    ensures output.Reliable(|a| + |b| + |c|) ==> r.Pass?
  {
    ghost var was := output.Accepted();
    :- WriteAll(output, a);
    :- WriteAll(output, b);
    Concat3(was, a, b);
    Concat3(was, a + b, c);
    Concat3(a, b, c);
    r := WriteAll(output, c);
  }

  /** The announced length is the length of the payload that follows, while the int it is counted in holds it. */
  method WriteQuotedString(output: BufferedOutput, value: seq<byte>) returns (r: Outcome)
    requires output.Valid() && 4 * |value| + 2 < TWO_64
    modifies output.Repr
    ensures output.Valid()
    ensures r.Pass? ==> output.Accepted() == old(output.Accepted()) + (Varint(Announced(value)) + Quoted(value))
    ensures r.Pass? && 3 * CountEscapes(value) < 0x8000_0000 ==>
              output.Accepted() == old(output.Accepted()) + EncodeString(Quoted(value))
    ensures output.Reliable(|Varint(Announced(value))| + |Quoted(value)|) ==> r.Pass?
  {
    AnnouncedExactly(value);
    var plain, size := QuotedSize(value);
    ghost var was := output.Accepted();
    :- WriteVarint64(output, size);
    :- WriteAll(output, [QUOTE]);
    if plain {
      :- WriteAll(output, value);
    } else {
      :- WriteEscaped(output, value);
    }
    QuotedParts(was, value);
    r := WriteAll(output, [QUOTE]);
  }

  lemma QuotedParts(was: seq<byte>, value: seq<byte>)
    ensures was + Varint(Announced(value)) + [QUOTE] + EscapeAll(value) + [QUOTE]
         == was + (Varint(Announced(value)) + Quoted(value))
  {
  }

  /** Whether the string needs no escape, and the length to announce for its quoted form. */
  method QuotedSize(value: seq<byte>) returns (plain: bool, size: nat)
    requires 4 * |value| + 2 < TWO_64
    ensures size == Announced(value)
    ensures plain ==> EscapeAll(value) == value
  {
    var at := FindQuotedChars(value, 0);
    PlainRun(value, 0, at);
    assert value[0..] == value && value[0..at] == value[..at];
    plain := at == |value|;
    if plain {
      assert value[at..] == [];
      return plain, |value| + 2;
    }
    var count := CountQuoted(value);
    return plain, (|value| + 2 + Int32(3 * count)) % TWO_64;
  }
}
