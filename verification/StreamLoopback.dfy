/**
  Bytes written in arbitrary pieces through the compressing stack and read back in arbitrary portions, and arbitrary
  mixes of reads of a buffered stream (clickhouse/base/output.cpp, compressed.cpp, input.cpp).
 */
module StreamLoopback {
  import opened WireFormat
  import opened Frames
  import opened OutputStreams
  import opened InputStreams

  function Flatten(pieces: seq<seq<byte>>): seq<byte> {
    if pieces == [] then [] else pieces[0] + Flatten(pieces[1..])
  }

  /** Writes the pieces one after the other and flushes. */
  method WritePieces(output: BufferedOutput, pieces: seq<seq<byte>>) returns (r: Outcome)
    requires output.Valid()
    modifies output.Repr
    ensures output.Valid()
    ensures r.Pass? ==> output.Accepted() == old(output.Accepted()) + Flatten(pieces) && output.pos == 0
    ensures output.Reliable(|Flatten(pieces)|) ==> r.Pass?
  {
    ghost var goal := output.Accepted() + Flatten(pieces);
    var i := 0;
    assert pieces[0..] == pieces;
    while i < |pieces|
      invariant output.Valid() && 0 <= i <= |pieces|
      invariant output.Accepted() + Flatten(pieces[i..]) == goal && |output.Accepted()| >= |old(output.Accepted())|
    {
      assert pieces[i..][1..] == pieces[i + 1..];
      Concat3(output.Accepted(), pieces[i], Flatten(pieces[i + 1..]));
      :- WriteAll(output, pieces[i]);
      i := i + 1;
    }
    assert Flatten(pieces[i..]) == [];
    r := output.Flush();
  }

  /** Sends the pieces compressed over a new connection; wire is what the socket delivered. */
  method SendPieces(pieces: seq<seq<byte>>, codec: Codec, limit: nat, size: nat, schedule: seq<nat>)
    returns (sent: bool, wire: seq<byte>, ghost frames: seq<Frame>)
    requires Lawful(codec) && codec.bound(limit).Some?
    ensures codec.bound(ChunkBound(limit, |Flatten(pieces)|)).Some? ==> sent
    ensures sent ==>
              && wire == FrameStream(codec, frames) && Payload(frames) == Flatten(pieces)
              && forall i :: 0 <= i < |frames| ==> Emitted(codec, limit, frames[i])
  {
    hide FrameStream, Flatten, Emitted;
    var socket := new SocketOutput(schedule);
    var inner := new BufferedOutput.OverSocket(socket, size);
    var c := new CompressedOutput(inner, limit, codec);
    var outer := new BufferedOutput.OverFrames(c, limit);
    if limit == 0 && codec.bound(|Flatten(pieces)|).Some? {
      BoundTakes(codec, |Flatten(pieces)|);
    }
    var r := WritePieces(outer, pieces);
    sent, wire, frames := r.Pass?, socket.delivered, c.frames;
    assert c.Connected();
    if sent {
      Settled(outer, c, inner, socket, pieces);
    }
  }

  /** Once the outer stream is flushed, the socket holds exactly the frames. */
  lemma Settled(outer: BufferedOutput, c: CompressedOutput, inner: BufferedOutput, socket: SocketOutput,
                pieces: seq<seq<byte>>)
    requires outer.Valid() && outer.destination == ToFrames(c)
    requires c.destination == inner && inner.destination == ToSocket(socket)
    requires outer.pos == 0 && outer.Accepted() == [] + Flatten(pieces) && c.base == []
    ensures Payload(c.frames) == Flatten(pieces) && socket.delivered == FrameStream(c.codec, c.frames)
  {
    assert c.Connected();
    assert outer.Accepted() == Payload(c.frames) + outer.buffer[..0] == Payload(c.frames);
    assert [] + Flatten(pieces) == Flatten(pieces);
    assert inner.Accepted() == [] + FrameStream(c.codec, c.frames) == FrameStream(c.codec, c.frames);
    if c.frames == [] {
      assert |inner.Accepted()| == 0;
    }
    assert inner.Accepted() == socket.delivered + inner.buffer[..0] == socket.delivered;
  }

  /** Reads until total bytes have come, asking for 1 + want(i) bytes the i-th time. */
  method ReceivePieces(wire: seq<byte>, total: nat, codec: Codec, size: nat, schedule: seq<nat>, want: nat -> nat,
                       ghost frames: seq<Frame>)
    returns (bytes: seq<byte>, clean: bool, leftover: bool)
    requires Lawful(codec) && Readable(codec, frames) && size > 0
    requires wire == FrameStream(codec, frames) && total == |Payload(frames)|
    ensures bytes == Payload(frames) && clean && !leftover
  {
    hide FrameStream, Lawful, Readable;
    var socket := new SocketInput(wire, schedule);
    var input := new BufferedInput(socket, size);
    assert wire + [] == wire;
    var c := new CompressedInput(input, codec, frames, []);
    bytes := [];
    var i := 0;
    assert [] + Payload(frames) == Payload(frames);
    while |bytes| < total
      invariant c.Valid() && c.rest == [] && bytes + c.Remaining() == Payload(frames)
      decreases total - |bytes|
    {
      var r := c.Next(1 + want(i));
      Concat3(bytes, r.value, c.Remaining());
      bytes := bytes + r.value;
      i := i + 1;
    }
    clean := c.Close();
    leftover := input.avail > 0 || |socket.remaining| > 0;
  }

  // ----- mixed reads of a buffered stream -----

  datatype Want = ByRead(len: nat) | ByNext(len: nat) | BySkip(len: nat)

  /** What a request got: bytes, or so many bytes dropped. */
  datatype Portion = Given(bytes: seq<byte>) | Dropped(count: nat)

  function Length(p: Portion): nat {
    match p case Given(bytes) => |bytes| case Dropped(count) => count
  }

  /** How many bytes the portions take together. */
  function Total(portions: seq<Portion>): nat {
    if portions == [] then 0 else Total(portions[..|portions| - 1]) + Length(portions[|portions| - 1])
  }

  /** Each portion is the next stretch of all, and what is left follows the last one. */
  ghost predicate Stretches(all: seq<byte>, portions: seq<Portion>, rest: seq<byte>) {
    && Total(portions) <= |all| && rest == all[Total(portions)..]
    && forall i :: 0 <= i < |portions| ==> IsStretch(all, Total(portions[..i]), portions[i])
  }

  ghost predicate IsStretch(all: seq<byte>, from: nat, p: Portion) {
    from + Length(p) <= |all| && (p.Given? ==> all[from..from + Length(p)] == p.bytes)
  }

  lemma NoStretch(all: seq<byte>)
    ensures Stretches(all, [], all)
  {
  }

  lemma OneMoreStretch(all: seq<byte>, portions: seq<Portion>, before: seq<byte>, p: Portion, rest: seq<byte>)
    requires Stretches(all, portions, before) && Length(p) <= |before| && rest == before[Length(p)..]
    requires p.Given? ==> p.bytes == before[..Length(p)]
    ensures Stretches(all, portions + [p], rest)
  {
    var more, from := portions + [p], Total(portions);
    assert more[..|portions|] == portions;
    assert Total(more) == from + Length(p);
    assert all[from..from + Length(p)] == before[..Length(p)];
    forall i | 0 <= i < |more|
      ensures IsStretch(all, Total(more[..i]), more[i])
    {
      assert more[..i] == portions[..i];
      if i < |portions| {
        assert IsStretch(all, Total(portions[..i]), portions[i]);
      }
    }
  }

  /** One request; it gets at least one byte while any remains and any was asked for. */
  method Take(input: BufferedInput, want: Want) returns (p: Portion)
    requires input.Valid() && input.buffer.Length > 0
    modifies input.Repr()
    ensures input.Valid() && Length(p) <= want.len && Length(p) <= |old(input.Remaining())|
    ensures input.Remaining() == old(input.Remaining())[Length(p)..]
    ensures p.Given? ==> p.bytes == old(input.Remaining())[..Length(p)]
    ensures p.Dropped? <==> want.BySkip?
    ensures p.Dropped? ==> p.count == Min(want.len, |old(input.Remaining())|)
    ensures want.len > 0 && old(input.Remaining()) != [] ==> Length(p) > 0
  {
    ghost var all := input.Remaining();
    if want.BySkip? {
      var held := |input.source.remaining| + input.avail;
      var ok := input.Skip(want.len);
      p := Dropped(if ok then want.len else held);
    } else {
      var bytes;
      if want.ByRead? {
        bytes := input.Read(want.len);
      } else {
        bytes := input.Next(want.len);
      }
      p := Given(bytes);
      assert all == bytes + input.Remaining();
    }
  }

  /** Whatever the requests and the socket's schedule, nothing is lost, repeated or reordered. */
  method TakeAll(input: BufferedInput, wants: seq<Want>) returns (portions: seq<Portion>)
    requires input.Valid() && input.buffer.Length > 0
    modifies input.Repr()
    ensures input.Valid() && |portions| == |wants|
    ensures Stretches(old(input.Remaining()), portions, input.Remaining())
    ensures forall i :: 0 <= i < |wants| ==>
              Length(portions[i]) <= wants[i].len && (portions[i].Dropped? <==> wants[i].BySkip?)
  {
    hide Stretches;
    ghost var all := input.Remaining();
    portions := [];
    NoStretch(all);
    for i := 0 to |wants|
      invariant input.Valid() && |portions| == i && Stretches(all, portions, input.Remaining())
      invariant forall j :: 0 <= j < i ==>
                Length(portions[j]) <= wants[j].len && (portions[j].Dropped? <==> wants[j].BySkip?)
    {
      ghost var before := input.Remaining();
      var p := Take(input, wants[i]);
      OneMoreStretch(all, portions, before, p, input.Remaining());
      portions := portions + [p];
    }
  }

  // ----- the whole way -----

  /** Whatever the pieces, chunk size, buffer sizes, socket schedules and read sizes, the same bytes arrive. */
  method Loopback(pieces: seq<seq<byte>>, codec: Codec, limit: nat, outSize: nat, inSize: nat,
                  sends: seq<nat>, receives: seq<nat>, want: nat -> nat)
    returns (sent: bool, bytes: seq<byte>, clean: bool, leftover: bool)
    requires Lawful(codec) && codec.bound(limit).Some? && inSize > 0
    requires Manageable(codec, ChunkBound(limit, |Flatten(pieces)|))
    ensures sent && bytes == Flatten(pieces) && clean && !leftover
  {
    ghost var frames;
    var wire;
    sent, wire, frames := SendPieces(pieces, codec, limit, outSize, sends);
    EmittedReadable(codec, limit, frames);
    bytes, clean, leftover := ReceivePieces(wire, |Flatten(pieces)|, codec, inSize, receives, want, frames);
  }
}
