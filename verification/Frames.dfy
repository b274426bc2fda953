/**
  Compressed frames (clickhouse/base/compressed.cpp) as bytes: a 16-byte hash, a 9-byte header and the packed data.
  LZ4, ZSTD and CityHash are parameters: a codec is a record of functions with the laws their libraries promise.
 */
module Frames {
  import opened WireFormat
  import opened Optional

  const HEADER_SIZE: nat := 9
  const HASH_SIZE: nat := 16
  const EXTRA_COMPRESS_BUFFER_SIZE: nat := 4096
  const DBMS_MAX_COMPRESSED_SIZE: nat := 0x4000_0000
  const LZ4_BYTE: byte := 0x82
  const ZSTD_BYTE: byte := 0x90

  datatype Codec = Codec(
    tag: byte,
    bound: nat -> Option<nat>,
    pack: (seq<byte>, nat) -> Option<seq<byte>>,
    unpack: (seq<byte>, nat) -> Option<seq<byte>>,
    hash: seq<byte> -> seq<byte>)

  ghost predicate Lawful(c: Codec) {
    && (c.tag == LZ4_BYTE || c.tag == ZSTD_BYTE)
    && (forall d :: |c.hash(d)| == HASH_SIZE)
    && (forall m, n :: c.bound(n).Some? && m <= n ==> c.bound(m).Some? && c.bound(m).value <= c.bound(n).value)
    && (forall n :: c.bound(n).Some? ==> n < 0x8000_0000)
    && (forall d, room :: c.bound(|d|).Some? && c.bound(|d|).value <= room ==> c.pack(d, room).Some?)
    && (forall d, room :: c.pack(d, room).Some? ==>
          && |c.pack(d, room).value| <= room
          && |c.pack(d, room).value| < 0x8000_0000
          && c.unpack(c.pack(d, room).value, |d|) == Some(d))
  }

  /** A codec that stores the data as they are. */
  function StoringCodec(): Codec {
    var bound: nat -> Option<nat> := (n: nat) => if n < 0x8000_0000 then Some(n) else None;
    var pack: (seq<byte>, nat) -> Option<seq<byte>> :=
      (d: seq<byte>, room: nat) => if |d| <= room && |d| < 0x8000_0000 then Some(d) else None;
    var unpack: (seq<byte>, nat) -> Option<seq<byte>> :=
      (p: seq<byte>, size: nat) => if |p| == size then Some(p) else None;
    var hash: seq<byte> -> seq<byte> := (d: seq<byte>) => Zeros(HASH_SIZE);
    Codec(LZ4_BYTE, bound, pack, unpack, hash)
  }

  /** The laws can be met. */
  lemma StoringCodecLawful()
    ensures Lawful(StoringCodec())
  {
  }

  /** The library accepts every chunk of up to n bytes. */
  ghost predicate Takes(c: Codec, n: nat) {
    forall m: nat :: m <= n ==> c.bound(m).Some?
  }

  lemma BoundTakes(c: Codec, n: nat)
    requires Lawful(c) && c.bound(n).Some?
    ensures Takes(c, n)
  {
  }

  datatype Frame = Frame(data: seq<byte>, packed: seq<byte>)

  /** A frame the writer may produce: non-empty data whose packed form unpacks to it. */
  ghost predicate Genuine(c: Codec, f: Frame) {
    && 0 < |f.data| < 0x1_0000_0000
    && |f.packed| < 0x8000_0000
    && c.unpack(f.packed, |f.data|) == Some(f.data)
  }

  /** The size of the compression buffer preallocated for chunks of up to n bytes. */
  ghost predicate Preallocated(c: Codec, n: nat, size: nat) {
    c.bound(n).Some? && size == c.bound(n).value + HEADER_SIZE + EXTRA_COMPRESS_BUFFER_SIZE
  }

  /** What bounds a chunk: the limit, or its own length when there is no limit. */
  function ChunkBound(limit: nat, len: nat): nat {
    if limit > 0 then limit else len
  }

  /** A frame within the chunk limit whose packed form fitted the preallocated buffer. */
  ghost predicate Emitted(c: Codec, limit: nat, f: Frame) {
    && Genuine(c, f)
    && |f.data| <= ChunkBound(limit, |f.data|)
    && c.bound(ChunkBound(limit, |f.data|)).Some?
    && |f.packed| <= c.bound(ChunkBound(limit, |f.data|)).value + EXTRA_COMPRESS_BUFFER_SIZE
  }

  /** Chunks of n bytes compress within what the reader accepts. */
  ghost predicate Manageable(c: Codec, n: nat) {
    c.bound(n).Some? && c.bound(n).value + HEADER_SIZE + EXTRA_COMPRESS_BUFFER_SIZE <= DBMS_MAX_COMPRESSED_SIZE
  }

  /** Packs one chunk; a buffer of the library's bound is always enough. */
  function PackFrame(c: Codec, limit: nat, data: seq<byte>, size: nat): (f: Frame)
    requires Lawful(c) && data != [] && |data| <= ChunkBound(limit, |data|)
    requires Preallocated(c, ChunkBound(limit, |data|), size)
    ensures Emitted(c, limit, f) && f.data == data && |f.packed| + HEADER_SIZE <= size
  {
    Frame(data, c.pack(data, size - HEADER_SIZE).value)
  }

  function Header(c: Codec, f: Frame): (h: seq<byte>)
    ensures |h| == HEADER_SIZE
  {
    [c.tag] + Fixed(|f.packed| + HEADER_SIZE, 4) + Fixed(|f.data|, 4)
  }

  function EncodeFrame(c: Codec, f: Frame): seq<byte> {
    var body := Header(c, f) + f.packed;
    c.hash(body) + body
  }

  function FrameStream(c: Codec, fs: seq<Frame>): seq<byte> {
    if fs == [] then [] else EncodeFrame(c, fs[0]) + FrameStream(c, fs[1..])
  }

  function Payload(fs: seq<Frame>): seq<byte> {
    if fs == [] then [] else fs[0].data + Payload(fs[1..])
  }

  function Zeros(n: nat): (s: seq<byte>)
    ensures |s| == n && forall i :: 0 <= i < n ==> s[i] == 0
  {
    if n == 0 then [] else [0] + Zeros(n - 1)
  }

  /** The output of the decompressor in a zero-initialised buffer of the declared size. */
  function Filled(d: seq<byte>, size: nat): (r: seq<byte>)
    ensures |r| == size && forall i :: 0 <= i < size ==> r[i] == if i < |d| then d[i] else 0
  {
    if |d| < size then d + Zeros(size - |d|) else d[..size]
  }

  /** Reads one frame: its data and the bytes after it, or failure (a short read or a CompressionError). */
  function DecodeFrame(c: Codec, s: seq<byte>): Parse<seq<byte>> {
    if |s| < HASH_SIZE + HEADER_SIZE then Fail
    else
      var body := s[HASH_SIZE..];
      var tag, compressed, original := body[0], FromFixed(body[1..5]), FromFixed(body[5..9]);
      if tag != LZ4_BYTE && tag != ZSTD_BYTE then Fail
      else if compressed > DBMS_MAX_COMPRESSED_SIZE || compressed < HEADER_SIZE then Fail
      else if |body| < compressed || s[..HASH_SIZE] != c.hash(body[..compressed]) then Fail
      else match c.unpack(body[HEADER_SIZE..compressed], original)
           case Some(d) => Got(Filled(d, original), body[compressed..])
           case None => Fail
  }

  /** The fields of an encoded frame followed by anything. */
  lemma FrameFields(c: Codec, f: Frame, tail: seq<byte>)
    requires Lawful(c) && Genuine(c, f)
    ensures var s := EncodeFrame(c, f) + tail;
            var n := HEADER_SIZE + |f.packed|;
            && |s| >= HASH_SIZE + n
            && s[..HASH_SIZE] == c.hash(s[HASH_SIZE..][..n])
            && s[HASH_SIZE..][0] == c.tag
            && FromFixed(s[HASH_SIZE..][1..5]) == n
            && FromFixed(s[HASH_SIZE..][5..9]) == |f.data|
            && s[HASH_SIZE..][HEADER_SIZE..n] == f.packed
            && s[HASH_SIZE..][n..] == tail
  {
    var h := Header(c, f);
    var body := h + f.packed;
    var s := EncodeFrame(c, f) + tail;
    assert s == c.hash(body) + (body + tail);
    assert s[HASH_SIZE..] == body + tail;
    assert (body + tail)[..|body|] == body;
    assert (body + tail)[1..5] == h[1..5] == Fixed(|f.packed| + HEADER_SIZE, 4);
    assert (body + tail)[5..9] == h[5..9] == Fixed(|f.data|, 4);
    BytePowers();
    FixedValue(|f.packed| + HEADER_SIZE, 4);
    FixedValue(|f.data|, 4);
  }

  /** A written frame reads back exactly when its size with header is within the reader's limit. */
  lemma FrameRoundTrip(c: Codec, f: Frame, tail: seq<byte>)
    requires Lawful(c) && Genuine(c, f)
    ensures DecodeFrame(c, EncodeFrame(c, f) + tail) ==
              if |f.packed| + 9 <= 0x4000_0000 then Got(f.data, tail) else Fail
  {
    FrameFields(c, f, tail);
    assert Filled(f.data, |f.data|) == f.data;
  }

  /** A frame of 1 GiB of stored data is one the writer emits and the reader refuses. */
  lemma OversizedFrameExample(tail: seq<byte>)
    ensures var c, f := StoringCodec(), Frame(Zeros(DBMS_MAX_COMPRESSED_SIZE), Zeros(DBMS_MAX_COMPRESSED_SIZE));
            Lawful(c) && Emitted(c, 0, f) && DecodeFrame(c, EncodeFrame(c, f) + tail) == Fail
  {
    hide DecodeFrame, EncodeFrame, Zeros;
    var f := Frame(Zeros(DBMS_MAX_COMPRESSED_SIZE), Zeros(DBMS_MAX_COMPRESSED_SIZE));
    StoringCodecLawful();
    FrameRoundTrip(StoringCodec(), f, tail);
  }

  /** Bytes behind a wrong hash are refused, whatever they are. */
  lemma WrongHashRefused(c: Codec, hash: seq<byte>, body: seq<byte>, tail: seq<byte>)
    requires |hash| == HASH_SIZE && |body| >= HEADER_SIZE && FromFixed(body[1..5]) == |body| && hash != c.hash(body)
    ensures DecodeFrame(c, hash + body + tail) == Fail
  {
    hide FromFixed;
    BodyOf(hash, body, tail);
  }

  /** So is a compression method other than the two that are known. */
  lemma UnknownMethodRefused(c: Codec, hash: seq<byte>, body: seq<byte>, tail: seq<byte>)
    requires |hash| == HASH_SIZE && |body| >= HEADER_SIZE && body[0] != 0x82 && body[0] != 0x90
    ensures DecodeFrame(c, hash + body + tail) == Fail
  {
    BodyOf(hash, body, tail);
  }

  /** Whatever the decompressor makes of it, an accepted frame gives as many bytes as it declares. */
  lemma DeclaredSize(c: Codec, s: seq<byte>)
    requires DecodeFrame(c, s).Got?
    ensures |s| >= 25 && |DecodeFrame(c, s).value| == FromFixed(s[21..25])
  {
    assert s[HASH_SIZE..][5..9] == s[21..25];
  }

  lemma BodyOf(hash: seq<byte>, body: seq<byte>, tail: seq<byte>)
    requires |hash| == HASH_SIZE && |body| >= HEADER_SIZE
    ensures var s := hash + body + tail;
            && s[..HASH_SIZE] == hash && s[HASH_SIZE..][..|body|] == body
            && s[HASH_SIZE..][0] == body[0] && s[HASH_SIZE..][1..5] == body[1..5]
  {
    var s := hash + body + tail;
    assert s[HASH_SIZE..] == body + tail;
    assert (body + tail)[..|body|] == body && (body + tail)[1..5] == body[1..5];
  }

  lemma FrameLonger(c: Codec, s: seq<byte>, more: seq<byte>)
    requires DecodeFrame(c, s).Got?
    ensures DecodeFrame(c, s + more) == Longer(DecodeFrame(c, s), more)
  {
    hide FromFixed, Filled;
    var body := s[HASH_SIZE..];
    var n := FromFixed(body[1..5]);
    assert (s + more)[HASH_SIZE..] == body + more && (s + more)[..HASH_SIZE] == s[..HASH_SIZE];
    assert (body + more)[1..5] == body[1..5] && (body + more)[5..9] == body[5..9];
    assert (body + more)[..n] == body[..n] && (body + more)[HEADER_SIZE..n] == body[HEADER_SIZE..n];
    assert (body + more)[n..] == body[n..] + more;
  }

  /** A frame cut short anywhere is refused. */
  lemma CutFrameRefused(c: Codec, f: Frame, cut: nat)
    requires Lawful(c) && Genuine(c, f) && cut < |EncodeFrame(c, f)|
    ensures DecodeFrame(c, EncodeFrame(c, f)[..cut]) == Fail
  {
    hide DecodeFrame, EncodeFrame;
    var all := EncodeFrame(c, f);
    var s, more := all[..cut], all[cut..];
    assert s + more == all == all + [];
    FrameRoundTrip(c, f, []);
    if DecodeFrame(c, s).Got? {
      FrameLonger(c, s, more);
    }
  }

  lemma {:induction false} StreamAppend(c: Codec, fs: seq<Frame>, f: Frame)
    ensures FrameStream(c, fs + [f]) == FrameStream(c, fs) + EncodeFrame(c, f)
    ensures Payload(fs + [f]) == Payload(fs) + f.data
  {
    if fs == [] {
      assert fs + [f] == [f] && [f][1..] == [];
    } else {
      assert (fs + [f])[1..] == fs[1..] + [f];
      StreamAppend(c, fs[1..], f);
    }
  }

  /** Reads n frames. */
  function DecodeFrames(c: Codec, s: seq<byte>, n: nat): Parse<seq<byte>> {
    if n == 0 then Got([], s)
    else match DecodeFrame(c, s)
         case Fail => Fail
         case Got(d, rest) =>
           match DecodeFrames(c, rest, n - 1)
           case Fail => Fail
           case Got(ds, rest') => Got(d + ds, rest')
  }

  ghost predicate Readable(c: Codec, fs: seq<Frame>) {
    forall i :: 0 <= i < |fs| ==> Genuine(c, fs[i]) && |fs[i].packed| + HEADER_SIZE <= DBMS_MAX_COMPRESSED_SIZE
  }

  /** Decoding a frame stream gives back its payload and what follows it. */
  lemma {:induction false} StreamRoundTrip(c: Codec, fs: seq<Frame>, tail: seq<byte>)
    requires Lawful(c) && Readable(c, fs)
    ensures DecodeFrames(c, FrameStream(c, fs) + tail, |fs|) == Got(Payload(fs), tail)
  {
    if fs == [] {
      assert [] + tail == tail;
    } else {
      var more := FrameStream(c, fs[1..]) + tail;
      assert FrameStream(c, fs) + tail == EncodeFrame(c, fs[0]) + more;
      assert Genuine(c, fs[0]);
      FrameRoundTrip(c, fs[0], more);
      assert Readable(c, fs[1..]);
      StreamRoundTrip(c, fs[1..], tail);
    }
  }

  lemma {:induction false} PayloadPart(fs: seq<Frame>, i: nat)
    requires i < |fs|
    ensures |fs[i].data| <= |Payload(fs)|
  {
    if i > 0 { PayloadPart(fs[1..], i - 1); }
  }

  /** With a manageable chunk size every emitted frame is one the reader accepts. */
  lemma EmittedReadable(c: Codec, limit: nat, fs: seq<Frame>)
    requires Lawful(c) && forall i :: 0 <= i < |fs| ==> Emitted(c, limit, fs[i])
    requires Manageable(c, ChunkBound(limit, |Payload(fs)|))
    ensures Readable(c, fs)
  {
    forall i | 0 <= i < |fs|
      ensures Genuine(c, fs[i]) && |fs[i].packed| + HEADER_SIZE <= DBMS_MAX_COMPRESSED_SIZE
    {
      assert Emitted(c, limit, fs[i]);
      PayloadPart(fs, i);
    }
  }
}
