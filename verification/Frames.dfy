/** The wire format: one type byte and a 3-byte big-endian length, then the data. */
module Frames {
  import opened Basics

  const HEADER_LEN: nat := 4
  const MAX_DATA_SIZE: nat := 0x1FF_FFFF // 2<<24 - 1 parses as (2<<24) - 1
  const LENGTH_FIELD: nat := 0x100_0000 // what three bytes can count

  const RPC_ERROR: Byte := 0
  const RPC_PREPARE_CONF: Byte := 1
  const RPC_HTTP_REQ_CALL: Byte := 2
  const RPC_EXTRA_INFO: Byte := 3
  const RPC_HTTP_RESP_CALL: Byte := 4

  datatype Frame = Frame(ty: Byte, data: Bytes)

  /** binary.BigEndian.PutUint32 of uint32(v). */
  function PutUint32(v: nat): (h: Bytes)
    ensures |h| == 4
  {
    [v / 0x100_0000 % 256, v / 0x1_0000 % 256, v / 0x100 % 256, v % 256]
  }

  /** binary.BigEndian.Uint32. */
  function Uint32(h: Bytes): nat
    requires |h| == 4
  {
    (h[0] as int) * 0x100_0000 + (h[1] as int) * 0x1_0000 + (h[2] as int) * 0x100 + (h[3] as int)
  }

  /** The header as written: the length first, then the type over its first byte. */
  function EncodeHeader(ty: Byte, size: nat): (h: Bytes)
    ensures |h| == HEADER_LEN
  {
    PutUint32(size)[0 := ty]
  }

  /** The length as read: the type byte is zeroed before the four bytes are decoded. */
  function DecodeLength(h: Bytes): (length: nat)
    requires |h| == HEADER_LEN
    ensures length < LENGTH_FIELD
  {
    Uint32(h[0 := 0])
  }

  /** Header arithmetic: the type survives, the size survives modulo 2^24. */
  lemma HeaderRoundTrip(ty: Byte, size: nat)
    ensures EncodeHeader(ty, size)[0] == ty
    ensures DecodeLength(EncodeHeader(ty, size)) == size % LENGTH_FIELD
    ensures DecodeLength(EncodeHeader(ty, size)) == size <==> size < LENGTH_FIELD
  {
    Digits(size);
    assert EncodeHeader(ty, size)[0 := 0] == [0, size / 0x1_0000 % 256, size / 0x100 % 256, size % 256];
  }

  lemma Digits(size: nat)
    ensures (size / 0x1_0000 % 256) * 0x1_0000 + (size / 0x100 % 256) * 0x100 + size % 256 == size % LENGTH_FIELD
  {
    var mid := size / 256;
    var high := mid / 256;
    DivTwice(size);
    Remainder(size, high / 256, (high % 256) * 0x1_0000 + (mid % 256) * 0x100 + size % 256);
  }

  lemma DivTwice(size: nat)
    ensures size / 0x1_0000 == size / 256 / 256
  {
  }

  lemma Remainder(size: nat, top: nat, low: nat)
    requires size == top * LENGTH_FIELD + low && low < LENGTH_FIELD
    ensures size % LENGTH_FIELD == low
  {
  }

  /** The header in numbers: the type, then the size in three bytes, the highest first. */
  lemma HeaderBytes(ty: Byte, size: nat)
    requires size < 16777216
    ensures
      var h := EncodeHeader(ty, size);
      && |h| == 4 && h[0] == ty
      && (h[1] as int) * 65536 + (h[2] as int) * 256 + (h[3] as int) == size
  {
    HeaderRoundTrip(ty, size);
  }

  function EncodeFrame(f: Frame): Bytes {
    EncodeHeader(f.ty, |f.data|) + f.data
  }

  function EncodeAll(fs: seq<Frame>): Bytes {
    if fs == [] then [] else EncodeFrame(fs[0]) + EncodeAll(fs[1..])
  }

  /** A complete frame at the front of `s`, and the bytes after it. */
  function ParseFrame(s: Bytes): (r: Option<(Frame, Bytes)>)
    ensures r.Some? ==> |r.value.1| + HEADER_LEN + |r.value.0.data| == |s|
    ensures r.Some? ==> |r.value.0.data| < LENGTH_FIELD
  {
    if |s| < HEADER_LEN then None
    else
      var length := DecodeLength(s[..HEADER_LEN]);
      if |s| - HEADER_LEN < length then None
      else Some((Frame(s[0], s[HEADER_LEN..HEADER_LEN + length]), s[HEADER_LEN + length..]))
  }

  /** What is a complete frame, in numbers: four bytes, and as many after them as the last three of
      these count. */
  lemma ParseExact(s: Bytes)
    ensures |s| < 4 ==> ParseFrame(s).None?
    ensures
      |s| >= 4 ==>
        var length := (s[1] as int) * 65536 + (s[2] as int) * 256 + (s[3] as int);
        ParseFrame(s) == if 4 + length <= |s| then Some((Frame(s[0], s[4..4 + length]), s[4 + length..])) else None
  {
  }

  /** All complete frames of a byte stream, in order; a truncated tail is not one. */
  function AllFrames(s: Bytes): seq<Frame>
    decreases |s|
  {
    match ParseFrame(s)
    case None => []
    case Some((f, rest)) => [f] + AllFrames(rest)
  }

  /** What a reader makes of one written frame, whatever follows it. */
  lemma ParseWritten(f: Frame, rest: Bytes)
    requires |f.data| < LENGTH_FIELD
    ensures ParseFrame(EncodeFrame(f) + rest) == Some((f, rest))
  {
    HeaderRoundTrip(f.ty, |f.data|);
    var s := EncodeFrame(f) + rest;
    assert s[..HEADER_LEN] == EncodeHeader(f.ty, |f.data|);
    assert s[HEADER_LEN..HEADER_LEN + |f.data|] == f.data;
    assert s[HEADER_LEN + |f.data|..] == rest;
  }

  /** A written frame of 2^24 bytes or more is never read back. */
  lemma OversizeMisread(f: Frame, rest: Bytes)
    requires |f.data| >= LENGTH_FIELD
    ensures ParseFrame(EncodeFrame(f) + rest).Some?
    ensures ParseFrame(EncodeFrame(f) + rest).value.0 != f
  {
  }

  /** The stream round trip, exactly: a written sequence of frames, followed by any
      incomplete tail, is read back if and only if every frame is below 2^24 bytes. */
  lemma {:induction false} StreamRoundTrip(fs: seq<Frame>, tail: Bytes)
    requires ParseFrame(tail).None?
    ensures AllFrames(EncodeAll(fs) + tail) == fs <==> forall f :: f in fs ==> |f.data| < 16777216
  {
    if fs == [] {
      assert EncodeAll(fs) + tail == tail;
    } else {
      var rest := EncodeAll(fs[1..]) + tail;
      assert EncodeAll(fs) + tail == EncodeFrame(fs[0]) + rest;
      assert forall f :: f in fs <==> f == fs[0] || f in fs[1..];
      if |fs[0].data| < LENGTH_FIELD {
        ParseWritten(fs[0], rest);
        StreamRoundTrip(fs[1..], tail);
        assert fs == [fs[0]] + fs[1..];
      } else {
        OversizeMisread(fs[0], rest);
        assert AllFrames(EncodeFrame(fs[0]) + rest)[0] != fs[0];
      }
    }
  }

  lemma Assoc(a: Bytes, b: Bytes, c: Bytes)
    ensures a + (b + c) == a + b + c
  {
  }

  lemma {:induction false} EncodeAllAppend(fs: seq<Frame>, gs: seq<Frame>)
    ensures EncodeAll(fs + gs) == EncodeAll(fs) + EncodeAll(gs)
  {
    if fs == [] {
      assert fs + gs == gs;
    } else {
      EncodeAllAppend(fs[1..], gs);
      assert (fs + gs)[1..] == fs[1..] + gs;
      Assoc(EncodeFrame(fs[0]), EncodeAll(fs[1..]), EncodeAll(gs));
    }
  }
}
