/** internal/termproto: the frames of the terminal socket. A frame is a type
    byte, a four-byte big-endian length and that many bytes of payload. */
module TermProto {
  import opened Wrappers

  type byte = x: int | 0 <= x < 256
  type uint16 = x: int | 0 <= x < 0x1_0000
  type uint32 = x: int | 0 <= x < 0x1_0000_0000

  const MAX_FRAME := 0x10_0000

  datatype Frame = Frame(kind: byte, payload: seq<byte>)

  datatype FrameError = EOF | UnexpectedEOF | FrameTooBig

  // ----- big-endian numbers --------------------------------------------------

  function PutUint32(n: uint32): (b: seq<byte>)
    ensures |b| == 4
  {
    var a: int := n / 0x100;
    var b := a / 0x100;
    [b / 0x100, b % 0x100, a % 0x100, n % 0x100]
  }

  function Uint32(b: seq<byte>): uint32
    requires |b| == 4
  {
    var hi: int := b[0];
    ((hi * 0x100 + b[1]) * 0x100 + b[2]) * 0x100 + b[3]
  }

  lemma Uint32Inverse(n: uint32)
    ensures Uint32(PutUint32(n)) == n
  {
  }

  function Uint16(b: seq<byte>): uint16
    requires |b| == 2
  {
    var hi: int := b[0];
    hi * 0x100 + b[1]
  }

  function PutUint16(n: uint16): (b: seq<byte>)
    ensures |b| == 2
  {
    [n / 0x100, n % 0x100]
  }

  // ----- frames as bytes -----------------------------------------------------

  function Encode(f: Frame): seq<byte>
    requires |f.payload| <= MAX_FRAME
  {
    [f.kind] + PutUint32(|f.payload|) + f.payload
  }

  /** What io.ReadFull says when a stream runs out: a clean end only when not one
      byte was there. */
  function ShortRead(available: seq<byte>): FrameError {
    if available == [] then EOF else UnexpectedEOF
  }

  /** One frame off the front of a stream, and what is left unread. */
  function Decode(data: seq<byte>): (r: (Result<Frame, FrameError>, seq<byte>))
    ensures r.0.Success? ==> |r.1| < |data|
  {
    if |data| < 5 then (Failure(ShortRead(data)), [])
    else
      var n := Uint32(data[1..5]);
      var rest := data[5..];
      if n > MAX_FRAME then (Failure(FrameTooBig), rest)
      else if |rest| < n then (Failure(ShortRead(rest)), [])
      else (Success(Frame(data[0], rest[..n])), rest[n..])
  }

  /** The byte stream between the two ends: writers append, readers take from the
      front. */
  class Stream {
    var data: seq<byte>

    constructor ()
      ensures data == []
    {
      data := [];
    }

    method Write(p: seq<byte>)
      modifies this
      ensures data == old(data) + p
    {
      data := data + p;
    }

    /** io.ReadFull: fills the whole buffer or reports why it could not. */
    method ReadFull(buf: array<byte>) returns (err: Option<FrameError>)
      modifies this, buf
      ensures err.None? <==> |old(data)| >= buf.Length
      ensures err.None? ==> buf[..] == old(data)[..buf.Length] && data == old(data)[buf.Length..]
      ensures err.Some? ==> err.value == ShortRead(old(data)) && data == []
    {
      if |data| < buf.Length {
        err := Some(ShortRead(data));
        data := [];
      } else {
        var i := 0;
        while i < buf.Length
          invariant 0 <= i <= buf.Length && data == old(data)
          invariant buf[..i] == data[..i]
        {
          buf[i] := data[i];
          i := i + 1;
        }
        data := data[buf.Length..];
        err := None;
      }
    }
  }

  method WriteFrame(w: Stream, kind: byte, payload: seq<byte>) returns (err: Option<FrameError>)
    modifies w
    ensures |payload| > MAX_FRAME ==> err == Some(FrameTooBig) && w.data == old(w.data)
    ensures |payload| <= MAX_FRAME ==> err == None && w.data == old(w.data) + Encode(Frame(kind, payload))
  {
    if |payload| > MAX_FRAME {
      return Some(FrameTooBig);
    }
    var head := new byte[5];
    var length := PutUint32(|payload|);
    head[0] := kind;
    head[1], head[2], head[3], head[4] := length[0], length[1], length[2], length[3];
    assert head[..] == [kind] + length;
    w.Write(head[..]);
    if |payload| == 0 {
      assert old(w.data) + head[..] == old(w.data) + (head[..] + payload);
      return None;
    }
    w.Write(payload);
    assert old(w.data) + head[..] + payload == old(w.data) + (head[..] + payload);
    return None;
  }

  method ReadFrame(r: Stream) returns (result: Result<Frame, FrameError>)
    modifies r
    ensures (result, r.data) == Decode(old(r.data))
  {
    var head := new byte[5];
    var err := r.ReadFull(head);
    if err.Some? {
      return Failure(err.value);
    }
    assert head[1..5] == old(r.data)[1..5];
    var n := Uint32(head[1..5]);
    if n > MAX_FRAME {
      return Failure(FrameTooBig);
    }
    if n == 0 {
      assert r.data[..0] == [] && r.data[0..] == r.data;
      return Success(Frame(head[0], []));
    }
    var buf := new byte[n];
    err := r.ReadFull(buf);
    if err.Some? {
      return Failure(err.value);
    }
    return Success(Frame(head[0], buf[..]));
  }

  // ----- round trips ---------------------------------------------------------

  lemma DecodeEncode(f: Frame, rest: seq<byte>)
    requires |f.payload| <= MAX_FRAME
    ensures Decode(Encode(f) + rest) == (Success(f), rest)
  {
    var data := Encode(f) + rest;
    assert data[1..5] == PutUint32(|f.payload|);
    Uint32Inverse(|f.payload|);
    assert data[5..] == f.payload + rest;
    assert (f.payload + rest)[..|f.payload|] == f.payload;
    assert (f.payload + rest)[|f.payload|..] == rest;
  }

  /** The bytes themselves: the type, the length with its most significant byte first,
      and the payload as it is; at most a mebibyte of it. */
  lemma WireFormat(f: Frame)
    requires |f.payload| <= 1_048_576
    ensures MAX_FRAME == 1_048_576
    ensures var b := Encode(f);
            && |b| == 5 + |f.payload| && b[0] == f.kind && b[5..] == f.payload
            && |f.payload| == b[1] as int * 16_777_216 + b[2] as int * 65_536 + b[3] as int * 256 + b[4]
  {
    Uint32Inverse(|f.payload|);
  }

  ghost predicate Sendable(fs: seq<Frame>) {
    forall i :: 0 <= i < |fs| ==> |fs[i].payload| <= MAX_FRAME
  }

  /** Frames written one after another. */
  function EncodeAll(fs: seq<Frame>): seq<byte>
    requires forall i :: 0 <= i < |fs| ==> |fs[i].payload| <= MAX_FRAME
  {
    if fs == [] then [] else Encode(fs[0]) + EncodeAll(fs[1..])
  }

  /** What a reader that takes frames until one cannot be read gets: the frames
      and why it stopped. */
  function DecodeAll(data: seq<byte>): (r: (seq<Frame>, FrameError))
    decreases |data|
  {
    var (one, rest) := Decode(data);
    match one
    case Failure(e) => ([], e)
    case Success(f) =>
      var (more, e) := DecodeAll(rest);
      ([f] + more, e)
  }

  /** Any sequence of frames reads back as itself, ending in a clean EOF. */
  lemma {:induction false} StreamRoundTrip(fs: seq<Frame>)
    requires Sendable(fs)
    ensures DecodeAll(EncodeAll(fs)) == (fs, EOF)
  {
    if fs == [] {
    } else {
      DecodeEncode(fs[0], EncodeAll(fs[1..]));
      StreamRoundTrip(fs[1..]);
      assert fs == [fs[0]] + fs[1..];
    }
  }

  /** Every proper prefix of one frame is an error and is consumed whole. The
      error is a clean EOF in two places: before the first byte, and between the
      header and a payload that never comes. */
  lemma PrefixIsAnError(f: Frame, k: nat)
    requires |f.payload| <= MAX_FRAME && k < |Encode(f)|
    ensures Decode(Encode(f)[..k]) == (Failure(if k == 0 || k == 5 then EOF else UnexpectedEOF), [])
  {
    var p := Encode(f)[..k];
    if k >= 5 {
      assert Encode(f)[1..5] == PutUint32(|f.payload|);
      assert p[1..5] == Encode(f)[1..5];
      Uint32Inverse(|f.payload|);
      assert |p[5..]| == k - 5;
    }
  }

  lemma PrefixCons(f: Frame, more: seq<Frame>, rest: seq<Frame>)
    ensures [f] + more <= [f] + rest <==> more <= rest
    ensures [f] + more == [f] + rest <==> more == rest
  {
    assert ([f] + more)[1..] == more && ([f] + rest)[1..] == rest;
    if more <= rest {
      assert ([f] + rest)[..|more| + 1] == [f] + rest[..|more|];
    }
    if [f] + more <= [f] + rest {
      assert more == ([f] + rest)[..|more| + 1][1..];
    }
  }

  /** A cut past the first frame leaves that frame and a cut of the rest. */
  lemma CutAfterFirst(f: Frame, tail: seq<byte>, k: nat)
    requires |f.payload| <= MAX_FRAME && |Encode(f)| <= k <= |Encode(f) + tail|
    ensures DecodeAll((Encode(f) + tail)[..k]).0 == [f] + DecodeAll(tail[..k - |Encode(f)|]).0
  {
    var first := Encode(f);
    assert (first + tail)[..k] == first + tail[..k - |first|];
    DecodeEncode(f, tail[..k - |first|]);
  }

  /** Cutting a stream of frames anywhere loses frames from the end and never
      invents or alters one; nothing is lost exactly when nothing was cut. */
  lemma {:induction false} CutStream(fs: seq<Frame>, k: nat)
    requires Sendable(fs) && k <= |EncodeAll(fs)|
    ensures DecodeAll(EncodeAll(fs)[..k]).0 <= fs
    ensures DecodeAll(EncodeAll(fs)[..k]).0 == fs <==> k == |EncodeAll(fs)|
  {
    if fs == [] {
      assert EncodeAll(fs)[..k] == [];
    } else {
      var first, tail := Encode(fs[0]), EncodeAll(fs[1..]);
      if k < |first| {
        assert EncodeAll(fs)[..k] == first[..k];
        PrefixIsAnError(fs[0], k);
      } else {
        CutAfterFirst(fs[0], tail, k);
        CutStream(fs[1..], k - |first|);
        PrefixCons(fs[0], DecodeAll(tail[..k - |first|]).0, fs[1..]);
        assert fs == [fs[0]] + fs[1..];
      }
    }
  }

  // ----- resize payloads -----------------------------------------------------

  function Size(payload: seq<byte>): Option<(uint16, uint16)> {
    if |payload| != 4 then None else Some((Uint16(payload[..2]), Uint16(payload[2..])))
  }

  function SizePayload(cols: uint16, rows: uint16): seq<byte> {
    PutUint16(cols) + PutUint16(rows)
  }

  lemma SizeRoundTrip(cols: uint16, rows: uint16)
    ensures Size(SizePayload(cols, rows)) == Some((cols, rows))
  {
    var p := SizePayload(cols, rows);
    assert p[..2] == PutUint16(cols) && p[2..] == PutUint16(rows);
  }

  /** Columns, then rows, each with its more significant byte first. */
  lemma SizeFormat(cols: uint16, rows: uint16)
    ensures var p := SizePayload(cols, rows);
            |p| == 4 && p[0] as int * 256 + p[1] == cols && p[2] as int * 256 + p[3] == rows
  {
  }

  /** Size accepts exactly the payloads SizePayload builds. */
  lemma SizeOnlyFromPayload(payload: seq<byte>)
    ensures Size(payload).Some? <==> exists cols, rows :: payload == SizePayload(cols, rows)
    ensures Size(payload).Some? ==>
              var (cols, rows) := Size(payload).value; payload == SizePayload(cols, rows)
  {
    if |payload| == 4 {
      var cols, rows := Uint16(payload[..2]), Uint16(payload[2..]);
      assert PutUint16(cols) == [payload[0], payload[1]];
      assert PutUint16(rows) == [payload[2], payload[3]];
      assert payload == SizePayload(cols, rows);
    }
  }
}
