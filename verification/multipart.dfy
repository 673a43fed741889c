/** The multipart JPEG stream: its bytes, and the writer. */
module Multipart {
  import opened Bytes
  import opened Text
  import Media

  const DASHES: bytes := [DASH, DASH]

  /** `HTTP/1.1 200 OK` */
  const STATUS_LINE: bytes :=
    [72, 84, 84, 80, 47, 49, 46, 49, 32, 50, 48, 48, 32, 79, 75]

  /** `Content-Type: ` */
  const TYPE_IS: bytes := [67, 111, 110, 116, 101, 110, 116, 45, 84, 121, 112, 101, 58, 32]

  /** `multipart/x-mixed-replace; ` */
  const REPLACE_TYPE: bytes :=
    [109, 117, 108, 116, 105, 112, 97, 114, 116, 47, 120, 45, 109, 105, 120, 101, 100, 45, 114, 101, 112, 108, 97,
    99, 101, 59, 32]

  const STREAM_TYPE: bytes := TYPE_IS + REPLACE_TYPE

  /** `boundary=` */
  const BOUNDARY_IS: bytes :=
    [98, 111, 117, 110, 100, 97, 114, 121, 61]

  /** `Cache-Control: no-cache, no-store` */
  const CACHE_LINE: bytes :=
    [67, 97, 99, 104, 101, 45, 67, 111, 110, 116, 114, 111, 108, 58, 32, 110, 111, 45, 99, 97, 99, 104,
    101, 44, 32, 110, 111, 45, 115, 116, 111, 114, 101]

  /** `Pragma: no-cache` */
  const PRAGMA_LINE: bytes :=
    [80, 114, 97, 103, 109, 97, 58, 32, 110, 111, 45, 99, 97, 99, 104, 101]

  /** `Connection: close` */
  const CLOSE_LINE: bytes :=
    [67, 111, 110, 110, 101, 99, 116, 105, 111, 110, 58, 32, 99, 108, 111, 115, 101]

  /** `Access-Control-Allow-Origin: *` */
  const ORIGIN_LINE: bytes :=
    [65, 99, 99, 101, 115, 115, 45, 67, 111, 110, 116, 114, 111, 108, 45, 65, 108, 108, 111, 119, 45, 79,
    114, 105, 103, 105, 110, 58, 32, 42]

  /** `Content-Type: image/jpeg` */
  const JPEG_LINE: bytes :=
    [67, 111, 110, 116, 101, 110, 116, 45, 84, 121, 112, 101, 58, 32, 105, 109, 97, 103, 101, 47, 106,
    112, 101, 103]

  /** `Content-Length: ` */
  const LENGTH_IS: bytes :=
    [67, 111, 110, 116, 101, 110, 116, 45, 76, 101, 110, 103, 116, 104, 58, 32]

  /** `X-Timestamp: ` */
  const TIMESTAMP_IS: bytes :=
    [88, 45, 84, 105, 109, 101, 115, 116, 97, 109, 112, 58, 32]

  /** Lines with CRLF between them. */
  function Join(lines: seq<bytes>): bytes {
    if lines == [] then []
    else if |lines| == 1 then lines[0]
    else lines[0] + CRLF + Join(lines[1..])
  }

  function HeadLines(boundary: bytes): seq<bytes> {
    [STATUS_LINE, STREAM_TYPE + BOUNDARY_IS + boundary, CACHE_LINE, PRAGMA_LINE, CLOSE_LINE, ORIGIN_LINE]
  }

  /** The HTTP response head. */
  function Head(boundary: bytes): bytes {
    Join(HeadLines(boundary)) + BLANK
  }

  datatype Frame = Frame(data: bytes, timestamp: u64)

  function PartLines(f: Frame): seq<bytes> {
    [JPEG_LINE, LENGTH_IS + Decimal(|f.data|), TIMESTAMP_IS + Decimal(f.timestamp)]
  }

  /** Delimiter line, headers, body and the CRLF that closes the part. */
  function Part(boundary: bytes, f: Frame): (r: bytes)
    ensures |r| >= 5
  {
    DASHES + boundary + CRLF + Join(PartLines(f)) + BLANK + f.data + CRLF
  }

  function Parts(boundary: bytes, frames: seq<Frame>): bytes {
    if frames == [] then [] else Part(boundary, frames[0]) + Parts(boundary, frames[1..])
  }

  lemma {:induction false} JoinCons(line: bytes, rest: seq<bytes>)
    requires rest != []
    ensures Join([line] + rest) == line + CRLF + Join(rest)
    ensures Join([line]) == line
  {
    assert ([line] + rest)[1..] == rest;
  }

  lemma {:induction false} PartsCons(boundary: bytes, frames: seq<Frame>)
    ensures Parts(boundary, []) == []
    ensures frames != [] ==> Parts(boundary, frames) == Part(boundary, frames[0]) + Parts(boundary, frames[1..])
  {
  }

  lemma {:induction false} PartsSnoc(boundary: bytes, frames: seq<Frame>, f: Frame)
    ensures Parts(boundary, frames + [f]) == Parts(boundary, frames) + Part(boundary, f)
  {
    hide Part;
    if frames == [] {
      assert [f][1..] == [] && [] + [f] == [f];
    } else {
      assert (frames + [f])[1..] == frames[1..] + [f];
      PartsSnoc(boundary, frames[1..], f);
    }
  }

  /** The writer. `sink` is every byte written so far. */
  class Writer {
    const boundary: bytes
    var sink: bytes
    var frames: nat

    constructor (boundary: bytes)
      ensures this.boundary == boundary && sink == [] && frames == 0
    {
      this.boundary, sink, frames := boundary, [], 0;
    }

    method WriteResponseHead()
      modifies this
      ensures sink == old(sink) + Head(boundary) && frames == old(frames)
    {
      hide Join, Head;
      ghost var was, lines := sink, HeadLines(boundary);
      sink := sink + (STATUS_LINE + CRLF);
      sink := sink + (STREAM_TYPE + BOUNDARY_IS);
      sink := sink + boundary;
      sink := sink + (CRLF + CACHE_LINE + CRLF);
      sink := sink + (PRAGMA_LINE + CRLF);
      sink := sink + (CLOSE_LINE + CRLF);
      sink := sink + (ORIGIN_LINE + BLANK);
      HeadPieces(was, boundary);
    }

    /** Writes one JPEG part; anything else is refused. */
    method Push(packet: Media.MediaPacket) returns (r: Result<()>)
      requires |packet.data| <= U64_MAX
      modifies this
      ensures packet.codec != Media.Jpeg || packet.data == [] ==>
                r == Err(Unsupported) && sink == old(sink) && frames == old(frames)
      ensures packet.codec == Media.Jpeg && packet.data != [] ==>
                && r == Ok(()) && frames == old(frames) + 1
                && sink == old(sink) + Part(boundary, Frame(packet.data, packet.timestamp))
    {
      hide Join, Part, Decimal;
      if packet.codec != Media.Jpeg || packet.data == [] {
        return Err(Unsupported);
      }
      ghost var was := sink;
      var num := new byte[20];
      sink := sink + DASHES;
      sink := sink + boundary;
      sink := sink + (CRLF + JPEG_LINE + CRLF + LENGTH_IS);
      var i := FmtU64(|packet.data|, num);
      sink := sink + num[i..];
      sink := sink + (CRLF + TIMESTAMP_IS);
      i := FmtU64(packet.timestamp, num);
      sink := sink + num[i..];
      sink := sink + BLANK;
      sink := sink + packet.data;
      sink := sink + CRLF;
      frames := frames + 1;
      PartPieces(was, boundary, Frame(packet.data, packet.timestamp));
      return Ok(());
    }
  }

  lemma {:induction false} HeadPieces(was: bytes, boundary: bytes)
    ensures was + (STATUS_LINE + CRLF) + (STREAM_TYPE + BOUNDARY_IS) + boundary + (CRLF + CACHE_LINE + CRLF) +
            (PRAGMA_LINE + CRLF) + (CLOSE_LINE + CRLF) + (ORIGIN_LINE + BLANK) == was + Head(boundary)
  {
    hide Join, STATUS_LINE, STREAM_TYPE, BOUNDARY_IS, CACHE_LINE, PRAGMA_LINE, CLOSE_LINE, ORIGIN_LINE, BLANK;
    var l := HeadLines(boundary);
    assert l[4..] == [l[4]] + [l[5]] && l[3..] == [l[3]] + l[4..] && l[2..] == [l[2]] + l[3..];
    assert l[1..] == [l[1]] + l[2..] && l == [l[0]] + l[1..];
    JoinCons(l[4], [l[5]]);
    JoinCons(l[5], [l[4]]);
    JoinCons(l[3], l[4..]);
    JoinCons(l[2], l[3..]);
    JoinCons(l[1], l[2..]);
    JoinCons(l[0], l[1..]);
  }

  lemma {:induction false} PartPieces(was: bytes, boundary: bytes, f: Frame)
    ensures was + DASHES + boundary + (CRLF + JPEG_LINE + CRLF + LENGTH_IS) + Decimal(|f.data|) +
            (CRLF + TIMESTAMP_IS) + Decimal(f.timestamp) + BLANK + f.data + CRLF == was + Part(boundary, f)
  {
    hide Join, JPEG_LINE, LENGTH_IS, TIMESTAMP_IS, BLANK, DASHES, Decimal;
    var l := PartLines(f);
    assert l[1..] == [l[1]] + [l[2]] && l == [l[0]] + l[1..];
    JoinCons(l[2], [l[1]]);
    JoinCons(l[1], [l[2]]);
    JoinCons(l[0], l[1..]);
  }
}
