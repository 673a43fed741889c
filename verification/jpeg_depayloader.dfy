/** The RFC 2435 depayloader over its buffer, refining `JpegReceiver.Push`. */
module JpegDepayloader {
  import opened Bytes
  import opened JpegReceiver
  import H = RtpHeader
  import P = JpegHeaders

  class Depayloader {
    const buf: array<byte>
    var scanLen: nat
    var inFrame: bool
    var timestamp: u32
    var width: u16
    var height: u16
    var kind: byte
    var restart: Option<u16>
    var qtables: seq<bytes>
    var qcount: nat
    var lastSeq: Option<u16>
    var jpeg: Option<(nat, nat)>
    var frames: nat
    var dropped: nat
    var lost: nat

    /** The state `JpegReceiver` speaks of. */
    ghost function Model(): State
      reads this, buf
      requires RESERVE + scanLen <= buf.Length
      requires jpeg.Some? ==> jpeg.value.0 <= jpeg.value.1 <= buf.Length
    {
      State(buf.Length, buf[RESERVE..RESERVE + scanLen], inFrame, timestamp, width, height, kind, restart,
            qtables, qcount, lastSeq, if jpeg.Some? then Some(buf[jpeg.value.0..jpeg.value.1]) else None,
            frames, dropped, lost)
    }

    ghost predicate Ok()
      reads this, buf
    {
      && RESERVE + scanLen + 2 <= buf.Length
      && (jpeg.Some? ==> jpeg.value.0 <= jpeg.value.1 <= buf.Length)
      && Valid(Model())
    }

    constructor (buf: array<byte>)
      requires buf.Length >= RESERVE + 2
      ensures Ok() && this.buf == buf && Model() == Init(buf.Length)
    {
      this.buf := buf;
      scanLen, inFrame, timestamp, width, height, kind := 0, false, 0, 0, 0, 0;
      restart, qtables, qcount := None, [Zeros(64), Zeros(64)], 0;
      lastSeq, jpeg, frames, dropped, lost := None, None, 0, 0, 0;
    }

    /** The last complete JPEG, until the next packet is pushed. */
    method Jpeg() returns (r: bytes)
      requires Ok()
      ensures r == if Model().jpeg.Some? then Model().jpeg.value else []
    {
      r := if jpeg.Some? then buf[jpeg.value.0..jpeg.value.1] else [];
    }

    /** Stores the scan bytes of a fragment and, on the marker, puts headers and EOI around the scan. */
    method Store(marker: bool, data: bytes) returns (r: Result<Depayload>)
      requires Ok() && jpeg == None && HasHeader(Model())
      modifies this, buf
      ensures Ok() && Step(Model(), r) == Append(old(Model()), marker, data)
    {
      ghost var s := Model();
      var start := RESERVE + scanLen;
      var end := start + |data|;
      if end + 2 > buf.Length {
        inFrame := false;
        dropped := dropped + 1;
        return Err(BufferTooSmall(end + 2));
      }
      CopyInto(buf, start, data);
      scanLen := scanLen + |data|;
      assert buf[RESERVE..RESERVE + scanLen] == s.scan + data;
      if !marker {
        return Result.Ok(Fragment);
      }
      r := Finish();
    }

    /** Headers written up to the reserve and EOI after the scan leave the file in one piece. */
    lemma {:induction false} Assemble(was: bytes, head: nat, hdr: bytes, scan: bytes)
      requires head + |hdr| == RESERVE && RESERVE + |scan| + 2 <= |was| && was[RESERVE..RESERVE + |scan|] == scan
      ensures var eoi := RESERVE + |scan|;
              var b := (was[..head] + hdr + was[RESERVE..])[eoi := 0xFF][eoi + 1 := 0xD9];
              b[RESERVE..eoi] == scan && b[head..eoi + 2] == hdr + scan + [0xFF, 0xD9]
    {
      var eoi := RESERVE + |scan|;
      var b := (was[..head] + hdr + was[RESERVE..])[eoi := 0xFF][eoi + 1 := 0xD9];
      assert b[head..RESERVE] == hdr;
      assert b[RESERVE..eoi] == was[RESERVE..eoi];
      assert b[eoi..eoi + 2] == [0xFF, 0xD9];
      assert b[head..eoi + 2] == b[head..RESERVE] + b[RESERVE..eoi] + b[eoi..eoi + 2];
    }

    /** What makes the header write succeed. */
    lemma {:induction false} HeaderFacts(s: State)
      requires HasHeader(s)
      ensures |s.qtables[..s.qcount]| == s.qcount && s.kind <= 1
      ensures forall k :: 0 <= k < s.qcount ==> |s.qtables[..s.qcount][k]| == 64
    {
    }

    /** The marker packet: headers in front of the scan, `FF D9` after it. */
    method Finish() returns (r: Result<Depayload>)
      requires Ok() && jpeg == None && HasHeader(Model())
      modifies this, buf
      ensures Ok()
      ensures var s := old(Model());
              var j := P.File(s.width, s.height, s.kind, s.restart, s.qtables[..s.qcount], s.scan);
              && Model() == s.(inFrame := false, frames := s.frames + 1, jpeg := Some(j))
              && r == Result.Ok(Frame(|j|, s.timestamp, s.width, s.height))
    {
      hide P.File, P.Printable;
      HeaderFacts(Model());
      var head := WriteFile();
      inFrame := false;
      frames := frames + 1;
      jpeg := Some((head, RESERVE + scanLen + 2));
      return Result.Ok(Frame(RESERVE + scanLen + 2 - head, timestamp, width, height));
    }

    /** Headers up to the reserve, EOI after the scan; returns where the file starts. */
    method WriteFile() returns (head: nat)
      requires RESERVE + scanLen + 2 <= buf.Length && |qtables| == 2 && 1 <= qcount <= 2 && kind <= 1
      requires forall k :: 0 <= k < qcount ==> |qtables[..qcount][k]| == 64
      modifies buf
      ensures head <= RESERVE
      ensures buf[RESERVE..RESERVE + scanLen] == old(buf[RESERVE..RESERVE + scanLen])
      ensures buf[head..RESERVE + scanLen + 2] ==
              P.File(width, height, kind, restart, qtables[..qcount], old(buf[RESERVE..RESERVE + scanLen]))
    {
      hide P.Headers;
      ghost var was, scan := buf[..], buf[RESERVE..RESERVE + scanLen];
      var hlen := P.HeaderLen(qcount, restart.Some?);
      head := RESERVE - hlen;
      var w := P.WriteJpegHeaders(buf, head, RESERVE, width, height, kind, restart, qtables[..qcount]);
      P.HeadersLen(width, height, kind, restart, qtables[..qcount]);
      ghost var hdr := P.Headers(width, height, kind, restart, qtables[..qcount]);
      var eoi := RESERVE + scanLen;
      Assemble(was, head, hdr, scan);
      buf[eoi] := 0xFF;
      buf[eoi + 1] := 0xD9;
      assert buf[..] == (was[..head] + hdr + was[RESERVE..])[eoi := 0xFF][eoi + 1 := 0xD9];
      assert buf[RESERVE..eoi] == buf[..][RESERVE..eoi];
      assert buf[head..eoi + 2] == buf[..][head..eoi + 2];
    }

    /** A fragment at offset 0: a new frame, abandoning one in progress. */
    method StartFrame(h: H.Header, m: Main) returns (r: Result<Depayload>)
      requires Ok() && jpeg == None && m.kind % 64 <= 1 && 0 < m.width <= 2040 && 0 < m.height <= 2040
      requires m.width % 8 == 0 && m.height % 8 == 0
      modifies this, buf
      ensures Ok() && Step(Model(), r) == Start(old(Model()), h, m)
    {
      hide ReadQuant, Append, P.Printable;
      OpenFrame(h, m);
      var q := ReadQuant(m, qtables, qcount);
      if q.Err? {
        return Err(q.error);
      }
      qtables, qcount := q.value.qtables, q.value.qcount;
      assert HasHeader(Model()) by {
        TablesPrintable(Model());
      }
      r := Store(h.marker, q.value.data);
    }

    lemma {:induction false} TablesPrintable(s: State)
      requires |s.qtables| == 2 && |s.qtables[0]| == 64 && |s.qtables[1]| == 64 && 1 <= s.qcount <= 2
      requires 0 < s.width <= 2040 && s.width % 8 == 0 && 0 < s.height <= 2040 && s.height % 8 == 0 && s.kind <= 1
      ensures HasHeader(s)
    {
    }

    /** The frame is open, nothing of its scan there yet. */
    method OpenFrame(h: H.Header, m: Main)
      requires Ok() && jpeg == None
      modifies this
      ensures Ok() && Model() == Open(old(Model()), h, m)
      ensures jpeg == None
    {
      hide HasHeader, Valid;
      ghost var before := Model();
      OpenKeeps(before, h, m);
      Abandon(h.timestamp);
      width, height, kind, restart := m.width, m.height, m.kind % 64, m.restart;
      assert Model() == Open(before, h, m);
    }

    /** Starts over with an empty scan. */
    method Abandon(ts: u32)
      requires Ok() && jpeg == None
      modifies this`dropped, this`inFrame, this`scanLen, this`timestamp
      ensures Ok()
      ensures Model() == old(Model()).(dropped := old(dropped) + (if old(inFrame) && old(scanLen) > 0 then 1 else 0),
                                       inFrame := true, scan := [], timestamp := ts)
    {
      hide HasHeader;
      assert buf[RESERVE..RESERVE + 0] == [];
      if inFrame && scanLen > 0 {
        dropped := dropped + 1;
      }
      inFrame, scanLen, timestamp := true, 0, ts;
    }

    lemma {:induction false} OpenKeeps(s: State, h: H.Header, m: Main)
      requires Valid(s)
      ensures Valid(Open(s, h, m))
    {
    }

    /** Pushes one RTP packet, header included. */
    method Push(packet: bytes) returns (r: Result<Depayload>)
      requires Ok()
      modifies this, buf
      ensures Ok() && Step(Model(), r) == JpegReceiver.Push(old(Model()), packet)
    {
      hide Start, Continue, Append, ReadMain, H.Parse;
      var parsed := H.Parse(packet);
      if parsed.Err? {
        return Err(parsed.error);
      }
      var (h, payload) := parsed.value;
      if h.payloadType != H.PT_JPEG {
        return Err(InvalidFormat);
      }
      jpeg := None;
      var gap := Gap(lastSeq, h.seqNo);
      lost := lost + gap;
      lastSeq := Some(h.seqNo);
      assert Model() == Note(old(Model()), h.seqNo);
      var main := ReadMain(payload);
      if main.Err? {
        return Err(main.error);
      }
      var m := main.value;
      if m.off == 0 {
        r := StartFrame(h, m);
      } else {
        r := ContinueFrame(h, m, gap);
      }
    }

    /** A fragment further on: the next bytes of the frame in progress, or the end of it. */
    method ContinueFrame(h: H.Header, m: Main, gap: nat) returns (r: Result<Depayload>)
      requires Ok() && jpeg == None && m.off != 0
      modifies this, buf
      ensures Ok() && Step(Model(), r) == Continue(old(Model()), h, m, gap)
    {
      if !inFrame {
        return Result.Ok(Fragment);
      }
      if gap != 0 || m.off != scanLen || h.timestamp != timestamp {
        inFrame := false;
        dropped := dropped + 1;
        return Result.Ok(Dropped);
      }
      r := Store(h.marker, m.rest);
    }
  }

  /** A depayloader over `buf`, which must hold the reserve and the end marker at least. */
  method New(buf: array<byte>) returns (r: Result<Depayloader>)
    ensures buf.Length < 1026 ==> r == Err(BufferTooSmall(1026))
    ensures buf.Length >= 1026 ==>
              && r.Ok? && fresh(r.value) && r.value.buf == buf && r.value.Ok() && r.value.Model() == Init(buf.Length)
  {
    if buf.Length < RESERVE + 2 {
      return Err(BufferTooSmall(RESERVE + 2));
    }
    var d := new Depayloader(buf);
    return Ok(d);
  }
}
