/** The fixed RTP header (section 5.1 of RFC 3550): its writer and its parser. */
module RtpHeader {
  import opened Bytes

  const HEADER_LEN := 12
  const PT_JPEG: byte := 26

  datatype Header = Header(marker: bool, payloadType: byte, seqNo: u16, timestamp: u32, ssrc: u32)

  /** The fields of the header, in order. */
  function Fields(h: Header): seq<bytes>
    requires h.payloadType < 128
  {
    [[0x80, h.payloadType + if h.marker then 0x80 else 0], Be16(h.seqNo), Be32(h.timestamp), Be32(h.ssrc)]
  }

  /** The twelve bytes the writer produces. */
  function Encode(h: Header): (r: bytes)
    requires h.payloadType < 128
    ensures |r| == HEADER_LEN
  {
    EncodeIs(h);
    Concat(Fields(h))
  }

  lemma {:induction false} EncodeIs(h: Header)
    requires h.payloadType < 128
    ensures Concat(Fields(h)) ==
            [0x80, h.payloadType + if h.marker then 0x80 else 0] + Be16(h.seqNo) + Be32(h.timestamp) + Be32(h.ssrc)
  {
    hide Be16, Be32, Concat;
    var f := Fields(h);
    ConcatCons(f[0], f[1..]);
    ConcatCons(f[1], f[2..]);
    ConcatCons(f[2], f[3..]);
    ConcatCons(f[3], f[4..]);
    assert f == [f[0]] + f[1..] && f[1..] == [f[1]] + f[2..];
    assert f[2..] == [f[2]] + f[3..] && f[3..] == [f[3]] + f[4..] && f[4..] == [];
  }

  lemma {:induction false} EncodeBytes(h: Header)
    requires h.payloadType < 128
    ensures Encode(h) ==
            [0x80, h.payloadType + if h.marker then 0x80 else 0, h.seqNo / 256, h.seqNo % 256,
             h.timestamp / 0x100_0000, h.timestamp / 0x1_0000 % 256, h.timestamp / 256 % 256, h.timestamp % 256,
             h.ssrc / 0x100_0000, h.ssrc / 0x1_0000 % 256, h.ssrc / 256 % 256, h.ssrc % 256]
  {
    hide Concat, Fields;
    EncodeIs(h);
  }

  /** The twelve bytes of section 5.1 of RFC 3550: version 2 and nothing else, marker and type, and three numbers, most
      significant byte first. */
  lemma {:induction false} HeaderLayout(h: Header, payload: bytes)
    requires h.payloadType < 128
    ensures var p := Encode(h) + payload;
            && p[12..] == payload && p[0] == 0x80
            && p[1] as int == h.payloadType as int + (if h.marker then 128 else 0)
            && p[2] as int * 0x100 + p[3] == h.seqNo
            && p[4] as int * 0x100_0000 + p[5] as int * 0x1_0000 + p[6] as int * 0x100 + p[7] == h.timestamp
            && p[8] as int * 0x100_0000 + p[9] as int * 0x1_0000 + p[10] as int * 0x100 + p[11] == h.ssrc
  {
    hide Encode;
    EncodeBytes(h);
    Be32RoundTrip(h.timestamp);
    Be32RoundTrip(h.ssrc);
  }

  /** Where the payload starts: CSRC entries and one extension are stepped over. */
  function PayloadOffset(packet: bytes): Result<nat>
    requires |packet| >= HEADER_LEN
  {
    var off := HEADER_LEN + 4 * (packet[0] % 16);
    if packet[0] / 16 % 2 == 1 then
      if off + 4 > |packet| then Err(InvalidFormat)
      else Ok(off + 4 + 4 * FromBe16(packet[off + 2], packet[off + 3]))
    else Ok(off)
  }

  function Parse(packet: bytes): Result<(Header, bytes)> {
    if |packet| < HEADER_LEN || packet[0] / 64 != 2 then Err(InvalidFormat)
    else
      var off :- PayloadOffset(packet);
      if |packet| < off then Err(InvalidFormat)
      else
        Ok((Header(packet[1] / 128 == 1, packet[1] % 128, FromBe16(packet[2], packet[3]),
                   FromBe32(packet[4], packet[5], packet[6], packet[7]),
                   FromBe32(packet[8], packet[9], packet[10], packet[11])),
            packet[off..]))
  }

  /** The parser undoes the writer, whatever follows the header. */
  lemma {:induction false} ParseEncode(h: Header, payload: bytes)
    requires h.payloadType < 128
    ensures Parse(Encode(h) + payload) == Ok((h, payload))
  {
    hide Be16, Be32, FromBe16, FromBe32, Concat;
    EncodeIs(h);
    var p, t, id := Encode(h) + payload, Be32(h.timestamp), Be32(h.ssrc);
    assert p[HEADER_LEN..] == payload;
    assert p[2] == Be16(h.seqNo)[0] && p[3] == Be16(h.seqNo)[1];
    assert p[4] == t[0] && p[5] == t[1] && p[6] == t[2] && p[7] == t[3];
    assert p[8] == id[0] && p[9] == id[1] && p[10] == id[2] && p[11] == id[3];
    Be16RoundTrip(h.seqNo);
    Be32RoundTrip(h.timestamp);
    Be32RoundTrip(h.ssrc);
  }

  // ----- contributing sources and a header extension

  /** A list of 32-bit words. */
  function Words(ws: seq<u32>): (r: bytes)
    ensures |r| == 4 * |ws|
  {
    if ws == [] then [] else Be32(ws[0]) + Words(ws[1..])
  }

  /** A header extension: what its profile defines, and its words. */
  datatype Extension = Extension(profile: u16, words: seq<u32>)

  function ExtensionBytes(x: Option<Extension>): bytes
    requires x.Some? ==> |x.value.words| <= 0xFFFF
  {
    if x == None then [] else Be16(x.value.profile) + Be16(|x.value.words|) + Words(x.value.words)
  }

  function FirstByte(padding: bool, extended: bool, sources: nat): byte
    requires sources <= 15
  {
    0x80 + (if padding then 0x20 else 0) + (if extended then 0x10 else 0) + sources
  }

  lemma {:induction false} FirstBits(padding: bool, extended: bool, sources: nat)
    requires sources <= 15
    ensures var b := FirstByte(padding, extended, sources);
            b / 64 == 2 && b % 16 == sources && (b / 16 % 2 == 1 <==> extended)
  {
  }

  /** A header as section 5.1 of RFC 3550 lays it out in full: version 2, the padding bit, the extension bit and the
      count of contributing sources in the first byte, the sources behind the fixed part and the extension behind them. */
  function FullHeader(h: Header, padding: bool, sources: seq<u32>, x: Option<Extension>): bytes
    requires h.payloadType < 128 && |sources| <= 15 && (x.Some? ==> |x.value.words| <= 0xFFFF)
  {
    [FirstByte(padding, x.Some?, |sources|)] + Encode(h)[1..] + Words(sources) + ExtensionBytes(x)
  }

  /** Sources and extension are stepped over: the payload is what follows them. */
  lemma {:induction false} ParseFull(h: Header, padding: bool, sources: seq<u32>, x: Option<Extension>, payload: bytes)
    requires h.payloadType < 128 && |sources| <= 15 && (x.Some? ==> |x.value.words| <= 0xFFFF)
    ensures Parse(FullHeader(h, padding, sources, x) + payload) == Ok((h, payload))
  {
    hide Be16, Be32, FromBe16, FromBe32, Words, Encode, PayloadOffset;
    var head := FullHeader(h, padding, sources, x);
    var p := head + payload;
    FullOffset(h, padding, sources, x, payload);
    assert p[|head|..] == payload;
    ParseEncode(h, []);
    var e := Encode(h);
    EncodeBytes(h);
    assert e + [] == e && e[HEADER_LEN..] == [];
    assert forall k :: 1 <= k < HEADER_LEN ==> p[k] == e[k];
    FixedFields(e);
  }

  lemma {:induction false} FixedFields(e: bytes)
    requires |e| == HEADER_LEN && e[0] == 0x80 && Parse(e).Ok?
    ensures Parse(e).value.0 ==
            Header(e[1] / 128 == 1, e[1] % 128, FromBe16(e[2], e[3]), FromBe32(e[4], e[5], e[6], e[7]),
                   FromBe32(e[8], e[9], e[10], e[11]))
  {
    hide FromBe16, FromBe32;
  }

  lemma {:induction false} FullOffset(h: Header, padding: bool, sources: seq<u32>, x: Option<Extension>, tail: bytes)
    requires h.payloadType < 128 && |sources| <= 15 && (x.Some? ==> |x.value.words| <= 0xFFFF)
    ensures var head := FullHeader(h, padding, sources, x);
            && |head + tail| >= HEADER_LEN && (head + tail)[0] / 64 == 2
            && PayloadOffset(head + tail) == Ok(|head|)
  {
    hide Be32, Words, Encode, FirstByte, ExtensionBytes, FromBe16;
    FirstBits(padding, x.Some?, |sources|);
    var head, ext := FullHeader(h, padding, sources, x), ExtensionBytes(x);
    var p, at := head + tail, HEADER_LEN + 4 * |sources|;
    ExtensionIs(x);
    assert p[0] == FirstByte(padding, x.Some?, |sources|) && |head| == at + |ext|;
    if x.Some? {
      assert p[at + 2] == ext[2] && p[at + 3] == ext[3];
    }
  }

  lemma {:induction false} ExtensionIs(x: Option<Extension>)
    requires x.Some? ==> |x.value.words| <= 0xFFFF
    ensures var ext := ExtensionBytes(x);
            if x.Some? then |ext| == 4 + 4 * |x.value.words| && FromBe16(ext[2], ext[3]) == |x.value.words| else ext == []
  {
    hide Words;
    if x.Some? {
      Be16RoundTrip(|x.value.words|);
    }
  }

  /** A packet that ends inside its header is refused. */
  lemma {:induction false} ParseShort(h: Header, padding: bool, sources: seq<u32>, x: Option<Extension>, n: nat)
    requires h.payloadType < 128 && |sources| <= 15 && (x.Some? ==> |x.value.words| <= 0xFFFF)
    requires n < |FullHeader(h, padding, sources, x)|
    ensures Parse(FullHeader(h, padding, sources, x)[..n]) == Err(InvalidFormat)
  {
    hide Be32, Words, Encode, FromBe32, FromBe16, FirstByte, ExtensionBytes;
    FirstBits(padding, x.Some?, |sources|);
    ExtensionIs(x);
    var head := FullHeader(h, padding, sources, x);
    var p, at := head[..n], HEADER_LEN + 4 * |sources|;
    if n >= HEADER_LEN {
      FullOffset(h, padding, sources, x, []);
      assert head + [] == head && p[0] == head[0];
      if x.Some? && n >= at + 4 {
        assert p[at + 2] == head[at + 2] && p[at + 3] == head[at + 3];
      }
    }
  }

  // ----- timestamps

  /** `ts` is the capture time in ticks of the clock, cut off to a whole number of them and to 32 bits. */
  ghost predicate Stamped(ts: u32, micros: u64, clockHz: u32) {
    exists ticks: nat :: ticks * 1_000_000 <= micros * clockHz < (ticks + 1) * 1_000_000 && ts == ticks % 0x1_0000_0000
  }

  /** Captures whole seconds apart are stamped that many clock rates apart. */
  lemma {:induction false} SecondsApart(a: u32, b: u32, micros: u64, seconds: nat)
    requires micros + seconds * 1_000_000 <= U64_MAX
    requires Stamped(a, micros, 90_000) && Stamped(b, micros + seconds * 1_000_000, 90_000)
    ensures b == (a + seconds * 90_000) % 0x1_0000_0000
  {
    var m: nat :| m * 1_000_000 <= micros * 90_000 < (m + 1) * 1_000_000 && a == m % 0x1_0000_0000;
    var n: nat :| n * 1_000_000 <= (micros + seconds * 1_000_000) * 90_000 < (n + 1) * 1_000_000 && b == n % 0x1_0000_0000;
    assert n == m + seconds * 90_000;
    RemainderAdds(m, seconds * 90_000);
  }

  lemma {:induction false} RemainderAdds(m: nat, k: nat)
    ensures (m + k) % 0x1_0000_0000 == (m % 0x1_0000_0000 + k) % 0x1_0000_0000
  {
  }

  /** What the header parser reads from the packets of one call: one timestamp, the capture time's, consecutive sequence
      numbers, and the marker on the last of them. */
  ghost predicate OneCall(sent: seq<bytes>, payloadType: byte, ssrc: u32, firstSeq: u16, micros: u64, clockHz: u32) {
    forall k :: 0 <= k < |sent| ==>
      && Parse(sent[k]).Ok?
      && var h := Parse(sent[k]).value.0;
         && h.payloadType == payloadType && h.ssrc == ssrc && h.seqNo == (firstSeq + k) % 0x1_0000
         && (h.marker <==> k == |sent| - 1) && Stamped(h.timestamp, micros, clockHz)
  }

  /** Identity and running sequence number of one stream. */
  class Rtp {
    const ssrc: u32
    const payloadType: byte
    const clockHz: u32
    var seqNo: u16

    constructor (ssrc: u32, payloadType: byte, clockHz: u32, firstSeq: u16)
      ensures this.ssrc == ssrc && this.payloadType == payloadType % 128
      ensures this.clockHz == clockHz && seqNo == firstSeq
    {
      this.ssrc, this.payloadType, this.clockHz, seqNo := ssrc, payloadType % 128, clockHz, firstSeq;
    }

    /** Micros to stream clock, wrapping at 32 bits. */
    function Timestamp(micros: u64): (ts: u32)
      ensures Stamped(ts, micros, clockHz)
    {
      var ticks := micros * clockHz / 1_000_000;
      assert ticks * 1_000_000 <= micros * clockHz < (ticks + 1) * 1_000_000;
      ticks % 0x1_0000_0000
    }

    /** Writes the header of the next packet into `out[..12]` and advances the sequence. */
    method WriteHeader(out: array<byte>, marker: bool, timestamp: u32) returns (r: Result<()>)
      requires payloadType < 128
      modifies this`seqNo, out
      ensures out.Length < HEADER_LEN ==>
                r == Err(BufferTooSmall(HEADER_LEN)) && seqNo == old(seqNo) && out[..] == old(out[..])
      ensures out.Length >= HEADER_LEN ==>
                && r == Ok(())
                && seqNo == (old(seqNo) + 1) % 0x1_0000
                && out[..] == Encode(Header(marker, payloadType, old(seqNo), timestamp, ssrc)) + old(out[HEADER_LEN..])
    {
      if out.Length < HEADER_LEN {
        return Err(BufferTooSmall(HEADER_LEN));
      }
      hide Encode;
      ghost var was := out[..];
      EncodeBytes(Header(marker, payloadType, seqNo, timestamp, ssrc));
      out[0] := 0x80;
      out[1] := payloadType + if marker then 0x80 else 0;
      out[2], out[3] := seqNo / 256, seqNo % 256;
      out[4], out[5], out[6], out[7] :=
        timestamp / 0x100_0000, timestamp / 0x1_0000 % 256, timestamp / 256 % 256, timestamp % 256;
      out[8], out[9], out[10], out[11] :=
        ssrc / 0x100_0000, ssrc / 0x1_0000 % 256, ssrc / 256 % 256, ssrc % 256;
      assert out[HEADER_LEN..] == was[HEADER_LEN..];
      assert out[..HEADER_LEN] == Encode(Header(marker, payloadType, seqNo, timestamp, ssrc));
      assert out[..] == out[..HEADER_LEN] + out[HEADER_LEN..];
      seqNo := (seqNo + 1) % 0x1_0000;
      return Ok(());
    }
  }
}
