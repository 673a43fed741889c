/** Raw datagrams: what a packet is split into, and the reassembler as a function of state and datagram. */
module Udp {
  import opened Bytes
  import opened Media

  const HEADER_LEN := 28

  /** `JNS1` */
  const MAGIC: bytes := [0x4A, 0x4E, 0x53, 0x31]

  datatype Header = Header(seqNo: u32, timestamp: u64, total: u32, offset: u32, codec: byte, key: bool)

  /** The tag a codec travels under. */
  function Tag(c: Codec): byte {
    match c
    case Jpeg => 1
    case H264 => 2
    case Pcm => 3
  }

  function CodecOf(h: Header): Option<Codec> {
    if h.codec == 1 then Some(Jpeg) else if h.codec == 2 then Some(H264) else if h.codec == 3 then Some(Pcm) else None
  }

  /** The fields of the header, in order. */
  function Fields(h: Header): seq<bytes> {
    [MAGIC, Be32(h.seqNo), Be64(h.timestamp), Be32(h.total), Be32(h.offset), [h.codec, if h.key then 1 else 0, 0, 0]]
  }

  function Encode(h: Header): (r: bytes)
    ensures |r| == HEADER_LEN
  {
    EncodeIs(h);
    Concat(Fields(h))
  }

  lemma {:induction false} EncodeIs(h: Header)
    ensures Concat(Fields(h)) ==
            MAGIC + Be32(h.seqNo) + Be64(h.timestamp) + Be32(h.total) + Be32(h.offset) +
            [h.codec, if h.key then 1 else 0, 0, 0]
  {
    hide Be32, Be64, Concat;
    var f := Fields(h);
    ConcatCons(f[0], f[1..]);
    ConcatCons(f[1], f[2..]);
    ConcatCons(f[2], f[3..]);
    ConcatCons(f[3], f[4..]);
    ConcatCons(f[4], f[5..]);
    ConcatCons(f[5], f[6..]);
    assert f == [f[0]] + f[1..] && f[1..] == [f[1]] + f[2..] && f[2..] == [f[2]] + f[3..];
    assert f[3..] == [f[3]] + f[4..] && f[4..] == [f[4]] + f[5..] && f[5..] == [f[5]] + f[6..] && f[6..] == [];
  }

  function U32At(d: bytes, i: nat): u32
    requires i + 4 <= |d|
  {
    FromBe32(d[i], d[i + 1], d[i + 2], d[i + 3])
  }

  function Parse(d: bytes): (r: Result<Header>)
    ensures r.Ok? ==> |d| >= HEADER_LEN
  {
    if |d| < HEADER_LEN || d[0..4] != MAGIC then Err(InvalidFormat)
    else
      Ok(Header(U32At(d, 4), U32At(d, 8) * 0x1_0000_0000 + U32At(d, 12), U32At(d, 16), U32At(d, 20),
                d[24], d[25] % 2 == 1))
  }

  lemma {:induction false} U32Read(d: bytes, i: nat, v: u32)
    requires i + 4 <= |d| && d[i..i + 4] == Be32(v)
    ensures U32At(d, i) == v
  {
    hide Be32, FromBe32;
    var w := d[i..i + 4];
    assert w[0] == d[i] && w[1] == d[i + 1] && w[2] == d[i + 2] && w[3] == d[i + 3];
    Be32RoundTrip(v);
  }

  /** Every header comes back, whatever follows it. */
  lemma {:induction false} ParseEncode(h: Header, payload: bytes)
    ensures Parse(Encode(h) + payload) == Ok(h)
  {
    hide Be32, U32At, Concat;
    EncodeIs(h);
    var d, hi, lo := Encode(h) + payload, h.timestamp / 0x1_0000_0000, h.timestamp % 0x1_0000_0000;
    assert Be64(h.timestamp) == Be32(hi) + Be32(lo);
    assert d[0..4] == MAGIC && d[4..8] == Be32(h.seqNo) && d[8..12] == Be32(hi) && d[12..16] == Be32(lo);
    assert d[16..20] == Be32(h.total) && d[20..24] == Be32(h.offset);
    U32Read(d, 4, h.seqNo);
    U32Read(d, 8, hi);
    U32Read(d, 12, lo);
    U32Read(d, 16, h.total);
    U32Read(d, 20, h.offset);
  }

  // ----- what a packet is split into

  /** A packet the framer takes: its length fits the 32-bit field. */
  predicate Frameable(p: MediaPacket) {
    |p.data| < 0x1_0000_0000
  }

  /** Where the fragment at `off` ends; `room` payload bytes fit a datagram. */
  function EndOf(p: MediaPacket, room: nat, off: nat): (r: nat)
    requires off <= |p.data|
    ensures off <= r <= |p.data|
  {
    Min(|p.data|, off + room)
  }

  function HeaderOf(p: MediaPacket, seqNo: u32, off: nat): Header
    requires Frameable(p) && off <= |p.data|
  {
    Header(seqNo, p.timestamp, |p.data|, off, Tag(p.codec), p.key)
  }

  function Datagram(p: MediaPacket, seqNo: u32, room: nat, off: nat): bytes
    requires Frameable(p) && off <= |p.data|
  {
    Encode(HeaderOf(p, seqNo, off)) + p.data[off..EndOf(p, room, off)]
  }

  /** The datagrams from `off` on: at least one, even of an empty packet. */
  function Datagrams(p: MediaPacket, seqNo: u32, room: nat, off: nat): (r: seq<bytes>)
    requires Frameable(p) && off <= |p.data| && room > 0
    ensures r != []
    decreases |p.data| - off
  {
    var to := EndOf(p, room, off);
    [Datagram(p, seqNo, room, off)] + if to >= |p.data| then [] else Datagrams(p, seqNo, room, to)
  }

  /** A big-endian number of four bytes. */
  function NumberAt(d: bytes, i: nat): nat
    requires i + 4 <= |d|
  {
    d[i] as int * 0x100_0000 + d[i + 1] as int * 0x1_0000 + d[i + 2] as int * 0x100 + d[i + 3]
  }

  lemma {:induction false} NumberIs(d: bytes, i: nat, v: u32)
    requires i + 4 <= |d| && d[i..i + 4] == Be32(v)
    ensures NumberAt(d, i) == v
  {
    hide Be32;
    var w := d[i..i + 4];
    assert w[0] == d[i] && w[1] == d[i + 1] && w[2] == d[i + 2] && w[3] == d[i + 3];
    Be32RoundTrip(v);
  }

  lemma {:induction false} FourBytes(d: bytes, i: nat, w: bytes)
    requires i + 4 <= |d| && |w| == 4 && d[i..i + 4] == w
    ensures d[i] == w[0] && d[i + 1] == w[1] && d[i + 2] == w[2] && d[i + 3] == w[3]
  {
    assert d[i..i + 4][0] == d[i] && d[i..i + 4][1] == d[i + 1] && d[i..i + 4][2] == d[i + 2] && d[i..i + 4][3] == d[i + 3];
  }

  /** A datagram byte by byte: `JNS1`, the packet's number, time, length, the fragment's offset, the codec, the key flag,
      two zeros, and as much of the packet from there as fits. */
  lemma {:induction false} DatagramLayout(p: MediaPacket, seqNo: u32, room: nat, off: nat)
    requires Frameable(p) && off <= |p.data| && room > 0
    ensures var d := Datagram(p, seqNo, room, off);
            && |d| == 28 + Min(room, |p.data| - off)
            && d[0] == 0x4A && d[1] == 0x4E && d[2] == 0x53 && d[3] == 0x31
            && NumberAt(d, 4) == seqNo
            && NumberAt(d, 8) * 0x1_0000_0000 + NumberAt(d, 12) == p.timestamp
            && NumberAt(d, 16) == |p.data| && NumberAt(d, 20) == off
            && d[24] as int == (match p.codec case Jpeg => 1 case H264 => 2 case Pcm => 3)
            && d[25] as int == (if p.key then 1 else 0) && d[26] == 0 && d[27] == 0
            && d[28..] == p.data[off..off + Min(room, |p.data| - off)]
  {
    hide Be32, Concat, NumberAt;
    var h := HeaderOf(p, seqNo, off);
    EncodeIs(h);
    var d, hi, lo := Datagram(p, seqNo, room, off), h.timestamp / 0x1_0000_0000, h.timestamp % 0x1_0000_0000;
    assert Be64(h.timestamp) == Be32(hi) + Be32(lo);
    assert d[4..8] == Be32(seqNo) && d[8..12] == Be32(hi) && d[12..16] == Be32(lo);
    assert d[16..20] == Be32(h.total) && d[20..24] == Be32(off);
    FourBytes(d, 0, MAGIC);
    FourBytes(d, 24, [h.codec, if h.key then 1 else 0, 0, 0]);
    NumberIs(d, 4, seqNo);
    NumberIs(d, 8, hi);
    NumberIs(d, 12, lo);
    NumberIs(d, 16, h.total);
    NumberIs(d, 20, off);
  }

  // ----- the reassembler

  datatype Reassembly = Partial | Complete(header: Header) | Gap(lostSeq: u32)

  datatype State = State(buf: bytes, current: Option<Header>, received: nat, complete: nat, lost: nat)

  datatype Step = Step(state: State, result: Result<Reassembly>)

  function Init(buf: bytes): State {
    State(buf, None, 0, 0, 0)
  }

  /** A fragment opens a packet, displacing another one in progress, or continues the one it belongs to. */
  function Open(s: State, h: Header): State {
    if s.current.Some? && s.current.value.seqNo == h.seqNo then s
    else s.(lost := s.lost + (if s.current.Some? then 1 else 0), current := Some(h), received := 0)
  }

  function Push(s: State, d: bytes): (r: Step)
    ensures |r.state.buf| == |s.buf|
  {
    match Parse(d)
    case Err(e) => Step(s, Err(e))
    case Ok(h) =>
      var payload := d[HEADER_LEN..];
      var end := h.offset as int + |payload|;
      if h.total > |s.buf| then Step(s, Err(BufferTooSmall(h.total)))
      else if end > h.total then Step(s, Err(InvalidFormat))
      else
        var displaced := s.current.Some? && s.current.value.seqNo != h.seqNo;
        var o := Open(s, h);
        var n := o.(buf := o.buf[..h.offset] + payload + o.buf[end..], received := o.received + |payload|);
        if n.received >= h.total then
          Step(n.(current := None, complete := n.complete + 1), Ok(Complete(h)))
        else Step(n, Ok(if displaced then Gap(s.current.value.seqNo) else Partial))
  }

  lemma {:induction false} ParseReads(d: bytes)
    ensures Parse(d).Ok? <==> |d| >= 28 && d[..4] == [0x4A, 0x4E, 0x53, 0x31]
    ensures Parse(d).Err? ==> Parse(d).error == InvalidFormat
    ensures Parse(d).Ok? ==> Parse(d).value.total == NumberAt(d, 16) && Parse(d).value.offset == NumberAt(d, 20)
  {
    hide U32At, NumberAt;
    assert |d| >= 4 ==> d[0..4] == d[..4];
    if |d| >= HEADER_LEN {
      U32IsNumber(d, 16);
      U32IsNumber(d, 20);
    }
  }

  lemma {:induction false} U32IsNumber(d: bytes, i: nat)
    requires i + 4 <= |d|
    ensures U32At(d, i) == NumberAt(d, i)
  {
  }

  /** Its length and offset do not agree with its payload. */
  predicate Overruns(d: bytes)
    requires |d| >= 28
  {
    NumberAt(d, 20) + |d| - 28 > NumberAt(d, 16)
  }

  /** Exactly these datagrams are refused, whatever is in progress, and they change nothing: too short or without the
      magic; for a packet larger than the buffer; and past that packet's end. */
  lemma {:induction false} RefusedExactly(s: State, d: bytes)
    ensures var r := Push(s, d);
            if |d| < 28 || d[..4] != [0x4A, 0x4E, 0x53, 0x31] then r == Step(s, Err(InvalidFormat))
            else if NumberAt(d, 16) > |s.buf| then r == Step(s, Err(BufferTooSmall(NumberAt(d, 16))))
            else if Overruns(d) then r == Step(s, Err(InvalidFormat))
            else r.result.Ok?
  {
    hide Parse, NumberAt, Open;
    ParseReads(d);
  }

  /** The bytes of the packet just completed. */
  function PacketBytes(s: State, h: Header): bytes
    requires h.total <= |s.buf|
  {
    s.buf[..h.total]
  }

  /** A packet the caller takes on `Complete`. */
  datatype Delivery = Delivery(seqNo: u32, timestamp: u64, codec: Option<Codec>, key: bool, data: bytes)

  function Out(r: Step): seq<Delivery> {
    if r.result.Ok? && r.result.value.Complete? && r.result.value.header.total <= |r.state.buf| then
      var h := r.result.value.header;
      [Delivery(h.seqNo, h.timestamp, CodecOf(h), h.key, PacketBytes(r.state, h))]
    else []
  }

  function Run(s: State, ds: seq<bytes>): State
    decreases |ds|
  {
    if ds == [] then s else Run(Push(s, ds[0]).state, ds[1..])
  }

  /** Every packet completed over a run, in order. */
  function Delivered(s: State, ds: seq<bytes>): seq<Delivery>
    decreases |ds|
  {
    if ds == [] then [] else Out(Push(s, ds[0])) + Delivered(Push(s, ds[0]).state, ds[1..])
  }
}
