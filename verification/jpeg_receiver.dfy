/** The RFC 2435 depayloader as a function from state and packet to state and result. */
module JpegReceiver {
  import opened Bytes
  import opened JpegHeaders
  import H = RtpHeader
  import QuantTables

  /** Bytes kept free in front of the scan for the regenerated headers. */
  const RESERVE := 1024

  datatype Depayload =
    | Fragment
    | Frame(len: nat, timestamp: u32, width: u16, height: u16)
    | Dropped

  /** The depayloader; `cap` is the buffer's length, `scan` its bytes after the reserve,
      `jpeg` the last complete file until the next packet. */
  datatype State = State(cap: nat, scan: bytes, inFrame: bool, timestamp: u32, width: u16, height: u16,
                         kind: byte, restart: Option<u16>, qtables: seq<bytes>, qcount: nat,
                         lastSeq: Option<u16>, jpeg: Option<bytes>, frames: nat, dropped: nat, lost: nat)

  datatype Step = Step(state: State, result: Result<Depayload>)

  function Init(cap: nat): State {
    State(cap, [], false, 0, 0, 0, 0, None, [Zeros(64), Zeros(64)], 0, None, None, 0, 0, 0)
  }

  predicate Valid(s: State) {
    && RESERVE + |s.scan| + 2 <= s.cap
    && |s.qtables| == 2 && |s.qtables[0]| == 64 && |s.qtables[1]| == 64
    && s.qcount <= 2
    && (s.inFrame && s.scan != [] ==> HasHeader(s))
  }

  /** Everything a file header needs is known. */
  predicate HasHeader(s: State) {
    && |s.qtables| == 2 && 1 <= s.qcount <= 2
    && Printable(s.width, s.height, s.kind, s.qtables[..s.qcount])
  }

  /** Packets missing between `last` and `seqNo`; a step of half the range or more is reordering. */
  function Gap(last: Option<u16>, seqNo: u16): nat {
    if last == None then 0
    else
      var gap := (seqNo - last.value - 1) % 0x1_0000;
      if gap >= 0x8000 then 0 else gap
  }

  /** The main and restart headers of a payload; `rest` follows them. */
  datatype Main = Main(off: nat, kind: byte, q: byte, width: u16, height: u16, restart: Option<u16>, rest: bytes)

  function ReadMain(payload: bytes): (r: Result<Main>)
    ensures r.Ok? ==>
              && r.value.kind % 64 <= 1
              && 0 < r.value.width <= 2040 && r.value.width % 8 == 0
              && 0 < r.value.height <= 2040 && r.value.height % 8 == 0
  {
    if |payload| < 8 then Err(InvalidFormat)
    else
      var off := FromBe32(0, payload[1], payload[2], payload[3]);
      var w: u16 := payload[6] as int * 8;
      var h: u16 := payload[7] as int * 8;
      if w == 0 || h == 0 || payload[4] % 64 > 1 then Err(Unsupported)
      else if payload[4] >= 64 then
        if |payload| < 12 then Err(InvalidFormat)
        else Ok(Main(off, payload[4], payload[5], w, h, Some(FromBe16(payload[8], payload[9])), payload[12..]))
      else Ok(Main(off, payload[4], payload[5], w, h, None, payload[8..]))
  }

  /** Quantization tables in force, and the scan bytes after any table header. */
  datatype Quant = Quant(qtables: seq<bytes>, qcount: nat, data: bytes)

  function ReadQuant(m: Main, qtables: seq<bytes>, qcount: nat): (r: Result<Quant>)
    requires |qtables| == 2 && |qtables[0]| == 64 && |qtables[1]| == 64 && qcount <= 2
    ensures r.Ok? ==>
              && |r.value.qtables| == 2 && |r.value.qtables[0]| == 64 && |r.value.qtables[1]| == 64
              && 1 <= r.value.qcount <= 2
  {
    if m.q >= 128 then
      if |m.rest| < 4 then Err(InvalidFormat)
      else
        var len, t := FromBe16(m.rest[2], m.rest[3]), m.rest[4..];
        if len == 0 then
          if qcount == 0 then Err(InvalidFormat) else Ok(Quant(qtables, qcount, t))
        else if len == 64 || len == 128 then
          if m.rest[1] != 0 then Err(Unsupported)
          else if |t| < len then Err(InvalidFormat)
          else if len == 64 then Ok(Quant([t[..64], qtables[1]], 1, t[64..]))
          else Ok(Quant([t[..64], t[64..128]], 2, t[128..]))
        else Err(InvalidFormat)
    else if m.q == 0 then Err(InvalidFormat)
    else Ok(Quant(QuantTables.Defaults(m.q), 2, m.rest))
  }

  /** Appends fragment bytes; the marker completes the frame. */
  function Append(s: State, marker: bool, data: bytes): (r: Step)
    requires Valid(s) && HasHeader(s)
    ensures Valid(r.state) && r.state.cap == s.cap
  {
    var end := RESERVE + |s.scan| + |data|;
    if end + 2 > s.cap then
      Step(s.(inFrame := false, dropped := s.dropped + 1), Err(BufferTooSmall(end + 2)))
    else
      var s1 := s.(scan := s.scan + data);
      if !marker then Step(s1, Ok(Fragment))
      else
        var j := File(s.width, s.height, s.kind, s.restart, s.qtables[..s.qcount], s1.scan);
        Step(s1.(inFrame := false, frames := s.frames + 1, jpeg := Some(j)),
             Ok(Frame(|j|, s.timestamp, s.width, s.height)))
  }

  /** A fragment at offset 0 opens a frame, abandoning one in progress. */
  function Open(s: State, h: H.Header, m: Main): State
  {
    s.(dropped := s.dropped + (if s.inFrame && s.scan != [] then 1 else 0),
       inFrame := true, scan := [], timestamp := h.timestamp, width := m.width, height := m.height,
       kind := m.kind % 64, restart := m.restart)
  }

  function Start(s: State, h: H.Header, m: Main): (r: Step)
    requires Valid(s) && (m.kind % 64) <= 1 && 0 < m.width <= 2040 && 0 < m.height <= 2040
    requires m.width % 8 == 0 && m.height % 8 == 0
    ensures Valid(r.state) && r.state.cap == s.cap
  {
    var o := Open(s, h, m);
    match ReadQuant(m, s.qtables, s.qcount)
    case Err(e) => Step(o, Err(e))
    case Ok(q) => Append(o.(qtables := q.qtables, qcount := q.qcount), h.marker, q.data)
  }

  /** A fragment further on continues the frame in progress, or breaks it. */
  function Continue(s: State, h: H.Header, m: Main, gap: nat): (r: Step)
    requires Valid(s) && m.off != 0
    ensures Valid(r.state) && r.state.cap == s.cap
  {
    if !s.inFrame then Step(s, Ok(Fragment))
    else if gap != 0 || m.off != |s.scan| || h.timestamp != s.timestamp then
      Step(s.(inFrame := false, dropped := s.dropped + 1), Ok(Dropped))
    else Append(s, h.marker, m.rest)
  }

  /** The counters and the sequence memory after a packet of this stream. */
  function Note(s: State, seqNo: u16): State {
    s.(jpeg := None, lost := s.lost + Gap(s.lastSeq, seqNo), lastSeq := Some(seqNo))
  }

  /** One RTP packet, whatever its bytes: the buffer bound and the table sizes are kept. */
  function Push(s: State, packet: bytes): (r: Step)
    requires Valid(s)
    ensures Valid(r.state) && r.state.cap == s.cap
  {
    match H.Parse(packet)
    case Err(e) => Step(s, Err(e))
    case Ok((h, payload)) =>
      if h.payloadType != H.PT_JPEG then Step(s, Err(InvalidFormat))
      else
        var s1 := Note(s, h.seqNo);
        match ReadMain(payload)
        case Err(e) => Step(s1, Err(e))
        case Ok(m) =>
          if m.off == 0 then Start(s1, h, m) else Continue(s1, h, m, Gap(s.lastSeq, h.seqNo))
  }

  // ----- runs

  /** A frame the caller is handed: the file in the buffer and what the result says about it. */
  datatype Delivery = Delivery(jpeg: bytes, timestamp: u32, width: u16, height: u16)

  function Out(r: Step): seq<Delivery> {
    if r.result.Ok? && r.result.value.Frame? && r.state.jpeg.Some?
    then [Delivery(r.state.jpeg.value, r.result.value.timestamp, r.result.value.width, r.result.value.height)]
    else []
  }

  /** What every packet of a run is answered. */
  function Answers(s: State, packets: seq<bytes>): seq<Result<Depayload>>
    requires Valid(s)
    decreases |packets|
  {
    if packets == [] then [] else [Push(s, packets[0]).result] + Answers(Push(s, packets[0]).state, packets[1..])
  }

  function Run(s: State, packets: seq<bytes>): (r: State)
    requires Valid(s)
    ensures Valid(r) && r.cap == s.cap
    decreases |packets|
  {
    if packets == [] then s
    else Run(Push(s, packets[0]).state, packets[1..])
  }

  /** Every frame delivered over a run, in order. */
  function Delivered(s: State, packets: seq<bytes>): seq<Delivery>
    requires Valid(s)
    decreases |packets|
  {
    if packets == [] then []
    else Out(Push(s, packets[0])) + Delivered(Push(s, packets[0]).state, packets[1..])
  }
}
