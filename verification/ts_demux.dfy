/** The transport stream demuxer. */
module TsDemux {
  import opened Bytes
  import opened TsMux

  datatype Fault = BadLength | BadSync | UnexpectedPid | BadPes | Abort

  /** What a transport stream said about itself; `ccErrors` per PID: PAT, PMT, video. */
  datatype Report = Report(accessUnits: seq<bytes>, pts: seq<nat>, streamType: Option<byte>, pcr: seq<nat>,
                           ccErrors: seq<nat>, packets: nat)

  /** The report so far, the next counter due on each PID, and the access unit being gathered. */
  datatype Demux = Demux(report: Report, due: seq<Option<counter>>, current: Option<(bytes, nat)>)

  const START := Demux(Report([], [], None, [], [0, 0, 0], 0), [None, None, None], None)

  datatype Outcome<+T> = Done(value: T) | Failed(fault: Fault) {
    predicate IsFailure() {
      Failed?
    }

    function PropagateFailure<U>(): Outcome<U>
      requires Failed?
    {
      Failed(fault)
    }

    function Extract(): T
      requires Done?
    {
      value
    }
  }

  ghost predicate Valid(d: Demux) {
    |d.due| == 3 && |d.report.ccErrors| == 3
  }

  /** Counts the packet and checks its continuity counter. */
  function Track(d: Demux, idx: nat, cc: counter): (r: Demux)
    requires Valid(d) && idx < 3
    ensures Valid(r)
  {
    var bad := d.due[idx].Some? && d.due[idx].value != cc;
    var errors := if bad then d.report.ccErrors[idx := d.report.ccErrors[idx] + 1] else d.report.ccErrors;
    d.(report := d.report.(packets := d.report.packets + 1, ccErrors := errors), due := d.due[idx := Some(Bump(cc))])
  }

  function ReadPcr(pkt: bytes): nat
    requires |pkt| == PACKET_LEN
  {
    pkt[6] as int * 0x200_0000 + pkt[7] as int * 0x2_0000 + pkt[8] as int * 0x200 + pkt[9] as int * 2 + pkt[10] / 128
  }

  function ReadPts(payload: bytes): nat
    requires |payload| >= 14
  {
    payload[9] as int % 16 / 2 * 2 * 0x2000_0000 + payload[10] as int * 0x40_0000 +
    payload[11] as int / 2 * 2 * 0x4000 + payload[12] as int * 0x80 + payload[13] / 2
  }

  /** The adaptation field: its PCR, if any, and where the payload starts. */
  function ReadField(d: Demux, pkt: bytes): (Demux, nat)
    requires |pkt| == PACKET_LEN
  {
    if pkt[3] / 32 % 2 == 0 then (d, 4)
    else
      var l: nat := pkt[4];
      var d' := if l >= 7 && pkt[5] / 16 % 2 == 1 then d.(report := d.report.(pcr := d.report.pcr + [ReadPcr(pkt)])) else d;
      (d', 5 + l)
  }

  /** The stream type a PMT section gives the video PID. */
  function ReadPmt(d: Demux, payload: bytes): Outcome<Demux> {
    if |payload| == 0 || 1 + payload[0] as int > |payload| then Failed(Abort)
    else
      var sec := payload[1 + payload[0] as int..];
      if |sec| < 12 then Failed(Abort)
      else
        var pil := FromBe16(sec[10] % 16, sec[11]);
        if |sec| < 12 + pil + 3 then Failed(Abort)
        else
          var es := sec[12 + pil..];
          if FromBe16(es[1] % 32, es[2]) == PID_VIDEO
          then Done(d.(report := d.report.(streamType := Some(es[0]))))
          else Done(d)
  }

  /** The access unit in progress is complete. */
  function Close(d: Demux): Demux {
    match d.current
    case None => d
    case Some((au, pts)) =>
      d.(report := d.report.(accessUnits := d.report.accessUnits + [au], pts := d.report.pts + [pts]), current := None)
  }

  function ReadVideo(d: Demux, payload: bytes, unitStart: bool): Outcome<Demux> {
    if unitStart then
      var c := Close(d);
      if |payload| < 9 || payload[..4] != [0, 0, 1, 0xE0] then Failed(BadPes)
      else
        var hasPts := payload[7] >= 128;
        if (hasPts && |payload| < 14) || |payload| < 9 + payload[8] as int then Failed(Abort)
        else Done(c.(current := Some((payload[9 + payload[8] as int..], if hasPts then ReadPts(payload) else 0))))
    else
      match d.current
      case None => Done(d)
      case Some((au, pts)) => Done(d.(current := Some((au + payload, pts))))
  }

  function PidIndex(pid: u16): Option<nat> {
    if pid == PID_PAT then Some(0) else if pid == PID_PMT then Some(1) else if pid == PID_VIDEO then Some(2) else None
  }

  /** One transport packet. */
  function Packet(d: Demux, pkt: bytes): (r: Outcome<Demux>)
    requires Valid(d) && |pkt| == PACKET_LEN
    ensures r.Done? ==> Valid(r.value)
  {
    if pkt[0] != SYNC then Failed(BadSync)
    else
      var unitStart, pid := pkt[1] / 64 % 2 == 1, FromBe16(pkt[1] % 32, pkt[2]);
      var idx := PidIndex(pid);
      if idx == None then Failed(UnexpectedPid)
      else
        var (d', p) := ReadField(Track(d, idx.value, pkt[3] % 16), pkt);
        if pkt[3] / 16 % 2 == 0 then Done(d')
        else if p > PACKET_LEN then Failed(Abort)
        else if pid == PID_PMT && unitStart then ReadPmt(d', pkt[p..])
        else if pid == PID_VIDEO then ReadVideo(d', pkt[p..], unitStart)
        else Done(d')
  }

  function Packets(d: Demux, pkts: seq<bytes>): (r: Outcome<Demux>)
    requires Valid(d) && AllPackets(pkts)
    ensures r.Done? ==> Valid(r.value)
    decreases |pkts|
  {
    if pkts == [] then Done(d)
    else
      var d' :- Packet(d, pkts[0]);
      Packets(d', pkts[1..])
  }

  /** The stream in packets. */
  function Chunks(ts: bytes): (r: seq<bytes>)
    requires |ts| % PACKET_LEN == 0
    ensures AllPackets(r)
    decreases |ts|
  {
    if ts == [] then [] else [ts[..PACKET_LEN]] + Chunks(ts[PACKET_LEN..])
  }

  function Parse(ts: bytes): Outcome<Report> {
    if |ts| % PACKET_LEN != 0 then Failed(BadLength)
    else
      var d :- Packets(START, Chunks(ts));
      Done(Close(d).report)
  }

  lemma {:induction false} ChunksStep(rest: bytes, d: Demux)
    requires rest != [] && |rest| % PACKET_LEN == 0 && Valid(d)
    ensures PACKET_LEN <= |rest| && |rest[PACKET_LEN..]| % PACKET_LEN == 0
    ensures Packets(d, Chunks(rest)) ==
            match Packet(d, rest[..PACKET_LEN])
            case Done(d') => Packets(d', Chunks(rest[PACKET_LEN..]))
            case Failed(f) => Failed(f)
  {
    hide Packet;
    var pkt, more := rest[..PACKET_LEN], Chunks(rest[PACKET_LEN..]);
    assert ([pkt] + more)[1..] == more;
  }

  lemma {:induction false} ChunksEnd(d: Demux)
    requires Valid(d)
    ensures Packets(d, Chunks([])) == Done(d)
  {
  }

  lemma {:induction false} ParseIs(ts: bytes)
    requires |ts| % PACKET_LEN == 0
    ensures Valid(START)
    ensures Parse(ts) == match Packets(START, Chunks(ts))
                         case Done(d) => Done(Close(d).report)
                         case Failed(f) => Failed(f)
  {
    hide Packets, Chunks, Close;
  }

  lemma {:induction false} StartIsValid()
    ensures Valid(START)
  {
  }

  /** The demuxer's loop. */
  method ParseLoop(ts: bytes) returns (r: Outcome<Report>)
    ensures r == Parse(ts)
  {
    if |ts| % PACKET_LEN != 0 {
      return Failed(BadLength);
    }
    ghost var whole := Packets(START, Chunks(ts));
    ParseIs(ts);
    hide Packet, Packets, Chunks, Parse, Close, Valid;
    var d, at := START, 0;
    StartIsValid();
    ghost var rest := ts;
    while at < |ts|
      invariant 0 <= at <= |ts| && rest == ts[at..] && |rest| % PACKET_LEN == 0 && Valid(d)
      invariant whole == Packets(d, Chunks(rest))
    {
      ChunksStep(rest, d);
      var pkt := ts[at..at + PACKET_LEN];
      assert pkt == rest[..PACKET_LEN] && rest[PACKET_LEN..] == ts[at + PACKET_LEN..];
      var step := Packet(d, pkt);
      if step.Failed? {
        return Failed(step.fault);
      }
      d := step.value;
      at := at + PACKET_LEN;
      rest := rest[PACKET_LEN..];
    }
    ChunksEnd(d);
    return Done(Close(d).report);
  }
}
