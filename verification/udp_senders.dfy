/** The two UDP senders: what they put on the wire, and the cap their budget puts on it. The socket is a log of
    the datagrams handed to it. */
module UdpSenders {
  import opened Bytes
  import opened Wire
  import Media
  import Udp
  import UdpLoop
  import B = Budgets
  import J = JpegFile
  import S = JpegSender

  datatype TxStats = TxStats(frames: nat, packets: nat, bytes: nat, dropped: nat)

  const NO_STATS := TxStats(0, 0, 0, 0)

  /** `ps` on the wire. */
  function Counted(t: TxStats, ps: seq<bytes>): TxStats {
    t.(packets := t.packets + |ps|, bytes := t.bytes + Total(ps))
  }

  datatype Sending = Sending(budget: Option<B.State>, seqNo: nat, stats: TxStats, sent: seq<bytes>, result: Result<nat>)

  /** Charged and admitted, or dropped whole. */
  predicate Passes(budget: Option<B.State>, now: u64, charge: nat) {
    budget.Some? ==> B.Admits(budget.value, now, charge)
  }

  function Charged(budget: Option<B.State>, now: u64, charge: nat): Option<B.State> {
    if budget.Some? then Some(B.Spend(budget.value, now, charge)) else None
  }

  /** One JPEG; the budget is charged before the JPEG is looked at. */
  function SendFrame(mtu: nat, ssrc: u32, budget: Option<B.State>, seqNo: u16, stats: TxStats, jpeg: bytes, now: u64,
                     ts: u32): Sending
    requires mtu >= S.MIN_MTU
  {
    var charge := RtpCharge(|jpeg|, mtu);
    var b := Charged(budget, now, charge);
    if !Passes(budget, now, charge) then Sending(b, seqNo, stats.(dropped := stats.dropped + 1), [], Ok(0))
    else
      match J.Parse(jpeg)
      case Err(e) => Sending(b, seqNo, stats, [], Err(e))
      case Ok(info) =>
        if info.scan == [] then Sending(b, seqNo, stats.(frames := stats.frames + 1), [], Ok(0))
        else if !S.TablesPresent(info) then Sending(b, seqNo, stats, [], Err(Panic))
        else
          var ps := S.Packets(info, ts, mtu, ssrc, seqNo, 0);
          Sending(b, (seqNo + |ps|) % 0x1_0000, Counted(stats, ps).(frames := stats.frames + 1), ps, Ok(|ps|))
  }

  /** One media packet. */
  function SendPacket(mtu: nat, budget: Option<B.State>, seqNo: u32, stats: TxStats, p: Media.MediaPacket): Sending
    requires mtu > Udp.HEADER_LEN
  {
    var charge := RawCharge(|p.data|, mtu);
    var b := Charged(budget, p.timestamp, charge);
    if !Passes(budget, p.timestamp, charge) then Sending(b, seqNo, stats.(dropped := stats.dropped + 1), [], Ok(0))
    else if !Udp.Frameable(p) then Sending(b, seqNo, stats, [], Err(InvalidFormat))
    else
      var ps := Udp.Datagrams(p, seqNo, mtu - Udp.HEADER_LEN, 0);
      Sending(b, (seqNo + 1) % 0x1_0000_0000, Counted(stats, ps).(frames := stats.frames + 1), ps, Ok(|ps|))
  }

  /** Puts packets on the wire one by one, counting each. */
  method Transmit(ps: seq<bytes>, wire: seq<bytes>, stats: TxStats) returns (log: seq<bytes>, now: TxStats)
    ensures log == wire + ps && now == Counted(stats, ps)
  {
    log, now := wire, stats;
    assert ps[0..] == ps;
    var k := 0;
    while k < |ps|
      invariant k <= |ps| && log == wire + ps[..k]
      invariant now == stats.(packets := stats.packets + k, bytes := now.bytes)
      invariant now.bytes + Total(ps[k..]) == stats.bytes + Total(ps)
    {
      assert ps[k..] == [ps[k]] + ps[k + 1..];
      TotalCons(ps[k], ps[k + 1..]);
      log := log + [ps[k]];
      now := now.(packets := now.packets + 1, bytes := now.bytes + |ps[k]|);
      k := k + 1;
    }
    TotalCons([], []);
  }

  class RtpJpegSender {
    const payloader: S.JpegPayloader
    const scratch: array<byte>
    const budget: Option<B.Budget>
    var stats: TxStats
    var wire: seq<bytes>

    ghost predicate Valid() {
      payloader.Valid() && scratch.Length == payloader.mtu
    }

    ghost function BudgetState(): Option<B.State>
      reads if budget.Some? then {budget.value} else {}
    {
      if budget.Some? then Some(budget.value.Model()) else None
    }

    constructor (payloader: S.JpegPayloader, scratch: array<byte>, budget: Option<B.Budget>)
      requires payloader.Valid() && scratch.Length == payloader.mtu
      ensures Valid() && this.payloader == payloader && this.scratch == scratch && this.budget == budget
      ensures stats == NO_STATS && wire == []
    {
      this.payloader, this.scratch, this.budget, stats, wire := payloader, scratch, budget, NO_STATS, [];
    }

    /** Sends one JPEG captured at `now`; 0 packets when the budget dropped it. */
    method Send(jpeg: bytes, now: u64) returns (r: Result<nat>)
      requires Valid()
      modifies this, payloader.rtp, scratch, if budget.Some? then {budget.value} else {}
      ensures Valid()
      ensures var x := SendFrame(payloader.mtu, payloader.rtp.ssrc, old(BudgetState()), old(payloader.rtp.seqNo),
                                 old(stats), jpeg, now, payloader.rtp.Timestamp(now));
              && r == x.result && stats == x.stats && BudgetState() == x.budget && payloader.rtp.seqNo == x.seqNo
              && wire == old(wire) + x.sent
    {
      hide J.Parse, S.Packets, B.Admits, B.Spend, RtpCharge, Total;
      var charge := RtpCharge(|jpeg|, scratch.Length);
      if budget.Some? {
        var ok := budget.value.Admit(now, charge);
        if !ok {
          stats := stats.(dropped := stats.dropped + 1);
          return Ok(0);
        }
      }
      var n, ps := payloader.Packetize(jpeg, now, scratch);
      var log, counted := Transmit(ps, wire, stats);
      TotalCons([], []);
      wire, stats := log, counted;
      if n.Err? {
        return n;
      }
      stats := stats.(frames := stats.frames + 1);
      return n;
    }
  }

  class RawUdpSender {
    const framer: UdpLoop.Framer
    const scratch: array<byte>
    const budget: Option<B.Budget>
    var stats: TxStats
    var wire: seq<bytes>

    ghost predicate Valid() {
      framer.Valid() && scratch.Length == framer.mtu
    }

    ghost function BudgetState(): Option<B.State>
      reads if budget.Some? then {budget.value} else {}
    {
      if budget.Some? then Some(budget.value.Model()) else None
    }

    constructor (framer: UdpLoop.Framer, scratch: array<byte>, budget: Option<B.Budget>)
      requires framer.Valid() && scratch.Length == framer.mtu
      ensures Valid() && this.framer == framer && this.scratch == scratch && this.budget == budget
      ensures stats == NO_STATS && wire == []
    {
      this.framer, this.scratch, this.budget, stats, wire := framer, scratch, budget, NO_STATS, [];
    }

    /** Sends one packet; 0 datagrams when the budget dropped it. */
    method Send(packet: Media.MediaPacket) returns (r: Result<nat>)
      requires Valid()
      modifies this, framer, scratch, if budget.Some? then {budget.value} else {}
      ensures Valid()
      ensures var x := SendPacket(framer.mtu, old(BudgetState()), old(framer.seqNo), old(stats), packet);
              && r == x.result && stats == x.stats && BudgetState() == x.budget && framer.seqNo == x.seqNo
              && wire == old(wire) + x.sent
    {
      hide Udp.Datagrams, B.Admits, B.Spend, RawCharge, Total;
      var charge := RawCharge(|packet.data|, scratch.Length);
      if budget.Some? {
        var ok := budget.value.Admit(packet.timestamp, charge);
        if !ok {
          stats := stats.(dropped := stats.dropped + 1);
          return Ok(0);
        }
      }
      var n, ds := framer.Frame(packet, scratch);
      var log, counted := Transmit(ds, wire, stats);
      TotalCons([], []);
      wire, stats := log, counted;
      if n.Err? {
        return n;
      }
      stats := stats.(frames := stats.frames + 1);
      return n;
    }
  }

  // ----- the cap on the wire

  /** A frame handed to the RTP sender: the JPEG, its capture time and its RTP timestamp. */
  datatype Job = Job(jpeg: bytes, now: u64, ts: u32)

  /** The charge covers what is sent: nothing for a JPEG that is not accepted or aborts the sender, and otherwise
      see `Wire.RtpCovered`. */
  predicate ChargeCovers(jpeg: bytes, mtu: nat)
    requires mtu >= S.MIN_MTU
  {
    J.Parse(jpeg).Ok? && S.TablesPresent(J.Parse(jpeg).value) ==> Covered(|jpeg|, J.Parse(jpeg).value, mtu)
  }

  /** Bytes a run of the RTP sender puts on the wire. */
  function RtpBytes(mtu: nat, ssrc: u32, budget: B.State, seqNo: u16, jobs: seq<Job>): nat
    requires mtu >= S.MIN_MTU
    decreases |jobs|
  {
    if jobs == [] then 0
    else
      var x := SendFrame(mtu, ssrc, Some(budget), seqNo, NO_STATS, jobs[0].jpeg, jobs[0].now, jobs[0].ts);
      Total(x.sent) + RtpBytes(mtu, ssrc, x.budget.value, x.seqNo, jobs[1..])
  }

  function RtpCalls(mtu: nat, jobs: seq<Job>): seq<B.Call> {
    seq(|jobs|, i requires 0 <= i < |jobs| => B.Call(jobs[i].now, RtpCharge(|jobs[i].jpeg|, mtu)))
  }

  lemma {:induction false} FrameWithinCharge(mtu: nat, ssrc: u32, budget: B.State, seqNo: u16, jpeg: bytes, now: u64, ts: u32)
    requires mtu >= S.MIN_MTU && ChargeCovers(jpeg, mtu)
    ensures var x := SendFrame(mtu, ssrc, Some(budget), seqNo, NO_STATS, jpeg, now, ts);
            && x.budget == Some(B.Spend(budget, now, RtpCharge(|jpeg|, mtu))) && x.seqNo < 0x1_0000
            && Total(x.sent) <= if B.Admits(budget, now, RtpCharge(|jpeg|, mtu)) then RtpCharge(|jpeg|, mtu) else 0
  {
    hide J.Parse, S.Packets, B.Admits, B.Spend, RtpCharge, Total, S.TablesPresent, Covered;
    TotalCons([], []);
    if J.Parse(jpeg).Ok? && S.TablesPresent(J.Parse(jpeg).value) {
      RtpCovered(jpeg, ts, mtu, ssrc, seqNo);
    }
  }

  lemma {:induction false} RtpWithinAdmitted(mtu: nat, ssrc: u32, budget: B.State, seqNo: u16, jobs: seq<Job>)
    requires mtu >= S.MIN_MTU && forall i :: 0 <= i < |jobs| ==> ChargeCovers(jobs[i].jpeg, mtu)
    ensures RtpBytes(mtu, ssrc, budget, seqNo, jobs) <= B.Sent(budget, RtpCalls(mtu, jobs))
    decreases |jobs|
  {
    hide SendFrame, ChargeCovers, B.Admits, B.Spend, RtpCharge, Total;
    if jobs != [] {
      var j := jobs[0];
      FrameWithinCharge(mtu, ssrc, budget, seqNo, j.jpeg, j.now, j.ts);
      var x := SendFrame(mtu, ssrc, Some(budget), seqNo, NO_STATS, j.jpeg, j.now, j.ts);
      assert RtpCalls(mtu, jobs)[1..] == RtpCalls(mtu, jobs[1..]);
      RtpWithinAdmitted(mtu, ssrc, x.budget.value, x.seqNo, jobs[1..]);
    }
  }

  /** The bytes a budgeted RTP/JPEG sender puts on the wire over a run of frames are at most the burst and what the
      rate earns in the time that passes from frame to frame, whatever it did before, when the charge covers each
      JPEG; for times in order that is the time from the first frame to the last. */
  lemma {:induction false} RtpWireCap(mtu: nat, ssrc: u32, budget: B.State, seqNo: u16, jobs: seq<Job>)
    requires mtu >= S.MIN_MTU && jobs != [] && budget.rate > 0 && B.Valid(budget)
    requires forall i :: 0 <= i < |jobs| ==> ChargeCovers(jobs[i].jpeg, mtu)
    ensures B.MICROS * RtpBytes(mtu, ssrc, budget, seqNo, jobs) <=
            B.MICROS * budget.burst + Times(B.Elapsed(RtpCalls(mtu, jobs)), budget.rate)
    ensures (forall i, j :: 0 <= i < j < |jobs| ==> jobs[i].now <= jobs[j].now) ==>
              B.Elapsed(RtpCalls(mtu, jobs)) == jobs[|jobs| - 1].now - jobs[0].now
  {
    hide RtpBytes, B.Sent, RtpCharge, ChargeCovers, Times, B.Elapsed;
    RtpWithinAdmitted(mtu, ssrc, budget, seqNo, jobs);
    B.RateBound(budget, RtpCalls(mtu, jobs));
    if forall i, j :: 0 <= i < j < |jobs| ==> jobs[i].now <= jobs[j].now {
      B.ElapsedInOrder(RtpCalls(mtu, jobs));
    }
  }

  /** Bytes a run of the raw sender puts on the wire. */
  function RawBytes(mtu: nat, budget: B.State, seqNo: u32, packets: seq<Media.MediaPacket>): nat
    requires mtu > Udp.HEADER_LEN
    decreases |packets|
  {
    if packets == [] then 0
    else
      var x := SendPacket(mtu, Some(budget), seqNo, NO_STATS, packets[0]);
      Total(x.sent) + RawBytes(mtu, x.budget.value, x.seqNo, packets[1..])
  }

  function RawCalls(mtu: nat, packets: seq<Media.MediaPacket>): seq<B.Call> {
    seq(|packets|, i requires 0 <= i < |packets| => B.Call(packets[i].timestamp, RawCharge(|packets[i].data|, mtu)))
  }

  lemma {:induction false} PacketAsCharged(mtu: nat, budget: B.State, seqNo: u32, p: Media.MediaPacket)
    requires mtu > Udp.HEADER_LEN && Udp.Frameable(p) && p.data != []
    ensures var x := SendPacket(mtu, Some(budget), seqNo, NO_STATS, p);
            && x.budget == Some(B.Spend(budget, p.timestamp, RawCharge(|p.data|, mtu))) && x.seqNo < 0x1_0000_0000
            && Total(x.sent) == if B.Admits(budget, p.timestamp, RawCharge(|p.data|, mtu))
                                then RawCharge(|p.data|, mtu) else 0
  {
    hide Udp.Datagrams, B.Admits, B.Spend, RawCharge, Total;
    TotalCons([], []);
    RawExact(p, seqNo, mtu);
  }

  /** The raw sender puts exactly the bytes on the wire that its budget admits. */
  lemma {:induction false} RawAsAdmitted(mtu: nat, budget: B.State, seqNo: u32, packets: seq<Media.MediaPacket>)
    requires mtu > Udp.HEADER_LEN
    requires forall i :: 0 <= i < |packets| ==> Udp.Frameable(packets[i]) && packets[i].data != []
    ensures RawBytes(mtu, budget, seqNo, packets) == B.Sent(budget, RawCalls(mtu, packets))
    decreases |packets|
  {
    hide SendPacket, B.Admits, B.Spend, RawCharge, Total;
    if packets != [] {
      var p := packets[0];
      PacketAsCharged(mtu, budget, seqNo, p);
      var x := SendPacket(mtu, Some(budget), seqNo, NO_STATS, p);
      assert RawCalls(mtu, packets)[1..] == RawCalls(mtu, packets[1..]);
      RawAsAdmitted(mtu, x.budget.value, x.seqNo, packets[1..]);
    }
  }

  /** So its wire bytes over any run are capped too. */
  lemma {:induction false} RawWireCap(mtu: nat, budget: B.State, seqNo: u32, packets: seq<Media.MediaPacket>)
    requires mtu > Udp.HEADER_LEN && packets != [] && budget.rate > 0 && B.Valid(budget)
    requires forall i :: 0 <= i < |packets| ==> Udp.Frameable(packets[i]) && packets[i].data != []
    ensures B.MICROS * RawBytes(mtu, budget, seqNo, packets) <=
            B.MICROS * budget.burst + Times(B.Elapsed(RawCalls(mtu, packets)), budget.rate)
    ensures (forall i, j :: 0 <= i < j < |packets| ==> packets[i].timestamp <= packets[j].timestamp) ==>
              B.Elapsed(RawCalls(mtu, packets)) == packets[|packets| - 1].timestamp - packets[0].timestamp
  {
    hide RawBytes, B.Sent, RawCharge, Times, B.Elapsed;
    RawAsAdmitted(mtu, budget, seqNo, packets);
    B.RateBound(budget, RawCalls(mtu, packets));
    if forall i, j :: 0 <= i < j < |packets| ==> packets[i].timestamp <= packets[j].timestamp {
      B.ElapsedInOrder(RawCalls(mtu, packets));
    }
  }
}
