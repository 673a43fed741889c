/** The wire bytes a sender charges its budget for, against the bytes it sends. */
module Wire {
  import opened Bytes
  import Media
  import Udp
  import J = JpegFile
  import S = JpegSender
  import A = JpegAccepted
  import P = JpegHeaders
  import H = RtpHeader

  /** `a` over `b`, rounded up. */
  function CeilDiv(a: nat, b: nat): (n: nat)
    requires b > 0
    decreases a
  {
    if a == 0 then 0 else 1 + CeilDiv(if a < b then 0 else a - b, b)
  }

  /** The least number of `b`s that hold `a`. */
  lemma {:induction false} CeilDivIs(a: nat, b: nat)
    requires b > 0
    ensures a <= Times(CeilDiv(a, b), b) < a + b
    decreases a
  {
    hide Times;
    NextTimes(0, b);
    if a > 0 {
      CeilDivIs(if a < b then 0 else a - b, b);
      NextTimes(CeilDiv(a, b) - 1, b);
    }
  }

  lemma {:induction false} NextTimes(n: nat, b: nat)
    ensures Times(n + 1, b) == Times(n, b) + b && Times(0, b) == 0
  {
  }

  lemma {:induction false} CeilNext(a: nat, b: nat)
    requires b > 0
    ensures CeilDiv(a, b) == if a == 0 then 0 else 1 + CeilDiv(if a < b then 0 else a - b, b)
  {
  }

  lemma {:induction false} CeilMore(a: nat, c: nat, b: nat)
    requires b > 0
    ensures CeilDiv(a, b) <= CeilDiv(a + c, b) <= CeilDiv(a, b) + CeilDiv(c, b)
    decreases a + c
  {
    if a == 0 {
    } else if a < b {
      if a + c > b {
        // the first unit holds all of `a` and the front of `c`
        CeilMore(a + c - b, b - a, b);
        if c >= b {
          CeilShift(c, b, a);
        }
      }
    } else {
      CeilMore(a - b, c, b);
    }
  }

  /** Taking `b - a` off `c` saves no more than nothing. */
  lemma {:induction false} CeilShift(c: nat, b: nat, a: nat)
    requires b > 0 && a <= b <= c
    ensures CeilDiv(a + c - b, b) <= CeilDiv(c, b)
    decreases c
  {
    if a + c - b >= b {
      if c - b >= b {
        CeilShift(c - b, b, a);
      }
    }
  }

  function Total(ps: seq<bytes>): nat {
    if ps == [] then 0 else |ps[0]| + Total(ps[1..])
  }

  lemma {:induction false} TotalCons(p: bytes, rest: seq<bytes>)
    ensures Total([p] + rest) == |p| + Total(rest) && Total([]) == 0
  {
    assert ([p] + rest)[1..] == rest;
  }

  // ----- raw datagrams

  /** What the raw sender charges for a packet of `len` bytes. */
  function RawCharge(len: nat, mtu: nat): nat {
    len + CeilDiv(len, Max(Max(mtu - Udp.HEADER_LEN, 0), 1)) * Udp.HEADER_LEN
  }

  lemma {:induction false} DatagramsTotal(p: Media.MediaPacket, seqNo: u32, room: nat, off: nat)
    requires Udp.Frameable(p) && room > 0 && off < |p.data|
    ensures Total(Udp.Datagrams(p, seqNo, room, off)) ==
            |p.data| - off + CeilDiv(|p.data| - off, room) * Udp.HEADER_LEN
    decreases |p.data| - off
  {
    hide Udp.Encode, Total;
    var to, d := Udp.EndOf(p, room, off), Udp.Datagram(p, seqNo, room, off);
    TotalCons(d, []);
    assert [d] + [] == [d];
    if to < |p.data| {
      TotalCons(d, Udp.Datagrams(p, seqNo, room, to));
      DatagramsTotal(p, seqNo, room, to);
    }
  }

  /** The charge is exactly the bytes sent, for every packet but the empty one, which costs a bare header. */
  lemma {:induction false} RawExact(p: Media.MediaPacket, seqNo: u32, mtu: nat)
    requires Udp.Frameable(p) && mtu > Udp.HEADER_LEN
    ensures Total(Udp.Datagrams(p, seqNo, mtu - Udp.HEADER_LEN, 0)) == RawCharge(|p.data|, mtu) <==> p.data != []
  {
    hide Udp.Encode, Total, Udp.Datagrams;
    var room := mtu - Udp.HEADER_LEN;
    if p.data != [] {
      DatagramsTotal(p, seqNo, room, 0);
    } else {
      EmptyDatagram(p, seqNo, room);
    }
  }

  lemma {:induction false} EmptyDatagram(p: Media.MediaPacket, seqNo: u32, room: nat)
    requires Udp.Frameable(p) && room > 0 && p.data == []
    ensures Total(Udp.Datagrams(p, seqNo, room, 0)) == Udp.HEADER_LEN
  {
    hide Udp.Encode;
    var d := Udp.Datagram(p, seqNo, room, 0);
    TotalCons(d, []);
    assert Udp.Datagrams(p, seqNo, room, 0) == [d] + [];
  }

  // ----- RTP/JPEG

  /** What the RTP sender charges for a file of `len` bytes. */
  function RtpCharge(len: nat, mtu: nat): nat {
    len + CeilDiv(len, Max(Max(mtu - (H.HEADER_LEN + 8), 0), 1)) * (H.HEADER_LEN + 8) + 4 + 128
  }

  function RestartLen(info: J.JpegScan): (r: nat)
    ensures r == 0 || r == 4
  {
    if info.restart.Some? then 4 else 0
  }

  function TableLen(info: J.JpegScan): nat {
    4 + 64 * info.qcount
  }

  lemma {:induction false} PacketLen(info: J.JpegScan, ts: u32, mtu: nat, ssrc: u32, seqNo: u16, off: nat)
    requires S.TablesPresent(info) && mtu >= S.MIN_MTU && off < |info.scan|
    ensures var room := mtu - 20 - RestartLen(info) - if off == 0 then TableLen(info) else 0;
            && S.Take(info, mtu, off) == Min(|info.scan| - off, room)
            && |S.Packet(info, ts, mtu, ssrc, seqNo, off)| == mtu - room + S.Take(info, mtu, off)
  {
    hide H.Encode;
  }

  lemma {:induction false} LaterTotal(info: J.JpegScan, ts: u32, mtu: nat, ssrc: u32, seqNo: u16, off: nat)
    requires S.TablesPresent(info) && mtu >= S.MIN_MTU && 0 < off <= |info.scan|
    ensures var r := RestartLen(info);
            Total(S.Packets(info, ts, mtu, ssrc, seqNo, off)) ==
            |info.scan| - off + Times(CeilDiv(|info.scan| - off, mtu - 20 - r), 20 + r)
    decreases |info.scan| - off
  {
    hide S.Packet, S.Take, S.Packets, S.TablesPresent, Total, Times, CeilDiv;
    S.PacketsStep(info, ts, mtu, ssrc, seqNo, off);
    TotalCons([], []);
    CeilNext(|info.scan| - off, mtu - 20 - RestartLen(info));
    NextTimes(0, 20 + RestartLen(info));
    if off < |info.scan| {
      NextTimes(CeilDiv(|info.scan| - off, mtu - 20 - RestartLen(info)) - 1, 20 + RestartLen(info));
      PacketLen(info, ts, mtu, ssrc, seqNo, off);
      var rest := S.Packets(info, ts, mtu, ssrc, (seqNo + 1) % 0x1_0000, off + S.Take(info, mtu, off));
      TotalCons(S.Packet(info, ts, mtu, ssrc, seqNo, off), rest);
      LaterTotal(info, ts, mtu, ssrc, (seqNo + 1) % 0x1_0000, off + S.Take(info, mtu, off));
    }
  }

  /** The bytes one JPEG takes on the wire: scan and tables, and one header for each packet they fill. */
  lemma {:induction false} PacketsTotal(info: J.JpegScan, ts: u32, mtu: nat, ssrc: u32, seqNo: u16)
    requires S.TablesPresent(info) && mtu >= S.MIN_MTU && info.scan != []
    ensures var r, n := RestartLen(info), |info.scan| + TableLen(info);
            Total(S.Packets(info, ts, mtu, ssrc, seqNo, 0)) == n + Times(CeilDiv(n, mtu - 20 - r), 20 + r)
  {
    hide S.Packet, S.Take, S.Packets, S.TablesPresent, Total, Times, CeilDiv, RestartLen, TableLen;
    QcountBound(info);
    var c, h, n := mtu - 20 - RestartLen(info), 20 + RestartLen(info), |info.scan| + TableLen(info);
    var take := S.Take(info, mtu, 0);
    var next: u16 := (seqNo + 1) % 0x1_0000;
    S.PacketsStep(info, ts, mtu, ssrc, seqNo, 0);
    PacketLen(info, ts, mtu, ssrc, seqNo, 0);
    TotalCons(S.Packet(info, ts, mtu, ssrc, seqNo, 0), S.Packets(info, ts, mtu, ssrc, next, take));
    LaterTotal(info, ts, mtu, ssrc, next, take);
    var left := |info.scan| - take;
    CeilNext(n, c);
    assert CeilDiv(n, c) == 1 + CeilDiv(left, c);
    NextTimes(CeilDiv(left, c), h);
  }

  lemma {:induction false} QcountBound(info: J.JpegScan)
    requires S.TablesPresent(info)
    ensures 68 <= TableLen(info) <= 132
  {
  }

  /** The bytes of one accepted JPEG, tables and headers included, are no more than the charge: a sum a caller can
      make from the file's length, its scan, its tables and whether it has restart markers. */
  predicate Covered(fileLen: nat, info: J.JpegScan, mtu: nat)
    requires mtu >= S.MIN_MTU
  {
    info.scan == [] ||
    var r, n := RestartLen(info), |info.scan| + TableLen(info);
    n + Times(CeilDiv(n, mtu - 20 - r), 20 + r) <= fileLen + Times(CeilDiv(fileLen, mtu - 20), 20) + 132
  }

  lemma {:induction false} ChargeIs(len: nat, mtu: nat)
    requires mtu >= S.MIN_MTU
    ensures RtpCharge(len, mtu) == len + Times(CeilDiv(len, mtu - 20), 20) + 132
  {
    TwentyTimes(CeilDiv(len, mtu - 20));
  }

  /** The charge covers every byte sent of an accepted JPEG if and only if that sum is no more than the charge. */
  lemma {:induction false} RtpCovered(jpeg: bytes, ts: u32, mtu: nat, ssrc: u32, seqNo: u16)
    requires J.Parse(jpeg).Ok? && S.TablesPresent(J.Parse(jpeg).value) && mtu >= S.MIN_MTU
    ensures Total(S.Packets(J.Parse(jpeg).value, ts, mtu, ssrc, seqNo, 0)) <= RtpCharge(|jpeg|, mtu) <==>
            Covered(|jpeg|, J.Parse(jpeg).value, mtu)
  {
    hide J.Parse, S.Packet, S.Take, S.Packets, Total, CeilDiv, S.TablesPresent, Times, RtpCharge, RestartLen;
    var info := J.Parse(jpeg).value;
    ChargeIs(|jpeg|, mtu);
    if info.scan == [] {
      S.PacketsStep(info, ts, mtu, ssrc, seqNo, 0);
      TotalCons([], []);
    } else {
      PacketsTotal(info, ts, mtu, ssrc, seqNo);
    }
  }

  /** Without restart markers it always is. */
  lemma {:induction false} NoRestartCovered(jpeg: bytes, mtu: nat)
    requires J.Parse(jpeg).Ok? && S.TablesPresent(J.Parse(jpeg).value) && mtu >= S.MIN_MTU
    requires J.Parse(jpeg).value.restart == None
    ensures Covered(|jpeg|, J.Parse(jpeg).value, mtu)
  {
    hide J.Parse, CeilDiv, A.Accepted, S.TablesPresent, Times;
    A.ParseShape(jpeg);
    var info := J.Parse(jpeg).value;
    AcceptedLen(info, |jpeg|);
    var n := |info.scan| + TableLen(info);
    CeilMore(n, |jpeg| - n, mtu - 20);
    TwentyTimes(CeilDiv(n, mtu - 20));
    TwentyTimes(CeilDiv(|jpeg|, mtu - 20));
  }

  lemma {:induction false} TwentyTimes(n: nat)
    ensures Times(n, 20) == n * 20 && Times(n, 24) == n * 24
  {
  }

  lemma {:induction false} AcceptedLen(info: J.JpegScan, len: nat)
    requires A.Accepted(info, len) && S.TablesPresent(info)
    ensures |info.scan| + TableLen(info) <= len
  {
  }

  /** Dividing by less gives no less. */
  lemma {:induction false} CeilSmaller(a: nat, b: nat, c: nat)
    requires 0 < c <= b
    ensures CeilDiv(a, b) <= CeilDiv(a, c)
    decreases a
  {
    if a > 0 {
      var x, y := if a < b then 0 else a - b, if a < c then 0 else a - c;
      CeilSmaller(x, b, c);
      CeilMore(x, y - x, c);
    }
  }

  /** With restart markers, whose four bytes a packet are counted nowhere, it is not once the packets are many
      against what else the file holds. */
  lemma {:induction false} RestartUndercharged(jpeg: bytes, mtu: nat)
    requires J.Parse(jpeg).Ok? && S.TablesPresent(J.Parse(jpeg).value) && mtu >= S.MIN_MTU
    requires J.Parse(jpeg).value.restart.Some? && J.Parse(jpeg).value.scan != []
    ensures var n := |J.Parse(jpeg).value.scan| + TableLen(J.Parse(jpeg).value);
            && n <= |jpeg|
            && (4 * CeilDiv(n, mtu - 20) > |jpeg| - n + 20 * CeilDiv(|jpeg| - n, mtu - 20) + 132 ==>
                  !Covered(|jpeg|, J.Parse(jpeg).value, mtu))
  {
    hide J.Parse, CeilDiv, A.Accepted, S.TablesPresent, Times, TableLen;
    A.ParseShape(jpeg);
    var info, room := J.Parse(jpeg).value, mtu - 20;
    AcceptedLen(info, |jpeg|);
    var n := |info.scan| + TableLen(info);
    CeilSmaller(n, room, room - 4);
    CeilMore(n, |jpeg| - n, room);
    TwentyTimes(CeilDiv(n, room - 4));
    TwentyTimes(CeilDiv(|jpeg|, room));
  }

  /** Such files exist: a printed one with a scan of more than 172 packets is charged too little, at every MTU. */
  lemma {:induction false} RestartFileUndercharged(width: u16, height: u16, kind: byte, restart: u16, table: bytes,
                                                   scan: bytes, ts: u32, mtu: nat, ssrc: u32, seqNo: u16)
    requires |table| == 64 && P.Printable(width, height, kind, [table]) && mtu >= S.MIN_MTU
    requires CeilDiv(|scan|, mtu - 20) > 172
    ensures var jpeg := P.File(width, height, kind, Some(restart), [table], scan);
            && J.Parse(jpeg).Ok? && S.TablesPresent(J.Parse(jpeg).value)
            && Total(S.Packets(J.Parse(jpeg).value, ts, mtu, ssrc, seqNo, 0)) > RtpCharge(|jpeg|, mtu)
  {
    hide J.Parse, S.Packet, S.Take, S.Packets, Total, P.Headers, CeilDiv, P.Printable, Covered, RtpCharge;
    var jpeg := P.File(width, height, kind, Some(restart), [table], scan);
    P.ParseFile(width, height, kind, Some(restart), [table], scan);
    P.HeadersLen(width, height, kind, Some(restart), [table]);
    var info, room, s := J.Parse(jpeg).value, mtu - 20, |scan|;
    assert S.TablesPresent(info);
    assert s > 0 by { CeilOfZero(room); }
    assert |jpeg| == s + 544;
    CeilMore(s, 68, room);
    CeilAtMost4(476, room);
    RestartUndercharged(jpeg, mtu);
    RtpCovered(jpeg, ts, mtu, ssrc, seqNo);
  }

  lemma {:induction false} CeilOfZero(b: nat)
    requires b > 0
    ensures CeilDiv(0, b) == 0
  {
  }

  lemma {:induction false} CeilAtMost4(a: nat, b: nat)
    requires b > 0 && a <= 4 * b
    ensures CeilDiv(a, b) <= 4
  {
    assert a > 0 ==> CeilDiv(a, b) == 1 + CeilDiv(if a < b then 0 else a - b, b);
    assert a > b ==> CeilDiv(a - b, b) <= 1 + CeilDiv(if a < 2 * b then 0 else a - 2 * b, b);
    assert a > 2 * b ==> CeilDiv(a - 2 * b, b) <= 1 + CeilDiv(if a < 3 * b then 0 else a - 3 * b, b);
    assert a > 3 * b ==> CeilDiv(a - 3 * b, b) <= 1;
  }
}
