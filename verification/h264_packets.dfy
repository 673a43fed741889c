/** RFC 6184: the packets one H.264 access unit becomes, and the receiver that undoes them. */
module H264Packets {
  import opened Bytes
  import H = RtpHeader

  /** RTP header, FU indicator, FU header and one byte. */
  const MIN_MTU := H.HEADER_LEN + 3
  const FU_A: byte := 28

  /** What every packet of one access unit shares. */
  datatype Stream = Stream(ssrc: u32, payloadType: byte, timestamp: u32, mtu: nat) {
    predicate Valid() {
      payloadType < 128 && mtu >= MIN_MTU
    }
  }

  /** Fragment bytes one packet has room for. */
  function FragMax(x: Stream): (r: nat)
    requires x.Valid()
    ensures r > 0
  {
    x.mtu - H.HEADER_LEN - 2
  }

  predicate Single(x: Stream, nal: bytes) {
    H.HEADER_LEN + |nal| <= x.mtu
  }

  function Head(x: Stream, marker: bool, seqNo: u16): (r: bytes)
    requires x.Valid()
    ensures |r| == H.HEADER_LEN
  {
    H.Encode(H.Header(marker, x.payloadType, seqNo, x.timestamp, x.ssrc))
  }

  function Indicator(nal: bytes): byte
    requires nal != []
  {
    nal[0] / 32 * 32 + FU_A
  }

  function FuHeader(nal: bytes, start: bool, end: bool): byte
    requires nal != []
  {
    nal[0] % 32 + (if start then 0x80 else 0) + if end then 0x40 else 0
  }

  /** Where the fragment at `off` (1 is the first) ends. */
  function FragEnd(x: Stream, nal: bytes, off: nat): (r: nat)
    requires x.Valid() && off < |nal|
    ensures off < r <= |nal|
  {
    Min(|nal|, off + FragMax(x))
  }

  function Fragment(x: Stream, nal: bytes, last: bool, seqNo: u16, off: nat): bytes
    requires x.Valid() && 1 <= off < |nal|
  {
    var to := FragEnd(x, nal, off);
    Head(x, last && to == |nal|, seqNo) + [Indicator(nal), FuHeader(nal, off == 1, to == |nal|)] + nal[off..to]
  }

  /** The fragments from `off` on. */
  function Fragments(x: Stream, nal: bytes, last: bool, seqNo: u16, off: nat): seq<bytes>
    requires x.Valid() && 1 <= off
    decreases |nal| - off
  {
    if off >= |nal| then []
    else [Fragment(x, nal, last, seqNo, off)] + Fragments(x, nal, last, Next(seqNo, 1), FragEnd(x, nal, off))
  }

  function Next(seqNo: u16, n: nat): u16 {
    (seqNo + n) % 0x1_0000
  }

  function NalPackets(x: Stream, nal: bytes, last: bool, seqNo: u16): seq<bytes>
    requires x.Valid()
  {
    if Single(x, nal) then [Head(x, last, seqNo) + nal] else Fragments(x, nal, last, seqNo, 1)
  }

  /** The packets of an access unit. */
  function Packets(x: Stream, nals: seq<bytes>, seqNo: u16): seq<bytes>
    requires x.Valid()
  {
    if nals == [] then []
    else
      var first := NalPackets(x, nals[0], |nals| == 1, seqNo);
      first + Packets(x, nals[1..], Next(seqNo, |first|))
  }

  // ----- sizes and headers

  /** Packet `k` of `ps` carries sequence number `seqNo + k`, the marker exactly when `marked(k)`, and fits. */
  ghost predicate Sequenced(x: Stream, ps: seq<bytes>, seqNo: u16, last: bool) {
    forall k :: 0 <= k < |ps| ==>
      && |ps[k]| <= x.mtu
      && H.Parse(ps[k]).Ok?
      && H.Parse(ps[k]).value.0 ==
         H.Header(last && k == |ps| - 1, x.payloadType, Next(seqNo, k), x.timestamp, x.ssrc)
  }

  lemma {:induction false} NextNext(seqNo: u16, a: nat, b: nat)
    ensures Next(Next(seqNo, a), b) == Next(seqNo, a + b)
    ensures Next(seqNo, 0) == seqNo
  {
  }

  lemma {:induction false} SequencedConcat(x: Stream, a: seq<bytes>, b: seq<bytes>, seqNo: u16, last: bool)
    requires Sequenced(x, a, seqNo, b == [] && last) && Sequenced(x, b, Next(seqNo, |a|), last)
    ensures Sequenced(x, a + b, seqNo, last)
  {
    hide H.Parse, Next;
    forall k | |a| <= k < |a + b| ensures Next(Next(seqNo, |a|), k - |a|) == Next(seqNo, k) {
      NextNext(seqNo, |a|, k - |a|);
    }
  }

  lemma {:induction false} OneSequenced(x: Stream, marker: bool, seqNo: u16, payload: bytes)
    requires x.Valid() && H.HEADER_LEN + |payload| <= x.mtu
    ensures Sequenced(x, [Head(x, marker, seqNo) + payload], seqNo, marker)
  {
    H.ParseEncode(H.Header(marker, x.payloadType, seqNo, x.timestamp, x.ssrc), payload);
    hide H.Parse, H.Encode;
    NextNext(seqNo, 0, 0);
  }

  lemma {:induction false} FragmentsSequenced(x: Stream, nal: bytes, last: bool, seqNo: u16, off: nat)
    requires x.Valid() && 1 <= off <= |nal|
    ensures Sequenced(x, Fragments(x, nal, last, seqNo, off), seqNo, last)
    ensures off < |nal| ==> Fragments(x, nal, last, seqNo, off) != []
    decreases |nal| - off
  {
    hide Sequenced, Head, Indicator, FuHeader;
    if off < |nal| {
      var to := FragEnd(x, nal, off);
      var rest := Fragments(x, nal, last, Next(seqNo, 1), to);
      FragmentsSequenced(x, nal, last, Next(seqNo, 1), to);
      var payload := [Indicator(nal), FuHeader(nal, off == 1, to == |nal|)] + nal[off..to];
      OneSequenced(x, last && to == |nal|, seqNo, payload);
      assert Fragment(x, nal, last, seqNo, off) == Head(x, last && to == |nal|, seqNo) + payload;
      SequencedConcat(x, [Fragment(x, nal, last, seqNo, off)], rest, seqNo, last);
    } else {
      NoneSequenced(x, seqNo, last);
    }
  }

  lemma {:induction false} NoneSequenced(x: Stream, seqNo: u16, last: bool)
    ensures Sequenced(x, [], seqNo, last)
  {
  }

  lemma {:induction false} NalSequenced(x: Stream, nal: bytes, last: bool, seqNo: u16)
    requires x.Valid()
    ensures Sequenced(x, NalPackets(x, nal, last, seqNo), seqNo, last)
    ensures NalPackets(x, nal, last, seqNo) != []
  {
    hide Sequenced, Head;
    if Single(x, nal) {
      OneSequenced(x, last, seqNo, nal);
    } else {
      FragmentsSequenced(x, nal, last, seqNo, 1);
    }
  }

  /** No packet exceeds the MTU, the sequence numbers are consecutive, and the last packet alone has the marker. */
  lemma {:induction false} PacketsSequenced(x: Stream, nals: seq<bytes>, seqNo: u16)
    requires x.Valid()
    ensures Sequenced(x, Packets(x, nals, seqNo), seqNo, true)
    ensures nals != [] ==> Packets(x, nals, seqNo) != []
  {
    hide Sequenced, NalPackets;
    if nals == [] {
      NoneSequenced(x, seqNo, true);
    } else {
      var first := NalPackets(x, nals[0], |nals| == 1, seqNo);
      NalSequenced(x, nals[0], |nals| == 1, seqNo);
      PacketsSequenced(x, nals[1..], Next(seqNo, |first|));
      SequencedConcat(x, first, Packets(x, nals[1..], Next(seqNo, |first|)), seqNo, true);
    }
  }

  /** A NAL unit that is fragmented at all takes at least two packets. */
  lemma {:induction false} AtLeastTwoFragments(x: Stream, nal: bytes, last: bool, seqNo: u16)
    requires x.Valid() && !Single(x, nal)
    ensures |NalPackets(x, nal, last, seqNo)| >= 2
  {
    hide Fragment, Fragments;
    FragmentsStep(x, nal, last, seqNo, 1);
    FragmentsStep(x, nal, last, Next(seqNo, 1), FragEnd(x, nal, 1));
  }

  /** The two FU bytes of every packet: the start bit in packet 0 only, when `opens`, the end bit in the last only; every
      packet but the last fills the MTU. */
  ghost predicate Flagged(nal: bytes, ps: seq<bytes>, opens: bool, mtu: nat)
    requires nal != []
  {
    forall k :: 0 <= k < |ps| ==>
      && |ps[k]| > H.HEADER_LEN + 2 && (k < |ps| - 1 ==> |ps[k]| == mtu)
      && ps[k][H.HEADER_LEN] % 32 == 28 && ps[k][H.HEADER_LEN] / 32 == nal[0] / 32
      && ps[k][H.HEADER_LEN + 1] % 32 == nal[0] % 32
      && (ps[k][H.HEADER_LEN + 1] / 128 == 1 <==> opens && k == 0)
      && (ps[k][H.HEADER_LEN + 1] / 64 % 2 == 1 <==> k == |ps| - 1)
  }

  lemma {:induction false} FuBits(nal: bytes, start: bool, end: bool)
    requires nal != []
    ensures var fu := FuHeader(nal, start, end);
            fu % 32 == nal[0] % 32 && (fu / 128 == 1 <==> start) && (fu / 64 % 2 == 1 <==> end)
    ensures Indicator(nal) % 32 == FU_A && Indicator(nal) / 32 == nal[0] / 32
  {
  }

  lemma {:induction false} FragmentFlagged(x: Stream, nal: bytes, last: bool, seqNo: u16, off: nat)
    requires x.Valid() && 1 <= off < |nal|
    ensures var p := Fragment(x, nal, last, seqNo, off);
            && |p| > H.HEADER_LEN + 2 && (FragEnd(x, nal, off) < |nal| ==> |p| == x.mtu)
            && p[H.HEADER_LEN] == Indicator(nal)
            && p[H.HEADER_LEN + 1] == FuHeader(nal, off == 1, FragEnd(x, nal, off) == |nal|)
  {
    hide Head, FuHeader, Indicator;
  }

  lemma {:induction false} FragmentsFlagged(x: Stream, nal: bytes, last: bool, seqNo: u16, off: nat)
    requires x.Valid() && 1 <= off <= |nal|
    ensures Flagged(nal, Fragments(x, nal, last, seqNo, off), off == 1, x.mtu)
    decreases |nal| - off
  {
    hide Fragment, Fragments, FuHeader, Indicator, Next, FragEnd;
    FragmentsStep(x, nal, last, seqNo, off);
    if off < |nal| {
      var to := FragEnd(x, nal, off);
      FragmentFlagged(x, nal, last, seqNo, off);
      FuBits(nal, off == 1, to == |nal|);
      FragmentsStep(x, nal, last, Next(seqNo, 1), to);
      FragmentsFlagged(x, nal, last, Next(seqNo, 1), to);
    }
  }

  /** Of the packets of a fragmented NAL unit the first alone has the start bit and the last alone the end bit; they are
      two packets, so no packet has both, which section 5.8 forbids. */
  lemma {:induction false} StartAndEndApart(x: Stream, nal: bytes, last: bool, seqNo: u16)
    requires x.Valid() && !Single(x, nal)
    ensures var ps := NalPackets(x, nal, last, seqNo);
            Flagged(nal, ps, true, x.mtu) &&
            forall k :: 0 <= k < |ps| ==> !(ps[k][H.HEADER_LEN + 1] / 128 == 1 && ps[k][H.HEADER_LEN + 1] / 64 % 2 == 1)
  {
    hide Fragment, Fragments;
    AtLeastTwoFragments(x, nal, last, seqNo);
    FragmentsFlagged(x, nal, last, seqNo, 1);
  }

  // ----- the receiver of sections 5.6 and 5.8

  /** The fragmented NAL unit under way, and the sequence number that would continue it. */
  datatype Rx = Rx(open: Option<bytes>, next: u16)

  const IDLE := Rx(None, 0)

  /** A payload of a single NAL unit packet or an FU-A, and the NAL units it completes. A fragment with both
      start and end bit is refused, and one that does not continue the last packet is dropped with its unit. */
  function Accept(rx: Rx, seqNo: u16, p: bytes): (Rx, seq<bytes>) {
    var idle := Rx(None, Next(seqNo, 1));
    if p == [] then (idle, [])
    else if 1 <= p[0] % 32 <= 23 then (idle, [p])
    else if p[0] % 32 == 28 && |p| >= 2 then
      var start, end := p[1] / 128 == 1, p[1] / 64 % 2 == 1;
      var sofar :=
        if start then Some([p[0] / 32 * 32 + p[1] % 32])
        else if seqNo == rx.next then rx.open
        else None;
      if sofar == None || (start && end) then (idle, [])
      else if end then (idle, [sofar.value + p[2..]])
      else (Rx(Some(sofar.value + p[2..]), Next(seqNo, 1)), [])
    else (idle, [])
  }

  function Receive(rx: Rx, packet: bytes): (Rx, seq<bytes>) {
    match H.Parse(packet)
    case Err(_) => (rx, [])
    case Ok((h, p)) => Accept(rx, h.seqNo, p)
  }

  function ReceiveAll(rx: Rx, ps: seq<bytes>): (Rx, seq<bytes>)
    decreases |ps|
  {
    if ps == [] then (rx, [])
    else
      var (rx1, nals1) := Receive(rx, ps[0]);
      var (rx2, nals2) := ReceiveAll(rx1, ps[1..]);
      (rx2, nals1 + nals2)
  }

  /** The NAL units a run of packets carries. */
  function Depacketize(ps: seq<bytes>): seq<bytes> {
    ReceiveAll(IDLE, ps).1
  }

  lemma {:induction false} ReceiveStep(rx: Rx, p: bytes, rest: seq<bytes>)
    ensures ReceiveAll(rx, [p] + rest).0 == ReceiveAll(Receive(rx, p).0, rest).0
    ensures ReceiveAll(rx, [p] + rest).1 == Receive(rx, p).1 + ReceiveAll(Receive(rx, p).0, rest).1
  {
    hide Receive;
    assert ([p] + rest)[1..] == rest;
  }

  lemma {:induction false} ReceiveConcat(rx: Rx, a: seq<bytes>, b: seq<bytes>)
    ensures ReceiveAll(rx, a + b).0 == ReceiveAll(ReceiveAll(rx, a).0, b).0
    ensures ReceiveAll(rx, a + b).1 == ReceiveAll(rx, a).1 + ReceiveAll(ReceiveAll(rx, a).0, b).1
    decreases |a|
  {
    hide Receive;
    if a == [] {
      assert a + b == b;
    } else {
      assert a == [a[0]] + a[1..] && a + b == [a[0]] + (a[1..] + b);
      ReceiveStep(rx, a[0], a[1..]);
      ReceiveStep(rx, a[0], a[1..] + b);
      ReceiveConcat(Receive(rx, a[0]).0, a[1..], b);
    }
  }

  lemma {:induction false} ReceiveHead(x: Stream, rx: Rx, marker: bool, seqNo: u16, payload: bytes)
    requires x.Valid()
    ensures Receive(rx, Head(x, marker, seqNo) + payload) == Accept(rx, seqNo, payload)
  {
    hide Accept, H.Parse, H.Encode;
    H.ParseEncode(H.Header(marker, x.payloadType, seqNo, x.timestamp, x.ssrc), payload);
  }

  /** One fragment advances the unit under way. */
  lemma {:induction false} AcceptFragment(rx: Rx, nal: bytes, seqNo: u16, off: nat, to: nat)
    requires 1 <= off < to <= |nal| && !(off == 1 && to == |nal|)
    requires off > 1 ==> rx == Rx(Some(nal[..off]), seqNo)
    ensures Accept(rx, seqNo, [Indicator(nal), FuHeader(nal, off == 1, to == |nal|)] + nal[off..to]) ==
            if to == |nal| then (Rx(None, Next(seqNo, 1)), [nal]) else (Rx(Some(nal[..to]), Next(seqNo, 1)), [])
  {
    hide Next;
    var p := [Indicator(nal), FuHeader(nal, off == 1, to == |nal|)] + nal[off..to];
    assert p[2..] == nal[off..to] && nal[..off] + nal[off..to] == nal[..to];
    assert [nal[0]] == nal[..1] && nal[..|nal|] == nal;
    assert p[0] % 32 == FU_A && p[0] / 32 * 32 + p[1] % 32 == nal[0];
  }

  lemma {:induction false} FragmentsStep(x: Stream, nal: bytes, last: bool, seqNo: u16, off: nat)
    requires x.Valid() && 1 <= off
    ensures Fragments(x, nal, last, seqNo, off) ==
            if off >= |nal| then []
            else [Fragment(x, nal, last, seqNo, off)] + Fragments(x, nal, last, Next(seqNo, 1), FragEnd(x, nal, off))
  {
  }

  lemma {:induction false} FragmentsArrive(x: Stream, rx: Rx, nal: bytes, last: bool, seqNo: u16, off: nat)
    requires x.Valid() && !Single(x, nal) && 1 <= off < |nal|
    requires off > 1 ==> rx == Rx(Some(nal[..off]), seqNo)
    ensures ReceiveAll(rx, Fragments(x, nal, last, seqNo, off)) ==
            (Rx(None, Next(seqNo, |Fragments(x, nal, last, seqNo, off)|)), [nal])
    decreases |nal| - off
  {
    hide Accept, Head, Indicator, FuHeader, Receive, ReceiveAll, Next, Fragments, H.Parse;
    var to := FragEnd(x, nal, off);
    var rest := Fragments(x, nal, last, Next(seqNo, 1), to);
    var payload := [Indicator(nal), FuHeader(nal, off == 1, to == |nal|)] + nal[off..to];
    var p := Fragment(x, nal, last, seqNo, off);
    assert p == Head(x, last && to == |nal|, seqNo) + payload;
    ReceiveHead(x, rx, last && to == |nal|, seqNo, payload);
    AcceptFragment(rx, nal, seqNo, off, to);
    ReceiveStep(rx, p, rest);
    FragmentsStep(x, nal, last, seqNo, off);
    NextNext(seqNo, 1, |rest|);
    if to < |nal| {
      FragmentsArrive(x, Receive(rx, p).0, nal, last, Next(seqNo, 1), to);
      assert [] + [nal] == [nal];
    } else {
      FragmentsStep(x, nal, last, Next(seqNo, 1), to);
      ReceiveNothing(Receive(rx, p).0);
      assert [nal] + [] == [nal];
    }
  }

  lemma {:induction false} ReceiveNothing(rx: Rx)
    ensures ReceiveAll(rx, []) == (rx, [])
  {
  }

  /** A type the receiver takes in a packet of its own. */
  predicate SingleType(nal: bytes) {
    nal != [] && 1 <= nal[0] % 32 <= 23
  }

  /** What the receiver of sections 5.6 and 5.8 gets right: a type of its own, or a fragmented unit. */
  predicate Carried(x: Stream, nal: bytes) {
    Single(x, nal) ==> SingleType(nal)
  }

  lemma {:induction false} AcceptSingle(rx: Rx, seqNo: u16, nal: bytes)
    ensures |Accept(rx, seqNo, nal).1| <= 1
    ensures SingleType(nal) ==> Accept(rx, seqNo, nal) == (Rx(None, Next(seqNo, 1)), [nal])
    ensures !SingleType(nal) && rx.open == None ==> Accept(rx, seqNo, nal).1 == []
  {
    hide Next;
  }

  lemma {:induction false} ReceiveOne(rx: Rx, p: bytes)
    ensures ReceiveAll(rx, [p]) == Receive(rx, p)
  {
    hide Receive;
    ReceiveStep(rx, p, []);
    assert [p] + [] == [p] && Receive(rx, p).1 + [] == Receive(rx, p).1;
  }

  /** One NAL unit: at most one arrives; it is the unit, and nothing is left over, exactly when it is carried. */
  lemma {:induction false} NalArrives(x: Stream, rx: Rx, nal: bytes, last: bool, seqNo: u16)
    requires x.Valid()
    ensures var (rx', got) := ReceiveAll(rx, NalPackets(x, nal, last, seqNo));
            && |got| <= 1
            && (Carried(x, nal) ==> got == [nal] && rx'.open == None)
            && (!Carried(x, nal) && rx.open == None ==> got == [])
  {
    hide Accept, Head, SingleType, Receive, ReceiveAll, Next, H.Parse;
    if Single(x, nal) {
      ReceiveHead(x, rx, last, seqNo, nal);
      ReceiveOne(rx, Head(x, last, seqNo) + nal);
      AcceptSingle(rx, seqNo, nal);
    } else {
      FragmentsArrive(x, rx, nal, last, seqNo, 1);
    }
  }

  lemma {:induction false} PacketsArrive(x: Stream, rx: Rx, nals: seq<bytes>, seqNo: u16)
    requires x.Valid()
    ensures |ReceiveAll(rx, Packets(x, nals, seqNo)).1| <= |nals|
    ensures rx.open == None ==>
              (ReceiveAll(rx, Packets(x, nals, seqNo)).1 == nals <==> forall nal :: nal in nals ==> Carried(x, nal))
    decreases |nals|
  {
    hide ReceiveAll, NalPackets, Carried, Next;
    if nals == [] {
      ReceiveNothing(rx);
    } else {
      var first := NalPackets(x, nals[0], |nals| == 1, seqNo);
      var rest := Packets(x, nals[1..], Next(seqNo, |first|));
      var (rx1, got) := ReceiveAll(rx, first);
      NalArrives(x, rx, nals[0], |nals| == 1, seqNo);
      ReceiveConcat(rx, first, rest);
      PacketsArrive(x, rx1, nals[1..], Next(seqNo, |first|));
      var tail := ReceiveAll(rx1, rest).1;
      assert nals == [nals[0]] + nals[1..];
      if Carried(x, nals[0]) {
        assert got + tail == nals <==> tail == nals[1..] by { ConsEqual(nals[0], tail, nals); }
      } else {
        assert nals[0] in nals;
      }
    }
  }

  lemma {:induction false} ConsEqual(head: bytes, tail: seq<bytes>, all: seq<bytes>)
    requires all != [] && all[0] == head
    ensures [head] + tail == all <==> tail == all[1..]
  {
    if [head] + tail == all {
      assert ([head] + tail)[1..] == tail;
    }
    assert all == [all[0]] + all[1..];
  }

  /** The receiver returns exactly the NAL units sent, whatever the MTU, if and only if every one that fits a
      packet of its own has a type from 1 to 23. */
  lemma {:induction false} DepacketizePackets(x: Stream, nals: seq<bytes>, seqNo: u16)
    requires x.Valid()
    ensures Depacketize(Packets(x, nals, seqNo)) == nals <==>
            forall nal :: nal in nals && H.HEADER_LEN + |nal| <= x.mtu ==> nal != [] && 1 <= nal[0] % 32 <= 23
  {
    hide ReceiveAll, Packets;
    PacketsArrive(x, IDLE, nals, seqNo);
    assert (forall nal :: nal in nals ==> Carried(x, nal)) <==>
           forall nal :: nal in nals && H.HEADER_LEN + |nal| <= x.mtu ==> nal != [] && 1 <= nal[0] % 32 <= 23;
  }
}
