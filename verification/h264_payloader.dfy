/** The RFC 6184 payloader over its scratch buffer, against `H264Packets`. */
module H264Payload {
  import opened Bytes
  import opened AnnexB
  import opened NalSpans
  import opened AnnexBIterators
  import opened H264Packets
  import H = RtpHeader

  lemma {:induction false} SequencedIsOneCall(x: Stream, ps: seq<bytes>, seqNo: u16, micros: u64, clockHz: u32)
    requires x.Valid() && Sequenced(x, ps, seqNo, true) && H.Stamped(x.timestamp, micros, clockHz)
    ensures H.OneCall(ps, x.payloadType, x.ssrc, seqNo, micros, clockHz)
    ensures forall k :: 0 <= k < |ps| ==> |ps[k]| <= x.mtu
  {
    hide H.Parse, H.Stamped;
  }

  class H264Payloader {
    const rtp: H.Rtp
    const mtu: nat

    constructor (rtp: H.Rtp, mtu: nat)
      ensures this.rtp == rtp && this.mtu == mtu
    {
      this.rtp, this.mtu := rtp, mtu;
    }

    ghost predicate Valid() {
      rtp.payloadType < 128 && mtu >= MIN_MTU
    }

    /** What the packets stamped `ts` share. */
    ghost function Shared(ts: u32): (x: Stream)
      requires Valid()
      ensures x.Valid()
    {
      Stream(rtp.ssrc, rtp.payloadType, ts, mtu)
    }

    /** Packetizes one access unit; `sent` is what `emit` was handed, in order. */
    method Packetize(accessUnit: bytes, timestamp: u64, scratch: array<byte>) returns (r: Result<nat>, sent: seq<bytes>)
      requires Valid()
      modifies rtp, scratch
      ensures scratch.Length < mtu ==> r == Err(BufferTooSmall(mtu)) && sent == []
      ensures scratch.Length >= mtu && NalUnits(accessUnit) == [] ==> r == Err(InvalidFormat) && sent == []
      ensures scratch.Length >= mtu && NalUnits(accessUnit) != [] ==>
                && sent == Packets(Shared(rtp.Timestamp(timestamp)), NalUnits(accessUnit), old(rtp.seqNo))
                && r == Ok(|sent|)
      ensures rtp.seqNo == Next(old(rtp.seqNo), |sent|)
      ensures H.OneCall(sent, rtp.payloadType, rtp.ssrc, old(rtp.seqNo), timestamp, rtp.clockHz)
      ensures forall k :: 0 <= k < |sent| ==> |sent[k]| <= mtu
    {
      hide Packets, NalUnits, Spans, Contents, InStream, Next, H.Parse, H.Stamped;
      sent := [];
      NextNext(rtp.seqNo, 0, 0);
      if scratch.Length < mtu {
        return Err(BufferTooSmall(mtu)), sent;
      }
      var ts := rtp.Timestamp(timestamp);
      var nals := CountNals(accessUnit);
      SpansAreNalUnits(accessUnit);
      if nals == 0 {
        return Err(InvalidFormat), sent;
      }
      ghost var first := rtp.seqNo;
      sent := SendNals(accessUnit, nals, ts, scratch);
      PacketsSequenced(Shared(ts), NalUnits(accessUnit), first);
      SequencedIsOneCall(Shared(ts), sent, first, timestamp, rtp.clockHz);
      return Ok(|sent|), sent;
    }

    /** The loop over the NAL units. */
    method SendNals(accessUnit: bytes, nals: nat, ts: u32, scratch: array<byte>) returns (sent: seq<bytes>)
      requires Valid() && scratch.Length >= mtu && nals == |NalUnits(accessUnit)|
      modifies rtp, scratch
      ensures sent == Packets(Shared(ts), NalUnits(accessUnit), old(rtp.seqNo))
      ensures rtp.seqNo == Next(old(rtp.seqNo), |sent|)
    {
      hide Packets, NalUnits, Spans, SpansFrom, FindCode, Contents, InStream, Next, NalPackets, SpanIterator.Rest;
      sent := [];
      var iter := new SpanIterator(accessUnit);
      ghost var x, all := Shared(ts), NalUnits(accessUnit);
      SpansAreNalUnits(accessUnit);
      RestInStream(iter);
      NextNext(rtp.seqNo, 0, 0);
      assert sent + Packets(x, all, rtp.seqNo) == Packets(x, all, rtp.seqNo);
      var i := 0;
      while true
        invariant fresh(iter) && iter.Valid() && iter.stream == accessUnit && InStream(accessUnit, iter.Rest())
        invariant i + |iter.Rest()| == nals
        invariant rtp.seqNo == Next(old(rtp.seqNo), |sent|)
        invariant sent + Packets(x, Contents(accessUnit, iter.Rest()), rtp.seqNo) == Packets(x, all, old(rtp.seqNo))
        decreases |iter.Rest()|
      {
        ghost var before, start := iter.Rest(), rtp.seqNo;
        var span := iter.Next();
        if span == None {
          break;
        }
        InRest(accessUnit, before);
        var nal := accessUnit[span.value.nalStart..span.value.nalEnd];
        var lastNal := i + 1 == nals;
        var ps := SendNal(nal, lastNal, ts, scratch);
        ghost var rest := Contents(accessUnit, iter.Rest());
        PacketsCons(x, nal, rest, start);
        NextNext(old(rtp.seqNo), |sent|, |ps|);
        assert sent + (ps + Packets(x, rest, rtp.seqNo)) == (sent + ps) + Packets(x, rest, rtp.seqNo);
        sent := sent + ps;
        i := i + 1;
      }
      NoContents(accessUnit);
      NoPackets(x, rtp.seqNo);
      assert sent + [] == sent;
    }

    /** One NAL unit: a packet of its own, or the fragmentation loop. */
    method SendNal(nal: bytes, lastNal: bool, ts: u32, scratch: array<byte>) returns (sent: seq<bytes>)
      requires Valid() && scratch.Length >= mtu && nal != []
      modifies rtp, scratch
      ensures sent == NalPackets(Shared(ts), nal, lastNal, old(rtp.seqNo))
      ensures rtp.seqNo == Next(old(rtp.seqNo), |sent|)
    {
      hide Fragments, Fragment;
      ghost var x := Shared(ts);
      if |nal| <= mtu - H.HEADER_LEN {
        var w := rtp.WriteHeader(scratch, lastNal, ts);
        CopyInto(scratch, H.HEADER_LEN, nal);
        sent := [scratch[..H.HEADER_LEN + |nal|]];
        assert sent == [Head(x, lastNal, old(rtp.seqNo)) + nal];
        return;
      }
      sent := [];
      hide H.Encode, Head;
      var body, off := nal[1..], 0;
      assert sent + Fragments(x, nal, lastNal, rtp.seqNo, 1) == Fragments(x, nal, lastNal, rtp.seqNo, 1);
      NextNext(rtp.seqNo, 0, 0);
      while off < |body|
        invariant off <= |body|
        invariant rtp.seqNo == Next(old(rtp.seqNo), |sent|)
        invariant sent + Fragments(x, nal, lastNal, rtp.seqNo, 1 + off) ==
                  Fragments(x, nal, lastNal, old(rtp.seqNo), 1)
        decreases |body| - off
      {
        hide Next;
        ghost var before := rtp.seqNo;
        FragmentsStep(x, nal, lastNal, before, 1 + off);
        var take := Min(|body| - off, mtu - H.HEADER_LEN - 2);
        var p := SendFragment(nal, off, take, lastNal, ts, scratch);
        NextNext(old(rtp.seqNo), |sent|, 1);
        ghost var rest := Fragments(x, nal, lastNal, rtp.seqNo, 1 + off + take);
        assert sent + ([p] + rest) == (sent + [p]) + rest;
        sent := sent + [p];
        off := off + take;
      }
      FragmentsStep(x, nal, lastNal, rtp.seqNo, 1 + off);
      assert sent + [] == sent;
    }

    /** One fragment: `take` bytes of the body from `off`. */
    method SendFragment(nal: bytes, off: nat, take: nat, lastNal: bool, ts: u32, scratch: array<byte>)
      returns (p: bytes)
      requires Valid() && scratch.Length >= mtu && 1 + off < |nal|
      requires take == Min(|nal| - 1 - off, mtu - H.HEADER_LEN - 2)
      modifies rtp, scratch
      ensures p == Fragment(Shared(ts), nal, lastNal, old(rtp.seqNo), 1 + off)
      ensures rtp.seqNo == Next(old(rtp.seqNo), 1)
    {
      hide H.Encode, Indicator, FuHeader;
      var start, end := off == 0, 1 + off + take == |nal|;
      var w := rtp.WriteHeader(scratch, lastNal && end, ts);
      ghost var head := Head(Shared(ts), lastNal && end, old(rtp.seqNo));
      assert scratch[..H.HEADER_LEN] == head;
      scratch[H.HEADER_LEN] := Indicator(nal);
      scratch[H.HEADER_LEN + 1] := FuHeader(nal, start, end);
      assert scratch[..H.HEADER_LEN + 2] == head + [Indicator(nal), FuHeader(nal, start, end)];
      CopyInto(scratch, H.HEADER_LEN + 2, nal[1 + off..1 + off + take]);
      p := scratch[..H.HEADER_LEN + 2 + take];
    }
  }

  /** A payloader, unless the MTU has no room for one fragmented byte. */
  method New(rtp: H.Rtp, mtu: nat) returns (r: Result<H264Payloader>)
    ensures mtu < 15 ==> r == Err(InvalidFormat)
    ensures mtu >= 15 ==> r.Ok? && fresh(r.value) && r.value.rtp == rtp && r.value.mtu == mtu
  {
    if mtu < MIN_MTU {
      return Err(InvalidFormat);
    }
    var p := new H264Payloader(rtp, mtu);
    return Ok(p);
  }

  /** The first pass over the NAL units. */
  method CountNals(s: bytes) returns (n: nat)
    ensures n == |NalUnits(s)|
  {
    hide NalUnits, Spans, SpansFrom;
    SpansAreNalUnits(s);
    var iter := new SpanIterator(s);
    n := 0;
    while true
      invariant fresh(iter) && iter.Valid() && n + |iter.Rest()| == |NalUnits(s)|
      decreases |iter.Rest()|
    {
      var next := iter.Next();
      if next == None {
        break;
      }
      n := n + 1;
    }
  }

  lemma {:induction false} RestInStream(iter: SpanIterator)
    requires iter.Valid() && iter.Rest() == Spans(iter.stream)
    ensures InStream(iter.stream, iter.Rest())
  {
    hide SpansFrom, FindCode;
  }

  /** The first of some spans, and the contents of the rest. */
  lemma {:induction false} InRest(s: bytes, spans: seq<Span>)
    requires InStream(s, spans) && spans != []
    ensures InStream(s, spans[1..])
    ensures spans[0].nalStart < spans[0].nalEnd <= |s|
    ensures Contents(s, spans) == [s[spans[0].nalStart..spans[0].nalEnd]] + Contents(s, spans[1..])
  {
  }

  lemma {:induction false} NoPackets(x: Stream, seqNo: u16)
    requires x.Valid()
    ensures Packets(x, [], seqNo) == []
  {
  }

  lemma {:induction false} PacketsCons(x: Stream, nal: bytes, rest: seq<bytes>, seqNo: u16)
    requires x.Valid()
    ensures var first := NalPackets(x, nal, rest == [], seqNo);
            Packets(x, [nal] + rest, seqNo) == first + Packets(x, rest, Next(seqNo, |first|))
  {
    hide NalPackets;
    assert ([nal] + rest)[1..] == rest;
  }
}
