/** The RFC 2435 payloader: one JPEG becomes MTU-sized RTP packets. */
module JpegSender {
  import opened Bytes
  import opened JpegFile
  import H = RtpHeader

  /** RTP header, main header, restart header, table header, two tables and one byte. */
  const MIN_MTU := H.HEADER_LEN + 8 + 4 + 4 + 128 + 1

  /** Every announced quantization table is there. A JPEG that defines only table 1 fails this. */
  predicate TablesPresent(info: JpegScan) {
    && |info.qtables| == 2
    && 1 <= info.qcount <= 2
    && forall k :: 0 <= k < info.qcount ==> |info.qtables[k]| == 64
  }

  /** There is something to send, and a table announced for it is missing: the sender's table copy aborts. */
  predicate Aborts(info: JpegScan) {
    info.scan != [] && !TablesPresent(info)
  }

  function RestartHeader(restart: Option<u16>): bytes {
    if restart.Some? then Be16(restart.value) + [0xFF, 0xFF] else []
  }

  /** Sent with the first fragment only. */
  function TableHeader(info: JpegScan): (r: bytes)
    requires TablesPresent(info)
    ensures |r| == 4 + 64 * info.qcount
  {
    [0, 0] + Be16(64 * info.qcount) + info.qtables[0] + if info.qcount == 2 then info.qtables[1] else []
  }

  /** What stands between the RTP header and the scan bytes of the fragment at `off`. */
  function FragmentHeader(info: JpegScan, off: nat): (r: bytes)
    requires TablesPresent(info)
    ensures 8 <= |r| <= 144
  {
    [0, off / 0x1_0000 % 256, off / 256 % 256, off % 256,
     info.kind, 255, info.width / 8 % 256, info.height / 8 % 256] +
    RestartHeader(info.restart) + if off == 0 then TableHeader(info) else []
  }

  function Take(info: JpegScan, mtu: nat, off: nat): (take: nat)
    requires TablesPresent(info) && mtu >= MIN_MTU && off < |info.scan|
    ensures 0 < take <= |info.scan| - off
  {
    Min(|info.scan| - off, mtu - H.HEADER_LEN - |FragmentHeader(info, off)|)
  }

  /** The fragment at `off`. */
  function Packet(info: JpegScan, ts: u32, mtu: nat, ssrc: u32, seqNo: u16, off: nat): bytes
    requires TablesPresent(info) && mtu >= MIN_MTU && off < |info.scan|
  {
    var take := Take(info, mtu, off);
    H.Encode(H.Header(off + take == |info.scan|, H.PT_JPEG, seqNo, ts, ssrc)) +
    FragmentHeader(info, off) + info.scan[off..off + take]
  }

  /** The fragments from `off` on. */
  function Packets(info: JpegScan, ts: u32, mtu: nat, ssrc: u32, seqNo: u16, off: nat): seq<bytes>
    requires TablesPresent(info) && mtu >= MIN_MTU
    decreases |info.scan| - off
  {
    if off >= |info.scan| then []
    else
      [Packet(info, ts, mtu, ssrc, seqNo, off)] +
      Packets(info, ts, mtu, ssrc, (seqNo + 1) % 0x1_0000, off + Take(info, mtu, off))
  }

  lemma {:induction false} PacketsStep(info: JpegScan, ts: u32, mtu: nat, ssrc: u32, seqNo: u16, off: nat)
    requires TablesPresent(info) && mtu >= MIN_MTU
    ensures Packets(info, ts, mtu, ssrc, seqNo, off) ==
            if off >= |info.scan| then []
            else [Packet(info, ts, mtu, ssrc, seqNo, off)] +
                 Packets(info, ts, mtu, ssrc, (seqNo + 1) % 0x1_0000, off + Take(info, mtu, off))
  {
  }

  /** Packets that fit, each with its own header: consecutive numbers, one timestamp, the marker on the last. */
  ghost predicate Headed(ps: seq<bytes>, ts: u32, mtu: nat, ssrc: u32, seqNo: u16) {
    forall k :: 0 <= k < |ps| ==>
      && |ps[k]| <= mtu && H.Parse(ps[k]).Ok?
      && H.Parse(ps[k]).value.0 == H.Header(k == |ps| - 1, H.PT_JPEG, (seqNo + k) % 0x1_0000, ts, ssrc)
  }

  lemma {:induction false} PacketHeaded(info: JpegScan, ts: u32, mtu: nat, ssrc: u32, seqNo: u16, off: nat)
    requires TablesPresent(info) && mtu >= MIN_MTU && off < |info.scan|
    ensures var p := Packet(info, ts, mtu, ssrc, seqNo, off);
            && |p| <= mtu && H.Parse(p).Ok?
            && H.Parse(p).value.0 ==
               H.Header(off + Take(info, mtu, off) == |info.scan|, H.PT_JPEG, seqNo, ts, ssrc)
  {
    hide H.Parse, H.Encode, FragmentHeader;
    var take := Take(info, mtu, off);
    var h := H.Header(off + take == |info.scan|, H.PT_JPEG, seqNo, ts, ssrc);
    var payload := FragmentHeader(info, off) + info.scan[off..off + take];
    H.ParseEncode(h, payload);
    assert Packet(info, ts, mtu, ssrc, seqNo, off) == H.Encode(h) + payload;
  }

  lemma {:induction false} HeadedCons(p: bytes, rest: seq<bytes>, ts: u32, mtu: nat, ssrc: u32, seqNo: u16)
    requires Headed(rest, ts, mtu, ssrc, (seqNo + 1) % 0x1_0000) && |p| <= mtu && H.Parse(p).Ok?
    requires H.Parse(p).value.0 == H.Header(rest == [], H.PT_JPEG, seqNo, ts, ssrc)
    ensures Headed([p] + rest, ts, mtu, ssrc, seqNo)
  {
    hide H.Parse;
    var all := [p] + rest;
    forall k | 0 <= k < |all|
      ensures |all[k]| <= mtu && H.Parse(all[k]).Ok?
      ensures H.Parse(all[k]).value.0 == H.Header(k == |all| - 1, H.PT_JPEG, (seqNo + k) % 0x1_0000, ts, ssrc)
    {
      if k > 0 {
        assert all[k] == rest[k - 1];
        NextOf(seqNo, k - 1);
      }
    }
  }

  lemma {:induction false} NextOf(seqNo: u16, k: nat)
    ensures ((seqNo + 1) % 0x1_0000 + k) % 0x1_0000 == (seqNo + (k + 1)) % 0x1_0000
  {
  }

  lemma {:induction false} PacketsHeaded(info: JpegScan, ts: u32, mtu: nat, ssrc: u32, seqNo: u16, off: nat)
    requires TablesPresent(info) && mtu >= MIN_MTU
    ensures Headed(Packets(info, ts, mtu, ssrc, seqNo, off), ts, mtu, ssrc, seqNo)
    decreases |info.scan| - off
  {
    hide Packets, Take, Packet, TablesPresent, H.Parse;
    PacketsStep(info, ts, mtu, ssrc, seqNo, off);
    if off < |info.scan| {
      var next: u16, to := (seqNo + 1) % 0x1_0000, off + Take(info, mtu, off);
      PacketHeaded(info, ts, mtu, ssrc, seqNo, off);
      PacketsHeaded(info, ts, mtu, ssrc, next, to);
      PacketsStep(info, ts, mtu, ssrc, next, to);
      HeadedCons(Packet(info, ts, mtu, ssrc, seqNo, off), Packets(info, ts, mtu, ssrc, next, to), ts, mtu, ssrc, seqNo);
    }
  }

  lemma {:induction false} HeadedIsOneCall(ps: seq<bytes>, ts: u32, mtu: nat, ssrc: u32, seqNo: u16, micros: u64, clockHz: u32)
    requires Headed(ps, ts, mtu, ssrc, seqNo) && H.Stamped(ts, micros, clockHz)
    ensures H.OneCall(ps, 26, ssrc, seqNo, micros, clockHz)
  {
    hide H.Parse, H.Stamped;
  }

  class JpegPayloader {
    const rtp: H.Rtp
    const mtu: nat

    ghost predicate Valid() {
      rtp.payloadType == H.PT_JPEG && mtu >= MIN_MTU
    }

    constructor (ssrc: u32, firstSeq: u16, mtu: nat)
      requires mtu >= MIN_MTU
      ensures Valid() && this.mtu == mtu && fresh(rtp)
      ensures rtp.ssrc == ssrc && rtp.seqNo == firstSeq && rtp.clockHz == 90_000
    {
      this.rtp := new H.Rtp(ssrc, H.PT_JPEG, 90_000, firstSeq);
      this.mtu := mtu;
    }

    /** Packetizes one JPEG; `sent` is what `emit` was handed, in order. */
    method Packetize(jpeg: bytes, timestamp: u64, scratch: array<byte>) returns (r: Result<nat>, sent: seq<bytes>)
      requires Valid()
      modifies rtp, scratch
      ensures scratch.Length < mtu ==> r == Err(BufferTooSmall(mtu)) && sent == []
      ensures scratch.Length >= mtu && Parse(jpeg).Err? ==> r == Err(Parse(jpeg).error) && sent == []
      ensures scratch.Length >= mtu && Parse(jpeg).Ok? ==>
                var info := Parse(jpeg).value;
                if Aborts(info) then r == Err(Panic) && sent == []
                else if info.scan == [] then r == Ok(0) && sent == []
                else
                  && sent == Packets(info, rtp.Timestamp(timestamp), mtu, rtp.ssrc, old(rtp.seqNo), 0)
                  && r == Ok(|sent|)
      ensures rtp.seqNo == (old(rtp.seqNo) + |sent|) % 0x1_0000
      ensures H.OneCall(sent, 26, rtp.ssrc, old(rtp.seqNo), timestamp, rtp.clockHz)
      ensures forall k :: 0 <= k < |sent| ==> |sent[k]| <= mtu
    {
      hide Parse, Packets, H.Parse, H.Stamped;
      sent := [];
      if scratch.Length < mtu {
        return Err(BufferTooSmall(mtu)), sent;
      }
      var parsed := ParseLoop(jpeg);
      if parsed.Err? {
        return Err(parsed.error), sent;
      }
      var info, ts := parsed.value, rtp.Timestamp(timestamp);
      if Aborts(info) {
        return Err(Panic), sent;
      }
      if info.scan == [] {
        return Ok(0), sent;
      }
      ghost var first := rtp.seqNo;
      sent := SendFragments(scratch, info, ts);
      PacketsHeaded(info, ts, mtu, rtp.ssrc, first, 0);
      HeadedIsOneCall(sent, ts, mtu, rtp.ssrc, first, timestamp, rtp.clockHz);
      return Ok(|sent|), sent;
    }

    /** The fragmentation loop. */
    method SendFragments(scratch: array<byte>, info: JpegScan, ts: u32) returns (sent: seq<bytes>)
      requires Valid() && scratch.Length >= mtu && TablesPresent(info)
      modifies rtp, scratch
      ensures sent == Packets(info, ts, mtu, rtp.ssrc, old(rtp.seqNo), 0)
      ensures rtp.seqNo == (old(rtp.seqNo) + |sent|) % 0x1_0000
    {
      hide Packets, Packet, Take;
      sent := [];
      var off := 0;
      assert sent + Packets(info, ts, mtu, rtp.ssrc, rtp.seqNo, 0) == Packets(info, ts, mtu, rtp.ssrc, rtp.seqNo, 0);
      while off < |info.scan|
        invariant 0 <= off <= |info.scan|
        invariant rtp.seqNo == (old(rtp.seqNo) + |sent|) % 0x1_0000
        invariant sent + Packets(info, ts, mtu, rtp.ssrc, rtp.seqNo, off) ==
                  Packets(info, ts, mtu, rtp.ssrc, old(rtp.seqNo), 0)
        decreases |info.scan| - off
      {
        ghost var before := rtp.seqNo;
        var n, take := BuildFragment(scratch, info, ts, off);
        ghost var rest := Packets(info, ts, mtu, rtp.ssrc, rtp.seqNo, off + take);
        PacketsStep(info, ts, mtu, rtp.ssrc, before, off);
        assert sent + ([scratch[..n]] + rest) == (sent + [scratch[..n]]) + rest;
        sent := sent + [scratch[..n]];
        off := off + take;
      }
      PacketsStep(info, ts, mtu, rtp.ssrc, rtp.seqNo, off);
      assert sent + [] == sent;
    }

    /** Builds the fragment at `off` in `scratch[..n]`, carrying `take` scan bytes. */
    method BuildFragment(scratch: array<byte>, info: JpegScan, ts: u32, off: nat) returns (n: nat, take: nat)
      requires Valid() && scratch.Length >= mtu && TablesPresent(info) && off < |info.scan|
      modifies rtp, scratch
      ensures n <= scratch.Length && take == Take(info, mtu, off)
      ensures scratch[..n] == Packet(info, ts, mtu, rtp.ssrc, old(rtp.seqNo), off)
      ensures rtp.seqNo == (old(rtp.seqNo) + 1) % 0x1_0000
    {
      hide FragmentHeader, Written, H.Encode;
      ghost var head, was := FragmentHeader(info, off), scratch[..];
      var p := WriteFragmentHeader(scratch, info, off);
      ghost var s1 := scratch[..];
      WrittenAt(s1, was, H.HEADER_LEN, head);
      take := Min(|info.scan| - off, mtu - p);
      var last := off + take == |info.scan|;
      var w := rtp.WriteHeader(scratch, last, ts);
      ghost var hdr := H.Encode(H.Header(last, H.PT_JPEG, old(rtp.seqNo), ts, rtp.ssrc));
      var data := info.scan[off..off + take];
      ghost var s2 := scratch[..];
      HeaderInFront(s1, s2, hdr, head);
      CopyInto(scratch, p, data);
      n := p + take;
      assert scratch[..n] == s2[..p] + data;
    }
  }

  lemma {:induction false} HeaderInFront(s1: bytes, s2: bytes, hdr: bytes, head: bytes)
    requires |s1| == |s2| && |hdr| + |head| <= |s1| && s1[|hdr|..|hdr| + |head|] == head
    requires s2[..|hdr|] == hdr && s2[|hdr|..] == s1[|hdr|..]
    ensures s2[..|hdr| + |head|] == hdr + head
  {
    assert s2[|hdr|..|hdr| + |head|] == s2[|hdr|..][..|head|] == s1[|hdr|..][..|head|] == head;
  }

  /** A payloader, unless the MTU has no room for the headers and one scan byte. */
  method New(ssrc: u32, firstSeq: u16, mtu: nat) returns (r: Result<JpegPayloader>)
    ensures mtu < 157 ==> r == Err(InvalidFormat)
    ensures mtu >= 157 ==>
              && r.Ok? && fresh(r.value) && fresh(r.value.rtp) && r.value.Valid() && r.value.mtu == mtu
              && r.value.rtp.ssrc == ssrc && r.value.rtp.seqNo == firstSeq && r.value.rtp.clockHz == 90_000
  {
    if mtu < MIN_MTU {
      return Err(InvalidFormat);
    }
    var p := new JpegPayloader(ssrc, firstSeq, mtu);
    return Ok(p);
  }

  /** Lays the fragment header out after the RTP header; returns where the scan bytes go. */
  method WriteFragmentHeader(scratch: array<byte>, info: JpegScan, off: nat) returns (p: nat)
    requires TablesPresent(info) && scratch.Length >= MIN_MTU
    modifies scratch
    ensures p == H.HEADER_LEN + |FragmentHeader(info, off)|
    ensures Written(scratch[..], old(scratch[..]), H.HEADER_LEN, FragmentHeader(info, off))
  {
    hide Written;
    ghost var was, lo := scratch[..], H.HEADER_LEN;
    WrittenNothing(was, lo);
    var main: bytes := [0, off / 0x1_0000 % 256, off / 256 % 256, off % 256,
                        info.kind, 255, info.width / 8 % 256, info.height / 8 % 256];
    p := Put(scratch, H.HEADER_LEN, main, was, lo, []);
    assert [] + main == main;
    if info.restart.Some? {
      p := Put(scratch, p, Be16(info.restart.value), was, lo, main);
      p := Put(scratch, p, [0xFF, 0xFF], was, lo, main + Be16(info.restart.value));
      assert main + Be16(info.restart.value) + [0xFF, 0xFF] == main + RestartHeader(info.restart);
    } else {
      assert main + RestartHeader(info.restart) == main;
    }
    ghost var done := main + RestartHeader(info.restart);
    if off == 0 {
      p := WriteTableHeader(scratch, p, info, was, lo, done);
      assert done + TableHeader(info) == FragmentHeader(info, off);
    } else {
      assert done + [] == done == FragmentHeader(info, off);
    }
  }

  method WriteTableHeader(scratch: array<byte>, at: nat, info: JpegScan, ghost was: bytes, ghost lo: nat, ghost done: bytes)
    returns (p: nat)
    requires TablesPresent(info) && at == lo + |done| && at + 132 <= scratch.Length
    requires Written(scratch[..], was, lo, done)
    modifies scratch
    ensures p == at + |TableHeader(info)|
    ensures Written(scratch[..], was, lo, done + TableHeader(info))
  {
    hide Written;
    var len := Be16(64 * info.qcount);
    p := Put(scratch, at, [0, 0], was, lo, done);
    p := Put(scratch, p, len, was, lo, done + [0, 0]);
    p := Put(scratch, p, info.qtables[0], was, lo, done + [0, 0] + len);
    if info.qcount == 2 {
      p := Put(scratch, p, info.qtables[1], was, lo, done + [0, 0] + len + info.qtables[0]);
      assert done + [0, 0] + len + info.qtables[0] + info.qtables[1] == done + TableHeader(info);
    } else {
      assert done + [0, 0] + len + info.qtables[0] == done + TableHeader(info);
    }
  }
}
