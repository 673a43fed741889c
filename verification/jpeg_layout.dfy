/** RTP/JPEG packets byte by byte, as section 3.1 of RFC 2435 lays them out. */
module JpegLayout {
  import opened Bytes
  import opened JpegFile
  import JpegAccepted
  import H = RtpHeader
  import S = JpegSender
  import R = JpegReceiver
  import A = JpegAnyPackets

  // ----- what is sent

  /** The main header behind the RTP header: no type-specific byte, the offset modulo 2^24, type, Q 255, and the size in
      units of eight. */
  predicate MainSays(p: bytes, info: JpegScan, off: nat) {
    && |p| >= 20 && p[12] == 0
    && p[13] as int * 0x1_0000 + p[14] as int * 0x100 + p[15] == off % 0x100_0000
    && p[16] == info.kind && p[17] == 255
    && p[18] as int * 8 == info.width && p[19] as int * 8 == info.height
  }

  /** Types from 64 on have a restart header: the interval, and both flags and the count all ones. */
  predicate RestartSays(p: bytes, info: JpegScan) {
    && (info.restart.Some? <==> info.kind >= 64)
    && (info.restart.Some? ==>
          |p| >= 24 && p[20] as int * 0x100 + p[21] == info.restart.value && p[22] == 0xFF && p[23] == 0xFF)
  }

  /** The quantization table header: zero, precision 0, the length, and the tables in order. */
  predicate TablesSay(p: bytes, info: JpegScan, at: nat)
    requires |info.qtables| == 2 && 1 <= info.qcount <= 2
  {
    && |p| >= at + 4 + 64 * info.qcount
    && p[at] == 0 && p[at + 1] == 0 && p[at + 2] as int * 0x100 + p[at + 3] == 64 * info.qcount
    && p[at + 4..at + 68] == info.qtables[0]
    && (info.qcount == 2 ==> p[at + 68..at + 132] == info.qtables[1])
  }

  /** Where the scan bytes of the fragment at `off` start. */
  function DataAt(info: JpegScan, off: nat): nat {
    20 + (if info.kind >= 64 then 4 else 0) + if off == 0 then 4 + 64 * info.qcount else 0
  }

  lemma {:induction false} MainBytes(info: JpegScan, off: nat)
    requires S.TablesPresent(info) && info.width % 8 == 0 && info.width <= 2040 && info.height % 8 == 0 && info.height <= 2040
    ensures var f := S.FragmentHeader(info, off);
            && f[0] == 0 && f[1] as int * 0x1_0000 + f[2] as int * 0x100 + f[3] == off % 0x100_0000
            && f[4] == info.kind && f[5] == 255 && f[6] as int * 8 == info.width && f[7] as int * 8 == info.height
  {
    hide S.TableHeader, S.RestartHeader;
    OffsetDigits(off);
    SizeByte(info.width);
    SizeByte(info.height);
  }

  lemma {:induction false} RestartBytes(info: JpegScan, off: nat)
    requires S.TablesPresent(info) && info.restart.Some?
    ensures var f := S.FragmentHeader(info, off);
            |f| >= 12 && f[8] as int * 0x100 + f[9] == info.restart.value && f[10] == 0xFF && f[11] == 0xFF
  {
    hide S.TableHeader;
    Be16RoundTrip(info.restart.value);
  }

  lemma {:induction false} MainIs(head: bytes, p: bytes, info: JpegScan, off: nat)
    requires S.TablesPresent(info) && info.width % 8 == 0 && info.width <= 2040 && info.height % 8 == 0 && info.height <= 2040
    requires info.restart.Some? <==> info.kind >= 64
    requires |head| == 12 && |p| >= 12 + |S.FragmentHeader(info, off)| && p[..12] == head
    requires p[12..12 + |S.FragmentHeader(info, off)|] == S.FragmentHeader(info, off)
    ensures MainSays(p, info, off) && RestartSays(p, info)
  {
    var f := S.FragmentHeader(info, off);
    MainBytes(info, off);
    if info.restart.Some? {
      RestartBytes(info, off);
    }
    hide S.FragmentHeader;
    forall k | 0 <= k < |f| ensures f[k] == p[12 + k] {
      assert p[12..12 + |f|][k] == p[12 + k];
    }
  }

  lemma {:induction false} SizeByte(v: nat)
    requires v % 8 == 0 && v <= 2040
    ensures v / 8 % 256 * 8 == v
  {
  }

  lemma {:induction false} OffsetDigits(off: nat)
    ensures off / 0x1_0000 % 256 * 0x1_0000 + off / 256 % 256 * 0x100 + off % 256 == off % 0x100_0000
  {
    var q := off / 256;
    assert off / 0x1_0000 == q / 256;
  }

  lemma {:induction false} FirstTables(p: bytes, front: bytes, info: JpegScan, data: bytes)
    requires S.TablesPresent(info) && p == front + S.TableHeader(info) + data
    ensures TablesSay(p, info, |front|)
  {
    var at, t := |front|, S.TableHeader(info);
    Be16RoundTrip(64 * info.qcount);
    assert t[4..68] == info.qtables[0];
    assert p[at..at + |t|] == t;
    forall k | 0 <= k < |t| ensures p[at + k] == t[k] {
      assert p[at..at + |t|][k] == p[at + k];
    }
    assert p[at + 4..at + 68] == t[4..68];
    if info.qcount == 2 {
      assert t[68..132] == info.qtables[1];
      assert p[at + 68..at + 132] == t[68..132];
    }
  }

  /** Every fragment sent of an accepted JPEG is laid out so; the first carries the tables, and all but the last fill the
      MTU. */
  lemma {:induction false} FragmentLayout(jpeg: bytes, ts: u32, mtu: nat, ssrc: u32, seqNo: u16, off: nat)
    requires mtu >= S.MIN_MTU && Parse(jpeg).Ok? && S.TablesPresent(Parse(jpeg).value) && off < |Parse(jpeg).value.scan|
    ensures var info := Parse(jpeg).value;
            var p, at, take := S.Packet(info, ts, mtu, ssrc, seqNo, off), DataAt(info, off), S.Take(info, mtu, off);
            && MainSays(p, info, off) && RestartSays(p, info)
            && (off == 0 ==> TablesSay(p, info, if info.kind >= 64 then 24 else 20))
            && |p| == at + take && p[at..] == info.scan[off..off + take]
            && (off + take < |info.scan| ==> |p| == mtu)
  {
    hide Parse, H.Encode, S.FragmentHeader;
    var info := Parse(jpeg).value;
    JpegAccepted.ParseShape(jpeg);
    KindSaysRestart(info);
    Layout(info, ts, mtu, ssrc, seqNo, off);
  }

  lemma {:induction false} KindSaysRestart(info: JpegScan)
    ensures info.kind == info.kind % 64 + (if info.restart.Some? then 64 else 0) ==> (info.restart.Some? <==> info.kind >= 64)
  {
  }

  lemma {:induction false} HeaderParts(info: JpegScan, off: nat)
    requires S.TablesPresent(info) && (info.restart.Some? <==> info.kind >= 64)
    ensures |S.FragmentHeader(info, off)| == DataAt(info, off) - 12
    ensures off == 0 ==>
              var front := S.FragmentHeader(info, off)[..if info.kind >= 64 then 12 else 8];
              S.FragmentHeader(info, off) == front + S.TableHeader(info)
  {
    hide S.TableHeader;
  }

  lemma {:induction false} Layout(info: JpegScan, ts: u32, mtu: nat, ssrc: u32, seqNo: u16, off: nat)
    requires mtu >= S.MIN_MTU && S.TablesPresent(info) && off < |info.scan|
    requires info.width % 8 == 0 && info.width <= 2040 && info.height % 8 == 0 && info.height <= 2040
    requires info.restart.Some? <==> info.kind >= 64
    ensures var p, at, take := S.Packet(info, ts, mtu, ssrc, seqNo, off), DataAt(info, off), S.Take(info, mtu, off);
            && MainSays(p, info, off) && RestartSays(p, info)
            && (off == 0 ==> TablesSay(p, info, if info.kind >= 64 then 24 else 20))
            && |p| == at + take && p[at..] == info.scan[off..off + take]
            && (off + take < |info.scan| ==> |p| == mtu)
  {
    hide H.Encode, S.FragmentHeader, S.TableHeader, MainSays, RestartSays, TablesSay;
    var take, f := S.Take(info, mtu, off), S.FragmentHeader(info, off);
    var head := H.Encode(H.Header(off + take == |info.scan|, H.PT_JPEG, seqNo, ts, ssrc));
    var data := info.scan[off..off + take];
    var p := S.Packet(info, ts, mtu, ssrc, seqNo, off);
    assert p == head + f + data;
    HeaderParts(info, off);
    MainIs(head, p, info, off);
    if off == 0 {
      var front := f[..if info.kind >= 64 then 12 else 8];
      assert p == (head + front) + S.TableHeader(info) + data;
      FirstTables(p, head + front, info, data);
    }
  }

  // ----- what is received

  /** What the main and restart headers say, byte by byte; sizes are eight times a byte. */
  lemma {:induction false} MainRead(payload: bytes)
    ensures var r := R.ReadMain(payload);
            if |payload| < 8 then r == Err(InvalidFormat)
            else if payload[6] == 0 || payload[7] == 0 || payload[4] % 64 >= 2 then r == Err(Unsupported)
            else if payload[4] >= 64 && |payload| < 12 then r == Err(InvalidFormat)
            else
              && r.Ok? && r.value.off == payload[1] as int * 0x1_0000 + payload[2] as int * 0x100 + payload[3]
              && r.value.kind == payload[4] && r.value.q == payload[5]
              && r.value.width == 8 * payload[6] as int && r.value.height == 8 * payload[7] as int
              && r.value.restart == (if payload[4] >= 64 then Some(payload[8] as int * 0x100 + payload[9]) else None)
              && r.value.rest == payload[if payload[4] >= 64 then 12 else 8..]
  {
  }

  /** Too small a buffer is told with the bytes that would do: 1024 for the headers, the scan up to the end of this
      fragment, and two for the end marker. */
  lemma {:induction false} NoRoom(s: R.State, p: bytes)
    requires R.Valid(s)
    ensures var r := R.Push(s, p);
            r.result.Err? && r.result.error.BufferTooSmall? ==>
              && A.PieceOf(p).Some?
              && var d := A.PieceOf(p).value;
                 r.result == Err(BufferTooSmall(1024 + d.off + |d.data| + 2)) && 1024 + d.off + |d.data| + 2 > s.cap
  {
    hide R.ReadMain, H.Parse, R.ReadQuant;
    A.HeadersRefused(p);
    if H.Parse(p).Ok? {
      var payload := H.Parse(p).value.1;
      var none := R.Main(0, 0, 0, 8, 8, None, []);
      A.MainRefused(payload, if R.ReadMain(payload).Ok? then R.ReadMain(payload).value else none, s.qtables, s.qcount);
      if R.ReadMain(payload).Ok? {
        A.FirstDataIs(R.ReadMain(payload).value, s.qtables, s.qcount);
      }
    }
  }
}
