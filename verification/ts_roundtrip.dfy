/** Demultiplexing undoes multiplexing. */
module TsRoundTrip {
  import opened Bytes
  import opened Media
  import opened TsMux
  import opened TsDemux

  // ----- bit fields

  lemma {:induction false} PtsFields(p: bytes, a: nat, b: nat, c: nat, d: nat, e: nat)
    requires |p| >= 14 && a < 8 && b < 256 && c < 128 && d < 256 && e < 128
    requires p[9] == 0x20 + a * 2 + 1 && p[10] == b && p[11] == c * 2 + 1 && p[12] == d && p[13] == e * 2 + 1
    ensures ReadPts(p) == a * 0x4000_0000 + b * 0x40_0000 + c * 0x8000 + d * 0x80 + e
  {
    assert p[9] as int % 16 / 2 == a && p[11] / 2 == c && p[13] / 2 == e;
  }

  /** The PTS bits survive the PES header. */
  lemma {:induction false} PtsBack(pts: ticks, rest: bytes)
    ensures ReadPts(PesHeader(pts) + rest) == pts
  {
    hide ReadPts;
    var h, p := PesHeader(pts), PesHeader(pts) + rest;
    assert p[9] == h[9] && p[10] == h[10] && p[11] == h[11] && p[12] == h[12] && p[13] == h[13];
    PtsFields(p, pts / 0x4000_0000 % 8, pts / 0x40_0000 % 256, pts / 0x8000 % 128, pts / 0x80 % 256, pts % 0x80);
    PtsDigits(pts);
  }

  lemma {:induction false} PtsDigits(pts: ticks)
    ensures pts == pts / 0x4000_0000 % 8 * 0x4000_0000 + pts / 0x40_0000 % 256 * 0x40_0000 + pts / 0x8000 % 128 * 0x8000 +
                   pts / 0x80 % 256 * 0x80 + pts % 0x80
  {
    var q := pts / 0x80;
    assert pts / 0x8000 == q / 0x100;
    var r := q / 0x100;
    assert pts / 0x40_0000 == r / 0x80;
    var s := r / 0x80;
    assert pts / 0x4000_0000 == s / 0x100;
  }

  /** The PCR base survives the adaptation field. */
  lemma {:induction false} PcrDigits(base: ticks)
    ensures base == base / 0x200_0000 % 256 * 0x200_0000 + base / 0x2_0000 % 256 * 0x2_0000 + base / 0x200 % 256 * 0x200 +
                    base / 2 % 256 * 2 + base % 2
  {
    var q := base / 2;
    assert base / 0x200 == q / 0x100;
    var r := q / 0x100;
    assert base / 0x2_0000 == r / 0x100;
    var s := r / 0x100;
    assert base / 0x200_0000 == s / 0x100;
  }

  // ----- one packet at a time

  /** The fields the demuxer reads from a packet header. */
  lemma {:induction false} HeaderBack(pid: u16, cc: counter, unitStart: bool, adaptation: bool, rest: bytes)
    requires pid < 0x2000
    ensures var p := Header(pid, cc, unitStart, adaptation) + rest;
            && p[0] == SYNC && (p[1] / 64 % 2 == 1 <==> unitStart) && FromBe16(p[1] % 32, p[2]) == pid
            && p[3] % 16 == cc && p[3] / 16 % 2 == 1 && (p[3] / 32 % 2 == 1 <==> adaptation)
  {
  }

  /** No continuity error so far, and the next counter on each PID is the mux's. */
  ghost predicate InStep(d: Demux, s: State) {
    && Valid(d) && d.report.ccErrors == [0, 0, 0]
    && (d.due[0].Some? ==> d.due[0].value == s.ccPat)
    && (d.due[1].Some? ==> d.due[1].value == s.ccPmt)
    && (d.due[2].Some? ==> d.due[2].value == s.ccVideo)
  }

  /** What the demuxer makes of a packet without adaptation field. */
  lemma {:induction false} PlainPacket(d: Demux, pid: u16, cc: counter, unitStart: bool, payload: bytes)
    requires Valid(d) && PidIndex(pid).Some? && |payload| == 184
    ensures var t := Track(d, PidIndex(pid).value, cc);
            Packet(d, Header(pid, cc, unitStart, false) + payload) ==
            if pid == PID_PMT && unitStart then ReadPmt(t, payload)
            else if pid == PID_VIDEO then ReadVideo(t, payload, unitStart)
            else Done(t)
  {
    hide Header, Track, ReadPmt, ReadVideo;
    HeaderBack(pid, cc, unitStart, false, payload);
    assert (Header(pid, cc, unitStart, false) + payload)[4..] == payload;
  }

  /** A packet whose adaptation field is `field` behind its length byte. */
  lemma {:induction false} FieldPacket(d: Demux, cc: counter, unitStart: bool, field: bytes, payload: bytes)
    requires Valid(d) && |field| <= 183 && 5 + |field| + |payload| == PACKET_LEN
    ensures var t := Track(d, 2, cc);
            var pkt := Header(PID_VIDEO, cc, unitStart, true) + [|field|] + field + payload;
            |pkt| == PACKET_LEN && Packet(d, pkt) ==
            ReadVideo(if |field| >= 7 && field[0] / 16 % 2 == 1
                      then t.(report := t.report.(pcr := t.report.pcr + [ReadPcr(pkt)])) else t,
                      payload, unitStart)
  {
    hide Header, Track, ReadVideo, ReadPcr;
    var pkt := Header(PID_VIDEO, cc, unitStart, true) + [|field|] + field + payload;
    assert pkt == Header(PID_VIDEO, cc, unitStart, true) + ([|field|] + field + payload);
    HeaderBack(PID_VIDEO, cc, unitStart, true, [|field|] + field + payload);
    assert pkt[4] == |field|;
    assert |field| > 0 ==> pkt[5] == field[0];
    assert pkt[5 + |field|..] == payload;
  }

  // ----- PSI

  lemma {:induction false} PatRead(d: Demux, cc: counter)
    requires Valid(d)
    ensures Packet(d, PatPacket(cc)) == Done(Track(d, 0, cc))
  {
    hide Header, Track, SectionPayload, ReadPmt, ReadVideo, Packet;
    PlainPacket(d, PID_PAT, cc, true, SectionPayload(PAT_SECTION));
  }

  lemma {:induction false} PmtRead(d: Demux, cc: counter)
    requires Valid(d)
    ensures var t := Track(d, 1, cc);
            Packet(d, PmtPacket(cc)) == Done(t.(report := t.report.(streamType := Some(STREAM_TYPE_H264))))
  {
    hide Header, Track, ReadPmt, ReadVideo, Packet, Fill;
    PlainPacket(d, PID_PMT, cc, true, SectionPayload(PMT_SECTION));
    var crc := Crc32.ToBytes(Crc32.BigEndian(Crc32.Crc(Crc32.Bits(PMT_SECTION))));
    var fill := Fill(PACKET_LEN - 5 - |PMT_SECTION + crc|);
    assert SectionPayload(PMT_SECTION) == [0] + PMT_SECTION + (crc + fill);
    PmtSection(Track(d, 1, cc), SectionPayload(PMT_SECTION), crc + fill);
  }

  lemma {:induction false} PmtSection(t: Demux, payload: bytes, rest: bytes)
    requires payload == [0] + PMT_SECTION + rest
    ensures ReadPmt(t, payload) == Done(t.(report := t.report.(streamType := Some(STREAM_TYPE_H264))))
  {
    hide PMT_SECTION, ReadPmt, FromBe16;
    PmtBytes();
    SectionByte(payload, PMT_SECTION, rest, 10);
    SectionByte(payload, PMT_SECTION, rest, 11);
    SectionByte(payload, PMT_SECTION, rest, 12);
    SectionByte(payload, PMT_SECTION, rest, 13);
    SectionByte(payload, PMT_SECTION, rest, 14);
    PmtFields(t, payload);
  }

  lemma {:induction false} PmtBytes()
    ensures |PMT_SECTION| == 17 && PMT_SECTION[10] == 0xF0 && PMT_SECTION[11] == 0
    ensures PMT_SECTION[12] == STREAM_TYPE_H264 && PMT_SECTION[13] == 0xE1 && PMT_SECTION[14] == 0
  {
  }

  lemma {:induction false} SectionByte(payload: bytes, section: bytes, rest: bytes, k: nat)
    requires payload == [0] + section + rest && k < |section|
    ensures |payload| > |section| && payload[0] == 0 && payload[1 + k] == section[k]
  {
  }

  /** Without program descriptors the first stream's type and PID follow at once. */
  lemma {:induction false} PmtFields(t: Demux, payload: bytes)
    requires |payload| >= 18 && payload[0] == 0 && payload[11] == 0xF0 && payload[12] == 0
    requires payload[14] == 0xE1 && payload[15] == 0
    ensures ReadPmt(t, payload) == Done(t.(report := t.report.(streamType := Some(payload[13]))))
  {
    var sec := payload[1..];
    assert sec[10] == payload[11] && sec[11] == payload[12];
    assert sec[12] == payload[13] && sec[13] == payload[14] && sec[14] == payload[15];
  }

  // ----- video

  /** The demuxer with a finished access unit moved to the report and a new one begun. */
  function Begin(d: Demux, cc: counter, pcr: nat, pts: nat, data: bytes): Demux
    requires Valid(d)
  {
    var t := Track(d, 2, cc);
    Close(t.(report := t.report.(pcr := t.report.pcr + [pcr]))).(current := Some((data, pts)))
  }

  lemma {:induction false} PesBack(pts: ticks, data: bytes)
    ensures var p := PesHeader(pts) + data;
            && |p| >= 14 && p[..4] == [0, 0, 1, 0xE0] && p[7] >= 128 && p[8] == 5 && p[14..] == data
  {
  }

  lemma {:induction false} FirstRead(d: Demux, cc: counter, key: bool, pcr: ticks, pts: ticks, data: bytes)
    requires Valid(d) && data != []
    ensures var full := PesHeader(pts) + data;
            var take := 183 - FirstFieldLen(|full|);
            && 14 <= take <= |full|
            && Packet(d, FirstPacket(cc, key, pcr, full)) == Done(Begin(d, cc, pcr, pts, data[..take - 14]))
  {
    hide Header, Track, Fill, PesHeader, ReadPts, ReadPcr, PcrField, Packet, ReadVideo;
    var full := PesHeader(pts) + data;
    var l := FirstFieldLen(|full|);
    var head, pcrField, fill := Header(PID_VIDEO, cc, true, true), PcrField(pcr), Fill(l - 7);
    var flags: byte := 0x10 + if key then 0x40 else 0;
    var field, first := [flags] + pcrField + fill, data[..183 - l - 14];
    var payload := PesHeader(pts) + first;
    assert full[..183 - l] == payload;
    var pkt := FirstPacket(cc, key, pcr, full);
    assert pkt == head + [|field|] + field + payload;
    FieldPacket(d, cc, true, field, payload);
    assert pkt == head + [l] + [flags] + pcrField + (fill + payload);
    FirstPcr(pkt, head, flags, l, pcr, fill + payload);
    BeginRead(Track(d, 2, cc), pcr, pts, first);
  }

  lemma {:induction false} BeginRead(t: Demux, pcr: nat, pts: ticks, first: bytes)
    ensures ReadVideo(t.(report := t.report.(pcr := t.report.pcr + [pcr])), PesHeader(pts) + first, true) ==
            Done(Close(t.(report := t.report.(pcr := t.report.pcr + [pcr]))).(current := Some((first, pts))))
  {
    hide ReadPts, PesHeader;
    PesBack(pts, first);
    PtsBack(pts, first);
  }

  lemma {:induction false} FirstPcr(pkt: bytes, head: bytes, flags: byte, l: byte, pcr: ticks, rest: bytes)
    requires |pkt| == PACKET_LEN && |head| == 4 && pkt == head + [l] + [flags] + PcrField(pcr) + rest
    ensures ReadPcr(pkt) == pcr
  {
    var f := PcrField(pcr);
    assert pkt[6] == f[0] && pkt[7] == f[1] && pkt[8] == f[2] && pkt[9] == f[3] && pkt[10] == f[4];
    PcrDigits(pcr);
  }

  lemma {:induction false} TrackKeeps(d: Demux, idx: nat, cc: counter)
    requires Valid(d) && idx < 3
    ensures Track(d, idx, cc).current == d.current
  {
  }

  lemma {:induction false} NextRead(d: Demux, cc: counter, data: bytes)
    requires Valid(d) && data != [] && d.current.Some?
    ensures Packet(d, NextPacket(cc, data)) ==
            Done(Track(d, 2, cc).(current := Some((d.current.value.0 + data[..NextTake(|data|)], d.current.value.1))))
  {
    hide Header, Fill, Packet, Track, ReadPmt, ReadPcr;
    TrackKeeps(d, 2, cc);
    if |data| >= 184 {
      PlainPacket(d, PID_VIDEO, cc, false, data[..184]);
    } else {
      var l := 183 - |data|;
      var field := if l >= 1 then [0] + Fill(l - 1) else [];
      assert data[..|data|] == data;
      assert NextPacket(cc, data) == Header(PID_VIDEO, cc, false, true) + [|field|] + field + data;
      FieldPacket(d, cc, false, field, data);
    }
  }

  // ----- runs

  /** Continuity bookkeeping of `n` video packets from counter `cc` on. */
  lemma {:induction false} TrackInStep(d: Demux, s: State, idx: nat)
    requires InStep(d, s) && idx < 3
    ensures var cc := if idx == 0 then s.ccPat else if idx == 1 then s.ccPmt else s.ccVideo;
            var t := Track(d, idx, cc);
            && InStep(t, if idx == 0 then s.(ccPat := Bump(s.ccPat)) else if idx == 1 then s.(ccPmt := Bump(s.ccPmt))
                         else s.(ccVideo := Bump(s.ccVideo)))
            && t.report == d.report.(packets := d.report.packets + 1) && t.current == d.current
  {
  }

  lemma {:induction false} PacketsCons(d: Demux, pkt: bytes, rest: seq<bytes>)
    requires Valid(d) && |pkt| == PACKET_LEN && AllPackets(rest)
    ensures AllPackets([pkt] + rest)
    ensures Packets(d, [pkt] + rest) ==
            match Packet(d, pkt)
            case Done(d') => Packets(d', rest)
            case Failed(f) => Failed(f)
  {
    hide Packet;
    assert ([pkt] + rest)[1..] == rest;
  }

  lemma {:induction false} PacketsAppend(d: Demux, a: seq<bytes>, b: seq<bytes>)
    requires Valid(d) && AllPackets(a) && AllPackets(b)
    ensures AllPackets(a + b)
    ensures Packets(d, a + b) ==
            match Packets(d, a)
            case Done(d') => Packets(d', b)
            case Failed(f) => Failed(f)
    decreases |a|
  {
    hide Packet;
    if a == [] {
      assert a + b == b;
    } else {
      assert (a + b)[1..] == a[1..] + b;
      var r := Packet(d, a[0]);
      if r.Done? {
        PacketsAppend(r.value, a[1..], b);
      }
    }
  }

  lemma {:induction false} NextPacketsShape(cc: counter, data: bytes)
    ensures AllPackets(NextPackets(cc, data))
    decreases |data|
  {
    hide NextPacket;
    if data != [] {
      NextPacketsShape(Bump(cc), data[NextTake(|data|)..]);
    }
  }

  /** The later packets of a unit bring the rest of its bytes. */
  lemma {:induction false} NextPacketsRead(d: Demux, s: State, data: bytes)
    requires InStep(d, s) && d.current.Some?
    ensures AllPackets(NextPackets(s.ccVideo, data))
    ensures var n := |NextPackets(s.ccVideo, data)|;
            var r := Packets(d, NextPackets(s.ccVideo, data));
            && r.Done?
            && InStep(r.value, s.(ccVideo := Advance(s.ccVideo, n)))
            && r.value.report == d.report.(packets := d.report.packets + n)
            && r.value.current == Some((d.current.value.0 + data, d.current.value.1))
    decreases |data|
  {
    hide NextPacket, Packet, InStep, Track, NextTake, Valid;
    InStepValid(d, s);
    NextPacketsShape(s.ccVideo, data);
    if data == [] {
      NothingMore(d, s);
    } else {
      var pkt, take := NextPacket(s.ccVideo, data), NextTake(|data|);
      var rest := NextPackets(Bump(s.ccVideo), data[take..]);
      NextPacketsShape(Bump(s.ccVideo), data[take..]);
      NextRead(d, s.ccVideo, data);
      TrackInStep(d, s, 2);
      var s1 := s.(ccVideo := Bump(s.ccVideo));
      var d1 := Track(d, 2, s.ccVideo).(current := Some((d.current.value.0 + data[..take], d.current.value.1)));
      SetCurrent(Track(d, 2, s.ccVideo), s1, d1.current);
      NextPacketsRead(d1, s1, data[take..]);
      PacketsCons(d, pkt, rest);
      assert d.current.value.0 + data[..take] + data[take..] == d.current.value.0 + data;
      AdvanceBump(s.ccVideo, |rest|);
    }
  }

  lemma {:induction false} InStepValid(d: Demux, s: State)
    requires InStep(d, s)
    ensures Valid(d)
  {
  }

  lemma {:induction false} NothingMore(d: Demux, s: State)
    requires InStep(d, s) && d.current.Some?
    ensures NextPackets(s.ccVideo, []) == [] && Packets(d, []) == Done(d)
    ensures InStep(d, s.(ccVideo := Advance(s.ccVideo, 0)))
    ensures d.current == Some((d.current.value.0 + [], d.current.value.1))
  {
    assert d.current.value.0 + [] == d.current.value.0;
  }

  lemma {:induction false} SetCurrent(d: Demux, s: State, current: Option<(bytes, nat)>)
    requires InStep(d, s)
    ensures InStep(d.(current := current), s)
  {
  }

  lemma {:induction false} AdvanceBump(cc: counter, n: nat)
    ensures Advance(Bump(cc), n) == Advance(cc, n + 1)
  {
  }

  /** The report once the access unit in progress is counted in. */
  function Closed(d: Demux): Report {
    Close(d).report
  }

  /** One access unit's video packets add exactly that unit. */
  lemma {:induction false} VideoRead(d: Demux, s: State, key: bool, pcr: ticks, pts: ticks, data: bytes)
    requires InStep(d, s) && data != []
    ensures var pkts := VideoPackets(s.ccVideo, key, pcr, PesHeader(pts) + data);
            AllPackets(pkts) &&
            var n, r := |pkts|, Packets(d, pkts);
            && r.Done? && r.value.current == Some((data, pts))
            && InStep(r.value, s.(ccVideo := Advance(s.ccVideo, n)))
            && r.value.report == Closed(d).(pcr := d.report.pcr + [pcr], packets := d.report.packets + n)
  {
    hide NextPacket, Packet, InStep, Track, FirstPacket, PesHeader, FirstFieldLen, NextPackets, Packets, Valid;
    InStepValid(d, s);
    var full := PesHeader(pts) + data;
    var take := 183 - FirstFieldLen(|full|);
    FirstRead(d, s.ccVideo, key, pcr, pts, data);
    TrackInStep(d, s, 2);
    var s1 := s.(ccVideo := Bump(s.ccVideo));
    var d1 := Begin(d, s.ccVideo, pcr, pts, data[..take - 14]);
    BeginInStep(d, s, pcr, pts, data[..take - 14]);
    assert full[take..] == data[take - 14..];
    NextPacketsRead(d1, s1, data[take - 14..]);
    PacketsCons(d, FirstPacket(s.ccVideo, key, pcr, full), NextPackets(Bump(s.ccVideo), full[take..]));
    assert data[..take - 14] + data[take - 14..] == data;
    AdvanceBump(s.ccVideo, |NextPackets(Bump(s.ccVideo), full[take..])|);
  }

  lemma {:induction false} BeginInStep(d: Demux, s: State, pcr: nat, pts: nat, data: bytes)
    requires InStep(d, s)
    ensures var b := Begin(d, s.ccVideo, pcr, pts, data);
            && InStep(b, s.(ccVideo := Bump(s.ccVideo)))
            && b.current == Some((data, pts))
            && b.report == Closed(d).(pcr := d.report.pcr + [pcr], packets := d.report.packets + 1)
  {
  }

  // ----- the whole mux

  function UnitsOf(ps: seq<MediaPacket>): seq<bytes> {
    if ps == [] then [] else [WithAud(ps[0].data)] + UnitsOf(ps[1..])
  }

  function PtsOf(ps: seq<MediaPacket>): seq<nat> {
    if ps == [] then [] else [Pts(ps[0].timestamp)] + PtsOf(ps[1..])
  }

  function PcrOf(ps: seq<MediaPacket>): seq<nat> {
    if ps == [] then [] else [Pcr(Pts(ps[0].timestamp))] + PcrOf(ps[1..])
  }

  lemma {:induction false} PsiRead(d: Demux, s: State, p: MediaPacket)
    requires InStep(d, s)
    ensures AllPackets(Psi(s, p))
    ensures var r := Packets(d, Psi(s, p));
            && r.Done? && r.value.current == d.current
            && InStep(r.value, if NeedsPsi(s, p) then AfterPsi(s) else s)
            && r.value.report ==
               if NeedsPsi(s, p)
               then d.report.(streamType := Some(STREAM_TYPE_H264), packets := d.report.packets + 2)
               else d.report
  {
    hide Packet, PatPacket, PmtPacket, Track, NeedsPsi;
    if NeedsPsi(s, p) {
      var s1 := s.(ccPat := Bump(s.ccPat));
      PatRead(d, s.ccPat);
      TrackInStep(d, s, 0);
      var d1 := Track(d, 0, s.ccPat);
      PmtRead(d1, s.ccPmt);
      TrackInStep(d1, s1, 1);
      var d2 := Track(d1, 1, s.ccPmt);
      var d3 := d2.(report := d2.report.(streamType := Some(STREAM_TYPE_H264)));
      assert Packets(d3, []) == Done(d3);
      PacketsCons(d1, PmtPacket(s.ccPmt), []);
      PacketsCons(d, PatPacket(s.ccPat), [PmtPacket(s.ccPmt)] + []);
      assert Psi(s, p) == [PatPacket(s.ccPat)] + ([PmtPacket(s.ccPmt)] + []);
    }
  }

  /** The demuxer after one access unit: that unit in progress, the one before it in the report. */
  ghost predicate Pushed(d: Demux, s: State, p: MediaPacket, e: Demux)
    requires Accepts(p)
  {
    && e.current == Some((WithAud(p.data), Pts(p.timestamp)))
    && InStep(e, Push(s, p)) && Push(s, p).started
    && e.report == Closed(d).(pcr := d.report.pcr + [Pcr(Pts(p.timestamp))], streamType := Some(STREAM_TYPE_H264),
                              packets := d.report.packets + |Sent(s, p)|)
  }

  ghost predicate Typed(d: Demux, s: State) {
    s.started ==> d.report.streamType == Some(STREAM_TYPE_H264)
  }

  lemma {:induction false} VideoShape(s: State, p: MediaPacket)
    requires Accepts(p)
    ensures AllPackets(Video(s, p)) && AllPackets(Psi(s, p)) && AllPackets(Sent(s, p))
  {
    hide FirstPacket, NextPackets, PatPacket, PmtPacket, NeedsPsi, PesHeader, WithAud, AllPackets;
    WithAudNonEmpty(p);
    var data := PesHeader(Pts(p.timestamp)) + WithAud(p.data);
    var first := FirstPacket(s.ccVideo, IsKey(p), Pcr(Pts(p.timestamp)), data);
    var next := NextPackets(Bump(s.ccVideo), data[183 - FirstFieldLen(|data|)..]);
    NextPacketsShape(Bump(s.ccVideo), data[183 - FirstFieldLen(|data|)..]);
    OnePacket(first);
    AllAppend([first], next);
    OnePacket(PatPacket(s.ccPat));
    OnePacket(PmtPacket(s.ccPmt));
    AllAppend([PatPacket(s.ccPat)], [PmtPacket(s.ccPmt)]);
    assert [PatPacket(s.ccPat)] + [PmtPacket(s.ccPmt)] == [PatPacket(s.ccPat), PmtPacket(s.ccPmt)];
    AllAppend(Psi(s, p), Video(s, p));
  }

  lemma {:induction false} OnePacket(pkt: bytes)
    requires |pkt| == PACKET_LEN
    ensures AllPackets([pkt]) && AllPackets([])
  {
  }

  lemma {:induction false} AllAppend(a: seq<bytes>, b: seq<bytes>)
    requires AllPackets(a) && AllPackets(b)
    ensures AllPackets(a + b)
  {
  }

  /** One push, demultiplexed. */
  lemma {:induction false} PushRead(d: Demux, s: State, p: MediaPacket)
    requires InStep(d, s) && Valid(d) && Accepts(p) && Typed(d, s)
    ensures AllPackets(Sent(s, p))
    ensures Packets(d, Sent(s, p)).Done? && Pushed(d, s, p, Packets(d, Sent(s, p)).value)
  {
    hide InStep, Packets, VideoPackets, NeedsPsi, PesHeader, Valid, AllPackets, WithAud, Psi;
    VideoShape(s, p);
    WithAudNonEmpty(p);
    var pts := Pts(p.timestamp);
    var t := if NeedsPsi(s, p) then AfterPsi(s) else s;
    PsiRead(d, s, p);
    PsiCount(s, p);
    var d1 := Packets(d, Psi(s, p)).value;
    InStepValid(d1, t);
    VideoRead(d1, t, IsKey(p), Pcr(pts), pts, WithAud(p.data));
    PacketsAppend(d, Psi(s, p), Video(s, p));
    StartedOrPsi(s, p);
    InStepCounters(Packets(d1, Video(s, p)).value, t.(ccVideo := Advance(s.ccVideo, |Video(s, p)|)), Push(s, p));
  }

  lemma {:induction false} PsiCount(s: State, p: MediaPacket)
    ensures |Psi(s, p)| == if NeedsPsi(s, p) then 2 else 0
  {
  }

  lemma {:induction false} StartedOrPsi(s: State, p: MediaPacket)
    ensures !NeedsPsi(s, p) ==> s.started
  {
  }

  lemma {:induction false} WithAudNonEmpty(p: MediaPacket)
    requires Accepts(p)
    ensures WithAud(p.data) != []
  {
  }

  lemma {:induction false} InStepCounters(d: Demux, s: State, t: State)
    requires InStep(d, s) && s.ccPat == t.ccPat && s.ccPmt == t.ccPmt && s.ccVideo == t.ccVideo
    ensures InStep(d, t)
  {
  }

  /** The report `c` with a whole run added. */
  function Extended(c: Report, ps: seq<MediaPacket>, n: nat): Report {
    Report(c.accessUnits + UnitsOf(ps), c.pts + PtsOf(ps), if ps == [] then c.streamType else Some(STREAM_TYPE_H264),
           c.pcr + PcrOf(ps), [0, 0, 0], c.packets + n)
  }

  lemma {:induction false} StreamShape(s: State, ps: seq<MediaPacket>)
    requires AllAccepted(ps)
    ensures AllPackets(Stream(s, ps))
    decreases |ps|
  {
    hide Sent, Accepts, Push, AllPackets, AllAccepted, Stream;
    if ps == [] {
      NoStream(s);
    } else {
      StreamStep(s, ps);
      VideoShape(s, ps[0]);
      StreamShape(Push(s, ps[0]), ps[1..]);
      AllAppend(Sent(s, ps[0]), Stream(Push(s, ps[0]), ps[1..]));
    }
  }

  lemma {:induction false} NoStream(s: State)
    ensures Stream(s, []) == [] && AllPackets([])
  {
  }

  lemma {:induction false} StreamStep(s: State, ps: seq<MediaPacket>)
    requires AllAccepted(ps) && ps != []
    ensures Accepts(ps[0]) && AllAccepted(ps[1..]) && Stream(s, ps) == Sent(s, ps[0]) + Stream(Push(s, ps[0]), ps[1..])
  {
    hide Sent, Accepts, Push;
  }

  /** A run, demultiplexed from any demuxer in step with the mux. */
  lemma {:induction false} RunRead(d: Demux, s: State, ps: seq<MediaPacket>)
    requires InStep(d, s) && Valid(d) && AllAccepted(ps) && Typed(d, s)
    ensures AllPackets(Stream(s, ps))
    ensures Packets(d, Stream(s, ps)).Done?
    ensures Closed(Packets(d, Stream(s, ps)).value) == Extended(Closed(d), ps, |Stream(s, ps)|)
    decreases |ps|
  {
    hide InStep, Packets, Sent, Push, AllPackets, Valid, Stream, Accepts, Extended, Pushed, AllAccepted;
    StreamShape(s, ps);
    if ps == [] {
      EmptyRun(d, s);
    } else {
      var p, rest := ps[0], ps[1..];
      StreamStep(s, ps);
      VideoShape(s, p);
      PushRead(d, s, p);
      var d1 := Packets(d, Sent(s, p)).value;
      PushedFacts(d, s, p, d1);
      StreamShape(Push(s, p), rest);
      RunRead(d1, Push(s, p), rest);
      PacketsAppend(d, Sent(s, p), Stream(Push(s, p), rest));
      ExtendedStep(d, s, ps, d1, |Stream(Push(s, p), rest)|);
    }
  }

  lemma {:induction false} PushedFacts(d: Demux, s: State, p: MediaPacket, e: Demux)
    requires Accepts(p)
    ensures Pushed(d, s, p, e) ==> InStep(e, Push(s, p)) && Valid(e) && Typed(e, Push(s, p))
  {
    hide Sent, Push, WithAud;
  }

  lemma {:induction false} ExtendedStep(d: Demux, s: State, ps: seq<MediaPacket>, e: Demux, n: nat)
    requires ps != [] && Accepts(ps[0])
    ensures Pushed(d, s, ps[0], e) ==>
              Extended(Closed(e), ps[1..], n) == Extended(Closed(d), ps, |Sent(s, ps[0])| + n)
  {
    hide InStep, Sent, WithAud, Pts, Pcr, Push, UnitsOf, PtsOf, PcrOf, Close;
    var p, rest, c := ps[0], ps[1..], Closed(d);
    ClosedPcr(d);
    if Pushed(d, s, p, e) {
      ClosedNext(e);
    }
    ListsStep(ps);
    Assoc(c.accessUnits, [WithAud(p.data)], UnitsOf(rest));
    Assoc(c.pts, [Pts(p.timestamp)], PtsOf(rest));
    Assoc(c.pcr, [Pcr(Pts(p.timestamp))], PcrOf(rest));
  }

  lemma {:induction false} Assoc<T>(a: seq<T>, b: seq<T>, c: seq<T>)
    ensures (a + b) + c == a + (b + c)
  {
  }

  lemma {:induction false} ClosedPcr(d: Demux)
    ensures Closed(d).pcr == d.report.pcr && Closed(d).packets == d.report.packets
    ensures Closed(d).streamType == d.report.streamType
  {
  }

  lemma {:induction false} ClosedNext(e: Demux)
    requires e.current.Some?
    ensures Closed(e) == e.report.(accessUnits := e.report.accessUnits + [e.current.value.0],
                                   pts := e.report.pts + [e.current.value.1])
  {
  }

  lemma {:induction false} ListsStep(ps: seq<MediaPacket>)
    requires ps != []
    ensures UnitsOf(ps) == [WithAud(ps[0].data)] + UnitsOf(ps[1..])
    ensures PtsOf(ps) == [Pts(ps[0].timestamp)] + PtsOf(ps[1..])
    ensures PcrOf(ps) == [Pcr(Pts(ps[0].timestamp))] + PcrOf(ps[1..])
  {
  }

  lemma {:induction false} EmptyRun(d: Demux, s: State)
    requires InStep(d, s)
    ensures Stream(s, []) == [] && Packets(d, []) == Done(d)
    ensures Closed(d) == Extended(Closed(d), [], 0)
  {
    var c := Closed(d);
    assert c.accessUnits + [] == c.accessUnits && c.pts + [] == c.pts && c.pcr + [] == c.pcr;
  }

  lemma {:induction false} ChunksConcat(pkts: seq<bytes>)
    requires AllPackets(pkts)
    ensures |Concat(pkts)| % PACKET_LEN == 0 && Chunks(Concat(pkts)) == pkts
    decreases |pkts|
  {
    if pkts != [] {
      ChunksConcat(pkts[1..]);
      var rest := Concat(pkts[1..]);
      assert Concat(pkts)[..PACKET_LEN] == pkts[0] && Concat(pkts)[PACKET_LEN..] == rest;
    }
  }

  /** Any run of the mux, demultiplexed: the access units (a delimiter in front where one was absent), their
      33-bit PTS, one PCR each, the stream type, and not one continuity error. */
  lemma {:induction false} MuxDemux(ps: seq<MediaPacket>)
    requires AllAccepted(ps)
    ensures TsDemux.Parse(Concat(Stream(INIT, ps))) ==
            Done(Report(UnitsOf(ps), PtsOf(ps), if ps == [] then None else Some(STREAM_TYPE_H264), PcrOf(ps),
                        [0, 0, 0], |Stream(INIT, ps)|))
  {
    hide Packets, Stream, Chunks, UnitsOf, PtsOf, PcrOf;
    RunRead(START, INIT, ps);
    ChunksConcat(Stream(INIT, ps));
    assert [] + UnitsOf(ps) == UnitsOf(ps) && [] + PtsOf(ps) == PtsOf(ps) && [] + PcrOf(ps) == PcrOf(ps);
  }

  /** The clock reference never runs ahead of the unit it stands in front of. */
  lemma {:induction false} PcrNotAhead(ps: seq<MediaPacket>, k: nat)
    requires k < |ps|
    ensures |PtsOf(ps)| == |PcrOf(ps)| == |UnitsOf(ps)| == |ps|
    ensures PcrOf(ps)[k] <= PtsOf(ps)[k]
    ensures PtsOf(ps)[k] - PcrOf(ps)[k] == Min(PtsOf(ps)[k], PCR_DELAY)
    decreases |ps|
  {
    if k > 0 {
      PcrNotAhead(ps[1..], k - 1);
    } else {
      Lengths(ps[1..]);
    }
  }

  lemma {:induction false} Lengths(ps: seq<MediaPacket>)
    ensures |PtsOf(ps)| == |PcrOf(ps)| == |UnitsOf(ps)| == |ps|
  {
    if ps != [] {
      Lengths(ps[1..]);
    }
  }
}
