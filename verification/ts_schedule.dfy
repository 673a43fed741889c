/** Delimiters and program tables in the mux's stream. */
module TsSchedule {
  import opened Bytes
  import opened Media
  import opened TsMux
  import opened AnnexB
  import AccessUnits
  import RT = TsRoundTrip
  import TsDemux
  import Crc32

  // ----- access unit delimiters

  /** A NAL unit that starts with a nonzero byte starts with that byte. */
  lemma {:induction false} FirstNal(t: bytes)
    requires t != [] && t[0] != 0
    ensures Nals(t) != [] && Nals(t)[0] != [] && Nals(t)[0][0] == t[0]
  {
    hide FindCode, Nals;
    NalsStep(t);
    CodeNotFirst(t);
  }

  lemma {:induction false} CodeNotFirst(t: bytes)
    requires t != [] && t[0] != 0
    ensures FindCode(t, 0).Some? ==> FindCode(t, 0).value.begin > 0
  {
    FindCodeIs(t, 0);
    hide FindCode, CodeAt;
  }

  lemma {:induction false} AudOpens(data: bytes)
    ensures AccessUnits.StartsWithAud(AUD_NAL + data)
  {
    var u, t := AUD_NAL + data, [9, 0xF0] + data;
    CodeIsFound(u, 0, Code(0, 4));
    assert u[4..] == t;
    hide FindCode, Nals;
    FirstNal(t);
    assert NalUnits(u) == Nals(t);
  }

  /** What goes out begins with a delimiter, and would go out unchanged a second time. */
  lemma {:induction false} AudOnce(data: bytes)
    ensures AccessUnits.StartsWithAud(WithAud(data))
    ensures WithAud(WithAud(data)) == WithAud(data)
  {
    hide AccessUnits.StartsWithAud;
    AudOpens(data);
    assert [] + data == data;
    assert [] + WithAud(data) == WithAud(data);
  }

  /** The same packets carrying the recovered access units. */
  function Again(ps: seq<MediaPacket>): seq<MediaPacket> {
    if ps == [] then [] else [ps[0].(data := WithAud(ps[0].data))] + Again(ps[1..])
  }

  lemma {:induction false} AgainSame(ps: seq<MediaPacket>)
    requires AllAccepted(ps)
    ensures AllAccepted(Again(ps)) && RT.UnitsOf(Again(ps)) == RT.UnitsOf(ps)
    ensures |RT.UnitsOf(ps)| == |ps|
    ensures forall k :: 0 <= k < |ps| ==> AccessUnits.StartsWithAud(RT.UnitsOf(ps)[k])
  {
    hide WithAud, AccessUnits.StartsWithAud;
    if ps != [] {
      RT.WithAudNonEmpty(ps[0]);
      AudOnce(ps[0].data);
      AgainSame(ps[1..]);
      assert Again(ps)[1..] == Again(ps[1..]);
    }
  }

  /** Every access unit recovered from a stream begins with a delimiter, and muxing the recovered units
      again recovers the same units: no second delimiter. */
  lemma {:induction false} RemuxSame(ps: seq<MediaPacket>)
    requires AllAccepted(ps)
    ensures AllAccepted(Again(ps))
    ensures var first := TsDemux.Parse(Concat(Stream(INIT, ps)));
            var second := TsDemux.Parse(Concat(Stream(INIT, Again(ps))));
            && first.Done? && second.Done? && second.value.accessUnits == first.value.accessUnits
            && forall u :: u in first.value.accessUnits ==> AccessUnits.StartsWithAud(u)
  {
    hide TsDemux.Parse, Stream, AccessUnits.StartsWithAud, RT.PtsOf, RT.PcrOf;
    AgainSame(ps);
    RT.MuxDemux(ps);
    RT.MuxDemux(Again(ps));
  }

  // ----- program tables

  /** The packet carries the PMT. */
  predicate IsPmt(pkt: bytes) {
    |pkt| >= 3 && FromBe16(pkt[1] % 32, pkt[2]) == PID_PMT
  }

  /** The packet carries the PAT. */
  predicate IsPat(pkt: bytes) {
    |pkt| >= 3 && FromBe16(pkt[1] % 32, pkt[2]) == PID_PAT
  }

  /** Packets after the last PMT. */
  function SincePmt(pkts: seq<bytes>): nat {
    if pkts == [] || IsPmt(pkts[|pkts| - 1]) then 0 else 1 + SincePmt(pkts[..|pkts| - 1])
  }

  lemma {:induction false} SinceAppend(a: seq<bytes>, b: seq<bytes>)
    requires forall k :: 0 <= k < |b| ==> !IsPmt(b[k])
    ensures SincePmt(a + b) == SincePmt(a) + |b|
    decreases |b|
  {
    hide IsPmt;
    if b == [] {
      assert a + b == a;
    } else {
      var c := b[..|b| - 1];
      assert (a + b)[..|a + b| - 1] == a + c;
      assert (a + b)[|a + b| - 1] == b[|b| - 1];
      SinceAppend(a, c);
    }
  }

  lemma {:induction false} SectionPid(pid: u16, cc: counter, section: bytes)
    requires |section| <= 100 && pid < 0x2000
    ensures IsPmt(SectionPacket(pid, cc, section)) <==> pid == PID_PMT
  {
    hide SectionPayload, Header;
    RT.HeaderBack(pid, cc, true, false, SectionPayload(section));
  }

  lemma {:induction false} FirstPid(cc: counter, key: bool, pcr: ticks, data: bytes)
    requires |data| >= 15
    ensures !IsPmt(FirstPacket(cc, key, pcr, data)) && !IsPat(FirstPacket(cc, key, pcr, data))
  {
    var l := FirstFieldLen(|data|);
    var rest := [l, 0x10 + if key then 0x40 else 0] + PcrField(pcr) + Fill(l - 7) + data[..183 - l];
    hide PcrField, Fill, Header;
    RT.HeaderBack(PID_VIDEO, cc, true, true, rest);
    assert FirstPacket(cc, key, pcr, data) == Header(PID_VIDEO, cc, true, true) + rest;
  }

  lemma {:induction false} NextPid(cc: counter, data: bytes)
    requires data != []
    ensures !IsPmt(NextPacket(cc, data)) && !IsPat(NextPacket(cc, data))
  {
    hide Fill, Header;
    if |data| >= 184 {
      RT.HeaderBack(PID_VIDEO, cc, false, false, data[..184]);
    } else {
      var l := 183 - |data|;
      var rest := [l] + (if l >= 1 then [0] + Fill(l - 1) else []) + data;
      RT.HeaderBack(PID_VIDEO, cc, false, true, rest);
      assert NextPacket(cc, data) == Header(PID_VIDEO, cc, false, true) + rest;
    }
  }

  /** How many later packets `n` bytes take. */
  lemma {:induction false} NextCount(cc: counter, data: bytes)
    ensures |NextPackets(cc, data)| == (|data| + 183) / 184
    ensures forall k :: 0 <= k < |NextPackets(cc, data)| ==>
              !IsPmt(NextPackets(cc, data)[k]) && !IsPat(NextPackets(cc, data)[k])
    decreases |data|
  {
    hide NextPacket, IsPmt, IsPat;
    if data != [] {
      NextPid(cc, data);
      NextCount(Bump(cc), data[NextTake(|data|)..]);
    }
  }

  /** Transport packets of an access unit of `n` bytes, delimiter included: one with the PCR, which takes 176
      bytes of PES at most, and full ones after it. */
  function UnitPackets(n: nat): nat {
    1 + (14 + n - Min(14 + n, 176) + 183) / 184
  }

  lemma {:induction false} VideoCount(s: State, p: MediaPacket)
    requires Accepts(p)
    ensures |Video(s, p)| == UnitPackets(|WithAud(p.data)|)
    ensures forall k :: 0 <= k < |Video(s, p)| ==> !IsPmt(Video(s, p)[k]) && !IsPat(Video(s, p)[k])
  {
    hide NextPackets, FirstPacket, PesHeader, WithAud, IsPmt, IsPat;
    RT.WithAudNonEmpty(p);
    var data := PesHeader(Pts(p.timestamp)) + WithAud(p.data);
    var rest := data[183 - FirstFieldLen(|data|)..];
    NextCount(Bump(s.ccVideo), rest);
    FirstPid(s.ccVideo, IsKey(p), Pcr(Pts(p.timestamp)), data);
  }

  /** Packets since the last pair when the unit's own packets begin. */
  function AtUnitStart(s: State, p: MediaPacket): nat {
    if NeedsPsi(s, p) then 0 else s.sincePsi
  }

  /** The mux's counter is the number of packets after the last PMT in what it wrote. */
  lemma {:induction false} SincePsiCounts(s: State, p: MediaPacket, before: seq<bytes>)
    requires Accepts(p) && s.sincePsi == SincePmt(before)
    ensures Push(s, p).sincePsi == SincePmt(before + Sent(s, p))
    ensures Push(s, p).sincePsi == AtUnitStart(s, p) + UnitPackets(|WithAud(p.data)|)
  {
    hide IsPmt, Video, NeedsPsi, PatPacket, PmtPacket, WithAud;
    VideoCount(s, p);
    if NeedsPsi(s, p) {
      SectionPid(PID_PMT, s.ccPmt, PMT_SECTION);
      assert IsPmt(PmtPacket(s.ccPmt)) by {
        PmtIsPmt(s.ccPmt);
      }
      var a := before + Psi(s, p);
      assert a[|a| - 1] == PmtPacket(s.ccPmt);
      SinceAppend(a, Video(s, p));
      assert before + Sent(s, p) == a + Video(s, p);
    } else {
      assert before + Sent(s, p) == before + Video(s, p);
      SinceAppend(before, Video(s, p));
    }
  }

  lemma {:induction false} PmtIsPmt(cc: counter)
    ensures IsPmt(PmtPacket(cc))
  {
    SectionPid(PID_PMT, cc, PMT_SECTION);
  }

  lemma {:induction false} RunCounts(s: State, ps: seq<MediaPacket>, before: seq<bytes>)
    requires AllAccepted(ps) && s.sincePsi == SincePmt(before)
    ensures RunMux(s, ps).sincePsi == SincePmt(before + Stream(s, ps))
    decreases |ps|
  {
    hide Sent, Push, Accepts, SincePmt;
    if ps == [] {
      assert before + [] == before;
    } else {
      SincePsiCounts(s, ps[0], before);
      RunCounts(Push(s, ps[0]), ps[1..], before + Sent(s, ps[0]));
      assert before + Sent(s, ps[0]) + Stream(Push(s, ps[0]), ps[1..]) == before + Stream(s, ps);
    }
  }

  /** At any point of any run: the next unit is preceded by PAT and PMT when it is the first, a key unit, or 64
      packets have gone by; so when its video packets begin, fewer than 64 packets have followed the last PMT. */
  lemma {:induction false} TablesOnTime(ps: seq<MediaPacket>, p: MediaPacket)
    requires AllAccepted(ps) && Accepts(p)
    ensures var s, written := RunMux(INIT, ps), Stream(INIT, ps);
            && (ps == [] || IsKey(p) || SincePmt(written) >= PSI_INTERVAL ==>
                  Sent(s, p) == [PatPacket(s.ccPat), PmtPacket(s.ccPmt)] + Video(s, p))
            && SincePmt(written + Psi(s, p)) == AtUnitStart(s, p) < PSI_INTERVAL
  {
    hide IsPmt, Video, PatPacket, PmtPacket, Stream, RunMux, IsKey;
    var s, written := RunMux(INIT, ps), Stream(INIT, ps);
    RunCounts(INIT, ps, []);
    assert [] + written == written;
    NotStarted(ps);
    if NeedsPsi(s, p) {
      PmtIsPmt(s.ccPmt);
      var a := written + Psi(s, p);
      assert a[|a| - 1] == PmtPacket(s.ccPmt);
    } else {
      assert written + [] == written;
    }
  }

  /** How many of the packets carry the PMT. */
  function Pmts(pkts: seq<bytes>): nat {
    if pkts == [] then 0 else (if IsPmt(pkts[0]) then 1 else 0) + Pmts(pkts[1..])
  }

  lemma {:induction false} PmtsAppend(a: seq<bytes>, b: seq<bytes>)
    ensures Pmts(a + b) == Pmts(a) + Pmts(b)
  {
    hide IsPmt;
    if a == [] {
      assert a + b == b;
    } else {
      assert (a + b)[1..] == a[1..] + b;
      PmtsAppend(a[1..], b);
    }
  }

  lemma {:induction false} NoPmts(pkts: seq<bytes>)
    requires forall k :: 0 <= k < |pkts| ==> !IsPmt(pkts[k])
    ensures Pmts(pkts) == 0
  {
    hide IsPmt;
    if pkts != [] {
      NoPmts(pkts[1..]);
    }
  }

  lemma {:induction false} PairTally(s: State)
    ensures Pmts([PatPacket(s.ccPat), PmtPacket(s.ccPmt)]) == 1
  {
    hide IsPmt, SectionPacket;
    SectionPid(PID_PAT, s.ccPat, PAT_SECTION);
    PmtIsPmt(s.ccPmt);
    var pair := [PatPacket(s.ccPat), PmtPacket(s.ccPmt)];
    assert pair[1..] == [PmtPacket(s.ccPmt)];
    assert Pmts(pair[1..]) == 1;
  }

  lemma {:induction false} UnitTally(s: State, p: MediaPacket)
    requires Accepts(p)
    ensures Push(s, p).packets == s.packets + |Sent(s, p)| && Push(s, p).psiWritten == s.psiWritten + Pmts(Sent(s, p))
  {
    hide IsPmt, Video, NeedsPsi, PatPacket, PmtPacket, Pmts;
    VideoCount(s, p);
    NoPmts(Video(s, p));
    PmtsAppend(Psi(s, p), Video(s, p));
    PairTally(s);
    NoPmts([]);
  }

  /** What the mux says it wrote is what it wrote: packets, and program tables. */
  lemma {:induction false} TallyExactly(s: State, ps: seq<MediaPacket>)
    requires AllAccepted(ps)
    ensures RunMux(s, ps).packets == s.packets + |Stream(s, ps)|
    ensures RunMux(s, ps).psiWritten == s.psiWritten + Pmts(Stream(s, ps))
    decreases |ps|
  {
    hide Sent, Push, Accepts, Pmts;
    if ps == [] {
      NoPmts([]);
    } else {
      UnitTally(s, ps[0]);
      TallyExactly(Push(s, ps[0]), ps[1..]);
      PmtsAppend(Sent(s, ps[0]), Stream(Push(s, ps[0]), ps[1..]));
    }
  }

  lemma {:induction false} NotStarted(ps: seq<MediaPacket>)
    requires AllAccepted(ps)
    ensures ps == [] ==> !RunMux(INIT, ps).started
  {
  }

  // ----- the documented interval

  /** Packets of the video PID after the last pair: a PAT does not count, it opens the next pair. */
  function VideoSince(pkts: seq<bytes>): nat {
    if pkts == [] || IsPmt(pkts[|pkts| - 1]) then 0
    else (if IsPat(pkts[|pkts| - 1]) then 0 else 1) + VideoSince(pkts[..|pkts| - 1])
  }

  /** At no point of the stream have more than 64 packets followed the last pair. */
  ghost predicate KeepsInterval(pkts: seq<bytes>) {
    forall n :: 0 <= n <= |pkts| ==> VideoSince(pkts[..n]) <= PSI_INTERVAL
  }

  lemma {:induction false} SinceSnoc(a: seq<bytes>, pkt: bytes)
    ensures VideoSince(a + [pkt]) == if IsPmt(pkt) then 0 else (if IsPat(pkt) then 0 else 1) + VideoSince(a)
  {
    hide IsPmt, IsPat;
    assert (a + [pkt])[..|a|] == a;
  }

  lemma {:induction false} KeepsSnoc(a: seq<bytes>, pkt: bytes)
    ensures KeepsInterval(a + [pkt]) <==> KeepsInterval(a) && VideoSince(a + [pkt]) <= PSI_INTERVAL
  {
    hide VideoSince;
    var b := a + [pkt];
    assert b[..|b|] == b;
    forall n | 0 <= n <= |a| ensures b[..n] == a[..n] {
    }
    if KeepsInterval(b) {
      forall n | 0 <= n <= |a| ensures VideoSince(a[..n]) <= PSI_INTERVAL {
        assert VideoSince(b[..n]) <= PSI_INTERVAL;
      }
    }
  }

  lemma {:induction false} KeepsPrefix(a: seq<bytes>, b: seq<bytes>)
    requires KeepsInterval(a + b)
    ensures KeepsInterval(a)
  {
    hide VideoSince;
    forall n | 0 <= n <= |a| ensures VideoSince(a[..n]) <= PSI_INTERVAL {
      assert (a + b)[..n] == a[..n];
    }
  }

  /** A unit's own packets keep the interval exactly when they still fit it. */
  lemma {:induction false} KeepsVideo(a: seq<bytes>, b: seq<bytes>)
    requires forall k :: 0 <= k < |b| ==> !IsPmt(b[k]) && !IsPat(b[k])
    requires VideoSince(a) <= PSI_INTERVAL
    ensures VideoSince(a + b) == VideoSince(a) + |b|
    ensures KeepsInterval(a + b) <==> KeepsInterval(a) && VideoSince(a) + |b| <= PSI_INTERVAL
    decreases |b|
  {
    hide IsPmt, IsPat, VideoSince, KeepsInterval;
    if b == [] {
      assert a + b == a;
    } else {
      var c, last := b[..|b| - 1], b[|b| - 1];
      assert a + b == a + c + [last];
      KeepsVideo(a, c);
      SinceSnoc(a + c, last);
      KeepsSnoc(a + c, last);
    }
  }

  /** A pair always keeps it, and starts it again. */
  lemma {:induction false} KeepsPair(a: seq<bytes>, pat: bytes, pmt: bytes)
    requires IsPat(pat) && !IsPmt(pat) && IsPmt(pmt) && VideoSince(a) <= PSI_INTERVAL
    ensures VideoSince(a + [pat, pmt]) == 0
    ensures KeepsInterval(a + [pat, pmt]) <==> KeepsInterval(a)
  {
    hide IsPmt, IsPat, VideoSince, KeepsInterval;
    assert a + [pat, pmt] == a + [pat] + [pmt];
    SinceSnoc(a, pat);
    KeepsSnoc(a, pat);
    SinceSnoc(a + [pat], pmt);
    KeepsSnoc(a + [pat], pmt);
  }

  lemma {:induction false} PsiKinds(s: State)
    ensures IsPat(PatPacket(s.ccPat)) && !IsPmt(PatPacket(s.ccPat)) && IsPmt(PmtPacket(s.ccPmt))
  {
    hide SectionPayload, Header;
    RT.HeaderBack(PID_PAT, s.ccPat, true, false, SectionPayload(PAT_SECTION));
    RT.HeaderBack(PID_PMT, s.ccPmt, true, false, SectionPayload(PMT_SECTION));
  }

  /** One unit. */
  lemma {:induction false} KeepsUnit(s: State, p: MediaPacket, before: seq<bytes>)
    requires Accepts(p) && s.sincePsi == VideoSince(before) && KeepsInterval(before)
    ensures VideoSince(before + Sent(s, p)) == Push(s, p).sincePsi
    ensures Push(s, p).sincePsi == AtUnitStart(s, p) + UnitPackets(|WithAud(p.data)|)
    ensures KeepsInterval(before + Sent(s, p)) <==> Push(s, p).sincePsi <= PSI_INTERVAL
  {
    hide IsPmt, IsPat, VideoSince, Video, NeedsPsi, PatPacket, PmtPacket, WithAud, UnitPackets;
    assert before[..|before|] == before;
    VideoCount(s, p);
    hide KeepsInterval;
    if NeedsPsi(s, p) {
      PsiKinds(s);
      KeepsPair(before, PatPacket(s.ccPat), PmtPacket(s.ccPmt));
      assert before + Sent(s, p) == before + Psi(s, p) + Video(s, p);
      KeepsVideo(before + Psi(s, p), Video(s, p));
    } else {
      assert before + Sent(s, p) == before + Video(s, p);
      KeepsVideo(before, Video(s, p));
    }
  }

  /** Every unit fits what is left of the interval when it starts: `since` packets have followed the last pair, or
      none when the unit brings one. Sizes and key flags alone decide it. */
  predicate UnitsFit(started: bool, since: nat, ps: seq<MediaPacket>)
    decreases |ps|
  {
    ps == [] ||
    (var at := if !started || IsKey(ps[0]) || since >= PSI_INTERVAL then 0 else since;
     var end := at + UnitPackets(|WithAud(ps[0].data)|);
     end <= PSI_INTERVAL && UnitsFit(true, end, ps[1..]))
  }

  lemma {:induction false} RunKeeps(s: State, ps: seq<MediaPacket>, before: seq<bytes>)
    requires AllAccepted(ps) && s.sincePsi == VideoSince(before) && KeepsInterval(before)
    ensures KeepsInterval(before + Stream(s, ps)) <==> UnitsFit(s.started, s.sincePsi, ps)
    decreases |ps|
  {
    hide VideoSince, KeepsInterval, Sent, Accepts, IsKey, WithAud, UnitPackets, Video;
    if ps == [] {
      assert before + [] == before;
    } else {
      var p, rest := ps[0], ps[1..];
      var done := before + Sent(s, p);
      KeepsUnit(s, p, before);
      assert before + Stream(s, ps) == done + Stream(Push(s, p), rest);
      if Push(s, p).sincePsi <= PSI_INTERVAL {
        RunKeeps(Push(s, p), rest, done);
      } else if KeepsInterval(done + Stream(Push(s, p), rest)) {
        KeepsPrefix(done, Stream(Push(s, p), rest));
      }
    }
  }

  /** The documented promise of a pair at least every 64 packets holds at every point of a run's stream if and only if
      every unit fits what is left of the interval when it starts. */
  lemma {:induction false} IntervalKeptExactly(ps: seq<MediaPacket>)
    requires AllAccepted(ps)
    ensures KeepsInterval(Stream(INIT, ps)) <==> UnitsFit(false, 0, ps)
  {
    hide VideoSince, Stream, UnitsFit;
    NothingSince();
    RunKeeps(INIT, ps, []);
    assert [] + Stream(INIT, ps) == Stream(INIT, ps);
  }

  lemma {:induction false} NothingSince()
    ensures VideoSince([]) == 0 && KeepsInterval([])
  {
  }

  /** When it is broken, it is by less than one unit. */
  lemma {:induction false} OneUnitOver(s: State, p: MediaPacket)
    requires Accepts(p)
    ensures Push(s, p).sincePsi < PSI_INTERVAL + UnitPackets(|WithAud(p.data)|)
  {
    hide WithAud, Video, IsKey;
    VideoCount(s, p);
  }

  /** A first unit of 11,755 bytes, a delimiter in front, takes 65 packets after its pair and breaks it. */
  lemma {:induction false} IntervalBroken(p: MediaPacket)
    requires Accepts(p) && |WithAud(p.data)| == 11_755
    ensures Push(INIT, p).sincePsi == 65
    ensures !KeepsInterval(Stream(INIT, [p]))
  {
    hide WithAud, Video, IsKey, KeepsInterval, Stream;
    VideoCount(INIT, p);
    IntervalKeptExactly([p]);
  }

  // ----- residues

  /** Every PAT and PMT section the mux writes passes a receiver's CRC check. */
  lemma {:induction false} SectionsPass(cc: counter)
    ensures var n := |PAT_SECTION| + 4; Crc32.Crc(Crc32.Bits(PatPacket(cc)[5..5 + n])) == 0
    ensures var n := |PMT_SECTION| + 4; Crc32.Crc(Crc32.Bits(PmtPacket(cc)[5..5 + n])) == 0
  {
    hide Header, Fill, Crc32.Crc, Crc32.Bits, Crc32.ToBytes, Crc32.BigEndian;
    SectionInPacket(PID_PAT, cc, PAT_SECTION);
    SectionInPacket(PID_PMT, cc, PMT_SECTION);
    Crc32.SectionPasses(PAT_SECTION);
    Crc32.SectionPasses(PMT_SECTION);
  }

  lemma {:induction false} SectionInPacket(pid: u16, cc: counter, section: bytes)
    requires |section| <= 100
    ensures SectionPacket(pid, cc, section)[5..5 + |section| + 4] ==
            section + Crc32.ToBytes(Crc32.BigEndian(Crc32.Crc(Crc32.Bits(section))))
  {
    hide Header, Fill, Crc32.Crc, Crc32.Bits;
    var full := section + Crc32.ToBytes(Crc32.BigEndian(Crc32.Crc(Crc32.Bits(section))));
    var pkt := SectionPacket(pid, cc, section);
    assert pkt == Header(pid, cc, true, false) + [0] + full + Fill(PACKET_LEN - 5 - |full|);
  }

  // ----- the 90 kHz clock

  /** The presentation time without a 64-bit product in the way. */
  function TruePts(micros: u64): nat {
    micros * 9 / 100 % 0x2_0000_0000
  }

  /** The stamp is the true 90 kHz time, to 33 bits, if and only if nine times the microseconds fits 64 bits. */
  lemma {:induction false} PtsTrueExactly(micros: u64)
    ensures Pts(micros) == TruePts(micros) <==> micros * 9 < 0x1_0000_0000_0000_0000
  {
    var x := micros * 9;
    var k, w := x / 0x1_0000_0000_0000_0000, x % 0x1_0000_0000_0000_0000;
    Overflowed(k, w);
  }

  /** `k` lost multiples of 2^64 shift the time by no multiple of 2^33 ticks. */
  lemma {:induction false} Overflowed(k: nat, w: nat)
    requires k <= 8
    ensures w / 100 % 0x2_0000_0000 == (w + k * 0x1_0000_0000_0000_0000) / 100 % 0x2_0000_0000 <==> k == 0
  {
    var shift := k * 0x1_0000_0000_0000_0000;
    var d := (w + shift) / 100 - w / 100;
    assert shift / 100 <= d <= shift / 100 + 1;
    if k > 0 {
      ShiftIsOff(k, d);
      if w / 100 % 0x2_0000_0000 == (w / 100 + d) % 0x2_0000_0000 {
        SameRemainder(w / 100, d);
      }
    }
  }

  /** None of the eight possible shifts is a multiple of 2^33. */
  lemma {:induction false} ShiftIsOff(k: nat, d: nat)
    requires 1 <= k <= 8
    requires k * 0x1_0000_0000_0000_0000 / 100 <= d <= k * 0x1_0000_0000_0000_0000 / 100 + 1
    ensures d % 0x2_0000_0000 != 0
  {
    if k == 1 {
      assert d == 184467440737095516 || d == 184467440737095517;
    } else if k == 2 {
      assert d == 368934881474191032 || d == 368934881474191033;
    } else if k == 3 {
      assert d == 553402322211286548 || d == 553402322211286549;
    } else if k == 4 {
      assert d == 737869762948382064 || d == 737869762948382065;
    } else if k == 5 {
      assert d == 922337203685477580 || d == 922337203685477581;
    } else if k == 6 {
      assert d == 1106804644422573096 || d == 1106804644422573097;
    } else if k == 7 {
      assert d == 1291272085159668613 || d == 1291272085159668614;
    } else {
      assert d == 1475739525896764129 || d == 1475739525896764130;
    }
  }

  lemma {:induction false} SameRemainder(a: nat, d: nat)
    requires a % 0x2_0000_0000 == (a + d) % 0x2_0000_0000
    ensures d % 0x2_0000_0000 == 0
  {
    var m := 0x2_0000_0000;
    assert d == ((a + d) / m - a / m) * m;
  }
}
