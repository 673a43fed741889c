/** The mux's packets read by the book: sections 2.4.3 and 2.4.4 of ITU-T H.222.0, with readers of their own. */
module TsSyntax {
  import opened Bytes
  import opened Media
  import Crc32
  import TsMux
  import RT = TsRoundTrip
  import AccessUnits
  import opened AnnexB

  // ----- transport packets (2.4.3.2) and adaptation fields (2.4.3.4)

  function Be13(a: byte, b: byte): nat {
    a % 32 * 256 + b
  }

  function PidOf(p: bytes): nat
    requires |p| >= 3
  {
    Be13(p[1], p[2])
  }

  predicate UnitStart(p: bytes)
    requires |p| >= 2
  {
    p[1] / 64 % 2 == 1
  }

  predicate HasField(p: bytes)
    requires |p| >= 4
  {
    p[3] / 32 % 2 == 1
  }

  /** Sync byte, no transport error, no priority, not scrambled, and a payload. */
  predicate HeaderLegal(p: bytes) {
    |p| == 188 && p[0] == 0x47 && p[1] / 128 == 0 && p[1] / 32 % 2 == 0 && p[3] / 64 == 0 && p[3] / 16 % 2 == 1
  }

  predicate HasPcr(p: bytes)
    requires |p| >= 6
  {
    HasField(p) && p[4] > 0 && p[5] / 16 % 2 == 1
  }

  predicate RandomAccess(p: bytes)
    requires |p| >= 6
  {
    HasField(p) && p[4] > 0 && p[5] / 64 % 2 == 1
  }

  /** An adaptation field leaves room for a payload byte, says nothing but PCR and random access, and is filled up with
      ones; a PCR's reserved bits are ones. */
  predicate FieldLegal(p: bytes)
    requires |p| == 188
  {
    HasField(p) ==>
      && p[4] <= 182
      && (p[4] > 0 ==> p[5] % 16 == 0 && p[5] / 32 % 2 == 0 && p[5] / 128 == 0)
      && (HasPcr(p) ==> p[4] >= 7 && p[10] / 2 % 64 == 63)
      && forall i :: (if HasPcr(p) then 12 else 6) <= i < 5 + p[4] as int ==> p[i] == 0xFF
  }

  /** The 33 bits of the PCR's base, and its extension. */
  function PcrBase(p: bytes): nat
    requires |p| == 188
  {
    p[6] as int * 0x200_0000 + p[7] as int * 0x2_0000 + p[8] as int * 0x200 + p[9] as int * 2 + p[10] / 128
  }

  function PcrExtension(p: bytes): nat
    requires |p| == 188
  {
    p[10] as int % 2 * 256 + p[11]
  }

  function PayloadAt(p: bytes): nat
    requires |p| == 188
  {
    if HasField(p) then 5 + p[4] as int else 4
  }

  function PayloadOf(p: bytes): bytes
    requires |p| == 188
  {
    if PayloadAt(p) <= 188 then p[PayloadAt(p)..] else []
  }

  // ----- sections (2.4.4)

  /** A section in the long form; `whole` is all of it, CRC included, and `behind` what follows. */
  datatype Section = Section(tableId: byte, number: nat, current: bool, index: byte, last: byte, body: bytes,
                             whole: bytes, behind: bytes)

  /** The section a payload starts with, behind its pointer field. */
  function ReadSection(payload: bytes): Option<Section> {
    if payload == [] || |payload| < 1 + payload[0] as int + 12 then None
    else
      var s := payload[1 + payload[0] as int..];
      var end := 3 + s[1] as int % 16 * 256 + s[2];
      if s[1] / 128 == 0 || end < 12 || end > |s| then None
      else
        Some(Section(s[0], s[3] as int * 256 + s[4], s[5] % 2 == 1, s[6], s[7], s[8..end - 4], s[..end], s[end..]))
  }

  /** The programs a PAT lists: number and PID. */
  function ReadPrograms(b: bytes): Option<seq<(nat, nat)>> {
    if b == [] then Some([])
    else if |b| < 4 then None
    else
      match ReadPrograms(b[4..])
      case None => None
      case Some(rest) => Some([(b[0] as int * 256 + b[1], Be13(b[2], b[3]))] + rest)
  }

  /** One elementary stream of a PMT: type and PID. */
  function ReadStreams(b: bytes): Option<seq<(byte, nat)>> {
    if b == [] then Some([])
    else if |b| < 5 then None
    else
      var next := 5 + b[3] as int % 16 * 256 + b[4];
      if next > |b| then None
      else
        match ReadStreams(b[next..])
        case None => None
        case Some(rest) => Some([(b[0], Be13(b[1], b[2]))] + rest)
  }

  /** A PMT: the PCR's PID and the streams behind the program's descriptors. */
  function ReadMap(b: bytes): Option<(nat, seq<(byte, nat)>)> {
    if |b| < 4 then None
    else
      var from := 4 + b[2] as int % 16 * 256 + b[3];
      if from > |b| then None
      else
        match ReadStreams(b[from..])
        case None => None
        case Some(streams) => Some((Be13(b[0], b[1]), streams))
  }

  /** In force now, one section of one, and a CRC that leaves no residue; ones behind it. */
  ghost predicate SectionLegal(s: Section) {
    && s.current && s.index == 0 && s.last == 0
    && Crc32.Crc(Crc32.Bits(s.whole)) == 0
    && forall k :: 0 <= k < |s.behind| ==> s.behind[k] == 0xFF
  }

  /** A PAT that lists this one program. */
  ghost predicate IsPat(p: bytes, program: nat, mapPid: nat)
    requires |p| == 188
  {
    && PidOf(p) == 0 && UnitStart(p) && !HasField(p)
    && ReadSection(PayloadOf(p)).Some?
    && var s := ReadSection(PayloadOf(p)).value;
       SectionLegal(s) && s.tableId == 0 && ReadPrograms(s.body) == Some([(program, mapPid)])
  }

  /** A PMT of this program, with the PCR and one stream of this type on one PID. */
  ghost predicate IsPmt(p: bytes, program: nat, mapPid: nat, video: nat)
    requires |p| == 188
  {
    && PidOf(p) == mapPid && UnitStart(p) && !HasField(p)
    && ReadSection(PayloadOf(p)).Some?
    && var s := ReadSection(PayloadOf(p)).value;
       SectionLegal(s) && s.tableId == 2 && s.number == program && ReadMap(s.body) == Some((video, [(0x1B, video)]))
  }

  // ----- PES packets (2.4.3.6)

  /** A PES header with a PTS and nothing else: stream, length (0 is unbounded), alignment, and the PTS. */
  datatype Pes = Pes(stream: byte, length: nat, aligned: bool, pts: nat, data: bytes)

  function ReadPes(b: bytes): Option<Pes> {
    if |b| < 14 || b[0] != 0 || b[1] != 0 || b[2] != 1 then None
    else if b[6] / 8 != 16 || b[6] % 4 != 0 || b[7] != 0x80 || b[8] != 5 then None
    else if b[9] / 16 != 2 || b[9] % 2 != 1 || b[11] % 2 != 1 || b[13] % 2 != 1 then None
    else
      Some(Pes(b[3], b[4] as int * 256 + b[5], b[6] / 4 % 2 == 1,
               b[9] as int / 2 % 8 * 0x4000_0000 + b[10] as int * 0x40_0000 + b[11] as int / 2 * 0x8000 +
               b[12] as int * 0x80 + b[13] / 2,
               b[14..]))
  }

  // ----- the tables

  lemma {:induction false} HeaderBits(pid: u16, cc: TsMux.counter, unitStart: bool, field: bool, rest: bytes)
    requires pid < 0x2000 && |rest| == 184
    ensures var p := TsMux.Header(pid, cc, unitStart, field) + rest;
            HeaderLegal(p) && PidOf(p) == pid && (UnitStart(p) <==> unitStart) && (HasField(p) <==> field)
  {
  }

  lemma {:induction false} PlainPayload(pid: u16, cc: TsMux.counter, unitStart: bool, rest: bytes)
    requires pid < 0x2000 && |rest| == 184
    ensures var p := TsMux.Header(pid, cc, unitStart, false) + rest;
            HeaderLegal(p) && FieldLegal(p) && !HasPcr(p) && PayloadOf(p) == rest
  {
    hide TsMux.Header, HeaderLegal, HasField;
    HeaderBits(pid, cc, unitStart, false, rest);
    HeaderIs188(TsMux.Header(pid, cc, unitStart, false) + rest);
  }

  lemma {:induction false} HeaderIs188(p: bytes)
    requires HeaderLegal(p)
    ensures |p| == 188
  {
  }

  /** A section whose length field says so is read back from its payload. */
  lemma {:induction false} SectionRead(section: bytes)
    requires 8 <= |section| <= 100 && section[1] == 0xB0 && section[2] as int == |section| + 1
    ensures var full := section + Crc32.ToBytes(Crc32.BigEndian(Crc32.Crc(Crc32.Bits(section))));
            ReadSection(TsMux.SectionPayload(section)) ==
            Some(Section(section[0], section[3] as int * 256 + section[4], section[5] % 2 == 1, section[6], section[7],
                         section[8..], full, TsMux.Fill(183 - |full|)))
  {
    hide Crc32.ToBytes, Crc32.BigEndian, Crc32.Crc, Crc32.Bits, TsMux.Fill;
    var full := section + Crc32.ToBytes(Crc32.BigEndian(Crc32.Crc(Crc32.Bits(section))));
    var payload, fill := TsMux.SectionPayload(section), TsMux.Fill(183 - |full|);
    assert payload == [0] + full + fill;
    var s := payload[1..];
    assert s == full + fill;
    forall k | 0 <= k < |section| ensures s[k] == section[k] {
      assert s[k] == full[k];
    }
    var end := |full|;
    assert s[..end] == full && s[end..] == fill;
    assert s[8..end - 4] == section[8..];
  }

  lemma {:induction false} SectionByTheBook(section: bytes)
    requires 8 <= |section| <= 100 && section[1] == 0xB0 && section[2] as int == |section| + 1
    requires section[5] % 2 == 1 && section[6] == 0 && section[7] == 0
    ensures ReadSection(TsMux.SectionPayload(section)).Some?
    ensures var s := ReadSection(TsMux.SectionPayload(section)).value;
            && SectionLegal(s) && s.tableId == section[0] && s.number == section[3] as int * 256 + section[4]
            && s.body == section[8..]
  {
    hide Crc32.ToBytes, Crc32.BigEndian, Crc32.Crc, Crc32.Bits, TsMux.SectionPayload, ReadSection;
    SectionRead(section);
    Crc32.SectionPasses(section);
  }

  lemma {:induction false} PatFields()
    ensures var s := TsMux.PAT_SECTION;
            && |s| == 12 && s[0] == 0 && s[1] == 0xB0 && s[2] == 13 && s[5] % 2 == 1 && s[6] == 0 && s[7] == 0
            && s[8..] == [0, 1, 0xF0, 0]
  {
  }

  lemma {:induction false} PmtFields()
    ensures var s := TsMux.PMT_SECTION;
            && |s| == 17 && s[0] == 2 && s[1] == 0xB0 && s[2] == 18 && s[3] == 0 && s[4] == 1
            && s[5] % 2 == 1 && s[6] == 0 && s[7] == 0
            && s[8..] == [0xE1, 0, 0xF0, 0, 0x1B, 0xE1, 0, 0xF0, 0]
  {
  }

  lemma {:induction false} OneProgram(b: bytes)
    requires |b| == 4
    ensures ReadPrograms(b) == Some([(b[0] as int * 256 + b[1], Be13(b[2], b[3]))])
  {
    var none: bytes := [];
    assert b[4..] == none;
    assert ReadPrograms(none) == Some([]);
    assert ReadPrograms(b[4..]) == Some([]);
    var one := (b[0] as int * 256 + b[1], Be13(b[2], b[3]));
    assert [one] + [] == [one];
  }

  lemma {:induction false} OneStream(b: bytes)
    requires |b| == 9 && b[2] % 16 == 0 && b[3] == 0 && b[7] % 16 == 0 && b[8] == 0
    ensures ReadMap(b) == Some((Be13(b[0], b[1]), [(b[4], Be13(b[5], b[6]))]))
  {
    OneEntry(b[4..]);
  }

  lemma {:induction false} OneEntry(c: bytes)
    requires |c| == 5 && c[3] % 16 == 0 && c[4] == 0
    ensures ReadStreams(c) == Some([(c[0], Be13(c[1], c[2]))])
  {
    var none: bytes := [];
    assert c[5..] == none;
    assert ReadStreams(none) == Some([]);
    assert ReadStreams(c[5..]) == Some([]);
    var one := (c[0], Be13(c[1], c[2]));
    assert [one] + [] == [one];
  }

  lemma {:induction false} ProgramsRead()
    ensures ReadPrograms([0, 1, 0xF0, 0]) == Some([(1, 0x1000)])
    ensures ReadMap([0xE1, 0, 0xF0, 0, 0x1B, 0xE1, 0, 0xF0, 0]) == Some((0x100, [(0x1B, 0x100)]))
  {
    OneProgram([0, 1, 0xF0, 0]);
    OneStream([0xE1, 0, 0xF0, 0, 0x1B, 0xE1, 0, 0xF0, 0]);
  }

  /** The PAT lists one program, and its map's PID is the one the PMT packet goes out on. */
  lemma {:induction false} PatByTheBook(cc: TsMux.counter)
    ensures var p := TsMux.PatPacket(cc);
            HeaderLegal(p) && FieldLegal(p) && !HasPcr(p) && IsPat(p, 1, 0x1000)
  {
    hide TsMux.Header, TsMux.SectionPayload, ReadSection, SectionLegal, TsMux.PAT_SECTION, ReadPrograms, HeaderLegal;
    hide FieldLegal;
    PatFields();
    ProgramsRead();
    SectionByTheBook(TsMux.PAT_SECTION);
    HeaderBits(0, cc, true, false, TsMux.SectionPayload(TsMux.PAT_SECTION));
    PlainPayload(0, cc, true, TsMux.SectionPayload(TsMux.PAT_SECTION));
  }

  lemma {:induction false} PmtByTheBook(cc: TsMux.counter)
    ensures var p := TsMux.PmtPacket(cc);
            HeaderLegal(p) && FieldLegal(p) && !HasPcr(p) && IsPmt(p, 1, 0x1000, 0x100)
  {
    hide TsMux.Header, TsMux.SectionPayload, ReadSection, SectionLegal, TsMux.PMT_SECTION, ReadMap, HeaderLegal;
    hide FieldLegal;
    PmtFields();
    ProgramsRead();
    SectionByTheBook(TsMux.PMT_SECTION);
    HeaderBits(0x1000, cc, true, false, TsMux.SectionPayload(TsMux.PMT_SECTION));
    PlainPayload(0x1000, cc, true, TsMux.SectionPayload(TsMux.PMT_SECTION));
  }

  // ----- the video packets

  /** The first packet of an access unit: random access for a key unit, and the PCR, extension 0. */
  ghost predicate IsFirst(p: bytes, video: nat, key: bool, pcr: int)
    requires |p| == 188
  {
    && PidOf(p) == video && UnitStart(p) && HasPcr(p) && (RandomAccess(p) <==> key)
    && PcrBase(p) == pcr && PcrExtension(p) == 0
  }

  /** A later one: neither. */
  ghost predicate IsNext(p: bytes, video: nat)
    requires |p| == 188
  {
    PidOf(p) == video && !UnitStart(p) && !HasPcr(p) && !RandomAccess(p)
  }

  lemma {:induction false} FirstBits(l: byte, key: bool)
    requires 7 <= l <= 182
    ensures var flags: byte := 0x10 + if key then 0x40 else 0;
            && flags % 16 == 0 && flags / 32 % 2 == 0 && flags / 128 == 0 && flags / 16 % 2 == 1
            && (flags / 64 % 2 == 1 <==> key)
  {
  }

  lemma {:induction false} PcrBits(base: TsMux.ticks)
    ensures var f := TsMux.PcrField(base);
            && f[4] / 2 % 64 == 63 && f[4] % 2 == 0 && f[5] == 0
            && f[0] as int * 0x200_0000 + f[1] as int * 0x2_0000 + f[2] as int * 0x200 + f[3] as int * 2 + f[4] / 128 == base
  {
    RT.PcrDigits(base);
    assert (base % 2 * 0x80 + 0x7E) / 128 == base % 2;
  }

  lemma {:induction false} FirstByTheBook(cc: TsMux.counter, key: bool, pcr: TsMux.ticks, data: bytes)
    requires |data| >= 15
    ensures var p, take := TsMux.FirstPacket(cc, key, pcr, data), 183 - TsMux.FirstFieldLen(|data|);
            HeaderLegal(p) && FieldLegal(p) && IsFirst(p, 0x100, key, pcr) && 15 <= take <= |data| && PayloadOf(p) == data[..take]
  {
    hide TsMux.Header, TsMux.PcrField, TsMux.Fill;
    var l := TsMux.FirstFieldLen(|data|);
    var flags: byte := 0x10 + if key then 0x40 else 0;
    var head, f, fill := TsMux.Header(0x100, cc, true, true), TsMux.PcrField(pcr), TsMux.Fill(l - 7);
    var p, part := TsMux.FirstPacket(cc, key, pcr, data), data[..183 - l];
    FirstBits(l, key);
    PcrBits(pcr);
    assert p == head + ([l, flags] + f + fill + part);
    HeaderBits(0x100, cc, true, true, [l, flags] + f + fill + part);
    assert p[4] == l && p[5] == flags;
    assert p[6] == f[0] && p[7] == f[1] && p[8] == f[2] && p[9] == f[3] && p[10] == f[4] && p[11] == f[5];
    FieldFilled(p, head, [l, flags] + f, fill, part);
    assert p[5 + l..] == part;
  }

  lemma {:induction false} FieldFilled(p: bytes, head: bytes, front: bytes, fill: bytes, part: bytes)
    requires p == head + (front + fill + part) && forall k :: 0 <= k < |fill| ==> fill[k] == 0xFF
    ensures forall i :: |head| + |front| <= i < |head| + |front| + |fill| ==> p[i] == 0xFF
  {
    var at := |head| + |front|;
    forall i | at <= i < at + |fill| ensures p[i] == 0xFF {
      assert p[i] == fill[i - at];
    }
  }

  lemma {:induction false} NextByTheBook(cc: TsMux.counter, data: bytes)
    requires data != []
    ensures var p := TsMux.NextPacket(cc, data);
            HeaderLegal(p) && FieldLegal(p) && IsNext(p, 0x100) && PayloadOf(p) == data[..TsMux.NextTake(|data|)]
  {
    hide TsMux.Header, TsMux.Fill;
    var p := TsMux.NextPacket(cc, data);
    if |data| >= 184 {
      HeaderBits(0x100, cc, false, false, data[..184]);
      PlainPayload(0x100, cc, false, data[..184]);
    } else {
      var l := 183 - |data|;
      var head, front, fill := TsMux.Header(0x100, cc, false, true), if l >= 1 then [l, 0] else [l], TsMux.Fill(Max(l - 1, 0));
      assert p == head + (front + fill + data);
      HeaderBits(0x100, cc, false, true, front + fill + data);
      FieldFilled(p, head, front, fill, data);
      assert p[4] == l && (l >= 1 ==> p[5] == 0);
      assert p[5 + l..] == data == data[..|data|];
    }
  }

  /** The PES header of an access unit: video stream 0, unbounded, aligned, with the PTS and nothing else. */
  lemma {:induction false} PesByTheBook(pts: TsMux.ticks, data: bytes)
    ensures ReadPes(TsMux.PesHeader(pts) + data) == Some(Pes(0xE0, 0, true, pts, data))
  {
    var h := TsMux.PesHeader(pts);
    var b := h + data;
    forall k | 0 <= k < 14 ensures b[k] == h[k] {
    }
    assert b[14..] == data;
    PtsBits(h, pts);
  }

  lemma {:induction false} PtsBits(h: bytes, pts: TsMux.ticks)
    requires h == TsMux.PesHeader(pts)
    ensures h[9] / 16 == 2 && h[9] % 2 == 1 && h[11] % 2 == 1 && h[13] % 2 == 1
    ensures h[9] as int / 2 % 8 * 0x4000_0000 + h[10] as int * 0x40_0000 + h[11] as int / 2 * 0x8000 +
            h[12] as int * 0x80 + h[13] / 2 == pts
  {
    var a, c, e := pts / 0x4000_0000 % 8, pts / 0x8000 % 128, pts % 0x80;
    OddByte(0x20, a);
    OddByte(0, c);
    OddByte(0, e);
    assert h[9] == 0x20 + a * 2 + 1 && h[11] == c * 2 + 1 && h[13] == e * 2 + 1;
    RT.PtsDigits(pts);
  }

  lemma {:induction false} OddByte(base: nat, a: nat)
    requires (base == 0 && a < 128) || (base == 0x20 && a < 8)
    ensures (base + a * 2 + 1) % 2 == 1 && (base + a * 2 + 1) / 2 == base / 2 + a
    ensures base == 0x20 ==> (base + a * 2 + 1) / 16 == 2 && (base + a * 2 + 1) / 2 % 8 == a
  {
  }

  // ----- whole streams

  /** Packet `k` is by the book: a PAT that lists program 1, whose map is on the PID of the packet right behind it, a PMT of
      that program that names the PID of every packet with a PCR and of every video packet, or a video packet. */
  ghost predicate LawfulAt(pkts: seq<bytes>, k: nat)
    requires k < |pkts|
  {
    && HeaderLegal(pkts[k]) && FieldLegal(pkts[k])
    && (if PidOf(pkts[k]) == 0 then
          !HasPcr(pkts[k]) && k + 1 < |pkts| && |pkts[k + 1]| == 188 && IsPat(pkts[k], 1, PidOf(pkts[k + 1]))
          && IsPmt(pkts[k + 1], 1, PidOf(pkts[k + 1]), 0x100)
        else if PidOf(pkts[k]) == 0x1000 then !HasPcr(pkts[k]) && IsPmt(pkts[k], 1, 0x1000, 0x100)
        else PidOf(pkts[k]) == 0x100 && (HasPcr(pkts[k]) <==> UnitStart(pkts[k])))
  }

  ghost predicate Lawful(pkts: seq<bytes>) {
    forall k :: 0 <= k < |pkts| ==> LawfulAt(pkts, k)
  }

  lemma {:induction false} LawfulAppend(a: seq<bytes>, b: seq<bytes>)
    requires Lawful(a) && Lawful(b)
    ensures Lawful(a + b)
  {
    hide LawfulAt;
    var c := a + b;
    forall k | 0 <= k < |c| ensures LawfulAt(c, k) {
      if k < |a| {
        LawfulThere(a, k, c, k);
      } else {
        LawfulThere(b, k - |a|, c, k);
      }
    }
  }

  lemma {:induction false} LawfulThere(a: seq<bytes>, i: nat, c: seq<bytes>, k: nat)
    requires i < |a| && k < |c| && LawfulAt(a, i) && a[i] == c[k]
    requires i + 1 < |a| ==> k + 1 < |c| && a[i + 1] == c[k + 1]
    ensures LawfulAt(c, k)
  {
    hide HeaderLegal, FieldLegal, HasPcr, IsPat, IsPmt, UnitStart, PidOf;
  }

  lemma {:induction false} LawfulPair(s: TsMux.State)
    ensures Lawful([TsMux.PatPacket(s.ccPat), TsMux.PmtPacket(s.ccPmt)])
  {
    hide HeaderLegal, FieldLegal, HasPcr, IsPat, IsPmt, TsMux.PatPacket, TsMux.PmtPacket, PidOf, UnitStart;
    PatByTheBook(s.ccPat);
    PmtByTheBook(s.ccPmt);
    var pat, pmt := TsMux.PatPacket(s.ccPat), TsMux.PmtPacket(s.ccPmt);
    PatPid(pat, 1, 0x1000);
    PmtPid(pmt, 1, 0x1000, 0x100);
  }

  lemma {:induction false} PatPid(p: bytes, program: nat, mapPid: nat)
    requires |p| == 188 && IsPat(p, program, mapPid)
    ensures PidOf(p) == 0
  {
    hide ReadSection, SectionLegal, ReadPrograms;
  }

  lemma {:induction false} PmtPid(p: bytes, program: nat, mapPid: nat, video: nat)
    requires |p| == 188 && IsPmt(p, program, mapPid, video)
    ensures PidOf(p) == mapPid
  {
    hide ReadSection, SectionLegal, ReadMap;
  }

  lemma {:induction false} LawfulOne(p: bytes)
    requires HeaderLegal(p) && FieldLegal(p) && PidOf(p) == 0x100 && (HasPcr(p) <==> UnitStart(p))
    ensures Lawful([p])
  {
    hide HeaderLegal, FieldLegal, HasPcr, IsPat, IsPmt, UnitStart, PidOf;
  }

  lemma {:induction false} LawfulNexts(cc: TsMux.counter, data: bytes)
    ensures Lawful(TsMux.NextPackets(cc, data))
    decreases |data|
  {
    hide HeaderLegal, FieldLegal, HasPcr, UnitStart, PidOf, TsMux.NextPacket, Lawful, PayloadOf, RandomAccess;
    if data == [] {
      LawfulNone();
    } else {
      NextByTheBook(cc, data);
      LawfulOne(TsMux.NextPacket(cc, data));
      LawfulNexts(TsMux.Bump(cc), data[TsMux.NextTake(|data|)..]);
      LawfulAppend([TsMux.NextPacket(cc, data)], TsMux.NextPackets(TsMux.Bump(cc), data[TsMux.NextTake(|data|)..]));
    }
  }

  lemma {:induction false} LawfulNone()
    ensures Lawful([])
  {
  }

  /** Video packets that open with this PCR, PTS and access unit data. */
  ghost predicate Opens(pkts: seq<bytes>, key: bool, pts: nat, pcr: int, au: bytes) {
    && pkts != [] && |pkts[0]| == 188 && IsFirst(pkts[0], 0x100, key, pcr)
    && var take := |PayloadOf(pkts[0])|;
       15 <= take <= 14 + |au| && ReadPes(PayloadOf(pkts[0])) == Some(Pes(0xE0, 0, true, pts, au[..take - 14]))
  }

  lemma {:induction false} VideoByTheBook(cc: TsMux.counter, key: bool, pts: TsMux.ticks, pcr: TsMux.ticks, au: bytes)
    requires au != []
    ensures var pkts := TsMux.VideoPackets(cc, key, pcr, TsMux.PesHeader(pts) + au);
            Lawful(pkts) && Opens(pkts, key, pts, pcr, au)
  {
    hide Lawful, HeaderLegal, FieldLegal, HasPcr, UnitStart, PidOf, TsMux.FirstPacket, TsMux.NextPackets, TsMux.PesHeader;
    hide ReadPes, IsFirst, TsMux.FirstFieldLen, PayloadOf;
    var data := TsMux.PesHeader(pts) + au;
    FirstByTheBook(cc, key, pcr, data);
    var take := 183 - TsMux.FirstFieldLen(|data|);
    var first := TsMux.FirstPacket(cc, key, pcr, data);
    var next := TsMux.NextPackets(TsMux.Bump(cc), data[take..]);
    FirstPid(first, key, pcr);
    LawfulOne(first);
    LawfulNexts(TsMux.Bump(cc), data[take..]);
    LawfulAppend([first], next);
    assert ([first] + next)[0] == first;
    assert data[..take] == TsMux.PesHeader(pts) + au[..take - 14];
    PesByTheBook(pts, au[..take - 14]);
  }

  /** A NAL unit of this type. */
  predicate OfType(nal: bytes, t: nat) {
    nal != [] && nal[0] as int % 32 == t
  }

  ghost predicate IsKeyUnit(p: MediaPacket) {
    p.key || exists n :: n in NalUnits(p.data) && OfType(n, 5)
  }

  /** A delimiter of any type of slices goes in front of a unit that does not open with one. */
  function Delimited(data: bytes): bytes {
    if NalUnits(data) != [] && OfType(NalUnits(data)[0], 9) then data else [0, 0, 0, 1, 9, 0xF0] + data
  }

  lemma {:induction false} KeyIs(p: MediaPacket)
    ensures TsMux.IsKey(p) <==> IsKeyUnit(p)
  {
    hide NalUnits;
    var nals := NalUnits(p.data);
    if TsMux.IsKey(p) && !p.key {
      var k :| 0 <= k < |nals| && AccessUnits.UnitType(nals[k]) == Some(AccessUnits.NAL_IDR);
      assert nals[k] in nals && OfType(nals[k], 5);
    }
    if IsKeyUnit(p) && !p.key {
      var n :| n in nals && OfType(n, 5);
      var k :| 0 <= k < |nals| && nals[k] == n;
      assert AccessUnits.UnitType(nals[k]) == Some(AccessUnits.NAL_IDR);
    }
  }

  lemma {:induction false} DelimitedIs(data: bytes)
    ensures TsMux.WithAud(data) == Delimited(data)
  {
    hide NalUnits;
    assert [] + data == data;
  }

  /** The tables go in front of a unit if and only if it is the first, is a key unit, or 64 packets have followed the last
      ones. */
  lemma {:induction false} TablesInFront(s: TsMux.State, p: MediaPacket)
    requires TsMux.Accepts(p)
    ensures TsMux.Sent(s, p) ==
            (if !s.started || IsKeyUnit(p) || s.sincePsi >= 64
             then [TsMux.PatPacket(s.ccPat), TsMux.PmtPacket(s.ccPmt)] else []) + TsMux.Video(s, p)
  {
    hide TsMux.Video, TsMux.PatPacket, TsMux.PmtPacket, TsMux.IsKey, IsKeyUnit;
    KeyIs(p);
  }

  /** The packets of one unit, from any state, are by the book. */
  lemma {:induction false} UnitLawful(s: TsMux.State, p: MediaPacket)
    requires TsMux.Accepts(p)
    ensures Lawful(TsMux.Sent(s, p))
  {
    hide Lawful, Opens, TsMux.VideoPackets, TsMux.PatPacket, TsMux.PmtPacket, TsMux.Pts, TsMux.WithAud, TsMux.IsKey;
    RT.WithAudNonEmpty(p);
    var pts := TsMux.Pts(p.timestamp);
    VideoByTheBook(s.ccVideo, TsMux.IsKey(p), pts, TsMux.Pcr(pts), TsMux.WithAud(p.data));
    LawfulNone();
    LawfulPair(s);
    LawfulAppend(TsMux.Psi(s, p), TsMux.Video(s, p));
  }

  /** A unit's video opens with random access exactly for a key unit, the PCR 300 ms early, and a PES header with the PTS
      in front of the unit and its delimiter. */
  lemma {:induction false} UnitByTheBook(s: TsMux.State, p: MediaPacket)
    requires TsMux.Accepts(p)
    ensures Opens(TsMux.Video(s, p), IsKeyUnit(p), TsMux.Pts(p.timestamp), Max(TsMux.Pts(p.timestamp) - 27_000, 0),
                  Delimited(p.data))
  {
    hide Lawful, Opens, TsMux.VideoPackets, TsMux.Pts, TsMux.WithAud, TsMux.IsKey, IsKeyUnit, Delimited;
    KeyIs(p);
    DelimitedIs(p.data);
    RT.WithAudNonEmpty(p);
    var pts := TsMux.Pts(p.timestamp);
    VideoByTheBook(s.ccVideo, TsMux.IsKey(p), pts, TsMux.Pcr(pts), TsMux.WithAud(p.data));
  }

  lemma {:induction false} FirstPid(p: bytes, key: bool, pcr: int)
    requires |p| == 188 && IsFirst(p, 0x100, key, pcr)
    ensures PidOf(p) == 0x100 && HasPcr(p) && UnitStart(p)
  {
  }

  /** Every stream the mux writes is by the book. */
  lemma {:induction false} StreamByTheBook(s: TsMux.State, ps: seq<MediaPacket>)
    requires TsMux.AllAccepted(ps)
    ensures Lawful(TsMux.Stream(s, ps))
    decreases |ps|
  {
    hide Lawful, TsMux.Sent, TsMux.Push;
    LawfulNone();
    if ps != [] {
      UnitLawful(s, ps[0]);
      StreamByTheBook(TsMux.Push(s, ps[0]), ps[1..]);
      LawfulAppend(TsMux.Sent(s, ps[0]), TsMux.Stream(TsMux.Push(s, ps[0]), ps[1..]));
    }
  }
}
