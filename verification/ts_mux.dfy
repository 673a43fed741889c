/** The MPEG-2 transport stream mux (ITU-T H.222.0), as the packets it writes. */
module TsMux {
  import opened Bytes
  import opened Media
  import AccessUnits
  import Crc32

  const PACKET_LEN := 188
  const SYNC: byte := 0x47
  const PID_PAT: u16 := 0
  const PID_PMT: u16 := 0x1000
  const PID_VIDEO: u16 := 0x100
  const STREAM_TYPE_H264: byte := 0x1B
  const PSI_INTERVAL := 64
  const PCR_DELAY := 27_000
  const AUD_NAL: bytes := [0, 0, 0, 1, 9, 0xF0]

  predicate AllPackets(pkts: seq<bytes>) {
    forall k :: 0 <= k < |pkts| ==> |pkts[k]| == PACKET_LEN
  }

  type ticks = x: int | 0 <= x < 0x2_0000_0000

  /** A four-bit continuity counter. */
  type counter = x: int | 0 <= x < 16

  function Bump(c: counter): counter {
    (c + 1) % 16
  }

  /** Device micros on the 90 kHz clock, 33 bits; the multiplication wraps at 64 bits. */
  function Pts(micros: u64): ticks {
    micros * 9 % 0x1_0000_0000_0000_0000 / 100 % 0x2_0000_0000
  }

  function Pcr(pts: ticks): ticks {
    if pts < PCR_DELAY then 0 else pts - PCR_DELAY
  }

  function Fill(n: nat): (r: bytes)
    ensures |r| == n && forall k :: 0 <= k < n ==> r[k] == 0xFF
  {
    if n == 0 then [] else [0xFF] + Fill(n - 1)
  }

  function Header(pid: u16, cc: counter, unitStart: bool, adaptation: bool): (r: bytes)
    ensures |r| == 4
  {
    [SYNC, pid / 256 % 32 + if unitStart then 0x40 else 0, pid % 256, (if adaptation then 0x30 else 0x10) + cc]
  }

  /** A PES header with a PTS and no length. */
  function PesHeader(pts: ticks): (r: bytes)
    ensures |r| == 14
  {
    [0, 0, 1, 0xE0, 0, 0, 0x84, 0x80, 5,
     0x20 + pts / 0x4000_0000 % 8 * 2 + 1,
     pts / 0x40_0000 % 256,
     pts / 0x8000 % 128 * 2 + 1,
     pts / 0x80 % 256,
     pts % 0x80 * 2 + 1]
  }

  /** The 33-bit base and a zero extension. */
  function PcrField(base: ticks): (r: bytes)
    ensures |r| == 6
  {
    [base / 0x200_0000 % 256, base / 0x2_0000 % 256, base / 0x200 % 256, base / 2 % 256, base % 2 * 0x80 + 0x7E, 0]
  }

  // ----- tables

  const PAT_SECTION: bytes := [0, 0xB0, 0x0D, 0, 1, 0xC1, 0, 0, 0, 1, 0xE0 + 0x10, 0]

  const PMT_SECTION: bytes :=
    [2, 0xB0, 0x12, 0, 1, 0xC1, 0, 0, 0xE0 + 1, 0, 0xF0, 0, STREAM_TYPE_H264, 0xE0 + 1, 0, 0xF0, 0]

  /** A section behind its pointer field, its CRC, and fill to the end of the packet. */
  function SectionPayload(section: bytes): (r: bytes)
    requires |section| <= 100
    ensures |r| == PACKET_LEN - 4
  {
    var full := section + Crc32.ToBytes(Crc32.BigEndian(Crc32.Crc(Crc32.Bits(section))));
    [0] + full + Fill(PACKET_LEN - 5 - |full|)
  }

  function SectionPacket(pid: u16, cc: counter, section: bytes): (r: bytes)
    requires |section| <= 100
    ensures |r| == PACKET_LEN
  {
    Header(pid, cc, true, false) + SectionPayload(section)
  }

  function PatPacket(cc: counter): (r: bytes)
    ensures |r| == PACKET_LEN
  {
    SectionPacket(PID_PAT, cc, PAT_SECTION)
  }

  function PmtPacket(cc: counter): (r: bytes)
    ensures |r| == PACKET_LEN
  {
    SectionPacket(PID_PMT, cc, PMT_SECTION)
  }

  // ----- packets of one access unit

  /** Length of the first packet's adaptation field when `n` bytes are to be carried. */
  function FirstFieldLen(n: nat): (l: nat)
    ensures 7 <= l <= 183
  {
    Max(183 - Min(n, 176), 7)
  }

  /** The first packet: PCR, random access indicator, stuffing when the unit is short. */
  function FirstPacket(cc: counter, key: bool, pcr: ticks, data: bytes): (r: bytes)
    requires |data| >= 15
    ensures |r| == PACKET_LEN
  {
    var l := FirstFieldLen(|data|);
    Header(PID_VIDEO, cc, true, true) + [l, 0x10 + if key then 0x40 else 0] + PcrField(pcr) + Fill(l - 7) + data[..183 - l]
  }

  /** Bytes a later packet carries. */
  function NextTake(n: nat): (t: nat)
    requires n > 0
    ensures 0 < t <= n && t <= 184
  {
    Min(n, 184)
  }

  /** A later packet: full, or stuffed by an adaptation field of just the right length. */
  function NextPacket(cc: counter, data: bytes): (r: bytes)
    requires data != []
    ensures |r| == PACKET_LEN
  {
    if |data| >= 184 then Header(PID_VIDEO, cc, false, false) + data[..184]
    else
      var l := 183 - |data|;
      Header(PID_VIDEO, cc, false, true) + [l] + (if l >= 1 then [0] + Fill(l - 1) else []) + data
  }

  function NextPackets(cc: counter, data: bytes): seq<bytes>
    decreases |data|
  {
    if data == [] then [] else [NextPacket(cc, data)] + NextPackets(Bump(cc), data[NextTake(|data|)..])
  }

  function VideoPackets(cc: counter, key: bool, pcr: ticks, data: bytes): seq<bytes>
    requires |data| >= 15
  {
    [FirstPacket(cc, key, pcr, data)] + NextPackets(Bump(cc), data[183 - FirstFieldLen(|data|)..])
  }

  // ----- the mux

  datatype State = State(ccPat: counter, ccPmt: counter, ccVideo: counter,
                         packets: nat, sincePsi: nat, psiWritten: nat, started: bool)

  const INIT := State(0, 0, 0, 0, 0, 0, false)

  /** The access unit as it goes out: a delimiter in front when it has none. */
  function WithAud(data: bytes): bytes {
    (if AccessUnits.StartsWithAud(data) then [] else AUD_NAL) + data
  }

  predicate IsKey(p: MediaPacket) {
    p.key || AccessUnits.ContainsIdr(p.data)
  }

  predicate NeedsPsi(s: State, p: MediaPacket) {
    !s.started || IsKey(p) || s.sincePsi >= PSI_INTERVAL
  }

  /** After a PAT and PMT pair. */
  function AfterPsi(s: State): State {
    s.(ccPat := Bump(s.ccPat), ccPmt := Bump(s.ccPmt), packets := s.packets + 2, sincePsi := 0,
       psiWritten := s.psiWritten + 1, started := true)
  }

  function Advance(cc: counter, n: nat): counter {
    (cc + n) % 16
  }

  predicate Accepts(p: MediaPacket) {
    p.codec == H264 && p.data != []
  }

  predicate AllAccepted(ps: seq<MediaPacket>) {
    forall k :: 0 <= k < |ps| ==> Accepts(ps[k])
  }

  function Psi(s: State, p: MediaPacket): seq<bytes> {
    if NeedsPsi(s, p) then [PatPacket(s.ccPat), PmtPacket(s.ccPmt)] else []
  }

  function Video(s: State, p: MediaPacket): seq<bytes>
    requires Accepts(p)
  {
    VideoPackets(s.ccVideo, IsKey(p), Pcr(Pts(p.timestamp)), PesHeader(Pts(p.timestamp)) + WithAud(p.data))
  }

  /** The packets one access unit adds to the stream. */
  function Sent(s: State, p: MediaPacket): seq<bytes>
    requires Accepts(p)
  {
    Psi(s, p) + Video(s, p)
  }

  function Push(s: State, p: MediaPacket): State
    requires Accepts(p)
  {
    var t := if NeedsPsi(s, p) then AfterPsi(s) else s;
    var n := |Video(s, p)|;
    t.(ccVideo := Advance(s.ccVideo, n), packets := t.packets + n, sincePsi := t.sincePsi + n)
  }

  function RunMux(s: State, ps: seq<MediaPacket>): State
    requires AllAccepted(ps)
    decreases |ps|
  {
    if ps == [] then s else RunMux(Push(s, ps[0]), ps[1..])
  }

  /** Everything a run writes. */
  function Stream(s: State, ps: seq<MediaPacket>): seq<bytes>
    requires AllAccepted(ps)
    decreases |ps|
  {
    if ps == [] then [] else Sent(s, ps[0]) + Stream(Push(s, ps[0]), ps[1..])
  }
}
