/** The mux over its packet buffer, refining the packets of `TsMux`. */
module TsMuxLoop {
  import opened Bytes
  import opened Media
  import opened TsMux
  import AccessUnits
  import Crc32

  function Lengths(parts: seq<bytes>): nat {
    if parts == [] then 0 else |parts[0]| + Lengths(parts[1..])
  }

  /** Reads across several slices without joining them. */
  class Chunks {
    const parts: seq<bytes>
    var idx: nat
    var off: nat

    ghost predicate Valid()
      reads this
    {
      && idx <= |parts|
      && (idx < |parts| ==> off <= |parts[idx]|)
      && (idx == |parts| ==> off == 0)
    }

    /** The bytes not read yet. */
    ghost function Rest(): bytes
      reads this
      requires Valid()
    {
      if idx == |parts| then [] else parts[idx][off..] + Concat(parts[idx + 1..])
    }

    constructor (parts: seq<bytes>)
      ensures Valid() && Rest() == Concat(parts)
    {
      this.parts, idx, off := parts, 0, 0;
    }

    lemma {:induction false} LengthsIs(ps: seq<bytes>)
      ensures Lengths(ps) == |Concat(ps)|
    {
      if ps != [] {
        LengthsIs(ps[1..]);
      }
    }

    method Remaining() returns (n: nat)
      requires Valid()
      ensures n == |Rest()|
    {
      LengthsIs(parts[idx..]);
      if idx < |parts| {
        assert parts[idx..][1..] == parts[idx + 1..];
      }
      n := Lengths(parts[idx..]) - off;
    }

    /** Copies what fits from the current slice. */
    method Copy(out: array<byte>, p: nat, ghost was: bytes, ghost at: nat, ghost done: bytes) returns (take: nat)
      requires Valid() && idx < |parts| && off < |parts[idx]| && p < out.Length
      requires Written(out[..], was, at, done) && p == at + |done|
      modifies this`off, out
      ensures Valid() && 0 < take <= |old(Rest())| && p + take <= out.Length && off == old(off) + take
      ensures Written(out[..], was, at, done + old(Rest())[..take])
      ensures Rest() == old(Rest())[take..]
    {
      hide Written, Concat;
      var part := parts[idx];
      take := Min(|part| - off, out.Length - p);
      TakeDrop(part, off, take, Concat(parts[idx + 1..]));
      ghost var q := Put(out, p, part[off..off + take], was, at, done);
      off := off + take;
    }

    lemma {:induction false} TakeDrop(part: bytes, off: nat, take: nat, behind: bytes)
      requires off + take <= |part|
      ensures (part[off..] + behind)[..take] == part[off..off + take]
      ensures (part[off..] + behind)[take..] == part[off + take..] + behind
    {
    }

    /** Fills `out[at..]` as far as the bytes go. */
    method Read(out: array<byte>, at: nat)
      requires Valid() && at <= out.Length
      modifies this, out
      ensures Valid()
      ensures var n := Min(out.Length - at, |old(Rest())|);
              && Written(out[..], old(out[..]), at, old(Rest())[..n])
              && Rest() == old(Rest())[n..]
    {
      hide Rest;
      ghost var was, rest := out[..], Rest();
      var written: nat := 0;
      WrittenNothing(was, at);
      SliceStep(rest, 0, 0);
      hide Written;
      while at + written < out.Length && idx < |parts|
        invariant Valid() && at + written <= out.Length && written <= |rest|
        invariant Written(out[..], was, at, rest[..written])
        invariant Rest() == rest[written..]
        decreases |parts| - idx, |rest| - written
      {
        if |parts[idx]| == off {
          Skip();
          continue;
        }
        var take := Copy(out, at + written, was, at, rest[..written]);
        SliceStep(rest, written, take);
        written := written + take;
      }
      if idx == |parts| {
        AllRead();
        assert |rest[written..]| == 0;
      }
      assert written == Min(out.Length - at, |rest|);
    }

    lemma {:induction false} SliceStep(rest: bytes, written: nat, take: nat)
      requires written + take <= |rest|
      ensures rest[..written] + rest[written..][..take] == rest[..written + take]
      ensures rest[written..][take..] == rest[written + take..]
      ensures rest[..0] == [] && rest[0..] == rest
    {
    }

    lemma {:induction false} AllRead()
      requires Valid() && idx == |parts|
      ensures Rest() == []
    {
    }

    /** Past an exhausted slice. */
    method Skip()
      requires Valid() && idx < |parts| && off == |parts[idx]|
      modifies this
      ensures Valid() && idx == old(idx) + 1 && Rest() == old(Rest())
    {
      assert parts[idx][off..] == [];
      if idx + 1 < |parts| {
        assert parts[idx + 1..][1..] == parts[idx + 2..];
      }
      idx := idx + 1;
      off := 0;
    }
  }

  datatype Pid = Pat | Pmt | Video

  function Number(pid: Pid): u16 {
    match pid
    case Pat => PID_PAT
    case Pmt => PID_PMT
    case Video => PID_VIDEO
  }

  class Mux {
    /** What the sink was given, one packet each. */
    var sink: seq<bytes>
    var ccPat: counter
    var ccPmt: counter
    var ccVideo: counter
    var packets: nat
    var sincePsi: nat
    var psiWritten: nat
    var started: bool

    ghost function Model(): State
      reads this
    {
      State(ccPat, ccPmt, ccVideo, packets, sincePsi, psiWritten, started)
    }

    constructor ()
      ensures Model() == INIT && sink == []
    {
      ccPat, ccPmt, ccVideo, packets, sincePsi, psiWritten, started, sink := 0, 0, 0, 0, 0, 0, false, [];
    }

    ghost function Counter(pid: Pid): counter
      reads this
    {
      match pid
      case Pat => ccPat
      case Pmt => ccPmt
      case Video => ccVideo
    }

    function Bumped(s: State, pid: Pid): State {
      match pid
      case Pat => s.(ccPat := Bump(s.ccPat))
      case Pmt => s.(ccPmt := Bump(s.ccPmt))
      case Video => s.(ccVideo := Bump(s.ccVideo))
    }

    /** The four header bytes, and the counter of that PID moved on. */
    method WriteHeader(buf: array<byte>, pid: Pid, unitStart: bool, adaptation: bool)
      requires buf.Length == PACKET_LEN
      modifies this`ccPat, this`ccPmt, this`ccVideo, buf
      ensures Written(buf[..], old(buf[..]), 0, Header(Number(pid), old(Counter(pid)), unitStart, adaptation))
      ensures Model() == Bumped(old(Model()), pid)
    {
      ghost var was := buf[..];
      var cc: counter;
      match pid {
        case Pat => cc := ccPat; ccPat := Bump(cc);
        case Pmt => cc := ccPmt; ccPmt := Bump(cc);
        case Video => cc := ccVideo; ccVideo := Bump(cc);
      }
      WrittenNothing(was, 0);
      ghost var p := Put(buf, 0, Header(Number(pid), cc, unitStart, adaptation), was, 0, []);
      assert [] + Header(Number(pid), cc, unitStart, adaptation) == Header(Number(pid), cc, unitStart, adaptation);
    }

    method Emit(buf: array<byte>)
      modifies this`sink, this`packets, this`sincePsi
      ensures sink == old(sink) + [buf[..]] && packets == old(packets) + 1 && sincePsi == old(sincePsi) + 1
    {
      sink := sink + [buf[..]];
      packets := packets + 1;
      sincePsi := sincePsi + 1;
    }

    /** One section in a packet of its own. */
    method WriteSection(buf: array<byte>, pid: Pid, section: bytes)
      requires buf.Length == PACKET_LEN && |section| <= 100
      modifies this`ccPat, this`ccPmt, this`ccVideo, buf
      ensures buf[..] == SectionPacket(Number(pid), old(Counter(pid)), section)
      ensures Model() == Bumped(old(Model()), pid)
    {
      hide Header, Written, Fill, SectionPacket, Crc32.Crc, Crc32.Bits, Crc32.ToBytes, Crc32.BigEndian;
      ghost var was, number, cc := buf[..], Number(pid), Counter(pid);
      WriteHeader(buf, pid, true, false);
      SectionIs(number, cc, section);
      LaySection(buf, section, was, Header(number, cc, true, false));
    }

    /** Pointer field, section, CRC and fill, behind the four header bytes. */
    method LaySection(buf: array<byte>, section: bytes, ghost was: bytes, ghost head: bytes)
      requires buf.Length == PACKET_LEN && |section| <= 100 && |head| == 4 && Written(buf[..], was, 0, head)
      modifies buf
      ensures buf[..] == Behind(head, section)
    {
      hide Written, Fill, Crc32.Crc, Crc32.Bits, Crc32.ToBytes, Crc32.BigEndian;
      var crc := Crc32.CrcLoop(Crc32.Bits(section));
      var full := section + Crc32.ToBytes(Crc32.BigEndian(crc));
      var p := Put(buf, 4, [0], was, 0, head);
      p := Put(buf, p, full, was, 0, head + [0]);
      p := Put(buf, p, Fill(PACKET_LEN - 5 - |full|), was, 0, head + [0] + full);
      WrittenFront(buf[..], was, Behind(head, section));
    }

    /** A section packet whose header is `head`. */
    ghost function Behind(head: bytes, section: bytes): (r: bytes)
      requires |section| <= 100 && |head| == 4
      ensures |r| == PACKET_LEN
    {
      var full := section + Crc32.ToBytes(Crc32.BigEndian(Crc32.Crc(Crc32.Bits(section))));
      head + [0] + full + Fill(PACKET_LEN - 5 - |full|)
    }

    lemma {:induction false} SectionIs(number: u16, cc: counter, section: bytes)
      requires |section| <= 100
      ensures SectionPacket(number, cc, section) == Behind(Header(number, cc, true, false), section)
    {
      hide Header, Fill, Crc32.Crc, Crc32.Bits, Crc32.ToBytes, Crc32.BigEndian;
    }

    /** PAT and PMT. */
    method WritePsi()
      modifies this
      ensures Model() == AfterPsi(old(Model())).(started := old(started))
      ensures sink == old(sink) + [PatPacket(old(ccPat)), PmtPacket(old(ccPmt))]
    {
      hide SectionPacket;
      var buf := new byte[PACKET_LEN];
      WriteSection(buf, Pat, PAT_SECTION);
      Emit(buf);
      buf := new byte[PACKET_LEN];
      WriteSection(buf, Pmt, PMT_SECTION);
      Emit(buf);
      sincePsi := 0;
      psiWritten := psiWritten + 1;
      assert old(sink) + [PatPacket(old(ccPat))] + [PmtPacket(old(ccPmt))] ==
             old(sink) + [PatPacket(old(ccPat)), PmtPacket(old(ccPmt))];
    }

    /** What stands in front of the payload in a unit's first packet. */
    ghost function FirstFront(cc: counter, key: bool, pcr: ticks, l: nat): bytes
      requires 7 <= l <= 183
    {
      Header(PID_VIDEO, cc, true, true) + [l, 0x10 + if key then 0x40 else 0] + PcrField(pcr) + Fill(l - 7)
    }

    /** Header and adaptation field of a unit's first packet; returns where the payload goes. */
    method LayFirst(buf: array<byte>, key: bool, pcr: ticks, l: nat) returns (p: nat)
      requires buf.Length == PACKET_LEN && 7 <= l <= 183
      modifies this`ccPat, this`ccPmt, this`ccVideo, buf
      ensures p == 5 + l == |FirstFront(old(ccVideo), key, pcr, l)|
      ensures Written(buf[..], old(buf[..]), 0, FirstFront(old(ccVideo), key, pcr, l))
      ensures Model() == Bumped(old(Model()), Video)
    {
      hide Header, Written, Fill, PcrField;
      ghost var was := buf[..];
      WriteHeader(buf, Video, true, true);
      ghost var head := Header(PID_VIDEO, old(ccVideo), true, true);
      var flags: byte := 0x10 + if key then 0x40 else 0;
      p := Put(buf, 4, [l, flags], was, 0, head);
      p := Put(buf, p, PcrField(pcr), was, 0, head + [l, flags]);
      p := Put(buf, p, Fill(l - 7), was, 0, head + [l, flags] + PcrField(pcr));
    }

    lemma {:induction false} FirstIs(cc: counter, key: bool, pcr: ticks, data: bytes)
      requires |data| >= 15
      ensures FirstPacket(cc, key, pcr, data) ==
              FirstFront(cc, key, pcr, FirstFieldLen(|data|)) + data[..183 - FirstFieldLen(|data|)]
    {
    }

    /** Header, adaptation field and payload of a unit's first packet. */
    method FirstIntoBuffer(buf: array<byte>, reader: Chunks, key: bool, pcr: ticks)
      requires buf.Length == PACKET_LEN && reader.Valid() && |reader.Rest()| >= 15
      modifies this`ccPat, this`ccPmt, this`ccVideo, buf, reader
      ensures reader.Valid()
      ensures buf[..] == FirstPacket(old(ccVideo), key, pcr, old(reader.Rest()))
      ensures reader.Rest() == old(reader.Rest())[183 - FirstFieldLen(|old(reader.Rest())|)..]
      ensures Model() == Bumped(old(Model()), Video)
    {
      hide Written, FirstFront, Concat, FirstPacket, Chunks.Rest, Chunks.Valid;
      ghost var was, rest := buf[..], reader.Rest();
      var remaining := reader.Remaining();
      var l := FirstFieldLen(remaining);
      var p := LayFirst(buf, key, pcr, l);
      ghost var front, filled := FirstFront(old(ccVideo), key, pcr, l), buf[..];
      reader.Read(buf, p);
      ReadBehind(buf[..], filled, was, front, rest[..183 - l]);
      FirstIs(old(ccVideo), key, pcr, rest);
    }

    /** A read behind bytes already laid out completes the packet. */
    lemma {:induction false} ReadBehind(b: bytes, filled: bytes, was: bytes, front: bytes, data: bytes)
      requires |b| == |filled| == |was| == |front| + |data|
      requires Written(filled, was, 0, front) && Written(b, filled, |front|, data)
      ensures b == front + data
    {
      assert was[..0] + front == front;
      assert filled[..|front|] == front;
    }

    /** Header and stuffing of a short later packet with `l` bytes to spare; returns where the payload goes. */
    method LayShort(buf: array<byte>, l: nat) returns (p: nat)
      requires buf.Length == PACKET_LEN && l <= 182
      modifies this`ccPat, this`ccPmt, this`ccVideo, buf
      ensures p == 5 + l == |ShortFront(old(ccVideo), l)|
      ensures Written(buf[..], old(buf[..]), 0, ShortFront(old(ccVideo), l))
      ensures Model() == Bumped(old(Model()), Video)
    {
      hide Header, Written, Fill;
      ghost var was := buf[..];
      WriteHeader(buf, Video, false, true);
      ghost var head := Header(PID_VIDEO, old(ccVideo), false, true);
      p := Put(buf, 4, [l], was, 0, head);
      if l >= 1 {
        p := Put(buf, p, [0], was, 0, head + [l]);
        p := Put(buf, p, Fill(l - 1), was, 0, head + [l] + [0]);
        assert head + [l] + [0] + Fill(l - 1) == head + [l] + ([0] + Fill(l - 1));
      } else {
        assert head + [l] + [] == head + [l];
      }
    }

    ghost function ShortFront(cc: counter, l: nat): bytes
      requires l <= 182
    {
      Header(PID_VIDEO, cc, false, true) + [l] + if l >= 1 then [0] + Fill(l - 1) else []
    }

    lemma {:induction false} NextIs(cc: counter, data: bytes)
      requires data != []
      ensures NextPacket(cc, data) ==
              if |data| >= 184 then Header(PID_VIDEO, cc, false, false) + data[..184]
              else ShortFront(cc, 183 - |data|) + data[..|data|]
    {
      assert data[..|data|] == data;
    }

    /** Header, stuffing and payload of a later packet. */
    method NextIntoBuffer(buf: array<byte>, reader: Chunks)
      requires buf.Length == PACKET_LEN && reader.Valid() && reader.Rest() != []
      modifies this`ccPat, this`ccPmt, this`ccVideo, buf, reader
      ensures reader.Valid()
      ensures buf[..] == NextPacket(old(ccVideo), old(reader.Rest()))
      ensures reader.Rest() == old(reader.Rest())[NextTake(|old(reader.Rest())|)..]
      ensures Model() == Bumped(old(Model()), Video)
    {
      hide Header, Written, Concat, ShortFront, NextPacket, Chunks.Rest, Chunks.Valid;
      ghost var was, rest := buf[..], reader.Rest();
      NextIs(ccVideo, rest);
      var remaining := reader.Remaining();
      if remaining >= 184 {
        WriteHeader(buf, Video, false, false);
        ghost var head, filled := Header(PID_VIDEO, old(ccVideo), false, false), buf[..];
        reader.Read(buf, 4);
        ReadBehind(buf[..], filled, was, head, rest[..184]);
      } else {
        var p := LayShort(buf, 183 - remaining);
        ghost var front, filled := ShortFront(old(ccVideo), 183 - remaining), buf[..];
        reader.Read(buf, p);
        ReadBehind(buf[..], filled, was, front, rest[..remaining]);
      }
    }

    /** Muxes one H.264 access unit. */
    method Push(p: MediaPacket) returns (r: Result<()>)
      modifies this
      ensures p.codec != H264 || p.data == [] ==> r == Err(Unsupported) && Model() == old(Model()) && sink == old(sink)
      ensures Accepts(p) <==> p.codec == H264 && p.data != []
      ensures Accepts(p) ==> r == Ok(()) && Model() == TsMux.Push(old(Model()), p)
      ensures Accepts(p) ==> sink == old(sink) + Sent(old(Model()), p)
    {
      hide PatPacket, PmtPacket, PesHeader, VideoPackets, WithAud, Advance, Bump, Pts, Pcr, Concat, AccessUnits.StartsWithAud, AccessUnits.ContainsIdr;
      if p.codec != H264 || p.data == [] {
        return Err(Unsupported);
      }
      var key := p.key || AccessUnits.ContainsIdr(p.data);
      ghost var s := Model();
      if !started || key || sincePsi >= PSI_INTERVAL {
        WritePsi();
        started := true;
      }
      var pts := Pts(p.timestamp);
      var aud := if AccessUnits.StartsWithAud(p.data) then [] else AUD_NAL;
      PartsJoined(PesHeader(pts), aud, p.data);
      AudPart(p.data);
      ghost var before := sink;
      assert old(sink) + [] == old(sink);
      assert before == old(sink) + Psi(s, p);
      VideoLoop([PesHeader(pts), aud, p.data], key, Pcr(pts));
      assert old(sink) + Psi(s, p) + TsMux.Video(s, p) == old(sink) + (Psi(s, p) + TsMux.Video(s, p));
      return Ok(());
    }

    lemma {:induction false} AudPart(data: bytes)
      ensures WithAud(data) == (if AccessUnits.StartsWithAud(data) then [] else AUD_NAL) + data
    {
    }

    lemma {:induction false} PartsJoined(a: bytes, b: bytes, c: bytes)
      ensures Concat([a, b, c]) == a + (b + c)
    {
      assert [a, b, c][1..] == [b, c] && [b, c][1..] == [c] && [c][1..] == [];
      assert Concat([c]) == c + [] == c;
      assert Concat([b, c]) == b + c;
    }

    /** The packet loop of one access unit. */
    method VideoLoop(parts: seq<bytes>, key: bool, pcr: ticks)
      requires |Concat(parts)| >= 15
      modifies this
      ensures var pkts := VideoPackets(old(ccVideo), key, pcr, Concat(parts));
              && sink == old(sink) + pkts
              && Model() == old(Model()).(ccVideo := Advance(old(ccVideo), |pkts|), packets := old(packets) + |pkts|,
                                          sincePsi := old(sincePsi) + |pkts|)
    {
      hide Concat, FirstPacket, NextPacket, FirstFieldLen, NextTake, NextPackets, Advance, VideoPackets, Bump, Chunks.Rest, Chunks.Valid;
      var reader := new Chunks(parts);
      var buf := new byte[PACKET_LEN];
      ghost var s, was, data := Model(), sink, Concat(parts);
      VideoIs(s.ccVideo, key, pcr, data);
      FirstIntoBuffer(buf, reader, key, pcr);
      Emit(buf);
      ghost var done := [FirstPacket(s.ccVideo, key, pcr, data)];
      ghost var all := VideoPackets(s.ccVideo, key, pcr, data);
      AdvanceOne(s.ccVideo);
      var remaining := reader.Remaining();
      while remaining > 0
        invariant reader.Valid() && remaining == |reader.Rest()| && fresh(reader) && fresh(buf)
        invariant all == done + NextPackets(ccVideo, reader.Rest())
        invariant sink == was + done
        invariant Model() == Moved(s, |done|)
        decreases remaining
      {
        ghost var rest, cc := reader.Rest(), ccVideo;
        NextStep(cc, rest);
        EmitNext(buf, reader);
        done := Snoc(done, NextPacket(cc, rest), NextPackets(ccVideo, reader.Rest()), was);
        AdvanceNext(s.ccVideo, |done| - 1);
        remaining := reader.Remaining();
      }
      NextEnd(ccVideo, reader.Rest());
      assert done + [] == done;
    }

    /** After `n` packets of a unit. */
    ghost function Moved(s: State, n: nat): State {
      s.(ccVideo := Advance(s.ccVideo, n), packets := s.packets + n, sincePsi := s.sincePsi + n)
    }

    lemma {:induction false} Snoc(done: seq<bytes>, pkt: bytes, rest: seq<bytes>, was: seq<bytes>) returns (more: seq<bytes>)
      ensures more == done + [pkt] && |more| == |done| + 1
      ensures done + ([pkt] + rest) == more + rest && was + done + [pkt] == was + more
    {
      more := done + [pkt];
    }

    method EmitNext(buf: array<byte>, reader: Chunks)
      requires buf.Length == PACKET_LEN && reader.Valid() && reader.Rest() != []
      modifies this, buf, reader
      ensures reader.Valid() && reader.Rest() == old(reader.Rest())[NextTake(|old(reader.Rest())|)..]
      ensures sink == old(sink) + [NextPacket(old(ccVideo), old(reader.Rest()))]
      ensures Model() == Bumped(old(Model()), Video).(packets := old(packets) + 1, sincePsi := old(sincePsi) + 1)
    {
      hide NextPacket, NextTake, Bump, Chunks.Rest, Chunks.Valid;
      NextIntoBuffer(buf, reader);
      Emit(buf);
    }

    lemma {:induction false} VideoIs(cc: counter, key: bool, pcr: ticks, data: bytes)
      requires |data| >= 15
      ensures VideoPackets(cc, key, pcr, data) ==
              [FirstPacket(cc, key, pcr, data)] + NextPackets(Bump(cc), data[183 - FirstFieldLen(|data|)..])
    {
    }

    lemma {:induction false} AdvanceOne(cc: counter)
      ensures Advance(cc, 1) == Bump(cc)
    {
    }

    lemma {:induction false} AdvanceNext(cc: counter, n: nat)
      ensures Advance(cc, n + 1) == Bump(Advance(cc, n))
    {
    }

    lemma {:induction false} NextStep(cc: counter, data: bytes)
      requires data != []
      ensures NextPackets(cc, data) == [NextPacket(cc, data)] + NextPackets(Bump(cc), data[NextTake(|data|)..])
      ensures |data[NextTake(|data|)..]| < |data|
    {
      hide NextPacket;
    }

    lemma {:induction false} NextEnd(cc: counter, data: bytes)
      requires data == []
      ensures NextPackets(cc, data) == []
    {
    }
  }
}
