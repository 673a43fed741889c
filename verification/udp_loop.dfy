/** The datagram framer and the reassembler over their buffers, against `Udp`. */
module UdpLoop {
  import opened Bytes
  import opened Media
  import opened Udp

  class Framer {
    const mtu: nat
    var seqNo: u32

    constructor (mtu: nat)
      ensures this.mtu == mtu && seqNo == 0
    {
      this.mtu, seqNo := mtu, 0;
    }

    ghost predicate Valid() {
      mtu > HEADER_LEN
    }

    /** Splits one packet; `sent` is what `emit` was handed, in order. */
    method Frame(packet: MediaPacket, scratch: array<byte>) returns (r: Result<nat>, sent: seq<bytes>)
      requires Valid()
      modifies this, scratch
      ensures scratch.Length < mtu ==> r == Err(BufferTooSmall(mtu)) && sent == [] && seqNo == old(seqNo)
      ensures scratch.Length >= mtu && !Frameable(packet) ==>
                r == Err(InvalidFormat) && sent == [] && seqNo == old(seqNo)
      ensures scratch.Length >= mtu && Frameable(packet) ==>
                && sent == Datagrams(packet, old(seqNo), mtu - HEADER_LEN, 0)
                && r == Ok(|sent|) && seqNo == (old(seqNo) + 1) % 0x1_0000_0000
    {
      hide Datagrams, Datagram;
      sent := [];
      if scratch.Length < mtu {
        return Err(BufferTooSmall(mtu)), sent;
      }
      if |packet.data| >= 0x1_0000_0000 {
        return Err(InvalidFormat), sent;
      }
      var room, seqNow, offset := mtu - HEADER_LEN, seqNo, 0;
      seqNo := (seqNo + 1) % 0x1_0000_0000;
      ghost var now := seqNo;
      assert sent + Datagrams(packet, seqNow, room, 0) == Datagrams(packet, seqNow, room, 0);
      while true
        invariant offset <= |packet.data| && seqNo == now
        invariant sent + Datagrams(packet, seqNow, room, offset) == Datagrams(packet, seqNow, room, 0)
        decreases |packet.data| - offset
      {
        var take := Min(|packet.data| - offset, room);
        DatagramsStep(packet, seqNow, room, offset);
        var d := BuildDatagram(packet, seqNow, room, offset, take, scratch);
        ghost var before := sent;
        sent := sent + [d];
        offset := offset + take;
        if offset >= |packet.data| {
          break;
        }
        assert before + ([d] + Datagrams(packet, seqNow, room, offset)) == sent + Datagrams(packet, seqNow, room, offset);
      }
      return Ok(|sent|), sent;
    }

    /** Lays one datagram out in `scratch`. */
    method BuildDatagram(packet: MediaPacket, seqNow: u32, room: nat, offset: nat, take: nat, scratch: array<byte>)
      returns (d: bytes)
      requires Valid() && scratch.Length >= mtu && room == mtu - HEADER_LEN && Frameable(packet)
      requires offset <= |packet.data| && take == Min(|packet.data| - offset, room)
      modifies scratch
      ensures d == Datagram(packet, seqNow, room, offset)
    {
      hide Written, Encode;
      ghost var was := scratch[..];
      var p := WriteHeader(packet, seqNow, offset, scratch);
      ghost var head := Encode(HeaderOf(packet, seqNow, offset));
      var payload := packet.data[offset..offset + take];
      p := Put(scratch, p, payload, was, 0, head);
      WrittenFront(scratch[..], was, head + payload);
      d := scratch[..HEADER_LEN + take];
    }

    /** The header of one datagram. */
    method WriteHeader(packet: MediaPacket, seqNow: u32, offset: nat, scratch: array<byte>) returns (p: nat)
      requires scratch.Length >= HEADER_LEN && Frameable(packet) && offset <= |packet.data|
      modifies scratch
      ensures p == HEADER_LEN && Written(scratch[..], old(scratch[..]), 0, Encode(HeaderOf(packet, seqNow, offset)))
    {
      hide Written, Be32, Be64, Concat;
      ghost var was := scratch[..];
      EncodeIs(HeaderOf(packet, seqNow, offset));
      WrittenNothing(was, 0);
      var total, ts := Be32(|packet.data|), Be64(packet.timestamp);
      ghost var done := MAGIC;
      p := Put(scratch, 0, MAGIC, was, 0, []);
      assert [] + MAGIC == MAGIC;
      p := Put(scratch, p, Be32(seqNow), was, 0, done);
      done := done + Be32(seqNow);
      p := Put(scratch, p, ts, was, 0, done);
      done := done + ts;
      p := Put(scratch, p, total, was, 0, done);
      done := done + total;
      p := Put(scratch, p, Be32(offset), was, 0, done);
      done := done + Be32(offset);
      var rest: bytes := [Tag(packet.codec), if packet.key then 1 else 0, 0, 0];
      p := Put(scratch, p, rest, was, 0, done);
      assert done + rest == Encode(HeaderOf(packet, seqNow, offset));
    }
  }

  /** A framer, unless the MTU has no room for a payload byte. */
  method New(mtu: nat) returns (r: Result<Framer>)
    ensures mtu <= 28 ==> r == Err(InvalidFormat)
    ensures mtu > 28 ==> r.Ok? && fresh(r.value) && r.value.Valid() && r.value.mtu == mtu && r.value.seqNo == 0
  {
    if mtu <= HEADER_LEN {
      return Err(InvalidFormat);
    }
    var f := new Framer(mtu);
    return Ok(f);
  }

  lemma {:induction false} DatagramsStep(p: MediaPacket, seqNo: u32, room: nat, off: nat)
    requires Frameable(p) && off <= |p.data| && room > 0
    ensures var to := EndOf(p, room, off);
            Datagrams(p, seqNo, room, off) ==
            [Datagram(p, seqNo, room, off)] + if to >= |p.data| then [] else Datagrams(p, seqNo, room, to)
  {
    hide Datagram;
  }

  class Reassembler {
    const buf: array<byte>
    var current: Option<Header>
    var received: nat
    var complete: nat
    var lost: nat

    /** The state `Udp` speaks of. */
    ghost function Model(): State
      reads this, buf
    {
      State(buf[..], current, received, complete, lost)
    }

    constructor (buf: array<byte>)
      ensures this.buf == buf && Model() == Init(buf[..])
    {
      this.buf := buf;
      current, received, complete, lost := None, 0, 0, 0;
    }

    /** Feeds one datagram. */
    method Push(datagram: bytes) returns (r: Result<Reassembly>)
      modifies this, buf
      ensures Step(Model(), r) == Udp.Push(old(Model()), datagram)
    {
      hide Parse;
      var parsed := Parse(datagram);
      if parsed.Err? {
        return Err(parsed.error);
      }
      var h, payload := parsed.value, datagram[HEADER_LEN..];
      if h.total > buf.Length {
        return Err(BufferTooSmall(h.total));
      }
      var end := h.offset as int + |payload|;
      if end > h.total {
        return Err(InvalidFormat);
      }
      var gap: Option<u32> := None;
      if current.Some? && current.value.seqNo == h.seqNo {
      } else {
        if current.Some? {
          lost := lost + 1;
          gap := Some(current.value.seqNo);
        }
        current := Some(h);
        received := 0;
      }
      CopyInto(buf, h.offset, payload);
      received := received + |payload|;
      if received >= h.total {
        current := None;
        complete := complete + 1;
        return Result.Ok(Complete(h));
      }
      return Result.Ok(if gap.Some? then Gap(gap.value) else Partial);
    }

    /** The bytes of the packet just completed. */
    method Packet(h: Header) returns (r: bytes)
      requires h.total <= buf.Length
      ensures r == PacketBytes(Model(), h)
    {
      r := buf[..h.total];
    }
  }
}
