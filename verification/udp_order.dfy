/** The reassembler over every order of one packet's fragments, and over runs of many packets with losses. */
module UdpOrder {
  import opened Bytes
  import opened Media
  import opened Udp

  // ----- where the fragments of a packet lie

  function Offsets(p: MediaPacket, room: nat, off: nat): (r: seq<nat>)
    requires off <= |p.data| && room > 0
    ensures r != [] && forall k :: 0 <= k < |r| ==> r[k] <= |p.data|
    decreases |p.data| - off
  {
    var to := EndOf(p, room, off);
    [off] + if to >= |p.data| then [] else Offsets(p, room, to)
  }

  /** `offs` cuts the packet into consecutive fragments, from its first offset to its end. */
  ghost predicate Cuts(p: MediaPacket, room: nat, offs: seq<nat>): (r: bool)
    ensures r ==> offs != [] && forall k :: 0 <= k < |offs| ==> offs[0] <= offs[k] <= |p.data|
  {
    && room > 0 && offs != [] && offs[0] <= |p.data|
    && if |offs| == 1 then EndOf(p, room, offs[0]) == |p.data|
       else EndOf(p, room, offs[0]) == offs[1] < |p.data| && Cuts(p, room, offs[1..])
  }

  lemma {:induction false} OffsetsCut(p: MediaPacket, seqNo: u32, room: nat, off: nat)
    requires off <= |p.data| && room > 0 && Frameable(p)
    ensures var offs, ds := Offsets(p, room, off), Datagrams(p, seqNo, room, off);
            && Cuts(p, room, offs) && offs[0] == off && |ds| == |offs|
            && forall k :: 0 <= k < |offs| ==> ds[k] == Datagram(p, seqNo, room, offs[k])
    decreases |p.data| - off
  {
    hide Datagram;
    var to := EndOf(p, room, off);
    if to < |p.data| {
      var offs, ds := Offsets(p, room, off), Datagrams(p, seqNo, room, off);
      var offs1, ds1 := Offsets(p, room, to), Datagrams(p, seqNo, room, to);
      OffsetsCut(p, seqNo, room, to);
      assert offs == [off] + offs1 && ds == [Datagram(p, seqNo, room, off)] + ds1 && offs[1..] == offs1;
      forall k | 0 <= k < |offs| ensures ds[k] == Datagram(p, seqNo, room, offs[k]) {
        if k > 0 {
          assert ds[k] == ds1[k - 1] && offs[k] == offs1[k - 1];
        }
      }
    }
  }

  /** Earlier fragments end where later ones have not begun. */
  lemma {:induction false} Ascending(p: MediaPacket, room: nat, offs: seq<nat>, j: nat, k: nat)
    requires Cuts(p, room, offs) && j < k < |offs|
    ensures EndOf(p, room, offs[j]) <= offs[k]
  {
    assert offs[k] == offs[1..][k - 1];
    if j > 0 {
      Ascending(p, room, offs[1..], j - 1, k - 1);
    }
  }

  // ----- counting fragments and bytes

  function CountTrue(have: seq<bool>): (n: nat)
    ensures n <= |have|
  {
    if have == [] then 0 else (if have[0] then 1 else 0) + CountTrue(have[1..])
  }

  /** Payload bytes of the fragments marked. */
  function BytesOf(p: MediaPacket, room: nat, offs: seq<nat>, have: seq<bool>): nat
    requires |have| == |offs| && forall k :: 0 <= k < |offs| ==> offs[k] <= |p.data|
  {
    if offs == [] then 0
    else (if have[0] then EndOf(p, room, offs[0]) - offs[0] else 0) + BytesOf(p, room, offs[1..], have[1..])
  }

  lemma {:induction false} CountMark(have: seq<bool>, k: nat)
    requires k < |have| && !have[k]
    ensures CountTrue(have[k := true]) == CountTrue(have) + 1
  {
    var marked := have[k := true];
    if k > 0 {
      assert marked[1..] == have[1..][k - 1 := true];
      CountMark(have[1..], k - 1);
    } else {
      assert marked[1..] == have[1..];
    }
  }

  lemma {:induction false} BytesMark(p: MediaPacket, room: nat, offs: seq<nat>, have: seq<bool>, k: nat)
    requires |have| == |offs| && forall k :: 0 <= k < |offs| ==> offs[k] <= |p.data|
    requires k < |have| && !have[k]
    ensures BytesOf(p, room, offs, have[k := true]) ==
            BytesOf(p, room, offs, have) + EndOf(p, room, offs[k]) - offs[k]
  {
    hide EndOf;
    var marked := have[k := true];
    if k > 0 {
      assert marked[1..] == have[1..][k - 1 := true];
      BytesMark(p, room, offs[1..], have[1..], k - 1);
    } else {
      assert marked[1..] == have[1..];
    }
  }

  /** All bytes are there exactly when all fragments are; before the first fragment of an empty packet too. */
  lemma {:induction false} BytesComplete(p: MediaPacket, room: nat, offs: seq<nat>, have: seq<bool>)
    requires Cuts(p, room, offs) && |have| == |offs|
    ensures CountTrue(have) == |have| ==> BytesOf(p, room, offs, have) == |p.data| - offs[0]
    ensures CountTrue(have) < |have| && offs[0] < |p.data| ==> BytesOf(p, room, offs, have) < |p.data| - offs[0]
  {
    hide EndOf;
    EndGrows(p, room, offs[0]);
    if |offs| > 1 {
      BytesComplete(p, room, offs[1..], have[1..]);
    } else {
      assert have[1..] == [] && offs[1..] == [];
      assert BytesOf(p, room, offs[1..], have[1..]) == 0;
    }
  }

  lemma {:induction false} EndGrows(p: MediaPacket, room: nat, off: nat)
    requires room > 0 && off <= |p.data|
    ensures off < |p.data| ==> off < EndOf(p, room, off)
  {
  }

  // ----- one fragment arrives

  /** The buffer holds the fragments marked, of packet `seqNo` and no other. */
  ghost predicate Holding(s: State, p: MediaPacket, seqNo: u32, room: nat, offs: seq<nat>, have: seq<bool>) {
    && Cuts(p, room, offs) && |have| == |offs| && |p.data| <= |s.buf|
    && s.current.Some? && s.current.value.seqNo == seqNo
    && s.received == BytesOf(p, room, offs, have)
    && forall k :: 0 <= k < |have| && have[k] ==>
         s.buf[offs[k]..EndOf(p, room, offs[k])] == p.data[offs[k]..EndOf(p, room, offs[k])]
  }

  /** Not in the middle of `seqNo`. */
  predicate Elsewhere(s: State, seqNo: u32) {
    s.current.Some? ==> s.current.value.seqNo != seqNo
  }

  function NoneYet(n: nat): (r: seq<bool>)
    ensures |r| == n && forall k :: 0 <= k < n ==> !r[k]
  {
    if n == 0 then [] else [false] + NoneYet(n - 1)
  }

  lemma {:induction false} NoneCounted(n: nat)
    ensures CountTrue(NoneYet(n)) == 0
  {
    if n > 0 {
      NoneCounted(n - 1);
    }
  }

  lemma {:induction false} NoBytes(p: MediaPacket, room: nat, offs: seq<nat>)
    requires forall k :: 0 <= k < |offs| ==> offs[k] <= |p.data|
    ensures BytesOf(p, room, offs, NoneYet(|offs|)) == 0
  {
    if offs != [] {
      assert NoneYet(|offs|)[1..] == NoneYet(|offs| - 1);
      NoBytes(p, room, offs[1..]);
    }
  }

  /** What pushing a fragment of a packet that fits comes to. */
  lemma {:induction false} PushFragment(s: State, p: MediaPacket, seqNo: u32, room: nat, off: nat)
    requires Frameable(p) && off <= |p.data| <= |s.buf|
    ensures var h, to := HeaderOf(p, seqNo, off), EndOf(p, room, off);
            var o := Open(s, h);
            var n := o.(buf := s.buf[..off] + p.data[off..to] + s.buf[to..], received := o.received + (to - off));
            Push(s, Datagram(p, seqNo, room, off)) ==
            if n.received >= |p.data| then Step(n.(current := None, complete := n.complete + 1), Ok(Complete(h)))
            else Step(n, Ok(if Elsewhere(s, seqNo) && s.current.Some? then Gap(s.current.value.seqNo) else Partial))
  {
    hide Parse, Encode;
    var h, to := HeaderOf(p, seqNo, off), EndOf(p, room, off);
    var d := Datagram(p, seqNo, room, off);
    ParseEncode(h, p.data[off..to]);
    assert d[HEADER_LEN..] == p.data[off..to];
  }

  lemma {:induction false} PushTooLarge(s: State, p: MediaPacket, seqNo: u32, room: nat, off: nat)
    requires Frameable(p) && off <= |p.data| && |p.data| > |s.buf|
    ensures Push(s, Datagram(p, seqNo, room, off)) == Step(s, Err(BufferTooSmall(|p.data|)))
  {
    hide Parse, Encode;
    ParseEncode(HeaderOf(p, seqNo, off), p.data[off..EndOf(p, room, off)]);
  }

  /** A copy into one fragment's place leaves the other fragments alone. */
  lemma {:induction false} WriteFragment(p: MediaPacket, room: nat, offs: seq<nat>, k: nat, buf: bytes, j: nat)
    requires Cuts(p, room, offs) && k < |offs| && j < |offs| && |p.data| <= |buf|
    requires j != k ==> buf[offs[j]..EndOf(p, room, offs[j])] == p.data[offs[j]..EndOf(p, room, offs[j])]
    ensures var to := EndOf(p, room, offs[k]);
            var now := buf[..offs[k]] + p.data[offs[k]..to] + buf[to..];
            |now| == |buf| && now[offs[j]..EndOf(p, room, offs[j])] == p.data[offs[j]..EndOf(p, room, offs[j])]
  {
    hide EndOf;
    var to := EndOf(p, room, offs[k]);
    var now := buf[..offs[k]] + p.data[offs[k]..to] + buf[to..];
    assert |now| == |buf|;
    if j < k {
      Ascending(p, room, offs, j, k);
    } else if k < j {
      Ascending(p, room, offs, k, j);
    }
    OutsideWrite(buf, offs[k], p.data[offs[k]..to], offs[j], EndOf(p, room, offs[j]));
  }

  lemma {:induction false} OutsideWrite(buf: bytes, lo: nat, src: bytes, a: nat, b: nat)
    requires lo + |src| <= |buf| && a <= b <= |buf|
    ensures var now := buf[..lo] + src + buf[lo + |src|..];
            && (b <= lo || lo + |src| <= a ==> now[a..b] == buf[a..b])
            && (a == lo && b == lo + |src| ==> now[a..b] == src)
  {
  }

  /** When every fragment is in place the buffer starts with the packet. */
  lemma {:induction false} AllInPlace(p: MediaPacket, room: nat, offs: seq<nat>, buf: bytes)
    requires Cuts(p, room, offs) && |p.data| <= |buf|
    requires forall k :: 0 <= k < |offs| ==>
               buf[offs[k]..EndOf(p, room, offs[k])] == p.data[offs[k]..EndOf(p, room, offs[k])]
    ensures buf[offs[0]..|p.data|] == p.data[offs[0]..]
    decreases |offs|
  {
    hide EndOf;
    var a, n := offs[0], |p.data|;
    assert buf[a..EndOf(p, room, a)] == p.data[a..EndOf(p, room, a)];
    if |offs| > 1 {
      var tail, b := offs[1..], offs[1];
      forall k | 0 <= k < |tail|
        ensures buf[tail[k]..EndOf(p, room, tail[k])] == p.data[tail[k]..EndOf(p, room, tail[k])]
      {
        assert tail[k] == offs[k + 1];
      }
      AllInPlace(p, room, tail, buf);
      assert buf[a..n] == buf[a..b] + buf[b..n] && p.data[a..] == p.data[a..b] + p.data[b..];
    }
  }

  function DeliveryOf(p: MediaPacket, seqNo: u32): Delivery {
    Delivery(seqNo, p.timestamp, Some(p.codec), p.key, p.data)
  }

  /** Where the reassembler stands with respect to packet `seqNo`: mid-way, or not begun. */
  ghost predicate Midway(s: State, p: MediaPacket, seqNo: u32, room: nat, offs: seq<nat>, have: seq<bool>) {
    && Cuts(p, room, offs) && |have| == |offs| && |p.data| <= |s.buf|
    && if CountTrue(have) == 0 then Elsewhere(s, seqNo) && have == NoneYet(|offs|)
       else Holding(s, p, seqNo, room, offs, have)
  }

  /** The packet a first fragment displaces. */
  function Displaced(s: State, have: seq<bool>): nat {
    if CountTrue(have) == 0 && s.current.Some? then 1 else 0
  }

  lemma {:induction false} MarkedHolds(s: State, p: MediaPacket, seqNo: u32, room: nat, offs: seq<nat>, have: seq<bool>,
                                       k: nat)
    requires Midway(s, p, seqNo, room, offs, have) && k < |offs| && !have[k]
    ensures var to := EndOf(p, room, offs[k]);
            var now := s.buf[..offs[k]] + p.data[offs[k]..to] + s.buf[to..];
            && |now| == |s.buf|
            && forall j :: 0 <= j < |have| && have[k := true][j] ==>
                 now[offs[j]..EndOf(p, room, offs[j])] == p.data[offs[j]..EndOf(p, room, offs[j])]
  {
    hide EndOf;
    var to := EndOf(p, room, offs[k]);
    var now := s.buf[..offs[k]] + p.data[offs[k]..to] + s.buf[to..];
    WriteFragment(p, room, offs, k, s.buf, k);
    forall j | 0 <= j < |have| && have[k := true][j]
      ensures now[offs[j]..EndOf(p, room, offs[j])] == p.data[offs[j]..EndOf(p, room, offs[j])]
    {
      if j != k {
        WriteFragment(p, room, offs, k, s.buf, j);
      }
    }
  }

  /** Bytes received so far, whether or not the first fragment is the one arriving. */
  lemma {:induction false} ReceivedSoFar(s: State, p: MediaPacket, seqNo: u32, room: nat, offs: seq<nat>, have: seq<bool>,
                                         off: nat)
    requires Midway(s, p, seqNo, room, offs, have) && Frameable(p) && off <= |p.data|
    ensures var o := Open(s, HeaderOf(p, seqNo, off));
            && o.received == BytesOf(p, room, offs, have)
            && o.lost == s.lost + Displaced(s, have) && o.complete == s.complete && o.buf == s.buf
            && o.current.Some? && o.current.value.seqNo == seqNo
  {
    hide BytesOf, EndOf;
    NoBytes(p, room, offs);
  }

  lemma {:induction false} AllMarked(have: seq<bool>)
    requires CountTrue(have) == |have|
    ensures forall k :: 0 <= k < |have| ==> have[k]
  {
    if have != [] {
      AllMarked(have[1..]);
      forall k | 0 <= k < |have| ensures have[k] {
        assert k > 0 ==> have[k] == have[1..][k - 1];
      }
    }
  }

  /** A new fragment of packet `seqNo`: the packet completes exactly when it was the only one missing. */
  lemma {:induction false} ArriveOne(s: State, p: MediaPacket, seqNo: u32, room: nat, offs: seq<nat>, have: seq<bool>,
                                     k: nat)
    requires Midway(s, p, seqNo, room, offs, have) && Frameable(p) && offs[0] == 0 && k < |offs| && !have[k]
    ensures var r := Push(s, Datagram(p, seqNo, room, offs[k]));
            && |r.state.buf| == |s.buf| && r.state.lost == s.lost + Displaced(s, have)
            && if CountTrue(have) + 1 == |offs| then
                 && Out(r) == [DeliveryOf(p, seqNo)]
                 && r.state.current == None && r.state.complete == s.complete + 1
               else
                 && Out(r) == [] && r.state.complete == s.complete
                 && CountTrue(have[k := true]) == CountTrue(have) + 1
                 && Midway(r.state, p, seqNo, room, offs, have[k := true])
  {
    hide Push, Datagram, EndOf, BytesOf, Cuts, Elsewhere, Open;
    var off, to, marked := offs[k], EndOf(p, room, offs[k]), have[k := true];
    PushFragment(s, p, seqNo, room, off);
    MarkedHolds(s, p, seqNo, room, offs, have, k);
    ReceivedSoFar(s, p, seqNo, room, offs, have, off);
    CountMark(have, k);
    BytesMark(p, room, offs, have, k);
    BytesComplete(p, room, offs, marked);
    var now := s.buf[..off] + p.data[off..to] + s.buf[to..];
    if CountTrue(marked) == |offs| {
      AllMarked(marked);
      AllInPlace(p, room, offs, now);
      assert now[..|p.data|] == p.data;
    } else {
      SomeByteMissing(p, room, offs, marked);
    }
  }

  /** With a fragment missing after one has arrived, the packet has more than one and is not empty. */
  lemma {:induction false} SomeByteMissing(p: MediaPacket, room: nat, offs: seq<nat>, have: seq<bool>)
    requires Cuts(p, room, offs) && |have| == |offs| && 0 < CountTrue(have) < |have|
    ensures offs[0] < |p.data|
  {
  }

  // ----- the fragments of one packet, in any order

  /** The fragments `order` lists. */
  function Pick(p: MediaPacket, seqNo: u32, room: nat, offs: seq<nat>, order: seq<nat>): seq<bytes>
    requires Frameable(p)
    requires forall k :: 0 <= k < |offs| ==> offs[k] <= |p.data|
    requires forall i :: 0 <= i < |order| ==> order[i] < |offs|
  {
    if order == [] then []
    else [Datagram(p, seqNo, room, offs[order[0]])] + Pick(p, seqNo, room, offs, order[1..])
  }

  predicate Distinct(order: seq<nat>) {
    forall i, j :: 0 <= i < j < |order| ==> order[i] != order[j]
  }

  predicate InRange(order: seq<nat>, n: nat) {
    forall i :: 0 <= i < |order| ==> order[i] < n
  }

  lemma {:induction false} RunStep(s: State, d: bytes, rest: seq<bytes>)
    ensures Run(s, [d] + rest) == Run(Push(s, d).state, rest)
    ensures Delivered(s, [d] + rest) == Out(Push(s, d)) + Delivered(Push(s, d).state, rest)
    ensures Run(s, []) == s && Delivered(s, []) == []
  {
    hide Push, Out;
    assert ([d] + rest)[1..] == rest;
  }

  lemma {:induction false} ArriveAll(s: State, p: MediaPacket, seqNo: u32, room: nat, offs: seq<nat>, have: seq<bool>,
                                     order: seq<nat>)
    requires Midway(s, p, seqNo, room, offs, have) && Frameable(p) && offs[0] == 0
    requires Distinct(order) && InRange(order, |offs|) && CountTrue(have) < |offs|
    requires forall i :: 0 <= i < |order| ==> !have[order[i]]
    ensures var c, r := CountTrue(have) + |order|, Run(s, Pick(p, seqNo, room, offs, order));
            && c <= |offs| && |r.buf| == |s.buf|
            && Delivered(s, Pick(p, seqNo, room, offs, order)) == (if c == |offs| then [DeliveryOf(p, seqNo)] else [])
            && r.complete == s.complete + (if c == |offs| then 1 else 0)
            && r.lost == s.lost + (if order == [] then 0 else Displaced(s, have))
            && (order == [] ==> r == s)
            && (order != [] && c < |offs| ==> r.current.Some? && r.current.value.seqNo == seqNo)
            && (c == |offs| ==> r.current == None)
    decreases |order|
  {
    hide Push, Out, Datagram, Cuts, BytesOf, Run, Delivered, Elsewhere;
    RunStep(s, [], []);
    if order != [] {
      var k, rest := order[0], order[1..];
      var d, marked := Datagram(p, seqNo, room, offs[k]), have[k := true];
      ArriveOne(s, p, seqNo, room, offs, have, k);
      CountMark(have, k);
      RunStep(s, d, Pick(p, seqNo, room, offs, rest));
      var s1 := Push(s, d).state;
      forall i | 0 <= i < |rest| ensures !marked[rest[i]] && rest[i] < |offs| {
        assert rest[i] == order[i + 1];
      }
      if CountTrue(marked) < |offs| {
        ArriveAll(s1, p, seqNo, room, offs, marked, rest);
        assert [] + Delivered(s1, Pick(p, seqNo, room, offs, rest)) == Delivered(s1, Pick(p, seqNo, room, offs, rest));
      } else {
        AllMarked(marked);
        assert rest == [];
        RunStep(s1, [], []);
      }
    }
  }
}
