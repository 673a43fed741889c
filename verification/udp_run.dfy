/** What the reassembler makes of whole packets, and of long runs in which fragments are lost or reordered. */
module UdpRun {
  import opened Bytes
  import opened Media
  import opened Udp
  import opened UdpOrder

  /** The datagrams `order` lists. */
  function Chosen(ds: seq<bytes>, order: seq<nat>): seq<bytes>
    requires InRange(order, |ds|)
  {
    if order == [] then [] else [ds[order[0]]] + Chosen(ds, order[1..])
  }

  lemma {:induction false} PickIsChosen(p: MediaPacket, seqNo: u32, room: nat, order: seq<nat>)
    requires Frameable(p) && room > 0 && InRange(order, |Datagrams(p, seqNo, room, 0)|)
    ensures var offs := Offsets(p, room, 0);
            && Cuts(p, room, offs) && offs[0] == 0 && |offs| == |Datagrams(p, seqNo, room, 0)|
            && Pick(p, seqNo, room, offs, order) == Chosen(Datagrams(p, seqNo, room, 0), order)
    decreases |order|
  {
    hide Datagram, Cuts, Offsets, Datagrams;
    OffsetsCut(p, seqNo, room, 0);
    if order != [] {
      PickIsChosen(p, seqNo, room, order[1..]);
    }
  }

  lemma {:induction false} StartsMidway(s: State, p: MediaPacket, seqNo: u32, room: nat, offs: seq<nat>)
    requires Cuts(p, room, offs) && |p.data| <= |s.buf| && Elsewhere(s, seqNo)
    ensures Midway(s, p, seqNo, room, offs, NoneYet(|offs|)) && CountTrue(NoneYet(|offs|)) == 0
  {
    hide Cuts;
    NoneCounted(|offs|);
  }

  /** Some distinct fragments of one packet that fits, in any order: it completes, with its own bytes, exactly when
      all of them have arrived. */
  lemma {:induction false} SomeOrder(s: State, p: MediaPacket, seqNo: u32, room: nat, order: seq<nat>)
    requires Frameable(p) && room > 0 && |p.data| <= |s.buf| && Elsewhere(s, seqNo)
    requires Distinct(order) && InRange(order, |Datagrams(p, seqNo, room, 0)|)
    ensures var ds := Datagrams(p, seqNo, room, 0);
            var r, whole := Run(s, Chosen(ds, order)), |order| == |ds|;
            && |order| <= |ds| && |r.buf| == |s.buf|
            && Delivered(s, Chosen(ds, order)) == (if whole then [DeliveryOf(p, seqNo)] else [])
            && r.complete == s.complete + (if whole then 1 else 0)
            && r.lost == s.lost + (if order != [] && s.current.Some? then 1 else 0)
            && (order == [] ==> r == s)
            && (order != [] && !whole ==> r.current.Some? && r.current.value.seqNo == seqNo)
            && (whole ==> r.current == None)
  {
    hide Datagrams, Cuts, Offsets, Run, Delivered, Midway, Pick, Chosen;
    PickIsChosen(p, seqNo, room, order);
    var offs := Offsets(p, room, 0);
    StartsMidway(s, p, seqNo, room, offs);
    ArriveAll(s, p, seqNo, room, offs, NoneYet(|offs|), order);
  }

  lemma {:induction false} DistinctPrefix(order: seq<nat>, k: nat, n: nat)
    requires Distinct(order) && InRange(order, n) && k <= |order|
    ensures Distinct(order[..k]) && InRange(order[..k], n)
  {
  }

  /** Every permutation of a packet's fragments completes it exactly at the last one, with the same bytes,
      timestamp, codec and key flag. */
  lemma {:induction false} EveryOrder(s: State, p: MediaPacket, seqNo: u32, room: nat, order: seq<nat>)
    requires Frameable(p) && room > 0 && |p.data| <= |s.buf| && Elsewhere(s, seqNo)
    requires Distinct(order) && InRange(order, |Datagrams(p, seqNo, room, 0)|)
    requires |order| == |Datagrams(p, seqNo, room, 0)|
    ensures var ds := Datagrams(p, seqNo, room, 0);
            Delivered(s, Chosen(ds, order)) == [Delivery(seqNo, p.timestamp, Some(p.codec), p.key, p.data)]
    ensures forall k :: 0 <= k < |order| ==> InRange(order[..k], |order|)
    ensures forall k :: 0 <= k < |order| ==>
              Delivered(s, Chosen(Datagrams(p, seqNo, room, 0), order[..k])) == []
  {
    hide Datagrams, Run, Delivered, Chosen, InRange, Distinct;
    SomeOrder(s, p, seqNo, room, order);
    forall k | 0 <= k < |order|
      ensures InRange(order[..k], |order|)
      ensures Delivered(s, Chosen(Datagrams(p, seqNo, room, 0), order[..k])) == []
    {
      DistinctPrefix(order, k, |order|);
      SomeOrder(s, p, seqNo, room, order[..k]);
    }
  }

  /** A repeated fragment is counted twice: of a packet of two full fragments, the first one alone, sent twice,
      reads as the whole packet, its second half being whatever the buffer held. */
  lemma {:induction false} RepeatedFragment(s: State, p: MediaPacket, seqNo: u32, room: nat)
    requires Frameable(p) && room > 0 && |p.data| == 2 * room <= |s.buf| && Elsewhere(s, seqNo)
    ensures var d := Datagrams(p, seqNo, room, 0)[0];
            && Delivered(s, [d]) == []
            && Delivered(s, [d, d]) ==
               [Delivery(seqNo, p.timestamp, Some(p.codec), p.key, p.data[..room] + s.buf[room..2 * room])]
  {
    hide Push, Datagram;
    var d := Datagram(p, seqNo, room, 0);
    PushFragment(s, p, seqNo, room, 0);
    var s1 := Push(s, d).state;
    PushFragment(s1, p, seqNo, room, 0);
    var s2 := Push(s1, d).state;
    RunStep(s, d, []);
    RunStep(s1, d, []);
    RunStep(s2, d, []);
    RunStep(s, d, [d]);
    assert [d] + [] == [d] && [d] + [d] == [d, d];
    assert s2.buf[..2 * room] == p.data[..room] + s.buf[room..2 * room];
  }

  // ----- many packets

  function Next(seqNo: u32, n: nat): u32 {
    (seqNo + n) % 0x1_0000_0000
  }

  lemma {:induction false} NextNext(seqNo: u32, k: nat)
    ensures Next(Next(seqNo, 1), k) == Next(seqNo, k + 1) && Next(seqNo, 0) == seqNo
    ensures 0 < k < 0x1_0000_0000 ==> Next(seqNo, k) != seqNo
  {
  }

  /** For each packet, the fragments of it that arrive, each at most once and in any order among themselves. An
      in-order run with losses is the case where every order ascends. */
  predicate Arriving(packets: seq<MediaPacket>, seqNo: u32, room: nat, orders: seq<seq<nat>>)
    requires room > 0
    decreases |packets|
  {
    && |orders| == |packets|
    && (packets != [] ==>
          && Frameable(packets[0])
          && Distinct(orders[0]) && InRange(orders[0], |Datagrams(packets[0], seqNo, room, 0)|)
          && Arriving(packets[1..], Next(seqNo, 1), room, orders[1..]))
  }

  function Arrivals(packets: seq<MediaPacket>, seqNo: u32, room: nat, orders: seq<seq<nat>>): seq<bytes>
    requires room > 0 && Arriving(packets, seqNo, room, orders)
    decreases |packets|
  {
    if packets == [] then []
    else
      Chosen(Datagrams(packets[0], seqNo, room, 0), orders[0]) +
      Arrivals(packets[1..], Next(seqNo, 1), room, orders[1..])
  }

  /** The packets that fit the buffer and all of whose fragments arrive. */
  function Whole(packets: seq<MediaPacket>, seqNo: u32, room: nat, orders: seq<seq<nat>>, cap: nat): seq<Delivery>
    requires room > 0 && Arriving(packets, seqNo, room, orders)
    decreases |packets|
  {
    if packets == [] then []
    else
      (if |packets[0].data| <= cap && |orders[0]| == |Datagrams(packets[0], seqNo, room, 0)|
       then [DeliveryOf(packets[0], seqNo)] else []) +
      Whole(packets[1..], Next(seqNo, 1), room, orders[1..], cap)
  }

  /** How many packets fit the buffer and have some fragment arrive. */
  function Seen(packets: seq<MediaPacket>, orders: seq<seq<nat>>, cap: nat): nat
    requires |orders| == |packets|
    decreases |packets|
  {
    if packets == [] then 0
    else (if |packets[0].data| <= cap && orders[0] != [] then 1 else 0) + Seen(packets[1..], orders[1..], cap)
  }

  function InProgress(s: State): nat {
    if s.current.Some? then 1 else 0
  }

  /** None of the next `n` sequence numbers is the one in progress. */
  ghost predicate Ahead(s: State, seqNo: u32, n: nat) {
    forall k :: 0 <= k < n ==> Elsewhere(s, Next(seqNo, k))
  }

  lemma {:induction false} StillAhead(s: State, r: State, seqNo: u32, n: nat)
    requires 0 < n <= 0x1_0000_0000 && Ahead(s, seqNo, n)
    requires r.current == s.current || r.current == None || r.current.value.seqNo == seqNo
    ensures Ahead(r, Next(seqNo, 1), n - 1) && Elsewhere(s, seqNo)
  {
    hide Next;
    NextNext(seqNo, 0);
    assert Elsewhere(s, Next(seqNo, 0));
    forall k | 0 <= k < n - 1 ensures Elsewhere(r, Next(Next(seqNo, 1), k)) {
      NextNext(seqNo, k);
      NextNext(seqNo, k + 1);
      assert Elsewhere(s, Next(seqNo, k + 1));
    }
  }

  lemma {:induction false} RunConcat(s: State, a: seq<bytes>, b: seq<bytes>)
    ensures Run(s, a + b) == Run(Run(s, a), b)
    ensures Delivered(s, a + b) == Delivered(s, a) + Delivered(Run(s, a), b)
    decreases |a|
  {
    hide Push, Out;
    if a == [] {
      assert a + b == b;
    } else {
      assert (a + b)[1..] == a[1..] + b;
      RunConcat(Push(s, a[0]).state, a[1..], b);
      var x, y, z := Out(Push(s, a[0])), Delivered(Push(s, a[0]).state, a[1..]), Delivered(Run(s, a), b);
      assert x + (y + z) == (x + y) + z;
    }
  }

  /** A packet larger than the buffer leaves no trace. */
  lemma {:induction false} TooLarge(s: State, p: MediaPacket, seqNo: u32, room: nat, order: seq<nat>)
    requires Frameable(p) && room > 0 && |p.data| > |s.buf| && InRange(order, |Datagrams(p, seqNo, room, 0)|)
    ensures var ds := Datagrams(p, seqNo, room, 0);
            Run(s, Chosen(ds, order)) == s && Delivered(s, Chosen(ds, order)) == []
    decreases |order|
  {
    hide Push, Datagram, Cuts, Datagrams, Offsets, Run, Delivered;
    RunStep(s, [], []);
    if order != [] {
      OffsetsCut(p, seqNo, room, 0);
      PushTooLarge(s, p, seqNo, room, Offsets(p, room, 0)[order[0]]);
      var ds := Datagrams(p, seqNo, room, 0);
      RunStep(s, ds[order[0]], Chosen(ds, order[1..]));
      TooLarge(s, p, seqNo, room, order[1..]);
    }
  }

  /** Over a run of up to 2^32 packets, with any fragments lost and each packet's fragments in any order, exactly the
      packets fully received are delivered, in order, each with its own bytes; and every packet of which a
      fragment arrived is either complete, counted lost, or the one in progress. */
  lemma {:induction false} LossyRun(s: State, packets: seq<MediaPacket>, seqNo: u32, room: nat, orders: seq<seq<nat>>)
    requires room > 0 && Arriving(packets, seqNo, room, orders)
    requires |packets| <= 0x1_0000_0000 && Ahead(s, seqNo, |packets|)
    ensures var arrivals, whole := Arrivals(packets, seqNo, room, orders), Whole(packets, seqNo, room, orders, |s.buf|);
            var r := Run(s, arrivals);
            && Delivered(s, arrivals) == whole
            && r.complete == s.complete + |whole|
            && r.complete + r.lost + InProgress(r) ==
               s.complete + s.lost + InProgress(s) + Seen(packets, orders, |s.buf|)
    decreases |packets|
  {
    hide Push, Out, Datagrams, Run, Delivered, Chosen, Ahead, Elsewhere, Next, Distinct, InRange;
    RunStep(s, [], []);
    if packets != [] {
      var p, order := packets[0], orders[0];
      var now := Chosen(Datagrams(p, seqNo, room, 0), order);
      AheadNow(s, seqNo, |packets|);
      if |p.data| <= |s.buf| {
        SomeOrder(s, p, seqNo, room, order);
      } else {
        TooLarge(s, p, seqNo, room, order);
      }
      var r := Run(s, now);
      StillAhead(s, r, seqNo, |packets|);
      RunConcat(s, now, Arrivals(packets[1..], Next(seqNo, 1), room, orders[1..]));
      LossyRun(r, packets[1..], Next(seqNo, 1), room, orders[1..]);
    }
  }

  lemma {:induction false} AheadNow(s: State, seqNo: u32, n: nat)
    requires n > 0 && Ahead(s, seqNo, n)
    ensures Elsewhere(s, seqNo)
  {
    NextNext(seqNo, 0);
    assert Elsewhere(s, Next(seqNo, 0));
  }

  /** From a fresh reassembler: complete, lost and in progress account for every packet seen. */
  lemma {:induction false} FreshRun(buf: bytes, packets: seq<MediaPacket>, seqNo: u32, room: nat, orders: seq<seq<nat>>)
    requires room > 0 && Arriving(packets, seqNo, room, orders) && |packets| <= 0x1_0000_0000
    ensures var r := Run(Init(buf), Arrivals(packets, seqNo, room, orders));
            && Delivered(Init(buf), Arrivals(packets, seqNo, room, orders)) == Whole(packets, seqNo, room, orders, |buf|)
            && r.complete + r.lost + InProgress(r) == Seen(packets, orders, |buf|)
  {
    hide Run, Delivered, Arrivals, Whole, Arriving;
    LossyRun(Init(buf), packets, seqNo, room, orders);
  }
}
