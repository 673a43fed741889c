/** The reassembler over the fragments of one packet in any order and with any repeats: when it completes, and
    exactly when what it completes is the packet. */
module UdpRepeats {
  import opened Bytes
  import opened Media
  import opened Udp
  import opened UdpOrder
  import opened UdpRun

  function FragmentLen(p: MediaPacket, room: nat, offs: seq<nat>, k: nat): nat
    requires k < |offs| && offs[k] <= |p.data|
  {
    EndOf(p, room, offs[k]) - offs[k]
  }

  predicate Within(p: MediaPacket, offs: seq<nat>) {
    forall k :: 0 <= k < |offs| ==> offs[k] <= |p.data|
  }

  /** Payload bytes of the fragments `order` lists, repeats counted again. */
  function Counted(p: MediaPacket, room: nat, offs: seq<nat>, order: seq<nat>): nat
    requires Within(p, offs) && InRange(order, |offs|)
  {
    if order == [] then 0
    else Counted(p, room, offs, order[..|order| - 1]) + FragmentLen(p, room, offs, order[|order| - 1])
  }

  /** Fragment `k`'s place in a buffer. */
  function Slice(p: MediaPacket, room: nat, offs: seq<nat>, buf: bytes, k: nat): bytes
    requires k < |offs| && offs[k] <= |p.data| <= |buf|
  {
    buf[offs[k]..EndOf(p, room, offs[k])]
  }

  /** The buffer after the arrivals of `order`: each fragment's place holds the packet's bytes if it arrived, and
      what was there before if it did not. */
  ghost predicate Overlaid(p: MediaPacket, room: nat, offs: seq<nat>, was: bytes, now: bytes, order: seq<nat>) {
    && Cuts(p, room, offs) && |now| == |was| >= |p.data|
    && forall k :: 0 <= k < |offs| ==>
         Slice(p, room, offs, now, k) == if k in order then Slice(p, room, offs, p.data, k) else Slice(p, room, offs, was, k)
  }

  lemma {:induction false} NothingOverlaid(p: MediaPacket, room: nat, offs: seq<nat>, was: bytes)
    requires Cuts(p, room, offs) && |was| >= |p.data|
    ensures Overlaid(p, room, offs, was, was, [])
  {
    hide EndOf;
  }

  /** One more arrival writes its own place and no other. */
  lemma {:induction false} OverlayOne(p: MediaPacket, room: nat, offs: seq<nat>, was: bytes, now: bytes, order: seq<nat>,
                                      k: nat)
    requires Overlaid(p, room, offs, was, now, order) && k < |offs|
    ensures var to := EndOf(p, room, offs[k]);
            Overlaid(p, room, offs, was, now[..offs[k]] + p.data[offs[k]..to] + now[to..], order + [k])
  {
    hide EndOf, Cuts;
    var to := EndOf(p, room, offs[k]);
    var next := now[..offs[k]] + p.data[offs[k]..to] + now[to..];
    assert |next| == |now|;
    forall j | 0 <= j < |offs|
      ensures Slice(p, room, offs, next, j) ==
              if j in order + [k] then Slice(p, room, offs, p.data, j) else Slice(p, room, offs, was, j)
    {
      SliceOutside(p, room, offs, now, k, j);
    }
  }

  lemma {:induction false} SliceOutside(p: MediaPacket, room: nat, offs: seq<nat>, buf: bytes, k: nat, j: nat)
    requires Cuts(p, room, offs) && k < |offs| && j < |offs| && |p.data| <= |buf|
    ensures var to := EndOf(p, room, offs[k]);
            var next := buf[..offs[k]] + p.data[offs[k]..to] + buf[to..];
            && |next| == |buf|
            && Slice(p, room, offs, next, j) ==
               if j == k then Slice(p, room, offs, p.data, k) else Slice(p, room, offs, buf, j)
  {
    hide EndOf, Cuts;
    var to := EndOf(p, room, offs[k]);
    if j < k {
      Ascending(p, room, offs, j, k);
    } else if k < j {
      Ascending(p, room, offs, k, j);
    }
    OutsideWrite(buf, offs[k], p.data[offs[k]..to], offs[j], EndOf(p, room, offs[j]));
  }

  /** A buffer starts with the packet exactly when each fragment's place holds its bytes. */
  lemma {:induction false} WholeBySlices(p: MediaPacket, room: nat, offs: seq<nat>, buf: bytes)
    requires Cuts(p, room, offs) && offs[0] == 0 && |p.data| <= |buf|
    ensures buf[..|p.data|] == p.data <==>
            forall k :: 0 <= k < |offs| ==> Slice(p, room, offs, buf, k) == Slice(p, room, offs, p.data, k)
  {
    hide EndOf, Cuts;
    if buf[..|p.data|] == p.data {
      forall k | 0 <= k < |offs| ensures Slice(p, room, offs, buf, k) == Slice(p, room, offs, p.data, k) {
        assert buf[..|p.data|][offs[k]..EndOf(p, room, offs[k])] == Slice(p, room, offs, buf, k);
      }
    }
    if forall k :: 0 <= k < |offs| ==> Slice(p, room, offs, buf, k) == Slice(p, room, offs, p.data, k) {
      forall k | 0 <= k < |offs|
        ensures buf[offs[k]..EndOf(p, room, offs[k])] == p.data[offs[k]..EndOf(p, room, offs[k])]
      {
        assert Slice(p, room, offs, buf, k) == Slice(p, room, offs, p.data, k);
      }
      AllInPlace(p, room, offs, buf);
    }
  }

  lemma {:induction false} CountedMore(p: MediaPacket, room: nat, offs: seq<nat>, order: seq<nat>, k: nat)
    requires Within(p, offs) && InRange(order, |offs|) && k < |offs|
    ensures Counted(p, room, offs, order + [k]) == Counted(p, room, offs, order) + EndOf(p, room, offs[k]) - offs[k]
  {
    assert (order + [k])[..|order|] == order;
  }

  lemma {:induction false} OverlaidIs(p: MediaPacket, room: nat, offs: seq<nat>, was: bytes, now: bytes, order: seq<nat>)
    requires Overlaid(p, room, offs, was, now, order)
    ensures |now| == |was| >= |p.data| && Cuts(p, room, offs)
  {
    hide Cuts;
  }

  lemma {:induction false} SlicesHold(p: MediaPacket, room: nat, offs: seq<nat>, was: bytes, now: bytes, order: seq<nat>)
    requires Overlaid(p, room, offs, was, now, order)
    ensures (forall k :: 0 <= k < |offs| ==> Slice(p, room, offs, now, k) == Slice(p, room, offs, p.data, k)) <==>
            forall k :: 0 <= k < |offs| ==>
              k in order || was[offs[k]..EndOf(p, room, offs[k])] == p.data[offs[k]..EndOf(p, room, offs[k])]
  {
    hide EndOf, Cuts;
    if forall k :: 0 <= k < |offs| ==> Slice(p, room, offs, now, k) == Slice(p, room, offs, p.data, k) {
      forall k | 0 <= k < |offs|
        ensures k in order || was[offs[k]..EndOf(p, room, offs[k])] == p.data[offs[k]..EndOf(p, room, offs[k])]
      {
        assert Slice(p, room, offs, now, k) == Slice(p, room, offs, p.data, k);
        assert k !in order ==> Slice(p, room, offs, was, k) == Slice(p, room, offs, p.data, k);
      }
    }
    if forall k :: 0 <= k < |offs| ==>
         k in order || was[offs[k]..EndOf(p, room, offs[k])] == p.data[offs[k]..EndOf(p, room, offs[k])] {
      forall k | 0 <= k < |offs| ensures Slice(p, room, offs, now, k) == Slice(p, room, offs, p.data, k) {
        assert k !in order ==> Slice(p, room, offs, was, k) == Slice(p, room, offs, p.data, k);
      }
    }
  }

  // ----- all the arrivals, to the last

  /** After how many arrivals of `order` the count fills, from the one at `i` on and `count` bytes: it starts anew each
      time. */
  function Fills(p: MediaPacket, room: nat, offs: seq<nat>, order: seq<nat>, i: nat, count: nat): (ends: seq<nat>)
    requires Within(p, offs) && InRange(order, |offs|) && i <= |order|
    ensures forall j :: 0 <= j < |ends| ==> i < ends[j] <= |order|
    decreases |order| - i
  {
    if i == |order| then []
    else
      var more := count + FragmentLen(p, room, offs, order[i]);
      if more >= |p.data| then [i + 1] + Fills(p, room, offs, order, i + 1, 0) else Fills(p, room, offs, order, i + 1, more)
  }

  /** Each fragment is among the first `n` arrivals or finds its bytes in the buffer already. */
  ghost predicate AllThere(p: MediaPacket, room: nat, offs: seq<nat>, was: bytes, order: seq<nat>, n: nat)
    requires Within(p, offs) && |p.data| <= |was| && n <= |order|
  {
    forall k :: 0 <= k < |offs| ==>
      k in order[..n] || was[offs[k]..EndOf(p, room, offs[k])] == p.data[offs[k]..EndOf(p, room, offs[k])]
  }

  /** Between two arrivals: `count` bytes counted, or packet `seqNo` not begun. */
  ghost predicate Stands(r: State, seqNo: u32, count: nat, open: bool) {
    if open then r.current.Some? && r.current.value.seqNo == seqNo && r.received == count
    else count == 0 && Elsewhere(r, seqNo)
  }

  lemma {:induction false} StandsOn(r: State, p: MediaPacket, seqNo: u32, room: nat, off: nat, count: nat, open: bool)
    requires Frameable(p) && off <= |p.data| <= |r.buf| && Stands(r, seqNo, count, open)
    ensures var step, to := Push(r, Datagram(p, seqNo, room, off)), EndOf(p, room, off);
            var full := count + (to - off) >= |p.data|;
            && step.state.buf == r.buf[..off] + p.data[off..to] + r.buf[to..]
            && step.state.lost == r.lost + (if open then 0 else InProgress(r))
            && step.state.complete == r.complete + (if full then 1 else 0)
            && Stands(step.state, seqNo, if full then 0 else count + (to - off), !full)
            && (full ==> step.state.current == None)
            && Out(step) == if full then [Delivery(seqNo, p.timestamp, Some(p.codec), p.key, step.state.buf[..|p.data|])] else []
  {
    hide Push, Datagram, EndOf;
    PushFragment(r, p, seqNo, room, off);
  }

  lemma {:induction false} FillsStep(p: MediaPacket, room: nat, offs: seq<nat>, order: seq<nat>, i: nat, count: nat)
    requires Within(p, offs) && InRange(order, |offs|) && i < |order|
    ensures var more := count + (EndOf(p, room, offs[order[i]]) - offs[order[i]]);
            Fills(p, room, offs, order, i, count) ==
            if more >= |p.data| then [i + 1] + Fills(p, room, offs, order, i + 1, 0)
            else Fills(p, room, offs, order, i + 1, more)
  {
    hide EndOf;
  }

  /** What is delivered at these counts is the packet exactly when it is all there. */
  ghost predicate DeliversAt(p: MediaPacket, seqNo: u32, room: nat, offs: seq<nat>, was: bytes, order: seq<nat>,
                             got: seq<Delivery>, ends: seq<nat>)
    requires Within(p, offs) && |p.data| <= |was|
    requires forall j :: 0 <= j < |ends| ==> ends[j] <= |order|
  {
    && |got| == |ends|
    && forall j :: 0 <= j < |got| ==>
         && got[j].(data := p.data) == DeliveryOf(p, seqNo)
         && (got[j] == DeliveryOf(p, seqNo) <==> AllThere(p, room, offs, was, order, ends[j]))
  }

  lemma {:induction false} DeliversFirst(p: MediaPacket, seqNo: u32, room: nat, offs: seq<nat>, was: bytes,
                                         order: seq<nat>, now: bytes, n: nat, got: seq<Delivery>, ends: seq<nat>)
    requires Cuts(p, room, offs) && offs[0] == 0 && n <= |order| && |p.data| <= |was|
    requires Overlaid(p, room, offs, was, now, order[..n])
    requires forall j :: 0 <= j < |ends| ==> ends[j] <= |order|
    requires DeliversAt(p, seqNo, room, offs, was, order, got, ends)
    ensures var d := Delivery(seqNo, p.timestamp, Some(p.codec), p.key, now[..|p.data|]);
            DeliversAt(p, seqNo, room, offs, was, order, [d] + got, [n] + ends)
  {
    hide EndOf, Cuts, AllThere, Overlaid, Slice;
    CutsWithin(p, room, offs);
    OverlaidIs(p, room, offs, was, now, order[..n]);
    WholeBySlices(p, room, offs, now);
    SlicesHold(p, room, offs, was, now, order[..n]);
    AllThereIs(p, room, offs, was, order, n);
    var d := Delivery(seqNo, p.timestamp, Some(p.codec), p.key, now[..|p.data|]);
    forall j | 0 <= j < |[d] + got|
      ensures ([d] + got)[j].(data := p.data) == DeliveryOf(p, seqNo)
      ensures ([d] + got)[j] == DeliveryOf(p, seqNo) <==> AllThere(p, room, offs, was, order, ([n] + ends)[j])
    {
      if j > 0 {
        assert ([d] + got)[j] == got[j - 1] && ([n] + ends)[j] == ends[j - 1];
      }
    }
  }

  lemma {:induction false} AllThereIs(p: MediaPacket, room: nat, offs: seq<nat>, was: bytes, order: seq<nat>, n: nat)
    requires Within(p, offs) && |p.data| <= |was| && n <= |order|
    ensures AllThere(p, room, offs, was, order, n) <==>
            forall k :: 0 <= k < |offs| ==>
              k in order[..n] || was[offs[k]..EndOf(p, room, offs[k])] == p.data[offs[k]..EndOf(p, room, offs[k])]
  {
  }

  lemma {:induction false} CutsWithin(p: MediaPacket, room: nat, offs: seq<nat>)
    requires Cuts(p, room, offs)
    ensures Within(p, offs)
  {
    hide EndOf;
  }

  /** The arrivals from the one at `i` on. */
  lemma {:induction false} Repeats(was: bytes, r: State, p: MediaPacket, seqNo: u32, room: nat, offs: seq<nat>,
                                   ds: seq<bytes>, order: seq<nat>, i: nat, count: nat, open: bool)
    requires Cuts(p, room, offs) && offs[0] == 0 && Frameable(p) && |p.data| <= |was|
    requires |ds| == |offs| && forall k :: 0 <= k < |offs| ==> ds[k] == Datagram(p, seqNo, room, offs[k])
    requires InRange(order, |offs|) && i <= |order| && Stands(r, seqNo, count, open)
    requires Overlaid(p, room, offs, was, r.buf, order[..i])
    ensures var rest, ends := Chosen(ds, order[i..]), Fills(p, room, offs, order, i, count);
            var e := Run(r, rest);
            && DeliversAt(p, seqNo, room, offs, was, order, Delivered(r, rest), ends)
            && e.complete == r.complete + |ends|
            && e.lost == r.lost + (if i < |order| && !open then InProgress(r) else 0)
            && (i == |order| ==> e == r)
            && (i < |order| ==>
                  if ends != [] && ends[|ends| - 1] == |order| then e.current == None
                  else e.current.Some? && e.current.value.seqNo == seqNo)
    decreases |order| - i
  {
    hide Push, Out, Datagram, Cuts, Run, Delivered, Overlaid, Elsewhere, FragmentLen, Fills, DeliversAt, EndOf;
    CutsWithin(p, room, offs);
    RunStep(r, [], []);
    if i == |order| {
      NoFills(p, seqNo, room, offs, was, order, count);
    } else {
      var k := order[i];
      var off, to := offs[k], EndOf(p, room, offs[k]);
      OverlaidIs(p, room, offs, was, r.buf, order[..i]);
      StandsOn(r, p, seqNo, room, off, count, open);
      OverlayOne(p, room, offs, was, r.buf, order[..i], k);
      assert order[..i] + [k] == order[..i + 1];
      FillsStep(p, room, offs, order, i, count);
      assert order[i..][1..] == order[i + 1..];
      var step := Push(r, ds[k]);
      RunStep(r, ds[k], Chosen(ds, order[i + 1..]));
      var full := count + (to - off) >= |p.data|;
      Repeats(was, step.state, p, seqNo, room, offs, ds, order, i + 1, if full then 0 else count + (to - off), !full);
      if full {
        DeliversFirst(p, seqNo, room, offs, was, order, step.state.buf, i + 1,
                      Delivered(step.state, Chosen(ds, order[i + 1..])), Fills(p, room, offs, order, i + 1, 0));
      } else {
        assert [] + Delivered(step.state, Chosen(ds, order[i + 1..])) == Delivered(step.state, Chosen(ds, order[i + 1..]));
      }
    }
  }

  lemma {:induction false} NoFills(p: MediaPacket, seqNo: u32, room: nat, offs: seq<nat>, was: bytes, order: seq<nat>,
                                   count: nat)
    requires Within(p, offs) && |p.data| <= |was| && InRange(order, |offs|)
    ensures Fills(p, room, offs, order, |order|, count) == []
    ensures DeliversAt(p, seqNo, room, offs, was, order, [], [])
  {
  }

  /** For every list of arrivals of one packet's fragments, to the last: a packet is delivered each time the count fills,
      under the packet's own header, and is the packet if and only if each fragment has arrived by then or found its
      bytes in the buffer; `complete` counts them all, `lost` only what was in progress before; and behind the last of
      them the packet is in progress again, to be counted lost by the next one. */
  lemma {:induction false} EveryRepeat(s: State, p: MediaPacket, seqNo: u32, room: nat, order: seq<nat>)
    requires Frameable(p) && room > 0 && |p.data| <= |s.buf| && Elsewhere(s, seqNo)
    requires InRange(order, |Offsets(p, room, 0)|)
    ensures |Datagrams(p, seqNo, room, 0)| == |Offsets(p, room, 0)|
    ensures var offs := Offsets(p, room, 0);
            var ends, arrivals := Fills(p, room, offs, order, 0, 0), Chosen(Datagrams(p, seqNo, room, 0), order);
            var e := Run(s, arrivals);
            && DeliversAt(p, seqNo, room, offs, s.buf, order, Delivered(s, arrivals), ends)
            && e.complete == s.complete + |ends|
            && e.lost == s.lost + (if order == [] then 0 else InProgress(s))
            && (order == [] ==> e == s)
            && (order != [] ==>
                  if ends != [] && ends[|ends| - 1] == |order| then e.current == None
                  else e.current.Some? && e.current.value.seqNo == seqNo)
  {
    hide Datagrams, Datagram, Cuts, Offsets, Run, Delivered, Chosen, Fills, Elsewhere, InRange, DeliversAt, Overlaid;
    var offs, ds := Offsets(p, room, 0), Datagrams(p, seqNo, room, 0);
    OffsetsCut(p, seqNo, room, 0);
    NothingOverlaid(p, room, offs, s.buf);
    assert order[..0] == [] && order[0..] == order;
    Repeats(s.buf, s, p, seqNo, room, offs, ds, order, 0, 0, false);
  }

  // ----- the first time the count fills

  lemma {:induction false} FillsOnce(p: MediaPacket, room: nat, offs: seq<nat>, order: seq<nat>, i: nat, count: nat)
    requires Within(p, offs) && InRange(order, |offs|) && i <= |order| && count == Counted(p, room, offs, order[..i])
    requires forall k :: i < k < |order| ==> Counted(p, room, offs, order[..k]) < |p.data|
    ensures Fills(p, room, offs, order, i, count) ==
            if i < |order| && Counted(p, room, offs, order) >= |p.data| then [|order|] else []
    decreases |order| - i
  {
    hide Counted, EndOf;
    assert order[..|order|] == order;
    if i < |order| {
      FillsStep(p, room, offs, order, i, count);
      CountedMore(p, room, offs, order[..i], order[i]);
      assert order[..i] + [order[i]] == order[..i + 1];
      if i + 1 < |order| {
        FillsOnce(p, room, offs, order, i + 1, Counted(p, room, offs, order[..i + 1]));
      } else {
        NothingFills(p, room, offs, order);
      }
    }
  }

  lemma {:induction false} NothingFills(p: MediaPacket, room: nat, offs: seq<nat>, order: seq<nat>)
    requires Within(p, offs) && InRange(order, |offs|)
    ensures forall count :: Fills(p, room, offs, order, |order|, count) == []
    ensures Counted(p, room, offs, []) == 0
  {
  }

  lemma {:induction false} PrefixFills(p: MediaPacket, room: nat, offs: seq<nat>, order: seq<nat>, m: nat)
    requires Within(p, offs) && InRange(order, |offs|) && m <= |order|
    requires forall k :: 0 < k < m ==> Counted(p, room, offs, order[..k]) < |p.data|
    ensures InRange(order[..m], |offs|)
    ensures Fills(p, room, offs, order[..m], 0, 0) ==
            if 0 < m && Counted(p, room, offs, order[..m]) >= |p.data| then [m] else []
  {
    hide Counted, Fills;
    NothingFills(p, room, offs, []);
    assert order[..m][..0] == [];
    forall k | 0 < k < m ensures Counted(p, room, offs, order[..m][..k]) < |p.data| {
      assert order[..m][..k] == order[..k];
    }
    FillsOnce(p, room, offs, order[..m], 0, 0);
  }

  /** For every list of arrivals, repeats and all: nothing is delivered before the first arrival `m` that brings the
      count to the packet's length; what is delivered then is the packet if and only if each of its fragments has
      arrived by then or finds its bytes in the buffer already. */
  lemma {:induction false} RepeatsExactly(s: State, p: MediaPacket, seqNo: u32, room: nat, order: seq<nat>, m: nat)
    requires Frameable(p) && room > 0 && |p.data| <= |s.buf| && Elsewhere(s, seqNo)
    requires InRange(order, |Offsets(p, room, 0)|) && 0 < m <= |order|
    requires Counted(p, room, Offsets(p, room, 0), order[..m]) >= |p.data|
    requires forall k :: 0 < k < m ==> Counted(p, room, Offsets(p, room, 0), order[..k]) < |p.data|
    ensures |Datagrams(p, seqNo, room, 0)| == |Offsets(p, room, 0)|
    ensures forall k :: 0 <= k < m ==> Delivered(s, Chosen(Datagrams(p, seqNo, room, 0), order[..k])) == []
    ensures var offs := Offsets(p, room, 0);
            var got := Delivered(s, Chosen(Datagrams(p, seqNo, room, 0), order[..m]));
            && |got| == 1 && got[0].(data := p.data) == DeliveryOf(p, seqNo)
            && (got[0] == DeliveryOf(p, seqNo) <==>
                forall k :: 0 <= k < |offs| ==>
                  k in order[..m] ||
                  s.buf[offs[k]..EndOf(p, room, offs[k])] == p.data[offs[k]..EndOf(p, room, offs[k])])
  {
    hide Datagrams, Datagram, Cuts, Offsets, Run, Delivered, Chosen, EndOf, Counted, Elsewhere, Fills;
    var offs := Offsets(p, room, 0);
    OffsetsCut(p, seqNo, room, 0);
    forall k | 0 <= k < m
      ensures InRange(order[..k], |offs|)
      ensures Delivered(s, Chosen(Datagrams(p, seqNo, room, 0), order[..k])) == []
    {
      PrefixFills(p, room, offs, order, k);
      EveryRepeat(s, p, seqNo, room, order[..k]);
    }
    PrefixFills(p, room, offs, order, m);
    EveryRepeat(s, p, seqNo, room, order[..m]);
    assert order[..m][..m] == order[..m];
  }
}
