/** The RTP/JPEG receiver on arbitrary packets: whatever arrives, a delivered frame is one chain of fragments. */
module JpegAnyPackets {
  import opened Bytes
  import opened JpegReceiver
  import H = RtpHeader
  import P = JpegHeaders
  import JpegFile
  import QuantTables

  /** A fragment as its own packet describes it. */
  datatype Piece = Piece(off: nat, ts: u32, data: bytes)

  /** The scan bytes of a first fragment: what follows its table header, if it has one. */
  function FirstData(m: Main): Option<bytes> {
    if m.q < 128 then Some(m.rest)
    else if |m.rest| < 4 then None
    else
      var len := FromBe16(m.rest[2], m.rest[3]);
      if |m.rest| < 4 + len then None else Some(m.rest[4..][len..])
  }

  /** The fragment a packet carries, read from the packet alone. */
  function PieceOf(packet: bytes): Option<Piece> {
    match H.Parse(packet)
    case Err(_) => None
    case Ok((h, payload)) =>
      if h.payloadType != H.PT_JPEG then None
      else
        match ReadMain(payload)
        case Err(_) => None
        case Ok(m) =>
          if m.off != 0 then Some(Piece(m.off, h.timestamp, m.rest))
          else
            match FirstData(m)
            case None => None
            case Some(d) => Some(Piece(0, h.timestamp, d))
  }

  /** Packets `idx`, in order of arrival, are fragments of one timestamp whose offsets follow on from 0
      and whose scan bytes make up `scan`. */
  ghost predicate Chain(packets: seq<bytes>, idx: seq<nat>, ts: u32, scan: bytes)
    decreases |idx|
  {
    && idx != []
    && idx[|idx| - 1] < |packets|
    && PieceOf(packets[idx[|idx| - 1]]).Some?
    && var last := PieceOf(packets[idx[|idx| - 1]]).value;
       && last.ts == ts
       && if |idx| == 1 then last.off == 0 && last.data == scan
          else
            && 0 < last.off <= |scan| && scan[last.off..] == last.data
            && idx[|idx| - 2] < idx[|idx| - 1]
            && Chain(packets, idx[..|idx| - 1], ts, scan[..last.off])
  }

  /** A chain stays one when more packets arrive. */
  lemma {:induction false} ChainGrows(packets: seq<bytes>, p: bytes, idx: seq<nat>, ts: u32, scan: bytes)
    requires Chain(packets, idx, ts, scan)
    ensures Chain(packets + [p], idx, ts, scan)
    decreases |idx|
  {
    hide PieceOf;
    if |idx| > 1 {
      ChainGrows(packets, p, idx[..|idx| - 1], ts, scan[..PieceOf(packets[idx[|idx| - 1]]).value.off]);
    }
  }

  /** The main header of a packet at offset 0. */
  function Opening(packet: bytes): Option<Main> {
    match H.Parse(packet)
    case Err(_) => None
    case Ok((h, payload)) =>
      if h.payloadType == H.PT_JPEG && ReadMain(payload).Ok? && ReadMain(payload).value.off == 0
      then Some(ReadMain(payload).value) else None
  }

  /** The quantization tables a first fragment puts in force: Q from 1 to 99 stands for the scaled Annex K pair (99 from
      there to 127), Q from 128 on for the one or two tables that follow, or for those in force if none follow. None
      when it is refused. */
  function TablesGiven(m: Main, before: seq<bytes>): Option<seq<bytes>> {
    if m.q == 0 then None
    else if m.q < 128 then Some([QuantTables.Scaled(QuantTables.LUMA, m.q), QuantTables.Scaled(QuantTables.CHROMA, m.q)])
    else if |m.rest| < 4 then None
    else
      var len, t := m.rest[2] as int * 256 + m.rest[3], m.rest[4..];
      if len == 0 then if before == [] then None else Some(before)
      else if m.rest[1] != 0 || |t| < len then None
      else if len == 64 then Some([t[..64]])
      else if len == 128 then Some([t[..64], t[64..128]])
      else None
  }

  /** The tables in force after these packets: those of the last first fragment that gave any. */
  function InForce(packets: seq<bytes>): seq<bytes> {
    if packets == [] then []
    else
      var before, m := InForce(packets[..|packets| - 1]), Opening(packets[|packets| - 1]);
      if m == None then before
      else
        var t := TablesGiven(m.value, before);
        if t == None then before else t.value
  }

  /** Size, type, restart interval and tables as the packet that opened the frame gives them. */
  ghost predicate OpenedAs(packets: seq<bytes>, at: nat, width: u16, height: u16, kind: byte, restart: Option<u16>,
                           qtables: seq<bytes>)
  {
    && at < |packets| && Opening(packets[at]).Some?
    && var m := Opening(packets[at]).value;
       && width == m.width && height == m.height && kind == m.kind % 64 && restart == m.restart
       && qtables == InForce(packets[..at + 1])
  }

  /** A chain under the headers of its first packet. */
  ghost predicate Linked(packets: seq<bytes>, idx: seq<nat>, ts: u32, scan: bytes, width: u16, height: u16, kind: byte,
                         restart: Option<u16>, qtables: seq<bytes>)
  {
    idx != [] && Chain(packets, idx, ts, scan) && OpenedAs(packets, idx[0], width, height, kind, restart, qtables)
  }

  /** The tables are those in force, and the frame in progress, when it holds anything, is a chain of packets received
      under the headers of the first of them. */
  ghost predicate Tracked(s: State, packets: seq<bytes>) {
    && s.qcount <= |s.qtables| && s.qtables[..s.qcount] == InForce(packets)
    && (s.inFrame && s.scan != [] ==>
          exists idx :: Linked(packets, idx, s.timestamp, s.scan, s.width, s.height, s.kind, s.restart,
                               s.qtables[..s.qcount]))
  }

  /** What a completed frame is: a file the parser accepts, of the reported size, whose scan is a chain of packets ending
      with the last one; size, type, restart interval and tables are those of the first packet of the chain. */
  ghost predicate Genuine(d: Delivery, packets: seq<bytes>) {
    && JpegFile.Parse(d.jpeg).Ok?
    && var info := JpegFile.Parse(d.jpeg).value;
       && info.width == d.width && info.height == d.height && info.qcount <= |info.qtables|
       && exists idx ::
            && Linked(packets, idx, d.timestamp, info.scan, info.width, info.height, info.kind % 64, info.restart,
                      info.qtables[..info.qcount])
            && idx[|idx| - 1] == |packets| - 1
  }

  lemma {:induction false} FirstDataIs(m: Main, qtables: seq<bytes>, qcount: nat)
    requires |qtables| == 2 && |qtables[0]| == 64 && |qtables[1]| == 64 && qcount <= 2
    ensures var q := ReadQuant(m, qtables, qcount);
            q.Ok? ==> FirstData(m) == Some(q.value.data)
  {
  }

  lemma {:induction false} TablesGivenIs(m: Main, qtables: seq<bytes>, qcount: nat)
    requires |qtables| == 2 && |qtables[0]| == 64 && |qtables[1]| == 64 && qcount <= 2
    ensures var q, t := ReadQuant(m, qtables, qcount), TablesGiven(m, qtables[..qcount]);
            if q.Ok? then t == Some(q.value.qtables[..q.value.qcount]) else t == None
  {
    hide QuantTables.Scaled;
    var q := ReadQuant(m, qtables, qcount);
    if q.Ok? {
      var v := q.value;
      if v.qcount == 1 {
        assert v.qtables[..1] == [v.qtables[0]];
      } else {
        assert v.qtables[..2] == [v.qtables[0], v.qtables[1]];
      }
    }
  }

  lemma {:induction false} InForceStep(packets: seq<bytes>, p: bytes)
    ensures InForce(packets + [p]) ==
            if Opening(p) == None then InForce(packets)
            else
              var t := TablesGiven(Opening(p).value, InForce(packets));
              if t == None then InForce(packets) else t.value
  {
    hide Opening, TablesGiven;
    assert (packets + [p])[..|packets|] == packets;
  }

  lemma {:induction false} OpenedStays(packets: seq<bytes>, p: bytes, at: nat, width: u16, height: u16, kind: byte,
                                       restart: Option<u16>, qtables: seq<bytes>)
    requires OpenedAs(packets, at, width, height, kind, restart, qtables)
    ensures OpenedAs(packets + [p], at, width, height, kind, restart, qtables)
  {
    hide Opening, InForce;
    assert (packets + [p])[..at + 1] == packets[..at + 1];
  }

  /** Appending `data` as packet `p` completes or extends the chain. */
  lemma {:induction false} AppendChain(s: State, marker: bool, data: bytes, packets: seq<bytes>, idx: seq<nat>)
    requires Valid(s) && HasHeader(s) && s.inFrame && packets != [] && idx != [] && idx[|idx| - 1] == |packets| - 1
    requires Linked(packets, idx, s.timestamp, s.scan + data, s.width, s.height, s.kind, s.restart, s.qtables[..s.qcount])
    requires s.qtables[..s.qcount] == InForce(packets)
    ensures var r := Append(s, marker, data);
            && Tracked(r.state, packets)
            && (forall d :: d in Out(r) ==> Genuine(d, packets))
  {
    hide Linked, P.File, P.Printable, InForce, Genuine, HasHeader;
    if marker && RESERVE + |s.scan| + |data| + 2 <= s.cap {
      FileGenuine(s, s.scan + data, packets, idx);
    }
  }

  lemma {:induction false} FileGenuine(s: State, scan: bytes, packets: seq<bytes>, idx: seq<nat>)
    requires HasHeader(s) && idx != [] && idx[|idx| - 1] == |packets| - 1
    requires Linked(packets, idx, s.timestamp, scan, s.width, s.height, s.kind, s.restart, s.qtables[..s.qcount])
    ensures |s.qtables[..s.qcount]| <= 2 && forall k :: 0 <= k < s.qcount ==> |s.qtables[..s.qcount][k]| == 64
    ensures var j := P.File(s.width, s.height, s.kind, s.restart, s.qtables[..s.qcount], scan);
            Genuine(Delivery(j, s.timestamp, s.width, s.height), packets)
  {
    hide Linked, P.File, P.Printable, JpegFile.Parse, HasHeader, Genuine;
    HeaderIs(s);
    var qtables := s.qtables[..s.qcount];
    P.ParseFile(s.width, s.height, s.kind, s.restart, qtables, scan);
    var both := [qtables[0], if |qtables| == 2 then qtables[1] else []];
    assert both[..|qtables|] == qtables;
    var j := P.File(s.width, s.height, s.kind, s.restart, qtables, scan);
    GenuineBy(Delivery(j, s.timestamp, s.width, s.height), packets, idx, JpegFile.Parse(j).value);
  }

  lemma {:induction false} GenuineBy(d: Delivery, packets: seq<bytes>, idx: seq<nat>, info: JpegFile.JpegScan)
    requires JpegFile.Parse(d.jpeg) == Ok(info) && info.width == d.width && info.height == d.height
    requires info.qcount <= |info.qtables| && idx != [] && idx[|idx| - 1] == |packets| - 1
    requires Linked(packets, idx, d.timestamp, info.scan, info.width, info.height, info.kind % 64, info.restart,
                    info.qtables[..info.qcount])
    ensures Genuine(d, packets)
  {
    hide Linked, JpegFile.Parse;
  }

  lemma {:induction false} HeaderIs(s: State)
    requires HasHeader(s)
    ensures P.Printable(s.width, s.height, s.kind, s.qtables[..s.qcount]) && 1 <= |s.qtables[..s.qcount]| <= 2
    ensures s.qcount <= |s.qtables| && s.kind <= 1 && forall k :: 0 <= k < s.qcount ==> |s.qtables[..s.qcount][k]| == 64
  {
  }

  lemma {:induction false} LinkedStays(packets: seq<bytes>, p: bytes, idx: seq<nat>, s: State)
    requires s.qcount <= |s.qtables|
    requires Linked(packets, idx, s.timestamp, s.scan, s.width, s.height, s.kind, s.restart, s.qtables[..s.qcount])
    ensures Linked(packets + [p], idx, s.timestamp, s.scan, s.width, s.height, s.kind, s.restart, s.qtables[..s.qcount])
  {
    hide Chain, OpenedAs;
    ChainGrows(packets, p, idx, s.timestamp, s.scan);
    OpenedStays(packets, p, idx[0], s.width, s.height, s.kind, s.restart, s.qtables[..s.qcount]);
  }

  /** A packet that changes neither tables nor the frame leaves everything tracked. */
  lemma {:induction false} StaysTracked(s: State, packets: seq<bytes>, p: bytes)
    requires Tracked(s, packets) && InForce(packets + [p]) == InForce(packets)
    ensures Tracked(s, packets + [p])
  {
    hide Linked, InForce;
    if s.inFrame && s.scan != [] {
      var idx: seq<nat> :| Linked(packets, idx, s.timestamp, s.scan, s.width, s.height, s.kind, s.restart,
                                  s.qtables[..s.qcount]);
      LinkedStays(packets, p, idx, s);
    }
  }

  /** One arbitrary packet: the frame in progress stays a chain and a delivered frame is genuine. */
  lemma {:induction false} PushGenuine(s: State, packets: seq<bytes>, p: bytes)
    requires Valid(s) && Tracked(s, packets)
    ensures Tracked(Push(s, p).state, packets + [p])
    ensures forall d :: d in Out(Push(s, p)) ==> Genuine(d, packets + [p])
  {
    hide Linked, ReadQuant, FirstData, Gap, ReadMain, H.Parse, P.Printable, InForce, Start, Continue, TablesGiven, Genuine;
    InForceStep(packets, p);
    var parsed := H.Parse(p);
    if parsed.Ok? && parsed.value.0.payloadType == H.PT_JPEG && ReadMain(parsed.value.1).Ok? {
      var h, m := parsed.value.0, ReadMain(parsed.value.1).value;
      var s1 := Note(s, h.seqNo);
      NoteTracked(s, packets, h.seqNo);
      if m.off == 0 {
        StartGenuine(s1, h, m, packets, p);
      } else {
        ContinueGenuine(s1, h, m, Gap(s.lastSeq, h.seqNo), packets, p);
      }
    } else {
      StaysTracked(s, packets, p);
      if parsed.Ok? {
        NoteTracked(s, packets + [p], parsed.value.0.seqNo);
      }
    }
  }

  lemma {:induction false} NoteTracked(s: State, packets: seq<bytes>, seqNo: u16)
    requires Tracked(s, packets)
    ensures Tracked(Note(s, seqNo), packets)
  {
    hide Linked, InForce, Gap;
  }

  lemma {:induction false} SingleChain(packets: seq<bytes>, p: bytes, ts: u32, scan: bytes)
    ensures PieceOf(p) == Some(Piece(0, ts, scan)) ==> Chain(packets + [p], [|packets|], ts, scan)
  {
  }

  lemma {:induction false} LongerChain(packets: seq<bytes>, p: bytes, idx: seq<nat>, ts: u32, scan: bytes, data: bytes)
    requires Chain(packets, idx, ts, scan) && scan != []
    ensures PieceOf(p) == Some(Piece(|scan|, ts, data)) ==> Chain(packets + [p], idx + [|packets|], ts, scan + data)
  {
    hide PieceOf;
    ChainGrows(packets, p, idx, ts, scan);
    assert (idx + [|packets|])[..|idx|] == idx;
    assert (scan + data)[..|scan|] == scan && (scan + data)[|scan|..] == data;
  }

  lemma {:induction false} LinkedLonger(packets: seq<bytes>, p: bytes, idx: seq<nat>, s: State, data: bytes)
    requires s.qcount <= |s.qtables| && s.scan != [] && PieceOf(p) == Some(Piece(|s.scan|, s.timestamp, data))
    requires Linked(packets, idx, s.timestamp, s.scan, s.width, s.height, s.kind, s.restart, s.qtables[..s.qcount])
    ensures Linked(packets + [p], idx + [|packets|], s.timestamp, s.scan + data, s.width, s.height, s.kind, s.restart,
                   s.qtables[..s.qcount])
  {
    hide Chain, OpenedAs, PieceOf;
    LongerChain(packets, p, idx, s.timestamp, s.scan, data);
    OpenedStays(packets, p, idx[0], s.width, s.height, s.kind, s.restart, s.qtables[..s.qcount]);
  }

  lemma {:induction false} StartGenuine(s: State, h: H.Header, m: Main, packets: seq<bytes>, p: bytes)
    requires Valid(s) && m.kind % 64 <= 1 && 0 < m.width <= 2040 && 0 < m.height <= 2040
    requires m.width % 8 == 0 && m.height % 8 == 0 && m.off == 0
    requires Tracked(s, packets) && Opening(p) == Some(m)
    requires FirstData(m).Some? ==> PieceOf(p) == Some(Piece(0, h.timestamp, FirstData(m).value))
    ensures var r := Start(s, h, m);
            && Tracked(r.state, packets + [p])
            && (forall d :: d in Out(r) ==> Genuine(d, packets + [p]))
  {
    hide Append, Chain, ReadQuant, FirstData, PieceOf, Genuine, InForce, TablesGiven, Opening;
    var o, all := Open(s, h, m), packets + [p];
    var q := ReadQuant(m, s.qtables, s.qcount);
    FirstDataIs(m, s.qtables, s.qcount);
    TablesGivenIs(m, s.qtables, s.qcount);
    InForceStep(packets, p);
    if q.Ok? {
      SingleChain(packets, p, h.timestamp, q.value.data);
      assert [] + q.value.data == q.value.data;
      assert all[..|packets| + 1] == all;
      AppendChain(o.(qtables := q.value.qtables, qcount := q.value.qcount), h.marker, q.value.data, all, [|packets|]);
    }
  }

  lemma {:induction false} ContinueGenuine(s: State, h: H.Header, m: Main, gap: nat, packets: seq<bytes>, p: bytes)
    requires Valid(s) && m.off != 0 && Tracked(s, packets) && Opening(p) == None
    requires PieceOf(p) == Some(Piece(m.off, h.timestamp, m.rest))
    ensures var r := Continue(s, h, m, gap);
            && Tracked(r.state, packets + [p])
            && (forall d :: d in Out(r) ==> Genuine(d, packets + [p]))
  {
    hide Append, Linked, PieceOf, Genuine, P.Printable, InForce, Opening;
    InForceStep(packets, p);
    StaysTracked(s, packets, p);
    if s.inFrame && gap == 0 && m.off == |s.scan| && h.timestamp == s.timestamp {
      var idx: seq<nat> :| Linked(packets, idx, s.timestamp, s.scan, s.width, s.height, s.kind, s.restart,
                                  s.qtables[..s.qcount]);
      LinkedLonger(packets, p, idx, s, m.rest);
      AppendChain(s, h.marker, m.rest, packets + [p], idx + [|packets|]);
    }
  }

  lemma {:induction false} RunSnoc(s: State, packets: seq<bytes>, p: bytes)
    requires Valid(s)
    ensures Run(s, packets + [p]) == Push(Run(s, packets), p).state
    decreases |packets|
  {
    hide Push;
    if packets == [] {
      assert [] + [p] == [p] && [p][1..] == [];
      assert Run(Push(s, p).state, []) == Push(s, p).state;
    } else {
      assert (packets + [p])[1..] == packets[1..] + [p];
      RunSnoc(Push(s, packets[0]).state, packets[1..], p);
    }
  }

  lemma {:induction false} NoneInForce()
    ensures InForce([]) == []
  {
  }

  lemma {:induction false} RunTracked(cap: nat, packets: seq<bytes>)
    requires cap >= RESERVE + 2
    ensures Tracked(Run(Init(cap), packets), packets)
    decreases |packets|
  {
    hide Push, Linked, InForce;
    NoneInForce();
    if packets != [] {
      var rest, p := packets[..|packets| - 1], packets[|packets| - 1];
      assert packets == rest + [p];
      RunTracked(cap, rest);
      RunSnoc(Init(cap), rest, p);
      PushGenuine(Run(Init(cap), rest), rest, p);
    }
  }

  /** After any packets whatever, a frame reported for the next packet is genuine. */
  lemma {:induction false} EveryFrameGenuine(cap: nat, packets: seq<bytes>, p: bytes)
    requires cap >= RESERVE + 2
    ensures forall d :: d in Out(Push(Run(Init(cap), packets), p)) ==> Genuine(d, packets + [p])
  {
    RunTracked(cap, packets);
    PushGenuine(Run(Init(cap), packets), packets, p);
  }

  // ----- counters

  /** The packet's own headers say offset 0. */
  predicate OpensFrame(packet: bytes) {
    Opening(packet).Some?
  }

  function Openers(packets: seq<bytes>): nat {
    if packets == [] then 0 else (if OpensFrame(packets[0]) then 1 else 0) + Openers(packets[1..])
  }

  function Ledger(s: State): nat {
    s.frames + s.dropped + if s.inFrame then 1 else 0
  }

  /** A packet at offset 0 opens a frame, unless one is open that holds nothing. */
  predicate Opens(s: State, p: bytes) {
    OpensFrame(p) && !(s.inFrame && s.scan == [])
  }

  /** How many packets open a frame. */
  function Opened(s: State, packets: seq<bytes>): (n: nat)
    requires Valid(s)
    ensures n <= Openers(packets)
    decreases |packets|
  {
    if packets == [] then 0
    else (if Opens(s, packets[0]) then 1 else 0) + Opened(Push(s, packets[0]).state, packets[1..])
  }

  /** Every frame opened is delivered, dropped or in progress. */
  lemma {:induction false} PushLedger(s: State, p: bytes)
    requires Valid(s)
    ensures Ledger(Push(s, p).state) == Ledger(s) + if Opens(s, p) then 1 else 0
    ensures Push(s, p).state.frames == s.frames + |Out(Push(s, p))|
  {
    hide ReadMain, H.Parse, ReadQuant, P.File, P.Printable, Gap;
  }

  /** Whatever packets arrive: frames are the files delivered, and frames, drops and the frame in progress are together
      the frames opened. */
  lemma {:induction false} LedgerExactly(s: State, packets: seq<bytes>)
    requires Valid(s)
    ensures Ledger(Run(s, packets)) == Ledger(s) + Opened(s, packets)
    ensures Run(s, packets).frames == s.frames + |Delivered(s, packets)|
    decreases |packets|
  {
    hide Push, Opens, Ledger, Out, OpensFrame;
    if packets != [] {
      PushLedger(s, packets[0]);
      LedgerExactly(Push(s, packets[0]).state, packets[1..]);
    }
  }

  lemma {:induction false} FramesAndDropsBounded(cap: nat, packets: seq<bytes>)
    requires cap >= RESERVE + 2
    ensures var s := Run(Init(cap), packets);
            s.frames + s.dropped <= Openers(packets)
  {
    hide Run, Openers, Opened;
    LedgerExactly(Init(cap), packets);
  }

  lemma {:induction false} HeadersRefused(p: bytes)
    ensures H.Parse(p).Err? ==> H.Parse(p).error == InvalidFormat
  {
  }

  lemma {:induction false} MainRefused(payload: bytes, m: Main, qtables: seq<bytes>, qcount: nat)
    requires |qtables| == 2 && |qtables[0]| == 64 && |qtables[1]| == 64 && qcount <= 2
    ensures ReadMain(payload).Err? ==> ReadMain(payload).error == InvalidFormat || ReadMain(payload).error == Unsupported
    ensures var q := ReadQuant(m, qtables, qcount);
            q.Err? ==> q.error == InvalidFormat || q.error == Unsupported
  {
  }

  /** Whatever packet arrives, the answer tells what became of the frame in progress. */
  lemma {:induction false} AnswersTell(s: State, p: bytes)
    requires Valid(s)
    ensures var r := Push(s, p);
            && (r.result == Ok(Dropped) <==> r.result.Ok? && !OpensFrame(p) && s.inFrame && !r.state.inFrame && Out(r) == [])
            && (r.result == Ok(Dropped) ==> r.state.dropped == s.dropped + 1)
            && (r.result == Ok(Fragment) ==> r.state.inFrame == (s.inFrame || OpensFrame(p)))
            && (r.result.Ok? && r.result.value.Frame? ==> |Out(r)| == 1 && !r.state.inFrame)
            && (r.result.Err? && r.result.error.BufferTooSmall? ==>
                  !r.state.inFrame && r.state.dropped > s.dropped && r.result.error.needed > s.cap)
            && (r.result.Err? && !r.result.error.BufferTooSmall? ==>
                  r.state.inFrame == (s.inFrame || OpensFrame(p)) && r.state.frames == s.frames)
  {
    hide ReadMain, H.Parse, ReadQuant, P.File, P.Printable, Gap;
    HeadersRefused(p);
    if H.Parse(p).Ok? {
      var payload := H.Parse(p).value.1;
      MainRefused(payload, if ReadMain(payload).Ok? then ReadMain(payload).value else Main(0, 0, 0, 8, 8, None, []),
                  s.qtables, s.qcount);
    }
  }
}
