/** What an accepted JPEG looks like, which of them can be sent, and what comes back. */
module JpegAccepted {
  import opened Bytes
  import opened JpegFile
  import opened JpegSender
  import opened JpegLossyLink
  import JpegReceiver
  import P = JpegHeaders

  predicate TableShape(qtables: seq<bytes>, qcount: nat) {
    && |qtables| == 2 && qcount <= 2
    && (forall k :: 0 <= k < 2 ==> |qtables[k]| == 0 || |qtables[k]| == 64)
    && (forall k :: qcount <= k < 2 ==> qtables[k] == [])
    && (qcount > 0 ==> |qtables[qcount - 1]| == 64)
  }

  predicate DimsShape(d: Dims) {
    && 0 < d.width <= 2040 && d.width % 8 == 0 && 0 < d.height <= 2040 && d.height % 8 == 0
    && d.kind <= 1
  }

  predicate Shape(t: Tables) {
    TableShape(t.qtables, t.qcount) && (t.dims.Some? ==> DimsShape(t.dims.value))
  }

  /** Bytes the tables read so far took up in the file. */
  function TableBytes(qtables: seq<bytes>): nat
    requires |qtables| == 2
  {
    (if qtables[0] == [] then 0 else 65) + (if qtables[1] == [] then 0 else 65)
  }

  lemma {:induction false} DqtShape(s: bytes, t: Tables)
    requires Shape(t)
    ensures ReadDqt(s, t).Ok? ==>
              var t' := ReadDqt(s, t).value;
              Shape(t') && TableBytes(t'.qtables) <= TableBytes(t.qtables) + |s|
    decreases |s|
  {
    if s != [] {
      var tq := s[0] % 16;
      if s[0] / 16 == 0 && |s| >= 65 && tq <= 1 {
        DqtShape(s[65..], t.(qtables := t.qtables[tq := s[1..65]], qcount := Max(t.qcount, tq + 1)));
      }
    }
  }

  lemma {:induction false} SegmentShape(marker: byte, seg: bytes, t: Tables)
    requires Shape(t)
    ensures ReadSegment(marker, seg, t).Ok? ==>
              var t' := ReadSegment(marker, seg, t).value;
              Shape(t') && TableBytes(t'.qtables) <= TableBytes(t.qtables) + |seg|
  {
    hide ReadDqt, CheckDht;
    DqtShape(seg, t);
  }

  /** The shape of what the parser returns, and how many bytes of the file are not scan. */
  predicate Accepted(info: JpegScan, fileLen: nat) {
    && TableShape(info.qtables, info.qcount) && info.qcount > 0
    && DimsShape(Dims(info.width, info.height, info.kind % 64))
    && info.kind == info.kind % 64 + (if info.restart.Some? then 64 else 0)
    && fileLen >= TableBytes(info.qtables) + 7 + |info.scan|
  }

  lemma {:induction false} ScanShape(j: bytes, scanStart: nat, t: Tables)
    requires Shape(t) && TableBytes(t.qtables) + 5 <= scanStart
    ensures ReadScan(j, scanStart, t).Ok? ==> Accepted(ReadScan(j, scanStart, t).value, |j|)
  {
    hide AfterLastEoi;
  }

  lemma {:induction false} ParseFromShape(j: bytes, i: nat, t: Tables)
    requires i <= |j| && Shape(t) && TableBytes(t.qtables) + 2 <= i
    ensures ParseFrom(j, i, t).Ok? ==> Accepted(ParseFrom(j, i, t).value, |j|)
    decreases |j| - i
  {
    hide ReadSegment, ReadScan, Accepted, DimsShape, SkipFill, TableBytes;
    var k := SkipFill(j, i);
    if k == |j| {
    } else if IsStandalone(j[k]) {
      ParseFromShape(j, k + 1, t);
    } else if k + 3 <= |j| {
      var at, len := k + 1, FromBe16(j[k + 1], j[k + 2]);
      if len >= 2 && at + len <= |j| {
        if j[k] == SOS {
          ScanShape(j, at + len, t);
        } else {
          var seg := j[at + 2..at + len];
          var r := ReadSegment(j[k], seg, t);
          SegmentShape(j[k], seg, t);
          if r.Ok? {
            ParseFromShape(j, at + len, r.value);
          }
        }
      }
    }
  }

  /** Every accepted JPEG has legal dimensions and whole tables. */
  lemma {:induction false} ParseShape(j: bytes)
    ensures Parse(j).Ok? ==> Accepted(Parse(j).value, |j|)
  {
    hide ParseFrom, Accepted;
    if |j| >= 2 {
      ParseFromShape(j, 2, NOTHING);
    }
  }

  /** Quantization table 1 is there and table 0 is not. */
  predicate OnlyTable1(info: JpegScan) {
    info.qcount == 2 && |info.qtables| == 2 && info.qtables[0] == []
  }

  /** An accepted JPEG has the tables it announces unless it defines table 1 without table 0. */
  lemma {:induction false} WhenTablesPresent(j: bytes)
    requires Parse(j).Ok?
    ensures TablesPresent(Parse(j).value) <==> !OnlyTable1(Parse(j).value)
  {
    hide Parse;
    ParseShape(j);
  }

  /** On accepted JPEGs the sender aborts if and only if there is a scan to send and table 1 stands without table 0. */
  lemma {:induction false} AbortsExactly(j: bytes)
    requires Parse(j).Ok?
    ensures Aborts(Parse(j).value) <==> Parse(j).value.scan != [] && OnlyTable1(Parse(j).value)
  {
    hide Parse, TablesPresent, OnlyTable1;
    WhenTablesPresent(j);
  }

  /** A JPEG that defines table 1 and nothing else. */
  function Table1File(width: u16, height: u16, kind: byte, table: bytes, scan: bytes): bytes
    requires |table| == 64
  {
    [0xFF, 0xD8] + P.AllBytes(Table1Segments(width, height, kind, table)) + P.SOS_BYTES + scan + [0xFF, EOI]
  }

  function Table1Segments(width: u16, height: u16, kind: byte, table: bytes): (r: seq<P.Segment>)
    requires |table| == 64
    ensures P.Fits(r)
  {
    [P.Segment(DQT, [1] + table), P.Segment(SOF0, P.SofBody(width, height, kind, 2))]
  }

  /** Such files exist, with any size, table and scan: they are accepted, and the sender aborts on those with a scan. */
  lemma {:induction false} Table1FileAccepted(width: u16, height: u16, kind: byte, table: bytes, scan: bytes)
    requires |table| == 64 && P.Printable(width, height, kind, [table])
    ensures Parse(Table1File(width, height, kind, table, scan)) ==
            Ok(JpegScan(width, height, kind, None, [[], table], 2, scan))
    ensures OnlyTable1(Parse(Table1File(width, height, kind, table, scan)).value)
    ensures Aborts(Parse(Table1File(width, height, kind, table, scan)).value) <==> scan != []
  {
    hide ParseFrom, P.AllBytes, P.SofBody, ReadSof;
    var list := Table1Segments(width, height, kind, table);
    var mid, j := P.AllBytes(list), Table1File(width, height, kind, table, scan);
    var t1 := Tables([[], table], 2, None, None);
    var t2 := t1.(dims := Some(Dims(width, height, kind)));
    assert j[2..2 + |mid|] == mid && j[2 + |mid|..] == P.SOS_BYTES + scan + [0xFF, EOI];
    P.ParseSegments(j, 2, list, NOTHING);
    P.ReadSofBody(width, height, kind, 2);
    ReadTable1(table);
    assert P.ReadAll(list, NOTHING) == Ok(t2) by {
      assert list[1..] == [list[1]] && list[1..][1..] == [];
      assert P.ReadAll(list[1..], t1) == P.ReadAll([], t2);
    }
    P.ParsePrintedScan(j, 2 + |mid|, scan, t2);
  }

  lemma {:induction false} ReadTable1(table: bytes)
    requires |table| == 64
    ensures ReadDqt([1] + table, NOTHING) == Ok(Tables([[], table], 2, None, None))
  {
    var s := [1] + table;
    assert s[65..] == [] && s[1..65] == table && NOTHING.qtables[1 := table] == [[], table];
    assert ReadDqt([], Tables([[], table], 2, None, None)) == Ok(Tables([[], table], 2, None, None));
  }

  /** A sender's JPEG: accepted, the announced tables there, and a scan the link can carry. */
  predicate Carried(j: bytes, cap: nat, mtu: nat) {
    && Parse(j).Ok? && mtu >= MIN_MTU
    && var info := Parse(j).value;
       && TablesPresent(info) && info.scan != [] && LastOffset(info, mtu, 0) < OFFSETS
       && JpegReceiver.RESERVE + |info.scan| + 2 <= cap
  }

  lemma {:induction false} CarriedSendable(j: bytes, cap: nat, mtu: nat)
    requires Carried(j, cap, mtu)
    ensures Sendable(Parse(j).value, cap, mtu)
  {
    hide Parse;
    ParseShape(j);
  }

  /** What the receiver rebuilds parses to exactly what the original parsed to. */
  lemma {:induction false} RebuiltParsesAlike(j: bytes)
    requires Parse(j).Ok? && TablesPresent(Parse(j).value)
    ensures Parse(Rebuilt(Parse(j).value)) == Parse(j)
  {
    hide Parse;
    ParseShape(j);
    var info := Parse(j).value;
    var qtables := info.qtables[..info.qcount];
    hide P.File;
    P.ParseFile(info.width, info.height, info.kind % 64, info.restart, qtables, info.scan);
    assert [qtables[0], if |qtables| == 2 then qtables[1] else []] == info.qtables;
  }

  // ----- the whole path, from file to file

  lemma {:induction false} CarriedIs(j: bytes, cap: nat, mtu: nat)
    requires Carried(j, cap, mtu)
    ensures Parse(j).Ok? && TablesPresent(Parse(j).value)
  {
    hide Parse;
  }

  predicate AllCarried(files: seq<bytes>, cap: nat, mtu: nat) {
    forall k :: 0 <= k < |files| ==> Carried(files[k], cap, mtu)
  }

  function ToJob(file: bytes, ts: u32, cap: nat, mtu: nat): (job: Job)
    requires Carried(file, cap, mtu)
    ensures Sendable(job.info, cap, mtu) && TablesPresent(job.info)
  {
    CarriedSendable(file, cap, mtu);
    Job(Parse(file).value, ts)
  }

  function Jobs(files: seq<bytes>, ts: seq<u32>, cap: nat, mtu: nat): (jobs: seq<Job>)
    requires |ts| == |files| && AllCarried(files, cap, mtu)
    ensures AllPresent(jobs) && AllSendable(jobs, cap, mtu)
  {
    if files == [] then [] else [ToJob(files[0], ts[0], cap, mtu)] + Jobs(files[1..], ts[1..], cap, mtu)
  }

  /** The fragments of `files[0]`. */
  function FirstPackets(files: seq<bytes>, ts: seq<u32>, cap: nat, mtu: nat, ssrc: u32, seqNo: u16): seq<bytes>
    requires |ts| == |files| > 0 && AllCarried(files, cap, mtu) && mtu >= MIN_MTU
  {
    Packets(ToJob(files[0], ts[0], cap, mtu).info, ts[0], mtu, ssrc, seqNo, 0)
  }

  /** What the files all of whose packets arrive parse to. */
  function WholeParses(files: seq<bytes>, ts: seq<u32>, cap: nat, mtu: nat, ssrc: u32, seqNo: u16, mask: seq<bool>)
    : seq<Result<JpegScan>>
    requires |ts| == |files| && AllCarried(files, cap, mtu) && mtu >= MIN_MTU
  {
    if files == [] then []
    else
      var n := |FirstPackets(files, ts, cap, mtu, ssrc, seqNo)|;
      if n > |mask| then []
      else
        (if AllTrue(mask[..n]) then [Parse(files[0])] else []) +
        WholeParses(files[1..], ts[1..], cap, mtu, ssrc, (seqNo + n) % 0x1_0000, mask[n..])
  }

  function Reparsed(out: seq<JpegReceiver.Delivery>): seq<Result<JpegScan>> {
    if out == [] then [] else [Parse(out[0].jpeg)] + Reparsed(out[1..])
  }

  lemma {:induction false} WholeReparsed(files: seq<bytes>, ts: seq<u32>, cap: nat, mtu: nat, ssrc: u32, seqNo: u16,
                                         mask: seq<bool>)
    requires |ts| == |files| && AllCarried(files, cap, mtu) && mtu >= MIN_MTU
    requires |mask| == |Sent(Jobs(files, ts, cap, mtu), mtu, ssrc, seqNo)|
    ensures Reparsed(Whole(Jobs(files, ts, cap, mtu), mtu, ssrc, seqNo, mask)) ==
            WholeParses(files, ts, cap, mtu, ssrc, seqNo, mask)
    decreases |files|
  {
    hide Parse, Rebuilt, Sendable, TablesPresent, Carried, Packets, AllTrue, Reparsed;
    NothingReparsed();
    if files != [] {
      var jobs := Jobs(files, ts, cap, mtu);
      var job := ToJob(files[0], ts[0], cap, mtu);
      JobsStep(files, ts, cap, mtu);
      hide Jobs;
      var n := |FirstPackets(files, ts, cap, mtu, ssrc, seqNo)|;
      WholeReparsed(files[1..], ts[1..], cap, mtu, ssrc, (seqNo + n) % 0x1_0000, mask[n..]);
      CarriedIs(files[0], cap, mtu);
      RebuiltParsesAlike(files[0]);
      var first := if AllTrue(mask[..n]) then [Expected(job)] else [];
      var rest := Whole(jobs[1..], mtu, ssrc, (seqNo + n) % 0x1_0000, mask[n..]);
      assert Whole(jobs, mtu, ssrc, seqNo, mask) == first + rest;
      ReparsedAppend(first, rest);
    }
  }

  lemma {:induction false} NothingReparsed()
    ensures Reparsed([]) == []
  {
  }

  lemma {:induction false} JobsStep(files: seq<bytes>, ts: seq<u32>, cap: nat, mtu: nat)
    requires |ts| == |files| > 0 && AllCarried(files, cap, mtu)
    ensures var jobs := Jobs(files, ts, cap, mtu);
            |jobs| > 0 && jobs[0] == ToJob(files[0], ts[0], cap, mtu) && jobs[1..] == Jobs(files[1..], ts[1..], cap, mtu)
  {
    hide Parse, Rebuilt, Sendable, TablesPresent, Carried;
  }

  lemma {:induction false} ReparsedAppend(a: seq<JpegReceiver.Delivery>, b: seq<JpegReceiver.Delivery>)
    requires |a| <= 1
    ensures Reparsed(a + b) == (if a == [] then [] else [Parse(a[0].jpeg)]) + Reparsed(b)
  {
    hide Parse;
    if a == [] {
      assert a + b == b;
    } else {
      assert (a + b)[1..] == b;
    }
  }

  /** Files in, packets over a lossy link, files out: the delivered files parse to exactly what the originals
      all of whose packets arrived parse to, in their order. */
  lemma {:induction false} FilesOverLossyLink(files: seq<bytes>, ts: seq<u32>, cap: nat, mtu: nat, ssrc: u32, firstSeq: u16,
                                              mask: seq<bool>)
    requires |ts| == |files| && AllCarried(files, cap, mtu)
    requires mtu >= MIN_MTU && cap >= JpegReceiver.RESERVE + 2
    requires |mask| == |Sent(Jobs(files, ts, cap, mtu), mtu, ssrc, firstSeq)| && ShortRuns(Track(false, 0), mask)
    ensures var arrived := Arrived(Sent(Jobs(files, ts, cap, mtu), mtu, ssrc, firstSeq), mask);
            Reparsed(JpegReceiver.Delivered(JpegReceiver.Init(cap), arrived)) ==
            WholeParses(files, ts, cap, mtu, ssrc, firstSeq, mask)
  {
    hide Parse, Sendable, TablesPresent, Carried, Whole, Sent, ShortRuns, Jobs, WholeParses, Reparsed, Arrived,
         JpegReceiver.Delivered, JpegReceiver.Run;
    LossyLink(Jobs(files, ts, cap, mtu), cap, mtu, ssrc, firstSeq, mask);
    WholeReparsed(files, ts, cap, mtu, ssrc, firstSeq, mask);
  }
}
