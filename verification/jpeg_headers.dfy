/** Writing everything a baseline JPEG needs before its scan, and reading it back. */
module JpegHeaders {
  import opened Bytes
  import opened Huffman
  import opened JpegFile

  datatype Segment = Segment(marker: byte, body: bytes)

  /** Marker, length and body. */
  function SegmentBytes(s: Segment): (r: bytes)
    requires |s.body| <= 65533
    ensures |r| == 4 + |s.body|
  {
    [0xFF, s.marker] + Be16(|s.body| + 2) + s.body
  }

  predicate Fits(list: seq<Segment>) {
    forall k :: 0 <= k < |list| ==> |list[k].body| <= 65533
  }

  function AllBytes(list: seq<Segment>): bytes
    requires Fits(list)
  {
    if list == [] then [] else SegmentBytes(list[0]) + AllBytes(list[1..])
  }

  /** The receiver's view of a list of segments before the scan header. */
  function ReadAll(list: seq<Segment>, t: Tables): (r: Result<Tables>)
    requires |t.qtables| == 2
    ensures r.Ok? ==> |r.value.qtables| == 2
  {
    if list == [] then Ok(t)
    else
      var t' :- ReadSegment(list[0].marker, list[0].body, t);
      ReadAll(list[1..], t')
  }

  lemma {:induction false} AllBytesStep(list: seq<Segment>)
    requires Fits(list) && list != []
    ensures Fits(list[1..]) && AllBytes(list) == SegmentBytes(list[0]) + AllBytes(list[1..])
    ensures |SegmentBytes(list[0])| == 4 + |list[0].body|
  {
  }

  predicate IsTableMarker(m: byte) {
    m != 0xFF && m != SOS && !IsStandalone(m)
  }

  // ----- the parser walks a printed list of segments

  lemma {:induction false} ParseSegment(j: bytes, i: nat, s: Segment, t: Tables)
    requires |t.qtables| == 2 && |s.body| <= 65533 && IsTableMarker(s.marker)
    requires i + 4 + |s.body| <= |j| && j[i..i + 4 + |s.body|] == SegmentBytes(s)
    ensures ParseFrom(j, i, t) ==
            match ReadSegment(s.marker, s.body, t)
            case Ok(t') => ParseFrom(j, i + 4 + |s.body|, t')
            case Err(e) => Err(e)
  {
    hide ReadSegment;
    var w := j[i..i + 4 + |s.body|];
    var len := |s.body| + 2;
    assert w[0] == 0xFF && w[1] == s.marker && w[2] == len / 256 && w[3] == len % 256;
    assert j[i] == w[0] && j[i + 1] == w[1] && j[i + 2] == w[2] && j[i + 3] == w[3];
    assert SkipFill(j, i) == SkipFill(j, i + 1) == i + 1;
    assert j[i + 4..i + 4 + |s.body|] == w[4..] == s.body;
    assert FromBe16(j[i + 2], j[i + 3]) == len;
  }

  /** The parser steps over a whole printed list, collecting what `ReadAll` collects. */
  lemma {:induction false} ParseSegments(j: bytes, i: nat, list: seq<Segment>, t: Tables)
    requires |t.qtables| == 2 && Fits(list)
    requires forall k :: 0 <= k < |list| ==> IsTableMarker(list[k].marker)
    requires i + |AllBytes(list)| <= |j| && j[i..i + |AllBytes(list)|] == AllBytes(list)
    ensures ParseFrom(j, i, t) ==
            match ReadAll(list, t)
            case Ok(t') => ParseFrom(j, i + |AllBytes(list)|, t')
            case Err(e) => Err(e)
    decreases |list|
  {
    hide ParseFrom, ReadSegment, SegmentBytes;
    if list != [] {
      var s, w := list[0], j[i..i + |AllBytes(list)|];
      var n := 4 + |s.body|;
      assert j[i..i + n] == w[..n] == SegmentBytes(s);
      ParseSegment(j, i, s, t);
      var r := ReadSegment(s.marker, s.body, t);
      if r.Ok? {
        assert j[i + n..i + n + |AllBytes(list[1..])|] == w[n..] == AllBytes(list[1..]);
        ParseSegments(j, i + n, list[1..], r.value);
      }
    }
  }

  // ----- the header segments

  function DqtBody(qtables: seq<bytes>, first: nat): bytes
    requires first + |qtables| <= 256
  {
    if qtables == [] then [] else [first] + qtables[0] + DqtBody(qtables[1..], first + 1)
  }

  function SofBody(width: u16, height: u16, kind: byte, tables: nat): (r: bytes)
    ensures |r| == 15
  {
    var hv: byte := if kind == 0 then 0x21 else 0x22;
    var ctab: byte := if tables > 1 then 1 else 0;
    [8] + Be16(height) + Be16(width) + [3, 1, hv, 0, 2, 0x11, ctab, 3, 0x11, ctab]
  }

  function HeaderSegments(width: u16, height: u16, kind: byte, restart: Option<u16>, qtables: seq<bytes>): seq<Segment>
    requires |qtables| <= 2
  {
    [Segment(DQT, DqtBody(qtables, 0)), Segment(SOF0, SofBody(width, height, kind, |qtables|)),
     Segment(DHT, DhtBody(LUM_DC)), Segment(DHT, DhtBody(LUM_AC)),
     Segment(DHT, DhtBody(CHM_DC)), Segment(DHT, DhtBody(CHM_AC))] +
    if restart.Some? then [Segment(DRI, Be16(restart.value))] else []
  }

  const SOS_BYTES: bytes := [0xFF, SOS, 0, 12, 3, 1, 0x00, 2, 0x11, 3, 0x11, 0, 63, 0]

  /** Bytes the writer emits for `tables` tables, with or without a DRI segment. */
  function HeaderLen(tables: nat, restart: bool): nat {
    2 + (4 + 65 * tables) + 19 + (33 + 183 + 33 + 183) + (if restart then 6 else 0) + 14
  }

  predicate Printable(width: u16, height: u16, kind: byte, qtables: seq<bytes>) {
    && 0 < width <= 2040 && width % 8 == 0
    && 0 < height <= 2040 && height % 8 == 0
    && kind <= 1
    && 1 <= |qtables| <= 2
    && forall k :: 0 <= k < |qtables| ==> |qtables[k]| == 64
  }

  lemma {:induction false} PrintableIs(width: u16, height: u16, kind: byte, qtables: seq<bytes>)
    requires Printable(width, height, kind, qtables)
    ensures kind <= 1 && 1 <= |qtables| <= 2 && forall k :: 0 <= k < |qtables| ==> |qtables[k]| == 64
  {
  }

  lemma {:induction false} DqtBodyLen(qtables: seq<bytes>)
    requires |qtables| <= 2 && forall k :: 0 <= k < |qtables| ==> |qtables[k]| == 64
    ensures |DqtBody(qtables, 0)| == 65 * |qtables|
  {
    if |qtables| == 2 {
      assert DqtBody(qtables[1..], 1) == [1] + qtables[1];
    }
  }

  lemma {:induction false} DhtLens()
    ensures |DhtBody(LUM_DC)| == |DhtBody(CHM_DC)| == 29 && |DhtBody(LUM_AC)| == |DhtBody(CHM_AC)| == 179
  {
    TablesWellFormed();
  }

  lemma {:induction false} SegmentsFit(width: u16, height: u16, kind: byte, restart: Option<u16>, qtables: seq<bytes>)
    requires |qtables| <= 2 && forall k :: 0 <= k < |qtables| ==> |qtables[k]| == 64
    ensures var list := HeaderSegments(width, height, kind, restart, qtables);
            Fits(list) && forall k :: 0 <= k < |list| ==> IsTableMarker(list[k].marker)
  {
    hide DhtBody, DqtBody, SofBody;
    DqtBodyLen(qtables);
    DhtLens();
  }

  /** SOI, the tables, the frame header and the scan header. */
  function Headers(width: u16, height: u16, kind: byte, restart: Option<u16>, qtables: seq<bytes>): bytes
    requires |qtables| <= 2 && forall k :: 0 <= k < |qtables| ==> |qtables[k]| == 64
  {
    SegmentsFit(width, height, kind, restart, qtables);
    [0xFF, 0xD8] + AllBytes(HeaderSegments(width, height, kind, restart, qtables)) + SOS_BYTES
  }

  // ----- what the parser makes of the printed headers

  lemma {:induction false} AllBytesAppend(a: seq<Segment>, b: seq<Segment>)
    requires Fits(a) && Fits(b)
    ensures Fits(a + b) && AllBytes(a + b) == AllBytes(a) + AllBytes(b)
  {
    hide AllBytes, SegmentBytes;
    if a == [] {
      assert a + b == b;
      AllBytesEmpty();
    } else {
      assert a == [a[0]] + a[1..] && a + b == [a[0]] + (a[1..] + b);
      AllBytesAppend(a[1..], b);
      AllBytesCons(a[0], a[1..]);
      AllBytesCons(a[0], a[1..] + b);
      var x, y, z := SegmentBytes(a[0]), AllBytes(a[1..]), AllBytes(b);
      assert x + (y + z) == (x + y) + z;
    }
  }

  lemma {:induction false} AllBytesEmpty()
    ensures AllBytes([]) == []
  {
  }

  lemma {:induction false} AllBytesCons(s: Segment, rest: seq<Segment>)
    requires |s.body| <= 65533 && Fits(rest)
    ensures Fits([s] + rest) && AllBytes([s] + rest) == SegmentBytes(s) + AllBytes(rest)
  {
    hide SegmentBytes;
    assert ([s] + rest)[1..] == rest;
  }

  lemma {:induction false} ReadAllAppend(a: seq<Segment>, b: seq<Segment>, t: Tables)
    requires |t.qtables| == 2
    ensures ReadAll(a + b, t) ==
            match ReadAll(a, t)
            case Ok(t') => ReadAll(b, t')
            case Err(e) => Err(e)
  {
    hide ReadSegment;
    if a == [] {
      assert a + b == b;
    } else {
      assert (a + b)[1..] == a[1..] + b;
      var r := ReadSegment(a[0].marker, a[0].body, t);
      if r.Ok? {
        ReadAllAppend(a[1..], b, r.value);
      }
    }
  }

  lemma {:induction false} ReadDqtBody(qtables: seq<bytes>)
    requires 1 <= |qtables| <= 2 && forall k :: 0 <= k < |qtables| ==> |qtables[k]| == 64
    ensures ReadDqt(DqtBody(qtables, 0), NOTHING) ==
            Ok(Tables([qtables[0], if |qtables| == 2 then qtables[1] else []], |qtables|, None, None))
  {
    var body := DqtBody(qtables, 0);
    DqtBodyLen(qtables);
    assert body[1..65] == qtables[0];
    var t := Tables([qtables[0], []], 1, None, None);
    assert body[0] == 0;
    assert NOTHING.qtables[0 := qtables[0]] == t.qtables;
    assert ReadDqt(body, NOTHING) == ReadDqt(body[65..], t);
    if |qtables| == 2 {
      assert DqtBody(qtables[1..], 1) == [1] + qtables[1];
      assert body[65..] == [1] + qtables[1];
      assert body[65..][1..65] == qtables[1];
      assert t.qtables[1 := qtables[1]] == [qtables[0], qtables[1]];
      assert body[65..][65..] == [];
      var t2 := Tables([qtables[0], qtables[1]], 2, None, None);
      assert ReadDqt(body[65..], t) == ReadDqt([], t2);
    } else {
      assert body[65..] == [];
    }
  }

  lemma {:induction false} CheckDhtBody(t: Table)
    requires WellFormed(t)
    ensures CheckDht(DhtBody(t)) == Ok(())
  {
    hide DhtBody, WellFormed, CheckDht;
    CheckDhtThen(t, []);
    NoTables();
    assert DhtBody(t) + [] == DhtBody(t);
  }

  lemma {:induction false} ReadSofBody(width: u16, height: u16, kind: byte, tables: nat)
    requires 0 < width <= 2040 && width % 8 == 0 && 0 < height <= 2040 && height % 8 == 0 && kind <= 1
    ensures ReadSof(SofBody(width, height, kind, tables)) == Ok(Dims(width, height, kind))
  {
  }

  /** The four Huffman segments change nothing. */
  lemma {:induction false} ReadDhts(t: Tables)
    requires |t.qtables| == 2
    ensures ReadAll([Segment(DHT, DhtBody(LUM_DC)), Segment(DHT, DhtBody(LUM_AC)),
                     Segment(DHT, DhtBody(CHM_DC)), Segment(DHT, DhtBody(CHM_AC))], t) == Ok(t)
  {
    hide CheckDht, DhtBody, ReadSegment;
    TablesWellFormed();
    CheckDhtBody(LUM_DC);
    CheckDhtBody(LUM_AC);
    CheckDhtBody(CHM_DC);
    CheckDhtBody(CHM_AC);
    ReadDht(DhtBody(LUM_DC), t);
    ReadDht(DhtBody(LUM_AC), t);
    ReadDht(DhtBody(CHM_DC), t);
    ReadDht(DhtBody(CHM_AC), t);
    var a, b := Segment(DHT, DhtBody(LUM_DC)), Segment(DHT, DhtBody(LUM_AC));
    var c, d := Segment(DHT, DhtBody(CHM_DC)), Segment(DHT, DhtBody(CHM_AC));
    assert [a, b, c, d][1..] == [b, c, d] && [b, c, d][1..] == [c, d] && [c, d][1..] == [d] && [d][1..] == [];
    assert ReadAll([], t) == Ok(t);
    assert ReadAll([d], t) == Ok(t);
    assert ReadAll([c, d], t) == Ok(t);
    assert ReadAll([b, c, d], t) == Ok(t);
  }

  lemma {:induction false} ReadDht(body: bytes, t: Tables)
    requires |t.qtables| == 2 && CheckDht(body) == Ok(())
    ensures ReadSegment(DHT, body, t) == Ok(t)
  {
  }

  /** What the parser knows once it has read the printed tables. */
  function PrintedTables(width: u16, height: u16, kind: byte, restart: Option<u16>, qtables: seq<bytes>): Tables
    requires 1 <= |qtables| <= 2
  {
    Tables([qtables[0], if |qtables| == 2 then qtables[1] else []], |qtables|, Some(Dims(width, height, kind)), restart)
  }

  lemma {:induction false} ReadHeaderSegments(width: u16, height: u16, kind: byte, restart: Option<u16>, qtables: seq<bytes>)
    requires Printable(width, height, kind, qtables)
    ensures ReadAll(HeaderSegments(width, height, kind, restart, qtables), NOTHING) ==
            Ok(PrintedTables(width, height, kind, restart, qtables))
  {
    hide CheckDht, DhtBody, DqtBody, SofBody, ReadDqt, ReadSof, ReadAll;
    var dqt, sof := Segment(DQT, DqtBody(qtables, 0)), Segment(SOF0, SofBody(width, height, kind, |qtables|));
    var dhts := [Segment(DHT, DhtBody(LUM_DC)), Segment(DHT, DhtBody(LUM_AC)),
                 Segment(DHT, DhtBody(CHM_DC)), Segment(DHT, DhtBody(CHM_AC))];
    var dri := if restart.Some? then [Segment(DRI, Be16(restart.value))] else [];
    assert HeaderSegments(width, height, kind, restart, qtables) == [dqt] + ([sof] + (dhts + dri));
    ReadDqtBody(qtables);
    ReadSofBody(width, height, kind, |qtables|);
    var t1 := Tables([qtables[0], if |qtables| == 2 then qtables[1] else []], |qtables|, None, None);
    var t2 := t1.(dims := Some(Dims(width, height, kind)));
    ReadDhts(t2);
    ReadAllAppend(dhts, dri, t2);
    ReadDri(restart, t2);
    ReadAllCons(sof, dhts + dri, t1);
    ReadAllCons(dqt, [sof] + (dhts + dri), NOTHING);
  }

  lemma {:induction false} ReadAllCons(s: Segment, rest: seq<Segment>, t: Tables)
    requires |t.qtables| == 2
    ensures ReadAll([s] + rest, t) ==
            match ReadSegment(s.marker, s.body, t)
            case Ok(t') => ReadAll(rest, t')
            case Err(e) => Err(e)
  {
    hide ReadSegment;
    assert ([s] + rest)[1..] == rest;
  }

  lemma {:induction false} ReadDri(restart: Option<u16>, t: Tables)
    requires |t.qtables| == 2 && t.restart == None
    ensures ReadAll(if restart.Some? then [Segment(DRI, Be16(restart.value))] else [], t) ==
            Ok(t.(restart := restart))
  {
    if restart.Some? {
      var body := Be16(restart.value);
      assert ReadSegment(DRI, body, t) == Ok(t.(restart := restart));
      assert [Segment(DRI, body)][1..] == [];
    }
  }

  /** A whole JPEG as the receiver rebuilds it. */
  function File(width: u16, height: u16, kind: byte, restart: Option<u16>, qtables: seq<bytes>, scan: bytes): bytes
    requires |qtables| <= 2 && forall k :: 0 <= k < |qtables| ==> |qtables[k]| == 64
  {
    Headers(width, height, kind, restart, qtables) + scan + [0xFF, EOI]
  }

  /** Parsing undoes printing: every field and every scan byte comes back. */
  lemma {:induction false} ParseFile(width: u16, height: u16, kind: byte, restart: Option<u16>, qtables: seq<bytes>, scan: bytes)
    requires Printable(width, height, kind, qtables)
    ensures Parse(File(width, height, kind, restart, qtables, scan)) ==
            Ok(JpegScan(width, height, if restart.Some? then kind + 64 else kind, restart,
                        [qtables[0], if |qtables| == 2 then qtables[1] else []], |qtables|, scan))
  {
    hide ReadSegment, DqtBody, SofBody, DhtBody, HeaderSegments, AllBytes, ReadAll, ParseFrom;
    SegmentsFit(width, height, kind, restart, qtables);
    var list := HeaderSegments(width, height, kind, restart, qtables);
    var mid, j := AllBytes(list), File(width, height, kind, restart, qtables, scan);
    assert j[2..2 + |mid|] == mid;
    assert j[2 + |mid|..] == SOS_BYTES + scan + [0xFF, EOI];
    ParseSegments(j, 2, list, NOTHING);
    ReadHeaderSegments(width, height, kind, restart, qtables);
    var t := PrintedTables(width, height, kind, restart, qtables);
    assert ParseFrom(j, 2, NOTHING) == ParseFrom(j, 2 + |mid|, t);
    ParsePrintedScan(j, 2 + |mid|, scan, t);
  }

  lemma {:induction false} ParsePrintedScan(j: bytes, i: nat, scan: bytes, t: Tables)
    requires |t.qtables| == 2 && t.dims.Some? && t.dims.value.kind <= 1 && t.qcount > 0
    requires i + 16 + |scan| == |j| && j[i..] == SOS_BYTES + scan + [0xFF, EOI]
    ensures ParseFrom(j, i, t) ==
            Ok(JpegScan(t.dims.value.width, t.dims.value.height,
                        if t.restart.Some? then t.dims.value.kind + 64 else t.dims.value.kind,
                        t.restart, t.qtables, t.qcount, scan))
  {
    hide ReadSegment;
    var w := j[i..];
    assert j[i] == w[0] && j[i + 1] == w[1] && j[i + 2] == w[2] && j[i + 3] == w[3];
    assert SkipFill(j, i) == SkipFill(j, i + 1) == i + 1;
    assert j[|j| - 2] == w[|w| - 2] == 0xFF && j[|j| - 1] == w[|w| - 1] == EOI;
    assert AfterLastEoi(j, |j|) == |j|;
    assert j[i + 14..|j| - 2] == w[14..|w| - 2] == scan;
  }

  /** The length formula is the length printed. */
  lemma {:induction false} HeadersLen(width: u16, height: u16, kind: byte, restart: Option<u16>, qtables: seq<bytes>)
    requires |qtables| <= 2 && forall k :: 0 <= k < |qtables| ==> |qtables[k]| == 64
    ensures |Headers(width, height, kind, restart, qtables)| == HeaderLen(|qtables|, restart.Some?)
  {
    SegmentsFit(width, height, kind, restart, qtables);
    var list := HeaderSegments(width, height, kind, restart, qtables);
    HeaderBodyLens(width, height, kind, restart, qtables);
    SumOfLens(list, if restart.Some? then [65 * |qtables|, 15, 29, 179, 29, 179, 2] else [65 * |qtables|, 15, 29, 179, 29, 179]);
  }

  lemma {:induction false} HeaderBodyLens(width: u16, height: u16, kind: byte, restart: Option<u16>, qtables: seq<bytes>)
    requires |qtables| <= 2 && forall k :: 0 <= k < |qtables| ==> |qtables[k]| == 64
    ensures var list := HeaderSegments(width, height, kind, restart, qtables);
            && |list| == (if restart.Some? then 7 else 6)
            && |list[0].body| == 65 * |qtables| && |list[1].body| == 15
            && |list[2].body| == |list[4].body| == 29
            && |list[3].body| == |list[5].body| == 179
            && (restart.Some? ==> |list[6].body| == 2)
  {
    hide DhtBody, DqtBody, SofBody;
    DqtBodyLen(qtables);
    DhtLens();
  }

  lemma {:induction false} SumOfLens(list: seq<Segment>, lens: seq<nat>)
    requires Fits(list) && 6 <= |list| == |lens| <= 7
    requires forall k :: 0 <= k < |list| ==> |list[k].body| == lens[k]
    ensures |AllBytes(list)| == 4 * |list| + lens[0] + lens[1] + lens[2] + lens[3] + lens[4] + lens[5] +
                                if |list| == 7 then lens[6] else 0
  {
    AllBytesLen(list, 0);
    AllBytesLen(list, 1);
    AllBytesLen(list, 2);
    AllBytesLen(list, 3);
    AllBytesLen(list, 4);
    AllBytesLen(list, 5);
    if |list| == 7 {
      AllBytesLen(list, 6);
    }
    assert list[0..] == list && list[|list|..] == [];
  }

  lemma {:induction false} AllBytesLen(list: seq<Segment>, k: nat)
    requires Fits(list) && k < |list|
    ensures |AllBytes(list[k..])| == 4 + |list[k].body| + |AllBytes(list[k + 1..])|
  {
    assert list[k..][1..] == list[k + 1..];
  }

  // ----- the writer

  lemma {:induction false} DqtBodyAppend(a: seq<bytes>, t: bytes, first: nat)
    requires first + |a| < 256
    ensures DqtBody(a + [t], first) == DqtBody(a, first) + [first + |a|] + t
  {
    if a == [] {
      assert [t][1..] == [];
    } else {
      assert (a + [t])[1..] == a[1..] + [t];
      DqtBodyAppend(a[1..], t, first + 1);
    }
  }

  /** One DHT segment. */
  method PutDht(buf: array<byte>, p: nat, t: Table, ghost was: bytes, ghost lo: nat, ghost done: bytes) returns (p': nat)
    requires |t.codelens| == 16 && |t.symbols| <= 255
    requires Written(buf[..], was, lo, done) && p == lo + |done| && p + 21 + |t.symbols| <= buf.Length
    modifies buf
    ensures p' == p + 21 + |t.symbols| && |DhtBody(t)| <= 65533
    ensures p' == lo + |done + SegmentBytes(Segment(DHT, DhtBody(t)))|
    ensures Written(buf[..], was, lo, done + SegmentBytes(Segment(DHT, DhtBody(t))))
  {
    hide Written;
    var len := Be16(2 + 1 + 16 + |t.symbols|);
    p' := Put(buf, p, [0xFF, DHT], was, lo, done);
    p' := Put(buf, p', len, was, lo, done + [0xFF, DHT]);
    p' := Put(buf, p', [t.classId], was, lo, done + [0xFF, DHT] + len);
    p' := Put(buf, p', t.codelens, was, lo, done + [0xFF, DHT] + len + [t.classId]);
    p' := Put(buf, p', t.symbols, was, lo, done + [0xFF, DHT] + len + [t.classId] + t.codelens);
    assert done + [0xFF, DHT] + len + [t.classId] + t.codelens + t.symbols ==
           done + SegmentBytes(Segment(DHT, DhtBody(t)));
  }

  /** The DQT segment. */
  method PutDqt(buf: array<byte>, p: nat, qtables: seq<bytes>, ghost was: bytes, ghost lo: nat, ghost done: bytes)
    returns (p': nat)
    requires |qtables| <= 2 && forall k :: 0 <= k < |qtables| ==> |qtables[k]| == 64
    requires Written(buf[..], was, lo, done) && p == lo + |done| && p + 4 + 65 * |qtables| <= buf.Length
    modifies buf
    ensures p' == p + 4 + 65 * |qtables| && |DqtBody(qtables, 0)| == 65 * |qtables|
    ensures p' == lo + |done + SegmentBytes(Segment(DQT, DqtBody(qtables, 0)))|
    ensures Written(buf[..], was, lo, done + SegmentBytes(Segment(DQT, DqtBody(qtables, 0))))
  {
    hide Written;
    var len := Be16(2 + 65 * |qtables|);
    p' := Put(buf, p, [0xFF, DQT], was, lo, done);
    p' := Put(buf, p', len, was, lo, done + [0xFF, DQT]);
    ghost var head := done + [0xFF, DQT] + len;
    assert qtables[..0] == [];
    assert head + DqtBody(qtables[..0], 0) == head;
    for id := 0 to |qtables|
      invariant p' == p + 4 + 65 * id && |DqtBody(qtables[..id], 0)| == 65 * id
      invariant Written(buf[..], was, lo, head + DqtBody(qtables[..id], 0))
    {
      ghost var sofar := head + DqtBody(qtables[..id], 0);
      p' := Put(buf, p', [id], was, lo, sofar);
      p' := Put(buf, p', qtables[id], was, lo, sofar + [id]);
      assert qtables[..id + 1] == qtables[..id] + [qtables[id]];
      DqtBodyAppend(qtables[..id], qtables[id], 0);
      assert sofar + [id] + qtables[id] == head + DqtBody(qtables[..id + 1], 0);
    }
    assert qtables[..|qtables|] == qtables;
    assert head + DqtBody(qtables, 0) == done + SegmentBytes(Segment(DQT, DqtBody(qtables, 0)));
  }

  /** The frame header segment. */
  lemma {:induction false} SofIs(width: u16, height: u16, kind: byte, tables: nat)
    ensures var hv: byte := if kind == 0 then 0x21 else 0x22;
            var ctab: byte := if tables > 1 then 1 else 0;
            SegmentBytes(Segment(SOF0, SofBody(width, height, kind, tables))) ==
            [0xFF, SOF0, 0, 17, 8] + Be16(height) + Be16(width) + [3, 1, hv, 0, 2, 0x11, ctab, 3, 0x11, ctab]
  {
    assert Be16(17) == [0, 17];
  }

  method PutSof(buf: array<byte>, p: nat, width: u16, height: u16, kind: byte, tables: nat,
                ghost was: bytes, ghost lo: nat, ghost done: bytes) returns (p': nat)
    requires Written(buf[..], was, lo, done) && p == lo + |done| && p + 19 <= buf.Length
    modifies buf
    ensures p' == p + 19
    ensures p' == lo + |done + SegmentBytes(Segment(SOF0, SofBody(width, height, kind, tables)))|
    ensures Written(buf[..], was, lo, done + SegmentBytes(Segment(SOF0, SofBody(width, height, kind, tables))))
  {
    hide Written, Be16, SofBody, SegmentBytes;
    var hv: byte := if kind == 0 then 0x21 else 0x22;
    var ctab: byte := if tables > 1 then 1 else 0;
    var comps := [3, 1, hv, 0, 2, 0x11, ctab, 3, 0x11, ctab];
    SofIs(width, height, kind, tables);
    p' := Put(buf, p, [0xFF, SOF0, 0, 17, 8], was, lo, done);
    p' := Put(buf, p', Be16(height), was, lo, done + [0xFF, SOF0, 0, 17, 8]);
    p' := Put(buf, p', Be16(width), was, lo, done + [0xFF, SOF0, 0, 17, 8] + Be16(height));
    p' := Put(buf, p', comps, was, lo, done + [0xFF, SOF0, 0, 17, 8] + Be16(height) + Be16(width));
    assert done + [0xFF, SOF0, 0, 17, 8] + Be16(height) + Be16(width) + comps ==
           done + SegmentBytes(Segment(SOF0, SofBody(width, height, kind, tables)));
  }

  /** SOI and the first `k` segments. */
  ghost function Upto(list: seq<Segment>, k: nat): bytes
    requires Fits(list) && k <= |list|
  {
    [0xFF, 0xD8] + AllBytes(list[..k])
  }

  lemma {:induction false} UptoNext(list: seq<Segment>, k: nat)
    requires Fits(list) && k < |list|
    ensures Upto(list, k) + SegmentBytes(list[k]) == Upto(list, k + 1)
    ensures Upto(list, |list|) == [0xFF, 0xD8] + AllBytes(list) && Upto(list, 0) == [0xFF, 0xD8]
  {
    hide AllBytes, SegmentBytes;
    assert list[..k + 1] == list[..k] + [list[k]];
    AllBytesAppend(list[..k], [list[k]]);
    OneSegment(list[k]);
    var one := SegmentBytes(list[k]);
    assert [0xFF, 0xD8] + AllBytes(list[..k]) + one == [0xFF, 0xD8] + (AllBytes(list[..k]) + one);
    assert list[..|list|] == list && list[..0] == [];
  }

  lemma {:induction false} OneSegment(s: Segment)
    requires |s.body| <= 65533
    ensures AllBytes([s]) == SegmentBytes(s) && AllBytes([]) == []
  {
    hide SegmentBytes;
    assert [s][1..] == [];
  }

  /** Writes the headers into `buf[lo..hi]`; returns how many bytes they take. */
  method WriteJpegHeaders(buf: array<byte>, lo: nat, hi: nat, width: u16, height: u16, kind: byte,
                          restart: Option<u16>, qtables: seq<bytes>) returns (r: Result<nat>)
    requires lo <= hi <= buf.Length
    requires forall k :: 0 <= k < |qtables| ==> |qtables[k]| == 64
    modifies buf
    ensures r == if |qtables| == 0 || |qtables| > 2 || kind > 1 then Err(InvalidFormat)
                 else if hi - lo < HeaderLen(|qtables|, restart.Some?)
                 then Err(BufferTooSmall(HeaderLen(|qtables|, restart.Some?)))
                 else Ok(HeaderLen(|qtables|, restart.Some?))
    ensures r.Err? ==> buf[..] == old(buf[..])
    ensures r.Ok? ==>
              && lo + r.value <= hi
              && buf[..] == old(buf[..lo]) + Headers(width, height, kind, restart, qtables) + old(buf[lo + r.value..])
  {
    if |qtables| == 0 || |qtables| > 2 || kind > 1 {
      return Err(InvalidFormat);
    }
    var needed := HeaderLen(|qtables|, restart.Some?);
    if hi - lo < needed {
      return Err(BufferTooSmall(needed));
    }
    ghost var was := buf[..];
    var p := Put(buf, lo, [0xFF, 0xD8], was, lo, []);
    var p' := WriteTables(buf, p, width, height, kind, restart, qtables, was, lo);
    HeadersLen(width, height, kind, restart, qtables);
    return Ok(p' - lo);
  }

  /** Everything after SOI. */
  method WriteTables(buf: array<byte>, p: nat, width: u16, height: u16, kind: byte, restart: Option<u16>,
                     qtables: seq<bytes>, ghost was: bytes, ghost lo: nat) returns (p': nat)
    requires |qtables| <= 2 && forall k :: 0 <= k < |qtables| ==> |qtables[k]| == 64
    requires p == lo + 2 && lo + HeaderLen(|qtables|, restart.Some?) <= buf.Length
    requires Written(buf[..], was, lo, [0xFF, 0xD8])
    modifies buf
    ensures p' == lo + HeaderLen(|qtables|, restart.Some?)
    ensures Written(buf[..], was, lo, Headers(width, height, kind, restart, qtables))
  {
    hide Written, DhtBody, SegmentBytes, DqtBody, SofBody;
    SegmentsFit(width, height, kind, restart, qtables);
    ghost var list := HeaderSegments(width, height, kind, restart, qtables);
    UptoNext(list, 0);
    p' := PutDqt(buf, p, qtables, was, lo, Upto(list, 0));
    UptoNext(list, 1);
    p' := PutSof(buf, p', width, height, kind, |qtables|, was, lo, Upto(list, 1));
    p' := PutDhts(buf, p', list, was, lo);
    if restart.Some? {
      p' := PutDri(buf, p', restart.value, list, was, lo);
    }
    UptoNext(list, 0);
    p' := Put(buf, p', SOS_BYTES, was, lo, Upto(list, |list|));
  }

  /** The four DHT segments. */
  method PutDhts(buf: array<byte>, p: nat, ghost list: seq<Segment>, ghost was: bytes, ghost lo: nat) returns (p': nat)
    requires Fits(list) && |list| >= 6
    requires forall k :: 0 <= k < 4 ==> list[k + 2] == Segment(DHT, DhtBody(ALL[k]))
    requires Written(buf[..], was, lo, Upto(list, 2)) && p == lo + |Upto(list, 2)| && p + 432 <= buf.Length
    modifies buf
    ensures p' == p + 432 == lo + |Upto(list, 6)| && Written(buf[..], was, lo, Upto(list, 6))
  {
    hide Written, Upto, DhtBody, SegmentBytes;
    TablesWellFormed();
    p' := p;
    for k := 0 to 4
      invariant p' == lo + |Upto(list, 2 + k)| && Written(buf[..], was, lo, Upto(list, 2 + k))
      invariant p' == p + (if k == 0 then 0 else if k == 1 then 33 else if k == 2 then 216 else if k == 3 then 249 else 432)
    {
      UptoNext(list, 2 + k);
      p' := PutDht(buf, p', ALL[k], was, lo, Upto(list, 2 + k));
    }
  }

  /** The DRI segment. */
  method PutDri(buf: array<byte>, p: nat, ri: u16, ghost list: seq<Segment>, ghost was: bytes, ghost lo: nat)
    returns (p': nat)
    requires Fits(list) && |list| == 7 && list[6] == Segment(DRI, Be16(ri))
    requires Written(buf[..], was, lo, Upto(list, 6)) && p == lo + |Upto(list, 6)| && p + 6 <= buf.Length
    modifies buf
    ensures p' == p + 6 == lo + |Upto(list, 7)| && Written(buf[..], was, lo, Upto(list, 7))
  {
    hide Written, Upto;
    UptoNext(list, 6);
    p' := Put(buf, p, [0xFF, DRI, 0, 4], was, lo, Upto(list, 6));
    p' := Put(buf, p', Be16(ri), was, lo, Upto(list, 6) + [0xFF, DRI, 0, 4]);
    assert Upto(list, 6) + [0xFF, DRI, 0, 4] + Be16(ri) == Upto(list, 6) + SegmentBytes(list[6]);
  }
}
