/** The regenerated file read by the book: Annex B of ITU-T T.81, field by field, with a reader of its own. */
module JpegSyntax {
  import opened Bytes
  import opened Huffman
  import P = JpegHeaders

  // ----- marker segments (B.1.1.4)

  /** A marker segment: the marker's second byte, the parameters behind the length field, and where it ends. */
  datatype Marked = Marked(code: byte, params: bytes, next: nat)

  function SegmentAt(j: bytes, i: nat): Option<Marked> {
    if i + 4 > |j| || j[i] != 0xFF then None
    else
      var len := j[i + 2] as int * 256 + j[i + 3];
      if len < 2 || i + 2 + len > |j| then None
      else Some(Marked(j[i + 1], j[i + 4..i + 2 + len], i + 2 + len))
  }

  /** The marker segments from `i` up to and with the scan header, and where the scan starts. */
  function SegmentsFrom(j: bytes, i: nat): (seq<Marked>, nat)
    requires i <= |j|
    decreases |j| - i
  {
    match SegmentAt(j, i)
    case None => ([], i)
    case Some(m) =>
      if m.code == 0xDA then ([m], m.next)
      else
        var (rest, at) := SegmentsFrom(j, m.next);
        ([m] + rest, at)
  }

  // ----- parameters (B.2.2, B.2.3, B.2.4)

  /** One component of a frame header: its identifier, sampling factors and quantization table. */
  datatype Component = Component(id: byte, h: byte, v: byte, tq: byte)

  datatype FrameHeader = FrameHeader(precision: byte, lines: nat, samples: nat, components: seq<Component>)

  function ReadComponents(p: bytes, n: nat): seq<Component>
    requires |p| == 3 * n
  {
    if n == 0 then [] else [Component(p[0], p[1] / 16, p[1] % 16, p[2])] + ReadComponents(p[3..], n - 1)
  }

  function ReadFrameHeader(p: bytes): Option<FrameHeader> {
    if |p| < 6 || |p| != 6 + 3 * p[5] as int then None
    else
      Some(FrameHeader(p[0], p[1] as int * 256 + p[2], p[3] as int * 256 + p[4], ReadComponents(p[6..], p[5])))
  }

  /** One component of a scan header: which it is, and its DC and AC tables. */
  datatype Selector = Selector(id: byte, td: byte, ta: byte)

  datatype ScanHeader = ScanHeader(selectors: seq<Selector>, ss: byte, se: byte, ah: byte, al: byte)

  function ReadSelectors(p: bytes, n: nat): seq<Selector>
    requires |p| == 2 * n
  {
    if n == 0 then [] else [Selector(p[0], p[1] / 16, p[1] % 16)] + ReadSelectors(p[2..], n - 1)
  }

  function ReadScanHeader(p: bytes): Option<ScanHeader> {
    if |p| < 1 || |p| != 4 + 2 * p[0] as int then None
    else
      var n: nat := p[0];
      var t := p[1 + 2 * n..];
      Some(ScanHeader(ReadSelectors(p[1..1 + 2 * n], n), t[0], t[1], t[2] / 16, t[2] % 16))
  }

  /** A quantization table: element precision, identifier and 64 elements in zig-zag order. */
  datatype Quantization = Quantization(pq: byte, tq: byte, elements: bytes)

  function ReadQuantizations(p: bytes): Option<seq<Quantization>> {
    if p == [] then Some([])
    else if |p| < 65 then None
    else
      match ReadQuantizations(p[65..])
      case None => None
      case Some(rest) => Some([Quantization(p[0] / 16, p[0] % 16, p[1..65])] + rest)
  }

  /** A Huffman table: class (0 is DC, 1 is AC), identifier, numbers of codes by length, and their values. */
  datatype Coding = Coding(tc: byte, th: byte, lengths: bytes, values: bytes)

  /** One table to a segment. */
  function ReadCoding(p: bytes): Option<Coding> {
    if |p| < 17 || |p| != 17 + Sum(p[1..17]) then None else Some(Coding(p[0] / 16, p[0] % 16, p[1..17], p[17..]))
  }

  // ----- the printed file, read

  function Markers(list: seq<P.Segment>, i: nat): seq<Marked>
    requires P.Fits(list)
  {
    if list == [] then []
    else
      var to := i + 4 + |list[0].body|;
      [Marked(list[0].marker, list[0].body, to)] + Markers(list[1..], to)
  }

  lemma {:induction false} OneSegment(j: bytes, i: nat, s: P.Segment)
    requires |s.body| <= 65533 && i + 4 + |s.body| <= |j| && j[i..i + 4 + |s.body|] == P.SegmentBytes(s)
    ensures SegmentAt(j, i) == Some(Marked(s.marker, s.body, i + 4 + |s.body|))
  {
    var w, len := j[i..i + 4 + |s.body|], |s.body| + 2;
    assert w[0] == 0xFF && w[1] == s.marker && w[2] == len / 256 && w[3] == len % 256;
    assert j[i] == w[0] && j[i + 1] == w[1] && j[i + 2] == w[2] && j[i + 3] == w[3];
    assert j[i + 4..i + 4 + |s.body|] == w[4..] == s.body;
  }

  lemma {:induction false} InTwo(j: bytes, i: nat, a: bytes, b: bytes)
    requires i + |a| + |b| <= |j| && j[i..i + |a| + |b|] == a + b
    ensures j[i..i + |a|] == a && j[i + |a|..i + |a| + |b|] == b
  {
    var w := j[i..i + |a| + |b|];
    assert w[..|a|] == a && w[|a|..] == b;
  }

  /** A printed list of segments is read back as that list. */
  lemma {:induction false} ListRead(j: bytes, i: nat, list: seq<P.Segment>)
    requires P.Fits(list) && forall k :: 0 <= k < |list| ==> list[k].marker != 0xDA
    requires i + |P.AllBytes(list)| <= |j| && j[i..i + |P.AllBytes(list)|] == P.AllBytes(list)
    ensures var at := i + |P.AllBytes(list)|;
            SegmentsFrom(j, i) == (Markers(list, i) + SegmentsFrom(j, at).0, SegmentsFrom(j, at).1)
    decreases |list|
  {
    hide P.SegmentBytes, SegmentAt, SegmentsFrom, Markers, P.AllBytes;
    NoMarkers(i);
    if list == [] {
      assert [] + SegmentsFrom(j, i).0 == SegmentsFrom(j, i).0;
    } else {
      var s, rest := list[0], list[1..];
      var n, tail := 4 + |s.body|, P.AllBytes(list[1..]);
      P.AllBytesStep(list);
      InTwo(j, i, P.SegmentBytes(s), tail);
      OneSegment(j, i, s);
      ListRead(j, i + n, rest);
      SegmentsStep(j, i);
      assert list == [s] + rest;
      MarkersCons(s, rest, i);
      var one, x, y := [Marked(s.marker, s.body, i + n)], Markers(rest, i + n), SegmentsFrom(j, i + n + |tail|).0;
      assert one + (x + y) == (one + x) + y;
    }
  }

  lemma {:induction false} NoMarkers(i: nat)
    ensures Markers([], i) == [] && P.AllBytes([]) == []
  {
  }

  lemma {:induction false} SegmentsStep(j: bytes, i: nat)
    requires i <= |j| && SegmentAt(j, i).Some? && SegmentAt(j, i).value.code != 0xDA
    ensures var m := SegmentAt(j, i).value;
            m.next <= |j| && SegmentsFrom(j, i) == ([m] + SegmentsFrom(j, m.next).0, SegmentsFrom(j, m.next).1)
  {
  }

  lemma {:induction false} ScanHeaderThere(j: bytes, i: nat, scan: bytes)
    requires i <= |j| && j[i..] == P.SOS_BYTES + scan + [0xFF, 0xD9]
    ensures SegmentsFrom(j, i) == ([Marked(0xDA, P.SOS_BYTES[4..], i + 14)], i + 14)
    ensures j[i + 14..] == scan + [0xFF, 0xD9]
  {
    var w := j[i..];
    assert |P.SOS_BYTES| == 14 && P.SOS_BYTES[..4] == [0xFF, 0xDA, 0, 12];
    assert w[..14] == P.SOS_BYTES;
    assert j[i] == w[0] && j[i + 1] == w[1] && j[i + 2] == w[2] && j[i + 3] == w[3];
    assert j[i + 4..i + 14] == w[4..14] == P.SOS_BYTES[4..];
    assert j[i + 14..] == w[14..];
  }

  /** The segments of the file the receiver puts together: the header segments in their order, the scan header behind
      them, and then the scan up to the end of image. */
  lemma {:induction false} FileSegments(width: u16, height: u16, kind: byte, restart: Option<u16>, qtables: seq<bytes>,
                                        scan: bytes)
    requires P.Printable(width, height, kind, qtables)
    ensures var j := P.File(width, height, kind, restart, qtables, scan);
            var list := P.HeaderSegments(width, height, kind, restart, qtables);
            && P.Fits(list) && |j| >= 2 && j[..2] == [0xFF, 0xD8]
            && var (segments, at) := SegmentsFrom(j, 2);
               && at == |P.Headers(width, height, kind, restart, qtables)| <= |j|
               && segments == Markers(list, 2) + [Marked(0xDA, P.SOS_BYTES[4..], at)]
               && j[at..] == scan + [0xFF, 0xD9]
  {
    hide P.HeaderSegments, P.AllBytes, SegmentsFrom, P.SOS_BYTES;
    P.SegmentsFit(width, height, kind, restart, qtables);
    var list := P.HeaderSegments(width, height, kind, restart, qtables);
    var j, mid := P.File(width, height, kind, restart, qtables, scan), P.AllBytes(list);
    assert j == [0xFF, 0xD8] + mid + (P.SOS_BYTES + scan + [0xFF, 0xD9]);
    assert j[2..2 + |mid|] == mid && j[2 + |mid|..] == P.SOS_BYTES + scan + [0xFF, 0xD9];
    ListRead(j, 2, list);
    ScanHeaderThere(j, 2 + |mid|, scan);
    SosLen();
  }

  lemma {:induction false} SosLen()
    ensures |P.SOS_BYTES| == 14
  {
  }

  // ----- what the parameters say

  lemma {:induction false} SofRead(width: u16, height: u16, kind: byte, tables: nat)
    ensures var f := ReadFrameHeader(P.SofBody(width, height, kind, tables));
            var tq: byte := if tables > 1 then 1 else 0;
            f == Some(FrameHeader(8, height, width, [Component(1, 2, if kind == 0 then 1 else 2, 0),
                                                     Component(2, 1, 1, tq), Component(3, 1, 1, tq)]))
  {
    hide P.SofBody, ReadComponents;
    SofBytes(width, height, kind, tables);
    ThreeComponents(1, if kind == 0 then 0x21 else 0x22, 0, 2, 0x11, if tables > 1 then 1 else 0, 3, 0x11,
                    if tables > 1 then 1 else 0);
  }

  lemma {:induction false} SofBytes(width: u16, height: u16, kind: byte, tables: nat)
    ensures var p := P.SofBody(width, height, kind, tables);
            var tq: byte := if tables > 1 then 1 else 0;
            && p[0] == 8 && p[1] as int * 256 + p[2] == height && p[3] as int * 256 + p[4] == width && p[5] == 3
            && p[6..] == [1, if kind == 0 then 0x21 else 0x22, 0, 2, 0x11, tq, 3, 0x11, tq]
  {
    Be16RoundTrip(height);
    Be16RoundTrip(width);
    hide Be16;
    var p, h, w := P.SofBody(width, height, kind, tables), Be16(height), Be16(width);
    assert p[1] == h[0] && p[2] == h[1] && p[3] == w[0] && p[4] == w[1];
  }

  lemma {:induction false} ThreeComponents(a: byte, b: byte, c: byte, d: byte, e: byte, f: byte, g: byte, h: byte, i: byte)
    ensures ReadComponents([a, b, c, d, e, f, g, h, i], 3) ==
            [Component(a, b / 16, b % 16, c), Component(d, e / 16, e % 16, f), Component(g, h / 16, h % 16, i)]
  {
    var all, two, one := [a, b, c, d, e, f, g, h, i], [d, e, f, g, h, i], [g, h, i];
    assert all[3..] == two && two[3..] == one && one[3..] == [];
    assert ReadComponents(one, 1) == [Component(g, h / 16, h % 16, i)] + ReadComponents([], 0);
    assert ReadComponents(two, 2) == [Component(d, e / 16, e % 16, f)] + ReadComponents(one, 1);
  }

  lemma {:induction false} SosRead()
    ensures ReadScanHeader(P.SOS_BYTES[4..]) ==
            Some(ScanHeader([Selector(1, 0, 0), Selector(2, 1, 1), Selector(3, 1, 1)], 0, 63, 0, 0))
  {
    var p := P.SOS_BYTES[4..];
    assert p == [3, 1, 0x00, 2, 0x11, 3, 0x11, 0, 63, 0];
    assert p[1..7] == [1, 0x00, 2, 0x11, 3, 0x11] && p[7..] == [0, 63, 0];
    ThreeSelectors(1, 0x00, 2, 0x11, 3, 0x11);
  }

  lemma {:induction false} ThreeSelectors(a: byte, b: byte, c: byte, d: byte, e: byte, f: byte)
    ensures ReadSelectors([a, b, c, d, e, f], 3) ==
            [Selector(a, b / 16, b % 16), Selector(c, d / 16, d % 16), Selector(e, f / 16, f % 16)]
  {
    var all, two, one := [a, b, c, d, e, f], [c, d, e, f], [e, f];
    assert all[2..] == two && two[2..] == one && one[2..] == [];
    assert ReadSelectors(one, 1) == [Selector(e, f / 16, f % 16)] + ReadSelectors([], 0);
    assert ReadSelectors(two, 2) == [Selector(c, d / 16, d % 16)] + ReadSelectors(one, 1);
  }

  lemma {:induction false} DqtRead(qtables: seq<bytes>)
    requires 1 <= |qtables| <= 2 && forall k :: 0 <= k < |qtables| ==> |qtables[k]| == 64
    ensures ReadQuantizations(P.DqtBody(qtables, 0)) ==
            Some([Quantization(0, 0, qtables[0])] + if |qtables| == 2 then [Quantization(0, 1, qtables[1])] else [])
  {
    hide ReadQuantizations;
    NoQuantization();
    OneQuantization(0, qtables[0], P.DqtBody(qtables[1..], 1));
    assert P.DqtBody(qtables, 0) == [0] + qtables[0] + P.DqtBody(qtables[1..], 1);
    if |qtables| == 2 {
      OneQuantization(1, qtables[1], []);
      assert qtables[1..][1..] == [] && P.DqtBody(qtables[1..], 1) == [1] + qtables[1] + [];
      assert [Quantization(0, 1, qtables[1])] + [] == [Quantization(0, 1, qtables[1])];
    } else {
      assert qtables[1..] == [];
    }
  }

  lemma {:induction false} NoQuantization()
    ensures ReadQuantizations([]) == Some([])
  {
  }

  lemma {:induction false} OneQuantization(id: byte, table: bytes, rest: bytes)
    requires id < 16 && |table| == 64
    ensures ReadQuantizations([id] + table + rest) ==
            match ReadQuantizations(rest)
            case None => None
            case Some(more) => Some([Quantization(0, id, table)] + more)
  {
    var p := [id] + table + rest;
    assert p[1..65] == table && p[65..] == rest;
  }

  lemma {:induction false} DhtRead(t: Table)
    requires |t.codelens| == 16 && Sum(t.codelens) == |t.symbols|
    ensures ReadCoding(DhtBody(t)) == Some(Coding(t.classId / 16, t.classId % 16, t.codelens, t.symbols))
  {
    hide Sum;
    var p := DhtBody(t);
    assert p[1..17] == t.codelens && p[17..] == t.symbols;
  }

  /** The DC and the AC table a decoder uses for a selector: the last one defined with that class and identifier. */
  function TableUsed(codings: seq<Coding>, tc: byte, th: byte): Option<Coding> {
    if codings == [] then None
    else
      var last := codings[|codings| - 1];
      if last.tc == tc && last.th == th then Some(last) else TableUsed(codings[..|codings| - 1], tc, th)
  }

  function AsCoding(tc: byte, th: byte, t: Table): Coding {
    Coding(tc, th, t.codelens, t.symbols)
  }

  /** The codings a file defines, in order; a segment that is no Huffman table adds none. */
  function Codings(segments: seq<Marked>): seq<Coding> {
    if segments == [] then []
    else
      (if segments[0].code == 0xC4 && ReadCoding(segments[0].params).Some?
       then [ReadCoding(segments[0].params).value] else []) + Codings(segments[1..])
  }

  lemma {:induction false} FourUsed(a: Coding, b: Coding, c: Coding, d: Coding)
    requires a.tc == 0 && a.th == 0 && b.tc == 1 && b.th == 0 && c.tc == 0 && c.th == 1 && d.tc == 1 && d.th == 1
    ensures var all := [a, b, c, d];
            && TableUsed(all, 0, 0) == Some(a) && TableUsed(all, 1, 0) == Some(b)
            && TableUsed(all, 0, 1) == Some(c) && TableUsed(all, 1, 1) == Some(d)
  {
    assert [a, b, c, d][..3] == [a, b, c] && [a, b, c][..2] == [a, b] && [a, b][..1] == [a];
    assert TableUsed([a, b], 0, 0) == TableUsed([a], 0, 0) == Some(a);
    assert TableUsed([a, b, c], 0, 0) == Some(a) && TableUsed([a, b, c], 1, 0) == TableUsed([a, b], 1, 0);
  }

  lemma {:induction false} MarkersCons(s: P.Segment, list: seq<P.Segment>, i: nat)
    requires P.Fits(list) && |s.body| <= 65533
    ensures P.Fits([s] + list)
    ensures Markers([s] + list, i) ==
            [Marked(s.marker, s.body, i + 4 + |s.body|)] + Markers(list, i + 4 + |s.body|)
  {
    assert ([s] + list)[1..] == list;
  }

  lemma {:induction false} MarkersAt(list: seq<P.Segment>, i: nat, k: nat)
    requires P.Fits(list) && k < |list|
    ensures |Markers(list, i)| == |list|
    ensures Markers(list, i)[k].code == list[k].marker && Markers(list, i)[k].params == list[k].body
    decreases |list|
  {
    if k > 0 {
      MarkersAt(list[1..], i + 4 + |list[0].body|, k - 1);
    } else if |list| > 1 {
      MarkersAt(list[1..], i + 4 + |list[0].body|, 0);
    }
  }

  lemma {:induction false} DhtsRead()
    ensures ReadCoding(DhtBody(LUM_DC)) == Some(AsCoding(0, 0, LUM_DC))
    ensures ReadCoding(DhtBody(LUM_AC)) == Some(AsCoding(1, 0, LUM_AC))
    ensures ReadCoding(DhtBody(CHM_DC)) == Some(AsCoding(0, 1, CHM_DC))
    ensures ReadCoding(DhtBody(CHM_AC)) == Some(AsCoding(1, 1, CHM_AC))
  {
    hide DhtBody, ReadCoding, Sum;
    TablesWellFormed();
    DhtRead(LUM_DC);
    DhtRead(LUM_AC);
    DhtRead(CHM_DC);
    DhtRead(CHM_AC);
  }

  /** The book's reading of a file the receiver puts together. Its segments are DQT, SOF0, four DHT, DRI if there is a
      restart interval, and SOS. The frame is of 8 bits and of the size given, with components 1, 2 and 3, the first
      sampled 2 by 1 for kind 0 and 2 by 2 for kind 1 and quantized by table 0, the others sampled once and quantized by
      the last table given. The tables defined are those given, 0 and 1. The scan holds the same three components from
      coefficient 0 to 63, the first coded by the luminance DC and AC tables of Annex K and the others by the chrominance
      ones: those are the tables defined under the classes and identifiers it names. */
  lemma {:induction false} HeadersByTheBook(width: u16, height: u16, kind: byte, restart: Option<u16>, qtables: seq<bytes>,
                                            scan: bytes)
    requires P.Printable(width, height, kind, qtables)
    ensures var segments := SegmentsFrom(P.File(width, height, kind, restart, qtables, scan), 2).0;
            var n := |segments|;
            var tq: byte := |qtables| - 1;
            && n == (if restart.Some? then 8 else 7)
            && segments[0].code == 0xDB && segments[1].code == 0xC0
            && segments[2].code == segments[3].code == segments[4].code == segments[5].code == 0xC4
            && (restart.Some? ==> segments[6].code == 0xDD && segments[6].params == Be16(restart.value))
            && segments[n - 1].code == 0xDA
            && ReadFrameHeader(segments[1].params) ==
               Some(FrameHeader(8, height, width, [Component(1, 2, if kind == 0 then 1 else 2, 0),
                                                   Component(2, 1, 1, tq), Component(3, 1, 1, tq)]))
            && ReadQuantizations(segments[0].params) ==
               Some([Quantization(0, 0, qtables[0])] + if |qtables| == 2 then [Quantization(0, 1, qtables[1])] else [])
            && ReadScanHeader(segments[n - 1].params) ==
               Some(ScanHeader([Selector(1, 0, 0), Selector(2, 1, 1), Selector(3, 1, 1)], 0, 63, 0, 0))
    ensures var codings := Codings(SegmentsFrom(P.File(width, height, kind, restart, qtables, scan), 2).0);
            && |codings| == 4
            && TableUsed(codings, 0, 0) == Some(AsCoding(0, 0, LUM_DC))
            && TableUsed(codings, 1, 0) == Some(AsCoding(1, 0, LUM_AC))
            && TableUsed(codings, 0, 1) == Some(AsCoding(0, 1, CHM_DC))
            && TableUsed(codings, 1, 1) == Some(AsCoding(1, 1, CHM_AC))
  {
    hide SegmentsFrom, P.File, P.Headers, ReadFrameHeader, ReadQuantizations, ReadScanHeader, ReadCoding, DhtBody, P.DqtBody;
    hide P.SofBody, Markers, P.SOS_BYTES, LUM_DC, LUM_AC, CHM_DC, CHM_AC, P.Printable, TableUsed, Codings;
    P.PrintableIs(width, height, kind, qtables);
    FileSegments(width, height, kind, restart, qtables, scan);
    var list := P.HeaderSegments(width, height, kind, restart, qtables);
    var segments := SegmentsFrom(P.File(width, height, kind, restart, qtables, scan), 2).0;
    MarkersAt(list, 2, 0);
    MarkersAt(list, 2, 1);
    MarkersAt(list, 2, 2);
    MarkersAt(list, 2, 3);
    MarkersAt(list, 2, 4);
    MarkersAt(list, 2, 5);
    if restart.Some? {
      MarkersAt(list, 2, 6);
    }
    SofRead(width, height, kind, |qtables|);
    DqtRead(qtables);
    SosRead();
    DhtsRead();
    FourCodings(segments);
    FourUsed(AsCoding(0, 0, LUM_DC), AsCoding(1, 0, LUM_AC), AsCoding(0, 1, CHM_DC), AsCoding(1, 1, CHM_AC));
  }

  /** Only segments 2 to 5 define codings. */
  lemma {:induction false} FourCodings(segments: seq<Marked>)
    requires 7 <= |segments| <= 8 && segments[0].code != 0xC4 && segments[1].code != 0xC4
    requires forall k :: 2 <= k < 6 ==> segments[k].code == 0xC4 && ReadCoding(segments[k].params).Some?
    requires forall k :: 6 <= k < |segments| ==> segments[k].code != 0xC4
    ensures Codings(segments) == [ReadCoding(segments[2].params).value, ReadCoding(segments[3].params).value,
                                  ReadCoding(segments[4].params).value, ReadCoding(segments[5].params).value]
  {
    hide ReadCoding, Codings;
    var s := segments;
    CodingsFrom(s, 6);
    CodingsFrom(s, 7);
    CodingsFrom(s, 8);
    CodingsFrom(s, 5);
    CodingsFrom(s, 4);
    CodingsFrom(s, 3);
    CodingsFrom(s, 2);
    CodingsFrom(s, 1);
    CodingsFrom(s, 0);
    assert s[0..] == s;
  }

  lemma {:induction false} CodingsFrom(s: seq<Marked>, k: nat)
    ensures k >= |s| ==> Codings(s[|s|..]) == []
    ensures k < |s| ==>
              Codings(s[k..]) ==
              (if s[k].code == 0xC4 && ReadCoding(s[k].params).Some? then [ReadCoding(s[k].params).value] else []) +
              Codings(s[k + 1..])
  {
    hide ReadCoding;
    if k < |s| {
      assert s[k..][1..] == s[k + 1..];
    }
  }
}
