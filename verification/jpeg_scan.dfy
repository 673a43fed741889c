/** Taking a baseline JPEG apart, as far as RFC 2435 needs it. */
module JpegFile {
  import opened Bytes
  import Huffman

  const DQT: byte := 0xDB
  const SOF0: byte := 0xC0
  const DHT: byte := 0xC4
  const DRI: byte := 0xDD
  const SOS: byte := 0xDA
  const EOI: byte := 0xD9

  /** `kind` is the RFC 2435 type (0 = 4:2:2, 1 = 4:2:0, +64 with restart markers);
      `qtables` always has two entries, the undefined ones empty. */
  datatype JpegScan = JpegScan(width: u16, height: u16, kind: byte, restart: Option<u16>,
                               qtables: seq<bytes>, qcount: nat, scan: bytes)

  datatype Dims = Dims(width: u16, height: u16, kind: byte)

  /** What the segments read so far have said. */
  datatype Tables = Tables(qtables: seq<bytes>, qcount: nat, dims: Option<Dims>, restart: Option<u16>)

  const NOTHING := Tables([[], []], 0, None, None)

  /** The marker carries no segment. */
  predicate IsStandalone(marker: byte) {
    marker == 0x01 || 0xD0 <= marker <= 0xD7
  }

  /** Past the fill bytes at `i`. */
  function SkipFill(j: bytes, i: nat): (k: nat)
    requires i <= |j|
    ensures i <= k <= |j|
    decreases |j| - i
  {
    if i < |j| && j[i] == 0xFF then SkipFill(j, i + 1) else i
  }

  /** A DQT segment: one or more 8-bit tables, each with its index. */
  function ReadDqt(s: bytes, t: Tables): (r: Result<Tables>)
    requires |t.qtables| == 2
    ensures r.Ok? ==> |r.value.qtables| == 2
  {
    if s == [] then Ok(t)
    else
      var tq := s[0] % 16;
      if s[0] / 16 != 0 || |s| < 65 || tq > 1 then Err(Unsupported)
      else ReadDqt(s[65..], t.(qtables := t.qtables[tq := s[1..65]], qcount := Max(t.qcount, tq + 1)))
  }

  /** A baseline frame header. */
  function ReadSof(seg: bytes): Result<Dims> {
    if |seg| < 6 || seg[0] != 8 || seg[5] != 3 then Err(Unsupported)
    else
      var h, w := FromBe16(seg[1], seg[2]), FromBe16(seg[3], seg[4]);
      if w == 0 || h == 0 || w % 8 != 0 || h % 8 != 0 || w > 2040 || h > 2040 then Err(Unsupported)
      else if |seg| <= 7 then Err(InvalidFormat)
      else if seg[7] == 0x21 then Ok(Dims(w, h, 0))
      else if seg[7] == 0x22 then Ok(Dims(w, h, 1))
      else Err(Unsupported)
  }

  /** A DHT segment is accepted when every table in it is an Annex K table. */
  function CheckDht(s: bytes): Result<()> {
    if s == [] then Ok(())
    else if |s| < 17 then Err(InvalidFormat)
    else
      match Huffman.TableFor(s[0])
      case None => Err(Unsupported)
      case Some(expected) =>
        var nsym := Huffman.Sum(s[1..17]);
        if 17 + nsym > |s| then Err(InvalidFormat)
        else if s[1..17] != expected.codelens || s[17..17 + nsym] != expected.symbols then Err(Unsupported)
        else CheckDht(s[17 + nsym..])
  }

  /** What one segment before the scan contributes. */
  function ReadSegment(marker: byte, seg: bytes, t: Tables): (r: Result<Tables>)
    requires |t.qtables| == 2
    ensures r.Ok? ==> |r.value.qtables| == 2
  {
    if marker == DQT then ReadDqt(seg, t)
    else if marker == 0xC0 || marker == 0xC1 then
      var d :- ReadSof(seg);
      Ok(t.(dims := Some(d)))
    else if 0xC2 <= marker <= 0xCF && marker != DHT && marker != 0xC8 && marker != 0xCC then Err(Unsupported)
    else if marker == DHT then
      var _ :- CheckDht(seg);
      Ok(t)
    else if marker == DRI then
      if |seg| < 2 then Err(InvalidFormat) else Ok(t.(restart := Some(FromBe16(seg[0], seg[1]))))
    else if marker == EOI then Err(InvalidFormat)
    else Ok(t)
  }

  /** Just past the last `FF D9` of `j[..end]`; below 2 when there is none. */
  function AfterLastEoi(j: bytes, end: nat): (e: nat)
    requires end <= |j|
    ensures e <= end
  {
    if end >= 2 && !(j[end - 2] == 0xFF && j[end - 1] == EOI) then AfterLastEoi(j, end - 1) else end
  }

  predicate IsEoi(j: bytes, e: nat) {
    2 <= e <= |j| && j[e - 2] == 0xFF && j[e - 1] == EOI
  }

  predicate IsLastEoi(j: bytes, e: nat) {
    IsEoi(j, e) && forall k :: e < k <= |j| ==> !IsEoi(j, k)
  }

  /** What the walk from the back finds is an end marker with none behind it; it finds nothing only when there is none. */
  lemma {:induction false} EoiFound(j: bytes, end: nat)
    requires end <= |j|
    ensures var e := AfterLastEoi(j, end);
            (e >= 2 ==> IsEoi(j, e)) && forall k :: e < k <= end ==> !IsEoi(j, k)
  {
    if end >= 2 && !(j[end - 2] == 0xFF && j[end - 1] == EOI) {
      EoiFound(j, end - 1);
    }
  }

  /** The scan header closes the tables: what follows, up to the last `FF D9`, is the scan. */
  function ReadScan(j: bytes, scanStart: nat, t: Tables): Result<JpegScan> {
    if t.dims == None || t.qcount == 0 then Err(InvalidFormat)
    else
      var d, end := t.dims.value, AfterLastEoi(j, |j|);
      if end < 2 || end - 2 < scanStart then Err(InvalidFormat)
      else
        var kind := if t.restart.Some? then d.kind as int + 64 else d.kind;
        Ok(JpegScan(d.width, d.height, kind % 256, t.restart, t.qtables, t.qcount, j[scanStart..end - 2]))
  }

  /** A scan runs from its header to the last end marker of the file, wherever that is; without one there, or without
      tables and dimensions, there is none. */
  lemma {:induction false} ScanEndsAtLastEoi(j: bytes, scanStart: nat, t: Tables, scan: bytes)
    ensures ReadScan(j, scanStart, t).Ok? && ReadScan(j, scanStart, t).value.scan == scan <==>
            && t.dims.Some? && t.qcount > 0
            && exists e: nat :: IsLastEoi(j, e) && scanStart <= e - 2 && scan == j[scanStart..e - 2]
  {
    hide AfterLastEoi;
    EoiFound(j, |j|);
    var e := AfterLastEoi(j, |j|);
    if ReadScan(j, scanStart, t).Ok? {
      assert IsLastEoi(j, e);
    }
  }

  /** The rest of the file from `i` on, given what came before. */
  function ParseFrom(j: bytes, i: nat, t: Tables): Result<JpegScan>
    requires i <= |j|
    requires |t.qtables| == 2
    decreases |j| - i
  {
    var k := SkipFill(j, i);
    if k == |j| then Err(InvalidFormat)
    else if IsStandalone(j[k]) then ParseFrom(j, k + 1, t)
    else if k + 3 > |j| then Err(InvalidFormat)
    else
      var at, len := k + 1, FromBe16(j[k + 1], j[k + 2]);
      if len < 2 || at + len > |j| then Err(InvalidFormat)
      else if j[k] == SOS then ReadScan(j, at + len, t)
      else
        var t' :- ReadSegment(j[k], j[at + 2..at + len], t);
        ParseFrom(j, at + len, t')
  }

  function Parse(j: bytes): Result<JpegScan> {
    if |j| < 4 || j[0] != 0xFF || j[1] != 0xD8 then Err(InvalidFormat)
    else ParseFrom(j, 2, NOTHING)
  }

  // ----- which Huffman segments are accepted

  lemma {:induction false} CheckDhtThen(t: Huffman.Table, rest: bytes)
    requires Huffman.WellFormed(t)
    ensures CheckDht(Huffman.DhtBody(t) + rest) == CheckDht(rest)
  {
    var s := Huffman.DhtBody(t) + rest;
    assert s[1..17] == t.codelens;
    assert s[17..17 + |t.symbols|] == t.symbols;
    assert s[17 + |t.symbols|..] == rest;
  }

  lemma {:induction false} CheckDhtBodies(tables: seq<Huffman.Table>)
    requires Huffman.AnnexK(tables)
    ensures CheckDht(Huffman.DhtBodies(tables)) == Ok(())
  {
    hide Huffman.DhtBody, Huffman.WellFormed, CheckDht;
    if tables == [] {
      NoTables();
    } else {
      Huffman.TablesWellFormed();
      CheckDhtThen(tables[0], Huffman.DhtBodies(tables[1..]));
      CheckDhtBodies(tables[1..]);
    }
  }

  lemma {:induction false} NoTables()
    ensures CheckDht([]) == Ok(())
  {
  }

  lemma {:induction false} TableForIs(classId: byte)
    requires Huffman.TableFor(classId).Some?
    ensures Huffman.TableFor(classId).value in Huffman.ALL && Huffman.TableFor(classId).value.classId == classId
  {
  }

  lemma {:induction false} FirstTable(s: bytes)
    requires s != [] && CheckDht(s) == Ok(())
    ensures Huffman.TableFor(s[0]).Some?
    ensures var t := Huffman.TableFor(s[0]).value;
            var n := |Huffman.DhtBody(t)|;
            t in Huffman.ALL && 0 < n <= |s| && s == Huffman.DhtBody(t) + s[n..] && CheckDht(s[n..]) == Ok(())
  {
    hide Huffman.TableFor, Huffman.Sum;
    TableForIs(s[0]);
    FrontIs(s, Huffman.TableFor(s[0]).value, Huffman.Sum(s[1..17]));
  }

  lemma {:induction false} FrontIs(s: bytes, t: Huffman.Table, nsym: nat)
    requires 17 + nsym <= |s| && s[0] == t.classId && s[1..17] == t.codelens && s[17..17 + nsym] == t.symbols
    ensures |Huffman.DhtBody(t)| == 17 + nsym && s == Huffman.DhtBody(t) + s[17 + nsym..]
  {
    assert s == [s[0]] + s[1..17] + s[17..17 + nsym] + s[17 + nsym..];
  }

  lemma {:induction false} TablesCons(t: Huffman.Table, more: seq<Huffman.Table>)
    requires t in Huffman.ALL && Huffman.AnnexK(more)
    ensures Huffman.AnnexK([t] + more) && Huffman.DhtBodies([t] + more) == Huffman.DhtBody(t) + Huffman.DhtBodies(more)
  {
    hide Huffman.DhtBody;
    var known := Huffman.ALL;
    forall k | 0 <= k < |[t] + more| ensures ([t] + more)[k] in known {
      if k > 0 {
        assert more[k - 1] in known;
      }
    }
    assert ([t] + more)[1..] == more;
  }

  lemma {:induction false} TablesOf(s: bytes) returns (tables: seq<Huffman.Table>)
    requires CheckDht(s) == Ok(())
    ensures Huffman.AnnexK(tables) && s == Huffman.DhtBodies(tables)
    decreases |s|
  {
    hide CheckDht, Huffman.DhtBody, Huffman.AnnexK, Huffman.TableFor;
    if s == [] {
      tables := [];
      NoneKnown();
    } else {
      FirstTable(s);
      var t := Huffman.TableFor(s[0]).value;
      var more := TablesOf(s[|Huffman.DhtBody(t)|..]);
      TablesCons(t, more);
      tables := [t] + more;
    }
  }

  lemma {:induction false} NoneKnown()
    ensures Huffman.AnnexK([])
  {
  }

  /** A Huffman segment is accepted if and only if it is a list of Annex K tables, each written out whole. */
  lemma {:induction false} DhtAcceptedExactly(s: bytes)
    ensures CheckDht(s) == Ok(()) <==>
            exists tables: seq<Huffman.Table> :: Huffman.AnnexK(tables) && s == Huffman.DhtBodies(tables)
  {
    hide CheckDht, Huffman.DhtBody;
    if CheckDht(s) == Ok(()) {
      var tables := TablesOf(s);
    }
    if exists tables: seq<Huffman.Table> :: Huffman.AnnexK(tables) && s == Huffman.DhtBodies(tables) {
      var tables: seq<Huffman.Table> :| Huffman.AnnexK(tables) && s == Huffman.DhtBodies(tables);
      CheckDhtBodies(tables);
    }
  }

  // ----- the loops

  method ReadDqtLoop(seg: bytes, t: Tables) returns (r: Result<Tables>)
    requires |t.qtables| == 2
    ensures r == ReadDqt(seg, t)
  {
    var s, qtables := seg, t.qtables;
    var qcount: nat := t.qcount;
    while s != []
      invariant |qtables| == 2
      invariant ReadDqt(seg, t) == ReadDqt(s, t.(qtables := qtables, qcount := qcount))
      decreases |s|
    {
      var pq, tq := s[0] / 16, s[0] % 16;
      if pq != 0 || |s| < 65 || tq > 1 {
        return Err(Unsupported);
      }
      qtables := qtables[tq := s[1..65]];
      qcount := Max(qcount, tq + 1);
      s := s[65..];
    }
    return Ok(t.(qtables := qtables, qcount := qcount));
  }

  method CheckDhtLoop(seg: bytes) returns (r: Result<()>)
    ensures r == CheckDht(seg)
    ensures r == Ok(()) <==>
            exists tables: seq<Huffman.Table> :: Huffman.AnnexK(tables) && seg == Huffman.DhtBodies(tables)
  {
    hide Huffman.TableFor, Huffman.Sum, Huffman.AnnexK, Huffman.DhtBodies;
    DhtAcceptedExactly(seg);
    var s := seg;
    while s != []
      invariant CheckDht(seg) == CheckDht(s)
      decreases |s|
    {
      if |s| < 17 {
        return Err(InvalidFormat);
      }
      var expected := Huffman.TableFor(s[0]);
      if expected == None {
        return Err(Unsupported);
      }
      var nsym := Huffman.Sum(s[1..17]);
      if 17 + nsym > |s| {
        return Err(InvalidFormat);
      }
      if s[1..17] != expected.value.codelens || s[17..17 + nsym] != expected.value.symbols {
        return Err(Unsupported);
      }
      s := s[17 + nsym..];
    }
    return Ok(());
  }

  method ReadScanLoop(j: bytes, scanStart: nat, t: Tables) returns (r: Result<JpegScan>)
    ensures r == ReadScan(j, scanStart, t)
    ensures r.Ok? <==> t.dims.Some? && t.qcount > 0 && exists e: nat :: IsLastEoi(j, e) && scanStart <= e - 2
    ensures r.Ok? ==> forall e: nat :: IsLastEoi(j, e) ==> scanStart <= e - 2 && r.value.scan == j[scanStart..e - 2]
  {
    EoiFound(j, |j|);
    assert AfterLastEoi(j, |j|) >= 2 ==> IsLastEoi(j, AfterLastEoi(j, |j|));
    if t.dims == None || t.qcount == 0 {
      return Err(InvalidFormat);
    }
    var d := t.dims.value;
    var kind := if t.restart.Some? then d.kind as int + 64 else d.kind;
    var end := |j|;
    while end >= 2 && !(j[end - 2] == 0xFF && j[end - 1] == EOI)
      invariant 0 <= end <= |j| && AfterLastEoi(j, |j|) == AfterLastEoi(j, end)
    {
      end := end - 1;
    }
    if end < 2 || end - 2 < scanStart {
      return Err(InvalidFormat);
    }
    return Ok(JpegScan(d.width, d.height, kind % 256, t.restart, t.qtables, t.qcount, j[scanStart..end - 2]));
  }

  lemma {:induction false} SkipStep(j: bytes, i: nat)
    requires i <= |j|
    ensures SkipFill(j, i) == if i < |j| && j[i] == 0xFF then SkipFill(j, i + 1) else i
  {
  }

  /** One marker, once the fill in front of it is skipped. */
  lemma {:induction false} MarkerStep(j: bytes, i: nat, k: nat, t: Tables)
    requires i <= |j| && |t.qtables| == 2 && SkipFill(j, i) == k
    ensures ParseFrom(j, i, t) ==
            if k == |j| then Err(InvalidFormat)
            else if IsStandalone(j[k]) then ParseFrom(j, k + 1, t)
            else if k + 3 > |j| then Err(InvalidFormat)
            else
              var at, len := k + 1, FromBe16(j[k + 1], j[k + 2]);
              if len < 2 || at + len > |j| then Err(InvalidFormat)
              else if j[k] == SOS then ReadScan(j, at + len, t)
              else
                match ReadSegment(j[k], j[at + 2..at + len], t)
                case Ok(t') => ParseFrom(j, at + len, t')
                case Err(e) => Err(e)
  {
    hide ReadSegment, ReadScan, SkipFill, FromBe16, IsStandalone;
  }

  /** The parser as the source runs it: a cursor over the file. */
  method ParseLoop(j: bytes) returns (r: Result<JpegScan>)
    ensures r == Parse(j)
  {
    hide ReadSegment, ReadScan, ParseFrom, SkipFill, FromBe16, IsStandalone;
    if |j| < 4 || j[0] != 0xFF || j[1] != 0xD8 {
      return Err(InvalidFormat);
    }
    var i, t := 2, NOTHING;
    while true
      invariant i <= |j| && |t.qtables| == 2 && Parse(j) == ParseFrom(j, i, t)
      decreases |j| - i
    {
      ghost var at := i;
      while i < |j| && j[i] == 0xFF
        invariant at <= i <= |j| && SkipFill(j, at) == SkipFill(j, i)
      {
        SkipStep(j, i);
        i := i + 1;
      }
      SkipStep(j, i);
      MarkerStep(j, at, i, t);
      if i == |j| {
        return Err(InvalidFormat);
      }
      var marker := j[i];
      i := i + 1;
      if IsStandalone(marker) {
        continue;
      }
      if i + 2 > |j| {
        return Err(InvalidFormat);
      }
      var len := FromBe16(j[i], j[i + 1]);
      if len < 2 || i + len > |j| {
        return Err(InvalidFormat);
      }
      if marker == SOS {
        r := ReadScanLoop(j, i + len, t);
        return;
      }
      var next := ReadSegmentLoop(marker, j[i + 2..i + len], t);
      if next.Err? {
        return Err(next.error);
      }
      t := next.value;
      i := i + len;
    }
  }

  method ReadSegmentLoop(marker: byte, seg: bytes, t: Tables) returns (r: Result<Tables>)
    requires |t.qtables| == 2
    ensures r == ReadSegment(marker, seg, t)
  {
    hide ReadDqt, CheckDht, ReadSof;
    if marker == DQT {
      r := ReadDqtLoop(seg, t);
    } else if marker == DHT {
      var c := CheckDhtLoop(seg);
      r := if c.Err? then Err(c.error) else Ok(t);
    } else {
      r := ReadSegment(marker, seg, t);
    }
  }
}
