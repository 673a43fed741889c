/** What the JPEG parser steps over and what it refuses, wherever it stands in front of the scan header. */
module JpegInsert {
  import opened Bytes
  import opened JpegFile
  import P = JpegHeaders

  // ----- marker boundaries

  /** Where the parser, at `i`, stands after one marker or marker segment in front of the scan header. Nothing but the
      marker and its length decides that. */
  function StepOver(j: bytes, i: nat): Option<nat>
    requires i <= |j|
  {
    var k := SkipFill(j, i);
    if k == |j| then None
    else if j[k] == 0x01 || 0xD0 <= j[k] <= 0xD7 then Some(k + 1)
    else if k + 3 > |j| then None
    else
      var len := j[k + 1] as int * 256 + j[k + 2];
      if len < 2 || k + 1 + len > |j| || j[k] == 0xDA then None else Some(k + 1 + len)
  }

  /** Stepping from marker to marker from `p` on leads to `i`, in front of the scan header. */
  predicate Boundary(j: bytes, p: nat, i: nat)
    requires p <= |j|
    decreases |j| - p
  {
    p == i ||
    (StepOver(j, p).Some? && p < StepOver(j, p).value <= |j| && Boundary(j, StepOver(j, p).value, i))
  }

  /** What the segments from boundary `p` up to boundary `i` say. */
  function Collected(j: bytes, p: nat, i: nat, t: Tables): (r: Result<Tables>)
    requires p <= |j| && |t.qtables| == 2 && Boundary(j, p, i)
    ensures r.Ok? ==> |r.value.qtables| == 2
    decreases |j| - p
  {
    if p == i then Ok(t)
    else
      var k, next := SkipFill(j, p), StepOver(j, p).value;
      if j[k] == 0x01 || 0xD0 <= j[k] <= 0xD7 then Collected(j, next, i, t)
      else
        var t' :- ReadSegment(j[k], j[k + 3..next], t);
        Collected(j, next, i, t')
  }

  lemma {:induction false} StepsTo(j: bytes, p: nat, t: Tables)
    requires p <= |j| && |t.qtables| == 2 && StepOver(j, p).Some?
    ensures var k, next := SkipFill(j, p), StepOver(j, p).value;
            && k < next <= |j|
            && (j[k] == 0x01 || 0xD0 <= j[k] <= 0xD7 ==> ParseFrom(j, p, t) == ParseFrom(j, next, t))
            && (!(j[k] == 0x01 || 0xD0 <= j[k] <= 0xD7) ==>
                  k + 3 <= next &&
                  ParseFrom(j, p, t) ==
                  match ReadSegment(j[k], j[k + 3..next], t)
                  case Ok(t') => ParseFrom(j, next, t')
                  case Err(e) => Err(e))
  {
    hide ReadSegment, ReadScan, SkipFill;
    MarkerStep(j, p, SkipFill(j, p), t);
  }

  /** The parser walks to the boundary, or fails on the way. */
  lemma {:induction false} ParseToBoundary(j: bytes, p: nat, i: nat, t: Tables)
    requires p <= |j| && |t.qtables| == 2 && Boundary(j, p, i)
    ensures i <= |j|
    ensures ParseFrom(j, p, t) ==
            match Collected(j, p, i, t)
            case Ok(t') => ParseFrom(j, i, t')
            case Err(e) => Err(e)
    decreases |j| - p
  {
    hide ReadSegment, ParseFrom, SkipFill, StepOver;
    BoundaryBelow(j, p, i);
    if p != i {
      StepsTo(j, p, t);
      var k, next := SkipFill(j, p), StepOver(j, p).value;
      if j[k] == 0x01 || 0xD0 <= j[k] <= 0xD7 {
        ParseToBoundary(j, next, i, t);
      } else {
        var r := ReadSegment(j[k], j[k + 3..next], t);
        if r.Ok? {
          ParseToBoundary(j, next, i, r.value);
        }
      }
    }
  }

  // ----- what stands in front of the boundary does not depend on what stands behind it

  lemma {:induction false} SkipInPrefix(j: bytes, l: bytes, n: nat, i: nat)
    requires i <= n <= |j| && n <= |l| && j[..n] == l[..n]
    ensures SkipFill(j, i) < n ==> SkipFill(l, i) == SkipFill(j, i) && l[SkipFill(j, i)] == j[SkipFill(j, i)]
    decreases n - i
  {
    if i < n {
      assert j[i] == j[..n][i] == l[..n][i] == l[i];
      if j[i] == 0xFF {
        SkipInPrefix(j, l, n, i + 1);
      }
    }
  }

  lemma {:induction false} StepInPrefix(j: bytes, l: bytes, n: nat, i: nat)
    requires i <= n <= |j| && n <= |l| && j[..n] == l[..n]
    requires StepOver(j, i).Some? && StepOver(j, i).value <= n
    ensures StepOver(l, i) == StepOver(j, i) && SkipFill(l, i) == SkipFill(j, i) < n
    ensures forall k :: 0 <= k < n ==> j[k] == l[k]
  {
    hide SkipFill;
    SkipInPrefix(j, l, n, i);
    forall k | 0 <= k < n ensures j[k] == l[k] {
      assert j[k] == j[..n][k] == l[..n][k];
    }
  }

  lemma {:induction false} BoundaryBelow(j: bytes, p: nat, i: nat)
    requires p <= |j| && Boundary(j, p, i)
    ensures p <= i <= |j|
    decreases |j| - p
  {
    hide StepOver;
    if p != i {
      BoundaryBelow(j, StepOver(j, p).value, i);
    }
  }

  lemma {:induction false} SamePrefix(j: bytes, l: bytes, p: nat, i: nat, t: Tables)
    requires p <= i <= |j| && i <= |l| && j[..i] == l[..i] && |t.qtables| == 2 && Boundary(j, p, i)
    ensures Boundary(l, p, i) && Collected(l, p, i, t) == Collected(j, p, i, t)
    decreases |j| - p
  {
    hide ReadSegment, SkipFill, StepOver;
    if p != i {
      var next := StepOver(j, p).value;
      BoundaryBelow(j, next, i);
      StepInPrefix(j, l, i, p);
      StepsTo(j, p, t);
      var k := SkipFill(j, p);
      if j[k] == 0x01 || 0xD0 <= j[k] <= 0xD7 {
        SamePrefix(j, l, next, i, t);
      } else {
        assert j[k + 3..next] == j[..i][k + 3..next] == l[..i][k + 3..next] == l[k + 3..next];
        var r := ReadSegment(j[k], j[k + 3..next], t);
        if r.Ok? {
          SamePrefix(j, l, next, i, r.value);
        } else {
          SamePrefix(j, l, next, i, t);
        }
      }
    }
  }

  // ----- what stands behind it is read alike wherever it stands

  lemma {:induction false} SkipShifted(j: bytes, l: bytes, i: nat, d: int)
    requires i <= |j| && 0 <= i + d <= |l| && j[i..] == l[i + d..]
    ensures SkipFill(l, i + d) == SkipFill(j, i) + d && |l| == |j| + d
    ensures forall k :: i <= k < |j| ==> j[k] == l[k + d]
    decreases |j| - i
  {
    assert |j[i..]| == |l[i + d..]|;
    forall k | i <= k < |j| ensures j[k] == l[k + d] {
      assert j[k] == j[i..][k - i] == l[i + d..][k - i];
    }
    if i < |j| && j[i] == 0xFF {
      assert j[i + 1..] == j[i..][1..] == l[i + d..][1..] == l[i + 1 + d..];
      SkipShifted(j, l, i + 1, d);
    }
  }

  /** The scan is read to the last end marker, wherever the file in front of it begins. */
  lemma {:induction false} ScanShifted(j: bytes, l: bytes, at: nat, d: int, t: Tables)
    requires at <= |j| && 0 <= at + d <= |l| && j[at..] == l[at + d..]
    ensures ReadScan(l, at + d, t) == ReadScan(j, at, t)
  {
    hide AfterLastEoi, IsEoi;
    EoiFound(j, |j|);
    EoiFound(l, |l|);
    var e, f := AfterLastEoi(j, |j|), AfterLastEoi(l, |l|);
    assert |j[at..]| == |l[at + d..]|;
    if e >= at + 2 {
      EoiShifted(j, l, at, d, e);
    }
    if f >= at + d + 2 {
      EoiShifted(j, l, at, d, f - d);
    }
    assert e >= at + 2 || f >= at + d + 2 ==> f == e + d;
    if e >= at + 2 {
      assert j[at..e - 2] == j[at..][..e - 2 - at] == l[at + d..][..e - 2 - at] == l[at + d..f - 2];
    }
  }

  lemma {:induction false} EoiShifted(j: bytes, l: bytes, at: nat, d: int, k: nat)
    requires at <= |j| && 0 <= at + d <= |l| && j[at..] == l[at + d..] && at + 2 <= k
    ensures |l| == |j| + d && (IsEoi(j, k) <==> IsEoi(l, k + d))
  {
    assert |j[at..]| == |l[at + d..]|;
    if k <= |j| {
      assert j[k - 2] == j[at..][k - 2 - at] == l[at + d..][k - 2 - at] == l[k - 2 + d];
      assert j[k - 1] == j[at..][k - 1 - at] == l[at + d..][k - 1 - at] == l[k - 1 + d];
    }
  }

  lemma {:induction false} ParseShifted(j: bytes, l: bytes, i: nat, d: int, t: Tables)
    requires i <= |j| && 0 <= i + d <= |l| && j[i..] == l[i + d..] && |t.qtables| == 2
    ensures ParseFrom(l, i + d, t) == ParseFrom(j, i, t)
    decreases |j| - i
  {
    hide ReadSegment, ReadScan, SkipFill, ParseFrom, FromBe16;
    SkipShifted(j, l, i, d);
    var k := SkipFill(j, i);
    MarkerStep(j, i, k, t);
    MarkerStep(l, i + d, k + d, t);
    if k < |j| {
      if IsStandalone(j[k]) {
        Behind(j, l, i, d, k + 1);
        ParseShifted(j, l, k + 1, d, t);
      } else if k + 3 <= |j| {
        var at, len := k + 1, FromBe16(j[k + 1], j[k + 2]);
        if len >= 2 && at + len <= |j| {
          Behind(j, l, i, d, at + len);
          if j[k] == SOS {
            ScanShifted(j, l, at + len, d, t);
          } else {
            Behind(j, l, i, d, at + 2);
            assert j[at + 2..at + len] == j[at + 2..][..len - 2] == l[at + 2 + d..][..len - 2];
            assert l[at + 2 + d..][..len - 2] == l[at + d + 2..at + d + len];
            var r := ReadSegment(j[k], j[at + 2..at + len], t);
            if r.Ok? {
              ParseShifted(j, l, at + len, d, r.value);
            }
          }
        }
      }
    }
  }

  lemma {:induction false} Behind(j: bytes, l: bytes, i: nat, d: int, k: nat)
    requires i <= k <= |j| && 0 <= i + d <= |l| && j[i..] == l[i + d..]
    ensures k + d <= |l| && j[k..] == l[k + d..]
  {
    assert |j[i..]| == |l[i + d..]|;
    assert j[k..] == j[i..][k - i..] == l[i + d..][k - i..];
  }

  // ----- what is stepped over

  /** Segments the parser has no use for: application data, comments, and every marker that is neither a frame header, a
      table, a restart interval, a scan header nor an end of image. */
  predicate Passed(m: byte) {
    m == 0x00 || 0x02 <= m <= 0xBF || m == 0xC8 || m == 0xCC || m == 0xD8 || m == 0xDC || 0xDE <= m <= 0xFE
  }

  /** A whole marker segment. */
  function Whole(m: byte, body: bytes): (r: bytes)
    requires |body| <= 65533
    ensures |r| == 4 + |body|
  {
    [0xFF, m] + Be16(|body| + 2) + body
  }

  lemma {:induction false} WholeStep(j: bytes, i: nat, m: byte, body: bytes, t: Tables)
    requires |body| <= 65533 && i + 4 + |body| <= |j| && j[i..i + 4 + |body|] == Whole(m, body)
    requires |t.qtables| == 2 && m != 0xFF && m != SOS && !IsStandalone(m)
    ensures ParseFrom(j, i, t) ==
            match ReadSegment(m, body, t)
            case Ok(t') => ParseFrom(j, i + 4 + |body|, t')
            case Err(e) => Err(e)
  {
    hide ReadSegment, ReadScan, ParseFrom;
    var w, len := j[i..i + 4 + |body|], |body| + 2;
    assert w[0] == 0xFF && w[1] == m && w[2] == len / 256 && w[3] == len % 256;
    assert j[i] == w[0] && j[i + 1] == w[1] && j[i + 2] == w[2] && j[i + 3] == w[3];
    assert SkipFill(j, i) == SkipFill(j, i + 1) == i + 1;
    assert j[i + 4..i + 4 + |body|] == w[4..] == body;
    assert FromBe16(j[i + 2], j[i + 3]) == len;
    MarkerStep(j, i, i + 1, t);
  }

  lemma {:induction false} PassedStep(m: byte, body: bytes, t: Tables)
    requires Passed(m) && |t.qtables| == 2
    ensures ReadSegment(m, body, t) == Ok(t) && m != 0xFF && m != SOS && !IsStandalone(m)
  {
    hide ReadDqt, ReadSof, CheckDht;
  }

  /** What can be put in at a boundary: a whole segment that is passed, fill bytes, or a marker that stands alone. */
  ghost predicate Skipped(x: bytes) {
    || (exists m: byte, body: bytes :: |body| <= 65533 && Passed(m) && x == Whole(m, body))
    || (forall k :: 0 <= k < |x| ==> x[k] == 0xFF)
    || (|x| == 2 && x[0] == 0xFF && (x[1] == 0x01 || 0xD0 <= x[1] <= 0xD7))
  }

  lemma {:induction false} FillSkipped(j: bytes, i: nat, n: nat)
    requires i + n <= |j| && forall k :: i <= k < i + n ==> j[k] == 0xFF
    ensures SkipFill(j, i) == SkipFill(j, i + n)
    decreases n
  {
    if n > 0 {
      FillSkipped(j, i + 1, n - 1);
    }
  }

  lemma {:induction false} FillStep(j: bytes, i: nat, n: nat, t: Tables)
    requires i + n <= |j| && |t.qtables| == 2 && forall k :: i <= k < i + n ==> j[k] == 0xFF
    ensures ParseFrom(j, i, t) == ParseFrom(j, i + n, t)
  {
    hide ReadSegment, ReadScan, ParseFrom, SkipFill;
    FillSkipped(j, i, n);
    MarkerStep(j, i, SkipFill(j, i), t);
    MarkerStep(j, i + n, SkipFill(j, i), t);
  }

  lemma {:induction false} AloneStep(j: bytes, i: nat, t: Tables)
    requires i + 2 <= |j| && |t.qtables| == 2 && j[i] == 0xFF && (j[i + 1] == 0x01 || 0xD0 <= j[i + 1] <= 0xD7)
    ensures ParseFrom(j, i, t) == ParseFrom(j, i + 2, t)
  {
    hide ReadSegment, ReadScan, ParseFrom, SkipFill;
    SkipStep(j, i);
    SkipStep(j, i + 1);
    MarkerStep(j, i, i + 1, t);
  }

  lemma {:induction false} SkippedStep(j: bytes, i: nat, x: bytes, t: Tables)
    requires Skipped(x) && i + |x| <= |j| && j[i..i + |x|] == x && |t.qtables| == 2
    ensures ParseFrom(j, i, t) == ParseFrom(j, i + |x|, t)
  {
    hide ReadSegment, ReadScan, ParseFrom, SkipFill, Passed, Whole;
    if m: byte, body: bytes :| |body| <= 65533 && Passed(m) && x == Whole(m, body) {
      PassedStep(m, body, t);
      WholeStep(j, i, m, body, t);
    } else {
      forall k | 0 <= k < |x| ensures j[i + k] == x[k] {
        assert j[i + k] == j[i..i + |x|][k];
      }
      if forall k :: 0 <= k < |x| ==> x[k] == 0xFF {
        forall k | i <= k < i + |x| ensures j[k] == 0xFF {
          assert j[i + (k - i)] == x[k - i];
        }
        FillStep(j, i, |x|, t);
      } else {
        assert j[i] == x[0] && j[i + 1] == x[1];
        AloneStep(j, i, t);
      }
    }
  }

  lemma {:induction false} ParseIs(j: bytes)
    requires |j| >= 2
    ensures Parse(j) == if j[0] != 0xFF || j[1] != 0xD8 then Err(InvalidFormat) else ParseFrom(j, 2, NOTHING)
  {
    hide ReadSegment, ReadScan;
    if |j| == 3 && IsStandalone(j[2]) {
      SkipStep(j, 3);
    }
  }

  /** Putting application data, a comment or any other segment that is passed, fill bytes or a marker that stands alone in
      at a marker boundary in front of the scan header changes nothing: not the size, the kind, the restart interval, the
      tables or the scan, nor the error of a file that is refused. */
  lemma {:induction false} InsertingChangesNothing(j: bytes, i: nat, x: bytes)
    requires |j| >= 2 && Boundary(j, 2, i) && Skipped(x)
    ensures i <= |j| && Parse(j[..i] + x + j[i..]) == Parse(j)
  {
    hide ParseFrom, Boundary, Collected, Skipped;
    BoundaryBelow(j, 2, i);
    var l := j[..i] + x + j[i..];
    assert l[..i] == j[..i] && l[i..i + |x|] == x && l[i + |x|..] == j[i..];
    assert l[0] == l[..i][0] == j[0] && l[1] == l[..i][1] == j[1];
    ParseIs(j);
    ParseIs(l);
    SamePrefix(j, l, 2, i, NOTHING);
    ParseToBoundary(j, 2, i, NOTHING);
    ParseToBoundary(l, 2, i, NOTHING);
    var c := Collected(j, 2, i, NOTHING);
    if c.Ok? {
      SkippedStep(l, i, x, c.value);
      ParseShifted(j, l, i, |x|, c.value);
    }
  }

  // ----- what is refused, and what the others say

  /** Whole tables of 8-bit elements, each 0 or 1. */
  predicate DqtLegal(body: bytes) {
    |body| % 65 == 0 && forall k :: 0 <= k < |body| / 65 ==> body[65 * k] <= 1
  }

  /** Table `id` of such a segment: the last one of that identifier. */
  function LastTable(body: bytes, id: byte): Option<bytes>
    requires DqtLegal(body)
  {
    if |body| < 65 then None
    else
      var n := |body| - 65;
      if body[n] == id then Some(body[n + 1..]) else LastTable(body[..n], id)
  }

  lemma {:induction false} DqtFirst(body: bytes)
    requires |body| >= 65
    ensures DqtLegal(body) <==> body[0] <= 1 && DqtLegal(body[65..])
  {
    var rest := body[65..];
    assert |body| % 65 == |rest| % 65 && |body| / 65 == |rest| / 65 + 1;
    forall k | 0 <= k < |rest| / 65 ensures rest[65 * k] == body[65 * (k + 1)] {
      assert 65 * k < |rest|;
    }
    if body[0] <= 1 && DqtLegal(rest) && |body| % 65 == 0 {
      forall k | 0 <= k < |body| / 65 ensures body[65 * k] <= 1 {
        if k > 0 {
          assert rest[65 * (k - 1)] == body[65 * k];
        }
      }
    }
    if DqtLegal(body) {
      assert body[65 * 0] <= 1;
      forall k | 0 <= k < |rest| / 65 ensures rest[65 * k] <= 1 {
        assert body[65 * (k + 1)] <= 1;
      }
    }
  }

  /** A segment of quantization tables is refused as unsupported if and only if it is not made up of those. */
  lemma {:induction false} DqtExactly(body: bytes, t: Tables)
    requires |t.qtables| == 2
    ensures ReadDqt(body, t).Ok? <==> DqtLegal(body)
    ensures ReadDqt(body, t).Err? ==> ReadDqt(body, t).error == Unsupported
    decreases |body|
  {
    hide DqtLegal;
    if body == [] {
      NoTables(body);
    } else if |body| < 65 {
      PartTable(body);
    } else {
      DqtFirst(body);
      var tq := body[0] % 16;
      if body[0] / 16 == 0 && tq <= 1 {
        DqtExactly(body[65..], t.(qtables := t.qtables[tq := body[1..65]], qcount := Max(t.qcount, tq + 1)));
      }
    }
  }

  lemma {:induction false} NoTables(body: bytes)
    requires body == []
    ensures DqtLegal(body)
  {
  }

  lemma {:induction false} PartTable(body: bytes)
    requires 0 < |body| < 65
    ensures !DqtLegal(body)
  {
  }

  /** A frame header the parser takes: 8 bits, three components, a size in whole blocks of at most 2040, and a first
      component sampled 2 by 1 or 2 by 2. */
  predicate SofLegal(p: bytes) {
    && |p| >= 8 && p[0] == 8 && p[5] == 3
    && Side(p[1] as int * 256 + p[2]) && Side(p[3] as int * 256 + p[4])
    && (p[7] == 0x21 || p[7] == 0x22)
  }

  predicate Side(n: nat) {
    8 <= n <= 2040 && n % 8 == 0
  }

  lemma {:induction false} SofExactly(p: bytes)
    ensures ReadSof(p).Ok? <==> SofLegal(p)
    ensures SofLegal(p) ==>
              ReadSof(p) == Ok(Dims(p[3] as int * 256 + p[4], p[1] as int * 256 + p[2], if p[7] == 0x21 then 0 else 1))
    ensures ReadSof(p).Err? && ReadSof(p).error != Unsupported ==> ReadSof(p).error == InvalidFormat && |p| < 8
  {
  }

  /** The segments the parser refuses, and how: frames that are not baseline or extended sequential, frame headers and
      tables it cannot send, an image that ends before its scan, and a restart interval cut short. */
  ghost predicate Refused(m: byte, body: bytes, e: Error) {
    || (m in {0xC2, 0xC3, 0xC5, 0xC6, 0xC7, 0xC9, 0xCA, 0xCB, 0xCD, 0xCE, 0xCF} && e == Unsupported)
    || (m in {0xC0, 0xC1} && |body| >= 8 && !SofLegal(body) && e == Unsupported)
    || (m == 0xDB && !DqtLegal(body) && e == Unsupported)
    || (m == 0xD9 && e == InvalidFormat)
    || (m == 0xDD && |body| < 2 && e == InvalidFormat)
  }

  lemma {:induction false} RefusedStep(m: byte, body: bytes, e: Error, t: Tables)
    requires Refused(m, body, e) && |t.qtables| == 2
    ensures ReadSegment(m, body, t) == Err(e) && m != 0xFF && m != SOS && !IsStandalone(m)
  {
    hide ReadDqt, ReadSof, CheckDht, SofLegal, DqtLegal;
    DqtExactly(body, t);
    SofExactly(body);
  }

  /** A file with such a segment at a marker boundary in front of the scan header is refused so, when nothing before it
      is. */
  lemma {:induction false} RefusedAt(j: bytes, i: nat, m: byte, body: bytes, e: Error)
    requires |j| >= 2 && j[0] == 0xFF && j[1] == 0xD8 && Boundary(j, 2, i) && Refused(m, body, e)
    requires |body| <= 65533 && i + 4 + |body| <= |j| && j[i..i + 4 + |body|] == Whole(m, body)
    requires Collected(j, 2, i, NOTHING).Ok?
    ensures Parse(j) == Err(e)
  {
    hide ParseFrom, Boundary, Collected, ReadSegment, Refused, Whole;
    ParseIs(j);
    ParseToBoundary(j, 2, i, NOTHING);
    var t := Collected(j, 2, i, NOTHING).value;
    RefusedStep(m, body, e, t);
    WholeStep(j, i, m, body, t);
  }

  /** An extended sequential frame header is read as a baseline one. */
  lemma {:induction false} ExtendedAsBaseline(j: bytes, i: nat, body: bytes)
    requires |j| >= 2 && Boundary(j, 2, i) && |body| <= 65533
    requires i + 4 + |body| <= |j| && j[i..i + 4 + |body|] == Whole(0xC0, body)
    ensures Parse(j[..i] + Whole(0xC1, body) + j[i + 4 + |body|..]) == Parse(j)
  {
    hide ParseFrom, Boundary, Collected, ReadSegment;
    BoundaryBelow(j, 2, i);
    var w, end := Whole(0xC1, body), i + 4 + |body|;
    var l := j[..i] + w + j[end..];
    assert l[..i] == j[..i] && l[i..end] == w && l[end..] == j[end..];
    assert l[0] == l[..i][0] == j[0] && l[1] == l[..i][1] == j[1];
    ParseIs(j);
    ParseIs(l);
    SamePrefix(j, l, 2, i, NOTHING);
    ParseToBoundary(j, 2, i, NOTHING);
    ParseToBoundary(l, 2, i, NOTHING);
    var c := Collected(j, 2, i, NOTHING);
    if c.Ok? {
      WholeStep(j, i, 0xC0, body, c.value);
      WholeStep(l, i, 0xC1, body, c.value);
      FramesAlike(body, c.value);
      var r := ReadSegment(0xC0, body, c.value);
      if r.Ok? {
        ParseShifted(j, l, end, 0, r.value);
      }
    }
  }

  lemma {:induction false} FramesAlike(body: bytes, t: Tables)
    requires |t.qtables| == 2
    ensures ReadSegment(0xC1, body, t) == ReadSegment(0xC0, body, t)
  {
    hide ReadSof;
  }

  lemma {:induction false} StepOverWhole(j: bytes, i: nat, m: byte, body: bytes)
    requires |body| <= 65533 && i + 4 + |body| <= |j| && j[i..i + 4 + |body|] == Whole(m, body)
    requires m != 0xFF && m != SOS && !IsStandalone(m)
    ensures StepOver(j, i) == Some(i + 4 + |body|)
  {
    var w, len := j[i..i + 4 + |body|], |body| + 2;
    assert w[0] == 0xFF && w[1] == m && w[2] == len / 256 && w[3] == len % 256;
    assert j[i] == w[0] && j[i + 1] == w[1] && j[i + 2] == w[2] && j[i + 3] == w[3];
    assert SkipFill(j, i) == SkipFill(j, i + 1) == i + 1;
  }

  lemma {:induction false} OneStep(j: bytes, p: nat, i: nat)
    requires p < i <= |j| && StepOver(j, p) == Some(i)
    ensures Boundary(j, p, i)
  {
    hide StepOver;
  }

  /** In a regenerated file, another frame header in the place of SOF0: SOF1 makes no difference, and SOF2, SOF3 and the
      others make the file unsupported. */
  lemma {:induction false} OtherFrames(width: u16, height: u16, kind: byte, restart: Option<u16>, qtables: seq<bytes>,
                                       scan: bytes, m: byte)
    requires P.Printable(width, height, kind, qtables)
    ensures var j, body := P.File(width, height, kind, restart, qtables, scan), P.SofBody(width, height, kind, |qtables|);
            var i := 6 + 65 * |qtables|;
            && i + 19 <= |j| && j[i..i + 19] == Whole(0xC0, body)
            && var f := j[..i] + Whole(m, body) + j[i + 19..];
               && (m == 0xC1 ==> Parse(f) == Parse(j))
               && (m in {0xC2, 0xC3, 0xC5, 0xC6, 0xC7, 0xC9, 0xCA, 0xCB, 0xCD, 0xCE, 0xCF} ==> Parse(f) == Err(Unsupported))
  {
    hide Parse, Boundary, StepOver, Collected, P.SofBody, P.DqtBody, P.Printable, SofLegal, DqtLegal, P.File, Whole;
    P.PrintableIs(width, height, kind, qtables);
    var j, body := P.File(width, height, kind, restart, qtables, scan), P.SofBody(width, height, kind, |qtables|);
    var i, dqt := 6 + 65 * |qtables|, P.DqtBody(qtables, 0);
    PrintedFront(width, height, kind, restart, qtables, scan);
    StepOverWhole(j, 2, 0xDB, dqt);
    OneStep(j, 2, i);
    ExtendedAsBaselineIf(j, i, body, m);
    var f := j[..i] + Whole(m, body) + j[i + 19..];
    assert f[..i] == j[..i] && f[i..i + 19] == Whole(m, body);
    assert f[0] == f[..i][0] == j[0] && f[1] == f[..i][1] == j[1];
    SamePrefix(j, f, 2, i, NOTHING);
    CollectedTables(j, 2, i, dqt, qtables);
    if m in {0xC2, 0xC3, 0xC5, 0xC6, 0xC7, 0xC9, 0xCA, 0xCB, 0xCD, 0xCE, 0xCF} {
      RefusedAt(f, i, m, body, Unsupported);
    }
  }

  lemma {:induction false} ExtendedAsBaselineIf(j: bytes, i: nat, body: bytes, m: byte)
    requires |j| >= 2 && Boundary(j, 2, i) && |body| <= 65533
    requires i + 4 + |body| <= |j| && j[i..i + 4 + |body|] == Whole(0xC0, body)
    ensures m == 0xC1 ==> Parse(j[..i] + Whole(m, body) + j[i + 4 + |body|..]) == Parse(j)
  {
    hide Parse, Boundary;
    if m == 0xC1 {
      ExtendedAsBaseline(j, i, body);
    }
  }

  lemma {:induction false} CollectedTables(j: bytes, p: nat, i: nat, dqt: bytes, qtables: seq<bytes>)
    requires p <= |j| && i == p + 4 + |dqt| <= |j| && |dqt| <= 65533 && j[p..i] == Whole(0xDB, dqt)
    requires P.Printable(8, 8, 0, qtables) && dqt == P.DqtBody(qtables, 0) && Boundary(j, p, i)
    ensures Collected(j, p, i, NOTHING).Ok?
  {
    hide ReadDqt, P.DqtBody, Boundary, ParseFrom;
    StepOverWhole(j, p, 0xDB, dqt);
    var w, len := j[p..i], |dqt| + 2;
    assert w[0] == 0xFF && w[1] == 0xDB;
    assert j[p] == w[0] && j[p + 1] == w[1];
    assert SkipFill(j, p) == SkipFill(j, p + 1) == p + 1;
    assert j[p + 4..i] == w[4..] == dqt;
    P.ReadDqtBody(qtables);
  }

  lemma {:induction false} PrintedFront(width: u16, height: u16, kind: byte, restart: Option<u16>, qtables: seq<bytes>,
                                        scan: bytes)
    requires P.Printable(width, height, kind, qtables)
    ensures var j, body := P.File(width, height, kind, restart, qtables, scan), P.SofBody(width, height, kind, |qtables|);
            var dqt, i := P.DqtBody(qtables, 0), 6 + 65 * |qtables|;
            && |dqt| == 65 * |qtables| && i + 19 <= |j| && j[0] == 0xFF && j[1] == 0xD8
            && j[2..i] == Whole(0xDB, dqt) && j[i..i + 19] == Whole(0xC0, body)
    ensures P.Printable(8, 8, 0, qtables)
  {
    hide P.DqtBody, P.SofBody, P.HeaderSegments, P.AllBytes, P.SOS_BYTES;
    P.DqtBodyLen(qtables);
    P.SegmentsFit(width, height, kind, restart, qtables);
    var list := P.HeaderSegments(width, height, kind, restart, qtables);
    FirstTwo(width, height, kind, restart, qtables);
    P.AllBytesStep(list);
    P.AllBytesStep(list[1..]);
    var dqt, sof := P.SegmentBytes(list[0]), P.SegmentBytes(list[1]);
    var j, rest := P.File(width, height, kind, restart, qtables, scan), P.AllBytes(list[1..][1..]);
    assert j == [0xFF, 0xD8] + dqt + sof + (rest + P.SOS_BYTES + scan + [0xFF, EOI]);
  }

  lemma {:induction false} FirstTwo(width: u16, height: u16, kind: byte, restart: Option<u16>, qtables: seq<bytes>)
    requires |qtables| <= 2
    ensures var list := P.HeaderSegments(width, height, kind, restart, qtables);
            && |list| >= 6 && list[0] == P.Segment(0xDB, P.DqtBody(qtables, 0))
            && list[1] == P.Segment(0xC0, P.SofBody(width, height, kind, |qtables|))
  {
    hide P.DqtBody, P.SofBody;
  }

  // ----- what the segments say

  function TableOf(body: bytes, before: bytes, id: byte): bytes
    requires DqtLegal(body)
  {
    if LastTable(body, id).Some? then LastTable(body, id).value else before
  }

  lemma {:induction false} LastOfFirst(body: bytes, id: byte)
    requires DqtLegal(body) && |body| >= 65
    ensures DqtLegal(body[65..])
    ensures LastTable(body, id) ==
            if LastTable(body[65..], id).Some? then LastTable(body[65..], id)
            else if body[0] == id then Some(body[1..65]) else None
    decreases |body|
  {
    DqtFirst(body);
    var n, rest := |body| - 65, body[65..];
    if n == 0 {
      assert body[1..] == body[1..65];
      assert LastTable(body[..0], id) == None;
    } else {
      LegalFront(body);
      LegalFront(rest);
      var m := |rest| - 65;
      assert body[..n][65..] == rest[..m];
      assert rest[m] == body[n] && rest[m + 1..] == body[n + 1..];
      assert body[..n][0] == body[0] && body[..n][1..65] == body[1..65];
      LastOfFirst(body[..n], id);
    }
  }

  lemma {:induction false} LegalFront(body: bytes)
    requires DqtLegal(body) && |body| >= 65
    ensures DqtLegal(body[..|body| - 65])
  {
    var front := body[..|body| - 65];
    assert |front| / 65 < |body| / 65;
    forall k | 0 <= k < |front| / 65 ensures front[65 * k] <= 1 {
      assert body[65 * k] <= 1;
    }
  }

  /** A legal segment of quantization tables puts its last table of each identifier in force, and the others stay. */
  lemma {:induction false} DqtSays(body: bytes, t: Tables)
    requires |t.qtables| == 2 && DqtLegal(body)
    ensures ReadDqt(body, t).Ok?
    ensures var r := ReadDqt(body, t).value;
            && r.dims == t.dims && r.restart == t.restart
            && r.qtables == [TableOf(body, t.qtables[0], 0), TableOf(body, t.qtables[1], 1)]
            && r.qcount == Max(t.qcount, if LastTable(body, 1).Some? then 2 else if LastTable(body, 0).Some? then 1 else 0)
    decreases |body|
  {
    hide DqtLegal, LastTable;
    DqtExactly(body, t);
    if body == [] {
      NoLastTable();
    } else {
      LegalIsWhole(body);
      LastOfFirst(body, 0);
      LastOfFirst(body, 1);
      DqtFirst(body);
      var tq := body[0] % 16;
      DqtSays(body[65..], t.(qtables := t.qtables[tq := body[1..65]], qcount := Max(t.qcount, tq + 1)));
    }
  }

  lemma {:induction false} NoLastTable()
    ensures DqtLegal([]) && LastTable([], 0) == None && LastTable([], 1) == None
  {
  }

  lemma {:induction false} LegalIsWhole(body: bytes)
    requires DqtLegal(body) && body != []
    ensures |body| >= 65
  {
  }
}
