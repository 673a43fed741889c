/** What the reader's searches find in what the writer sends. */
module MultipartShape {
  import opened Bytes
  import opened Text
  import opened Multipart
  import opened MultipartReader

  // ----- searches in lines

  predicate CrFree(lines: seq<bytes>) {
    forall k :: 0 <= k < |lines| ==> lines[k] != [] && CR !in lines[k]
  }

  predicate PlainLine(line: bytes) {
    line != [] && CR !in line && LF !in line
  }

  lemma {:induction false} BlankNeedsCr(s: bytes, k: nat)
    ensures MatchAt(s, BLANK, k) ==> k + 4 <= |s| && s[k] == CR && s[k + 2] == CR
    ensures k + 4 <= |s| && s[k] == CR && s[k + 1] == LF && s[k + 2] == CR && s[k + 3] == LF ==> MatchAt(s, BLANK, k)
  {
    if MatchAt(s, BLANK, k) {
      assert s[k..k + 4][0] == CR && s[k..k + 4][2] == CR;
    }
  }

  lemma {:induction false} BlankInside(d: bytes)
    ensures Find(d, BLANK).Some? ==> Find(d, BLANK).value + 4 <= |d|
  {
  }

  /** The blank line after a last line without CR. */
  lemma {:induction false} BlankAfterLine(line: bytes, rest: bytes)
    requires CR !in line
    ensures Find(line + BLANK + rest, BLANK) == Some(|line|)
  {
    var s := line + BLANK + rest;
    assert s[|line|..|line| + 4] == BLANK;
    forall k | 0 <= k < |line| ensures !MatchAt(s, BLANK, k) {
      BlankNeedsCr(s, k);
      assert s[k] == line[k];
    }
    FirstIsFound(s, BLANK, |line|);
  }

  /** A line without CR pushes the blank line back. */
  lemma {:induction false} BlankBehindLine(line: bytes, rest: bytes)
    requires CR !in line && rest != [] && rest[0] != CR && Find(rest, BLANK).Some?
    ensures Find(line + CRLF + rest, BLANK) == Some(|line| + 2 + Find(rest, BLANK).value)
  {
    hide Find;
    var s, n := line + CRLF + rest, |line| + 2;
    assert s[n..] == rest;
    forall k | 0 <= k < n ensures !MatchAt(s, BLANK, k) {
      BlankNeedsCr(s, k);
      assert k < |line| ==> s[k] == line[k];
      assert s[n] == rest[0];
    }
    FindBehind(s, n, BLANK);
  }

  /** Nothing before `n`: the search is the search from `n` on. */
  lemma {:induction false} FindBehind(s: bytes, n: nat, needle: bytes)
    requires needle != [] && n <= |s| && Find(s[n..], needle).Some?
    requires forall k :: 0 <= k < n ==> !MatchAt(s, needle, k)
    ensures Find(s, needle) == Some(n + Find(s[n..], needle).value)
  {
    var at := Find(s[n..], needle).value;
    ShiftMatches(s, n, needle, at);
    hide MatchAt;
    forall k | 0 <= k < n + at ensures !MatchAt(s, needle, k) {
      if k >= n {
        assert !MatchAt(s[n..], needle, k - n);
        ShiftMatches(s, n, needle, k - n);
      }
    }
    FirstIsFound(s, needle, n + at);
  }

  lemma {:induction false} ShiftMatches(s: bytes, n: nat, needle: bytes, k: nat)
    requires n <= |s|
    ensures MatchAt(s[n..], needle, k) <==> MatchAt(s, needle, n + k)
  {
    if n + k + |needle| <= |s| {
      assert s[n + k..n + k + |needle|] == s[n..][k..k + |needle|];
    }
  }

  /** The first blank line of a text is the one behind its lines. */
  lemma {:induction false} BlankBehindLines(lines: seq<bytes>, rest: bytes)
    requires lines != [] && CrFree(lines)
    ensures Find(Join(lines) + BLANK + rest, BLANK) == Some(|Join(lines)|)
    ensures Join(lines) != [] && Join(lines)[0] != CR
  {
    hide Find, BLANK, CRLF;
    BlankLen();
    assert lines[0][0] in lines[0];
    if |lines| == 1 {
      BlankAfterLine(lines[0], rest);
    } else {
      assert lines == [lines[0]] + lines[1..];
      JoinCons(lines[0], lines[1..]);
      BlankBehindLines(lines[1..], rest);
      var behind := Join(lines[1..]) + BLANK + rest;
      BlankBehindLine(lines[0], behind);
      assert Join(lines) + BLANK + rest == lines[0] + CRLF + behind;
    }
  }

  // ----- the shape of a part

  /** Where the headers of a part start. */
  function HeadersAt(boundary: bytes): nat {
    4 + |boundary|
  }

  function BodyAt(boundary: bytes, f: Frame): nat {
    HeadersAt(boundary) + |Join(PartLines(f))| + 4
  }

  lemma {:induction false} DigitsPlain(v: nat)
    ensures CR !in Decimal(v) && LF !in Decimal(v) && SPACE !in Decimal(v)
  {
  }

  lemma {:induction false} PartLinesPlain(f: Frame)
    ensures forall k :: 0 <= k < 3 ==> PlainLine(PartLines(f)[k])
  {
    hide Decimal;
    DigitsPlain(|f.data|);
    DigitsPlain(f.timestamp);
    assert PlainLine(JPEG_LINE) && PlainLine(LENGTH_IS) && PlainLine(TIMESTAMP_IS);
  }

  /** The delimiter line ends right behind the boundary. */
  lemma {:induction false} DelimiterEnds(boundary: bytes, rest: bytes)
    requires Find(boundary, CRLF) == None
    ensures Find(DASHES + boundary + CRLF + rest, CRLF) == Some(2 + |boundary|)
  {
    var s, n := DASHES + boundary + CRLF + rest, 2 + |boundary|;
    assert s[n..n + 2] == CRLF;
    forall k | 0 <= k < n ensures !MatchAt(s, CRLF, k) {
      if MatchAt(s, CRLF, k) {
        assert s[k..k + 2][0] == CR && s[k..k + 2][1] == LF;
        assert k >= 2 && k + 1 < n;
        assert boundary[k - 2..k] == CRLF;
        assert MatchAt(boundary, CRLF, k - 2);
      }
    }
    FirstIsFound(s, CRLF, n);
  }

  /** What the reader's searches find in a stream that starts with a part. */
  lemma {:induction false} PartShape(boundary: bytes, f: Frame, tail: bytes)
    requires Find(boundary, CRLF) == None
    ensures var x, h, b := Part(boundary, f) + tail, HeadersAt(boundary), BodyAt(boundary, f);
            && |Part(boundary, f)| == b + |f.data| + 2
            && x[..2] == DASHES && x[2..h - 2] == boundary
            && Find(x, CRLF) == Some(h - 2)
            && Find(x[h..], BLANK) == Some(b - 4 - h)
            && x[h..b - 4] == Join(PartLines(f))
            && x[b..b + |f.data|] == f.data
  {
    hide Find, Join, PartLines, BLANK, CRLF, DASHES, Part;
    var x, hdr := Part(boundary, f) + tail, Join(PartLines(f));
    var h, b := HeadersAt(boundary), BodyAt(boundary, f);
    var y := hdr + BLANK + (f.data + CRLF + tail);
    BlankLen();
    PartText(boundary, f, tail);
    InOrder(x, 0, DASHES, [], boundary, CRLF + y);
    assert x[h..] == y;
    DelimiterEnds(boundary, y);
    PartLinesPlain(f);
    PartLinesLen(f);
    BlankBehindLines(PartLines(f), f.data + CRLF + tail);
    InOrder(x, h, hdr, BLANK, f.data, CRLF + tail);
  }

  lemma {:induction false} PartText(boundary: bytes, f: Frame, tail: bytes)
    ensures var hdr := Join(PartLines(f));
            && Part(boundary, f) + tail == DASHES + boundary + CRLF + (hdr + BLANK + (f.data + CRLF + tail))
            && Part(boundary, f) + tail == DASHES + [] + boundary + (CRLF + (hdr + BLANK + (f.data + CRLF + tail)))
            && |Part(boundary, f)| == |DASHES| + |boundary| + |CRLF| + |hdr| + |BLANK| + |f.data| + |CRLF|
            && hdr + BLANK + (f.data + CRLF + tail) == hdr + BLANK + f.data + (CRLF + tail)
  {
    hide Join, PartLines, BLANK, CRLF, DASHES;
  }

  /** The pieces of a text are found where they stand. */
  lemma {:induction false} InOrder(x: bytes, h: nat, a: bytes, b: bytes, c: bytes, rest: bytes)
    requires h <= |x| && x[h..] == a + b + c + rest
    ensures h + |a| + |b| + |c| <= |x|
    ensures x[h..h + |a|] == a && x[h + |a| + |b|..h + |a| + |b| + |c|] == c
  {
    var y := x[h..];
    assert y[..|a|] == a && y[|a| + |b|..|a| + |b| + |c|] == c;
  }

  lemma {:induction false} BlankLen()
    ensures |BLANK| == 4 && |CRLF| == 2 && |DASHES| == 2
  {
  }

  lemma {:induction false} PartLinesLen(f: Frame)
    ensures |PartLines(f)| == 3
  {
  }

  // ----- the headers of a part

  /** The header lines as the reader splits them. */
  lemma {:induction false} SplitPartLines(f: Frame)
    ensures var l := PartLines(f);
            Split(Join(l), LF) == [l[0] + [CR], l[1] + [CR], l[2]]
  {
    hide Split, Decimal, JPEG_LINE, LENGTH_IS, TIMESTAMP_IS, Join, PlainLine;
    var l := PartLines(f);
    PartLinesPlain(f);
    assert PlainLine(l[0]) && PlainLine(l[1]) && PlainLine(l[2]);
    PlainIs(l[0]);
    PlainIs(l[1]);
    PlainIs(l[2]);
    assert l[1..] == [l[1]] + [l[2]] && l == [l[0]] + l[1..];
    JoinCons(l[2], [l[1]]);
    JoinCons(l[1], [l[2]]);
    JoinCons(l[0], l[1..]);
    assert Join(l) == (l[0] + [CR]) + [LF] + ((l[1] + [CR]) + [LF] + l[2]);
    SplitCons(l[0] + [CR], LF, (l[1] + [CR]) + [LF] + l[2]);
    SplitCons(l[1] + [CR], LF, l[2]);
    SplitWhole(l[2], LF);
  }

  lemma {:induction false} PlainIs(line: bytes)
    requires PlainLine(line)
    ensures CR !in line && LF !in line && line[|line| - 1] != CR
  {
    assert line[|line| - 1] in line;
  }

  lemma {:induction false} StripCrIs(line: bytes)
    requires PlainLine(line)
    ensures StripCr(line + [CR]) == line && StripCr(line) == line
  {
    PlainIs(line);
    assert (line + [CR])[..|line|] == line;
  }

  lemma {:induction false} JpegLineIgnored(f: Fields)
    ensures ReadHeader(JPEG_LINE + [CR], f) == Ok(f)
  {
    hide ParseUsize, TrimSpaces;
    assert PlainLine(JPEG_LINE);
    StripCrIs(JPEG_LINE);
    assert Lower(JPEG_LINE[..15][8]) != Lower(LENGTH_NAME[8]);
    assert Lower(JPEG_LINE[..12][0]) != Lower(TIMESTAMP_NAME[0]);
  }

  lemma {:induction false} TrimDigits(v: nat)
    ensures TrimSpaces([SPACE] + Decimal(v)) == Decimal(v)
  {
    hide Decimal;
    DigitsPlain(v);
    assert ([SPACE] + Decimal(v))[1..] == Decimal(v);
    assert Decimal(v)[0] in Decimal(v);
  }

  lemma {:induction false} LengthLineRead(n: nat, f: Fields)
    requires n <= U64_MAX
    ensures ReadHeader(LENGTH_IS + Decimal(n) + [CR], f) == Ok(f.(length := Some(n)))
  {
    var line := LENGTH_IS + Decimal(n);
    hide Decimal, ParseUsize, TrimSpaces;
    DigitsPlain(n);
    assert PlainLine(LENGTH_IS);
    assert PlainLine(line);
    StripCrIs(line);
    assert line[15..] == [SPACE] + Decimal(n);
    TrimDigits(n);
    ParseDecimal(n);
    assert line[..15] == LENGTH_IS[..15];
    LengthNameMatches();
  }

  lemma {:induction false} LengthNameMatches()
    ensures EqIgnoreCase(LENGTH_IS[..15], LENGTH_NAME)
    ensures EqIgnoreCase(TIMESTAMP_IS[..12], TIMESTAMP_NAME)
  {
  }

  lemma {:induction false} TimestampLineRead(n: nat, f: Fields)
    requires n <= U64_MAX
    ensures ReadHeader(TIMESTAMP_IS + Decimal(n), f) == Ok(f.(timestamp := Some(n)))
  {
    var line := TIMESTAMP_IS + Decimal(n);
    hide Decimal, ParseUsize, TrimSpaces;
    DigitsPlain(n);
    assert PlainLine(TIMESTAMP_IS);
    assert PlainLine(line);
    StripCrIs(line);
    assert line[12..] == [SPACE] + Decimal(n);
    TrimDigits(n);
    ParseDecimal(n);
    assert line[..12] == TIMESTAMP_IS[..12];
    assert |line| >= 15 ==> Lower(line[..15][0]) != Lower(LENGTH_NAME[0]);
    LengthNameMatches();
  }

  lemma {:induction false} ReadHeadersStep(lines: seq<bytes>, f: Fields)
    requires lines != [] && ReadHeader(lines[0], f).Ok?
    ensures ReadHeaders(lines, f) == ReadHeaders(lines[1..], ReadHeader(lines[0], f).value)
    ensures |lines| == 1 ==> ReadHeaders(lines, f) == ReadHeader(lines[0], f)
  {
    hide ReadHeader;
  }

  lemma {:induction false} ReadPartHeaders(f: Frame)
    requires |f.data| <= U64_MAX
    ensures ReadHeaders(Split(Join(PartLines(f)), LF), Fields(None, None)) == Ok(Fields(Some(|f.data|), Some(f.timestamp)))
  {
    hide Split, Join, Decimal, ReadHeader, ReadHeaders, JPEG_LINE, LENGTH_IS, TIMESTAMP_IS;
    SplitPartLines(f);
    var l := PartLines(f);
    var lines := [l[0] + [CR], l[1] + [CR], l[2]];
    JpegLineIgnored(Fields(None, None));
    LengthLineRead(|f.data|, Fields(None, None));
    TimestampLineRead(f.timestamp, Fields(Some(|f.data|), None));
    var two: seq<bytes>, one: seq<bytes> := [lines[1], lines[2]], [lines[2]];
    assert lines[1..] == two && two[1..] == one && one[1..] == [];
    ReadHeadersStep(lines, Fields(None, None));
    ReadHeadersStep(two, Fields(None, None));
    ReadHeadersStep(one, Fields(Some(|f.data|), None));
  }

  // ----- the response head

  /** The token is the boundary exactly when nothing in the boundary stops it. */
  lemma {:induction false} TokenStops(boundary: bytes, rest: bytes)
    requires rest != [] && StopsToken(rest[0])
    ensures Token(boundary + rest) <= boundary
    ensures Token(boundary + rest) == boundary <==> forall c :: c in boundary ==> !StopsToken(c)
  {
    if boundary == [] {
      assert boundary + rest == rest;
    } else {
      var tail := boundary[1..];
      assert (boundary + rest)[1..] == tail + rest;
      TokenStops(tail, rest);
      assert boundary == [boundary[0]] + tail;
      if !StopsToken(boundary[0]) && Token(tail + rest) != tail {
        assert ([boundary[0]] + Token(tail + rest))[1..] == Token(tail + rest);
      }
    }
  }

  /** No line of the head before its boundary parameter holds a `b`. */
  lemma {:induction false} NoEarlierB(k: nat)
    requires k < |STATUS_LINE + CRLF + STREAM_TYPE|
    ensures (STATUS_LINE + CRLF + STREAM_TYPE)[k] != BOUNDARY_IS[0]
  {
  }

  lemma {:induction false} FirstByteMatches(s: bytes, needle: bytes, k: nat)
    requires needle != []
    ensures MatchAt(s, needle, k) ==> s[k] == needle[0]
  {
    if MatchAt(s, needle, k) {
      assert s[k..k + |needle|][0] == s[k];
    }
  }

  /** The boundary parameter is where it was written. */
  lemma {:induction false} BoundaryFound(rest: bytes)
    ensures Find(STATUS_LINE + CRLF + STREAM_TYPE + BOUNDARY_IS + rest, BOUNDARY_IS) ==
            Some(|STATUS_LINE + CRLF + STREAM_TYPE|)
    ensures |BOUNDARY_IS| == 9
  {
    var front := STATUS_LINE + CRLF + STREAM_TYPE;
    var n, s := |front|, front + BOUNDARY_IS + rest;
    assert s[n..n + 9] == BOUNDARY_IS;
    hide STATUS_LINE, STREAM_TYPE, BOUNDARY_IS, CRLF;
    forall k | 0 <= k < n ensures !MatchAt(s, BOUNDARY_IS, k) {
      NoEarlierB(k);
      assert s[k] == front[k];
      FirstByteMatches(s, BOUNDARY_IS, k);
    }
    FirstIsFound(s, BOUNDARY_IS, n);
  }

  /** The head's lines from the one after the boundary on. */
  lemma {:induction false} HeadUnfolds(boundary: bytes)
    ensures Join(HeadLines(boundary)) ==
            STATUS_LINE + CRLF + STREAM_TYPE + BOUNDARY_IS + (boundary + (CRLF + Join(HeadLines(boundary)[2..])))
  {
    hide Join, STATUS_LINE, STREAM_TYPE, BOUNDARY_IS, CACHE_LINE, PRAGMA_LINE, CLOSE_LINE, ORIGIN_LINE;
    var l := HeadLines(boundary);
    assert l == [l[0]] + l[1..] && l[1..] == [l[1]] + l[2..];
    JoinCons(l[0], l[1..]);
    JoinCons(l[1], l[2..]);
  }

  /** The head behind its boundary. */
  function HeadTail(): bytes {
    CRLF + Join([CACHE_LINE, PRAGMA_LINE, CLOSE_LINE, ORIGIN_LINE])
  }

  /** What the reader takes for the boundary of the writer's head. */
  lemma {:induction false} HeadNamesToken(boundary: bytes)
    ensures HeadBoundary(Join(HeadLines(boundary))) ==
            var token := Token(boundary + HeadTail());
            if token == [] || |token| > MAX_BOUNDARY then Err(InvalidFormat) else Ok(Some(token))
  {
    hide Find, Join, Token, STATUS_LINE, STREAM_TYPE, BOUNDARY_IS;
    assert HeadLines(boundary)[2..] == [CACHE_LINE, PRAGMA_LINE, CLOSE_LINE, ORIGIN_LINE];
    hide HeadLines;
    var head := Join(HeadLines(boundary));
    HeadUnfolds(boundary);
    BoundaryFound(boundary + HeadTail());
    var b := Find(head, BOUNDARY_IS).value;
    assert head[b + 9..] == boundary + HeadTail();
  }

  /** The reader learns a boundary from the head exactly, or not at all, or cut short. */
  lemma {:induction false} HeadNamesBoundary(boundary: bytes)
    ensures var named := HeadBoundary(Join(HeadLines(boundary)));
            && (named == Ok(Some(boundary)) <==>
                0 < |boundary| <= MAX_BOUNDARY && forall c :: c in boundary ==> !StopsToken(c))
            && (named.Ok? ==> named.value.Some? && named.value.value != [])
  {
    hide HeadBoundary, Token, Join, HeadLines;
    HeadNamesToken(boundary);
    TokenStops(boundary, HeadTail());
  }

  lemma {:induction false} HeadHasSix(boundary: bytes)
    ensures |HeadLines(boundary)| == 6
  {
  }

  lemma {:induction false} FirstLinesCrFree()
    ensures STATUS_LINE != [] && STREAM_TYPE != []
    ensures CR !in STATUS_LINE && CR !in STREAM_TYPE && CR !in BOUNDARY_IS
  {
  }

  lemma {:induction false} LastLinesCrFree()
    ensures CACHE_LINE != [] && PRAGMA_LINE != [] && CLOSE_LINE != [] && ORIGIN_LINE != []
    ensures CR !in CACHE_LINE && CR !in PRAGMA_LINE && CR !in CLOSE_LINE && CR !in ORIGIN_LINE
  {
  }

  lemma {:induction false} HeadLinesCrFree(boundary: bytes)
    requires CR !in boundary
    ensures CrFree(HeadLines(boundary))
  {
    hide STATUS_LINE, STREAM_TYPE, BOUNDARY_IS, CACHE_LINE, PRAGMA_LINE, CLOSE_LINE, ORIGIN_LINE;
    FirstLinesCrFree();
    LastLinesCrFree();
    assert CR !in STREAM_TYPE + BOUNDARY_IS + boundary;
  }

  /** The head in a stream cut after `n` bytes: found once it is whole. */
  lemma {:induction false} HeadCut(boundary: bytes, rest: bytes, n: nat)
    requires CR !in boundary && n <= |Head(boundary) + rest|
    ensures var x, e := Head(boundary) + rest, |Head(boundary)| - 4;
            && e >= 5 && x[..e] == Join(HeadLines(boundary))
            && Find(x[..n], BLANK) == if e + 4 <= n then Some(e) else None
  {
    hide Find, Join, HeadLines, BLANK;
    var lines, x := HeadLines(boundary), Head(boundary) + rest;
    BlankLen();
    HeadHasSix(boundary);
    HeadLinesCrFree(boundary);
    BlankBehindLines(lines, rest);
    assert x == Join(lines) + BLANK + rest;
    FindInCut(x, n, BLANK);
    HeadStarts(boundary);
  }

  lemma {:induction false} HeadStarts(boundary: bytes)
    ensures |Join(HeadLines(boundary))| >= 5 && Join(HeadLines(boundary))[..5] == HTTP_SLASH
  {
    hide Join;
    var l := HeadLines(boundary);
    assert l == [l[0]] + l[1..];
    JoinCons(l[0], l[1..]);
    assert STATUS_LINE[..5] == HTTP_SLASH;
  }
}
