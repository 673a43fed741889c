/** What the multipart reader steps over and what it refuses, for parts from any writer. */
module MultipartRefusals {
  import opened Bytes
  import opened Text
  import opened Multipart
  import opened MultipartReader
  import opened MultipartShape
  import RT = MultipartRoundTrip

  // ----- newlines in front of a part

  lemma {:induction false} SkipAll(nl: bytes, d: bytes)
    requires forall c :: c in nl ==> c == 13 || c == 10
    ensures SkipNewlines(nl + d, 0) == |nl| + SkipNewlines(d, 0)
  {
    SkipFrom(nl, d, 0);
    SkipShift(nl, d, 0);
  }

  lemma {:induction false} SkipFrom(nl: bytes, d: bytes, i: nat)
    requires i <= |nl| && forall c :: c in nl ==> c == 13 || c == 10
    ensures SkipNewlines(nl + d, i) == SkipNewlines(nl + d, |nl|)
    decreases |nl| - i
  {
    if i < |nl| {
      assert (nl + d)[i] == nl[i] && nl[i] in nl;
      SkipFrom(nl, d, i + 1);
    }
  }

  lemma {:induction false} SkipShift(nl: bytes, d: bytes, i: nat)
    requires i <= |d|
    ensures SkipNewlines(nl + d, |nl| + i) == |nl| + SkipNewlines(d, i)
    decreases |d| - i
  {
    if i < |d| {
      assert (nl + d)[|nl| + i] == d[i];
      if d[i] == CR || d[i] == LF {
        SkipShift(nl, d, i + 1);
      }
    }
  }

  lemma {:induction false} Behind(nl: bytes, d: bytes, i: nat, j: nat)
    requires i <= j <= |d|
    ensures (nl + d)[|nl| + i..|nl| + j] == d[i..j] && (nl + d)[|nl| + i..] == d[i..]
  {
  }

  lemma {:induction false} ReadBehind(s: State, nl: bytes, h: nat)
    requires h <= |s.data| && ReadPart(s, h).result.Ok? && ReadPart(s, h).result.value.Some?
    requires PartOf(ReadPart(s, h).result.value.value, s.data) && |nl + s.data| <= U64_MAX
    ensures var p := ReadPart(s, h).result.value.value;
            ReadPart(s.(data := nl + s.data), |nl| + h) ==
            Step(s.(data := nl + s.data, parts := s.parts + 1),
                 Ok(Some(PartInfo(|nl| + p.start, |nl| + p.end, p.timestamp, |nl| + p.consumed))))
  {
    hide Find, Split, ReadHeaders, BLANK, ReadPart;
    var d := s.data;
    var b, f := PartFields(s, h);
    Behind(nl, d, h, h);
    Behind(nl, d, h, h + b);
    RT.ReadPartFields(s, h, b, f);
    RT.ReadPartFields(s.(data := nl + d), |nl| + h, b, f);
  }

  /** What a part that is read says: where its headers end, and its fields. */
  lemma {:induction false} PartFields(s: State, h: nat) returns (b: nat, f: Fields)
    requires h <= |s.data| <= U64_MAX && ReadPart(s, h).result.Ok? && ReadPart(s, h).result.value.Some?
    requires PartOf(ReadPart(s, h).result.value.value, s.data)
    ensures h + b + 4 <= |s.data| && Find(s.data[h..], BLANK) == Some(b)
    ensures ReadHeaders(Split(s.data[h..h + b], LF), Fields(None, None)) == Ok(f)
    ensures f.length.Some? && h + b + 4 + f.length.value + 2 <= |s.data|
  {
    hide Find, Split, ReadHeaders, BLANK;
    BlankInside(s.data[h..]);
    b := Find(s.data[h..], BLANK).value;
    f := ReadHeaders(Split(s.data[h..h + b], LF), Fields(None, None)).value;
    NoWrap(h + b + 4, f.length.value, |s.data|);
  }

  lemma {:induction false} NoWrap(start: nat, length: nat, used: nat)
    requires start <= used <= U64_MAX && length <= U64_MAX
    requires start <= (start + length) % (U64_MAX + 1) < ((start + length) % (U64_MAX + 1) + 2) % (U64_MAX + 1) <= used
    ensures start + length + 2 <= used
  {
    Wrapped(start + length);
    Wrapped((start + length) % (U64_MAX + 1) + 2);
  }

  lemma {:induction false} Wrapped(x: nat)
    requires x < 2 * (U64_MAX + 1)
    ensures x % (U64_MAX + 1) == if x <= U64_MAX then x else x - (U64_MAX + 1)
  {
  }

  /** Line ends in front of a delimiter change nothing but where the part stands. */
  lemma {:induction false} NewlinesSkipped(s: State, nl: bytes)
    requires forall c :: c in nl ==> c == 13 || c == 10
    requires ParsePart(s).result.Ok? && ParsePart(s).result.value.Some?
    requires PartOf(ParsePart(s).result.value.value, s.data) && |nl + s.data| <= U64_MAX
    ensures var p, r := ParsePart(s).result.value.value, ParsePart(s.(data := nl + s.data));
            && r.result == Ok(Some(PartInfo(|nl| + p.start, |nl| + p.end, p.timestamp, |nl| + p.consumed)))
            && r.state == ParsePart(s).state.(data := nl + s.data)
            && (nl + s.data)[|nl| + p.start..|nl| + p.end] == s.data[p.start..p.end]
  {
    hide Find, SkipNewlines, ReadPart, Learn, StripDashes;
    var d, i := s.data, SkipNewlines(s.data, 0);
    SkipAll(nl, d);
    Behind(nl, d, i, i + 2);
    var e := Find(d[i..], CRLF).value;
    AfterDashes(d[i..], e);
    Behind(nl, d, i + 2, i + e);
    var known := s.(boundary := Learn(s.boundary, d[i + 2..i + e]).value);
    ReadBehind(known, nl, i + e + 2);
    var p := ParsePart(s).result.value.value;
    Behind(nl, d, p.start, p.end);
  }

  // ----- refusals

  /** Anything but `--` where a part should start is refused. */
  lemma {:induction false} NoDelimiter(s: State)
    requires |s.data| >= 2 && s.data[0] != 13 && s.data[0] != 10 && !(s.data[0] == 45 && s.data[1] == 45)
    ensures ParsePart(s) == Step(s, Err(InvalidFormat))
  {
    assert SkipNewlines(s.data, 0) == 0;
    assert s.data[0..2][0] == s.data[0] && s.data[0..2][1] == s.data[1];
  }

  lemma {:induction false} LineRead(s: State, line: bytes, rest: bytes)
    requires s.data == [45, 45] + line + [13, 10] + rest && Find(line, CRLF) == None
    ensures ParsePart(s) ==
            match Learn(s.boundary, line)
            case Err(err) => Step(s, Err(err))
            case Ok(boundary) =>
              var s1 := s.(boundary := boundary);
              if line == boundary then ReadPart(s1, |line| + 4)
              else if StripDashes(line) == Some(boundary) then Step(s1.(phase := Done), Ok(None))
              else Step(s1, Err(InvalidFormat))
  {
    hide Find, ReadPart, Learn, StripDashes;
    assert s.data == DASHES + line + CRLF + rest;
    DelimiterEnds(line, rest);
    assert SkipNewlines(s.data, 0) == 0 && s.data[0..] == s.data;
    assert s.data[2..|line| + 2] == line;
  }

  /** A delimiter line that is neither the stream's boundary nor its closing form is refused. */
  lemma {:induction false} WrongBoundary(s: State, line: bytes, rest: bytes)
    requires s.data == [45, 45] + line + [13, 10] + rest && Find(line, CRLF) == None
    requires s.boundary != [] && line != s.boundary && line != s.boundary + [45, 45]
    ensures ParsePart(s) == Step(s, Err(InvalidFormat))
  {
    hide Find, ReadPart;
    LineRead(s, line, rest);
    if StripDashes(line).Some? {
      assert line == line[..|line| - 2] + line[|line| - 2..];
    }
  }

  /** The first delimiter line is refused as a boundary when it is empty or longer than 70 bytes, closing dashes aside. */
  lemma {:induction false} BadFirstLine(s: State, line: bytes, rest: bytes)
    requires s.data == [45, 45] + line + [13, 10] + rest && Find(line, CRLF) == None && s.boundary == []
    requires var n := if |line| >= 2 && line[|line| - 2] == 45 && line[|line| - 1] == 45 then |line| - 2 else |line|;
             n == 0 || n > 70
    ensures ParsePart(s) == Step(s, Err(InvalidFormat))
  {
    hide Find, ReadPart;
    LineRead(s, line, rest);
    if |line| >= 2 {
      assert line[|line| - 2..] == [line[|line| - 2], line[|line| - 1]];
    }
  }

  // ----- headers

  /** A header line of that name, in any case. */
  predicate Names(line: bytes, name: bytes) {
    |line| >= |name| && EqIgnoreCase(line[..|name|], name)
  }

  predicate PlainLines(lines: seq<bytes>) {
    forall k :: 0 <= k < |lines| ==> PlainLine(lines[k])
  }

  /** The lines as the reader splits them: each with its CR but the last. */
  function WithCr(lines: seq<bytes>): seq<bytes> {
    if |lines| <= 1 then lines else [lines[0] + [CR]] + WithCr(lines[1..])
  }

  lemma {:induction false} SplitLines(lines: seq<bytes>)
    requires lines != [] && PlainLines(lines)
    ensures Split(Join(lines), LF) == WithCr(lines)
    decreases |lines|
  {
    hide Split, Join;
    PlainIs(lines[0]);
    if |lines| == 1 {
      assert lines == [lines[0]];
      JoinCons(lines[0], lines);
      SplitWhole(lines[0], LF);
    } else {
      assert lines == [lines[0]] + lines[1..];
      JoinCons(lines[0], lines[1..]);
      SplitLines(lines[1..]);
      assert Join(lines) == (lines[0] + [CR]) + [LF] + Join(lines[1..]);
      SplitCons(lines[0] + [CR], LF, Join(lines[1..]));
    }
  }

  /** Lines without a length leave it unknown. */
  lemma {:induction false} NoLength(lines: seq<bytes>, f: Fields)
    requires PlainLines(lines) && forall k :: 0 <= k < |lines| ==> !Names(lines[k], LENGTH_NAME)
    ensures ReadHeaders(WithCr(lines), f).Ok? && ReadHeaders(WithCr(lines), f).value.length == f.length
    decreases |lines|
  {
    hide TrimSpaces, ParseUsize, EqIgnoreCase, StripCr, PlainLine, LENGTH_NAME, TIMESTAMP_NAME;
    if lines != [] {
      StripCrIs(lines[0]);
      var first := WithCr(lines)[0];
      assert ReadHeader(first, f).Ok? && ReadHeader(first, f).value.length == f.length;
      if |lines| > 1 {
        assert WithCr(lines)[1..] == WithCr(lines[1..]);
        NoLength(lines[1..], ReadHeader(first, f).value);
      } else {
        assert WithCr(lines)[1..] == [];
      }
    }
  }

  /** A length that is not a 64-bit number is refused. */
  lemma {:induction false} BadLength(lines: seq<bytes>, f: Fields, at: nat)
    requires PlainLines(lines) && at < |lines| && Names(lines[at], LENGTH_NAME)
    requires ParseUsize(TrimSpaces(lines[at][15..])) == None
    requires forall k :: 0 <= k < at ==> !Names(lines[k], LENGTH_NAME)
    ensures ReadHeaders(WithCr(lines), f) == Err(InvalidFormat)
    decreases |lines|
  {
    hide TrimSpaces, ParseUsize, EqIgnoreCase, StripCr, PlainLine, TIMESTAMP_NAME;
    StripCrIs(lines[0]);
    NameLen();
    hide LENGTH_NAME;
    var first := WithCr(lines)[0];
    if at == 0 {
      assert ReadHeader(first, f) == Err(InvalidFormat);
    } else {
      assert ReadHeader(first, f).Ok?;
      assert WithCr(lines)[1..] == WithCr(lines[1..]);
      BadLength(lines[1..], ReadHeader(first, f).value, at - 1);
    }
  }

  lemma {:induction false} NameLen()
    ensures |LENGTH_NAME| == 15
  {
  }

  lemma {:induction false} HeadersRead(s: State, lines: seq<bytes>, rest: bytes, h: nat)
    requires lines != [] && PlainLines(lines) && h <= |s.data| && s.data[h..] == Join(lines) + BLANK + rest
    ensures Find(s.data[h..], BLANK) == Some(|Join(lines)|) && h + |Join(lines)| <= |s.data|
    ensures Split(s.data[h..h + |Join(lines)|], LF) == WithCr(lines)
  {
    hide Find, Split, Join, BLANK;
    forall k | 0 <= k < |lines| ensures lines[k] != [] && CR !in lines[k] {
      PlainIs(lines[k]);
      assert PlainLine(lines[k]);
    }
    BlankBehindLines(lines, rest);
    SplitLines(lines);
    assert s.data[h..h + |Join(lines)|] == s.data[h..][..|Join(lines)|] == Join(lines);
  }

  /** A part whose headers give no length is refused once they are whole. */
  lemma {:induction false} LengthMissing(s: State, lines: seq<bytes>, rest: bytes, h: nat)
    requires lines != [] && PlainLines(lines) && h <= |s.data| && s.data[h..] == Join(lines) + BLANK + rest
    requires forall k :: 0 <= k < |lines| ==> !Names(lines[k], LENGTH_NAME)
    ensures ReadPart(s, h) == Step(s, Err(Unsupported))
  {
    hide Find, Split, Join, BLANK, ReadHeaders, WithCr, PlainLine, Names, LENGTH_NAME;
    HeadersRead(s, lines, rest, h);
    NoLength(lines, Fields(None, None));
  }

  /** And so is one whose first length is no 64-bit number. */
  lemma {:induction false} LengthMalformed(s: State, lines: seq<bytes>, rest: bytes, h: nat, at: nat)
    requires PlainLines(lines) && h <= |s.data| && s.data[h..] == Join(lines) + BLANK + rest
    requires at < |lines| && Names(lines[at], LENGTH_NAME) && ParseUsize(TrimSpaces(lines[at][15..])) == None
    requires forall k :: 0 <= k < at ==> !Names(lines[k], LENGTH_NAME)
    ensures ReadPart(s, h) == Step(s, Err(InvalidFormat))
  {
    hide Find, Split, Join, BLANK, ReadHeaders, WithCr, PlainLine, Names, LENGTH_NAME, ParseUsize, TrimSpaces;
    HeadersRead(s, lines, rest, h);
    BadLength(lines, Fields(None, None), at);
    ErrorIs(s, h, |Join(lines)|);
  }

  lemma {:induction false} ErrorIs(s: State, h: nat, b: nat)
    requires h + b <= |s.data| && Find(s.data[h..], BLANK) == Some(b)
    requires ReadHeaders(Split(s.data[h..h + b], LF), Fields(None, None)) == Err(InvalidFormat)
    ensures ReadPart(s, h) == Step(s, Err(InvalidFormat))
  {
    hide Find, Split, BLANK, ReadHeaders;
  }
}
