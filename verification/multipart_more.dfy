/** The reader on any bytes at all: what it makes of them does not depend on how they are cut into chunks. */
module MultipartMore {
  import opened Bytes
  import opened Text
  import opened Multipart
  import opened MultipartReader
  import opened MultipartShape

  /** The state with more bytes behind those in use. */
  function With(s: State, b: bytes): State {
    s.(data := s.data + b)
  }

  // ----- one attempt

  /** What is found stays found. */
  lemma {:induction false} FindMore(d: bytes, b: bytes, needle: bytes)
    requires Find(d, needle).Some?
    ensures Find(d + b, needle) == Find(d, needle)
  {
    var k := Find(d, needle).value;
    forall i | 0 <= i <= k ensures MatchAt(d + b, needle, i) <==> MatchAt(d, needle, i) {
      assert i < k ==> !MatchAt(d, needle, i);
      if i + |needle| <= |d| {
        assert (d + b)[i..i + |needle|] == d[i..i + |needle|];
      }
    }
    hide MatchAt;
    FirstIsFound(d + b, needle, k);
  }

  lemma {:induction false} SliceMore(d: bytes, b: bytes, i: nat, j: nat)
    requires i <= j <= |d|
    ensures (d + b)[i..j] == d[i..j] && (d + b)[i..] == d[i..] + b
  {
  }

  lemma {:induction false} SkipMore(d: bytes, b: bytes, i: nat)
    requires i <= |d| && SkipNewlines(d, i) < |d|
    ensures SkipNewlines(d + b, i) == SkipNewlines(d, i)
    decreases |d| - i
  {
    if d[i] == CR || d[i] == LF {
      SkipMore(d, b, i + 1);
    }
  }

  /** A part that is whole, or an error, stays what it is. */
  lemma {:induction false} ReadPartMore(s: State, h: nat, b: bytes)
    requires h <= |s.data| && ReadPart(s, h).result.Ok? && ReadPart(s, h).result.value.Some?
    ensures ReadPart(With(s, b), h) == Step(With(ReadPart(s, h).state, b), ReadPart(s, h).result)
  {
    hide Find, Split, ReadHeaders, BLANK;
    SliceMore(s.data, b, h, h);
    FindMore(s.data[h..], b, BLANK);
    BlankInside(s.data[h..]);
    SliceMore(s.data, b, h, h + Find(s.data[h..], BLANK).value);
  }

  /** The delimiter line of a state, once it is whole. */
  function Line(s: State): (r: Option<(nat, bytes)>)
    ensures r.Some? ==> r.value.0 <= |s.data|
  {
    var i := SkipNewlines(s.data, 0);
    if |s.data| < i + 2 || s.data[i..i + 2] != DASHES then None
    else
      match Find(s.data[i..], CRLF)
      case None => None
      case Some(e) =>
        AfterDashes(s.data[i..], e);
        Some((i + e + 2, s.data[i + 2..i + e]))
  }

  /** What is made of a whole delimiter line that ends at `h`. */
  function Parsed(s: State, h: nat, line: bytes): Step
    requires h <= |s.data|
  {
    match Learn(s.boundary, line)
    case Err(e) => Step(s, Err(e))
    case Ok(boundary) =>
      var s1 := s.(boundary := boundary);
      if line == boundary then ReadPart(s1, h)
      else if StripDashes(line) == Some(boundary) then Step(s1.(phase := Done), Ok(None))
      else Step(s1, Err(InvalidFormat))
  }

  lemma {:induction false} ParseIs(s: State)
    ensures Line(s).Some? ==> ParsePart(s) == Parsed(s, Line(s).value.0, Line(s).value.1)
    ensures Line(s) == None ==> ParsePart(s).state == s
    ensures Line(s) == None && ParsePart(s).result.Ok? ==> ParsePart(s).result.value == None
  {
    hide Find, ReadPart, Learn, StripDashes, SkipNewlines;
  }

  lemma {:induction false} LineMore(s: State, b: bytes)
    requires Line(s).Some?
    ensures Line(With(s, b)) == Line(s)
  {
    hide Find, SkipNewlines;
    var i := SkipNewlines(s.data, 0);
    var d := s.data[i..];
    SkipMore(s.data, b, 0);
    SliceMore(s.data, b, i, i + 2);
    FindMore(d, b, CRLF);
    var e := Find(d, CRLF).value;
    AfterDashes(d, e);
    SliceMore(s.data, b, i + 2, i + e);
  }

  /** A boundary that is learned is learned for good. */
  lemma {:induction false} LearnTwice(known: bytes, line: bytes)
    requires Learn(known, line).Ok?
    ensures Learn(Learn(known, line).value, line) == Ok(Learn(known, line).value)
  {
  }

  /** Nothing yet, or a part: with more bytes a part is the same part, and nothing is what the state left behind makes of
      them. */
  ghost predicate Steady(before: Step, after: Step, again: Step, b: bytes) {
    before.result.Ok? ==>
      if before.result.value.Some? then after == Step(With(before.state, b), before.result)
      else after == again
  }

  lemma {:induction false} ParseMore(s: State, b: bytes)
    ensures s.phase == InParts ==> Steady(ParsePart(s), ParsePart(With(s, b)), NextPart(With(ParsePart(s).state, b)), b)
    ensures ParsePart(s).result.Ok? && ParsePart(s).result.value.Some? ==>
              ParsePart(With(s, b)) == Step(With(ParsePart(s).state, b), ParsePart(s).result)
  {
    hide Line, ParsePart, ReadPart, Learn, StripDashes;
    ParseIs(s);
    if Line(s).Some? {
      LineMore(s, b);
      ParseIs(With(s, b));
      ParsedMore(s, Line(s).value.0, Line(s).value.1, b);
    }
    if s.phase == InParts && ParsePart(s).result == Ok(None) {
      ParseAgain(s, b);
    }
  }

  lemma {:induction false} ParsedMore(s: State, h: nat, line: bytes, b: bytes)
    requires h <= |s.data|
    ensures Parsed(s, h, line).result.Ok? && Parsed(s, h, line).result.value.Some? ==>
              Parsed(With(s, b), h, line) == Step(With(Parsed(s, h, line).state, b), Parsed(s, h, line).result)
  {
    hide ReadPart, Learn, StripDashes;
    if Learn(s.boundary, line).Ok? {
      var s1 := s.(boundary := Learn(s.boundary, line).value);
      if line == s1.boundary && ReadPart(s1, h).result.Ok? && ReadPart(s1, h).result.value.Some? {
        ReadPartMore(s1, h, b);
      }
    }
  }

  lemma {:induction false} ParseAgain(s: State, b: bytes)
    requires s.phase == InParts && ParsePart(s).result == Ok(None)
    ensures ParsePart(With(s, b)) == NextPart(With(ParsePart(s).state, b))
  {
    hide Line, ParsePart, ReadPart, Learn, StripDashes;
    ParseIs(s);
    var t := ParsePart(s).state;
    if Line(s).Some? {
      var h, line := Line(s).value.0, Line(s).value.1;
      LineMore(s, b);
      ParseIs(With(s, b));
      var known := Learn(s.boundary, line);
      if known.Ok? {
        LearnTwice(s.boundary, line);
        NothingRead(s.(boundary := known.value), h);
        LineKnows(s, t, b);
        ParseIs(With(t, b));
      }
    }
  }

  lemma {:induction false} NothingRead(s: State, h: nat)
    requires h <= |s.data|
    ensures ReadPart(s, h).result == Ok(None) ==> ReadPart(s, h).state == s
  {
    hide Find, Split, ReadHeaders, BLANK;
  }

  /** The delimiter line does not depend on what else the state knows. */
  lemma {:induction false} LineKnows(s: State, t: State, b: bytes)
    requires s.data == t.data
    ensures Line(With(s, b)) == Line(With(t, b))
  {
    hide Find, SkipNewlines;
  }

  lemma {:induction false} HeadMore(s: State, b: bytes)
    requires s.phase == InHead
    ensures Steady(AfterStart(s), AfterStart(With(s, b)), NextPart(With(AfterStart(s).state, b)), b)
  {
    hide Find, ParsePart, HeadBoundary;
    if Find(s.data, BLANK).Some? {
      FindMore(s.data, b, BLANK);
      BlankInside(s.data);
      var end := Find(s.data, BLANK).value;
      SliceMore(s.data, b, end + 4, end + 4);
      SliceMore(s.data, b, 0, end);
      var named := HeadBoundary(s.data[..end]);
      assert (s.data + b)[..end] == s.data[..end];
      if named.Ok? {
        var t := s.(data := s.data[end + 4..], phase := InParts,
                    boundary := if named.value.Some? then named.value.value else s.boundary);
        ParseMore(t, b);
      }
    }
  }

  /** One attempt with more bytes. */
  lemma {:induction false} NextMore(s: State, b: bytes)
    ensures Steady(NextPart(s), NextPart(With(s, b)), NextPart(With(NextPart(s).state, b)), b)
  {
    hide ParsePart, AfterStart, Steady;
    StartMore(s, b);
    if s.phase != Start {
      LaterMore(s, b);
    }
  }

  lemma {:induction false} LaterMore(s: State, b: bytes)
    requires s.phase != Start
    ensures Steady(AfterStart(s), AfterStart(With(s, b)), NextPart(With(AfterStart(s).state, b)), b)
  {
    if s.phase == InHead {
      HeadMore(s, b);
    } else if s.phase == InParts {
      ParseMore(s, b);
    }
  }

  lemma {:induction false} StartMore(s: State, b: bytes)
    ensures s.phase == Start ==>
              Steady(NextPart(s), NextPart(With(s, b)), NextPart(With(NextPart(s).state, b)), b)
  {
    hide ParsePart, AfterStart;
    if s.phase == Start && |s.data| >= 5 {
      SliceMore(s.data, b, 0, 5);
      assert (s.data + b)[..5] == s.data[..5];
      LaterMore(s.(phase := if s.data[..5] == HTTP_SLASH then InHead else InParts), b);
    }
  }

  // ----- the loop

  lemma {:induction false} ReleaseMore(s: State, p: PartInfo, b: bytes)
    requires p.consumed <= |s.data|
    ensures Release(With(s, b), p) == With(Release(s, p), b)
  {
    SliceMore(s.data, b, p.consumed, p.consumed);
  }

  /** Taking parts out with more bytes to come: the same parts, and then what the state left behind makes of them. */
  lemma {:induction false} DrainMore(s: State, b: bytes)
    requires Drain(s).error == None
    ensures var r, more := Drain(s), Drain(With(Drain(s).state, b));
            Drain(With(s, b)) == more.(got := r.got + more.got)
    decreases |s.data|
  {
    hide NextPart, Drain, Release, With;
    DrainStep(s);
    DrainStep(With(s, b));
    NextMore(s, b);
    var n := NextPart(s);
    if n.result.value == None {
      DrainStep(With(n.state, b));
      assert Drain(With(s, b)) == Drain(With(n.state, b));
      var more := Drain(With(n.state, b));
      assert [] + more.got == more.got;
    } else {
      var p := n.result.value.value;
      ReleaseMore(n.state, p, b);
      Smaller(s, p);
      BodyMore(n.state, p, b);
      DrainMore(Release(n.state, p), b);
      var first, rest := Delivery(n.state.data[p.start..p.end], p.timestamp), Drain(Release(n.state, p));
      var more := Drain(With(rest.state, b));
      assert [first] + (rest.got + more.got) == ([first] + rest.got) + more.got;
    }
  }

  lemma {:induction false} Smaller(s: State, p: PartInfo)
    requires NextPart(s).result == Ok(Some(p)) && PartOf(p, NextPart(s).state.data)
    ensures |Release(NextPart(s).state, p).data| < |s.data|
  {
    hide NextPart;
  }

  lemma {:induction false} BodyMore(s: State, p: PartInfo, b: bytes)
    requires PartOf(p, s.data)
    ensures PartOf(p, With(s, b).data) && With(s, b).data[p.start..p.end] == s.data[p.start..p.end]
  {
    SliceMore(s.data, b, p.start, p.end);
  }

  /** A run without an error is what one look at all its bytes would have been. */
  lemma {:induction false} RunIsDrain(s: State, chunks: seq<bytes>)
    requires chunks != [] && FeedAll(s, chunks).error == None
    ensures FeedAll(s, chunks) == Drain(With(s, Concat(chunks)))
    decreases |chunks|
  {
    hide Drain, Concat;
    var c, rest := chunks[0], chunks[1..];
    ConcatCons(c, rest);
    assert chunks == [c] + rest;
    var first := Feed(s, c);
    if rest == [] {
      NoBytes(c);
      assert first.got + [] == first.got;
    } else {
      RunIsDrain(first.state, rest);
      DrainMore(With(s, c), Concat(rest));
      assert s.data + c + Concat(rest) == s.data + (c + Concat(rest));
    }
  }

  lemma {:induction false} NoBytes(c: bytes)
    ensures c + Concat([]) == c
  {
  }

  /** Any bytes, in any two cuts that both get through without an error: the same parts come out, with the same bodies and
      timestamps, and the reader is left in the same state. */
  lemma {:induction false} ChunkingIrrelevant(s: State, a: seq<bytes>, b: seq<bytes>)
    requires a != [] && b != [] && Concat(a) == Concat(b)
    requires FeedAll(s, a).error == None && FeedAll(s, b).error == None
    ensures FeedAll(s, a) == FeedAll(s, b)
  {
    hide FeedAll, Drain, Concat;
    RunIsDrain(s, a);
    RunIsDrain(s, b);
  }
}
