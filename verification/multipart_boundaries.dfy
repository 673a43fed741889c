/** Exactly which boundaries survive the trip. */
module MultipartBoundaries {
  import opened Bytes
  import opened Text
  import opened Multipart
  import opened MultipartReader
  import opened MultipartShape
  import opened MultipartRoundTrip

  lemma {:induction false} AllWhole(boundary: bytes, frames: seq<Frame>)
    ensures WholeIn(boundary, frames, |Parts(boundary, frames)|) == frames
    ensures PartsFit(boundary, frames, |Parts(boundary, frames)|)
  {
    hide Part;
    if frames != [] {
      AllWhole(boundary, frames[1..]);
      forall k | 0 <= k < |frames| ensures |Part(boundary, frames[k])| <= |Parts(boundary, frames)| {
        assert k > 0 ==> frames[k] == frames[1..][k - 1];
      }
    }
  }

  /** The whole stream, however cut, delivers every frame. */
  lemma {:induction false} WholeStream(withHead: bool, boundary: bytes, frames: seq<Frame>, chunks: seq<bytes>, cap: nat)
    requires Carriable(boundary, withHead) && PartsFit(boundary, frames, cap) && cap <= U64_MAX
    requires Concat(chunks) == Stream(withHead, boundary, frames)
    requires Room(withHead, boundary, frames, cap, 0, chunks)
    ensures FeedAll(Init(cap), chunks).got == Deliveries(frames)
    ensures FeedAll(Init(cap), chunks).error == None
  {
    hide Room, FeedAll, WholeIn, Deliveries, Head, Parts, Find, PartsFit, Oversize;
    FitMore(boundary, frames, cap, U64_MAX);
    FitIsNotOversize(boundary, frames, cap, |Parts(boundary, frames)|);
    EveryChunking(withHead, boundary, frames, chunks, cap);
    AllWhole(boundary, frames);
  }

  lemma {:induction false} OneChunk(x: bytes)
    ensures Concat([x]) == x
  {
    assert [x][1..] == [];
  }

  lemma {:induction false} OneFeed(s: State, x: bytes)
    ensures |s.data| + |x| <= s.cap ==> FeedAll(s, [x]).got == Drain(s.(data := s.data + x)).got
  {
    hide Drain;
    var first := Feed(s, x);
    assert FeedAll(first.state, [x][1..]) == Run(first.state, [], None);
    assert first.got + [] == first.got;
  }

  /** A reader with another boundary in mind takes nothing out of a stream that starts with a part. */
  lemma {:induction false} RefusesPart(s: State, boundary: bytes, f: Frame, tail: bytes)
    requires Find(boundary, CRLF) == None && s.data == Part(boundary, f) + tail
    requires Learn(s.boundary, boundary) != Ok(boundary)
    ensures ParsePart(s).result.Ok? ==> ParsePart(s).result.value == None
  {
    hide Find, Part, ReadPart, Learn, StripDashes;
    PartShape(boundary, f, tail);
    assert s.data[0..] == s.data && s.data[0] == s.data[..2][0] == DASH;
    assert SkipNewlines(s.data, 0) == 0;
    assert |s.data| >= 2;
  }

  lemma {:induction false} DrainsNothing(s: State)
    requires NextPart(s).result.Ok? ==> NextPart(s).result.value == None
    ensures Drain(s).got == []
  {
    hide NextPart;
  }

  lemma {:induction false} NotCarried(withHead: bool, boundary: bytes, frames: seq<Frame>, s: State)
    requires CR !in boundary && Find(boundary, CRLF) == None && !Carriable(boundary, withHead) && frames != []
    requires s.data == Stream(withHead, boundary, frames) && s.phase == Start && s.boundary == []
    ensures Drain(s).got == []
  {
    hide Find, Head, Part, ParsePart, HeadBoundary, BLANK, HTTP_SLASH, PartsFit;
    PartsCons(boundary, frames);
    hide Parts;
    var f, tail, x := frames[0], Parts(boundary, frames[1..]), s.data;
    if withHead {
      var rest := Parts(boundary, frames);
      HeadCut(boundary, rest, |x|);
      HeadStarts(boundary);
      HeadNamesBoundary(boundary);
      assert x[..|x|] == x && x[..5] == x[..|Head(boundary)| - 4][..5];
      var named := HeadBoundary(Join(HeadLines(boundary)));
      if named.Ok? {
        var u := s.(data := rest, phase := InParts, boundary := named.value.value);
        assert x[|Head(boundary)|..] == rest;
        RefusesPart(u, boundary, f, tail);
        assert NextPart(s) == ParsePart(u);
      }
    } else {
      assert x == Parts(boundary, frames);
      RefusesPart(s.(phase := InParts), boundary, f, tail);
      assert x[..|x|] == x;
      NextAtStart(s, boundary, frames, |x|);
    }
    DrainsNothing(s);
  }

  /** Of the boundaries the writer is documented for (no CR, LF or `"`), exactly those of 1 to 70 bytes survive
      that hold no space and no `;` when the head names them, and do not end in `--` when it does not. */
  lemma {:induction false} ExactBoundaries(withHead: bool, boundary: bytes, frames: seq<Frame>, cap: nat)
    requires CR !in boundary && LF !in boundary && QUOTE !in boundary && frames != []
    requires |Stream(withHead, boundary, frames)| <= cap <= U64_MAX
    ensures FeedAll(Init(cap), [Stream(withHead, boundary, frames)]).got == Deliveries(frames) <==>
            && 0 < |boundary| <= 70
            && (withHead ==> SPACE !in boundary && SEMICOLON !in boundary)
            && (!withHead ==> !(|boundary| >= 2 && boundary[|boundary| - 2..] == [DASH, DASH]))
  {
    hide Find, Head, Part, Parts, FeedAll, Concat, PartsFit, Drain;
    NoCrlf(boundary);
    var x := Stream(withHead, boundary, frames);
    assert Carriable(boundary, withHead) <==>
           && 0 < |boundary| <= 70
           && (withHead ==> SPACE !in boundary && SEMICOLON !in boundary)
           && (!withHead ==> !(|boundary| >= 2 && boundary[|boundary| - 2..] == [DASH, DASH])) by {
      NoStops(boundary);
    }
    if Carriable(boundary, withHead) {
      OneChunk(x);
      AllWhole(boundary, frames);
      FitMore(boundary, frames, |Parts(boundary, frames)|, cap);
      RoomForOne(withHead, boundary, frames, cap, x);
      WholeStream(withHead, boundary, frames, [x], cap);
    } else {
      OneFeed(Init(cap), x);
      assert [] + x == x;
      NotCarried(withHead, boundary, frames, Init(cap).(data := x));
    }
  }

  lemma {:induction false} RoomForOne(withHead: bool, boundary: bytes, frames: seq<Frame>, cap: nat, x: bytes)
    requires |x| <= cap
    ensures Room(withHead, boundary, frames, cap, 0, [x])
  {
    hide Head, WholeIn;
    assert Room(withHead, boundary, frames, cap, |x|, [x][1..]);
    assert Held(withHead, boundary, frames, 0) <= 0;
  }

  lemma {:induction false} FitMore(boundary: bytes, frames: seq<Frame>, cap: nat, more: nat)
    requires PartsFit(boundary, frames, cap) && cap <= more
    ensures PartsFit(boundary, frames, more)
  {
    hide Part;
  }

  lemma {:induction false} NoCrlf(boundary: bytes)
    requires CR !in boundary
    ensures Find(boundary, CRLF) == None
  {
    if Find(boundary, CRLF).Some? {
      FirstByteMatches(boundary, CRLF, Find(boundary, CRLF).value);
    }
  }

  lemma {:induction false} NoStops(boundary: bytes)
    requires CR !in boundary && QUOTE !in boundary
    ensures (forall c :: c in boundary ==> !StopsToken(c)) <==> SPACE !in boundary && SEMICOLON !in boundary
  {
    if forall c :: c in boundary ==> !StopsToken(c) {
      assert StopsToken(SPACE) && StopsToken(SEMICOLON);
    }
  }
}
