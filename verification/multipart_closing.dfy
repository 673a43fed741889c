/** The delimiter that closes a stream. */
module MultipartClosing {
  import opened Bytes
  import opened Text
  import opened Multipart
  import opened MultipartReader
  import opened MultipartShape
  import opened MultipartRoundTrip
  import opened MultipartBoundaries
  import opened MultipartMore

  /** `--boundary--` and the end of its line. */
  function Closing(boundary: bytes): bytes {
    DASHES + boundary + DASHES + CRLF
  }

  // ----- the closing line

  lemma {:induction false} NoCrlfWithDashes(boundary: bytes)
    requires Find(boundary, CRLF) == None
    ensures Find(boundary + DASHES, CRLF) == None
  {
    var line := boundary + DASHES;
    forall k | 0 <= k ensures !MatchAt(line, CRLF, k) {
      if k + 2 <= |boundary| {
        assert line[k..k + 2] == boundary[k..k + 2] && !MatchAt(boundary, CRLF, k);
      } else if k + 2 <= |line| {
        assert line[k..k + 2][1] == line[k + 1] == DASH;
      }
    }
    hide MatchAt;
  }

  lemma {:induction false} ClosingShape(boundary: bytes, tail: bytes)
    requires Find(boundary, CRLF) == None
    ensures var x := Closing(boundary) + tail;
            && |Closing(boundary)| == |boundary| + 6 && x[..2] == DASHES && x[0] == DASH && x[1] == DASH
            && x[2..|boundary| + 4] == boundary + DASHES
            && Find(x, CRLF) == Some(|boundary| + 4)
  {
    hide Find;
    NoCrlfWithDashes(boundary);
    DelimiterEnds(boundary + DASHES, tail);
    assert Closing(boundary) + tail == DASHES + (boundary + DASHES) + CRLF + tail;
  }

  lemma {:induction false} DashesBack(boundary: bytes)
    ensures StripDashes(boundary + DASHES) == Some(boundary) && boundary + DASHES != boundary
  {
    assert (boundary + DASHES)[..|boundary|] == boundary;
  }

  /** A reader between parts, at the closing line cut after `j` bytes: nothing yet, and once the line is whole the end. */
  lemma {:induction false} LineCut(s: State, boundary: bytes, tail: bytes, j: nat)
    requires GoodBoundary(boundary) && Known(s, boundary)
    requires j <= |Closing(boundary) + tail| && s.data == (Closing(boundary) + tail)[..j]
    ensures ParsePart(s) ==
            Step(if j < |Closing(boundary)| then s else s.(boundary := boundary, phase := Done), Ok(None))
  {
    hide Find, Closing, ReadPart, StripDashes, ParsePart;
    var x := Closing(boundary) + tail;
    ClosingShape(boundary, tail);
    FindInCut(x, j, CRLF);
    if j >= 2 {
      CutSlice(x, j, 0, 2);
    } else if j == 1 {
      assert x[..1] == DASHES[..1];
    }
    if j < |Closing(boundary)| {
      ParseNoLine(s);
    } else {
      CutSlice(x, j, 2, |boundary| + 4);
      ParseClosing(s, boundary);
    }
  }

  lemma {:induction false} ParseClosing(s: State, boundary: bytes)
    requires 0 < |boundary| <= MAX_BOUNDARY && Known(s, boundary)
    requires |s.data| >= |boundary| + 6 && s.data[..2] == DASHES && s.data[2..|boundary| + 4] == boundary + DASHES
    requires Find(s.data, CRLF) == Some(|boundary| + 4)
    ensures ParsePart(s) == Step(s.(boundary := boundary, phase := Done), Ok(None))
  {
    hide Find, ReadPart, StripDashes;
    DashesBack(boundary);
    assert s.data[0] == s.data[..2][0] == DASH;
    assert s.data[0..] == s.data && SkipNewlines(s.data, 0) == 0;
  }

  // ----- behind the parts

  /** The reader after all parts and the first `j` bytes of the closing line and what follows it. */
  predicate Closes(s: State, withHead: bool, boundary: bytes, frames: seq<Frame>, tail: bytes, j: nat) {
    && GoodBoundary(boundary)
    && j <= |Closing(boundary) + tail| && s.data == (Closing(boundary) + tail)[..j]
    && (if j >= |Closing(boundary)| then s.phase == Done
        else Known(s, boundary) && s.phase == if !withHead && frames == [] && j < 5 then Start else InParts)
  }

  lemma {:induction false} NothingNext(s: State)
    requires NextPart(s).result == Ok(None)
    ensures Drain(s) == Run(NextPart(s).state, [], None)
  {
    hide NextPart;
  }

  lemma {:induction false} FeedClosing(s: State, withHead: bool, boundary: bytes, frames: seq<Frame>, tail: bytes, j: nat,
                                       chunk: bytes)
    requires Closes(s, withHead, boundary, frames, tail, j) && j + |chunk| <= |Closing(boundary) + tail|
    requires chunk == (Closing(boundary) + tail)[j..j + |chunk|]
    ensures var r := Drain(With(s, chunk));
            r == Run(r.state, [], None) && r.state.cap == s.cap
            && Closes(r.state, withHead, boundary, frames, tail, j + |chunk|)
  {
    hide Closing, GoodBoundary, Known, ParsePart, Drain;
    var x, t, m := Closing(boundary) + tail, With(s, chunk), j + |chunk|;
    assert t.data == x[..m];
    KnownStays(s, t, boundary);
    ClosingLen(boundary);
    if s.phase == Done {
      NothingNext(t);
    } else if s.phase == InParts {
      LineCut(t, boundary, tail, m);
      NothingNext(t);
    } else {
      KnownStays(s, t.(phase := InParts), boundary);
      LineCut(t.(phase := InParts), boundary, tail, m);
      StartsWithDash(boundary, tail, m);
      NothingNext(t);
    }
  }

  lemma {:induction false} ClosingLen(boundary: bytes)
    ensures |Closing(boundary)| == |boundary| + 6
  {
  }

  lemma {:induction false} StartsWithDash(boundary: bytes, tail: bytes, m: nat)
    requires m <= |Closing(boundary) + tail|
    ensures m >= 5 ==> (Closing(boundary) + tail)[..m][..5] != HTTP_SLASH
  {
    if m >= 5 {
      assert (Closing(boundary) + tail)[..m][..5][0] == DASH;
    }
  }

  /** All parts read: nothing is left over. */
  lemma {:induction false} PartsRead(s: State, withHead: bool, boundary: bytes, frames: seq<Frame>, tail: bytes)
    requires After(s, withHead, boundary, frames, |Stream(withHead, boundary, frames)|)
    ensures Closes(s, withHead, boundary, frames, tail, 0)
  {
    hide Closing, PartsFit, Known, GoodBoundary, After, Oversize;
    PartsLong(boundary, frames);
    ClosingLen(boundary);
    LeftWaiting(s, withHead, boundary, frames);
    WaitingNone(s.(phase := InParts), boundary);
    KnownStays(s, s.(phase := InParts), boundary);
    assert (Closing(boundary) + tail)[..0] == [];
  }

  lemma {:induction false} WaitingNone(s: State, boundary: bytes)
    requires Waiting(s, boundary, [], 0)
    ensures GoodBoundary(boundary) && Known(s, boundary) && s.data == []
  {
    hide GoodBoundary, Known, Oversize, PartsFit;
  }

  lemma {:induction false} LeftWaiting(s: State, withHead: bool, boundary: bytes, frames: seq<Frame>)
    requires After(s, withHead, boundary, frames, |Stream(withHead, boundary, frames)|)
    ensures Waiting(s.(phase := InParts), boundary, [], 0)
    ensures s.phase == if !withHead && frames == [] then Start else InParts
  {
    hide Head, Waiting, Rest, Left, Parts, After, Stream;
    var n, h := |Parts(boundary, frames)|, HeadLen(withHead, boundary);
    StreamLen(withHead, boundary, frames);
    AfterIs(s, withHead, boundary, frames, h + n);
    NoneLeft(boundary, frames);
    PartsLong(boundary, frames);
    RestParts(boundary, frames, n);
    PartsCons(boundary, frames);
    if withHead || frames != [] {
      WaitingPhase(s, boundary, Rest(boundary, frames, n), Left(boundary, frames, n));
    }
  }

  /** The reader behind the head, or at the start of a stream without one. */
  lemma {:induction false} AfterIs(s: State, withHead: bool, boundary: bytes, frames: seq<Frame>, n: nat)
    requires After(s, withHead, boundary, frames, n) && n >= HeadLen(withHead, boundary)
    ensures var m := n - HeadLen(withHead, boundary);
            if !withHead && n < 5 then s.phase == Start && Waiting(s.(phase := InParts), boundary, frames, n)
            else Waiting(s, boundary, Rest(boundary, frames, m), Left(boundary, frames, m))
  {
    hide Head, Waiting, TooBig, Rest, Left, Parts, Stream, PartsFit, Carriable;
  }

  lemma {:induction false} StreamLen(withHead: bool, boundary: bytes, frames: seq<Frame>)
    ensures |Stream(withHead, boundary, frames)| == HeadLen(withHead, boundary) + |Parts(boundary, frames)|
  {
    hide Head, Parts;
  }

  lemma {:induction false} WaitingPhase(s: State, boundary: bytes, frames: seq<Frame>, n: nat)
    requires Waiting(s, boundary, frames, n)
    ensures s.phase == InParts && s == s.(phase := InParts)
  {
    hide GoodBoundary, Known, Oversize, PartsFit, Parts;
  }

  lemma {:induction false} NoneLeft(boundary: bytes, frames: seq<Frame>)
    ensures Rest(boundary, frames, |Parts(boundary, frames)|) == []
  {
    AllWhole(boundary, frames);
  }

  lemma {:induction false} PartsLong(boundary: bytes, frames: seq<Frame>)
    ensures frames != [] ==> |Parts(boundary, frames)| >= 5
    ensures frames == [] ==> Parts(boundary, frames) == []
  {
    hide Part;
  }

  // ----- whole connections

  /** Everything sent: the stream, the closing line, and whatever follows. */
  function Sent(withHead: bool, boundary: bytes, frames: seq<Frame>, tail: bytes): bytes {
    Stream(withHead, boundary, frames) + (Closing(boundary) + tail)
  }

  /** What the reader still holds of the first `n` bytes: it keeps everything behind the last part. */
  function HeldOf(withHead: bool, boundary: bytes, frames: seq<Frame>, n: nat): nat {
    var l := |Stream(withHead, boundary, frames)|;
    if n <= l then Held(withHead, boundary, frames, n) else n - l
  }

  predicate RoomFor(withHead: bool, boundary: bytes, frames: seq<Frame>, cap: nat, n: nat, chunks: seq<bytes>)
    decreases |chunks|
  {
    chunks == [] ||
    (&& HeldOf(withHead, boundary, frames, n) + |chunks[0]| <= cap
     && RoomFor(withHead, boundary, frames, cap, n + |chunks[0]|, chunks[1..]))
  }

  /** The reader after the first `n` bytes. */
  predicate Reads(s: State, withHead: bool, boundary: bytes, frames: seq<Frame>, tail: bytes, n: nat) {
    var l := |Stream(withHead, boundary, frames)|;
    if n <= l then After(s, withHead, boundary, frames, n) else Closes(s, withHead, boundary, frames, tail, n - l)
  }

  /** What has come out by then. */
  function Out(withHead: bool, boundary: bytes, frames: seq<Frame>, n: nat): seq<Delivery> {
    Deliveries(Whole(withHead, boundary, frames, Min(n, |Stream(withHead, boundary, frames)|)))
  }

  predicate Moved(s: State, withHead: bool, boundary: bytes, frames: seq<Frame>, tail: bytes, n: nat, m: nat, r: Run) {
    && r.error == None && r.state.cap == s.cap
    && Out(withHead, boundary, frames, n) + r.got == Out(withHead, boundary, frames, m)
    && Reads(r.state, withHead, boundary, frames, tail, m)
  }

  /** A chunk within the stream. */
  lemma {:induction false} FeedInside(s: State, withHead: bool, boundary: bytes, frames: seq<Frame>, tail: bytes, n: nat,
                                      chunk: bytes)
    requires PartsFit(boundary, frames, s.cap) && After(s, withHead, boundary, frames, n)
    requires n + |chunk| <= |Stream(withHead, boundary, frames)|
    requires chunk == Stream(withHead, boundary, frames)[n..n + |chunk|]
    requires Held(withHead, boundary, frames, n) + |chunk| <= s.cap
    ensures Moved(s, withHead, boundary, frames, tail, n, n + |chunk|, Feed(s, chunk))
  {
    hide Stream, After, Held, Feed, Whole, Deliveries, TooBig;
    FeedAfter(s, withHead, boundary, frames, n, chunk);
    NeverTooBig(withHead, boundary, frames, s.cap, n + |chunk|);
  }

  lemma {:induction false} NeverTooBig(withHead: bool, boundary: bytes, frames: seq<Frame>, cap: nat, n: nat)
    requires PartsFit(boundary, frames, cap)
    ensures !TooBig(withHead, boundary, frames, cap, n)
  {
    hide Oversize, PartsFit;
    if HeadLen(withHead, boundary) <= n {
      FitIsNotOversize(boundary, frames, cap, n - HeadLen(withHead, boundary));
    }
  }

  /** A chunk that runs past the last part is two: one up to there and one behind it. */
  lemma {:induction false} FeedAcross(s: State, withHead: bool, boundary: bytes, frames: seq<Frame>, tail: bytes, n: nat,
                                      a: bytes, b: bytes)
    requires PartsFit(boundary, frames, s.cap) && After(s, withHead, boundary, frames, n)
    requires n + |a| == |Stream(withHead, boundary, frames)| && a == Stream(withHead, boundary, frames)[n..n + |a|]
    requires b != [] && |b| <= |Closing(boundary) + tail| && b == (Closing(boundary) + tail)[0..|b|]
    requires Held(withHead, boundary, frames, n) + |a + b| <= s.cap
    ensures Moved(s, withHead, boundary, frames, tail, n, n + |a + b|, Feed(s, a + b))
  {
    hide Stream, After, Held, Whole, Deliveries, PartsFit, Closes, Drain, Closing;
    HoldsHeld(s, withHead, boundary, frames, n);
    FeedInside(s, withHead, boundary, frames, tail, n, a);
    var r := Drain(With(s, a));
    PartsRead(r.state, withHead, boundary, frames, tail);
    FeedClosing(r.state, withHead, boundary, frames, tail, 0, b);
    DrainMore(With(s, a), b);
    assert s.data + a + b == s.data + (a + b);
    var more := Drain(With(r.state, b));
    assert r.got + more.got == r.got;
  }

  /** A chunk behind the last part. */
  lemma {:induction false} FeedBehind(s: State, withHead: bool, boundary: bytes, frames: seq<Frame>, tail: bytes, n: nat,
                                      chunk: bytes)
    requires n > |Stream(withHead, boundary, frames)|
    requires Closes(s, withHead, boundary, frames, tail, n - |Stream(withHead, boundary, frames)|)
    requires var j := n - |Stream(withHead, boundary, frames)|;
             && j + |chunk| <= |Closing(boundary) + tail|
             && chunk == (Closing(boundary) + tail)[j..j + |chunk|] && j + |chunk| <= s.cap
    ensures Moved(s, withHead, boundary, frames, tail, n, n + |chunk|, Feed(s, chunk))
  {
    hide Stream, Whole, Deliveries, Drain, Closing, GoodBoundary;
    var j := n - |Stream(withHead, boundary, frames)|;
    FeedClosing(s, withHead, boundary, frames, tail, j, chunk);
    var d := Out(withHead, boundary, frames, n);
    assert d + [] == d;
  }

  /** One chunk, wherever it falls. */
  lemma {:induction false} FeedAny(s: State, withHead: bool, boundary: bytes, frames: seq<Frame>, tail: bytes, n: nat,
                                   chunk: bytes)
    requires PartsFit(boundary, frames, s.cap) && Reads(s, withHead, boundary, frames, tail, n)
    requires n + |chunk| <= |Sent(withHead, boundary, frames, tail)|
    requires chunk == Sent(withHead, boundary, frames, tail)[n..n + |chunk|]
    requires HeldOf(withHead, boundary, frames, n) + |chunk| <= s.cap
    ensures Moved(s, withHead, boundary, frames, tail, n, n + |chunk|, Feed(s, chunk))
  {
    hide Stream, Closing, After, Closes, Held, Feed, Moved, PartsFit;
    var x, y := Stream(withHead, boundary, frames), Closing(boundary) + tail;
    var l := |x|;
    Pieces(x, y, n, chunk);
    if n + |chunk| <= l {
      FeedInside(s, withHead, boundary, frames, tail, n, chunk);
    } else if n <= l {
      var a, b := chunk[..l - n], chunk[l - n..];
      assert chunk == a + b;
      FeedAcross(s, withHead, boundary, frames, tail, n, a, b);
    } else {
      FeedBehind(s, withHead, boundary, frames, tail, n, chunk);
    }
  }

  lemma {:induction false} Pieces(x: bytes, y: bytes, n: nat, chunk: bytes)
    requires n + |chunk| <= |x + y| && chunk == (x + y)[n..n + |chunk|]
    ensures n + |chunk| <= |x| ==> chunk == x[n..n + |chunk|]
    ensures n > |x| ==> n - |x| + |chunk| <= |y| && chunk == y[n - |x|..n - |x| + |chunk|]
    ensures n <= |x| < n + |chunk| ==>
              var a, b := chunk[..|x| - n], chunk[|x| - n..];
              a == x[n..n + |a|] && |b| <= |y| && b == y[0..|b|]
  {
  }

  lemma {:induction false} ReadsAll(s: State, withHead: bool, boundary: bytes, frames: seq<Frame>, tail: bytes, n: nat,
                                    chunks: seq<bytes>)
    requires PartsFit(boundary, frames, s.cap) && Reads(s, withHead, boundary, frames, tail, n)
    requires n + |Concat(chunks)| <= |Sent(withHead, boundary, frames, tail)|
    requires Concat(chunks) == Sent(withHead, boundary, frames, tail)[n..n + |Concat(chunks)|]
    requires RoomFor(withHead, boundary, frames, s.cap, n, chunks)
    ensures Moved(s, withHead, boundary, frames, tail, n, n + |Concat(chunks)|, FeedAll(s, chunks))
    decreases |chunks|
  {
    hide Sent, Reads, HeldOf, Feed, Out, PartsFit, Concat;
    NoChunks();
    if chunks == [] {
      assert Out(withHead, boundary, frames, n) + [] == Out(withHead, boundary, frames, n);
    } else {
      var c := chunks[0];
      FirstChunk(Sent(withHead, boundary, frames, tail), n, chunks);
      FeedAny(s, withHead, boundary, frames, tail, n, c);
      var first := Feed(s, c);
      ReadsAll(first.state, withHead, boundary, frames, tail, n + |c|, chunks[1..]);
      var rest := FeedAll(first.state, chunks[1..]);
      var d := Out(withHead, boundary, frames, n);
      assert d + (first.got + rest.got) == (d + first.got) + rest.got;
    }
  }

  /** A stream that ends with its closing delimiter, whatever follows it, cut anywhere: no error, exactly the frames whole
      by then, and the reader is done if and only if the closing line is whole. */
  lemma {:induction false} ClosedStream(withHead: bool, boundary: bytes, frames: seq<Frame>, tail: bytes, chunks: seq<bytes>,
                                        cap: nat)
    requires Carriable(boundary, withHead) && PartsFit(boundary, frames, cap) && cap <= U64_MAX
    requires Concat(chunks) <= Stream(withHead, boundary, frames) + ([45, 45] + boundary + [45, 45, 13, 10] + tail)
    requires RoomFor(withHead, boundary, frames, cap, 0, chunks)
    ensures var r, n, l := FeedAll(Init(cap), chunks), |Concat(chunks)|, |Stream(withHead, boundary, frames)|;
            && r.error == None
            && r.got == Deliveries(Whole(withHead, boundary, frames, Min(n, l)))
            && (n >= l ==> r.got == Deliveries(frames))
            && (r.state.phase == Done <==> n >= l + |boundary| + 6)
  {
    hide Stream, RoomFor, FeedAll, Deliveries, Head, Parts, Find, TooBig, Reads, PartsFit, Whole;
    ClosingIs(boundary, tail);
    FitMore(boundary, frames, cap, U64_MAX);
    StartsAfter(withHead, boundary, frames, cap);
    StartReads(withHead, boundary, frames, tail, cap);
    assert Sent(withHead, boundary, frames, tail)[0..|Concat(chunks)|] == Concat(chunks);
    ReadsAll(Init(cap), withHead, boundary, frames, tail, 0, chunks);
    var r := FeedAll(Init(cap), chunks);
    NoneOut(withHead, boundary, frames);
    assert [] + r.got == r.got;
    AllOut(withHead, boundary, frames);
    DoneExactly(r.state, withHead, boundary, frames, tail, |Concat(chunks)|);
  }

  lemma {:induction false} ClosingIs(boundary: bytes, tail: bytes)
    ensures [45, 45] + boundary + [45, 45, 13, 10] + tail == Closing(boundary) + tail
  {
  }

  lemma {:induction false} StartReads(withHead: bool, boundary: bytes, frames: seq<Frame>, tail: bytes, cap: nat)
    requires After(Init(cap), withHead, boundary, frames, 0)
    ensures Reads(Init(cap), withHead, boundary, frames, tail, 0)
  {
    hide After, Stream;
  }

  lemma {:induction false} NoneOut(withHead: bool, boundary: bytes, frames: seq<Frame>)
    ensures Out(withHead, boundary, frames, 0) == []
  {
    hide Head, WholeIn, Deliveries;
    NothingWhole(boundary, frames, 0);
    DeliveriesConcat([], []);
  }

  lemma {:induction false} AllOut(withHead: bool, boundary: bytes, frames: seq<Frame>)
    ensures Whole(withHead, boundary, frames, |Stream(withHead, boundary, frames)|) == frames
  {
    hide Head, Parts, WholeIn;
    AllWhole(boundary, frames);
  }

  lemma {:induction false} DoneExactly(s: State, withHead: bool, boundary: bytes, frames: seq<Frame>, tail: bytes, n: nat)
    requires Reads(s, withHead, boundary, frames, tail, n)
    ensures s.phase == Done <==> n >= |Stream(withHead, boundary, frames)| + |boundary| + 6
  {
    hide Stream, Closing, Known, GoodBoundary, TooBig, Oversize, Rest, Left, PartsFit, Carriable, Head;
    ClosingLen(boundary);
  }
}
