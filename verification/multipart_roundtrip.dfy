/** The reader undoes the writer, however the stream is cut into chunks. */
module MultipartRoundTrip {
  import opened Bytes
  import opened Text
  import opened Multipart
  import opened MultipartReader
  import opened MultipartShape

  /** Boundaries the stream survives: the head cuts its boundary at a space, `;`, `"` or CR, and without a
      head a first delimiter line that ends in `--` reads as the end of the stream. */
  predicate Carriable(boundary: bytes, withHead: bool) {
    && 0 < |boundary| <= MAX_BOUNDARY
    && Find(boundary, CRLF) == None
    && (if withHead then forall c :: c in boundary ==> !StopsToken(c) else StripDashes(boundary) == None)
  }

  // ----- the reader over a stream cut anywhere

  /** The reader knows the boundary, or will learn it from the delimiter. */
  predicate Known(s: State, boundary: bytes) {
    s.boundary == boundary || (s.boundary == [] && StripDashes(boundary) == None)
  }

  predicate GoodBoundary(boundary: bytes) {
    0 < |boundary| <= MAX_BOUNDARY && Find(boundary, CRLF) == None
  }

  function PartInfoOf(boundary: bytes, f: Frame): PartInfo {
    PartInfo(BodyAt(boundary, f), BodyAt(boundary, f) + |f.data|, Some(f.timestamp), |Part(boundary, f)|)
  }

  lemma {:induction false} ReadPartCut(s: State, boundary: bytes, f: Frame, tail: bytes, n: nat)
    requires GoodBoundary(boundary) && |Part(boundary, f)| <= U64_MAX
    requires HeadersAt(boundary) <= n <= |Part(boundary, f) + tail| && s.data == (Part(boundary, f) + tail)[..n]
    ensures ReadPart(s, HeadersAt(boundary)) ==
            if |Part(boundary, f)| <= n then Step(s.(parts := s.parts + 1), Ok(Some(PartInfoOf(boundary, f))))
            else if BodyAt(boundary, f) <= n && |Part(boundary, f)| > s.cap then
              Step(s, Err(BufferTooSmall(|Part(boundary, f)|)))
            else Step(s, Ok(None))
  {
    hide Find, Part, Join, PartLines, BLANK, Split, ReadHeaders, ReadPart;
    var x, h, b := Part(boundary, f) + tail, HeadersAt(boundary), BodyAt(boundary, f);
    PartShape(boundary, f, tail);
    BlankLen();
    CutSlice(x, n, h, h);
    FindInCut(x[h..], n - h, BLANK);
    if b <= n {
      CutSlice(x, n, h, b - 4);
      ReadPartHeaders(f);
      ReadPartFields(s, h, b - 4 - h, Fields(Some(|f.data|), Some(f.timestamp)));
    } else {
      ReadPartNoFields(s, h);
    }
  }

  lemma {:induction false} ReadPartNoFields(s: State, headersStart: nat)
    requires headersStart <= |s.data| && Find(s.data[headersStart..], BLANK) == None
    ensures ReadPart(s, headersStart) == Step(s, Ok(None))
  {
    hide Find, Split, ReadHeaders, BLANK;
  }

  /** A part whose headers are read and whose end fits 64 bits. */
  lemma {:induction false} ReadPartFields(s: State, headersStart: nat, h: nat, f: Fields)
    requires headersStart + h <= |s.data| && Find(s.data[headersStart..], BLANK) == Some(h)
    requires ReadHeaders(Split(s.data[headersStart..headersStart + h], LF), Fields(None, None)) == Ok(f)
    requires f.length.Some? && headersStart + h + 4 + f.length.value + 2 <= U64_MAX
    ensures var start := headersStart + h + 4;
            var end := start + f.length.value;
            ReadPart(s, headersStart) ==
            if end + 2 <= |s.data| then
              Step(s.(parts := s.parts + 1), Ok(Some(PartInfo(start, end, f.timestamp, end + 2))))
            else Step(s, if end + 2 > s.cap then Err(BufferTooSmall(end + 2)) else Ok(None))
  {
    hide Find, Split, ReadHeaders, BLANK;
    Unwrapped(headersStart + h + 4 + f.length.value);
    Unwrapped(headersStart + h + 4 + f.length.value + 2);
  }

  lemma {:induction false} Unwrapped(x: nat)
    requires x <= U64_MAX
    ensures x % (U64_MAX + 1) == x
  {
  }

  /** One attempt at a stream that starts with a part, cut after `n` bytes: the part comes out exactly when it is
      whole, and a cut part is an error exactly when its headers are whole and it will not fit the buffer. */
  lemma {:induction false} ParseCut(s: State, boundary: bytes, f: Frame, tail: bytes, n: nat)
    requires GoodBoundary(boundary) && Known(s, boundary) && |Part(boundary, f)| <= U64_MAX
    requires n <= |Part(boundary, f) + tail| && s.data == (Part(boundary, f) + tail)[..n]
    ensures var s1 := s.(boundary := if HeadersAt(boundary) <= n then boundary else s.boundary);
            ParsePart(s) == if |Part(boundary, f)| <= n
                            then Step(s1.(parts := s.parts + 1), Ok(Some(PartInfoOf(boundary, f))))
                            else if BodyAt(boundary, f) <= n && |Part(boundary, f)| > s.cap
                            then Step(s1, Err(BufferTooSmall(|Part(boundary, f)|)))
                            else Step(s1, Ok(None))
  {
    hide Find, Part, Join, PartLines, BLANK, CRLF, DASHES, ReadPart, BodyAt, ParsePart, StripDashes;
    var x, h := Part(boundary, f) + tail, HeadersAt(boundary);
    BlankLen();
    PartShape(boundary, f, tail);
    HeadersInside(boundary, f);
    FindInCut(x, n, CRLF);
    if n >= 2 {
      CutSlice(x, n, 0, 2);
    } else if n == 1 {
      CutSlice(x, n, 0, 1);
      assert x[..2][..1] == x[..1];
    }
    if h <= n {
      CutSlice(x, n, 2, h - 2);
      ParseKnownLine(s, boundary);
      ReadPartCut(s.(boundary := boundary), boundary, f, tail, n);
    } else {
      ParseNoLine(s);
    }
  }

  /** A delimiter line of the expected boundary is followed by the part's headers. */
  lemma {:induction false} ParseKnownLine(s: State, boundary: bytes)
    requires 0 < |boundary| <= MAX_BOUNDARY && Known(s, boundary)
    requires |s.data| >= 4 + |boundary| && s.data[..2] == DASHES && s.data[2..2 + |boundary|] == boundary
    requires Find(s.data, CRLF) == Some(2 + |boundary|)
    ensures ParsePart(s) == ReadPart(s.(boundary := boundary), HeadersAt(boundary))
  {
    hide Find, ReadPart, StripDashes;
    assert s.data[0] == s.data[..2][0] == DASH;
    assert s.data[0..] == s.data && SkipNewlines(s.data, 0) == 0;
  }

  /** Without a whole delimiter line there is nothing to do yet. */
  lemma {:induction false} ParseNoLine(s: State)
    requires |s.data| >= 2 ==> s.data[..2] == DASHES
    requires |s.data| == 1 ==> s.data == DASHES[..1]
    requires Find(s.data, CRLF) == None
    ensures ParsePart(s) == Step(s, Ok(None))
  {
    hide Find, ReadPart, StripDashes;
    if |s.data| >= 2 {
      assert s.data[0] == s.data[..2][0] == DASH;
    }
    assert s.data[0..] == s.data && SkipNewlines(s.data, 0) == 0;
  }

  lemma {:induction false} HeadersInside(boundary: bytes, f: Frame)
    ensures HeadersAt(boundary) <= BodyAt(boundary, f)
  {
  }

  // ----- what a prefix of the stream holds

  /** The frames wholly within the first `n` bytes of their parts. */
  function WholeIn(boundary: bytes, frames: seq<Frame>, n: nat): (r: seq<Frame>)
    ensures r <= frames
  {
    if frames == [] || n < |Part(boundary, frames[0])| then []
    else [frames[0]] + WholeIn(boundary, frames[1..], n - |Part(boundary, frames[0])|)
  }

  /** The bytes of those that belong to none of them. */
  function Left(boundary: bytes, frames: seq<Frame>, n: nat): (r: nat)
    ensures r <= n
  {
    if frames == [] || n < |Part(boundary, frames[0])| then n
    else Left(boundary, frames[1..], n - |Part(boundary, frames[0])|)
  }

  function Rest(boundary: bytes, frames: seq<Frame>, n: nat): seq<Frame> {
    frames[|WholeIn(boundary, frames, n)|..]
  }

  function Deliveries(frames: seq<Frame>): seq<Delivery> {
    seq(|frames|, i requires 0 <= i < |frames| => Delivery(frames[i].data, Some(frames[i].timestamp)))
  }

  lemma {:induction false} WholeStep(boundary: bytes, frames: seq<Frame>, n: nat)
    ensures frames == [] || n < |Part(boundary, frames[0])| ==>
              WholeIn(boundary, frames, n) == [] && Left(boundary, frames, n) == n && Rest(boundary, frames, n) == frames
    ensures frames != [] && n >= |Part(boundary, frames[0])| ==>
              var m := n - |Part(boundary, frames[0])|;
              && WholeIn(boundary, frames, n) == [frames[0]] + WholeIn(boundary, frames[1..], m)
              && Left(boundary, frames, n) == Left(boundary, frames[1..], m)
              && Rest(boundary, frames, n) == Rest(boundary, frames[1..], m)
  {
    hide Part;
    if frames != [] && n >= |Part(boundary, frames[0])| {
      var w := WholeIn(boundary, frames[1..], n - |Part(boundary, frames[0])|);
      assert frames[1 + |w|..] == frames[1..][|w|..];
    }
  }

  /** More bytes: the frames they complete come behind those already complete. */
  lemma {:induction false} WholeMore(boundary: bytes, frames: seq<Frame>, n: nat, more: nat)
    requires n + more <= |Parts(boundary, frames)|
    ensures var rest, left := Rest(boundary, frames, n), Left(boundary, frames, n);
            && WholeIn(boundary, frames, n + more) ==
               WholeIn(boundary, frames, n) + WholeIn(boundary, rest, left + more)
            && Left(boundary, frames, n + more) == Left(boundary, rest, left + more)
            && Rest(boundary, frames, n + more) == Rest(boundary, rest, left + more)
    decreases |frames|
  {
    hide Part, WholeIn, Left, Rest, Parts;
    WholeStep(boundary, frames, n);
    WholeStep(boundary, frames, n + more);
    PartsCons(boundary, frames);
    if frames != [] && n >= |Part(boundary, frames[0])| {
      WholeMore(boundary, frames[1..], n - |Part(boundary, frames[0])|, more);
      var f, a, b := [frames[0]], WholeIn(boundary, frames[1..], n - |Part(boundary, frames[0])|),
                     WholeIn(boundary, Rest(boundary, frames, n), Left(boundary, frames, n) + more);
      assert f + (a + b) == (f + a) + b;
    }
  }

  lemma {:induction false} DeliveriesConcat(a: seq<Frame>, b: seq<Frame>)
    ensures Deliveries(a + b) == Deliveries(a) + Deliveries(b)
    ensures Deliveries([]) == []
  {
  }

  lemma {:induction false} DeliveriesOne(f: Frame, b: seq<Frame>)
    ensures Deliveries([f] + b) == [Delivery(f.data, Some(f.timestamp))] + Deliveries(b)
  {
  }

  predicate PartsFit(boundary: bytes, frames: seq<Frame>, cap: nat) {
    forall k :: 0 <= k < |frames| ==> |Part(boundary, frames[k])| <= cap
  }

  /** Some part larger than the buffer has its headers whole within the first `n` bytes. */
  predicate Oversize(boundary: bytes, frames: seq<Frame>, cap: nat, n: nat)
    decreases |frames|
  {
    frames != [] &&
    ((|Part(boundary, frames[0])| > cap && BodyAt(boundary, frames[0]) <= n) ||
     (n >= |Part(boundary, frames[0])| && Oversize(boundary, frames[1..], cap, n - |Part(boundary, frames[0])|)))
  }

  lemma {:induction false} BodyInside(boundary: bytes, f: Frame)
    ensures |Part(boundary, f)| == BodyAt(boundary, f) + |f.data| + 2
  {
    hide Join, PartLines;
  }

  lemma {:induction false} OversizeStep(boundary: bytes, frames: seq<Frame>, cap: nat, n: nat)
    requires frames != []
    ensures Oversize(boundary, frames, cap, n) <==>
            || (|Part(boundary, frames[0])| > cap && BodyAt(boundary, frames[0]) <= n)
            || (n >= |Part(boundary, frames[0])| &&
                Oversize(boundary, frames[1..], cap, n - |Part(boundary, frames[0])|))
  {
    hide Part, BodyAt;
  }

  /** Such a part stays one, and behind the parts already whole there is none else. */
  lemma {:induction false} OversizeMore(boundary: bytes, frames: seq<Frame>, cap: nat, n: nat, more: nat)
    ensures Oversize(boundary, frames, cap, n + more) <==>
            || Oversize(boundary, frames, cap, n)
            || Oversize(boundary, Rest(boundary, frames, n), cap, Left(boundary, frames, n) + more)
    decreases |frames|
  {
    hide Part, BodyAt, Rest, Left, Oversize;
    WholeStep(boundary, frames, n);
    if frames == [] {
      NoneOversize(boundary, cap, n);
      NoneOversize(boundary, cap, n + more);
    } else {
      BodyInside(boundary, frames[0]);
      OversizeStep(boundary, frames, cap, n);
      OversizeStep(boundary, frames, cap, n + more);
      if n >= |Part(boundary, frames[0])| {
        OversizeMore(boundary, frames[1..], cap, n - |Part(boundary, frames[0])|, more);
      }
    }
  }

  lemma {:induction false} NoneOversize(boundary: bytes, cap: nat, n: nat)
    ensures !Oversize(boundary, [], cap, n)
  {
  }

  /** Parts that fit are never too large. */
  lemma {:induction false} FitIsNotOversize(boundary: bytes, frames: seq<Frame>, cap: nat, n: nat)
    requires PartsFit(boundary, frames, cap)
    ensures !Oversize(boundary, frames, cap, n)
    decreases |frames|
  {
    hide Part, BodyAt;
    if frames != [] && n >= |Part(boundary, frames[0])| {
      FitIsNotOversize(boundary, frames[1..], cap, n - |Part(boundary, frames[0])|);
    }
  }

  /** The buffer holds the first `n` bytes of `frames`, from a part's first byte on. */
  predicate Aligned(s: State, boundary: bytes, frames: seq<Frame>, n: nat) {
    && GoodBoundary(boundary) && Known(s, boundary) && PartsFit(boundary, frames, U64_MAX)
    && s.phase == InParts
    && n <= |Parts(boundary, frames)| && s.data == Parts(boundary, frames)[..n]
  }

  /** Waiting for the rest of `frames`, of which `n` bytes are there. */
  predicate Waiting(s: State, boundary: bytes, frames: seq<Frame>, n: nat) {
    Aligned(s, boundary, frames, n) && !Oversize(boundary, frames, s.cap, n)
  }

  lemma {:induction false} NextAligned(s: State, boundary: bytes, frames: seq<Frame>, n: nat)
    requires Aligned(s, boundary, frames, n)
    ensures frames != [] && n >= |Part(boundary, frames[0])| ==>
              var step, m := NextPart(s), n - |Part(boundary, frames[0])|;
              var info := PartInfoOf(boundary, frames[0]);
              && step.result == Ok(Some(info)) && PartOf(info, step.state.data)
              && step.state.data[info.start..info.end] == frames[0].data
              && step.state.parts == s.parts + 1
              && Aligned(Release(step.state, info), boundary, frames[1..], m) && step.state.cap == s.cap
    ensures frames == [] || n < |Part(boundary, frames[0])| ==>
              var step := NextPart(s);
              if frames != [] && BodyAt(boundary, frames[0]) <= n && |Part(boundary, frames[0])| > s.cap
              then step.result == Err(BufferTooSmall(|Part(boundary, frames[0])|))
              else
                && step.result == Ok(None) && Aligned(step.state, boundary, frames, n)
                && step.state.parts == s.parts && step.state.cap == s.cap
  {
    hide Find, Part, Parts, ParsePart, BodyAt, GoodBoundary, StripDashes;
    PartsCons(boundary, frames);
    if frames == [] {
      NothingYet(s);
    } else {
      var f, tail := frames[0], Parts(boundary, frames[1..]);
      ParseCut(s, boundary, f, tail, n);
      assert GoodBoundary(boundary) ==> Find(boundary, CRLF) == None by { GoodIs(boundary); }
      PartShape(boundary, f, tail);
      if n >= |Part(boundary, f)| {
        var x, info := Part(boundary, f) + tail, PartInfoOf(boundary, f);
        CutSlice(x, n, info.start, info.end);
        CutSlice(x, n, info.consumed, info.consumed);
        assert x[info.consumed..] == tail;
      }
    }
  }

  lemma {:induction false} GoodIs(boundary: bytes)
    ensures GoodBoundary(boundary) ==> Find(boundary, CRLF) == None
  {
  }

  lemma {:induction false} NothingYet(s: State)
    ensures s.data == [] ==> ParsePart(s) == Step(s, Ok(None))
  {
  }

  /** Draining takes out exactly the whole frames and keeps the rest. */
  lemma {:induction false} DrainWaiting(s: State, boundary: bytes, frames: seq<Frame>, n: nat)
    requires Waiting(s, boundary, frames, n)
    ensures var r := Drain(s);
            && r.got == Deliveries(WholeIn(boundary, frames, n)) && r.error == None
            && Waiting(r.state, boundary, Rest(boundary, frames, n), Left(boundary, frames, n))
            && r.state.cap == s.cap && r.state.parts == s.parts + |WholeIn(boundary, frames, n)|
    decreases |frames|
  {
    hide Aligned, Oversize, NextPart, Release, Part, WholeIn, Left, Rest, Deliveries, BodyAt, Drain;
    NextAligned(s, boundary, frames, n);
    WholeStep(boundary, frames, n);
    if frames != [] {
      OversizeStep(boundary, frames, s.cap, n);
    }
    DeliveriesConcat([], []);
    DrainStep(s);
    if frames != [] && n >= |Part(boundary, frames[0])| {
      var step, info := NextPart(s), PartInfoOf(boundary, frames[0]);
      var m := n - |Part(boundary, frames[0])|;
      ReleaseKeeps(step.state, info);
      DrainWaiting(Release(step.state, info), boundary, frames[1..], m);
      DeliveriesOne(frames[0], WholeIn(boundary, frames[1..], m));
    }
  }

  /** A part that will not fit is an error as soon as its headers are whole. */
  lemma {:induction false} DrainOversize(s: State, boundary: bytes, frames: seq<Frame>, n: nat)
    requires Aligned(s, boundary, frames, n) && Oversize(boundary, frames, s.cap, n) && n <= s.cap
    ensures Drain(s).error.Some?
    decreases |frames|
  {
    hide Aligned, Oversize, NextPart, Release, Part, BodyAt, Drain;
    if frames == [] {
      NoneOversize(boundary, s.cap, n);
    } else {
      BodyInside(boundary, frames[0]);
      OversizeStep(boundary, frames, s.cap, n);
      NextAligned(s, boundary, frames, n);
      DrainStep(s);
      if n >= |Part(boundary, frames[0])| {
        var step, info := NextPart(s), PartInfoOf(boundary, frames[0]);
        ReleaseKeeps(step.state, info);
        DrainOversize(Release(step.state, info), boundary, frames[1..], n - |Part(boundary, frames[0])|);
      }
    }
  }

  lemma {:induction false} ReleaseKeeps(s: State, p: PartInfo)
    ensures Release(s, p).cap == s.cap && Release(s, p).parts == s.parts
  {
  }

  // ----- the whole connection

  /** Everything the writer sends. */
  function Stream(withHead: bool, boundary: bytes, frames: seq<Frame>): bytes {
    (if withHead then Head(boundary) else []) + Parts(boundary, frames)
  }

  function HeadLen(withHead: bool, boundary: bytes): nat {
    if withHead then |Head(boundary)| else 0
  }

  /** The frames wholly within the first `n` bytes of the stream. */
  function Whole(withHead: bool, boundary: bytes, frames: seq<Frame>, n: nat): seq<Frame> {
    var h := HeadLen(withHead, boundary);
    if n < h then [] else WholeIn(boundary, frames, n - h)
  }

  /** The bytes of the first `n` that the reader must still hold: neither the whole head nor a whole part. */
  function Held(withHead: bool, boundary: bytes, frames: seq<Frame>, n: nat): nat {
    var h := HeadLen(withHead, boundary);
    if n < h then n else Left(boundary, frames, n - h)
  }

  /** The buffer holds what is left over plus each chunk, in turn. */
  predicate Room(withHead: bool, boundary: bytes, frames: seq<Frame>, cap: nat, n: nat, chunks: seq<bytes>)
    decreases |chunks|
  {
    chunks == [] ||
    (&& Held(withHead, boundary, frames, n) + |chunks[0]| <= cap
     && Room(withHead, boundary, frames, cap, n + |chunks[0]|, chunks[1..]))
  }

  /** A part larger than the buffer has its headers whole within the first `n` bytes of the stream. */
  predicate TooBig(withHead: bool, boundary: bytes, frames: seq<Frame>, cap: nat, n: nat) {
    var h := HeadLen(withHead, boundary);
    h <= n && Oversize(boundary, frames, cap, n - h)
  }

  lemma {:induction false} TooBigMore(withHead: bool, boundary: bytes, frames: seq<Frame>, cap: nat, n: nat, more: nat)
    requires TooBig(withHead, boundary, frames, cap, n)
    ensures TooBig(withHead, boundary, frames, cap, n + more)
  {
    hide Head, Oversize, Rest, Left;
    OversizeMore(boundary, frames, cap, n - HeadLen(withHead, boundary), more);
  }

  /** The reader after the first `n` bytes of the stream. */
  predicate After(s: State, withHead: bool, boundary: bytes, frames: seq<Frame>, n: nat) {
    var h := HeadLen(withHead, boundary);
    !TooBig(withHead, boundary, frames, s.cap, n) &&
    if withHead && n < h then
      && PartsFit(boundary, frames, U64_MAX) && Carriable(boundary, withHead)
      && s.phase == (if n < 5 then Start else InHead) && s.boundary == []
      && n <= |Stream(withHead, boundary, frames)| && s.data == Stream(withHead, boundary, frames)[..n]
    else if !withHead && n < 5 then
      s.phase == Start && Waiting(s.(phase := InParts), boundary, frames, n)
    else
      h <= n <= |Stream(withHead, boundary, frames)|
      && Waiting(s, boundary, Rest(boundary, frames, n - h), Left(boundary, frames, n - h))
  }

  lemma {:induction false} RestParts(boundary: bytes, frames: seq<Frame>, n: nat)
    requires n <= |Parts(boundary, frames)|
    ensures var rest, left := Rest(boundary, frames, n), Left(boundary, frames, n);
            left <= |Parts(boundary, rest)| && Parts(boundary, frames)[n..] == Parts(boundary, rest)[left..]
    decreases |frames|
  {
    hide Part, WholeIn, Left, Rest, Parts;
    WholeStep(boundary, frames, n);
    PartsCons(boundary, frames);
    if frames != [] && n >= |Part(boundary, frames[0])| {
      var m := n - |Part(boundary, frames[0])|;
      RestParts(boundary, frames[1..], m);
      assert Parts(boundary, frames)[n..] == Parts(boundary, frames[1..])[m..];
    }
  }

  lemma {:induction false} CutMore(a: bytes, b: bytes, x: bytes, n: nat, left: nat, chunk: bytes)
    requires n + |chunk| <= |x| && left <= |b| && x[n..] == b[left..] && a == b[..left]
    requires chunk == x[n..n + |chunk|]
    ensures left + |chunk| <= |b| && a + chunk == b[..left + |chunk|]
  {
    assert chunk == x[n..][..|chunk|] == b[left..][..|chunk|];
  }

  /** A chunk while parts are expected. */
  lemma {:induction false} FeedWaiting(s: State, boundary: bytes, frames: seq<Frame>, n: nat, chunk: bytes)
    requires n + |chunk| <= |Parts(boundary, frames)| && chunk == Parts(boundary, frames)[n..n + |chunk|]
    requires Waiting(s, boundary, Rest(boundary, frames, n), Left(boundary, frames, n))
    requires !Oversize(boundary, frames, s.cap, n + |chunk|)
    ensures var m := n + |chunk|;
            var r := Drain(s.(data := s.data + chunk));
            && Deliveries(WholeIn(boundary, frames, n)) + r.got == Deliveries(WholeIn(boundary, frames, m))
            && r.error == None && r.state.cap == s.cap
            && r.state.parts - s.parts == |WholeIn(boundary, frames, m)| - |WholeIn(boundary, frames, n)|
            && Waiting(r.state, boundary, Rest(boundary, frames, m), Left(boundary, frames, m))
  {
    hide Part, WholeIn, Left, Rest, Parts, Drain, Deliveries, GoodBoundary, Known, PartsFit, Oversize;
    var rest, left := Rest(boundary, frames, n), Left(boundary, frames, n);
    RestParts(boundary, frames, n);
    OversizeMore(boundary, frames, s.cap, n, |chunk|);
    CutMore(s.data, Parts(boundary, rest), Parts(boundary, frames), n, left, chunk);
    KnownStays(s, s.(data := s.data + chunk), boundary);
    DrainWaiting(s.(data := s.data + chunk), boundary, rest, left + |chunk|);
    WholeMore(boundary, frames, n, |chunk|);
    DeliveriesConcat(WholeIn(boundary, frames, n), WholeIn(boundary, rest, left + |chunk|));
  }

  /** One that brings the headers of a part too large. */
  lemma {:induction false} FeedOversize(s: State, boundary: bytes, frames: seq<Frame>, n: nat, chunk: bytes)
    requires n + |chunk| <= |Parts(boundary, frames)| && chunk == Parts(boundary, frames)[n..n + |chunk|]
    requires Waiting(s, boundary, Rest(boundary, frames, n), Left(boundary, frames, n))
    requires |s.data| + |chunk| <= s.cap
    requires !Oversize(boundary, frames, s.cap, n) && Oversize(boundary, frames, s.cap, n + |chunk|)
    ensures Drain(s.(data := s.data + chunk)).error.Some?
  {
    hide Part, WholeIn, Left, Rest, Parts, Drain, GoodBoundary, Known, PartsFit, Oversize;
    var rest, left := Rest(boundary, frames, n), Left(boundary, frames, n);
    RestParts(boundary, frames, n);
    OversizeMore(boundary, frames, s.cap, n, |chunk|);
    CutMore(s.data, Parts(boundary, rest), Parts(boundary, frames), n, left, chunk);
    KnownStays(s, s.(data := s.data + chunk), boundary);
    DrainOversize(s.(data := s.data + chunk), boundary, rest, left + |chunk|);
  }

  lemma {:induction false} KnownStays(s: State, t: State, boundary: bytes)
    requires s.boundary == t.boundary
    ensures Known(s, boundary) == Known(t, boundary)
  {
  }

  /** While the head is incomplete nothing happens; once it is whole the reader turns to the parts. */
  lemma {:induction false} NextInHead(s: State, boundary: bytes, frames: seq<Frame>, m: nat)
    requires Carriable(boundary, true) && m <= |Stream(true, boundary, frames)|
    requires s.data == Stream(true, boundary, frames)[..m] && (s.phase == InHead || s.phase == Start)
    requires s.boundary == []
    ensures m < |Head(boundary)| ==>
              NextPart(s) == Step(s.(phase := if s.phase == Start && m < 5 then Start else InHead), Ok(None))
    ensures m >= |Head(boundary)| ==>
              && m - |Head(boundary)| <= |Parts(boundary, frames)|
              && NextPart(s) == NextPart(s.(data := Parts(boundary, frames)[..m - |Head(boundary)|],
                                            phase := InParts, boundary := boundary))
  {
    hide Find, Head, Parts, ParsePart, HeadBoundary, BLANK;
    var x, h := Stream(true, boundary, frames), |Head(boundary)|;
    assert StopsToken(CR);
    HeadCut(boundary, Parts(boundary, frames), m);
    HeadStarts(boundary);
    HeadNamesBoundary(boundary);
    if m >= 5 {
      assert s.data[..5] == x[..h - 4][..5];
    }
    if m >= h {
      assert s.data[..h - 4] == x[..h - 4];
      assert s.data[h..] == Parts(boundary, frames)[..m - h];
    }
  }

  lemma {:induction false} SameNextSameDrain(s: State, t: State)
    requires NextPart(s) == NextPart(t)
    ensures Drain(s) == Drain(t)
  {
    hide NextPart, Drain;
    DrainStep(s);
    DrainStep(t);
  }

  /** Without a head the stream starts with dashes, so no head is looked for. */
  lemma {:induction false} NextAtStart(s: State, boundary: bytes, frames: seq<Frame>, m: nat)
    requires m <= |Parts(boundary, frames)| && s.data == Parts(boundary, frames)[..m] && s.phase == Start
    ensures m < 5 ==> NextPart(s) == Step(s, Ok(None))
    ensures m >= 5 ==> NextPart(s) == NextPart(s.(phase := InParts))
  {
    hide ParsePart;
    if m >= 5 {
      assert s.data[..5][0] == s.data[0] == DASH;
    }
  }

  lemma {:induction false} NothingWhole(boundary: bytes, frames: seq<Frame>, n: nat)
    requires n < 5
    ensures WholeIn(boundary, frames, n) == [] && Left(boundary, frames, n) == n && Rest(boundary, frames, n) == frames
  {
    hide WholeIn, Left, Rest;
    WholeStep(boundary, frames, n);
  }

  /** What the reader holds is what is not yet accounted for. */
  lemma {:induction false} HoldsHeld(s: State, withHead: bool, boundary: bytes, frames: seq<Frame>, n: nat)
    requires After(s, withHead, boundary, frames, n)
    ensures |s.data| == Held(withHead, boundary, frames, n)
  {
    hide Head, Parts, PartsFit, Carriable, GoodBoundary, Known, WholeIn, Left, Rest;
    if !withHead && n < 5 {
      NothingWhole(boundary, frames, n);
    }
  }

  lemma {:induction false} KnownFromHead(s: State, boundary: bytes)
    requires Carriable(boundary, true) && s.boundary == boundary
    ensures Known(s, boundary) && GoodBoundary(boundary)
  {
  }

  lemma {:induction false} StreamBehindHead(boundary: bytes, frames: seq<Frame>, n: nat, m: nat)
    requires |Head(boundary)| <= n <= m <= |Stream(true, boundary, frames)|
    ensures var h := |Head(boundary)|;
            m - h <= |Parts(boundary, frames)|
            && Stream(true, boundary, frames)[n..m] == Parts(boundary, frames)[n - h..m - h]
  {
    hide Head, Parts;
  }

  /** In front of the whole head nothing is too big. */
  lemma {:induction false} NotYetTooBig(withHead: bool, boundary: bytes, frames: seq<Frame>, cap: nat, n: nat)
    requires n < 5 || n < HeadLen(withHead, boundary)
    ensures !TooBig(withHead, boundary, frames, cap, n)
  {
    hide Head, Part;
    if frames != [] {
      BodyInside(boundary, frames[0]);
      OversizeStep(boundary, frames, cap, n);
    }
  }

  /** `r` delivered what the bytes from `n` to `m` complete, and the reader is where it should be. */
  predicate Advanced(s: State, withHead: bool, boundary: bytes, frames: seq<Frame>, n: nat, m: nat, r: Run) {
    && Deliveries(Whole(withHead, boundary, frames, n)) + r.got == Deliveries(Whole(withHead, boundary, frames, m))
    && r.error == None && r.state.cap == s.cap
    && r.state.parts - s.parts == |Whole(withHead, boundary, frames, m)| - |Whole(withHead, boundary, frames, n)|
    && After(r.state, withHead, boundary, frames, m)
  }

  lemma {:induction false} FeedInHead(s: State, boundary: bytes, frames: seq<Frame>, n: nat, chunk: bytes)
    requires After(s, true, boundary, frames, n) && n < |Head(boundary)|
    requires n + |chunk| <= |Stream(true, boundary, frames)| && |s.data| + |chunk| <= s.cap
    requires chunk == Stream(true, boundary, frames)[n..n + |chunk|]
    ensures Outcome(s, true, boundary, frames, n, n + |chunk|, Drain(s.(data := s.data + chunk)))
  {
    hide Oversize, Head, Parts, PartsFit, GoodBoundary, Known, Carriable, WholeIn, Left, Rest, Drain, NextPart, Deliveries, Stream;
    var t, m, h := s.(data := s.data + chunk), n + |chunk|, |Head(boundary)|;
    DeliveriesConcat([], []);
    DrainStep(t);
    assert t.data == Stream(true, boundary, frames)[..m];
    NextInHead(t, boundary, frames, m);
    if m >= h {
      var u := t.(data := Parts(boundary, frames)[..m - h], phase := InParts, boundary := boundary);
      KnownFromHead(u, boundary);
      SameNextSameDrain(t, u);
      if Oversize(boundary, frames, s.cap, m - h) {
        DrainOversize(u, boundary, frames, m - h);
      } else {
        DrainWaiting(u, boundary, frames, m - h);
        assert [] + Drain(t).got == Drain(t).got;
      }
    } else {
      assert [] + Drain(t).got == [];
    }
  }

  lemma {:induction false} FeedAtStart(s: State, boundary: bytes, frames: seq<Frame>, n: nat, chunk: bytes)
    requires After(s, false, boundary, frames, n) && n < 5
    requires n + |chunk| <= |Stream(false, boundary, frames)| && |s.data| + |chunk| <= s.cap
    requires chunk == Stream(false, boundary, frames)[n..n + |chunk|]
    ensures Outcome(s, false, boundary, frames, n, n + |chunk|, Drain(s.(data := s.data + chunk)))
  {
    hide Oversize, Head, Parts, PartsFit, GoodBoundary, Known, Carriable, WholeIn, Left, Rest, Drain, NextPart, Deliveries;
    var t, m := s.(data := s.data + chunk), n + |chunk|;
    DeliveriesConcat([], []);
    DrainStep(t);
    NothingWhole(boundary, frames, n);
    assert Stream(false, boundary, frames) == Parts(boundary, frames);
    assert t.data == Parts(boundary, frames)[..m];
    NextAtStart(t, boundary, frames, m);
    KnownStays(s.(phase := InParts), t.(phase := InParts), boundary);
    if m >= 5 {
      SameNextSameDrain(t, t.(phase := InParts));
      if Oversize(boundary, frames, s.cap, m) {
        DrainOversize(t.(phase := InParts), boundary, frames, m);
      } else {
        DrainWaiting(t.(phase := InParts), boundary, frames, m);
        assert [] + Drain(t).got == Drain(t).got;
      }
    } else {
      NotYetTooBig(false, boundary, frames, s.cap, m);
      NothingWhole(boundary, frames, m);
      assert [] + Drain(t).got == [];
    }
  }

  lemma {:induction false} FeedInParts(s: State, withHead: bool, boundary: bytes, frames: seq<Frame>, n: nat, chunk: bytes)
    requires After(s, withHead, boundary, frames, n) && (if withHead then n >= |Head(boundary)| else n >= 5)
    requires n + |chunk| <= |Stream(withHead, boundary, frames)| && |s.data| + |chunk| <= s.cap
    requires chunk == Stream(withHead, boundary, frames)[n..n + |chunk|]
    ensures Outcome(s, withHead, boundary, frames, n, n + |chunk|, Drain(s.(data := s.data + chunk)))
  {
    hide Oversize, Head, Parts, Waiting, WholeIn, Left, Rest, Drain, Deliveries;
    if withHead {
      StreamBehindHead(boundary, frames, n, n + |chunk|);
    } else {
      assert Stream(false, boundary, frames) == Parts(boundary, frames);
    }
    var k := n - HeadLen(withHead, boundary);
    if Oversize(boundary, frames, s.cap, k + |chunk|) {
      FeedOversize(s, boundary, frames, k, chunk);
    } else {
      FeedWaiting(s, boundary, frames, k, chunk);
    }
  }

  /** An error when a part too large has shown, and otherwise what the bytes complete. */
  predicate Outcome(s: State, withHead: bool, boundary: bytes, frames: seq<Frame>, n: nat, m: nat, r: Run) {
    if TooBig(withHead, boundary, frames, s.cap, m) then r.error.Some?
    else Advanced(s, withHead, boundary, frames, n, m, r)
  }

  /** One chunk that fits: what it completes is delivered, and nothing goes wrong unless it shows a part too large. */
  lemma {:induction false} FeedAfter(s: State, withHead: bool, boundary: bytes, frames: seq<Frame>, n: nat, chunk: bytes)
    requires After(s, withHead, boundary, frames, n)
    requires n + |chunk| <= |Stream(withHead, boundary, frames)|
    requires chunk == Stream(withHead, boundary, frames)[n..n + |chunk|]
    requires Held(withHead, boundary, frames, n) + |chunk| <= s.cap
    ensures Outcome(s, withHead, boundary, frames, n, n + |chunk|, Feed(s, chunk))
  {
    hide Head, Stream, After, Outcome, Held, Drain;
    HoldsHeld(s, withHead, boundary, frames, n);
    if withHead && n < |Head(boundary)| {
      FeedInHead(s, boundary, frames, n, chunk);
    } else if !withHead && n < 5 {
      FeedAtStart(s, boundary, frames, n, chunk);
    } else {
      FeedInParts(s, withHead, boundary, frames, n, chunk);
    }
  }

  lemma {:induction false} NoChunks()
    ensures Concat([]) == []
  {
  }

  /** The first chunk of a stretch of `x`, and the others. */
  lemma {:induction false} FirstChunk(x: bytes, n: nat, chunks: seq<bytes>)
    requires chunks != [] && n + |Concat(chunks)| <= |x| && Concat(chunks) == x[n..n + |Concat(chunks)|]
    ensures var k, m := |chunks[0]|, |Concat(chunks[1..])|;
            && |Concat(chunks)| == k + m
            && chunks[0] == x[n..n + k] && Concat(chunks[1..]) == x[n + k..n + k + m]
  {
    var c, rest := chunks[0], Concat(chunks[1..]);
    ConcatCons(c, chunks[1..]);
    assert chunks == [c] + chunks[1..];
    hide Concat;
    SliceParts(x, n, c, rest);
  }

  lemma {:induction false} SliceParts(x: bytes, n: nat, a: bytes, b: bytes)
    requires n + |a| + |b| <= |x| && a + b == x[n..n + |a| + |b|]
    ensures a == x[n..n + |a|] && b == x[n + |a|..n + |a| + |b|]
  {
    var y := x[n..n + |a| + |b|];
    assert a == y[..|a|] && b == y[|a|..];
  }

  lemma {:induction false} AllChunks(s: State, withHead: bool, boundary: bytes, frames: seq<Frame>, n: nat,
                                     chunks: seq<bytes>)
    requires After(s, withHead, boundary, frames, n)
    requires n + |Concat(chunks)| <= |Stream(withHead, boundary, frames)|
    requires Concat(chunks) == Stream(withHead, boundary, frames)[n..n + |Concat(chunks)|]
    requires Room(withHead, boundary, frames, s.cap, n, chunks)
    requires !TooBig(withHead, boundary, frames, s.cap, n + |Concat(chunks)|)
    ensures Advanced(s, withHead, boundary, frames, n, n + |Concat(chunks)|, FeedAll(s, chunks))
    decreases |chunks|
  {
    hide Stream, After, Held, Feed, Whole, Deliveries, TooBig, Concat;
    NoChunks();
    if chunks != [] {
      var c, x := chunks[0], Stream(withHead, boundary, frames);
      FirstChunk(x, n, chunks);
      StillFits(withHead, boundary, frames, s.cap, n + |c|, |Concat(chunks[1..])|);
      FeedAfter(s, withHead, boundary, frames, n, c);
      var first := Feed(s, c);
      AllChunks(first.state, withHead, boundary, frames, n + |c|, chunks[1..]);
      var rest := FeedAll(first.state, chunks[1..]);
      var d := Deliveries(Whole(withHead, boundary, frames, n));
      assert d + (first.got + rest.got) == (d + first.got) + rest.got;
    }
  }

  lemma {:induction false} StillFits(withHead: bool, boundary: bytes, frames: seq<Frame>, cap: nat, n: nat, more: nat)
    requires !TooBig(withHead, boundary, frames, cap, n + more)
    ensures !TooBig(withHead, boundary, frames, cap, n)
  {
    hide TooBig;
    if TooBig(withHead, boundary, frames, cap, n) {
      TooBigMore(withHead, boundary, frames, cap, n, more);
    }
  }

  /** However a prefix of the stream is cut into chunks, if it does not show a part larger than the buffer, the reader
      has delivered exactly the frames wholly contained in it, each with its own bytes and timestamp, and has reported
      no error. */
  lemma {:induction false} EveryChunking(withHead: bool, boundary: bytes, frames: seq<Frame>, chunks: seq<bytes>, cap: nat)
    requires Carriable(boundary, withHead) && PartsFit(boundary, frames, U64_MAX)
    requires Concat(chunks) <= Stream(withHead, boundary, frames)
    requires Room(withHead, boundary, frames, cap, 0, chunks)
    requires !TooBig(withHead, boundary, frames, cap, |Concat(chunks)|)
    ensures var r, n := FeedAll(Init(cap), chunks), |Concat(chunks)|;
            && r.error == None
            && r.got == Deliveries(Whole(withHead, boundary, frames, n))
            && r.state.parts == |Whole(withHead, boundary, frames, n)|
            && |r.state.data| == Held(withHead, boundary, frames, n)
  {
    hide Stream, Room, FeedAll, WholeIn, Deliveries, Head, Parts, Find, TooBig;
    StartsAfter(withHead, boundary, frames, cap);
    assert Stream(withHead, boundary, frames)[0..|Concat(chunks)|] == Concat(chunks);
    AllChunks(Init(cap), withHead, boundary, frames, 0, chunks);
    var r := FeedAll(Init(cap), chunks);
    HoldsHeld(r.state, withHead, boundary, frames, |Concat(chunks)|);
    NothingWhole(boundary, frames, 0);
    DeliveriesConcat([], []);
    assert [] + r.got == r.got;
  }

  lemma {:induction false} StartsAfter(withHead: bool, boundary: bytes, frames: seq<Frame>, cap: nat)
    requires Carriable(boundary, withHead) && PartsFit(boundary, frames, U64_MAX)
    ensures After(Init(cap), withHead, boundary, frames, 0)
  {
    hide Find, Parts, StripDashes, PartsFit, Oversize;
    NotYetTooBig(withHead, boundary, frames, cap, 0);
    if withHead {
      HeadStarts(boundary);
    }
  }

  lemma {:induction false} ErrorExactly(s: State, withHead: bool, boundary: bytes, frames: seq<Frame>, n: nat,
                                        chunks: seq<bytes>)
    requires After(s, withHead, boundary, frames, n)
    requires n + |Concat(chunks)| <= |Stream(withHead, boundary, frames)|
    requires Concat(chunks) == Stream(withHead, boundary, frames)[n..n + |Concat(chunks)|]
    ensures FeedAll(s, chunks).error == None <==>
            && Room(withHead, boundary, frames, s.cap, n, chunks)
            && !TooBig(withHead, boundary, frames, s.cap, n + |Concat(chunks)|)
    decreases |chunks|
  {
    hide Stream, After, Held, Drain, Whole, Deliveries, TooBig, Concat;
    NoChunks();
    if chunks == [] {
      FitsSoFar(s, withHead, boundary, frames, n);
    } else {
      var c, x := chunks[0], Stream(withHead, boundary, frames);
      HoldsHeld(s, withHead, boundary, frames, n);
      if Held(withHead, boundary, frames, n) + |c| <= s.cap {
        FirstChunk(x, n, chunks);
        FeedAfter(s, withHead, boundary, frames, n, c);
        if TooBig(withHead, boundary, frames, s.cap, n + |c|) {
          TooBigMore(withHead, boundary, frames, s.cap, n + |c|, |Concat(chunks[1..])|);
        } else {
          ErrorExactly(Feed(s, c).state, withHead, boundary, frames, n + |c|, chunks[1..]);
        }
      }
    }
  }

  lemma {:induction false} FitsSoFar(s: State, withHead: bool, boundary: bytes, frames: seq<Frame>, n: nat)
    requires After(s, withHead, boundary, frames, n)
    ensures !TooBig(withHead, boundary, frames, s.cap, n)
  {
    hide TooBig, Waiting, Head, Stream, Rest, Left, Carriable, PartsFit;
  }

  /** Two things can go wrong, and nothing else: a chunk that does not fit behind what is left over, and a part larger
      than the buffer, as soon as its headers are there. */
  lemma {:induction false} OnlyRoomFails(withHead: bool, boundary: bytes, frames: seq<Frame>, chunks: seq<bytes>, cap: nat)
    requires Carriable(boundary, withHead) && PartsFit(boundary, frames, U64_MAX)
    requires Concat(chunks) <= Stream(withHead, boundary, frames)
    ensures FeedAll(Init(cap), chunks).error == None <==>
            && Room(withHead, boundary, frames, cap, 0, chunks)
            && !TooBig(withHead, boundary, frames, cap, |Concat(chunks)|)
  {
    hide Stream, Room, FeedAll, Head, Parts, Find, TooBig;
    StartsAfter(withHead, boundary, frames, cap);
    assert Stream(withHead, boundary, frames)[0..|Concat(chunks)|] == Concat(chunks);
    ErrorExactly(Init(cap), withHead, boundary, frames, 0, chunks);
  }
}
