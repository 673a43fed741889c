/** The two iterators of the Annex B splitter, against their lists of answers. */
module AnnexBIterators {
  import opened Bytes
  import opened AnnexB
  import opened NalSpans
  import opened AccessUnits

  /** `find_start_code` on the rest of the stream: the scan, then back over the zeros. */
  method FindStartCode(s: bytes, pos: nat) returns (r: Option<Code>)
    requires pos <= |s|
    ensures r == FindCode(s, pos)
  {
    var i := pos;
    while i + 3 <= |s| && !CodeAt(s, i)
      invariant pos <= i && Scan3(s, pos) == Scan3(s, i)
      decreases |s| - i
    {
      i := i + 1;
    }
    if i + 3 > |s| {
      return None;
    }
    var begin := BackOverZeros(s, i, pos);
    return Some(Code(begin, i + 3));
  }

  method BackOverZeros(s: bytes, i: nat, lo: nat) returns (b: nat)
    requires lo <= i <= |s|
    ensures b == ZerosBefore(s, i, lo)
  {
    b := i;
    while b > lo && s[b - 1] == 0
      invariant lo <= b <= i && ZerosBefore(s, i, lo) == ZerosBefore(s, b, lo)
    {
      b := b - 1;
    }
  }

  class SpanIterator {
    const stream: bytes
    var pos: nat
    var started: bool

    ghost predicate Valid()
      reads this
    {
      pos <= |stream| && (started ==> pos > 0)
    }

    /** The spans still to come. */
    ghost function Rest(): seq<Span>
      reads this
      requires Valid()
    {
      if started then SpansFrom(stream, pos)
      else match FindCode(stream, pos)
           case None => []
           case Some(c) => SpansFrom(stream, c.after)
    }

    constructor (stream: bytes)
      ensures Valid() && this.stream == stream && Rest() == Spans(stream)
    {
      this.stream, pos, started := stream, 0, false;
    }

    method Next() returns (r: Option<Span>)
      requires Valid()
      modifies this
      ensures Valid()
      ensures old(Rest()) == [] ==> r == None && Rest() == []
      ensures old(Rest()) != [] ==> r == Some(old(Rest())[0]) && Rest() == old(Rest())[1..]
    {
      hide SpansFrom, FindCode, ZerosBefore;
      if !started {
        var c := FindStartCode(stream, pos);
        if c == None {
          return None;
        }
        pos := c.value.after;
        started := true;
      }
      while pos < |stream|
        invariant Valid() && started && Rest() == old(Rest())
        decreases |stream| - pos
      {
        SpansStep(stream, pos);
        var nalStart := pos;
        var found := FindStartCode(stream, pos);
        var nalEnd, next := |stream|, |stream|;
        if found.Some? {
          nalEnd, next := found.value.begin, found.value.after;
        }
        var sc := BackOverZeros(stream, nalStart - 1, 0);
        pos := next;
        if nalEnd > nalStart {
          return Some(Span(sc, nalStart, nalEnd));
        }
      }
      SpansStep(stream, pos);
      return None;
    }
  }

  /** The splitter at the end of the stream. */
  lemma {:induction false} SplitEnd(s: bytes, start: Option<nat>, hasVcl: bool, cand: Option<nat>)
    requires Placed(s, [], start, cand)
    ensures start.Some? ==> start.value <= |s|
    ensures Split(s, [], start, hasVcl, cand) == if start.Some? && start.value < |s| then [s[start.value..]] else []
  {
  }

  lemma {:induction false} PlacedIs(s: bytes, spans: seq<Span>, start: Option<nat>, cand: Option<nat>)
    requires Placed(s, spans, start, cand)
    ensures WellSpread(s, spans)
  {
  }

  class UnitIterator {
    const stream: bytes
    const spans: SpanIterator
    var auStart: Option<nat>
    var auHasVcl: bool
    var boundaryCandidate: Option<nat>
    var done: bool

    ghost predicate Valid()
      reads this, spans
    {
      && spans.stream == stream && spans.Valid()
      && (!done ==> Placed(stream, spans.Rest(), auStart, boundaryCandidate))
    }

    /** The access units still to come. */
    ghost function Rest(): seq<bytes>
      reads this, spans
      requires Valid()
    {
      if done then [] else Split(stream, spans.Rest(), auStart, auHasVcl, boundaryCandidate)
    }

    constructor (stream: bytes)
      ensures Valid() && this.stream == stream && Rest() == Units(stream) && fresh(spans)
    {
      this.stream := stream;
      spans := new SpanIterator(stream);
      auStart, auHasVcl, boundaryCandidate, done := None, false, None, false;
      new;
      SpansSpread(stream);
    }

    /** What one NAL unit does: it may complete an access unit. */
    method Consider(span: Span, ghost before: seq<Span>) returns (r: Option<bytes>)
      requires spans.stream == stream && spans.Valid() && !done
      requires Placed(stream, before, auStart, boundaryCandidate)
      requires before != [] && before[0] == span && spans.Rest() == before[1..]
      requires span.nalStart <= span.nalEnd <= |stream|
      modifies this
      ensures Valid() && !done
      ensures old(Split(stream, before, auStart, auHasVcl, boundaryCandidate)) ==
              (if r.Some? then [r.value] else []) + Rest()
    {
      hide WellSpread, SpansFrom, Split, IsVcl, IsFirstSlice, FindCode, Placed;
      SplitNext(stream, before, auStart, auHasVcl, boundaryCandidate);
      var nal := stream[span.nalStart..span.nalEnd];
      var start := if auStart.Some? then auStart.value else span.startCode;
      auStart := Some(start);
      r := None;
      if IsVcl(nal) {
        if IsFirstSlice(nal) && auHasVcl {
          var boundary := if boundaryCandidate.Some? then boundaryCandidate.value else span.startCode;
          r := Some(stream[start..boundary]);
          auStart := Some(boundary);
        }
        auHasVcl := true;
        boundaryCandidate := None;
      } else if auHasVcl && boundaryCandidate == None {
        boundaryCandidate := Some(span.startCode);
      }
      if r == None {
        assert [] + Rest() == Rest();
      }
    }

    method Next() returns (r: Option<bytes>)
      requires Valid()
      modifies this, spans
      ensures Valid()
      ensures old(Rest()) == [] ==> r == None && Rest() == []
      ensures old(Rest()) != [] ==> r == Some(old(Rest())[0]) && Rest() == old(Rest())[1..]
    {
      hide WellSpread, SpansFrom, Split, FindCode, Placed, SpanIterator.Rest, SpanIterator.Valid;
      if done {
        return None;
      }
      while true
        invariant Valid() && !done && Rest() == old(Rest())
        decreases |spans.Rest()|
      {
        ghost var before, was := spans.Rest(), Rest();
        PlacedIs(stream, before, auStart, boundaryCandidate);
        PlacedNext(stream, before);
        var next := spans.Next();
        if next == None {
          break;
        }
        var au := Consider(next.value, before);
        if au.Some? {
          assert ([au.value] + Rest())[1..] == Rest();
          return au;
        }
        assert [] + Rest() == Rest();
      }
      SplitEnd(stream, auStart, auHasVcl, boundaryCandidate);
      done := true;
      if auStart == None {
        return None;
      }
      var au := stream[auStart.value..];
      return if au == [] then None else Some(au);
    }
  }
}
