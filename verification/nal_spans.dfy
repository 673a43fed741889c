/** Where the NAL units of a stream sit, and the iterator that walks them. */
module NalSpans {
  import opened Bytes
  import opened AnnexB

  datatype Span = Span(startCode: nat, nalStart: nat, nalEnd: nat)

  /** `pos` is just behind a start code. */
  predicate Behind(s: bytes, pos: nat) {
    3 <= pos <= |s| && CodeAt(s, pos - 3)
  }

  /** Where the NAL unit at `pos` ends and where the next one would start. */
  function EndOf(s: bytes, pos: nat): (r: Code)
    requires pos < |s|
    ensures pos <= r.begin <= |s| && pos < r.after <= |s|
  {
    match FindCode(s, pos)
    case None => Code(|s|, |s|)
    case Some(c) => c
  }

  predicate InStream(s: bytes, spans: seq<Span>) {
    forall k :: 0 <= k < |spans| ==> spans[k].startCode <= spans[k].nalStart < spans[k].nalEnd <= |s|
  }

  /** The non-empty NAL units from `pos` on. */
  function SpansFrom(s: bytes, pos: nat): (r: seq<Span>)
    requires 0 < pos <= |s|
    ensures InStream(s, r) && (r != [] ==> pos <= r[0].nalStart)
    decreases |s| - pos
  {
    if pos == |s| then []
    else
      var e := EndOf(s, pos);
      (if e.begin > pos then [Span(ZerosBefore(s, pos - 1, 0), pos, e.begin)] else []) + SpansFrom(s, e.after)
  }

  function Spans(s: bytes): (r: seq<Span>)
    ensures InStream(s, r)
  {
    match FindCode(s, 0)
    case None => []
    case Some(c) => SpansFrom(s, c.after)
  }

  /** The bytes of the NAL units. */
  function Contents(s: bytes, spans: seq<Span>): (r: seq<bytes>)
    requires InStream(s, spans)
    ensures |r| == |spans|
  {
    if spans == [] then [] else [s[spans[0].nalStart..spans[0].nalEnd]] + Contents(s, spans[1..])
  }

  // ----- positions and content agree

  lemma {:induction false} CodeShift(s: bytes, pos: nat, k: nat)
    requires pos <= |s|
    ensures CodeAt(s[pos..], k) <==> CodeAt(s, pos + k)
  {
  }

  /** A start code of the rest of the stream is one of the stream. */
  lemma {:induction false} IsCodeShift(s: bytes, pos: nat, c: Code)
    requires pos <= |s| && IsCode(s[pos..], 0, c)
    ensures IsCode(s, pos, Code(pos + c.begin, pos + c.after))
  {
    hide CodeAt;
    var t := s[pos..];
    CodeShift(s, pos, c.after - 3);
    forall k | pos <= k < pos + c.after - 3 ensures !CodeAt(s, k) {
      CodeShift(s, pos, k - pos);
    }
    forall k | pos + c.begin <= k < pos + c.after - 1 ensures s[k] == 0 {
      assert t[k - pos] == 0;
    }
  }

  /** Searching from `pos` is searching the rest of the stream. */
  lemma {:induction false} FindShift(s: bytes, pos: nat)
    requires pos <= |s|
    ensures FindCode(s, pos) == match FindCode(s[pos..], 0)
                                case None => None
                                case Some(c) => Some(Code(pos + c.begin, pos + c.after))
  {
    hide FindCode, IsCode, CodeAt;
    var t := s[pos..];
    FindCodeIs(t, 0);
    FindCodeIs(s, pos);
    if FindCode(t, 0).Some? {
      var c := FindCode(t, 0).value;
      IsCodeShift(s, pos, c);
      CodeIsFound(s, pos, Code(pos + c.begin, pos + c.after));
    } else if FindCode(s, pos).Some? {
      NoCodeShift(s, pos, FindCode(s, pos).value);
    }
  }

  lemma {:induction false} NoCodeShift(s: bytes, pos: nat, c: Code)
    requires pos <= |s| && IsCode(s, pos, c)
    ensures !(forall k :: 0 <= k ==> !CodeAt(s[pos..], k))
  {
    CodeShift(s, pos, c.after - 3 - pos);
  }

  lemma {:induction false} SpansAreNals(s: bytes, pos: nat)
    requires 0 < pos <= |s|
    ensures Contents(s, SpansFrom(s, pos)) == Nals(s[pos..])
    decreases |s| - pos
  {
    hide FindCode, Nals, Contents, SpansFrom, InStream, ZerosBefore;
    var t := s[pos..];
    FindShift(s, pos);
    NalsStep(t);
    SpansStep(s, pos);
    NoContents(s);
    if pos < |s| {
      var e := EndOf(s, pos);
      var rest := SpansFrom(s, e.after);
      SpansAreNals(s, e.after);
      if FindCode(s, pos).Some? {
        assert t[e.after - pos..] == s[e.after..];
        if e.begin > pos {
          assert t[..e.begin - pos] == s[pos..e.begin];
          OneContent(s, Span(ZerosBefore(s, pos - 1, 0), pos, e.begin), rest);
        } else {
          assert [] + Nals(s[e.after..]) == Nals(s[e.after..]);
        }
      } else {
        assert t == s[pos..|s|];
        SpansStep(s, |s|);
        OneContent(s, Span(ZerosBefore(s, pos - 1, 0), pos, |s|), rest);
      }
    }
  }

  lemma {:induction false} SpansStep(s: bytes, pos: nat)
    requires 0 < pos <= |s|
    ensures pos == |s| ==> SpansFrom(s, pos) == []
    ensures pos < |s| ==>
              var e := EndOf(s, pos);
              SpansFrom(s, pos) ==
              if e.begin > pos then [Span(ZerosBefore(s, pos - 1, 0), pos, e.begin)] + SpansFrom(s, e.after)
              else SpansFrom(s, e.after)
  {
    hide EndOf, ZerosBefore;
    if pos < |s| && EndOf(s, pos).begin <= pos {
      assert [] + SpansFrom(s, EndOf(s, pos).after) == SpansFrom(s, EndOf(s, pos).after);
    }
  }

  lemma {:induction false} NoContents(s: bytes)
    ensures Contents(s, []) == []
  {
  }

  lemma {:induction false} OneContent(s: bytes, sp: Span, rest: seq<Span>)
    requires sp.startCode <= sp.nalStart < sp.nalEnd <= |s| && InStream(s, rest)
    ensures InStream(s, [sp] + rest)
    ensures Contents(s, [sp] + rest) == [s[sp.nalStart..sp.nalEnd]] + Contents(s, rest)
  {
    assert ([sp] + rest)[1..] == rest;
  }

  /** The spans delimit exactly the NAL units. */
  lemma {:induction false} SpansAreNalUnits(s: bytes)
    ensures Contents(s, Spans(s)) == NalUnits(s)
  {
    hide FindCode;
    if FindCode(s, 0).Some? {
      FindCodeIs(s, 0);
      SpansAreNals(s, FindCode(s, 0).value.after);
    }
  }

  // ----- what every span list satisfies

  /** A NAL unit just behind a start code with all its zeros, free of `00 00 01` itself, and ending in a
      nonzero byte when another start code follows. */
  ghost predicate GoodSpan(s: bytes, sp: Span) {
    && sp.startCode <= sp.nalStart < sp.nalEnd <= |s|
    && Behind(s, sp.nalStart) && sp.startCode == ZerosBefore(s, sp.nalStart - 1, 0)
    && (forall i :: sp.nalStart <= i && i + 3 <= sp.nalEnd ==> !CodeAt(s, i))
    && (sp.nalEnd < |s| ==> s[sp.nalEnd - 1] != 0)
  }

  /** Good spans, in order and disjoint, start codes included. */
  ghost predicate WellSpread(s: bytes, spans: seq<Span>) {
    && (forall k :: 0 <= k < |spans| ==> GoodSpan(s, spans[k]))
    && (forall k :: 0 < k < |spans| ==> spans[k - 1].nalEnd <= spans[k].startCode)
  }

  lemma {:induction false} SpansFromSpread(s: bytes, pos: nat)
    requires Behind(s, pos)
    ensures WellSpread(s, SpansFrom(s, pos))
    decreases |s| - pos
  {
    hide FindCode, GoodSpan, Behind, CodeAt, WellSpread;
    BehindRange(s, pos);
    NothingSpread(s);
    if pos < |s| {
      var e := EndOf(s, pos);
      var rest := SpansFrom(s, e.after);
      FindCodeIs(s, pos);
      if FindCode(s, pos).Some? {
        BehindCode(s, pos, e);
        SpansFromSpread(s, e.after);
      }
      if e.begin > pos {
        FirstIsGood(s, pos);
        if rest != [] {
          SpreadHead(s, rest);
          StartCodeAfter(s, pos, e, rest[0]);
        }
        ConsSpread(s, Span(ZerosBefore(s, pos - 1, 0), pos, e.begin), rest);
      } else {
        assert [] + rest == rest;
      }
    }
  }

  lemma {:induction false} NothingSpread(s: bytes)
    ensures WellSpread(s, [])
  {
  }

  lemma {:induction false} SpreadHead(s: bytes, spans: seq<Span>)
    requires WellSpread(s, spans) && spans != []
    ensures GoodSpan(s, spans[0])
  {
  }

  lemma {:induction false} ConsSpread(s: bytes, sp: Span, rest: seq<Span>)
    requires GoodSpan(s, sp) && WellSpread(s, rest) && (rest != [] ==> sp.nalEnd <= rest[0].startCode)
    ensures WellSpread(s, [sp] + rest)
  {
    hide GoodSpan;
    var all := [sp] + rest;
    forall k | 0 < k < |all| ensures all[k - 1].nalEnd <= all[k].startCode {
      if k > 1 {
        assert rest[k - 2].nalEnd <= rest[k - 1].startCode;
      }
    }
  }

  lemma {:induction false} BehindRange(s: bytes, pos: nat)
    requires Behind(s, pos)
    ensures 3 <= pos <= |s|
  {
  }

  lemma {:induction false} BehindCode(s: bytes, pos: nat, e: Code)
    requires IsCode(s, pos, e)
    ensures Behind(s, e.after)
  {
  }

  lemma {:induction false} FirstIsGood(s: bytes, pos: nat)
    requires Behind(s, pos) && pos < |s| && EndOf(s, pos).begin > pos
    ensures GoodSpan(s, Span(ZerosBefore(s, pos - 1, 0), pos, EndOf(s, pos).begin))
  {
    FindCodeIs(s, pos);
    hide FindCode, CodeAt;
  }

  /** Zeros before a later start code do not reach back over an earlier one. */
  lemma {:induction false} StartCodeAfter(s: bytes, pos: nat, e: Code, sp: Span)
    requires Behind(s, pos) && pos < |s| && e == EndOf(s, pos)
    requires e.after <= sp.nalStart && GoodSpan(s, sp)
    ensures e.begin <= sp.startCode
  {
    FindCodeIs(s, pos);
    hide FindCode;
    if FindCode(s, pos).Some? {
      if sp.nalStart > e.after {
        assert s[e.after - 1] == 1;
      }
    }
  }

  lemma {:induction false} SpansSpread(s: bytes)
    ensures WellSpread(s, Spans(s))
  {
    hide FindCode;
    if FindCode(s, 0).Some? {
      FindCodeIs(s, 0);
      SpansFromSpread(s, FindCode(s, 0).value.after);
    }
  }
}
