/** What is inside the access units: re-scanning, the pictures they hold, and splitting them again. */
module UnitNals {
  import opened Bytes
  import opened AnnexB
  import opened NalSpans
  import opened AccessUnits

  // ----- cutting a stream at a start code

  /** A start code with all its zeros is found as such in any piece that reaches past it. */
  lemma {:induction false} PieceOpens(s: bytes, sp: Span, d: nat)
    requires GoodSpan(s, sp) && sp.nalStart <= d <= |s|
    ensures FindCode(s[sp.startCode..d], 0) == Some(Code(0, sp.nalStart - sp.startCode))
  {
    var b, u := sp.startCode, s[sp.startCode..d];
    var c := Code(0, sp.nalStart - b);
    StartCodeZeros(s, sp);
    assert forall k :: 0 <= k < |u| ==> u[k] == s[b + k];
    forall k | 0 <= k < c.after - 3 ensures !CodeAt(u, k) {
      assert u[k + 2] == 0;
    }
    CodeIsFound(u, 0, c);
  }

  lemma {:induction false} StartCodeZeros(s: bytes, sp: Span)
    requires GoodSpan(s, sp)
    ensures sp.startCode + 3 <= sp.nalStart && s[sp.nalStart - 1] == 1
    ensures forall k :: sp.startCode <= k < sp.nalStart - 1 ==> s[k] == 0
    ensures sp.startCode > 0 ==> s[sp.startCode - 1] != 0
  {
    var ns := sp.nalStart;
    assert CodeAt(s, ns - 3);
  }

  /** Re-scanning `s[a..d]` is re-scanning `s[a..b]` and `s[b..d]` when a start code stands at `b`. */
  lemma {:induction false} CutAtSpan(s: bytes, a: nat, sp: Span, d: nat)
    requires GoodSpan(s, sp) && a <= sp.startCode && sp.nalStart <= d <= |s|
    ensures NalUnits(s[a..d]) == NalUnits(s[a..sp.startCode]) + NalUnits(s[sp.startCode..d])
  {
    hide FindCode, GoodSpan;
    var b := sp.startCode;
    StartCodeZeros(s, sp);
    PieceOpens(s, sp, d);
    assert s[a..d] == s[a..b] + s[b..d];
    Splice(s[a..b], s[b..d]);
  }

  /** The span list restarts at its first NAL unit. */
  lemma {:induction false} RestartAtFirst(s: bytes, pos: nat)
    requires 0 < pos <= |s| && SpansFrom(s, pos) != []
    ensures var sp := SpansFrom(s, pos)[0];
            && 0 < sp.nalStart < |s|
            && SpansFrom(s, pos) == SpansFrom(s, sp.nalStart)
            && SpansFrom(s, sp.nalStart) == [sp] + SpansFrom(s, EndOf(s, sp.nalStart).after)
    decreases |s| - pos
  {
    hide EndOf, ZerosBefore, SpansFrom;
    SpansStep(s, pos);
    if EndOf(s, pos).begin <= pos {
      RestartAtFirst(s, EndOf(s, pos).after);
    }
  }

  lemma {:induction false} NoNals()
    ensures NalUnits([]) == []
  {
    FindCodeIs([], 0);
  }

  /** Re-scanning from a NAL unit's start code gives that NAL unit and all later ones. */
  lemma {:induction false} TailNals(s: bytes, pos: nat)
    requires Behind(s, pos) && SpansFrom(s, pos) != []
    ensures NalUnits(s[SpansFrom(s, pos)[0].startCode..]) == Contents(s, SpansFrom(s, pos))
  {
    hide FindCode, Contents, SpansFrom;
    BehindRange(s, pos);
    RestartAtFirst(s, pos);
    SpansFromSpread(s, pos);
    var sp := SpansFrom(s, pos)[0];
    PieceOpens(s, sp, |s|);
    assert s[sp.startCode..|s|] == s[sp.startCode..];
    assert s[sp.startCode..][sp.nalStart - sp.startCode..] == s[sp.nalStart..];
    SpansAreNals(s, sp.nalStart);
  }

  /** The rest of the list stands behind the NAL unit's end. */
  lemma {:induction false} AfterFirst(s: bytes, pos: nat)
    requires Behind(s, pos) && SpansFrom(s, pos) != []
    ensures var all := SpansFrom(s, pos);
            var e := EndOf(s, all[0].nalStart);
            && all[1..] == SpansFrom(s, e.after)
            && (all[1..] != [] ==> Behind(s, e.after))
  {
    hide SpansFrom;
    BehindRange(s, pos);
    RestartAtFirst(s, pos);
    var all := SpansFrom(s, pos);
    var ns := all[0].nalStart;
    FindCodeIs(s, ns);
    SpansStep(s, |s|);
    assert all[1..] == SpansFrom(s, EndOf(s, ns).after);
  }

  lemma {:induction false} NextIs(s: bytes, spans: seq<Span>)
    ensures Next(s, spans) == if spans == [] then |s| else spans[0].startCode
    ensures WellSpread(s, spans) && spans != [] ==> GoodSpan(s, spans[0])
  {
  }

  lemma {:induction false} NalAtIs(s: bytes, sp: Span)
    requires sp.nalStart <= sp.nalEnd <= |s|
    ensures NalAt(s, sp) == s[sp.nalStart..sp.nalEnd]
  {
  }

  /** From one start code to the next there is exactly one NAL unit. */
  lemma {:induction false} OneNal(s: bytes, pos: nat, sp: Span, rest: seq<Span>)
    requires Behind(s, pos) && SpansFrom(s, pos) == [sp] + rest
    ensures sp.startCode <= sp.nalStart <= sp.nalEnd <= Next(s, rest) <= |s|
    ensures NalUnits(s[sp.startCode..Next(s, rest)]) == [NalAt(s, sp)]
  {
    hide *;
    NextIs(s, rest);
    BehindRange(s, pos);
    var all := SpansFrom(s, pos);
    assert all[0] == sp && all[1..] == rest;
    SpansFromSpread(s, pos);
    PlacedNext(s, all);
    PlacedNext(s, rest);
    AfterFirst(s, pos);
    TailNals(s, pos);
    OneContent(s, sp, rest);
    NalAtIs(s, sp);
    if rest == [] {
      NoContents(s);
      assert s[sp.startCode..|s|] == s[sp.startCode..];
      assert [NalAt(s, sp)] + [] == [NalAt(s, sp)];
    } else {
      TailNals(s, EndOf(s, sp.nalStart).after);
      OneNalBeforeNext(s, sp, rest[0], Contents(s, rest));
    }
  }

  /** The NAL units from `sp` on are its own and those from the next start code on. */
  lemma {:induction false} OneNalBeforeNext(s: bytes, sp: Span, next: Span, others: seq<bytes>)
    requires sp.startCode <= sp.nalStart <= sp.nalEnd <= next.startCode && GoodSpan(s, next)
    requires NalUnits(s[sp.startCode..]) == [NalAt(s, sp)] + others && NalUnits(s[next.startCode..]) == others
    ensures NalUnits(s[sp.startCode..next.startCode]) == [NalAt(s, sp)]
  {
    hide GoodSpan, NalUnits, NalAt;
    GoodOrder(s, next);
    CutAtSpan(s, sp.startCode, next, |s|);
    assert s[sp.startCode..|s|] == s[sp.startCode..];
    assert s[next.startCode..|s|] == s[next.startCode..];
    CancelSuffix(NalUnits(s[sp.startCode..next.startCode]), [NalAt(s, sp)], others);
  }

  lemma {:induction false} CancelSuffix(a: seq<bytes>, b: seq<bytes>, c: seq<bytes>)
    requires a + c == b + c
    ensures a == b
  {
    assert |a + c| == |b + c|;
    assert a == (a + c)[..|a|] == (b + c)[..|b|] == b;
  }

  // ----- the units hold exactly the pictures

  function MapNals(units: seq<bytes>): (r: seq<seq<bytes>>)
    ensures |r| == |units|
  {
    if units == [] then [] else [NalUnits(units[0])] + MapNals(units[1..])
  }

  /** Where the pending NAL units begin. */
  function CandAt(s: bytes, spans: seq<Span>, cand: Option<Span>): nat {
    if cand.Some? then cand.value.startCode else Next(s, spans)
  }

  function Pos(cand: Option<Span>): Option<nat> {
    if cand.Some? then Some(cand.value.startCode) else None
  }

  /** What the splitter knows at a point of the walk: `first` opens the current unit, `cand` (when there is
      one) is where the next unit would begin; the NAL units so far are those of the bytes so far. */
  ghost predicate Walk(s: bytes, pos: nat, first: Span, hasVcl: bool, cand: Option<Span>, cur: seq<bytes>, pend: seq<bytes>) {
    && 0 < pos <= |s| && (SpansFrom(s, pos) != [] ==> Behind(s, pos))
    && GoodSpan(s, first)
    && var spans := SpansFrom(s, pos);
       var next := Next(s, spans);
       && next <= |s|
       && (first.nalEnd <= next || (!hasVcl && spans != [] && spans[0] == first))
       && (cand.Some? ==> hasVcl && GoodSpan(s, cand.value) && first.nalEnd <= cand.value.startCode && cand.value.nalEnd <= next)
       && first.startCode <= CandAt(s, spans, cand) <= next
       && NalUnits(s[first.startCode..CandAt(s, spans, cand)]) == cur
       && NalUnits(s[CandAt(s, spans, cand)..next]) == pend
  }

  lemma {:induction false} WalkPlaced(s: bytes, pos: nat, first: Span, hasVcl: bool, cand: Option<Span>,
                                      cur: seq<bytes>, pend: seq<bytes>)
    requires Walk(s, pos, first, hasVcl, cand, cur, pend)
    ensures Placed(s, SpansFrom(s, pos), Some(first.startCode), Pos(cand))
  {
    hide NalUnits, SpansFrom;
    NothingSpread(s);
    if SpansFrom(s, pos) != [] {
      SpansFromSpread(s, pos);
    }
  }

  /** The NAL units once the next one is included. */
  lemma {:induction false} WalkNext(s: bytes, pos: nat, first: Span, hasVcl: bool, cand: Option<Span>,
                                    cur: seq<bytes>, pend: seq<bytes>)
    requires Walk(s, pos, first, hasVcl, cand, cur, pend) && SpansFrom(s, pos) != []
    ensures var all := SpansFrom(s, pos);
            var sp, rest, c := all[0], all[1..], CandAt(s, all, cand);
            var pos', next' := EndOf(s, sp.nalStart).after, Next(s, rest);
            && GoodSpan(s, sp) && first.startCode <= c <= sp.startCode && sp.nalEnd <= next' <= |s|
            && first.nalEnd <= next'
            && 0 < pos' <= |s| && rest == SpansFrom(s, pos') && (rest != [] ==> Behind(s, pos'))
            && NalUnits(s[sp.startCode..next']) == [NalAt(s, sp)]
            && NalUnits(s[c..next']) == pend + [NalAt(s, sp)]
            && NalUnits(s[first.startCode..next']) == cur + pend + [NalAt(s, sp)]
  {
    hide NalUnits, SpansFrom, FindCode, EndOf;
    var all := SpansFrom(s, pos);
    var sp, rest, c := all[0], all[1..], CandAt(s, all, cand);
    SpansFromSpread(s, pos);
    PlacedNext(s, all);
    PlacedNext(s, rest);
    RestartAtFirst(s, pos);
    AfterFirst(s, pos);
    assert all == [sp] + rest;
    OneNal(s, pos, sp, rest);
    hide GoodSpan, Behind, CodeAt;
    GoodOrder(s, sp);
    CutAtSpan(s, c, sp, Next(s, rest));
    CutAtSpan(s, first.startCode, sp, Next(s, rest));
    if cand.Some? {
      GoodOrder(s, cand.value);
      CutAtSpan(s, first.startCode, cand.value, sp.startCode);
    } else {
      NoNals();
      assert s[sp.startCode..sp.startCode] == [];
      assert cur + [] == cur;
    }
  }

  lemma {:induction false} GoodOrder(s: bytes, sp: Span)
    requires GoodSpan(s, sp)
    ensures sp.startCode < sp.nalStart < sp.nalEnd <= |s|
  {
    StartCodeZeros(s, sp);
  }

  /** A unit is a stretch of the stream that opens with a NAL unit's start code and covers that NAL unit. */
  ghost predicate UnitOf(s: bytes, u: bytes) {
    exists sp, d :: GoodSpan(s, sp) && sp.startCode <= sp.nalEnd <= d <= |s| && u == s[sp.startCode..d]
  }

  // ----- one step of the walk

  /** A first slice after another: the pending NAL units and it open the next unit. */
  lemma {:induction false} WalkCuts(s: bytes, pos: nat, first: Span, cand: Option<Span>, cur: seq<bytes>, pend: seq<bytes>)
    requires Walk(s, pos, first, true, cand, cur, pend) && SpansFrom(s, pos) != []
    ensures var sp := SpansFrom(s, pos)[0];
            var b := if cand.Some? then cand.value else sp;
            && first.startCode <= first.nalEnd <= b.startCode <= |s| && GoodSpan(s, first)
            && NalUnits(s[first.startCode..b.startCode]) == cur
            && Walk(s, EndOf(s, sp.nalStart).after, b, true, None, pend + [NalAt(s, sp)], [])
  {
    hide NalUnits, SpansFrom, EndOf, GoodSpan, Behind, NalAt;
    WalkNext(s, pos, first, true, cand, cur, pend);
    GoodOrder(s, first);
    NothingPending(s, Next(s, SpansFrom(s, pos)[1..]));
  }

  /** Any other slice joins the current unit, with what was pending. */
  lemma {:induction false} WalkJoins(s: bytes, pos: nat, first: Span, hasVcl: bool, cand: Option<Span>,
                                     cur: seq<bytes>, pend: seq<bytes>)
    requires Walk(s, pos, first, hasVcl, cand, cur, pend) && SpansFrom(s, pos) != []
    ensures var sp := SpansFrom(s, pos)[0];
            Walk(s, EndOf(s, sp.nalStart).after, first, true, None, cur + pend + [NalAt(s, sp)], [])
  {
    hide NalUnits, SpansFrom, EndOf, GoodSpan, Behind, NalAt;
    WalkNext(s, pos, first, hasVcl, cand, cur, pend);
    NothingPending(s, Next(s, SpansFrom(s, pos)[1..]));
  }

  /** Behind a slice a NAL unit that is none is pending. */
  lemma {:induction false} WalkWaits(s: bytes, pos: nat, first: Span, cand: Option<Span>, cur: seq<bytes>, pend: seq<bytes>)
    requires Walk(s, pos, first, true, cand, cur, pend) && SpansFrom(s, pos) != []
    ensures var sp := SpansFrom(s, pos)[0];
            Walk(s, EndOf(s, sp.nalStart).after, first, true, if cand == None then Some(sp) else cand, cur,
                 pend + [NalAt(s, sp)])
  {
    hide NalUnits, SpansFrom, EndOf, GoodSpan, Behind, NalAt;
    WalkNext(s, pos, first, true, cand, cur, pend);
  }

  /** In front of the first slice it joins the current unit. */
  lemma {:induction false} WalkLeads(s: bytes, pos: nat, first: Span, cand: Option<Span>, cur: seq<bytes>, pend: seq<bytes>)
    requires Walk(s, pos, first, false, cand, cur, pend) && SpansFrom(s, pos) != []
    ensures var sp := SpansFrom(s, pos)[0];
            && cand == None && pend == []
            && Walk(s, EndOf(s, sp.nalStart).after, first, false, None, cur + [NalAt(s, sp)], [])
  {
    hide NalUnits, SpansFrom, EndOf, GoodSpan, Behind, NalAt;
    WalkNext(s, pos, first, false, cand, cur, pend);
    NothingPending(s, Next(s, SpansFrom(s, pos)));
    NothingPending(s, Next(s, SpansFrom(s, pos)[1..]));
    assert cur + [] + [NalAt(s, SpansFrom(s, pos)[0])] == cur + [NalAt(s, SpansFrom(s, pos)[0])];
  }

  lemma {:induction false} NothingPending(s: bytes, at: nat)
    requires at <= |s|
    ensures NalUnits(s[at..at]) == []
  {
    NoNals();
    assert s[at..at] == [];
  }

  /** The splitter's units hold exactly the groups of the reference definition. */
  lemma {:induction false} SplitIsGroup(s: bytes, pos: nat, first: Span, hasVcl: bool, cand: Option<Span>,
                                        cur: seq<bytes>, pend: seq<bytes>)
    requires Walk(s, pos, first, hasVcl, cand, cur, pend)
    ensures Placed(s, SpansFrom(s, pos), Some(first.startCode), Pos(cand))
    ensures var units := Split(s, SpansFrom(s, pos), Some(first.startCode), hasVcl, Pos(cand));
            && MapNals(units) == Group(Contents(s, SpansFrom(s, pos)), cur, pend, hasVcl)
            && forall u :: u in units ==> UnitOf(s, u)
    decreases |SpansFrom(s, pos)|
  {
    hide NalUnits, SpansFrom, GoodSpan, Behind, EndOf, IsVcl, IsFirstSlice, UnitOf, Contents, Group, Split, MapNals, WellSpread;
    hide Walk, Placed;
    WalkIs(s, pos, first, hasVcl, cand, cur, pend);
    WalkPlaced(s, pos, first, hasVcl, cand, cur, pend);
    var all := SpansFrom(s, pos);
    if all == [] {
      LastUnit(s, pos, first, hasVcl, cand, cur, pend);
    } else {
      var sp, rest := all[0], all[1..];
      var n, pos' := NalAt(s, sp), EndOf(s, sp.nalStart).after;
      RestFrom(s, pos, first, hasVcl, cand, cur, pend);
      SplitNext(s, all, Some(first.startCode), hasVcl, Pos(cand));
      GroupStep(Contents(s, all), cur, pend, hasVcl);
      OneContent(s, sp, rest);
      assert all == [sp] + rest;
      assert ([n] + Contents(s, rest))[1..] == Contents(s, rest);
      if IsVcl(n) && IsFirstSlice(n) && hasVcl {
        var b := if cand.Some? then cand.value else sp;
        WalkCuts(s, pos, first, cand, cur, pend);
        SplitIsGroup(s, pos', b, true, None, pend + [n], []);
        UnitIs(s, first, b.startCode);
        MapNalsCons(s[first.startCode..b.startCode], Split(s, rest, Some(b.startCode), true, None));
      } else if IsVcl(n) {
        WalkJoins(s, pos, first, hasVcl, cand, cur, pend);
        SplitIsGroup(s, pos', first, true, None, cur + pend + [n], []);
      } else if hasVcl {
        WalkWaits(s, pos, first, cand, cur, pend);
        SplitIsGroup(s, pos', first, true, if cand == None then Some(sp) else cand, cur, pend + [n]);
      } else {
        WalkLeads(s, pos, first, cand, cur, pend);
        SplitIsGroup(s, pos', first, false, None, cur + [n], []);
      }
    }
  }

  lemma {:induction false} RestFrom(s: bytes, pos: nat, first: Span, hasVcl: bool, cand: Option<Span>,
                                    cur: seq<bytes>, pend: seq<bytes>)
    requires Walk(s, pos, first, hasVcl, cand, cur, pend) && SpansFrom(s, pos) != []
    ensures var sp, rest := SpansFrom(s, pos)[0], SpansFrom(s, pos)[1..];
            && GoodSpan(s, sp) && sp.startCode < sp.nalStart < sp.nalEnd <= |s|
            && rest == SpansFrom(s, EndOf(s, sp.nalStart).after) && InStream(s, rest)
  {
    hide NalUnits, SpansFrom, EndOf, GoodSpan, Behind, NalAt, WellSpread;
    WalkNext(s, pos, first, hasVcl, cand, cur, pend);
    WalkPlaced(s, pos, first, hasVcl, cand, cur, pend);
    PlacedNext(s, SpansFrom(s, pos));
    PlacedNext(s, SpansFrom(s, pos)[1..]);
    GoodOrder(s, SpansFrom(s, pos)[0]);
  }

  lemma {:induction false} WalkIs(s: bytes, pos: nat, first: Span, hasVcl: bool, cand: Option<Span>,
                                  cur: seq<bytes>, pend: seq<bytes>)
    requires Walk(s, pos, first, hasVcl, cand, cur, pend)
    ensures 0 < pos <= |s|
  {
    hide NalUnits, SpansFrom, GoodSpan, Behind;
  }

  lemma {:induction false} UnitIs(s: bytes, sp: Span, d: nat)
    requires GoodSpan(s, sp) && sp.nalEnd <= d <= |s|
    ensures sp.startCode <= d && UnitOf(s, s[sp.startCode..d])
  {
  }

  lemma {:induction false} MapNalsCons(u: bytes, rest: seq<bytes>)
    ensures MapNals([u] + rest) == [NalUnits(u)] + MapNals(rest)
  {
    assert ([u] + rest)[1..] == rest;
  }

  lemma {:induction false} GroupStep(nals: seq<bytes>, cur: seq<bytes>, pend: seq<bytes>, hasVcl: bool)
    requires nals != []
    ensures var n, rest := nals[0], nals[1..];
            Group(nals, cur, pend, hasVcl) ==
            if IsVcl(n) && IsFirstSlice(n) && hasVcl then [cur] + Group(rest, pend + [n], [], true)
            else if IsVcl(n) then Group(rest, cur + pend + [n], [], true)
            else if hasVcl then Group(rest, cur, pend + [n], true)
            else Group(rest, cur + [n], pend, false)
  {
    hide IsVcl, IsFirstSlice;
  }

  /** At the end of the stream what is left is the last unit. */
  lemma {:induction false} LastUnit(s: bytes, pos: nat, first: Span, hasVcl: bool, cand: Option<Span>,
                                    cur: seq<bytes>, pend: seq<bytes>)
    requires Walk(s, pos, first, hasVcl, cand, cur, pend) && SpansFrom(s, pos) == []
    ensures Placed(s, [], Some(first.startCode), Pos(cand))
    ensures var units := Split(s, [], Some(first.startCode), hasVcl, Pos(cand));
            && MapNals(units) == Group(Contents(s, []), cur, pend, hasVcl)
            && forall u :: u in units ==> UnitOf(s, u)
  {
    hide NalUnits, SpansFrom, FindCode;
    WalkPlaced(s, pos, first, hasVcl, cand, cur, pend);
    GoodOrder(s, first);
    assert s[first.startCode..|s|] == s[first.startCode..];
    if cand.Some? {
      GoodOrder(s, cand.value);
      CutAtSpan(s, first.startCode, cand.value, |s|);
    } else {
      NoNals();
      assert s[|s|..|s|] == [];
      assert cur + [] == cur;
    }
    UnitIs(s, first, |s|);
    MapNalsCons(s[first.startCode..], []);
    assert [s[first.startCode..]] + [] == [s[first.startCode..]];
  }

  /** Re-scanning the access units one by one gives the stream's NAL units, grouped into pictures. */
  lemma {:induction false} UnitsArePictures(s: bytes)
    ensures MapNals(Units(s)) == Pictures(NalUnits(s))
    ensures forall u :: u in Units(s) ==> UnitOf(s, u)
  {
    hide FindCode, SpansFrom, Split, Group, UnitOf, Contents, Walk, Placed, WellSpread, NalUnits, Spans, GoodSpan, MapNals;
    SpansSpread(s);
    SpansAreNalUnits(s);
    NoContents(s);
    var spans := Spans(s);
    if spans == [] {
      EmptySplit(s);
      NoUnits();
    } else {
      var pos := WalkStarts(s);
      SplitStart(s, spans);
      NalsOfSpans(s);
      SplitIsGroup(s, pos, spans[0], false, None, [], []);
    }
  }

  lemma {:induction false} NoUnits()
    ensures MapNals([]) == []
  {
  }

  lemma {:induction false} NalsOfSpans(s: bytes)
    requires Spans(s) != []
    ensures Contents(s, Spans(s)) != []
  {
    hide Spans;
    SpansSpread(s);
  }

  /** The walk at the first NAL unit. */
  lemma {:induction false} WalkStarts(s: bytes) returns (pos: nat)
    requires Spans(s) != []
    ensures 0 < pos <= |s| && Spans(s) == SpansFrom(s, pos)
    ensures Walk(s, pos, Spans(s)[0], false, None, [], [])
  {
    hide FindCode, SpansFrom, NalUnits, GoodSpan;
    SpansSpread(s);
    FindCodeIs(s, 0);
    pos := FindCode(s, 0).value.after;
    var sp := Spans(s)[0];
    PlacedNext(s, Spans(s));
    NoNals();
    assert s[sp.startCode..sp.startCode] == [];
  }

  lemma {:induction false} EmptySplit(s: bytes)
    requires WellSpread(s, [])
    ensures Split(s, [], None, false, None) == []
  {
  }

  // ----- consequences

  function Flatten(gs: seq<seq<bytes>>): seq<bytes> {
    if gs == [] then [] else gs[0] + Flatten(gs[1..])
  }

  lemma {:induction false} GroupFlatten(nals: seq<bytes>, cur: seq<bytes>, pend: seq<bytes>, hasVcl: bool)
    requires !hasVcl ==> pend == []
    ensures Flatten(Group(nals, cur, pend, hasVcl)) == cur + pend + nals
    decreases |nals|
  {
    hide IsVcl, IsFirstSlice;
    if nals == [] {
      assert [cur + pend][1..] == [];
      assert cur + pend + [] == cur + pend;
    } else {
      var n, rest := nals[0], nals[1..];
      assert nals == [n] + rest;
      if IsVcl(n) {
        if IsFirstSlice(n) && hasVcl {
          GroupFlatten(rest, pend + [n], [], true);
          var tail := Group(rest, pend + [n], [], true);
          assert ([cur] + tail)[1..] == tail;
          assert cur + (pend + [n] + [] + rest) == cur + pend + nals;
        } else {
          GroupFlatten(rest, cur + pend + [n], [], true);
          assert cur + pend + [n] + [] + rest == cur + pend + nals;
        }
      } else if hasVcl {
        GroupFlatten(rest, cur, pend + [n], true);
        assert cur + (pend + [n]) + rest == cur + pend + nals;
      } else {
        GroupFlatten(rest, cur + [n], pend, false);
        assert cur + [n] + pend + rest == cur + pend + nals;
      }
    }
  }

  /** Re-scanning every unit yields, together, exactly the stream's NAL units. */
  lemma {:induction false} NoNalLost(s: bytes)
    ensures Flatten(MapNals(Units(s))) == NalUnits(s)
  {
    hide Units, MapNals, NalUnits, Group;
    UnitsArePictures(s);
    GroupFlatten(NalUnits(s), [], [], false);
    assert [] + [] + NalUnits(s) == NalUnits(s);
  }

  lemma {:induction false} MapNalsAt(units: seq<bytes>, k: nat)
    requires k < |units|
    ensures |MapNals(units)| == |units| && MapNals(units)[k] == NalUnits(units[k])
  {
    if k > 0 {
      MapNalsAt(units[1..], k - 1);
    } else if |units| > 1 {
      MapNalsAt(units[1..], 0);
    }
  }

  /** No unit holds slices of two pictures, and every unit after the first opens with its picture's first
      slice as its first VCL NAL unit. */
  lemma {:induction false} UnitsHoldOnePicture(s: bytes, k: nat)
    requires k < |Units(s)|
    ensures NalUnits(Units(s)[k]) != []
    ensures OnePicture(NalUnits(Units(s)[k]))
    ensures k > 0 ==> OpensPicture(NalUnits(Units(s)[k]))
  {
    hide *;
    UnitsArePictures(s);
    MapNalsAt(Units(s), k);
    PicturesShape(NalUnits(s), k);
  }

  lemma {:induction false} PicturesShape(nals: seq<bytes>, k: nat)
    requires k < |Pictures(nals)|
    ensures Pictures(nals)[k] != [] && OnePicture(Pictures(nals)[k]) && (k > 0 ==> OpensPicture(Pictures(nals)[k]))
  {
    hide Group;
    GroupShape(nals, [], [], false, false);
    GroupNonEmpty(nals, [], [], false, k);
  }

  lemma {:induction false} GroupNonEmpty(nals: seq<bytes>, cur: seq<bytes>, pend: seq<bytes>, hasVcl: bool, k: nat)
    requires k < |Group(nals, cur, pend, hasVcl)| && (nals != [] || cur != []) && (hasVcl ==> cur != [])
    ensures Group(nals, cur, pend, hasVcl)[k] != []
    decreases |nals|
  {
    hide IsVcl, IsFirstSlice;
    if nals != [] {
      var n, rest := nals[0], nals[1..];
      if IsVcl(n) {
        if IsFirstSlice(n) && hasVcl {
          if k > 0 {
            GroupNonEmpty(rest, pend + [n], [], true, k - 1);
          }
        } else {
          GroupNonEmpty(rest, cur + pend + [n], [], true, k);
        }
      } else if hasVcl {
        GroupNonEmpty(rest, cur, pend + [n], true, k);
      } else {
        GroupNonEmpty(rest, cur + [n], pend, false, k);
      }
    }
  }

  // ----- splitting a unit again

  /** The bytes from a NAL unit's first to any later start code are not all zeros. */
  lemma {:induction false} NalNotAllZeros(s: bytes, sp: Span, a: nat)
    requires GoodSpan(s, sp) && sp.nalStart + 3 <= a <= |s| && CodeAt(s, a - 3)
    ensures sp.nalEnd < a && s[sp.nalEnd - 1] != 0
  {
  }

  /** In a piece that covers the NAL unit, the NAL unit is not empty. */
  lemma {:induction false} NalInPiece(s: bytes, sp: Span, d: nat)
    requires GoodSpan(s, sp) && sp.startCode <= sp.nalEnd <= d <= |s|
    ensures var u, ns := s[sp.startCode..d], sp.nalStart - sp.startCode;
            ns < |u| && EndOf(u, ns).begin > ns
  {
    var b, u := sp.startCode, s[sp.startCode..d];
    var ns := sp.nalStart - b;
    if FindCode(u, ns).Some? {
      FindCodeIs(u, ns);
      hide FindCode, GoodSpan;
      NotAtNal(s, sp, d, EndOf(u, ns));
    }
  }

  lemma {:induction false} NotAtNal(s: bytes, sp: Span, d: nat, c: Code)
    requires GoodSpan(s, sp) && sp.startCode <= sp.nalEnd <= d <= |s|
    requires IsCode(s[sp.startCode..d], sp.nalStart - sp.startCode, c)
    ensures c.begin != sp.nalStart - sp.startCode
  {
    var b, u := sp.startCode, s[sp.startCode..d];
    var e := sp.nalEnd - 1 - b;
    assert CodeAt(u, c.after - 3) && CodeAt(s, b + c.after - 3);
    NalNotAllZeros(s, sp, b + c.after);
    assert u[e] == s[sp.nalEnd - 1];
  }

  /** A unit's own first NAL unit has its start code at the very beginning. */
  lemma {:induction false} FirstSpanOfUnit(s: bytes, sp: Span, d: nat)
    requires GoodSpan(s, sp) && sp.startCode <= sp.nalEnd <= d <= |s|
    ensures Spans(s[sp.startCode..d]) != [] && Spans(s[sp.startCode..d])[0].startCode == 0
  {
    hide FindCode, GoodSpan, EndOf, ZerosBefore, SpansFrom;
    var u, ns := s[sp.startCode..d], sp.nalStart - sp.startCode;
    GoodOrder(s, sp);
    PieceOpens(s, sp, d);
    NalInPiece(s, sp, d);
    UnitZeros(s, sp, d);
    AllZerosBefore(u, ns - 1);
    SpansStep(u, ns);
  }

  /** It opens with the zeros of its start code. */
  lemma {:induction false} UnitZeros(s: bytes, sp: Span, d: nat)
    requires GoodSpan(s, sp) && sp.startCode <= sp.nalEnd <= d <= |s|
    ensures var u, ns := s[sp.startCode..d], sp.nalStart - sp.startCode;
            3 <= ns < |u| && forall k :: 0 <= k < ns - 1 ==> u[k] == 0
  {
    StartCodeZeros(s, sp);
    GoodOrder(s, sp);
    hide GoodSpan;
    forall k | 0 <= k < sp.nalStart - sp.startCode - 1 ensures s[sp.startCode..d][k] == 0 {
      assert s[sp.startCode..d][k] == s[sp.startCode + k];
    }
  }

  lemma {:induction false} AllZerosBefore(u: bytes, i: nat)
    requires i <= |u| && forall k :: 0 <= k < i ==> u[k] == 0
    ensures ZerosBefore(u, i, 0) == 0
  {
  }

  /** Splitting a unit again returns just that unit. */
  lemma {:induction false} SplitAgain(s: bytes, k: nat)
    requires k < |Units(s)|
    ensures Units(Units(s)[k]) == [Units(s)[k]]
  {
    hide *;
    var u := Units(s)[k];
    UnitsArePictures(s);
    UnitsHoldOnePicture(s, k);
    UnitsArePictures(u);
    OnePictureAlone(NalUnits(u));
    UnitsMakeUpStream(u);
    UnitStart(s, u);
    SingleUnit(Units(u), NalUnits(u), u);
  }

  lemma {:induction false} OnePictureAlone(g: seq<bytes>)
    requires g != [] && OnePicture(g)
    ensures Pictures(g) == [g]
  {
    assert [] + [] + g == g;
    GroupOnePicture(g, [], [], false);
  }

  lemma {:induction false} UnitStart(s: bytes, u: bytes)
    requires UnitOf(s, u)
    ensures Spans(u) != [] && Next(u, Spans(u)) == 0
  {
    hide FindCode, GoodSpan, Spans;
    var sp, d :| GoodSpan(s, sp) && sp.startCode <= sp.nalEnd <= d <= |s| && u == s[sp.startCode..d];
    FirstSpanOfUnit(s, sp, d);
  }

  lemma {:induction false} SingleUnit(units: seq<bytes>, g: seq<bytes>, u: bytes)
    requires MapNals(units) == [g] && Concat(units) == u[0..]
    ensures units == [u]
  {
    hide NalUnits;
    assert units == [units[0]] && units[1..] == [];
    assert Concat(units[1..]) == [];
    assert Concat(units) == units[0] + [] == units[0];
    assert u[0..] == u;
  }
}
