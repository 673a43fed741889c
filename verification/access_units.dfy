/** Splitting a byte stream into access units. */
module AccessUnits {
  import opened Bytes
  import opened AnnexB
  import opened NalSpans

  const NAL_IDR: byte := 5
  const NAL_AUD: byte := 9

  function UnitType(nal: bytes): Option<byte> {
    if nal == [] then None else Some(nal[0] % 32)
  }

  /** A coded slice. */
  predicate IsVcl(nal: bytes) {
    nal != [] && 1 <= nal[0] % 32 <= 5
  }

  /** A coded slice whose `first_mb_in_slice` is 0: the top bit of its second byte is set. */
  predicate IsFirstSlice(nal: bytes) {
    IsVcl(nal) && |nal| > 1 && nal[1] >= 0x80
  }

  predicate ContainsIdr(stream: bytes) {
    exists k :: 0 <= k < |NalUnits(stream)| && UnitType(NalUnits(stream)[k]) == Some(NAL_IDR)
  }

  predicate StartsWithAud(stream: bytes) {
    NalUnits(stream) != [] && UnitType(NalUnits(stream)[0]) == Some(NAL_AUD)
  }

  // ----- the iterator's answers

  /** Where the next NAL unit's start code begins; the end of the stream when there is none. */
  function Next(s: bytes, spans: seq<Span>): nat {
    if spans == [] then |s| else spans[0].startCode
  }

  /** The iterator's positions are in order. */
  ghost predicate Placed(s: bytes, spans: seq<Span>, start: Option<nat>, cand: Option<nat>) {
    && WellSpread(s, spans)
    && (start.Some? ==> start.value <= Next(s, spans))
    && (cand.Some? ==> start.Some? && start.value <= cand.value <= Next(s, spans))
  }

  lemma {:induction false} PlacedNext(s: bytes, spans: seq<Span>)
    requires WellSpread(s, spans)
    ensures Next(s, spans) <= |s| && InStream(s, spans)
    ensures spans != [] ==>
              && GoodSpan(s, spans[0]) && WellSpread(s, spans[1..])
              && spans[0].startCode <= spans[0].nalStart < spans[0].nalEnd <= Next(s, spans[1..])
  {
  }

  function NalAt(s: bytes, sp: Span): bytes
    requires sp.nalStart <= sp.nalEnd <= |s|
  {
    s[sp.nalStart..sp.nalEnd]
  }

  /** The access units still to come: `start` is where the current one begins, `cand` where the next one
      would begin if the next slice opens a picture. */
  function Split(s: bytes, spans: seq<Span>, start: Option<nat>, hasVcl: bool, cand: Option<nat>): seq<bytes>
    requires Placed(s, spans, start, cand)
    decreases |spans|
  {
    PlacedNext(s, spans);
    if spans == [] then
      if start.Some? && start.value < |s| then [s[start.value..]] else []
    else
      var sp, rest := spans[0], spans[1..];
      var begin := if start.Some? then start.value else sp.startCode;
      if IsVcl(NalAt(s, sp)) then
        if IsFirstSlice(NalAt(s, sp)) && hasVcl then
          var boundary := if cand.Some? then cand.value else sp.startCode;
          [s[begin..boundary]] + Split(s, rest, Some(boundary), true, None)
        else Split(s, rest, Some(begin), true, None)
      else Split(s, rest, Some(begin), hasVcl, if hasVcl && cand == None then Some(sp.startCode) else cand)
  }

  /** One step of the splitter, from any state. */
  lemma {:induction false} SplitNext(s: bytes, spans: seq<Span>, start: Option<nat>, hasVcl: bool, cand: Option<nat>)
    requires Placed(s, spans, start, cand) && spans != []
    requires spans[0].nalStart <= spans[0].nalEnd <= |s|
    ensures var sp, rest := spans[0], spans[1..];
            var n, begin := NalAt(s, sp), if start.Some? then start.value else sp.startCode;
            var boundary := if cand.Some? then cand.value else sp.startCode;
            var cand' := if hasVcl && cand == None then Some(sp.startCode) else cand;
            && begin <= boundary <= |s|
            && Placed(s, rest, Some(boundary), None) && Placed(s, rest, Some(begin), None) && Placed(s, rest, Some(begin), cand')
            && Split(s, spans, start, hasVcl, cand) ==
               if IsVcl(n) && IsFirstSlice(n) && hasVcl then [s[begin..boundary]] + Split(s, rest, Some(boundary), true, None)
               else if IsVcl(n) then Split(s, rest, Some(begin), true, None)
               else Split(s, rest, Some(begin), hasVcl, cand')
  {
    hide WellSpread, IsVcl, IsFirstSlice;
    PlacedNext(s, spans);
  }

  function Units(s: bytes): seq<bytes> {
    SpansSpread(s);
    Split(s, Spans(s), None, false, None)
  }

  // ----- the units make up the stream

  lemma {:induction false} SplitConcat(s: bytes, spans: seq<Span>, start: nat, hasVcl: bool, cand: Option<nat>)
    requires Placed(s, spans, Some(start), cand)
    ensures Concat(Split(s, spans, Some(start), hasVcl, cand)) == s[start..]
    decreases |spans|
  {
    hide WellSpread, Split, IsVcl, IsFirstSlice, Concat, Placed;
    if spans == [] {
      SplitAtEnd(s, start, hasVcl, cand);
    } else {
      PlacedWhere(s, spans, start, cand);
      SplitNext(s, spans, Some(start), hasVcl, cand);
      var sp, rest := spans[0], spans[1..];
      if IsVcl(NalAt(s, sp)) {
        if IsFirstSlice(NalAt(s, sp)) && hasVcl {
          var boundary := if cand.Some? then cand.value else sp.startCode;
          SplitConcat(s, rest, boundary, true, None);
          ConcatCons(s[start..boundary], Split(s, rest, Some(boundary), true, None));
          assert s[start..boundary] + s[boundary..] == s[start..];
        } else {
          SplitConcat(s, rest, start, true, None);
        }
      } else {
        SplitConcat(s, rest, start, hasVcl, if hasVcl && cand == None then Some(sp.startCode) else cand);
      }
    }
  }

  lemma {:induction false} PlacedWhere(s: bytes, spans: seq<Span>, start: nat, cand: Option<nat>)
    requires Placed(s, spans, Some(start), cand) && spans != []
    ensures spans[0].nalStart <= spans[0].nalEnd <= |s|
    ensures start <= (if cand.Some? then cand.value else spans[0].startCode) <= |s|
  {
    PlacedNext(s, spans);
  }

  lemma {:induction false} SplitAtEnd(s: bytes, start: nat, hasVcl: bool, cand: Option<nat>)
    requires Placed(s, [], Some(start), cand)
    ensures start <= |s| && Concat(Split(s, [], Some(start), hasVcl, cand)) == s[start..]
  {
    if start < |s| {
      ConcatCons(s[start..], []);
      assert [s[start..]] + [] == [s[start..]];
      assert s[start..] + [] == s[start..];
    }
  }

  lemma {:induction false} SplitStart(s: bytes, spans: seq<Span>)
    requires WellSpread(s, spans) && spans != []
    ensures Split(s, spans, None, false, None) == Split(s, spans, Some(spans[0].startCode), false, None)
  {
    hide WellSpread;
    PlacedNext(s, spans);
  }

  /** The access units make up the stream from its first NAL unit's start code on. */
  lemma {:induction false} UnitsMakeUpStream(s: bytes)
    ensures Concat(Units(s)) == if Spans(s) == [] then [] else s[Next(s, Spans(s))..]
  {
    hide WellSpread;
    SpansSpread(s);
    if Spans(s) != [] {
      SplitStart(s, Spans(s));
      SplitConcat(s, Spans(s), Spans(s)[0].startCode, false, None);
    }
  }

  // ----- a reference definition on NAL units alone

  /** NAL units in pictures: a first slice after a slice closes the group before the NAL units that lead up
      to it. `cur` is the group so far, `pend` the non-slices since its last slice. */
  function Group(nals: seq<bytes>, cur: seq<bytes>, pend: seq<bytes>, hasVcl: bool): seq<seq<bytes>>
    decreases |nals|
  {
    if nals == [] then [cur + pend]
    else
      var n, rest := nals[0], nals[1..];
      if IsVcl(n) then
        if IsFirstSlice(n) && hasVcl then [cur] + Group(rest, pend + [n], [], true)
        else Group(rest, cur + pend + [n], [], true)
      else if hasVcl then Group(rest, cur, pend + [n], true)
      else Group(rest, cur + [n], pend, false)
  }

  function Pictures(nals: seq<bytes>): seq<seq<bytes>> {
    if nals == [] then [] else Group(nals, [], [], false)
  }

  /** No first slice comes after another slice. */
  predicate OnePicture(g: seq<bytes>) {
    forall i, j :: 0 <= i < j < |g| && IsVcl(g[i]) ==> !IsFirstSlice(g[j])
  }

  /** The first slice of a picture is there, and is the first VCL NAL unit. */
  predicate OpensPicture(g: seq<bytes>) {
    exists j :: 0 <= j < |g| && IsFirstSlice(g[j]) && forall i :: 0 <= i < j ==> !IsVcl(g[i])
  }

  predicate NoSlices(g: seq<bytes>) {
    forall k :: 0 <= k < |g| ==> !IsVcl(g[k])
  }

  /** What grouping guarantees about each group. `isOpen`: the current group opens a picture. */
  lemma {:induction false} GroupShape(nals: seq<bytes>, cur: seq<bytes>, pend: seq<bytes>, hasVcl: bool, isOpen: bool)
    requires OnePicture(cur) && NoSlices(pend) && (hasVcl <==> !NoSlices(cur)) && (!hasVcl ==> pend == [])
    requires isOpen ==> OpensPicture(cur)
    ensures var gs := Group(nals, cur, pend, hasVcl);
            && |gs| > 0
            && (forall k :: 0 <= k < |gs| ==> OnePicture(gs[k]))
            && (forall k :: 0 < k < |gs| ==> OpensPicture(gs[k]))
            && (isOpen ==> OpensPicture(gs[0]))
    decreases |nals|
  {
    hide IsVcl, IsFirstSlice, OpensPicture, OnePicture, NoSlices;
    if nals == [] {
      ExtendByNonSlices(cur, pend);
    } else {
      var n, rest := nals[0], nals[1..];
      FirstSliceIsVcl(n);
      if IsVcl(n) {
        if IsFirstSlice(n) && hasVcl {
          NewPicture(pend, n);
          GroupShape(rest, pend + [n], [], true, true);
        } else {
          ExtendByNonSlices(cur, pend);
          ExtendBySlice(cur + pend, n, hasVcl);
          GroupShape(rest, cur + pend + [n], [], true, isOpen);
        }
      } else if hasVcl {
        MoreNonSlices(pend, n);
        GroupShape(rest, cur, pend + [n], true, isOpen);
      } else {
        MoreNonSlices([], n);
        ExtendByNonSlices(cur, [n]);
        GroupShape(rest, cur + [n], pend, false, isOpen);
      }
    }
  }

  lemma {:induction false} FirstSliceIsVcl(n: bytes)
    ensures IsFirstSlice(n) ==> IsVcl(n)
    ensures NoSlices([])
  {
  }

  lemma {:induction false} MoreNonSlices(pend: seq<bytes>, n: bytes)
    requires NoSlices(pend) && !IsVcl(n)
    ensures NoSlices(pend + [n])
  {
  }

  lemma {:induction false} NewPicture(pend: seq<bytes>, n: bytes)
    requires NoSlices(pend) && IsFirstSlice(n)
    ensures OpensPicture(pend + [n]) && OnePicture(pend + [n]) && !NoSlices(pend + [n])
  {
    var g := pend + [n];
    assert IsFirstSlice(g[|pend|]) && forall i :: 0 <= i < |pend| ==> g[i] == pend[i];
    assert IsVcl(g[|pend|]);
  }

  lemma {:induction false} ExtendByNonSlices(cur: seq<bytes>, pend: seq<bytes>)
    requires OnePicture(cur) && NoSlices(pend)
    ensures OnePicture(cur + pend)
    ensures OpensPicture(cur) ==> OpensPicture(cur + pend)
    ensures NoSlices(cur + pend) <==> NoSlices(cur)
  {
    var g := cur + pend;
    assert forall k :: 0 <= k < |cur| ==> g[k] == cur[k];
    assert forall k :: |cur| <= k < |g| ==> g[k] == pend[k - |cur|];
    if OpensPicture(cur) {
      var j :| 0 <= j < |cur| && IsFirstSlice(cur[j]) && forall i :: 0 <= i < j ==> !IsVcl(cur[i]);
      assert IsFirstSlice(g[j]);
    }
  }

  lemma {:induction false} ExtendBySlice(g: seq<bytes>, n: bytes, hasVcl: bool)
    requires OnePicture(g) && IsVcl(n) && (hasVcl <==> !NoSlices(g)) && !(IsFirstSlice(n) && hasVcl)
    ensures OnePicture(g + [n]) && !NoSlices(g + [n])
    ensures OpensPicture(g) ==> OpensPicture(g + [n])
  {
    var h := g + [n];
    assert IsVcl(h[|g|]);
    assert forall k :: 0 <= k < |g| ==> h[k] == g[k];
    if OpensPicture(g) {
      var j :| 0 <= j < |g| && IsFirstSlice(g[j]) && forall i :: 0 <= i < j ==> !IsVcl(g[i]);
      assert IsFirstSlice(h[j]);
    }
  }

  /** Grouping one picture gives that picture. */
  lemma {:induction false} GroupOnePicture(nals: seq<bytes>, cur: seq<bytes>, pend: seq<bytes>, hasVcl: bool)
    requires OnePicture(cur + pend + nals) && (hasVcl ==> !NoSlices(cur + pend)) && (!hasVcl ==> pend == [])
    ensures Group(nals, cur, pend, hasVcl) == [cur + pend + nals]
    decreases |nals|
  {
    hide IsVcl, IsFirstSlice, OnePicture, NoSlices;
    if nals == [] {
      assert cur + pend + nals == cur + pend;
    } else {
      var n, rest := nals[0], nals[1..];
      assert nals == [n] + rest;
      NoSecondPicture(cur + pend, n, rest, hasVcl);
      HasSlice(cur + pend, n);
      if IsVcl(n) {
        assert cur + pend + nals == (cur + pend + [n]) + [] + rest;
        assert cur + pend + [n] + [] == cur + pend + [n];
        GroupOnePicture(rest, cur + pend + [n], [], true);
      } else if hasVcl {
        assert cur + pend + nals == cur + (pend + [n]) + rest;
        assert cur + pend + [n] == cur + (pend + [n]);
        GroupOnePicture(rest, cur, pend + [n], true);
      } else {
        assert cur + pend + nals == (cur + [n]) + pend + rest;
        GroupOnePicture(rest, cur + [n], pend, false);
      }
    }
  }

  lemma {:induction false} HasSlice(g: seq<bytes>, n: bytes)
    ensures !NoSlices(g) || IsVcl(n) ==> !NoSlices(g + [n])
  {
    var h := g + [n];
    if IsVcl(n) {
      assert IsVcl(h[|g|]);
    } else if !NoSlices(g) {
      var k :| 0 <= k < |g| && IsVcl(g[k]);
      assert IsVcl(h[k]);
    }
  }

  lemma {:induction false} NoSecondPicture(g: seq<bytes>, n: bytes, rest: seq<bytes>, hasVcl: bool)
    requires OnePicture(g + ([n] + rest)) && (hasVcl ==> !NoSlices(g))
    ensures !(IsFirstSlice(n) && hasVcl)
  {
    if hasVcl {
      var h := g + ([n] + rest);
      var k :| 0 <= k < |g| && IsVcl(g[k]);
      assert IsVcl(h[k]) && h[|g|] == n;
    }
  }
}
