/** The access units by NAL unit type: what holds of them, and that nothing else does. */
module UnitShape {
  import opened Bytes
  import opened AnnexB
  import opened AccessUnits
  import opened UnitNals

  /** NAL unit types 1 to 5. */
  predicate Slice(n: bytes) {
    n != [] && n[0] as int % 32 in {1, 2, 3, 4, 5}
  }

  /** A slice whose first macroblock is 0: the first bit behind the NAL unit's header byte is the code for it. */
  predicate Opening(n: bytes) {
    Slice(n) && |n| >= 2 && n[1] / 128 == 1
  }

  /** No slice in front of an opening one. */
  ghost predicate Single(g: seq<bytes>) {
    forall i, j :: 0 <= i < j < |g| && Slice(g[i]) ==> !Opening(g[j])
  }

  /** The first slice is an opening one. */
  ghost predicate Opened(g: seq<bytes>) {
    exists j :: 0 <= j < |g| && Opening(g[j]) && forall i :: 0 <= i < j ==> !Slice(g[i])
  }

  predicate EndsInSlice(g: seq<bytes>) {
    g != [] && Slice(g[|g| - 1])
  }

  /** A list of NAL units cut into pictures: all of them, none empty, one picture each, each but the first opening with its
      first slice, each but the last ending with a slice. */
  ghost predicate Cut(nals: seq<bytes>, gs: seq<seq<bytes>>) {
    && Flatten(gs) == nals
    && (forall k :: 0 <= k < |gs| ==> gs[k] != [] && Single(gs[k]))
    && (forall k :: 0 < k < |gs| ==> Opened(gs[k]))
    && (forall k :: 0 <= k < |gs| - 1 ==> EndsInSlice(gs[k]))
  }

  // ----- the units are such a cut

  lemma {:induction false} SliceIs(n: bytes)
    ensures IsVcl(n) <==> Slice(n)
    ensures IsFirstSlice(n) <==> Opening(n)
  {
  }

  lemma {:induction false} ShapeIs(g: seq<bytes>)
    ensures OnePicture(g) <==> Single(g)
    ensures OpensPicture(g) <==> Opened(g)
  {
    forall n ensures (IsVcl(n) <==> Slice(n)) && (IsFirstSlice(n) <==> Opening(n)) {
      SliceIs(n);
    }
    hide IsVcl, IsFirstSlice, Slice, Opening;
  }

  lemma {:induction false} GroupEnds(nals: seq<bytes>, cur: seq<bytes>, pend: seq<bytes>, hasVcl: bool)
    requires hasVcl ==> EndsInSlice(cur)
    ensures var gs := Group(nals, cur, pend, hasVcl);
            |gs| > 0 && forall k :: 0 <= k < |gs| - 1 ==> EndsInSlice(gs[k])
    decreases |nals|
  {
    hide IsVcl, IsFirstSlice, Slice, Opening;
    if nals != [] {
      var n, rest := nals[0], nals[1..];
      SliceIs(n);
      if IsVcl(n) {
        if IsFirstSlice(n) && hasVcl {
          GroupEnds(rest, pend + [n], [], true);
        } else {
          GroupEnds(rest, cur + pend + [n], [], true);
        }
      } else if hasVcl {
        GroupEnds(rest, cur, pend + [n], true);
      } else {
        GroupEnds(rest, cur + [n], pend, false);
      }
    }
  }

  lemma {:induction false} PicturesCut(nals: seq<bytes>)
    ensures Cut(nals, Pictures(nals))
  {
    hide Group, Single, Opened, OnePicture, OpensPicture, EndsInSlice, Flatten, Slice;
    var gs := Pictures(nals);
    if nals == [] {
      FlattenNone();
    } else {
      NoneEnds();
      GroupEnds(nals, [], [], false);
      GroupFlatten(nals, [], [], false);
      assert [] + [] + nals == nals;
    }
    forall k | 0 <= k < |gs| ensures gs[k] != [] && Single(gs[k]) && (k > 0 ==> Opened(gs[k])) {
      PicturesShape(nals, k);
      ShapeIs(gs[k]);
    }
  }

  lemma {:induction false} FlattenNone()
    ensures Flatten([]) == []
  {
  }

  lemma {:induction false} NoneEnds()
    ensures !EndsInSlice([])
  {
  }

  // ----- and there is no other

  /** What a cut's first group says of the list: its length, and what stands where. */
  lemma {:induction false} FirstGroup(nals: seq<bytes>, gs: seq<seq<bytes>>)
    requires Cut(nals, gs) && gs != []
    ensures var n := |gs[0]|;
            && 0 < n <= |nals| && gs[0] == nals[..n] && (|gs| == 1 ==> n == |nals|)
            && (forall i, j :: 0 <= i < j < n && Slice(nals[i]) ==> !Opening(nals[j]))
            && (|gs| > 1 ==> Slice(nals[n - 1]))
  {
    hide Slice, Opening;
    FlattenFirst(gs);
  }

  /** And its second: the next slice is an opening one. */
  lemma {:induction false} SecondGroup(nals: seq<bytes>, gs: seq<seq<bytes>>) returns (at: nat)
    requires Cut(nals, gs) && |gs| > 1
    ensures |gs[0]| <= at < |nals| && Opening(nals[at]) && forall i :: |gs[0]| <= i < at ==> !Slice(nals[i])
  {
    hide Slice, Opening;
    FlattenFirst(gs);
    FlattenFirst(gs[1..]);
    var j := FirstSlice(gs[1]);
    var m := |gs[0]|;
    forall i | 0 <= i < |gs[1]| ensures nals[m..][i] == gs[1][i] {
    }
    at := m + j;
    assert nals[m..][j] == nals[at];
    forall i | m <= i < at ensures !Slice(nals[i]) {
      assert nals[m..][i - m] == nals[i];
    }
  }

  /** A first group cannot be longer than another cut's. */
  lemma {:induction false} NotLonger(a: seq<seq<bytes>>, b: seq<seq<bytes>>, nals: seq<bytes>)
    requires Cut(nals, a) && Cut(nals, b) && a != [] && b != []
    ensures |b[0]| <= |a[0]|
  {
    hide Slice, Opening, Cut;
    FirstGroup(nals, a);
    FirstGroup(nals, b);
    if |a| > 1 {
      var at := SecondGroup(nals, a);
    }
  }

  lemma {:induction false} FirstSlice(g: seq<bytes>) returns (j: nat)
    requires Opened(g)
    ensures j < |g| && Opening(g[j]) && forall i :: 0 <= i < j ==> !Slice(g[i])
  {
    j :| 0 <= j < |g| && Opening(g[j]) && forall i :: 0 <= i < j ==> !Slice(g[i]);
  }

  lemma {:induction false} FlattenFirst(gs: seq<seq<bytes>>)
    requires gs != []
    ensures |Flatten(gs)| >= |gs[0]| && Flatten(gs)[..|gs[0]|] == gs[0]
    ensures Flatten(gs)[|gs[0]|..] == Flatten(gs[1..])
    ensures |gs| == 1 ==> Flatten(gs) == gs[0]
  {
    if |gs| == 1 {
      assert gs[1..] == [];
    }
  }

  lemma {:induction false} CutRest(nals: seq<bytes>, gs: seq<seq<bytes>>)
    requires Cut(nals, gs) && gs != []
    ensures |nals| >= |gs[0]| > 0 && gs[0] == nals[..|gs[0]|] && Cut(nals[|gs[0]|..], gs[1..])
  {
    hide Single, Opened, EndsInSlice;
    FlattenFirst(gs);
  }

  lemma {:induction false} CutNone(gs: seq<seq<bytes>>)
    requires Cut([], gs)
    ensures gs == []
  {
    if gs != [] {
      FlattenFirst(gs);
    }
  }

  lemma {:induction false} CutUnique(nals: seq<bytes>, a: seq<seq<bytes>>, b: seq<seq<bytes>>)
    requires Cut(nals, a) && Cut(nals, b)
    ensures a == b
    decreases |nals|
  {
    hide Cut;
    if nals == [] {
      CutNone(a);
      CutNone(b);
    } else {
      CutSome(nals, a);
      CutSome(nals, b);
      NotLonger(a, b, nals);
      NotLonger(b, a, nals);
      CutRest(nals, a);
      CutRest(nals, b);
      CutUnique(nals[|a[0]|..], a[1..], b[1..]);
      assert a == [a[0]] + a[1..] && b == [b[0]] + b[1..];
    }
  }

  lemma {:induction false} CutSome(nals: seq<bytes>, gs: seq<seq<bytes>>)
    requires Cut(nals, gs) && nals != []
    ensures gs != []
  {
    FlattenNone();
  }

  /** The NAL units of a stream's access units, unit by unit, are the one way to cut the stream's NAL units into
      pictures. */
  lemma {:induction false} UnitsExactly(s: bytes, gs: seq<seq<bytes>>)
    ensures MapNals(Units(s)) == gs <==> Cut(NalUnits(s), gs)
  {
    hide Cut, NalUnits, Units, MapNals, Pictures;
    UnitsArePictures(s);
    PicturesCut(NalUnits(s));
    if Cut(NalUnits(s), gs) {
      CutUnique(NalUnits(s), gs, Pictures(NalUnits(s)));
    }
  }
}
