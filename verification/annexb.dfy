/** Start codes and NAL units of an H.264 byte stream (Annex B of ITU-T H.264). */
module AnnexB {
  import opened Bytes

  /** `00 00 01` stands at `i`. */
  predicate CodeAt(s: bytes, i: nat) {
    i + 3 <= |s| && s[i] == 0 && s[i + 1] == 0 && s[i + 2] == 1
  }

  /** The first `00 00 01` at or after `from`. */
  function Scan3(s: bytes, from: nat): (r: Option<nat>)
    ensures r.Some? ==> from <= r.value && CodeAt(s, r.value) && forall k :: from <= k < r.value ==> !CodeAt(s, k)
    ensures r.None? ==> forall k :: from <= k ==> !CodeAt(s, k)
    decreases |s| - from
  {
    if from + 3 > |s| then None
    else if CodeAt(s, from) then Some(from)
    else Scan3(s, from + 1)
  }

  /** The first of the zero bytes that end at `i`, not before `lo`. */
  function ZerosBefore(s: bytes, i: nat, lo: nat): (b: nat)
    requires lo <= i <= |s|
    ensures lo <= b <= i
    ensures forall k :: b <= k < i ==> s[k] == 0
    ensures b > lo ==> s[b - 1] != 0
  {
    if i > lo && s[i - 1] == 0 then ZerosBefore(s, i - 1, lo) else i
  }

  /** Where a start code begins, leading zeros included, and where the NAL unit behind it starts. */
  datatype Code = Code(begin: nat, after: nat)

  /** The next start code at or after `pos`. */
  function FindCode(s: bytes, pos: nat): (r: Option<Code>)
    requires pos <= |s|
    ensures r.Some? ==> pos <= r.value.begin && r.value.begin + 3 <= r.value.after <= |s|
  {
    match Scan3(s, pos)
    case None => None
    case Some(i) => Some(Code(ZerosBefore(s, i, pos), i + 3))
  }

  /** What a start code found means, without reference to the search. */
  ghost predicate IsCode(s: bytes, pos: nat, c: Code) {
    && pos <= c.begin && c.begin + 3 <= c.after <= |s|
    && CodeAt(s, c.after - 3)
    && (forall k :: c.begin <= k < c.after - 1 ==> s[k] == 0)
    && (c.begin > pos ==> s[c.begin - 1] != 0)
    && (forall k :: pos <= k < c.after - 3 ==> !CodeAt(s, k))
  }

  lemma {:induction false} FindCodeIs(s: bytes, pos: nat)
    requires pos <= |s|
    ensures FindCode(s, pos).Some? ==> IsCode(s, pos, FindCode(s, pos).value)
    ensures FindCode(s, pos).None? ==> forall k :: pos <= k ==> !CodeAt(s, k)
  {
  }

  lemma {:induction false} CodeIsFound(s: bytes, pos: nat, c: Code)
    requires IsCode(s, pos, c)
    ensures FindCode(s, pos) == Some(c)
  {
    var i := Scan3(s, pos).value;
    assert i == c.after - 3;
  }

  /** `v` opens with a start code. */
  predicate OpensWithCode(v: bytes) {
    FindCode(v, 0).Some? && FindCode(v, 0).value.begin == 0
  }

  predicate EndsClean(u: bytes) {
    u == [] || u[|u| - 1] != 0
  }

  // ----- NAL units by content

  /** The NAL units of what follows a start code. */
  function Nals(t: bytes): seq<bytes>
    decreases |t|
  {
    match FindCode(t, 0)
    case None => if t == [] then [] else [t]
    case Some(c) => (if c.begin > 0 then [t[..c.begin]] else []) + Nals(t[c.after..])
  }

  /** The NAL units of a stream, start codes stripped. */
  function NalUnits(s: bytes): seq<bytes> {
    match FindCode(s, 0)
    case None => []
    case Some(c) => Nals(s[c.after..])
  }

  /** Searching a concatenation: the first code of `u`, else the one `v` opens with. */
  lemma {:induction false} FindInConcat(u: bytes, v: bytes)
    requires EndsClean(u) && OpensWithCode(v)
    ensures FindCode(u + v, 0) ==
            if FindCode(u, 0).Some? then FindCode(u, 0) else Some(Code(|u|, |u| + FindCode(v, 0).value.after))
  {
    var s := u + v;
    FindCodeIs(u, 0);
    FindCodeIs(v, 0);
    hide FindCode;
    if FindCode(u, 0).Some? {
      var c := FindCode(u, 0).value;
      assert forall k :: 0 <= k < c.after - 3 ==> (CodeAt(s, k) <==> CodeAt(u, k));
      CodeIsFound(s, 0, c);
    } else {
      var c := Code(|u|, |u| + FindCode(v, 0).value.after);
      forall k | 0 <= k < c.after - 3 ensures !CodeAt(s, k) {
        if k + 3 <= |u| {
          assert !CodeAt(u, k);
        } else if k >= |u| {
          assert !CodeAt(v, k - |u|);
        }
      }
      assert forall k :: c.begin <= k < c.after - 1 ==> s[k] == v[k - |u|];
      CodeIsFound(s, 0, c);
    }
  }

  /** Splicing after a start code. */
  lemma {:induction false} SpliceNals(u: bytes, v: bytes)
    requires EndsClean(u) && OpensWithCode(v)
    ensures Nals(u + v) == Nals(u) + NalUnits(v)
    decreases |u|
  {
    hide FindCode, Nals, NalUnits, EndsClean, OpensWithCode;
    if FindCode(u, 0).Some? {
      CodeInside(u);
      EndsBehind(u, FindCode(u, 0).value.after);
      SpliceNals(u[FindCode(u, 0).value.after..], v);
      SpliceBehindCode(u, v);
    } else {
      SpliceBehindNone(u, v);
    }
  }

  lemma {:induction false} CodeInside(u: bytes)
    requires FindCode(u, 0).Some?
    ensures var c := FindCode(u, 0).value;
            c.begin < c.after <= |u|
  {
    hide FindCode;
    FindCodeIs(u, 0);
  }

  lemma {:induction false} SpliceBehindCode(u: bytes, v: bytes)
    requires EndsClean(u) && OpensWithCode(v) && FindCode(u, 0).Some?
    requires FindCode(u, 0).value.after <= |u|
    requires var more := u[FindCode(u, 0).value.after..];
             Nals(more + v) == Nals(more) + NalUnits(v)
    ensures Nals(u + v) == Nals(u) + NalUnits(v)
  {
    hide FindCode, Nals, NalUnits, EndsClean, OpensWithCode;
    var c := FindCode(u, 0).value;
    CodeInside(u);
    FindInConcat(u, v);
    NalsStep(u);
    NalsStep(u + v);
    SliceConcat(u, v, c.begin, c.after);
    var first: seq<bytes> := if c.begin > 0 then [u[..c.begin]] else [];
    assert first + (Nals(u[c.after..]) + NalUnits(v)) == (first + Nals(u[c.after..])) + NalUnits(v);
  }

  lemma {:induction false} SpliceBehindNone(u: bytes, v: bytes)
    requires EndsClean(u) && OpensWithCode(v) && FindCode(u, 0).None?
    ensures Nals(u + v) == Nals(u) + NalUnits(v)
  {
    hide FindCode, Nals, EndsClean, OpensWithCode;
    OpensIs(v);
    CodeInside(v);
    FindInConcat(u, v);
    NalsStep(u);
    NalsStep(u + v);
    SliceBehind(u, v, FindCode(v, 0).value.after);
  }

  lemma {:induction false} EndsBehind(u: bytes, k: nat)
    requires EndsClean(u) && k <= |u|
    ensures EndsClean(u[k..])
  {
  }

  lemma {:induction false} OpensIs(v: bytes)
    requires OpensWithCode(v)
    ensures FindCode(v, 0).Some? && FindCode(v, 0).value.begin == 0
  {
    hide FindCode;
  }

  lemma {:induction false} SliceConcat(u: bytes, v: bytes, a: nat, b: nat)
    requires a <= |u| && b <= |u|
    ensures (u + v)[..a] == u[..a] && (u + v)[b..] == u[b..] + v
  {
  }

  lemma {:induction false} SliceBehind(u: bytes, v: bytes, a: nat)
    requires a <= |v|
    ensures (u + v)[..|u|] == u && (u + v)[|u| + a..] == v[a..]
  {
  }

  lemma {:induction false} NalsStep(t: bytes)
    ensures Nals(t) == match FindCode(t, 0)
                       case None => if t == [] then [] else [t]
                       case Some(c) => (if c.begin > 0 then [t[..c.begin]] else []) + Nals(t[c.after..])
  {
  }

  /** A stream cut in front of a start code, behind a nonzero byte, has the NAL units of its two parts. */
  lemma {:induction false} Splice(u: bytes, v: bytes)
    requires EndsClean(u) && OpensWithCode(v)
    ensures NalUnits(u + v) == NalUnits(u) + NalUnits(v)
  {
    hide FindCode, Nals, EndsClean, OpensWithCode;
    FindInConcat(u, v);
    OpensIs(v);
    CodeInside(v);
    var r := FindCode(u, 0);
    if r.Some? {
      CodeInside(u);
      SliceConcat(u, v, r.value.begin, r.value.after);
      EndsBehind(u, r.value.after);
      SpliceNals(u[r.value.after..], v);
    } else {
      SliceBehind(u, v, FindCode(v, 0).value.after);
    }
  }

  // ----- framing and scanning back

  /** A NAL unit that needs no escape and carries no trailing zero. */
  ghost predicate Plain(nal: bytes) {
    nal != [] && nal[|nal| - 1] != 0 && forall k :: 0 <= k ==> !CodeAt(nal, k)
  }

  /** `nals[k]` behind a start code with `2 + extra[k]` zeros. */
  function Framed(nals: seq<bytes>, extra: seq<nat>): bytes
    requires |nals| == |extra|
  {
    if nals == [] then [] else Zeros(extra[0] + 2) + [1] + nals[0] + Framed(nals[1..], extra[1..])
  }

  lemma {:induction false} CodeRun(z: nat, w: bytes)
    ensures FindCode(Zeros(z + 2) + [1] + w, 0) == Some(Code(0, z + 3))
  {
    var v := Zeros(z + 2) + [1] + w;
    forall k | 0 <= k < z ensures !CodeAt(v, k) {
      assert v[k + 2] == 0;
    }
    CodeIsFound(v, 0, Code(0, z + 3));
  }

  lemma {:induction false} OneFramed(nal: bytes, z: nat)
    requires Plain(nal)
    ensures NalUnits(Zeros(z + 2) + [1] + nal) == [nal]
  {
    hide FindCode;
    CodeRun(z, nal);
    assert (Zeros(z + 2) + [1] + nal)[z + 3..] == nal;
    FindCodeIs(nal, 0);
  }

  /** Scanning returns the NAL units that were framed, however many zeros lead each start code. */
  lemma {:induction false} ScanFramed(nals: seq<bytes>, extra: seq<nat>)
    requires |nals| == |extra| && forall k :: 0 <= k < |nals| ==> Plain(nals[k])
    ensures NalUnits(Framed(nals, extra)) == nals
    decreases |nals|
  {
    hide Plain, Zeros, Framed, NalUnits, EndsClean, OpensWithCode;
    NoneFramed();
    if nals != [] {
      var u, v := Zeros(extra[0] + 2) + [1] + nals[0], Framed(nals[1..], extra[1..]);
      FramedCons(nals, extra);
      OneFramed(nals[0], extra[0]);
      ScanFramed(nals[1..], extra[1..]);
      if |nals| == 1 {
        assert u + v == u;
      } else {
        FramedOpens(nals[1..], extra[1..]);
        FramedEnds(nals[0], extra[0]);
        Splice(u, v);
      }
    }
  }

  lemma {:induction false} NoneFramed()
    ensures Framed([], []) == [] && NalUnits([]) == []
  {
    hide FindCode;
    FindCodeIs([], 0);
  }

  lemma {:induction false} FramedCons(nals: seq<bytes>, extra: seq<nat>)
    requires |nals| == |extra| > 0
    ensures Framed(nals, extra) == Zeros(extra[0] + 2) + [1] + nals[0] + Framed(nals[1..], extra[1..])
  {
    hide Zeros;
  }

  lemma {:induction false} FramedOpens(nals: seq<bytes>, extra: seq<nat>)
    requires |nals| == |extra| > 0
    ensures OpensWithCode(Framed(nals, extra))
  {
    hide Zeros, Framed, FindCode;
    FramedCons(nals, extra);
    var w := nals[0] + Framed(nals[1..], extra[1..]);
    CodeRun(extra[0], w);
    assert Framed(nals, extra) == Zeros(extra[0] + 2) + [1] + w;
  }

  lemma {:induction false} FramedEnds(nal: bytes, z: nat)
    requires Plain(nal)
    ensures EndsClean(Zeros(z + 2) + [1] + nal)
  {
    hide Zeros;
  }
}
