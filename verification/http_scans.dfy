/** The fast scans of the HTTP front end, against the plain definitions they replaced. */
module HttpScans {
  import opened Bytes
  import opened Text

  const AMPERSAND: byte := 38
  const EQUALS: byte := 61
  const QUESTION: byte := 63

  // ----- eight bytes at a time

  /** Bitwise exclusive or. */
  function Xor(a: nat, b: nat): nat
    decreases a + b
  {
    if a == 0 && b == 0 then 0 else (if a % 2 == b % 2 then 0 else 1) + 2 * Xor(a / 2, b / 2)
  }

  lemma {:induction false} XorZero(a: nat, b: nat)
    ensures Xor(a, b) == 0 <==> a == b
    decreases a + b
  {
    if a != 0 || b != 0 {
      XorZero(a / 2, b / 2);
    }
  }

  /** The least of the eight bytes' differences from a line feed. */
  function Nearest(w: bytes): nat
    requires |w| == 8
  {
    Min(Min(Min(Xor(w[0], LF), Xor(w[1], LF)), Min(Xor(w[2], LF), Xor(w[3], LF))),
        Min(Min(Xor(w[4], LF), Xor(w[5], LF)), Min(Xor(w[6], LF), Xor(w[7], LF))))
  }

  /** It is zero exactly when one of the eight is a line feed. */
  lemma {:induction false} NearestZero(w: bytes)
    requires |w| == 8
    ensures Nearest(w) == 0 <==> LF in w
  {
    forall i | 0 <= i < 8 ensures Xor(w[i], LF) == 0 <==> w[i] == LF {
      XorZero(w[i], LF);
    }
    hide Xor;
    if LF in w {
      var i :| 0 <= i < 8 && w[i] == LF;
      assert Xor(w[i], LF) == 0;
    }
  }

  /** The first line feed at or after `k`. */
  function FirstLf(s: bytes, k: nat): (r: Option<nat>)
    ensures r.Some? ==> k <= r.value < |s| && s[r.value] == LF && forall i :: k <= i < r.value ==> s[i] != LF
    ensures r.None? ==> forall i :: k <= i < |s| ==> s[i] != LF
    decreases |s| - k
  {
    if k >= |s| then None else if s[k] == LF then Some(k) else FirstLf(s, k + 1)
  }

  lemma {:induction false} SkipBlock(s: bytes, k: nat)
    requires k + 8 <= |s| && LF !in s[k..k + 8]
    ensures FirstLf(s, k) == FirstLf(s, k + 8)
  {
    forall i | k <= i < k + 8 ensures s[i] != LF {
      assert s[i] == s[k..k + 8][i - k];
    }
    var a, b := FirstLf(s, k), FirstLf(s, k + 8);
    if a.Some? && b.Some? {
      assert a.value >= k + 8;
      assert !(a.value < b.value) && !(b.value < a.value);
    }
  }

  /** Blocks of eight without a line feed are stepped over; the rest goes byte by byte. */
  method NextNewline(s: bytes, start: nat) returns (r: Option<nat>)
    requires start <= |s|
    ensures r == FirstLf(s, start)
  {
    var k := start;
    while k + 8 <= |s|
      invariant start <= k <= |s| && FirstLf(s, start) == FirstLf(s, k)
      decreases |s| - k
    {
      var w := s[k..k + 8];
      NearestZero(w);
      if Nearest(w) == 0 {
        break;
      }
      SkipBlock(s, k);
      k := k + 8;
    }
    while k < |s|
      invariant start <= k <= |s| && FirstLf(s, start) == FirstLf(s, k)
      decreases |s| - k
    {
      if s[k] == LF {
        return Some(k);
      }
      k := k + 1;
    }
    return None;
  }

  // ----- the blank line

  /** The window search: just past the first `CR LF CR LF` at or after `from`. */
  function BlankLine(s: bytes, from: nat): Option<nat> {
    match FindFrom(s, BLANK, from)
    case None => None
    case Some(k) => Some(k + 4)
  }

  lemma {:induction false} BlankAt(s: bytes, k: nat)
    ensures MatchAt(s, BLANK, k) <==>
            k + 4 <= |s| && s[k] == CR && s[k + 1] == LF && s[k + 2] == CR && s[k + 3] == LF
  {
    if k + 4 <= |s| {
      var w := s[k..k + 4];
      assert w[0] == s[k] && w[1] == s[k + 1] && w[2] == s[k + 2] && w[3] == s[k + 3];
      assert s[k] == CR && s[k + 1] == LF && s[k + 2] == CR && s[k + 3] == LF ==> w == BLANK;
    }
  }

  /** The first match is the one the search reports. */
  lemma {:induction false} FirstMatch(s: bytes, from: nat, k: nat)
    requires from <= k && MatchAt(s, BLANK, k) && forall i :: from <= i < k ==> !MatchAt(s, BLANK, i)
    ensures BlankLine(s, from) == Some(k + 4)
  {
    hide MatchAt;
    var r := FindFrom(s, BLANK, from);
  }

  /** Newline by newline, looking back three bytes, is the window search. */
  method BlankLineScan(s: bytes, from: nat) returns (r: Option<nat>)
    ensures r == BlankLine(s, from)
  {
    hide MatchAt, FindFrom, FirstLf;
    var k := from + 3;
    while k < |s|
      invariant from + 3 <= k
      invariant forall i :: from <= i < k - 3 ==> !MatchAt(s, BLANK, i)
      decreases |s| - k
    {
      var at := NextNewline(s, k);
      if at == None {
        NoLfNoBlank(s, k);
        return None;
      }
      forall i | k - 3 <= i < at.value - 3 ensures !MatchAt(s, BLANK, i) {
        BlankAt(s, i);
      }
      BlankAt(s, at.value - 3);
      if s[at.value - 1] == CR && s[at.value - 2] == LF && s[at.value - 3] == CR {
        FirstMatch(s, from, at.value - 3);
        return Some(at.value + 1);
      }
      k := at.value + 1;
    }
    forall i | k - 3 <= i ensures !MatchAt(s, BLANK, i) {
      BlankAt(s, i);
    }
    return None;
  }

  lemma {:induction false} NoLfNoBlank(s: bytes, k: nat)
    requires k >= 3 && forall i :: k <= i < |s| ==> s[i] != LF
    ensures forall i :: k - 3 <= i ==> !MatchAt(s, BLANK, i)
  {
    forall i | k - 3 <= i ensures !MatchAt(s, BLANK, i) {
      BlankAt(s, i);
    }
  }

  // ----- a head that grows by reads

  predicate HeadComplete(head: bytes) {
    BlankLine(head, 0).Some?
  }

  /** Only the new bytes and the three before them are searched. */
  predicate HeadCompleteFrom(head: bytes, seen: nat) {
    BlankLine(head, Max(seen - 3, 0)).Some?
  }

  /** Given an incomplete front, the short search answers as the whole one. */
  lemma {:induction false} ShortSearchAgrees(head: bytes, seen: nat)
    requires seen <= |head| && !HeadComplete(head[..seen])
    ensures HeadCompleteFrom(head, seen) == HeadComplete(head)
  {
    hide MatchAt, FindFrom;
    var from := Max(seen - 3, 0);
    if HeadComplete(head) {
      var k := FindFrom(head, BLANK, 0).value;
      if k + 4 <= seen {
        CutMatches(head, seen, BLANK, k);
      }
      assert k >= from && MatchAt(head, BLANK, k);
    }
    if HeadCompleteFrom(head, seen) {
      assert MatchAt(head, BLANK, FindFrom(head, BLANK, from).value);
    }
  }

  predicate Growing(cuts: seq<nat>, total: nat) {
    && (forall k :: 0 <= k < |cuts| ==> cuts[k] <= total)
    && (forall j, k :: 0 <= j < k < |cuts| ==> cuts[j] <= cuts[k])
  }

  /** The first read after which the head is complete, each checked from where the last one stopped. */
  function FirstReadFrom(head: bytes, cuts: seq<nat>, seen: nat): Option<nat>
    requires Growing(cuts, |head|)
    decreases |cuts|
  {
    if cuts == [] then None
    else if HeadCompleteFrom(head[..cuts[0]], seen) then Some(cuts[0])
    else FirstReadFrom(head, cuts[1..], cuts[0])
  }

  /** The same, each read checked from the start. */
  function FirstRead(head: bytes, cuts: seq<nat>): Option<nat>
    requires Growing(cuts, |head|)
    decreases |cuts|
  {
    if cuts == [] then None
    else if HeadComplete(head[..cuts[0]]) then Some(cuts[0])
    else FirstRead(head, cuts[1..])
  }

  /** Over any sequence of reads the incremental check stops at the same read as the whole search. */
  lemma {:induction false} ReadsAgree(head: bytes, cuts: seq<nat>, seen: nat)
    requires Growing(cuts, |head|) && seen <= |head| && (cuts != [] ==> seen <= cuts[0])
    requires !HeadComplete(head[..seen])
    ensures FirstReadFrom(head, cuts, seen) == FirstRead(head, cuts)
    decreases |cuts|
  {
    hide HeadComplete, HeadCompleteFrom;
    if cuts != [] {
      assert head[..cuts[0]][..seen] == head[..seen];
      ShortSearchAgrees(head[..cuts[0]], seen);
      if !HeadComplete(head[..cuts[0]]) {
        ReadsAgree(head, cuts[1..], cuts[0]);
      }
    }
  }

  /** From the first byte. */
  lemma {:induction false} ReadsFromNothing(head: bytes, cuts: seq<nat>)
    requires Growing(cuts, |head|)
    ensures FirstReadFrom(head, cuts, 0) == FirstRead(head, cuts)
  {
    assert !HeadComplete(head[..0]);
    ReadsAgree(head, cuts, 0);
  }

  // ----- query parameters

  /** The parts before and after the first `sep`. */
  function SplitOnce(s: bytes, sep: byte): (r: Option<(bytes, bytes)>)
    ensures r.Some? ==> s == r.value.0 + [sep] + r.value.1 && sep !in r.value.0
    ensures r.None? <==> sep !in s
  {
    if s == [] then None
    else if s[0] == sep then Some(([], s[1..]))
    else
      match SplitOnce(s[1..], sep)
      case None => None
      case Some((a, b)) => Some(([s[0]] + a, b))
  }

  /** The value of the first pair of that name. */
  function FindPair(pairs: seq<bytes>, name: bytes): Option<bytes> {
    if pairs == [] then None
    else
      match SplitOnce(pairs[0], EQUALS)
      case Some((k, v)) => if k == name then Some(v) else FindPair(pairs[1..], name)
      case None => FindPair(pairs[1..], name)
  }

  /** Split the query at each `&`, each piece at its first `=`. */
  function QuerySplit(target: bytes, name: bytes): Option<bytes> {
    match SplitOnce(target, QUESTION)
    case None => None
    case Some((_, query)) => FindPair(Split(query, AMPERSAND), name)
  }

  /** The position of the first `c` in `s[at..end]`. */
  method Position(s: bytes, at: nat, end: nat, c: byte) returns (i: nat)
    requires at <= end <= |s|
    ensures at <= i <= end && c !in s[at..i] && (i < end ==> s[i] == c)
  {
    i := at;
    while i < end && s[i] != c
      invariant at <= i <= end && c !in s[at..i]
    {
      assert s[at..i + 1] == s[at..i] + [s[i]];
      i := i + 1;
    }
  }

  lemma {:induction false} SplitOnceAt(s: bytes, sep: byte, i: nat)
    requires i < |s| && s[i] == sep && sep !in s[..i]
    ensures SplitOnce(s, sep) == Some((s[..i], s[i + 1..]))
  {
    if i > 0 {
      assert s[0] == s[..i][0] && s[1..][..i - 1] == s[..i][1..];
      SplitOnceAt(s[1..], sep, i - 1);
      assert [s[0]] + s[1..][..i - 1] == s[..i];
      assert s[1..][i..] == s[i + 1..];
    }
  }

  /** A piece of the query at its first `=`. */
  lemma {:induction false} PairAt(target: bytes, at: nat, eq: nat, end: nat)
    requires at <= eq <= end <= |target| && EQUALS !in target[at..eq] && (eq < end ==> target[eq] == EQUALS)
    ensures SplitOnce(target[at..end], EQUALS) ==
            if eq < end then Some((target[at..eq], target[eq + 1..end])) else None
  {
    var pair := target[at..end];
    if eq < end {
      assert pair[..eq - at] == target[at..eq];
      assert pair[eq - at + 1..] == target[eq + 1..end];
      SplitOnceAt(pair, EQUALS, eq - at);
    }
  }

  /** The separators walked byte by byte. */
  method QueryParam(target: bytes, name: bytes) returns (r: Option<bytes>)
    ensures r == QuerySplit(target, name)
  {
    hide Split, SplitOnce, FindPair;
    var q := Position(target, 0, |target|, QUESTION);
    assert target[0..q] == target[..q];
    if q == |target| {
      assert target[..q] == target;
      return None;
    }
    SplitOnceAt(target, QUESTION, q);
    var at := q + 1;
    ghost var query := target[at..];
    while true
      invariant at <= |target|
      invariant FindPair(Split(query, AMPERSAND), name) == FindPair(Split(target[at..], AMPERSAND), name)
      decreases |target| - at
    {
      var end := Position(target, at, |target|, AMPERSAND);
      var eq := Position(target, at, end, EQUALS);
      PieceOfQuery(target, at, end, name);
      PairAt(target, at, eq, end);
      if eq < end {
        if target[at..eq] == name {
          return Some(target[eq + 1..end]);
        }
      }
      if end == |target| {
        return None;
      }
      at := end + 1;
    }
  }

  /** The first piece of what is left of the query, and the rest. */
  lemma {:induction false} PieceOfQuery(target: bytes, at: nat, end: nat, name: bytes)
    requires at <= end <= |target| && AMPERSAND !in target[at..end]
    requires end < |target| ==> target[end] == AMPERSAND
    ensures var found := FindPair(Split(target[at..], AMPERSAND), name);
            var kv := SplitOnce(target[at..end], EQUALS);
            && (kv.Some? && kv.value.0 == name ==> found == Some(kv.value.1))
            && (!(kv.Some? && kv.value.0 == name) ==>
                  found == if end == |target| then None
                           else FindPair(Split(target[end + 1..], AMPERSAND), name))
  {
    hide Split, SplitOnce;
    var piece := target[at..end];
    if end == |target| {
      assert target[at..] == piece;
      SplitWhole(piece, AMPERSAND);
      var one: seq<bytes> := [piece];
      assert one[1..] == [];
      assert FindPair(one[1..], name) == None;
    } else {
      assert target[at..] == piece + [AMPERSAND] + target[end + 1..];
      SplitCons(piece, AMPERSAND, target[end + 1..]);
      var rest := Split(target[end + 1..], AMPERSAND);
      assert ([piece] + rest)[1..] == rest;
    }
  }

  // ----- a printed query

  /** A name and its value. */
  datatype Pair = Pair(name: bytes, value: bytes)

  /** No `&` in either, and no `=` in the name. */
  predicate Writable(p: Pair) {
    38 !in p.name && 61 !in p.name && 38 !in p.value
  }

  /** `name=value` and the others behind `&`. */
  function Printed(pairs: seq<Pair>): bytes
    requires pairs != []
  {
    var first := pairs[0].name + [61] + pairs[0].value;
    if |pairs| == 1 then first else first + [38] + Printed(pairs[1..])
  }

  /** The value of the first pair of that name. */
  function Lookup(pairs: seq<Pair>, name: bytes): Option<bytes> {
    if pairs == [] then None
    else if pairs[0].name == name then Some(pairs[0].value)
    else Lookup(pairs[1..], name)
  }

  lemma {:induction false} SplitFirst(a: bytes, sep: byte, b: bytes)
    requires sep !in a
    ensures SplitOnce(a + [sep] + b, sep) == Some((a, b))
  {
    var s := a + [sep] + b;
    if a == [] {
      assert s[1..] == b;
    } else {
      assert s[1..] == a[1..] + [sep] + b;
      SplitFirst(a[1..], sep, b);
      assert [a[0]] + a[1..] == a;
    }
  }

  lemma {:induction false} LastPair(pair: bytes, name: bytes)
    ensures FindPair([pair], name) ==
            match SplitOnce(pair, EQUALS)
            case Some((k, v)) => if k == name then Some(v) else None
            case None => None
  {
    hide SplitOnce;
  }

  lemma {:induction false} PrintedPairs(pairs: seq<Pair>, name: bytes)
    requires pairs != [] && forall k :: 0 <= k < |pairs| ==> Writable(pairs[k])
    ensures FindPair(Split(Printed(pairs), AMPERSAND), name) == Lookup(pairs, name)
    decreases |pairs|
  {
    hide Split, SplitOnce;
    var p := pairs[0];
    assert Writable(p);
    var first := p.name + [61] + p.value;
    SplitFirst(p.name, 61, p.value);
    if |pairs| == 1 {
      SplitWhole(first, AMPERSAND);
      LastPair(first, name);
    } else {
      SplitCons(first, AMPERSAND, Printed(pairs[1..]));
      PrintedPairs(pairs[1..], name);
      assert ([first] + Split(Printed(pairs[1..]), AMPERSAND))[1..] == Split(Printed(pairs[1..]), AMPERSAND);
    }
  }

  /** Out of a target printed as path, `?` and pairs comes the value of the first pair of a name, whatever the values
      hold but `&`. */
  lemma {:induction false} QueryFound(path: bytes, pairs: seq<Pair>, name: bytes)
    requires 63 !in path && pairs != [] && forall k :: 0 <= k < |pairs| ==> Writable(pairs[k])
    ensures QuerySplit(path + [63] + Printed(pairs), name) == Lookup(pairs, name)
  {
    hide Split, FindPair;
    SplitFirst(path, 63, Printed(pairs));
    PrintedPairs(pairs, name);
  }
}
