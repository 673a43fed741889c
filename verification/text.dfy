/** Searching and decimal numbers in byte strings. */
module Text {
  import opened Bytes

  const CR: byte := 13
  const LF: byte := 10
  const SPACE: byte := 32
  const QUOTE: byte := 34
  const DASH: byte := 45
  const SEMICOLON: byte := 59
  const CRLF: bytes := [CR, LF]
  const BLANK: bytes := [CR, LF, CR, LF]

  predicate MatchAt(hay: bytes, needle: bytes, k: nat) {
    k + |needle| <= |hay| && hay[k..k + |needle|] == needle
  }

  /** The first place at or after `from` where `needle` stands. */
  function FindFrom(hay: bytes, needle: bytes, from: nat): (r: Option<nat>)
    ensures r.Some? ==> from <= r.value && MatchAt(hay, needle, r.value)
    ensures r.Some? ==> forall k :: from <= k < r.value ==> !MatchAt(hay, needle, k)
    ensures r.None? ==> forall k :: from <= k ==> !MatchAt(hay, needle, k)
    decreases |hay| - from
  {
    if from + |needle| > |hay| then None
    else if MatchAt(hay, needle, from) then Some(from)
    else FindFrom(hay, needle, from + 1)
  }

  /** The first match; an empty needle is never found. */
  function Find(hay: bytes, needle: bytes): (r: Option<nat>)
    ensures r.Some? ==>
              needle != [] && MatchAt(hay, needle, r.value) && forall k :: 0 <= k < r.value ==> !MatchAt(hay, needle, k)
    ensures r.None? && needle != [] ==> forall k :: 0 <= k ==> !MatchAt(hay, needle, k)
  {
    if needle == [] then None else FindFrom(hay, needle, 0)
  }

  /** The window search, as a loop. */
  method FindLoop(hay: bytes, needle: bytes) returns (r: Option<nat>)
    ensures r == Find(hay, needle)
  {
    if needle == [] || |hay| < |needle| {
      return None;
    }
    var k := 0;
    while k + |needle| <= |hay|
      invariant FindFrom(hay, needle, 0) == FindFrom(hay, needle, k)
      decreases |hay| - k
    {
      if hay[k..k + |needle|] == needle {
        return Some(k);
      }
      k := k + 1;
    }
    return None;
  }

  /** The first match is what is found. */
  lemma {:induction false} FirstIsFound(hay: bytes, needle: bytes, k: nat)
    requires needle != [] && MatchAt(hay, needle, k) && forall i :: 0 <= i < k ==> !MatchAt(hay, needle, i)
    ensures Find(hay, needle) == Some(k)
  {
    hide MatchAt;
  }

  /** A match is found in a cut of the text exactly when the cut still holds all of it. */
  lemma {:induction false} FindInCut(full: bytes, n: nat, needle: bytes)
    requires needle != [] && n <= |full| && Find(full, needle).Some?
    ensures Find(full[..n], needle) ==
            if Find(full, needle).value + |needle| <= n then Find(full, needle) else None
  {
    var cut, k := full[..n], Find(full, needle).value;
    forall i | 0 <= i ensures MatchAt(cut, needle, i) <==> MatchAt(full, needle, i) && i + |needle| <= n {
      CutMatches(full, n, needle, i);
    }
    hide MatchAt;
    if k + |needle| <= n {
      FirstIsFound(cut, needle, k);
    }
  }

  /** A slice of a cut is a slice of the whole. */
  lemma {:induction false} CutSlice(full: bytes, n: nat, a: nat, b: nat)
    requires a <= b <= n <= |full|
    ensures full[..n][a..b] == full[a..b] && full[..n][a..] == full[a..][..n - a]
  {
  }

  lemma {:induction false} CutMatches(full: bytes, n: nat, needle: bytes, i: nat)
    requires n <= |full|
    ensures MatchAt(full[..n], needle, i) <==> MatchAt(full, needle, i) && i + |needle| <= n
  {
    if i + |needle| <= n {
      assert full[..n][i..i + |needle|] == full[i..i + |needle|];
    }
  }

  // ----- splitting

  /** The pieces between separators. */
  function Split(s: bytes, sep: byte): (r: seq<bytes>)
    ensures r != []
  {
    if s == [] then [[]]
    else if s[0] == sep then [[]] + Split(s[1..], sep)
    else
      var rest := Split(s[1..], sep);
      [[s[0]] + rest[0]] + rest[1..]
  }

  lemma {:induction false} SplitWhole(piece: bytes, sep: byte)
    requires sep !in piece
    ensures Split(piece, sep) == [piece]
  {
    if piece != [] {
      SplitWhole(piece[1..], sep);
      assert [piece[0]] + piece[1..] == piece;
    }
  }

  lemma {:induction false} SplitCons(piece: bytes, sep: byte, rest: bytes)
    requires sep !in piece
    ensures Split(piece + [sep] + rest, sep) == [piece] + Split(rest, sep)
  {
    var s := piece + [sep] + rest;
    if piece == [] {
      assert s[1..] == rest;
    } else {
      assert s[1..] == piece[1..] + [sep] + rest;
      SplitCons(piece[1..], sep, rest);
      assert [piece[0]] + piece[1..] == piece;
      assert ([piece[1..]] + Split(rest, sep))[1..] == Split(rest, sep);
    }
  }

  // ----- decimal numbers

  /** The decimal digits of `v`. */
  function Decimal(v: nat): (r: bytes)
    ensures r != [] && forall c :: c in r ==> 48 <= c <= 57
  {
    if v < 10 then [48 + v] else Decimal(v / 10) + [48 + v % 10]
  }

  /** The digits read so far stand for `n`; nothing on a non-digit or past 64 bits. */
  function ReadDigits(v: bytes, n: nat): (r: Option<nat>)
    requires n <= U64_MAX
    ensures r.Some? ==> r.value <= U64_MAX
  {
    if v == [] then Some(n)
    else if !(48 <= v[0] <= 57) then None
    else
      var n' := n * 10 + (v[0] as int - 48);
      if n' > U64_MAX then None else ReadDigits(v[1..], n')
  }

  /** A 64-bit `usize`. */
  function ParseUsize(v: bytes): (r: Option<nat>)
    ensures r.Some? ==> r.value <= U64_MAX
  {
    if v == [] then None else ReadDigits(v, 0)
  }

  method ParseUsizeLoop(v: bytes) returns (r: Option<nat>)
    ensures r == ParseUsize(v)
  {
    if v == [] {
      return None;
    }
    var n: nat, k := 0, 0;
    assert v[0..] == v;
    while k < |v|
      invariant k <= |v| && n <= U64_MAX && ReadDigits(v, 0) == ReadDigits(v[k..], n)
    {
      if !(48 <= v[k] <= 57) || n * 10 > U64_MAX || n * 10 + (v[k] as int - 48) > U64_MAX {
        return None;
      }
      assert v[k..][1..] == v[k + 1..];
      n := n * 10 + (v[k] as int - 48);
      k := k + 1;
    }
    return Some(n);
  }

  lemma {:induction false} ReadDigitsConcat(a: bytes, b: bytes, n: nat)
    requires n <= U64_MAX
    ensures ReadDigits(a + b, n) ==
            match ReadDigits(a, n)
            case None => None
            case Some(m) => ReadDigits(b, m)
    decreases |a|
  {
    if a == [] {
      assert a + b == b;
    } else {
      assert (a + b)[1..] == a[1..] + b;
      var n' := n * 10 + (a[0] as int - 48);
      if 48 <= a[0] <= 57 && n' <= U64_MAX {
        ReadDigitsConcat(a[1..], b, n');
      }
    }
  }

  /** Reading undoes printing, for every 64-bit number. */
  lemma {:induction false} ParseDecimal(v: nat)
    requires v <= U64_MAX
    ensures ParseUsize(Decimal(v)) == Some(v)
  {
    if v >= 10 {
      var head, d := Decimal(v / 10), [48 + v % 10];
      ParseDecimal(v / 10);
      ReadDigitsConcat(head, d, 0);
      assert d[1..] == [];
      assert ReadDigits(d, v / 10) == ReadDigits([], v);
    } else {
      assert [48 + v][1..] == [];
      assert ReadDigits([], v) == Some(v);
    }
  }

  /** The printer: fills the buffer backwards; returns where the digits start. */
  method FmtU64(v: u64, buf: array<byte>) returns (i: nat)
    requires buf.Length == 20
    modifies buf
    ensures i < 20 && buf[i..] == Decimal(v)
  {
    var rest: nat := v;
    i := buf.Length;
    DigitsFit(v);
    while true
      invariant 0 < i <= 20 && 1 <= Digits(rest) <= i
      invariant Decimal(v) == Decimal(rest) + buf[i..]
      decreases rest
    {
      i := i - 1;
      buf[i] := 48 + rest % 10;
      if rest / 10 == 0 {
        return;
      }
      rest := rest / 10;
    }
  }

  function Digits(v: nat): nat {
    if v < 10 then 1 else 1 + Digits(v / 10)
  }

  function Pow10(n: nat): nat {
    if n == 0 then 1 else 10 * Pow10(n - 1)
  }

  lemma {:induction false} DigitsBound(v: nat, n: nat)
    requires n > 0 && v < Pow10(n)
    ensures Digits(v) <= n
  {
    if v >= 10 {
      assert n > 1;
      DigitsBound(v / 10, n - 1);
    }
  }

  /** Twenty digits are enough for 64 bits. */
  lemma {:induction false} DigitsFit(v: u64)
    ensures Digits(v) <= 20
  {
    assert Pow10(5) == 100_000;
    assert Pow10(10) == 10_000_000_000;
    assert Pow10(15) == 1_000_000_000_000_000;
    assert Pow10(20) == 100_000_000_000_000_000_000;
    DigitsBound(v, 20);
  }
}
