/** Byte strings, the error type the crate returns, and big-endian fields. */
module Bytes {

  type byte = x: int | 0 <= x < 256
  type bytes = seq<byte>
  type u16 = x: int | 0 <= x < 0x1_0000
  type u32 = x: int | 0 <= x < 0x1_0000_0000
  type u64 = x: int | 0 <= x < 0x1_0000_0000_0000_0000

  const U64_MAX := 0xFFFF_FFFF_FFFF_FFFF

  /** `Panic` stands for a Rust abort (a slice index or copy that does not fit):
      the source returns nothing there. */
  datatype Error = InvalidFormat | Unsupported | BufferTooSmall(needed: nat) | Panic

  datatype Option<+T> = None | Some(value: T)

  datatype Result<+T> = Ok(value: T) | Err(error: Error) {
    predicate IsFailure() {
      Err?
    }

    function PropagateFailure<U>(): Result<U>
      requires Err?
    {
      Err(error)
    }

    function Extract(): T
      requires Ok?
    {
      value
    }
  }

  function Min(a: int, b: int): int {
    if a < b then a else b
  }

  function Max(a: int, b: int): int {
    if a < b then b else a
  }

  /** A product the solver need not multiply out. */
  function Times(a: nat, b: nat): nat {
    a * b
  }

  function Be16(v: u16): (r: bytes)
    ensures |r| == 2
  {
    [v / 256, v % 256]
  }

  function Be32(v: u32): (r: bytes)
    ensures |r| == 4
  {
    [v / 0x100_0000, v / 0x1_0000 % 256, v / 256 % 256, v % 256]
  }

  function Be64(v: u64): (r: bytes)
    ensures |r| == 8
  {
    Be32(v / 0x1_0000_0000) + Be32(v % 0x1_0000_0000)
  }

  function FromBe16(a: byte, b: byte): u16 {
    a * 256 + b
  }

  function FromBe32(a: byte, b: byte, c: byte, d: byte): u32 {
    a * 0x100_0000 + b * 0x1_0000 + c * 256 + d
  }

  lemma {:induction false} Be16RoundTrip(v: u16)
    ensures FromBe16(Be16(v)[0], Be16(v)[1]) == v
  {
  }

  lemma {:induction false} ByteShifts(v: nat)
    ensures v / 0x1_0000 == v / 256 / 256 && v / 0x100_0000 == v / 256 / 256 / 256
  {
  }

  lemma {:induction false} Be32RoundTrip(v: u32)
    ensures FromBe32(Be32(v)[0], Be32(v)[1], Be32(v)[2], Be32(v)[3]) == v
  {
    ByteShifts(v);
    var a, b, c := v / 256, v / 256 / 256, v / 256 / 256 / 256;
    assert v == a * 256 + v % 256;
    assert a == b * 256 + a % 256;
    assert b == c * 256 + b % 256;
  }

  function Zeros(n: nat): (r: bytes)
    ensures |r| == n && forall k :: 0 <= k < n ==> r[k] == 0
  {
    if n == 0 then [] else [0] + Zeros(n - 1)
  }

  /** The concatenation of a list of byte strings. */
  function Concat(parts: seq<bytes>): bytes {
    if parts == [] then [] else parts[0] + Concat(parts[1..])
  }

  lemma {:induction false} ConcatCons(first: bytes, rest: seq<bytes>)
    ensures Concat([first] + rest) == first + Concat(rest) && Concat([]) == []
  {
    assert ([first] + rest)[1..] == rest;
  }

  lemma {:induction false} ConcatAppend(a: seq<bytes>, b: seq<bytes>)
    ensures Concat(a + b) == Concat(a) + Concat(b)
  {
    if a == [] {
      assert a + b == b;
    } else {
      assert (a + b)[1..] == a[1..] + b;
      ConcatAppend(a[1..], b);
    }
  }

  /** A copy into a slice of a Rust buffer: `buf[at..at + |src|].copy_from_slice(src)`. */
  method CopyInto(buf: array<byte>, at: nat, src: bytes)
    requires at + |src| <= buf.Length
    modifies buf
    ensures buf[..] == old(buf[..at]) + src + old(buf[at + |src|..])
  {
    ghost var was := buf[..];
    for k := 0 to |src|
      invariant buf[..] == was[..at] + src[..k] + was[at + k..]
    {
      buf[at + k] := src[k];
      assert src[..k + 1] == src[..k] + [src[k]];
    }
  }

  /** `now` is `was` with `done` written over it from `lo` on. */
  ghost predicate Written(now: bytes, was: bytes, lo: nat, done: bytes) {
    lo + |done| <= |was| && now == was[..lo] + done + was[lo + |done|..]
  }

  lemma {:induction false} WrittenNothing(was: bytes, lo: nat)
    requires lo <= |was|
    ensures Written(was, was, lo, [])
  {
    assert was == was[..lo] + [] + was[lo..];
  }

  lemma {:induction false} WrittenAt(now: bytes, was: bytes, lo: nat, done: bytes)
    requires Written(now, was, lo, done)
    ensures lo + |done| <= |now| == |was| && now[lo..lo + |done|] == done
  {
  }

  /** What is written from the front is the front. */
  lemma {:induction false} WrittenFront(now: bytes, was: bytes, done: bytes)
    requires Written(now, was, 0, done)
    ensures |done| <= |now| == |was| && now[..|done|] == done
    ensures |done| == |now| ==> now == done
  {
    assert was[..0] + done == done;
  }

  /** `put`: the next bytes of the slice that starts at `lo`, `done` being there already. */
  method Put(buf: array<byte>, p: nat, src: bytes, ghost was: bytes, ghost lo: nat, ghost done: bytes) returns (p': nat)
    requires Written(buf[..], was, lo, done) && p == lo + |done| && p + |src| <= buf.Length
    modifies buf
    ensures p' == p + |src| && Written(buf[..], was, lo, done + src)
  {
    CopyInto(buf, p, src);
    p' := p + |src|;
    assert old(buf[..p]) == was[..lo] + done;
    assert old(buf[p'..]) == was[p'..];
    assert was[..lo] + done + src == was[..lo] + (done + src);
  }
}
