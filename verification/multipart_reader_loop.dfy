/** The multipart reader over its buffer, refining `MultipartReader`. */
module MultipartReaderLoop {
  import opened Bytes
  import opened Text
  import opened Multipart
  import opened MultipartReader

  class Reader {
    const buf: array<byte>
    var len: nat
    var phase: Phase
    var boundary: bytes
    var parts: nat

    ghost predicate Valid()
      reads this
    {
      len <= buf.Length
    }

    /** The state `MultipartReader` speaks of. */
    ghost function Model(): State
      reads this, buf
      requires Valid()
    {
      State(buf.Length, buf[..len], phase, boundary, parts)
    }

    constructor (buf: array<byte>)
      ensures Valid() && this.buf == buf && Model() == Init(buf.Length)
    {
      this.buf := buf;
      len, phase, boundary, parts := 0, Start, [], 0;
    }

    /** Appends received bytes. */
    method Push(chunk: bytes) returns (r: Result<()>)
      requires Valid()
      modifies this, buf
      ensures Valid()
      ensures match MultipartReader.Push(old(Model()), chunk)
              case Ok(s) => r == Ok(()) && Model() == s
              case Err(e) => r == Err(e) && Model() == old(Model())
    {
      var end := len + |chunk|;
      if end > buf.Length {
        return Err(BufferTooSmall(end));
      }
      ghost var was := buf[..len];
      CopyInto(buf, len, chunk);
      assert buf[..end] == was + chunk;
      len := end;
      return Ok(());
    }

    method IsDone() returns (r: bool)
      ensures r == (phase == Done)
    {
      r := phase == Done;
    }

    /** The body bytes of a part just reported. */
    method Body(info: PartInfo) returns (r: bytes)
      requires Valid() && PartOf(info, Model().data)
      ensures r == Model().data[info.start..info.end]
    {
      r := buf[info.start..info.end];
    }

    /** Drops the first `n` bytes in use: the rest moves to the front. */
    method Shift(n: nat)
      requires Valid() && n <= len
      modifies this`len, buf
      ensures Valid() && Model() == old(Model()).(data := old(Model()).data[n..])
    {
      ghost var was := buf[..];
      var kept := len - n;
      for k := 0 to kept
        invariant len == old(len)
        invariant forall j :: 0 <= j < k ==> buf[j] == was[n + j]
        invariant forall j :: k <= j < buf.Length ==> buf[j] == was[j]
      {
        buf[k] := buf[n + k];
      }
      len := kept;
      assert buf[..kept] == was[n..n + kept];
    }

    /** Drops a part and everything before it. */
    method Release(info: PartInfo)
      requires Valid()
      modifies this`len, buf
      ensures Valid() && Model() == MultipartReader.Release(old(Model()), info)
    {
      Shift(Min(info.consumed, len));
    }

    /** The next complete part, if the buffer holds one. */
    method NextPart() returns (r: Result<Option<PartInfo>>)
      requires Valid()
      modifies this, buf
      ensures Valid() && Step(Model(), r) == MultipartReader.NextPart(old(Model()))
    {
      hide MultipartReader.ParsePart, HeadBoundary, Find;
      if phase == Start {
        if len < 5 {
          return Result.Ok(None);
        }
        assert buf[..5] == buf[..len][..5];
        phase := if buf[..5] == HTTP_SLASH then InHead else InParts;
      }
      if phase == InHead {
        var end := FindLoop(buf[..len], BLANK);
        if end == None {
          return Result.Ok(None);
        }
        assert buf[..end.value] == buf[..len][..end.value];
        var named := NamedBoundary(buf[..end.value]);
        if named.Err? {
          return Err(named.error);
        }
        if named.value.Some? {
          boundary := named.value.value;
        }
        Shift(end.value + 4);
        phase := InParts;
      }
      if phase == Done {
        return Result.Ok(None);
      }
      r := ParsePart();
    }

    /** The part at the front of the buffer. */
    method ParsePart() returns (r: Result<Option<PartInfo>>)
      requires Valid()
      modifies this
      ensures Valid() && Step(Model(), r) == MultipartReader.ParsePart(old(Model()))
    {
      hide Find, Learn, StripDashes, ReadPart, SkipNewlines;
      var data := buf[..len];
      var i := SkipLoop(data);
      if |data| < i + 2 {
        return Result.Ok(None);
      }
      if data[i..i + 2] != DASHES {
        return Err(InvalidFormat);
      }
      var lineEnd := FindLoop(data[i..], CRLF);
      if lineEnd == None {
        return Result.Ok(None);
      }
      AfterDashes(data[i..], lineEnd.value);
      var line := data[i + 2..i + lineEnd.value];
      var learned := LearnFrom(line);
      if learned.Err? {
        return Err(learned.error);
      }
      if line == boundary {
        r := FinishPart(data, i + lineEnd.value + 2);
      } else if StripDashes(line) == Some(boundary) {
        phase := Done;
        return Result.Ok(None);
      } else {
        return Err(InvalidFormat);
      }
    }

    /** Takes the boundary from the first delimiter line if no head named one. */
    method LearnFrom(line: bytes) returns (r: Result<()>)
      modifies this`boundary
      ensures match Learn(old(boundary), line)
              case Ok(b) => r == Ok(()) && boundary == b
              case Err(e) => r == Err(e) && boundary == old(boundary)
    {
      if boundary == [] {
        var stripped := StripDashes(line);
        var token := if stripped.Some? then stripped.value else line;
        if token == [] || |token| > MAX_BOUNDARY {
          return Err(InvalidFormat);
        }
        boundary := token;
      }
      return Result.Ok(());
    }

    /** Headers and body of the part whose delimiter line has been read. */
    method FinishPart(data: bytes, headersStart: nat) returns (r: Result<Option<PartInfo>>)
      requires Valid() && data == buf[..len] && headersStart <= |data|
      modifies this`parts
      ensures Step(Model(), r) == ReadPart(old(Model()), headersStart)
    {
      hide Find, ReadHeaders, Split;
      var hEnd := FindLoop(data[headersStart..], BLANK);
      if hEnd == None {
        return Result.Ok(None);
      }
      var fields := HeaderFields(data[headersStart..headersStart + hEnd.value]);
      if fields.Err? {
        return Err(fields.error);
      }
      if fields.value.length == None {
        return Err(Unsupported);
      }
      var bodyStart := headersStart + hEnd.value + 4;
      var bodyEnd := (bodyStart + fields.value.length.value) % (U64_MAX + 1);
      var close := (bodyEnd + 2) % (U64_MAX + 1);
      if |data| < close {
        if close > buf.Length {
          return Err(BufferTooSmall(close));
        }
        return Result.Ok(None);
      }
      parts := parts + 1;
      return Result.Ok(Some(PartInfo(bodyStart, bodyEnd, fields.value.timestamp, close)));
    }

    /** The receiving loop of one chunk: push, then take parts out until there is none. */
    method Receive(chunk: bytes) returns (got: seq<Delivery>, error: Option<Error>)
      requires Valid()
      modifies this, buf
      ensures Valid() && Run(Model(), got, error) == Feed(old(Model()), chunk)
    {
      hide MultipartReader.NextPart, Drain;
      got, error := [], None;
      var pushed := Push(chunk);
      if pushed.Err? {
        return got, Some(pushed.error);
      }
      ghost var start := Drain(Model());
      assert got + start.got == start.got;
      while true
        invariant Valid() && start == Drain(Model()).(got := got + Drain(Model()).got)
        decreases len
      {
        ghost var before := Model();
        var part := NextPart();
        DrainStep(before);
        assert |Model().data| <= |before.data|;
        if part.Err? {
          assert got + [] == got;
          return got, Some(part.error);
        }
        if part.value == None {
          assert got + [] == got;
          return got, None;
        }
        var info := part.value.value;
        if !(info.start <= info.end < info.consumed) {
          assert got + [] == got;
          return got, Some(Panic);
        }
        var body := Body(info);
        var one := [Delivery(body, info.timestamp)];
        ReleaseShrinks(Model(), info);
        Release(info);
        assert got + (one + Drain(Model()).got) == (got + one) + Drain(Model()).got;
        got := got + one;
      }
    }
  }

  lemma {:induction false} ReleaseShrinks(s: State, p: PartInfo)
    requires PartOf(p, s.data)
    ensures |MultipartReader.Release(s, p).data| < |s.data|
  {
  }

  method SkipLoop(data: bytes) returns (i: nat)
    ensures i == SkipNewlines(data, 0)
  {
    i := 0;
    while i < |data| && (data[i] == CR || data[i] == LF)
      invariant i <= |data| && SkipNewlines(data, 0) == SkipNewlines(data, i)
    {
      i := i + 1;
    }
  }

  /** The token ends at the first stop. */
  lemma {:induction false} TokenEnds(rest: bytes, stop: nat)
    requires stop <= |rest| && forall k :: 0 <= k < stop ==> !StopsToken(rest[k])
    requires stop == |rest| || StopsToken(rest[stop])
    ensures Token(rest) == rest[..stop]
  {
    hide StopsToken;
    if stop > 0 {
      TokenEnds(rest[1..], stop - 1);
      assert [rest[0]] + rest[1..][..stop - 1] == rest[..stop];
    }
  }

  /** The scan for the end of a token. */
  method TokenLoop(rest: bytes) returns (token: bytes)
    ensures token == Token(rest)
  {
    var stop := 0;
    while stop < |rest| && !StopsToken(rest[stop])
      invariant stop <= |rest| && forall k :: 0 <= k < stop ==> !StopsToken(rest[k])
    {
      stop := stop + 1;
    }
    TokenEnds(rest, stop);
    token := rest[..stop];
  }

  /** The boundary parameter of a response head. */
  method NamedBoundary(head: bytes) returns (r: Result<Option<bytes>>)
    ensures r == HeadBoundary(head)
  {
    hide Find, Token;
    var b := FindLoop(head, BOUNDARY_IS);
    if b == None {
      return Result.Ok(None);
    }
    var token := TokenLoop(head[b.value + 9..]);
    if token == [] || |token| > MAX_BOUNDARY {
      return Err(InvalidFormat);
    }
    return Result.Ok(Some(token));
  }

  /** The header loop of one part. */
  method HeaderFields(headers: bytes) returns (r: Result<Fields>)
    ensures r == ReadHeaders(Split(headers, LF), Fields(None, None))
  {
    hide Split, StripCr, StripHeader, ParseUsize;
    var lines := Split(headers, LF);
    var f, k := Fields(None, None), 0;
    assert lines[0..] == lines;
    while k < |lines|
      invariant k <= |lines| && ReadHeaders(lines, Fields(None, None)) == ReadHeaders(lines[k..], f)
    {
      var header := StripCr(lines[k]);
      var v := StripHeader(header, LENGTH_NAME);
      assert lines[k..][1..] == lines[k + 1..];
      if v.Some? {
        var n := ParseUsizeLoop(v.value);
        if n == None {
          return Err(InvalidFormat);
        }
        f := f.(length := n);
      } else {
        var t := StripHeader(header, TIMESTAMP_NAME);
        if t.Some? {
          var n := ParseUsizeLoop(t.value);
          f := f.(timestamp := n);
        }
      }
      k := k + 1;
    }
    return Result.Ok(f);
  }
}
