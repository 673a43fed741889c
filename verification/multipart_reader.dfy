/** The streaming multipart reader as a function from state to state and result. */
module MultipartReader {
  import opened Bytes
  import opened Text
  import opened Multipart

  const MAX_BOUNDARY := 70

  /** `HTTP/` */
  const HTTP_SLASH: bytes := [72, 84, 84, 80, 47]

  /** `content-length:` */
  const LENGTH_NAME: bytes := [99, 111, 110, 116, 101, 110, 116, 45, 108, 101, 110, 103, 116, 104, 58]

  /** `x-timestamp:` */
  const TIMESTAMP_NAME: bytes := [120, 45, 116, 105, 109, 101, 115, 116, 97, 109, 112, 58]

  datatype Phase = Start | InHead | InParts | Done

  /** `cap` is the buffer's length and `data` its bytes in use; `boundary` is empty until it is known. */
  datatype State = State(cap: nat, data: bytes, phase: Phase, boundary: bytes, parts: nat)

  /** A complete part in the buffer; `consumed` also counts its headers and closing CRLF. */
  datatype PartInfo = PartInfo(start: nat, end: nat, timestamp: Option<nat>, consumed: nat)

  datatype Step = Step(state: State, result: Result<Option<PartInfo>>)

  function Init(cap: nat): State {
    State(cap, [], Start, [], 0)
  }

  /** The part lies in the bytes in use; taking the body of one that does not aborts. */
  predicate PartOf(p: PartInfo, data: bytes) {
    p.start <= p.end < p.consumed <= |data|
  }

  // ----- the response head

  predicate StopsToken(c: byte) {
    c == CR || c == SEMICOLON || c == SPACE || c == QUOTE
  }

  function Token(s: bytes): (r: bytes)
    ensures r <= s
  {
    if s == [] || StopsToken(s[0]) then [] else [s[0]] + Token(s[1..])
  }

  /** The boundary a head names, if it names one. */
  function HeadBoundary(head: bytes): Result<Option<bytes>> {
    match Find(head, BOUNDARY_IS)
    case None => Ok(None)
    case Some(b) =>
      var token := Token(head[b + 9..]);
      if token == [] || |token| > MAX_BOUNDARY then Err(InvalidFormat) else Ok(Some(token))
  }

  // ----- one part

  function SkipNewlines(d: bytes, i: nat): (r: nat)
    requires i <= |d|
    ensures i <= r <= |d|
    decreases |d| - i
  {
    if i < |d| && (d[i] == CR || d[i] == LF) then SkipNewlines(d, i + 1) else i
  }

  /** `line` without a closing `--`. */
  function StripDashes(line: bytes): Option<bytes> {
    if |line| >= 2 && line[|line| - 2..] == DASHES then Some(line[..|line| - 2]) else None
  }

  /** The first delimiter line teaches the boundary when no head did. */
  function Learn(boundary: bytes, line: bytes): Result<bytes> {
    if boundary != [] then Ok(boundary)
    else
      var stripped := StripDashes(line);
      var token := if stripped.Some? then stripped.value else line;
      if token == [] || |token| > MAX_BOUNDARY then Err(InvalidFormat) else Ok(token)
  }

  function StripCr(line: bytes): bytes {
    if line != [] && line[|line| - 1] == CR then line[..|line| - 1] else line
  }

  function Lower(c: byte): byte {
    if 65 <= c <= 90 then c + 32 else c
  }

  predicate EqIgnoreCase(a: bytes, b: bytes) {
    |a| == |b| && forall k :: 0 <= k < |a| ==> Lower(a[k]) == Lower(b[k])
  }

  function TrimSpaces(s: bytes): bytes {
    if s != [] && s[0] == SPACE then TrimSpaces(s[1..]) else s
  }

  /** The value of a header line of that name. */
  function StripHeader(line: bytes, name: bytes): Option<bytes> {
    if |line| < |name| || !EqIgnoreCase(line[..|name|], name) then None
    else Some(TrimSpaces(line[|name|..]))
  }

  datatype Fields = Fields(length: Option<nat>, timestamp: Option<nat>)

  function ReadHeader(line: bytes, f: Fields): Result<Fields> {
    var header := StripCr(line);
    var v := StripHeader(header, LENGTH_NAME);
    if v.Some? then
      var n := ParseUsize(v.value);
      if n == None then Err(InvalidFormat) else Ok(f.(length := n))
    else
      var t := StripHeader(header, TIMESTAMP_NAME);
      Ok(if t.Some? then f.(timestamp := ParseUsize(t.value)) else f)
  }

  function ReadHeaders(lines: seq<bytes>, f: Fields): (r: Result<Fields>)
    ensures r.Ok? && (f.length.Some? ==> f.length.value <= U64_MAX) && r.value.length.Some? ==>
              r.value.length.value <= U64_MAX
  {
    if lines == [] then Ok(f)
    else
      var f' :- ReadHeader(lines[0], f);
      ReadHeaders(lines[1..], f')
  }

  /** The part's headers, and its body if it is all there. The offsets of its end wrap at 64 bits. */
  function ReadPart(s: State, headersStart: nat): (r: Step)
    requires headersStart <= |s.data|
    ensures r.result.Ok? && r.result.value.Some? ==> r.result.value.value.consumed <= |s.data|
    ensures r.state == if r.result.Ok? && r.result.value.Some? then s.(parts := s.parts + 1) else s
  {
    match Find(s.data[headersStart..], BLANK)
    case None => Step(s, Ok(None))
    case Some(h) =>
      match ReadHeaders(Split(s.data[headersStart..headersStart + h], LF), Fields(None, None))
      case Err(e) => Step(s, Err(e))
      case Ok(f) =>
        if f.length == None then Step(s, Err(Unsupported))
        else
          var start := headersStart + h + 4;
          var end := (start + f.length.value) % (U64_MAX + 1);
          var close := (end + 2) % (U64_MAX + 1);
          if |s.data| < close then Step(s, if close > s.cap then Err(BufferTooSmall(close)) else Ok(None))
          else Step(s.(parts := s.parts + 1), Ok(Some(PartInfo(start, end, f.timestamp, close))))
  }

  /** The content length of the part whose headers start there, once they are whole and say one. */
  function LengthAt(s: State, headersStart: nat): (r: Option<nat>)
    requires headersStart <= |s.data|
    ensures r.Some? ==> r.value <= U64_MAX
  {
    match Find(s.data[headersStart..], BLANK)
    case None => None
    case Some(h) =>
      var f := ReadHeaders(Split(s.data[headersStart..headersStart + h], LF), Fields(None, None));
      if f.Ok? then f.value.length else None
  }

  /** A part the reader reports lies in the bytes in use if and only if its end fits 64 bits: a content length that does
      not wraps around and names a part that ends before it starts, or behind the buffer. */
  lemma {:induction false} ReportedExactly(s: State, headersStart: nat)
    requires headersStart <= |s.data| && |s.data| + 2 <= U64_MAX && ReadPart(s, headersStart).result.Ok?
    requires ReadPart(s, headersStart).result.value.Some?
    ensures LengthAt(s, headersStart).Some?
    ensures var p := ReadPart(s, headersStart).result.value.value;
            PartOf(p, s.data) <==> p.start + LengthAt(s, headersStart).value + 2 <= U64_MAX
  {
    hide Find, Split, ReadHeaders;
    var h := Find(s.data[headersStart..], BLANK).value;
    WrappedEnd(headersStart + h + 4, LengthAt(s, headersStart).value, |s.data|);
  }

  lemma {:induction false} WrappedEnd(start: nat, length: nat, used: nat)
    requires start <= used && used + 2 <= U64_MAX && length <= U64_MAX
    requires ((start + length) % (U64_MAX + 1) + 2) % (U64_MAX + 1) <= used
    ensures var end := (start + length) % (U64_MAX + 1);
            start <= end < (end + 2) % (U64_MAX + 1) <==> start + length + 2 <= U64_MAX
  {
    if start + length > U64_MAX {
      assert (start + length) % (U64_MAX + 1) == start + length - (U64_MAX + 1);
    } else if start + length + 2 > U64_MAX {
      assert (start + length + 2) % (U64_MAX + 1) == start + length + 2 - (U64_MAX + 1);
    }
  }

  function ParsePart(s: State): (r: Step)
    ensures r.result.Ok? && r.result.value.Some? ==> r.result.value.value.consumed <= |r.state.data|
    ensures r.state.data == s.data
  {
    var i := SkipNewlines(s.data, 0);
    if |s.data| < i + 2 then Step(s, Ok(None))
    else if s.data[i..i + 2] != DASHES then Step(s, Err(InvalidFormat))
    else
      match Find(s.data[i..], CRLF)
      case None => Step(s, Ok(None))
      case Some(e) =>
        AfterDashes(s.data[i..], e);
        var line := s.data[i + 2..i + e];
        match Learn(s.boundary, line)
        case Err(err) => Step(s, Err(err))
        case Ok(boundary) =>
          var s1 := s.(boundary := boundary);
          if line == boundary then ReadPart(s1, i + e + 2)
          else if StripDashes(line) == Some(boundary) then Step(s1.(phase := Done), Ok(None))
          else Step(s1, Err(InvalidFormat))
  }

  lemma {:induction false} AfterDashes(d: bytes, e: nat)
    requires |d| >= 2 && d[..2] == DASHES && MatchAt(d, CRLF, e)
    ensures e >= 2
  {
    assert d[e..e + 2][0] == CR;
    assert d[..2][0] == DASH && d[..2][1] == DASH;
  }

  /** Past the head, if there is one. */
  function AfterStart(s: State): (r: Step)
    requires s.phase != Start
    ensures r.result.Ok? && r.result.value.Some? ==> r.result.value.value.consumed <= |r.state.data|
    ensures |r.state.data| <= |s.data| && r.state.cap == s.cap
  {
    match s.phase
    case InHead =>
      (match Find(s.data, BLANK)
       case None => Step(s, Ok(None))
       case Some(end) =>
         match HeadBoundary(s.data[..end])
         case Err(e) => Step(s, Err(e))
         case Ok(b) =>
           ParsePart(s.(data := s.data[end + 4..], phase := InParts,
                        boundary := if b.Some? then b.value else s.boundary)))
    case InParts => ParsePart(s)
    case Done => Step(s, Ok(None))
  }

  function NextPart(s: State): (r: Step)
    ensures r.result.Ok? && r.result.value.Some? ==> r.result.value.value.consumed <= |r.state.data|
    ensures |r.state.data| <= |s.data| && r.state.cap == s.cap
  {
    if s.phase == Start then
      if |s.data| < 5 then Step(s, Ok(None))
      else AfterStart(s.(phase := if s.data[..5] == HTTP_SLASH then InHead else InParts))
    else AfterStart(s)
  }

  function Push(s: State, chunk: bytes): Result<State> {
    if |s.data| + |chunk| > s.cap then Err(BufferTooSmall(|s.data| + |chunk|)) else Ok(s.(data := s.data + chunk))
  }

  function Release(s: State, p: PartInfo): State {
    s.(data := s.data[Min(p.consumed, |s.data|)..])
  }

  // ----- the receiving loop

  datatype Delivery = Delivery(body: bytes, timestamp: Option<nat>)

  /** A state, what was delivered on the way to it, and the error that stopped the run, if one did. */
  datatype Run = Run(state: State, got: seq<Delivery>, error: Option<Error>)

  /** Takes out every part the buffer holds, releasing each. */
  function Drain(s: State): Run
    decreases |s.data|
  {
    var n := NextPart(s);
    match n.result
    case Err(e) => Run(n.state, [], Some(e))
    case Ok(None) => Run(n.state, [], None)
    case Ok(Some(p)) =>
      if !PartOf(p, n.state.data) then Run(n.state, [], Some(Panic))
      else
        var rest := Drain(Release(n.state, p));
        rest.(got := [Delivery(n.state.data[p.start..p.end], p.timestamp)] + rest.got)
  }

  lemma {:induction false} DrainStep(s: State)
    ensures var n := NextPart(s);
            Drain(s) == match n.result
                        case Err(e) => Run(n.state, [], Some(e))
                        case Ok(None) => Run(n.state, [], None)
                        case Ok(Some(p)) =>
                          if !PartOf(p, n.state.data) then Run(n.state, [], Some(Panic))
                          else
                            var rest := Drain(Release(n.state, p));
                            rest.(got := [Delivery(n.state.data[p.start..p.end], p.timestamp)] + rest.got)
  {
    hide NextPart;
  }

  /** One received chunk. */
  function Feed(s: State, chunk: bytes): Run {
    match Push(s, chunk)
    case Err(e) => Run(s, [], Some(e))
    case Ok(s') => Drain(s')
  }

  /** A whole connection. */
  function FeedAll(s: State, chunks: seq<bytes>): Run
    decreases |chunks|
  {
    if chunks == [] then Run(s, [], None)
    else
      var first := Feed(s, chunks[0]);
      if first.error.Some? then first
      else
        var rest := FeedAll(first.state, chunks[1..]);
        rest.(got := first.got + rest.got)
  }
}
