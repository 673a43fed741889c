/** The writer's bytes as text. */
module MultipartText {
  import opened Bytes
  import opened Text
  import opened Multipart
  import MultipartReader

  /** A string of ASCII characters as bytes. */
  function Ascii(s: string): (r: bytes)
    ensures |r| == |s|
  {
    seq(|s|, i requires 0 <= i < |s| => if s[i] < 128 as char then s[i] as int else 63)
  }

  lemma {:induction false} Status()
    ensures STATUS_LINE + CRLF == Ascii("HTTP/1.1 200 OK\r\n")
  {
  }

  lemma {:induction false} Type()
    ensures STREAM_TYPE == Ascii("Content-Type: ") + Ascii("multipart/x-mixed-replace; ")
  {
    hide Ascii, TYPE_IS, REPLACE_TYPE;
    TypeName();
    TypeValue();
  }

  lemma {:induction false} TypeName()
    ensures TYPE_IS == Ascii("Content-Type: ")
  {
  }

  lemma {:induction false} TypeValue()
    ensures REPLACE_TYPE == Ascii("multipart/x-mixed-replace; ")
  {
  }

  lemma {:induction false} BoundaryIs()
    ensures BOUNDARY_IS == Ascii("boundary=")
  {
  }

  lemma {:induction false} Cache()
    ensures CACHE_LINE + CRLF == Ascii("Cache-Control: no-cache, no-store\r\n")
  {
  }

  lemma {:induction false} Pragma()
    ensures PRAGMA_LINE + CRLF == Ascii("Pragma: no-cache\r\n")
  {
  }

  lemma {:induction false} Close()
    ensures CLOSE_LINE + CRLF == Ascii("Connection: close\r\n")
  {
  }

  lemma {:induction false} Origin()
    ensures ORIGIN_LINE + CRLF == Ascii("Access-Control-Allow-Origin: *\r\n")
  {
  }

  lemma {:induction false} PartType()
    ensures JPEG_LINE + CRLF == Ascii("Content-Type: image/jpeg\r\n")
  {
  }

  lemma {:induction false} PartNames()
    ensures LENGTH_IS == Ascii("Content-Length: ") && TIMESTAMP_IS == Ascii("X-Timestamp: ")
  {
  }

  lemma {:induction false} Marks()
    ensures DASHES == Ascii("--") && CRLF == Ascii("\r\n") && BLANK == CRLF + CRLF
  {
  }

  /** The response head, in text. */
  lemma {:induction false} HeadIs(boundary: bytes)
    ensures Head(boundary) ==
            Ascii("HTTP/1.1 200 OK\r\n") +
            (Ascii("Content-Type: ") + Ascii("multipart/x-mixed-replace; ")) + Ascii("boundary=") + boundary + Ascii("\r\n") +
            Ascii("Cache-Control: no-cache, no-store\r\n") + Ascii("Pragma: no-cache\r\n") +
            Ascii("Connection: close\r\n") + Ascii("Access-Control-Allow-Origin: *\r\n") + Ascii("\r\n")
  {
    hide Ascii, STATUS_LINE, STREAM_TYPE, BOUNDARY_IS, CACHE_LINE, PRAGMA_LINE, CLOSE_LINE, ORIGIN_LINE, CRLF, BLANK, Join;
    Status();
    Type();
    BoundaryIs();
    Cache();
    Pragma();
    Close();
    Origin();
    Marks();
    SixLines(STATUS_LINE, STREAM_TYPE + BOUNDARY_IS + boundary, CACHE_LINE, PRAGMA_LINE, CLOSE_LINE, ORIGIN_LINE);
    assert STREAM_TYPE + BOUNDARY_IS + boundary + CRLF == STREAM_TYPE + BOUNDARY_IS + boundary + Ascii("\r\n");
  }

  lemma {:induction false} JoinOne(line: bytes)
    ensures Join([line]) == line
  {
  }

  lemma {:induction false} SixLines(a: bytes, b: bytes, c: bytes, d: bytes, e: bytes, f: bytes)
    ensures Join([a, b, c, d, e, f]) + (CRLF + CRLF) ==
            (a + CRLF) + b + CRLF + (c + CRLF) + (d + CRLF) + (e + CRLF) + (f + CRLF) + CRLF
  {
    hide CRLF, Join;
    assert [a] + [b, c, d, e, f] == [a, b, c, d, e, f] && [b] + [c, d, e, f] == [b, c, d, e, f];
    assert [c] + [d, e, f] == [c, d, e, f] && [d] + [e, f] == [d, e, f] && [e] + [f] == [e, f];
    JoinCons(a, [b, c, d, e, f]);
    JoinCons(b, [c, d, e, f]);
    JoinCons(c, [d, e, f]);
    JoinCons(d, [e, f]);
    JoinCons(e, [f]);
    JoinOne(f);
  }

  /** One part, in text; the lengths and times are the decimal numbers `ParseUsize` reads back. */
  lemma {:induction false} PartIs(boundary: bytes, f: Frame)
    ensures Part(boundary, f) ==
            Ascii("--") + boundary + Ascii("\r\n") + Ascii("Content-Type: image/jpeg\r\n") +
            Ascii("Content-Length: ") + Decimal(|f.data|) + Ascii("\r\n") +
            Ascii("X-Timestamp: ") + Decimal(f.timestamp) + Ascii("\r\n") + Ascii("\r\n") + f.data + Ascii("\r\n")
  {
    hide Ascii, JPEG_LINE, LENGTH_IS, TIMESTAMP_IS, CRLF, BLANK, DASHES, Join, Decimal;
    PartType();
    PartNames();
    Marks();
    var a, b, c := JPEG_LINE, LENGTH_IS + Decimal(|f.data|), TIMESTAMP_IS + Decimal(f.timestamp);
    assert [a] + [b, c] == [a, b, c] && [b] + [c] == [b, c];
    JoinCons(a, [b, c]);
    JoinCons(b, [c]);
    JoinOne(c);
    assert Join(PartLines(f)) == a + CRLF + (b + CRLF + c);
    assert Part(boundary, f) == DASHES + boundary + CRLF + (a + CRLF) + b + CRLF + c + CRLF + CRLF + f.data + CRLF;
  }

  /** The names the reader looks for. */
  lemma {:induction false} NamesRead()
    ensures MultipartReader.HTTP_SLASH == Ascii("HTTP/") && MultipartReader.LENGTH_NAME == Ascii("content-length:")
    ensures MultipartReader.TIMESTAMP_NAME == Ascii("x-timestamp:")
  {
  }
}
