/** The responses the fast handler writes: the CORS preflight answer, the
    short error responses of _err, and the head of a file response. Each is
    read back with the same header reader the handler applies to requests,
    which is how a client sees it. */
module Responses {
  import opened Text
  import opened Numbers
  import Request
  import Ranges

  // ---------------------------------------------------------------------
  // Response heads

  /** Header lines, each ended by CRLF, then the blank line. */
  function Head(lines: seq<string>): string {
    Join(lines, Request.CRLF) + Request.TERMINATOR
  }

  /** Lines that can be framed: none is empty and none holds a carriage return. */
  predicate Framable(lines: seq<string>) {
    forall i :: 0 <= i < |lines| ==> lines[i] != [] && '\r' !in lines[i]
  }

  /** What follows the first blank line: the body as a client takes it. */
  function BodyOf(resp: string): string {
    match IndexOf(resp, Request.TERMINATOR)
    case Some(i) => resp[i + |Request.TERMINATOR|..]
    case None => []
  }

  /** The status code a client reads: the second word of the first line. */
  function StatusCode(resp: string): Option<int> {
    var ws := Words(Request.HeaderLines(resp)[0]);
    if |ws| >= 2 then ParseInt(ws[1]) else None
  }

  /** The header fields a client reads: the lines after the status line. */
  function Fields(resp: string): map<string, string> {
    Request.HeaderMap(Request.HeaderLines(resp)[1..])
  }

  /** The Content-Length a client reads, if any. */
  function ContentLength(resp: string): Option<int> {
    var h := Fields(resp);
    if "content-length" in h then ParseInt(h["content-length"]) else None
  }

  /** No blank line occurs inside the joined lines, whatever follows them. */
  lemma {:induction false} NoEarlyTerminator(lines: seq<string>, tail: string)
    requires |lines| >= 1 && Framable(lines)
    ensures forall j :: 0 <= j < |Join(lines, Request.CRLF)| ==>
              !Occurs(Join(lines, Request.CRLF) + tail, Request.TERMINATOR, j)
    decreases |lines|
  {
    var l0 := lines[0];
    if |lines| == 1 {
      forall j | 0 <= j < |l0|
        ensures !Occurs(l0 + tail, Request.TERMINATOR, j)
      {
        assert (l0 + tail)[j] == l0[j] && l0[j] in l0;
      }
    } else {
      var rest := lines[1..];
      var jr := Join(rest, Request.CRLF);
      assert Framable(rest) by {
        forall i | 0 <= i < |rest| ensures rest[i] != [] && '\r' !in rest[i] {
          assert rest[i] == lines[i + 1];
        }
      }
      NoEarlyTerminator(rest, tail);
      assert rest[0] == lines[1] && rest[0][0] in rest[0];
      JoinFirst(rest);
      var s := l0 + Request.CRLF + (jr + tail);
      assert Join(lines, Request.CRLF) + tail == s;
      forall j | 0 <= j < |l0| + 2 + |jr|
        ensures !Occurs(s, Request.TERMINATOR, j)
      {
        NoTerminatorAt(l0, jr + tail, |jr|, j);
      }
    }
  }

  /** One position of a line, its CRLF and what follows: a terminator can
      start neither inside the line nor at its CRLF, and after it only
      where the continuation has one. */
  lemma NoTerminatorAt(l0: string, rest: string, n: nat, j: int)
    requires '\r' !in l0 && n <= |rest| && n > 0 && rest[0] != '\r'
    requires forall k :: 0 <= k < n ==> !Occurs(rest, Request.TERMINATOR, k)
    requires 0 <= j < |l0| + 2 + n
    ensures !Occurs(l0 + Request.CRLF + rest, Request.TERMINATOR, j)
  {
    var s := l0 + Request.CRLF + rest;
    if j < |l0| {
      assert s[j] == l0[j] && l0[j] in l0;
    } else if j == |l0| {
      assert s[j + 2] == rest[0];
    } else if j == |l0| + 1 {
      assert s[j] == '\n';
    } else {
      assert s == (l0 + Request.CRLF) + rest;
      ShiftOccurs(l0 + Request.CRLF, rest, j);
    }
  }

  lemma JoinFirst(parts: seq<string>)
    requires parts != [] && parts[0] != []
    ensures Join(parts, Request.CRLF) != [] && Join(parts, Request.CRLF)[0] == parts[0][0]
  {
  }

  lemma ShiftOccurs(a: string, b: string, j: int)
    requires |a| <= j
    ensures Occurs(a + b, Request.TERMINATOR, j) <==> Occurs(b, Request.TERMINATOR, j - |a|)
  {
    if j + 4 <= |a + b| {
      assert (a + b)[j..j + 4] == b[j - |a|..j - |a| + 4];
    }
  }

  /** A framed head is read back line for line, and the body is exactly what
      follows it. */
  lemma HeadReadBack(lines: seq<string>, body: string)
    requires |lines| >= 1 && Framable(lines)
    ensures Contains(Head(lines) + body, Request.TERMINATOR)
    ensures Request.HeaderLines(Head(lines) + body) == lines
    ensures BodyOf(Head(lines) + body) == body
  {
    var joined := Join(lines, Request.CRLF);
    var resp := Head(lines) + body;
    assert resp == joined + (Request.TERMINATOR + body);
    NoEarlyTerminator(lines, Request.TERMINATOR + body);
    assert Occurs(resp, Request.TERMINATOR, |joined|) by {
      assert resp[|joined|..|joined| + 4] == Request.TERMINATOR;
    }
    assert IndexOf(resp, Request.TERMINATOR) == Some(|joined|);
    assert Request.HeaderBlock(resp) == joined;
    assert resp[|joined| + 4..] == body;
    forall i | 0 <= i < |lines| ensures Request.CRLF[0] !in lines[i] {
    }
    SplitJoin(lines, Request.CRLF);
  }

  // ---------------------------------------------------------------------
  // Header fields

  // Header names the handler writes.
  const CONTENT_TYPE: string := "Content-Type"
  const CONTENT_LENGTH: string := "Content-Length"
  const CONTENT_DISPOSITION: string := "Content-Disposition"
  const ACCEPT_RANGES: string := "Accept-Ranges"
  const ALLOW_ORIGIN: string := "Access-Control-Allow-Origin"
  const ALLOW_METHODS: string := "Access-Control-Allow-Methods"
  const ALLOW_HEADERS: string := "Access-Control-Allow-Headers"
  const EXPOSE_HEADERS: string := "Access-Control-Expose-Headers"
  const CACHE_CONTROL: string := "Cache-Control"
  const CONNECTION: string := "Connection"
  const CONTENT_RANGE: string := "Content-Range"

  /** The lower-cased header names, as the reader keys them. */
  lemma LowerNames()
    ensures Lower(CONTENT_LENGTH) == "content-length"
    ensures Lower(CONTENT_RANGE) == "content-range"
    ensures |Lower(CONTENT_TYPE)| == 12 && |Lower(CONTENT_DISPOSITION)| == 19
    ensures Lower(ACCEPT_RANGES)[0] == 'a' && Lower(CACHE_CONTROL)[1] == 'a'
    ensures |Lower(ACCEPT_RANGES)| == 13 && |Lower(CACHE_CONTROL)| == 13
    ensures |Lower(ALLOW_ORIGIN)| == 27 && |Lower(ALLOW_METHODS)| == 28 && |Lower(ALLOW_HEADERS)| == 28
    ensures |Lower(EXPOSE_HEADERS)| == 29 && |Lower(CONNECTION)| == 10
  {
  }

  /** Every name the handler writes can be read back. */
  lemma NamesGood()
    ensures Writable(CONTENT_TYPE)
    ensures Writable(CONTENT_LENGTH)
    ensures Writable(CONTENT_DISPOSITION)
    ensures Writable(ACCEPT_RANGES)
    ensures Writable(ALLOW_ORIGIN)
    ensures Writable(ALLOW_METHODS)
    ensures Writable(ALLOW_HEADERS)
    ensures Writable(EXPOSE_HEADERS)
    ensures Writable(CACHE_CONTROL)
    ensures Writable(CONNECTION)
    ensures Writable(CONTENT_RANGE)
  {
    NamesGood1();
    NamesGood2();
    NamesGood3();
    NamesGood4();
  }

  lemma NamesGood1()
    ensures Writable(CONTENT_TYPE)
    ensures Writable(CONTENT_LENGTH)
    ensures Writable(CONTENT_DISPOSITION)
  {
    ContentTypeGood();
    ContentLengthGood();
    ContentDispositionGood();
  }

  lemma NamesGood2()
    ensures Writable(ACCEPT_RANGES)
    ensures Writable(ALLOW_ORIGIN)
    ensures Writable(ALLOW_METHODS)
  {
    AcceptRangesGood();
    AllowOriginGood();
    AllowMethodsGood();
  }

  lemma NamesGood3()
    ensures Writable(ALLOW_HEADERS)
    ensures Writable(EXPOSE_HEADERS)
    ensures Writable(CACHE_CONTROL)
  {
    AllowHeadersGood();
    ExposeHeadersGood();
    CacheControlGood();
  }

  lemma NamesGood4()
    ensures Writable(CONNECTION)
    ensures Writable(CONTENT_RANGE)
  {
    ConnectionGood();
    ContentRangeGood();
  }

  lemma ContentTypeGood()
    ensures Writable(CONTENT_TYPE)
  {
    NameGood(CONTENT_TYPE);
  }

  lemma ContentLengthGood()
    ensures Writable(CONTENT_LENGTH)
  {
    NameGood(CONTENT_LENGTH);
  }

  lemma ContentDispositionGood()
    ensures Writable(CONTENT_DISPOSITION)
  {
    NameGood(CONTENT_DISPOSITION);
  }

  lemma AcceptRangesGood()
    ensures Writable(ACCEPT_RANGES)
  {
    NameGood(ACCEPT_RANGES);
  }

  lemma AllowOriginGood()
    ensures Writable(ALLOW_ORIGIN)
  {
    NameGood(ALLOW_ORIGIN);
  }

  lemma AllowMethodsGood()
    ensures Writable(ALLOW_METHODS)
  {
    NameGood(ALLOW_METHODS);
  }

  lemma AllowHeadersGood()
    ensures Writable(ALLOW_HEADERS)
  {
    NameGood(ALLOW_HEADERS);
  }

  lemma ExposeHeadersGood()
    ensures Writable(EXPOSE_HEADERS)
  {
    NameGood(EXPOSE_HEADERS);
  }

  lemma CacheControlGood()
    ensures Writable(CACHE_CONTROL)
  {
    NameGood(CACHE_CONTROL);
  }

  lemma ConnectionGood()
    ensures Writable(CONNECTION)
  {
    NameGood(CONNECTION);
  }

  lemma ContentRangeGood()
    ensures Writable(CONTENT_RANGE)
  {
    NameGood(CONTENT_RANGE);
  }

  predicate Writable(name: string) {
    GoodName(name) && '\r' !in name
  }

  /** A name of letters and dashes can be read back. */
  lemma NameGood(name: string)
    requires name != [] && name[0] != '-' && name[|name| - 1] != '-'
    requires forall i :: 0 <= i < |name| ==> 'a' <= name[i] <= 'z' || 'A' <= name[i] <= 'Z' || name[i] == '-'
    ensures Writable(name)
  {
  }

  lemma LowerAllowHeaders()
    ensures Lower(ALLOW_HEADERS) == "access-control-allow-headers"
  {
  }

  datatype Header = Header(name: string, value: string)

  /** One header line, "Name: value". */
  function Line(h: Header): string {
    h.name + ": " + h.value
  }

  function Lines(hs: seq<Header>): (lines: seq<string>)
    ensures |lines| == |hs| && forall i :: 0 <= i < |hs| ==> lines[i] == Line(hs[i])
  {
    seq(|hs|, i requires 0 <= i < |hs| => Line(hs[i]))
  }

  /** A header name the reader can take back: no colon, no surrounding space. */
  predicate GoodName(name: string) {
    name != [] && ':' !in name && !IsSpace(name[0]) && !IsSpace(name[|name| - 1])
  }

  predicate Trimmed(value: string) {
    value == [] || (!IsSpace(value[0]) && !IsSpace(value[|value| - 1]))
  }

  predicate GoodHeaders(hs: seq<Header>) {
    forall i :: 0 <= i < |hs| ==> GoodName(hs[i].name) && '\r' !in hs[i].name && '\r' !in hs[i].value
  }

  /** The key of a header line is its lower-cased name, whatever the value. */
  lemma LineKey(h: Header)
    requires GoodName(h.name)
    ensures ':' in Line(h)
    ensures Request.Key(Line(h)) == Lower(h.name)
  {
    var line := Line(h);
    assert line[|h.name|] == ':';
    assert line[..|h.name|] == h.name;
    assert Request.FirstColon(line) == |h.name|;
    StripTrimmed(h.name);
  }

  /** Header `j` is read back with its value when no later header has the
      same lower-cased name. */
  lemma HeaderLookup(hs: seq<Header>, j: int)
    requires GoodHeaders(hs) && 0 <= j < |hs| && Trimmed(hs[j].value)
    requires forall i :: j < i < |hs| ==> Lower(hs[i].name) != Lower(hs[j].name)
    ensures var h := Request.HeaderMap(Lines(hs));
            Lower(hs[j].name) in h && h[Lower(hs[j].name)] == hs[j].value
  {
    var lines := Lines(hs);
    var k := Lower(hs[j].name);
    Request.HeaderLine(hs[j].name, hs[j].value);
    forall i | j < i < |hs| ensures !Request.Defines(lines, i, k) {
      LineKey(hs[i]);
    }
    assert Request.LastDefines(lines, j, k);
    Request.HeaderMapLast(lines, j, k);
  }

  /** A name no header carries is not read back. */
  lemma HeaderAbsent(hs: seq<Header>, k: string)
    requires GoodHeaders(hs)
    requires forall i :: 0 <= i < |hs| ==> Lower(hs[i].name) != k
    ensures k !in Request.HeaderMap(Lines(hs))
  {
    var lines := Lines(hs);
    forall i | 0 <= i < |hs| ensures !Request.Defines(lines, i, k) {
      LineKey(hs[i]);
    }
    Request.HeaderMapHas(lines, k);
  }

  /** A name some header carries is read back. */
  lemma HeaderPresent(hs: seq<Header>, j: int)
    requires GoodHeaders(hs) && 0 <= j < |hs|
    ensures Lower(hs[j].name) in Request.HeaderMap(Lines(hs))
  {
    LineKey(hs[j]);
    assert Request.Defines(Lines(hs), j, Lower(hs[j].name));
    Request.HeaderMapHas(Lines(hs), Lower(hs[j].name));
  }

  // ---------------------------------------------------------------------
  // Status lines

  /** Splitting words off the front of a line. */
  lemma WordsFront(w: string, rest: string)
    requires w != [] && NoSpace(w)
    requires rest == [] || IsSpace(rest[0])
    ensures Words(w + rest) == [w] + Words(rest)
  {
    TakeWordOf(w, rest);
    assert (w + rest)[|w|..] == rest;
  }

  lemma WordsAfterSpace(rest: string)
    ensures Words(" " + rest) == Words(rest)
  {
    assert (" " + rest)[1..] == rest;
  }

  const VERSION: string := "HTTP/1.1"

  /** "HTTP/1.1 <code> <reason>". */
  function StatusLine(code: nat, reason: string): string {
    VERSION + " " + NatToString(code) + " " + reason
  }

  /** The status line is read back as its code. */
  lemma StatusLineCode(code: nat, reason: string)
    ensures var ws := Words(StatusLine(code, reason));
            |ws| >= 2 && ParseInt(ws[1]) == Some(code)
  {
    var digits := NatToString(code);
    var rest := " " + reason;
    assert StatusLine(code, reason) == VERSION + (" " + (digits + rest));
    assert NoSpace(VERSION) by {
      forall c | c in VERSION ensures !IsSpace(c) {
      }
    }
    WordsFront(VERSION, " " + (digits + rest));
    WordsAfterSpace(digits + rest);
    assert NoSpace(digits) by {
      forall c | c in digits ensures !IsSpace(c) {
      }
    }
    WordsFront(digits, rest);
    IntToStringRoundTrip(code);
  }

  lemma StatusLineFramable(code: nat, reason: string)
    requires '\r' !in reason
    ensures StatusLine(code, reason) != [] && '\r' !in StatusLine(code, reason)
  {
    var d := NatToString(code);
    assert forall c :: c in d ==> IsDigit(c);
  }

  /** A response: status line, header lines, blank line, body. */
  function Response(code: nat, reason: string, hs: seq<Header>, body: string): string {
    Head([StatusLine(code, reason)] + Lines(hs)) + body
  }

  /** How a client reads a response: the code, the header fields and the
      body come back as written. */
  lemma ResponseReadBack(code: nat, reason: string, hs: seq<Header>, body: string)
    requires '\r' !in reason && GoodHeaders(hs)
    ensures var resp := Response(code, reason, hs, body);
            StatusCode(resp) == Some(code) &&
            Fields(resp) == Request.HeaderMap(Lines(hs)) &&
            BodyOf(resp) == body
  {
    var lines := [StatusLine(code, reason)] + Lines(hs);
    ResponseFramable(code, reason, hs);
    HeadReadBack(lines, body);
    var resp := Response(code, reason, hs, body);
    assert Request.HeaderLines(resp) == lines;
    StatusLineCode(code, reason);
    assert lines[1..] == Lines(hs);
  }

  lemma ResponseFramable(code: nat, reason: string, hs: seq<Header>)
    requires '\r' !in reason && GoodHeaders(hs)
    ensures Framable([StatusLine(code, reason)] + Lines(hs))
  {
    StatusLineFramable(code, reason);
    LinesFramable(hs);
    FramableCons(StatusLine(code, reason), Lines(hs));
  }

  lemma FramableCons(first: string, rest: seq<string>)
    requires first != [] && '\r' !in first && Framable(rest)
    ensures Framable([first] + rest)
  {
    var lines := [first] + rest;
    forall i | 1 <= i < |lines| ensures lines[i] != [] && '\r' !in lines[i] {
      assert lines[i] == rest[i - 1];
    }
  }

  /** Header lines of good headers can be framed. */
  lemma LinesFramable(hs: seq<Header>)
    requires GoodHeaders(hs)
    ensures Framable(Lines(hs))
  {
    forall i | 0 <= i < |hs| ensures Lines(hs)[i] != [] && '\r' !in Lines(hs)[i] {
      var h := hs[i];
      assert Lines(hs)[i] == h.name + (": " + h.value);
      assert h.name[0] in h.name;
    }
  }

  lemma DigitsTrimmed(i: int)
    ensures IntToString(i) != [] && Trimmed(IntToString(i))
    ensures '\r' !in IntToString(i)
  {
    var d := NatToString(if i < 0 then -i else i);
    assert d != [] && AllDigits(d);
    assert d[0] in d && d[|d| - 1] in d;
  }

  // ---------------------------------------------------------------------
  // The preflight answer

  function PreflightHeaders(): seq<Header> {
    [Header(ALLOW_ORIGIN, "*"),
     Header(ALLOW_METHODS, "GET, HEAD, OPTIONS"),
     Header(ALLOW_HEADERS, "Range"),
     Header(CONNECTION, "close")]
  }

  /** The fixed answer to OPTIONS. */
  const PREFLIGHT: string := Response(204, "No Content", PreflightHeaders(), [])

  lemma PreflightHeadersGood()
    ensures GoodHeaders(PreflightHeaders())
  {
    NamesGood();
  }

  /** The preflight answer is a 204 with no body and no Content-Length, which
      allows the Range request header. */
  lemma PreflightReadBack()
    ensures StatusCode(PREFLIGHT) == Some(204)
    ensures ContentLength(PREFLIGHT) == None
    ensures "access-control-allow-headers" in Fields(PREFLIGHT)
    ensures Fields(PREFLIGHT)["access-control-allow-headers"] == "Range"
    ensures BodyOf(PREFLIGHT) == []
  {
    var hs := PreflightHeaders();
    PreflightHeadersGood();
    ResponseReadBack(204, "No Content", hs, []);
    PreflightFields();
  }

  lemma PreflightFields()
    ensures var h := Request.HeaderMap(Lines(PreflightHeaders()));
            "content-length" !in h &&
            "access-control-allow-headers" in h && h["access-control-allow-headers"] == "Range"
  {
    PreflightNoLength();
    PreflightAllowsRange();
  }

  lemma PreflightNoLength()
    ensures "content-length" !in Request.HeaderMap(Lines(PreflightHeaders()))
  {
    PreflightHeadersGood();
    LowerNames();
    HeaderAbsent(PreflightHeaders(), "content-length");
  }

  lemma PreflightAllowsRange()
    ensures var h := Request.HeaderMap(Lines(PreflightHeaders()));
            "access-control-allow-headers" in h && h["access-control-allow-headers"] == "Range"
  {
    var hs := PreflightHeaders();
    PreflightHeadersGood();
    LowerNames();
    LowerAllowHeaders();
    assert Lower(hs[2].name) == "access-control-allow-headers";
    HeaderLookup(hs, 2);
  }

  // ---------------------------------------------------------------------
  // _err

  /** The header fields of _err for a message. */
  function ErrorHeaders(msg: string): seq<Header> {
    [Header(CONTENT_LENGTH, NatToString(|msg|)),
     Header(ALLOW_ORIGIN, "*"),
     Header(CONNECTION, "close")]
  }

  /** _err(code, msg): the message is both the reason phrase and the body. */
  function ErrorResponse(code: nat, msg: string): string {
    Response(code, msg, ErrorHeaders(msg), msg)
  }

  lemma ErrorHeadersGood(msg: string)
    ensures GoodHeaders(ErrorHeaders(msg))
  {
    NamesGood();
    DigitsTrimmed(|msg|);
  }

  /** A client reads an error response as the code, a Content-Length that
      matches the body, and the message as body. */
  lemma ErrorResponseReadBack(code: nat, msg: string)
    requires '\r' !in msg
    ensures var resp := ErrorResponse(code, msg);
            StatusCode(resp) == Some(code) &&
            ContentLength(resp) == Some(|msg|) &&
            BodyOf(resp) == msg
  {
    ErrorHeadersGood(msg);
    ResponseReadBack(code, msg, ErrorHeaders(msg), msg);
    ErrorFields(msg);
  }

  lemma ErrorFields(msg: string)
    ensures var h := Request.HeaderMap(Lines(ErrorHeaders(msg)));
            "content-length" in h && ParseInt(h["content-length"]) == Some(|msg|)
  {
    var hs := ErrorHeaders(msg);
    ErrorHeadersGood(msg);
    DigitsTrimmed(|msg|);
    LowerNames();
    HeaderLookup(hs, 0);
    IntToStringRoundTrip(|msg|);
  }

  // ---------------------------------------------------------------------
  // The head of a file response

  /** name.encode("ascii", "replace").decode(): every character outside
      ASCII becomes '?', every other one is kept. */
  function SafeName(name: string): (r: string)
    ensures |r| == |name|
    ensures forall i :: 0 <= i < |r| ==> r[i] as int < 128
    ensures forall i :: 0 <= i < |r| ==> (r[i] == name[i] <==> name[i] as int < 128 || name[i] == '?')
  {
    seq(|name|, i requires 0 <= i < |name| => if name[i] as int < 128 then name[i] else '?')
  }

  /** Content-Range: bytes <start>-<end>/<size>. */
  function ContentRangeValue(span: Ranges.Span, size: nat): string {
    "bytes " + IntToString(span.start) + "-" + IntToString(span.end) + "/" + NatToString(size)
  }

  /** The header fields of a file response; Content-Range only when the
      request had a Range header. */
  function FileHeaders(mime: string, span: Ranges.Span, safeName: string, ranged: bool, size: nat): seq<Header> {
    [Header(CONTENT_TYPE, mime),
     Header(CONTENT_LENGTH, IntToString(Ranges.Length(span))),
     Header(CONTENT_DISPOSITION, "attachment; filename=\"" + safeName + "\""),
     Header(ACCEPT_RANGES, "bytes"),
     Header(ALLOW_ORIGIN, "*"),
     Header(ALLOW_METHODS, "GET, HEAD, OPTIONS"),
     Header(EXPOSE_HEADERS, "Content-Length, Content-Range"),
     Header(CACHE_CONTROL, "no-cache"),
     Header(CONNECTION, "close")]
    + (if ranged then [Header(CONTENT_RANGE, ContentRangeValue(span, size))] else [])
  }

  /** The head the fast handler sends before the file's bytes: 206 when the
      request had a Range header, 200 otherwise. */
  function FileHead(mime: string, span: Ranges.Span, safeName: string, ranged: bool, size: nat): string {
    if ranged then Response(206, PARTIAL, FileHeaders(mime, span, safeName, ranged, size), [])
    else Response(200, OK, FileHeaders(mime, span, safeName, ranged, size), [])
  }

  /** A client reads the head as 206 or 200, a Content-Length equal to the
      span's length (even when that is zero or negative), a Content-Range
      exactly when the request was ranged, and whatever follows as the body. */
  lemma FileHeadReadBack(mime: string, span: Ranges.Span, safeName: string, ranged: bool, size: nat, body: string)
    requires '\r' !in mime && '\r' !in safeName
    ensures var head := FileHead(mime, span, safeName, ranged, size) + body;
            StatusCode(head) == Some(if ranged then 206 else 200) &&
            ContentLength(head) == Some(Ranges.Length(span)) &&
            ("content-range" in Fields(head) <==> ranged) &&
            (ranged ==> Fields(head)["content-range"] == ContentRangeValue(span, size)) &&
            BodyOf(head) == body
  {
    FileHeadShape(mime, span, safeName, ranged, size, body);
    FileLength(mime, span, safeName, ranged, size);
    FileRange(mime, span, safeName, ranged, size);
  }

  /** The file head reads back as its status, its header fields and the body
      that follows it. */
  lemma FileHeadShape(mime: string, span: Ranges.Span, safeName: string, ranged: bool, size: nat, body: string)
    requires '\r' !in mime && '\r' !in safeName
    ensures var head := FileHead(mime, span, safeName, ranged, size) + body;
            StatusCode(head) == Some(if ranged then 206 else 200) &&
            Fields(head) == Request.HeaderMap(Lines(FileHeaders(mime, span, safeName, ranged, size))) &&
            BodyOf(head) == body
  {
    var hs := FileHeaders(mime, span, safeName, ranged, size);
    var code: nat := if ranged then 206 else 200;
    var reason := if ranged then PARTIAL else OK;
    FileHeadersGood(mime, span, safeName, ranged, size);
    FileHeadIs(mime, span, safeName, ranged, size, body);
    ReasonsPlain();
    ResponseReadBack(code, reason, hs, body);
  }

  const PARTIAL: string := "Partial Content"
  const OK: string := "OK"

  lemma ReasonsPlain()
    ensures '\r' !in PARTIAL && '\r' !in OK
  {
  }

  lemma FileHeadIs(mime: string, span: Ranges.Span, safeName: string, ranged: bool, size: nat, body: string)
    ensures FileHead(mime, span, safeName, ranged, size) + body ==
            Response(if ranged then 206 else 200, if ranged then PARTIAL else OK,
                     FileHeaders(mime, span, safeName, ranged, size), body)
  {
    var hs := FileHeaders(mime, span, safeName, ranged, size);
    var lines := [StatusLine(if ranged then 206 else 200, if ranged then PARTIAL else OK)] + Lines(hs);
    assert Head(lines) + [] + body == Head(lines) + body;
  }

  lemma FileHeadersGood(mime: string, span: Ranges.Span, safeName: string, ranged: bool, size: nat)
    requires '\r' !in mime && '\r' !in safeName
    ensures GoodHeaders(FileHeaders(mime, span, safeName, ranged, size))
  {
    var entity := [Header(CONTENT_TYPE, mime),
                   Header(CONTENT_LENGTH, IntToString(Ranges.Length(span))),
                   Header(CONTENT_DISPOSITION, "attachment; filename=\"" + safeName + "\"")];
    var common := [Header(ACCEPT_RANGES, "bytes"),
                   Header(ALLOW_ORIGIN, "*"),
                   Header(ALLOW_METHODS, "GET, HEAD, OPTIONS")];
    var closing := [Header(EXPOSE_HEADERS, "Content-Length, Content-Range"),
                    Header(CACHE_CONTROL, "no-cache"),
                    Header(CONNECTION, "close")];
    var range := if ranged then [Header(CONTENT_RANGE, ContentRangeValue(span, size))] else [];
    assert FileHeaders(mime, span, safeName, ranged, size) == entity + common + closing + range;
    EntityHeadersGood(mime, Ranges.Length(span), safeName);
    CommonHeadersGood();
    ClosingHeadersGood();
    GoodHeadersAppend(entity, common);
    GoodHeadersAppend(entity + common, closing);
    if ranged {
      ContentRangeFramable(span, size);
      NamesGood4();
    }
    GoodHeadersAppend(entity + common + closing, range);
  }

  lemma GoodHeadersAppend(a: seq<Header>, b: seq<Header>)
    requires GoodHeaders(a) && GoodHeaders(b)
    ensures GoodHeaders(a + b)
  {
  }

  lemma EntityHeadersGood(mime: string, length: int, safeName: string)
    requires '\r' !in mime && '\r' !in safeName
    ensures GoodHeaders([Header(CONTENT_TYPE, mime),
                         Header(CONTENT_LENGTH, IntToString(length)),
                         Header(CONTENT_DISPOSITION, "attachment; filename=\"" + safeName + "\"")])
  {
    NamesGood1();
    DigitsTrimmed(length);
    assert '\r' !in "attachment; filename=\"";
  }

  lemma CommonHeadersGood()
    ensures GoodHeaders([Header(ACCEPT_RANGES, "bytes"),
                         Header(ALLOW_ORIGIN, "*"),
                         Header(ALLOW_METHODS, "GET, HEAD, OPTIONS")])
  {
    NamesGood2();
    MethodsPlain();
  }

  lemma MethodsPlain()
    ensures '\r' !in "GET, HEAD, OPTIONS" && '\r' !in "bytes" && '\r' !in "*"
  {
  }

  lemma ClosingHeadersGood()
    ensures GoodHeaders([Header(EXPOSE_HEADERS, "Content-Length, Content-Range"),
                         Header(CACHE_CONTROL, "no-cache"),
                         Header(CONNECTION, "close")])
  {
    NamesGood3();
    NamesGood4();
    ExposedPlain();
  }

  lemma ExposedPlain()
    ensures '\r' !in "Content-Length, Content-Range"
  {
  }

  lemma ContentRangeFramable(span: Ranges.Span, size: nat)
    ensures '\r' !in ContentRangeValue(span, size)
  {
    DigitsTrimmed(span.start);
    DigitsTrimmed(span.end);
    DigitsTrimmed(size);
  }

  lemma FileLength(mime: string, span: Ranges.Span, safeName: string, ranged: bool, size: nat)
    requires '\r' !in mime && '\r' !in safeName
    ensures var h := Request.HeaderMap(Lines(FileHeaders(mime, span, safeName, ranged, size)));
            "content-length" in h && ParseInt(h["content-length"]) == Some(Ranges.Length(span))
  {
    var hs := FileHeaders(mime, span, safeName, ranged, size);
    FileHeadersGood(mime, span, safeName, ranged, size);
    DigitsTrimmed(Ranges.Length(span));
    LowerNames();
    HeaderLookup(hs, 1);
    IntToStringRoundTrip(Ranges.Length(span));
  }

  lemma FileRange(mime: string, span: Ranges.Span, safeName: string, ranged: bool, size: nat)
    requires '\r' !in mime && '\r' !in safeName
    ensures var h := Request.HeaderMap(Lines(FileHeaders(mime, span, safeName, ranged, size)));
            ("content-range" in h <==> ranged) &&
            (ranged ==> h["content-range"] == ContentRangeValue(span, size))
  {
    var hs := FileHeaders(mime, span, safeName, ranged, size);
    FileHeadersGood(mime, span, safeName, ranged, size);
    LowerNames();
    if ranged {
      ContentRangeTrimmed(span, size);
      HeaderLookup(hs, 9);
    } else {
      HeaderAbsent(hs, "content-range");
    }
  }

  lemma ContentRangeTrimmed(span: Ranges.Span, size: nat)
    ensures Trimmed(ContentRangeValue(span, size))
  {
    var d := NatToString(size);
    assert d[|d| - 1] in d;
  }

  // ---------------------------------------------------------------------
  // Content type

  const APK_SUFFIX: string := ".apk"
  const APK_TYPE: string := "application/vnd.android.package-archive"
  const DEFAULT_TYPE: string := "application/octet-stream"

  /** The Content-Type both download paths send: the guess from the file
      name (mimetypes.guess_type, a parameter here), or the generic binary
      type when there is no guess, and always the Android package type for a
      name ending in ".apk" in any letter case. */
  function MimeType(filepath: string, guess: Option<string>): (mime: string)
    ensures mime != []
    ensures EndsWith(Lower(filepath), APK_SUFFIX) ==> mime == APK_TYPE
  {
    if EndsWith(Lower(filepath), APK_SUFFIX) then APK_TYPE
    else if guess.Some? && guess.value != [] then guess.value
    else DEFAULT_TYPE
  }
}
