/** The raw-socket download handler (_FastFileHandler.handle): read the
    request head, dispatch on the method, resolve and check the path, and
    answer with a file head and the file's bytes. Everything the handler asks
    of the machine is a parameter: the bytes the peer sends, the shared and
    home directories, the regular files and their contents, the type guess
    and the kernel's sendfile. What goes back on the socket is a string. */
module FastHandler {
  import opened Text
  import opened Numbers
  import Percent
  import Request
  import Paths
  import Ranges
  import Responses
  import Streaming

  /** What the handler sees of the machine. `files` maps each path that
      os.path.isfile accepts to the file's bytes. */
  datatype Env = Env(sharedDir: string, home: string,
                     files: map<string, string>,
                     guess: string -> Option<string>,
                     kernel: Streaming.Kernel)

  const NOT_ALLOWED: string := "Method Not Allowed"
  const FORBIDDEN: string := "Forbidden"
  const NOT_FOUND: string := "Not Found"

  /** How a parsed request is answered. */
  datatype Route =
    | Preflight
    | Refuse(code: nat, msg: string)
    | Serve(filepath: string, headOnly: bool)

  /** The dispatch of handle, in its order: OPTIONS first, then any other
      method than GET and HEAD, then the access rule on the resolved path,
      then the existence of the file. */
  function Dispatch(env: Env, line: Request.RequestLine): (r: Route)
    ensures r.Refuse? ==> r.code in {403, 404, 405}
    ensures r.Serve? ==> r.filepath in env.files && Paths.FastAllowed(r.filepath, env.sharedDir, env.home)
  {
    if line.verb == "OPTIONS" then Preflight
    else if line.verb != "GET" && line.verb != "HEAD" then Refuse(405, NOT_ALLOWED)
    else
      var fp := Paths.Resolve(line.target, env.sharedDir);
      if !Paths.FastAllowed(fp, env.sharedDir, env.home) then Refuse(403, FORBIDDEN)
      else if fp !in env.files then Refuse(404, NOT_FOUND)
      else Serve(fp, line.verb == "HEAD")
  }

  /** The Range header as the handler reads it: "" when absent. */
  function RangeHeader(hdrs: map<string, string>): string {
    if "range" in hdrs then hdrs["range"] else []
  }

  /** The head of the answer for an existing, allowed file. */
  function ServeHead(env: Env, fp: string, rangeHdr: string): string
    requires fp in env.files
  {
    var content := env.files[fp];
    var span := Ranges.FastRange(rangeHdr, |content|);
    Responses.FileHead(Responses.MimeType(fp, env.guess(fp)), span,
                       Responses.SafeName(Paths.BaseName(fp)), rangeHdr != [], |content|)
  }

  /** The body for an existing, allowed file: the zero-copy loop with its
      buffered fallback, over the span the Range header selects. */
  function ServeBody(env: Env, fp: string, rangeHdr: string): string
    requires fp in env.files
  {
    var content := env.files[fp];
    var span := Ranges.FastRange(rangeHdr, |content|);
    Streaming.StreamBody(env.kernel, content, span.start, Ranges.Length(span))
  }

  /** The answer to a framed request head; empty when the request line has
      fewer than two words (the connection is closed without a reply). */
  function Answer(env: Env, raw: string): string {
    var lines := Request.HeaderLines(raw);
    match Request.ParseRequestLine(lines[0])
    case None => []
    case Some(line) =>
      match Dispatch(env, line)
      case Preflight => Responses.PREFLIGHT
      case Refuse(code, msg) => Responses.ErrorResponse(code, msg)
      case Serve(fp, headOnly) =>
        var rangeHdr := RangeHeader(Request.HeaderMap(lines[1..]));
        ServeHead(env, fp, rangeHdr) + (if headOnly then [] else ServeBody(env, fp, rangeHdr))
  }

  /** Everything the handler writes for the bytes `chunks` the peer sends;
      nothing when the peer closes early or the head grows too large. */
  function Respond(env: Env, chunks: seq<string>): string {
    match Request.Frame(chunks)
    case Framed(raw) => Answer(env, raw)
    case _ => []
  }

  /** handle, step by step as the source does it. */
  method Handle(env: Env, chunks: seq<string>) returns (wire: string)
    ensures wire == Respond(env, chunks)
  {
    var framing := Request.ReadRequestHead(chunks);
    if !framing.Framed? {
      return [];
    }
    wire := AnswerHead(env, framing.raw);
  }

  /** handle once the head is complete. */
  method AnswerHead(env: Env, raw: string) returns (wire: string)
    ensures wire == Answer(env, raw)
  {
    var lines := Request.HeaderLines(raw);
    var parsed := Request.ParseRequestLine(lines[0]);
    if parsed.None? {
      return [];
    }
    var line := parsed.value;
    assert Parsed(raw) == Some(line);
    var hdrs := Request.CollectHeaders(lines[1..]);
    if line.verb == "OPTIONS" {
      OptionsIsPreflight(env, raw);
      return Responses.PREFLIGHT;
    }
    if line.verb != "GET" && line.verb != "HEAD" {
      RefusedAnswer(env, raw, 405, NOT_ALLOWED);
      return Responses.ErrorResponse(405, NOT_ALLOWED);
    }
    var fp := Paths.Resolve(line.target, env.sharedDir);
    if !Paths.FastAllowed(fp, env.sharedDir, env.home) {
      ForbiddenDispatch(env, line);
      RefusedAnswer(env, raw, 403, FORBIDDEN);
      return Responses.ErrorResponse(403, FORBIDDEN);
    }
    if fp !in env.files {
      RefusedAnswer(env, raw, 404, NOT_FOUND);
      return Responses.ErrorResponse(404, NOT_FOUND);
    }
    AnswerServes(env, raw, fp, line.verb == "HEAD");
    wire := ServeFile(env, fp, RangeHeader(hdrs), line.verb == "HEAD");
  }

  /** Send the head, then, unless the method was HEAD, stream the span. */
  method ServeFile(env: Env, fp: string, rangeHdr: string, headOnly: bool) returns (wire: string)
    requires fp in env.files
    ensures wire == ServeHead(env, fp, rangeHdr) + (if headOnly then [] else ServeBody(env, fp, rangeHdr))
  {
    wire := ServeHead(env, fp, rangeHdr);
    if headOnly {
      return;
    }
    var content := env.files[fp];
    var span := Ranges.FastRange(rangeHdr, |content|);
    var body := Streaming.Stream(env.kernel, content, span.start, Ranges.Length(span));
    wire := wire + body;
  }

  // ---------------------------------------------------------------------
  // Properties of the dispatch

  /** The request line of a framed head. */
  function Parsed(raw: string): Option<Request.RequestLine> {
    Request.ParseRequestLine(Request.HeaderLines(raw)[0])
  }

  /** OPTIONS is answered with the fixed preflight, whatever the target, the
      headers and the machine. */
  lemma OptionsIsPreflight(env: Env, raw: string)
    requires Parsed(raw).Some? && Parsed(raw).value.verb == "OPTIONS"
    ensures Answer(env, raw) == Responses.PREFLIGHT
  {
  }

  /** Any method other than OPTIONS, GET and HEAD is refused with 405 before
      the path is looked at. */
  lemma OtherMethodRefused(env: Env, raw: string)
    requires Parsed(raw).Some?
    requires Parsed(raw).value.verb !in {"OPTIONS", "GET", "HEAD"}
    ensures Answer(env, raw) == Responses.ErrorResponse(405, NOT_ALLOWED)
  {
  }

  /** A path outside both roots is refused with 403 whether or not the file
      exists, so this route does not reveal existence outside the roots. */
  lemma ForbiddenBeforeLookup(env: Env, raw: string)
    requires Parsed(raw).Some? && Parsed(raw).value.verb in {"GET", "HEAD"}
    requires !Paths.FastAllowed(Paths.Resolve(Parsed(raw).value.target, env.sharedDir), env.sharedDir, env.home)
    ensures Answer(env, raw) == Responses.ErrorResponse(403, FORBIDDEN)
    ensures forall files :: Answer(env.(files := files), raw) == Answer(env, raw)
  {
    var line := Parsed(raw).value;
    ForbiddenDispatch(env, line);
    RefusedAnswer(env, raw, 403, FORBIDDEN);
    forall files ensures Answer(env.(files := files), raw) == Answer(env, raw) {
      var other := env.(files := files);
      ForbiddenDispatch(other, line);
      RefusedAnswer(other, raw, 403, FORBIDDEN);
    }
  }

  lemma ForbiddenDispatch(env: Env, line: Request.RequestLine)
    requires line.verb in {"GET", "HEAD"}
    requires !Paths.FastAllowed(Paths.Resolve(line.target, env.sharedDir), env.sharedDir, env.home)
    ensures Dispatch(env, line) == Refuse(403, FORBIDDEN)
  {
  }

  lemma RefusedAnswer(env: Env, raw: string, code: nat, msg: string)
    requires Parsed(raw).Some? && Dispatch(env, Parsed(raw).value) == Refuse(code, msg)
    ensures Answer(env, raw) == Responses.ErrorResponse(code, msg)
  {
  }

  /** An allowed path that is not a regular file is answered with 404. */
  lemma MissingFileNotFound(env: Env, raw: string)
    requires Parsed(raw).Some? && Parsed(raw).value.verb in {"GET", "HEAD"}
    requires var fp := Paths.Resolve(Parsed(raw).value.target, env.sharedDir);
             Paths.FastAllowed(fp, env.sharedDir, env.home) && fp !in env.files
    ensures Answer(env, raw) == Responses.ErrorResponse(404, NOT_FOUND)
  {
    var line := Parsed(raw).value;
    assert line.verb != "OPTIONS" && (line.verb == "GET" || line.verb == "HEAD");
    assert Dispatch(env, line) == Refuse(404, NOT_FOUND);
  }

  /** HEAD is answered with exactly the head GET would send, and GET adds the
      body after it. */
  lemma HeadIsGetWithoutBody(env: Env, raw: string, target: string)
    requires Parsed(raw) == Some(Request.RequestLine("HEAD", target)) || Parsed(raw) == Some(Request.RequestLine("GET", target))
    requires var fp := Paths.Resolve(target, env.sharedDir);
             Paths.FastAllowed(fp, env.sharedDir, env.home) && fp in env.files
    ensures var fp := Paths.Resolve(target, env.sharedDir);
            var rangeHdr := RangeHeader(Request.HeaderMap(Request.HeaderLines(raw)[1..]));
            Answer(env, raw) == ServeHead(env, fp, rangeHdr) +
              (if Parsed(raw).value.verb == "HEAD" then [] else ServeBody(env, fp, rangeHdr))
  {
    var line := Parsed(raw).value;
    var fp := Paths.Resolve(target, env.sharedDir);
    DispatchServes(env, line, fp);
    AnswerServes(env, raw, fp, line.verb == "HEAD");
  }

  lemma DispatchServes(env: Env, line: Request.RequestLine, fp: string)
    requires line.verb in {"GET", "HEAD"} && fp == Paths.Resolve(line.target, env.sharedDir)
    requires Paths.FastAllowed(fp, env.sharedDir, env.home) && fp in env.files
    ensures Dispatch(env, line) == Serve(fp, line.verb == "HEAD")
  {
    assert line.verb != "OPTIONS" && (line.verb == "GET" || line.verb == "HEAD");
  }

  lemma AnswerServes(env: Env, raw: string, fp: string, headOnly: bool)
    requires Parsed(raw).Some? && Dispatch(env, Parsed(raw).value) == Serve(fp, headOnly)
    ensures fp in env.files
    ensures var rangeHdr := RangeHeader(Request.HeaderMap(Request.HeaderLines(raw)[1..]));
            Answer(env, raw) == ServeHead(env, fp, rangeHdr) + (if headOnly then [] else ServeBody(env, fp, rangeHdr))
  {
  }

  // ---------------------------------------------------------------------
  // What a client receives

  lemma SafeNameKeepsOut(name: string, c: char)
    requires c as int < 128 && c != '?' && c !in name
    ensures c !in Responses.SafeName(name)
  {
  }

  lemma BaseNameKeepsOut(p: string, c: char)
    requires c !in p
    ensures c !in Paths.BaseName(p)
  {
    var b := Paths.BaseName(p);
    assert b == p[|p| - |b|..];
    assert forall i :: 0 <= i < |b| ==> b[i] == p[|p| - |b| + i];
  }

  /** The answer for an existing, allowed file, as a client reads it: 206
      exactly when a Range header was sent, a Content-Length equal to the
      span's length, and the span's bytes as body when the zero-copy loop
      does not fail part-way. */
  lemma ServedReadBack(env: Env, fp: string, rangeHdr: string, headOnly: bool)
    requires fp in env.files
    requires '\r' !in fp && '\r' !in Responses.MimeType(fp, env.guess(fp))
    ensures var content := env.files[fp];
            var span := Ranges.FastRange(rangeHdr, |content|);
            var resp := ServeHead(env, fp, rangeHdr) + (if headOnly then [] else ServeBody(env, fp, rangeHdr));
            Responses.StatusCode(resp) == Some(if rangeHdr != [] then 206 else 200) &&
            Responses.ContentLength(resp) == Some(Ranges.Length(span)) &&
            ("content-range" in Responses.Fields(resp) <==> rangeHdr != []) &&
            (rangeHdr != [] ==> Responses.Fields(resp)["content-range"] == Responses.ContentRangeValue(span, |content|)) &&
            (headOnly ==> Responses.BodyOf(resp) == []) &&
            (!headOnly && Streaming.Faithful(env.kernel, content) &&
             Streaming.NoMidStreamFailure(env.kernel, content, span.start, Ranges.Length(span)) ==>
               Responses.BodyOf(resp) == Streaming.Slice(content, span.start, Ranges.Length(span)))
  {
    var content := env.files[fp];
    var span := Ranges.FastRange(rangeHdr, |content|);
    var mime := Responses.MimeType(fp, env.guess(fp));
    var safe := Responses.SafeName(Paths.BaseName(fp));
    BaseNameKeepsOut(fp, '\r');
    SafeNameKeepsOut(Paths.BaseName(fp), '\r');
    var body := if headOnly then [] else ServeBody(env, fp, rangeHdr);
    Responses.FileHeadReadBack(mime, span, safe, rangeHdr != [], |content|, body);
    if !headOnly && Streaming.Faithful(env.kernel, content) &&
       Streaming.NoMidStreamFailure(env.kernel, content, span.start, Ranges.Length(span)) {
      Streaming.StreamBodyExact(env.kernel, content, span.start, Ranges.Length(span));
    }
  }

  /** A request as a client writes it: "METHOD /quoted-path HTTP/1.1", the
      header lines, and the blank line, sent in one piece. */
  function ClientRequest(verb: string, path: string, hs: seq<Responses.Header>): string
    requires Percent.IsAscii(path)
  {
    Responses.Head([Join([verb, Percent.Quote(path), Responses.VERSION], " ")] + Responses.Lines(hs))
  }

  /** The handler frames a client's request as written, reads back its
      method (upper-cased), its path and its header lines. */
  lemma ClientRequestRead(verb: string, path: string, hs: seq<Responses.Header>)
    requires verb != [] && NoSpace(verb)
    requires path != [] && Percent.IsAscii(path) && Responses.GoodHeaders(hs)
    requires |ClientRequest(verb, path, hs)| <= Request.MAX_HEADER
    ensures var req := ClientRequest(verb, path, hs);
            Request.Frame([req]) == Request.Framed(req) &&
            Parsed(req) == Some(Request.RequestLine(Upper(verb), path)) &&
            Request.HeaderLines(req)[1..] == Responses.Lines(hs)
  {
    var q := Percent.Quote(path);
    var rl := Join([verb, q, Responses.VERSION], " ");
    var lines := [rl] + Responses.Lines(hs);
    var req := ClientRequest(verb, path, hs);
    Request.QuoteHasNoSpace(path);
    assert NoSpace(Responses.VERSION) by {
      forall c | c in Responses.VERSION ensures !IsSpace(c) {
      }
    }
    assert [verb, q, Responses.VERSION][1..] == [q, Responses.VERSION];
    assert Join([q, Responses.VERSION], " ") == q + " " + Responses.VERSION;
    assert rl == verb + " " + (q + " " + Responses.VERSION);
    assert verb[0] in verb;
    Responses.LinesFramable(hs);
    Responses.FramableCons(rl, Responses.Lines(hs));
    Responses.HeadReadBack(lines, []);
    assert Responses.Head(lines) + [] == req;
    FrameOfOnePiece(req);
    Request.ClientRequestLine(verb, path, Responses.VERSION);
  }

  lemma FrameOfOnePiece(req: string)
    requires Contains(req, Request.TERMINATOR) && |req| <= Request.MAX_HEADER
    ensures Request.Frame([req]) == Request.Framed(req)
  {
    assert !Contains([], Request.TERMINATOR);
    assert [] + req == req;
    assert Request.FrameFrom(req, [req], 1) == Request.Framed(req);
  }

  /** What the handler answers a framed GET for a file it may serve, sent in
      one piece. */
  lemma GetServed(env: Env, req: string, path: string, hs: seq<Responses.Header>)
    requires Request.Frame([req]) == Request.Framed(req)
    requires Parsed(req) == Some(Request.RequestLine("GET", path))
    requires Request.HeaderLines(req)[1..] == Responses.Lines(hs)
    requires var fp := Paths.Resolve(path, env.sharedDir);
             Paths.FastAllowed(fp, env.sharedDir, env.home) && fp in env.files
    ensures var fp := Paths.Resolve(path, env.sharedDir);
            var rangeHdr := RangeHeader(Request.HeaderMap(Responses.Lines(hs)));
            Respond(env, [req]) == ServeHead(env, fp, rangeHdr) + ServeBody(env, fp, rangeHdr)
  {
    HeadIsGetWithoutBody(env, req, path);
  }

  /** The header lines a client adds carry no Range header. */
  predicate NoRange(hs: seq<Responses.Header>) {
    forall i :: 0 <= i < |hs| ==> Lower(hs[i].name) != "range"
  }

  /** A client's GET without a Range header for a file the handler may serve
      receives 200, a Content-Length equal to the file's size, and the whole
      file, unless the zero-copy loop fails part-way. */
  lemma WholeFileDownload(env: Env, path: string, hs: seq<Responses.Header>)
    requires path != [] && Percent.IsAscii(path) && Responses.GoodHeaders(hs) && NoRange(hs)
    requires |ClientRequest("GET", path, hs)| <= Request.MAX_HEADER
    requires var fp := Paths.Resolve(path, env.sharedDir);
             Paths.FastAllowed(fp, env.sharedDir, env.home) && fp in env.files &&
             '\r' !in fp && '\r' !in Responses.MimeType(fp, env.guess(fp)) &&
             Streaming.Faithful(env.kernel, env.files[fp]) &&
             Streaming.NoMidStreamFailure(env.kernel, env.files[fp], 0, |env.files[fp]|)
    ensures var resp := Respond(env, [ClientRequest("GET", path, hs)]);
            var content := env.files[Paths.Resolve(path, env.sharedDir)];
            Responses.StatusCode(resp) == Some(200) &&
            Responses.ContentLength(resp) == Some(|content|) &&
            Responses.BodyOf(resp) == content
  {
    var fp := Paths.Resolve(path, env.sharedDir);
    var content := env.files[fp];
    PlainGetServed(env, path, hs);
    WholeFileRead(env, fp, Respond(env, [ClientRequest("GET", path, hs)]));
  }

  lemma PlainGetServed(env: Env, path: string, hs: seq<Responses.Header>)
    requires path != [] && Percent.IsAscii(path) && Responses.GoodHeaders(hs) && NoRange(hs)
    requires |ClientRequest("GET", path, hs)| <= Request.MAX_HEADER
    requires var fp := Paths.Resolve(path, env.sharedDir);
             Paths.FastAllowed(fp, env.sharedDir, env.home) && fp in env.files
    ensures var fp := Paths.Resolve(path, env.sharedDir);
            Respond(env, [ClientRequest("GET", path, hs)]) == ServeHead(env, fp, []) + ServeBody(env, fp, [])
  {
    ClientGetServed(env, path, hs);
    NoRangeHeader(hs);
  }

  lemma WholeFileRead(env: Env, fp: string, resp: string)
    requires fp in env.files
    requires '\r' !in fp && '\r' !in Responses.MimeType(fp, env.guess(fp))
    requires Streaming.Faithful(env.kernel, env.files[fp])
    requires Streaming.NoMidStreamFailure(env.kernel, env.files[fp], 0, |env.files[fp]|)
    requires resp == ServeHead(env, fp, []) + ServeBody(env, fp, [])
    ensures Responses.StatusCode(resp) == Some(200)
    ensures Responses.ContentLength(resp) == Some(|env.files[fp]|)
    ensures Responses.BodyOf(resp) == env.files[fp]
  {
    var content := env.files[fp];
    assert Ranges.FastRange([], |content|) == Ranges.Span(0, |content| - 1);
    ServedReadBack(env, fp, [], false);
    assert Streaming.Slice(content, 0, |content|) == content;
  }

  lemma GetVerb()
    ensures "GET" != [] && NoSpace("GET") && Upper("GET") == "GET"
  {
    assert NoSpace("GET") by {
      forall c | c in "GET" ensures !IsSpace(c) {
      }
    }
  }

  lemma NoRangeHeader(hs: seq<Responses.Header>)
    requires Responses.GoodHeaders(hs) && NoRange(hs)
    ensures RangeHeader(Request.HeaderMap(Responses.Lines(hs))) == []
  {
    Responses.HeaderAbsent(hs, "range");
  }

  const RANGE: string := "Range"

  /** The Range header a client adds for bytes a to b. */
  function RangeField(a: nat, b: nat): Responses.Header {
    Responses.Header(RANGE, Ranges.UNIT + NatToString(a) + Ranges.DASH + NatToString(b))
  }

  /** A client's GET with "Range: bytes=a-b" for a file the handler may serve
      receives 206, a Content-Length of b - a + 1, a Content-Range naming a,
      b and the file's size, and the bytes a to b that the file has, unless
      the zero-copy loop fails part-way. */
  lemma RangedDownload(env: Env, path: string, hs: seq<Responses.Header>, a: nat, b: nat)
    requires WithinDigitLimit(a) && WithinDigitLimit(b)
    requires path != [] && Percent.IsAscii(path) && Responses.GoodHeaders(hs) && NoRange(hs)
    requires |ClientRequest("GET", path, hs + [RangeField(a, b)])| <= Request.MAX_HEADER
    requires var fp := Paths.Resolve(path, env.sharedDir);
             Paths.FastAllowed(fp, env.sharedDir, env.home) && fp in env.files &&
             '\r' !in fp && '\r' !in Responses.MimeType(fp, env.guess(fp)) &&
             Streaming.Faithful(env.kernel, env.files[fp]) &&
             Streaming.NoMidStreamFailure(env.kernel, env.files[fp], a, b - a + 1)
    ensures var resp := Respond(env, [ClientRequest("GET", path, hs + [RangeField(a, b)])]);
            var content := env.files[Paths.Resolve(path, env.sharedDir)];
            Responses.StatusCode(resp) == Some(206) &&
            Responses.ContentLength(resp) == Some(b - a + 1) &&
            "content-range" in Responses.Fields(resp) &&
            Responses.Fields(resp)["content-range"] == Responses.ContentRangeValue(Ranges.Span(a, b), |content|) &&
            Responses.BodyOf(resp) == Streaming.Slice(content, a, b - a + 1) &&
            (a <= b < |content| ==> |Responses.BodyOf(resp)| == b - a + 1)
  {
    var fp := Paths.Resolve(path, env.sharedDir);
    var content := env.files[fp];
    var all := hs + [RangeField(a, b)];
    var value := RangeField(a, b).value;
    RangedGetServed(env, path, hs, a, b);
    RangeRead(env, fp, a, b, Respond(env, [ClientRequest("GET", path, all)]));
  }

  lemma RangedGetServed(env: Env, path: string, hs: seq<Responses.Header>, a: nat, b: nat)
    requires path != [] && Percent.IsAscii(path) && Responses.GoodHeaders(hs) && NoRange(hs)
    requires |ClientRequest("GET", path, hs + [RangeField(a, b)])| <= Request.MAX_HEADER
    requires var fp := Paths.Resolve(path, env.sharedDir);
             Paths.FastAllowed(fp, env.sharedDir, env.home) && fp in env.files
    ensures var fp := Paths.Resolve(path, env.sharedDir);
            var value := RangeField(a, b).value;
            Respond(env, [ClientRequest("GET", path, hs + [RangeField(a, b)])]) ==
              ServeHead(env, fp, value) + ServeBody(env, fp, value)
  {
    var all := hs + [RangeField(a, b)];
    RangeFieldGood(a, b);
    Responses.GoodHeadersAppend(hs, [RangeField(a, b)]);
    ClientGetServed(env, path, all);
    RangeHeaderRead(hs, a, b);
  }

  /** A client's GET, sent in one piece, for a file the handler may serve is
      answered with the file's head and body for the Range header it carries. */
  lemma ClientGetServed(env: Env, path: string, hs: seq<Responses.Header>)
    requires path != [] && Percent.IsAscii(path) && Responses.GoodHeaders(hs)
    requires |ClientRequest("GET", path, hs)| <= Request.MAX_HEADER
    requires var fp := Paths.Resolve(path, env.sharedDir);
             Paths.FastAllowed(fp, env.sharedDir, env.home) && fp in env.files
    ensures var fp := Paths.Resolve(path, env.sharedDir);
            var rangeHdr := RangeHeader(Request.HeaderMap(Responses.Lines(hs)));
            Respond(env, [ClientRequest("GET", path, hs)]) == ServeHead(env, fp, rangeHdr) + ServeBody(env, fp, rangeHdr)
  {
    var req := ClientRequest("GET", path, hs);
    GetVerb();
    ClientRequestRead("GET", path, hs);
    GetServed(env, req, path, hs);
  }

  lemma RangeRead(env: Env, fp: string, a: nat, b: nat, resp: string)
    requires WithinDigitLimit(a) && WithinDigitLimit(b)
    requires fp in env.files
    requires '\r' !in fp && '\r' !in Responses.MimeType(fp, env.guess(fp))
    requires Streaming.Faithful(env.kernel, env.files[fp])
    requires Streaming.NoMidStreamFailure(env.kernel, env.files[fp], a, b - a + 1)
    requires var value := RangeField(a, b).value;
             resp == ServeHead(env, fp, value) + ServeBody(env, fp, value)
    ensures var content := env.files[fp];
            Responses.StatusCode(resp) == Some(206) &&
            Responses.ContentLength(resp) == Some(b - a + 1) &&
            "content-range" in Responses.Fields(resp) &&
            Responses.Fields(resp)["content-range"] == Responses.ContentRangeValue(Ranges.Span(a, b), |content|) &&
            Responses.BodyOf(resp) == Streaming.Slice(content, a, b - a + 1) &&
            (a <= b < |content| ==> |Responses.BodyOf(resp)| == b - a + 1)
  {
    var content := env.files[fp];
    var value := RangeField(a, b).value;
    assert value != [] by { RangeFieldGood(a, b); }
    Ranges.ClosedRangeRead(a, b, |env.files[fp]|);
    SpanRead(env, fp, value, Ranges.Span(a, b), resp);
  }

  /** The answer for a ranged request whose header the handler reads as
      `span`. */
  lemma SpanRead(env: Env, fp: string, rangeHdr: string, span: Ranges.Span, resp: string)
    requires fp in env.files && rangeHdr != []
    requires '\r' !in fp && '\r' !in Responses.MimeType(fp, env.guess(fp))
    requires Ranges.FastRange(rangeHdr, |env.files[fp]|) == span
    requires Streaming.Faithful(env.kernel, env.files[fp])
    requires Streaming.NoMidStreamFailure(env.kernel, env.files[fp], span.start, Ranges.Length(span))
    requires resp == ServeHead(env, fp, rangeHdr) + ServeBody(env, fp, rangeHdr)
    ensures Responses.StatusCode(resp) == Some(206)
    ensures Responses.ContentLength(resp) == Some(Ranges.Length(span))
    ensures "content-range" in Responses.Fields(resp)
    ensures Responses.Fields(resp)["content-range"] == Responses.ContentRangeValue(span, |env.files[fp]|)
    ensures Responses.BodyOf(resp) == Streaming.Slice(env.files[fp], span.start, Ranges.Length(span))
  {
    ServedReadBack(env, fp, rangeHdr, false);
  }

  lemma RangeFieldGood(a: nat, b: nat)
    ensures Responses.GoodHeaders([RangeField(a, b)])
    ensures Lower(RANGE) == "range"
    ensures Responses.Trimmed(RangeField(a, b).value) && RangeField(a, b).value != []
  {
    Responses.NameGood(RANGE);
    var db := NatToString(b);
    assert db[|db| - 1] in db;
    assert forall c :: c in NatToString(a) ==> IsDigit(c);
    assert forall c :: c in db ==> IsDigit(c);
  }

  lemma RangeHeaderRead(hs: seq<Responses.Header>, a: nat, b: nat)
    requires Responses.GoodHeaders(hs) && NoRange(hs)
    ensures RangeHeader(Request.HeaderMap(Responses.Lines(hs + [RangeField(a, b)]))) == RangeField(a, b).value
  {
    var all := hs + [RangeField(a, b)];
    RangeFieldGood(a, b);
    Responses.GoodHeadersAppend(hs, [RangeField(a, b)]);
    Responses.HeaderLookup(all, |hs|);
  }
}
