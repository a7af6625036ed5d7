/** Reading a request on the fast download port (app.py, _FastFileHandler.handle):
    the bytes are accumulated until the blank line that ends the header block
    (section 2.1 of RFC 9112), the request line is split into method and
    target (section 3 of RFC 9112) and the header lines become a map from
    lower-cased field name to trimmed value. */
module Request {
  import opened Text
  import Percent

  const CRLF: string := "\r\n"
  const TERMINATOR: string := "\r\n\r\n"
  /** The header block may grow to this many bytes; one more and the
      connection is dropped. */
  const MAX_HEADER: nat := 65536

  // ---------------------------------------------------------------------
  // Accumulating the header block

  /** How the receive loop ends: the peer closed before the blank line, the
      buffer grew past MAX_HEADER, or the buffer holds the blank line. */
  datatype Framing = PeerClosed | TooLarge | Framed(raw: string)

  /** The bytes of the first `n` receive calls. */
  function Received(chunks: seq<string>, n: nat): string
    requires n <= |chunks|
  {
    Concat(chunks[..n])
  }

  /** The receive loop from a buffer `raw` on, where receive call `i` returns
      `chunks[i]`; an empty chunk, or a call past the end of `chunks`, is the
      peer closing the connection. */
  function FrameFrom(raw: string, chunks: seq<string>, i: nat): Framing
    decreases |chunks| - i
  {
    if Contains(raw, TERMINATOR) then Framed(raw)
    else if i >= |chunks| || chunks[i] == [] then PeerClosed
    else if |raw + chunks[i]| > MAX_HEADER then TooLarge
    else FrameFrom(raw + chunks[i], chunks, i + 1)
  }

  function Frame(chunks: seq<string>): Framing {
    FrameFrom([], chunks, 0)
  }

  /** The receive loop of handle: grow the buffer one receive at a time until
      it holds the blank line; give up silently when the peer closes or the
      buffer exceeds MAX_HEADER. */
  method ReadRequestHead(chunks: seq<string>) returns (outcome: Framing)
    ensures outcome == Frame(chunks)
  {
    var raw: string := [];
    var i: nat := 0;
    while !Contains(raw, TERMINATOR)
      invariant i <= |chunks|
      invariant FrameFrom(raw, chunks, i) == Frame(chunks)
      decreases |chunks| - i
    {
      var buf := if i < |chunks| then chunks[i] else [];
      if buf == [] {
        return PeerClosed;
      }
      raw := raw + buf;
      i := i + 1;
      if |raw| > MAX_HEADER {
        return TooLarge;
      }
    }
    return Framed(raw);
  }

  /** No receive before call `n` produced a buffer holding the blank line. */
  predicate NoTerminatorBefore(chunks: seq<string>, n: nat)
    requires n <= |chunks|
  {
    forall m: nat :: m < n ==> !Contains(Received(chunks, m), TERMINATOR)
  }

  lemma ReceivedNext(chunks: seq<string>, i: nat)
    requires i < |chunks|
    ensures Received(chunks, i + 1) == Received(chunks, i) + chunks[i]
  {
    assert chunks[..i + 1] == chunks[..i] + [chunks[i]];
    ConcatAppend(chunks[..i], [chunks[i]]);
    assert Concat([chunks[i]]) == chunks[i] + Concat([]);
  }

  /** What each outcome of the receive loop means, from call `i` on. */
  lemma {:induction false} FrameFromMeaning(raw: string, chunks: seq<string>, i: nat)
    requires i <= |chunks| && raw == Received(chunks, i) && |raw| <= MAX_HEADER
    requires NoTerminatorBefore(chunks, i)
    ensures FrameFrom(raw, chunks, i).Framed? ==>
      var r := FrameFrom(raw, chunks, i).raw;
      Contains(r, TERMINATOR) && |r| <= MAX_HEADER &&
      exists n: nat :: i <= n <= |chunks| && r == Received(chunks, n) && NoTerminatorBefore(chunks, n)
    ensures FrameFrom(raw, chunks, i) == PeerClosed ==>
      exists n: nat :: i <= n <= |chunks| && NoTerminatorBefore(chunks, n) &&
        !Contains(Received(chunks, n), TERMINATOR) && (n == |chunks| || chunks[n] == [])
    ensures FrameFrom(raw, chunks, i) == TooLarge ==>
      exists n: nat :: i < n <= |chunks| && |Received(chunks, n)| > MAX_HEADER &&
        NoTerminatorBefore(chunks, n)
    decreases |chunks| - i
  {
    if Contains(raw, TERMINATOR) {
      assert raw == Received(chunks, i);
    } else if i >= |chunks| || chunks[i] == [] {
    } else {
      ReceivedNext(chunks, i);
      assert NoTerminatorBefore(chunks, i + 1);
      if |raw + chunks[i]| <= MAX_HEADER {
        FrameFromMeaning(raw + chunks[i], chunks, i + 1);
      }
    }
  }

  /** The receive loop ends with the buffer of the FIRST receive that holds
      the blank line, provided no buffer before it grew past MAX_HEADER and
      the peer did not close before it. */
  lemma {:induction false} FrameStopsAtFirstTerminator(chunks: seq<string>, n: nat, raw: string, i: nat)
    requires i <= n <= |chunks| && raw == Received(chunks, i)
    requires forall m: nat :: m < n ==> chunks[m] != []
    requires NoTerminatorBefore(chunks, n) && Contains(Received(chunks, n), TERMINATOR)
    requires |Received(chunks, n)| <= MAX_HEADER
    ensures FrameFrom(raw, chunks, i) == Framed(Received(chunks, n))
    decreases n - i
  {
    if i < n {
      assert !Contains(raw, TERMINATOR);
      ReceivedNext(chunks, i);
      ReceivedLengthMonotone(chunks, i + 1, n);
      FrameStopsAtFirstTerminator(chunks, n, raw + chunks[i], i + 1);
    }
  }

  lemma {:induction false} ReceivedLengthMonotone(chunks: seq<string>, m: nat, n: nat)
    requires m <= n <= |chunks|
    ensures |Received(chunks, m)| <= |Received(chunks, n)|
    decreases n - m
  {
    if m < n {
      ReceivedNext(chunks, m);
      ReceivedLengthMonotone(chunks, m + 1, n);
    }
  }

  // ---------------------------------------------------------------------
  // The request line

  /** The header block: everything before the first blank line
      (raw.split(b"\r\n\r\n")[0]). */
  function HeaderBlock(raw: string): string {
    match IndexOf(raw, TERMINATOR)
    case Some(i) => raw[..i]
    case None => raw
  }

  /** header_block.split("\r\n"): never empty, so lines[0] always exists. */
  function HeaderLines(raw: string): (lines: seq<string>)
    ensures |lines| >= 1
  {
    Split(HeaderBlock(raw), CRLF)
  }

  datatype RequestLine = RequestLine(verb: string, target: string)

  /** The first line split on whitespace; fewer than two tokens is no request.
      The method is upper-cased and the target percent-decoded; anything after
      the second token (the protocol version) is ignored. */
  function ParseRequestLine(line: string): (r: Option<RequestLine>)
    ensures r.None? <==> |Words(line)| < 2
    ensures r.Some? ==> forall i :: 0 <= i < |r.value.verb| ==> !('a' <= r.value.verb[i] <= 'z')
  {
    var parts := Words(line);
    if |parts| < 2 then None
    else Some(RequestLine(Upper(parts[0]), Percent.Unquote(parts[1])))
  }

  lemma {:induction false} QuoteHasNoSpace(p: string)
    requires Percent.IsAscii(p)
    ensures NoSpace(Percent.Quote(p)) && (p != [] ==> Percent.Quote(p) != [])
    decreases |p|
  {
    if p != [] {
      QuoteHasNoSpace(p[1..]);
      var e := Percent.EncodeChar(p[0]);
      assert NoSpace(e) by {
        if !Percent.Unreserved(p[0]) {
          Percent.HexRoundTrip(p[0] as int / 16);
          Percent.HexRoundTrip(p[0] as int % 16);
        }
      }
      assert Percent.Quote(p) == e + Percent.Quote(p[1..]);
    }
  }

  /** A client's request line "METHOD /quoted-path VERSION" yields the method
      in upper case and exactly the path the client encoded. */
  lemma ClientRequestLine(verb: string, path: string, version: string)
    requires verb != [] && NoSpace(verb) && version != [] && NoSpace(version)
    requires path != [] && Percent.IsAscii(path)
    ensures ParseRequestLine(Join([verb, Percent.Quote(path), version], " "))
            == Some(RequestLine(Upper(verb), path))
  {
    QuoteHasNoSpace(path);
    WordsOfJoin([verb, Percent.Quote(path), version]);
    Percent.QuoteRoundTrip(path);
  }

  // ---------------------------------------------------------------------
  // The header map

  /** Index of the first colon: line.split(":", 1) splits there. */
  function FirstColon(line: string): (k: nat)
    requires ':' in line
    ensures k < |line| && line[k] == ':' && ':' !in line[..k]
  {
    if line[0] == ':' then 0
    else
      assert ':' in line[1..] by {
        var j :| 0 <= j < |line| && line[j] == ':';
        assert line[1..][j - 1] == ':';
      }
      var k := FirstColon(line[1..]) + 1;
      assert line[..k] == [line[0]] + line[1..][..k - 1];
      k
  }

  /** The map key of a header line: the text before the first colon, trimmed
      and lower-cased. */
  function Key(line: string): string
    requires ':' in line
  {
    Lower(Strip(line[..FirstColon(line)]))
  }

  /** The value of a header line: the text after the first colon, trimmed. */
  function Value(line: string): string
    requires ':' in line
  {
    Strip(line[FirstColon(line) + 1..])
  }

  /** The map the loop over lines[1:] builds: every line with a colon adds or
      overwrites the entry of its key; lines without a colon are skipped. */
  function HeaderMap(lines: seq<string>): map<string, string>
  {
    if lines == [] then map[]
    else
      var m := HeaderMap(lines[..|lines| - 1]);
      var line := lines[|lines| - 1];
      if ':' in line then m[Key(line) := Value(line)] else m
  }

  lemma HeaderMapStep(lines: seq<string>)
    requires lines != []
    ensures var line := lines[|lines| - 1];
            HeaderMap(lines) == if ':' in line then HeaderMap(lines[..|lines| - 1])[Key(line) := Value(line)]
                                else HeaderMap(lines[..|lines| - 1])
  {
  }

  /** The loop that fills req_hdrs. */
  method CollectHeaders(lines: seq<string>) returns (hdrs: map<string, string>)
    ensures hdrs == HeaderMap(lines)
  {
    hdrs := map[];
    for i := 0 to |lines|
      invariant hdrs == HeaderMap(lines[..i])
    {
      var line := lines[i];
      HeaderMapStep(lines[..i + 1]);
      assert lines[..i + 1][..i] == lines[..i];
      if ':' in line {
        hdrs := hdrs[Key(line) := Value(line)];
      }
    }
    assert lines[..|lines|] == lines;
  }

  /** Line `j` is a header line whose key is `k`. */
  predicate Defines(lines: seq<string>, j: int, k: string) {
    0 <= j < |lines| && ':' in lines[j] && Key(lines[j]) == k
  }

  /** Line `j` is the last line whose key is `k`. */
  predicate LastDefines(lines: seq<string>, j: int, k: string) {
    Defines(lines, j, k) && forall j' :: j < j' < |lines| ==> !Defines(lines, j', k)
  }

  /** A name is in the map exactly when some line defines it. */
  lemma {:induction false} HeaderMapHas(lines: seq<string>, k: string)
    ensures k in HeaderMap(lines) <==> exists j :: Defines(lines, j, k)
    decreases |lines|
  {
    if lines != [] {
      var n := |lines| - 1;
      var init := lines[..n];
      HeaderMapStep(lines);
      HeaderMapHas(init, k);
      if Defines(lines, n, k) {
        assert k in HeaderMap(lines);
      } else {
        MembershipKept(HeaderMap(init), lines[n], k);
        if j :| Defines(lines, j, k) {
          DefinesInInit(lines, j, k);
        }
        if j :| Defines(init, j, k) {
          DefinesInInit(lines, j, k);
        }
      }
    }
  }

  /** Before the last line, a line defines the same name in `lines` and in
      `lines` without its last line. */
  lemma DefinesInInit(lines: seq<string>, j: int, k: string)
    requires 0 <= j < |lines| - 1
    ensures Defines(lines, j, k) <==> Defines(lines[..|lines| - 1], j, k)
  {
    assert lines[..|lines| - 1][j] == lines[j];
  }

  /** Adding a line that does not define `k` keeps `k`'s membership. */
  lemma MembershipKept(m: map<string, string>, line: string, k: string)
    requires !(':' in line && Key(line) == k)
    ensures var m' := if ':' in line then m[Key(line) := Value(line)] else m;
            k in m' <==> k in m
  {
  }

  /** A name maps to the value of the last line that defines it: a later
      duplicate overwrites an earlier one. */
  lemma {:induction false} HeaderMapLast(lines: seq<string>, j: int, k: string)
    requires LastDefines(lines, j, k)
    ensures k in HeaderMap(lines) && HeaderMap(lines)[k] == Value(lines[j])
    decreases |lines|
  {
    var n := |lines| - 1;
    var init := lines[..n];
    HeaderMapStep(lines);
    if j < n {
      assert !Defines(lines, n, k);
      assert LastDefines(init, j, k) by {
        forall j' | j < j' < n ensures !Defines(init, j', k) {
          assert !Defines(lines, j', k);
        }
      }
      HeaderMapLast(init, j, k);
      assert init[j] == lines[j];
      KeepOtherKey(HeaderMap(init), lines[n], k);
    } else {
      assert ':' in lines[n] && Key(lines[n]) == k;
    }
  }

  /** Adding a line that does not define `k` keeps the entry of `k`. */
  lemma KeepOtherKey(m: map<string, string>, line: string, k: string)
    requires k in m && !(':' in line && Key(line) == k)
    ensures var m' := if ':' in line then m[Key(line) := Value(line)] else m;
            k in m' && m'[k] == m[k]
  {
  }

  /** The key and value of a line "Name: value" whose name has no colon. */
  lemma HeaderLine(name: string, value: string)
    requires name != [] && ':' !in name && !IsSpace(name[0]) && !IsSpace(name[|name| - 1])
    requires value == [] || (!IsSpace(value[0]) && !IsSpace(value[|value| - 1]))
    ensures ':' in name + ": " + value
    ensures Key(name + ": " + value) == Lower(name)
    ensures Value(name + ": " + value) == value
  {
    var rest := " " + value;
    assert name + ": " + value == name + (":" + rest);
    ColonAfterName(name, rest);
    StripTrimmed(name);
    SpacedValue(value);
  }

  /** The first colon of "name:rest" is the one after the name. */
  lemma ColonAfterName(name: string, rest: string)
    requires ':' !in name
    ensures var line := name + (":" + rest);
            ':' in line && FirstColon(line) == |name| &&
            line[..|name|] == name && line[|name| + 1..] == rest
  {
    var line := name + (":" + rest);
    assert line[|name|] == ':';
    assert line[..|name|] == name;
    assert line[|name| + 1..] == rest;
  }

  /** The value after ": " loses its leading space when stripped. */
  lemma SpacedValue(value: string)
    requires value == [] || (!IsSpace(value[0]) && !IsSpace(value[|value| - 1]))
    ensures Strip(" " + value) == value
  {
    assert (" " + value)[1..] == value;
    assert LStrip(" " + value) == LStrip(value);
    StripTrimmed(value);
  }
}
