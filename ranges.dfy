/** The two Range header readers of app.py. Both drop every "bytes=", split
    what is left at "-", and read the two sides with int(); they differ in
    what happens when a side is malformed or the "-" is missing. */
module Ranges {
  import opened Text
  import opened Numbers

  const UNIT: string := "bytes="
  const DASH: string := "-"

  /** The first and last byte offsets a response covers (both inclusive). */
  datatype Span = Span(start: int, end: int)

  /** Content-Length of a span: end - start + 1, which is zero or negative
      when the span is empty or inverted. */
  function Length(s: Span): int {
    s.end - s.start + 1
  }

  /** The pieces both readers look at. */
  function RangePieces(rangeHdr: string): (pieces: seq<string>)
    ensures |pieces| >= 1
    ensures forall i :: 0 <= i < |pieces| ==> '-' !in pieces[i]
  {
    var pieces := Split(RemoveAll(rangeHdr, UNIT), DASH);
    assert forall i :: 0 <= i < |pieces| ==> '-' !in pieces[i] by {
      forall i | 0 <= i < |pieces|
        ensures '-' !in pieces[i]
      {
        NoDashInPiece(pieces[i]);
      }
    }
    pieces
  }

  lemma NoDashInPiece(p: string)
    requires !Contains(p, DASH)
    ensures '-' !in p
  {
    if '-' in p {
      var k :| 0 <= k < |p| && p[k] == '-';
      assert Occurs(p, DASH, k);
    }
  }

  /** The fast handler's reader. Without a header the whole file: 0 to
      size - 1. A non-empty first side sets the start; a non-empty second
      side sets the end. When int() fails on the first side, neither is
      changed; when it fails on the second, the start already read stays.
      int() fails on malformed text and on more than MAX_STR_DIGITS digits. */
  function FastRange(rangeHdr: string, fileSize: nat): (r: Span)
    ensures r.start >= 0
  {
    var whole := Span(0, fileSize - 1);
    if rangeHdr == [] then whole
    else
      var rng := RangePieces(rangeHdr);
      if rng[0] != [] && ParseIntLimited(rng[0]).None? then whole
      else
        var start := if rng[0] != [] then ParseIntLimited(rng[0]).value else 0;
        if |rng| > 1 && rng[1] != [] && ParseIntLimited(rng[1]).Some? then Span(start, ParseIntLimited(rng[1]).value)
        else Span(start, fileSize - 1)
  }

  /** The download route's reader, used only for a non-empty header. None
      stands for the exception the route turns into a 500 response: int()
      failing on a non-empty side, or no "-" at all, so that the second piece
      does not exist. */
  function FlaskRange(rangeHdr: string, fileSize: nat): (r: Option<Span>)
    ensures r.Some? ==> r.value.start >= 0
  {
    var m := RangePieces(rangeHdr);
    if m[0] != [] && ParseIntLimited(m[0]).None? then None
    else if |m| < 2 then None
    else if m[1] != [] && ParseIntLimited(m[1]).None? then None
    else
      var start := if m[0] != [] then ParseIntLimited(m[0]).value else 0;
      Some(Span(start, if m[1] != [] then ParseIntLimited(m[1]).value else fileSize - 1))
  }

  /** Where the download route's reader succeeds, it reads the same span as
      the fast handler. */
  lemma FlaskAgreesWithFast(rangeHdr: string, fileSize: nat)
    requires rangeHdr != []
    ensures FlaskRange(rangeHdr, fileSize).Some? ==>
              FlaskRange(rangeHdr, fileSize).value == FastRange(rangeHdr, fileSize)
    ensures FlaskRange(rangeHdr, fileSize).None? <==>
              var m := RangePieces(rangeHdr);
              (m[0] != [] && ParseIntLimited(m[0]).None?) || |m| < 2 || (m[1] != [] && ParseIntLimited(m[1]).None?)
  {
  }

  /** No header: the whole file, with length equal to its size. */
  lemma NoHeaderWholeFile(fileSize: nat)
    ensures FastRange("", fileSize) == Span(0, fileSize - 1)
    ensures Length(FastRange("", fileSize)) == fileSize
  {
  }

  // ---------------------------------------------------------------------
  // Headers as a client writes them

  lemma {:induction false} RemoveAllAbsent(s: string, pat: string)
    requires |pat| > 0 && pat[0] !in s
    ensures RemoveAll(s, pat) == s
    decreases |s|
  {
    if s != [] {
      assert s[0] in s;
      assert forall c :: c in s[1..] ==> c in s;
      RemoveAllAbsent(s[1..], pat);
    }
  }

  lemma RemoveUnit(rest: string)
    requires 'b' !in rest
    ensures RemoveAll(UNIT + rest, UNIT) == rest
  {
    var s := UNIT + rest;
    assert StartsWith(s, UNIT) && s[|UNIT|..] == rest;
    RemoveAllAbsent(rest, UNIT);
  }

  lemma DigitsHaveNoLetters(d: string)
    requires AllDigits(d)
    ensures 'b' !in d && '-' !in d
  {
  }

  /** "bytes=a-b" as a client writes it is read as exactly the span a..b. */
  lemma ClosedRangeRead(a: nat, b: nat, fileSize: nat)
    requires WithinDigitLimit(a) && WithinDigitLimit(b)
    ensures var h := UNIT + NatToString(a) + DASH + NatToString(b);
            FastRange(h, fileSize) == Span(a, b) &&
            FlaskRange(h, fileSize) == Some(Span(a, b)) &&
            Length(FastRange(h, fileSize)) == b - a + 1
  {
    var da, db := NatToString(a), NatToString(b);
    var rest := da + DASH + db;
    DigitsHaveNoLetters(da);
    DigitsHaveNoLetters(db);
    assert 'b' !in rest;
    assert UNIT + da + DASH + db == UNIT + rest;
    RemoveUnit(rest);
    assert Join([da, db], DASH) == rest;
    SplitJoin([da, db], DASH);
    DigitsRead(a);
    DigitsRead(b);
  }

  /** "bytes=a-" is read as the span from a to the last byte. */
  lemma OpenRangeRead(a: nat, fileSize: nat)
    requires WithinDigitLimit(a)
    ensures var h := UNIT + NatToString(a) + DASH;
            FastRange(h, fileSize) == Span(a, fileSize - 1) &&
            FlaskRange(h, fileSize) == Some(Span(a, fileSize - 1))
  {
    var da := NatToString(a);
    var rest := da + DASH;
    DigitsHaveNoLetters(da);
    assert 'b' !in rest;
    assert UNIT + da + DASH == UNIT + rest;
    RemoveUnit(rest);
    assert Join([da, ""], DASH) == rest;
    SplitJoin([da, ""], DASH);
    DigitsRead(a);
  }

  /** A suffix range "bytes=-k", which section 2.1 of RFC 7233 defines as the
      last k bytes, is read as the first k + 1 bytes (offsets 0 to k). */
  lemma SuffixRangeReadAsPrefix(k: nat, fileSize: nat)
    requires WithinDigitLimit(k)
    ensures FastRange(UNIT + DASH + NatToString(k), fileSize) == Span(0, k)
  {
    var dk := NatToString(k);
    var rest := DASH + dk;
    DigitsHaveNoLetters(dk);
    assert 'b' !in rest;
    assert UNIT + DASH + dk == UNIT + rest;
    RemoveUnit(rest);
    assert Join(["", dk], DASH) == rest;
    SplitJoin(["", dk], DASH);
    DigitsRead(k);
  }

  /** A header without "-" ("bytes=5"): the fast handler reads a start and
      serves to the end of the file (the whole file when the start has too
      many digits for int()); the download route fails with 500. */
  lemma MissingDashRead(a: nat, fileSize: nat)
    ensures FastRange(UNIT + NatToString(a), fileSize)
            == if WithinDigitLimit(a) then Span(a, fileSize - 1) else Span(0, fileSize - 1)
    ensures FlaskRange(UNIT + NatToString(a), fileSize).None?
  {
    var da := NatToString(a);
    DigitsHaveNoLetters(da);
    RemoveUnit(da);
    SplitJoin([da], DASH);
    LimitedDigitsRead(a);
  }

  lemma UnitHasNoDash()
    ensures '-' !in UNIT && |UNIT| > 0
  {
  }

  /** The pieces of UNIT + x + "-" + y when x holds neither "-" nor "bytes=":
      x itself, then the pieces of y with every "bytes=" dropped. */
  lemma PiecesAfterStart(x: string, y: string)
    requires '-' !in x && !Contains(x, UNIT)
    ensures RangePieces(UNIT + x + DASH + y) == [x] + Split(RemoveAll(y, UNIT), DASH)
  {
    var rest := x + ['-'] + y;
    assert UNIT + x + DASH + y == UNIT + rest;
    assert StartsWith(UNIT + rest, UNIT) && (UNIT + rest)[|UNIT|..] == rest;
    UnitHasNoDash();
    RemoveAllAround(x, '-', y, UNIT);
    RemoveAllAbsentPattern(x, UNIT);
    SplitFirst(x, DASH, RemoveAll(y, UNIT));
  }

  /** A start int() refuses ("bytes=x-5", "bytes=1.5-", a start of more than
      MAX_STR_DIGITS digits): the fast handler keeps its defaults and serves
      the whole file, whatever follows the "-"; the download route fails
      with 500. */
  lemma MalformedStartRead(junk: string, tail: string, fileSize: nat)
    requires junk != [] && '-' !in junk && !Contains(junk, UNIT)
    requires ParseIntLimited(junk).None?
    ensures FastRange(UNIT + junk + DASH + tail, fileSize) == Span(0, fileSize - 1)
    ensures FlaskRange(UNIT + junk + DASH + tail, fileSize).None?
  {
    PiecesAfterStart(junk, tail);
  }

  /** An end int() refuses ("bytes=5-x"): the fast handler keeps the start it
      has already read and serves from there to the end of the file; the
      download route fails with 500. */
  lemma MalformedEndRead(a: nat, junk: string, fileSize: nat)
    requires WithinDigitLimit(a)
    requires junk != [] && '-' !in junk && !Contains(junk, UNIT)
    requires ParseIntLimited(junk).None?
    ensures FastRange(UNIT + NatToString(a) + DASH + junk, fileSize) == Span(a, fileSize - 1)
    ensures FlaskRange(UNIT + NatToString(a) + DASH + junk, fileSize).None?
  {
    var da := NatToString(a);
    DigitsHaveNoLetters(da);
    AbsentFirstChar(da, UNIT);
    PiecesAfterStart(da, junk);
    RemoveAllAbsentPattern(junk, UNIT);
    AbsentFirstChar(junk, DASH);
    assert Split(junk, DASH) == [junk];
    DigitsRead(a);
  }

  /** A start of more than MAX_STR_DIGITS digits is well-formed but refused
      by int(), so the fast handler serves the whole file and the download
      route fails with 500. */
  lemma LongStartRead(d: string, tail: string, fileSize: nat)
    requires AllDigits(d) && |d| > MAX_STR_DIGITS
    ensures ParseInt(d).Some?
    ensures FastRange(UNIT + d + DASH + tail, fileSize) == Span(0, fileSize - 1)
    ensures FlaskRange(UNIT + d + DASH + tail, fileSize).None?
  {
    DigitCountOfDigits(d);
    DigitsHaveNoLetters(d);
    AbsentFirstChar(d, UNIT);
    ParseDigits(d, false);
    MalformedStartRead(d, tail, fileSize);
  }

  /** A side that starts with one of the separators 0x1c..0x1f, as in
      "bytes=\x1c5-9" or "bytes=5-\x1c9", is refused by int() although
      str.strip() would drop the separator: a bad start gives the whole file,
      a bad end the span from the start to the last byte, and the download
      route fails with 500 either way. */
  lemma SeparatorSideRead(c: char, d: string, a: nat, tail: string, fileSize: nat)
    requires 28 <= c as int <= 31 && d != [] && AllDigits(d)
    requires WithinDigitLimit(a)
    ensures FastRange(UNIT + ([c] + d) + DASH + tail, fileSize) == Span(0, fileSize - 1)
    ensures FlaskRange(UNIT + ([c] + d) + DASH + tail, fileSize).None?
    ensures FastRange(UNIT + NatToString(a) + DASH + ([c] + d), fileSize) == Span(a, fileSize - 1)
    ensures FlaskRange(UNIT + NatToString(a) + DASH + ([c] + d), fileSize).None?
  {
    var junk := [c] + d;
    SeparatorRefused(c, d);
    DigitsHaveNoLetters(d);
    assert 'b' !in junk && '-' !in junk;
    AbsentFirstChar(junk, UNIT);
    MalformedStartRead(junk, tail, fileSize);
    MalformedEndRead(a, junk, fileSize);
  }

  lemma DigitsRead(n: nat)
    requires WithinDigitLimit(n)
    ensures ParseIntLimited(NatToString(n)) == Some(n)
  {
    LimitedDigitsRead(n);
  }
}
