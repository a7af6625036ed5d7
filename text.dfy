/** Character and string helpers shared by the request parser, the path rules
    and the response builder. A string is a sequence of characters, and every
    character stands for one byte of the wire or of a file name (the model reads
    bytes one-to-one as characters; see README). */
module Text {

  datatype Option<T> = None | Some(value: T)

  function Min(a: int, b: int): int { if a <= b then a else b }

  function Max(a: int, b: int): int { if a >= b then a else b }

  /** The ASCII characters that Python's str.split() and str.strip() treat as
      whitespace: space, \t \n \v \f \r and the separators 0x1c..0x1f. */
  predicate IsSpace(c: char) {
    var n := c as int;
    n == 32 || 9 <= n <= 13 || 28 <= n <= 31
  }

  predicate IsDigit(c: char) { '0' <= c <= '9' }

  predicate NoSpace(s: string) { forall c :: c in s ==> !IsSpace(c) }

  /** `pat` occurs in `s` starting at index `j`. */
  predicate Occurs(s: string, pat: string, j: int) {
    0 <= j && j + |pat| <= |s| && s[j..j + |pat|] == pat
  }

  /** Index of the first occurrence of a non-empty `pat` in `s` (Python's str.find). */
  function IndexOf(s: string, pat: string): (r: Option<nat>)
    requires |pat| > 0
    ensures r.Some? ==> Occurs(s, pat, r.value)
    ensures forall j :: 0 <= j < (if r.Some? then r.value else |s|) ==> !Occurs(s, pat, j)
    decreases |s|
  {
    if |s| < |pat| then None
    else if s[..|pat|] == pat then Some(0)
    else
      var rest := IndexOf(s[1..], pat);
      assert forall j :: 1 <= j && Occurs(s, pat, j) ==> Occurs(s[1..], pat, j - 1) by {
        forall j | 1 <= j && Occurs(s, pat, j) ensures Occurs(s[1..], pat, j - 1) {
          assert s[1..][j - 1..j - 1 + |pat|] == s[j..j + |pat|];
        }
      }
      match rest
      case None => None
      case Some(i) =>
        assert s[1..][i..i + |pat|] == s[i + 1..i + 1 + |pat|];
        Some(i + 1)
  }

  predicate Contains(s: string, pat: string)
    requires |pat| > 0
  {
    IndexOf(s, pat).Some?
  }

  /** If the first character of `pat` does not appear in `a`, the first
      occurrence of `pat` in `a + pat + b` is the one right after `a`. */
  lemma FirstOccurrenceAfter(a: string, pat: string, b: string)
    requires |pat| > 0 && pat[0] !in a
    ensures IndexOf(a + pat + b, pat) == Some(|a|)
  {
    var s := a + pat + b;
    assert s[|a|..|a| + |pat|] == pat;
    assert Occurs(s, pat, |a|);
  }

  /** A string that avoids the first character of `pat` does not contain it. */
  lemma AbsentFirstChar(s: string, pat: string)
    requires |pat| > 0 && pat[0] !in s
    ensures !Contains(s, pat)
  {
  }

  /** Python's sep.join(parts). */
  function Join(parts: seq<string>, sep: string): string
  {
    if |parts| == 0 then []
    else if |parts| == 1 then parts[0]
    else parts[0] + sep + Join(parts[1..], sep)
  }

  /** Python's s.split(sep) for a non-empty separator: the pieces between the
      non-overlapping occurrences of `sep`, scanning from the left. Joining
      the pieces with `sep` gives back `s`, and no piece contains `sep`. */
  function Split(s: string, sep: string): (parts: seq<string>)
    requires |sep| > 0
    ensures |parts| >= 1
    ensures Join(parts, sep) == s
    ensures forall i :: 0 <= i < |parts| ==> !Contains(parts[i], sep)
    decreases |s|
  {
    match IndexOf(s, sep)
    case None => [s]
    case Some(i) =>
      var head := s[..i];
      var rest := Split(s[i + |sep|..], sep);
      assert !Contains(head, sep) by {
        var h := IndexOf(head, sep);
        if h.Some? {
          assert head[h.value..h.value + |sep|] == s[h.value..h.value + |sep|];
          assert Occurs(s, sep, h.value);
          assert false;
        }
      }
      assert s == head + sep + s[i + |sep|..] by {
        assert s[i..i + |sep|] == sep;
      }
      [head] + rest
  }

  /** Splitting undoes joining when no piece holds the separator's first character. */
  lemma {:induction false} SplitJoin(parts: seq<string>, sep: string)
    requires |parts| >= 1 && |sep| > 0
    requires forall i :: 0 <= i < |parts| ==> sep[0] !in parts[i]
    ensures Split(Join(parts, sep), sep) == parts
    decreases |parts|
  {
    if |parts| == 1 {
      AbsentFirstChar(parts[0], sep);
    } else {
      var rest := Join(parts[1..], sep);
      FirstOccurrenceAfter(parts[0], sep, rest);
      var s := parts[0] + sep + rest;
      assert s[..|parts[0]|] == parts[0];
      assert s[|parts[0]| + |sep|..] == rest;
      SplitJoin(parts[1..], sep);
    }
  }

  /** The longest prefix of `s` without whitespace. */
  function TakeWord(s: string): (w: string)
    ensures |w| <= |s| && w == s[..|w|] && NoSpace(w)
    ensures |w| == |s| || IsSpace(s[|w|])
    decreases |s|
  {
    if s == [] || IsSpace(s[0]) then []
    else [s[0]] + TakeWord(s[1..])
  }

  /** Python's s.split() without arguments: the maximal runs of non-whitespace. */
  function Words(s: string): (ws: seq<string>)
    ensures forall i :: 0 <= i < |ws| ==> ws[i] != [] && NoSpace(ws[i])
    decreases |s|
  {
    if s == [] then []
    else if IsSpace(s[0]) then Words(s[1..])
    else
      var w := TakeWord(s);
      [w] + Words(s[|w|..])
  }

  /** A request line written as space-separated tokens is split back into them. */
  lemma {:induction false} WordsOfJoin(ws: seq<string>)
    requires forall i :: 0 <= i < |ws| ==> ws[i] != [] && NoSpace(ws[i])
    ensures Words(Join(ws, " ")) == ws
    decreases |ws|
  {
    if |ws| == 0 {
    } else {
      var rest := if |ws| == 1 then [] else " " + Join(ws[1..], " ");
      assert Join(ws, " ") == ws[0] + rest;
      TakeWordOf(ws[0], rest);
      assert (ws[0] + rest)[|ws[0]|..] == rest;
      if |ws| > 1 {
        assert rest[1..] == Join(ws[1..], " ");
        WordsOfJoin(ws[1..]);
      }
    }
  }

  lemma {:induction false} TakeWordOf(w: string, rest: string)
    requires w != [] && NoSpace(w)
    requires rest == [] || IsSpace(rest[0])
    ensures TakeWord(w + rest) == w
    decreases |w|
  {
    assert (w + rest)[1..] == w[1..] + rest;
    if |w| > 1 {
      TakeWordOf(w[1..], rest);
    }
  }

  /** Python's s.lstrip(): drop leading whitespace. */
  function LStrip(s: string): (r: string)
    ensures |r| <= |s| && r == s[|s| - |r|..]
    ensures r == [] || !IsSpace(r[0])
    ensures forall i :: 0 <= i < |s| - |r| ==> IsSpace(s[i])
    decreases |s|
  {
    if s != [] && IsSpace(s[0]) then
      var r := LStrip(s[1..]);
      assert s[1..][|s| - 1 - |r|..] == s[|s| - |r|..];
      assert forall i :: 1 <= i < |s| - |r| ==> s[i] == s[1..][i - 1];
      r
    else s
  }

  /** Python's s.rstrip(): drop trailing whitespace. */
  function RStrip(s: string): (r: string)
    ensures |r| <= |s| && r == s[..|r|]
    ensures r == [] || !IsSpace(r[|r| - 1])
    ensures forall i :: |r| <= i < |s| ==> IsSpace(s[i])
    decreases |s|
  {
    if s != [] && IsSpace(s[|s| - 1]) then RStrip(s[..|s| - 1]) else s
  }

  /** Python's s.strip(). */
  function Strip(s: string): string {
    RStrip(LStrip(s))
  }

  lemma StripTrimmed(s: string)
    requires s == [] || (!IsSpace(s[0]) && !IsSpace(s[|s| - 1]))
    ensures Strip(s) == s
  {
  }

  function LowerChar(c: char): char {
    if 'A' <= c <= 'Z' then (c as int + 32) as char else c
  }

  function UpperChar(c: char): char {
    if 'a' <= c <= 'z' then (c as int - 32) as char else c
  }

  /** Python's s.lower(), on the ASCII letters. */
  function Lower(s: string): (r: string)
    ensures |r| == |s|
  {
    seq(|s|, i requires 0 <= i < |s| => LowerChar(s[i]))
  }

  /** Python's s.upper(), on the ASCII letters. */
  function Upper(s: string): (r: string)
    ensures |r| == |s|
  {
    seq(|s|, i requires 0 <= i < |s| => UpperChar(s[i]))
  }

  predicate StartsWith(s: string, prefix: string) {
    |prefix| <= |s| && s[..|prefix|] == prefix
  }

  predicate EndsWith(s: string, suffix: string) {
    |suffix| <= |s| && s[|s| - |suffix|..] == suffix
  }

  /** Python's s.replace(pat, ""): removes the non-overlapping occurrences of
      `pat`, scanning from the left. */
  function RemoveAll(s: string, pat: string): string
    requires |pat| > 0
    decreases |s|
  {
    if s == [] then []
    else if StartsWith(s, pat) then RemoveAll(s[|pat|..], pat)
    else [s[0]] + RemoveAll(s[1..], pat)
  }

  /** A string with no occurrence of `pat` loses nothing to RemoveAll. */
  lemma {:induction false} RemoveAllAbsentPattern(s: string, pat: string)
    requires |pat| > 0 && !Contains(s, pat)
    ensures RemoveAll(s, pat) == s
    decreases |s|
  {
    if s != [] {
      assert !Occurs(s, pat, 0);
      forall j | 0 <= j < |s| - 1
        ensures !Occurs(s[1..], pat, j)
      {
        assert !Occurs(s, pat, j + 1);
        if j + |pat| <= |s| - 1 {
          assert s[1..][j..j + |pat|] == s[j + 1..j + 1 + |pat|];
        }
      }
      RemoveAllAbsentPattern(s[1..], pat);
    }
  }

  /** A character that is not part of `pat` lies inside no occurrence of it,
      so RemoveAll works on the two sides of that character separately. */
  lemma {:induction false} RemoveAllAround(x: string, c: char, y: string, pat: string)
    requires |pat| > 0 && c !in pat
    ensures RemoveAll(x + [c] + y, pat) == RemoveAll(x, pat) + [c] + RemoveAll(y, pat)
    decreases |x|
  {
    if x == [] {
      RemoveAtBreak(c, y, pat);
    } else if StartsWith(x, pat) {
      RemoveMatchBefore(x, c, y, pat);
      RemoveAllAround(x[|pat|..], c, y, pat);
    } else {
      RemoveKeptBefore(x, c, y, pat);
      RemoveAllAround(x[1..], c, y, pat);
    }
  }

  lemma RemoveAtBreak(c: char, y: string, pat: string)
    requires |pat| > 0 && c !in pat
    ensures RemoveAll([] + [c] + y, pat) == RemoveAll([], pat) + [c] + RemoveAll(y, pat)
  {
    var s := [c] + y;
    assert [] + [c] + y == s;
    assert s[0] == c && s[1..] == y;
  }

  lemma RemoveMatchBefore(x: string, c: char, y: string, pat: string)
    requires |pat| > 0 && StartsWith(x, pat)
    ensures RemoveAll(x + [c] + y, pat) == RemoveAll(x[|pat|..] + [c] + y, pat)
    ensures RemoveAll(x, pat) == RemoveAll(x[|pat|..], pat)
  {
    var s := x + [c] + y;
    assert s[..|pat|] == x[..|pat|];
    assert s[|pat|..] == x[|pat|..] + [c] + y;
  }

  lemma RemoveKeptBefore(x: string, c: char, y: string, pat: string)
    requires |pat| > 0 && c !in pat && x != [] && !StartsWith(x, pat)
    ensures RemoveAll(x + [c] + y, pat) == [x[0]] + RemoveAll(x[1..] + [c] + y, pat)
    ensures RemoveAll(x, pat) == [x[0]] + RemoveAll(x[1..], pat)
  {
    var s := x + [c] + y;
    if |pat| <= |x| {
      assert s[..|pat|] == x[..|pat|];
    } else {
      assert s[|x|] == c;
    }
    assert s[1..] == x[1..] + [c] + y;
  }

  /** Splitting at a separator whose first character `a` avoids yields `a`
      as the first piece and the split of the rest after it. */
  lemma SplitFirst(a: string, sep: string, b: string)
    requires |sep| > 0 && sep[0] !in a
    ensures Split(a + sep + b, sep) == [a] + Split(b, sep)
  {
    var s := a + sep + b;
    FirstOccurrenceAfter(a, sep, b);
    assert s[..|a|] == a;
    assert s[|a| + |sep|..] == b;
  }

  function Repeat(c: char, n: nat): (r: string)
    ensures |r| == n && forall i :: 0 <= i < n ==> r[i] == c
  {
    if n == 0 then [] else [c] + Repeat(c, n - 1)
  }

  /** The bytes of a sequence of chunks, in order. */
  function Concat(chunks: seq<string>): string
  {
    if chunks == [] then [] else chunks[0] + Concat(chunks[1..])
  }

  lemma {:induction false} ConcatAppend(a: seq<string>, b: seq<string>)
    ensures Concat(a + b) == Concat(a) + Concat(b)
    decreases |a|
  {
    if a == [] {
      assert a + b == b;
    } else {
      assert (a + b)[1..] == a[1..] + b;
      ConcatAppend(a[1..], b);
    }
  }
}
