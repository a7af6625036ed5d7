/** Decimal text: Python's str() of an integer, as the response headers print
    Content-Length and Content-Range, and Python's int() of a string, as the
    Range header is read. */
module Numbers {
  import opened Text

  function DigitChar(d: nat): char
    requires d < 10
  {
    ('0' as int + d) as char
  }

  function DigitValue(c: char): nat
    requires IsDigit(c)
  {
    c as int - '0' as int
  }

  predicate AllDigits(s: string) { forall c :: c in s ==> IsDigit(c) }

  /** str(n) for a natural number: its decimal digits, most significant first. */
  function NatToString(n: nat): (s: string)
    ensures s != [] && AllDigits(s)
  {
    if n < 10 then [DigitChar(n)] else NatToString(n / 10) + [DigitChar(n % 10)]
  }

  /** str(i) for an integer. */
  function IntToString(i: int): string {
    if i < 0 then "-" + NatToString(-i) else NatToString(i)
  }

  /** The value of a string of decimal digits. */
  function DigitsValue(s: string): nat
    requires AllDigits(s)
  {
    if s == [] then 0 else DigitsValue(s[..|s| - 1]) * 10 + DigitValue(s[|s| - 1])
  }

  /** The digit part int() accepts: digits, with single underscores allowed
      between two digits. */
  predicate DigitGroups(s: string) {
    s != [] && IsDigit(s[0]) && IsDigit(s[|s| - 1]) &&
    (forall c :: c in s ==> IsDigit(c) || c == '_') &&
    (forall i :: 0 <= i < |s| - 1 && s[i] == '_' ==> s[i + 1] != '_')
  }

  function DropUnderscores(s: string): (r: string)
    requires forall c :: c in s ==> IsDigit(c) || c == '_'
    ensures AllDigits(r)
  {
    if s == [] then []
    else (if s[0] == '_' then [] else [s[0]]) + DropUnderscores(s[1..])
  }

  /** The whitespace int() skips around ASCII text: space and \t \n \v \f \r.
      Unlike str.strip() and str.split(), it does not skip the separators
      0x1c..0x1f. */
  predicate IntSpace(c: char) { c == ' ' || '\t' <= c <= '\r' }

  function IntLStrip(s: string): (r: string)
    ensures |r| <= |s| && r == s[|s| - |r|..]
    ensures r == [] || !IntSpace(r[0])
    decreases |s|
  {
    if s != [] && IntSpace(s[0]) then
      var r := IntLStrip(s[1..]);
      assert s[1..][|s| - 1 - |r|..] == s[|s| - |r|..];
      r
    else s
  }

  function IntRStrip(s: string): (r: string)
    ensures |r| <= |s| && r == s[..|r|]
    ensures r == [] || !IntSpace(r[|r| - 1])
    decreases |s|
  {
    if s != [] && IntSpace(s[|s| - 1]) then IntRStrip(s[..|s| - 1]) else s
  }

  /** The text int() reads: `s` without the whitespace it skips at either end. */
  function IntStrip(s: string): string {
    IntRStrip(IntLStrip(s))
  }

  /** Python's int(s) in base 10 for ASCII text: the whitespace int() skips is
      ignored at either end, then one optional sign and the digit part;
      anything else is a ValueError (None). A negative value needs a minus
      sign in the text. */
  function ParseInt(s: string): (r: Option<int>)
    ensures r.Some? && r.value < 0 ==> '-' in s
  {
    var t := IntStrip(s);
    assert t != [] && t[0] == '-' ==> '-' in s by {
      if t != [] {
        var l := IntLStrip(s);
        assert t == l[..|t|] && l == s[|s| - |l|..];
        assert t[0] == s[|s| - |l|];
      }
    }
    SignedDigits(t)
  }

  /** int() of text without surrounding whitespace. */
  function SignedDigits(t: string): (r: Option<int>)
    ensures r.Some? && r.value < 0 ==> t != [] && t[0] == '-'
  {
    if t == [] then None
    else
      var digits := if t[0] == '-' || t[0] == '+' then t[1..] else t;
      if !DigitGroups(digits) then None
      else
        var v: int := DigitsValue(DropUnderscores(digits));
        Some(if t[0] == '-' then -v else v)
  }

  lemma {:induction false} NatToStringValue(n: nat)
    ensures DigitsValue(NatToString(n)) == n
  {
    var s := NatToString(n);
    if n < 10 {
      assert s[..|s| - 1] == [];
    } else {
      assert s[..|s| - 1] == NatToString(n / 10);
      NatToStringValue(n / 10);
    }
  }

  lemma {:induction false} DropUnderscoresOfDigits(s: string)
    requires AllDigits(s)
    ensures DropUnderscores(s) == s
  {
    if s != [] {
      assert s[0] in s;
      assert forall c :: c in s[1..] ==> c in s;
      DropUnderscoresOfDigits(s[1..]);
    }
  }

  lemma DigitsAreGroups(d: string)
    requires d != [] && AllDigits(d)
    ensures DigitGroups(d)
  {
    assert d[0] in d && d[|d| - 1] in d;
    forall i | 0 <= i < |d| ensures d[i] != '_' {
      assert d[i] in d;
    }
  }

  /** int() of a non-empty digit string, with or without a minus sign. */
  lemma ParseDigits(d: string, negative: bool)
    requires d != [] && AllDigits(d)
    ensures ParseInt(if negative then "-" + d else d)
            == Some(if negative then 0 - DigitsValue(d) else DigitsValue(d))
  {
    var s := if negative then "-" + d else d;
    SignedIsStripped(d, negative);
    SignedDigitsOf(d, negative);
  }

  lemma SignedIsStripped(d: string, negative: bool)
    requires d != [] && AllDigits(d)
    ensures var s := if negative then "-" + d else d;
            IntStrip(s) == s
  {
    var s := if negative then "-" + d else d;
    assert d[0] in d && d[|d| - 1] in d;
    assert s[|s| - 1] == d[|d| - 1];
    assert !IntSpace(s[0]) && !IntSpace(s[|s| - 1]);
  }

  /** int() refuses a digit string preceded by one of the separators
      0x1c..0x1f, although str.strip() would remove that separator. */
  lemma SeparatorRefused(c: char, d: string)
    requires 28 <= c as int <= 31 && d != [] && AllDigits(d)
    ensures Strip([c] + d) == d
    ensures ParseInt([c] + d).None?
  {
    SeparatorStripped(c, d);
    SeparatorKept(c, d);
  }

  lemma SeparatorStripped(c: char, d: string)
    requires 28 <= c as int <= 31 && d != [] && AllDigits(d)
    ensures Strip([c] + d) == d
  {
    assert d[0] in d && d[|d| - 1] in d;
    StripTrimmed(d);
    LStripSpace(c, d);
  }

  lemma LStripSpace(c: char, d: string)
    requires IsSpace(c)
    ensures LStrip([c] + d) == LStrip(d)
  {
    var s := [c] + d;
    assert s[1..] == d;
  }

  lemma SeparatorKept(c: char, d: string)
    requires 28 <= c as int <= 31 && d != [] && AllDigits(d)
    ensures ParseInt([c] + d).None?
  {
    var s := [c] + d;
    assert d[|d| - 1] in d && s[|s| - 1] == d[|d| - 1];
    IntStripTrimmed(s);
    NoLeadingDigit(s);
  }

  lemma IntStripTrimmed(s: string)
    requires s != [] && !IntSpace(s[0]) && !IntSpace(s[|s| - 1])
    ensures IntStrip(s) == s
  {
    assert IntLStrip(s) == s;
  }

  lemma NoLeadingDigit(t: string)
    requires t != [] && !IsDigit(t[0]) && t[0] != '-' && t[0] != '+'
    ensures SignedDigits(t).None?
  {
  }

  lemma SignedDigitsOf(d: string, negative: bool)
    requires d != [] && AllDigits(d)
    ensures SignedDigits(if negative then "-" + d else d)
            == Some(if negative then 0 - DigitsValue(d) else DigitsValue(d))
  {
    DropUnderscoresOfDigits(d);
    DigitsAreGroups(d);
    if negative {
      NegativeDigits(d);
    } else {
      PlainDigits(d);
    }
  }

  lemma NegativeDigits(d: string)
    requires d != [] && DigitGroups(d) && DropUnderscores(d) == d
    ensures SignedDigits("-" + d) == Some(0 - DigitsValue(d))
  {
    var s := "-" + d;
    assert s[0] == '-' && s[1..] == d;
  }

  lemma PlainDigits(d: string)
    requires d != [] && AllDigits(d) && DigitGroups(d) && DropUnderscores(d) == d
    ensures SignedDigits(d) == Some(DigitsValue(d))
  {
    assert d[0] in d;
    assert IsDigit(d[0]);
  }

  /** CPython's default limit on the number of digits int() converts from
      text (sys.int_info.default_max_str_digits, since Python 3.11 and the
      matching security releases of 3.7 to 3.10). */
  const MAX_STR_DIGITS: nat := 4300

  /** The number of decimal digits in `s`; int() counts these, and not the
      sign, the underscores or the surrounding whitespace, against the limit. */
  function DigitCount(s: string): (n: nat)
    ensures n <= |s|
  {
    if s == [] then 0 else (if IsDigit(s[0]) then 1 else 0) + DigitCount(s[1..])
  }

  /** int(s) as CPython runs it: ParseInt, except that text with more than
      MAX_STR_DIGITS digits is a ValueError (None) even when well-formed. */
  function ParseIntLimited(s: string): (r: Option<int>)
    ensures r.Some? ==> r == ParseInt(s)
    ensures r.None? <==> ParseInt(s).None? || DigitCount(s) > MAX_STR_DIGITS
  {
    if DigitCount(s) > MAX_STR_DIGITS then None else ParseInt(s)
  }

  /** `n` is printed with at most MAX_STR_DIGITS digits. */
  predicate WithinDigitLimit(n: nat) { |NatToString(n)| <= MAX_STR_DIGITS }

  lemma {:induction false} DigitCountOfDigits(d: string)
    requires AllDigits(d)
    ensures DigitCount(d) == |d|
  {
    if d != [] {
      assert d[0] in d;
      assert forall c :: c in d[1..] ==> c in d;
      DigitCountOfDigits(d[1..]);
    }
  }

  /** int() reads back str(n) exactly when str(n) is within the digit limit;
      a longer digit string is well-formed but refused. */
  lemma LimitedDigitsRead(n: nat)
    ensures ParseInt(NatToString(n)) == Some(n)
    ensures ParseIntLimited(NatToString(n)) == if WithinDigitLimit(n) then Some(n) else None
  {
    NatToStringValue(n);
    ParseDigits(NatToString(n), false);
    DigitCountOfDigits(NatToString(n));
  }

  /** Reading back what str() printed gives the number again: int(str(i)) == i. */
  lemma IntToStringRoundTrip(i: int)
    ensures ParseInt(IntToString(i)) == Some(i)
  {
    var n: nat := if i < 0 then -i else i;
    NatToStringValue(n);
    ParseDigits(NatToString(n), i < 0);
  }
}
