/** Path handling of app.py on a POSIX host: posixpath's join, normpath and
    dirname, the way the fast handler turns a request target into a file
    path, its access rule, and the access rule and parent link of the browse
    route. */
module Paths {
  import opened Text

  const SEP: string := "/"

  predicate IsAbs(p: string) { |p| > 0 && p[0] == '/' }

  predicate AllSlashes(p: string) { forall i :: 0 <= i < |p| ==> p[i] == '/' }

  /** raw_path.lstrip("/"): what is left never starts with a slash. */
  function LStripSlashes(s: string): (r: string)
    ensures |r| <= |s| && r == s[|s| - |r|..]
    ensures AllSlashes(s[..|s| - |r|])
    ensures !IsAbs(r)
    decreases |s|
  {
    if s != [] && s[0] == '/' then
      var r := LStripSlashes(s[1..]);
      assert s[1..][..|s| - 1 - |r|] == s[1..|s| - |r|];
      r
    else s
  }

  /** posixpath.join(a, b) for two parts. */
  function JoinPath(a: string, b: string): string {
    if IsAbs(b) then b
    else if a == [] || a[|a| - 1] == '/' then a + b
    else a + SEP + b
  }

  // ---------------------------------------------------------------------
  // posixpath.normpath

  /** The number of leading slashes normpath keeps: POSIX gives exactly two
      leading slashes an implementation-defined meaning, so "//x" keeps both
      while "/x" and "///x" keep one. */
  function LeadingSlashes(p: string): nat {
    if !IsAbs(p) then 0
    else if |p| >= 2 && p[1] == '/' && !(|p| >= 3 && p[2] == '/') then 2
    else 1
  }

  /** One component of the normpath loop: "" and "." vanish, ".." removes the
      previous component, except that a relative path keeps leading "..". */
  function Step(acc: seq<string>, comp: string, absolute: bool): seq<string> {
    if comp == "" || comp == "." then acc
    else if comp != ".." || (!absolute && acc == []) || (acc != [] && acc[|acc| - 1] == "..") then acc + [comp]
    else if acc != [] then acc[..|acc| - 1]
    else acc
  }

  function Collapse(acc: seq<string>, comps: seq<string>, absolute: bool): seq<string>
    decreases |comps|
  {
    if comps == [] then acc else Collapse(Step(acc, comps[0], absolute), comps[1..], absolute)
  }

  /** A normal list of components: none is empty, "." or holds a slash; ".."
      occurs only in relative paths and only as a leading run. */
  predicate Clean(comps: seq<string>, absolute: bool) {
    (forall i :: 0 <= i < |comps| ==>
       comps[i] != "" && comps[i] != "." && '/' !in comps[i] && (absolute ==> comps[i] != "..")) &&
    (forall j :: 0 < j < |comps| && comps[j] == ".." ==> comps[j - 1] == "..")
  }

  function Components(p: string, absolute: bool): seq<string> {
    Collapse([], Split(p, SEP), absolute)
  }

  /** posixpath.normpath(p). The result is never empty and is absolute
      exactly when `p` is. */
  function NormPath(p: string): (r: string)
    ensures r != []
    ensures IsAbs(r) <==> IsAbs(p)
  {
    if p == [] then "."
    else
      var lead := LeadingSlashes(p);
      var comps := Components(p, lead > 0);
      CollapseClean([], Split(p, SEP), lead > 0);
      var r := Repeat('/', lead) + Join(comps, SEP);
      assert lead == 0 && comps != [] ==> r[0] == comps[0][0] by {
        if lead == 0 && comps != [] {
          JoinHead(comps, SEP);
        }
      }
      if r == [] then "." else r
  }

  lemma JoinHead(parts: seq<string>, sep: string)
    requires parts != [] && parts[0] != []
    ensures Join(parts, sep) != [] && Join(parts, sep)[0] == parts[0][0]
  {
  }

  lemma {:induction false} StepClean(acc: seq<string>, comp: string, absolute: bool)
    requires Clean(acc, absolute) && '/' !in comp
    ensures Clean(Step(acc, comp, absolute), absolute)
  {
    var r := Step(acc, comp, absolute);
    if comp == "" || comp == "." {
    } else if comp != ".." || (!absolute && acc == []) || (acc != [] && acc[|acc| - 1] == "..") {
    } else if acc != [] {
      assert r == acc[..|acc| - 1];
    }
  }

  /** The normpath loop keeps its component list clean. */
  lemma {:induction false} CollapseClean(acc: seq<string>, comps: seq<string>, absolute: bool)
    requires Clean(acc, absolute)
    requires forall i :: 0 <= i < |comps| ==> !Contains(comps[i], SEP)
    ensures Clean(Collapse(acc, comps, absolute), absolute)
    decreases |comps|
  {
    if comps != [] {
      assert '/' !in comps[0] by {
        if '/' in comps[0] {
          var k :| 0 <= k < |comps[0]| && comps[0][k] == '/';
          assert Occurs(comps[0], SEP, k);
        }
      }
      StepClean(acc, comps[0], absolute);
      CollapseClean(Step(acc, comps[0], absolute), comps[1..], absolute);
    }
  }

  /** On a clean list the normpath loop changes nothing. */
  lemma {:induction false} CollapseOfClean(acc: seq<string>, comps: seq<string>, absolute: bool)
    requires Clean(acc + comps, absolute)
    ensures Collapse(acc, comps, absolute) == acc + comps
    decreases |comps|
  {
    if comps != [] {
      var c := comps[0];
      assert (acc + comps)[|acc|] == c;
      if c == ".." && acc != [] {
        assert (acc + comps)[|acc| - 1] == "..";
      }
      assert Step(acc, c, absolute) == acc + [c];
      assert acc + [c] + comps[1..] == acc + comps;
      CollapseOfClean(acc + [c], comps[1..], absolute);
    }
  }

  function EmptyParts(n: nat): seq<string>
    ensures |EmptyParts(n)| == n
  {
    if n == 0 then [] else [""] + EmptyParts(n - 1)
  }

  lemma {:induction false} CollapseSkipsEmpty(acc: seq<string>, n: nat, comps: seq<string>, absolute: bool)
    ensures Collapse(acc, EmptyParts(n) + comps, absolute) == Collapse(acc, comps, absolute)
    decreases n
  {
    if n > 0 {
      var all := EmptyParts(n) + comps;
      assert all == [""] + (EmptyParts(n - 1) + comps);
      assert all[0] == "" && all[1..] == EmptyParts(n - 1) + comps;
      assert Step(acc, "", absolute) == acc;
      assert Collapse(acc, all, absolute) == Collapse(acc, EmptyParts(n - 1) + comps, absolute);
      CollapseSkipsEmpty(acc, n - 1, comps, absolute);
    } else {
      assert EmptyParts(n) + comps == comps;
    }
  }

  lemma {:induction false} SplitLeadingSlashes(n: nat, rest: string)
    ensures Split(Repeat('/', n) + rest, SEP) == EmptyParts(n) + Split(rest, SEP)
    decreases n
  {
    if n > 0 {
      var tail := Repeat('/', n - 1) + rest;
      var s := Repeat('/', n) + rest;
      assert s == [] + SEP + tail;
      FirstOccurrenceAfter([], SEP, tail);
      assert s[..0] == "" && s[1..] == tail;
      assert Split(s, SEP) == [""] + Split(tail, SEP);
      SplitLeadingSlashes(n - 1, rest);
      assert EmptyParts(n) + Split(rest, SEP) == [""] + (EmptyParts(n - 1) + Split(rest, SEP));
    } else {
      assert Repeat('/', n) + rest == rest;
      assert EmptyParts(n) + Split(rest, SEP) == Split(rest, SEP);
    }
  }

  /** A path written as `lead` slashes (0, 1 or 2) followed by a clean,
      non-empty list of components is already in normal form. */
  lemma NormPathOfClean(lead: nat, comps: seq<string>)
    requires lead <= 2 && comps != [] && Clean(comps, lead > 0)
    ensures NormPath(Repeat('/', lead) + Join(comps, SEP)) == Repeat('/', lead) + Join(comps, SEP)
  {
    var body := Join(comps, SEP);
    var r := Repeat('/', lead) + body;
    JoinHead(comps, SEP);
    assert comps[0][0] in comps[0];
    LeadingOfRepeat(lead, body);
    SplitOfClean(lead, comps);
    CollapseSkipsEmpty([], lead, comps, lead > 0);
    CollapseOfClean([], comps, lead > 0);
    assert [] + comps == comps;
  }

  lemma LeadingOfRepeat(lead: nat, body: string)
    requires lead <= 2 && body != [] && body[0] != '/'
    ensures LeadingSlashes(Repeat('/', lead) + body) == lead
  {
    var r := Repeat('/', lead) + body;
    assert r[lead] == body[0];
  }

  lemma SplitOfClean(lead: nat, comps: seq<string>)
    requires comps != [] && Clean(comps, lead > 0)
    ensures Split(Repeat('/', lead) + Join(comps, SEP), SEP) == EmptyParts(lead) + comps
  {
    assert forall i :: 0 <= i < |comps| ==> SEP[0] !in comps[i];
    SplitJoin(comps, SEP);
    SplitLeadingSlashes(lead, Join(comps, SEP));
  }

  /** The shape of normpath's result: its leading slashes followed by the
      collapsed components, or ".", "/" or "//" when none are left. */
  lemma NormPathShape(p: string)
    requires p != []
    ensures var lead := LeadingSlashes(p);
            var comps := Components(p, lead > 0);
            lead <= 2 && Clean(comps, lead > 0) &&
            NormPath(p) == (if lead == 0 && comps == [] then "." else Repeat('/', lead) + Join(comps, SEP))
  {
    CollapseClean([], Split(p, SEP), LeadingSlashes(p) > 0);
  }

  /** normpath is idempotent: a normalised path is its own normal form. */
  lemma NormPathIdempotent(p: string)
    ensures NormPath(NormPath(p)) == NormPath(p)
  {
    if p != [] {
      NormPathShape(p);
      var lead := LeadingSlashes(p);
      var comps := Components(p, lead > 0);
      if comps == [] {
        DotAndRootsAreNormal();
      } else {
        NormPathOfClean(lead, comps);
      }
    } else {
      DotAndRootsAreNormal();
    }
  }

  lemma DotAndRootsAreNormal()
    ensures NormPath(".") == "." && NormPath("/") == "/" && NormPath("//") == "//"
  {
    DotIsNormal();
    SlashesAreNormal(1);
    SlashesAreNormal(2);
    assert Repeat('/', 1) == "/" && Repeat('/', 2) == "//";
  }

  lemma DotIsNormal()
    ensures NormPath(".") == "."
  {
    SplitJoin(["."], SEP);
  }

  /** One or two slashes are their own normal form. */
  lemma SlashesAreNormal(n: nat)
    requires 1 <= n <= 2
    ensures NormPath(Repeat('/', n)) == Repeat('/', n)
  {
    assert Join([""], SEP) == "";
    SplitLeadingSlashes(n, "");
    SplitJoin([""], SEP);
    assert Repeat('/', n) + "" == Repeat('/', n);
    CollapseSkipsEmpty([], n, [""], true);
  }

  // ---------------------------------------------------------------------
  // Segments: what a path names, as a list of directory entries

  function NonEmpty(parts: seq<string>): seq<string> {
    if parts == [] then []
    else (if parts[0] == "" then [] else [parts[0]]) + NonEmpty(parts[1..])
  }

  /** The non-empty components of a path: "/srv/share/" and "/srv//share"
      both name ["srv", "share"]. */
  function Segments(p: string): seq<string> {
    NonEmpty(Split(p, SEP))
  }

  predicate IsPrefix(a: seq<string>, b: seq<string>) {
    |a| <= |b| && b[..|a|] == a
  }

  lemma {:induction false} NonEmptyAppend(a: seq<string>, b: seq<string>)
    ensures NonEmpty(a + b) == NonEmpty(a) + NonEmpty(b)
    decreases |a|
  {
    if a == [] {
      assert a + b == b;
    } else {
      assert (a + b)[1..] == a[1..] + b;
      NonEmptyAppend(a[1..], b);
    }
  }

  lemma {:induction false} NonEmptyOfClean(comps: seq<string>, absolute: bool)
    requires Clean(comps, absolute)
    ensures NonEmpty(comps) == comps
    decreases |comps|
  {
    if comps != [] {
      NonEmptyOfClean(comps[1..], absolute);
    }
  }

  lemma {:induction false} NonEmptyOfEmptyParts(n: nat)
    ensures NonEmpty(EmptyParts(n)) == []
    decreases n
  {
    if n > 0 {
      NonEmptyOfEmptyParts(n - 1);
    }
  }

  lemma SplitAtFirst(s: string, i: nat)
    requires IndexOf(s, SEP) == Some(i)
    ensures Split(s, SEP) == [s[..i]] + Split(s[i + 1..], SEP)
  {
  }

  lemma SplitWhole(s: string)
    requires IndexOf(s, SEP).None?
    ensures Split(s, SEP) == [s]
  {
  }

  lemma SplitAroundPlain(a: string, b: string)
    requires IndexOf(a, SEP).None?
    ensures Split(a + (SEP + b), SEP) == Split(a, SEP) + Split(b, SEP)
  {
    SplitWhole(a);
    var s := a + (SEP + b);
    assert s == a + SEP + b;
    assert SEP[0] !in a by {
      if SEP[0] in a {
        var k :| 0 <= k < |a| && a[k] == '/';
        assert Occurs(a, SEP, k);
      }
    }
    FirstOccurrenceAfter(a, SEP, b);
    SplitAtFirst(s, |a|);
    assert s[..|a|] == a && s[|a| + 1..] == b;
  }

  /** Splitting at a separator splits the two sides independently. */
  lemma {:induction false} SplitAround(a: string, b: string)
    ensures Split(a + (SEP + b), SEP) == Split(a, SEP) + Split(b, SEP)
    decreases |a|
  {
    var first := IndexOf(a, SEP);
    if first.None? {
      SplitAroundPlain(a, b);
    } else {
      var i := first.value;
      var tail := a[i + 1..];
      assert |tail| < |a|;
      SplitAround(tail, b);
      SplitAroundStep(a, b, i);
    }
  }

  lemma SplitAroundStep(a: string, b: string, i: nat)
    requires IndexOf(a, SEP) == Some(i)
    requires Split(a[i + 1..] + (SEP + b), SEP) == Split(a[i + 1..], SEP) + Split(b, SEP)
    ensures Split(a + (SEP + b), SEP) == Split(a, SEP) + Split(b, SEP)
  {
    SplitPrefixed(a, SEP + b, i);
    SplitAtFirst(a, i);
    AppendAssoc([a[..i]], Split(a[i + 1..], SEP), Split(b, SEP));
  }

  lemma AppendAssoc(h: seq<string>, p: seq<string>, q: seq<string>)
    ensures h + (p + q) == (h + p) + q
  {
  }

  lemma SplitPrefixed(a: string, x: string, i: nat)
    requires IndexOf(a, SEP) == Some(i)
    ensures Split(a + x, SEP) == [a[..i]] + Split(a[i + 1..] + x, SEP)
  {
    FirstSlashExtends(a, x, i);
    PrefixedParts(a, x, i);
    SplitRewrite(a + x, a[..i], a[i + 1..] + x, i);
  }

  lemma PrefixedParts(a: string, x: string, i: nat)
    requires i < |a|
    ensures (a + x)[..i] == a[..i] && (a + x)[i + 1..] == a[i + 1..] + x
  {
  }

  lemma SplitRewrite(s: string, head: string, tail: string, i: nat)
    requires IndexOf(s, SEP) == Some(i) && s[..i] == head && s[i + 1..] == tail
    ensures Split(s, SEP) == [head] + Split(tail, SEP)
  {
    SplitAtFirst(s, i);
  }

  lemma FirstSlashExtends(a: string, x: string, i: nat)
    requires IndexOf(a, SEP) == Some(i)
    ensures IndexOf(a + x, SEP) == Some(i)
  {
    var s := a + x;
    assert s[i..i + 1] == a[i..i + 1];
    forall j | 0 <= j < i
      ensures !Occurs(s, SEP, j)
    {
      assert s[j..j + 1] == a[j..j + 1];
      assert !Occurs(a, SEP, j);
    }
    assert Occurs(s, SEP, i);
    match IndexOf(s, SEP)
    case None =>
      assert false;
    case Some(k) =>
      assert k <= i;
      assert !(k < i);
  }

  /** The segments of a normalised absolute path are exactly the components
      the normpath loop kept, so none of them is "." or "..". */
  lemma NormPathSegments(p: string)
    requires IsAbs(p)
    ensures Segments(NormPath(p)) == Components(p, true)
    ensures forall i :: 0 <= i < |Segments(NormPath(p))| ==>
              Segments(NormPath(p))[i] != ".." && Segments(NormPath(p))[i] != "."
  {
    NormPathShape(p);
    var lead := LeadingSlashes(p);
    var comps := Components(p, true);
    var body := Join(comps, SEP);
    SplitLeadingSlashes(lead, body);
    NonEmptyAppend(EmptyParts(lead), Split(body, SEP));
    NonEmptyOfEmptyParts(lead);
    if comps == [] {
      assert Split(body, SEP) == [""];
    } else {
      assert forall i :: 0 <= i < |comps| ==> SEP[0] !in comps[i];
      SplitJoin(comps, SEP);
      NonEmptyOfClean(comps, true);
    }
  }

  // ---------------------------------------------------------------------
  // The fast handler: request target to file path, and its access rule

  /** The file path the fast handler serves for a decoded request target:
      leading slashes are dropped; a drive-letter form ("C:...") or an
      absolute remainder is only normalised; anything else is taken relative
      to the shared directory. The result is always in normal form; below an
      absolute shared directory it is absolute and names no "." or ".."
      entry, which is what the prefix check compares. */
  function Resolve(target: string, sharedDir: string): (filepath: string)
    ensures NormPath(filepath) == filepath
    ensures IsAbs(sharedDir) && !DriveForm(LStripSlashes(target)) ==>
              IsAbs(filepath) &&
              forall i :: 0 <= i < |Segments(filepath)| ==>
                Segments(filepath)[i] != "." && Segments(filepath)[i] != ".."
    ensures !IsAbs(sharedDir) && !DriveForm(LStripSlashes(target)) ==> !IsAbs(filepath)
  {
    var fp := LStripSlashes(target);
    var p := if DriveForm(fp) || IsAbs(fp) then fp else JoinPath(sharedDir, fp);
    ResolvedNormal(fp, sharedDir, p);
    NormPath(p)
  }

  lemma ResolvedNormal(fp: string, sharedDir: string, p: string)
    requires !IsAbs(fp)
    requires p == if DriveForm(fp) || IsAbs(fp) then fp else JoinPath(sharedDir, fp)
    ensures NormPath(NormPath(p)) == NormPath(p)
    ensures IsAbs(sharedDir) && !DriveForm(fp) ==>
              IsAbs(NormPath(p)) &&
              forall i :: 0 <= i < |Segments(NormPath(p))| ==>
                Segments(NormPath(p))[i] != "." && Segments(NormPath(p))[i] != ".."
    ensures !IsAbs(sharedDir) && !DriveForm(fp) ==> !IsAbs(NormPath(p))
  {
    NormPathIdempotent(p);
    if IsAbs(p) {
      NormPathSegments(p);
    }
  }

  /** A Windows drive-letter form: a second character ":". */
  predicate DriveForm(fp: string) { |fp| >= 2 && fp[1] == ':' }

  /** The target, with its leading slashes dropped, is always read relative to
      the shared directory unless it is a drive-letter form. */
  lemma ResolveRelative(target: string, sharedDir: string)
    requires !DriveForm(LStripSlashes(target))
    ensures Resolve(target, sharedDir) == NormPath(JoinPath(sharedDir, LStripSlashes(target)))
  {
  }

  /** The fast handler's access rule as written: the file path must start,
      as a string, with the normalised shared directory or home directory. */
  predicate FastAllowed(filepath: string, sharedDir: string, home: string) {
    StartsWith(filepath, NormPath(sharedDir)) || StartsWith(filepath, NormPath(home))
  }

  /** `path` is `root` itself or lies below it: the prefix test made
      separator-aware. */
  predicate WithinRoot(path: string, root: string) {
    path == root || StartsWith(path, if EndsWith(root, SEP) then root else root + SEP)
  }

  /** The access rule the fast handler evidently intends: the served file lies
      inside the shared directory or inside the home directory. */
  predicate ConfinedAllowed(filepath: string, sharedDir: string, home: string) {
    WithinRoot(filepath, NormPath(sharedDir)) || WithinRoot(filepath, NormPath(home))
  }

  /** A path within a root names the root's entries first: its segments
      extend the root's segments. */
  lemma WithinRootSegments(path: string, root: string)
    requires WithinRoot(path, root)
    ensures IsPrefix(Segments(root), Segments(path))
  {
    if path == root {
      PrefixOfAppend(Segments(root), []);
      assert Segments(root) + [] == Segments(root);
    } else if EndsWith(root, SEP) {
      BelowSlashRoot(path, root);
    } else {
      BelowPlainRoot(path, root);
    }
  }

  lemma BelowSlashRoot(path: string, root: string)
    requires EndsWith(root, SEP) && StartsWith(path, root)
    ensures IsPrefix(Segments(root), Segments(path))
  {
    var r0 := root[..|root| - 1];
    var rest := path[|root|..];
    assert root == r0 + (SEP + "");
    assert path == r0 + (SEP + rest);
    SegmentsBelowSlashRoot(r0, rest);
  }

  lemma BelowPlainRoot(path: string, root: string)
    requires StartsWith(path, root + SEP)
    ensures IsPrefix(Segments(root), Segments(path))
  {
    var rest := path[|root| + 1..];
    assert path == root + (SEP + rest);
    SegmentsAround(root, rest);
    PrefixOfAppend(Segments(root), Segments(rest));
  }

  lemma SegmentsBelowSlashRoot(r0: string, rest: string)
    ensures IsPrefix(Segments(r0 + (SEP + "")), Segments(r0 + (SEP + rest)))
  {
    SegmentsAround(r0, "");
    SegmentsAround(r0, rest);
    assert Split("", SEP) == [""];
    assert [""][1..] == [];
    assert Segments("") == [];
    assert Segments(r0) + [] == Segments(r0);
    PrefixOfAppend(Segments(r0), Segments(rest));
  }

  lemma PrefixOfAppend(a: seq<string>, b: seq<string>)
    ensures IsPrefix(a, a + b)
  {
    assert (a + b)[..|a|] == a;
  }

  lemma SegmentsAround(a: string, b: string)
    ensures Segments(a + (SEP + b)) == Segments(a) + Segments(b)
  {
    SplitAround(a, b);
    NonEmptyAppend(Split(a, SEP), Split(b, SEP));
  }

  /** The corrected rule confines the fast handler: a file it lets through is
      named by the segments of the shared or home directory followed by
      further segments, none of which climbs back up with "..". */
  lemma ConfinedAllowedMeaning(target: string, sharedDir: string, home: string)
    requires IsAbs(sharedDir)
    requires ConfinedAllowed(Resolve(target, sharedDir), sharedDir, home)
    ensures var f := Resolve(target, sharedDir);
            (IsPrefix(Segments(NormPath(sharedDir)), Segments(f)) ||
             IsPrefix(Segments(NormPath(home)), Segments(f)))
    ensures !DriveForm(LStripSlashes(target)) ==>
              forall i :: 0 <= i < |Segments(Resolve(target, sharedDir))| ==>
                Segments(Resolve(target, sharedDir))[i] != ".."
  {
    var f := Resolve(target, sharedDir);
    if WithinRoot(f, NormPath(sharedDir)) {
      WithinRootSegments(f, NormPath(sharedDir));
    } else {
      WithinRootSegments(f, NormPath(home));
    }
  }

  /** As written, the fast handler's prefix test lets a request reach a
      sibling of the shared directory whose name merely starts with the
      shared directory's name: with "/srv/share" shared, the target
      "/../share.tar" resolves to "/srv/share.tar", which the prefix test
      accepts although it is not inside "/srv/share". */
  lemma SiblingPassesPrefixCheck(cs: seq<string>, x: string, home: string)
    requires cs != [] && Clean(cs, true)
    requires x != [] && '/' !in x
    ensures var root := "/" + Join(cs, SEP);
            var target := "/../" + cs[|cs| - 1] + x;
            Resolve(target, root) == root + x &&
            FastAllowed(root + x, root, home) &&
            !WithinRoot(root + x, NormPath(root))
  {
    var root := "/" + Join(cs, SEP);
    ResolveSibling(cs, x);
    assert Repeat('/', 1) == "/";
    NormPathOfClean(1, cs);
    RootNoTrailingSlash(cs);
    assert x[0] in x;
    PrefixNotWithin(root, x, home);
  }

  /** A name that extends the root's last component passes the prefix test
      but is not within the root. */
  lemma PrefixNotWithin(root: string, x: string, home: string)
    requires NormPath(root) == root && root != [] && root[|root| - 1] != '/'
    requires x != [] && x[0] != '/'
    ensures FastAllowed(root + x, root, home) && !WithinRoot(root + x, NormPath(root))
  {
    ExtendsLastName(root, x);
  }

  lemma ExtendsLastName(root: string, x: string)
    requires root != [] && root[|root| - 1] != '/'
    requires x != [] && x[0] != '/'
    ensures StartsWith(root + x, root) && !WithinRoot(root + x, root)
  {
    assert (root + x)[..|root|] == root;
    assert (root + x)[|root|] == x[0];
    assert |root + x| > |root|;
  }

  /** The target "/../<last component><x>" resolves to the sibling of the
      shared directory named by the last component followed by `x`. */
  lemma ResolveSibling(cs: seq<string>, x: string)
    requires cs != [] && Clean(cs, true)
    requires x != [] && '/' !in x
    ensures Resolve("/../" + cs[|cs| - 1] + x, "/" + Join(cs, SEP)) == "/" + Join(cs, SEP) + x
  {
    var n := |cs|;
    var last := cs[n - 1];
    var name := last + x;
    var root := "/" + Join(cs, SEP);
    assert last != [] && '/' !in last && last != ".";
    ExtendedNameClean(last, x);
    StripSibling(last, x);
    ResolveParentRelative("/../" + last + x, root, name);
    RootNoTrailingSlash(cs);
    JoinedSibling(cs, name);
    CleanReplaceLast(cs, name);
    NormPathClimb(cs, name);
    JoinExtendLast(cs, x);
    StringAssoc("/", Join(cs, SEP), x);
  }

  lemma ResolveParentRelative(target: string, root: string, name: string)
    requires LStripSlashes(target) == "../" + name
    ensures Resolve(target, root) == NormPath(JoinPath(root, "../" + name))
  {
  }

  lemma ExtendedNameClean(last: string, x: string)
    requires last != [] && '/' !in last && last != "."
    requires x != [] && '/' !in x
    ensures var name := last + x; name != "" && name != "." && name != ".." && '/' !in name
  {
    var name := last + x;
    assert forall c :: c in name ==> c in last || c in x;
    assert name[0] == last[0];
  }

  lemma CleanReplaceLast(cs: seq<string>, name: string)
    requires cs != [] && Clean(cs, true)
    requires name != "" && name != "." && name != ".." && '/' !in name
    ensures Clean(cs[..|cs| - 1] + [name], true)
  {
    var moved := cs[..|cs| - 1] + [name];
    assert forall i :: 0 <= i < |cs| - 1 ==> moved[i] == cs[i];
    assert moved[|cs| - 1] == name;
  }

  lemma StripSibling(last: string, x: string)
    ensures LStripSlashes("/../" + last + x) == "../" + (last + x)
  {
    var target := "/../" + last + x;
    assert target[1..] == "../" + (last + x);
  }

  lemma RootNoTrailingSlash(cs: seq<string>)
    requires cs != [] && cs[|cs| - 1] != [] && '/' !in cs[|cs| - 1]
    ensures var root := "/" + Join(cs, SEP); root[|root| - 1] != '/'
  {
    var last := cs[|cs| - 1];
    JoinTail(cs, SEP);
    assert last[|last| - 1] in last;
  }

  lemma JoinedSibling(cs: seq<string>, name: string)
    requires cs != []
    requires var root := "/" + Join(cs, SEP); root[|root| - 1] != '/'
    ensures JoinPath("/" + Join(cs, SEP), "../" + name) == "/" + Join(cs + ["..", name], SEP)
  {
    var j := Join(cs, SEP);
    JoinSnoc(cs, "..");
    assert cs + ["..", name] == (cs + [".."]) + [name];
    JoinSnoc(cs + [".."], name);
    assert "/" + j + SEP + ("../" + name) == "/" + (j + SEP + ".." + SEP + name);
  }

  /** normpath of "/a/b/../c" is "/a/c": ".." removes the last component. */
  lemma NormPathClimb(cs: seq<string>, name: string)
    requires cs != [] && Clean(cs, true)
    requires Clean(cs[..|cs| - 1] + [name], true)
    ensures NormPath("/" + Join(cs + ["..", name], SEP)) == "/" + Join(cs[..|cs| - 1] + [name], SEP)
  {
    var all := cs + ["..", name];
    ClimbNoSlash(cs, name);
    NormPathAbsJoin(all);
    CollapseClimbAll(cs, name);
  }

  lemma ClimbNoSlash(cs: seq<string>, name: string)
    requires cs != [] && Clean(cs, true)
    requires Clean(cs[..|cs| - 1] + [name], true)
    ensures var all := cs + ["..", name];
            all[0] != [] && forall i :: 0 <= i < |all| ==> '/' !in all[i]
  {
    var all := cs + ["..", name];
    var moved := cs[..|cs| - 1] + [name];
    assert moved[|moved| - 1] == name;
    assert all[0] == cs[0];
    forall i | 0 <= i < |all| ensures '/' !in all[i] {
      if i < |cs| { assert all[i] == cs[i]; }
    }
  }

  lemma CollapseClimbAll(cs: seq<string>, name: string)
    requires cs != [] && Clean(cs, true)
    requires Clean(cs[..|cs| - 1] + [name], true)
    ensures Collapse([], cs + ["..", name], true) == cs[..|cs| - 1] + [name]
  {
    var moved := cs[..|cs| - 1] + [name];
    assert moved[|moved| - 1] == name;
    CollapseAppend([], cs, ["..", name], true);
    CollapseOfClean([], cs, true);
    assert [] + cs == cs;
    CollapseClimb(cs, name);
  }

  /** normpath of "/" followed by slash-free components joined with "/" is
      "/" followed by the collapsed components. */
  lemma NormPathAbsJoin(all: seq<string>)
    requires all != [] && all[0] != []
    requires forall i :: 0 <= i < |all| ==> '/' !in all[i]
    ensures NormPath("/" + Join(all, SEP)) == "/" + Join(Collapse([], all, true), SEP)
  {
    var body := Join(all, SEP);
    assert Repeat('/', 1) == "/";
    JoinHead(all, SEP);
    assert all[0][0] in all[0];
    LeadingOfRepeat(1, body);
    SplitJoinComps(all);
    SplitLeadingSlashes(1, body);
    CollapseSkipsEmpty([], 1, all, true);
  }

  lemma CollapseClimb(cs: seq<string>, name: string)
    requires cs != [] && Clean(cs, true)
    requires name != ".." && name != "." && name != ""
    ensures Collapse(cs, ["..", name], true) == cs[..|cs| - 1] + [name]
  {
    assert ["..", name][1..] == [name];
    assert Step(cs, "..", true) == cs[..|cs| - 1];
    assert Collapse(cs[..|cs| - 1], [name], true) == cs[..|cs| - 1] + [name];
  }

  lemma SplitJoinComps(comps: seq<string>)
    requires comps != [] && forall i :: 0 <= i < |comps| ==> '/' !in comps[i]
    ensures Split(Join(comps, SEP), SEP) == comps
  {
    SplitJoin(comps, SEP);
  }

  lemma {:induction false} JoinTail(parts: seq<string>, sep: string)
    requires parts != [] && parts[|parts| - 1] != []
    ensures Join(parts, sep) != [] &&
            Join(parts, sep)[|Join(parts, sep)| - 1] == parts[|parts| - 1][|parts[|parts| - 1]| - 1]
    decreases |parts|
  {
    if |parts| > 1 {
      JoinTail(parts[1..], sep);
    }
  }

  lemma {:induction false} JoinSnoc(parts: seq<string>, c: string)
    requires parts != []
    ensures Join(parts + [c], SEP) == Join(parts, SEP) + SEP + c
    decreases |parts|
  {
    if |parts| == 1 {
      assert parts + [c] == [parts[0], c];
    } else {
      assert (parts + [c])[1..] == parts[1..] + [c];
      JoinSnoc(parts[1..], c);
    }
  }

  lemma JoinExtendLast(cs: seq<string>, x: string)
    requires cs != []
    ensures Join(cs[..|cs| - 1] + [cs[|cs| - 1] + x], SEP) == Join(cs, SEP) + x
  {
    var n := |cs|;
    var init := cs[..n - 1];
    var l := cs[n - 1];
    if n == 1 {
      assert init + [l + x] == [l + x];
    } else {
      InitLast(cs);
      JoinSnoc(init, l + x);
      JoinSnoc(init, l);
      StringAssoc(Join(init, SEP) + SEP, l, x);
    }
  }

  lemma InitLast(cs: seq<string>)
    requires cs != []
    ensures cs[..|cs| - 1] + [cs[|cs| - 1]] == cs
  {
  }

  lemma StringAssoc(a: string, b: string, c: string)
    ensures a + (b + c) == a + b + c
  {
  }

  lemma {:induction false} CollapseAppend(acc: seq<string>, a: seq<string>, b: seq<string>, absolute: bool)
    ensures Collapse(acc, a + b, absolute) == Collapse(Collapse(acc, a, absolute), b, absolute)
    decreases |a|
  {
    if a == [] {
      assert a + b == b;
    } else {
      assert (a + b)[0] == a[0] && (a + b)[1..] == a[1..] + b;
      CollapseAppend(Step(acc, a[0], absolute), a[1..], b, absolute);
    }
  }

  // ---------------------------------------------------------------------
  // The browse route: its access rule and the parent link

  /** The browse route's test for the shared directory ("" when none is
      set): the directory is the normalised shared directory itself or starts
      with it followed by a separator. */
  predicate InShared(directory: string, sharedDir: string) {
    sharedDir != [] &&
    (directory == NormPath(sharedDir) || StartsWith(directory, NormPath(sharedDir) + SEP))
  }

  /** The browse route's access rule: inside the shared directory, or, when
      not running on a cloud host, starting with the home directory. */
  predicate BrowseAllowed(directory: string, sharedDir: string, home: string, isCloud: bool) {
    InShared(directory, sharedDir) || (!isCloud && StartsWith(directory, home))
  }

  /** The browse test for the shared directory agrees with the
      separator-aware rule, except for a shared directory that normalises to
      "/" or "//": below it, the test admits only paths that start with two
      slashes, which normpath keeps as they are. */
  lemma InSharedIsWithinRoot(directory: string, sharedDir: string)
    requires sharedDir != []
    ensures InShared(directory, sharedDir) ==> WithinRoot(directory, NormPath(sharedDir))
    ensures !EndsWith(NormPath(sharedDir), SEP) ==>
              (WithinRoot(directory, NormPath(sharedDir)) ==> InShared(directory, sharedDir))
  {
    var root := NormPath(sharedDir);
    if InShared(directory, sharedDir) && directory != root {
      assert StartsWith(directory, root + SEP);
      if EndsWith(root, SEP) {
        assert directory[..|root|] == (root + SEP)[..|root|];
      }
    }
  }

  /** Unlike the fast handler, the browse route refuses a sibling of the
      shared directory whose name merely starts with the shared directory's
      name. */
  lemma BrowseRefusesSibling(sharedDir: string, x: string)
    requires sharedDir != [] && x != [] && x[0] != '/'
    ensures !InShared(NormPath(sharedDir) + x, sharedDir)
  {
    var root := NormPath(sharedDir);
    assert (root + x)[|root|] == x[0];
    assert |root + x| > |root|;
  }

  /** With "/" as the shared directory, the shared-directory test refuses
      every directory written with a single leading slash, such as "/srv",
      although it lies below the root; the same directory written "//srv",
      which normpath leaves unchanged, passes. */
  lemma BrowseRootShareQuirk(name: string)
    requires name != [] && '/' !in name
    ensures !InShared("/" + name, "/")
    ensures WithinRoot("/" + name, NormPath("/"))
    ensures InShared("//" + name, "/")
  {
    DotAndRootsAreNormal();
    SingleSlashRefused(name);
    DoubleSlashAdmitted(name);
  }

  lemma SingleSlashRefused(name: string)
    requires name != [] && '/' !in name && NormPath("/") == "/"
    ensures !InShared("/" + name, "/")
    ensures WithinRoot("/" + name, "/")
  {
    assert name[0] in name;
    assert ("/" + name)[1] == name[0];
  }

  lemma DoubleSlashAdmitted(name: string)
    requires NormPath("/") == "/"
    ensures InShared("//" + name, "/")
  {
    assert ("//" + name)[..2] == "//";
  }

  /** The browse rule app.py:478-480 aims at, by testing for the shared
      directory itself or for it followed by a separator: the directory is
      the shared directory or lies below it. Unlike the written test,
      WithinRoot adds no second separator to a root that already ends in
      one, so a shared "/" admits its subdirectories. */
  predicate ConfinedBrowseAllowed(directory: string, sharedDir: string, home: string, isCloud: bool) {
    (sharedDir != [] && WithinRoot(directory, NormPath(sharedDir))) || (!isCloud && StartsWith(directory, home))
  }

  /** The corrected browse rule admits exactly what the written one admits
      when the shared directory is not the file system root, plus the
      directories below "/" when "/" is shared; everything it admits through
      the shared directory lies in the shared directory's tree. */
  lemma ConfinedBrowseAllowedMeaning(directory: string, sharedDir: string, home: string, isCloud: bool)
    ensures sharedDir != [] && !EndsWith(NormPath(sharedDir), SEP) ==>
              (ConfinedBrowseAllowed(directory, sharedDir, home, isCloud) <==> BrowseAllowed(directory, sharedDir, home, isCloud))
    ensures sharedDir != [] && WithinRoot(directory, NormPath(sharedDir)) ==>
              IsPrefix(Segments(NormPath(sharedDir)), Segments(directory))
  {
    if sharedDir != [] {
      InSharedIsWithinRoot(directory, sharedDir);
      if WithinRoot(directory, NormPath(sharedDir)) {
        WithinRootSegments(directory, NormPath(sharedDir));
      }
    }
  }

  /** Index just after the last slash of `p` (0 when there is none), as
      rfind("/") + 1. */
  function AfterLastSlash(p: string): (i: nat)
    ensures i <= |p| && (i == 0 || p[i - 1] == '/')
    ensures forall k :: i <= k < |p| ==> p[k] != '/'
    decreases |p|
  {
    if p == [] then 0
    else if p[|p| - 1] == '/' then |p|
    else AfterLastSlash(p[..|p| - 1])
  }

  /** posixpath.basename(p): what follows the last slash, which holds no
      slash and ends the path. */
  function BaseName(p: string): (r: string)
    ensures '/' !in r && EndsWith(p, r)
    ensures !('/' in p) ==> r == p
  {
    var i := AfterLastSlash(p);
    assert forall c :: c in p[i..] ==> c != '/';
    p[i..]
  }

  /** s.rstrip("/"). */
  function RStripSlashes(s: string): (r: string)
    ensures |r| <= |s| && r == s[..|r|]
    ensures r == [] || r[|r| - 1] != '/'
    ensures forall k :: |r| <= k < |s| ==> s[k] == '/'
    decreases |s|
  {
    if s != [] && s[|s| - 1] == '/' then RStripSlashes(s[..|s| - 1]) else s
  }

  /** posixpath.dirname(p): everything up to the last slash, with trailing
      slashes removed unless the head consists of slashes only. */
  function DirName(p: string): string {
    var head := p[..AfterLastSlash(p)];
    if head != [] && !AllSlashes(head) then RStripSlashes(head) else head
  }

  /** The browse route's parent link: the directory's dirname, or none when
      the dirname is the directory itself. */
  function ParentDir(directory: string): Option<string> {
    var d := DirName(directory);
    if d != directory then Some(d) else None
  }

  /** The parent link is missing exactly for the root ("/", "//", ...), and
      otherwise names a proper prefix of the directory. */
  lemma ParentDirMeaning(directory: string)
    ensures ParentDir(directory).None? <==> AllSlashes(directory)
    ensures ParentDir(directory).Some? ==>
              |ParentDir(directory).value| < |directory| && StartsWith(directory, ParentDir(directory).value)
  {
    var i := AfterLastSlash(directory);
    var head := directory[..i];
    if AllSlashes(directory) {
      if directory != [] {
        assert i == |directory|;
        assert head == directory;
      }
    } else {
      var d := DirName(directory);
      if head != [] && !AllSlashes(head) {
        var r := RStripSlashes(head);
        assert head[i - 1] == '/';
        assert |r| < |head|;
        assert directory[..|r|] == r;
      } else if head == [] {
        assert d == [];
      } else {
        assert |head| < |directory|;
      }
    }
  }

  /** The parent of a normalised absolute directory below the root drops its
      last segment: the parent of "/a/b" is "/a", the parent of "/a" is "/". */
  lemma ParentOfNormalDirectory(cs: seq<string>, c: string)
    requires Clean(cs + [c], true)
    ensures ParentDir("/" + Join(cs + [c], SEP)) == Some(if cs == [] then "/" else "/" + Join(cs, SEP))
  {
    var all := cs + [c];
    assert all[|cs|] == c;
    assert c != [] && '/' !in c;
    if cs == [] {
      assert all == [c];
      ParentOfTopName(c);
    } else {
      var prefix := "/" + Join(cs, SEP);
      JoinSnoc(cs, c);
      assert "/" + Join(all, SEP) == prefix + SEP + c;
      JoinHead(cs, SEP);
      assert cs[0] == all[0] && cs[0][0] in cs[0];
      assert cs[|cs| - 1] == all[|cs| - 1];
      RootNoTrailingSlash(cs);
      ParentOfSlashName(prefix, c);
    }
  }

  /** The parent of "/c" is "/". */
  lemma ParentOfTopName(c: string)
    requires c != [] && '/' !in c
    ensures ParentDir("/" + c) == Some("/")
  {
    LastSlashBeforeName("", c);
    assert ("/" + c)[..1] == "/";
  }

  /** The parent of "<prefix>/c", for a prefix that is not only slashes and
      does not end with one, is the prefix. */
  lemma ParentOfSlashName(prefix: string, c: string)
    requires |prefix| > 1 && prefix[1] != '/' && prefix[|prefix| - 1] != '/'
    requires c != [] && '/' !in c
    ensures ParentDir(prefix + SEP + c) == Some(prefix)
  {
    LastSlashBeforeName(prefix, c);
    assert (prefix + SEP + c)[..|prefix| + 1] == prefix + SEP;
    assert (prefix + SEP)[1] == prefix[1];
    StripOneSlash(prefix);
  }

  lemma LastSlashBeforeName(a: string, c: string)
    requires '/' !in c
    ensures AfterLastSlash(a + SEP + c) == |a| + 1
  {
    var p := a + SEP + c;
    var i := AfterLastSlash(p);
    assert p[|a|] == '/';
  }

  lemma StripOneSlash(a: string)
    requires a != [] && a[|a| - 1] != '/'
    ensures RStripSlashes(a + SEP) == a
  {
    assert (a + SEP)[..|a|] == a;
  }
}
