/** The Flask routes of app.py that share logic with the fast handler: the
    download route (its order of checks, its Range reader and its two
    generators), the access rule and parent link of the browse route, and
    the icon lookup for the special directories. Flask itself, JSON encoding
    and the directory listing are outside the model; a reply is the status,
    the error text or the header dictionary, and the body. */
module Routes {
  import opened Text
  import opened Numbers
  import Paths
  import Ranges
  import Responses
  import Streaming

  /** What the file system answers: the regular files with their contents,
      and the directories. */
  datatype Disk = Disk(files: map<string, string>, dirs: set<string>)

  /** os.path.exists. */
  predicate Exists(disk: Disk, p: string) {
    p in disk.files || p in disk.dirs
  }

  const NO_SHARED: string := "Shared directory not set"
  const FILE_NOT_FOUND: string := "File not found"
  const NOT_A_FILE: string := "Not a file"
  const ACCESS_DENIED: string := "Access denied"
  const DIR_NOT_FOUND: string := "Directory not found"
  const BYTES: string := "bytes"

  /** What the download route returns. */
  datatype Reply =
    | Refused(code: nat, error: string)
      // the route's own error replies: {"error": ...} with a status code
    | Crashed
      // the route's exception handler: 500 with the exception's text
    | Streamed(code: nat, headers: map<string, string>, body: string)
      // a streamed file: status, the header dictionary, the bytes

  /** "attachment; filename=\"<name>\"", with the base name as it is. */
  function Disposition(name: string): string {
    "attachment; filename=\"" + name + "\""
  }

  /** The headers of a ranged download. */
  function PartialHeaders(span: Ranges.Span, size: nat, name: string, mime: string): (hs: map<string, string>)
    ensures hs.Keys == {Responses.CONTENT_RANGE, Responses.ACCEPT_RANGES, Responses.CONTENT_LENGTH,
                        Responses.CONTENT_DISPOSITION, Responses.CONTENT_TYPE}
  {
    map[Responses.CONTENT_RANGE := Responses.ContentRangeValue(span, size),
        Responses.ACCEPT_RANGES := BYTES,
        Responses.CONTENT_LENGTH := IntToString(Ranges.Length(span)),
        Responses.CONTENT_DISPOSITION := Disposition(name),
        Responses.CONTENT_TYPE := mime]
  }

  /** The headers of a whole-file download. */
  function FullHeaders(size: nat, name: string, mime: string): (hs: map<string, string>)
    ensures hs.Keys == {Responses.ACCEPT_RANGES, Responses.CONTENT_LENGTH,
                        Responses.CONTENT_DISPOSITION, Responses.CONTENT_TYPE}
  {
    map[Responses.ACCEPT_RANGES := BYTES,
        Responses.CONTENT_LENGTH := NatToString(size),
        Responses.CONTENT_DISPOSITION := Disposition(name),
        Responses.CONTENT_TYPE := mime]
  }

  /** Each value of the ranged headers reads back under its own name. */
  lemma PartialHeadersRead(span: Ranges.Span, size: nat, name: string, mime: string)
    ensures var hs := PartialHeaders(span, size, name, mime);
            hs[Responses.CONTENT_RANGE] == Responses.ContentRangeValue(span, size) &&
            hs[Responses.CONTENT_LENGTH] == IntToString(Ranges.Length(span)) &&
            hs[Responses.CONTENT_TYPE] == mime
  {
    assert Responses.CONTENT_RANGE[0] != Responses.ACCEPT_RANGES[0];
    assert |Responses.CONTENT_LENGTH| == 14 && |Responses.CONTENT_RANGE| == 13;
    assert |Responses.CONTENT_DISPOSITION| == 19 && |Responses.CONTENT_TYPE| == 12;
  }

  /** Each value of the whole-file headers reads back under its own name. */
  lemma FullHeadersRead(size: nat, name: string, mime: string)
    ensures var hs := FullHeaders(size, name, mime);
            hs[Responses.CONTENT_LENGTH] == NatToString(size) &&
            hs[Responses.CONTENT_TYPE] == mime
  {
    assert |Responses.CONTENT_LENGTH| == 14 && |Responses.CONTENT_DISPOSITION| == 19;
    assert |Responses.CONTENT_TYPE| == 12;
  }

  /** The file a download names: absolute names as they are, relative ones
      below the shared directory ("" when none is set, in which case there is
      no file), normalised. */
  function DownloadPath(filename: string, sharedDir: string): Option<string> {
    if !Paths.IsAbs(filename) && sharedDir == [] then None
    else Some(Paths.NormPath(if Paths.IsAbs(filename) then filename else Paths.JoinPath(sharedDir, filename)))
  }

  /** download_file, for the Range header `rangeHdr` ("" when absent): the
      missing shared directory, then existence (404), then the kind of entry
      (400), then the home prefix (403); then the Range reader, whose failure
      ends in the exception handler, and the 206 or 200 stream. */
  function DownloadReply(sharedDir: string, home: string, disk: Disk, guess: string -> Option<string>,
                         filename: string, rangeHdr: string): Reply
  {
    match DownloadPath(filename, sharedDir)
    case None => Refused(404, NO_SHARED)
    case Some(fp) =>
      if !Exists(disk, fp) then Refused(404, FILE_NOT_FOUND)
      else if fp !in disk.files then Refused(400, NOT_A_FILE)
      else if !StartsWith(fp, home) then Refused(403, ACCESS_DENIED)
      else
        var content := disk.files[fp];
        var mime := Responses.MimeType(fp, guess(fp));
        var name := Paths.BaseName(fp);
        if rangeHdr != [] then
          match Ranges.FlaskRange(rangeHdr, |content|)
          case None => Crashed
          case Some(span) =>
            Streamed(206, PartialHeaders(span, |content|, name, mime),
                     Streaming.Slice(content, span.start, Ranges.Length(span)))
        else Streamed(200, FullHeaders(|content|, name, mime), content)
  }

  /** download_file step by step, with the body drawn from generate_partial
      or generate_full. */
  method Download(sharedDir: string, home: string, disk: Disk, guess: string -> Option<string>,
                  filename: string, rangeHdr: string) returns (reply: Reply)
    ensures reply == DownloadReply(sharedDir, home, disk, guess, filename, rangeHdr)
  {
    var filepath := filename;
    if !Paths.IsAbs(filepath) {
      if sharedDir == [] {
        return Refused(404, NO_SHARED);
      }
      filepath := Paths.JoinPath(sharedDir, filepath);
    }
    filepath := Paths.NormPath(filepath);
    if !Exists(disk, filepath) {
      return Refused(404, FILE_NOT_FOUND);
    }
    if filepath !in disk.files {
      return Refused(400, NOT_A_FILE);
    }
    if !StartsWith(filepath, home) {
      return Refused(403, ACCESS_DENIED);
    }
    var content := disk.files[filepath];
    var mime := Responses.MimeType(filepath, guess(filepath));
    var name := Paths.BaseName(filepath);
    if rangeHdr != [] {
      var parsed := Ranges.FlaskRange(rangeHdr, |content|);
      if parsed.None? {
        return Crashed;
      }
      var span := parsed.value;
      var chunks := Streaming.GeneratePartial(content, span.start, Ranges.Length(span));
      return Streamed(206, PartialHeaders(span, |content|, name, mime), Concat(chunks));
    }
    var chunks := Streaming.GenerateFull(content);
    reply := Streamed(200, FullHeaders(|content|, name, mime), Concat(chunks));
  }

  // ---------------------------------------------------------------------
  // Properties of the download route

  /** Without a shared directory a relative name is refused before the file
      system is consulted. */
  lemma RelativeNeedsShared(home: string, disk: Disk, guess: string -> Option<string>,
                            filename: string, rangeHdr: string)
    requires !Paths.IsAbs(filename)
    ensures DownloadReply([], home, disk, guess, filename, rangeHdr) == Refused(404, NO_SHARED)
  {
  }

  /** Outside the home directory the route's answer tells what is there:
      404 when nothing exists, 400 for a directory, and 403 only for an
      existing regular file, the reverse of the fast handler, which refuses
      before it looks. */
  lemma DownloadRevealsExistence(sharedDir: string, home: string, disk: Disk, guess: string -> Option<string>,
                                 filename: string, rangeHdr: string)
    requires DownloadPath(filename, sharedDir).Some?
    requires !StartsWith(DownloadPath(filename, sharedDir).value, home)
    ensures var fp := DownloadPath(filename, sharedDir).value;
            var r := DownloadReply(sharedDir, home, disk, guess, filename, rangeHdr);
            r.Refused? &&
            (r.code == 403 <==> fp in disk.files) &&
            (r.code == 400 <==> fp !in disk.files && fp in disk.dirs) &&
            (r.code == 404 <==> !Exists(disk, fp))
  {
  }

  /** Every streamed reply is for an existing regular file whose normalised
      path starts with the home directory, and its body is what the Range
      reader selects, or the whole file. */
  lemma StreamedMeaning(sharedDir: string, home: string, disk: Disk, guess: string -> Option<string>,
                        filename: string, rangeHdr: string)
    ensures var r := DownloadReply(sharedDir, home, disk, guess, filename, rangeHdr);
            r.Streamed? ==>
              var fp := DownloadPath(filename, sharedDir).value;
              DownloadPath(filename, sharedDir).Some? && fp in disk.files && StartsWith(fp, home) &&
              (r.code == 206 <==> rangeHdr != []) &&
              (rangeHdr == [] ==> r.body == disk.files[fp] &&
                                  r.headers[Responses.CONTENT_LENGTH] == NatToString(|disk.files[fp]|)) &&
              (rangeHdr != [] ==>
                 var span := Ranges.FlaskRange(rangeHdr, |disk.files[fp]|).value;
                 Ranges.FlaskRange(rangeHdr, |disk.files[fp]|).Some? &&
                 r.body == Streaming.Slice(disk.files[fp], span.start, Ranges.Length(span)) &&
                 r.headers[Responses.CONTENT_LENGTH] == IntToString(Ranges.Length(span)))
  {
  }

  /** A served file, as the route sees it. */
  predicate Servable(sharedDir: string, home: string, disk: Disk, filename: string) {
    DownloadPath(filename, sharedDir).Some? &&
    DownloadPath(filename, sharedDir).value in disk.files &&
    StartsWith(DownloadPath(filename, sharedDir).value, home)
  }

  /** "bytes=a-b" on a file the route serves: 206, the bytes a to b that the
      file has, a Content-Length of b - a + 1 and a Content-Range naming a, b
      and the size; when the span lies in the file, exactly b - a + 1 bytes. */
  lemma RangedDownload(sharedDir: string, home: string, disk: Disk, guess: string -> Option<string>,
                       filename: string, a: nat, b: nat)
    requires Servable(sharedDir, home, disk, filename)
    requires WithinDigitLimit(a) && WithinDigitLimit(b)
    ensures var content := disk.files[DownloadPath(filename, sharedDir).value];
            var r := DownloadReply(sharedDir, home, disk, guess, filename,
                                   Ranges.UNIT + NatToString(a) + Ranges.DASH + NatToString(b));
            r.Streamed? && r.code == 206 &&
            r.body == Streaming.Slice(content, a, b - a + 1) &&
            Responses.CONTENT_LENGTH in r.headers &&
            r.headers[Responses.CONTENT_LENGTH] == IntToString(b - a + 1) &&
            Responses.CONTENT_RANGE in r.headers &&
            r.headers[Responses.CONTENT_RANGE] == Responses.ContentRangeValue(Ranges.Span(a, b), |content|) &&
            (a <= b < |content| ==> |r.body| == b - a + 1)
  {
    var fp := DownloadPath(filename, sharedDir).value;
    var content := disk.files[fp];
    var h := Ranges.UNIT + NatToString(a) + Ranges.DASH + NatToString(b);
    Ranges.ClosedRangeRead(a, b, |content|);
    SpanDownload(sharedDir, home, disk, guess, filename, h, Ranges.Span(a, b));
    PartialReplyRead(DownloadReply(sharedDir, home, disk, guess, filename, h), content, a, b,
                     Paths.BaseName(fp), Responses.MimeType(fp, guess(fp)));
  }

  /** The ranged reply for "bytes=a-b", read back field by field. */
  lemma PartialReplyRead(r: Reply, content: string, a: nat, b: nat, name: string, mime: string)
    requires r == Streamed(206, PartialHeaders(Ranges.Span(a, b), |content|, name, mime),
                           Streaming.Slice(content, a, b - a + 1))
    ensures r.Streamed? && r.code == 206 &&
            r.body == Streaming.Slice(content, a, b - a + 1) &&
            Responses.CONTENT_LENGTH in r.headers &&
            r.headers[Responses.CONTENT_LENGTH] == IntToString(b - a + 1) &&
            Responses.CONTENT_RANGE in r.headers &&
            r.headers[Responses.CONTENT_RANGE] == Responses.ContentRangeValue(Ranges.Span(a, b), |content|) &&
            (a <= b < |content| ==> |r.body| == b - a + 1)
  {
    PartialHeadersRead(Ranges.Span(a, b), |content|, name, mime);
  }

  /** The ranged reply once the Range reader has read `span`. */
  lemma SpanDownload(sharedDir: string, home: string, disk: Disk, guess: string -> Option<string>,
                     filename: string, rangeHdr: string, span: Ranges.Span)
    requires Servable(sharedDir, home, disk, filename) && rangeHdr != []
    requires Ranges.FlaskRange(rangeHdr, |disk.files[DownloadPath(filename, sharedDir).value]|) == Some(span)
    ensures var fp := DownloadPath(filename, sharedDir).value;
            var content := disk.files[fp];
            DownloadReply(sharedDir, home, disk, guess, filename, rangeHdr) ==
              Streamed(206, PartialHeaders(span, |content|, Paths.BaseName(fp), Responses.MimeType(fp, guess(fp))),
                       Streaming.Slice(content, span.start, Ranges.Length(span)))
  {
  }

  /** Where the route's Range reader succeeds, it streams the same bytes,
      with the same Content-Length, as the fast handler would; where it
      fails, the route answers with the exception handler's 500. */
  lemma DownloadAgreesWithFastHandler(sharedDir: string, home: string, disk: Disk, guess: string -> Option<string>,
                                      filename: string, rangeHdr: string)
    requires Servable(sharedDir, home, disk, filename) && rangeHdr != []
    ensures var content := disk.files[DownloadPath(filename, sharedDir).value];
            var span := Ranges.FastRange(rangeHdr, |content|);
            var r := DownloadReply(sharedDir, home, disk, guess, filename, rangeHdr);
            (Ranges.FlaskRange(rangeHdr, |content|).None? <==> r == Crashed) &&
            (r.Streamed? ==>
               r.body == Streaming.Slice(content, span.start, Ranges.Length(span)) &&
               r.headers[Responses.CONTENT_LENGTH] == IntToString(Ranges.Length(span)))
  {
    var content := disk.files[DownloadPath(filename, sharedDir).value];
    Ranges.FlaskAgreesWithFast(rangeHdr, |content|);
  }

  /** "bytes=a" without a dash: the fast handler serves from a to the end,
      the route fails with 500. */
  lemma MissingDashCrashes(sharedDir: string, home: string, disk: Disk, guess: string -> Option<string>,
                           filename: string, a: nat)
    requires Servable(sharedDir, home, disk, filename)
    ensures DownloadReply(sharedDir, home, disk, guess, filename, Ranges.UNIT + NatToString(a)) == Crashed
  {
    var content := disk.files[DownloadPath(filename, sharedDir).value];
    Ranges.MissingDashRead(a, |content|);
  }

  // ---------------------------------------------------------------------
  // The browse route

  /** What the browse route returns, apart from the listing itself. */
  datatype Browse =
    | Denied(code: nat, error: string)
    | Listing(current: string, parent: Option<string>, userHome: string)

  /** The directory asked for: the "path" argument, or when it is empty the
      shared directory, or when none is set the home directory; normalised. */
  function BrowseTarget(pathArg: string, sharedDir: string, home: string): string {
    Paths.NormPath(if pathArg != [] then pathArg else if sharedDir != [] then sharedDir else home)
  }

  /** browse_directory up to its listing: the access rule (403) before the
      existence of the directory (404). */
  function BrowseReply(pathArg: string, sharedDir: string, home: string, isCloud: bool, disk: Disk): Browse {
    var directory := BrowseTarget(pathArg, sharedDir, home);
    if !Paths.BrowseAllowed(directory, sharedDir, home, isCloud) then Denied(403, ACCESS_DENIED)
    else if directory !in disk.dirs then Denied(404, DIR_NOT_FOUND)
    else Listing(directory, Paths.ParentDir(directory), home)
  }

  /** A refused directory is refused whatever the file system holds. */
  lemma BrowseDeniedBeforeLookup(pathArg: string, sharedDir: string, home: string, isCloud: bool, disk: Disk, other: Disk)
    requires !Paths.BrowseAllowed(BrowseTarget(pathArg, sharedDir, home), sharedDir, home, isCloud)
    ensures BrowseReply(pathArg, sharedDir, home, isCloud, disk) == Denied(403, ACCESS_DENIED)
    ensures BrowseReply(pathArg, sharedDir, home, isCloud, other) == BrowseReply(pathArg, sharedDir, home, isCloud, disk)
  {
  }

  /** On a cloud host every listed directory lies in the shared directory's
      tree, and without a shared directory nothing is listed. */
  lemma CloudListsOnlyShared(pathArg: string, sharedDir: string, home: string, disk: Disk)
    ensures var r := BrowseReply(pathArg, sharedDir, home, true, disk);
            r.Listing? ==> sharedDir != [] && Paths.WithinRoot(r.current, Paths.NormPath(sharedDir)) &&
                           Paths.IsPrefix(Paths.Segments(Paths.NormPath(sharedDir)), Paths.Segments(r.current))
    ensures sharedDir == [] ==> BrowseReply(pathArg, sharedDir, home, true, disk) == Denied(403, ACCESS_DENIED)
  {
    var directory := BrowseTarget(pathArg, sharedDir, home);
    if sharedDir != [] {
      Paths.InSharedIsWithinRoot(directory, sharedDir);
      Paths.ConfinedBrowseAllowedMeaning(directory, sharedDir, home, true);
    }
  }

  /** Without a "path" argument the shared directory is listed, on any host,
      as long as it exists. */
  lemma DefaultListsShared(sharedDir: string, home: string, isCloud: bool, disk: Disk)
    requires sharedDir != [] && Paths.NormPath(sharedDir) in disk.dirs
    ensures BrowseReply([], sharedDir, home, isCloud, disk).Listing?
    ensures BrowseReply([], sharedDir, home, isCloud, disk).current == Paths.NormPath(sharedDir)
  {
  }

  /** A listing's parent link is missing exactly for the root and otherwise
      is a proper prefix of the listed directory. */
  lemma ListingParent(pathArg: string, sharedDir: string, home: string, isCloud: bool, disk: Disk)
    ensures var r := BrowseReply(pathArg, sharedDir, home, isCloud, disk);
            r.Listing? ==>
              (r.parent.None? <==> Paths.AllSlashes(r.current)) &&
              (r.parent.Some? ==> |r.parent.value| < |r.current| && StartsWith(r.current, r.parent.value))
  {
    Paths.ParentDirMeaning(BrowseTarget(pathArg, sharedDir, home));
  }

  // ---------------------------------------------------------------------
  // Icons of the special directories

  const FOLDER: string := "folder"

  const ICONS: map<string, string> :=
    map["Desktop" := "desktop", "Downloads" := "download", "Documents" := FOLDER,
        "Pictures" := "image", "Music" := "music", "Videos" := "video",
        "Android APKs" := "android"]

  /** The names with an icon of their own. */
  const OWN_ICON: set<string> := {"Desktop", "Downloads", "Pictures", "Music", "Videos", "Android APKs"}

  /** get_dir_icon: the icon from the table, "folder" for any other name. */
  function DirIcon(name: string): (icon: string)
    ensures icon == FOLDER <==> name !in OWN_ICON
    ensures name in OWN_ICON ==> icon == ICONS[name]
  {
    if name in ICONS then ICONS[name] else FOLDER
  }

  /** Distinct names with an icon of their own get distinct icons. */
  lemma IconsDistinct(a: string, b: string)
    requires a in OWN_ICON && b in OWN_ICON && a != b
    ensures DirIcon(a) != DirIcon(b)
  {
  }
}
