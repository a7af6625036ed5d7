# localbeam download core, modelled in Dafny

localbeam shares a directory of a laptop with phones on the same network.
A phone downloads files through one of two servers:

- **The raw-socket handler `_FastFileHandler.handle`.** It reads the request
  head from the socket, parses the request line and the headers, and answers
  a CORS preflight or an error. Otherwise it resolves the requested path
  against the shared directory, checks that the path lies under the shared
  or home directory, reads the Range header, and sends a header block. Then
  it streams the file with `os.sendfile`, falling back to buffered 4 MiB
  reads when that fails.
- **The Flask routes.** `download_file` serves the same files with its own
  order of checks and its own Range reader. `browse_directory` lists
  directories under an access rule of its own. `get_dir_icon` names an icon
  for the special directories.

The model covers these with the socket, the file system and Flask replaced
by parameters:

- a client's bytes are a sequence of received chunks;
- `os.sendfile` is a function from (call number, offset, count) to a byte
  count or an exception;
- the files are a map from path to content, and the directories a set;
- `mimetypes.guess_type` is a function parameter.

Bytes are characters and paths are POSIX paths. The handler is specified
by a pure function `FastHandler.Respond` from the received chunks to
everything written back, and the step-by-step method `FastHandler.Handle`
is proved to write exactly that. The same pattern holds for the header
loop, the collection of the header dictionary, both streaming loops and
both Flask generators.

Modules:

| file | module | what it holds |
|---|---|---|
| text.dfy | Text | str.split, strip, lower/upper, startswith |
| numbers.dfy | Numbers | str(int) and int(str) |
| percent.dfy | Percent | urllib's unquote and quote on ASCII |
| request.dfy | Request | framing of the request head, request line, header dictionary |
| paths.dfy | Paths | posixpath join/normpath/basename/dirname, both access rules, the parent link |
| ranges.dfy | Ranges | both Range readers |
| streaming.dfy | Streaming | the zero-copy loop, the buffered loop, both Flask generators |
| responses.dfy | Responses | response heads as bytes and how a client reads them back |
| handler.dfy | FastHandler | `handle` and `_err` end to end |
| routes.dfy | Routes | `download_file`, `browse_directory` up to its listing, `get_dir_icon` |

## Model

| member | source | states |
|---|---|---|
| Request.ReadRequestHead | app.py:46-53 | The receive loop returns the outcome of `Request.Frame`: peer closed, too large, or the framed head. |
| Request.FrameFromMeaning | app.py:46-53 | A framed head contains the blank line, is at most 65536 bytes, and is the bytes of the first receives with no earlier terminator. Peer-closed means an empty receive or the end of the input before any terminator. Too-large means a buffer past 65536 bytes with no terminator before it. |
| Request.FrameStopsAtFirstTerminator | app.py:46-53 | When no receive is empty before the first buffer holding the blank line and that buffer is within the cap, the loop frames exactly that buffer. |
| Request.HeaderLines | app.py:55-56 | The head before the first blank line, split at CRLF; always at least one line. |
| Request.ParseRequestLine | app.py:60-64 | No request line exactly when the first line has fewer than two whitespace-separated words; the method holds no lower-case letter. |
| Request.ClientRequestLine | app.py:60-64 | "METHOD quoted-path VERSION" is read back as the upper-cased method and the unquoted path. |
| Request.CollectHeaders | app.py:66-70 | The header loop builds exactly the dictionary `Request.HeaderMap`. |
| Request.HeaderMapHas | app.py:66-70 | A name is in the dictionary exactly when some line with a colon has that lower-cased, stripped name. |
| Request.HeaderMapLast | app.py:66-70 | A name maps to the stripped value of the last line that defines it; later duplicates overwrite earlier ones. |
| Request.HeaderLine | app.py:66-70 | "Name: value" is read as the lower-cased name and the value. |
| Percent.Unquote | app.py:64 | Decoding never lengthens the target and leaves a target without '%' unchanged. |
| Percent.QuoteRoundTrip | app.py:64 | Unquoting a quoted ASCII path gives back the path. |
| Numbers.IntToStringRoundTrip | app.py:123-124 | int(str(i)) == i for every integer, without the digit limit. |
| Numbers.ParseIntLimited | app.py:123-124 | int() as CPython runs it on ASCII text: a value exactly when the text, without the space and \t \n \v \f \r that int() skips at its ends, is well-formed and has at most 4300 digits. |
| Numbers.SeparatorRefused | app.py:123-124 | A digit string after one of the separators 0x1c..0x1f is refused by int(), although str.strip() removes that separator. |
| Numbers.LimitedDigitsRead | app.py:123-124 | The digits of n are always well-formed, and int() reads them back as n exactly when there are at most 4300 of them. |
| Paths.NormPath | app.py:90-96 | normpath never returns the empty string and keeps the path absolute or relative. |
| Paths.NormPathIdempotent | app.py:90-96 | Normalising twice is normalising once. |
| Paths.Resolve | app.py:88-96 | The resolved path is its own normal form; below an absolute shared directory it is absolute and has no "." or ".." entry (a relative shared directory gives a relative path). |
| Paths.ResolveRelative | app.py:88-96 | After the leading slashes are stripped, every target except a drive form is joined to the shared directory. |
| Paths.SiblingPassesPrefixCheck | app.py:98-104 | The plain prefix check admits `<shared>x`, a sibling of the shared directory reached through "..", which lies outside the shared tree. |
| Paths.ConfinedAllowedMeaning | app.py:98-104 | Under the separator-aware rule, an admitted file's segments extend those of the shared or home directory, and none of them is "..". |
| Paths.InSharedIsWithinRoot | app.py:478-480 | The browse route's shared-directory test implies the separator-aware rule, and is equivalent to it unless the shared directory normalises to a path ending in "/". |
| Paths.BrowseRefusesSibling | app.py:478-480 | The browse route refuses `<shared>x`. |
| Paths.BrowseRootShareQuirk | app.py:478-480 | With "/" shared, the shared-directory test refuses every directory written with a single leading slash, such as "/srv", though it lies below the root; "//srv", which normpath keeps, passes. |
| Paths.ConfinedBrowseAllowedMeaning | app.py:478-482 | The separator-aware browse rule agrees with the written one whenever the shared root does not end in "/", and it confines to the shared tree. |
| Paths.BaseName | app.py:115 | The base name holds no '/' and ends the path; a path without '/' is its own base name. |
| Paths.ParentDirMeaning | app.py:542 | There is no parent exactly for "/", "//", ...; otherwise the parent is a proper prefix of the directory. |
| Paths.ParentOfNormalDirectory | app.py:542 | The parent of a normalised "/a/.../b/c" is "/a/.../b", and the parent of "/c" is "/". |
| Ranges.FastRange | app.py:118-126 | The handler's start offset is never negative; int() fails on malformed text and on more than 4300 digits. |
| Ranges.NoHeaderWholeFile | app.py:118-127 | Without a Range header the span is 0 to size-1, with length equal to the size. |
| Ranges.ClosedRangeRead | app.py:118-127 | "bytes=a-b" is read as a..b by both readers, with length b-a+1 (also lines 412-421). |
| Ranges.OpenRangeRead | app.py:118-127 | "bytes=a-" is read as a to size-1 by both readers (also lines 412-421). |
| Ranges.SuffixRangeReadAsPrefix | app.py:118-126 | "bytes=-k" is read as 0..k, not as the last k bytes. |
| Ranges.MissingDashRead | app.py:118-126 | "bytes=a" is served from a to the end by the handler (the whole file when a has more than 4300 digits) and fails in the route (also lines 412-421). |
| Ranges.MalformedStartRead | app.py:118-126 | Any start int() refuses, whatever follows the "-", makes the handler serve the whole file and makes the route fail (also lines 412-421). |
| Ranges.MalformedEndRead | app.py:118-126 | An end int() refuses after a good start a: the handler keeps a and serves a to size-1; the route fails (also lines 412-421). |
| Ranges.SeparatorSideRead | app.py:118-126 | A start or end beginning with a separator 0x1c..0x1f is refused: the whole file for a bad start, a to size-1 for a bad end, and a route failure either way (also lines 412-421). |
| Ranges.LongStartRead | app.py:118-126 | A well-formed start of more than 4300 digits is refused by int(): the handler serves the whole file, the route fails (also lines 412-421). |
| Ranges.FlaskAgreesWithFast | app.py:412-421 | Where the route's reader succeeds it reads the handler's span; it fails exactly on a malformed side or a missing "-". |
| Streaming.BufferedCopy | app.py:173-178 | The buffered loop yields `Streaming.BufferedFrom`, and what remains is the length minus the bytes sent. |
| Streaming.BufferedFromSlice | app.py:173-178 | The buffered chunks concatenate to exactly the requested bytes that the file has. |
| Streaming.BufferedFromBounded | app.py:173-178 | Every buffered chunk is non-empty and no larger than the chunk size. |
| Streaming.GeneratePartial | app.py:423-432 | generate_partial yields the requested slice in non-empty pieces of at most 1 MiB. |
| Streaming.GenerateFull | app.py:444-450 | generate_full yields the whole file in non-empty pieces of at most 1 MiB. |
| Streaming.SendfileLoop | app.py:161-170 | The zero-copy loop returns `Streaming.Sendfile`: its bytes sent, its calls, how it ended, and the bytes written. |
| Streaming.SendfileCallsWithin | app.py:161-170 | Each call asks for 1 to 4 MiB inside the requested range, at strictly increasing offsets. |
| Streaming.SendfileDelivers | app.py:161-170 | With a kernel that writes no more than asked or than the file has: sent never exceeds the length; the bytes written are the file's bytes from the start in order; and when no exception was raised, the whole available range was written. |
| Streaming.Stream | app.py:153-178 | The body written is `Streaming.StreamBody`: the zero-copy bytes, followed by the buffered loop from the start when the loop raised. |
| Streaming.StreamBodyAsWritten | app.py:153-178 | When sendfile raises after sending k bytes, the body is the first k requested bytes followed by all of them. |
| Streaming.DuplicatedBytesExample | app.py:153-178 | A two-byte file whose sendfile writes one byte and then raises reaches the client as "aab". |
| Streaming.ResumedStreamDelivers | app.py:153-178 | Resuming the buffered loop where the zero-copy loop stopped always yields exactly the requested bytes. |
| Streaming.StreamBodyExact | app.py:153-178 | When sendfile does not fail part-way, the body is exactly the requested bytes. |
| Responses.HeadReadBack | app.py:133-148 | A header block of framable lines followed by a body is read back as those lines and that body. |
| Responses.ResponseReadBack | app.py:133-148 | A response with well-formed headers is read back as its status code, its header dictionary and its body (also lines 185-192). |
| Responses.PreflightReadBack | app.py:73-81 | The preflight reads back as 204 with no Content-Length, "Range" as the allowed header, and no body. |
| Responses.ErrorResponseReadBack | app.py:185-192 | An error response reads back as its code, a Content-Length equal to the message's length, and the message as body. |
| Responses.SafeName | app.py:131 | The safe name has the name's length and only ASCII characters; each character is kept exactly when it is ASCII or '?'. |
| Responses.FileHeadReadBack | app.py:127-148 | The file head reads back as 206 when ranged and 200 otherwise, a Content-Length equal to the span's length, and a Content-Range exactly when ranged. |
| Responses.MimeType | app.py:111-114 | The type is never empty and is the Android package type for any name ending in ".apk" in any case (also lines 404-407). |
| FastHandler.Dispatch | app.py:73-108 | Only 403, 404 and 405 are refused; a served path is an existing file that passes the prefix check. |
| FastHandler.Handle | app.py:44-183 | handle writes exactly `FastHandler.Respond` of the received chunks. |
| FastHandler.AnswerHead | app.py:55-151 | Once the head is framed, handle writes exactly `FastHandler.Answer`. |
| FastHandler.ServeFile | app.py:110-178 | The file's head, then the streamed body unless the method is HEAD. |
| FastHandler.OptionsIsPreflight | app.py:73-81 | OPTIONS is answered with the fixed preflight. |
| FastHandler.OtherMethodRefused | app.py:83-85 | Any method other than OPTIONS, GET and HEAD gets 405 before any path work. |
| FastHandler.ForbiddenBeforeLookup | app.py:98-108 | A path failing the prefix check gets 403 whatever files exist. |
| FastHandler.MissingFileNotFound | app.py:106-108 | An admitted path that is not a regular file gets 404. |
| FastHandler.HeadIsGetWithoutBody | app.py:150-151 | HEAD sends exactly GET's head and no body. |
| FastHandler.ServedReadBack | app.py:110-178 | A served file reads back with status, Content-Length and Content-Range as ranged, an empty body for HEAD, and, when sendfile does not fail part-way, the span's bytes for GET. |
| FastHandler.ClientRequestRead | app.py:46-70 | A client's one-piece request is framed, and its method, path and header lines are read back. |
| FastHandler.WholeFileDownload | app.py:44-178 | A client's GET without Range for a servable file receives 200, Content-Length equal to the size, and the whole file. |
| FastHandler.RangedDownload | app.py:44-178 | A client's GET with "Range: bytes=a-b" receives 206, Content-Length b-a+1, a Content-Range for a-b and the size, and bytes a..b of the file. |
| Routes.Download | app.py:380-461 | download_file, step by step with both generators, returns exactly `Routes.DownloadReply`. |
| Routes.RelativeNeedsShared | app.py:387-389 | A relative name without a shared directory gets 404 "Shared directory not set". |
| Routes.DownloadRevealsExistence | app.py:394-401 | Outside home the refusal tells what is there: 403 for a regular file, 400 for a directory, 404 for nothing. |
| Routes.StreamedMeaning | app.py:394-458 | Every stream is for an existing file under home: 206 exactly when a Range header was sent, with the reader's slice and its length as Content-Length; otherwise the whole file and its size. |
| Routes.PartialHeadersRead | app.py:434-440 | The ranged headers carry the Content-Range, the span's length and the type. |
| Routes.FullHeadersRead | app.py:452-457 | The whole-file headers carry the size and the type. |
| Routes.RangedDownload | app.py:412-441 | "bytes=a-b" gets 206, bytes a..b of the file, Content-Length b-a+1 and a Content-Range for a-b and the size. |
| Routes.DownloadAgreesWithFastHandler | app.py:412-441 | With a Range header, the route fails with 500 exactly when its reader fails; otherwise it sends the handler's bytes and Content-Length. |
| Routes.MissingDashCrashes | app.py:416-421 | "bytes=a" ends in the exception handler's 500 (also lines 460-461). |
| Routes.BrowseDeniedBeforeLookup | app.py:478-487 | A refused directory gets 403 whatever the file system holds. |
| Routes.CloudListsOnlyShared | app.py:476-484 | On a cloud host every listed directory is in the shared tree, and without a shared directory everything is refused. |
| Routes.DefaultListsShared | app.py:466-487 | Without a "path" argument an existing shared directory is listed on any host. |
| Routes.ListingParent | app.py:542 | A listing's parent is missing exactly for the root and is otherwise a proper prefix of the directory. |
| Routes.DirIcon | app.py:596-607 | The icon is "folder" exactly for names other than the six with an icon of their own, and the table's icon for those. |
| Routes.IconsDistinct | app.py:596-607 | Distinct names with an icon of their own get distinct icons. |

## Left out

- Socket I/O, socket options and the threaded server: the received bytes and the sendfile replies are parameters.
- recv's 8192-byte limit: a received chunk may have any length.
- The final `except Exception: pass` of handle: the model writes what handle writes before an exception. The only exception it produces is the one from sendfile.
- `sendall` failing, and `BrokenPipeError`/`ConnectionResetError`: every write reaches the client.
- The UTF-8 decoding of the head with replacement characters, the UTF-8 step of unquote, and Unicode upper/lower casing: bytes are characters, and case mapping is ASCII.
- Windows path semantics: a drive-letter target is only normalised, as on POSIX.
- `os.path.getsize`, `isfile`, `exists`, `isdir` and file reads: a map of file contents and a set of directories. No file changes while it is served.
- `mimetypes.guess_type`: a function parameter; only the ".apk" override is modelled.
- `_err`'s own `try`/`except`: sending always succeeds.
- Flask plumbing: routing, jsonify, `Response`/`stream_with_context`, CORS headers and the `<path:...>` converter. A route's reply is its status, error text or header dictionary, and body.
- The text of the exception in the route's 500 reply.
- The directory listing, its sorting and the common directories of browse_directory: thin wrappers over the file system.
- The environment lookups that decide "cloud": a boolean parameter.
- The upload route, special_dirs, QR code, IP discovery, clipboard, firewall and watcher code: I/O or foreign libraries.
- `transfer_queue` and `active_transfers`: declared in app.py and never used.
- FastHandler.ServedReadBack: requires the file path and the guessed type to hold no carriage return. The source serves such names: the ASCII replacement in safe_name keeps control characters, so a "\r\n" in the name lands inside the Content-Disposition line and splits the header block; what a client then reads back is not modelled. The body is stated only when sendfile does not raise after sending some bytes; otherwise `Streaming.StreamBodyAsWritten` gives the body.
- FastHandler.WholeFileDownload: the same carriage-return restriction on the file name and the same sendfile condition as FastHandler.ServedReadBack.
- FastHandler.RangedDownload: the same carriage-return restriction and sendfile condition as FastHandler.ServedReadBack; both range numbers have at most 4300 digits (longer ones: Ranges.LongStartRead, Ranges.MalformedEndRead).
- Routes.RangedDownload: both range numbers have at most 4300 digits; longer ones are refused by int() and the route answers 500.
- Ranges.ClosedRangeRead: states the reading of numbers of at most 4300 digits; longer ones are covered by Ranges.LongStartRead and Ranges.MalformedEndRead.
- Ranges.OpenRangeRead: states the reading of numbers of at most 4300 digits; longer ones are covered by Ranges.LongStartRead and Ranges.MalformedEndRead.
- Ranges.SuffixRangeReadAsPrefix: states the reading of numbers of at most 4300 digits; longer ones are covered by Ranges.LongStartRead and Ranges.MalformedEndRead.
- Numbers.ParseIntLimited: the 4300-digit limit is that of CPython 3.11 and later (and of the security releases 3.7.14, 3.8.14, 3.9.14 and 3.10.7); older interpreters read any length, as Numbers.ParseInt does.
- Numbers.IntToString: str() of an integer of more than 4300 digits raises in those versions; the model prints it. A span length reaches 4301 digits only when the start reads as 0 (an empty start as in "bytes=-b", or "0", "00", ...) and the end is 10^4300 - 1. The fast handler's header formatting then raises and nothing is sent; the download route's str(length) (app.py:437) raises and the route answers 500 (app.py:460-461), where Routes.DownloadReply streams a 206.
- Numbers.ParseInt: models int() on ASCII text. For text with non-ASCII characters CPython first maps Unicode whitespace to spaces and Unicode decimal digits to ASCII digits; that step is not modelled.

## Findings

| source | as written | input that shows it | evidently intended | confidence | as-written member | corrected member |
|---|---|---|---|---|---|---|
| app.py:98-104 | The fast handler admits any path whose text starts with the normalised shared or home directory. | Shared directory "/srv/share", target "/../sharex": it resolves to "/srv/sharex", which passes although it lies outside the shared tree. | The path lies inside the shared or home directory, component by component. | not executed | Paths.SiblingPassesPrefixCheck | Paths.ConfinedAllowedMeaning |
| app.py:153-178 | When sendfile raises after sending some bytes, the buffered fallback starts again at byte_start with the full length. The bytes already sent go out twice. | A two-byte file "ab" whose first sendfile call writes one byte and whose second raises: the client receives "aab". | The fallback resumes at byte_start + sent with length - sent still to send. | not executed | Streaming.StreamBodyAsWritten | Streaming.ResumedStreamDelivers |
| app.py:478-480 | The browse route's shared test appends a separator to the normalised shared directory. With "/" shared, that gives "//", which no directory written with a single leading slash starts with. | Shared directory "/" on a cloud host, path "/srv": refused with 403 although "/srv" lies in the shared tree. | A directory inside the shared tree is admitted. | not executed | Paths.BrowseRootShareQuirk | Paths.ConfinedBrowseAllowedMeaning |
