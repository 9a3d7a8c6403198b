# DWC G-code uploader: verified model of the core

DWC_Gcode_uploader watches a folder for newly created G-code files. It
uploads each one to a Duet Web Control (DWC) board over HTTP and then asks
the board to print it. This project models the core of that program in
Dafny and proves properties of the model:

- `events.dfy`: the uploader's `FileEventHandler` (`src/events.py`).
  - Its "created" handler drops a repeat of the same path that arrives
    less than a whole second (truncated toward zero) after the last upload
    finished.
  - Its upload step PUTs the file under its URL-quoted base name. When the
    board answers anything but 201 Created, the file is not printed.
    Otherwise an `M32 "0:/gcodes/<name>"` command is POSTed.
  - Filename sanitising is a single `requests.utils.quote`.
- `url_quote.dfy` and `utf8.dfy`: that quoting function.
  - Text is encoded as UTF-8 (RFC 3629). Every byte outside the unreserved
    set of section 2.3 of RFC 3986, plus `/`, becomes `%XX` with uppercase
    hex digits.
  - The quoting is proved injective through an explicit inverse:
    percent-decoding followed by strict UTF-8 decoding.
- `path_name.dfy`: the final path component that `pathlib.Path.name` yields
  for a POSIX path.
- `gcode_filter.dfy`: the two `GCODE_REGEX` filters as watchdog's
  `RegexMatchingEventHandler` applies them to a path.
  - `re.match` anchors at the start.
  - `.` does not match a newline.
  - `$` matches at the end or before one final newline.
  - Case folding is a parameter of the handler.
- `utils.dfy`: `is_gcode_file`. It takes the suffix Qt's `QFileInfo`
  reports (the text after the last dot of the file name) and compares it
  with `gcode` and `g`.
- `path_watcher.dfy`: `src/FilePathWatcher.py`.
  - `GCodeFileEventHandler` debounces with a `QTime` in milliseconds.
    `QTime::elapsed` wraps at midnight, and the model keeps that wrap.
  - `FilePathWatcher` re-registers the handler on a watchdog `Observer`
    whenever the path changes, and starts the observer once.
- `wrappers.dfy`: the `Option` type.

Clocks, HTTP responses and exceptions are parameters of the operations:
- `now` and `finishedAt` are wall-clock or `QTime` readings in milliseconds;
- `PutOutcome` is the status of the PUT, or an `OSError` raised while
  opening the file or sending it;
- `PostOutcome` is the answer to the print command, or an `OSError`.

What the code does, as the model keeps it:
- An `OSError` during the upload does not stop printing. `err_code` stays
  0, so `start_printing` still runs.
- The uploader's filter in `src/events.py` accepts only `.gcode`, not
  `.g`.
- Both handlers are built without a `case_sensitive` argument
  (`src/events.py:15`, `src/FilePathWatcher.py:13`), so watchdog's default
  applies and both filters ignore case. The model keeps the setting as a
  parameter. Under the default, `PART.GCODE` passes the watcher's filter
  but fails `is_gcode_file` (`Utils.DefaultFilterDisagrees`).
- The board address `192.168.1.38` is fixed in the code, not configured.
  Every accepted upload is followed by a print command. The
  `--upload-only`, `--keep` and `--silent` options declared in
  `src/main.py:47-58` are handed to `FileEventHandler` at
  `src/main.py:14`, but its constructor (`src/events.py:14`) takes no
  arguments, so no handler acts on them.
- The print command's HTTP status is ignored. An exception raised by that
  POST escapes `on_created` before the handler records the path and time,
  so the next event for the same file is not debounced.
- Because `QTime::elapsed` wraps, the same path created again one day
  (plus less than a second) after the previous event is dropped.

## Model

| member | source | states |
|---|---|---|
| Utf8.EncodeChar | src/events.py:77 | a character is one to four bytes; exactly the ASCII characters are one byte, equal to the code point; longer forms start with a lead byte in 0xC2..0xF4 followed by continuation bytes |
| Utf8.Encode | src/events.py:77 | the encoding is never shorter than the text, and it has the same length exactly when the text is ASCII |
| Utf8.DecodeFirst | src/events.py:77 | a successful strict decode consumes one to four bytes that are present in the input |
| Utf8.DecodeEncode | src/events.py:77 | strict UTF-8 decoding of the encoding of any text gives the text back |
| Utf8.EncodeDecode | src/events.py:77 | every byte string the strict decoder accepts is the encoding of the text it decodes to, so the encoding is a bijection onto well-formed UTF-8 |
| UrlQuote.HexDigit | src/events.py:77 | a value below 16 becomes an uppercase hex digit that reads back as that value |
| UrlQuote.QuoteByte | src/events.py:77 | a safe byte stays as its own character; any other byte becomes the three characters `%`, high digit and low digit, in uppercase hex and reading back as the byte |
| UrlQuote.QuoteBytes | src/events.py:77 | the quoted text is at least as long as the bytes and holds only safe characters and `%` |
| UrlQuote.Quote | src/events.py:77 | `requests.utils.quote(s)`: UTF-8 encoding, then percent-encoding of each byte; the result is never shorter than `s` and holds only safe characters and `%`; its meaning is `UrlQuote.QuoteRoundTrip` |
| UrlQuote.QuoteRoundTrip | src/events.py:77 | percent-decoding the quoted name gives its UTF-8 bytes, and unquoting gives the original name back, so distinct names never share a remote name |
| UrlQuote.QuoteAlphabet | src/events.py:77 | a quoted name contains no space, `#` or `"`, so it can sit in a URL path and inside the quoted G-code argument |
| UrlQuote.QuoteGrows | src/events.py:77 | an all-safe name is left unchanged; any other name grows by at least two characters and contains `%` |
| UrlQuote.QuoteFixedPoint | src/events.py:77 | quoting leaves a name unchanged exactly when every character is safe |
| UrlQuote.QuoteTwiceDiffers | src/events.py:73-77 | when the name has an unsafe character, quoting twice differs from quoting once, and one unquoting of the double-quoted name gives the once-quoted name rather than the original |
| UrlQuote.QuoteKeepsSegment | src/events.py:77 | a name without `/` quotes to a text without `/`, so it remains one URL path segment |
| PathName.StartAfterLast | src/events.py:35-36 | the index just after the last separator, or 0 when there is none; no separator follows it |
| PathName.AfterLast | src/events.py:35-36 | the text after the last separator is a suffix of the path without a separator, preceded by the separator when one exists |
| PathName.AfterLastOfJoin | src/events.py:35-36 | the text after the last separator of `dir`, separator, `tail` is `tail` when `tail` holds no separator |
| PathName.Name | src/events.py:35-36 | `Path(p).name` never contains `/` and is never `.` |
| PathName.NameOfChild | src/events.py:35-36 | the name of `dir/name` is `name` for any non-empty `name` other than `.` without `/` |
| GcodeFilter.PatternMatches | src/FilePathWatcher.py:9 | `re.match` of a `GCODE_REGEX` (also `src/events.py:12`); stated by `GcodeFilter.WatcherPatternCaseSensitive` and `GcodeFilter.UploaderPatternWithinWatcherPattern` |
| GcodeFilter.UploaderPatternWithinWatcherPattern | src/FilePathWatcher.py:9 | every path the uploader's `.gcode` filter accepts is also accepted by the watcher's `.gcode`/`.g` filter, under the same case setting |
| GcodeFilter.ExactExtension | src/FilePathWatcher.py:9 | with case folding off, the extension test holds exactly when the text ends with `.` and the extension |
| GcodeFilter.WatcherPatternCaseSensitive | src/FilePathWatcher.py:9 | with case folding off, a newline-free path passes the watcher filter if and only if it ends with `.gcode` or `.g` |
| GcodeFilter.CaseSettingDecides | src/FilePathWatcher.py:9 | `PART.GCODE` passes the filter with case folding and fails it without |
| Utils.DotSuffix | src/utils.py:8 | a suffix found after the final dot contains no dot and no `/`, so it stays inside the file name |
| Utils.Suffix | src/utils.py:8 | the reported suffix contains neither `.` nor `/` |
| Utils.DotSuffixEndsPath | src/utils.py:8 | a found suffix, preceded by its dot, ends the path |
| Utils.DotSuffixOfDotted | src/utils.py:8 | a path `stem.ext`, where `ext` has no dot or `/`, has suffix `ext` |
| Utils.SuffixIs | src/utils.py:8 | for a non-empty `ext` without dot or `/`, the suffix is `ext` if and only if the path ends with `.ext` |
| Utils.IsGcodeFile | src/utils.py:6-9 | `is_gcode_file`; stated by `Utils.IsGcodeFileIff` and `Utils.AgreesWithWatcherFilter` |
| Utils.IsGcodeFileIff | src/utils.py:6-9 | a file is a G-code file exactly when its name ends in `.gcode` or `.g` |
| Utils.AgreesWithWatcherFilter | src/utils.py:6-9 | for newline-free paths, `is_gcode_file` agrees with the watcher's case-sensitive regex filter |
| Utils.DefaultFilterDisagrees | src/utils.py:9 | under watchdog's default case folding, `PART.GCODE` passes the watcher's filter but is not a G-code file for `is_gcode_file` |
| Utils.LowerCaseExtensionsAccepted | src/utils.py:9 | `part.gcode` and `/home/user/part.g` are G-code files |
| Utils.UpperCaseExtensionsRejected | src/utils.py:9 | `PART.GCODE` and `part.G` are not G-code files, because Python's string comparison of the suffix is case-sensitive |
| Utils.OtherNamesRejected | src/utils.py:8-9 | `part.gcode.tmp` and `part` are not G-code files |
| Events.SanitizeFilename | src/events.py:72-78 | the sanitised name unquotes to the original name, uses only safe characters and `%`, and has no `/` when the name had none |
| Events.StartPrinting | src/events.py:61-70 | the POST goes to the board's code endpoint, its body is `M32 "0:/gcodes/<name>"`, and an `OSError` from the POST propagates to the caller |
| Events.UploadToDwc | src/events.py:33-59 | the PUT goes to the gcodes URL with the quoted base name; `err_code` is 1 exactly when the board answered with a status other than 201; the print command is sent exactly when `err_code` is 0, including after an `OSError` |
| Events.RemoteName | src/events.py:35-36 | the name the file is uploaded under unquotes to `Path(filepath).name` and holds no `/`; see also `Events.PutUrlNamesFile` |
| Events.PrintCommand | src/events.py:69 | the M32 body for a remote name; stated by `Events.PrintCommandQuotesName` |
| Events.PutUrlNamesFile | src/events.py:35-46 | the upload URL is the gcodes prefix followed by a quoted name that unquotes to `Path(filepath).name` |
| Events.RemoteNameOfChild | src/events.py:35-36 | a file `dir/name` is uploaded under `quote(name)`, which unquotes to `name` |
| Events.RemoteNameHasNoQuote | src/events.py:69 | the remote name never contains a double quote |
| Events.PrintCommandQuotesName | src/events.py:69 | the print command is the `M32 "0:/gcodes/` prefix, the remote name and one closing `"`, and contains no other double quote |
| Events.PrintsUnlessRejected | src/events.py:37-59 | the file is printed if and only if the PUT returned 201 or raised `OSError`; after an `OSError` the command names the same remote file |
| Events.TruncSeconds | src/events.py:25 | whole seconds truncated toward zero: for a non-negative gap, the largest count of seconds not above it; for a negative gap, the smallest count not below it |
| Events.IsRepeat | src/events.py:25 | the debounce test of `on_created`; stated by `Events.IsRepeatWithinASecond` |
| Events.IsRepeatWithinASecond | src/events.py:25 | an event is a repeat exactly when its path equals the previous file and fewer than 1000 ms have passed since the last upload finished |
| Events.FileEventHandler.constructor | src/events.py:14-17 | no previous file, and the last event time is the construction time |
| Events.FileEventHandler.OnCreated | src/events.py:22-31 | a repeat is dropped with the state unchanged; any other event is uploaded as `UploadToDwc` specifies; the path and finish time are recorded unless the print POST raised |
| Events.FileEventHandler.Dispatch | src/events.py:11-15 | a path outside the `.gcode` filter is ignored and changes nothing; a matching path is handled as `OnCreated` specifies |
| Events.FirstEventProcessed | src/events.py:14-31 | the first event after construction is always uploaded |
| Events.SamePathTwice | src/events.py:22-31 | after a successful upload, a second event for the same path is dropped exactly when it comes less than a second after the first upload finished |
| Events.OtherPathProcessed | src/events.py:22-31 | an event for a different path right after an upload is uploaded, not dropped |
| PathWatcher.ElapsedSince | src/FilePathWatcher.py:21 | `QTime::elapsed` always lies in `[0, 86400000)` ms |
| PathWatcher.ElapsedIsGapModDay | src/FilePathWatcher.py:21-26 | after a restart at time `t`, elapsed at `now` is `(now - t) mod 86400000`, the wrap at midnight |
| PathWatcher.GCodeFileEventHandler.constructor | src/FilePathWatcher.py:12-16 | no previous file and a null timer |
| PathWatcher.GCodeFileEventHandler.Elapsed | src/FilePathWatcher.py:21 | every reading of the handler's timer, null or running, lies within one day |
| PathWatcher.GCodeFileEventHandler.IsRepeat | src/FilePathWatcher.py:21 | the debounce test of `on_created`; its timer reading is stated by `PathWatcher.ElapsedIsGapModDay`, its effect by `PathWatcher.SamePathWithinWindow` and `PathWatcher.SamePathApart` |
| PathWatcher.GCodeFileEventHandler.OnCreated | src/FilePathWatcher.py:18-26 | a repeat (same path, under 1000 ms since the last restart) emits nothing and changes nothing; otherwise the path is emitted, recorded, and the timer restarts at `now` |
| PathWatcher.GCodeFileEventHandler.Dispatch | src/FilePathWatcher.py:8-13 | a path outside the `.gcode`/`.g` filter is ignored; a matching path is handled as `OnCreated` specifies |
| PathWatcher.SamePathWithinWindow | src/FilePathWatcher.py:18-26 | the same path twice within a second: the first is emitted and the second is dropped |
| PathWatcher.SamePathApart | src/FilePathWatcher.py:18-26 | the same path again after at least a second, and less than a day later: both are emitted |
| PathWatcher.SamePathNextDay | src/FilePathWatcher.py:18-26 | the same path again between one day and one day plus a second later is dropped, because the timer wraps |
| PathWatcher.DifferentPaths | src/FilePathWatcher.py:18-26 | two different paths are both emitted, however close together |
| PathWatcher.Observer.constructor | src/FilePathWatcher.py:33 | a new observer has no watches and is not running |
| PathWatcher.Observer.UnscheduleAll | src/FilePathWatcher.py:47 | all watches are removed; running state is unchanged |
| PathWatcher.Observer.Schedule | src/FilePathWatcher.py:48 | the watch for the handler and path is appended unless the same watch is already registered, and the running state is unchanged |
| PathWatcher.Observer.Start | src/FilePathWatcher.py:51-52 | only a stopped observer can be started; it is then running with the same watches |
| PathWatcher.IsSet | src/FilePathWatcher.py:44 | Python's truth test of `path`: neither `None` nor empty; its effect is stated by `PathWatcher.FilePathWatcher.ChangePath` |
| PathWatcher.FilePathWatcher.constructor | src/FilePathWatcher.py:30-35 | a fresh observer and handler; with a path given, exactly one non-recursive watch of that path by the handler and a running observer; with no path, no watch and a stopped observer |
| PathWatcher.FilePathWatcher.ChangePath | src/FilePathWatcher.py:43-52 | an empty or missing path changes nothing; otherwise the previous watches are replaced by one non-recursive watch of the new path, the path is recorded, and the observer is running |
| PathWatcher.ChangePathTwice | src/FilePathWatcher.py:43-52 | changing to the same directory twice leaves the same single watch, so events are never delivered twice |

## Left out

- HTTP transport, desktop notifications, logging and the one-second `time.sleep` in `on_created` are not modelled. Their only visible effects are the PUT/POST outcomes and the finish time, which are parameters.
- `open(filepath, 'rb')` and the file's bytes are not modelled; a failure to open is one of the `OSError` outcomes of the PUT.
- Qt signal delivery across threads is not modelled: `GCodeFileEventHandler.OnCreated` returns the emitted path instead of emitting `created_file_sig`.
- `FilePathWatcher.run` (an empty body) and `get_emitter` (returns the handler, which the model exposes as a field) have no members of their own.
- watchdog's observer thread is not modelled: its event queue, `schedule` failing on a missing directory, stopping or joining, and event kinds other than "created". The ignore patterns and the directory flag of `RegexMatchingEventHandler` are not modelled either; the handlers here set neither.
- Windows paths (drive letters, backslash separators) are not modelled for `pathlib` or `QFileInfo`; paths are POSIX.
- File names that hold lone surrogates (which make Python's `quote` raise `UnicodeEncodeError`) do not exist in the model, because Dafny characters are Unicode scalar values.
- Wall-clock time is modelled in whole milliseconds rather than as a float. `QTime` is local time of day; daylight-saving jumps are not modelled beyond the wrap at midnight.
- `PathWatcher.SamePathApart`: states emission only for gaps shorter than one day, because the `QTime` wrap drops some later repeats (`PathWatcher.SamePathNextDay`).
- `src/main.py`, `src/DropWidget.py` and `src/Config.py` are not part of this model (GUI, drag and drop, and configuration loading).
- Single-flight uploads, deleting a file after upload and upload-only mode do not appear in the code, so they are not modelled.
