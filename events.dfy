/**
 * src/events.py: the command-line uploader's handler. A "created" event for a
 * `.gcode` file is debounced against the previous processed path and the time
 * it finished, then the file is PUT to the Duet Web Control (DWC) board and,
 * unless the PUT answered with a status other than 201, printed with `M32`.
 *
 * The network is replaced by the outcome of each request, and the clock by
 * readings in milliseconds passed in by the caller.
 */
module Events {
  import opened Wrappers
  import UrlQuote
  import PathName
  import GcodeFilter

  /** Where uploaded files go: the board's `0:/gcodes` directory, over its REST API. */
  const UploadUrlPrefix: string := "http://192.168.1.38/machine/file/gcodes/"

  /** The endpoint that runs a line of G-code. */
  const CodeUrl: string := "http://192.168.1.38/machine/code"

  /** The print command up to the file name: `M32 "0:/gcodes/`. */
  const PrintCommandPrefix: string := "M32 \"0:/gcodes/"

  /**
   * How the upload of the file ended: `requests.put` returned a status code,
   * or an OSError was raised (the file could not be opened, or the transport
   * failed: requests' connection errors are OSError subclasses).
   */
  datatype PutOutcome = Status(code: int) | PutOSError

  /** How `requests.post` of the print command ended; nothing catches an error there. */
  datatype PostOutcome = Answered(code: int) | PostOSError

  /** What one call of `upload_to_dwc` did. */
  datatype Upload = Upload(
    putUrl: string,             // the URL the PUT goes to, if it is sent
    errCode: int,               // the local `err_code` when the try block is left
    printBody: Option<string>,  // the body POSTed to CodeUrl, when `start_printing` ran
    raised: bool)               // whether the call ended with an exception

  /** What one call of `on_created` did. */
  datatype Handled = Ignored | Dropped | Processed(upload: Upload)

  /** `_sanitize_filename`: the name quoted once, so that the board decodes it back to itself. */
  function SanitizeFilename(filename: string): (r: string)
    ensures UrlQuote.Unquote(r) == Some(filename)
    ensures forall i :: 0 <= i < |r| ==> UrlQuote.IsQuotedChar(r[i])
    ensures '/' !in filename ==> '/' !in r
  {
    UrlQuote.QuoteRoundTrip(filename);
    UrlQuote.QuoteAlphabet(filename);
    if '/' !in filename then UrlQuote.QuoteKeepsSegment(filename); UrlQuote.Quote(filename)
    else UrlQuote.Quote(filename)
  }

  /** The remote name of a local file: its last path component, sanitized. */
  function RemoteName(filepath: string): (r: string)
    ensures UrlQuote.Unquote(r) == Some(PathName.Name(filepath))
    ensures '/' !in r
  {
    SanitizeFilename(PathName.Name(filepath))
  }

  /** The body of the print request for a remote file name. */
  function PrintCommand(filename: string): string {
    PrintCommandPrefix + filename + "\""
  }

  /**
   * The full effect `upload_to_dwc(filepath)` must have, given how its two
   * requests end: the PUT goes to the upload URL of the remote name, `err_code`
   * is 1 exactly when the PUT answered with a status other than 201, the print
   * command is sent exactly when `err_code` is 0, and the call raises exactly
   * when the print command was sent and its POST failed.
   */
  ghost predicate IsUploadOf(u: Upload, filepath: string, put: PutOutcome, post: PostOutcome) {
    var name := RemoteName(filepath);
    && u.putUrl == UploadUrlPrefix + name
    && (u.errCode == 1 <==> put.Status? && put.code != 201)
    && (u.errCode == 0 <==> !(put.Status? && put.code != 201))
    && (u.printBody.Some? <==> u.errCode == 0)
    && (u.printBody.Some? ==> u.printBody.value == PrintCommand(name))
    && (u.raised <==> u.printBody.Some? && post.PostOSError?)
  }

  /** `start_printing(filename)`: POSTs the M32 command; an OSError from the POST propagates. */
  method StartPrinting(filename: string, post: PostOutcome) returns (url: string, body: string, raised: bool)
    ensures url == CodeUrl
    ensures body == PrintCommandPrefix + filename + "\""
    ensures raised <==> post.PostOSError?
  {
    url := CodeUrl;
    body := PrintCommand(filename);
    raised := post.PostOSError?;
  }

  /** `upload_to_dwc(filepath)`. */
  method UploadToDwc(filepath: string, put: PutOutcome, post: PostOutcome) returns (u: Upload)
    ensures IsUploadOf(u, filepath, put, post)
  {
    var fname := SanitizeFilename(PathName.Name(filepath));
    var errCode := 0;
    var putUrl := UploadUrlPrefix + fname;
    match put {
      case Status(code) =>
        errCode := if code == 201 then 0 else 1;
      case PutOSError =>
    }
    var printBody := None;
    var raised := false;
    if errCode == 0 {
      var url, body;
      url, body, raised := StartPrinting(fname, post);
      printBody := Some(body);
    }
    u := Upload(putUrl, errCode, printBody, raised);
  }

  /** The PUT URL ends in one path segment that decodes to the file's own name. */
  lemma PutUrlNamesFile(filepath: string)
    ensures var url := UploadUrlPrefix + RemoteName(filepath);
            url[..|UploadUrlPrefix|] == UploadUrlPrefix &&
            '/' !in url[|UploadUrlPrefix|..] &&
            UrlQuote.Unquote(url[|UploadUrlPrefix|..]) == Some(PathName.Name(filepath))
  {
    var url := UploadUrlPrefix + RemoteName(filepath);
    assert url[|UploadUrlPrefix|..] == RemoteName(filepath);
  }

  /** For a file `dir/name`, the board is sent `name`, quoted once. */
  lemma RemoteNameOfChild(dir: string, name: string)
    requires '/' !in name && name != [] && name != "."
    ensures RemoteName(dir + "/" + name) == UrlQuote.Quote(name)
    ensures UrlQuote.Unquote(RemoteName(dir + "/" + name)) == Some(name)
  {
    PathName.NameOfChild(dir, name);
  }

  /** A remote name never holds a double quote, which quoting always escapes. */
  lemma RemoteNameHasNoQuote(filepath: string)
    ensures '"' !in RemoteName(filepath)
  {
    UrlQuote.QuoteAlphabet(PathName.Name(filepath));
  }

  /** The file name in the print command cannot end the quoted string early: its only `"` after the prefix is the closing one. */
  lemma PrintCommandQuotesName(filepath: string)
    ensures var cmd := PrintCommand(RemoteName(filepath));
            cmd[..|PrintCommandPrefix|] == PrintCommandPrefix &&
            cmd[|cmd| - 1] == '"' &&
            '"' !in cmd[|PrintCommandPrefix|..|cmd| - 1] &&
            UrlQuote.Unquote(cmd[|PrintCommandPrefix|..|cmd| - 1]) == Some(PathName.Name(filepath))
  {
    var name := RemoteName(filepath);
    var cmd := PrintCommand(name);
    assert cmd[|PrintCommandPrefix|..|cmd| - 1] == name;
    RemoteNameHasNoQuote(filepath);
  }

  /** The print command is sent exactly when the PUT answered 201 or raised an OSError. */
  lemma PrintsUnlessRejected(u: Upload, filepath: string, put: PutOutcome, post: PostOutcome)
    requires IsUploadOf(u, filepath, put, post)
    ensures u.printBody.Some? <==> put == Status(201) || put == PutOSError
    ensures put == PutOSError ==> u.errCode == 0 && u.printBody == Some(PrintCommand(RemoteName(filepath)))
  {
  }

  /** `int(seconds)` for a duration given in milliseconds: truncation toward zero, as Python's `int` of a float. */
  function TruncSeconds(ms: int): (r: int)
    ensures ms >= 0 ==> 0 <= r && r * 1000 <= ms < r * 1000 + 1000
    ensures ms < 0 ==> r <= 0 && r * 1000 - 1000 < ms <= r * 1000
  {
    if ms >= 0 then ms / 1000 else -((-ms) / 1000)
  }

  /** The debounce test of `on_created`: same path as the last processed one, under one whole second later. */
  predicate IsRepeat(prevFile: Option<string>, lastEventTime: int, path: string, now: int) {
    prevFile == Some(path) && TruncSeconds(now - lastEventTime) < 1
  }

  /** Whole-second truncation below 1 is the same as less than 1000 ms, whatever the sign. */
  lemma IsRepeatWithinASecond(prevFile: Option<string>, lastEventTime: int, path: string, now: int)
    ensures IsRepeat(prevFile, lastEventTime, path, now) <==> prevFile == Some(path) && now - lastEventTime < 1000
  {
  }

  /** `FileEventHandler`: the last processed path and the time its processing ended. */
  class FileEventHandler {
    var prevFile: Option<string>
    var lastEventTime: int

    /** `FileEventHandler()`, constructed when the clock reads `now`. */
    constructor (now: nat)
      ensures prevFile == None && lastEventTime == now
    {
      prevFile := None;
      lastEventTime := now;
    }

    /**
     * `on_created(event)` for a file at `path`, the clock reading `now` at the
     * check and `finishedAt` after the upload returned.
     */
    method OnCreated(path: string, now: nat, put: PutOutcome, post: PostOutcome, finishedAt: nat)
      returns (h: Handled)
      modifies this
      ensures old(IsRepeat(prevFile, lastEventTime, path, now)) ==> h == Dropped
      ensures !old(IsRepeat(prevFile, lastEventTime, path, now)) ==> h.Processed? && IsUploadOf(h.upload, path, put, post)
      ensures h.Processed? && !h.upload.raised ==> prevFile == Some(path) && lastEventTime == finishedAt
      ensures !(h.Processed? && !h.upload.raised) ==> prevFile == old(prevFile) && lastEventTime == old(lastEventTime)
    {
      if IsRepeat(prevFile, lastEventTime, path, now) {
        return Dropped;
      }
      var u := UploadToDwc(path, put, post);
      h := Processed(u);
      if u.raised {
        return;
      }
      prevFile := Some(path);
      lastEventTime := finishedAt;
    }

    /**
     * watchdog's `RegexMatchingEventHandler.dispatch` for a "created" event:
     * `on_created` runs only for paths matching `.*\.gcode$`.
     */
    method Dispatch(path: string, caseSensitive: bool, now: nat, put: PutOutcome, post: PostOutcome, finishedAt: nat)
      returns (h: Handled)
      modifies this
      ensures !GcodeFilter.PatternMatches(path, GcodeFilter.UploaderExtensions, caseSensitive) ==>
                h == Ignored && prevFile == old(prevFile) && lastEventTime == old(lastEventTime)
      ensures GcodeFilter.PatternMatches(path, GcodeFilter.UploaderExtensions, caseSensitive) ==>
                h != Ignored && (h == Dropped <==> old(IsRepeat(prevFile, lastEventTime, path, now)))
      ensures h.Processed? ==> IsUploadOf(h.upload, path, put, post)
      ensures h.Processed? && !h.upload.raised ==> prevFile == Some(path) && lastEventTime == finishedAt
      ensures !(h.Processed? && !h.upload.raised) ==> prevFile == old(prevFile) && lastEventTime == old(lastEventTime)
    {
      if !GcodeFilter.PatternMatches(path, GcodeFilter.UploaderExtensions, caseSensitive) {
        return Ignored;
      }
      h := OnCreated(path, now, put, post, finishedAt);
    }
  }

  /** Right after construction there is no previous path, so the first event is processed whatever the clock says. */
  method FirstEventProcessed(path: string, createdAt: nat, now: nat, put: PutOutcome, post: PostOutcome, finishedAt: nat)
    returns (h: Handled)
    ensures h.Processed? && IsUploadOf(h.upload, path, put, post)
  {
    var handler := new FileEventHandler(createdAt);
    h := handler.OnCreated(path, now, put, post, finishedAt);
  }

  /**
   * Two events for the same path: the second is dropped when it comes less
   * than a second after the first one's upload finished, and processed
   * otherwise. The window counts from the end of the first upload.
   */
  method SamePathTwice(path: string, createdAt: nat, now1: nat, put1: PutOutcome, finished1: nat,
                       now2: nat, put2: PutOutcome, post: PostOutcome, finished2: nat)
    returns (first: Handled, second: Handled)
    requires post.Answered?
    ensures first.Processed? && !first.upload.raised
    ensures second == Dropped <==> now2 - finished1 < 1000
  {
    var handler := new FileEventHandler(createdAt);
    first := handler.OnCreated(path, now1, put1, post, finished1);
    IsRepeatWithinASecond(handler.prevFile, handler.lastEventTime, path, now2);
    second := handler.OnCreated(path, now2, put2, post, finished2);
  }

  /** An event for another path than the last processed one is processed, however soon it comes. */
  method OtherPathProcessed(path1: string, path2: string, createdAt: nat, now1: nat, put1: PutOutcome, finished1: nat,
                            now2: nat, put2: PutOutcome, post: PostOutcome, finished2: nat)
    returns (first: Handled, second: Handled)
    requires path1 != path2
    ensures first.Processed? && second.Processed?
    ensures IsUploadOf(second.upload, path2, put2, post)
  {
    var handler := new FileEventHandler(createdAt);
    first := handler.OnCreated(path1, now1, put1, post, finished1);
    second := handler.OnCreated(path2, now2, put2, post, finished2);
  }
}
