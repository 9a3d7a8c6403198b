/**
 * The path filter of watchdog's `RegexMatchingEventHandler` for the two
 * patterns the program registers: `.*\.gcode$` (src/events.py) and
 * `.*\.(?:gcode|g)$` (src/FilePathWatcher.py). The pattern is applied with
 * Python's `re.match`: `.` does not match a newline and `$` matches at the end
 * of the path or just before a final newline. Whether letters are compared
 * with case folding is watchdog's `case_sensitive` setting, a parameter here.
 */
module GcodeFilter {

  /** The extensions of `.*\.gcode$`. */
  const UploaderExtensions: seq<string> := ["gcode"]

  /** The extensions of `.*\.(?:gcode|g)$`. */
  const WatcherExtensions: seq<string> := ["gcode", "g"]

  /** ASCII lower-casing; the only case folding that can map a character onto one of the letters of `gcode`. */
  function ToLower(c: char): char {
    if 'A' <= c <= 'Z' then (c as int + 32) as char else c
  }

  /** Equality of two texts, with or without case folding. */
  predicate SameText(a: string, b: string, caseSensitive: bool) {
    |a| == |b| &&
    forall i :: 0 <= i < |a| ==> if caseSensitive then a[i] == b[i] else ToLower(a[i]) == ToLower(b[i])
  }

  /** `q` ends with `.` followed by `ext`. */
  predicate EndsWithExtension(q: string, ext: string, caseSensitive: bool) {
    |q| > |ext| && q[|q| - |ext| - 1] == '.' && SameText(q[|q| - |ext|..], ext, caseSensitive)
  }

  /** The path with one final newline removed, where `$` may match. */
  function BeforeFinalNewline(p: string): (q: string)
    ensures '\n' !in p ==> q == p
  {
    if |p| > 0 && p[|p| - 1] == '\n' then p[..|p| - 1] else p
  }

  /** `re.match(r".*\.(?:e1|e2|...)$", p)` succeeds. */
  predicate PatternMatches(p: string, exts: seq<string>, caseSensitive: bool) {
    var q := BeforeFinalNewline(p);
    '\n' !in q && exists i :: 0 <= i < |exts| && EndsWithExtension(q, exts[i], caseSensitive)
  }

  /** Whatever `.*\.gcode$` lets through, `.*\.(?:gcode|g)$` lets through too. */
  lemma UploaderPatternWithinWatcherPattern(p: string, caseSensitive: bool)
    requires PatternMatches(p, UploaderExtensions, caseSensitive)
    ensures PatternMatches(p, WatcherExtensions, caseSensitive)
  {
    var q := BeforeFinalNewline(p);
    var i :| 0 <= i < |UploaderExtensions| && EndsWithExtension(q, UploaderExtensions[i], caseSensitive);
    assert EndsWithExtension(q, WatcherExtensions[0], caseSensitive);
  }

  lemma ExactExtension(q: string, ext: string)
    ensures EndsWithExtension(q, ext, true) <==> |q| > |ext| && q[|q| - |ext| - 1..] == ['.'] + ext
  {
    if |q| > |ext| {
      var tail := q[|q| - |ext| - 1..];
      assert tail == [q[|q| - |ext| - 1]] + q[|q| - |ext|..];
      if SameText(q[|q| - |ext|..], ext, true) {
        assert q[|q| - |ext|..] == ext;
      }
    }
  }

  /** Without case folding the filter is an exact test of the final characters. */
  lemma WatcherPatternCaseSensitive(p: string)
    requires '\n' !in p
    ensures PatternMatches(p, WatcherExtensions, true) <==>
            (|p| >= 6 && p[|p| - 6..] == ".gcode") || (|p| >= 2 && p[|p| - 2..] == ".g")
  {
    ExactExtension(p, "gcode");
    ExactExtension(p, "g");
    assert BeforeFinalNewline(p) == p;
    assert WatcherExtensions[0] == "gcode" && WatcherExtensions[1] == "g";
    if PatternMatches(p, WatcherExtensions, true) {
      var i :| 0 <= i < |WatcherExtensions| && EndsWithExtension(p, WatcherExtensions[i], true);
      assert i == 0 || i == 1;
    }
    assert EndsWithExtension(p, "gcode", true) ==> EndsWithExtension(p, WatcherExtensions[0], true);
    assert EndsWithExtension(p, "g", true) ==> EndsWithExtension(p, WatcherExtensions[1], true);
  }

  /** With case folding, `PART.GCODE` passes the filter; without it, it does not. */
  lemma CaseSettingDecides()
    ensures PatternMatches("PART.GCODE", WatcherExtensions, false)
    ensures !PatternMatches("PART.GCODE", WatcherExtensions, true)
  {
    assert EndsWithExtension("PART.GCODE", WatcherExtensions[0], false);
    WatcherPatternCaseSensitive("PART.GCODE");
  }
}
