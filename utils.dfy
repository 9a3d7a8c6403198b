/**
 * `is_gcode_file` (src/utils.py): the suffix Qt's `QFileInfo` reports for the
 * file name, the text after its last `.`, must be exactly `gcode` or `g`.
 */
module Utils {
  import opened Wrappers
  import PathName
  import GcodeFilter

  /**
   * The text after the last `.` of the file name (the part after the last
   * `/`), or None when the file name has no `.`.
   */
  function DotSuffix(path: string): (r: Option<string>)
    ensures r.Some? ==> '.' !in r.value && '/' !in r.value
  {
    if path == [] || path[|path| - 1] == '/' then None
    else if path[|path| - 1] == '.' then Some([])
    else match DotSuffix(path[..|path| - 1])
      case None => None
      case Some(r) => Some(r + [path[|path| - 1]])
  }

  /** `QFileInfo::suffix`: the text after the last `.` of the file name, "" when the name has no `.`. */
  function Suffix(path: string): (r: string)
    ensures '.' !in r && '/' !in r
  {
    match DotSuffix(path)
    case None => []
    case Some(r) => r
  }

  /** `is_gcode_file`: case-sensitive test of the suffix. */
  predicate IsGcodeFile(filename: string) {
    Suffix(filename) == "gcode" || Suffix(filename) == "g"
  }

  /** A suffix that is found is preceded by a `.` at the end of the path. */
  lemma {:induction false} DotSuffixEndsPath(path: string)
    requires DotSuffix(path).Some?
    ensures PathName.EndsWith(path, ['.'] + DotSuffix(path).value)
  {
    var last := path[|path| - 1];
    if last != '.' {
      var init := path[..|path| - 1];
      DotSuffixEndsPath(init);
      var r := DotSuffix(init).value;
      assert path == init + [last];
      assert path[|path| - |r| - 2..] == init[|init| - |r| - 1..] + [last];
    }
  }

  /** A path ending in `.` and `ext` has suffix `ext`. */
  lemma {:induction false} DotSuffixOfDotted(stem: string, ext: string)
    requires '.' !in ext && '/' !in ext
    ensures DotSuffix(stem + ['.'] + ext) == Some(ext)
  {
    var path := stem + ['.'] + ext;
    if ext != [] {
      var init := ext[..|ext| - 1];
      assert path[..|path| - 1] == stem + ['.'] + init;
      DotSuffixOfDotted(stem, init);
      assert init + [ext[|ext| - 1]] == ext;
    }
  }

  /** The suffix is `ext` exactly when the path ends with `.` and `ext`. */
  lemma SuffixIs(path: string, ext: string)
    requires ext != [] && '.' !in ext && '/' !in ext
    ensures Suffix(path) == ext <==> PathName.EndsWith(path, ['.'] + ext)
  {
    if Suffix(path) == ext {
      DotSuffixEndsPath(path);
    }
    if PathName.EndsWith(path, ['.'] + ext) {
      var stem := path[..|path| - |ext| - 1];
      assert path == stem + ['.'] + ext;
      DotSuffixOfDotted(stem, ext);
    }
  }

  /** `is_gcode_file` holds exactly for the names ending in `.gcode` or `.g`, in lower case. */
  lemma IsGcodeFileIff(filename: string)
    ensures IsGcodeFile(filename) <==> PathName.EndsWith(filename, ".gcode") || PathName.EndsWith(filename, ".g")
  {
    assert ['.'] + "gcode" == ".gcode" && ['.'] + "g" == ".g";
    SuffixIs(filename, "gcode");
    SuffixIs(filename, "g");
  }

  /** For a path without a newline, `is_gcode_file` and the case-sensitive watcher filter agree. */
  lemma AgreesWithWatcherFilter(path: string)
    requires '\n' !in path
    ensures IsGcodeFile(path) <==> GcodeFilter.PatternMatches(path, GcodeFilter.WatcherExtensions, true)
  {
    IsGcodeFileIff(path);
    GcodeFilter.WatcherPatternCaseSensitive(path);
  }

  /** Names ending in `.gcode` or `.g` are G-code files. */
  lemma LowerCaseExtensionsAccepted()
    ensures IsGcodeFile("part.gcode") && IsGcodeFile("/home/user/part.g")
  {
    IsGcodeFileIff("part.gcode");
    assert "part.gcode"[4..] == ".gcode";
    IsGcodeFileIff("/home/user/part.g");
    assert "/home/user/part.g"[15..] == ".g";
  }

  /** The comparison is case-sensitive. */
  lemma UpperCaseExtensionsRejected()
    ensures !IsGcodeFile("PART.GCODE") && !IsGcodeFile("part.G")
  {
    IsGcodeFileIff("PART.GCODE");
    assert "PART.GCODE"[9] == 'E';
    IsGcodeFileIff("part.G");
    assert "part.G"[5] == 'G';
  }

  /** Only the last extension counts, and a name without `.` has no suffix. */
  lemma OtherNamesRejected()
    ensures !IsGcodeFile("part.gcode.tmp") && !IsGcodeFile("part")
  {
    IsGcodeFileIff("part.gcode.tmp");
    assert "part.gcode.tmp"[13] == 'p';
    IsGcodeFileIff("part");
    assert "part"[3] == 't';
  }

  /**
   * With watchdog's default setting, which ignores case, the watcher lets
   * `PART.GCODE` through while `is_gcode_file` rejects it.
   */
  lemma DefaultFilterDisagrees()
    ensures GcodeFilter.PatternMatches("PART.GCODE", GcodeFilter.WatcherExtensions, false)
    ensures !IsGcodeFile("PART.GCODE")
  {
    GcodeFilter.CaseSettingDecides();
    UpperCaseExtensionsRejected();
  }
}
