/**
 * The last component of a file path, as `pathlib.Path(p).name` gives it for a
 * POSIX path: the file name that src/events.py uploads under.
 */
module PathName {

  /** `t` is a suffix of `s`. */
  predicate EndsWith(s: string, t: string) {
    |s| >= |t| && s[|s| - |t|..] == t
  }

  /** Where the text after the last `sep` starts: just past it, or 0 when `s` has none. */
  function StartAfterLast(s: string, sep: char): (k: nat)
    ensures k <= |s|
    ensures k > 0 ==> s[k - 1] == sep
    ensures forall i :: k <= i < |s| ==> s[i] != sep
  {
    if s == [] then 0
    else if s[|s| - 1] == sep then |s|
    else StartAfterLast(s[..|s| - 1], sep)
  }

  /** The longest suffix of `s` that does not contain `sep`. */
  function AfterLast(s: string, sep: char): (r: string)
    ensures sep !in r && EndsWith(s, r)
    ensures |r| < |s| ==> s[|s| - |r| - 1] == sep
  {
    s[StartAfterLast(s, sep)..]
  }

  /** After the last `sep`, what follows is exactly the tail. */
  lemma AfterLastOfJoin(dir: string, sep: char, tail: string)
    requires sep !in tail
    ensures AfterLast(dir + [sep] + tail, sep) == tail
  {
    var s := dir + [sep] + tail;
    var k := StartAfterLast(s, sep);
    assert s[|dir|] == sep;
    assert k == |dir| + 1;
    assert s[k..] == tail;
  }

  /**
   * `PurePosixPath(p).name`: the last component, skipping empty components
   * (repeated or trailing `/`) and `.` components, or "" when there is none.
   */
  function Name(p: string): (r: string)
    ensures '/' !in r && r != "."
    decreases |p|
  {
    if p == [] then []
    else
      var seg := AfterLast(p, '/');
      if seg != [] && seg != "." then seg
      else if |seg| == |p| then []
      else Name(p[..|p| - |seg| - 1])
  }

  /** The name of `dir/name` is `name`, for a name that is a real component. */
  lemma NameOfChild(dir: string, name: string)
    requires '/' !in name && name != [] && name != "."
    ensures Name(dir + "/" + name) == name
  {
    AfterLastOfJoin(dir, '/', name);
  }
}
