/**
 * src/FilePathWatcher.py: the desktop application's watcher. A Qt-side
 * handler emits `created_file_sig` for a new `.gcode` or `.g` file unless the
 * same path was emitted less than 1000 ms before, and a watcher owns a
 * watchdog observer that it re-points at a new directory on request.
 *
 * Qt's `QTime` and watchdog's observer thread are replaced by what the
 * program relies on: a time of day in milliseconds, a list of scheduled
 * watches and a running flag.
 */
module PathWatcher {
  import opened Wrappers
  import GcodeFilter

  /** Milliseconds in a day: `QTime` measures the time of day, and `elapsed()` wraps at midnight. */
  const DayMs: int := 86_400_000

  /**
   * `QTime::elapsed()` for a timer restarted at time of day `start`, read at
   * clock reading `now`: the difference of the two times of day, plus a
   * day when it is negative.
   */
  function ElapsedSince(start: int, now: nat): (r: int)
    requires 0 <= start < DayMs
    ensures 0 <= r < DayMs
  {
    var n := now % DayMs - start;
    if n < 0 then n + DayMs else n
  }

  /** The timer reports the real gap between restart and reading, modulo one day. */
  lemma ElapsedIsGapModDay(restartedAt: nat, now: nat)
    ensures ElapsedSince(restartedAt % DayMs, now) == (now - restartedAt) % DayMs
  {
    var qn, rn := now / DayMs, now % DayMs;
    var qt, rt := restartedAt / DayMs, restartedAt % DayMs;
    var gap := now - restartedAt;
    if rn >= rt {
      ModOfDecomposition(gap, qn - qt, rn - rt);
    } else {
      ModOfDecomposition(gap, qn - qt - 1, rn - rt + DayMs);
    }
  }

  lemma ModOfDecomposition(a: int, q: int, r: int)
    requires a == q * DayMs + r && 0 <= r < DayMs
    ensures a % DayMs == r
  {
  }

  /** `GCodeFileEventHandler`: the last emitted path and the timer restarted when it was emitted. */
  class GCodeFileEventHandler {
    var prevFile: Option<string>
    var timerStart: Option<int>  // time of day of the last restart; None while the QTime is null

    ghost predicate Valid()
      reads this
    {
      && (prevFile.Some? ==> timerStart.Some?)
      && (timerStart.Some? ==> 0 <= timerStart.value < DayMs)
    }

    constructor ()
      ensures Valid() && prevFile == None && timerStart == None
    {
      prevFile := None;
      timerStart := None;
    }

    /** `__event_timer.elapsed()`, the clock reading `now`; a null QTime reports 0. */
    function Elapsed(now: nat): (r: int)
      requires Valid()
      reads this
      ensures 0 <= r < DayMs
    {
      match timerStart
      case None => 0
      case Some(start) => ElapsedSince(start, now)
    }

    /** The debounce test of `on_created`. */
    predicate IsRepeat(path: string, now: nat)
      requires Valid()
      reads this
    {
      prevFile == Some(path) && Elapsed(now) < 1000
    }

    /** `on_created(event)` for a file at `path`, the clock reading `now`; returns what was emitted. */
    method OnCreated(path: string, now: nat) returns (emitted: Option<string>)
      requires Valid()
      modifies this
      ensures Valid()
      ensures old(IsRepeat(path, now)) ==>
                emitted == None && prevFile == old(prevFile) && timerStart == old(timerStart)
      ensures !old(IsRepeat(path, now)) ==>
                emitted == Some(path) && prevFile == Some(path) && timerStart == Some(now % DayMs)
    {
      if IsRepeat(path, now) {
        return None;
      }
      emitted := Some(path);
      prevFile := Some(path);
      timerStart := Some(now % DayMs);
    }

    /** watchdog's dispatch of a "created" event: `on_created` runs only for paths matching `.*\.(?:gcode|g)$`. */
    method Dispatch(path: string, caseSensitive: bool, now: nat) returns (emitted: Option<string>)
      requires Valid()
      modifies this
      ensures Valid()
      ensures !GcodeFilter.PatternMatches(path, GcodeFilter.WatcherExtensions, caseSensitive) ==>
                emitted == None && prevFile == old(prevFile) && timerStart == old(timerStart)
      ensures GcodeFilter.PatternMatches(path, GcodeFilter.WatcherExtensions, caseSensitive) && old(IsRepeat(path, now)) ==>
                emitted == None && prevFile == old(prevFile) && timerStart == old(timerStart)
      ensures GcodeFilter.PatternMatches(path, GcodeFilter.WatcherExtensions, caseSensitive) && !old(IsRepeat(path, now)) ==>
                emitted == Some(path) && prevFile == Some(path) && timerStart == Some(now % DayMs)
    {
      if !GcodeFilter.PatternMatches(path, GcodeFilter.WatcherExtensions, caseSensitive) {
        return None;
      }
      emitted := OnCreated(path, now);
    }
  }

  /** Two events for the same path less than 1000 ms apart: only the first is emitted. */
  method SamePathWithinWindow(path: string, t1: nat, t2: nat) returns (first: Option<string>, second: Option<string>)
    requires t1 <= t2 < t1 + 1000
    ensures first == Some(path) && second == None
  {
    var handler := new GCodeFileEventHandler();
    first := handler.OnCreated(path, t1);
    ElapsedIsGapModDay(t1, t2);
    second := handler.OnCreated(path, t2);
  }

  /** Two events for the same path at least 1000 ms (and less than a day) apart: both are emitted. */
  method SamePathApart(path: string, t1: nat, t2: nat) returns (first: Option<string>, second: Option<string>)
    requires t1 + 1000 <= t2 < t1 + DayMs
    ensures first == Some(path) && second == Some(path)
  {
    var handler := new GCodeFileEventHandler();
    first := handler.OnCreated(path, t1);
    ElapsedIsGapModDay(t1, t2);
    second := handler.OnCreated(path, t2);
  }

  /** Because the timer wraps at midnight, the same path again a whole day later is taken for a repeat. */
  method SamePathNextDay(path: string, t1: nat, t2: nat) returns (first: Option<string>, second: Option<string>)
    requires t1 + DayMs <= t2 < t1 + DayMs + 1000
    ensures first == Some(path) && second == None
  {
    var handler := new GCodeFileEventHandler();
    first := handler.OnCreated(path, t1);
    ElapsedIsGapModDay(t1, t2);
    second := handler.OnCreated(path, t2);
  }

  /** Events for two different paths are both emitted, whatever the times. */
  method DifferentPaths(path1: string, path2: string, t1: nat, t2: nat) returns (first: Option<string>, second: Option<string>)
    requires path1 != path2
    ensures first == Some(path1) && second == Some(path2)
  {
    var handler := new GCodeFileEventHandler();
    first := handler.OnCreated(path1, t1);
    second := handler.OnCreated(path2, t2);
  }

  /** A watch as watchdog's `Observer.schedule` records it: directory, recursion flag, handler. */
  datatype Watch = Watch(path: string, recursive: bool, handler: GCodeFileEventHandler)

  /** watchdog's `Observer`: the scheduled watches and whether its thread runs. */
  class Observer {
    var watches: seq<Watch>
    var alive: bool

    constructor ()
      ensures watches == [] && !alive
    {
      watches := [];
      alive := false;
    }

    /** `unschedule_all()`: every watch is removed. */
    method UnscheduleAll()
      modifies this
      ensures watches == [] && alive == old(alive)
    {
      watches := [];
    }

    /** `schedule(handler, path, recursive)`: a watch equal to one already scheduled is not added twice. */
    method Schedule(handler: GCodeFileEventHandler, path: string, recursive: bool)
      modifies this
      ensures var w := Watch(path, recursive, handler);
              watches == if w in old(watches) then old(watches) else old(watches) + [w]
      ensures alive == old(alive)
    {
      var w := Watch(path, recursive, handler);
      if w !in watches {
        watches := watches + [w];
      }
    }

    /** `start()`: a thread can be started only once. */
    method Start()
      requires !alive
      modifies this
      ensures alive && watches == old(watches)
    {
      alive := true;
    }
  }

  /** Python's truth test of the `path` argument: neither None nor "". */
  predicate IsSet(path: Option<string>) {
    path.Some? && path.value != ""
  }

  /** `FilePathWatcher`: the watched directory, the observer and the one handler it registers. */
  class FilePathWatcher {
    var path: Option<string>
    const observer: Observer
    const eventHandler: GCodeFileEventHandler

    /** One watch, on the current directory and not recursive, while the observer runs; none before. */
    ghost predicate Valid()
      reads this, observer
    {
      || (!observer.alive && observer.watches == [])
      || (observer.alive && IsSet(path) && observer.watches == [Watch(path.value, false, eventHandler)])
    }

    /** `FilePathWatcher(path)`. */
    constructor (path: Option<string>)
      ensures Valid() && fresh(observer) && fresh(eventHandler)
      ensures eventHandler.Valid() && eventHandler.prevFile == None
      ensures this.path == path
      ensures IsSet(path) ==> observer.watches == [Watch(path.value, false, eventHandler)] && observer.alive
      ensures !IsSet(path) ==> observer.watches == [] && !observer.alive
    {
      this.path := path;
      observer := new Observer();
      eventHandler := new GCodeFileEventHandler();
      new;
      ChangePath(path);
    }

    /**
     * `change_path(path)`: nothing happens for an unset path; otherwise every
     * watch is replaced by one non-recursive watch on `path`, and the observer
     * is started if it was not running.
     */
    method ChangePath(path: Option<string>)
      requires Valid()
      modifies this, observer
      ensures Valid()
      ensures !IsSet(path) ==>
                this.path == old(this.path) && observer.watches == old(observer.watches) && observer.alive == old(observer.alive)
      ensures IsSet(path) ==>
                this.path == path && observer.watches == [Watch(path.value, false, eventHandler)] && observer.alive
    {
      if !IsSet(path) {
        return;
      }
      observer.UnscheduleAll();
      observer.Schedule(eventHandler, path.value, false);
      this.path := path;
      if !observer.alive {
        observer.Start();
      }
    }
  }

  /** Re-pointing the watcher at the same directory twice leaves the same single watch as doing it once. */
  method ChangePathTwice(initial: Option<string>, dir: string) returns (once: seq<Watch>, twice: seq<Watch>)
    requires dir != ""
    ensures |once| == 1 && once[0].path == dir && !once[0].recursive
    ensures twice == once
  {
    var watcher := new FilePathWatcher(initial);
    watcher.ChangePath(Some(dir));
    once := watcher.observer.watches;
    watcher.ChangePath(Some(dir));
    twice := watcher.observer.watches;
  }
}
