/** log.py: a small logging class. Settings are the defaults with the caller's overrides; every
    event is formatted as "<timestamp> <host> <pid> <ID> (<LEVEL>): <event>", kept in the
    in-memory event log when its level passes the log level, and printed, written to files and
    published according to their own levels. The hostname, the process id and the clock are
    parameters; printing, file appends and the AMQP publish are reported as outputs. */
module Log {
  import opened Wrappers
  import opened Strings

  // ---------------------------------------------------------------------------------------------
  // levels

  const NONE := 0
  const CRITICAL := 1
  const ERROR := 2
  const WARNING := 3
  const INFO := 4
  const DEBUG := 5

  const NAMES: seq<string> := ["NONE", "CRITICAL", "ERROR", "WARNING", "INFO", "DEBUG"]

  /** `Log.levels.NAMES[level]`, with Python's negative indices; IndexError outside -6..5. */
  function LevelName(level: int): (r: Result<string>)
    ensures 0 <= level < 6 ==> r == Ok(NAMES[level])
    ensures -6 <= level < 0 ==> r == Ok(NAMES[level + 6])
    ensures r.Err? <==> !(-6 <= level < 6)
  {
    if 0 <= level < |NAMES| then Ok(NAMES[level])
    else if -|NAMES| <= level < 0 then Ok(NAMES[level + |NAMES|])
    else Err(IndexError)
  }

  /** Each level constant names its own entry, the names are distinct, and the levels grow from
      NONE to DEBUG. */
  lemma LevelNames()
    ensures LevelName(NONE) == Ok("NONE") && LevelName(CRITICAL) == Ok("CRITICAL")
    ensures LevelName(ERROR) == Ok("ERROR") && LevelName(WARNING) == Ok("WARNING")
    ensures LevelName(INFO) == Ok("INFO") && LevelName(DEBUG) == Ok("DEBUG")
    ensures NONE < CRITICAL < ERROR < WARNING < INFO < DEBUG
    ensures forall i, j :: 0 <= i < j < 6 ==> NAMES[i] != NAMES[j]
    ensures LevelName(-1) == Ok("DEBUG") && LevelName(6) == Err(IndexError)
  {
  }

  // ---------------------------------------------------------------------------------------------
  // settings

  /** The AMQP connection settings; empty when publishing is off. */
  type AmqpInfo = map<string, string>

  datatype Settings = Settings(timestamp: bool, utc: bool, logLevel: int, logStdout: int,
                               logAmqp: AmqpInfo, logFile: seq<(int, string)>)

  /** The keyword arguments of the constructor; None for a key not passed (or passed as None,
      for logAmqp and logFile). */
  datatype SettingsArg = SettingsArg(timestamp: Option<bool>, utc: Option<bool>,
                                     logLevel: Option<int>, logStdout: Option<int>,
                                     logAmqp: Option<AmqpInfo>,
                                     logFile: Option<seq<(int, string)>>)

  const NO_SETTINGS := SettingsArg(None, None, None, None, None, None)

  function Pick<T>(o: Option<T>, default: T): T
  {
    if o.Some? then o.value else default
  }

  /** `dict(defaults.items() + settings.items())`, then a None logAmqp becomes {} and a None
      logFile becomes []. */
  function Merge(s: SettingsArg): Settings
  {
    Settings(Pick(s.timestamp, true), Pick(s.utc, true), Pick(s.logLevel, DEBUG),
             Pick(s.logStdout, NONE), Pick(s.logAmqp, map[]), Pick(s.logFile, []))
  }

  /** A passed key overrides its default and an absent key keeps it. */
  lemma MergeOverrides(s: SettingsArg)
    ensures var m := Merge(s);
            (s.logLevel.Some? ==> m.logLevel == s.logLevel.value) &&
            (s.logLevel.None? ==> m.logLevel == DEBUG) &&
            (s.logStdout.Some? ==> m.logStdout == s.logStdout.value) &&
            (s.logStdout.None? ==> m.logStdout == NONE) &&
            (s.logAmqp.Some? ==> m.logAmqp == s.logAmqp.value) &&
            (s.logAmqp.None? ==> m.logAmqp == map[]) &&
            (s.logFile.Some? ==> m.logFile == s.logFile.value) &&
            (s.logFile.None? ==> m.logFile == []) &&
            (s.utc.Some? ==> m.utc == s.utc.value) && (s.utc.None? ==> m.utc) &&
            (s.timestamp.Some? ==> m.timestamp == s.timestamp.value) && (s.timestamp.None? ==> m.timestamp)
    ensures Merge(NO_SETTINGS) == Settings(true, true, DEBUG, NONE, map[], [])
  {
  }

  // ---------------------------------------------------------------------------------------------
  // events

  predicate NoBraces(s: string)
  {
    forall i :: 0 <= i < |s| ==> s[i] != '{' && s[i] != '}'
  }

  /** The default template filled in: `' '.join(['{0}', host, str(pid), ID, '({1}): {2}'])`
      formatted with the timestamp, the level name and the event. */
  function Format(timestamp: string, host: string, pid: int, id: string, name: string,
                  event: string): string
  {
    timestamp + " " + host + " " + IntToString(pid) + " " + id + " (" + name + "): " + event
  }

  /** The formatted event starts with the timestamp and a space and ends with the level name in
      parentheses, a colon, a space and the event. */
  lemma FormatShape(timestamp: string, host: string, pid: int, id: string, name: string,
                    event: string)
    ensures var f := Format(timestamp, host, pid, id, name, event);
            var tail := " (" + name + "): " + event;
            |f| > |timestamp| + |tail| &&
            f[..|timestamp| + 1] == timestamp + " " &&
            f[|f| - |tail|..] == tail
  {
    var mid := " " + host + " " + IntToString(pid) + " " + id;
    var tail := " (" + name + "): " + event;
    var f := Format(timestamp, host, pid, id, name, event);
    assert f == timestamp + mid + tail;
    assert (timestamp + mid + tail)[..|timestamp| + 1] == timestamp + " ";
  }

  /** The log files an event is appended to: those whose level is at least the event's, in the
      order they are listed. */
  function FilesFor(level: int, files: seq<(int, string)>): (r: seq<string>)
    ensures |r| <= |files|
    decreases |files|
  {
    if files == [] then []
    else (if level <= files[0].0 then [files[0].1] else []) + FilesFor(level, files[1..])
  }

  /** A file is written iff some entry names it with a level at least the event's. */
  lemma {:induction false} FilesForMeaning(level: int, files: seq<(int, string)>, name: string)
    ensures name in FilesFor(level, files) <==>
            exists k :: 0 <= k < |files| && files[k].1 == name && level <= files[k].0
    decreases |files|
  {
    if files != [] {
      FilesForMeaning(level, files[1..], name);
      if name in FilesFor(level, files[1..]) {
        var k :| 0 <= k < |files[1..]| && files[1..][k].1 == name && level <= files[1..][k].0;
        assert files[k + 1] == files[1..][k];
      }
      if exists k :: 0 <= k < |files| && files[k].1 == name && level <= files[k].0 {
        var k :| 0 <= k < |files| && files[k].1 == name && level <= files[k].0;
        if k > 0 {
          assert files[1..][k - 1] == files[k];
        }
      }
    }
  }

  /** What logEvent did besides updating the event log. */
  datatype Effects = Effects(printed: bool, written: seq<string>, published: bool)

  /** The event log, the returned string and the effects of logEvent, with the hostname, the pid
      and the clock reading as inputs. A level outside -6..5 raises IndexError before anything
      is recorded. */
  function LogEventSpec(s: Settings, id: string, eventLog: seq<(int, string)>, level: int,
                        event: string, host: string, pid: int, utcNow: string,
                        localNow: string): (seq<(int, string)>, Result<string>, Effects)
  {
    match LevelName(level)
    case Err(e) => (eventLog, Err(e), Effects(false, [], false))
    case Ok(name) =>
      var f := Format(if s.utc then utcNow else localNow, host, pid, id, name, event);
      (if level <= s.logLevel then eventLog + [(level, f)] else eventLog,
       Ok(f),
       Effects(level <= s.logStdout, FilesFor(level, s.logFile), s.logAmqp != map[]))
  }

  /** With the default settings every level 0..5 is recorded and only level 0 (NONE) is
      printed; nothing is written or published. */
  lemma DefaultGates(level: int, event: string, host: string, pid: int, utcNow: string,
                     localNow: string, eventLog: seq<(int, string)>)
    requires 0 <= level < 6
    ensures var (log', r, fx) := LogEventSpec(Merge(NO_SETTINGS), "", eventLog, level, event, host,
                                             pid, utcNow, localNow);
            r.Ok? && log' == eventLog + [(level, r.value)] &&
            (fx.printed <==> level == NONE) && fx.written == [] && !fx.published
  {
  }

  /** The event log grows by exactly the returned string, and only when the level passes. */
  lemma LogEventAppends(s: Settings, id: string, eventLog: seq<(int, string)>, level: int,
                        event: string, host: string, pid: int, utcNow: string, localNow: string)
    ensures var (log', r, _) := LogEventSpec(s, id, eventLog, level, event, host, pid, utcNow,
                                             localNow);
            (r.Ok? && level <= s.logLevel ==> log' == eventLog + [(level, r.value)]) &&
            (r.Err? || level > s.logLevel ==> log' == eventLog) &&
            (r.Err? <==> !(-6 <= level < 6))
  {
  }

  /** The module's self-test: a DEBUG event, with AMQP settings and one DEBUG-level log file, is
      recorded, not printed, appended to that file and published. */
  lemma SelfTest(amqp: AmqpInfo, host: string, pid: int, utcNow: string, localNow: string)
    requires amqp != map[]
    ensures var s := Merge(SettingsArg(None, None, None, None, Some(amqp), Some([(DEBUG, "test.log")])));
            var (log', r, fx) := LogEventSpec(s, "test", [], DEBUG, "test log event", host, pid,
                                             utcNow, localNow);
            r == Ok(Format(utcNow, host, pid, "test", "DEBUG", "test log event")) &&
            log' == [(DEBUG, r.value)] &&
            fx == Effects(false, ["test.log"], true)
  {
    assert [(DEBUG, "test.log")][1..] == [];
  }

  /** The loop over the logFile setting: the files the event is appended to, in order. */
  method WrittenFiles(level: int, files: seq<(int, string)>) returns (written: seq<string>)
    ensures written == FilesFor(level, files)
  {
    written := [];
    var k := 0;
    while k < |files|
      invariant 0 <= k <= |files|
      invariant written + FilesFor(level, files[k..]) == FilesFor(level, files)
    {
      assert files[k..][1..] == files[k + 1..];
      if level <= files[k].0 {
        written := written + [files[k].1];
      }
      k := k + 1;
    }
    assert files[k..] == [];
  }

  /** The log object. */
  class Log {
    var settings: Settings
    var id: string
    var eventLog: seq<(int, string)>

    /** Log(ID, **settings). */
    constructor(id: string, overrides: SettingsArg)
      ensures settings == Merge(overrides) && this.id == id && eventLog == []
    {
      settings := Merge(overrides);
      this.id := id;
      eventLog := [];
    }

    /** logEvent(logLevel, event). The hostname and the process id are those the template embeds;
        it uses the UTC or the local clock reading as the utc setting says. */
    method LogEvent(level: int, event: string, host: string, pid: int, utcNow: string,
                    localNow: string) returns (r: Result<string>, fx: Effects)
      requires NoBraces(host) && NoBraces(id)
      modifies this
      ensures settings == old(settings) && id == old(id)
      ensures (eventLog, r, fx)
              == LogEventSpec(settings, id, old(eventLog), level, event, host, pid, utcNow, localNow)
    {
      var s := settings;
      var name := LevelName(level);
      if name.Err? {
        return Err(name.error), Effects(false, [], false);
      }
      var f := Format(if s.utc then utcNow else localNow, host, pid, id, name.value, event);
      if level <= s.logLevel {
        eventLog := eventLog + [(level, f)];
      }
      var written := WrittenFiles(level, s.logFile);
      return Ok(f), Effects(level <= s.logStdout, written, s.logAmqp != map[]);
    }
  }
}
