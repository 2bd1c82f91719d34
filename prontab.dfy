/** cappylib/prontab.py: a cron-style scheduler. An event's five time fields (minute, hour, day
    of month, month, weekday) are each normalised to a set or the wildcard; one pass of the
    scheduler visits every event, forks its action when the time matches and no child of it is
    running, and reaps finished children, stopping with an error on a bad exit status. */
module Prontab {
  import opened Wrappers
  import opened Strings
  import General

  // ---------------------------------------------------------------------------------------------
  // time fields

  /** A normalised field: ProntabSet, which contains everything, or an ordinary set. */
  datatype TimeField = Wildcard | Explicit(values: set<int>)

  /** `item in field`; ProntabSet.__contains__ is always true. */
  predicate Contains(f: TimeField, x: int)
  {
    match f
    case Wildcard => true
    case Explicit(values) => x in values
  }

  /** A time argument as passed to ProntabEvent: an int, a set (a ProntabSet included), a list
      or tuple of ints, a string, or anything else, which is not iterable. */
  datatype FieldArg = IntArg(n: int) | SetArg(field: TimeField) | SeqArg(items: seq<int>)
                    | StrArg(s: string) | OtherArg

  /** toSet: an int is a singleton, a set is returned unchanged and any other iterable becomes the
      set of its elements. A string becomes the set of its characters, which holds no int; a
      value that is not iterable makes `set(obj)` raise TypeError. */
  function ToSet(obj: FieldArg): (r: Result<TimeField>)
    ensures obj.IntArg? ==> r == Ok(Explicit({obj.n}))
    ensures obj.SetArg? ==> r == Ok(obj.field)
    ensures obj.SeqArg? ==> r.Ok? && r.value.Explicit? &&
                            forall x :: x in r.value.values <==> x in obj.items
    ensures obj.StrArg? ==> r.Ok? && forall x :: !Contains(r.value, x)
    ensures r.Err? <==> obj.OtherArg?
  {
    match obj
    case IntArg(n) => Ok(Explicit({n}))
    case SetArg(field) => Ok(field)
    case SeqArg(items) => Ok(Explicit(set x | x in items))
    case StrArg(_) => Ok(Explicit({}))
    case OtherArg => Err(TypeError)
  }

  predicate AllDigits(s: string)
  {
    forall i :: 0 <= i < |s| ==> IsDigit(s[i])
  }

  // The pattern parseStr searches for: "*/" and one or more decimal digits, anchored at both
  // ends, where the end anchor also matches just before a final newline.
  predicate IsStep(s: string)
  {
    var body := if |s| > 0 && s[|s| - 1] == '\n' then s[..|s| - 1] else s;
    |body| >= 3 && body[..2] == "*/" && AllDigits(body[2..])
  }

  /** The digits matched by the group of a step string. */
  function StepDigits(s: string): (digits: string)
    requires IsStep(s)
    ensures |digits| >= 1 && AllDigits(digits)
  {
    var body := if |s| > 0 && s[|s| - 1] == '\n' then s[..|s| - 1] else s;
    body[2..]
  }

  /** The units of `range(lo, hi)` that are multiples of n. */
  function Multiples(lo: int, hi: int, n: nat): set<int>
    requires n > 0
  {
    set i | lo <= i < hi && i % n == 0
  }

  // parseStr(obj, range(lo, hi)) as its comment describes it: a '*/n' string becomes the set of
  // units of the range divisible by n (`'*/0'` divides by zero), and any other argument is
  // passed through.
  function ParseStr(obj: FieldArg, lo: int, hi: int): (r: Result<FieldArg>)
    ensures !(obj.StrArg? && IsStep(obj.s)) ==> r == Ok(obj)
    ensures obj.StrArg? && IsStep(obj.s) ==>
              var n := ParseNat(StepDigits(obj.s));
              (n == 0 <==> r == Err(ZeroDivisionError)) &&
              (n > 0 ==> r.Ok? && r.value.SetArg? && r.value.field.Explicit? &&
                         forall x :: x in r.value.field.values <==> lo <= x < hi && x % n == 0)
  {
    if obj.StrArg? && IsStep(obj.s) then
      var n := ParseNat(StepDigits(obj.s));
      if n == 0 then Err(ZeroDivisionError) else Ok(SetArg(Explicit(Multiples(lo, hi, n))))
    else Ok(obj)
  }

  /** parseStr exactly as written: the group is a string, so `i % n` applies `%` to an int and a
      str, which raises TypeError as soon as the range yields its first unit. */
  function ParseStrAsWritten(obj: FieldArg, lo: int, hi: int): (r: Result<FieldArg>)
    ensures !(obj.StrArg? && IsStep(obj.s)) ==> r == Ok(obj)
  {
    if obj.StrArg? && IsStep(obj.s) then
      if lo < hi then Err(TypeError) else Ok(SetArg(Explicit({})))
    else Ok(obj)
  }

  // As written, every '*/n' argument makes the constructor raise TypeError, since all five
  // ranges are non-empty; '*/15' for the minute is one such input.
  lemma StepStringsRaise(s: string)
    requires IsStep(s)
    ensures ParseStrAsWritten(StrArg(s), 0, 59) == Err(TypeError)
    ensures ParseStrAsWritten(StrArg(s), 1, 12) == Err(TypeError)
    ensures IsStep("*/15") && ParseStrAsWritten(StrArg("*/15"), 0, 59) == Err(TypeError)
  {
    assert "*/15"[..2] == "*/" && "*/15"[2..] == "15";
  }

  /** parseStr then toSet over `range(lo, hi)`: one field of ProntabEvent.__init__. */
  function Field(obj: FieldArg, lo: int, hi: int): Result<TimeField>
  {
    match ParseStr(obj, lo, hi)
    case Err(e) => Err(e)
    case Ok(o) => ToSet(o)
  }

  // The field built from "*/" + str(n), n > 0, holds exactly the multiples of n in the range.
  lemma StepField(n: nat, lo: int, hi: int)
    requires n > 0
    ensures var s := "*/" + NatToString(n);
            IsStep(s) && Field(StrArg(s), lo, hi) == Ok(Explicit(Multiples(lo, hi, n)))
  {
    var s := "*/" + NatToString(n);
    var digits := NatToString(n);
    assert s[..2] == "*/" && s[2..] == digits;
    assert s[|s| - 1] == digits[|digits| - 1] && IsDigit(digits[|digits| - 1]);
    assert StepDigits(s) == digits;
    ParseNatToString(n);
  }

  // ---------------------------------------------------------------------------------------------
  // events

  datatype Event = Event(minute: TimeField, hour: TimeField, day: TimeField, month: TimeField,
                         dow: TimeField)

  /** The fields of a time tuple that checkTime reads. */
  datatype TimeTuple = TimeTuple(tmMin: int, tmHour: int, tmMday: int, tmMon: int, tmWday: int)

  /** ProntabEvent.__init__: the five fields in order, over range(0, 59), range(0, 23),
      range(1, 31), range(1, 12) and range(0, 6); the first field that raises ends it. */
  function MakeEvent(minute: FieldArg, hour: FieldArg, day: FieldArg, month: FieldArg,
                     dow: FieldArg): Result<Event>
  {
    match Field(minute, 0, 59)
    case Err(e) => Err(e)
    case Ok(mi) =>
      match Field(hour, 0, 23)
      case Err(e) => Err(e)
      case Ok(ho) =>
        match Field(day, 1, 31)
        case Err(e) => Err(e)
        case Ok(da) =>
          match Field(month, 1, 12)
          case Err(e) => Err(e)
          case Ok(mo) =>
            match Field(dow, 0, 6)
            case Err(e) => Err(e)
            case Ok(dw) => Ok(Event(mi, ho, da, mo, dw))
  }

  /** The default for every time argument: a fresh ProntabSet. */
  const ANY := SetArg(Wildcard)

  /** checkTime(t): the AND of the five membership tests. */
  predicate CheckTime(e: Event, t: TimeTuple)
  {
    Contains(e.minute, t.tmMin) && Contains(e.hour, t.tmHour) && Contains(e.day, t.tmMday) &&
    Contains(e.month, t.tmMon) && Contains(e.dow, t.tmWday)
  }

  /** checkTime holds iff each of the five fields holds its tuple component, so changing any one
      component to a value outside its field falsifies it. */
  lemma CheckTimeFieldwise(e: Event, t: TimeTuple, m: int)
    ensures CheckTime(e, t) <==> (forall k :: 0 <= k < 5 ==> Contains(FieldAt(e, k), ComponentAt(t, k)))
    ensures !Contains(e.minute, m) ==> !CheckTime(e, t.(tmMin := m))
    ensures !Contains(e.hour, m) ==> !CheckTime(e, t.(tmHour := m))
    ensures !Contains(e.day, m) ==> !CheckTime(e, t.(tmMday := m))
    ensures !Contains(e.month, m) ==> !CheckTime(e, t.(tmMon := m))
    ensures !Contains(e.dow, m) ==> !CheckTime(e, t.(tmWday := m))
  {
    if !CheckTime(e, t) {
      var k := if !Contains(e.minute, t.tmMin) then 0 else if !Contains(e.hour, t.tmHour) then 1
               else if !Contains(e.day, t.tmMday) then 2 else if !Contains(e.month, t.tmMon) then 3
               else 4;
      assert !Contains(FieldAt(e, k), ComponentAt(t, k));
    }
  }

  function FieldAt(e: Event, k: int): TimeField
  {
    if k == 0 then e.minute else if k == 1 then e.hour else if k == 2 then e.day
    else if k == 3 then e.month else e.dow
  }

  function ComponentAt(t: TimeTuple, k: int): int
  {
    if k == 0 then t.tmMin else if k == 1 then t.tmHour else if k == 2 then t.tmMday
    else if k == 3 then t.tmMon else t.tmWday
  }

  /** An event built with every default matches every time tuple. */
  lemma DefaultEventMatchesAll(t: TimeTuple)
    ensures MakeEvent(ANY, ANY, ANY, ANY, ANY) == Ok(Event(Wildcard, Wildcard, Wildcard, Wildcard, Wildcard))
    ensures CheckTime(Event(Wildcard, Wildcard, Wildcard, Wildcard, Wildcard), t)
  {
  }

  // The '*/n' ranges are half-open: such a field is a subset of its range, so it never holds
  // minute 59, hour 23, day 31, month 12 or weekday 6 (Sunday).
  lemma StepFieldsHalfOpen(minute: FieldArg, hour: FieldArg, day: FieldArg, month: FieldArg,
                           dow: FieldArg)
    requires minute.StrArg? && IsStep(minute.s) && hour.StrArg? && IsStep(hour.s)
    requires day.StrArg? && IsStep(day.s) && month.StrArg? && IsStep(month.s)
    requires dow.StrArg? && IsStep(dow.s)
    ensures match MakeEvent(minute, hour, day, month, dow)
            case Err(e) => e == ZeroDivisionError
            case Ok(ev) =>
              (forall x :: Contains(ev.minute, x) ==> 0 <= x <= 58) &&
              (forall x :: Contains(ev.hour, x) ==> 0 <= x <= 22) &&
              (forall x :: Contains(ev.day, x) ==> 1 <= x <= 30) &&
              (forall x :: Contains(ev.month, x) ==> 1 <= x <= 11) &&
              (forall x :: Contains(ev.dow, x) ==> 0 <= x <= 5)
  {
  }

  // '*/15' in the minute, every other field left at its default, fires at minutes 0, 15, 30
  // and 45 of every hour of every day.
  lemma QuarterHours(t: TimeTuple)
    ensures MakeEvent(StrArg("*/15"), ANY, ANY, ANY, ANY).Ok?
    ensures CheckTime(MakeEvent(StrArg("*/15"), ANY, ANY, ANY, ANY).value, t) <==>
            t.tmMin in {0, 15, 30, 45}
  {
    assert NatToString(15) == "15";
    StepField(15, 0, 59);
    var m := t.tmMin;
    if 0 <= m < 59 && m % 15 == 0 {
      assert m == 0 || m == 15 || m == 30 || m == 45;
    }
  }

  // ---------------------------------------------------------------------------------------------
  // the scheduler

  /** An event with the pid of its running child, 0 when none is. */
  datatype EventRec = EventRec(event: Event, pid: int)

  /** What `os.fork()` returns in the parent: the child's pid, or a failure (OSError). */
  datatype Fork = Forked(child: int) | ForkFailed

  /** What `os.waitpid(e.pid, WNOHANG | WUNTRACED)` returns: (0, 0) when nothing is ready, or the
      pid and the raw wait status of a child that exited, was killed or stopped; or a failure
      (OSError), e.g. when there is no child to wait for. The status is not the exit code: a
      child that calls `exit(n)` is reported with status `ExitStatus(n)`. */
  datatype Wait = Reaped(pid: int, status: int) | WaitFailed

  /** The raw wait status of a child that exited normally with code n (0..255): the code in the
      second byte, a zero low byte. */
  function ExitStatus(n: int): int
  {
    n * 256
  }

  predicate ValidFork(f: Fork) { f.Forked? ==> f.child > 0 }
  predicate ValidWait(w: Wait) { w.Reaped? ==> w.pid >= 0 }

  /** How a pass, or the visit of one event, ends. */
  datatype Outcome = Completed | Fatal(error: PyError)

  /** The `error` raised for a child that did not exit cleanly. */
  function ChildFailed(pid: int, status: int): PyError
  {
    Raised(General.ErrorMessage("Prontab", "error",
      ["child (pid=" + IntToString(pid) + ") exited with status " + IntToString(status)]))
  }

  /** Whether the visit forks: the event matches the clock reading and has no running child. */
  predicate Spawns(r: EventRec, now: TimeTuple)
  {
    CheckTime(r.event, now) && r.pid == 0
  }

  /** The visit of one event: fork if it matches and is idle, then reap without blocking. */
  function Visit(r: EventRec, now: TimeTuple, f: Fork, w: Wait): (EventRec, Outcome)
  {
    if Spawns(r, now) && f.ForkFailed? then (r, Fatal(OSError))
    else
      var r1 := if Spawns(r, now) then r.(pid := f.child) else r;
      match w
      case WaitFailed => (r1, Fatal(OSError))
      case Reaped(pid, status) =>
        if pid > 0 then
          (r1.(pid := 0), if status != 0 then Fatal(ChildFailed(pid, status)) else Completed)
        else (r1, Completed)
  }

  /** A child is started only when none of the event's is running: a pid is replaced only by 0 or
      when it was 0, and a running event that matches is skipped, not queued. */
  lemma VisitAtMostOneChild(r: EventRec, now: TimeTuple, f: Fork, w: Wait)
    requires ValidFork(f) && ValidWait(w)
    ensures var (r', _) := Visit(r, now, f, w);
            r'.event == r.event &&
            (r'.pid != r.pid ==> r'.pid == 0 || (Spawns(r, now) && f.Forked? && r'.pid == f.child)) &&
            (r.pid != 0 ==> r'.pid == r.pid || r'.pid == 0)
  {
  }

  /** The visit forks iff the event matches and is idle; when it does and the reap reports
      nothing, the event records the child. No reading other than the current one is used, so
      a missed minute is never caught up. */
  lemma VisitSpawns(r: EventRec, now: TimeTuple, child: int, f: Fork, w: Wait)
    requires child > 0 && w == Reaped(0, 0)
    ensures Spawns(r, now) ==> Visit(r, now, Forked(child), w) == (r.(pid := child), Completed)
    ensures !Spawns(r, now) ==> Visit(r, now, f, w) == (r, Completed)
  {
  }

  /** A reap with pid > 0 always leaves the event idle, and the visit is fatal exactly when the
      status is non-zero, with the library's error message. */
  lemma VisitReaps(r: EventRec, now: TimeTuple, f: Fork, pid: int, status: int)
    requires ValidFork(f) && pid > 0
    requires !(Spawns(r, now) && f.ForkFailed?)
    ensures var (r', o) := Visit(r, now, f, Reaped(pid, status));
            r'.pid == 0 &&
            (o == Completed <==> status == 0) &&
            (status != 0 ==> o == Fatal(ChildFailed(pid, status)))
  {
  }

  /** A child that calls `exit(0)` after a normal return or `exit(1)` when the action raises
      `error` is fatal only in the second case, and the message names its pid and the raw wait
      status 256 that `waitpid` reports for `exit(1)`. */
  lemma ActionRaised(r: EventRec, now: TimeTuple)
    requires r.pid == 7
    ensures Visit(r, now, ForkFailed, Reaped(7, ExitStatus(0))) == (r.(pid := 0), Completed)
    ensures Visit(r, now, ForkFailed, Reaped(7, ExitStatus(1))).1
            == Fatal(Raised("Prontab: error " + "child (pid=7) exited with status 256"))
  {
    ChildSevenFailed();
  }

  lemma ChildSevenFailed()
    ensures ChildFailed(7, 256) == Raised("Prontab: error " + "child (pid=7) exited with status 256")
  {
    ChildSevenText();
    ProntabErrorText("child (pid=7) exited with status 256");
  }

  lemma ChildSevenText()
    ensures "child (pid=" + IntToString(7) + ") exited with status " + IntToString(256)
            == "child (pid=7) exited with status 256"
  {
    assert IntToString(7) == "7";
    StatusText256();
  }

  lemma ProntabErrorText(m: string)
    ensures General.ErrorMessage("Prontab", "error", [m]) == "Prontab: error " + m
  {
    assert Join(" ", [m]) == m;
    assert "Prontab" + ": " + "error" + " " == "Prontab: error ";
  }

  lemma StatusText256()
    ensures IntToString(256) == "256"
  {
    assert NatToString(2) == "2";
    assert NatToString(25) == "2" + [DigitChar(5)] == "25";
    assert NatToString(256) == "25" + [DigitChar(6)] == "256";
  }

  /** One pass of run's `for` loop from event i: events are visited in registration order, each
      with its own clock reading, fork result and reap result, until a visit is fatal. */
  function PassFrom(rs: seq<EventRec>, i: nat, clock: seq<TimeTuple>, forks: seq<Fork>,
                    waits: seq<Wait>): (p: (seq<EventRec>, Outcome))
    requires i <= |rs| == |clock| == |forks| == |waits|
    ensures |p.0| == |rs|
    decreases |rs| - i
  {
    if i == |rs| then (rs, Completed)
    else
      var (r', o) := Visit(rs[i], clock[i], forks[i], waits[i]);
      if o.Fatal? then (rs[i := r'], o)
      else PassFrom(rs[i := r'], i + 1, clock, forks, waits)
  }

  /** After a pass every event keeps its time fields, and an event's pid changes only to 0 (its
      child was reaped) or to the pid of a child forked in this pass because the event matched its
      own clock reading while idle: at most one child per event is outstanding. */
  lemma PassAtMostOneChild(rs: seq<EventRec>, clock: seq<TimeTuple>, forks: seq<Fork>,
                           waits: seq<Wait>)
    requires |rs| == |clock| == |forks| == |waits|
    requires forall k :: 0 <= k < |forks| ==> ValidFork(forks[k])
    requires forall k :: 0 <= k < |waits| ==> ValidWait(waits[k])
    ensures |PassFrom(rs, 0, clock, forks, waits).0| == |rs|
    ensures forall k :: 0 <= k < |rs| ==>
              PassFrom(rs, 0, clock, forks, waits).0[k].event == rs[k].event
    ensures forall k :: 0 <= k < |rs| ==>
              PassFrom(rs, 0, clock, forks, waits).0[k].pid != rs[k].pid ==>
                PassFrom(rs, 0, clock, forks, waits).0[k].pid == 0 ||
                (Spawns(rs[k], clock[k]) && forks[k].Forked? &&
                 PassFrom(rs, 0, clock, forks, waits).0[k].pid == forks[k].child)
  {
    PassFromCompletes(rs, 0, clock, forks, waits);
    PassFromStops(rs, 0, clock, forks, waits);
    PassFromKeepsPrefix(rs, 0, clock, forks, waits);
    var res := PassFrom(rs, 0, clock, forks, waits).0;
    forall k | 0 <= k < |rs|
      ensures res[k].event == rs[k].event
      ensures res[k].pid != rs[k].pid ==>
                res[k].pid == 0 || (Spawns(rs[k], clock[k]) && forks[k].Forked? && res[k].pid == forks[k].child)
    {
      VisitAtMostOneChild(rs[k], clock[k], forks[k], waits[k]);
    }
  }

  /** A pass completes iff every visit, each made on the event's record as registered, completes,
      and then every event is the result of its visit. */
  lemma {:induction false} PassFromCompletes(rs: seq<EventRec>, i: nat, clock: seq<TimeTuple>,
                                             forks: seq<Fork>, waits: seq<Wait>)
    requires i <= |rs| == |clock| == |forks| == |waits|
    ensures PassFrom(rs, i, clock, forks, waits).1 == Completed <==>
            forall k :: i <= k < |rs| ==> Visit(rs[k], clock[k], forks[k], waits[k]).1 == Completed
    ensures PassFrom(rs, i, clock, forks, waits).1 == Completed ==>
            forall k :: i <= k < |rs| ==>
              PassFrom(rs, i, clock, forks, waits).0[k] == Visit(rs[k], clock[k], forks[k], waits[k]).0
    decreases |rs| - i
  {
    if i < |rs| {
      var (r', o) := Visit(rs[i], clock[i], forks[i], waits[i]);
      var rs' := rs[i := r'];
      assert forall k :: i < k < |rs| ==> rs'[k] == rs[k];
      if !o.Fatal? {
        PassFromCompletes(rs', i + 1, clock, forks, waits);
        PassFromKeepsPrefix(rs', i + 1, clock, forks, waits);
      }
    }
  }

  /** Otherwise the pass stops at the first fatal visit s, with that visit's exception: events up
      to s are the results of their visits and the later ones are untouched. */
  lemma {:induction false} PassFromStops(rs: seq<EventRec>, i: nat, clock: seq<TimeTuple>,
                                         forks: seq<Fork>, waits: seq<Wait>)
    requires i <= |rs| == |clock| == |forks| == |waits|
    ensures PassFrom(rs, i, clock, forks, waits).1.Fatal? ==>
            exists s :: i <= s < |rs| && StopsAt(rs, i, s, clock, forks, waits, PassFrom(rs, i, clock, forks, waits))
    decreases |rs| - i
  {
    if i < |rs| {
      var (r', o) := Visit(rs[i], clock[i], forks[i], waits[i]);
      var rs' := rs[i := r'];
      if o.Fatal? {
        assert StopsAt(rs, i, i, clock, forks, waits, PassFrom(rs, i, clock, forks, waits));
      } else if PassFrom(rs, i, clock, forks, waits).1.Fatal? {
        var p := PassFrom(rs', i + 1, clock, forks, waits);
        assert p == PassFrom(rs, i, clock, forks, waits);
        PassFromStops(rs', i + 1, clock, forks, waits);
        PassFromKeepsPrefix(rs', i + 1, clock, forks, waits);
        var s :| i + 1 <= s < |rs| && StopsAt(rs', i + 1, s, clock, forks, waits, p);
        assert forall k :: i < k < |rs| ==> rs'[k] == rs[k];
        assert p.0[i] == r';
        assert StopsAt(rs, i, s, clock, forks, waits, p);
      }
    }
  }

  /** The pass result `p` is that of a pass from i stopped by the fatal visit s. */
  predicate StopsAt(rs: seq<EventRec>, i: nat, s: nat, clock: seq<TimeTuple>, forks: seq<Fork>,
                    waits: seq<Wait>, p: (seq<EventRec>, Outcome))
    requires i <= s < |rs| == |clock| == |forks| == |waits| == |p.0|
  {
    FatalAt(rs, i, s, clock, forks, waits) &&
    p.1 == Visit(rs[s], clock[s], forks[s], waits[s]).1 &&
    (forall k :: i <= k <= s ==> p.0[k] == Visit(rs[k], clock[k], forks[k], waits[k]).0) &&
    (forall k :: s < k < |rs| ==> p.0[k] == rs[k])
  }

  /** Visit s is fatal and every visit from i before it completes. */
  predicate FatalAt(rs: seq<EventRec>, i: nat, s: nat, clock: seq<TimeTuple>, forks: seq<Fork>,
                    waits: seq<Wait>)
    requires i <= s < |rs| == |clock| == |forks| == |waits|
  {
    Visit(rs[s], clock[s], forks[s], waits[s]).1.Fatal? &&
    forall k :: i <= k < s ==> Visit(rs[k], clock[k], forks[k], waits[k]).1 == Completed
  }

  /** A pass from i leaves the events before i alone. */
  lemma {:induction false} PassFromKeepsPrefix(rs: seq<EventRec>, i: nat, clock: seq<TimeTuple>,
                                               forks: seq<Fork>, waits: seq<Wait>)
    requires i <= |rs| == |clock| == |forks| == |waits|
    ensures |PassFrom(rs, i, clock, forks, waits).0| == |rs|
    ensures forall k :: 0 <= k < i ==> PassFrom(rs, i, clock, forks, waits).0[k] == rs[k]
    decreases |rs| - i
  {
    if i < |rs| {
      var (r', o) := Visit(rs[i], clock[i], forks[i], waits[i]);
      if !o.Fatal? {
        PassFromKeepsPrefix(rs[i := r'], i + 1, clock, forks, waits);
      }
    }
  }

  /** The inputs of one pass: per event, its clock reading, fork result and reap result. */
  datatype PassInput = PassInput(clock: seq<TimeTuple>, forks: seq<Fork>, waits: seq<Wait>)

  predicate Fits(p: PassInput, n: nat)
  {
    |p.clock| == n && |p.forks| == n && |p.waits| == n
  }

  /** run's `while True`, cut after the given passes: passes follow one another until one is
      fatal, whose exception ends run. */
  function RunFrom(rs: seq<EventRec>, passes: seq<PassInput>): (p: (seq<EventRec>, Outcome))
    requires forall k :: 0 <= k < |passes| ==> Fits(passes[k], |rs|)
    ensures |p.0| == |rs|
    decreases |passes|
  {
    if passes == [] then (rs, Completed)
    else
      assert Fits(passes[0], |rs|);
      var q := PassFrom(rs, 0, passes[0].clock, passes[0].forks, passes[0].waits);
      if q.1.Fatal? then q else RunFrom(q.0, passes[1..])
  }

  predicate ValidPass(p: PassInput)
  {
    (forall k :: 0 <= k < |p.forks| ==> ValidFork(p.forks[k])) &&
    (forall k :: 0 <= k < |p.waits| ==> ValidWait(p.waits[k]))
  }

  /** Over any number of passes every event keeps its time fields, and its pid stays
      non-negative. */
  lemma {:induction false} RunKeepsEvents(rs: seq<EventRec>, passes: seq<PassInput>)
    requires forall k :: 0 <= k < |passes| ==> Fits(passes[k], |rs|) && ValidPass(passes[k])
    requires forall k :: 0 <= k < |rs| ==> rs[k].pid >= 0
    ensures forall k :: 0 <= k < |rs| ==>
              RunFrom(rs, passes).0[k].event == rs[k].event && RunFrom(rs, passes).0[k].pid >= 0
    decreases |passes|
  {
    if passes != [] {
      var p := passes[0];
      assert Fits(p, |rs|) && ValidPass(p);
      PassAtMostOneChild(rs, p.clock, p.forks, p.waits);
      var q := PassFrom(rs, 0, p.clock, p.forks, p.waits);
      assert forall k :: 0 <= k < |rs| ==> q.0[k].pid >= 0 by {
        forall k | 0 <= k < |rs| ensures q.0[k].pid >= 0 {
          assert ValidFork(p.forks[k]);
        }
      }
      if !q.1.Fatal? {
        assert forall k :: 0 <= k < |passes[1..]| ==> passes[1..][k] == passes[k + 1];
        RunKeepsEvents(q.0, passes[1..]);
      }
    }
  }

  /** The scheduler: the registered events, each with the pid of its running child. */
  class Scheduler {
    var events: array<EventRec>

    /** Prontab(*events): stores the events and sets every pid to 0. */
    constructor(evs: seq<Event>)
      ensures fresh(events)
      ensures events.Length == |evs|
      ensures forall i :: 0 <= i < |evs| ==> events[i] == EventRec(evs[i], 0)
    {
      events := new EventRec[|evs|](i requires 0 <= i < |evs| => EventRec(evs[i], 0));
    }

    /** One pass of run's `for` loop, with the clock reading, the fork result and the reap result
        of each visit as inputs; a fatal visit ends the pass (and run) with its exception. */
    method Pass(clock: seq<TimeTuple>, forks: seq<Fork>, waits: seq<Wait>) returns (o: Outcome)
      requires |clock| == |forks| == |waits| == events.Length
      modifies events
      ensures (events[..], o) == PassFrom(old(events[..]), 0, clock, forks, waits)
    {
      ghost var start := events[..];
      var i := 0;
      while i < events.Length
        invariant 0 <= i <= events.Length
        invariant PassFrom(events[..], i, clock, forks, waits) == PassFrom(start, 0, clock, forks, waits)
      {
        var (r', v) := Visit(events[i], clock[i], forks[i], waits[i]);
        events[i] := r';
        if v.Fatal? {
          return v;
        }
        i := i + 1;
      }
      return Completed;
    }

    /** run, for as many passes as there are inputs. */
    method Run(passes: seq<PassInput>) returns (o: Outcome)
      requires forall k :: 0 <= k < |passes| ==> Fits(passes[k], events.Length)
      modifies events
      ensures (events[..], o) == RunFrom(old(events[..]), passes)
    {
      var j := 0;
      while j < |passes|
        invariant 0 <= j <= |passes|
        invariant RunFrom(events[..], passes[j..]) == RunFrom(old(events[..]), passes)
      {
        assert passes[j..][1..] == passes[j + 1..];
        o := Pass(passes[j].clock, passes[j].forks, passes[j].waits);
        if o.Fatal? {
          return;
        }
        j := j + 1;
      }
      return Completed;
    }
  }
}
