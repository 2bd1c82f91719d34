/** calcTimeseries, in both cappylib/date_time.py and the older top-level date_time.py: walks
    back from dateStart by a fixed interval, keeping the dates the caller's check accepts, until
    count dates are kept or a date at or before dateEnd has been processed. Datetimes are seconds
    (module Calendar); the caller's check, with its criteria or type argument bound, is the
    function `accept`. */
module Timeseries {
  import opened Wrappers

  /** `datetime.timedelta(days=days, minutes=mins, seconds=secs)` in seconds. */
  function Interval(days: int, mins: int, secs: int): int
  {
    days * 86400 + mins * 60 + secs
  }

  /** The dates kept from candidate `d` on, when `n` more are wanted. */
  function Series(n: int, interval: int, d: int, dateEnd: int, accept: int -> bool): seq<int>
    requires interval > 0
    decreases if d > dateEnd then d - dateEnd else 0
  {
    if n <= 0 then []
    else
      var kept := if accept(d) then [d] else [];
      if d <= dateEnd then kept
      else kept + Series(n - |kept|, interval, d - interval, dateEnd, accept)
  }

  /** The candidate dates: d, d - interval, ..., down to and including the first at or before
      dateEnd. */
  function Candidates(d: int, dateEnd: int, interval: int): seq<int>
    requires interval > 0
    decreases if d > dateEnd then d - dateEnd else 0
  {
    if d <= dateEnd then [d] else [d] + Candidates(d - interval, dateEnd, interval)
  }

  function Filter(accept: int -> bool, s: seq<int>): seq<int>
  {
    if s == [] then [] else (if accept(s[0]) then [s[0]] else []) + Filter(accept, s[1..])
  }

  function Take(s: seq<int>, n: int): seq<int>
  {
    if n <= 0 then [] else if n >= |s| then s else s[..n]
  }

  /** calcTimeseries, without the final strftime of each kept date. */
  method CalcTimeseries(count: int, days: int, mins: int, secs: int, dateStart: int, dateEnd: int,
                        accept: int -> bool) returns (result: seq<int>)
    requires Interval(days, mins, secs) > 0
    ensures result == Series(count, Interval(days, mins, secs), dateStart, dateEnd, accept)
  {
    var interval := Interval(days, mins, secs);
    ghost var total := Series(count, interval, dateStart, dateEnd, accept);
    result := [];
    var d := dateStart;
    while |result| < count
      invariant result + Series(count - |result|, interval, d, dateEnd, accept) == total
      decreases if d > dateEnd then d - dateEnd else 0
    {
      CalcStep(result, count, interval, d, dateEnd, accept, total);
      if accept(d) {
        result := result + [d];
      }
      if d <= dateEnd {
        break;
      }
      d := d - interval;
    }
    if |result| >= count {
      CalcDone(result, count, interval, d, dateEnd, accept, total);
    }
  }

  /** One iteration of the loop keeps the remaining series, or completes it when dateEnd is
      reached. */
  lemma CalcStep(result: seq<int>, count: int, interval: int, d: int, dateEnd: int,
                 accept: int -> bool, total: seq<int>)
    requires interval > 0 && |result| < count
    requires result + Series(count - |result|, interval, d, dateEnd, accept) == total
    ensures var r := if accept(d) then result + [d] else result;
            (d <= dateEnd ==> r == total) &&
            (d > dateEnd ==> r + Series(count - |r|, interval, d - interval, dateEnd, accept) == total)
  {
    var n := count - |result|;
    var kept := if accept(d) then [d] else [];
    var r := if accept(d) then result + [d] else result;
    assert r == result + kept;
    if d <= dateEnd {
      assert Series(n, interval, d, dateEnd, accept) == kept by {
        SeriesStep(n, interval, d, dateEnd, accept);
      }
    } else {
      var next := Series(n - |kept|, interval, d - interval, dateEnd, accept);
      assert Series(n, interval, d, dateEnd, accept) == kept + next by {
        SeriesStep(n, interval, d, dateEnd, accept);
      }
      assert count - |r| == n - |kept|;
      assert r + next == result + (kept + next);
    }
  }

  /** The loop ends when count dates are kept: nothing remains to add. */
  lemma CalcDone(result: seq<int>, count: int, interval: int, d: int, dateEnd: int,
                 accept: int -> bool, total: seq<int>)
    requires interval > 0 && |result| >= count
    requires result + Series(count - |result|, interval, d, dateEnd, accept) == total
    ensures result == total
  {
    assert Series(count - |result|, interval, d, dateEnd, accept) == [];
    assert result + [] == result;
  }

  /** One candidate of the walk: kept if accepted, and the walk either stops or goes on. */
  lemma SeriesStep(n: int, interval: int, d: int, dateEnd: int, accept: int -> bool)
    requires interval > 0 && n > 0
    ensures var kept := if accept(d) then [d] else [];
            Series(n, interval, d, dateEnd, accept)
            == if d <= dateEnd then kept
               else kept + Series(n - |kept|, interval, d - interval, dateEnd, accept)
  {
  }

  /** The series is the first `n` accepted candidates: an independent description of the loop. */
  lemma {:induction false} SeriesIsTakeOfFilter(n: int, interval: int, d: int, dateEnd: int,
                                                accept: int -> bool)
    requires interval > 0
    ensures Series(n, interval, d, dateEnd, accept)
            == Take(Filter(accept, Candidates(d, dateEnd, interval)), n)
    decreases if d > dateEnd then d - dateEnd else 0
  {
    var c := Candidates(d, dateEnd, interval);
    assert c[0] == d;
    if n > 0 {
      if d <= dateEnd {
        assert c[1..] == [];
      } else {
        var rest := Candidates(d - interval, dateEnd, interval);
        assert c[1..] == rest;
        var kept := if accept(d) then [d] else [];
        SeriesIsTakeOfFilter(n - |kept|, interval, d - interval, dateEnd, accept);
        TakeAfter(kept, Filter(accept, rest), n);
      }
    }
  }

  lemma TakeAfter(kept: seq<int>, rest: seq<int>, n: int)
    requires |kept| <= 1 && n > 0
    ensures Take(kept + rest, n) == kept + Take(rest, n - |kept|)
  {
    if |kept| == 1 && n - 1 > 0 && n - 1 < |rest| {
      assert (kept + rest)[..n] == kept + rest[..n - 1];
    }
  }

  /** Candidate i is dateStart - i * interval; all but the last lie after dateEnd, and the last
      lies at or before it. */
  lemma {:induction false} CandidatesShape(d: int, dateEnd: int, interval: int)
    requires interval > 0
    ensures var c := Candidates(d, dateEnd, interval);
            |c| >= 1 && c[|c| - 1] <= dateEnd &&
            (forall i :: 0 <= i < |c| ==> c[i] == d - i * interval) &&
            (forall i :: 0 <= i < |c| - 1 ==> c[i] > dateEnd)
    decreases if d > dateEnd then d - dateEnd else 0
  {
    var c := Candidates(d, dateEnd, interval);
    if d > dateEnd {
      var rest := Candidates(d - interval, dateEnd, interval);
      CandidatesShape(d - interval, dateEnd, interval);
      assert c == [d] + rest;
      forall i | 0 < i < |c| ensures c[i] == d - i * interval && (i < |c| - 1 ==> c[i] > dateEnd) {
        assert c[i] == rest[i - 1];
        StepBack(d, i, interval);
      }
    }
  }

  lemma StepBack(d: int, i: int, interval: int)
    ensures (d - interval) - (i - 1) * interval == d - i * interval
  {
  }

  /** At most `count` dates, and none when count <= 0. */
  lemma {:induction false} SeriesLength(n: int, interval: int, d: int, dateEnd: int,
                                        accept: int -> bool)
    requires interval > 0
    ensures var r := Series(n, interval, d, dateEnd, accept);
            (n <= 0 ==> r == []) && (n > 0 ==> |r| <= n)
    decreases if d > dateEnd then d - dateEnd else 0
  {
    if n > 0 && d > dateEnd {
      var kept := if accept(d) then [d] else [];
      SeriesLength(n - |kept|, interval, d - interval, dateEnd, accept);
    }
  }

  /** Every kept date was accepted and is a candidate, so it is dateStart - i * interval for
      some i (CandidatesShape). */
  lemma SeriesMembers(n: int, interval: int, d: int, dateEnd: int, accept: int -> bool)
    requires interval > 0
    ensures var r := Series(n, interval, d, dateEnd, accept);
            forall i :: 0 <= i < |r| ==> accept(r[i]) && r[i] in Candidates(d, dateEnd, interval)
  {
    var c := Candidates(d, dateEnd, interval);
    SeriesIsTakeOfFilter(n, interval, d, dateEnd, accept);
    FilterMembers(accept, c);
    var f := Filter(accept, c);
    var r := Series(n, interval, d, dateEnd, accept);
    forall i | 0 <= i < |r| ensures accept(r[i]) && r[i] in c {
      assert r[i] == f[i];
      assert f[i] in f;
    }
  }

  lemma {:induction false} FilterMembers(accept: int -> bool, s: seq<int>)
    ensures forall x :: x in Filter(accept, s) ==> accept(x) && x in s
    decreases |s|
  {
    if s != [] {
      FilterMembers(accept, s[1..]);
    }
  }

  /** Every element is at most `d`, the elements strictly decrease, and all but the last lie
      after dateEnd. */
  predicate DecreasingFrom(r: seq<int>, d: int, dateEnd: int)
  {
    (forall i :: 0 <= i < |r| ==> r[i] <= d) &&
    (forall i :: 0 <= i < |r| - 1 ==> r[i] > r[i + 1] && r[i] > dateEnd)
  }

  /** Kept dates strictly decrease, and all but the last lie after dateEnd. */
  lemma {:induction false} SeriesDecreasing(n: int, interval: int, d: int, dateEnd: int,
                                            accept: int -> bool)
    requires interval > 0
    ensures DecreasingFrom(Series(n, interval, d, dateEnd, accept), d, dateEnd)
    decreases if d > dateEnd then d - dateEnd else 0
  {
    if n > 0 && d > dateEnd {
      var kept := if accept(d) then [d] else [];
      var rest := Series(n - |kept|, interval, d - interval, dateEnd, accept);
      SeriesStep(n, interval, d, dateEnd, accept);
      SeriesDecreasing(n - |kept|, interval, d - interval, dateEnd, accept);
      if accept(d) {
        DecreasingCons(d, rest, dateEnd, interval);
      } else {
        DecreasingWeaken(rest, d - interval, d, dateEnd);
        assert kept + rest == rest;
      }
    }
  }

  lemma DecreasingCons(d: int, rest: seq<int>, dateEnd: int, interval: int)
    requires interval > 0 && d > dateEnd && DecreasingFrom(rest, d - interval, dateEnd)
    ensures DecreasingFrom([d] + rest, d, dateEnd)
  {
    var r := [d] + rest;
    forall i | 0 < i < |r| ensures r[i] == rest[i - 1] {
    }
  }

  lemma DecreasingWeaken(r: seq<int>, d: int, d': int, dateEnd: int)
    requires d <= d' && DecreasingFrom(r, d, dateEnd)
    ensures DecreasingFrom(r, d', dateEnd)
  {
  }

  /** The only kept date that may lie at or before dateEnd is the last one. A short result means
      the walk reached dateEnd; the first candidate at or before dateEnd is then kept iff it is
      accepted. */
  lemma {:induction false} SeriesEnd(n: int, interval: int, d: int, dateEnd: int,
                                     accept: int -> bool)
    requires interval > 0 && n > 0
    ensures var r := Series(n, interval, d, dateEnd, accept);
            var c := Candidates(d, dateEnd, interval);
            |r| < n ==> (accept(c[|c| - 1]) <==> |r| > 0 && r[|r| - 1] == c[|c| - 1])
    decreases if d > dateEnd then d - dateEnd else 0
  {
    var c := Candidates(d, dateEnd, interval);
    if d > dateEnd {
      var kept := if accept(d) then [d] else [];
      var rest := Candidates(d - interval, dateEnd, interval);
      assert c == [d] + rest;
      SeriesLength(n, interval, d, dateEnd, accept);
      CandidatesShape(d, dateEnd, interval);
      if n - |kept| > 0 {
        SeriesEnd(n - |kept|, interval, d - interval, dateEnd, accept);
        var r' := Series(n - |kept|, interval, d - interval, dateEnd, accept);
        var r := Series(n, interval, d, dateEnd, accept);
        assert r == kept + r';
      }
    }
  }

  /** With the default check, `lambda *x, **y: True`, every candidate is kept: the series is
      dateStart, dateStart - interval, ... */
  lemma AcceptAll(n: int, interval: int, d: int, dateEnd: int)
    requires interval > 0
    ensures var r := Series(n, interval, d, dateEnd, x => true);
            forall i :: 0 <= i < |r| ==> r[i] == d - i * interval
  {
    var all: int -> bool := x => true;
    FilterAll(Candidates(d, dateEnd, interval));
    SeriesIsTakeOfFilter(n, interval, d, dateEnd, all);
    CandidatesShape(d, dateEnd, interval);
  }

  lemma {:induction false} FilterAll(s: seq<int>)
    ensures Filter(x => true, s) == s
    decreases |s|
  {
    if s != [] {
      FilterAll(s[1..]);
      assert [s[0]] + s[1..] == s;
    }
  }

  /** isBusinessDate(datetime, type) is a stub whose body is `pass`: it returns None. */
  function IsBusinessDate(t: int, kind: Option<string>): (r: Option<bool>)
    ensures r == None
  {
    None
  }
}
