/** Night-driving analysis: find the trips that hold a record at night, and
    score each such trip by stepping through it one minute at a time with an
    hour-dependent rate. */
module Night {
  import opened Telemetry
  import opened Seqs
  import Clock
  import Trips

  /** The window test `hour >= 23 or hour <= 4.5`, applied to an integer hour. */
  predicate NightHour(h: int) {
    h >= 23 || (h as real) <= 4.5
  }

  /** Because the hour is an integer the window ends with hour 4, not at 4:30. */
  lemma NightHourWindow(h: int)
    requires 0 <= h < 24
    ensures NightHour(h) <==> h == 23 || h == 0 || h == 1 || h == 2 || h == 3 || h == 4
  {
  }

  /** A record counts towards night driving when its time falls in the night
      window and it is not an ignition-off health check. A NaT time has a NaN
      hour, which fails both comparisons. */
  predicate NightEligible(r: Record) {
    r.time.Some? && NightHour(Clock.Hour(r.time.value)) && r.status != HealthCheckIgnitionOff
  }

  predicate EligibleRow(w: Row) {
    NightEligible(w.rec)
  }

  /** The TripNumber column of a sequence of rows. */
  function RowTrips(rows: seq<Row>): (ks: seq<nat>)
    ensures |ks| == |rows|
    ensures forall i :: 0 <= i < |rows| ==> ks[i] == rows[i].trip
  {
    seq(|rows|, i requires 0 <= i < |rows| => rows[i].trip)
  }

  /** `df_night_driving['TripNumber'].unique()`: each trip number once. */
  function NightTrips(rows: seq<Row>): (ks: seq<nat>)
    ensures forall i, j :: 0 <= i < j < |ks| ==> ks[i] != ks[j]
  {
    Distinct(RowTrips(Filter(rows, EligibleRow)))
  }

  /** Some record of trip `k` is night-eligible. */
  predicate HasNightRecord(rows: seq<Row>, k: nat) {
    exists i :: 0 <= i < |rows| && NightEligible(rows[i].rec) && rows[i].trip == k
  }

  /** A trip is listed exactly when one of its records is night-eligible. */
  lemma NightTripSelection(rows: seq<Row>, k: nat)
    ensures k in NightTrips(rows) <==> HasNightRecord(rows, k)
  {
    var eligible := Filter(rows, EligibleRow);
    if k in NightTrips(rows) {
      assert k in RowTrips(eligible);
      var j :| 0 <= j < |eligible| && RowTrips(eligible)[j] == k;
      assert eligible[j] in rows;
      var i :| 0 <= i < |rows| && rows[i] == eligible[j];
    }
    if exists i :: 0 <= i < |rows| && NightEligible(rows[i].rec) && rows[i].trip == k {
      var i :| 0 <= i < |rows| && NightEligible(rows[i].rec) && rows[i].trip == k;
      assert rows[i] in eligible;
      var j :| 0 <= j < |eligible| && eligible[j] == rows[i];
      assert RowTrips(eligible)[j] == k;
    }
  }

  /** `df[df['TripNumber'] == trip]`: all records of trip `k`, in order. */
  function TripRows(rows: seq<Row>, k: nat): (trip: seq<Row>)
    ensures IsSubseq(trip, rows)
    ensures forall w :: multiset(trip)[w] == if w.trip == k then multiset(rows)[w] else 0
    ensures forall w :: w in trip <==> w in rows && w.trip == k
  {
    FilterIsSubseq(rows, (w: Row) => w.trip == k);
    Filter(rows, (w: Row) => w.trip == k)
  }

  /** The DateTime values of the records with status `st`, in order. */
  function StatusTimes(rows: seq<Row>, st: string): (ts: seq<Option<Time>>)
    ensures forall t :: t in ts <==> exists w :: w in rows && w.rec.status == st && w.rec.time == t
  {
    if |rows| == 0 then []
    else
      var rest := StatusTimes(rows[1..], st);
      assert forall w :: w in rows <==> w == rows[0] || w in rows[1..];
      (if rows[0].rec.status == st then [rows[0].rec.time] else []) + rest
  }

  /** `Series.min()`, which skips NaT and is NaT when no time is left. */
  function MinTime(ts: seq<Option<Time>>): (m: Option<Time>)
    ensures m.None? <==> forall t :: t in ts ==> t.None?
    ensures m.Some? ==> m in ts && forall t :: t in ts && t.Some? ==> m.value <= t.value
  {
    if |ts| == 0 then None
    else
      var rest := MinTime(ts[1..]);
      assert forall t :: t in ts <==> t == ts[0] || t in ts[1..];
      match ts[0]
      case None => rest
      case Some(x) => if rest.Some? && rest.value < x then rest else Some(x)
  }

  /** `Series.max()`, which skips NaT and is NaT when no time is left. */
  function MaxTime(ts: seq<Option<Time>>): (m: Option<Time>)
    ensures m.None? <==> forall t :: t in ts ==> t.None?
    ensures m.Some? ==> m in ts && forall t :: t in ts && t.Some? ==> t.value <= m.value
  {
    if |ts| == 0 then None
    else
      var rest := MaxTime(ts[1..]);
      assert forall t :: t in ts <==> t == ts[0] || t in ts[1..];
      match ts[0]
      case None => rest
      case Some(x) => if rest.Some? && rest.value > x then rest else Some(x)
  }

  /** The start of a trip: the earliest time among its "Start up" records;
      absent when it has none with a time. */
  function StartTime(trip: seq<Row>): (s: Option<Time>)
    ensures s.None? <==> forall w :: w in trip && w.rec.status == StartUp ==> w.rec.time.None?
    ensures s.Some? ==> exists w :: w in trip && w.rec.status == StartUp && w.rec.time == s
    ensures forall w :: w in trip && w.rec.status == StartUp && w.rec.time.Some? ==> s.Some? && s.value <= w.rec.time.value
  {
    MinTime(StatusTimes(trip, StartUp))
  }

  /** The end of a trip: the latest time among its "Ignition off" records;
      absent when it has none with a time. */
  function EndTime(trip: seq<Row>): (e: Option<Time>)
    ensures e.None? <==> forall w :: w in trip && w.rec.status == IgnitionOff ==> w.rec.time.None?
    ensures e.Some? ==> exists w :: w in trip && w.rec.status == IgnitionOff && w.rec.time == e
    ensures forall w :: w in trip && w.rec.status == IgnitionOff && w.rec.time.Some? ==> e.Some? && w.rec.time.value <= e.value
  {
    MaxTime(StatusTimes(trip, IgnitionOff))
  }

  /** Points for one scored minute: 2 in hours 23 and 4, 4 in hours 0 and 3,
      6 in hours 1 and 2, nothing otherwise; an hour scores exactly when it
      is in the night window. */
  function Rate(h: int): (p: nat)
    ensures p == 0 || p == 2 || p == 4 || p == 6
    ensures 0 <= h < 24 ==> (p > 0 <==> NightHour(h))
  {
    if h == 23 || h == 4 then 2
    else if h == 0 || h == 3 then 4
    else if h == 1 || h == 2 then 6
    else 0
  }

  /** Reference definition of the scan: the points of the instants
      t, t + 60, t + 120, ... that are not after `e`. */
  function ScanFrom(t: int, e: int): nat
    decreases e - t
  {
    if t > e then 0 else Rate(Clock.Hour(t)) + ScanFrom(t + 60, e)
  }

  /** The number of instants t, t + 60, ... that are not after `e`. */
  function Instants(t: int, e: int): nat
    decreases e - t
  {
    if t > e then 0 else 1 + Instants(t + 60, e)
  }

  /** The first instant scored: one minute less one second after the start. */
  function FirstInstant(start: Time): Time {
    start + 59
  }

  /** The night penalty of a trip. An absent start or end makes the loop test
      `t <= end_time` false at once, so such a trip scores 0. */
  function Penalty(start: Option<Time>, end: Option<Time>): nat {
    if start.Some? && end.Some? then ScanFrom(FirstInstant(start.value), end.value) else 0
  }

  /** Closed form of the number of instants the scan visits. */
  function InstantCount(start: Option<Time>, end: Option<Time>): nat {
    if start.Some? && end.Some? && end.value >= start.value + 59
    then (end.value - start.value - 59) / 60 + 1
    else 0
  }

  lemma {:induction false} InstantsClosedForm(t: int, e: int)
    ensures Instants(t, e) == if t <= e then (e - t) / 60 + 1 else 0
    decreases e - t
  {
    if t <= e {
      InstantsClosedForm(t + 60, e);
      if t + 60 <= e {
        assert (e - t) / 60 == (e - (t + 60)) / 60 + 1;
      } else {
        assert (e - t) / 60 == 0;
      }
    }
  }

  /** The minute loop: `t` starts at start + 1 min - 1 s and advances by one
      minute while `t <= end_time`; `instants` counts the visited instants. */
  method ScanPenalty(start: Option<Time>, end: Option<Time>) returns (penalty: nat, instants: nat)
    ensures penalty == Penalty(start, end)
    ensures instants == InstantCount(start, end)
  {
    var t: Option<Time> := if start.Some? then Some(FirstInstant(start.value)) else None;
    penalty := 0;
    instants := 0;
    while t.Some? && end.Some? && t.value <= end.value
      invariant t.Some? <==> start.Some?
      invariant t.Some? && end.Some? ==> penalty + ScanFrom(t.value, end.value) == Penalty(start, end)
      invariant t.Some? && end.Some? ==> instants + Instants(t.value, end.value) == Instants(FirstInstant(start.value), end.value)
      invariant t.None? || end.None? ==> penalty == 0 && instants == 0
      decreases if t.Some? && end.Some? then end.value - t.value + 60 else 0
    {
      var h := Clock.Hour(t.value);
      if h == 23 || h == 4 {
        penalty := penalty + 2;
      } else if h == 0 || h == 3 {
        penalty := penalty + 4;
      } else if h == 1 || h == 2 {
        penalty := penalty + 6;
      }
      instants := instants + 1;
      t := Some(t.value + 60);
    }
    if start.Some? && end.Some? {
      InstantsClosedForm(FirstInstant(start.value), end.value);
    }
  }

  /** Every instant adds 0, 2, 4 or 6 points, so the penalty is even and at
      most 6 points per instant. */
  lemma {:induction false} ScanBounds(t: int, e: int)
    ensures ScanFrom(t, e) % 2 == 0
    ensures ScanFrom(t, e) <= 6 * Instants(t, e)
    decreases e - t
  {
    if t <= e {
      ScanBounds(t + 60, e);
    }
  }

  lemma PenaltyBounds(start: Option<Time>, end: Option<Time>)
    ensures Penalty(start, end) % 2 == 0
    ensures Penalty(start, end) <= 6 * InstantCount(start, end)
  {
    if start.Some? && end.Some? {
      ScanBounds(FirstInstant(start.value), end.value);
      InstantsClosedForm(FirstInstant(start.value), end.value);
    }
  }

  /** A trip with an absent start or end, or that ends before its first
      instant (in particular one that ends before it starts), scores 0. */
  lemma MalformedTripScoresNothing(start: Option<Time>, end: Option<Time>)
    requires start.None? || end.None? || end.value < start.value + 59
    ensures Penalty(start, end) == 0 && InstantCount(start, end) == 0
  {
  }

  /** A trip from 23:00:00 to 23:02:00 scores the instants 23:00:59 and
      23:01:59, two points each. */
  lemma TwoMinutesAtEleven()
    ensures Penalty(Some(82800), Some(82920)) == 4
    ensures InstantCount(Some(82800), Some(82920)) == 2
  {
  }

  /** Every instant t, t + 60, ... not after `e` lies in hours 5..22 of its
      day. */
  ghost predicate DaytimeInstants(t: int, e: int) {
    forall n: nat :: t + 60 * n <= e ==> 5 <= Clock.Hour(t + 60 * n) < 23
  }

  /** The instants from `t` are the instant `t` and the instants from
      `t + 60`. */
  lemma DaytimeInstantsStep(t: int, e: int)
    requires t <= e
    ensures DaytimeInstants(t, e) <==> 5 <= Clock.Hour(t) < 23 && DaytimeInstants(t + 60, e)
  {
    if DaytimeInstants(t, e) {
      assert t + 60 * 0 == t;
      forall m: nat | (t + 60) + 60 * m <= e
        ensures 5 <= Clock.Hour((t + 60) + 60 * m) < 23
      {
        assert t + 60 * (m + 1) == (t + 60) + 60 * m;
      }
    }
    if 5 <= Clock.Hour(t) < 23 && DaytimeInstants(t + 60, e) {
      forall n: nat | t + 60 * n <= e
        ensures 5 <= Clock.Hour(t + 60 * n) < 23
      {
        if n > 0 {
          assert t + 60 * n == (t + 60) + 60 * (n - 1);
        }
      }
    }
  }

  /** A scan scores nothing exactly when every instant it visits lies in
      hours 5..22 of its day; the seconds after the last instant do not
      count. */
  lemma {:induction false} DaytimeScanScoresNothing(t: int, e: int)
    ensures ScanFrom(t, e) == 0 <==> DaytimeInstants(t, e)
    decreases e - t
  {
    if t <= e {
      DaytimeScanScoresNothing(t + 60, e);
      DaytimeInstantsStep(t, e);
      NightHourWindow(Clock.Hour(t));
    }
  }

  /** A trip from 22:59:00 to 23:00:30 has the single instant 22:59:59 and
      scores nothing, although its end is in hour 23. */
  lemma LateEndScoresNothing()
    ensures Penalty(Some(82740), Some(82830)) == 0
    ensures InstantCount(Some(82740), Some(82830)) == 1
  {
  }

  /** `end_time - start_time`: a time span in seconds, NaT (`None`) when
      either end is NaT. */
  function Duration(start: Option<Time>, end: Option<Time>): (d: Option<int>)
    ensures d.Some? <==> start.Some? && end.Some?
    ensures d.Some? ==> start.value + d.value == end.value
  {
    if start.Some? && end.Some? then Some(end.value - start.value) else None
  }

  /** `duration.components`, whose hours and minutes the report line
      shows; NaT has no components (`None`: the attribute access raises). */
  function DurationParts(d: Option<int>): (c: Option<Clock.Components>)
    ensures c.Some? <==> d.Some?
    ensures c.Some? ==> Clock.InRange(c.value) && Clock.Compose(c.value) == d.value
  {
    if d.Some? then Some(Clock.ComponentsOf(d.value)) else None
  }

  /** One evaluated trip: its number, its penalty (printed at once) and its
      duration (broken into hours and minutes on the trip's report line). */
  datatype TripResult = TripResult(trip: nat, penalty: nat, duration: Option<int>)

  function EvaluateTrip(rows: seq<Row>, k: nat): (res: TripResult)
    ensures res.trip == k
  {
    var trip := TripRows(rows, k);
    var start := StartTime(trip);
    var end := EndTime(trip);
    TripResult(k, Penalty(start, end), Duration(start, end))
  }

  /** A trip with more than one record is evaluated (`len(trip_df) > 1`). */
  predicate Qualifies(rows: seq<Row>, k: nat) {
    |TripRows(rows, k)| > 1
  }

  /** An evaluated trip whose duration is NaT: `NaT` has no `components`, so
      the report line raises and the loop over the trips ends there. */
  predicate Fails(rows: seq<Row>, k: nat) {
    Qualifies(rows, k) && EvaluateTrip(rows, k).duration.None?
  }

  /** `Qualifies` and `EvaluateTrip` for one report, as values. */
  function Qualifier(rows: seq<Row>): nat -> bool {
    (k: nat) => Qualifies(rows, k)
  }

  function Evaluator(rows: seq<Row>): nat -> TripResult {
    (k: nat) => EvaluateTrip(rows, k)
  }

  /** The listed trips that are evaluated, in their listed order. */
  function QualifyingTrips(rows: seq<Row>, ks: seq<nat>): (qs: seq<nat>)
    ensures IsSubseq(qs, ks)
    ensures forall k :: k in qs <==> k in ks && Qualifies(rows, k)
  {
    FilterIsSubseq(ks, Qualifier(rows));
    Filter(ks, Qualifier(rows))
  }

  /** The result of each evaluated trip, in loop order. */
  function Evaluations(rows: seq<Row>, ks: seq<nat>): (rs: seq<TripResult>)
    ensures |rs| == |QualifyingTrips(rows, ks)|
    ensures forall i :: 0 <= i < |rs| ==> rs[i].trip == QualifyingTrips(rows, ks)[i]
    ensures forall i :: 0 <= i < |rs| ==> rs[i] == EvaluateTrip(rows, QualifyingTrips(rows, ks)[i])
  {
    Map(QualifyingTrips(rows, ks), Evaluator(rows))
  }

  /** The outcome of the loop over the night trips: the trips whose report
      line was printed, in order, and the trip, if any, whose report line
      raised after its penalty had been printed. */
  datatype NightRun = NightRun(lines: seq<TripResult>, failed: Option<TripResult>)

  /** Runs the report lines of the evaluated trips in order. A trip without
      a duration stops the loop: its penalty is out, its line is not. */
  function RunLoop(results: seq<TripResult>): (out: NightRun)
    ensures |out.lines| <= |results| && forall i :: 0 <= i < |out.lines| ==> out.lines[i] == results[i]
    ensures forall i :: 0 <= i < |out.lines| ==> out.lines[i].duration.Some?
    ensures out.failed.Some? ==> |out.lines| < |results| && out.failed.value == results[|out.lines|] && out.failed.value.duration.None?
    ensures out.failed.None? ==> out.lines == results
  {
    if |results| == 0 then NightRun([], None)
    else if results[0].duration.None? then NightRun([], Some(results[0]))
    else
      var rest := RunLoop(results[1..]);
      assert results == [results[0]] + results[1..];
      NightRun([results[0]] + rest.lines, rest.failed)
  }

  /** The TripNumber of a printed line. */
  function TripOf(res: TripResult): nat {
    res.trip
  }

  /** Evaluates the listed trips in order, skipping those with at most one
      record, until one of them has no duration. */
  function EvaluateAll(rows: seq<Row>, ks: seq<nat>): (out: NightRun)
    ensures IsSubseq(Map(out.lines, TripOf), ks)
    ensures forall res :: res in out.lines ==> Qualifies(rows, res.trip) && res == EvaluateTrip(rows, res.trip) && res.duration.Some?
    ensures out.failed.Some? ==> out.failed.value.trip in ks && Fails(rows, out.failed.value.trip) && out.failed.value == EvaluateTrip(rows, out.failed.value.trip)
    ensures out.failed.None? <==> forall k :: k in ks ==> !Fails(rows, k)
    ensures out.failed.None? ==> forall k :: k in ks && Qualifies(rows, k) ==> EvaluateTrip(rows, k) in out.lines
    ensures out.failed.Some? ==> exists i :: StoppedAt(rows, ks, out, i)
  {
    EvaluateAllStopsAtFirstFailure(rows, ks);
    LinesInListedOrder(rows, ks);
    LinesAreEvaluated(rows, ks);
    FailedIsEvaluated(rows, ks);
    RunCompletes(rows, ks);
    RunLoop(Evaluations(rows, ks))
  }

  /** The loop prints the results of a subsequence of `ks` in order, so the
      printed trip numbers are a subsequence of `ks` as well. */
  lemma RunLinesSubseq(results: seq<TripResult>, qs: seq<nat>, ks: seq<nat>)
    requires IsSubseq(qs, ks)
    requires |results| == |qs| && forall i :: 0 <= i < |qs| ==> results[i].trip == qs[i]
    ensures IsSubseq(Map(RunLoop(results).lines, TripOf), ks)
  {
    var n := |RunLoop(results).lines|;
    assert Map(RunLoop(results).lines, TripOf) == qs[..n];
    SubseqPrefix(qs, ks, n);
  }

  /** The printed trip numbers are a subsequence of the listed ones. */
  lemma LinesInListedOrder(rows: seq<Row>, ks: seq<nat>)
    ensures IsSubseq(Map(RunLoop(Evaluations(rows, ks)).lines, TripOf), ks)
  {
    RunLinesSubseq(Evaluations(rows, ks), QualifyingTrips(rows, ks), ks);
  }

  /** Each evaluation is that of a qualifying trip. */
  lemma EvaluationsQualify(rows: seq<Row>, ks: seq<nat>)
    ensures forall i :: 0 <= i < |Evaluations(rows, ks)| ==>
      Qualifies(rows, Evaluations(rows, ks)[i].trip) && Evaluations(rows, ks)[i] == EvaluateTrip(rows, Evaluations(rows, ks)[i].trip)
  {
    forall i | 0 <= i < |Evaluations(rows, ks)|
      ensures Qualifies(rows, Evaluations(rows, ks)[i].trip)
    {
      assert QualifyingTrips(rows, ks)[i] in QualifyingTrips(rows, ks);
    }
  }

  /** Every printed line is the evaluation of a qualifying trip. */
  lemma LinesAreEvaluated(rows: seq<Row>, ks: seq<nat>)
    ensures forall res :: res in RunLoop(Evaluations(rows, ks)).lines ==>
      Qualifies(rows, res.trip) && res == EvaluateTrip(rows, res.trip) && res.duration.Some?
  {
    var out := RunLoop(Evaluations(rows, ks));
    EvaluationsQualify(rows, ks);
    forall res | res in out.lines
      ensures Qualifies(rows, res.trip) && res == EvaluateTrip(rows, res.trip) && res.duration.Some?
    {
      var i :| 0 <= i < |out.lines| && out.lines[i] == res;
      assert res == Evaluations(rows, ks)[i];
    }
  }

  /** The trip that stops the loop is a listed, evaluated trip without a
      duration. */
  lemma FailedIsEvaluated(rows: seq<Row>, ks: seq<nat>)
    ensures var out := RunLoop(Evaluations(rows, ks));
      out.failed.Some? ==> out.failed.value.trip in ks && Fails(rows, out.failed.value.trip) && out.failed.value == EvaluateTrip(rows, out.failed.value.trip)
  {
    var out := RunLoop(Evaluations(rows, ks));
    if out.failed.Some? {
      assert QualifyingTrips(rows, ks)[|out.lines|] in QualifyingTrips(rows, ks);
    }
  }

  /** The loop runs to the end exactly when no listed trip fails, and then
      every qualifying trip is printed. */
  lemma RunCompletes(rows: seq<Row>, ks: seq<nat>)
    ensures var out := RunLoop(Evaluations(rows, ks));
      (out.failed.None? <==> forall k :: k in ks ==> !Fails(rows, k)) &&
      (out.failed.None? ==> forall k :: k in ks && Qualifies(rows, k) ==> EvaluateTrip(rows, k) in out.lines)
  {
    var out := RunLoop(Evaluations(rows, ks));
    if out.failed.Some? {
      FailedIsEvaluated(rows, ks);
    } else {
      forall k | k in ks && Qualifies(rows, k)
        ensures EvaluateTrip(rows, k) in out.lines && !Fails(rows, k)
      {
        assert k in QualifyingTrips(rows, ks);
        var i :| 0 <= i < |QualifyingTrips(rows, ks)| && QualifyingTrips(rows, ks)[i] == k;
        assert Evaluations(rows, ks)[i] == EvaluateTrip(rows, k);
      }
    }
  }

  /** The loop over `ks` stops at index `i`: trip `ks[i]` is evaluated and
      stops it, every evaluated trip listed before it was printed, and
      nothing else was. */
  predicate StopsAt(ks: seq<nat>, q: nat -> bool, eval: nat -> TripResult, out: NightRun, i: int) {
    0 <= i < |ks| && q(ks[i]) && out.failed == Some(eval(ks[i])) &&
    (forall j :: 0 <= j < i && q(ks[j]) ==> eval(ks[j]).duration.Some? && eval(ks[j]) in out.lines) &&
    (forall res :: res in out.lines ==> exists j :: 0 <= j < i && res == eval(ks[j]))
  }

  /** Whatever the test and the evaluation, a loop that stops early stops at
      the first evaluated trip without a duration. */
  lemma {:induction false} StopsAtFirstFailure(ks: seq<nat>, q: nat -> bool, eval: nat -> TripResult)
    ensures RunLoop(Map(Filter(ks, q), eval)).failed.Some? ==> exists i :: StopsAt(ks, q, eval, RunLoop(Map(Filter(ks, q), eval)), i)
    decreases |ks|
  {
    if |ks| > 0 && RunLoop(Map(Filter(ks, q), eval)).failed.Some? {
      MapFilterFront(ks, q, eval);
      var rest := RunLoop(Map(Filter(ks[1..], q), eval));
      if !q(ks[0]) {
        StopsAtFirstFailure(ks[1..], q, eval);
        var i :| StopsAt(ks[1..], q, eval, rest, i);
        StopsAtSkip(ks, q, eval, rest, i);
      } else if eval(ks[0]).duration.None? {
        RunLoopFront(eval(ks[0]), Map(Filter(ks[1..], q), eval));
        assert StopsAt(ks, q, eval, RunLoop(Map(Filter(ks, q), eval)), 0);
      } else {
        RunLoopFront(eval(ks[0]), Map(Filter(ks[1..], q), eval));
        StopsAtFirstFailure(ks[1..], q, eval);
        var i :| StopsAt(ks[1..], q, eval, rest, i);
        StopsAtShift(ks, q, eval, rest, RunLoop(Map(Filter(ks, q), eval)), i);
      }
    }
  }

  /** The evaluations of the first trip and of the rest. */
  lemma MapFilterFront(ks: seq<nat>, q: nat -> bool, eval: nat -> TripResult)
    requires |ks| > 0
    ensures Map(Filter(ks, q), eval) ==
      if q(ks[0]) then [eval(ks[0])] + Map(Filter(ks[1..], q), eval) else Map(Filter(ks[1..], q), eval)
  {
    if q(ks[0]) {
      assert Filter(ks, q) == [ks[0]] + Filter(ks[1..], q);
      MapFront(ks[0], Filter(ks[1..], q), eval);
    } else {
      assert Filter(ks, q) == Filter(ks[1..], q);
    }
  }

  /** The loop on a first result and the rest. */
  lemma RunLoopFront(r: TripResult, rest: seq<TripResult>)
    ensures RunLoop([r] + rest) ==
      if r.duration.None? then NightRun([], Some(r)) else NightRun([r] + RunLoop(rest).lines, RunLoop(rest).failed)
  {
    assert ([r] + rest)[1..] == rest;
  }

  /** Printing an evaluated first trip moves the stopping index by one. */
  lemma StopsAtShift(ks: seq<nat>, q: nat -> bool, eval: nat -> TripResult, rest: NightRun, out: NightRun, i: int)
    requires |ks| > 0 && q(ks[0]) && eval(ks[0]).duration.Some?
    requires StopsAt(ks[1..], q, eval, rest, i)
    requires out == NightRun([eval(ks[0])] + rest.lines, rest.failed)
    ensures StopsAt(ks, q, eval, out, i + 1)
  {
    forall j | 0 <= j < i + 1 && q(ks[j])
      ensures eval(ks[j]).duration.Some? && eval(ks[j]) in out.lines
    {
      if j > 0 {
        assert ks[j] == ks[1..][j - 1];
      }
    }
    forall res | res in out.lines
      ensures exists j :: 0 <= j < i + 1 && res == eval(ks[j])
    {
      if res != eval(ks[0]) {
        var j :| 0 <= j < i && res == eval(ks[1..][j]);
        assert ks[1..][j] == ks[j + 1];
      }
    }
  }

  /** Skipping a first trip that is not evaluated moves the stopping index
      by one. */
  lemma StopsAtSkip(ks: seq<nat>, q: nat -> bool, eval: nat -> TripResult, out: NightRun, i: int)
    requires |ks| > 0 && !q(ks[0])
    requires StopsAt(ks[1..], q, eval, out, i)
    ensures StopsAt(ks, q, eval, out, i + 1)
  {
    forall j | 0 <= j < i + 1 && q(ks[j])
      ensures eval(ks[j]).duration.Some? && eval(ks[j]) in out.lines
    {
      assert ks[j] == ks[1..][j - 1];
    }
    forall res | res in out.lines
      ensures exists j :: 0 <= j < i + 1 && res == eval(ks[j])
    {
      var j :| 0 <= j < i && res == eval(ks[1..][j]);
      assert ks[1..][j] == ks[j + 1];
    }
  }

  /** `out` stopped at the listed trip `ks[i]`: every qualifying trip listed
      before it has a duration and was printed, and only trips listed before
      it were printed. This is `StopsAt` read for `Qualifier(rows)` and
      `Evaluator(rows)` (`StopsAtIsStoppedAt`). */
  predicate StoppedAt(rows: seq<Row>, ks: seq<nat>, out: NightRun, i: int) {
    0 <= i < |ks| && out.failed.Some? && ks[i] == out.failed.value.trip &&
    (forall j :: 0 <= j < i && Qualifies(rows, ks[j]) ==> !Fails(rows, ks[j]) && EvaluateTrip(rows, ks[j]) in out.lines) &&
    (forall res :: res in out.lines ==> res.trip in ks[..i])
  }

  /** A loop that stops early stops at the first listed trip that fails. */
  lemma EvaluateAllStopsAtFirstFailure(rows: seq<Row>, ks: seq<nat>)
    ensures RunLoop(Evaluations(rows, ks)).failed.Some? ==> exists i :: StoppedAt(rows, ks, RunLoop(Evaluations(rows, ks)), i)
  {
    assert Evaluations(rows, ks) == Map(Filter(ks, Qualifier(rows)), Evaluator(rows));
    StopsAtFirstFailure(ks, Qualifier(rows), Evaluator(rows));
    if RunLoop(Evaluations(rows, ks)).failed.Some? {
      var i :| StopsAt(ks, Qualifier(rows), Evaluator(rows), RunLoop(Evaluations(rows, ks)), i);
      StopsAtIsStoppedAt(rows, ks, RunLoop(Evaluations(rows, ks)), i);
    }
  }

  /** `StopsAt` read for the evaluated trips of one report. */
  lemma StopsAtIsStoppedAt(rows: seq<Row>, ks: seq<nat>, out: NightRun, i: int)
    requires StopsAt(ks, Qualifier(rows), Evaluator(rows), out, i)
    ensures StoppedAt(rows, ks, out, i)
  {
    assert out.failed.value == EvaluateTrip(rows, ks[i]);
    forall j | 0 <= j < i && Qualifies(rows, ks[j])
      ensures !Fails(rows, ks[j]) && EvaluateTrip(rows, ks[j]) in out.lines
    {
      assert Qualifier(rows)(ks[j]);
      assert Evaluator(rows)(ks[j]) == EvaluateTrip(rows, ks[j]);
    }
    forall res | res in out.lines
      ensures res.trip in ks[..i]
    {
      var j :| 0 <= j < i && res == Evaluator(rows)(ks[j]);
      assert Evaluator(rows)(ks[j]) == EvaluateTrip(rows, ks[j]);
      assert ks[..i][j] == res.trip;
    }
  }

  /** The night-driving loop over `df_night_driving['TripNumber'].unique()`. */
  function NightDriving(rows: seq<Row>): NightRun {
    EvaluateAll(rows, NightTrips(rows))
  }

  /** Each printed line belongs to a trip with a night-eligible record and
      more than one record, and carries that trip's own penalty and
      duration. When no evaluated trip lacks a start or an end, every such
      trip is printed; otherwise the loop stops at such a trip. */
  lemma NightDrivingSelection(rows: seq<Row>, k: nat)
    ensures forall res :: res in NightDriving(rows).lines ==>
      HasNightRecord(rows, res.trip) && Qualifies(rows, res.trip) && res == EvaluateTrip(rows, res.trip) && res.duration.Some?
    ensures NightDriving(rows).failed.None? ==>
      (EvaluateTrip(rows, k) in NightDriving(rows).lines <==> HasNightRecord(rows, k) && Qualifies(rows, k))
    ensures NightDriving(rows).failed.Some? ==>
      var f := NightDriving(rows).failed.value;
      HasNightRecord(rows, f.trip) && Fails(rows, f.trip) && f == EvaluateTrip(rows, f.trip)
    ensures NightDriving(rows).failed.Some? ==> exists i :: StoppedAt(rows, NightTrips(rows), NightDriving(rows), i)
  {
    var run := NightDriving(rows);
    NightTripSelection(rows, k);
    forall res | res in run.lines
      ensures HasNightRecord(rows, res.trip)
    {
      assert res.trip in Map(run.lines, TripOf);
      SubseqMembers(Map(run.lines, TripOf), NightTrips(rows), res.trip);
      NightTripSelection(rows, res.trip);
    }
    if run.failed.Some? {
      NightTripSelection(rows, run.failed.value.trip);
    }
  }

  /** Trip 0 holds no "Start up", so its start is absent and it scores
      nothing and shows no duration. */
  lemma TripZeroScoresNothing(rs: seq<Record>)
    ensures EvaluateTrip(Trips.Tag(rs), 0).penalty == 0
    ensures EvaluateTrip(Trips.Tag(rs), 0).duration.None?
  {
    var rows := Trips.Tag(rs);
    var trip := TripRows(rows, 0);
    forall w | w in trip
      ensures w.rec.status != StartUp
    {
      var i :| 0 <= i < |rows| && rows[i] == w;
      Trips.TripZeroHasNoStartUp(rs, i);
    }
  }

  /** With trip 0 at the head of the rows, the first night-eligible row is
      on trip 0 whenever any is. */
  lemma {:induction false} FirstEligibleIsTripZero(rows: seq<Row>, m: int)
    requires 0 <= m < |rows| && EligibleRow(rows[m]) && rows[m].trip == 0
    requires forall i :: 0 <= i <= m ==> rows[i].trip <= rows[m].trip
    ensures |Filter(rows, EligibleRow)| > 0 && Filter(rows, EligibleRow)[0].trip == 0
  {
    assert rows[m] in Filter(rows, EligibleRow);
    FilterFirst(rows, EligibleRow);
  }

  /** Trip 0 is the first night trip whenever it is one, because trip
      numbers never decrease along the report. */
  lemma FirstNightTripIsZero(rs: seq<Record>)
    requires HasNightRecord(Trips.Tag(rs), 0)
    ensures |NightTrips(Trips.Tag(rs))| > 0 && NightTrips(Trips.Tag(rs))[0] == 0
  {
    var m :| 0 <= m < |Trips.Tag(rs)| && NightEligible(Trips.Tag(rs)[m].rec) && Trips.Tag(rs)[m].trip == 0;
    forall i | 0 <= i <= m
      ensures Trips.Tag(rs)[i].trip <= Trips.Tag(rs)[m].trip
    {
      Trips.TripNumbersMonotone(rs, i, m);
    }
    FirstEligibleIsTripZero(Trips.Tag(rs), m);
    DistinctFirst(RowTrips(Filter(Trips.Tag(rs), EligibleRow)));
  }

  /** When trip 0 is evaluated, it is evaluated first and has no start, so
      the loop stops at once: no report line is printed, only trip 0's
      penalty of 0. */
  lemma TripZeroStopsNightReport(rs: seq<Record>)
    requires HasNightRecord(Trips.Tag(rs), 0) && Qualifies(Trips.Tag(rs), 0)
    ensures NightDriving(Trips.Tag(rs)).lines == []
    ensures NightDriving(Trips.Tag(rs)).failed == Some(TripResult(0, 0, None))
  {
    FirstNightTripIsZero(rs);
    TripZeroScoresNothing(rs);
  }

  /** Rows whose trip numbers never decrease, as `cumsum()` tags them. */
  predicate InTripOrder(rows: seq<Row>) {
    forall i, j :: 0 <= i <= j < |rows| ==> rows[i].trip <= rows[j].trip
  }

  /** The tagged rows are in trip order. */
  lemma TaggedInTripOrder(rs: seq<Record>)
    ensures InTripOrder(Trips.Tag(rs))
  {
    forall i, j | 0 <= i <= j < |Trips.Tag(rs)|
      ensures Trips.Tag(rs)[i].trip <= Trips.Tag(rs)[j].trip
    {
      Trips.TripNumbersMonotone(rs, i, j);
    }
  }

  /** Keeping some of the rows keeps them in trip order. */
  lemma {:induction false} FilterKeepsTripOrder(rows: seq<Row>, p: Row -> bool)
    requires InTripOrder(rows)
    ensures InTripOrder(Filter(rows, p))
    decreases |rows|
  {
    if |rows| > 0 {
      TailInTripOrder(rows);
      FilterKeepsTripOrder(rows[1..], p);
      if p(rows[0]) {
        assert Filter(rows, p) == [rows[0]] + Filter(rows[1..], p);
        HeadBelowTail(rows, Filter(rows[1..], p));
        ConsInTripOrder(rows[0], Filter(rows[1..], p));
      } else {
        assert Filter(rows, p) == Filter(rows[1..], p);
      }
    }
  }

  lemma HeadBelowTail(rows: seq<Row>, rest: seq<Row>)
    requires |rows| > 0 && InTripOrder(rows)
    requires forall v :: v in rest ==> v in rows[1..]
    ensures forall v :: v in rest ==> rows[0].trip <= v.trip
  {
    forall v | v in rest
      ensures rows[0].trip <= v.trip
    {
      var m :| 0 <= m < |rows[1..]| && rows[1..][m] == v;
      assert rows[m + 1] == v;
    }
  }

  lemma TailInTripOrder(rows: seq<Row>)
    requires |rows| > 0 && InTripOrder(rows)
    ensures InTripOrder(rows[1..])
  {
    forall i, j | 0 <= i <= j < |rows[1..]|
      ensures rows[1..][i].trip <= rows[1..][j].trip
    {
      assert rows[1..][i] == rows[i + 1] && rows[1..][j] == rows[j + 1];
    }
  }

  lemma ConsInTripOrder(w: Row, rest: seq<Row>)
    requires InTripOrder(rest)
    requires forall v :: v in rest ==> w.trip <= v.trip
    ensures InTripOrder([w] + rest)
  {
    var r := [w] + rest;
    forall i, j | 0 <= i <= j < |r|
      ensures r[i].trip <= r[j].trip
    {
      if 0 < i {
        assert r[i] == rest[i - 1] && r[j] == rest[j - 1];
      } else if 0 < j {
        assert r[j] == rest[j - 1] && rest[j - 1] in rest;
      }
    }
  }

  /** With the rows in trip order, the night trips come out of `unique()` in
      strictly increasing order. */
  lemma NightTripsAscending(rows: seq<Row>)
    requires InTripOrder(rows)
    ensures forall i, j :: 0 <= i < j < |NightTrips(rows)| ==> NightTrips(rows)[i] < NightTrips(rows)[j]
  {
    FilterKeepsTripOrder(rows, EligibleRow);
    DistinctAscending(RowTrips(Filter(rows, EligibleRow)));
  }

  /** With the rows in trip order, the night report stops at the
      lowest-numbered night trip that fails: every night trip numbered below
      it passes and, when it qualifies, is printed, and only such trips are
      printed. */
  lemma NightDrivingStopsAtLowestFailure(rows: seq<Row>)
    requires InTripOrder(rows)
    ensures NightDriving(rows).failed.Some? ==>
      var f := NightDriving(rows).failed.value.trip;
      HasNightRecord(rows, f) && Fails(rows, f) &&
      (forall k: nat :: HasNightRecord(rows, k) && k < f ==>
        !Fails(rows, k) && (Qualifies(rows, k) ==> EvaluateTrip(rows, k) in NightDriving(rows).lines)) &&
      (forall res :: res in NightDriving(rows).lines ==> res.trip < f)
  {
    if NightDriving(rows).failed.Some? {
      NightTripsAscending(rows);
      var i :| StoppedAt(rows, NightTrips(rows), NightDriving(rows), i);
      StoppedAtLowest(rows, NightTrips(rows), NightDriving(rows), i);
      NightTripSelection(rows, NightDriving(rows).failed.value.trip);
      forall k: nat | HasNightRecord(rows, k)
        ensures k in NightTrips(rows)
      {
        NightTripSelection(rows, k);
      }
    }
  }

  /** Over listed trips in strictly increasing order, the loop stopped at
      `ks[i]` has printed every qualifying trip numbered below it, and no
      other. */
  lemma StoppedAtLowest(rows: seq<Row>, ks: seq<nat>, out: NightRun, i: int)
    requires StoppedAt(rows, ks, out, i)
    requires forall a, b :: 0 <= a < b < |ks| ==> ks[a] < ks[b]
    ensures forall k: nat :: k in ks && k < ks[i] ==>
      !Fails(rows, k) && (Qualifies(rows, k) ==> EvaluateTrip(rows, k) in out.lines)
    ensures forall res :: res in out.lines ==> res.trip < ks[i]
  {
    forall k: nat | k in ks && k < ks[i]
      ensures !Fails(rows, k) && (Qualifies(rows, k) ==> EvaluateTrip(rows, k) in out.lines)
    {
      PrefixBelow(ks, i, k);
      var j :| 0 <= j < i && ks[j] == k;
    }
    forall res | res in out.lines
      ensures res.trip < ks[i]
    {
      PrefixBelow(ks, i, res.trip);
    }
  }
}
