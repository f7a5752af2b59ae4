/** `calculate_summary_stats` (main.py): for the last 1, 7 and 30 days
    before one `now`, count the incidents that started in the window, their
    average and relative downtime, and the window's ping mean and maximum. */
module PeriodAggregator {
  import opened Wrappers
  import opened Numeric
  import opened IncidentDetector
  import opened HeartbeatAnalysis

  /** The three backward windows, labelled 日 (day), 周 (week) and 月 (month) in the report. */
  datatype Window = OneDay | SevenDays | ThirtyDays

  function WindowSeconds(w: Window): (s: nat)
    ensures s > 0
  {
    match w
    case OneDay => 86400
    case SevenDays => 7 * 86400
    case ThirtyDays => 30 * 86400
  }

  /** One window's figures. `avgDurationMicros` is the average incident
      duration in microseconds (the resolution of Python's `timedelta`);
      `percentage` is not capped at 100. */
  datatype PeriodSummary = PeriodSummary(count: nat, avgDurationMicros: int, percentage: real,
                                         avgPing: Option<real>, maxPing: Option<int>)

  /** `[inc for inc in incidents if inc['start'] >= start]`. */
  function IncidentsSince(incidents: seq<Incident>, start: int): seq<Incident> {
    if incidents == [] then []
    else (if incidents[0].start >= start then [incidents[0]] else []) + IncidentsSince(incidents[1..], start)
  }

  /** Sum of the incidents' full durations. */
  function TotalDuration(incidents: seq<Incident>): int {
    if incidents == [] then 0 else incidents[0].duration + TotalDuration(incidents[1..])
  }

  /** `[p['ping'] for p in ping_data if p['datetime'] >= start]`. */
  function PingsSince(pings: seq<PingSample>, start: int): seq<int> {
    if pings == [] then []
    else (if pings[0].time >= start then [pings[0].ping] else []) + PingsSince(pings[1..], start)
  }

  function Sum(xs: seq<int>): int {
    if xs == [] then 0 else xs[0] + Sum(xs[1..])
  }

  /** Python's `max` of a non-empty list. */
  function Max(xs: seq<int>): (m: int)
    requires |xs| > 0
    ensures m in xs && forall i :: 0 <= i < |xs| ==> xs[i] <= m
  {
    if |xs| == 1 then xs[0]
    else
      var r := Max(xs[1..]);
      assert forall i :: 1 <= i < |xs| ==> xs[i] == xs[1..][i - 1];
      if xs[0] >= r then xs[0] else r
  }

  /** Python's `min` of a non-empty list (used only to state the average's range). */
  function Min(xs: seq<int>): (m: int)
    requires |xs| > 0
    ensures m in xs && forall i :: 0 <= i < |xs| ==> m <= xs[i]
  {
    if |xs| == 1 then xs[0]
    else
      var r := Min(xs[1..]);
      assert forall i :: 1 <= i < |xs| ==> xs[i] == xs[1..][i - 1];
      if xs[0] <= r then xs[0] else r
  }

  /** `total / period_seconds * 100`: downtime seconds as a share of the window. */
  function Percentage(total: int, w: Window): (p: real)
    ensures p * (WindowSeconds(w) as real) == (total as real) * 100.0
    ensures total >= 0 ==> p >= 0.0
  {
    (total as real) / (WindowSeconds(w) as real) * 100.0
  }

  /** The figures of one window, measured back from `now`: incidents count by
      start time and contribute their whole duration; ping figures are absent
      when the window has no sample. */
  function Summarize(w: Window, incidents: seq<Incident>, pings: seq<PingSample>, now: int): PeriodSummary {
    var start := now - WindowSeconds(w);
    var periodIncidents := IncidentsSince(incidents, start);
    var count := |periodIncidents|;
    var total := TotalDuration(periodIncidents);
    var periodPings := PingsSince(pings, start);
    PeriodSummary(
      count,
      if count > 0 then RoundHalfEven(total * 1000000, count) else 0,
      Percentage(total, w),
      if |periodPings| > 0 then Some((Sum(periodPings) as real) / (|periodPings| as real)) else None,
      if |periodPings| > 0 then Some(Max(periodPings)) else None)
  }

  /** The loop over the three windows that fills the summary dictionary. */
  method CalculateSummaryStats(incidents: seq<Incident>, pings: seq<PingSample>, now: int)
    returns (summary: map<Window, PeriodSummary>)
    ensures summary.Keys == {OneDay, SevenDays, ThirtyDays}
    ensures forall w :: w in summary ==> summary[w] == Summarize(w, incidents, pings, now)
  {
    var periods := [OneDay, SevenDays, ThirtyDays];
    summary := map[];
    var i := 0;
    while i < |periods|
      invariant 0 <= i <= |periods|
      invariant forall w :: w in summary <==> w in periods[..i]
      invariant forall w :: w in summary ==> summary[w] == Summarize(w, incidents, pings, now)
    {
      var w := periods[i];
      var figures := Summarize(w, incidents, pings, now);
      summary := summary[w := figures];
      assert periods[..i + 1] == periods[..i] + [w];
      i := i + 1;
    }
    assert periods[..i] == periods;
  }

  /** A later window start keeps a subset of the incidents (as a count). */
  lemma {:induction false} IncidentsSinceShrinks(incidents: seq<Incident>, early: int, late: int)
    requires early <= late
    ensures |IncidentsSince(incidents, late)| <= |IncidentsSince(incidents, early)|
    ensures (forall k :: 0 <= k < |incidents| ==> incidents[k].duration >= 0) ==>
      TotalDuration(IncidentsSince(incidents, late)) <= TotalDuration(IncidentsSince(incidents, early))
  {
    if incidents != [] {
      IncidentsSinceShrinks(incidents[1..], early, late);
      TotalDurationAppend(if incidents[0].start >= late then [incidents[0]] else [], IncidentsSince(incidents[1..], late));
      TotalDurationAppend(if incidents[0].start >= early then [incidents[0]] else [], IncidentsSince(incidents[1..], early));
    }
  }

  lemma {:induction false} TotalDurationAppend(a: seq<Incident>, b: seq<Incident>)
    ensures TotalDuration(a + b) == TotalDuration(a) + TotalDuration(b)
  {
    if a == [] {
      assert a + b == b;
    } else {
      TotalDurationAppend(a[1..], b);
      assert (a + b)[1..] == a[1..] + b;
    }
  }

  /** The windows share one `now` and are nested, so incident counts (and,
      for non-negative durations, downtime totals) grow from day to week to
      month. */
  lemma WindowsNested(incidents: seq<Incident>, pings: seq<PingSample>, now: int)
    ensures Summarize(OneDay, incidents, pings, now).count <= Summarize(SevenDays, incidents, pings, now).count
    ensures Summarize(SevenDays, incidents, pings, now).count <= Summarize(ThirtyDays, incidents, pings, now).count
    ensures (forall k :: 0 <= k < |incidents| ==> incidents[k].duration >= 0) ==>
      TotalDuration(IncidentsSince(incidents, now - WindowSeconds(OneDay)))
        <= TotalDuration(IncidentsSince(incidents, now - WindowSeconds(SevenDays)))
        <= TotalDuration(IncidentsSince(incidents, now - WindowSeconds(ThirtyDays)))
  {
    IncidentsSinceShrinks(incidents, now - WindowSeconds(SevenDays), now - WindowSeconds(OneDay));
    IncidentsSinceShrinks(incidents, now - WindowSeconds(ThirtyDays), now - WindowSeconds(SevenDays));
  }

  lemma {:induction false} TotalDurationNonNegative(incidents: seq<Incident>)
    requires forall k :: 0 <= k < |incidents| ==> incidents[k].duration >= 0
    ensures TotalDuration(incidents) >= 0
  {
    if incidents != [] {
      TotalDurationNonNegative(incidents[1..]);
    }
  }

  /** The window keeps an incident exactly when the incident started at or
      after the window start. */
  lemma {:induction false} IncidentsSinceMembers(incidents: seq<Incident>, start: int)
    ensures forall x :: x in IncidentsSince(incidents, start) <==> x in incidents && x.start >= start
  {
    if incidents != [] {
      IncidentsSinceMembers(incidents[1..], start);
      assert incidents == [incidents[0]] + incidents[1..];
    }
  }

  /** The selection goes element by element: the window of a concatenation
      is the concatenation of the windows, so kept incidents stay in their
      input order and keep their multiplicity. */
  lemma {:induction false} IncidentsSinceAppend(a: seq<Incident>, b: seq<Incident>, start: int)
    ensures IncidentsSince(a + b, start) == IncidentsSince(a, start) + IncidentsSince(b, start)
  {
    if a == [] {
      assert a + b == b;
    } else {
      var h := if a[0].start >= start then [a[0]] else [];
      var x, y := IncidentsSince(a[1..], start), IncidentsSince(b, start);
      IncidentsSinceAppend(a[1..], b, start);
      assert (a + b)[1..] == a[1..] + b && (a + b)[0] == a[0];
      assert IncidentsSince(a + b, start) == h + (x + y);
      assert h + (x + y) == (h + x) + y;
    }
  }

  /** `avg_duration` is 0 when no incident is counted, otherwise total/count
      to the nearest microsecond (ties to even). */
  lemma AverageDuration(w: Window, incidents: seq<Incident>, pings: seq<PingSample>, now: int)
    ensures var s := Summarize(w, incidents, pings, now);
      var total := TotalDuration(IncidentsSince(incidents, now - WindowSeconds(w)));
      && (s.count == 0 ==> s.avgDurationMicros == 0 && total == 0)
      && (s.count > 0 ==> 2 * Abs(s.avgDurationMicros * s.count - total * 1000000) <= s.count)
  {
  }

  /** `percentage` is the counted downtime over the window length, times
      100, and is non-negative when durations are. */
  lemma PercentageFigure(w: Window, incidents: seq<Incident>, pings: seq<PingSample>, now: int)
    ensures Summarize(w, incidents, pings, now).percentage * (WindowSeconds(w) as real)
      == (TotalDuration(IncidentsSince(incidents, now - WindowSeconds(w))) as real) * 100.0
    ensures (forall k :: 0 <= k < |incidents| ==> incidents[k].duration >= 0) ==>
      Summarize(w, incidents, pings, now).percentage >= 0.0
  {
    var periodIncidents := IncidentsSince(incidents, now - WindowSeconds(w));
    if (forall k :: 0 <= k < |incidents| ==> incidents[k].duration >= 0) {
      IncidentsSinceMembers(incidents, now - WindowSeconds(w));
      TotalDurationNonNegative(periodIncidents);
    }
  }

  /** Full durations are attributed by start time, so the percentage can
      exceed 100: a two-day incident that began an hour ago gives 200% for
      the last day. */
  lemma PercentageNotCapped(now: int)
    ensures Summarize(OneDay, [Incident(now - 3600, 2 * 86400, false)], [], now).percentage == 200.0
  {
    var inc := [Incident(now - 3600, 2 * 86400, false)];
    assert IncidentsSince(inc, now - 86400) == inc;
    assert TotalDuration(inc) == 2 * 86400;
  }

  lemma {:induction false} PingsSinceEmpty(pings: seq<PingSample>, start: int)
    ensures PingsSince(pings, start) == [] <==> forall i :: 0 <= i < |pings| ==> pings[i].time < start
  {
    if pings != [] {
      PingsSinceEmpty(pings[1..], start);
      assert forall i :: 1 <= i < |pings| ==> pings[i] == pings[1..][i - 1];
    }
  }

  /** The in-window pings are the pings of in-window samples. */
  lemma {:induction false} PingsSinceExactly(pings: seq<PingSample>, start: int, p: int)
    ensures p in PingsSince(pings, start) <==> exists i :: 0 <= i < |pings| && pings[i].time >= start && pings[i].ping == p
  {
    if pings != [] {
      PingsSinceExactly(pings[1..], start, p);
      if exists i :: 0 <= i < |pings| && pings[i].time >= start && pings[i].ping == p {
        var i :| 0 <= i < |pings| && pings[i].time >= start && pings[i].ping == p;
        if i > 0 { assert pings[1..][i - 1] == pings[i]; }
      }
      if exists i :: 0 <= i < |pings[1..]| && pings[1..][i].time >= start && pings[1..][i].ping == p {
        var i :| 0 <= i < |pings[1..]| && pings[1..][i].time >= start && pings[1..][i].ping == p;
        assert pings[i + 1] == pings[1..][i];
      }
    }
  }

  lemma {:induction false} SumBetween(xs: seq<int>, lo: int, hi: int)
    requires forall i :: 0 <= i < |xs| ==> lo <= xs[i] <= hi
    ensures |xs| * lo <= Sum(xs) <= |xs| * hi
  {
    if xs != [] {
      SumBetween(xs[1..], lo, hi);
      assert |xs| * lo == lo + (|xs| - 1) * lo;
      assert |xs| * hi == hi + (|xs| - 1) * hi;
    }
  }

  lemma MeanBetween(total: int, n: int, lo: int, hi: int)
    requires n > 0 && n * lo <= total <= n * hi
    ensures lo as real <= (total as real) / (n as real) <= hi as real
  {
    var t, r := total as real, n as real;
    assert r * (lo as real) <= t <= r * (hi as real);
    assert t / r * r == t;
  }

  /** Ping figures are absent exactly when no sample falls in the window. */
  lemma PingFiguresPresence(w: Window, incidents: seq<Incident>, pings: seq<PingSample>, now: int)
    ensures var s := Summarize(w, incidents, pings, now);
      && (s.avgPing.None? <==> forall i :: 0 <= i < |pings| ==> pings[i].time < now - WindowSeconds(w))
      && (s.maxPing.None? <==> s.avgPing.None?)
  {
    PingsSinceEmpty(pings, now - WindowSeconds(w));
  }

  /** When present, the maximum ping is the ping of an in-window sample and
      bounds every in-window sample. */
  lemma MaxPingIsWindowMaximum(w: Window, incidents: seq<Incident>, pings: seq<PingSample>, now: int)
    requires Summarize(w, incidents, pings, now).maxPing.Some?
    ensures var m := Summarize(w, incidents, pings, now).maxPing.value;
      var start := now - WindowSeconds(w);
      && (exists i :: 0 <= i < |pings| && pings[i].time >= start && pings[i].ping == m)
      && (forall i :: 0 <= i < |pings| && pings[i].time >= start ==> pings[i].ping <= m)
  {
    var start := now - WindowSeconds(w);
    var ps := PingsSince(pings, start);
    var m := Max(ps);
    PingsSinceExactly(pings, start, m);
    forall i | 0 <= i < |pings| && pings[i].time >= start ensures pings[i].ping <= m {
      PingsSinceExactly(pings, start, pings[i].ping);
      var k :| 0 <= k < |ps| && ps[k] == pings[i].ping;
    }
  }

  /** When present, the mean ping lies between the smallest and the largest
      in-window sample. */
  lemma AvgPingBetween(w: Window, incidents: seq<Incident>, pings: seq<PingSample>, now: int)
    requires Summarize(w, incidents, pings, now).avgPing.Some?
    ensures var s := Summarize(w, incidents, pings, now);
      var ps := PingsSince(pings, now - WindowSeconds(w));
      |ps| > 0 && s.maxPing.Some? && Min(ps) as real <= s.avgPing.value <= s.maxPing.value as real
  {
    var ps := PingsSince(pings, now - WindowSeconds(w));
    SumBetween(ps, Min(ps), Max(ps));
    MeanBetween(Sum(ps), |ps|, Min(ps), Max(ps));
  }

  /** No incidents and no samples: zero counts and durations, no ping figures. */
  lemma EmptyInput(w: Window, now: int)
    ensures Summarize(w, [], [], now) == PeriodSummary(0, 0, 0.0, None, None)
  {
  }
}
