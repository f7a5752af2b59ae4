/** Downtime-incident detection of `analyze_heartbeats` (main.py): the
    processed beats are stably sorted by instant, then walked by a two-state
    machine that opens an incident at a down beat and closes it at the next
    up beat. The functions here are the specification the imperative walk in
    HeartbeatAnalysis is proved against. */
module IncidentDetector {
  import opened Wrappers

  /** A processed beat: its instant (epoch seconds) and raw status code. */
  datatype Beat = Beat(time: int, status: int)

  /** A downtime incident: start instant, duration in seconds, and whether it
      was still open when the analysis ran. */
  datatype Incident = Incident(start: int, duration: int, ongoing: bool)

  /** Status 0 is down; every other status code counts as up. */
  predicate IsDown(b: Beat) {
    b.status == 0
  }

  // ---------------------------------------------------------------------
  // Stable sort by instant (Python's `sorted(..., key=...)`)
  // ---------------------------------------------------------------------

  predicate SortedByTime(bs: seq<Beat>) {
    forall i, j :: 0 <= i < j < |bs| ==> bs[i].time <= bs[j].time
  }

  /** The beats of `bs` at instant `t`, in their order in `bs`. */
  function AtTime(bs: seq<Beat>, t: int): seq<Beat> {
    if bs == [] then []
    else (if bs[0].time == t then [bs[0]] else []) + AtTime(bs[1..], t)
  }

  /** Insert `b` in front of the first beat that is not earlier than it. */
  function Insert(b: Beat, s: seq<Beat>): seq<Beat> {
    if s == [] then [b]
    else if b.time <= s[0].time then [b] + s
    else [s[0]] + Insert(b, s[1..])
  }

  /** Insertion sort by instant; a beat never overtakes an earlier beat with the same instant. */
  function SortByTime(bs: seq<Beat>): seq<Beat> {
    if bs == [] then [] else Insert(bs[0], SortByTime(bs[1..]))
  }

  lemma {:induction false} InsertMultiset(b: Beat, s: seq<Beat>)
    ensures multiset(Insert(b, s)) == multiset(s) + multiset{b}
  {
    if s != [] && b.time > s[0].time {
      InsertMultiset(b, s[1..]);
      assert s == [s[0]] + s[1..];
    }
  }

  lemma {:induction false} InsertSorted(b: Beat, s: seq<Beat>)
    requires SortedByTime(s)
    ensures SortedByTime(Insert(b, s))
  {
    if s != [] && b.time > s[0].time {
      InsertSorted(b, s[1..]);
      InsertMultiset(b, s[1..]);
      var r := Insert(b, s);
      assert r == [s[0]] + Insert(b, s[1..]);
      forall j | 0 < j < |r| ensures r[0].time <= r[j].time {
        assert r[j] in multiset(Insert(b, s[1..]));
        assert r[j] in multiset(s[1..]) + multiset{b};
      }
    }
  }

  lemma {:induction false} InsertAtTime(b: Beat, s: seq<Beat>, t: int)
    requires SortedByTime(s)
    ensures AtTime(Insert(b, s), t) == if b.time == t then [b] + AtTime(s, t) else AtTime(s, t)
  {
    var r := Insert(b, s);
    if s == [] {
    } else if b.time <= s[0].time {
      assert r[1..] == s;
    } else {
      InsertAtTime(b, s[1..], t);
      assert r == [s[0]] + Insert(b, s[1..]);
      assert AtTime(r, t) == (if s[0].time == t then [s[0]] else []) + AtTime(Insert(b, s[1..]), t);
    }
  }

  /** The sort orders by instant, keeps every beat, and keeps beats that
      share an instant in their original relative order (stability). */
  lemma SortFacts(bs: seq<Beat>)
    ensures SortedByTime(SortByTime(bs))
    ensures multiset(SortByTime(bs)) == multiset(bs)
    ensures forall t :: AtTime(SortByTime(bs), t) == AtTime(bs, t)
  {
    SortSorted(bs);
    SortMultiset(bs);
    forall t ensures AtTime(SortByTime(bs), t) == AtTime(bs, t) {
      SortStable(bs, t);
    }
  }

  lemma {:induction false} SortSorted(bs: seq<Beat>)
    ensures SortedByTime(SortByTime(bs))
  {
    if bs != [] {
      SortSorted(bs[1..]);
      InsertSorted(bs[0], SortByTime(bs[1..]));
    }
  }

  lemma {:induction false} SortMultiset(bs: seq<Beat>)
    ensures multiset(SortByTime(bs)) == multiset(bs)
  {
    if bs != [] {
      SortMultiset(bs[1..]);
      InsertMultiset(bs[0], SortByTime(bs[1..]));
      assert bs == [bs[0]] + bs[1..];
    }
  }

  lemma {:induction false} SortStable(bs: seq<Beat>, t: int)
    ensures AtTime(SortByTime(bs), t) == AtTime(bs, t)
  {
    if bs != [] {
      SortStable(bs[1..], t);
      SortSorted(bs[1..]);
      InsertAtTime(bs[0], SortByTime(bs[1..]), t);
    }
  }

  /** Beats at an instant before every beat of a sorted sequence: none. */
  lemma {:induction false} AtTimeBelow(s: seq<Beat>, t: int)
    requires forall i :: 0 <= i < |s| ==> t < s[i].time
    ensures AtTime(s, t) == []
  {
    if s != [] {
      AtTimeBelow(s[1..], t);
    }
  }

  /** Two sorted sequences with the same beats at each instant are both
      empty or both non-empty, and then begin with the same beat. */
  lemma SameFirst(a: seq<Beat>, b: seq<Beat>)
    requires SortedByTime(a) && SortedByTime(b)
    requires forall t :: AtTime(a, t) == AtTime(b, t)
    ensures a == [] <==> b == []
    ensures a != [] ==> a[0] == b[0]
  {
    if a != [] {
      assert AtTime(a, a[0].time) != [];
    }
    if b != [] {
      assert AtTime(b, b[0].time) != [];
    }
    if a != [] && b != [] {
      if a[0].time < b[0].time {
        AtTimeBelow(b, a[0].time);
      } else if b[0].time < a[0].time {
        AtTimeBelow(a, b[0].time);
      }
      assert AtTime(a, a[0].time)[0] == a[0] && AtTime(b, a[0].time)[0] == b[0];
    }
  }

  /** Dropping the same first beat keeps the beats at each instant equal. */
  lemma SameTails(a: seq<Beat>, b: seq<Beat>, t: int)
    requires a != [] && b != [] && a[0] == b[0]
    requires AtTime(a, t) == AtTime(b, t)
    ensures AtTime(a[1..], t) == AtTime(b[1..], t)
  {
    var head := if a[0].time == t then [a[0]] else [];
    assert AtTime(a, t) == head + AtTime(a[1..], t);
    assert AtTime(b, t) == head + AtTime(b[1..], t);
    assert AtTime(a[1..], t) == AtTime(a, t)[|head|..];
    assert AtTime(b[1..], t) == AtTime(b, t)[|head|..];
  }

  /** A sorted sequence is determined by its beats at each instant. */
  lemma {:induction false} SortedDeterminedByInstants(a: seq<Beat>, b: seq<Beat>)
    requires SortedByTime(a) && SortedByTime(b)
    requires forall t :: AtTime(a, t) == AtTime(b, t)
    ensures a == b
    decreases |a|
  {
    SameFirst(a, b);
    if a != [] {
      forall t ensures AtTime(a[1..], t) == AtTime(b[1..], t) {
        SameTails(a, b, t);
      }
      SortedDeterminedByInstants(a[1..], b[1..]);
      assert a == [a[0]] + a[1..] && b == [b[0]] + b[1..];
    }
  }

  // ---------------------------------------------------------------------
  // The incident walk
  // ---------------------------------------------------------------------

  /** The walk's state: incidents closed so far and the start of the open one. */
  datatype WalkState = WalkState(closed: seq<Incident>, open: Option<int>)

  /** One beat of the walk: a down beat opens an incident only when none is
      open; an up beat closes the open incident, if any, with
      `duration = beat time - start`. */
  function Step(st: WalkState, b: Beat): WalkState {
    if IsDown(b) then
      (if st.open.None? then WalkState(st.closed, Some(b.time)) else st)
    else if st.open.Some? then
      WalkState(st.closed + [Incident(st.open.value, b.time - st.open.value, false)], None)
    else st
  }

  /** The walk over a whole sequence of beats, from the empty state. */
  function Scan(bs: seq<Beat>): WalkState {
    if bs == [] then WalkState([], None) else Step(Scan(bs[..|bs| - 1]), bs[|bs| - 1])
  }

  /** The incident list: the closed incidents, then the open one, if any,
      reported as ongoing with `duration = now - start`. */
  function DetectIncidents(bs: seq<Beat>, now: int): seq<Incident> {
    var st := Scan(bs);
    st.closed + (if st.open.Some? then [Incident(st.open.value, now - st.open.value, true)] else [])
  }

  /** The sequence ends with a down beat. */
  predicate EndsDown(bs: seq<Beat>) {
    |bs| > 0 && IsDown(bs[|bs| - 1])
  }

  /** Number of places where a down beat is directly followed by an up beat. */
  function Recoveries(bs: seq<Beat>): nat {
    if |bs| < 2 then 0
    else Recoveries(bs[..|bs| - 1]) + (if IsDown(bs[|bs| - 2]) && !IsDown(bs[|bs| - 1]) then 1 else 0)
  }

  /** After a prefix, an incident is open exactly when its last beat is down;
      closed incidents are never marked ongoing; there are as many of them as
      down-to-up recoveries. */
  lemma {:induction false} ScanShape(bs: seq<Beat>)
    ensures Scan(bs).open.Some? <==> EndsDown(bs)
    ensures |Scan(bs).closed| == Recoveries(bs)
    ensures forall k :: 0 <= k < |Scan(bs).closed| ==> !Scan(bs).closed[k].ongoing
  {
    if bs != [] {
      var init := bs[..|bs| - 1];
      ScanShape(init);
      if |init| > 0 {
        assert init[|init| - 1] == bs[|bs| - 2];
      }
    }
  }

  /** The number of incidents is the number of recoveries, plus one when the
      beats end down; only that trailing incident is ongoing, and it lasts
      until `now`. */
  lemma IncidentCount(bs: seq<Beat>, now: int)
    ensures |DetectIncidents(bs, now)| == Recoveries(bs) + (if EndsDown(bs) then 1 else 0)
    ensures forall k :: 0 <= k < |DetectIncidents(bs, now)| ==>
      (DetectIncidents(bs, now)[k].ongoing <==> EndsDown(bs) && k == |DetectIncidents(bs, now)| - 1)
    ensures EndsDown(bs) ==> var last := DetectIncidents(bs, now)[|DetectIncidents(bs, now)| - 1];
      last.ongoing && last.duration == now - last.start
  {
    ScanShape(bs);
  }

  /** No beats, no incidents. */
  lemma NoBeatsNoIncidents(now: int)
    ensures DetectIncidents([], now) == []
  {
  }

  /** Each incident ends no later than the next one starts. */
  predicate Chained(inc: seq<Incident>) {
    forall k :: 0 <= k < |inc| - 1 ==> inc[k].start + inc[k].duration <= inc[k + 1].start
  }

  /** Closed incidents have non-negative durations. */
  predicate ClosedNonNegative(inc: seq<Incident>) {
    forall k :: 0 <= k < |inc| ==> (!inc[k].ongoing ==> inc[k].duration >= 0)
  }

  /** What the walk keeps true over sorted beats: closed incidents are chained
      and non-negative, the last one ended by the latest beat, and the open
      incident started after it and no later than the latest beat. */
  predicate OrderedState(st: WalkState, latest: int) {
    Chained(st.closed) && ClosedNonNegative(st.closed)
    && (forall k :: 0 <= k < |st.closed| ==> !st.closed[k].ongoing)
    && (|st.closed| > 0 ==> st.closed[|st.closed| - 1].start + st.closed[|st.closed| - 1].duration <= latest)
    && (st.open.Some? ==>
          (st.open.value <= latest
           && (|st.closed| > 0 ==> st.closed[|st.closed| - 1].start + st.closed[|st.closed| - 1].duration <= st.open.value)))
  }

  lemma StepOrdered(st: WalkState, latest: int, b: Beat)
    requires OrderedState(st, latest) && latest <= b.time
    ensures OrderedState(Step(st, b), b.time)
  {
  }

  lemma {:induction false} ScanOrdered(bs: seq<Beat>)
    requires SortedByTime(bs) && |bs| > 0
    ensures OrderedState(Scan(bs), bs[|bs| - 1].time)
  {
    var init := bs[..|bs| - 1];
    if init == [] {
      assert Scan(init) == WalkState([], None);
    } else {
      ScanOrdered(init);
      StepOrdered(Scan(init), init[|init| - 1].time, bs[|bs| - 1]);
    }
  }

  /** Over time-sorted beats the incidents come out in order: each one ends
      (start + duration) no later than the next one starts, closed durations
      are non-negative, and the starts never decrease. */
  lemma IncidentsOrdered(bs: seq<Beat>, now: int)
    requires SortedByTime(bs)
    ensures Chained(DetectIncidents(bs, now))
    ensures ClosedNonNegative(DetectIncidents(bs, now))
    ensures forall i, j :: 0 <= i < j < |DetectIncidents(bs, now)| ==>
      DetectIncidents(bs, now)[i].start <= DetectIncidents(bs, now)[j].start
  {
    var inc := DetectIncidents(bs, now);
    if bs != [] {
      ScanOrdered(bs);
    }
    ChainedStartsAscend(inc);
  }

  lemma {:induction false} ChainedStartsAscend(inc: seq<Incident>)
    requires Chained(inc) && ClosedNonNegative(inc)
    requires forall k :: 0 <= k < |inc| - 1 ==> !inc[k].ongoing
    ensures forall i, j :: 0 <= i < j < |inc| ==> inc[i].start <= inc[j].start
  {
    if |inc| > 1 {
      ChainedStartsAscend(inc[1..]);
      assert forall j :: 1 <= j < |inc| ==> inc[1].start <= inc[j].start by {
        forall j | 1 <= j < |inc| ensures inc[1].start <= inc[j].start {
          if j > 1 { assert inc[1..][0] == inc[1] && inc[1..][j - 1] == inc[j]; }
        }
      }
      forall i, j | 0 <= i < j < |inc| ensures inc[i].start <= inc[j].start {
        if i > 0 { assert inc[1..][i - 1] == inc[i] && inc[1..][j - 1] == inc[j]; }
      }
    }
  }

  /** When no beat lies after `now`, the ongoing incident's duration is not
      negative either, so every incident duration is. */
  lemma DurationsNonNegative(bs: seq<Beat>, now: int)
    requires SortedByTime(bs)
    requires forall i :: 0 <= i < |bs| ==> bs[i].time <= now
    ensures forall k :: 0 <= k < |DetectIncidents(bs, now)| ==> DetectIncidents(bs, now)[k].duration >= 0
  {
    IncidentsOrdered(bs, now);
    if bs != [] {
      ScanOrdered(bs);
    }
  }

  /** Analysing a stably re-sorted reordering gives the same incidents as long
      as beats that share an instant keep their relative order. */
  lemma ReorderingInvariance(xs: seq<Beat>, ys: seq<Beat>, now: int)
    requires forall t :: AtTime(xs, t) == AtTime(ys, t)
    ensures SortByTime(xs) == SortByTime(ys)
    ensures DetectIncidents(SortByTime(xs), now) == DetectIncidents(SortByTime(ys), now)
  {
    SortFacts(xs);
    SortFacts(ys);
    SortedDeterminedByInstants(SortByTime(xs), SortByTime(ys));
  }

  /** Reordering beats that share an instant can change the result: a down and
      an up beat at the same instant give a zero-length closed incident in one
      order and an ongoing incident in the other. */
  lemma TiedReorderingMatters(now: int)
    ensures DetectIncidents(SortByTime([Beat(0, 0), Beat(0, 1)]), now) == [Incident(0, 0, false)]
    ensures DetectIncidents(SortByTime([Beat(0, 1), Beat(0, 0)]), now) == [Incident(0, now, true)]
  {
    var a, b := [Beat(0, 0), Beat(0, 1)], [Beat(0, 1), Beat(0, 0)];
    assert SortByTime(a) == a && SortByTime(b) == b;
    assert a[..1] == [Beat(0, 0)] && b[..1] == [Beat(0, 1)];
  }

  /** Up, down, then up 300 seconds later: one closed 300-second incident. */
  lemma OneOutage(t0: int, now: int)
    ensures DetectIncidents([Beat(t0, 1), Beat(t0, 0), Beat(t0 + 300, 1)], now) == [Incident(t0, 300, false)]
  {
    var bs := [Beat(t0, 1), Beat(t0, 0), Beat(t0 + 300, 1)];
    assert bs[..2][..1] == [Beat(t0, 1)];
    assert bs[..2] == [Beat(t0, 1), Beat(t0, 0)];
    assert [Beat(t0, 1)][..0] == [];
    assert Scan([Beat(t0, 1)]) == WalkState([], None);
    assert Scan(bs[..2]) == WalkState([], Some(t0));
    assert Scan(bs) == WalkState([Incident(t0, 300, false)], None);
  }
}
