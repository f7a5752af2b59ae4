/** `analyze_heartbeats` (main.py): one pass over the raw records builds the
    processed beats, the ping samples and the keyword statistics; the beats
    are then stably sorted and walked for downtime incidents. The method
    follows the source's two loops; the functions beside it are their
    specification. */
module HeartbeatAnalysis {
  import opened Wrappers
  import opened Text
  import opened TimeNormalizer
  import opened KeywordClassifier
  import opened IncidentDetector

  /** A raw heartbeat record as the monitoring API returns it. */
  datatype Heartbeat = Heartbeat(time: RawTime, status: int, ping: Option<int>, msg: string)

  /** A latency sample: instant and ping in milliseconds. */
  datatype PingSample = PingSample(time: int, ping: int)

  /** Batch-wide keyword statistics. `keywordRatio` is a percentage of all
      records examined. */
  datatype KeywordAnalysis = KeywordAnalysis(uniqueKeywords: set<string>, keywordCount: nat, keywordRatio: real)

  /** What `analyze_heartbeats` returns. */
  datatype Analysis = Analysis(incidents: seq<Incident>, keywords: KeywordAnalysis, pingData: seq<PingSample>)

  /** Beats of the records whose time normalises, in record order. */
  function KeptBeats(rs: seq<Heartbeat>): seq<Beat> {
    if rs == [] then []
    else
      var r := rs[|rs| - 1];
      KeptBeats(rs[..|rs| - 1]) + (match ToInstant(r.time) case Some(t) => [Beat(t, r.status)] case None => [])
  }

  /** Ping samples of the kept records that carry a ping, in record order. */
  function PingSamples(rs: seq<Heartbeat>): seq<PingSample> {
    if rs == [] then []
    else
      var r := rs[|rs| - 1];
      PingSamples(rs[..|rs| - 1])
        + (if ToInstant(r.time).Some? && r.ping.Some? then [PingSample(ToInstant(r.time).value, r.ping.value)] else [])
  }

  /** Number of records whose message yields a keyword. */
  function TriggerCount(rs: seq<Heartbeat>): nat {
    if rs == [] then 0
    else TriggerCount(rs[..|rs| - 1]) + (if KeywordOf(rs[|rs| - 1].msg).Some? then 1 else 0)
  }

  /** The distinct keywords of the batch. */
  function Keywords(rs: seq<Heartbeat>): set<string> {
    if rs == [] then {}
    else Keywords(rs[..|rs| - 1]) + (match KeywordOf(rs[|rs| - 1].msg) case Some(k) => {k} case None => {})
  }

  /** Triggers as a percentage of all records, 0 for an empty batch. */
  function Ratio(count: nat, total: nat): real {
    if total > 0 then (count as real) / (total as real) * 100.0 else 0.0
  }

  /** The result `analyze_heartbeats` specifies for records `rs` at instant `now`. */
  function Analyze(rs: seq<Heartbeat>, now: int): Analysis {
    Analysis(DetectIncidents(SortByTime(KeptBeats(rs)), now),
             KeywordAnalysis(Keywords(rs), TriggerCount(rs), Ratio(TriggerCount(rs), |rs|)),
             PingSamples(rs))
  }

  /** The two loops of `analyze_heartbeats`, with the clock read replaced by `now`. */
  method AnalyzeHeartbeats(heartbeats: seq<Heartbeat>, now: int) returns (result: Analysis)
    ensures result == Analyze(heartbeats, now)
  {
    var processed: seq<Beat> := [];
    var pingData: seq<PingSample> := [];
    var keywords: set<string> := {};
    var keywordsCount: nat := 0;
    var count: nat := 0;
    var i := 0;
    while i < |heartbeats|
      invariant 0 <= i <= |heartbeats|
      invariant count == i
      invariant processed == KeptBeats(heartbeats[..i])
      invariant pingData == PingSamples(heartbeats[..i])
      invariant keywords == Keywords(heartbeats[..i])
      invariant keywordsCount == TriggerCount(heartbeats[..i])
    {
      var beat := heartbeats[i];
      RecordStep(heartbeats, i);
      count := count + 1;
      var msg := beat.msg;
      if Contains(msg, "but") {
        var m := FirstBracket(msg);
        if m.Some? && m.value != "" {
          keywords := keywords + {m.value};
          keywordsCount := keywordsCount + 1;
        }
      }
      var dt := ToInstant(beat.time);
      if dt.Some? {
        processed := processed + [Beat(dt.value, beat.status)];
        if beat.ping.Some? {
          pingData := pingData + [PingSample(dt.value, beat.ping.value)];
        }
      }
      i := i + 1;
    }
    assert heartbeats[..|heartbeats|] == heartbeats;
    var keywordRatio := if count > 0 then (keywordsCount as real) / (count as real) * 100.0 else 0.0;

    var beats := SortByTime(processed);
    var incidents: seq<Incident> := [];
    var currentDowntimeStart: Option<int> := None;
    var j := 0;
    while j < |beats|
      invariant 0 <= j <= |beats|
      invariant WalkState(incidents, currentDowntimeStart) == Scan(beats[..j])
    {
      var isDown := beats[j].status == 0;
      if isDown && currentDowntimeStart.None? {
        currentDowntimeStart := Some(beats[j].time);
      } else if !isDown && currentDowntimeStart.Some? {
        incidents := incidents + [Incident(currentDowntimeStart.value, beats[j].time - currentDowntimeStart.value, false)];
        currentDowntimeStart := None;
      }
      assert beats[..j + 1][..j] == beats[..j];
      j := j + 1;
    }
    assert beats[..|beats|] == beats;
    if currentDowntimeStart.Some? {
      incidents := incidents + [Incident(currentDowntimeStart.value, now - currentDowntimeStart.value, true)];
    }
    result := Analysis(incidents, KeywordAnalysis(keywords, keywordsCount, keywordRatio), pingData);
  }

  /** What one more record adds to each of the per-record accumulations. */
  lemma RecordStep(rs: seq<Heartbeat>, i: int)
    requires 0 <= i < |rs|
    ensures var r := rs[i];
      && KeptBeats(rs[..i + 1]) == KeptBeats(rs[..i]) + (if ToInstant(r.time).Some? then [Beat(ToInstant(r.time).value, r.status)] else [])
      && PingSamples(rs[..i + 1]) == PingSamples(rs[..i])
           + (if ToInstant(r.time).Some? && r.ping.Some? then [PingSample(ToInstant(r.time).value, r.ping.value)] else [])
      && TriggerCount(rs[..i + 1]) == TriggerCount(rs[..i]) + (if KeywordOf(r.msg).Some? then 1 else 0)
      && Keywords(rs[..i + 1]) == Keywords(rs[..i]) + (if KeywordOf(r.msg).Some? then {KeywordOf(r.msg).value} else {})
  {
    assert rs[..i + 1][..i] == rs[..i];
  }

  /** The keyword set is exactly the keywords the individual messages yield. */
  lemma {:induction false} KeywordsExactly(rs: seq<Heartbeat>, k: string)
    ensures k in Keywords(rs) <==> exists i :: 0 <= i < |rs| && KeywordOf(rs[i].msg) == Some(k)
  {
    if rs != [] {
      var init := rs[..|rs| - 1];
      KeywordsExactly(init, k);
      if exists i :: 0 <= i < |rs| && KeywordOf(rs[i].msg) == Some(k) {
        var i :| 0 <= i < |rs| && KeywordOf(rs[i].msg) == Some(k);
        if i < |init| { assert init[i] == rs[i]; }
      }
      if exists i :: 0 <= i < |init| && KeywordOf(init[i].msg) == Some(k) {
        var i :| 0 <= i < |init| && KeywordOf(init[i].msg) == Some(k);
        assert rs[i] == init[i];
      }
    }
  }

  /** Keyword bounds: triggers never outnumber records, distinct keywords
      never outnumber triggers, there are keywords exactly when there are
      triggers, and the ratio is a percentage in [0, 100], 0 for no records. */
  lemma KeywordBounds(rs: seq<Heartbeat>)
    ensures TriggerCount(rs) <= |rs|
    ensures |Keywords(rs)| <= TriggerCount(rs)
    ensures Keywords(rs) == {} <==> TriggerCount(rs) == 0
    ensures 0.0 <= Ratio(TriggerCount(rs), |rs|) <= 100.0
    ensures rs == [] ==> Ratio(TriggerCount(rs), |rs|) == 0.0
  {
    TriggerCounts(rs);
    RatioBounds(TriggerCount(rs), |rs|);
  }

  lemma {:induction false} TriggerCounts(rs: seq<Heartbeat>)
    ensures TriggerCount(rs) <= |rs|
    ensures |Keywords(rs)| <= TriggerCount(rs)
    ensures Keywords(rs) == {} <==> TriggerCount(rs) == 0
  {
    if rs != [] {
      var init := rs[..|rs| - 1];
      TriggerCounts(init);
      var m := KeywordOf(rs[|rs| - 1].msg);
      if m.Some? {
        assert |Keywords(init) + {m.value}| <= |Keywords(init)| + 1;
      }
    }
  }

  /** A count out of a total, as a percentage, lies in [0, 100]. */
  lemma RatioBounds(count: nat, total: nat)
    requires count <= total
    ensures 0.0 <= Ratio(count, total) <= 100.0
  {
    if total > 0 {
      var c, n := count as real, total as real;
      assert c / n <= 1.0 by {
        assert c <= n;
        assert c / n * n == c;
      }
    }
  }

  /** A record is kept as a beat exactly when its time normalises, and the
      beat carries that instant and the record's status. */
  lemma {:induction false} KeptBeatsExactly(rs: seq<Heartbeat>, b: Beat)
    ensures b in KeptBeats(rs) <==> exists i :: 0 <= i < |rs| && ToInstant(rs[i].time) == Some(b.time) && rs[i].status == b.status
  {
    if rs != [] {
      var init := rs[..|rs| - 1];
      KeptBeatsExactly(init, b);
      if exists i :: 0 <= i < |rs| && ToInstant(rs[i].time) == Some(b.time) && rs[i].status == b.status {
        var i :| 0 <= i < |rs| && ToInstant(rs[i].time) == Some(b.time) && rs[i].status == b.status;
        if i < |init| { assert init[i] == rs[i]; }
      }
      if exists i :: 0 <= i < |init| && ToInstant(init[i].time) == Some(b.time) && init[i].status == b.status {
        var i :| 0 <= i < |init| && ToInstant(init[i].time) == Some(b.time) && init[i].status == b.status;
        assert rs[i] == init[i];
      }
    }
  }

  /** A ping sample exists exactly for a record whose time normalises and
      whose ping is present; records with no instant give neither a beat nor
      a sample. */
  lemma {:induction false} PingSamplesExactly(rs: seq<Heartbeat>, p: PingSample)
    ensures p in PingSamples(rs) <==> exists i :: 0 <= i < |rs| && ToInstant(rs[i].time) == Some(p.time) && rs[i].ping == Some(p.ping)
    ensures |PingSamples(rs)| <= |KeptBeats(rs)| <= |rs|
  {
    if rs != [] {
      var init := rs[..|rs| - 1];
      PingSamplesExactly(init, p);
      if exists i :: 0 <= i < |rs| && ToInstant(rs[i].time) == Some(p.time) && rs[i].ping == Some(p.ping) {
        var i :| 0 <= i < |rs| && ToInstant(rs[i].time) == Some(p.time) && rs[i].ping == Some(p.ping);
        if i < |init| { assert init[i] == rs[i]; }
      }
      if exists i :: 0 <= i < |init| && ToInstant(init[i].time) == Some(p.time) && init[i].ping == Some(p.ping) {
        var i :| 0 <= i < |init| && ToInstant(init[i].time) == Some(p.time) && init[i].ping == Some(p.ping);
        assert rs[i] == init[i];
      }
    }
  }

  /** The incidents of an analysis come out in start order, each ending no
      later than the next begins; if no record lies after `now`, no incident
      has a negative duration. */
  lemma AnalysisIncidentsOrdered(rs: seq<Heartbeat>, now: int)
    ensures Chained(Analyze(rs, now).incidents) && ClosedNonNegative(Analyze(rs, now).incidents)
    ensures forall i, j :: 0 <= i < j < |Analyze(rs, now).incidents| ==>
      Analyze(rs, now).incidents[i].start <= Analyze(rs, now).incidents[j].start
    ensures (forall i, t :: 0 <= i < |rs| && ToInstant(rs[i].time) == Some(t) ==> t <= now) ==>
      forall k :: 0 <= k < |Analyze(rs, now).incidents| ==> Analyze(rs, now).incidents[k].duration >= 0
  {
    var kept := KeptBeats(rs);
    var beats := SortByTime(kept);
    SortFacts(kept);
    IncidentsOrdered(beats, now);
    if forall i, t :: 0 <= i < |rs| && ToInstant(rs[i].time) == Some(t) ==> t <= now {
      forall k | 0 <= k < |beats| ensures beats[k].time <= now {
        assert beats[k] in multiset(kept);
        KeptBeatsExactly(rs, beats[k]);
      }
      DurationsNonNegative(beats, now);
    }
  }
}
