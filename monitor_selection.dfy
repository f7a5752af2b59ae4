/** The selection step of `select_monitors` (main.py): top-level monitors
    are offered by id, a group standing for itself followed by its children;
    the requested ids are deduplicated, sorted and checked, and then expanded
    into the list of monitor ids to report on. Reading and parsing the answer
    and prompting again are the caller's: the model takes the parsed ids. */
module MonitorSelection {
  import opened Wrappers

  /** The fields of an Uptime Kuma monitor record that the selection reads;
      `parent` is `None` for a top-level monitor (missing key or null). */
  datatype Monitor = Monitor(id: int, parent: Option<int>, childrenIDs: seq<int>)

  /** A `display_mapping` value: a group's child list, or a single monitor's own id. */
  datatype Entry = Group(children: seq<int>) | Single(id: int)

  function EntryOf(m: Monitor): Entry {
    if m.childrenIDs != [] then Group(m.childrenIDs) else Single(m.id)
  }

  predicate TopLevel(m: Monitor) {
    m.parent.None?
  }

  // Specification of the display loop: prefix recursion, so that the loop's
  // invariant can name the monitors seen so far.

  function DisplayIds(ms: seq<Monitor>): seq<int> {
    if ms == [] then []
    else DisplayIds(ms[..|ms| - 1]) + (if TopLevel(ms[|ms| - 1]) then [ms[|ms| - 1].id] else [])
  }

  function DisplayMapping(ms: seq<Monitor>): map<int, Entry> {
    if ms == [] then map[]
    else
      var m := ms[|ms| - 1];
      if TopLevel(m) then DisplayMapping(ms[..|ms| - 1])[m.id := EntryOf(m)] else DisplayMapping(ms[..|ms| - 1])
  }

  /** The first loop of `select_monitors`: list the top-level monitors and
      record what each offered id stands for. */
  method BuildDisplay(monitors: seq<Monitor>) returns (validIds: seq<int>, mapping: map<int, Entry>)
    ensures validIds == DisplayIds(monitors) && mapping == DisplayMapping(monitors)
  {
    validIds := [];
    mapping := map[];
    var i := 0;
    while i < |monitors|
      invariant 0 <= i <= |monitors|
      invariant validIds == DisplayIds(monitors[..i]) && mapping == DisplayMapping(monitors[..i])
    {
      var m := monitors[i];
      assert monitors[..i + 1][..i] == monitors[..i];
      if m.parent.None? {
        if m.childrenIDs != [] {
          mapping := mapping[m.id := Group(m.childrenIDs)];
        } else {
          mapping := mapping[m.id := Single(m.id)];
        }
        validIds := validIds + [m.id];
      }
      i := i + 1;
    }
    assert monitors[..i] == monitors;
  }

  /** The offered ids are exactly the top-level monitors' ids, and each has a mapping entry. */
  lemma {:induction false} DisplayExactly(ms: seq<Monitor>, k: int)
    ensures k in DisplayIds(ms) <==> exists i :: 0 <= i < |ms| && TopLevel(ms[i]) && ms[i].id == k
    ensures k in DisplayMapping(ms) <==> k in DisplayIds(ms)
    ensures k in DisplayMapping(ms) && DisplayMapping(ms)[k].Single? ==> DisplayMapping(ms)[k].id == k
    ensures k in DisplayMapping(ms) && DisplayMapping(ms)[k].Group? ==> DisplayMapping(ms)[k].children != []
    ensures k in DisplayMapping(ms) ==> exists i :: MappedFrom(ms, k, i)
  {
    if ms != [] {
      var init := ms[..|ms| - 1];
      DisplayExactly(init, k);
      if exists i :: 0 <= i < |ms| && TopLevel(ms[i]) && ms[i].id == k {
        var i :| 0 <= i < |ms| && TopLevel(ms[i]) && ms[i].id == k;
        if i < |ms| - 1 {
          assert init[i] == ms[i];
        }
      }
      if exists i :: 0 <= i < |init| && TopLevel(init[i]) && init[i].id == k {
        var i :| 0 <= i < |init| && TopLevel(init[i]) && init[i].id == k;
        assert ms[i] == init[i];
      }
      var m := ms[|ms| - 1];
      if TopLevel(m) && m.id == k {
        assert MappedFrom(ms, k, |ms| - 1);
      } else if k in DisplayMapping(ms) {
        var i :| MappedFrom(init, k, i);
        assert ms[i] == init[i];
        assert MappedFrom(ms, k, i);
      }
    }
  }

  /** The entry of offered id `k` comes from the top-level monitor at
      position `i`, the last one with that id: its children when it has any,
      otherwise its own id. */
  predicate MappedFrom(ms: seq<Monitor>, k: int, i: int) {
    && 0 <= i < |ms| && TopLevel(ms[i]) && ms[i].id == k && k in DisplayMapping(ms)
    && (ms[i].childrenIDs != [] ==> DisplayMapping(ms)[k] == Group(ms[i].childrenIDs))
    && (ms[i].childrenIDs == [] ==> DisplayMapping(ms)[k] == Single(k))
    && forall j :: i < j < |ms| ==> !(TopLevel(ms[j]) && ms[j].id == k)
  }

  // `list(set(ids))` followed by `sort()`.

  predicate StrictlyIncreasing(s: seq<int>) {
    forall i, j :: 0 <= i < j < |s| ==> s[i] < s[j]
  }

  function InsertDistinct(s: seq<int>, x: int): (r: seq<int>)
    requires StrictlyIncreasing(s)
    ensures StrictlyIncreasing(r) && forall y :: y in r <==> y in s || y == x
  {
    if s == [] then [x]
    else if x < s[0] then [x] + s
    else if x == s[0] then s
    else
      var rest := InsertDistinct(s[1..], x);
      TailAbove(s);
      ConsIncreasing(s[0], rest);
      [s[0]] + rest
  }

  lemma TailAbove(s: seq<int>)
    requires StrictlyIncreasing(s) && s != []
    ensures s == [s[0]] + s[1..] && forall y :: y in s[1..] ==> s[0] < y
  {
  }

  lemma ConsIncreasing(h: int, rest: seq<int>)
    requires StrictlyIncreasing(rest) && forall y :: y in rest ==> h < y
    ensures StrictlyIncreasing([h] + rest) && forall y :: y in [h] + rest <==> y == h || y in rest
  {
    var r := [h] + rest;
    forall i, j | 0 <= i < j < |r| ensures r[i] < r[j] {
      assert r[j] == rest[j - 1] && rest[j - 1] in rest;
      if i > 0 {
        assert r[i] == rest[i - 1];
      }
    }
  }

  /** The requested ids without repetition, in ascending order. */
  function SortedDistinct(xs: seq<int>): (r: seq<int>)
    ensures StrictlyIncreasing(r) && forall y :: y in r <==> y in xs
  {
    if xs == [] then []
    else
      var r := InsertDistinct(SortedDistinct(xs[..|xs| - 1]), xs[|xs| - 1]);
      assert forall y :: y in xs <==> y in xs[..|xs| - 1] || y == xs[|xs| - 1] by {
        assert xs == xs[..|xs| - 1] + [xs[|xs| - 1]];
      }
      r
  }

  /** An ascending list without repetition is determined by its elements. */
  lemma {:induction false} IncreasingUnique(a: seq<int>, b: seq<int>)
    requires StrictlyIncreasing(a) && StrictlyIncreasing(b)
    requires forall y :: y in a <==> y in b
    ensures a == b
  {
    if a != [] && b != [] {
      assert a[0] == b[0] by {
        assert a[0] in a && b[0] in b;
        var i :| 0 <= i < |b| && b[i] == a[0];
        var j :| 0 <= j < |a| && a[j] == b[0];
        assert a[0] <= a[j] && b[0] <= b[i];
      }
      forall y ensures y in a[1..] <==> y in b[1..] {
        if y in a[1..] {
          var i :| 0 <= i < |a[1..]| && a[1..][i] == y;
          assert a[i + 1] == y && a[0] < y && y in a;
          var k :| 0 <= k < |b| && b[k] == y;
          assert k != 0 && b[1..][k - 1] == y;
        }
        if y in b[1..] {
          var i :| 0 <= i < |b[1..]| && b[1..][i] == y;
          assert b[i + 1] == y && b[0] < y && y in b;
          var k :| 0 <= k < |a| && a[k] == y;
          assert k != 0 && a[1..][k - 1] == y;
        }
      }
      IncreasingUnique(a[1..], b[1..]);
    } else {
      FirstIsMember(a);
      FirstIsMember(b);
    }
  }

  lemma FirstIsMember(s: seq<int>)
    ensures s != [] ==> s[0] in s
  {
  }

  /** `[sid for sid in selected if sid not in valid_display_ids]`. */
  function Invalid(selected: seq<int>, validIds: seq<int>): seq<int> {
    if selected == [] then []
    else
      var last := selected[|selected| - 1];
      Invalid(selected[..|selected| - 1], validIds) + (if last in validIds then [] else [last])
  }

  /** The ids one selected display id stands for: a group's id and then its
      children, or a single monitor's id. */
  function Expand(sid: int, e: Entry): seq<int> {
    match e
    case Group(children) => [sid] + children
    case Single(id) => [id]
  }

  function Expansion(selected: seq<int>, mapping: map<int, Entry>): seq<int>
    requires forall k :: 0 <= k < |selected| ==> selected[k] in mapping
  {
    if selected == [] then []
    else
      var sid := selected[|selected| - 1];
      Expansion(selected[..|selected| - 1], mapping) + Expand(sid, mapping[sid])
  }

  /** The outcome of one parsed answer: the monitor ids, or the invalid
      requested ids (after which the source prompts again). */
  function Select(monitors: seq<Monitor>, requested: seq<int>): Result<seq<int>, seq<int>> {
    var validIds := DisplayIds(monitors);
    var selected := SortedDistinct(requested);
    var invalid := Invalid(selected, validIds);
    if invalid != [] then Err(invalid)
    else
      InvalidExactly(selected, validIds);
      DisplayKeys(monitors);
      Ok(Expansion(selected, DisplayMapping(monitors)))
  }

  lemma {:induction false} InvalidExactly(selected: seq<int>, validIds: seq<int>)
    ensures forall y :: y in Invalid(selected, validIds) <==> y in selected && y !in validIds
  {
    if selected != [] {
      InvalidExactly(selected[..|selected| - 1], validIds);
      assert selected == selected[..|selected| - 1] + [selected[|selected| - 1]];
    }
  }

  lemma DisplayKeys(monitors: seq<Monitor>)
    ensures forall k :: k in DisplayIds(monitors) ==> k in DisplayMapping(monitors)
  {
    forall k | k in DisplayIds(monitors) ensures k in DisplayMapping(monitors) {
      DisplayExactly(monitors, k);
    }
  }

  /** The validation loop: the selected ids that are not offered. */
  method FindInvalid(selected: seq<int>, validIds: seq<int>) returns (invalid: seq<int>)
    ensures invalid == Invalid(selected, validIds)
  {
    invalid := [];
    var i := 0;
    while i < |selected|
      invariant 0 <= i <= |selected|
      invariant invalid == Invalid(selected[..i], validIds)
    {
      assert selected[..i + 1][..i] == selected[..i];
      if selected[i] !in validIds {
        invalid := invalid + [selected[i]];
      }
      i := i + 1;
    }
    assert selected[..i] == selected;
  }

  /** The expansion loop: each selected id in turn, a group's children after it. */
  method ExpandSelected(selected: seq<int>, mapping: map<int, Entry>) returns (indices: seq<int>)
    requires forall k :: 0 <= k < |selected| ==> selected[k] in mapping
    ensures indices == Expansion(selected, mapping)
  {
    indices := [];
    var i := 0;
    while i < |selected|
      invariant 0 <= i <= |selected|
      invariant indices == Expansion(selected[..i], mapping)
    {
      var sid := selected[i];
      assert selected[..i + 1][..i] == selected[..i];
      match mapping[sid] {
      case Group(children) =>
        indices := indices + [sid];
        indices := AppendChildren(indices, children);
      case Single(id) =>
        indices := indices + [id];
      }
      i := i + 1;
    }
    assert selected[..i] == selected;
  }

  /** The inner loop that appends a group's children one by one. */
  method AppendChildren(indices: seq<int>, children: seq<int>) returns (r: seq<int>)
    ensures r == indices + children
  {
    r := indices;
    var c := 0;
    while c < |children|
      invariant 0 <= c <= |children|
      invariant r == indices + children[..c]
    {
      r := r + [children[c]];
      assert children[..c + 1] == children[..c] + [children[c]];
      c := c + 1;
    }
    assert children[..c] == children;
  }

  /** The part of `select_monitors` after the answer is parsed. */
  method SelectMonitors(monitors: seq<Monitor>, requested: seq<int>) returns (r: Result<seq<int>, seq<int>>)
    ensures r == Select(monitors, requested)
  {
    var validIds, mapping := BuildDisplay(monitors);
    var selected := SortedDistinct(requested);
    var invalid := FindInvalid(selected, validIds);
    if invalid != [] {
      return Err(invalid);
    }
    InvalidExactly(selected, validIds);
    DisplayKeys(monitors);
    var indices := ExpandSelected(selected, mapping);
    return Ok(indices);
  }

  /** The answer is rejected exactly when it names an id that is not offered,
      and the rejection lists those ids, each once and in ascending order. */
  lemma RejectedExactly(monitors: seq<Monitor>, requested: seq<int>)
    ensures Select(monitors, requested).Err? <==> exists k :: 0 <= k < |requested| && requested[k] !in DisplayIds(monitors)
    ensures Select(monitors, requested).Err? ==>
      var invalid := Select(monitors, requested).error;
      && StrictlyIncreasing(invalid)
      && forall y :: y in invalid <==> y in requested && y !in DisplayIds(monitors)
  {
    var selected := SortedDistinct(requested);
    InvalidExactly(selected, DisplayIds(monitors));
    InvalidIncreasing(selected, DisplayIds(monitors));
    var invalid := Invalid(selected, DisplayIds(monitors));
    if exists k :: 0 <= k < |requested| && requested[k] !in DisplayIds(monitors) {
      var k :| 0 <= k < |requested| && requested[k] !in DisplayIds(monitors);
      assert requested[k] in requested;
      assert requested[k] in invalid;
    }
    if invalid != [] {
      assert invalid[0] in invalid;
      var k :| 0 <= k < |requested| && requested[k] == invalid[0];
    }
  }

  lemma {:induction false} InvalidIncreasing(selected: seq<int>, validIds: seq<int>)
    requires StrictlyIncreasing(selected)
    ensures StrictlyIncreasing(Invalid(selected, validIds))
  {
    if selected != [] {
      var init := selected[..|selected| - 1];
      InvalidIncreasing(init, validIds);
      InvalidExactly(init, validIds);
      var last := selected[|selected| - 1];
      var prev := Invalid(init, validIds);
      forall i | 0 <= i < |prev| ensures prev[i] < last {
        assert prev[i] in prev;
        var j :| 0 <= j < |init| && init[j] == prev[i];
        assert selected[j] == init[j];
      }
    }
  }

  /** A monitor id is reported exactly when it is a requested id or a child
      of a requested group. */
  lemma AcceptedExactly(monitors: seq<Monitor>, requested: seq<int>, x: int)
    requires Select(monitors, requested).Ok?
    ensures forall k :: 0 <= k < |requested| ==> requested[k] in DisplayMapping(monitors)
    ensures x in Select(monitors, requested).value <==>
      exists k :: 0 <= k < |requested| && requested[k] in DisplayMapping(monitors) &&
        (x == requested[k] || (DisplayMapping(monitors)[requested[k]].Group? && x in DisplayMapping(monitors)[requested[k]].children))
  {
    var mapping := DisplayMapping(monitors);
    var selected := SortedDistinct(requested);
    RequestedOffered(monitors, requested);
    forall k | 0 <= k < |selected| ensures mapping[selected[k]].Single? ==> mapping[selected[k]].id == selected[k] {
      DisplayExactly(monitors, selected[k]);
    }
    ExpansionExactly(selected, mapping, x);
    assert forall j :: 0 <= j < |selected| ==> selected[j] in requested by {
      forall j | 0 <= j < |selected| ensures selected[j] in requested {
        assert selected[j] in selected;
      }
    }
    assert forall k :: 0 <= k < |requested| ==> requested[k] in selected by {
      forall k | 0 <= k < |requested| ensures requested[k] in selected {
        assert requested[k] in requested;
      }
    }
    SameSelection(selected, requested, mapping, x);
  }

  /** In an accepted answer every requested id is offered and mapped. */
  lemma RequestedOffered(monitors: seq<Monitor>, requested: seq<int>)
    requires Select(monitors, requested).Ok?
    ensures forall k :: 0 <= k < |requested| ==> requested[k] in DisplayIds(monitors) && requested[k] in DisplayMapping(monitors)
    ensures forall k :: 0 <= k < |SortedDistinct(requested)| ==> SortedDistinct(requested)[k] in DisplayMapping(monitors)
  {
    RejectedExactly(monitors, requested);
    DisplayKeys(monitors);
    forall k | 0 <= k < |requested| ensures requested[k] in DisplayIds(monitors) && requested[k] in DisplayMapping(monitors) {
      assert !(requested[k] !in DisplayIds(monitors));
      DisplayExactly(monitors, requested[k]);
    }
    var selected := SortedDistinct(requested);
    forall k | 0 <= k < |selected| ensures selected[k] in DisplayMapping(monitors) {
      assert selected[k] in selected;
      var i :| 0 <= i < |requested| && requested[i] == selected[k];
    }
  }

  lemma SameSelection(selected: seq<int>, requested: seq<int>, mapping: map<int, Entry>, x: int)
    requires forall j :: 0 <= j < |selected| ==> selected[j] in requested
    requires forall k :: 0 <= k < |requested| ==> requested[k] in selected
    requires forall k :: 0 <= k < |requested| ==> requested[k] in mapping
    ensures forall k :: 0 <= k < |selected| ==> selected[k] in mapping
    ensures (exists j :: (0 <= j < |selected| &&
        (x == selected[j] || (mapping[selected[j]].Group? && x in mapping[selected[j]].children))))
      <==> (exists k :: (0 <= k < |requested| && requested[k] in mapping &&
        (x == requested[k] || (mapping[requested[k]].Group? && x in mapping[requested[k]].children))))
  {
    forall k | 0 <= k < |selected| ensures selected[k] in mapping {
      assert selected[k] in requested;
      var i :| 0 <= i < |requested| && requested[i] == selected[k];
    }
    if exists j :: 0 <= j < |selected| &&
        (x == selected[j] || (mapping[selected[j]].Group? && x in mapping[selected[j]].children)) {
      var j :| 0 <= j < |selected| && (x == selected[j] || (mapping[selected[j]].Group? && x in mapping[selected[j]].children));
      var k :| 0 <= k < |requested| && requested[k] == selected[j];
    }
    if exists k :: 0 <= k < |requested| && requested[k] in mapping &&
        (x == requested[k] || (mapping[requested[k]].Group? && x in mapping[requested[k]].children)) {
      var k :| 0 <= k < |requested| && requested[k] in mapping &&
        (x == requested[k] || (mapping[requested[k]].Group? && x in mapping[requested[k]].children));
      var j :| 0 <= j < |selected| && selected[j] == requested[k];
    }
  }

  lemma {:induction false} ExpansionExactly(selected: seq<int>, mapping: map<int, Entry>, x: int)
    requires forall k :: 0 <= k < |selected| ==> selected[k] in mapping
    requires forall k :: 0 <= k < |selected| ==> mapping[selected[k]].Single? ==> mapping[selected[k]].id == selected[k]
    ensures x in Expansion(selected, mapping) <==>
      exists j :: 0 <= j < |selected| &&
        (x == selected[j] || (mapping[selected[j]].Group? && x in mapping[selected[j]].children))
  {
    if selected != [] {
      var init := selected[..|selected| - 1];
      var last := |selected| - 1;
      ExpansionExactly(init, mapping, x);
      if x in Expansion(init, mapping) {
        var j :| 0 <= j < |init| &&
          (x == init[j] || (mapping[init[j]].Group? && x in mapping[init[j]].children));
        assert selected[j] == init[j];
      }
      if exists j :: 0 <= j < |selected| &&
          (x == selected[j] || (mapping[selected[j]].Group? && x in mapping[selected[j]].children)) {
        var j :| 0 <= j < |selected| &&
          (x == selected[j] || (mapping[selected[j]].Group? && x in mapping[selected[j]].children));
        if j < last {
          assert init[j] == selected[j];
        }
      }
    }
  }

  /** Repeating an id or changing the order of the answer changes nothing:
      only the set of requested ids matters. */
  lemma OrderAndRepetitionIgnored(monitors: seq<Monitor>, xs: seq<int>, ys: seq<int>)
    requires forall y :: y in xs <==> y in ys
    ensures Select(monitors, xs) == Select(monitors, ys)
  {
    IncreasingUnique(SortedDistinct(xs), SortedDistinct(ys));
  }
}
