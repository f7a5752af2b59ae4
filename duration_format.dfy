/** `_format_timedelta` (main.py): a duration as "Nd Nh Nm Ns", leaving out
    zero units. Durations are `timedelta`s, so the model takes them in whole
    microseconds; `divmod` floors, which is Dafny's `/` and `%` for the
    positive unit lengths used here. */
module DurationFormat {
  import opened Wrappers
  import opened Text

  const MicrosPerSecond: nat := 1000000
  const MicrosPerMinute: nat := 60 * MicrosPerSecond
  const MicrosPerHour: nat := 3600 * MicrosPerSecond
  const MicrosPerDay: nat := 86400 * MicrosPerSecond

  /** Days, hours, minutes and the leftover seconds (kept in microseconds,
      as the float `seconds` of the source keeps its fraction). */
  datatype Breakdown = Breakdown(days: int, hours: nat, minutes: nat, micros: nat)

  predicate Recomposes(t: int, b: Breakdown) {
    && b.hours < 24 && b.minutes < 60 && b.micros < MicrosPerMinute
    && t == b.days * MicrosPerDay + b.hours * MicrosPerHour + b.minutes * MicrosPerMinute + b.micros
  }

  /** The three chained `divmod`s. */
  function Decompose(t: int): (b: Breakdown)
    ensures Recomposes(t, b)
  {
    var rest := t % MicrosPerDay;
    var rest2 := rest % MicrosPerHour;
    Breakdown(t / MicrosPerDay, rest / MicrosPerHour, rest2 / MicrosPerMinute, rest2 % MicrosPerMinute)
  }

  lemma DivModUnique(n: int, d: int, q: int, r: int)
    requires d > 0 && 0 <= r < d && n == q * d + r
    ensures q == n / d && r == n % d
  {
    var q', r' := n / d, n % d;
    assert n == q' * d + r';
    if q < q' {
      assert (q' - q) * d == r - r';
      MulAtLeast(q' - q, d);
    } else if q > q' {
      assert (q - q') * d == r' - r;
      MulAtLeast(q - q', d);
    }
  }

  lemma MulAtLeast(k: int, d: int)
    requires k >= 1 && d > 0
    ensures k * d >= d
  {
  }

  /** The breakdown is the only one with in-range hours, minutes and seconds. */
  lemma DecomposeUnique(t: int, b: Breakdown)
    requires Recomposes(t, b)
    ensures Decompose(t) == b
  {
    var low := b.hours * MicrosPerHour + b.minutes * MicrosPerMinute + b.micros;
    assert low < MicrosPerDay;
    DivModUnique(t, MicrosPerDay, b.days, low);
    var low2 := b.minutes * MicrosPerMinute + b.micros;
    assert low2 < MicrosPerHour;
    DivModUnique(low, MicrosPerHour, b.hours, low2);
    DivModUnique(low2, MicrosPerMinute, b.minutes, b.micros);
  }

  /** `f"{n}{unit}"` for a whole count `n`. */
  function Unit(n: nat, unit: char): string {
    NatToString(n) + [unit]
  }

  /** The shown parts: each unit when positive; the seconds also when nothing
      else is shown. The seconds are truncated by `int`. */
  function Parts(b: Breakdown): (parts: seq<string>)
    ensures |parts| >= 1
  {
    var shown := OptionalPart(b.days, 'd', b.days > 0) + OptionalPart(b.hours, 'h', b.hours > 0)
      + OptionalPart(b.minutes, 'm', b.minutes > 0);
    shown + OptionalPart(b.micros / MicrosPerSecond, 's', b.micros > 0 || shown == [])
  }

  /** The one-element list of a shown part, or nothing. */
  function OptionalPart(n: int, unit: char, shown: bool): seq<string>
    requires shown ==> n >= 0
  {
    if shown then [Unit(n, unit)] else []
  }

  /** "N/A" for a missing duration, otherwise the parts joined by spaces. */
  function FormatTimedelta(td: Option<int>): string {
    match td
    case None => "N/A"
    case Some(t) => Join(Parts(Decompose(t)), ' ')
  }

  // A reader of the format, as the partner of the formatter.

  function UnitSeconds(unit: char): nat {
    match unit
    case 'd' => 86400
    case 'h' => 3600
    case 'm' => 60
    case _ => 1
  }

  /** One part: a decimal count followed by one of the four unit letters. */
  function ParsePart(p: string): Option<int> {
    if |p| >= 2 && AllDigits(p[..|p| - 1]) && p[|p| - 1] in "dhms" then
      Some(DigitsValue(p[..|p| - 1]) * UnitSeconds(p[|p| - 1]))
    else None
  }

  function ParseParts(ps: seq<string>): Option<int> {
    if ps == [] then Some(0)
    else match (ParsePart(ps[0]), ParseParts(ps[1..]))
      case (Some(v), Some(w)) => Some(v + w)
      case _ => None
  }

  /** Whole seconds written by the format; `None` for anything it cannot write. */
  function ParseDuration(s: string): Option<int> {
    ParseParts(Split(s, ' '))
  }

  lemma ParseUnit(n: nat, unit: char)
    requires unit in "dhms"
    ensures ParsePart(Unit(n, unit)) == Some(n * UnitSeconds(unit))
  {
    var p := Unit(n, unit);
    assert p[..|p| - 1] == NatToString(n);
    NatToStringRead(n);
  }

  lemma {:induction false} ParsePartsAppend(a: seq<string>, b: seq<string>, v: int, w: int)
    requires ParseParts(a) == Some(v) && ParseParts(b) == Some(w)
    ensures ParseParts(a + b) == Some(v + w)
  {
    if a == [] {
      assert a + b == b;
    } else {
      assert (a + b)[1..] == a[1..] + b;
      var u := ParsePart(a[0]).value;
      ParsePartsAppend(a[1..], b, v - u, w);
    }
  }

  /** The value a breakdown's optional part contributes. */
  function PartValue(n: int, unit: char, shown: bool): int
    requires shown ==> n >= 0
  {
    if shown then n * UnitSeconds(unit) else 0
  }

  lemma ParseOptionalPart(n: int, unit: char, shown: bool)
    requires unit in "dhms" && (shown ==> n >= 0)
    ensures ParseParts(OptionalPart(n, unit, shown)) == Some(PartValue(n, unit, shown))
  {
    if shown {
      ParseUnit(n, unit);
      assert [Unit(n, unit)][1..] == [];
    }
  }

  lemma NoSpaceInParts(b: Breakdown)
    ensures forall k :: 0 <= k < |Parts(b)| ==> ' ' !in Parts(b)[k]
  {
    forall n: nat, unit: char | unit in "dhms" ensures ' ' !in Unit(n, unit) {
      var s := NatToString(n);
      assert forall i :: 0 <= i < |s| ==> IsDigit(s[i]);
    }
  }

  /** The value each shown part contributes to the reading of a breakdown. */
  lemma ParseParts4(b: Breakdown, showSeconds: bool)
    requires b.days >= 0
    requires showSeconds == (b.micros > 0 || OptionalPart(b.days, 'd', b.days > 0)
      + OptionalPart(b.hours, 'h', b.hours > 0) + OptionalPart(b.minutes, 'm', b.minutes > 0) == [])
    ensures ParseParts(Parts(b)) == Some(PartValue(b.days, 'd', b.days > 0) + PartValue(b.hours, 'h', b.hours > 0)
      + PartValue(b.minutes, 'm', b.minutes > 0) + PartValue(b.micros / MicrosPerSecond, 's', showSeconds))
  {
    var dayPart := OptionalPart(b.days, 'd', b.days > 0);
    var hourPart := OptionalPart(b.hours, 'h', b.hours > 0);
    var minutePart := OptionalPart(b.minutes, 'm', b.minutes > 0);
    var secondPart := OptionalPart(b.micros / MicrosPerSecond, 's', showSeconds);
    assert Parts(b) == dayPart + hourPart + minutePart + secondPart;
    ParseOptionalPart(b.days, 'd', b.days > 0);
    ParseOptionalPart(b.hours, 'h', b.hours > 0);
    ParseOptionalPart(b.minutes, 'm', b.minutes > 0);
    ParseOptionalPart(b.micros / MicrosPerSecond, 's', showSeconds);
    ParseFour(dayPart, hourPart, minutePart, secondPart,
      PartValue(b.days, 'd', b.days > 0), PartValue(b.hours, 'h', b.hours > 0),
      PartValue(b.minutes, 'm', b.minutes > 0), PartValue(b.micros / MicrosPerSecond, 's', showSeconds));
  }

  lemma ParseFour(p1: seq<string>, p2: seq<string>, p3: seq<string>, p4: seq<string>, v1: int, v2: int, v3: int, v4: int)
    requires ParseParts(p1) == Some(v1) && ParseParts(p2) == Some(v2)
    requires ParseParts(p3) == Some(v3) && ParseParts(p4) == Some(v4)
    ensures ParseParts(p1 + p2 + p3 + p4) == Some(v1 + v2 + v3 + v4)
  {
    var p12 := p1 + p2;
    ParsePartsAppend(p1, p2, v1, v2);
    var p123 := p12 + p3;
    ParsePartsAppend(p12, p3, v1 + v2, v3);
    ParsePartsAppend(p123, p4, v1 + v2 + v3, v4);
    assert p1 + p2 + p3 + p4 == p123 + p4;
  }

  /** The parts of a breakdown with no negative day count read back as its
      whole seconds. */
  lemma ParseBreakdown(b: Breakdown)
    requires b.days >= 0
    ensures ParseParts(Parts(b)) == Some(b.days * 86400 + b.hours * 3600 + b.minutes * 60 + b.micros / MicrosPerSecond)
  {
    var showSeconds := b.micros > 0 || OptionalPart(b.days, 'd', b.days > 0) + OptionalPart(b.hours, 'h', b.hours > 0)
      + OptionalPart(b.minutes, 'm', b.minutes > 0) == [];
    ParseParts4(b, showSeconds);
    PartValuesSum(b, showSeconds);
  }

  lemma PartValuesSum(b: Breakdown, showSeconds: bool)
    requires b.days >= 0 && (b.micros > 0 ==> showSeconds)
    ensures PartValue(b.days, 'd', b.days > 0) + PartValue(b.hours, 'h', b.hours > 0)
      + PartValue(b.minutes, 'm', b.minutes > 0) + PartValue(b.micros / MicrosPerSecond, 's', showSeconds)
      == b.days * 86400 + b.hours * 3600 + b.minutes * 60 + b.micros / MicrosPerSecond
  {
  }

  /** The whole seconds of a duration, from its breakdown. */
  lemma WholeSeconds(t: int)
    ensures var b := Decompose(t);
      t / MicrosPerSecond == b.days * 86400 + b.hours * 3600 + b.minutes * 60 + b.micros / MicrosPerSecond
  {
    var b := Decompose(t);
    var secs := b.days * 86400 + b.hours * 3600 + b.minutes * 60 + b.micros / MicrosPerSecond;
    var frac := b.micros % MicrosPerSecond;
    assert b.micros == (b.micros / MicrosPerSecond) * MicrosPerSecond + frac;
    assert t == secs * MicrosPerSecond + frac;
    DivModUnique(t, MicrosPerSecond, secs, frac);
  }

  /** Reading the format back gives the duration's whole seconds, for every
      non-negative duration: only the fraction of a second is lost. */
  lemma FormatThenParse(t: int)
    requires t >= 0
    ensures ParseDuration(FormatTimedelta(Some(t))) == Some(t / MicrosPerSecond)
  {
    var b := Decompose(t);
    NoSpaceInParts(b);
    SplitJoin(Parts(b), ' ');
    ParseBreakdown(b);
    WholeSeconds(t);
  }

  /** A written part ends in its unit letter. */
  lemma UnitLast(n: nat, unit: char)
    ensures |Unit(n, unit)| >= 2 && Unit(n, unit)[|Unit(n, unit)| - 1] == unit
  {
  }

  /** Some written part has unit letter `unit`. */
  predicate Shows(parts: seq<string>, unit: char) {
    exists x :: x in parts && |x| > 0 && x[|x| - 1] == unit
  }

  /** Which units are written, and with which count. Days, hours and minutes
      appear exactly when positive. The seconds appear when the leftover
      seconds, fraction included, are positive, or when nothing else is
      written. */
  lemma ShownUnits(b: Breakdown)
    ensures var p := Parts(b);
      && (Shows(p, 'd') <==> b.days > 0) && (b.days > 0 ==> Unit(b.days, 'd') in p)
      && (Shows(p, 'h') <==> b.hours > 0) && (b.hours > 0 ==> Unit(b.hours, 'h') in p)
      && (Shows(p, 'm') <==> b.minutes > 0) && (b.minutes > 0 ==> Unit(b.minutes, 'm') in p)
      && (Shows(p, 's') <==> b.micros > 0 || (b.days <= 0 && b.hours == 0 && b.minutes == 0))
      && (Shows(p, 's') ==> Unit(b.micros / MicrosPerSecond, 's') in p)
  {
    var dayPart := OptionalPart(b.days, 'd', b.days > 0);
    var hourPart := OptionalPart(b.hours, 'h', b.hours > 0);
    var minutePart := OptionalPart(b.minutes, 'm', b.minutes > 0);
    var showSeconds := b.micros > 0 || dayPart + hourPart + minutePart == [];
    var secondPart := OptionalPart(b.micros / MicrosPerSecond, 's', showSeconds);
    assert Parts(b) == dayPart + hourPart + minutePart + secondPart;
    ShowsOptional(b.days, 'd', b.days > 0);
    ShowsOptional(b.hours, 'h', b.hours > 0);
    ShowsOptional(b.minutes, 'm', b.minutes > 0);
    ShowsOptional(b.micros / MicrosPerSecond, 's', showSeconds);
    ShowsIn(dayPart, hourPart, minutePart, secondPart);
  }

  /** An optional part shows exactly its own unit, when shown. */
  lemma ShowsOptional(n: int, unit: char, shown: bool)
    requires shown ==> n >= 0
    ensures forall u :: Shows(OptionalPart(n, unit, shown), u) <==> shown && u == unit
    ensures shown ==> Unit(n, unit) in OptionalPart(n, unit, shown)
  {
    if shown {
      UnitLast(n, unit);
      assert Unit(n, unit) in OptionalPart(n, unit, shown);
    }
  }

  /** For a whole number of seconds the seconds appear exactly when positive
      or when the duration is zero, and "0s" alone is written only for zero. */
  lemma ZeroSecondsAlone(t: int)
    requires 0 <= t && t % MicrosPerSecond == 0
    ensures var b := Decompose(t);
      var p := Parts(b);
      && (Shows(p, 's') <==> b.micros / MicrosPerSecond > 0 || t == 0)
      && (p == ["0s"] <==> t == 0)
  {
    var b := Decompose(t);
    var p := Parts(b);
    ShownUnits(b);
    WholeSecondsLeftover(t);
    if t == 0 {
      DecomposeUnique(0, Breakdown(0, 0, 0, 0));
      assert Unit(0, 's') == "0s";
    }
    if p == ["0s"] {
      assert "0s" in p && "0s"[1] == 's';
      assert Shows(p, 's');
      assert b.days <= 0 && b.hours == 0 && b.minutes == 0;
      var n := b.micros / MicrosPerSecond;
      assert Unit(n, 's') == "0s";
      assert NatToString(n) == Unit(n, 's')[..|Unit(n, 's')| - 1] == "0";
      NatToStringRead(n);
      assert DigitsValue("0") == 0;
    }
  }

  /** A unit letter is shown by a concatenation exactly when some piece shows it. */
  lemma ShowsIn(a: seq<string>, b: seq<string>, c: seq<string>, d: seq<string>)
    ensures forall u :: Shows(a + b + c + d, u) <==> Shows(a, u) || Shows(b, u) || Shows(c, u) || Shows(d, u)
  {
  }

  /** For a non-negative whole number of seconds the breakdown has no
      fraction of a second and no negative days. */
  lemma WholeSecondsLeftover(t: int)
    requires 0 <= t && t % MicrosPerSecond == 0
    ensures var b := Decompose(t);
      b.days >= 0 && b.micros % MicrosPerSecond == 0
      && (b.micros > 0 <==> b.micros / MicrosPerSecond > 0)
      && (b.days == 0 && b.hours == 0 && b.minutes == 0 && b.micros == 0 <==> t == 0)
  {
    var b := Decompose(t);
    var q := t / MicrosPerSecond;
    assert t == q * MicrosPerSecond;
    var secs := b.days * 86400 + b.hours * 3600 + b.minutes * 60;
    assert t == secs * MicrosPerSecond + b.micros;
    assert b.micros == (q - secs) * MicrosPerSecond;
  }

  /** A negative duration has a negative day count, which is not shown: it is
      written as its remainder within one day. */
  lemma NegativeShowsRemainderOfDay(t: int)
    requires t < 0
    ensures FormatTimedelta(Some(t)) == FormatTimedelta(Some(t % MicrosPerDay))
  {
    var b := Decompose(t);
    var b' := Breakdown(0, b.hours, b.minutes, b.micros);
    DecomposeUnique(t % MicrosPerDay, b');
  }

  /** A duration of less than one second is written "0s". */
  lemma UnderOneSecond(t: int)
    requires 0 <= t < MicrosPerSecond
    ensures FormatTimedelta(Some(t)) == "0s"
  {
    DecomposeUnique(t, Breakdown(0, 0, 0, t));
    assert Parts(Breakdown(0, 0, 0, t)) == [Unit(0, 's')];
  }

  /** Only a missing duration is written "N/A", and only a duration of less
      than one second is written "0s". */
  lemma DistinctFromPlaceholders(t: int)
    requires MicrosPerSecond <= t
    ensures FormatTimedelta(Some(t)) != "0s" && FormatTimedelta(Some(t)) != "N/A"
  {
    FormatThenParse(t);
    UnderOneSecond(0);
    FormatThenParse(0);
    assert ParseDuration("N/A") == None by {
      assert Split("N/A", ' ') == ["N/A"];
    }
  }

  /** 1 day, 1 hour, 1 minute and 1 second; and the seconds fraction of 60.5
      seconds, which is positive, so a truncated "0s" follows the minute. */
  lemma Examples()
    ensures FormatTimedelta(Some(90061 * MicrosPerSecond)) == "1d 1h 1m 1s"
    ensures FormatTimedelta(Some(60500000)) == "1m 0s"
    ensures FormatTimedelta(Some(7200 * MicrosPerSecond)) == "2h"
  {
    ExampleAllUnits();
    ExampleFraction();
    ExampleHours();
  }

  lemma ExampleAllUnits()
    ensures FormatTimedelta(Some(90061 * MicrosPerSecond)) == "1d 1h 1m 1s"
  {
    assert Unit(1, 'd') == "1d" && Unit(1, 'h') == "1h" && Unit(1, 'm') == "1m" && Unit(1, 's') == "1s";
    DecomposeUnique(90061 * MicrosPerSecond, Breakdown(1, 1, 1, MicrosPerSecond));
    assert Parts(Breakdown(1, 1, 1, MicrosPerSecond)) == ["1d", "1h", "1m", "1s"];
    assert Join(["1m", "1s"], ' ') == "1m 1s";
    assert Join(["1h", "1m", "1s"], ' ') == "1h 1m 1s";
    assert Join(["1d", "1h", "1m", "1s"], ' ') == "1d 1h 1m 1s";
  }

  lemma ExampleFraction()
    ensures FormatTimedelta(Some(60500000)) == "1m 0s"
  {
    assert Unit(1, 'm') == "1m" && Unit(0, 's') == "0s";
    DecomposeUnique(60500000, Breakdown(0, 0, 1, 500000));
    assert Parts(Breakdown(0, 0, 1, 500000)) == ["1m", "0s"];
    assert Join(["1m", "0s"], ' ') == "1m 0s";
  }

  lemma ExampleHours()
    ensures FormatTimedelta(Some(7200 * MicrosPerSecond)) == "2h"
  {
    assert Unit(2, 'h') == "2h";
    DecomposeUnique(7200 * MicrosPerSecond, Breakdown(0, 2, 0, 0));
    assert Parts(Breakdown(0, 2, 0, 0)) == ["2h"];
  }
}
