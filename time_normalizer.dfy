/** Turning a heartbeat's raw `time` value into an instant (main.py, the
    nested `to_datetime` of `analyze_heartbeats`). Instants are whole
    seconds since 1970-01-01 00:00:00 UTC. */
module TimeNormalizer {
  import opened Wrappers
  import opened Text
  import opened Calendar

  /** The raw `time` of a record: a string, a number, or anything else
      (missing, null, a list, ...). */
  datatype RawTime = TextTime(text: string) | EpochTime(seconds: int) | OtherTime

  /** `s.split('.')[0]`: everything before the first '.', or all of `s`. */
  function CutAtDot(s: string): (r: string)
    ensures '.' !in r
    ensures r == s || (|r| < |s| && s[|r|] == '.' && s[..|r|] == r)
  {
    if '.' in s then s[..IndexOf(s, '.')] else s
  }

  /** The six fixed-width fields of "YYYY-MM-DD HH:MM:SS" are digits at the
      right places and the five separators sit between them. */
  predicate WellShaped(s: string) {
    |s| == 19 && s[4] == '-' && s[7] == '-' && s[10] == ' ' && s[13] == ':' && s[16] == ':'
    && AllDigits(s[0..4]) && AllDigits(s[5..7]) && AllDigits(s[8..10])
    && AllDigits(s[11..13]) && AllDigits(s[14..16]) && AllDigits(s[17..19])
  }

  /** `datetime.strptime(s, '%Y-%m-%d %H:%M:%S')` for fixed-width input:
      the fields must form a real date-time (year 1..9999, the month's own
      number of days, seconds below 60), otherwise the parse fails. */
  function ParseDateTime(s: string): (r: Option<DateTime>)
    ensures r.Some? ==> ValidDateTime(r.value) && WellShaped(s)
  {
    if WellShaped(s) then
      var t := DateTime(DigitsValue(s[0..4]), DigitsValue(s[5..7]), DigitsValue(s[8..10]),
                        DigitsValue(s[11..13]), DigitsValue(s[14..16]), DigitsValue(s[17..19]));
      if ValidDateTime(t) then Some(t) else None
    else None
  }

  /** `t.strftime('%Y-%m-%d %H:%M:%S')`, the form the parser accepts. */
  function Render(t: DateTime): (s: string)
    requires ValidDateTime(t)
    ensures |s| == 19 && '.' !in s
  {
    var s := Pad(t.year, 4) + "-" + Pad(t.month, 2) + "-" + Pad(t.day, 2) + " "
      + Pad(t.hour, 2) + ":" + Pad(t.minute, 2) + ":" + Pad(t.second, 2);
    assert forall i :: 0 <= i < |s| ==> s[i] != '.' by {
      forall i | 0 <= i < |s| ensures s[i] != '.' {
        if i < 4 { assert s[i] == Pad(t.year, 4)[i]; }
        else if 4 < i < 7 { assert s[i] == Pad(t.month, 2)[i - 5]; }
        else if 7 < i < 10 { assert s[i] == Pad(t.day, 2)[i - 8]; }
        else if 10 < i < 13 { assert s[i] == Pad(t.hour, 2)[i - 11]; }
        else if 13 < i < 16 { assert s[i] == Pad(t.minute, 2)[i - 14]; }
        else if 16 < i { assert s[i] == Pad(t.second, 2)[i - 17]; }
      }
    }
    s
  }

  /** Every valid date-time is parsed back from its rendering. */
  lemma ParseRender(t: DateTime)
    requires ValidDateTime(t)
    ensures ParseDateTime(Render(t)) == Some(t)
  {
    var s := Render(t);
    assert s[0..4] == Pad(t.year, 4);
    assert s[5..7] == Pad(t.month, 2);
    assert s[8..10] == Pad(t.day, 2);
    assert s[11..13] == Pad(t.hour, 2);
    assert s[14..16] == Pad(t.minute, 2);
    assert s[17..19] == Pad(t.second, 2);
    PadThenRead(t.year, 4);
    PadThenRead(t.month, 2);
    PadThenRead(t.day, 2);
    PadThenRead(t.hour, 2);
    PadThenRead(t.minute, 2);
    PadThenRead(t.second, 2);
  }

  /** The parser accepts nothing but canonical renderings: together with
      ParseRender, parsing is a bijection between the strings it accepts and
      valid date-times. */
  lemma RenderParse(s: string)
    requires ParseDateTime(s).Some?
    ensures Render(ParseDateTime(s).value) == s
  {
    var t := ParseDateTime(s).value;
    ReadThenPad(s[0..4]);
    ReadThenPad(s[5..7]);
    ReadThenPad(s[8..10]);
    ReadThenPad(s[11..13]);
    ReadThenPad(s[14..16]);
    ReadThenPad(s[17..19]);
    assert s == s[0..4] + "-" + s[5..7] + "-" + s[8..10] + " " + s[11..13] + ":" + s[14..16] + ":" + s[17..19];
  }

  /** The nested `to_datetime`: strings are cut at the first '.' and parsed
      as UTC; numbers are epoch seconds; anything else, or a failed parse,
      gives no value. */
  function ToInstant(raw: RawTime): Option<int> {
    match raw
    case TextTime(s) =>
      (match ParseDateTime(CutAtDot(s))
       case Some(t) => Some(EpochSeconds(t))
       case None => None)
    case EpochTime(n) => Some(n)
    case OtherTime => None
  }

  /** A string timestamp has an instant exactly when the text before its
      first '.' is the canonical rendering of some date-time; that instant is
      the date-time's epoch value, and whatever follows the '.' is ignored. */
  lemma TextInstant(s: string)
    ensures ToInstant(TextTime(s)).Some? <==> exists t :: ValidDateTime(t) && Render(t) == CutAtDot(s)
    ensures forall t :: ValidDateTime(t) && Render(t) == CutAtDot(s) ==> ToInstant(TextTime(s)) == Some(EpochSeconds(t))
  {
    var c := CutAtDot(s);
    if ParseDateTime(c).Some? {
      RenderParse(c);
    }
    forall t | ValidDateTime(t) && Render(t) == c ensures ToInstant(TextTime(s)) == Some(EpochSeconds(t)) {
      ParseRender(t);
    }
  }

  /** Fractional seconds after the '.' are discarded. */
  lemma FractionDiscarded(t: DateTime, fraction: string)
    requires ValidDateTime(t)
    ensures ToInstant(TextTime(Render(t) + "." + fraction)) == Some(EpochSeconds(t))
    ensures ToInstant(TextTime(Render(t))) == Some(EpochSeconds(t))
  {
    var r := Render(t);
    var s := r + "." + fraction;
    IndexOfConcat(r, '.', fraction);
    assert CutAtDot(s) == r;
    ParseRender(t);
  }

  /** Numbers are taken as epoch seconds; other kinds of value give nothing. */
  lemma NumberAndOther(n: int)
    ensures ToInstant(EpochTime(n)) == Some(n) && ToInstant(OtherTime) == None
  {
  }

  /** Comparing the instants of two well-formed string timestamps is
      comparing the date-times they spell. */
  lemma TextInstantsOrdered(a: DateTime, b: DateTime)
    requires ValidDateTime(a) && ValidDateTime(b) && Earlier(a, b)
    ensures ToInstant(TextTime(Render(a))) == Some(EpochSeconds(a))
    ensures ToInstant(TextTime(Render(b))) == Some(EpochSeconds(b))
    ensures EpochSeconds(a) < EpochSeconds(b)
  {
    FractionDiscarded(a, "");
    FractionDiscarded(b, "");
    EpochSecondsMonotone(a, b);
  }
}
