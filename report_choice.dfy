/** The input mapping of `chose_report` (main.py): an option number or a
    period key, in any case and with surrounding whitespace, selects a report
    period; an empty answer selects the monthly report. The prompt loop that
    asks again after an invalid answer is the caller's. */
module ReportChoice {
  import opened Wrappers
  import opened Text
  import opened PeriodStart

  /** The number shown before each option. */
  function OptionNumber(p: Period): string {
    match p
    case Day => "1"
    case Week => "2"
    case Month => "3"
    case Quarter => "4"
    case Year => "5"
  }

  /** `input().strip().lower()`, with the empty answer replaced by "3". */
  function Normalize(answer: string): string {
    var s := Lower(Strip(answer));
    if s == "" then "3" else s
  }

  /** Looks the normalized answer up among the option numbers and keys;
      `None` is the "invalid input" branch that prompts again. */
  function ChooseReport(answer: string): Option<Period> {
    Lookup(Normalize(answer))
  }

  /** The `input_mapping` dictionary: option numbers and keys to periods. */
  function Lookup(s: string): Option<Period> {
    if s == "1" || s == "day" then Some(Day)
    else if s == "2" || s == "week" then Some(Week)
    else if s == "3" || s == "month" then Some(Month)
    else if s == "4" || s == "quarter" then Some(Quarter)
    else if s == "5" || s == "year" then Some(Year)
    else None
  }

  /** An answer is accepted exactly when, normalized, it is some period's
      number or key, and then it selects that period. */
  lemma ChoiceExactly(answer: string, p: Period)
    ensures ChooseReport(answer) == Some(p) <==> Normalize(answer) in {OptionNumber(p), PeriodKey(p)}
    ensures ChooseReport(answer).None? <==>
      forall q: Period :: Normalize(answer) != OptionNumber(q) && Normalize(answer) != PeriodKey(q)
  {
    LookupExactly(Normalize(answer), p);
    if ChooseReport(answer).Some? {
      LookupExactly(Normalize(answer), ChooseReport(answer).value);
    }
  }

  lemma LookupExactly(s: string, p: Period)
    ensures Lookup(s) == Some(p) <==> s == OptionNumber(p) || s == PeriodKey(p)
    ensures Lookup(s).None? ==> forall q: Period :: s != OptionNumber(q) && s != PeriodKey(q)
  {
    match p
    case Day => case Week => case Month => case Quarter => case Year =>
  }

  lemma LowerStripIdentity(s: string)
    requires forall i :: 0 <= i < |s| ==> 'a' <= s[i] <= 'z' || '0' <= s[i] <= '9'
    requires s != []
    ensures Normalize(s) == s
  {
    assert Strip(s) == s by {
      StripKeeps(s);
    }
  }

  lemma StripKeeps(s: string)
    requires forall i :: 0 <= i < |s| ==> !IsSpace(s[i])
    ensures Strip(s) == s
  {
    var r := Strip(s);
    var i, j :| StrippedAt(s, r, i, j);
  }

  /** Numbers and keys are already in normal form. */
  lemma NumbersAndKeysNormal(p: Period)
    ensures Normalize(OptionNumber(p)) == OptionNumber(p)
    ensures Normalize(PeriodKey(p)) == PeriodKey(p)
  {
    var n, k := OptionNumber(p), PeriodKey(p);
    assert forall i :: 0 <= i < |n| ==> '0' <= n[i] <= '9';
    assert forall i :: 0 <= i < |k| ==> 'a' <= k[i] <= 'z';
    LowerStripIdentity(n);
    LowerStripIdentity(k);
  }

  /** Both the number and the key of every option select it. */
  lemma EveryOptionReachable(p: Period)
    ensures ChooseReport(OptionNumber(p)) == Some(p)
    ensures ChooseReport(PeriodKey(p)) == Some(p)
  {
    NumbersAndKeysNormal(p);
    LookupExactly(OptionNumber(p), p);
    LookupExactly(PeriodKey(p), p);
  }

  /** The empty answer, or only whitespace, selects the monthly report. */
  lemma EmptyMeansMonth(answer: string)
    requires forall i :: 0 <= i < |answer| ==> IsSpace(answer[i])
    ensures ChooseReport(answer) == Some(Month)
  {
  }

  /** Every accepted answer names a period that the hour calculation accepts. */
  lemma ChosenPeriodAccepted(answer: string, now: Calendar.DateTime)
    requires Calendar.ValidDateTime(now) && ChooseReport(answer).Some?
    ensures HoursSincePeriodStart(PeriodKey(ChooseReport(answer).value), now).Ok?
  {
    var p := ChooseReport(answer).value;
    KeyIsLower(p);
    KeyCaseInsensitive(p, PeriodKey(p), now);
  }

  lemma KeyIsLower(p: Period)
    ensures Lower(PeriodKey(p)) == PeriodKey(p)
  {
    var k := PeriodKey(p);
    assert forall i :: 0 <= i < |k| ==> 'a' <= k[i] <= 'z';
    assert forall i :: 0 <= i < |k| ==> LowerChar(k[i]) == k[i];
  }
}
