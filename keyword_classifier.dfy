/** The per-message keyword extraction of `analyze_heartbeats`: a message
    triggers when it contains "but" and the first match of the regular
    expression `\[(.*?)\]` anywhere in it has non-empty content. The
    regular expression is modelled directly: `.` matches anything but a
    newline, and the lazy `.*?` stops at the first ']'. */
module KeywordClassifier {
  import opened Wrappers
  import opened Text

  /** No ']' and no newline: the characters the lazy `.*?` may consume
      before `\]` matches. */
  predicate PlainBetween(s: string, i: int, q: int)
    requires 0 <= i <= q <= |s|
  {
    forall k :: i <= k < q ==> s[k] != ']' && s[k] != '\n'
  }

  /** Declarative reading of the pattern: `\[(.*?)\]` matches at `p` with
      group 1 equal to `c`. */
  predicate BracketMatch(s: string, p: int, c: string) {
    0 <= p && p + |c| + 1 < |s| && s[p] == '[' && s[p + 1..p + 1 + |c|] == c && s[p + 1 + |c|] == ']'
    && forall k :: 0 <= k < |c| ==> c[k] != ']' && c[k] != '\n'
  }

  /** Where `.*?\]` starting at `i` stops: the first ']' at or after `i`,
      unless a newline comes first or there is none. */
  function CloseFrom(s: string, i: nat): (r: Option<nat>)
    requires i <= |s|
    ensures r.Some? ==> i <= r.value < |s| && s[r.value] == ']' && PlainBetween(s, i, r.value)
    ensures r.None? ==> forall q :: i <= q < |s| && s[q] == ']' ==> !PlainBetween(s, i, q)
    decreases |s| - i
  {
    if i == |s| then None
    else if s[i] == ']' then Some(i)
    else if s[i] == '\n' then None
    else CloseFrom(s, i + 1)
  }

  /** `re.search` of the pattern from position `p` on: the first position
      where a match starts wins. */
  function SearchFrom(s: string, p: nat): Option<string>
    requires p <= |s|
    decreases |s| - p
  {
    if p == |s| then None
    else if s[p] == '[' && CloseFrom(s, p + 1).Some? then Some(s[p + 1..CloseFrom(s, p + 1).value])
    else SearchFrom(s, p + 1)
  }

  /** `re.search(r"\[(.*?)\]", msg)` reduced to its group 1. */
  function FirstBracket(s: string): Option<string> {
    SearchFrom(s, 0)
  }

  /** The scanning step at `p` agrees with the declarative pattern. */
  lemma MatchAtIff(s: string, p: nat, c: string)
    requires p < |s|
    ensures BracketMatch(s, p, c) <==> (s[p] == '[' && CloseFrom(s, p + 1) == Some(p + 1 + |c|) && s[p + 1..p + 1 + |c|] == c)
  {
    var r := CloseFrom(s, p + 1);
    if BracketMatch(s, p, c) {
      var q := p + 1 + |c|;
      assert PlainBetween(s, p + 1, q) by {
        forall k | p + 1 <= k < q ensures s[k] != ']' && s[k] != '\n' {
          assert s[k] == c[k - p - 1];
        }
      }
    }
    if s[p] == '[' && r == Some(p + 1 + |c|) && s[p + 1..p + 1 + |c|] == c {
      forall k | 0 <= k < |c| ensures c[k] != ']' && c[k] != '\n' {
        assert c[k] == s[p + 1 + k];
      }
    }
  }

  /** The match at `p` with content `c` is the first one at or after `p0`. */
  ghost predicate LeftmostFrom(s: string, p0: int, p: int, c: string) {
    p0 <= p && BracketMatch(s, p, c) && forall p', c' :: p0 <= p' < p ==> !BracketMatch(s, p', c')
  }

  /** Whatever the search returns is a match, and no match starts earlier. */
  lemma {:induction false} SearchSound(s: string, p0: nat, c: string)
    requires p0 <= |s| && SearchFrom(s, p0) == Some(c)
    ensures exists p :: LeftmostFrom(s, p0, p, c)
    decreases |s| - p0
  {
    if s[p0] == '[' && CloseFrom(s, p0 + 1).Some? {
      assert c == s[p0 + 1..CloseFrom(s, p0 + 1).value];
      MatchAtIff(s, p0, c);
      assert LeftmostFrom(s, p0, p0, c);
    } else {
      forall c' ensures !BracketMatch(s, p0, c') {
        MatchAtIff(s, p0, c');
      }
      SearchSound(s, p0 + 1, c);
      var p :| LeftmostFrom(s, p0 + 1, p, c);
      LeftmostExtend(s, p0, p, c);
    }
  }

  /** No match at `p0` lets the leftmost match from `p0 + 1` stand from `p0`. */
  lemma LeftmostExtend(s: string, p0: int, p: int, c: string)
    requires LeftmostFrom(s, p0 + 1, p, c) && forall c' :: !BracketMatch(s, p0, c')
    ensures LeftmostFrom(s, p0, p, c)
  {
  }

  /** If the pattern matches at some position, the search finds a match. */
  lemma {:induction false} SearchComplete(s: string, p0: nat, p: int, c: string)
    requires p0 <= p && p0 <= |s| && BracketMatch(s, p, c)
    ensures SearchFrom(s, p0).Some?
    decreases |s| - p0
  {
    if p0 == p {
      MatchAtIff(s, p, c);
    } else if !(s[p0] == '[' && CloseFrom(s, p0 + 1).Some?) {
      SearchComplete(s, p0 + 1, p, c);
    }
  }

  /** `FirstBracket` is exactly the leftmost match of `\[(.*?)\]`. */
  lemma FirstBracketIsLeftmostMatch(s: string)
    ensures forall c :: FirstBracket(s) == Some(c) ==>
      exists p :: BracketMatch(s, p, c) && forall p', c' :: 0 <= p' < p ==> !BracketMatch(s, p', c')
    ensures FirstBracket(s).None? <==> forall p, c :: !BracketMatch(s, p, c)
  {
    forall c | FirstBracket(s) == Some(c)
      ensures exists p :: BracketMatch(s, p, c) && forall p', c' :: 0 <= p' < p ==> !BracketMatch(s, p', c')
    {
      SearchSound(s, 0, c);
    }
    forall p, c | BracketMatch(s, p, c) ensures FirstBracket(s).Some? {
      SearchComplete(s, 0, p, c);
    }
    if FirstBracket(s).Some? {
      SearchSound(s, 0, FirstBracket(s).value);
    }
  }

  /** The keyword a message contributes, if it is a trigger. */
  function KeywordOf(msg: string): Option<string> {
    if Contains(msg, "but") then
      match FirstBracket(msg)
      case Some(c) => if c != "" then Some(c) else None
      case None => None
    else None
  }

  /** A message yields keyword `k` exactly when it contains "but" and the
      leftmost bracket match, searched from the start of the message, has
      the non-empty content `k`. */
  lemma KeywordOfSpec(msg: string, k: string)
    ensures KeywordOf(msg) == Some(k) <==>
      (exists i :: OccursAt(msg, "but", i)) && k != ""
      && exists p :: BracketMatch(msg, p, k) && forall p', c' :: 0 <= p' < p ==> !BracketMatch(msg, p', c')
  {
    FirstBracketIsLeftmostMatch(msg);
    var rhs := exists p :: BracketMatch(msg, p, k) && forall p', c' :: 0 <= p' < p ==> !BracketMatch(msg, p', c');
    if rhs {
      var p :| BracketMatch(msg, p, k) && forall p', c' :: 0 <= p' < p ==> !BracketMatch(msg, p', c');
      assert FirstBracket(msg).Some?;
      var c := FirstBracket(msg).value;
      var q :| BracketMatch(msg, q, c) && forall p', c' :: 0 <= p' < q ==> !BracketMatch(msg, p', c');
      LeftmostUnique(msg, p, k, q, c);
    }
  }

  /** Two leftmost matches are the same match. */
  lemma LeftmostUnique(s: string, p: int, c: string, q: int, d: string)
    requires BracketMatch(s, p, c) && forall p', c' :: 0 <= p' < p ==> !BracketMatch(s, p', c')
    requires BracketMatch(s, q, d) && forall p', c' :: 0 <= p' < q ==> !BracketMatch(s, p', c')
    ensures c == d
  {
    assert p == q;
    MatchAtIff(s, p, c);
    MatchAtIff(s, p, d);
  }

  /** Worked message: the bracketed token after "but" is the keyword. */
  lemma ExampleKeyword()
    ensures KeywordOf("up but [sql-error] seen") == Some("sql-error")
  {
    var m := "up but [sql-error] seen";
    assert OccursAt(m, "but", 3);
    assert m[8..17] == "sql-error";
    assert BracketMatch(m, 7, "sql-error");
    assert forall i :: 0 <= i < 7 ==> m[i] != '[';
    assert forall p', c' :: 0 <= p' < 7 ==> !BracketMatch(m, p', c');
    KeywordOfSpec(m, "sql-error");
  }

  /** Worked message: empty brackets yield no keyword. */
  lemma ExampleEmptyBrackets()
    ensures KeywordOf("but [] seen") == None
  {
  }

  /** Worked message: the search starts at the beginning of the message, not after "but". */
  lemma ExampleSearchFromStart()
    ensures KeywordOf("[a] but [b]") == Some("a")
  {
    var m := "[a] but [b]";
    assert OccursAt(m, "but", 4);
    assert CloseFrom(m, 1) == Some(2);
    assert m[1..2] == "a";
  }

  /** Worked message: a bracket broken by a newline does not match. */
  lemma ExampleNewline()
    ensures KeywordOf("[a\n] but [b]") == Some("b")
  {
    var m := "[a\n] but [b]";
    assert OccursAt(m, "but", 5);
    assert CloseFrom(m, 1) == None;
    assert SearchFrom(m, 0) == SearchFrom(m, 1);
    assert SearchFrom(m, 9) == Some("b") by {
      assert CloseFrom(m, 10) == Some(11);
      assert m[10..11] == "b";
    }
    assert SearchFrom(m, 1) == SearchFrom(m, 9);
  }
}
