/**
 * `expr_node_pattern.findall(expr)` (bithou/nodetools.py), the string scan of
 * `find_parm_references`: every `"..."` group of `"([\S\\.]+)"`, found the way
 * Python's `re.findall` finds them.
 *
 * A match is described by a Span, the positions of its opening and closing
 * quote; its capture is what lies strictly between them.  IsFindAll states
 * declaratively which spans findall reports (leftmost matches, each as long
 * as the greedy `+` makes it, none overlapping, none missed); Scan computes
 * them, and ScanIsTheOnlyFindAll shows the statement admits no other answer.
 */
module ExprNodePattern {
  import opened Wrappers
  import opened ReChars

  datatype Span = Span(open: nat, close: nat)

  /** `[\S\\.]`: a backslash and a `.` are not whitespace, so this is `\S`. */
  predicate IsRefChar(c: char) {
    !IsSpace(c) || c == '\\' || c == '.'
  }

  /** The pattern matches at `p` with its closing quote at `q`. */
  ghost predicate MatchAt(s: string, p: nat, q: nat) {
    p + 1 < q < |s| && s[p] == '"' && s[q] == '"'
    && forall j :: p < j < q ==> IsRefChar(s[j])
  }

  /** The search finds a match starting at `p`. */
  ghost predicate StartsMatch(s: string, p: nat) {
    exists q: nat :: MatchAt(s, p, q)
  }

  /** No match starting where `sp` starts ends further right: greedy `+`. */
  ghost predicate Longest(s: string, sp: Span) {
    forall q: nat :: MatchAt(s, sp.open, q) ==> q <= sp.close
  }

  /** Position `p` lies within one of the reported matches. */
  ghost predicate Covered(spans: seq<Span>, p: nat) {
    exists i :: 0 <= i < |spans| && spans[i].open <= p <= spans[i].close
  }

  /** Every span is a match at or after `pos`, as long as the greedy `+` makes it. */
  ghost predicate LongestMatches(s: string, pos: nat, spans: seq<Span>) {
    forall i :: 0 <= i < |spans| ==>
      pos <= spans[i].open && MatchAt(s, spans[i].open, spans[i].close) && Longest(s, spans[i])
  }

  /** The spans come left to right and do not share a position. */
  ghost predicate Ordered(spans: seq<Span>) {
    forall i, j :: 0 <= i < j < |spans| ==> spans[i].close < spans[j].open
  }

  /** No match starts at a position from `pos` on that the spans leave uncovered. */
  ghost predicate NoneMissed(s: string, pos: nat, spans: seq<Span>) {
    forall p: nat :: pos <= p < |s| && !Covered(spans, p) ==> !StartsMatch(s, p)
  }

  /** `spans` is what `findall` reports when it scans `s` from `pos`. */
  ghost predicate IsFindAll(s: string, pos: nat, spans: seq<Span>) {
    LongestMatches(s, pos, spans) && Ordered(spans) && NoneMissed(s, pos, spans)
  }

  /** The end of the run of `[\S\\.]` characters that starts at `i`. */
  function RunEnd(s: string, i: nat): (e: nat)
    requires i <= |s|
    ensures i <= e <= |s|
    ensures forall j :: i <= j < e ==> IsRefChar(s[j])
    ensures e < |s| ==> !IsRefChar(s[e])
    decreases |s| - i
  {
    if i == |s| || !IsRefChar(s[i]) then i else RunEnd(s, i + 1)
  }

  /**
   * The backtracking of the greedy `+` at `p`: looking left from `k`, the
   * first `"` that still leaves a non-empty group before it.
   */
  function BackOff(s: string, p: nat, k: nat): (r: Option<nat>)
    requires k <= |s|
    ensures r.Some? ==> p + 2 <= r.value < k
  {
    if k < p + 3 then None
    else if s[k - 1] == '"' then Some(k - 1)
    else BackOff(s, p, k - 1)
  }

  /** BackOff finds the last `"` in `s[p + 2..k]`. */
  lemma {:induction false} BackOffFindsLastQuote(s: string, p: nat, k: nat)
    requires k <= |s|
    ensures BackOff(s, p, k).None? ==> forall q :: p + 2 <= q < k ==> s[q] != '"'
    ensures BackOff(s, p, k).Some? ==>
      s[BackOff(s, p, k).value] == '"' && forall q :: BackOff(s, p, k).value < q < k ==> s[q] != '"'
  {
    if k >= p + 3 && s[k - 1] != '"' {
      BackOffFindsLastQuote(s, p, k - 1);
    }
  }

  /**
   * The attempt at position `p`: an opening quote, then `+` takes the whole
   * run of `[\S\\.]` and backs off to the last quote in it.
   */
  function LongestMatchAt(s: string, p: nat): (r: Option<nat>)
    ensures r.Some? ==> p + 1 < r.value < |s|
  {
    if p < |s| && s[p] == '"' then BackOff(s, p, RunEnd(s, p + 1)) else None
  }

  /**
   * The attempt at `p` fails exactly when no match starts there; otherwise
   * it ends at a closing quote no other match from `p` goes beyond.
   */
  lemma LongestMatchAtIsLongest(s: string, p: nat)
    ensures LongestMatchAt(s, p).None? <==> !StartsMatch(s, p)
    ensures LongestMatchAt(s, p).Some? ==>
      MatchAt(s, p, LongestMatchAt(s, p).value) && Longest(s, Span(p, LongestMatchAt(s, p).value))
  {
    if p < |s| && s[p] == '"' {
      var e := RunEnd(s, p + 1);
      BackOffFindsLastQuote(s, p, e);
      forall q: nat | MatchAt(s, p, q)
        ensures q < e
      {
        assert IsRefChar(s[q]);
      }
      if BackOff(s, p, e).Some? {
        assert MatchAt(s, p, BackOff(s, p, e).value);
      }
    }
  }

  /** findall from `pos`: try each position in turn, resuming after a match. */
  function Scan(s: string, pos: nat): (r: seq<Span>)
    requires pos <= |s|
    ensures forall i :: 0 <= i < |r| ==> pos <= r[i].open < r[i].close < |s|
    decreases |s| - pos
  {
    if pos == |s| then []
    else
      match LongestMatchAt(s, pos)
      case None => Scan(s, pos + 1)
      case Some(q) => [Span(pos, q)] + Scan(s, q + 1)
  }

  /** After a match at `pos`, Scan resumes just past its closing quote. */
  lemma ScanAfterMatch(s: string, pos: nat, q: nat)
    requires pos < |s| && LongestMatchAt(s, pos) == Some(q)
    ensures Scan(s, pos) == [Span(pos, q)] + Scan(s, q + 1)
  {
  }

  /** Where no match starts, Scan moves on by one position. */
  lemma ScanAfterMiss(s: string, pos: nat)
    requires pos < |s| && LongestMatchAt(s, pos) == None
    ensures Scan(s, pos) == Scan(s, pos + 1)
  {
  }

  /** Each span Scan reports is a match, as long as the greedy `+` makes it. */
  lemma {:induction false} ScanLongest(s: string, pos: nat)
    requires pos <= |s|
    ensures LongestMatches(s, pos, Scan(s, pos))
    decreases |s| - pos
  {
    if pos < |s| {
      match LongestMatchAt(s, pos)
      case None =>
        ScanLongest(s, pos + 1);
      case Some(q) =>
        LongestMatchAtIsLongest(s, pos);
        ScanLongest(s, q + 1);
        LongestMatchesCons(s, pos, Span(pos, q), Scan(s, q + 1));
    }
  }

  lemma LongestMatchesCons(s: string, pos: nat, head: Span, rest: seq<Span>)
    requires pos <= head.open && MatchAt(s, head.open, head.close) && Longest(s, head)
    requires LongestMatches(s, head.close + 1, rest)
    ensures LongestMatches(s, pos, [head] + rest)
  {
  }

  /** The spans Scan reports come left to right and are disjoint. */
  lemma {:induction false} ScanOrdered(s: string, pos: nat)
    requires pos <= |s|
    ensures Ordered(Scan(s, pos))
    decreases |s| - pos
  {
    if pos < |s| {
      match LongestMatchAt(s, pos)
      case None =>
        ScanOrdered(s, pos + 1);
      case Some(q) =>
        ScanOrdered(s, q + 1);
        OrderedCons(Span(pos, q), Scan(s, q + 1));
    }
  }

  lemma OrderedCons(head: Span, rest: seq<Span>)
    requires Ordered(rest)
    requires forall i :: 0 <= i < |rest| ==> head.close < rest[i].open
    ensures Ordered([head] + rest)
  {
  }

  /** A position no span covers is covered neither by the first nor by the rest. */
  lemma UncoveredSplit(head: Span, rest: seq<Span>, p: nat)
    requires !Covered([head] + rest, p)
    ensures !(head.open <= p <= head.close) && !Covered(rest, p)
  {
    var r := [head] + rest;
    assert r[0] == head;
    forall i | 0 <= i < |rest|
      ensures !(rest[i].open <= p <= rest[i].close)
    {
      assert r[i + 1] == rest[i];
    }
  }

  /** Scan skips no position at which a match starts. */
  lemma {:induction false} ScanMissesNothing(s: string, pos: nat)
    requires pos <= |s|
    ensures NoneMissed(s, pos, Scan(s, pos))
    decreases |s| - pos
  {
    if pos < |s| {
      match LongestMatchAt(s, pos)
      case None =>
        LongestMatchAtIsLongest(s, pos);
        ScanMissesNothing(s, pos + 1);
        ScanAfterMiss(s, pos);
        NoneMissedSkip(s, pos, Scan(s, pos + 1));
      case Some(q) =>
        ScanMissesNothing(s, q + 1);
        ScanAfterMatch(s, pos, q);
        NoneMissedCons(s, pos, q, Scan(s, q + 1));
    }
  }

  lemma NoneMissedSkip(s: string, pos: nat, rest: seq<Span>)
    requires pos < |s| && !StartsMatch(s, pos)
    requires NoneMissed(s, pos + 1, rest)
    ensures NoneMissed(s, pos, rest)
  {
  }

  lemma NoneMissedCons(s: string, pos: nat, q: nat, rest: seq<Span>)
    requires pos < q < |s|
    requires NoneMissed(s, q + 1, rest)
    ensures NoneMissed(s, pos, [Span(pos, q)] + rest)
  {
    forall p: nat | pos <= p < |s| && !Covered([Span(pos, q)] + rest, p)
      ensures !StartsMatch(s, p)
    {
      UncoveredSplit(Span(pos, q), rest, p);
    }
  }

  /** Scan reports exactly what findall reports. */
  lemma ScanIsFindAll(s: string, pos: nat)
    requires pos <= |s|
    ensures IsFindAll(s, pos, Scan(s, pos))
  {
    ScanLongest(s, pos);
    ScanOrdered(s, pos);
    ScanMissesNothing(s, pos);
  }

  /** Where no match starts, findall's answer from `pos` is its answer from `pos + 1`. */
  lemma FindAllSkip(s: string, pos: nat, spans: seq<Span>)
    requires pos < |s| && !StartsMatch(s, pos)
    requires IsFindAll(s, pos, spans)
    ensures IsFindAll(s, pos + 1, spans)
  {
  }

  /** Where a match starts, findall reports it first, as long as it can be. */
  lemma FindAllHead(s: string, pos: nat, spans: seq<Span>, q: nat)
    requires MatchAt(s, pos, q) && Longest(s, Span(pos, q))
    requires IsFindAll(s, pos, spans)
    ensures |spans| > 0 && spans[0] == Span(pos, q)
  {
    assert StartsMatch(s, pos);
    var i :| 0 <= i < |spans| && spans[i].open <= pos <= spans[i].close;
    assert MatchAt(s, spans[0].open, spans[0].close);
    assert i == 0;
    assert Longest(s, spans[0]);
  }

  /** After its first span, findall goes on as if it started past that span. */
  lemma FindAllTail(s: string, pos: nat, spans: seq<Span>)
    requires |spans| > 0 && IsFindAll(s, pos, spans)
    ensures spans[0].close < |s| && IsFindAll(s, spans[0].close + 1, spans[1..])
  {
  }

  /** The declarative statement of findall admits one answer only: Scan's. */
  lemma {:induction false} ScanIsTheOnlyFindAll(s: string, pos: nat, spans: seq<Span>)
    requires pos <= |s|
    requires IsFindAll(s, pos, spans)
    ensures spans == Scan(s, pos)
    decreases |s| - pos
  {
    if pos < |s| {
      match LongestMatchAt(s, pos)
      case None =>
        LongestMatchAtIsLongest(s, pos);
        FindAllSkip(s, pos, spans);
        ScanIsTheOnlyFindAll(s, pos + 1, spans);
        ScanAfterMiss(s, pos);
      case Some(q) =>
        LongestMatchAtIsLongest(s, pos);
        FindAllHead(s, pos, spans, q);
        FindAllTail(s, pos, spans);
        ScanIsTheOnlyFindAll(s, q + 1, spans[1..]);
        ScanAfterMatch(s, pos, q);
        assert spans == [spans[0]] + spans[1..];
    } else {
      assert |spans| > 0 ==> MatchAt(s, spans[0].open, spans[0].close);
    }
  }

  /** The captures of `expr_node_pattern.findall(expr)`, left to right. */
  function FindAll(expr: string): (r: seq<string>)
    ensures IsFindAll(expr, 0, Scan(expr, 0))
    ensures |r| == |Scan(expr, 0)|
    ensures forall i :: 0 <= i < |r| ==> r[i] == expr[Scan(expr, 0)[i].open + 1..Scan(expr, 0)[i].close]
    ensures forall i :: 0 <= i < |r| ==> QuotedAt(expr, Scan(expr, 0)[i].open + 1, r[i])
    ensures forall i :: 0 <= i < |r| ==> |r[i]| > 0 && forall j :: 0 <= j < |r[i]| ==> !IsSpace(r[i][j])
  {
    var spans := Scan(expr, 0);
    ScanIsFindAll(expr, 0);
    CapturesAreQuoted(expr, spans);
    seq(|spans|, i requires 0 <= i < |spans| => expr[spans[i].open + 1..spans[i].close])
  }

  /** The text strictly inside each match is quoted on both sides and free of whitespace. */
  lemma CapturesAreQuoted(s: string, spans: seq<Span>)
    requires LongestMatches(s, 0, spans)
    ensures forall i :: 0 <= i < |spans| ==>
      var w := s[spans[i].open + 1..spans[i].close];
      QuotedAt(s, spans[i].open + 1, w) && |w| > 0 && forall j :: 0 <= j < |w| ==> !IsSpace(w[j])
  {
    forall i | 0 <= i < |spans|
      ensures var w := s[spans[i].open + 1..spans[i].close];
        QuotedAt(s, spans[i].open + 1, w) && |w| > 0 && forall j :: 0 <= j < |w| ==> !IsSpace(w[j])
    {
      var sp := spans[i];
      assert MatchAt(s, sp.open, sp.close);
      var w := s[sp.open + 1..sp.close];
      forall j | 0 <= j < |w|
        ensures !IsSpace(w[j])
      {
        assert w[j] == s[sp.open + 1 + j];
      }
    }
  }

  /** `w` occurs in `s` at `k`, with a `"` just before it and just after it. */
  predicate QuotedAt(s: string, k: nat, w: string) {
    0 < k && k + |w| < |s| && s[k - 1] == '"' && s[k..k + |w|] == w && s[k + |w|] == '"'
  }

  /** Separate quoted paths are reported one by one, left to right. */
  lemma SeparatedQuotesExample()
    ensures FindAll("\"a\" \"b\"") == ["a", "b"]
  {
    var s := "\"a\" \"b\"";
    assert RunEnd(s, 1) == 3;
    assert LongestMatchAt(s, 0) == Some(2);
    assert LongestMatchAt(s, 3) == None;
    assert RunEnd(s, 5) == 7;
    assert LongestMatchAt(s, 4) == Some(6);
    assert Scan(s, 0) == [Span(0, 2), Span(4, 6)];
    assert s[1..2] == "a" && s[5..6] == "b";
  }

  /** Inside one run without whitespace the greedy `+` reaches the last quote. */
  lemma AdjacentQuotesExample()
    ensures FindAll("\"a\"\"b\"") == ["a\"\"b"]
  {
    var s := "\"a\"\"b\"";
    assert RunEnd(s, 1) == 6;
    assert LongestMatchAt(s, 0) == Some(5);
    assert Scan(s, 0) == [Span(0, 5)];
    assert s[1..5] == "a\"\"b";
  }

  /** A channel reference as `find_parm_references` meets it. */
  lemma ChannelReferenceExample()
    ensures FindAll("ch(\"../tx\")") == ["../tx"]
  {
    var s := "ch(\"../tx\")";
    forall j | 4 <= j < |s|
      ensures IsRefChar(s[j])
    {
    }
    assert RunEnd(s, 4) == |s|;
    assert BackOff(s, 3, 11) == BackOff(s, 3, 10);
    assert LongestMatchAt(s, 3) == Some(9);
    assert LongestMatchAt(s, 0) == None && LongestMatchAt(s, 1) == None && LongestMatchAt(s, 2) == None;
    assert LongestMatchAt(s, 10) == None;
    assert Scan(s, 0) == [Span(3, 9)];
    assert s[4..9] == "../tx";
  }
}
