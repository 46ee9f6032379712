/**
Backtick code spans of a hint (errors/builder.go): the index scanners, and the rule of section 6.1
"Code spans" of the CommonMark Spec 0.31.2 that they implement, stated without any scanning.
Backslashes have no special meaning here, as in the code.
 */
module CodeSpans {

  import opened Options

  /** The characters from start up to, not including, end; the delimiters are part of the span. */
  datatype Span = Span(start: nat, end: nat)

  const TICK: char := '`'

  // ---------------------------------------------------------------- the rule

  /** The n characters at offset a are a maximal run of backticks. */
  ghost predicate TickRun(s: string, a: int, n: int) {
    && 0 <= a < a + n <= |s|
    && (forall k :: a <= k < a + n ==> s[k] == TICK)
    && (a == 0 || s[a - 1] != TICK)
    && (a + n == |s| || s[a + n] != TICK)
  }

  ghost predicate NoRun(s: string, lo: int, hi: int, n: int) {
    forall a :: lo <= a < hi ==> !TickRun(s, a, n)
  }

  /** sp opens with a maximal run of n backticks and closes with the next one of that length. */
  ghost predicate Delimits(s: string, sp: Span, n: nat) {
    && TickRun(s, sp.start, n)
    && TickRun(s, sp.end - n, n)
    && sp.start < sp.end - n
    && NoRun(s, sp.start + 1, sp.end - n, n)
  }

  ghost predicate CodeSpan(s: string, sp: Span) {
    exists n: nat :: Delimits(s, sp, n)
  }

  predicate Inside(spans: seq<Span>, k: int) {
    exists j :: 0 <= j < |spans| && spans[j].start <= k < spans[j].end
  }

  predicate Ordered(spans: seq<Span>, lo: nat, hi: nat) {
    && (forall j :: 0 <= j < |spans| ==> lo <= spans[j].start <= spans[j].end <= hi)
    && (forall i, j :: 0 <= i < j < |spans| ==> spans[i].end <= spans[j].start)
  }

  /** Every run at or after lo that is left outside the spans has no later run of its length. */
  ghost predicate TextRunsUnclosed(s: string, spans: seq<Span>, lo: nat) {
    forall a, n :: lo <= a && TickRun(s, a, n) && !Inside(spans, a) ==> NoRun(s, a + 1, |s|, n)
  }

  /** The rule: the code spans of s at or after offset lo, in order, and every other run left as text. */
  ghost predicate SpanList(s: string, spans: seq<Span>, lo: nat) {
    && Ordered(spans, lo, |s|)
    && (forall j :: 0 <= j < |spans| ==> CodeSpan(s, spans[j]))
    && TextRunsUnclosed(s, spans, lo)
  }

  /** Offset i does not cut a run in two. */
  predicate Boundary(s: string, i: nat) {
    i <= |s| && (0 < i < |s| ==> !(s[i - 1] == TICK && s[i] == TICK))
  }

  // ---------------------------------------------------------------- what the scanners compute

  /** The offset just past the backticks that start at i. */
  function RunEnd(s: string, i: nat): (j: nat)
    requires i <= |s|
    ensures i <= j <= |s|
    ensures forall k :: i <= k < j ==> s[k] == TICK
    ensures j == |s| || s[j] != TICK
    decreases |s| - i
  {
    if i < |s| && s[i] == TICK then RunEnd(s, i + 1) else i
  }

  /** The end of the first run of exactly n backticks at or after i. */
  function ClosingRun(s: string, i: nat, n: nat): (end: Option<nat>)
    requires Boundary(s, i) && n > 0
    ensures end.Some? ==> i <= end.value - n && TickRun(s, end.value - n, n) && Boundary(s, end.value)
    ensures NoRun(s, i, if end.Some? then end.value - n else |s|, n)
    decreases |s| - i
  {
    if i >= |s| then None
    else if s[i] != TICK then ClosingRun(s, i + 1, n)
    else
      var j := RunEnd(s, i);
      assert TickRun(s, i, j - i);
      if j - i == n then Some(j) else ClosingRun(s, j, n)
  }

  /** The spans found by scanning from offset i. */
  function Spans(s: string, i: nat): (spans: seq<Span>)
    requires Boundary(s, i)
    decreases |s| - i
  {
    if i >= |s| then []
    else if s[i] != TICK then Spans(s, i + 1)
    else
      var j := RunEnd(s, i);
      match ClosingRun(s, j, j - i)
      case None => Spans(s, j)
      case Some(end) => [Span(i, end)] + Spans(s, end)
  }

  // ---------------------------------------------------------------- the scanners

  method SkipBackticks(s: string, start: nat) returns (i: nat)
    requires start <= |s|
    ensures i == RunEnd(s, start)
    ensures start <= i <= |s| && (forall k :: start <= k < i ==> s[k] == '`') && (i == |s| || s[i] != '`')
  {
    i := start;
    while i < |s| && s[i] == TICK
      invariant start <= i <= |s|
      invariant RunEnd(s, start) == RunEnd(s, i)
    {
      i := i + 1;
    }
  }

  method FindClosingBacktickRun(s: string, start: nat, openLen: nat) returns (end: nat, found: bool)
    requires Boundary(s, start) && openLen > 0
    ensures found == ClosingRun(s, start, openLen).Some?
    ensures end == if found then ClosingRun(s, start, openLen).value else 0
  {
    var i := start;
    while i < |s|
      invariant Boundary(s, i)
      invariant ClosingRun(s, start, openLen) == ClosingRun(s, i, openLen)
      decreases |s| - i
    {
      if s[i] != TICK {
        i := i + 1;
        continue;
      }
      var runStart := i;
      i := SkipBackticks(s, i);
      if i - runStart == openLen {
        return i, true;
      }
    }
    return 0, false;
  }

  /** The scan finds the spans of the rule, and no other list of spans meets the rule. */
  method CodeSpanRanges(s: string) returns (spans: seq<Span>)
    ensures spans == Spans(s, 0)
    ensures SpanList(s, spans, 0)
    ensures forall other :: SpanList(s, other, 0) ==> other == spans
  {
    hide SpanList, TickRun, NoRun;
    spans := [];
    var i := 0;
    while i < |s|
      invariant Boundary(s, i)
      invariant Spans(s, 0) == spans + Spans(s, i)
      decreases |s| - i
    {
      if s[i] != TICK {
        i := i + 1;
        continue;
      }
      var start := i;
      i := SkipBackticks(s, i);
      var openLen := i - start;
      var closeEnd, found := FindClosingBacktickRun(s, i, openLen);
      if !found {
        continue;
      }
      spans := spans + [Span(start, closeEnd)];
      i := closeEnd;
    }
    assert spans == Spans(s, 0);
    OnlySpanList(s);
  }

  // ---------------------------------------------------------------- the scan meets the rule

  lemma OnlySpanList(s: string)
    ensures SpanList(s, Spans(s, 0), 0)
    ensures forall other :: SpanList(s, other, 0) ==> other == Spans(s, 0)
  {
    SpansMeetRule(s, 0);
    forall other | SpanList(s, other, 0) ensures other == Spans(s, 0) {
      SpanListUnique(s, other, Spans(s, 0), 0);
    }
  }

  lemma {:induction false} SpansMeetRule(s: string, i: nat)
    requires Boundary(s, i)
    ensures SpanList(s, Spans(s, i), i)
    decreases |s| - i
  {
    hide SpanList, NoRun, Delimits, CodeSpan;
    if i >= |s| {
      NothingLeft(s, i);
    } else if s[i] != TICK {
      SpansMeetRule(s, i + 1);
      TextBefore(s, Spans(s, i + 1), i);
    } else {
      var j := RunEnd(s, i);
      var n := j - i;
      assert TickRun(s, i, n);
      match ClosingRun(s, j, n) {
        case None =>
          SpansMeetRule(s, j);
          LaterSpans(s, Spans(s, j), i, n);
        case Some(end) =>
          SpansMeetRule(s, end);
          RunsDelimit(s, i, n, end);
          ConsSpan(s, Span(i, end), Spans(s, end), n);
      }
    }
  }

  lemma RunsDelimit(s: string, i: nat, n: nat, end: nat)
    requires TickRun(s, i, n) && i + n <= end - n && TickRun(s, end - n, n) && NoRun(s, i + n, end - n, n)
    ensures Delimits(s, Span(i, end), n)
  {
    SkipRun(s, i, n, end - n);
  }

  lemma NothingLeft(s: string, i: nat)
    requires i >= |s|
    ensures SpanList(s, [], i)
  {
  }

  lemma TextBefore(s: string, rest: seq<Span>, i: nat)
    requires i < |s| && s[i] != TICK && SpanList(s, rest, i + 1)
    ensures SpanList(s, rest, i)
  {
  }

  /** No run starts inside the run at lo. */
  lemma SkipRun(s: string, lo: nat, n: nat, hi: int)
    requires TickRun(s, lo, n) && NoRun(s, lo + n, hi, n)
    ensures NoRun(s, lo + 1, hi, n)
  {
  }

  lemma {:induction false} LaterSpans(s: string, rest: seq<Span>, lo: nat, n: nat)
    requires TickRun(s, lo, n) && NoRun(s, lo + n, |s|, n) && SpanList(s, rest, lo + n)
    ensures SpanList(s, rest, lo)
  {
    SkipRun(s, lo, n, |s|);
    forall a, m | lo <= a && TickRun(s, a, m) && !Inside(rest, a) ensures NoRun(s, a + 1, |s|, m) {
      if a < lo + n {
        RunsDisjoint(s, lo, n, a, m);
      }
    }
  }

  lemma {:induction false} ConsSpan(s: string, sp: Span, rest: seq<Span>, n: nat)
    requires Delimits(s, sp, n) && SpanList(s, rest, sp.end)
    ensures SpanList(s, [sp] + rest, sp.start)
  {
    assert CodeSpan(s, sp) && sp.end <= |s|;
    hide TickRun, NoRun, CodeSpan, Inside;
    ConsTextRuns(s, sp, rest);
  }

  lemma {:induction false} ConsTextRuns(s: string, sp: Span, rest: seq<Span>)
    requires TextRunsUnclosed(s, rest, sp.end)
    ensures TextRunsUnclosed(s, [sp] + rest, sp.start)
  {
    hide TickRun, NoRun;
    var spans := [sp] + rest;
    forall a, m | sp.start <= a && TickRun(s, a, m) && !Inside(spans, a) ensures NoRun(s, a + 1, |s|, m) {
      assert spans[0] == sp;
      assert !Inside(rest, a) by {
        assert forall j :: 0 <= j < |rest| ==> rest[j] == spans[j + 1];
      }
    }
  }

  // ---------------------------------------------------------------- the rule has one answer

  lemma {:induction false} SpanListUnique(s: string, x: seq<Span>, y: seq<Span>, lo: nat)
    requires Boundary(s, lo) && SpanList(s, x, lo) && SpanList(s, y, lo)
    ensures x == y
    decreases |s| - lo
  {
    hide SpanList, NoRun;
    if lo == |s| {
      NoSpanAt(s, x, lo);
      NoSpanAt(s, y, lo);
    } else if s[lo] != TICK {
      NoSpanAt(s, x, lo);
      NoSpanAt(s, y, lo);
      SpanListUnique(s, x, y, lo + 1);
    } else {
      var j := RunEnd(s, lo);
      var n := j - lo;
      assert TickRun(s, lo, n);
      match ClosingRun(s, j, n) {
        case None =>
          UnclosedRunIsText(s, x, lo, n);
          UnclosedRunIsText(s, y, lo, n);
          SpanListUnique(s, x, y, j);
        case Some(end) =>
          ClosedRunIsSpan(s, x, lo, n, end);
          ClosedRunIsSpan(s, y, lo, n, end);
          SpanListUnique(s, x[1..], y[1..], end);
          assert x == [x[0]] + x[1..] && y == [y[0]] + y[1..];
      }
    }
  }

  lemma {:induction false} NoSpanAt(s: string, x: seq<Span>, lo: nat)
    requires SpanList(s, x, lo) && lo <= |s| && (lo == |s| || s[lo] != TICK)
    ensures lo == |s| ==> x == []
    ensures lo < |s| ==> SpanList(s, x, lo + 1)
  {
    forall j | 0 <= j < |x| ensures lo < x[j].start < |s| {
      var n: nat :| Delimits(s, x[j], n);
    }
    if x != [] {
      assert lo < x[0].start < |s|;
    }
  }

  /** Two maximal runs that overlap are the same run. */
  lemma RunsDisjoint(s: string, a: int, n: int, b: int, m: int)
    requires TickRun(s, a, n) && TickRun(s, b, m) && a <= b < a + n
    ensures a == b && n == m
  {
  }

  lemma {:induction false} UnclosedRunIsText(s: string, x: seq<Span>, lo: nat, n: nat)
    requires SpanList(s, x, lo) && TickRun(s, lo, n) && NoRun(s, lo + n, |s|, n)
    ensures SpanList(s, x, lo + n)
  {
    forall i | 0 <= i < |x| ensures lo + n <= x[i].start {
      var m: nat :| Delimits(s, x[i], m);
      if x[i].start < lo + n {
        RunsDisjoint(s, lo, n, x[i].start, m);
        SkipRun(s, lo, n, |s|);
      }
    }
  }

  /** Where the run at lo closes, a list that meets the rule starts with the span it opens. */
  lemma {:induction false} ClosedRunIsSpan(s: string, x: seq<Span>, lo: nat, n: nat, end: nat)
    requires SpanList(s, x, lo) && TickRun(s, lo, n)
    requires lo + n <= end - n && TickRun(s, end - n, n) && NoRun(s, lo + n, end - n, n)
    ensures x != [] && x[0] == Span(lo, end)
    ensures SpanList(s, x[1..], end)
  {
    assert Inside(x, lo);
    var i :| 0 <= i < |x| && x[i].start <= lo < x[i].end;
    SpanOpenedBy(s, x[i], lo, n, end);
    NonEmptySpan(s, x[0]);
    TailOfSpanList(s, x, lo);
  }

  lemma NonEmptySpan(s: string, sp: Span)
    requires CodeSpan(s, sp)
    ensures sp.start < sp.end
  {
  }

  lemma {:induction false} SpanOpenedBy(s: string, sp: Span, lo: nat, n: nat, end: nat)
    requires CodeSpan(s, sp) && lo <= sp.start <= lo < sp.end && TickRun(s, lo, n)
    requires lo + n <= end - n && TickRun(s, end - n, n) && NoRun(s, lo + n, end - n, n)
    ensures sp == Span(lo, end)
  {
    var m: nat :| Delimits(s, sp, m);
    RunsDisjoint(s, lo, n, sp.start, m);
    SameClosing(s, lo, n, sp.end - n, end - n);
  }

  lemma {:induction false} TailOfSpanList(s: string, x: seq<Span>, lo: nat)
    requires SpanList(s, x, lo) && x != [] && lo <= x[0].end
    ensures SpanList(s, x[1..], x[0].end)
  {
    hide TickRun, NoRun, CodeSpan;
    var rest := x[1..];
    forall a, k | x[0].end <= a && TickRun(s, a, k) && !Inside(rest, a) ensures NoRun(s, a + 1, |s|, k) {
      assert !Inside(x, a) by {
        forall j | 0 <= j < |x| ensures !(x[j].start <= a < x[j].end) {
          if j > 0 { assert rest[j - 1] == x[j]; }
        }
      }
    }
  }

  /** The first run of length n after the run at lo is determined. */
  lemma SameClosing(s: string, lo: nat, n: nat, p: int, q: int)
    requires TickRun(s, lo, n) && TickRun(s, p, n) && TickRun(s, q, n)
    requires lo < p && NoRun(s, lo + 1, p, n)
    requires lo + n <= q && NoRun(s, lo + n, q, n)
    ensures p == q
  {
    if p < lo + n {
      RunsDisjoint(s, lo, n, p, n);
    }
  }
}
