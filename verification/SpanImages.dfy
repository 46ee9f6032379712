/**
Rewriting a text character by character without touching backticks moves its code spans and changes
nothing else about them. The rule of CodeSpans has one answer, so it is enough to show that the moved
spans meet it.
 */
module SpanImages {
  import opened Text
  import opened CodeSpans

  /** cells[k] is what s[k] becomes: itself, or something non-empty if it is no backtick. */
  ghost predicate Rewriting(s: string, cells: seq<string>) {
    && |cells| == |s|
    && forall k :: 0 <= k < |s| ==> cells[k] == [s[k]] || (s[k] != TICK && cells[k] != "" && TICK !in cells[k])
  }

  /** Where the character at k goes. */
  function Offset(cells: seq<string>, k: nat): nat
    requires k <= |cells|
  {
    |Concat(cells[..k])|
  }

  function Moved(cells: seq<string>, sp: Span): Span
    requires sp.start <= |cells| && sp.end <= |cells|
  {
    Span(Offset(cells, sp.start), Offset(cells, sp.end))
  }

  function Images(cells: seq<string>, spans: seq<Span>): (images: seq<Span>)
    requires forall j :: 0 <= j < |spans| ==> spans[j].start <= |cells| && spans[j].end <= |cells|
    ensures |images| == |spans| && forall j :: 0 <= j < |spans| ==> images[j] == Moved(cells, spans[j])
  {
    seq(|spans|, j requires 0 <= j < |spans| => Moved(cells, spans[j]))
  }

  // ---------------------------------------------------------------- offsets

  lemma OffsetNext(cells: seq<string>, k: nat)
    requires k < |cells|
    ensures Offset(cells, k + 1) == Offset(cells, k) + |cells[k]| <= |Concat(cells)|
    ensures Concat(cells)[Offset(cells, k)..Offset(cells, k + 1)] == cells[k]
  {
    assert cells[..k + 1] == cells[..k] + [cells[k]];
    ConcatAppend(cells[..k], [cells[k]]);
    assert Concat([cells[k]]) == cells[k] by {
      assert [cells[k]][1..] == [];
    }
    assert cells == cells[..k + 1] + cells[k + 1..];
    ConcatAppend(cells[..k + 1], cells[k + 1..]);
  }

  lemma OffsetEnds(cells: seq<string>)
    ensures Offset(cells, 0) == 0 && Offset(cells, |cells|) == |Concat(cells)|
  {
    assert cells[..|cells|] == cells;
  }

  lemma {:induction false} OffsetGrows(s: string, cells: seq<string>, a: nat, b: nat)
    requires Rewriting(s, cells) && a <= b <= |s|
    ensures Offset(cells, a) + (b - a) <= Offset(cells, b)
    decreases b - a
  {
    hide Offset;
    if a < b {
      OffsetNext(cells, a);
      OffsetGrows(s, cells, a + 1, b);
    }
  }

  lemma OffsetBound(s: string, cells: seq<string>, k: nat)
    requires Rewriting(s, cells) && k <= |s|
    ensures Offset(cells, k) <= |Concat(cells)|
  {
    OffsetGrows(s, cells, k, |s|);
    OffsetEnds(cells);
  }

  /** The character that position p of the rewritten text comes from. */
  lemma {:induction false} Locate(s: string, cells: seq<string>, p: nat, lo: nat) returns (k: nat)
    requires Rewriting(s, cells) && lo <= |s| && Offset(cells, lo) <= p < |Concat(cells)|
    ensures lo <= k < |s| && Offset(cells, k) <= p < Offset(cells, k + 1)
    decreases |s| - lo
  {
    hide Offset, Concat;
    OffsetEnds(cells);
    OffsetNext(cells, lo);
    if p < Offset(cells, lo + 1) {
      k := lo;
    } else {
      k := Locate(s, cells, p, lo + 1);
    }
  }

  /** A backtick is copied, and nothing else becomes one. */
  lemma CellTicks(s: string, cells: seq<string>, k: nat)
    requires Rewriting(s, cells) && k < |s|
    ensures Offset(cells, k) < Offset(cells, k + 1) <= |Concat(cells)|
    ensures s[k] == TICK ==> Concat(cells)[Offset(cells, k)] == TICK && Offset(cells, k + 1) == Offset(cells, k) + 1
    ensures s[k] != TICK ==> forall p :: Offset(cells, k) <= p < Offset(cells, k + 1) ==> Concat(cells)[p] != TICK
  {
    OffsetNext(cells, k);
    hide Offset, Concat;
    var t := Concat(cells);
    var o := Offset(cells, k);
    assert t[o..o + |cells[k]|] == cells[k];
    assert forall p :: o <= p < o + |cells[k]| ==> t[p] == cells[k][p - o];
  }

  // ---------------------------------------------------------------- runs

  lemma {:induction false} OffsetOfTicks(s: string, cells: seq<string>, a: nat, n: nat)
    requires Rewriting(s, cells) && a + n <= |s| && forall k :: a <= k < a + n ==> s[k] == TICK
    ensures Offset(cells, a + n) == Offset(cells, a) + n <= |Concat(cells)|
    ensures forall p :: Offset(cells, a) <= p < Offset(cells, a) + n ==> Concat(cells)[p] == TICK
  {
    OffsetBound(s, cells, a + n);
    hide Offset, Concat;
    if n > 0 {
      OffsetOfTicks(s, cells, a, n - 1);
      CellTicks(s, cells, a + n - 1);
    }
  }

  lemma {:induction false} RunMoves(s: string, cells: seq<string>, a: int, n: int)
    requires Rewriting(s, cells) && TickRun(s, a, n)
    ensures TickRun(Concat(cells), Offset(cells, a), n)
    ensures Offset(cells, a + n) == Offset(cells, a) + n
  {
    OffsetOfTicks(s, cells, a, n);
    OffsetEnds(cells);
    if a > 0 { CellTicks(s, cells, a - 1); }
    if a + n < |s| { CellTicks(s, cells, a + n); }
  }

  lemma {:induction false} TicksComeFromTicks(s: string, cells: seq<string>, a: nat, n: nat)
    requires Rewriting(s, cells) && a <= |s| && Offset(cells, a) + n <= |Concat(cells)|
    requires forall p :: Offset(cells, a) <= p < Offset(cells, a) + n ==> Concat(cells)[p] == TICK
    ensures a + n <= |s| && forall k :: a <= k < a + n ==> s[k] == TICK
    ensures Offset(cells, a + n) == Offset(cells, a) + n
  {
    OffsetEnds(cells);
    hide Offset, Concat;
    if n > 0 {
      TicksComeFromTicks(s, cells, a, n - 1);
      assert Concat(cells)[Offset(cells, a + n - 1)] == TICK;
      CellTicks(s, cells, a + n - 1);
    }
  }

  lemma {:induction false} RunComesFrom(s: string, cells: seq<string>, p: int, n: int) returns (a: nat)
    requires Rewriting(s, cells) && TickRun(Concat(cells), p, n)
    ensures TickRun(s, a, n) && p == Offset(cells, a)
  {
    OffsetEnds(cells);
    hide Offset, Concat;
    a := Locate(s, cells, p, 0);
    CellTicks(s, cells, a);
    assert Concat(cells)[p] == TICK;
    TicksComeFromTicks(s, cells, a, n);
    if a > 0 { CellTicks(s, cells, a - 1); }
    if a + n < |s| { CellTicks(s, cells, a + n); }
  }

  // ---------------------------------------------------------------- spans

  lemma {:induction false} SpanMoves(s: string, cells: seq<string>, sp: Span, n: nat)
    requires Rewriting(s, cells) && Delimits(s, sp, n) && sp.end <= |s|
    ensures Delimits(Concat(cells), Moved(cells, sp), n)
  {
    RunMoves(s, cells, sp.start, n);
    RunMoves(s, cells, sp.end - n, n);
    OffsetGrows(s, cells, sp.start, sp.end - n);
    hide Offset, Concat, TickRun;
    var t, im := Concat(cells), Moved(cells, sp);
    forall p | im.start + 1 <= p < im.end - n ensures !TickRun(t, p, n) {
      if TickRun(t, p, n) {
        var a := RunComesFrom(s, cells, p, n);
        OffsetOrder(s, cells, sp.start, a);
        OffsetOrder(s, cells, a, sp.end - n);
      }
    }
  }

  lemma OffsetOrder(s: string, cells: seq<string>, a: nat, b: nat)
    requires Rewriting(s, cells) && a <= |s| && b <= |s|
    ensures a < b <==> Offset(cells, a) < Offset(cells, b)
  {
    hide Offset;
    if a < b {
      OffsetGrows(s, cells, a, b);
    } else {
      OffsetGrows(s, cells, b, a);
    }
  }

  lemma {:induction false} TextRunsMove(s: string, cells: seq<string>, spans: seq<Span>)
    requires Rewriting(s, cells) && Ordered(spans, 0, |s|) && TextRunsUnclosed(s, spans, 0)
    ensures TextRunsUnclosed(Concat(cells), Images(cells, spans), 0)
  {
    hide Offset, Concat, TickRun;
    var t, images := Concat(cells), Images(cells, spans);
    forall p, n | 0 <= p && TickRun(t, p, n) && !Inside(images, p) ensures NoRun(t, p + 1, |t|, n) {
      var a := RunComesFrom(s, cells, p, n);
      RunInBounds(s, a, n);
      forall j | 0 <= j < |spans| ensures !(spans[j].start <= a < spans[j].end) {
        OffsetOrder(s, cells, a, spans[j].start);
        OffsetOrder(s, cells, a, spans[j].end);
        assert images[j] == Moved(cells, spans[j]);
      }
      NoLaterRun(s, cells, a, n);
    }
  }

  lemma RunInBounds(s: string, a: int, n: int)
    requires TickRun(s, a, n)
    ensures 0 <= a < a + n <= |s|
  {
  }

  lemma {:induction false} NoLaterRun(s: string, cells: seq<string>, a: nat, n: int)
    requires Rewriting(s, cells) && a < |s| && NoRun(s, a + 1, |s|, n)
    ensures NoRun(Concat(cells), Offset(cells, a) + 1, |Concat(cells)|, n)
  {
    hide Offset, Concat, TickRun;
    var t := Concat(cells);
    forall q | Offset(cells, a) + 1 <= q < |t| ensures !TickRun(t, q, n) {
      if TickRun(t, q, n) {
        var b := RunComesFrom(s, cells, q, n);
        RunInBounds(s, b, n);
        OffsetOrder(s, cells, a, b);
      }
    }
  }

  /** The code spans of the rewritten text are the moved code spans of the text. */
  lemma {:induction false} SpansMove(s: string, cells: seq<string>)
    requires Rewriting(s, cells)
    ensures SpanList(s, Spans(s, 0), 0)
    ensures Spans(Concat(cells), 0) == Images(cells, Spans(s, 0))
  {
    SpansMeetRule(s, 0);
    var t, spans := Concat(cells), Spans(s, 0);
    ImagesMeetRule(s, cells, spans);
    OnlySpanList(t);
  }

  lemma {:induction false} ImagesMeetRule(s: string, cells: seq<string>, spans: seq<Span>)
    requires Rewriting(s, cells) && SpanList(s, spans, 0)
    ensures SpanList(Concat(cells), Images(cells, spans), 0)
  {
    hide Offset, Concat, TickRun, NoRun;
    var t, images := Concat(cells), Images(cells, spans);
    TextRunsMove(s, cells, spans);
    forall j | 0 <= j < |spans|
      ensures CodeSpan(t, images[j]) && images[j].start <= images[j].end <= |t|
    {
      var n: nat :| Delimits(s, spans[j], n);
      SpanMoves(s, cells, spans[j], n);
      OffsetGrows(s, cells, spans[j].start, spans[j].end);
      OffsetBound(s, cells, spans[j].end);
    }
    forall i, j | 0 <= i < j < |spans| ensures images[i].end <= images[j].start {
      OffsetGrows(s, cells, spans[i].end, spans[j].start);
    }
  }
}
