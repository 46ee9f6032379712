/**
The hint escaper of errors/builder.go: `<` and `>` become entities outside code spans. Escaping keeps
the span structure, leaves no raw bracket outside the spans, is idempotent, and can be undone on
exactly the hints that had no entity outside their spans.
 */
module HintEscaping {
  import opened Text
  import opened CodeSpans
  import opened SpanImages

  const LT := "&lt;"
  const GT := "&gt;"

  // ---------------------------------------------------------------- escaping one stretch of text

  /** strings.ReplaceAll for a one-character pattern. */
  function ReplaceAll(s: string, c: char, with: string): string {
    if s == "" then "" else (if s[0] == c then with else [s[0]]) + ReplaceAll(s[1..], c, with)
  }

  function EscapeAngleBrackets(s: string): string {
    ReplaceAll(ReplaceAll(s, '<', LT), '>', GT)
  }

  function Entity(c: char): string {
    if c == '<' then LT else if c == '>' then GT else [c]
  }

  /** Each bracket replaced on its own, in one pass. */
  function Entities(s: string): string {
    if s == "" then "" else Entity(s[0]) + Entities(s[1..])
  }

  lemma {:induction false} ReplaceAllAppend(a: string, b: string, c: char, with: string)
    ensures ReplaceAll(a + b, c, with) == ReplaceAll(a, c, with) + ReplaceAll(b, c, with)
  {
    if a == "" {
      assert a + b == b;
    } else {
      var all := a + b;
      assert all[1..] == a[1..] + b;
      ReplaceAllAppend(a[1..], b, c, with);
      Reassociate(if a[0] == c then with else [a[0]], ReplaceAll(a[1..], c, with), ReplaceAll(b, c, with));
    }
  }

  lemma Reassociate(a: string, b: string, c: string)
    ensures (a + b) + c == a + (b + c)
  {
  }

  /** The second replacement does not see the entities the first one wrote. */
  lemma {:induction false} TwoPassesAreOne(s: string)
    ensures EscapeAngleBrackets(s) == Entities(s)
  {
    if s != "" {
      TwoPassesAreOne(s[1..]);
      var head := if s[0] == '<' then LT else [s[0]];
      ReplaceAllAppend(head, ReplaceAll(s[1..], '<', LT), '>', GT);
      assert ReplaceAll([s[0]], '>', GT) == if s[0] == '>' then GT else [s[0]] by {
        assert [s[0]][1..] == "";
      }
      assert ReplaceAll(LT, '>', GT) == LT by {
        assert LT[1..] == "lt;" && "lt;"[1..] == "t;" && "t;"[1..] == ";" && ";"[1..] == "";
      }
    }
  }

  lemma {:induction false} EntitiesAppend(a: string, b: string)
    ensures Entities(a + b) == Entities(a) + Entities(b)
  {
    if a == "" {
      assert a + b == b;
    } else {
      var all := a + b;
      assert all[0] == a[0] && all[1..] == a[1..] + b;
      EntitiesAppend(a[1..], b);
      Reassociate(Entity(a[0]), Entities(a[1..]), Entities(b));
    }
  }

  /** What the replacements write for a bracket, and that they copy every other character. */
  lemma {:induction false} EachBracketReplaced(a: string, c: char, b: string)
    ensures EscapeAngleBrackets("") == ""
    ensures EscapeAngleBrackets(a + "<" + b) == EscapeAngleBrackets(a) + "&lt;" + EscapeAngleBrackets(b)
    ensures EscapeAngleBrackets(a + ">" + b) == EscapeAngleBrackets(a) + "&gt;" + EscapeAngleBrackets(b)
    ensures c !in "<>" ==> EscapeAngleBrackets(a + [c] + b) == EscapeAngleBrackets(a) + [c] + EscapeAngleBrackets(b)
  {
    hide EscapeAngleBrackets, Entities;
    TwoPassesAreOne("");
    TwoPassesAreOne(a);
    TwoPassesAreOne(b);
    OneEntity('<');
    OneEntity(c);
    OneEntity('>');
    forall d | d in ['<', '>', c]
      ensures EscapeAngleBrackets(a + [d] + b) == EscapeAngleBrackets(a) + Entity(d) + EscapeAngleBrackets(b)
    {
      TwoPassesAreOne(a + [d] + b);
      EntitiesAppend(a + [d], b);
      EntitiesAppend(a, [d]);
      OneEntity(d);
    }
    assert ['<', '>', c][0] == '<' && ['<', '>', c][1] == '>' && ['<', '>', c][2] == c;
  }

  lemma OneEntity(c: char)
    ensures Entities([c]) == Entity(c) && Entities("") == ""
    ensures Entity('<') == "&lt;" && Entity('>') == "&gt;" && (c !in "<>" ==> Entity(c) == [c])
  {
    assert [c][1..] == "";
    assert Entity(c) + "" == Entity(c);
  }

  // ---------------------------------------------------------------- the escaper

  predicate Exempt(hint: string) {
    "EXAMPLE:" <= hint || "TITLE:" <= hint
  }

  /** Offset last lies between span j - 1 and span j. */
  predicate Between(s: string, spans: seq<Span>, j: nat, last: nat) {
    && Ordered(spans, 0, |s|)
    && j <= |spans|
    && last <= (if j < |spans| then spans[j].start else |s|)
    && (forall i :: 0 <= i < j ==> spans[i].end <= last)
  }

  /** s from offset last on, with the text between the spans escaped and the spans copied. */
  function EscapeOutside(s: string, spans: seq<Span>, j: nat, last: nat): string
    requires Between(s, spans, j, last)
    decreases |spans| - j
  {
    if j == |spans| then Entities(s[last..])
    else
      var sp := spans[j];
      Entities(s[last..sp.start]) + s[sp.start..sp.end] + EscapeOutside(s, spans, j + 1, sp.end)
  }

  function Escape(hint: string): string {
    if Exempt(hint) then hint
    else
      SpansOrdered(hint);
      EscapeOutside(hint, Spans(hint, 0), 0, 0)
  }

  lemma SpansOrdered(s: string)
    ensures Between(s, Spans(s, 0), 0, 0)
  {
    SpansMeetRule(s, 0);
  }

  method EscapeHintAngleBrackets(hint: string) returns (escaped: string)
    ensures escaped == Escape(hint)
  {
    hide SpanList, Ordered, Entities, EscapeAngleBrackets;
    if Exempt(hint) {
      return hint;
    }
    SpansOrdered(hint);
    var b := "";
    var last: nat := 0;
    var spans := CodeSpanRanges(hint);
    for j := 0 to |spans|
      invariant Between(hint, spans, j, last)
      invariant b + EscapeOutside(hint, spans, j, last) == EscapeOutside(hint, spans, 0, 0)
    {
      var span := spans[j];
      NextBetween(hint, spans, j, last);
      TwoPassesAreOne(hint[last..span.start]);
      Regroup(b, Entities(hint[last..span.start]), hint[span.start..span.end],
          EscapeOutside(hint, spans, j + 1, span.end));
      b := b + EscapeAngleBrackets(hint[last..span.start]);
      b := b + hint[span.start..span.end];
      last := span.end;
    }
    TwoPassesAreOne(hint[last..]);
    b := b + EscapeAngleBrackets(hint[last..]);
    return b;
  }

  lemma Regroup(a: string, b: string, c: string, d: string)
    ensures a + (b + c + d) == a + b + c + d
  {
  }

  lemma NextBetween(s: string, spans: seq<Span>, j: nat, last: nat)
    requires Between(s, spans, j, last) && j < |spans|
    ensures last <= spans[j].start <= spans[j].end <= |s|
    ensures Between(s, spans, j + 1, spans[j].end)
  {
  }

  // ---------------------------------------------------------------- character by character

  /** What each character of s becomes. */
  function Cells(s: string, spans: seq<Span>): (cells: seq<string>)
    ensures |cells| == |s|
    ensures forall k :: 0 <= k < |s| ==> cells[k] == if Inside(spans, k) then [s[k]] else Entity(s[k])
  {
    seq(|s|, k requires 0 <= k < |s| => if Inside(spans, k) then [s[k]] else Entity(s[k]))
  }

  lemma {:induction false} CopiedCells(s: string, cells: seq<string>)
    requires |cells| == |s| && forall k :: 0 <= k < |s| ==> cells[k] == [s[k]]
    ensures Concat(cells) == s
  {
    if s != "" {
      CopiedCells(s[1..], cells[1..]);
      assert s == [s[0]] + s[1..];
    }
  }

  lemma {:induction false} EscapedCells(s: string, cells: seq<string>)
    requires |cells| == |s| && forall k :: 0 <= k < |s| ==> cells[k] == Entity(s[k])
    ensures Concat(cells) == Entities(s)
  {
    if s != "" {
      EscapedCells(s[1..], cells[1..]);
    }
  }

  lemma CellsOfGap(s: string, spans: seq<Span>, j: nat, last: nat)
    requires Between(s, spans, j, last)
    ensures j <= |spans| && last <= |s|
    ensures forall k :: last <= k < (if j < |spans| then spans[j].start else |s|) ==> !Inside(spans, k)
    ensures j < |spans| ==> forall k :: spans[j].start <= k < spans[j].end ==> Inside(spans, k)
  {
  }

  lemma {:induction false} EscapeOutsideIsCells(s: string, spans: seq<Span>, j: nat, last: nat)
    requires Between(s, spans, j, last)
    ensures EscapeOutside(s, spans, j, last) == Concat(Cells(s, spans)[last..])
    decreases |spans| - j
  {
    hide Inside, Ordered, Between, Concat, Entities, Entity;
    var cells := Cells(s, spans);
    CellsOfGap(s, spans, j, last);
    if j == |spans| {
      EscapedCells(s[last..], cells[last..]);
    } else {
      var sp := spans[j];
      NextBetween(s, spans, j, last);
      EscapeOutsideIsCells(s, spans, j + 1, sp.end);
      hide Inside, Ordered, Entities, Concat, Entity;
      EscapedCells(s[last..sp.start], cells[last..sp.start]);
      CopiedCells(s[sp.start..sp.end], cells[sp.start..sp.end]);
      ConcatSlices(cells, last, sp.start, sp.end);
    }
  }

  lemma ConcatSlices(cells: seq<string>, a: nat, b: nat, c: nat)
    requires a <= b <= c <= |cells|
    ensures Concat(cells[a..]) == Concat(cells[a..b]) + Concat(cells[b..c]) + Concat(cells[c..])
  {
    hide Concat;
    assert cells[b..] == cells[b..c] + cells[c..];
    ConcatAppend(cells[b..c], cells[c..]);
    assert cells[a..] == cells[a..b] + cells[b..];
    ConcatAppend(cells[a..b], cells[b..]);
    Reassociate(Concat(cells[a..b]), Concat(cells[b..c]), Concat(cells[c..]));
  }

  function CellsOf(hint: string): seq<string> {
    Cells(hint, Spans(hint, 0))
  }

  lemma EscapeIsRewriting(hint: string)
    requires !Exempt(hint)
    ensures Rewriting(hint, CellsOf(hint))
    ensures Escape(hint) == Concat(CellsOf(hint))
  {
    SpansOrdered(hint);
    EscapeOutsideIsCells(hint, Spans(hint, 0), 0, 0);
    InsideTicks(hint);
  }

  /** An entity never stands where a backtick stood. */
  lemma InsideTicks(hint: string)
    ensures Rewriting(hint, CellsOf(hint))
  {
    hide Inside;
  }

  // ---------------------------------------------------------------- what escaping keeps

  /** No `<` and no `>` is left outside the spans. */
  ghost predicate NoRawBracket(s: string) {
    forall p :: 0 <= p < |s| && s[p] in "<>" ==> Inside(Spans(s, 0), p)
  }

  lemma {:induction false} SliceOfConcat(cells: seq<string>, a: nat, b: nat)
    requires a <= b <= |cells|
    ensures Offset(cells, a) <= Offset(cells, b) <= |Concat(cells)|
    ensures Concat(cells)[Offset(cells, a)..Offset(cells, b)] == Concat(cells[a..b])
  {
    assert cells == cells[..b] + cells[b..];
    ConcatAppend(cells[..b], cells[b..]);
    assert cells[..b] == cells[..a] + cells[a..b];
    ConcatAppend(cells[..a], cells[a..b]);
  }

  /** The spans of the escaped hint are the moved spans of the hint, copied character by character. */
  lemma {:induction false} EscapeKeepsSpans(hint: string)
    requires !Exempt(hint)
    ensures var escaped, spans, moved := Escape(hint), Spans(hint, 0), Spans(Escape(hint), 0);
            && |moved| == |spans|
            && Ordered(spans, 0, |hint|) && Ordered(moved, 0, |escaped|)
            && (forall j :: 0 <= j < |spans| ==> moved[j] == Moved(CellsOf(hint), spans[j]))
            && forall j :: 0 <= j < |spans| ==>
                 escaped[moved[j].start..moved[j].end] == hint[spans[j].start..spans[j].end]
  {
    var cells := CellsOf(hint);
    EscapeIsRewriting(hint);
    SpansMove(hint, cells);
    SpansOrdered(hint);
    SpansOrdered(Escape(hint));
    hide SpanList, Rewriting, Escape, Cells, CellsOf;
    var spans, moved := Spans(hint, 0), Spans(Escape(hint), 0);
    forall j | 0 <= j < |spans|
      ensures moved[j] == Moved(cells, spans[j])
      ensures Escape(hint)[moved[j].start..moved[j].end] == hint[spans[j].start..spans[j].end]
    {
      SpanCopied(hint, spans, j);
    }
  }

  lemma {:induction false} SpanCopied(hint: string, spans: seq<Span>, j: nat)
    requires Ordered(spans, 0, |hint|) && j < |spans|
    ensures var cells, im := Cells(hint, spans), Moved(Cells(hint, spans), spans[j]);
            && im.start <= im.end <= |Concat(cells)|
            && Concat(cells)[im.start..im.end] == hint[spans[j].start..spans[j].end]
  {
    var cells, sp := Cells(hint, spans), spans[j];
    assert forall k :: sp.start <= k < sp.end ==> Inside(spans, k);
    SliceOfConcat(cells, sp.start, sp.end);
    CopiedCells(hint[sp.start..sp.end], cells[sp.start..sp.end]);
  }

  lemma {:induction false} EscapeLeavesNoRawBracket(hint: string)
    requires !Exempt(hint)
    ensures NoRawBracket(Escape(hint))
  {
    hide Escape, Exempt, Spans, SpanList, Concat, Offset, Images, CellsOf, Inside, Rewriting;
    var cells, t := CellsOf(hint), Escape(hint);
    EscapeIsRewriting(hint);
    SpansMove(hint, cells);
    OffsetEnds(cells);
    forall p | 0 <= p < |t| && t[p] in "<>" ensures Inside(Spans(t, 0), p) {
      var k := Locate(hint, cells, p, 0);
      OffsetBound(hint, cells, k + 1);
      BracketIsInside(hint, k, p);
    }
  }

  lemma {:induction false} BracketIsInside(hint: string, k: nat, p: nat)
    requires Rewriting(hint, CellsOf(hint)) && SpanList(hint, Spans(hint, 0), 0)
    requires k < |hint| && Offset(CellsOf(hint), k) <= p < Offset(CellsOf(hint), k + 1) <= |Concat(CellsOf(hint))|
    requires Concat(CellsOf(hint))[p] in "<>"
    ensures Inside(Images(CellsOf(hint), Spans(hint, 0)), p)
  {
    hide Spans, Concat, Offset, Images, Inside, Rewriting;
    var cells, spans := CellsOf(hint), Spans(hint, 0);
    OffsetNext(cells, k);
    InSlice(Concat(cells), Offset(cells, k), Offset(cells, k + 1), p);
    RawOnlyInside(hint, spans, k, p - Offset(cells, k));
    MovedInside(hint, cells, spans, k, p);
  }

  lemma InSlice(t: string, a: nat, b: nat, p: nat)
    requires a <= p < b <= |t|
    ensures t[p] == t[a..b][p - a]
  {
  }

  lemma RawOnlyInside(s: string, spans: seq<Span>, k: nat, i: nat)
    requires k < |s| && i < |Cells(s, spans)[k]| && Cells(s, spans)[k][i] in "<>"
    ensures Inside(spans, k)
  {
    hide Inside;
  }

  lemma {:induction false} MovedInside(hint: string, cells: seq<string>, spans: seq<Span>, k: nat, p: nat)
    requires Rewriting(hint, cells) && Ordered(spans, 0, |hint|)
    requires k < |hint| && Offset(cells, k) <= p < Offset(cells, k + 1) && Inside(spans, k)
    ensures Inside(Images(cells, spans), p)
  {
    assert |cells| == |hint|;
    hide Offset, Rewriting;
    var j :| 0 <= j < |spans| && spans[j].start <= k < spans[j].end;
    OffsetGrows(hint, cells, spans[j].start, k);
    OffsetGrows(hint, cells, k + 1, spans[j].end);
    assert Images(cells, spans)[j] == Moved(cells, spans[j]);
  }

  /**
  What the escaper writes, character by character: in an exempt hint and inside the spans the character
  itself, outside them `&lt;` for `<` and `&gt;` for `>`. The offset is where the character goes.
   */
  lemma {:induction false} EscapeWrites(hint: string, k: nat)
    requires k < |hint|
    ensures "EXAMPLE:" <= hint || "TITLE:" <= hint ==> Escape(hint) == hint
    ensures !("EXAMPLE:" <= hint || "TITLE:" <= hint) ==>
              var from, to := Offset(CellsOf(hint), k), Offset(CellsOf(hint), k + 1);
              && Offset(CellsOf(hint), 0) == 0 && from <= to <= |Escape(hint)| == Offset(CellsOf(hint), |hint|)
              && Escape(hint)[from..to] ==
                   if Inside(Spans(hint, 0), k) then [hint[k]]
                   else if hint[k] == '<' then "&lt;"
                   else if hint[k] == '>' then "&gt;"
                   else [hint[k]]
  {
    if !Exempt(hint) {
      var cells := CellsOf(hint);
      EscapeIsRewriting(hint);
      OneEntity(hint[k]);
      hide Escape, Offset, Spans, Inside, Rewriting, Concat;
      OffsetNext(cells, k);
      OffsetEnds(cells);
    }
  }

  /** A hint is left alone exactly when it is exempt or has no raw bracket outside its spans. */
  lemma {:induction false} EscapeFixes(hint: string)
    ensures Escape(hint) == hint <==> Exempt(hint) || NoRawBracket(hint)
  {
    if !Exempt(hint) {
      var cells := CellsOf(hint);
      EscapeIsRewriting(hint);
      if NoRawBracket(hint) {
        CopiedCells(hint, cells);
      } else {
        EscapeLeavesNoRawBracket(hint);
      }
    }
  }

  /** Escaping twice is escaping once, so a hint taken from a cause keeps its text at every layer. */
  lemma {:induction false} EscapeIdempotent(hint: string)
    ensures Escape(Escape(hint)) == Escape(hint)
  {
    if !Exempt(hint) {
      EscapeLeavesNoRawBracket(hint);
      EscapeFixes(Escape(hint));
    }
  }

  // ---------------------------------------------------------------- undoing it

  predicate EntityAt(s: string) {
    LT <= s || GT <= s
  }

  /** The entities of s turned back into brackets. */
  function Decode(s: string): string {
    if s == "" then ""
    else if LT <= s then "<" + Decode(s[4..])
    else if GT <= s then ">" + Decode(s[4..])
    else [s[0]] + Decode(s[1..])
  }

  predicate HasEntity(s: string) {
    exists k :: 0 <= k < |s| && EntityAt(s[k..])
  }

  lemma {:induction false} DecodeChanges(s: string)
    ensures |Decode(s)| <= |s|
    ensures |Decode(s)| < |s| <==> HasEntity(s)
    ensures Decode(s) == s <==> !HasEntity(s)
  {
    if s != "" {
      assert s[0..] == s;
      if EntityAt(s) {
        DecodeChanges(s[4..]);
      } else {
        DecodeChanges(s[1..]);
        assert HasEntity(s) <==> HasEntity(s[1..]) by {
          assert forall k :: 1 <= k < |s| ==> s[k..] == s[1..][k - 1..];
          if HasEntity(s) {
            var k :| 0 <= k < |s| && EntityAt(s[k..]);
            assert EntityAt(s[1..][k - 1..]);
          }
          if HasEntity(s[1..]) {
            var k :| 0 <= k < |s[1..]| && EntityAt(s[1..][k..]);
            assert s[1..][k..] == s[k + 1..];
          }
        }
      }
    }
  }

  /** A prefix without `&` comes from characters that were copied. */
  lemma {:induction false} PrefixIsOld(prefix: string, s: string, cells: seq<string>)
    requires |cells| == |s| && '&' !in prefix && prefix <= Concat(cells)
    requires forall k :: 0 <= k < |s| ==> cells[k] == [s[k]] || (cells[k] != "" && cells[k][0] == '&')
    ensures prefix <= s
  {
    if prefix != "" {
      var t := Concat(cells);
      assert t == cells[0] + Concat(cells[1..]);
      assert prefix[0] == t[0];
      assert t[1..] == Concat(cells[1..]);
      assert prefix[1..] <= t[1..] by {
        assert prefix == t[..|prefix|];
      }
      PrefixIsOld(prefix[1..], s[1..], cells[1..]);
      assert prefix == [prefix[0]] + prefix[1..] && s == [s[0]] + s[1..];
    }
  }

  lemma {:induction false} DecodeOfEntities(s: string)
    ensures Decode(Entities(s)) == Decode(s)
  {
    if s != "" {
      var t := Entities(s);
      if s[0] == '<' || s[0] == '>' {
        DecodeOfEntities(s[1..]);
        assert t == Entity(s[0]) + Entities(s[1..]);
        assert t[4..] == Entities(s[1..]) && t[1] == Entity(s[0])[1];
      } else if EntityAt(s) {
        DecodeOfEntities(s[4..]);
        EntityCopied(s);
      } else {
        DecodeOfEntities(s[1..]);
        assert t[0] == s[0] && t[1..] == Entities(s[1..]);
        if EntityAt(t) {
          NoNewEntity(s);
        }
      }
    }
  }

  lemma EntityCopied(s: string)
    requires EntityAt(s)
    ensures Entities(s) == s[..4] + Entities(s[4..])
  {
    assert s[1..][1..] == s[2..] && s[2..][1..] == s[3..] && s[3..][1..] == s[4..];
    assert Entities(s[3..]) == [s[3]] + Entities(s[4..]);
    assert Entities(s[2..]) == [s[2]] + Entities(s[3..]);
    assert Entities(s[1..]) == [s[1]] + Entities(s[2..]);
  }

  lemma FirstCopied(s: string)
    requires s != "" && s[0] != '<' && s[0] != '>'
    ensures Entities(s) != "" && Entities(s)[0] == s[0] && Entities(s)[1..] == Entities(s[1..])
  {
  }

  lemma EntityTail(t: string, tail: string)
    requires "&" + tail <= t
    ensures t[0] == '&' && tail <= t[1..]
  {
  }

  /** An entity at the start of the escaped text was there, or a bracket was. */
  lemma {:induction false} NoNewEntity(s: string)
    requires s != "" && s[0] != '<' && s[0] != '>' && EntityAt(Entities(s))
    ensures EntityAt(s)
  {
    hide Entities, Concat;
    var rest := s[1..];
    FirstCopied(s);
    var tail := if LT <= Entities(s) then "lt;" else "gt;";
    EntityTail(Entities(s), tail);
    var cells := seq(|rest|, k requires 0 <= k < |rest| => Entity(rest[k]));
    EscapedCells(rest, cells);
    PrefixIsOld(tail, rest, cells);
    assert s[..4] == "&" + tail by {
      assert s == [s[0]] + rest && rest[..3] == tail;
    }
  }

  /** Text between spans with its entities turned back into brackets, the spans copied. */
  function DecodeOutside(s: string, spans: seq<Span>, j: nat, last: nat): string
    requires Between(s, spans, j, last)
    decreases |spans| - j
  {
    if j == |spans| then Decode(s[last..])
    else
      var sp := spans[j];
      Decode(s[last..sp.start]) + s[sp.start..sp.end] + DecodeOutside(s, spans, j + 1, sp.end)
  }

  function Unescape(hint: string): string {
    if Exempt(hint) then hint
    else
      SpansOrdered(hint);
      DecodeOutside(hint, Spans(hint, 0), 0, 0)
  }

  /** The text that runs up to span j, or to the end after the last span. */
  function Gap(s: string, spans: seq<Span>, j: nat): string
    requires Ordered(spans, 0, |s|) && j <= |spans|
  {
    s[GapStart(spans, j)..GapEnd(s, spans, j)]
  }

  function GapStart(spans: seq<Span>, j: nat): nat
    requires j <= |spans|
  {
    if j == 0 then 0 else spans[j - 1].end
  }

  function GapEnd(s: string, spans: seq<Span>, j: nat): nat
    requires j <= |spans|
  {
    if j < |spans| then spans[j].start else |s|
  }

  /** No `&lt;` and no `&gt;` stands between the spans. */
  ghost predicate NoEntityOutside(s: string)
  {
    SpansOrdered(s);
    forall j :: 0 <= j <= |Spans(s, 0)| ==> !HasEntity(Gap(s, Spans(s, 0), j))
  }

  lemma EscapeKeepsExemption(hint: string)
    ensures Exempt(Escape(hint)) <==> Exempt(hint)
  {
    hide Escape;
    if Exempt(hint) {
      ExemptUnchanged(hint);
    } else {
      if "EXAMPLE:" <= Escape(hint) {
        PrefixOfHint("EXAMPLE:", hint);
      }
      if "TITLE:" <= Escape(hint) {
        PrefixOfHint("TITLE:", hint);
      }
    }
  }

  lemma ExemptUnchanged(hint: string)
    requires Exempt(hint)
    ensures Escape(hint) == hint
  {
  }

  lemma PrefixOfHint(prefix: string, hint: string)
    requires !Exempt(hint) && '&' !in prefix && prefix <= Escape(hint)
    ensures prefix <= hint
  {
    hide Exempt, Escape, Concat, Spans, Inside;
    EscapeIsRewriting(hint);
    PrefixIsOld(prefix, hint, CellsOf(hint));
  }

  lemma {:induction false} MovedGap(hint: string, j: nat)
    requires !Exempt(hint) && j <= |Spans(hint, 0)|
    ensures var spans, escaped, moved := Spans(hint, 0), Escape(hint), Spans(Escape(hint), 0);
            && |moved| == |spans| && Ordered(spans, 0, |hint|) && Ordered(moved, 0, |escaped|)
            && Gap(escaped, moved, j) == Entities(Gap(hint, spans, j))
  {
    hide Entities, Offset, Exempt, Escape, Concat, Spans;
    var spans, moved, cells := Spans(hint, 0), Spans(Escape(hint), 0), CellsOf(hint);
    EscapeKeepsSpans(hint);
    EscapeIsRewriting(hint);
    OffsetEnds(cells);
    var a, b := GapStart(spans, j), GapEnd(hint, spans, j);
    assert GapStart(moved, j) == Offset(cells, a) && GapEnd(Escape(hint), moved, j) == Offset(cells, b);
    hide Moved;
    GapCells(hint, spans, j, a, b);
    SliceOfConcat(cells, a, b);
    EscapedCells(hint[a..b], cells[a..b]);
  }

  lemma GapCells(hint: string, spans: seq<Span>, j: nat, a: nat, b: nat)
    requires Ordered(spans, 0, |hint|) && j <= |spans| && a == GapStart(spans, j) && b == GapEnd(hint, spans, j)
    ensures forall k :: a <= k < b ==> !Inside(spans, k)
  {
  }

  /** t has the spans of s, and between them the escaped text of s. */
  ghost predicate EscapedGaps(s: string, spans: seq<Span>, t: string, moved: seq<Span>) {
    && |moved| == |spans| && Ordered(spans, 0, |s|) && Ordered(moved, 0, |t|)
    && (forall j :: 0 <= j <= |spans| ==> Gap(t, moved, j) == Entities(Gap(s, spans, j)))
    && forall j :: 0 <= j < |spans| ==> t[moved[j].start..moved[j].end] == s[spans[j].start..spans[j].end]
  }

  lemma {:induction false} DecodeOfEscape(s: string, spans: seq<Span>, t: string, moved: seq<Span>, j: nat)
    requires EscapedGaps(s, spans, t, moved) && j <= |spans|
    requires Between(s, spans, j, GapStart(spans, j)) && Between(t, moved, j, GapStart(moved, j))
    ensures DecodeOutside(t, moved, j, GapStart(moved, j)) == DecodeOutside(s, spans, j, GapStart(spans, j))
    decreases |spans| - j
  {
    hide Decode, Entities;
    DecodeOfEntities(Gap(s, spans, j));
    if j < |spans| {
      NextBetween(s, spans, j, GapStart(spans, j));
      NextBetween(t, moved, j, GapStart(moved, j));
      DecodeOfEscape(s, spans, t, moved, j + 1);
    } else {
      assert Gap(s, spans, j) == s[GapStart(spans, j)..];
      assert Gap(t, moved, j) == t[GapStart(moved, j)..];
    }
  }

  lemma {:induction false} DecodeOutsideChanges(s: string, spans: seq<Span>, j: nat)
    requires j <= |spans| && Between(s, spans, j, GapStart(spans, j))
    ensures |DecodeOutside(s, spans, j, GapStart(spans, j))| <= |s| - GapStart(spans, j)
    ensures DecodeOutside(s, spans, j, GapStart(spans, j)) == s[GapStart(spans, j)..]
            <==> forall i :: j <= i <= |spans| ==> !HasEntity(Gap(s, spans, i))
    decreases |spans| - j
  {
    hide HasEntity, Decode;
    DecodeChanges(Gap(s, spans, j));
    if j < |spans| {
      var sp, a := spans[j], GapStart(spans, j);
      NextBetween(s, spans, j, a);
      DecodeOutsideChanges(s, spans, j + 1);
      var gap, rest := Gap(s, spans, j), DecodeOutside(s, spans, j + 1, sp.end);
      ThreeParts(s, a, sp.start, sp.end);
      SamePieces(Decode(gap), s[sp.start..sp.end], rest, gap, s[sp.end..]);
    } else {
      assert Gap(s, spans, j) == s[GapStart(spans, j)..];
    }
  }

  lemma ThreeParts(s: string, a: nat, b: nat, c: nat)
    requires a <= b <= c <= |s|
    ensures s[a..] == s[a..b] + s[b..c] + s[c..]
  {
  }

  lemma SamePieces(a: string, m: string, b: string, a': string, b': string)
    requires |a| <= |a'| && |b| <= |b'|
    ensures a + m + b == a' + m + b' <==> a == a' && b == b'
  {
    if a + m + b == a' + m + b' {
      var t := a + m + b;
      assert a == t[..|a|] && a' == t[..|a'|];
      assert b == t[|a| + |m|..] && b' == t[|a'| + |m|..];
    }
  }

  /** Undoing the escape undoes no more than the entities the hint already had. */
  lemma {:induction false} UnescapeOfEscape(hint: string)
    ensures Unescape(Escape(hint)) == Unescape(hint)
  {
    EscapeKeepsExemption(hint);
    if !Exempt(hint) {
      EscapeKeepsSpans(hint);
      SpansOrdered(hint);
      SpansOrdered(Escape(hint));
      hide Escape, Spans, Ordered, CellsOf, Offset;
      forall j | 0 <= j <= |Spans(hint, 0)|
        ensures Gap(Escape(hint), Spans(Escape(hint), 0), j) == Entities(Gap(hint, Spans(hint, 0), j))
      {
        MovedGap(hint, j);
      }
      DecodeOfEscape(hint, Spans(hint, 0), Escape(hint), Spans(Escape(hint), 0), 0);
    }
  }

  /** The round trip gives the hint back exactly when it is exempt or had no entity between its spans. */
  lemma {:induction false} EscapeRoundTrip(hint: string)
    ensures Unescape(Escape(hint)) == hint <==> Exempt(hint) || NoEntityOutside(hint)
  {
    UnescapeOfEscape(hint);
    if !Exempt(hint) {
      SpansOrdered(hint);
      DecodeOutsideChanges(hint, Spans(hint, 0), 0);
      assert hint[0..] == hint;
    }
  }
}
