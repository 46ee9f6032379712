/**
Authentication failures (errors/auth_failure.go): the sentinel text is dropped from a wrapped message,
segment by segment and line by line, by filtering slices in place; wrapping a failure again extends
its list of scopes.
 */
module AuthFailure {
  import opened Options
  import opened Text
  import opened UniqueLists

  const SENTINEL := "authentication failed"
  const SEPARATOR := ": "
  const NEWLINE := "\n"

  // ---------------------------------------------------------------- what is kept

  function Without<T(==)>(lines: seq<T>, sentinel: T): seq<T> {
    if lines == [] then []
    else if lines[0] != sentinel then [lines[0]] + Without(lines[1..], sentinel)
    else Without(lines[1..], sentinel)
  }

  function KeptLines(segment: string, sentinel: string): string {
    Join(Without(Split(segment, NEWLINE), sentinel), NEWLINE)
  }

  function KeptSegments(segments: seq<string>): seq<string> {
    if segments == [] then []
    else
      var kept := KeptLines(segments[0], SENTINEL);
      if kept != "" then [kept] + KeptSegments(segments[1..]) else KeptSegments(segments[1..])
  }

  function Dropped(msg: string): string {
    Join(KeptSegments(Split(msg, SEPARATOR)), SEPARATOR)
  }

  // ---------------------------------------------------------------- the in-place filters

  method ToArray(parts: seq<string>) returns (a: array<string>)
    ensures fresh(a) && a[..] == parts
  {
    a := new string[|parts|](i requires 0 <= i < |parts| => parts[i]);
  }

  /** kept := lines[:0] shares the array of lines; what is written is always behind what is still to be read. */
  method KeepLines(lines: array<string>, sentinel: string) returns (n: nat)
    modifies lines
    ensures n <= lines.Length && lines[..n] == Without(old(lines[..]), sentinel)
  {
    hide Without;
    n := 0;
    for i := 0 to lines.Length
      invariant n <= i
      invariant lines[i..] == old(lines[..])[i..]
      invariant lines[..n] + Without(old(lines[..])[i..], sentinel) == Without(old(lines[..]), sentinel)
    {
      var line := lines[i];
      ghost var before := lines[..n];
      ghost var rest := old(lines[..])[i..];
      assert rest[0] == line && rest[1..] == old(lines[..])[i + 1..];
      KeepNext(before, rest, sentinel);
      if line != sentinel {
        lines[n] := line;
        n := n + 1;
        assert lines[..n] == before + [line];
      }
    }
    NoneLeft(lines[..n], sentinel);
  }

  lemma KeepNext(kept: seq<string>, rest: seq<string>, sentinel: string)
    requires rest != []
    ensures kept + Without(rest, sentinel) ==
              (if rest[0] != sentinel then kept + [rest[0]] else kept) + Without(rest[1..], sentinel)
  {
  }

  lemma NoneLeft(kept: seq<string>, sentinel: string)
    ensures kept + Without([], sentinel) == kept
  {
  }

  method DropSentinelLines(segment: string, sentinel: string) returns (kept: string)
    ensures kept == KeptLines(segment, sentinel)
  {
    var lines := ToArray(Split(segment, NEWLINE));
    var n := KeepLines(lines, sentinel);
    kept := Join(lines[..n], NEWLINE);
  }

  method KeepSegments(segments: array<string>) returns (n: nat)
    modifies segments
    ensures n <= segments.Length && segments[..n] == KeptSegments(old(segments[..]))
  {
    hide KeptLines, KeptSegments;
    n := 0;
    for i := 0 to segments.Length
      invariant n <= i
      invariant segments[i..] == old(segments[..])[i..]
      invariant segments[..n] + KeptSegments(old(segments[..])[i..]) == KeptSegments(old(segments[..]))
    {
      var segment := segments[i];
      ghost var before := segments[..n];
      ghost var rest := old(segments[..])[i..];
      assert rest[0] == segment && rest[1..] == old(segments[..])[i + 1..];
      KeepNextSegment(before, rest);
      segment := DropSentinelLines(segment, SENTINEL);
      if segment != "" {
        segments[n] := segment;
        n := n + 1;
        assert segments[..n] == before + [segment];
      }
    }
    NoSegmentLeft(segments[..n]);
  }

  lemma KeepNextSegment(kept: seq<string>, rest: seq<string>)
    requires rest != []
    ensures var segment := KeptLines(rest[0], SENTINEL);
            kept + KeptSegments(rest) ==
              (if segment != "" then kept + [segment] else kept) + KeptSegments(rest[1..])
  {
    hide KeptLines;
  }

  lemma NoSegmentLeft(kept: seq<string>)
    ensures kept + KeptSegments([]) == kept
  {
  }

  method DropSentinelSegments(msg: string) returns (kept: string)
    ensures kept == Dropped(msg)
  {
    var segments := ToArray(Split(msg, SEPARATOR));
    var n := KeepSegments(segments);
    kept := Join(segments[..n], SEPARATOR);
  }

  // ---------------------------------------------------------------- splitting the result again

  /** Text without the separator's character cannot straddle two parts. */
  lemma {:induction false} ContainsInJoin(parts: seq<string>, c: char, sub: string)
    requires sub != "" && c !in sub && |parts| >= 1
    ensures Contains(Join(parts, [c]), sub) <==> exists p :: p in parts && Contains(p, sub)
  {
    if |parts| == 1 {
      assert parts[0] in parts;
      assert forall p :: p in parts ==> p == parts[0];
    } else {
      ContainsInJoin(parts[1..], c, sub);
      ContainsAround(parts[0], c, Join(parts[1..], [c]), sub);
      assert parts[0] in parts;
      assert forall p :: p in parts <==> p == parts[0] || p in parts[1..];
    }
  }

  lemma {:induction false} ContainsAround(a: string, c: char, b: string, sub: string)
    requires sub != "" && c !in sub
    ensures Contains(a + [c] + b, sub) <==> Contains(a, sub) || Contains(b, sub)
  {
    var s := a + [c] + b;
    hide Index;
    forall k ensures OccursAt(s, sub, k) <==> OccursAt(a, sub, k) || OccursAt(b, sub, k - |a| - 1) {
      OccursAround(a, c, b, sub, k);
    }
    ContainsOccurs(a, sub);
    ContainsOccurs(b, sub);
    ContainsOccurs(s, sub);
    if Contains(b, sub) {
      var j :| OccursAt(b, sub, j);
      assert OccursAt(s, sub, j + |a| + 1);
    }
  }

  lemma ContainsOccurs(s: string, sub: string)
    ensures Contains(s, sub) <==> exists k :: OccursAt(s, sub, k)
  {
    var i := Index(s, sub);
  }

  lemma OccursAround(a: string, c: char, b: string, sub: string, k: int)
    requires sub != "" && c !in sub
    ensures OccursAt(a + [c] + b, sub, k) <==> OccursAt(a, sub, k) || OccursAt(b, sub, k - |a| - 1)
  {
    var s := a + [c] + b;
    if 0 <= k && k + |sub| <= |a| {
      assert s[k..k + |sub|] == a[k..k + |sub|];
    } else if |a| < k && k + |sub| <= |s| {
      assert s[k..k + |sub|] == b[k - |a| - 1..k - |a| - 1 + |sub|];
    } else if 0 <= k && k + |sub| <= |s| {
      assert s[k..k + |sub|][|a| - k] == c;
      assert sub[|a| - k] != c;
    }
  }

  lemma {:induction false} WithoutMembers<T(!new)>(lines: seq<T>, sentinel: T)
    ensures forall l :: l in Without(lines, sentinel) <==> l in lines && l != sentinel
    ensures Without(Without(lines, sentinel), sentinel) == Without(lines, sentinel)
  {
    if lines != [] {
      WithoutMembers(lines[1..], sentinel);
      assert forall l :: l in lines <==> l == lines[0] || l in lines[1..];
      if lines[0] != sentinel {
        assert Without(lines, sentinel)[1..] == Without(lines[1..], sentinel);
      }
    }
  }

  /** A segment that is kept has no separator in it, and its lines are the ones that were kept. */
  lemma {:induction false} KeptSegment(segment: string)
    requires !Contains(segment, SEPARATOR) && KeptLines(segment, SENTINEL) != ""
    ensures !Contains(KeptLines(segment, SENTINEL), SEPARATOR)
    ensures Split(KeptLines(segment, SENTINEL), NEWLINE) == Without(Split(segment, NEWLINE), SENTINEL)
    ensures KeptLines(KeptLines(segment, SENTINEL), SENTINEL) == KeptLines(segment, SENTINEL)
  {
    var lines := Split(segment, NEWLINE);
    var kept := Without(lines, SENTINEL);
    WithoutMembers(lines, SENTINEL);
    JoinOfSplit(segment, NEWLINE);
    assert kept != [];
    SplitOfJoin(kept, NEWLINE);
    ContainsInJoin(lines, '\n', SEPARATOR);
    ContainsInJoin(kept, '\n', SEPARATOR);
  }

  lemma {:induction false} KeptSegmentsAreClean(segments: seq<string>)
    requires forall s :: s in segments ==> !Contains(s, SEPARATOR)
    ensures forall s :: s in KeptSegments(segments) ==>
              s != "" && !Contains(s, SEPARATOR) && SENTINEL !in Split(s, NEWLINE)
    ensures KeptSegments(KeptSegments(segments)) == KeptSegments(segments)
  {
    if segments != [] {
      KeptSegmentsAreClean(segments[1..]);
      var kept := KeptLines(segments[0], SENTINEL);
      assert segments[0] in segments;
      if kept != "" {
        KeptSegment(segments[0]);
        WithoutMembers(Split(segments[0], NEWLINE), SENTINEL);
        hide KeptLines, Contains, Split, Without;
        var all, rest := KeptSegments(segments), KeptSegments(segments[1..]);
        assert all == [kept] + rest;
        assert all[1..] == rest;
        assert KeptSegments(all) == [kept] + KeptSegments(rest);
      }
    }
  }

  /** The result splits into the kept segments; with none kept it is empty. */
  lemma {:induction false} DroppedSegments(msg: string)
    ensures var kept := KeptSegments(Split(msg, SEPARATOR));
            Split(Dropped(msg), SEPARATOR) == if kept == [] then [""] else kept
  {
    var segments := Split(msg, SEPARATOR);
    var kept := KeptSegments(segments);
    KeptSegmentsAreClean(segments);
    if kept == [] {
      assert Index("", SEPARATOR) == -1;
    } else {
      SplitOfJoin(kept, SEPARATOR);
    }
  }

  // ---------------------------------------------------------------- what dropping achieves

  /** Dropping twice is dropping once. */
  lemma {:induction false} DropIdempotent(msg: string)
    ensures Dropped(Dropped(msg)) == Dropped(msg)
  {
    var segments := Split(msg, SEPARATOR);
    DroppedSegments(msg);
    KeptSegmentsAreClean(segments);
    if KeptSegments(segments) == [] {
      EmptySegmentDropped();
    }
  }

  lemma EmptySegmentDropped()
    ensures KeptSegments([""]) == []
  {
  }

  /** No segment of the result is the sentinel, and no line of a segment is. */
  lemma {:induction false} NoSentinelLeft(msg: string)
    ensures "authentication failed" !in Split(Dropped(msg), ": ")
    ensures forall s :: s in Split(Dropped(msg), ": ") ==> "authentication failed" !in Split(s, "\n")
  {
    DroppedSegments(msg);
    KeptSegmentsAreClean(Split(msg, SEPARATOR));
    SentinelIsOneLine();
    assert Index("", NEWLINE) == -1;
  }

  lemma SentinelIsOneLine()
    ensures Split(SENTINEL, NEWLINE) == [SENTINEL] && ':' !in SENTINEL
  {
    var a, b := "authentic", "ation failed";
    assert '\n' !in a && ':' !in a;
    assert '\n' !in b && ':' !in b;
    assert SENTINEL == a + b;
    OneLine(SENTINEL);
  }

  lemma OneLine(s: string)
    requires '\n' !in s
    ensures Split(s, NEWLINE) == [s]
  {
    ContainsChar(s, '\n');
  }

  /** The lines of each segment in turn. */
  function Lines(segments: seq<string>): seq<string> {
    if segments == [] then [] else Split(segments[0], NEWLINE) + Lines(segments[1..])
  }

  lemma {:induction false} WithoutAppend<T>(a: seq<T>, b: seq<T>, x: T)
    ensures Without(a + b, x) == Without(a, x) + Without(b, x)
  {
    if a == [] {
      assert a + b == b;
    } else {
      var all := a + b;
      assert all[0] == a[0] && all[1..] == a[1..] + b;
      WithoutAppend(a[1..], b, x);
    }
  }

  lemma EmptyJoin(lines: seq<string>)
    ensures Join(lines, NEWLINE) == "" <==> lines == [] || lines == [""]
  {
    if |lines| >= 2 {
      assert Join(lines, NEWLINE)[|lines[0]|] == '\n';
    }
  }

  /** One empty line is all that is left of the segment, which is then dropped with it. */
  predicate IsEmptied(segment: string) {
    Without(Split(segment, NEWLINE), SENTINEL) == [""]
  }

  function Emptied(segments: seq<string>): nat {
    if segments == [] then 0 else (if IsEmptied(segments[0]) then 1 else 0) + Emptied(segments[1..])
  }

  /** The lines of what is kept, and how many more there were. */
  lemma {:induction false} LinesKept(segments: seq<string>)
    requires forall s :: s in segments ==> !Contains(s, SEPARATOR)
    ensures var left, kept := Without(Lines(segments), SENTINEL), Lines(KeptSegments(segments));
            && |left| == |kept| + Emptied(segments)
            && (Emptied(segments) == 0 ==> left == kept)
            && (KeptSegments(segments) == [] ==> forall l :: l in left ==> l == "")
            && Without(kept, "") == Without(left, "")
  {
    hide Contains, Split, KeptLines, Without;
    if segments == [] {
      NoLines();
    } else {
      var rest := segments[1..];
      LinesKept(rest);
      assert segments[0] in segments;
      WithoutAppend(Split(segments[0], NEWLINE), Lines(rest), SENTINEL);
      FirstKept(segments);
      var first := Without(Split(segments[0], NEWLINE), SENTINEL);
      WithoutAppend(first, Without(Lines(rest), SENTINEL), "");
      if KeptLines(segments[0], SENTINEL) != "" {
        WithoutAppend(first, Lines(KeptSegments(rest)), "");
      } else {
        EmptyLinesGo(first);
      }
    }
  }

  lemma NoLines()
    ensures Without(Lines([]), SENTINEL) == [] && Without<string>([], "") == []
  {
  }

  lemma EmptyLinesGo(lines: seq<string>)
    requires lines == [] || lines == [""]
    ensures Without(lines, "") == []
  {
    assert [""][1..] == [];
  }

  /** The first segment is kept with the lines that are left of it, or none or one empty line is left of it. */
  lemma FirstKept(segments: seq<string>)
    requires segments != [] && !Contains(segments[0], SEPARATOR)
    ensures var first := Without(Split(segments[0], NEWLINE), SENTINEL);
            if KeptLines(segments[0], SENTINEL) != "" then
              Lines(KeptSegments(segments)) == first + Lines(KeptSegments(segments[1..])) && !IsEmptied(segments[0])
            else
              KeptSegments(segments) == KeptSegments(segments[1..]) && (first == [] || IsEmptied(segments[0]))
  {
    EmptyJoin(Without(Split(segments[0], NEWLINE), SENTINEL));
    if KeptLines(segments[0], SENTINEL) != "" {
      KeptSegment(segments[0]);
      hide Split, Without, Contains;
      var all, rest := KeptSegments(segments), KeptSegments(segments[1..]);
      assert all == [KeptLines(segments[0], SENTINEL)] + rest;
      assert all[0] == KeptLines(segments[0], SENTINEL) && all[1..] == rest;
    }
  }

  /** The lines that are not the sentinel. */
  function LinesLeft(msg: string): seq<string> {
    Without(Lines(Split(msg, SEPARATOR)), SENTINEL)
  }

  /** No line is left of the segment, or one empty line is. */
  predicate IsVoid(segment: string) {
    Without(Split(segment, NEWLINE), SENTINEL) == [] || IsEmptied(segment)
  }

  /**
  Exactly the lines that are not the sentinel survive, in order, if and only if no segment is left with one
  empty line alone, or just one where all the others are left with no line.
   */
  lemma {:induction false} LinesSurviveIff(msg: string)
    ensures Lines(Split(Dropped(msg), SEPARATOR)) == LinesLeft(msg) <==>
              var segments := Split(msg, SEPARATOR);
              Emptied(segments) == if forall s :: s in segments ==> IsVoid(s) then 1 else 0
  {
    hide Split, KeptSegments, Emptied, IsVoid, Without, Lines, Dropped, Contains;
    var segments := Split(msg, SEPARATOR);
    LinesKept(segments);
    DroppedSegments(msg);
    NothingKeptIff(msg);
    AllVoidIff(segments);
    OneEmptyLine();
    NothingToList();
    assert |LinesLeft(msg)| == 1 ==> LinesLeft(msg) == [LinesLeft(msg)[0]] && LinesLeft(msg)[0] in LinesLeft(msg);
  }

  lemma NothingKeptIff(msg: string)
    ensures Dropped(msg) == "" <==> KeptSegments(Split(msg, SEPARATOR)) == []
  {
    hide Split, KeptLines, Contains;
    KeptSegmentsAreClean(Split(msg, SEPARATOR));
    var kept := KeptSegments(Split(msg, SEPARATOR));
    if kept != [] {
      assert kept[0] in kept;
    }
  }

  lemma {:induction false} AllVoidIff(segments: seq<string>)
    ensures KeptSegments(segments) == [] <==> forall s :: s in segments ==> IsVoid(s)
  {
    hide Split, Without, IsVoid;
    if segments != [] {
      AllVoidIff(segments[1..]);
      VoidIff(segments[0]);
      hide KeptLines;
      assert forall s :: s in segments <==> s == segments[0] || s in segments[1..];
    }
  }

  lemma VoidIff(segment: string)
    ensures KeptLines(segment, SENTINEL) == "" <==> IsVoid(segment)
  {
    hide Split, Without;
    EmptyJoin(Without(Split(segment, NEWLINE), SENTINEL));
  }

  lemma OneEmptyLine()
    ensures Lines([""]) == [""]
  {
    OneLine("");
    assert [""][1..] == [];
    assert [""] + Lines([]) == [""];
  }

  /** Apart from empty lines, exactly the lines that are not the sentinel survive, in order. */
  lemma {:induction false} OtherLinesSurvive(msg: string)
    ensures Without(Lines(Split(Dropped(msg), SEPARATOR)), "") == Without(LinesLeft(msg), "")
  {
    hide Split, KeptSegments, Emptied, Without, Lines, Contains;
    DroppedSegments(msg);
    LinesKept(Split(msg, SEPARATOR));
    OneEmptyLine();
    EmptyLinesGo([""]);
    EmptyLinesGo([]);
    NoLines();
    NothingToList();
  }

  lemma NothingToList()
    ensures Lines([]) == []
  {
  }

  /** An empty segment does not survive, although it is not the sentinel. */
  lemma EmptySegmentIsLost()
    ensures Dropped("a: : b") == "a: b"
  {
    hide Split, KeptLines, Contains;
    var parts := ["a", "", "b"];
    PlainSegment("a");
    PlainSegment("b");
    EmptySegmentDropped();
    ThreeSegments();
    assert ["b"][1..] == [] && ["", "b"][1..] == ["b"] && parts[1..] == ["", "b"];
    assert KeptSegments(["b"]) == ["b"];
    EmptyFirst(["", "b"]);
    assert KeptSegments(parts) == ["a"] + ["b"];
    assert ["a"] + ["b"] == ["a", "b"] && ["a", "b"][1..] == ["b"];
    assert Join(["a", "b"], SEPARATOR) == "a" + SEPARATOR + "b";
  }

  lemma EmptyFirst(segments: seq<string>)
    requires segments != [] && segments[0] == ""
    ensures KeptSegments(segments) == KeptSegments(segments[1..])
  {
    EmptySegmentDropped();
    assert KeptSegments([""]) == [];
  }

  lemma ThreeSegments()
    ensures Split("a: : b", SEPARATOR) == ["a", "", "b"]
  {
    var parts := ["a", "", "b"];
    assert parts[1..] == ["", "b"] && ["", "b"][1..] == ["b"];
    assert Join(parts, SEPARATOR) == "a: : b";
    SplitOfJoin(parts, SEPARATOR);
  }

  lemma PlainSegment(s: string)
    requires s != SENTINEL && '\n' !in s
    ensures KeptLines(s, SENTINEL) == s
  {
    OneLine(s);
    assert [s][1..] == [];
    assert Without([s], SENTINEL) == [s];
  }

  // ---------------------------------------------------------------- the lines of the whole message

  /** A line of a joined message is a line of one of the segments or has a colon in it. */
  lemma {:induction false} LinesOfJoined(segments: seq<string>, line: string)
    requires segments != [] && line in Split(Join(segments, SEPARATOR), NEWLINE) && ':' !in line
    ensures exists s :: s in segments && line in Split(s, NEWLINE)
  {
    if |segments| == 1 {
      assert segments[0] in segments;
    } else {
      var head, tail := segments[0], Join(segments[1..], SEPARATOR);
      assert Join(segments, SEPARATOR) == head + SEPARATOR + tail;
      LinesOfTwo(head, tail, line);
      hide Split, Join;
      assert segments[0] in segments;
      if line !in Split(head, NEWLINE) {
        LinesOfJoined(segments[1..], line);
      }
    }
  }

  lemma {:induction false} LinesOfTwo(head: string, tail: string, line: string)
    requires line in Split(head + SEPARATOR + tail, NEWLINE) && ':' !in line
    ensures line in Split(head, NEWLINE) || line in Split(tail, NEWLINE)
  {
    hide Split;
    SplitGlued(head, SEPARATOR + tail, '\n');
    SplitGlued(SEPARATOR, tail, '\n');
    OneLine(SEPARATOR);
    assert head + SEPARATOR + tail == head + (SEPARATOR + tail);
    var lh, lt := Split(head, NEWLINE), Split(tail, NEWLINE);
    var ls := Split(SEPARATOR + tail, NEWLINE);
    assert ls[0] == SEPARATOR + lt[0] && ls[1..] == lt[1..];
    var glue := lh[|lh| - 1] + ls[0];
    assert glue[|lh[|lh| - 1]|] == ':';
  }

  /** No line of the whole result is the sentinel. */
  lemma {:induction false} NoSentinelLine(msg: string)
    ensures "authentication failed" !in Split(Dropped(msg), "\n")
  {
    var kept := KeptSegments(Split(msg, SEPARATOR));
    KeptSegmentsAreClean(Split(msg, SEPARATOR));
    SentinelIsOneLine();
    OneLine("");
    hide Split, KeptSegments;
    if kept != [] && SENTINEL in Split(Dropped(msg), NEWLINE) {
      LinesOfJoined(kept, SENTINEL);
    }
  }

  // ---------------------------------------------------------------- wrapping

  /** An error as far as these functions look at it: its message, and whether it is a failure itself. */
  datatype AuthError =
    | Other(message: string, matchesSentinel: bool)
    | Failed(scopes: seq<string>, detail: string, cause: AuthError)

  /** Error(): the sentinel once, the scopes, the detail. */
  function Message(e: AuthError): string {
    match e
    case Other(message, _) => message
    case Failed(scopes, detail, _) =>
      SENTINEL
      + (if |scopes| > 0 then " for " + Join(scopes, " via ") else "")
      + (if detail != "" then SEPARATOR + detail else "")
  }

  /** The message of a failure that wraps cause: the sentinel, the scopes if there are any, the cleaned message. */
  lemma {:induction false} MessageReads(cause: AuthError, scopes: seq<string>)
    requires cause.Other? && scopes != []
    ensures var given, detail := AppendNew([], Without(scopes, "")), Dropped(cause.message);
            && (given == [] && detail == "" ==> Message(WrappedBy(cause, scopes)) == "authentication failed")
            && (given == [] && detail != "" ==> Message(WrappedBy(cause, scopes)) == "authentication failed: " + detail)
            && (given != [] && detail == "" ==>
                  Message(WrappedBy(cause, scopes)) == "authentication failed for " + Join(given, " via "))
            && (given != [] && detail != "" ==>
                  Message(WrappedBy(cause, scopes)) ==
                    "authentication failed for " + Join(given, " via ") + ": " + detail)
  {
    hide Join, Dropped, Without;
    WrapsAccumulate(cause, scopes);
    var given, detail := AppendNew([], Without(scopes, "")), Dropped(cause.message);
    assert "authentication failed" + "" == "authentication failed";
    assert "authentication failed" + (": " + detail) == "authentication failed: " + detail;
    assert "authentication failed" + (" for " + Join(given, " via ")) ==
      "authentication failed for " + Join(given, " via ");
    MessageParts("authentication failed for " + Join(given, " via "), detail);
  }

  lemma MessageParts(front: string, detail: string)
    ensures front + "" == front && front + (": " + detail) == front + ": " + detail
  {
  }

  /** errors.Is with the authentication sentinel; a failure answers for itself and its cause is tried too. */
  predicate IsAuthenticationFailed(e: AuthError) {
    match e
    case Other(_, matchesSentinel) => matchesSentinel
    case Failed(_, _, _) => true
  }

  method AppendUniqueScope(scopes: seq<string>, more: seq<string>) returns (all: seq<string>)
    ensures all == AppendNew(scopes, more)
  {
    all := scopes;
    for i := 0 to |more|
      invariant AppendNew(all, more[i..]) == AppendNew(scopes, more)
    {
      assert more[i..][0] == more[i] && more[i..][1..] == more[i + 1..];
      var duplicate := false;
      for j := 0 to |all|
        invariant duplicate <==> more[i] in all[..j]
      {
        if all[j] == more[i] {
          duplicate := true;
          break;
        }
      }
      if !duplicate {
        all := all + [more[i]];
      }
    }
  }

  function ScopeList(scope: string): seq<string> {
    if scope != "" then [scope] else []
  }

  function Wrapped(cause: AuthError, scope: string): AuthError {
    match cause
    case Failed(inner, detail, _) => Failed(AppendNew(ScopeList(scope), inner), detail, cause)
    case Other(message, _) => Failed(ScopeList(scope), Dropped(message), cause)
  }

  /** A nil cause gives nil; scope is the formatted scope text. */
  method WrapAuthenticationFailed(cause: Option<AuthError>, scope: string) returns (wrapped: Option<AuthError>)
    ensures wrapped == if cause.None? then None else Some(Wrapped(cause.value, scope))
  {
    if cause.None? {
      return None;
    }
    var scopes: seq<string> := [];
    if scope != "" {
      scopes := [scope];
    }
    if cause.value.Failed? {
      var all := AppendUniqueScope(scopes, cause.value.scopes);
      return Some(Failed(all, cause.value.detail, cause.value));
    }
    var detail := DropSentinelSegments(Message(cause.value));
    return Some(Failed(scopes, detail, cause.value));
  }

  method EnsureAuthenticationFailed(err: Option<AuthError>) returns (ensured: Option<AuthError>)
    ensures err.None? ==> ensured.None?
    ensures err.Some? ==> ensured.Some? && IsAuthenticationFailed(ensured.value)
    ensures err.Some? && IsAuthenticationFailed(err.value) ==> ensured == err
    ensures err.Some? && !IsAuthenticationFailed(err.value) ==>
      ensured.value == Failed([], Dropped(Message(err.value)), err.value)
  {
    if err.None? || IsAuthenticationFailed(err.value) {
      return err;
    }
    ensured := WrapAuthenticationFailed(err, "");
  }

  /** cause wrapped once for each scope, scopes[0] outermost. */
  function WrappedBy(cause: AuthError, scopes: seq<string>): AuthError {
    if scopes == [] then cause else Wrapped(WrappedBy(cause, scopes[1..]), scopes[0])
  }

  function Cause(e: AuthError, n: nat): Option<AuthError> {
    if n == 0 then Some(e) else if e.Failed? then Cause(e.cause, n - 1) else None
  }

  /**
  After any number of direct wraps the scopes are the non-empty ones, outermost first and once each,
  the detail is the cause's message without the sentinel, and the cause is still below.
   */
  lemma {:induction false} WrapsAccumulate(cause: AuthError, scopes: seq<string>)
    requires cause.Other? && scopes != []
    ensures var e := WrappedBy(cause, scopes);
            && e.Failed?
            && e.scopes == AppendNew([], Without(scopes, ""))
            && e.detail == Dropped(cause.message)
            && Cause(e, |scopes|) == Some(cause)
  {
    var rest := Without(scopes[1..], "");
    assert Without(scopes, "") == ScopeList(scopes[0]) + rest;
    ScopeAlone(scopes[0]);
    AppendNewAppend([], ScopeList(scopes[0]), rest);
    if |scopes| > 1 {
      WrapsAccumulate(cause, scopes[1..]);
      AppendNewTwice(ScopeList(scopes[0]), [], rest);
    } else {
      assert scopes[1..] == [];
    }
  }

  lemma ScopeAlone(scope: string)
    ensures AppendNew([], ScopeList(scope)) == ScopeList(scope)
  {
  }

  /** A wrapped message never repeats the sentinel: its detail has no sentinel segment and no sentinel line. */
  lemma {:induction false} WrappedDetailIsClean(cause: AuthError, scopes: seq<string>)
    requires cause.Other? && scopes != []
    ensures SENTINEL !in Split(WrappedBy(cause, scopes).detail, SEPARATOR)
    ensures SENTINEL !in Split(WrappedBy(cause, scopes).detail, NEWLINE)
    ensures Dropped(WrappedBy(cause, scopes).detail) == WrappedBy(cause, scopes).detail
  {
    WrapsAccumulate(cause, scopes);
    NoSentinelLeft(cause.message);
    NoSentinelLine(cause.message);
    DropIdempotent(cause.message);
  }
}
