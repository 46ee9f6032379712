/**
Taking background colours out of terminal text (cmd/root.go), against what the text shows
(stripANSI of errors/formatter.go) and against the reading of an SGR sequence's parameters
(section 8.3.117 of ECMA-48, with the 38 and 48 colour forms of ISO/IEC 8613-6).
 */
module AnsiBackground {
  import opened Options
  import opened Text

  const ESC: char := '\U{001B}'
  const PREFIX := "\U{001B}["
  const SEMICOLON := ";"

  predicate IsLetter(c: char) {
    'A' <= c <= 'Z' || 'a' <= c <= 'z'
  }

  predicate IsParam(c: char) {
    '0' <= c <= '9' || c == ';'
  }

  // ---------------------------------------------------------------- what the functions compute

  /** The first letter of s, or -1. */
  function CodeEnd(s: string): (i: int)
    ensures i == -1 || (0 <= i < |s| && IsLetter(s[i]))
    ensures forall k :: 0 <= k < (if i == -1 then |s| else i) ==> !IsLetter(s[k])
  {
    if s == "" then -1
    else if IsLetter(s[0]) then 0
    else
      var rest := CodeEnd(s[1..]);
      if rest == -1 then -1 else rest + 1
  }

  predicate IsBackgroundCode(code: string) {
    "48;" <= code || Contains(code, ";48;")
  }

  function TrimM(s: string): string {
    if s != "" && s[|s| - 1] == 'm' then s[..|s| - 1] else s
  }

  /** How many parameters a leading 48 takes with it. */
  function Consumed(parts: seq<string>): (n: nat)
    requires parts != []
    ensures 1 <= n <= |parts|
  {
    var n := if |parts| == 1 then 1 else if parts[1] == "2" then 5 else if parts[1] == "5" then 3 else 1;
    if n <= |parts| then n else |parts|
  }

  function Kept(parts: seq<string>): seq<string> {
    if parts == [] then []
    else if parts[0] != "48" then [parts[0]] + Kept(parts[1..])
    else Kept(parts[Consumed(parts)..])
  }

  function StrippedSGR(sgr: string): string {
    var params := TrimM(sgr);
    if params == "" then sgr
    else
      var kept := Kept(Split(params, SEMICOLON));
      if kept == [] then "" else Join(kept, SEMICOLON) + "m"
  }

  function KeptCode(code: string): string {
    if !IsBackgroundCode(code) then PREFIX + code
    else if StrippedSGR(code) != "" then PREFIX + StrippedSGR(code)
    else ""
  }

  function Processed(part: string): string {
    var end := CodeEnd(part);
    if end == -1 then PREFIX + part else KeptCode(part[..end + 1]) + part[end + 1..]
  }

  function ProcessedAll(parts: seq<string>): string {
    if parts == [] then "" else Processed(parts[0]) + ProcessedAll(parts[1..])
  }

  function Stripped(s: string): string {
    var parts := Split(s, PREFIX);
    parts[0] + ProcessedAll(parts[1..])
  }

  // ---------------------------------------------------------------- the code

  method FindAnsiCodeEnd(s: string) returns (end: int)
    ensures end == CodeEnd(s)
    ensures end == -1 || (0 <= end < |s| && ('A' <= s[end] <= 'Z' || 'a' <= s[end] <= 'z'))
    ensures forall k :: 0 <= k < (if end == -1 then |s| else end) ==> !('A' <= s[k] <= 'Z' || 'a' <= s[k] <= 'z')
  {
    for i := 0 to |s|
      invariant CodeEnd(s) == if CodeEnd(s[i..]) == -1 then -1 else CodeEnd(s[i..]) + i
    {
      assert s[i..][0] == s[i] && s[i..][1..] == s[i + 1..];
      if IsLetter(s[i]) {
        return i;
      }
    }
    return -1;
  }

  method StripBackgroundFromSGR(sgrParams: string) returns (stripped: string)
    ensures stripped == StrippedSGR(sgrParams)
  {
    var params := TrimM(sgrParams);
    if params == "" {
      return sgrParams;
    }
    var parts := Split(params, SEMICOLON);
    var filtered: seq<string> := [];
    var i: nat := 0;
    while i < |parts|
      invariant filtered + Kept(parts[if i <= |parts| then i else |parts|..]) == Kept(parts)
    {
      var part := parts[i];
      assert parts[i..][0] == part && parts[i..][1..] == parts[i + 1..];
      if part != "48" {
        filtered := filtered + [part];
        i := i + 1;
        continue;
      }
      ghost var at := i;
      assert parts[at..][Consumed(parts[at..])..] == parts[at + Consumed(parts[at..])..];
      i := i + 1;
      if i >= |parts| {
        continue;
      }
      assert parts[at..][1] == parts[i];
      if parts[i] == "2" {
        i := i + 4;
      } else if parts[i] == "5" {
        i := i + 2;
      }
    }
    assert filtered + Kept([]) == filtered;
    if |filtered| == 0 {
      return "";
    }
    return Join(filtered, SEMICOLON) + "m";
  }

  method ProcessAnsiEscapeSequence(part: string) returns (codeToKeep: string, remainder: string)
    ensures codeToKeep + remainder == Processed(part)
    ensures remainder == if CodeEnd(part) == -1 then "" else part[CodeEnd(part) + 1..]
  {
    var endIdx := FindAnsiCodeEnd(part);
    if endIdx == -1 {
      return PREFIX + part, "";
    }
    var ansiCode := part[..endIdx + 1];
    remainder := part[endIdx + 1..];
    codeToKeep := "";
    if IsBackgroundCode(ansiCode) {
      var stripped := StripBackgroundFromSGR(ansiCode);
      if stripped != "" {
        codeToKeep := PREFIX + stripped;
      }
    } else {
      codeToKeep := PREFIX + ansiCode;
    }
  }

  method StripBackgroundCodes(s: string) returns (result: string)
    ensures result == Stripped(s)
  {
    hide Processed;
    var parts := Split(s, PREFIX);
    result := parts[0];
    for i := 1 to |parts|
      invariant result + ProcessedAll(parts[i..]) == Stripped(s)
    {
      assert parts[i..][0] == parts[i] && parts[i..][1..] == parts[i + 1..];
      var codeToKeep, remainder := ProcessAnsiEscapeSequence(parts[i]);
      assert result + (Processed(parts[i]) + ProcessedAll(parts[i + 1..])) ==
          (result + Processed(parts[i])) + ProcessedAll(parts[i + 1..]);
      result := result + (codeToKeep + remainder);
    }
    assert parts[|parts|..] == [];
  }

  // ---------------------------------------------------------------- what a reader of the text sees

  /** The length of the run of digits and semicolons at the start of s. */
  function ParamRun(s: string): (n: nat)
    ensures n <= |s| && (forall k :: 0 <= k < n ==> IsParam(s[k])) && (n < |s| ==> !IsParam(s[n]))
  {
    if s != "" && IsParam(s[0]) then ParamRun(s[1..]) + 1 else 0
  }

  /** Where the letter of a control code that starts here would be. */
  function LetterAt(s: string): nat {
    if PREFIX <= s then ParamRun(s[2..]) + 2 else |s|
  }

  /** stripANSI: every match of ESC [ (digits and semicolons) letter is removed, from left to right. */
  function Visible(s: string): string
    decreases |s|
  {
    if s == "" then ""
    else
      var n := LetterAt(s);
      if n < |s| && IsLetter(s[n]) then Visible(s[n + 1..]) else [s[0]] + Visible(s[1..])
  }

  // ---------------------------------------------------------------- text whose escapes are complete

  /** Digits and semicolons closed by one letter. */
  predicate CompleteCode(code: string) {
    code != "" && IsLetter(code[|code| - 1]) && forall k :: 0 <= k < |code| - 1 ==> IsParam(code[k])
  }

  /** Plain text, then control codes with the plain text behind each. */
  datatype Doc = Doc(head: string, runs: seq<(string, string)>)

  function RenderRuns(runs: seq<(string, string)>): string {
    if runs == [] then "" else PREFIX + runs[0].0 + runs[0].1 + RenderRuns(runs[1..])
  }

  function Render(doc: Doc): string {
    doc.head + RenderRuns(doc.runs)
  }

  /** No stray escape character, and every control code complete. */
  predicate WellFormed(doc: Doc) {
    ESC !in doc.head && WellFormedRuns(doc.runs)
  }

  predicate WellFormedRuns(runs: seq<(string, string)>) {
    forall r :: r in runs ==> CompleteCode(r.0) && ESC !in r.1
  }

  function Tails(runs: seq<(string, string)>): string {
    if runs == [] then "" else runs[0].1 + Tails(runs[1..])
  }

  lemma VisibleFirst(s: string)
    requires s != "" && s[0] != ESC
    ensures Visible(s) == [s[0]] + Visible(s[1..])
  {
    assert PREFIX[0] == ESC;
  }

  lemma {:induction false} VisiblePlain(t: string, rest: string)
    requires ESC !in t
    ensures Visible(t + rest) == t + Visible(rest)
  {
    hide Visible;
    if t == "" {
      assert t + rest == rest;
    } else {
      VisiblePlain(t[1..], rest);
      var s := t + rest;
      VisibleFirst(s);
      assert s[0] == t[0] && s[1..] == t[1..] + rest;
      assert t == [t[0]] + t[1..];
    }
  }

  lemma {:induction false} ParamRunOfCode(code: string, rest: string)
    requires CompleteCode(code)
    ensures ParamRun(code + rest) == |code| - 1
    decreases |code|
  {
    var s := code + rest;
    if |code| > 1 {
      assert s[1..] == code[1..] + rest;
      ParamRunOfCode(code[1..], rest);
    }
  }

  lemma {:induction false} VisibleCode(code: string, rest: string)
    requires CompleteCode(code)
    ensures Visible(PREFIX + code + rest) == Visible(rest)
  {
    hide Visible, ParamRun;
    var s := PREFIX + code + rest;
    assert PREFIX <= s && s[2..] == code + rest;
    ParamRunOfCode(code, rest);
    hide LetterAt;
    assert s[|code| + 1] == code[|code| - 1];
    assert s[|code| + 2..] == rest;
    CodeIsSkipped(s);
  }

  lemma CodeIsSkipped(s: string)
    requires LetterAt(s) < |s| && IsLetter(s[LetterAt(s)])
    ensures Visible(s) == Visible(s[LetterAt(s) + 1..])
  {
    hide LetterAt;
  }

  /** Of well-formed text, exactly the plain text is visible. */
  lemma {:induction false} VisibleRuns(runs: seq<(string, string)>)
    requires WellFormedRuns(runs)
    ensures Visible(RenderRuns(runs)) == Tails(runs)
  {
    if runs != [] {
      var r := runs[0];
      assert r in runs;
      VisibleRuns(runs[1..]);
      var rest := RenderRuns(runs[1..]);
      assert PREFIX + r.0 + r.1 + rest == PREFIX + r.0 + (r.1 + rest);
      VisibleCode(r.0, r.1 + rest);
      VisiblePlain(r.1, rest);
    }
  }

  lemma VisibleOfRender(doc: Doc)
    requires WellFormed(doc)
    ensures Visible(Render(doc)) == doc.head + Tails(doc.runs)
  {
    VisiblePlain(doc.head, RenderRuns(doc.runs));
    VisibleRuns(doc.runs);
  }

  // ---------------------------------------------------------------- the text as the code splits it

  function RunParts(runs: seq<(string, string)>): (parts: seq<string>)
    ensures |parts| == |runs| && forall i :: 0 <= i < |runs| ==> parts[i] == runs[i].0 + runs[i].1
  {
    seq(|runs|, i requires 0 <= i < |runs| => runs[i].0 + runs[i].1)
  }

  lemma {:induction false} RenderRunsJoins(head: string, runs: seq<(string, string)>)
    ensures head + RenderRuns(runs) == Join([head] + RunParts(runs), PREFIX)
    decreases |runs|
  {
    var all := [head] + RunParts(runs);
    assert all[1..] == RunParts(runs);
    if runs != [] {
      var first := runs[0].0 + runs[0].1;
      RenderRunsJoins(first, runs[1..]);
      assert RunParts(runs) == [first] + RunParts(runs[1..]);
      Regroup(head, runs[0].0, runs[0].1, RenderRuns(runs[1..]));
    }
  }

  lemma Regroup(head: string, code: string, tail: string, rest: string)
    ensures head + (PREFIX + code + tail + rest) == head + PREFIX + (code + tail + rest)
  {
  }

  lemma {:induction false} CodeHasNoEscape(code: string)
    requires CompleteCode(code)
    ensures ESC !in code && CodeEnd(code) == |code| - 1
  {
  }

  lemma NoPrefixWithoutEscape(s: string)
    requires ESC !in s
    ensures !Contains(s, PREFIX)
  {
    if Contains(s, PREFIX) {
      ContainsFirst(s, PREFIX);
    }
  }

  lemma {:induction false} SplitOfRender(doc: Doc)
    requires WellFormed(doc)
    ensures Split(Render(doc), PREFIX) == [doc.head] + RunParts(doc.runs)
  {
    RenderRunsJoins(doc.head, doc.runs);
    var parts := [doc.head] + RunParts(doc.runs);
    NoPrefixWithoutEscape(doc.head);
    forall p | p in parts ensures !Contains(p, PREFIX) {
      if p != doc.head {
        var i :| 0 <= i < |doc.runs| && p == doc.runs[i].0 + doc.runs[i].1;
        assert doc.runs[i] in doc.runs;
        CodeHasNoEscape(doc.runs[i].0);
        NoPrefixWithoutEscape(p);
      }
    }
    SplitOfJoin(parts, PREFIX);
  }

  lemma {:induction false} CodeEndOfRun(code: string, tail: string)
    requires CompleteCode(code)
    ensures CodeEnd(code + tail) == |code| - 1
  {
    var part := code + tail;
    assert part[|code| - 1] == code[|code| - 1];
    assert forall k :: 0 <= k < |code| - 1 ==> part[k] == code[k] && IsParam(code[k]);
  }

  lemma ProcessedRun(code: string, tail: string)
    requires CompleteCode(code)
    ensures Processed(code + tail) == KeptCode(code) + tail
  {
    hide CodeEnd, KeptCode;
    var part := code + tail;
    CodeEndOfRun(code, tail);
    assert part[..|code|] == code && part[|code|..] == tail;
  }

  lemma {:induction false} StrippedRuns(runs: seq<(string, string)>, parts: seq<string>)
    requires WellFormedRuns(runs)
    requires |parts| == |runs| && forall i :: 0 <= i < |runs| ==> parts[i] == runs[i].0 + runs[i].1
    ensures ProcessedAll(parts) == KeptRuns(runs)
  {
    hide Processed, KeptCode;
    if runs != [] {
      assert runs[0] in runs;
      ProcessedRun(runs[0].0, runs[0].1);
      StrippedRuns(runs[1..], parts[1..]);
    }
  }

  /** Each code stripped on its own, its text kept. */
  function KeptRuns(runs: seq<(string, string)>): string {
    if runs == [] then "" else KeptCode(runs[0].0) + runs[0].1 + KeptRuns(runs[1..])
  }

  lemma {:induction false} StrippedRender(doc: Doc)
    requires WellFormed(doc)
    ensures Stripped(Render(doc)) == doc.head + KeptRuns(doc.runs)
  {
    SplitOfRender(doc);
    StrippedRuns(doc.runs, RunParts(doc.runs));
    assert ([doc.head] + RunParts(doc.runs))[1..] == RunParts(doc.runs);
  }

  // ---------------------------------------------------------------- which codes are background codes

  lemma {:induction false} SplitHead(s: string, rest: string)
    requires !Contains(s, SEMICOLON)
    ensures Split(s + SEMICOLON + rest, SEMICOLON) == [s] + Split(rest, SEMICOLON)
  {
    SplitAppend(s, rest, SEMICOLON);
  }

  lemma NoSemicolonIn48()
    ensures !Contains("48", SEMICOLON) && Split("48", SEMICOLON) == ["48"]
  {
    ContainsChar("48", ';');
  }

  /** A background code is one with a parameter 48 that is not its last. */
  lemma {:induction false} BackgroundCodeParts(code: string)
    ensures var parts := Split(code, SEMICOLON);
            IsBackgroundCode(code) <==> exists i :: 0 <= i < |parts| - 1 && parts[i] == "48"
  {
    var parts := Split(code, SEMICOLON);
    if IsBackgroundCode(code) {
      BackgroundHas48(code);
    }
    if exists i :: 0 <= i < |parts| - 1 && parts[i] == "48" {
      var i :| 0 <= i < |parts| - 1 && parts[i] == "48";
      Has48IsBackground(code, i);
    }
  }

  lemma {:induction false} BackgroundHas48(code: string)
    requires IsBackgroundCode(code)
    ensures var parts := Split(code, SEMICOLON); exists i :: 0 <= i < |parts| - 1 && parts[i] == "48"
  {
    hide Split;
    if "48;" <= code {
      NoSemicolonIn48();
      StartsWith48(code);
      SplitHead("48", code[3..]);
      FoundAt([], Split(code[3..], SEMICOLON));
    } else {
      var k := Index(code, ";48;");
      hide Index, IsBackgroundCode;
      var a, b := code[..k], code[k + 4..];
      Around48(code, k);
      NoSemicolonIn48();
      SplitAppend(a, "48" + SEMICOLON + b, SEMICOLON);
      SplitHead("48", b);
      FoundAt(Split(a, SEMICOLON), Split(b, SEMICOLON));
    }
  }

  lemma StartsWith48(code: string)
    requires "48;" <= code
    ensures code == "48" + SEMICOLON + code[3..]
  {
  }

  lemma Around48(code: string, k: nat)
    requires OccursAt(code, ";48;", k)
    ensures code == code[..k] + SEMICOLON + ("48" + SEMICOLON + code[k + 4..])
  {
    assert code[k..k + 4] == SEMICOLON + "48" + SEMICOLON;
    assert code == code[..k] + (code[k..k + 4] + code[k + 4..]);
  }

  lemma FoundAt(a: seq<string>, b: seq<string>)
    requires b != []
    ensures var parts := a + (["48"] + b); exists i :: 0 <= i < |parts| - 1 && parts[i] == "48"
    ensures [] + (["48"] + b) == ["48"] + b
  {
    assert (a + (["48"] + b))[|a|] == "48";
  }

  lemma {:induction false} Has48IsBackground(code: string, i: nat)
    requires i < |Split(code, SEMICOLON)| - 1 && Split(code, SEMICOLON)[i] == "48"
    ensures IsBackgroundCode(code)
  {
    var parts := Split(code, SEMICOLON);
    JoinOfSplit(code, SEMICOLON);
    hide Split;
    var rest := parts[i + 1..];
    var tail := Join(rest, SEMICOLON);
    assert parts[i..] == ["48"] + rest;
    JoinAppend(["48"], rest, SEMICOLON);
    assert Join(["48"], SEMICOLON) == "48";
    hide Join;
    if i == 0 {
      assert parts == parts[i..];
      Front48(tail);
    } else {
      assert parts == parts[..i] + parts[i..];
      JoinAppend(parts[..i], parts[i..], SEMICOLON);
      Middle48(Join(parts[..i], SEMICOLON), tail);
    }
  }

  lemma Front48(tail: string)
    ensures IsBackgroundCode("48" + SEMICOLON + tail)
  {
    assert ("48" + SEMICOLON + tail)[..3] == "48;";
  }

  lemma Middle48(front: string, tail: string)
    ensures IsBackgroundCode(front + SEMICOLON + ("48" + SEMICOLON + tail))
  {
    assert front + SEMICOLON + ("48" + SEMICOLON + tail) == front + ";48;" + tail;
    ContainsMiddle(front, ";48;", tail);
  }

  // ---------------------------------------------------------------- which parameters are kept

  /** Kept parameters are parameters other than 48, and only the last of them can be the last parameter. */
  lemma {:induction false} KeptShape(parts: seq<string>)
    ensures "48" !in Kept(parts) && |Kept(parts)| <= |parts|
    ensures forall i :: 0 <= i < |Kept(parts)| ==> Kept(parts)[i] in parts
    ensures forall i :: 0 <= i < |Kept(parts)| - 1 ==> Kept(parts)[i] in parts[..|parts| - 1]
    ensures Kept(parts) != [] ==> var last := Kept(parts)[|Kept(parts)| - 1];
              last in parts[..|parts| - 1] || last == parts[|parts| - 1]
    decreases |parts|
  {
    if parts != [] {
      var n := if parts[0] != "48" then 1 else Consumed(parts);
      var rest, kept := parts[n..], Kept(parts[n..]);
      KeptShape(rest);
      if rest == [] {
        assert kept == [];
      } else {
        assert rest[|rest| - 1] == parts[|parts| - 1];
        SuffixMembers(parts, n);
        assert parts[0] == parts[..|parts| - 1][0];
      }
    }
  }

  predicate Within(xs: seq<string>, ys: seq<string>) {
    forall x :: x in xs ==> x in ys
  }

  lemma SuffixMembers(parts: seq<string>, n: nat)
    requires n < |parts|
    ensures Within(parts[n..][..|parts| - n - 1], parts[..|parts| - 1])
    ensures Within(parts[n..], parts)
  {
    assert parts[n..][..|parts| - n - 1] == parts[..|parts| - 1][n..];
  }

  predicate AllParams(s: string) {
    forall k :: 0 <= k < |s| ==> IsParam(s[k])
  }

  lemma {:induction false} JoinOfParams(parts: seq<string>)
    requires forall p :: p in parts ==> AllParams(p)
    ensures AllParams(Join(parts, SEMICOLON))
  {
    if |parts| == 1 {
      assert parts[0] in parts;
    } else if |parts| > 1 {
      assert parts[0] in parts;
      JoinOfParams(parts[1..]);
    }
  }

  lemma {:induction false} SplitOfParams(s: string)
    requires AllParams(s)
    ensures forall p :: p in Split(s, SEMICOLON) ==> AllParams(p)
    decreases |s|
  {
    var i := Index(s, SEMICOLON);
    if i != -1 {
      SplitOfParams(s[i + 1..]);
    }
  }

  /** The parameters of a code, the letter still at the end of the last. */
  lemma {:induction false} SplitOfCode(body: string, final: char)
    requires IsLetter(final)
    ensures var parts, whole := Split(body, SEMICOLON), Split(body + [final], SEMICOLON);
            whole == parts[..|parts| - 1] + [parts[|parts| - 1] + [final]]
  {
    ContainsChar([final], ';');
    assert Split([final], SEMICOLON) == [[final]];
    SplitGlued(body, [final], ';');
  }

  // ---------------------------------------------------------------- what becomes of one code

  /** What is written for a code: nothing, or a code, and an `m` in the plain text where the code had another letter. */
  function Outcome(code: string): Option<(string, string)> {
    if IsBackgroundCode(code) then Reread(StrippedSGR(code)) else Some((code, ""))
  }

  /** A stripped sequence as it will be read: it ends at its first letter. */
  function Reread(s: string): Option<(string, string)> {
    if s == "" then None
    else if |s| >= 2 && IsLetter(s[|s| - 2]) then Some((s[..|s| - 1], s[|s| - 1..]))
    else Some((s, ""))
  }

  /** A complete code that is no background code, and at most an `m` behind it. */
  predicate Sound(outcome: Option<(string, string)>, gains: bool) {
    outcome.Some? ==>
      && CompleteCode(outcome.value.0) && !IsBackgroundCode(outcome.value.0)
      && outcome.value.1 == if gains then "m" else ""
  }

  lemma OutcomeIsKept(code: string)
    ensures KeptCode(code) == match Outcome(code) case None => "" case Some((c, extra)) => PREFIX + c + extra
  {
    hide IsBackgroundCode, StrippedSGR;
    RereadIsText(StrippedSGR(code));
    assert PREFIX + code + "" == PREFIX + code;
  }

  lemma RereadIsText(s: string)
    ensures s != "" ==> Reread(s).Some? && PREFIX + Reread(s).value.0 + Reread(s).value.1 == PREFIX + s
    ensures s == "" ==> Reread(s).None?
  {
  }

  lemma {:induction false} JoinLast(front: seq<string>, a: string, b: string)
    ensures Join(front + [a + b], SEMICOLON) == Join(front + [a], SEMICOLON) + b
  {
    if front != [] {
      JoinLast(front[1..], a, b);
      assert (front + [a + b])[1..] == front[1..] + [a + b];
      assert (front + [a])[1..] == front[1..] + [a];
    }
  }

  predicate Parameter(p: string) {
    AllParams(p) && !Contains(p, SEMICOLON)
  }

  /** Parameters without a 48, the last closed by a letter, make a complete code that is no background code. */
  lemma {:induction false} CodeOfParameters(front: seq<string>, p: string, final: char)
    requires (forall q :: q in front ==> Parameter(q) && q != "48") && Parameter(p) && IsLetter(final)
    ensures var code := Join(front + [p + [final]], SEMICOLON);
            CompleteCode(code) && !IsBackgroundCode(code) && code[|code| - 1] == final
  {
    assert "48" !in front;
    JoinLast(front, p, [final]);
    JoinOfParams(front + [p]);
    ContainsChar(p, ';');
    ContainsChar(p + [final], ';');
    hide Split, Join, Contains, IsBackgroundCode;
    NoBackground(front, p + [final]);
  }

  lemma {:induction false} NoBackground(front: seq<string>, last: string)
    requires (forall q :: q in front ==> !Contains(q, SEMICOLON)) && !Contains(last, SEMICOLON) && "48" !in front
    ensures !IsBackgroundCode(Join(front + [last], SEMICOLON))
  {
    hide Split, Join, Contains, IsBackgroundCode;
    var parts := front + [last];
    SplitOfJoin(parts, SEMICOLON);
    BackgroundCodeParts(Join(parts, SEMICOLON));
    assert forall i :: 0 <= i < |parts| - 1 ==> parts[i] == front[i];
  }

  lemma {:induction false} CodeParts(code: string)
    requires CompleteCode(code)
    ensures var body, final := code[..|code| - 1], code[|code| - 1];
            var parts := Split(body, SEMICOLON);
            && (forall q :: q in parts ==> Parameter(q))
            && Split(code, SEMICOLON) == parts[..|parts| - 1] + [parts[|parts| - 1] + [final]]
  {
    var body, final := code[..|code| - 1], code[|code| - 1];
    SplitOfParams(body);
    SplitOfCode(body, final);
    assert code == body + [final];
  }

  /** The parameters that are left of a background code, and whether the last of them still has its letter. */
  lemma {:induction false} KeptOfCode(code: string)
    requires CompleteCode(code) && IsBackgroundCode(code)
    ensures var kept := Kept(Split(TrimM(code), SEMICOLON));
            && TrimM(code) != ""
            && (forall i :: 0 <= i < |kept| - 1 ==> Parameter(kept[i]) && kept[i] != "48")
            && (kept != [] ==>
                var last := kept[|kept| - 1];
                || (Parameter(last) && last != "48")
                || (code[|code| - 1] != 'm' && last != "" && Parameter(last[..|last| - 1])
                    && last[|last| - 1] == code[|code| - 1]))
  {
    hide Split, Kept, Contains, IsBackgroundCode;
    var body, final := code[..|code| - 1], code[|code| - 1];
    CodeParts(code);
    BackgroundCodeParts(code);
    if |code| == 1 {
      NothingInFront(code);
    }
    var parts := Split(body, SEMICOLON);
    KeptShape(Split(TrimM(code), SEMICOLON));
    if final != 'm' {
      KeptKinds(parts[..|parts| - 1] + [parts[|parts| - 1] + [final]], parts, final);
    }
  }

  lemma KeptKinds(whole: seq<string>, parts: seq<string>, final: char)
    requires parts != [] && (forall q :: q in parts ==> Parameter(q))
    requires whole == parts[..|parts| - 1] + [parts[|parts| - 1] + [final]]
    ensures forall q :: q in whole[..|whole| - 1] ==> Parameter(q)
    ensures var last := whole[|whole| - 1]; last != "" && Parameter(last[..|last| - 1]) && last[|last| - 1] == final
  {
  }

  lemma NothingInFront(code: string)
    requires |code| == 1 && IsLetter(code[0])
    ensures Split(code, SEMICOLON) == [code]
  {
    ContainsChar(code, ';');
  }

  /** The letter of a code other than an SGR code survives stripping, and gets an `m` after it. */
  predicate KeepsLetter(code: string) {
    && IsBackgroundCode(code) && code != "" && code[|code| - 1] != 'm'
    && var kept := Kept(Split(code, SEMICOLON)); kept != [] && !Parameter(kept[|kept| - 1])
  }

  /** What is written instead of a complete code is complete and no background code. */
  lemma {:induction false} OutcomeIsSound(code: string)
    requires CompleteCode(code)
    ensures Sound(Outcome(code), KeepsLetter(code))
  {
    hide Split, Kept, IsBackgroundCode, Contains, Parameter, Join, Reread;
    assert code != "" && IsLetter(code[|code| - 1]);
    if IsBackgroundCode(code) {
      hide Sound, CompleteCode;
      KeptOfCode(code);
      var kept := Kept(Split(TrimM(code), SEMICOLON));
      if kept != [] {
        StrippedOfKept(kept, code[|code| - 1]);
      } else {
        NothingLeft();
      }
    }
  }

  lemma NothingLeft()
    ensures Sound(Reread(""), false)
  {
  }

  lemma {:induction false} StrippedOfKept(kept: seq<string>, final: char)
    requires kept != [] && IsLetter(final)
    requires forall i :: 0 <= i < |kept| - 1 ==> Parameter(kept[i]) && kept[i] != "48"
    requires var last := kept[|kept| - 1];
             || (Parameter(last) && last != "48")
             || (last != "" && Parameter(last[..|last| - 1]) && last[|last| - 1] == final)
    ensures Sound(Reread(Join(kept, SEMICOLON) + "m"), !Parameter(kept[|kept| - 1]))
    ensures Join(kept, SEMICOLON) + "m" != ""
  {
    var front, last := kept[..|kept| - 1], kept[|kept| - 1];
    assert kept == front + [last];
    var s := Join(kept, SEMICOLON) + "m";
    if Parameter(last) {
      JoinLast(front, last, "m");
      CodeOfParameters(front, last, 'm');
      assert |s| >= 2 ==> IsParam(s[|s| - 2]);
    } else {
      var p := last[..|last| - 1];
      assert last == p + [final];
      CodeOfParameters(front, p, final);
      assert s[..|s| - 1] == Join(kept, SEMICOLON);
    }
  }

  // ---------------------------------------------------------------- the whole text

  /** What the stripped text is: a dropped code lets its text run on from the text before. */
  function KeptDoc(head: string, runs: seq<(string, string)>): Doc
    decreases |runs|
  {
    if runs == [] then Doc(head, [])
    else
      var (code, tail) := runs[0];
      match Outcome(code)
      case None => KeptDoc(head + tail, runs[1..])
      case Some((c, extra)) =>
        var rest := KeptDoc(extra + tail, runs[1..]);
        Doc(head, [(c, rest.head)] + rest.runs)
  }

  predicate NoBackgroundRuns(runs: seq<(string, string)>) {
    forall r :: r in runs ==> !IsBackgroundCode(r.0)
  }

  lemma {:induction false} KeptDocRenders(head: string, runs: seq<(string, string)>)
    requires ESC !in head && WellFormedRuns(runs)
    ensures WellFormed(KeptDoc(head, runs)) && NoBackgroundRuns(KeptDoc(head, runs).runs)
    ensures Render(KeptDoc(head, runs)) == head + KeptRuns(runs)
    decreases |runs|
  {
    if runs != [] {
      var (code, tail) := runs[0];
      assert runs[0] in runs;
      OutcomeIsSound(code);
      KeptRunsNext(head, runs);
      assert WellFormedRuns(runs[1..]) && ESC !in tail;
      hide CompleteCode, IsBackgroundCode, KeptRuns, Outcome, KeepsLetter, Render, WellFormed, WellFormedRuns,
          NoBackgroundRuns;
      match Outcome(code) {
        case None =>
          KeptDocRenders(head + tail, runs[1..]);
        case Some((c, extra)) =>
          KeptDocRenders(extra + tail, runs[1..]);
          ConsWellFormed(head, c, KeptDoc(extra + tail, runs[1..]));
          ConsRun(head, c, KeptDoc(extra + tail, runs[1..]), extra, tail, KeptRuns(runs[1..]));
      }
    }
  }

  lemma KeptRunsNext(head: string, runs: seq<(string, string)>)
    requires runs != []
    ensures var (code, tail) := runs[0];
            head + KeptRuns(runs) == match Outcome(code)
              case None => head + tail + KeptRuns(runs[1..])
              case Some((c, extra)) => head + (PREFIX + c + extra + tail + KeptRuns(runs[1..]))
  {
    var (code, tail) := runs[0];
    var after := KeptRuns(runs[1..]);
    assert KeptRuns(runs) == KeptCode(code) + tail + after;
    OutcomeIsKept(code);
    hide KeptCode, Outcome, KeptRuns;
    Ungroup(head, tail, after);
  }

  lemma Ungroup(a: string, b: string, c: string)
    ensures a + ("" + b + c) == a + b + c
  {
  }

  lemma ConsWellFormed(head: string, code: string, rest: Doc)
    requires ESC !in head && CompleteCode(code) && !IsBackgroundCode(code)
    requires WellFormed(rest) && NoBackgroundRuns(rest.runs)
    ensures var doc := Doc(head, [(code, rest.head)] + rest.runs); WellFormed(doc) && NoBackgroundRuns(doc.runs)
  {
    hide CompleteCode, IsBackgroundCode;
  }

  lemma ConsRun(head: string, code: string, rest: Doc, extra: string, tail: string, after: string)
    requires Render(rest) == extra + tail + after
    ensures Render(Doc(head, [(code, rest.head)] + rest.runs)) == head + (PREFIX + code + extra + tail + after)
  {
    var doc := Doc(head, [(code, rest.head)] + rest.runs);
    assert doc.runs[1..] == rest.runs;
    assert RenderRuns(doc.runs) == PREFIX + code + (rest.head + RenderRuns(rest.runs));
  }

  /** How many codes gain an `m`. */
  function Gains(runs: seq<(string, string)>): nat {
    if runs == [] then 0 else (if KeepsLetter(runs[0].0) then 1 else 0) + Gains(runs[1..])
  }

  function PlainText(doc: Doc): string {
    doc.head + Tails(doc.runs)
  }

  /** The text after is the text before, or longer by the number of gains. */
  predicate Gained(before: string, after: string, gains: nat) {
    |after| == |before| + gains && (gains == 0 ==> after == before)
  }

  lemma {:induction false} KeptDocText(head: string, runs: seq<(string, string)>)
    requires WellFormedRuns(runs)
    ensures Gained(PlainText(Doc(head, runs)), PlainText(KeptDoc(head, runs)), Gains(runs))
    decreases |runs|
  {
    if runs != [] {
      var (code, tail) := runs[0];
      assert runs[0] in runs;
      assert WellFormedRuns(runs[1..]);
      OutcomeIsSound(code);
      hide CompleteCode, IsBackgroundCode, Outcome, KeepsLetter, WellFormedRuns, PlainText, Gained;
      TextOfFirst(head, runs);
      match Outcome(code) {
        case None =>
          NothingGained(code);
          KeptDocText(head + tail, runs[1..]);
        case Some((c, extra)) =>
          KeptDocText(extra + tail, runs[1..]);
          TextCons(head, c, KeptDoc(extra + tail, runs[1..]));
          GainMore(head, extra, tail, Tails(runs[1..]), PlainText(KeptDoc(extra + tail, runs[1..])), Gains(runs[1..]));
      }
    }
  }

  lemma TextOfFirst(head: string, runs: seq<(string, string)>)
    requires runs != []
    ensures PlainText(Doc(head, runs)) == PlainText(Doc(head + runs[0].1, runs[1..]))
    ensures PlainText(Doc(head, runs)) == head + runs[0].1 + Tails(runs[1..])
  {
    Ungroup(head, runs[0].1, Tails(runs[1..]));
  }

  lemma GainMore(head: string, extra: string, tail: string, rest: string, after: string, gains: nat)
    requires Gained(extra + tail + rest, after, gains)
    ensures Gained(head + tail + rest, head + after, |extra| + gains)
  {
  }

  lemma TextCons(head: string, code: string, rest: Doc)
    ensures PlainText(Doc(head, [(code, rest.head)] + rest.runs)) == head + PlainText(rest)
  {
    assert ([(code, rest.head)] + rest.runs)[1..] == rest.runs;
  }

  lemma NothingGained(code: string)
    requires Outcome(code).None?
    ensures !KeepsLetter(code)
  {
  }

  // ---------------------------------------------------------------- the results, on text

  function Code(part: string): string {
    part[..CodeEnd(part) + 1]
  }

  function Tail(part: string): string {
    part[CodeEnd(part) + 1..]
  }

  /** The control codes of a text, in order. */
  function Codes(s: string): (codes: seq<string>)
    ensures |codes| == |Split(s, PREFIX)| - 1
    ensures forall i :: 0 <= i < |codes| ==> codes[i] == Code(Split(s, PREFIX)[i + 1])
  {
    var parts := Split(s, PREFIX)[1..];
    seq(|parts|, i requires 0 <= i < |parts| => Code(parts[i]))
  }

  /** Every escape character opens a complete control code: ESC [, digits and semicolons, a letter. */
  predicate CompleteText(s: string) {
    var parts := Split(s, PREFIX);
    && ESC !in parts[0]
    && forall i :: 1 <= i < |parts| ==> CompleteCode(Code(parts[i])) && ESC !in Tail(parts[i])
  }

  /** All control codes are SGR codes. */
  predicate SgrText(s: string) {
    CompleteText(s) && forall c :: c in Codes(s) ==> c[|c| - 1..] == "m"
  }

  function Parsed(s: string): Doc {
    var parts := Split(s, PREFIX);
    Doc(parts[0], seq(|parts| - 1, i requires 0 <= i < |parts| - 1 => (Code(parts[i + 1]), Tail(parts[i + 1]))))
  }

  lemma {:induction false} ParsedRenders(s: string)
    requires CompleteText(s)
    ensures WellFormed(Parsed(s)) && Render(Parsed(s)) == s
  {
    hide Split, CompleteCode, CodeEnd, WellFormed, CompleteText, RenderRuns, Join;
    JoinOfSplit(s, PREFIX);
    RenderRunsJoins(Parsed(s).head, Parsed(s).runs);
    ParsedIsWellFormed(s);
    PartsOfParsed(s);
  }

  lemma ParsedIsWellFormed(s: string)
    requires CompleteText(s)
    ensures WellFormed(Parsed(s))
  {
    hide Split, CompleteCode, CodeEnd;
  }

  lemma PartsOfParsed(s: string)
    ensures [Parsed(s).head] + RunParts(Parsed(s).runs) == Split(s, PREFIX)
  {
    hide Split, CodeEnd;
    var parts, doc := Split(s, PREFIX), Parsed(s);
    forall i | 1 <= i < |parts| ensures RunParts(doc.runs)[i - 1] == parts[i] {
      CodeAndTail(parts[i]);
    }
  }

  lemma CodeAndTail(part: string)
    ensures part == Code(part) + Tail(part)
  {
  }

  lemma {:induction false} CodesOfRender(doc: Doc)
    requires WellFormed(doc)
    ensures |Codes(Render(doc))| == |doc.runs|
    ensures forall i :: 0 <= i < |doc.runs| ==> Codes(Render(doc))[i] == doc.runs[i].0
  {
    SplitOfRender(doc);
    hide Render, Split, CodeEnd, CompleteCode;
    forall i | 0 <= i < |doc.runs| ensures Codes(Render(doc))[i] == doc.runs[i].0 {
      var (code, tail) := doc.runs[i];
      assert doc.runs[i] in doc.runs;
      CodeEndOfRun(code, tail);
      assert (code + tail)[..|code|] == code;
    }
  }

  lemma {:induction false} GainsOfRuns(runs: seq<(string, string)>)
    ensures Gains(runs) == 0 <==> forall i :: 0 <= i < |runs| ==> !KeepsLetter(runs[i].0)
  {
    if runs != [] {
      GainsOfRuns(runs[1..]);
      assert forall i :: 1 <= i < |runs| ==> runs[i] == runs[1..][i - 1];
    }
  }

  lemma {:induction false} StrippedText(s: string)
    requires CompleteText(s)
    ensures var doc := KeptDoc(Parsed(s).head, Parsed(s).runs);
            WellFormed(doc) && NoBackgroundRuns(doc.runs) && Stripped(s) == Render(doc)
  {
    var doc := Parsed(s);
    ParsedRenders(s);
    StrippedRender(doc);
    KeptDocRenders(doc.head, doc.runs);
  }

  /**
  Stripping keeps exactly the visible text unless a code that is no SGR code looks like a background
  code and keeps its letter, which then gets an `m` behind it.
   */
  lemma {:induction false} StripKeepsVisibleIff(s: string)
    requires CompleteText(s)
    ensures Visible(Stripped(s)) == Visible(s) <==> forall i :: 0 <= i < |Codes(s)| ==> !KeepsLetter(Codes(s)[i])
  {
    var doc := Parsed(s);
    ParsedRenders(s);
    StrippedText(s);
    VisibleOfRender(doc);
    VisibleOfRender(KeptDoc(doc.head, doc.runs));
    KeptDocText(doc.head, doc.runs);
    GainsOfRuns(doc.runs);
    CodesOfRender(doc);
  }

  lemma {:induction false} StripKeepsVisible(s: string)
    requires SgrText(s)
    ensures Visible(Stripped(s)) == Visible(s)
  {
    StripKeepsVisibleIff(s);
    forall i | 0 <= i < |Codes(s)| ensures !KeepsLetter(Codes(s)[i]) {
      var c := Codes(s)[i];
      assert c in Codes(s);
    }
  }

  /** No background code is left. */
  lemma {:induction false} NoBackgroundLeft(s: string)
    requires CompleteText(s)
    ensures CompleteText(Stripped(s)) && forall c :: c in Codes(Stripped(s)) ==> !IsBackgroundCode(c)
  {
    var doc := Parsed(s);
    StrippedText(s);
    var kept := KeptDoc(doc.head, doc.runs);
    CodesOfRender(kept);
    RenderIsComplete(kept);
  }

  lemma {:induction false} RenderIsComplete(doc: Doc)
    requires WellFormed(doc)
    ensures CompleteText(Render(doc))
  {
    hide Split, Render, CodeEnd, CompleteCode, Processed, KeptCode, Code, Tail;
    SplitOfRender(doc);
    var parts := Split(Render(doc), PREFIX);
    forall i | 1 <= i < |parts| ensures CompleteCode(Code(parts[i])) && ESC !in Tail(parts[i]) {
      assert doc.runs[i - 1] in doc.runs;
      PartOfRun(doc.runs[i - 1].0, doc.runs[i - 1].1);
    }
  }

  lemma PartOfRun(code: string, tail: string)
    requires CompleteCode(code)
    ensures Code(code + tail) == code && Tail(code + tail) == tail
  {
    hide CodeEnd, Processed, KeptCode;
    CodeEndOfRun(code, tail);
  }

  /** Stripping twice is stripping once. */
  lemma {:induction false} StripIdempotent(s: string)
    requires CompleteText(s)
    ensures Stripped(Stripped(s)) == Stripped(s)
  {
    var doc := Parsed(s);
    StrippedText(s);
    var kept := KeptDoc(doc.head, doc.runs);
    StrippedRender(kept);
    KeptRunsOfPlain(kept.runs);
  }

  lemma {:induction false} KeptRunsOfPlain(runs: seq<(string, string)>)
    requires NoBackgroundRuns(runs)
    ensures KeptRuns(runs) == RenderRuns(runs)
  {
    if runs != [] {
      assert runs[0] in runs;
      KeptRunsOfPlain(runs[1..]);
    }
  }
}
