/**
Which parameters are left of an SGR code when its background colours are taken out (cmd/root.go), against
the reading of the parameters from left to right, in which 38 and 48 take a colour with them.
 */
module SgrParameters {
  import opened AnsiBackground
  import opened Text

  // ---------------------------------------------------------------- the meaning of the parameters

  /** How many parameters the first one takes: 38 and 48 take a colour with them, cut short at the end. */
  function Width(parts: seq<string>): (n: nat)
    requires parts != []
    ensures 1 <= n <= |parts|
  {
    if parts[0] == "38" || parts[0] == "48" then Consumed(parts) else 1
  }

  /** The parameters without the background colours, read from left to right. */
  function NonBackground(parts: seq<string>): seq<string>
    decreases |parts|
  {
    if parts == [] then []
    else
      var n := Width(parts);
      (if parts[0] == "48" then [] else parts[..n]) + NonBackground(parts[n..])
  }

  /** A 48 stands among the arguments of a 38. */
  predicate ForegroundHas48(parts: seq<string>)
    decreases |parts|
  {
    && parts != []
    && ((parts[0] == "38" && "48" in parts[..Width(parts)]) || ForegroundHas48(parts[Width(parts)..]))
  }

  lemma {:induction false} KeptOfPlain(front: seq<string>, rest: seq<string>)
    requires "48" !in front
    ensures Kept(front + rest) == front + Kept(rest)
    decreases |front|
  {
    if front == [] {
      assert front + rest == rest;
    } else {
      KeptOfPlain(front[1..], rest);
      assert (front + rest)[1..] == front[1..] + rest;
    }
  }

  lemma {:induction false} NonBackgroundHas48(parts: seq<string>)
    requires ForegroundHas48(parts)
    ensures "48" in NonBackground(parts)
    decreases |parts|
  {
    var n := Width(parts);
    if !(parts[0] == "38" && "48" in parts[..n]) {
      NonBackgroundHas48(parts[n..]);
    }
  }

  /** The filter keeps exactly the non-background parameters, unless a 48 is an argument of a foreground colour. */
  lemma {:induction false} KeptIsNonBackground(parts: seq<string>)
    ensures Kept(parts) == NonBackground(parts) <==> !ForegroundHas48(parts)
    decreases |parts|
  {
    if ForegroundHas48(parts) {
      NonBackgroundHas48(parts);
      KeptShape(parts);
    } else if parts != [] {
      var n := Width(parts);
      KeptIsNonBackground(parts[n..]);
      if parts[0] != "48" {
        assert parts == parts[..n] + parts[n..];
        KeptOfPlain(parts[..n], parts[n..]);
      }
    }
  }

  // ---------------------------------------------------------------- one code

  /** The parameters of an SGR code. */
  function Params(code: string): seq<string> {
    Split(TrimM(code), SEMICOLON)
  }

  predicate IsSgr(code: string) {
    CompleteCode(code) && code[|code| - 1] == 'm'
  }

  /** The control code with these parameters; without any, none is written. */
  function Written(params: seq<string>): string {
    if params == [] then "" else PREFIX + Join(params, SEMICOLON) + "m"
  }

  /**
  A code that looks like a background code has no 48 among the arguments of a foreground colour; any other
  has no 48 at its end, unless as such an argument.
   */
  predicate ReadsRight(code: string) {
    var params := Params(code);
    if IsBackgroundCode(code) then !ForegroundHas48(params)
    else params[|params| - 1] == "48" ==> ForegroundHas48(params)
  }

  /** Of an SGR code exactly the non-background parameters remain, in order, if and only if it reads right. */
  lemma {:induction false} CodeKeepsNonBackgroundIff(code: string)
    requires IsSgr(code)
    ensures KeptCode(code) == Written(NonBackground(Params(code))) <==> ReadsRight(code)
  {
    hide Split, Kept, NonBackground, IsBackgroundCode, ForegroundHas48, KeptCode, Written, CompleteCode, TrimM;
    var params := Params(code);
    NonBackgroundMembers(params);
    if IsBackgroundCode(code) {
      BackgroundIsWritten(code);
      KeptShape(params);
      KeptIsNonBackground(params);
      WrittenTells(Kept(params), NonBackground(params));
    } else {
      PlainIsWritten(code);
      LastOnly48(params);
      WrittenTells(params, NonBackground(params));
    }
  }

  lemma BackgroundIsWritten(code: string)
    requires IsSgr(code) && IsBackgroundCode(code)
    ensures KeptCode(code) == Written(Kept(Params(code)))
  {
    hide Split, Kept, IsBackgroundCode, Join, Contains;
    KeptOfCode(code);
  }

  /** Any other SGR code stays as it is, and has a 48 at most at its end. */
  lemma PlainIsWritten(code: string)
    requires IsSgr(code) && !IsBackgroundCode(code)
    ensures KeptCode(code) == Written(Params(code))
    ensures forall i :: 0 <= i < |Params(code)| - 1 ==> Params(code)[i] != "48"
  {
    hide Split, IsBackgroundCode, Join, Contains;
    var body, params := TrimM(code), Params(code);
    assert code == body + "m";
    JoinOfSplit(body, SEMICOLON);
    BackgroundCodeParts(code);
    SplitOfCode(body, 'm');
    assert forall i :: 0 <= i < |params| - 1 ==> Split(code, SEMICOLON)[i] == params[i];
    Glue(body);
  }

  lemma Glue(body: string)
    ensures PREFIX + (body + "m") == PREFIX + body + "m"
  {
  }

  /** What is written tells the parameters. */
  lemma WrittenTells(a: seq<string>, b: seq<string>)
    requires forall p :: p in a || p in b ==> !Contains(p, SEMICOLON)
    ensures Written(a) == Written(b) <==> a == b
  {
    hide Join, Split, Contains;
    if a != [] && b != [] && Written(a) == Written(b) {
      SameMiddle(Join(a, SEMICOLON), Join(b, SEMICOLON));
      SplitOfJoin(a, SEMICOLON);
      SplitOfJoin(b, SEMICOLON);
    }
  }

  lemma SameMiddle(x: string, y: string)
    requires PREFIX + x + "m" == PREFIX + y + "m"
    ensures x == y
  {
    assert (PREFIX + x + "m")[2..|x| + 2] == x;
    assert (PREFIX + y + "m")[2..|y| + 2] == y;
  }

  lemma {:induction false} NonBackgroundMembers(parts: seq<string>)
    ensures forall p :: p in NonBackground(parts) ==> p in parts
    decreases |parts|
  {
    hide Width;
    if parts != [] {
      NonBackgroundMembers(parts[Width(parts)..]);
    }
  }

  /**
  Where only the last parameter can be 48, all are non-background ones unless it is, and no foreground
  colour has it.
   */
  lemma {:induction false} LastOnly48(parts: seq<string>)
    requires parts != [] && forall i :: 0 <= i < |parts| - 1 ==> parts[i] != "48"
    ensures NonBackground(parts) == parts <==> (parts[|parts| - 1] == "48" ==> ForegroundHas48(parts))
    decreases |parts|
  {
    var n := Width(parts);
    var rest := parts[n..];
    assert parts == parts[..n] + rest;
    if parts[0] == "48" {
      assert rest == [];
    } else if rest == [] {
      assert NonBackground(parts) == parts;
      assert n > 1 && parts[|parts| - 1] == "48" ==> "48" in parts[..n];
    } else {
      LastOnly48(rest);
      assert "48" !in parts[..n];
      assert NonBackground(parts)[n..] == NonBackground(rest);
    }
  }

  // ---------------------------------------------------------------- all codes of a text

  /** The codes that are left when exactly the non-background parameters remain. */
  function WithoutBackgrounds(codes: seq<string>): seq<string> {
    if codes == [] then [] else CodeLeft(NonBackground(Params(codes[0]))) + WithoutBackgrounds(codes[1..])
  }

  function CodeLeft(params: seq<string>): seq<string> {
    if params == [] then [] else [Join(params, SEMICOLON) + "m"]
  }

  /** The codes that stripping leaves. */
  function CodesKept(codes: seq<string>): seq<string> {
    if codes == [] then [] else CodeKept(codes[0]) + CodesKept(codes[1..])
  }

  function CodeKept(code: string): seq<string> {
    match Outcome(code)
    case None => []
    case Some((c, _)) => [c]
  }

  /**
  In SGR text exactly the non-background parameters of all codes remain, in order, if and only if every
  code reads right.
   */
  lemma {:induction false} TextKeepsNonBackgroundIff(s: string)
    requires SgrText(s)
    ensures Codes(Stripped(s)) == WithoutBackgrounds(Codes(s)) <==> forall c :: c in Codes(s) ==> ReadsRight(c)
  {
    hide Stripped, Split, WithoutBackgrounds, CodesKept, ReadsRight, IsSgr;
    CodesOfStripped(s);
    SgrCodes(s);
    SameCodesIff(Codes(s));
  }

  lemma SgrCodes(s: string)
    requires SgrText(s)
    ensures forall c :: c in Codes(s) ==> IsSgr(c)
  {
    hide Split, CompleteCode, CodeEnd;
    forall c | c in Codes(s) ensures IsSgr(c) {
      var i :| 0 <= i < |Codes(s)| && Codes(s)[i] == c;
      assert CompleteCode(Code(Split(s, PREFIX)[i + 1]));
      SgrEnd(c);
    }
  }

  lemma SgrEnd(code: string)
    requires CompleteCode(code) && code[|code| - 1..] == "m"
    ensures IsSgr(code)
  {
    assert code[|code| - 1..][0] == code[|code| - 1];
  }

  lemma {:induction false} CodesOfStripped(s: string)
    requires CompleteText(s)
    ensures Codes(Stripped(s)) == CodesKept(Codes(s))
  {
    hide Split, CompleteText, WellFormed, Render, Stripped, KeptDoc, CodesKept;
    var doc := Parsed(s);
    ParsedRenders(s);
    StrippedText(s);
    var kept := KeptDoc(doc.head, doc.runs);
    CodesOfRender(doc);
    CodesOfRender(kept);
    RunsKept(doc.head, doc.runs);
    assert Codes(s) == RunCodes(doc.runs);
    assert Codes(Stripped(s)) == RunCodes(kept.runs);
  }

  function RunCodes(runs: seq<(string, string)>): (codes: seq<string>)
    ensures |codes| == |runs| && forall i :: 0 <= i < |runs| ==> codes[i] == runs[i].0
  {
    seq(|runs|, i requires 0 <= i < |runs| => runs[i].0)
  }

  lemma {:induction false} RunsKept(head: string, runs: seq<(string, string)>)
    ensures RunCodes(KeptDoc(head, runs).runs) == CodesKept(RunCodes(runs))
    decreases |runs|
  {
    hide Outcome;
    if runs != [] {
      var (code, tail) := runs[0];
      assert RunCodes(runs)[0] == code && RunCodes(runs)[1..] == RunCodes(runs[1..]);
      match Outcome(code) {
        case None =>
          RunsKept(head + tail, runs[1..]);
        case Some((c, extra)) =>
          RunsKept(extra + tail, runs[1..]);
          var rest := KeptDoc(extra + tail, runs[1..]);
          assert RunCodes([(c, rest.head)] + rest.runs) == [c] + RunCodes(rest.runs);
      }
    }
  }

  /**
  One code at a time: nothing is left where something should be never happens, so no code can make up for
  another.
   */
  lemma {:induction false} SameCodesIff(codes: seq<string>)
    requires forall c :: c in codes ==> IsSgr(c)
    ensures CodesKept(codes) == WithoutBackgrounds(codes) <==> forall c :: c in codes ==> ReadsRight(c)
    ensures |WithoutBackgrounds(codes)| <= |CodesKept(codes)|
  {
    hide IsSgr, ReadsRight, CodeKept, CodeLeft, NonBackground, Params;
    if codes != [] {
      var first := codes[0];
      SameCodesIff(codes[1..]);
      CodeIsLeftIff(first);
      SameHead(CodeKept(first), CodesKept(codes[1..]), CodeLeft(NonBackground(Params(first))),
          WithoutBackgrounds(codes[1..]));
      assert forall c :: c in codes <==> c == first || c in codes[1..];
    }
  }

  lemma SameHead(a: seq<string>, x: seq<string>, b: seq<string>, y: seq<string>)
    requires |b| <= |a| && |y| <= |x|
    ensures a + x == b + y <==> a == b && x == y
  {
    if a + x == b + y {
      assert |a| == |b|;
      assert (a + x)[..|a|] == a && (b + y)[..|b|] == b;
      assert (a + x)[|a|..] == x && (b + y)[|b|..] == y;
    }
  }

  lemma CodeIsLeftIff(code: string)
    requires IsSgr(code)
    ensures CodeKept(code) == CodeLeft(NonBackground(Params(code))) <==> ReadsRight(code)
    ensures |CodeLeft(NonBackground(Params(code)))| <= |CodeKept(code)|
  {
    hide CompleteCode, Params, NonBackground, ReadsRight, KeptCode, Outcome, Join, Written;
    var left := NonBackground(Params(code));
    CodeKeepsNonBackgroundIff(code);
    KeptIsWritten(code);
    LeftIsWritten(left);
    if left != [] {
      SomethingKept(code);
    }
    if CodeKept(code) != [] && left != [] {
      SameCode(CodeKept(code)[0], CodeLeft(left)[0]);
    }
  }

  lemma KeptIsWritten(code: string)
    requires IsSgr(code)
    ensures KeptCode(code) == if CodeKept(code) == [] then "" else PREFIX + CodeKept(code)[0]
  {
    hide KeptCode, Outcome, CompleteCode, IsBackgroundCode;
    OutcomeIsKept(code);
    OutcomeIsSound(code);
    if CodeKept(code) != [] {
      assert PREFIX + CodeKept(code)[0] + "" == PREFIX + CodeKept(code)[0];
    }
  }

  lemma LeftIsWritten(params: seq<string>)
    ensures Written(params) == if params == [] then "" else PREFIX + CodeLeft(params)[0]
  {
    hide Join;
    if params != [] {
      Glue(Join(params, SEMICOLON));
    }
  }

  lemma SameCode(a: string, b: string)
    ensures PREFIX + a == PREFIX + b <==> a == b
  {
    assert (PREFIX + a)[2..] == a && (PREFIX + b)[2..] == b;
  }

  lemma SomethingKept(code: string)
    requires IsSgr(code) && NonBackground(Params(code)) != []
    ensures CodeKept(code) != []
  {
    hide CompleteCode, Params, NonBackground, KeptCode, Join, IsBackgroundCode, Kept;
    KeptIsWritten(code);
    if IsBackgroundCode(code) {
      BackgroundIsWritten(code);
      if Kept(Params(code)) == [] {
        KeptIfNonBackground(Params(code));
      }
    }
  }

  lemma {:induction false} KeptIfNonBackground(parts: seq<string>)
    requires Kept(parts) == []
    ensures NonBackground(parts) == []
    decreases |parts|
  {
    if parts != [] {
      KeptIfNonBackground(parts[Consumed(parts)..]);
    }
  }

  // ---------------------------------------------------------------- palette colour 48

  lemma ParamsOfCode(params: seq<string>)
    requires params != [] && forall p :: p in params ==> Parameter(p)
    ensures var code := Join(params, SEMICOLON) + "m"; IsSgr(code) && Params(code) == params
  {
    hide Contains, Split, Join;
    JoinOfParams(params);
    SplitOfJoin(params, SEMICOLON);
    BodyOfCode(Join(params, SEMICOLON));
  }

  lemma BodyOfCode(body: string)
    requires AllParams(body)
    ensures IsSgr(body + "m") && TrimM(body + "m") == body
  {
    var code := body + "m";
    assert code[..|code| - 1] == body && code[|code| - 1] == 'm';
  }

  lemma BackgroundParams(code: string)
    requires IsSgr(code)
    ensures IsBackgroundCode(code) <==> "48" in Params(code)[..|Params(code)| - 1]
  {
    hide Split, IsBackgroundCode, Contains;
    var params, parts := Params(code), Split(code, SEMICOLON);
    BackgroundCodeParts(code);
    SplitOfCode(TrimM(code), 'm');
    assert code == TrimM(code) + "m" && |parts| == |params|;
    assert parts[..|params| - 1] == params[..|params| - 1];
    assert forall i :: 0 <= i < |params| - 1 ==> parts[i] == params[..|params| - 1][i];
  }

  /**
  A foreground colour 48 of the palette is kept where its code ends there; where more follows, the 48 is
  dropped and the two parameters in front of it stay.
   */
  lemma {:induction false} Foreground48(rest: seq<string>)
    requires (forall p :: p in rest ==> Parameter(p)) && "48" !in rest && "38" !in rest
    ensures var params := ["38", "5", "48"] + rest;
            var code := Join(params, SEMICOLON) + "m";
            && NonBackground(params) == params
            && KeptCode(code) == if rest == [] then PREFIX + code else Written(["38", "5"] + Kept(["48"] + rest))
  {
    hide Contains, Split, Join, IsBackgroundCode, KeptCode, Parameter;
    var params := ["38", "5", "48"] + rest;
    NumbersAreParameters();
    assert forall p :: p in params ==> p in ["38", "5", "48"] || p in rest;
    ParamsOfCode(params);
    var code := Join(params, SEMICOLON) + "m";
    BackgroundParams(code);
    AllForeground(rest);
    assert "48" in params[..|params| - 1] <==> rest != [] by {
      assert rest != [] ==> params[..|params| - 1][2] == "48";
      assert rest == [] ==> params[..|params| - 1] == ["38", "5"];
    }
    if rest == [] {
      PlainIsWritten(code);
      Glue(Join(params, SEMICOLON));
    } else {
      BackgroundIsWritten(code);
      assert params == ["38", "5"] + (["48"] + rest);
      KeptOfPlain(["38", "5"], ["48"] + rest);
    }
  }

  lemma NumbersAreParameters()
    ensures Parameter("38") && Parameter("5") && Parameter("48")
  {
    ContainsChar("38", ';');
    ContainsChar("5", ';');
    ContainsChar("48", ';');
  }

  lemma AllForeground(rest: seq<string>)
    requires "48" !in rest && "38" !in rest
    ensures NonBackground(["38", "5", "48"] + rest) == ["38", "5", "48"] + rest
  {
    var params := ["38", "5", "48"] + rest;
    assert Width(params) == 3 && params[3..] == rest && params[..3] == ["38", "5", "48"];
    NoColours(rest);
  }

  lemma {:induction false} NoColours(rest: seq<string>)
    requires "48" !in rest && "38" !in rest
    ensures NonBackground(rest) == rest
  {
    if rest != [] {
      NoColours(rest[1..]);
      assert rest == rest[..1] + rest[1..];
    }
  }

  // ---------------------------------------------------------------- what is written, in so many characters

  /** A background colour is 48;5;n, 48;2;r;g;b, either cut short at the end, or 48 alone. */
  lemma {:induction false} BackgroundForms(front: seq<string>, args: seq<string>, rest: seq<string>)
    requires "48" !in front
    ensures |args| == 4 && args[0] == "2" ==> Kept(front + (["48"] + args + rest)) == front + Kept(rest)
    ensures |args| == 2 && args[0] == "5" ==> Kept(front + (["48"] + args + rest)) == front + Kept(rest)
    ensures args == [] && rest != [] && rest[0] != "2" && rest[0] != "5" ==>
              Kept(front + (["48"] + args + rest)) == front + Kept(rest)
    ensures rest == [] && (args == [] || (args[0] == "2" && |args| <= 4) || (args[0] == "5" && |args| <= 2)) ==>
              Kept(front + (["48"] + args + rest)) == front
  {
    var parts := ["48"] + args + rest;
    KeptOfPlain(front, parts);
    assert parts[0] == "48" && (args != [] ==> parts[1] == args[0]);
    assert args == [] && rest != [] ==> parts[1] == rest[0];
    assert parts[1 + |args|..] == rest && parts[|parts|..] == [];
    assert front + [] == front;
  }

  lemma DigitsAreParameters(params: seq<string>)
    requires forall p :: p in params ==> forall c :: c in p ==> '0' <= c <= '9'
    ensures forall p :: p in params ==> Parameter(p)
  {
    forall p | p in params ensures Parameter(p) {
      ContainsChar(p, ';');
      assert forall k :: 0 <= k < |p| ==> p[k] in p;
    }
  }

  /** An SGR code between two texts without an escape character: its text, and what stripping leaves of it. */
  lemma {:induction false} OneCodeStripped(head: string, params: seq<string>, tail: string)
    requires params != [] && forall p :: p in params ==> forall c :: c in p ==> '0' <= c <= '9'
    requires '\U{001B}' !in head && '\U{001B}' !in tail
    ensures var code, kept := Join(params, ";"), Kept(params);
            && Visible(head + ("\U{001B}[" + code + "m") + tail) == head + tail
            && Stripped(head + ("\U{001B}[" + code + "m") + tail) ==
                 head
                 + (if "48" !in params[..|params| - 1] then "\U{001B}[" + code + "m"
                    else if kept == [] then ""
                    else "\U{001B}[" + Join(kept, ";") + "m")
                 + tail
  {
    hide Join, Split, Contains, Kept, CompleteCode, Parameter, KeptCode, IsBackgroundCode, Visible, Stripped;
    DigitsAreParameters(params);
    ParamsOfCode(params);
    var code := Join(params, ";") + "m";
    BackgroundParams(code);
    if IsBackgroundCode(code) {
      BackgroundIsWritten(code);
    } else {
      PlainIsWritten(code);
    }
    OneRunText(head, code, tail);
    Glue(Join(params, ";"));
  }

  lemma OneRunText(head: string, code: string, tail: string)
    requires IsSgr(code) && ESC !in head && ESC !in tail
    ensures Visible(head + (PREFIX + code) + tail) == head + tail
    ensures Stripped(head + (PREFIX + code) + tail) == head + KeptCode(code) + tail
  {
    hide Join, Split, Contains, KeptCode, Visible, Stripped, CompleteCode;
    var doc := Doc(head, [(code, tail)]);
    OneRunRenders(head, code, tail);
    VisibleOfRender(doc);
    StrippedRender(doc);
  }

  lemma OneRunRenders(head: string, code: string, tail: string)
    requires IsSgr(code) && ESC !in head && ESC !in tail
    ensures WellFormed(Doc(head, [(code, tail)]))
    ensures Render(Doc(head, [(code, tail)])) == head + (PREFIX + code) + tail
    ensures Tails([(code, tail)]) == tail
    ensures head + KeptRuns([(code, tail)]) == head + KeptCode(code) + tail
  {
    hide CompleteCode, KeptCode;
    var runs := [(code, tail)];
    assert runs[1..] == [];
    assert RenderRuns(runs) == PREFIX + code + tail;
    ThreePieces(head, PREFIX + code, tail);
    assert KeptRuns(runs) == KeptCode(code) + tail;
    ThreePieces(head, KeptCode(code), tail);
  }

  lemma ThreePieces(a: string, b: string, c: string)
    ensures a + (b + c) == a + b + c
  {
  }
}
