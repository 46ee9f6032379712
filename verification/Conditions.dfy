/**
Conditions of steps (pkg/condition): a `when` or `continue` is a small tree of predicates and CEL
expressions over the facts of a run. The CEL evaluator itself is a given function.
 */
module Conditions {
  import opened Options

  datatype Result<+T> = Ok(value: T) | Err(message: string)

  datatype FileFact = FileFact(path: string, mtime: int, checksum: string)

  /** The facts that pkg/runner/freshness computes for a step. */
  datatype Facts = Facts(
    checksumChanged: bool,
    timestampChanged: bool,
    preconditionsSuccess: bool,
    sources: seq<FileFact>,
    artifacts: seq<FileFact>)

  const NO_FACTS := Facts(false, false, false, [], [])

  datatype Status = Success | Failure

  /** others stands for the facts that no step changes: names, environment, flags, arguments, platform. */
  datatype Context = Context(ci: bool, status: Status, facts: Facts, others: map<string, string>)

  type Cel = (string, Context) -> Result<bool>

  datatype Node =
    | Predicate(name: string)
    | Expression(text: string)
    | AllOf(children: seq<Node>)
    | AnyOf(children: seq<Node>)
    | Not(children: seq<Node>)

  /** None is a condition that was not configured. */
  type Condition = Option<Node>

  const SUCCESS := "success"
  const FAILURE := "failure"
  const ALWAYS := "always"

  // ---------------------------------------------------------------- evaluation

  predicate Holds(name: string, ctx: Context) {
    if name == "ci" then ctx.ci
    else if name == "local" then !ctx.ci
    else if name == ALWAYS then true
    else if name == SUCCESS then ctx.status == Success
    else if name == FAILURE then ctx.status == Failure
    else false
  }

  function Eval(n: Node, cel: Cel, ctx: Context): Result<bool> {
    match n
    case Predicate(name) => Ok(Holds(name, ctx))
    case Expression(text) => cel(text, ctx)
    case AllOf(children) => EvalAll(children, cel, ctx)
    case AnyOf(children) => EvalAny(children, cel, ctx)
    case Not(children) =>
      if |children| != 1 then Ok(false)
      else
        var r := Eval(children[0], cel, ctx);
        if r.Ok? then Ok(!r.value) else r
  }

  function EvalAll(children: seq<Node>, cel: Cel, ctx: Context): Result<bool> {
    if children == [] then Ok(true)
    else
      var r := Eval(children[0], cel, ctx);
      if r != Ok(true) then r else EvalAll(children[1..], cel, ctx)
  }

  function EvalAny(children: seq<Node>, cel: Cel, ctx: Context): Result<bool> {
    if children == [] then Ok(false)
    else
      var r := Eval(children[0], cel, ctx);
      if r != Ok(false) then r else EvalAny(children[1..], cel, ctx)
  }

  /** For `when`: a condition that says nothing about the status also asks for success. */
  function EvaluateWithImplicitSuccess(c: Condition, cel: Cel, ctx: Context): Result<bool> {
    if c.None? then Ok(ctx.status == Success)
    else if !MentionsLifecycleStatus(c) && ctx.status != Success then Ok(false)
    else Eval(c.value, cel, ctx)
  }

  /** For `continue`: what is not configured forgives nothing. */
  function EvaluateContinue(c: Condition, cel: Cel, ctx: Context): Result<bool> {
    if c.None? then Ok(false) else Eval(c.value, cel, ctx)
  }

  // ---------------------------------------------------------------- what a condition means

  /** The facts that a bare word stands for; another word stands for nothing and is false. */
  predicate WordMeans(name: string, ctx: Context, value: bool) {
    && (name == "ci" ==> (value <==> ctx.ci))
    && (name == "local" ==> (value <==> !ctx.ci))
    && (name == "always" ==> value)
    && (name == "success" ==> (value <==> ctx.status.Success?))
    && (name == "failure" ==> (value <==> ctx.status.Failure?))
    && (name !in {"ci", "local", "always", "success", "failure"} ==> !value)
  }

  /** The value of a condition is true, false or an error. */
  ghost predicate Means(n: Node, cel: Cel, ctx: Context, r: Result<bool>) {
    match n
    case Predicate(name) => r.Ok? && WordMeans(name, ctx, r.value)
    case Expression(text) => r == cel(text, ctx)
    case Not(children) =>
      if |children| == 1 then
        match r
        case Ok(true) => Means(children[0], cel, ctx, Ok(false))
        case Ok(false) => Means(children[0], cel, ctx, Ok(true))
        case Err(_) => Means(children[0], cel, ctx, r)
      else r == Ok(false)
    case AllOf(children) =>
      || (r == Ok(true) && forall i :: 0 <= i < |children| ==> Means(children[i], cel, ctx, Ok(true)))
      || exists k :: 0 <= k < |children| && r != Ok(true) && Means(children[k], cel, ctx, r)
           && forall i :: 0 <= i < k ==> Means(children[i], cel, ctx, Ok(true))
    case AnyOf(children) =>
      || (r == Ok(false) && forall i :: 0 <= i < |children| ==> Means(children[i], cel, ctx, Ok(false)))
      || exists k :: 0 <= k < |children| && r != Ok(false) && Means(children[k], cel, ctx, r)
           && forall i :: 0 <= i < k ==> Means(children[i], cel, ctx, Ok(false))
  }

  /** Where the values of the children are those, and the first that is not goOn ends it, or else goOn does. */
  ghost predicate EndsAt(values: seq<Result<bool>>, goOn: bool, r: Result<bool>) {
    || (r == Ok(goOn) && forall i :: 0 <= i < |values| ==> values[i] == Ok(goOn))
    || exists k :: 0 <= k < |values| && r != Ok(goOn) && values[k] == r
         && forall i :: 0 <= i < k ==> values[i] == Ok(goOn)
  }

  lemma EndsOnce(values: seq<Result<bool>>, goOn: bool, r: Result<bool>, q: Result<bool>)
    requires EndsAt(values, goOn, r) && EndsAt(values, goOn, q)
    ensures r == q
  {
  }

  function Values(children: seq<Node>, cel: Cel, ctx: Context): (values: seq<Result<bool>>)
    ensures |values| == |children| && forall i :: 0 <= i < |children| ==> values[i] == Eval(children[i], cel, ctx)
  {
    seq(|children|, i requires 0 <= i < |children| => Eval(children[i], cel, ctx))
  }

  lemma {:induction false} EvalAllEnds(children: seq<Node>, cel: Cel, ctx: Context)
    ensures EndsAt(Values(children, cel, ctx), true, EvalAll(children, cel, ctx))
    decreases children
  {
    hide Eval, EndsAt;
    if children == [] {
      NoneLeft(true);
      assert Values(children, cel, ctx) == [];
    } else {
      EvalAllEnds(children[1..], cel, ctx);
      FirstEnds(Values(children, cel, ctx), true, EvalAll(children[1..], cel, ctx));
      assert Values(children, cel, ctx)[1..] == Values(children[1..], cel, ctx);
    }
  }

  lemma {:induction false} EvalAnyEnds(children: seq<Node>, cel: Cel, ctx: Context)
    ensures EndsAt(Values(children, cel, ctx), false, EvalAny(children, cel, ctx))
    decreases children
  {
    hide Eval, EndsAt;
    if children == [] {
      NoneLeft(false);
      assert Values(children, cel, ctx) == [];
    } else {
      EvalAnyEnds(children[1..], cel, ctx);
      FirstEnds(Values(children, cel, ctx), false, EvalAny(children[1..], cel, ctx));
      assert Values(children, cel, ctx)[1..] == Values(children[1..], cel, ctx);
    }
  }

  lemma NoneLeft(goOn: bool)
    ensures EndsAt([], goOn, Ok(goOn))
  {
  }

  lemma FirstEnds(values: seq<Result<bool>>, goOn: bool, rest: Result<bool>)
    requires values != []
    ensures values[0] != Ok(goOn) ==> EndsAt(values, goOn, values[0])
    ensures values[0] == Ok(goOn) && EndsAt(values[1..], goOn, rest) ==> EndsAt(values, goOn, rest)
  {
    if values[0] == Ok(goOn) && EndsAt(values[1..], goOn, rest) {
      assert forall i :: 1 <= i < |values| ==> values[i] == values[1..][i - 1];
      if rest != Ok(goOn) {
        var k :| 0 <= k < |values[1..]| && values[1..][k] == rest
          && forall i :: 0 <= i < k ==> values[1..][i] == Ok(goOn);
        assert values[k + 1] == rest;
        forall i | 0 <= i < k + 1 ensures values[i] == Ok(goOn) {
          assert i > 0 ==> values[i] == values[1..][i - 1];
        }
      }
    }
  }

  /** A condition has one meaning, and evaluation computes it. */
  lemma {:induction false} EvalIsMeaning(n: Node, cel: Cel, ctx: Context, r: Result<bool>)
    ensures Means(n, cel, ctx, r) <==> Eval(n, cel, ctx) == r
    decreases n
  {
    match n
    case Predicate(_) =>
    case Expression(_) =>
    case Not(children) =>
      if |children| == 1 {
        NegationIsMeaning(n, cel, ctx, r);
      }
    case AllOf(children) =>
      ChildrenMean(n, children, cel, ctx);
      AllIsMeaning(children, cel, ctx, r);
    case AnyOf(children) =>
      ChildrenMean(n, children, cel, ctx);
      AnyIsMeaning(children, cel, ctx, r);
  }

  lemma {:induction false} NegationIsMeaning(n: Node, cel: Cel, ctx: Context, r: Result<bool>)
    requires n.Not? && |n.children| == 1
    ensures Means(n, cel, ctx, r) <==> Eval(n, cel, ctx) == r
    decreases n, 0
  {
    EvalIsMeaning(n.children[0], cel, ctx, Ok(true));
    EvalIsMeaning(n.children[0], cel, ctx, Ok(false));
    EvalIsMeaning(n.children[0], cel, ctx, r);
  }

  lemma {:induction false} ChildrenMean(n: Node, children: seq<Node>, cel: Cel, ctx: Context)
    requires (n.AllOf? || n.AnyOf?) && n.children == children
    ensures EachMeans(children, cel, ctx)
    decreases n, 0
  {
    forall i, r | 0 <= i < |children| ensures Means(children[i], cel, ctx, r) <==> Eval(children[i], cel, ctx) == r {
      EvalIsMeaning(children[i], cel, ctx, r);
    }
  }

  ghost predicate EachMeans(children: seq<Node>, cel: Cel, ctx: Context) {
    forall i, r :: 0 <= i < |children| ==> (Means(children[i], cel, ctx, r) <==> Eval(children[i], cel, ctx) == r)
  }

  lemma AllIsMeaning(children: seq<Node>, cel: Cel, ctx: Context, r: Result<bool>)
    requires EachMeans(children, cel, ctx)
    ensures Means(AllOf(children), cel, ctx, r) <==> EvalAll(children, cel, ctx) == r
  {
    hide Eval, EvalAll, EndsAt;
    EvalAllEnds(children, cel, ctx);
    MeansEnds(children, cel, ctx, r);
    if Means(AllOf(children), cel, ctx, r) {
      EndsOnce(Values(children, cel, ctx), true, r, EvalAll(children, cel, ctx));
    }
  }

  lemma AnyIsMeaning(children: seq<Node>, cel: Cel, ctx: Context, r: Result<bool>)
    requires EachMeans(children, cel, ctx)
    ensures Means(AnyOf(children), cel, ctx, r) <==> EvalAny(children, cel, ctx) == r
  {
    hide Eval, EvalAny, EndsAt;
    EvalAnyEnds(children, cel, ctx);
    MeansEnds(children, cel, ctx, r);
    if Means(AnyOf(children), cel, ctx, r) {
      EndsOnce(Values(children, cel, ctx), false, r, EvalAny(children, cel, ctx));
    }
  }

  lemma MeansEnds(children: seq<Node>, cel: Cel, ctx: Context, r: Result<bool>)
    requires EachMeans(children, cel, ctx)
    ensures Means(AllOf(children), cel, ctx, r) <==> EndsAt(Values(children, cel, ctx), true, r)
    ensures Means(AnyOf(children), cel, ctx, r) <==> EndsAt(Values(children, cel, ctx), false, r)
  {
    hide Eval;
  }

  // ---------------------------------------------------------------- what a condition mentions

  predicate IsNameChar(c: char) {
    c == '_' || c == '.' || '0' <= c <= '9' || 'A' <= c <= 'Z' || 'a' <= c <= 'z'
  }

  /** The maximal run of name characters that starts at i is ident, or starts with ident and a dot. */
  predicate TokenAt(text: string, ident: string, i: int) {
    && 0 <= i && i + |ident| <= |text|
    && (i > 0 ==> !IsNameChar(text[i - 1]))
    && text[i..i + |ident|] == ident
    && (i + |ident| < |text| ==> text[i + |ident|] == '.' || !IsNameChar(text[i + |ident|]))
  }

  predicate TextMentions(text: string, ident: string) {
    exists i :: 0 <= i <= |text| && TokenAt(text, ident, i)
  }

  /** text[a..b] is a token: as many name characters as stand together. */
  predicate IsToken(text: string, a: int, b: int) {
    && 0 <= a < b <= |text|
    && (forall k :: a <= k < b ==> IsTokenChar(text[k]))
    && (a > 0 ==> !IsTokenChar(text[a - 1]))
    && (b < |text| ==> !IsTokenChar(text[b]))
  }

  /** Letters and digits of ASCII, `_` and `.`, by code. */
  predicate IsTokenChar(c: char) {
    48 <= c as int <= 57 || 65 <= c as int <= 90 || 97 <= c as int <= 122 || c as int in {46, 95}
  }

  lemma TokenCharsAre()
    ensures forall c :: IsTokenChar(c) <==> IsNameChar(c)
  {
  }

  /** An identifier is mentioned exactly when some token is the identifier, or is a path that starts with it. */
  lemma {:induction false} MentionsIsToken(text: string, ident: string)
    requires ident != "" && forall c :: c in ident ==> IsNameChar(c)
    ensures TextMentions(text, ident) <==>
              exists a, b :: IsToken(text, a, b) && (text[a..b] == ident || ident + "." <= text[a..b])
  {
    TokenCharsAre();
    hide IsNameChar, IsTokenChar;
    if TextMentions(text, ident) {
      var i :| 0 <= i <= |text| && TokenAt(text, ident, i);
      TokenAround(text, ident, i);
    }
    forall a, b | IsToken(text, a, b) && (text[a..b] == ident || ident + "." <= text[a..b])
      ensures TextMentions(text, ident)
    {
      StartsToken(text, ident, a, b);
    }
  }

  lemma TokenAround(text: string, ident: string, i: nat)
    requires ident != "" && (forall c :: c in ident ==> IsNameChar(c)) && TokenAt(text, ident, i)
    ensures exists a, b :: IsToken(text, a, b) && (text[a..b] == ident || ident + "." <= text[a..b])
  {
    TokenCharsAre();
    hide IsNameChar, IsTokenChar;
    var lo := i + |ident|;
    forall k | i <= k < lo ensures IsNameChar(text[k]) {
      assert text[k] == text[i..lo][k - i];
    }
    var b := TokenEnd(text, i, lo);
    if b > lo {
      assert text[lo] == '.';
      assert text[i..b][..|ident| + 1] == ident + ".";
    }
  }

  lemma StartsToken(text: string, ident: string, a: int, b: int)
    requires ident != "" && IsToken(text, a, b) && (text[a..b] == ident || ident + "." <= text[a..b])
    ensures TextMentions(text, ident)
  {
    TokenCharsAre();
    hide IsNameChar, IsTokenChar;
    var token := text[a..b];
    assert token[..|ident|] == ident;
    assert text[a..a + |ident|] == ident;
    if token != ident {
      assert token[|ident|] == '.' == text[a + |ident|];
    }
    assert TokenAt(text, ident, a);
  }

  lemma {:induction false} TokenEnd(text: string, a: nat, lo: nat) returns (b: nat)
    requires a < lo <= |text| && (forall k :: a <= k < lo ==> IsNameChar(text[k]))
    requires a > 0 ==> !IsNameChar(text[a - 1])
    ensures lo <= b && IsToken(text, a, b)
    decreases |text| - lo
  {
    TokenCharsAre();
    hide IsNameChar, IsTokenChar;
    if lo < |text| && IsNameChar(text[lo]) {
      b := TokenEnd(text, a, lo + 1);
    } else {
      b := lo;
    }
  }

  predicate NodeMentions(n: Node, ident: string) {
    match n
    case Predicate(_) => false
    case Expression(text) => TextMentions(text, ident)
    case AllOf(children) => exists c :: c in children && NodeMentions(c, ident)
    case AnyOf(children) => exists c :: c in children && NodeMentions(c, ident)
    case Not(children) => exists c :: c in children && NodeMentions(c, ident)
  }

  predicate NodeMentionsPredicate(n: Node, names: set<string>) {
    match n
    case Predicate(name) => name in names
    case Expression(_) => false
    case AllOf(children) => exists c :: c in children && NodeMentionsPredicate(c, names)
    case AnyOf(children) => exists c :: c in children && NodeMentionsPredicate(c, names)
    case Not(children) => exists c :: c in children && NodeMentionsPredicate(c, names)
  }

  predicate Mentions(c: Condition, ident: string) {
    c.Some? && NodeMentions(c.value, ident)
  }

  predicate MentionsLifecycleStatus(c: Condition) {
    c.Some? && (NodeMentionsPredicate(c.value, {SUCCESS, FAILURE, ALWAYS}) || NodeMentions(c.value, "status"))
  }

  // ---------------------------------------------------------------- what is not mentioned does not matter

  const PRECONDITIONS := "preconditions"

  /** CEL resolves a leading dot at the root, where the scan for mentions does not look. */
  const ROOTED_PRECONDITIONS := ".preconditions"

  /** The preconditions occur in the text, whether or not the scan finds a mention of them. */
  predicate TextReaches(text: string) {
    TextMentions(text, PRECONDITIONS) || TextMentions(text, ROOTED_PRECONDITIONS)
  }

  /** Some expression has a token that is .preconditions, or that starts with it and a dot. */
  predicate IsRooted(c: Condition) {
    Mentions(c, ROOTED_PRECONDITIONS)
  }

  predicate SameButPreconditions(c: Context, d: Context) {
    d == c.(facts := c.facts.(preconditionsSuccess := d.facts.preconditionsSuccess))
  }

  /** Assumed of the CEL evaluator: an expression in which the preconditions do not occur does not read them. */
  ghost predicate ReadsWhatOccurs(cel: Cel) {
    forall text, c, d :: SameButPreconditions(c, d) && !TextReaches(text) ==> cel(text, c) == cel(text, d)
  }

  lemma {:induction false} UnmentionedDoesNotMatter(n: Node, cel: Cel, c: Context, d: Context)
    requires ReadsWhatOccurs(cel) && SameButPreconditions(c, d)
    requires !NodeMentions(n, PRECONDITIONS) && !NodeMentions(n, ROOTED_PRECONDITIONS)
    ensures Eval(n, cel, c) == Eval(n, cel, d)
    decreases n
  {
    hide TextMentions;
    match n
    case Predicate(_) =>
    case Expression(_) =>
    case AllOf(children) => UnmentionedInAll(children, cel, c, d);
    case AnyOf(children) => UnmentionedInAny(children, cel, c, d);
    case Not(children) =>
      if |children| == 1 {
        UnmentionedDoesNotMatter(children[0], cel, c, d);
      }
  }

  lemma {:induction false} UnmentionedInAll(children: seq<Node>, cel: Cel, c: Context, d: Context)
    requires ReadsWhatOccurs(cel) && SameButPreconditions(c, d)
    requires forall n :: n in children ==> !NodeMentions(n, PRECONDITIONS) && !NodeMentions(n, ROOTED_PRECONDITIONS)
    ensures EvalAll(children, cel, c) == EvalAll(children, cel, d)
    decreases children
  {
    hide ReadsWhatOccurs, SameButPreconditions, NodeMentions, Eval;
    if children != [] {
      UnmentionedDoesNotMatter(children[0], cel, c, d);
      UnmentionedInAll(children[1..], cel, c, d);
    }
  }

  lemma {:induction false} UnmentionedInAny(children: seq<Node>, cel: Cel, c: Context, d: Context)
    requires ReadsWhatOccurs(cel) && SameButPreconditions(c, d)
    requires forall n :: n in children ==> !NodeMentions(n, PRECONDITIONS) && !NodeMentions(n, ROOTED_PRECONDITIONS)
    ensures EvalAny(children, cel, c) == EvalAny(children, cel, d)
    decreases children
  {
    hide ReadsWhatOccurs, SameButPreconditions, NodeMentions, Eval;
    if children != [] {
      UnmentionedDoesNotMatter(children[0], cel, c, d);
      UnmentionedInAny(children[1..], cel, c, d);
    }
  }

  // ---------------------------------------------------------------- evaluation that comes to a leading dot

  /** Evaluation comes to an expression in which .preconditions occurs. */
  predicate Reaches(n: Node, cel: Cel, ctx: Context) {
    match n
    case Predicate(_) => false
    case Expression(text) => TextMentions(text, ROOTED_PRECONDITIONS)
    case AllOf(children) => ReachesAmong(children, true, cel, ctx)
    case AnyOf(children) => ReachesAmong(children, false, cel, ctx)
    case Not(children) => |children| == 1 && Reaches(children[0], cel, ctx)
  }

  /** Evaluation goes on to the next of the children where one says goesOn. */
  predicate ReachesAmong(children: seq<Node>, goesOn: bool, cel: Cel, ctx: Context) {
    && children != []
    && (|| Reaches(children[0], cel, ctx)
        || (Eval(children[0], cel, ctx) == Ok(goesOn) && ReachesAmong(children[1..], goesOn, cel, ctx)))
  }

  const MET := "met"
  const UNMET := "unmet"

  /** The same evaluator but for expressions with .preconditions, which tell the preconditions by their error. */
  function Telling(cel: Cel): Cel {
    (text: string, ctx: Context) =>
      if TextMentions(text, ROOTED_PRECONDITIONS) then Err(if ctx.facts.preconditionsSuccess then MET else UNMET)
      else cel(text, ctx)
  }

  lemma TellingIsAsAssumed(cel: Cel)
    requires ReadsWhatOccurs(cel)
    ensures ReadsWhatOccurs(Telling(cel))
  {
    hide TextMentions;
  }

  /** c and d tell two evaluations of one step apart: without and with the preconditions. */
  predicate Apart(c: Context, d: Context) {
    SameButPreconditions(c, d) && !c.facts.preconditionsSuccess && d.facts.preconditionsSuccess
  }

  /** What does not come to a leading dot evaluates alike, without and with the preconditions, under both evaluators. */
  lemma {:induction false} NotReachedIsAlike(n: Node, cel: Cel, c: Context, d: Context)
    requires ReadsWhatOccurs(cel) && Apart(c, d) && !NodeMentions(n, PRECONDITIONS) && !Reaches(n, cel, c)
    ensures Eval(n, cel, d) == Eval(n, Telling(cel), c) == Eval(n, Telling(cel), d) == Eval(n, cel, c)
    decreases n
  {
    hide TextMentions;
    match n
    case Predicate(_) =>
    case Expression(text) =>
      assert !TextReaches(text);
    case AllOf(children) => NoneReachedAreAlike(children, true, cel, c, d);
    case AnyOf(children) => NoneReachedAreAlike(children, false, cel, c, d);
    case Not(children) =>
      if |children| == 1 {
        NotReachedIsAlike(children[0], cel, c, d);
      }
  }

  lemma {:induction false} NoneReachedAreAlike(children: seq<Node>, goesOn: bool, cel: Cel, c: Context, d: Context)
    requires ReadsWhatOccurs(cel) && Apart(c, d) && !ReachesAmong(children, goesOn, cel, c)
    requires forall n :: n in children ==> !NodeMentions(n, PRECONDITIONS)
    ensures goesOn ==>
              EvalAll(children, cel, d) == EvalAll(children, Telling(cel), c)
              == EvalAll(children, Telling(cel), d) == EvalAll(children, cel, c)
    ensures !goesOn ==>
              EvalAny(children, cel, d) == EvalAny(children, Telling(cel), c)
              == EvalAny(children, Telling(cel), d) == EvalAny(children, cel, c)
    decreases children
  {
    hide ReadsWhatOccurs, Apart, NodeMentions, Eval, Telling, Reaches;
    if children != [] {
      NotReachedIsAlike(children[0], cel, c, d);
      if Eval(children[0], cel, c) == Ok(goesOn) {
        NoneReachedAreAlike(children[1..], goesOn, cel, c, d);
      }
    }
  }

  /** What comes to a leading dot ends with the error that tells whether the preconditions are met. */
  lemma {:induction false} ReachedTells(n: Node, cel: Cel, c: Context, d: Context)
    requires ReadsWhatOccurs(cel) && Apart(c, d) && !NodeMentions(n, PRECONDITIONS) && Reaches(n, cel, c)
    ensures Eval(n, Telling(cel), c) == Err(UNMET) && Eval(n, Telling(cel), d) == Err(MET)
    decreases n
  {
    hide TextMentions;
    match n
    case Expression(_) =>
    case AllOf(children) => ReachedAmongTells(children, true, cel, c, d);
    case AnyOf(children) => ReachedAmongTells(children, false, cel, c, d);
    case Not(children) => ReachedTells(children[0], cel, c, d);
  }

  lemma {:induction false} ReachedAmongTells(children: seq<Node>, goesOn: bool, cel: Cel, c: Context, d: Context)
    requires ReadsWhatOccurs(cel) && Apart(c, d) && ReachesAmong(children, goesOn, cel, c)
    requires forall n :: n in children ==> !NodeMentions(n, PRECONDITIONS)
    ensures goesOn ==>
              EvalAll(children, Telling(cel), c) == Err(UNMET) && EvalAll(children, Telling(cel), d) == Err(MET)
    ensures !goesOn ==>
              EvalAny(children, Telling(cel), c) == Err(UNMET) && EvalAny(children, Telling(cel), d) == Err(MET)
    decreases children
  {
    hide ReadsWhatOccurs, Apart, NodeMentions, Eval, Telling, Reaches;
    if Reaches(children[0], cel, c) {
      ReachedTells(children[0], cel, c, d);
    } else {
      NotReachedIsAlike(children[0], cel, c, d);
      ReachedAmongTells(children[1..], goesOn, cel, c, d);
    }
  }

  /** Without a leading dot in any expression evaluation never comes to one. */
  lemma {:induction false} UnrootedIsNotReached(n: Node, cel: Cel, ctx: Context)
    requires !NodeMentions(n, ROOTED_PRECONDITIONS)
    ensures !Reaches(n, cel, ctx)
    decreases n
  {
    hide TextMentions;
    match n
    case Predicate(_) =>
    case Expression(_) =>
    case AllOf(children) => NoneRootedNoneReached(children, true, cel, ctx);
    case AnyOf(children) => NoneRootedNoneReached(children, false, cel, ctx);
    case Not(children) =>
      if |children| == 1 {
        UnrootedIsNotReached(children[0], cel, ctx);
      }
  }

  lemma {:induction false} NoneRootedNoneReached(children: seq<Node>, goesOn: bool, cel: Cel, ctx: Context)
    requires forall n :: n in children ==> !NodeMentions(n, ROOTED_PRECONDITIONS)
    ensures !ReachesAmong(children, goesOn, cel, ctx)
    decreases children
  {
    hide NodeMentions, Reaches, Eval;
    if children != [] {
      UnrootedIsNotReached(children[0], cel, ctx);
      NoneRootedNoneReached(children[1..], goesOn, cel, ctx);
    }
  }

  /** A token that starts with a dot hides the name behind it. */
  lemma LeadingDotHides(ident: string)
    requires ident in {PRECONDITIONS, "checksum", "timestamp", "sources", "artifacts"}
    ensures !TextMentions(".preconditions.success", ident)
  {
    var text := ".preconditions.success";
    assert forall i :: 0 <= i < |text| ==> IsNameChar(text[i]);
    assert ident != "" && ident[0] != '.';
    assert |ident| <= |text| ==> text[0..|ident|][0] == '.';
  }

  lemma LeadingDotReaches()
    ensures TextMentions(".preconditions.success", ROOTED_PRECONDITIONS)
  {
    assert TokenAt(".preconditions.success", ROOTED_PRECONDITIONS, 0);
  }
}
