/**
Running a custom command's steps (executeCustomCommand in cmd/cmd_utils.go, pkg/runner/freshness): a cheap
look at all the `when` conditions first, then the loop over the steps.
 */
module StepLoop {
  import opened Conditions
  import opened Options

  // ---------------------------------------------------------------- steps

  /** What one run of a step can fail with: silent is a silent exit code, reported a test failure already shown. */
  datatype StepError = StepError(message: string, silent: bool, reported: bool)

  datatype Step = Step(
    when': Condition,
    continue': Condition,
    inputs: bool,
    artifacts: bool,
    preconditions: bool,
    ci: bool,
    others: map<string, string>)

  datatype Outcome = Done | Failing(error: StepError) | Unprepared(message: string)

  /** What a step finds when its turn comes: the state of its files and tools, and how running it ends. */
  datatype Turn = Turn(
    sourceGlob: Option<string>,
    artifactGlob: Option<string>,
    sources: Result<seq<FileFact>>,
    artifacts: Result<seq<FileFact>>,
    timestampChanged: bool,
    checksumChanged: Result<bool>,
    toolsFound: bool,
    outcome: Outcome)

  // ---------------------------------------------------------------- freshness

  const CHECKSUM_CHANGED := "checksum.changed"
  const PRECONDITIONS_UNMET := "!preconditions.success"
  const CHECKSUM_CHANGED_OR_PRECONDITIONS_UNMET := "checksum.changed || !preconditions.success"

  /** A step that declares what its freshness depends on, and no `when`, gets one. */
  function EffectiveWhen(step: Step): Condition {
    if step.when'.Some? then step.when'
    else if (step.inputs || step.artifacts) && step.preconditions then
      Some(Expression(CHECKSUM_CHANGED_OR_PRECONDITIONS_UNMET))
    else if step.inputs || step.artifacts then Some(Expression(CHECKSUM_CHANGED))
    else if step.preconditions then Some(Expression(PRECONDITIONS_UNMET))
    else None
  }

  predicate MentionsAnyFreshnessFact(c: Condition) {
    || Mentions(c, "checksum")
    || Mentions(c, "timestamp")
    || Mentions(c, PRECONDITIONS)
    || Mentions(c, "sources")
    || Mentions(c, "artifacts")
  }

  /** Checker.Compute: only the facts that the condition mentions are looked up, but preconditions always are. */
  function Compute(c: Condition, step: Step, turn: Turn): Result<Facts> {
    var met := step.preconditions && turn.toolsFound;
    if !step.inputs && !step.artifacts then Ok(NO_FACTS.(preconditionsSuccess := met))
    else
      var sum, time := Mentions(c, "checksum"), Mentions(c, "timestamp");
      var src, art := Mentions(c, "sources"), Mentions(c, "artifacts");
      if (sum || time || src) && turn.sourceGlob.Some? then Err(turn.sourceGlob.value)
      else if (sum || time || art) && turn.artifactGlob.Some? then Err(turn.artifactGlob.value)
      else if src && turn.sources.Err? then Err(turn.sources.message)
      else if art && turn.artifacts.Err? then Err(turn.artifacts.message)
      else if sum && turn.checksumChanged.Err? then Err(turn.checksumChanged.message)
      else Ok(Facts(
          sum && turn.checksumChanged.value,
          time && turn.timestampChanged,
          met,
          if src then turn.sources.value else [],
          if art then turn.artifacts.value else []))
  }

  function StepContext(step: Step, status: Status): Context {
    Context(step.ci, status, NO_FACTS, step.others)
  }

  /** Whether a step runs, with the facts of its turn. */
  function Decide(step: Step, turn: Turn, cel: Cel, status: Status): Result<bool> {
    var effective := EffectiveWhen(step);
    var declared := step.inputs || step.artifacts || step.preconditions;
    var facts := if declared then Compute(effective, step, turn) else Ok(NO_FACTS);
    if facts.Err? then Err(facts.message)
    else EvaluateWithImplicitSuccess(effective, cel, StepContext(step, status).(facts := facts.value))
  }

  // ---------------------------------------------------------------- the look ahead

  datatype Look = Runnable(at: nat) | NothingRunnable | Broken(at: nat, message: string)

  /** The look ahead cannot know the freshness facts, and takes a step that mentions one for runnable. */
  predicate Deferred(step: Step) {
    MentionsAnyFreshnessFact(EffectiveWhen(step))
  }

  function Foresee(step: Step, cel: Cel): Result<bool> {
    EvaluateWithImplicitSuccess(step.when', cel, StepContext(step, Success))
  }

  predicate PassedOver(step: Step, cel: Cel) {
    !Deferred(step) && Foresee(step, cel) == Ok(false)
  }

  predicate IsLook(look: Look, steps: seq<Step>, cel: Cel) {
    match look
    case NothingRunnable => forall i :: 0 <= i < |steps| ==> PassedOver(steps[i], cel)
    case Runnable(j) =>
      && j < |steps|
      && (forall i :: 0 <= i < j ==> PassedOver(steps[i], cel))
      && (Deferred(steps[j]) || Foresee(steps[j], cel) == Ok(true))
    case Broken(j, message) =>
      && j < |steps|
      && (forall i :: 0 <= i < j ==> PassedOver(steps[i], cel))
      && !Deferred(steps[j]) && Foresee(steps[j], cel) == Err(message)
  }

  method LookAhead(steps: seq<Step>, cel: Cel) returns (look: Look)
    ensures IsLook(look, steps, cel)
  {
    hide EvaluateWithImplicitSuccess, MentionsAnyFreshnessFact, EffectiveWhen;
    for i := 0 to |steps|
      invariant forall k :: 0 <= k < i ==> PassedOver(steps[k], cel)
    {
      if MentionsAnyFreshnessFact(EffectiveWhen(steps[i])) {
        return Runnable(i);
      }
      var runs := EvaluateWithImplicitSuccess(steps[i].when', cel, StepContext(steps[i], Success));
      if runs.Err? {
        return Broken(i, runs.message);
      }
      if runs.value {
        return Runnable(i);
      }
    }
    return NothingRunnable;
  }

  // ---------------------------------------------------------------- what each turn comes to

  /** NotDecided and Stopped end the command at once; of these, only Stopped is a step that was entered. */
  datatype Event =
    | Skipped
    | NotDecided(message: string)
    | Stopped(message: string)
    | Succeeded
    | Forgiven(error: StepError)
    | Failed(error: StepError)
  {
    predicate Entered() { Stopped? || Succeeded? || Forgiven? || Failed? }
    predicate Final() { NotDecided? || Stopped? }
  }

  function TurnOf(step: Step, turn: Turn, cel: Cel, status: Status): Event {
    var runs := Decide(step, turn, cel, status);
    if runs.Err? then NotDecided(runs.message)
    else if !runs.value then Skipped
    else
      match turn.outcome
      case Unprepared(message) => Stopped(message)
      case Done => Succeeded
      case Failing(error) =>
        if error.silent then Stopped(error.message)
        else
          var forgiven := EvaluateContinue(step.continue', cel, StepContext(step, Failure));
          if forgiven.Err? then Stopped(forgiven.message)
          else if forgiven.value then Forgiven(error)
          else Failed(error)
  }

  /** Status after some turns: failure exactly when one of them failed and was not forgiven. */
  function StatusAfter(events: seq<Event>): Status {
    if exists i :: 0 <= i < |events| && events[i].Failed? then Failure else Success
  }

  predicate EventAt(events: seq<Event>, steps: seq<Step>, turns: seq<Turn>, cel: Cel, i: int)
    requires 0 <= i < |events| <= |steps| == |turns|
  {
    events[i] == TurnOf(steps[i], turns[i], cel, StatusAfter(events[..i]))
  }

  /** events is a whole run: one event a step, in order, up to the first that ends the command. */
  predicate IsRun(events: seq<Event>, steps: seq<Step>, turns: seq<Turn>, cel: Cel) {
    && |events| <= |steps| == |turns|
    && (forall i :: 0 <= i < |events| ==> EventAt(events, steps, turns, cel, i))
    && (forall i :: 0 <= i < |events| - 1 ==> !events[i].Final())
    && (|events| < |steps| ==> events != [] && events[|events| - 1].Final())
  }

  // ---------------------------------------------------------------- what the command returns

  /** Joined is errors.Join. */
  datatype CommandError =
    | Single(error: StepError)
    | Joined(first: CommandError, error: StepError)
    | SilentExit(code: int)

  datatype Ending = Ended(error: Option<CommandError>) | Abandoned(message: string)

  function Failures(events: seq<Event>): seq<StepError> {
    if events == [] then []
    else
      var last := events[|events| - 1];
      if last.Failed? then Failures(events[..|events| - 1]) + [last.error] else Failures(events[..|events| - 1])
  }

  function JoinAll(errors: seq<StepError>): CommandError
    requires errors != []
  {
    var n := |errors| - 1;
    if n == 0 then Single(errors[0]) else Joined(JoinAll(errors[..n]), errors[n])
  }

  predicate AllReported(errors: seq<StepError>) {
    forall i :: 0 <= i < |errors| ==> errors[i].reported
  }

  function EndingOf(events: seq<Event>, dependency: bool): Ending {
    var errors := Failures(events);
    if events != [] && events[|events| - 1].Final() then Abandoned(events[|events| - 1].message)
    else if errors == [] then Ended(None)
    else if AllReported(errors) && !dependency then Ended(Some(SilentExit(1)))
    else Ended(Some(JoinAll(errors)))
  }

  predicate Records(step: Step, event: Event) {
    event.Succeeded? && (step.inputs || step.artifacts)
  }

  /** The loop logs every turn; recorded lists the steps whose freshness it recorded. */
  method RunSteps(steps: seq<Step>, turns: seq<Turn>, cel: Cel, dependency: bool)
    returns (ending: Ending, log: seq<Event>, recorded: seq<nat>)
    requires |turns| == |steps|
    ensures IsRun(log, steps, turns, cel)
    ensures ending == EndingOf(log, dependency)
    ensures forall i: nat :: i in recorded <==> i < |log| && Records(steps[i], log[i])
  {
    hide Decide, EvaluateContinue, Failures, JoinAll, StatusAfter, AllReported;
    var commandErr: Option<CommandError> := None;
    var commandErrorsReported := true;
    var status := Success;
    log, recorded := [], [];
    NothingYet();
    var i: nat := 0;
    while i < |steps|
      invariant i == |log| <= |steps|
      invariant forall k :: 0 <= k < i ==> EventAt(log, steps, turns, cel, k) && !log[k].Final()
      invariant status == StatusAfter(log) == (if commandErr.None? then Success else Failure)
      invariant Collected(log, commandErr, commandErrorsReported)
      invariant forall k: nat :: k in recorded <==> k < i && Records(steps[k], log[k])
    {
      ghost var before := log;
      var step, turn := steps[i], turns[i];
      var runs := Decide(step, turn, cel, status);
      if runs.Err? {
        log := log + [NotDecided(runs.message)];
        OneMore(before, log, steps, turns, cel);
        return Abandoned(runs.message), log, recorded;
      }
      if !runs.value {
        log := log + [Skipped];
        OneMore(before, log, steps, turns, cel);
        i := i + 1;
        continue;
      }
      if turn.outcome.Unprepared? {
        log := log + [Stopped(turn.outcome.message)];
        OneMore(before, log, steps, turns, cel);
        return Abandoned(turn.outcome.message), log, recorded;
      }
      if turn.outcome.Failing? {
        var err := turn.outcome.error;
        if err.silent {
          log := log + [Stopped(err.message)];
          OneMore(before, log, steps, turns, cel);
          return Abandoned(err.message), log, recorded;
        }
        var forgiven := EvaluateContinue(step.continue', cel, StepContext(step, Failure));
        if forgiven.Err? {
          log := log + [Stopped(forgiven.message)];
          OneMore(before, log, steps, turns, cel);
          return Abandoned(forgiven.message), log, recorded;
        }
        if forgiven.value {
          log := log + [Forgiven(err)];
          OneMore(before, log, steps, turns, cel);
          i := i + 1;
          continue;
        }
        commandErrorsReported := commandErrorsReported && err.reported;
        if commandErr.None? {
          commandErr := Some(Single(err));
        } else {
          commandErr := Some(Joined(commandErr.value, err));
        }
        status := Failure;
        log := log + [Failed(err)];
        OneMore(before, log, steps, turns, cel);
        OneMoreFailure(before, err);
      } else {
        log := log + [Succeeded];
        OneMore(before, log, steps, turns, cel);
        if step.inputs || step.artifacts {
          recorded := recorded + [i];
        }
      }
      i := i + 1;
    }
    if commandErr.Some? && commandErrorsReported && !dependency {
      commandErr := Some(SilentExit(1));
    }
    return Ended(commandErr), log, recorded;
  }

  predicate Collected(events: seq<Event>, error: Option<CommandError>, reported: bool) {
    && (error.None? <==> Failures(events) == [])
    && (error.Some? ==> error.value == JoinAll(Failures(events)))
    && (reported <==> AllReported(Failures(events)))
  }

  lemma NothingYet()
    ensures Failures([]) == [] && AllReported(Failures([])) && StatusAfter([]) == Success
  {
  }

  lemma OneMore(before: seq<Event>, after: seq<Event>, steps: seq<Step>, turns: seq<Turn>, cel: Cel)
    requires |before| < |steps| == |turns| && |after| == |before| + 1 && after[..|before|] == before
    requires after[|before|] == TurnOf(steps[|before|], turns[|before|], cel, StatusAfter(before))
    requires forall k :: 0 <= k < |before| ==> EventAt(before, steps, turns, cel, k)
    ensures forall k :: 0 <= k < |after| ==> EventAt(after, steps, turns, cel, k)
    ensures StatusAfter(after) == if after[|before|].Failed? then Failure else StatusAfter(before)
    ensures !after[|before|].Failed? ==> Failures(after) == Failures(before)
  {
    hide TurnOf;
    var n := |before|;
    forall k | 0 <= k < |after| ensures EventAt(after, steps, turns, cel, k) {
      if k < n {
        assert EventAt(before, steps, turns, cel, k);
        assert after[..k] == before[..k];
      }
    }
    assert forall k :: 0 <= k < n ==> after[k] == before[k];
  }

  lemma OneMoreFailure(before: seq<Event>, error: StepError)
    ensures Failures(before + [Failed(error)]) == Failures(before) + [error]
    ensures JoinAll(Failures(before) + [error]) ==
              if Failures(before) == [] then Single(error) else Joined(JoinAll(Failures(before)), error)
    ensures AllReported(Failures(before) + [error]) <==> AllReported(Failures(before)) && error.reported
  {
  }

  // ---------------------------------------------------------------- every run

  /** Given what each turn finds, there is one run. */
  lemma {:induction false} OneRunUpTo(a: seq<Event>, b: seq<Event>, steps: seq<Step>, turns: seq<Turn>, cel: Cel,
                                      n: nat)
    requires IsRun(a, steps, turns, cel) && IsRun(b, steps, turns, cel) && n <= |a| && n <= |b|
    ensures a[..n] == b[..n]
  {
    hide TurnOf;
    if n > 0 {
      OneRunUpTo(a, b, steps, turns, cel, n - 1);
      assert EventAt(a, steps, turns, cel, n - 1) && EventAt(b, steps, turns, cel, n - 1);
      assert a[..n] == a[..n - 1] + [a[n - 1]] && b[..n] == b[..n - 1] + [b[n - 1]];
    }
  }

  lemma RunUnique(a: seq<Event>, b: seq<Event>, steps: seq<Step>, turns: seq<Turn>, cel: Cel)
    requires IsRun(a, steps, turns, cel) && IsRun(b, steps, turns, cel)
    ensures a == b
  {
    hide TurnOf, StatusAfter;
    var n := if |a| < |b| then |a| else |b|;
    OneRunUpTo(a, b, steps, turns, cel, n);
    assert n > 0 ==> a[..n][n - 1] == a[n - 1] && b[..n][n - 1] == b[n - 1];
  }

  lemma {:induction false} FailuresAre(events: seq<Event>, error: StepError)
    ensures error in Failures(events) <==> Failed(error) in events
  {
    if events != [] {
      var n := |events| - 1;
      FailuresAre(events[..n], error);
      assert events == events[..n] + [events[n]];
    }
  }

  lemma NoFailures(events: seq<Event>)
    ensures Failures(events) == [] <==> StatusAfter(events) == Success
  {
  }

  /**
  The command fails exactly when a step failed unforgiven, and silently exactly when all such failures
  were reported.
   */
  lemma {:induction false} EndingTells(events: seq<Event>, dependency: bool)
    requires events == [] || !events[|events| - 1].Final()
    ensures EndingOf(events, dependency) == Ended(None) <==> forall e :: e in events ==> !e.Failed?
    ensures EndingOf(events, dependency) == Ended(Some(SilentExit(1))) <==>
              && !dependency
              && (exists e :: e in events && e.Failed?)
              && (forall e :: e in events && e.Failed? ==> e.error.reported)
  {
    hide Failures;
    var errors := Failures(events);
    NoFailures(events);
    forall e | e in events && e.Failed? ensures e.error in errors {
      FailuresAre(events, e.error);
    }
    forall i | 0 <= i < |errors| ensures Failed(errors[i]) in events {
      FailuresAre(events, errors[i]);
    }
    if AllReported(errors) {
      forall e | e in events && e.Failed? ensures e.error.reported {
        var i :| 0 <= i < |errors| && errors[i] == e.error;
      }
    } else {
      var i :| 0 <= i < |errors| && !errors[i].reported;
      assert Failed(errors[i]) in events && !Failed(errors[i]).error.reported;
    }
  }

  /** Once failed, a run stays failed. */
  lemma StaysFailed(events: seq<Event>, i: nat, j: nat)
    requires i <= j <= |events| && StatusAfter(events[..i]) == Failure
    ensures StatusAfter(events[..j]) == Failure
  {
    var k :| 0 <= k < |events[..i]| && events[..i][k].Failed?;
    assert events[..j][k].Failed?;
  }

  // ---------------------------------------------------------------- which steps run

  /** After an unforgiven failure only those steps are entered whose condition speaks of the status. */
  lemma EnteredAfterFailure(events: seq<Event>, steps: seq<Step>, turns: seq<Turn>, cel: Cel, i: nat)
    requires IsRun(events, steps, turns, cel) && i < |events| && StatusAfter(events[..i]) == Failure
    ensures events[i].Entered() ==> MentionsLifecycleStatus(EffectiveWhen(steps[i]))
  {
    hide StatusAfter, Compute, EffectiveWhen, MentionsLifecycleStatus;
    assert EventAt(events, steps, turns, cel, i);
  }

  predicate IsPredicate(step: Step, name: string) {
    step.when' == Some(Predicate(name))
  }

  lemma DecidePredicate(step: Step, turn: Turn, cel: Cel, status: Status, name: string)
    requires IsPredicate(step, name) && name in {SUCCESS, FAILURE, ALWAYS}
    ensures Decide(step, turn, cel, status) == Ok(name == ALWAYS || (name == SUCCESS <==> status == Success))
  {
    hide TextMentions;
  }

  /** Cleanup steps: `always` is entered whenever its turn comes, `failure` exactly after an unforgiven failure. */
  lemma LifecycleSteps(events: seq<Event>, steps: seq<Step>, turns: seq<Turn>, cel: Cel, i: nat)
    requires IsRun(events, steps, turns, cel) && i < |events|
    ensures IsPredicate(steps[i], ALWAYS) ==> events[i].Entered()
    ensures IsPredicate(steps[i], FAILURE) ==> (events[i].Entered() <==> exists k :: 0 <= k < i && events[k].Failed?)
    ensures IsPredicate(steps[i], SUCCESS) ==> (events[i].Entered() <==> forall k :: 0 <= k < i ==> !events[k].Failed?)
  {
    hide Decide, EvaluateContinue;
    assert EventAt(events, steps, turns, cel, i);
    assert forall k :: 0 <= k < i ==> events[..i][k] == events[k];
    forall name | name in {SUCCESS, FAILURE, ALWAYS} && IsPredicate(steps[i], name)
      ensures Decide(steps[i], turns[i], cel, StatusAfter(events[..i]))
           == Ok(name == ALWAYS || (name == SUCCESS <==> StatusAfter(events[..i]) == Success))
    {
      DecidePredicate(steps[i], turns[i], cel, StatusAfter(events[..i]), name);
    }
  }

  // ---------------------------------------------------------------- the facts, and what goes without saying

  /** The facts that a condition is given: what it mentions is as the turn has it, and no more is looked up. */
  lemma FactsOf(c: Condition, step: Step, turn: Turn)
    ensures var tracked := step.inputs || step.artifacts;
            var failing := || ((Mentions(c, "checksum") || Mentions(c, "timestamp") || Mentions(c, "sources"))
                               && turn.sourceGlob.Some?)
                           || ((Mentions(c, "checksum") || Mentions(c, "timestamp") || Mentions(c, "artifacts"))
                               && turn.artifactGlob.Some?)
                           || (Mentions(c, "sources") && turn.sources.Err?)
                           || (Mentions(c, "artifacts") && turn.artifacts.Err?)
                           || (Mentions(c, "checksum") && turn.checksumChanged.Err?);
            Compute(c, step, turn).Err? <==> tracked && failing
    ensures Compute(c, step, turn).Ok? ==>
              var tracked, facts := step.inputs || step.artifacts, Compute(c, step, turn).value;
              && (facts.preconditionsSuccess <==> step.preconditions && turn.toolsFound)
              && (if tracked && Mentions(c, "checksum") then turn.checksumChanged == Ok(facts.checksumChanged)
                  else !facts.checksumChanged)
              && (facts.timestampChanged <==> tracked && Mentions(c, "timestamp") && turn.timestampChanged)
              && (if tracked && Mentions(c, "sources") then turn.sources == Ok(facts.sources) else facts.sources == [])
              && (if tracked && Mentions(c, "artifacts") then turn.artifacts == Ok(facts.artifacts)
                  else facts.artifacts == [])
  {
    hide Mentions;
  }

  /** An evaluator that reads the conditions of steps without a `when` as they are written. */
  ghost predicate ReadsDefaults(cel: Cel) {
    && (forall c :: cel("checksum.changed", c) == Ok(c.facts.checksumChanged))
    && (forall c :: cel("!preconditions.success", c) == Ok(!c.facts.preconditionsSuccess))
    && (forall c :: cel("checksum.changed || !preconditions.success", c) ==
          Ok(c.facts.checksumChanged || !c.facts.preconditionsSuccess))
  }

  lemma TokenStarts(text: string, ident: string, i: int)
    requires |ident| >= 3 && 0 <= i
    ensures TokenAt(text, ident, i) ==>
              i + 2 < |text| && text[i] == ident[0] && text[i + 1] == ident[1] && text[i + 2] == ident[2]
  {
    if TokenAt(text, ident, i) {
      var token := text[i..i + |ident|];
      assert token[0] == text[i] && token[1] == text[i + 1] && token[2] == text[i + 2];
    }
  }

  lemma NotMentioned(text: string, ident: string)
    requires |ident| >= 3
    requires forall i :: 0 <= i < |text| - 2 && text[i] == ident[0] && text[i + 1] == ident[1] ==>
               text[i + 2] != ident[2]
    ensures !TextMentions(text, ident)
  {
    hide TokenAt;
    forall i | 0 <= i <= |text| ensures !TokenAt(text, ident, i) {
      TokenStarts(text, ident, i);
    }
  }

  const OTHER_IDENTS := {"timestamp", "sources", "artifacts", "status"}

  lemma ChecksumMentions()
    ensures TextMentions("checksum.changed", "checksum")
    ensures forall ident :: ident in OTHER_IDENTS ==> !TextMentions("checksum.changed", ident)
  {
    assert TokenAt("checksum.changed", "checksum", 0);
    hide TokenAt;
    NotMentioned("checksum.changed", "timestamp");
    NotMentioned("checksum.changed", "sources");
    NotMentioned("checksum.changed", "artifacts");
    NotMentioned("checksum.changed", "status");
  }

  lemma PreconditionsAlone()
    ensures !TextMentions("!preconditions.success", "checksum")
    ensures !TextMentions("!preconditions.success", "timestamp")
    ensures !TextMentions("!preconditions.success", "sources")
  {
    hide TextMentions;
    NotMentioned("!preconditions.success", "checksum");
    NotMentioned("!preconditions.success", "timestamp");
    NotMentioned("!preconditions.success", "sources");
  }

  lemma PreconditionsMention()
    ensures !TextMentions("!preconditions.success", "checksum")
    ensures forall ident :: ident in OTHER_IDENTS ==> !TextMentions("!preconditions.success", ident)
  {
    hide TextMentions;
    PreconditionsAlone();
    NotMentioned("!preconditions.success", "artifacts");
    NotMentioned("!preconditions.success", "status");
  }

  /** What two expressions with a space between them mention is what either does. */
  lemma MentionsInEither(a: string, b: string, ident: string, i: int)
    requires ' ' !in ident && 0 <= i && TokenAt(a + " " + b, ident, i)
    ensures (i <= |a| && TokenAt(a, ident, i)) || (i > |a| && TokenAt(b, ident, i - |a| - 1))
  {
    hide IsNameChar;
    if i > |a| {
      MentionsRight(a, b, ident, i);
    } else {
      TokenHasNoSpace(a + " " + b, ident, i);
      assert (a + " " + b)[|a|] == ' ';
      MentionsLeft(a, b, ident, i);
    }
  }

  lemma TokenHasNoSpace(text: string, ident: string, i: int)
    requires ' ' !in ident && 0 <= i && TokenAt(text, ident, i)
    ensures forall k :: i <= k < i + |ident| ==> text[k] != ' '
  {
    var token := text[i..i + |ident|];
    forall k | i <= k < i + |ident| ensures text[k] != ' ' {
      assert token[k - i] == text[k];
    }
  }

  lemma MentionsLeft(a: string, b: string, ident: string, i: int)
    requires 0 <= i && TokenAt(a + " " + b, ident, i) && i + |ident| <= |a|
    ensures TokenAt(a, ident, i)
  {
    hide IsNameChar;
    var text := a + " " + b;
    assert a[i..i + |ident|] == text[i..i + |ident|];
    assert forall k :: 0 <= k < |a| ==> text[k] == a[k];
  }

  lemma MentionsRight(a: string, b: string, ident: string, i: int)
    requires i > |a| && TokenAt(a + " " + b, ident, i)
    ensures TokenAt(b, ident, i - |a| - 1)
  {
    assert (a + " " + b)[|a| + 1..] == b;
    hide TokenAt;
    TokenBehind(a + " " + b, |a| + 1, ident, i);
  }

  lemma TokenBehind(text: string, from: nat, ident: string, i: int)
    requires from <= i && TokenAt(text, ident, i)
    ensures TokenAt(text[from..], ident, i - from)
  {
    hide IsNameChar;
    var rest := text[from..];
    assert rest[i - from..i - from + |ident|] == text[i..i + |ident|];
  }

  lemma EitherMentions(ident: string)
    requires ident in OTHER_IDENTS
    ensures !TextMentions("checksum.changed || !preconditions.success", ident)
  {
    hide TokenAt;
    var a, b := "checksum.changed ||", "!preconditions.success";
    ChecksumMentions();
    PreconditionsMention();
    NothingInBars(ident);
    assert "checksum.changed" + " " + "||" == a && a + " " + b == "checksum.changed || !preconditions.success";
    assert ' ' !in "timestamp" && ' ' !in "sources" && ' ' !in "artifacts" && ' ' !in "status";
    forall i | 0 <= i <= |a| ensures !TokenAt(a, ident, i) {
      if TokenAt(a, ident, i) {
        MentionsInEither("checksum.changed", "||", ident, i);
      }
    }
    forall i | 0 <= i <= |a + " " + b| ensures !TokenAt(a + " " + b, ident, i) {
      if TokenAt(a + " " + b, ident, i) {
        MentionsInEither(a, b, ident, i);
      }
    }
  }

  lemma NothingInBars(ident: string)
    requires ident in OTHER_IDENTS
    ensures forall i :: 0 <= i ==> !TokenAt("||", ident, i)
  {
  }

  lemma LongMentionsChecksum()
    ensures TextMentions(CHECKSUM_CHANGED_OR_PRECONDITIONS_UNMET, "checksum")
  {
    var text := CHECKSUM_CHANGED_OR_PRECONDITIONS_UNMET;
    var start, rest := "checksum", ".changed || !preconditions.success";
    assert text == start + rest;
    assert (start + rest)[0..8] == start && text[8] == '.';
    assert TokenAt(text, start, 0);
    assert TokenAt(CHECKSUM_CHANGED_OR_PRECONDITIONS_UNMET, "checksum", 0);
  }

  lemma DefaultMentions(text: string)
    requires text in {CHECKSUM_CHANGED, PRECONDITIONS_UNMET, CHECKSUM_CHANGED_OR_PRECONDITIONS_UNMET}
    ensures forall ident :: ident in OTHER_IDENTS ==> !TextMentions(text, ident)
    ensures TextMentions(text, "checksum") <==> text != PRECONDITIONS_UNMET
  {
    hide TokenAt;
    LongMentionsChecksum();
    ChecksumMentions();
    PreconditionsMention();
    hide TextMentions;
    forall ident | ident in OTHER_IDENTS ensures !TextMentions(CHECKSUM_CHANGED_OR_PRECONDITIONS_UNMET, ident) {
      EitherMentions(ident);
    }
  }

  /**
  A step without a `when` runs, unless a step before failed, exactly when it declares nothing, when what it
  tracks has changed, or when its preconditions are not met: work that is done is skipped.
   */
  lemma WithoutWhen(step: Step, turn: Turn, cel: Cel, status: Status)
    requires step.when'.None? && ReadsDefaults(cel)
    requires step.inputs || step.artifacts ==>
               turn.sourceGlob.None? && turn.artifactGlob.None? && turn.checksumChanged.Ok?
    ensures var tracked := step.inputs || step.artifacts;
            Decide(step, turn, cel, status) ==
              Ok(status == Success &&
                 (|| !(tracked || step.preconditions)
                  || (tracked && turn.checksumChanged.value)
                  || (step.preconditions && !turn.toolsFound)))
  {
    hide TextMentions, Compute;
    var c := EffectiveWhen(step);
    if c.Some? {
      DefaultMentions(c.value.text);
      FactsOf(c, step, turn);
      assert !MentionsLifecycleStatus(c);
      assert MentionsOnlyChecksum(c, c.value.text != PRECONDITIONS_UNMET);
    }
  }

  predicate MentionsOnlyChecksum(c: Condition, checksum: bool) {
    && (Mentions(c, "checksum") <==> checksum)
    && !Mentions(c, "timestamp") && !Mentions(c, "sources") && !Mentions(c, "artifacts")
  }

  /** A failure is forgiven exactly when `continue` is given and true of the step's own failure. */
  lemma ForgivenMeans(step: Step, turn: Turn, cel: Cel, status: Status, error: StepError)
    ensures TurnOf(step, turn, cel, status) == Forgiven(error) <==>
              && Decide(step, turn, cel, status) == Ok(true)
              && turn.outcome == Failing(error) && !error.silent
              && step.continue'.Some?
              && Means(step.continue'.value, cel,
                       Context(step.ci, Failure, Facts(false, false, false, [], []), step.others), Ok(true))
  {
    hide Decide, Means, Eval;
    if step.continue'.Some? {
      EvalIsMeaning(step.continue'.value, cel, StepContext(step, Failure), Ok(true));
    }
  }

  /** A condition that says nothing of the status holds a step back after an unforgiven failure. */
  predicate HeldBack(step: Step, status: Status) {
    !MentionsLifecycleStatus(EffectiveWhen(step)) && status == Failure
  }

  function Negated(step: Step): Step
    requires step.when'.Some?
  {
    step.(when' := Some(Not([step.when'.value])))
  }

  /** Unless it is held back, a step with `not c` is entered exactly where one with c is decided and not entered. */
  lemma NotIsNegation(step: Step, turn: Turn, cel: Cel, status: Status)
    requires step.when'.Some?
    ensures HeldBack(Negated(step), status) <==> HeldBack(step, status)
    ensures var plain, negated := Decide(step, turn, cel, status), Decide(Negated(step), turn, cel, status);
            && (plain.Err? ==> negated == plain)
            && (plain.Ok? ==> negated == Ok(!HeldBack(step, status) && !plain.value))
    ensures Decide(step, turn, cel, status).Ok? && !HeldBack(step, status) ==>
              (TurnOf(Negated(step), turn, cel, status).Entered() <==> !TurnOf(step, turn, cel, status).Entered())
  {
    hide MentionsLifecycleStatus, NodeMentions, Compute, TurnOf, Eval;
    SameBut(step, turn);
    var declared := step.inputs || step.artifacts || step.preconditions;
    var facts := if declared then Compute(step.when', step, turn) else Ok(NO_FACTS);
    if facts.Ok? {
      NotMeans(step.when'.value, cel, StepContext(step, status).(facts := facts.value));
    }
    EnteredIsDecided(step, turn, cel, status);
    EnteredIsDecided(Negated(step), turn, cel, status);
  }

  /** A condition and its negation mention the same. */
  lemma SameBut(step: Step, turn: Turn)
    requires step.when'.Some?
    ensures MentionsLifecycleStatus(Negated(step).when') <==> MentionsLifecycleStatus(step.when')
    ensures Compute(Negated(step).when', Negated(step), turn) == Compute(step.when', step, turn)
  {
    NotMentions(step.when'.value);
    hide NodeMentions, NodeMentionsPredicate;
  }

  lemma EnteredIsDecided(step: Step, turn: Turn, cel: Cel, status: Status)
    ensures TurnOf(step, turn, cel, status).Entered() <==> Decide(step, turn, cel, status) == Ok(true)
  {
    hide Decide, EvaluateContinue;
  }

  lemma NotMentions(n: Node)
    ensures forall ident :: NodeMentions(Not([n]), ident) <==> NodeMentions(n, ident)
    ensures forall names :: NodeMentionsPredicate(Not([n]), names) <==> NodeMentionsPredicate(n, names)
  {
    assert forall c :: c in [n] <==> c == n;
  }

  /** Read off the meaning of `not`, not off its evaluation. */
  lemma NotMeans(n: Node, cel: Cel, ctx: Context)
    ensures var plain, negated := Eval(n, cel, ctx), Eval(Not([n]), cel, ctx);
            if plain.Ok? then negated == Ok(!plain.value) else negated == plain
  {
    hide Eval;
    var plain := Eval(n, cel, ctx);
    EvalIsMeaning(n, cel, ctx, plain);
    EvalIsMeaning(Not([n]), cel, ctx, if plain.Ok? then Ok(!plain.value) else plain);
  }

  /** Where a command runs: `ci` and `local` steps are entered in and out of CI, but not after an unforgiven failure. */
  lemma PlatformSteps(step: Step, turn: Turn, cel: Cel, status: Status)
    ensures IsPredicate(step, "ci") ==> Decide(step, turn, cel, status) == Ok(status == Success && step.ci)
    ensures IsPredicate(step, "local") ==> Decide(step, turn, cel, status) == Ok(status == Success && !step.ci)
  {
    hide TextMentions;
  }

  // ---------------------------------------------------------------- a forgiven failure

  /** The same turns, but step k succeeds. */
  function Mended(turns: seq<Turn>, k: nat): seq<Turn>
    requires k < |turns|
  {
    turns[k := turns[k].(outcome := Done)]
  }

  /** To every other step and to the ending, a forgiven failure is a success. */
  lemma ForgivenIsSuccess(events: seq<Event>, steps: seq<Step>, turns: seq<Turn>, cel: Cel, dependency: bool, k: nat)
    requires IsRun(events, steps, turns, cel) && k < |events| && events[k].Forgiven?
    ensures IsRun(events[k := Succeeded], steps, Mended(turns, k), cel)
    ensures EndingOf(events[k := Succeeded], dependency) == EndingOf(events, dependency)
  {
    hide Decide, EvaluateContinue, StatusAfter, Failures, JoinAll;
    var mended := events[k := Succeeded];
    forall i | 0 <= i < |events| ensures EventAt(mended, steps, Mended(turns, k), cel, i) {
      assert EventAt(events, steps, turns, cel, i);
      SameStatus(events, k, i);
      DecideIgnoresOutcome(steps[k], turns[k], cel, StatusAfter(events[..k]));
    }
    SameFailures(events, k);
  }

  lemma DecideIgnoresOutcome(step: Step, turn: Turn, cel: Cel, status: Status)
    ensures Decide(step, turn.(outcome := Done), cel, status) == Decide(step, turn, cel, status)
  {
    hide Mentions, EvaluateWithImplicitSuccess;
  }

  lemma SameStatus(events: seq<Event>, k: nat, i: nat)
    requires k < |events| && i <= |events| && !events[k].Failed?
    ensures StatusAfter(events[k := Succeeded][..i]) == StatusAfter(events[..i])
  {
    var a, b := events[..i], events[k := Succeeded][..i];
    assert forall m :: 0 <= m < i ==> (a[m].Failed? <==> b[m].Failed?);
  }

  lemma {:induction false} SameFailures(events: seq<Event>, k: nat)
    requires k < |events| && !events[k].Failed?
    ensures Failures(events[k := Succeeded]) == Failures(events)
  {
    var n := |events| - 1;
    var mended := events[k := Succeeded];
    if k < n {
      SameFailures(events[..n], k);
      assert mended[..n] == events[..n][k := Succeeded];
    } else {
      assert mended[..n] == events[..n];
    }
  }

  // ---------------------------------------------------------------- the look ahead agrees with the loop

  /** What EffectiveWhen puts in for a missing `when` always mentions a freshness fact. */
  lemma EffectiveIsDeclared(step: Step)
    requires !Deferred(step)
    ensures EffectiveWhen(step) == step.when'
  {
    assert TokenAt(CHECKSUM_CHANGED, "checksum", 0);
    assert TokenAt(CHECKSUM_CHANGED_OR_PRECONDITIONS_UNMET, "checksum", 0);
    assert TokenAt(PRECONDITIONS_UNMET, PRECONDITIONS, 1);
  }

  lemma NothingToCompute(c: Condition, step: Step, turn: Turn)
    requires !MentionsAnyFreshnessFact(c)
    ensures Compute(c, step, turn) == Ok(NO_FACTS.(preconditionsSuccess := step.preconditions && turn.toolsFound))
  {
    hide Mentions;
  }

  /** No `when` has a freshness fact behind a leading dot. */
  predicate NoneRooted(steps: seq<Step>) {
    forall i :: 0 <= i < |steps| ==> !IsRooted(steps[i].when')
  }

  /** A step that is not deferred is decided in the loop as it was foreseen. */
  lemma DecidedAsForeseen(step: Step, turn: Turn, cel: Cel)
    requires ReadsWhatOccurs(cel) && !IsRooted(step.when') && !Deferred(step)
    ensures Decide(step, turn, cel, Success) == Foresee(step, cel)
  {
    hide Compute, EffectiveWhen, NodeMentions, ReadsWhatOccurs, Eval;
    EffectiveIsDeclared(step);
    NothingToCompute(step.when', step, turn);
    if step.when'.Some? {
      var c := StepContext(step, Success);
      UnmentionedDoesNotMatter(step.when'.value, cel, c,
        c.(facts := NO_FACTS.(preconditionsSuccess := step.preconditions && turn.toolsFound)));
    }
  }

  /** A run that the look ahead went along with: what it passed over up to n, the loop skips. */
  lemma {:induction false} SkippedSoFar(events: seq<Event>, steps: seq<Step>, turns: seq<Turn>, cel: Cel, n: nat)
    requires IsRun(events, steps, turns, cel) && ReadsWhatOccurs(cel) && NoneRooted(steps) && n <= |steps|
    requires forall i :: 0 <= i < n ==> PassedOver(steps[i], cel)
    ensures n <= |events| && forall i :: 0 <= i < n ==> events[i] == Skipped
    ensures n < |steps| ==> n < |events| && StatusAfter(events[..n]) == Success
  {
    hide Foresee, Deferred, Decide, ReadsWhatOccurs, EvaluateContinue, IsRooted;
    if n > 0 {
      SkippedSoFar(events, steps, turns, cel, n - 1);
      assert EventAt(events, steps, turns, cel, n - 1);
      DecidedAsForeseen(steps[n - 1], turns[n - 1], cel);
    }
  }

  /** Leaving early because nothing is runnable is leaving as the loop would: no step is entered, no error. */
  lemma NothingRunnableRunsNothing(events: seq<Event>, steps: seq<Step>, turns: seq<Turn>, cel: Cel, dependency: bool)
    requires ReadsWhatOccurs(cel) && NoneRooted(steps)
    requires IsLook(NothingRunnable, steps, cel) && IsRun(events, steps, turns, cel)
    ensures |events| == |steps| && forall i :: 0 <= i < |events| ==> events[i] == Skipped
    ensures EndingOf(events, dependency) == Ended(None)
  {
    hide PassedOver, ReadsWhatOccurs, EventAt, Failures, NoneRooted;
    SkippedSoFar(events, steps, turns, cel, |steps|);
    NoFailures(events);
  }

  /** Leaving early with an error is leaving as the loop would: with the same error, and no step entered before. */
  lemma BrokenBreaksTheLoop(events: seq<Event>, steps: seq<Step>, turns: seq<Turn>, cel: Cel, dependency: bool,
                            j: nat, message: string)
    requires ReadsWhatOccurs(cel) && NoneRooted(steps)
    requires IsLook(Broken(j, message), steps, cel) && IsRun(events, steps, turns, cel)
    ensures |events| == j + 1 && (forall i :: 0 <= i < j ==> events[i] == Skipped)
    ensures events[j] == NotDecided(message) && EndingOf(events, dependency) == Abandoned(message)
  {
    hide PassedOver, ReadsWhatOccurs, Failures, StatusAfter, Decide, Foresee, Deferred, EvaluateContinue, IsRooted;
    SkippedSoFar(events, steps, turns, cel, j);
    assert EventAt(events, steps, turns, cel, j);
    DecidedAsForeseen(steps[j], turns[j], cel);
  }

  /**
  Where the look ahead stops at a step, the loop enters none before, and that one if it was decided by
  evaluation.
   */
  lemma RunnableIsFirst(events: seq<Event>, steps: seq<Step>, turns: seq<Turn>, cel: Cel, j: nat)
    requires ReadsWhatOccurs(cel) && NoneRooted(steps)
    requires IsLook(Runnable(j), steps, cel) && IsRun(events, steps, turns, cel)
    ensures j < |events| && forall i :: 0 <= i < j ==> events[i] == Skipped
    ensures !Deferred(steps[j]) ==> events[j].Entered()
  {
    hide PassedOver, ReadsWhatOccurs, StatusAfter, Decide, Foresee, Deferred, EvaluateContinue, IsRooted;
    SkippedSoFar(events, steps, turns, cel, j);
    assert EventAt(events, steps, turns, cel, j);
    if !Deferred(steps[j]) {
      DecidedAsForeseen(steps[j], turns[j], cel);
    }
  }

  // ---------------------------------------------------------------- a leading dot

  /** An evaluator to which text, and no other expression, says whether the preconditions hold. */
  function ReadingPreconditions(text: string): Cel {
    (expression: string, ctx: Context) => Ok(expression == text && ctx.facts.preconditionsSuccess)
  }

  ghost predicate AlwaysAsForeseen(step: Step) {
    forall cel: Cel, turn :: ReadsWhatOccurs(cel) ==> Decide(step, turn, cel, Success) == Foresee(step, cel)
  }

  /** Behind a leading dot, an expression passed over may be one that lets its step run. */
  lemma LeadingDotIsPassedOver(step: Step, turn: Turn, text: string)
    requires step.when' == Some(Expression(text)) && IsRooted(step.when') && !Deferred(step)
    requires step.preconditions && turn.toolsFound && turn.outcome == Done
    ensures ReadsWhatOccurs(ReadingPreconditions(text))
    ensures IsLook(NothingRunnable, [step], ReadingPreconditions(text))
    ensures IsRun([Succeeded], [step], [turn], ReadingPreconditions(text))
  {
    hide TextMentions;
    EffectiveIsDeclared(step);
    NothingToCompute(step.when', step, turn);
    assert EventAt([Succeeded], [step], [turn], ReadingPreconditions(text), 0);
  }

  /** Under no evaluator does the condition come to an expression with a leading dot. */
  ghost predicate NeverReached(step: Step) {
    step.when'.Some? ==>
      forall cel: Cel :: ReadsWhatOccurs(cel) ==> !Reaches(step.when'.value, cel, StepContext(step, Success))
  }

  /**
  For any condition that is not deferred, look ahead and loop decide alike under every evaluator exactly when
  the step has no preconditions or its evaluation never comes to an expression with a leading dot.
   */
  lemma {:induction false} AsForeseenIff(step: Step)
    requires !Deferred(step)
    ensures AlwaysAsForeseen(step) <==> !step.preconditions || NeverReached(step)
  {
    hide Decide, Foresee, Deferred, ReadsWhatOccurs, Reaches;
    if !step.preconditions || NeverReached(step) {
      forall cel: Cel, turn | ReadsWhatOccurs(cel) ensures Decide(step, turn, cel, Success) == Foresee(step, cel) {
        NotReachedAsForeseen(step, turn, cel);
      }
    } else {
      var cel: Cel :| ReadsWhatOccurs(cel) && Reaches(step.when'.value, cel, StepContext(step, Success));
      ReachedIsDecidedOtherwise(step, cel);
    }
  }

  /** The context of a step in the loop, as the preconditions are met or not. */
  function LoopContext(step: Step, met: bool): Context {
    StepContext(step, Success).(facts := NO_FACTS.(preconditionsSuccess := met))
  }

  /** What the look ahead and the loop evaluate where nothing is deferred. */
  lemma DecideEvaluates(step: Step, turn: Turn, cel: Cel)
    requires !Deferred(step) && step.when'.Some?
    ensures Decide(step, turn, cel, Success) ==
              Eval(step.when'.value, cel, LoopContext(step, step.preconditions && turn.toolsFound))
    ensures Foresee(step, cel) == Eval(step.when'.value, cel, LoopContext(step, false))
  {
    hide Compute, Eval, MentionsLifecycleStatus;
    EffectiveIsDeclared(step);
    NothingToCompute(step.when', step, turn);
  }

  lemma NotReachedAsForeseen(step: Step, turn: Turn, cel: Cel)
    requires ReadsWhatOccurs(cel) && !Deferred(step)
    requires step.preconditions && step.when'.Some? ==> !Reaches(step.when'.value, cel, StepContext(step, Success))
    ensures Decide(step, turn, cel, Success) == Foresee(step, cel)
  {
    if step.when'.Some? {
      hide Eval, Reaches, NodeMentions, ReadsWhatOccurs, Decide, Foresee;
      DecideEvaluates(step, turn, cel);
      if step.preconditions {
        NotReachedIsAlike(step.when'.value, cel, LoopContext(step, false), LoopContext(step, true));
      }
    } else {
      hide NodeMentions;
      EffectiveIsDeclared(step);
    }
  }

  lemma ReachedIsDecidedOtherwise(step: Step, cel: Cel)
    requires ReadsWhatOccurs(cel) && !Deferred(step) && step.preconditions && step.when'.Some?
    requires Reaches(step.when'.value, cel, StepContext(step, Success))
    ensures !AlwaysAsForeseen(step)
  {
    hide Eval, Reaches, NodeMentions, ReadsWhatOccurs, Decide, Foresee, Telling;
    var turn := Turn(None, None, Ok([]), Ok([]), false, Ok(false), true, Done);
    TellingIsAsAssumed(cel);
    ReachedTells(step.when'.value, cel, LoopContext(step, false), LoopContext(step, true));
    DecideEvaluates(step, turn, Telling(cel));
    assert Decide(step, turn, Telling(cel), Success) != Foresee(step, Telling(cel));
  }

  /** Without a leading dot evaluation never comes to one; an expression alone with one always does. */
  lemma NeverReachedWithout(step: Step)
    ensures !IsRooted(step.when') ==> NeverReached(step)
    ensures step.when'.Some? && step.when'.value.Expression? && NeverReached(step) ==> !IsRooted(step.when')
  {
    hide TextMentions, ReadsWhatOccurs;
    if step.when'.Some? {
      forall cel: Cel | ReadsWhatOccurs(cel) && !IsRooted(step.when')
        ensures !Reaches(step.when'.value, cel, StepContext(step, Success))
      {
        UnrootedIsNotReached(step.when'.value, cel, StepContext(step, Success));
      }
      SomeEvaluator();
    }
  }

  lemma SomeEvaluator()
    ensures exists cel: Cel :: ReadsWhatOccurs(cel)
  {
    hide TextMentions;
    assert ReadsWhatOccurs(ReadingPreconditions(ROOTED_PRECONDITIONS)) by {
      LeadingDotAlone();
    }
  }

  lemma LeadingDotAlone()
    ensures TextMentions(ROOTED_PRECONDITIONS, ROOTED_PRECONDITIONS)
  {
    assert TokenAt(ROOTED_PRECONDITIONS, ROOTED_PRECONDITIONS, 0);
  }

  /** Such expressions are not deferred. */
  lemma LeadingDotIsNotDeferred(step: Step)
    requires step.when' == Some(Expression(".preconditions.success"))
    ensures IsRooted(step.when') && !Deferred(step)
  {
    LeadingDotReaches();
    LeadingDotHides(PRECONDITIONS);
    LeadingDotHides("checksum");
    LeadingDotHides("timestamp");
    LeadingDotHides("sources");
    LeadingDotHides("artifacts");
  }
}
