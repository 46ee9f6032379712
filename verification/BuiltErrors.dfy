/**
What any use of the error builder, made from an error or from nil, keeps of its causes: which hints are
attached to the error it gives, and which of them the single-cause traversal reaches.
 */
module BuiltErrors {
  import opened Options
  import opened ErrorTrees
  import opened UniqueLists
  import opened HintEscaping
  import opened ErrorBuilding

  function AfterAll(p: Parts, calls: seq<Call>): Parts
    decreases |calls|
  {
    if calls == [] then p else AfterAll(After(p, calls[0]), calls[1..])
  }

  /** The error that causes join: the one that the builder was made from, or, where that is nil, the first cause. */
  function Base(err: Option<Error>, calls: seq<Call>): Option<Error>
    decreases |calls|
  {
    if err.Some? || calls == [] then err
    else Base(if calls[0].AddCause? then Some(calls[0].cause) else None, calls[1..])
  }

  /** The calls without the cause that takes the place of a nil error. */
  function Later(err: Option<Error>, calls: seq<Call>): seq<Call>
    decreases |calls|
  {
    if err.Some? || calls == [] then calls
    else if calls[0].AddCause? then calls[1..]
    else [calls[0]] + Later(None, calls[1..])
  }

  /** Build(base), the calls, Err(). */
  ghost function Built(base: Option<Error>, calls: seq<Call>): Error
    requires Base(base, calls).Some?
  {
    KeepsError(Fresh(base), calls);
    Finished(AfterAll(Fresh(base), calls)).value
  }

  lemma {:induction false} KeepsError(p: Parts, calls: seq<Call>)
    ensures AfterAll(p, calls).err.Some? <==> Base(p.err, calls).Some?
    decreases |calls|
  {
    if calls != [] {
      KeepsError(After(p, calls[0]), calls[1..]);
    }
  }

  /** Err() gives nil exactly when the builder was made from nil and was given no cause. */
  lemma {:induction false} NilIff(base: Option<Error>, calls: seq<Call>)
    ensures Finished(AfterAll(Fresh(base), calls)).None? <==> base.None? && !HasCause(calls)
    ensures Finished(AfterAll(Fresh(base), calls)).None? <==> Base(base, calls).None?
  {
    hide HasCause;
    KeepsError(Fresh(base), calls);
    NoBaseIff(base, calls);
  }

  lemma {:induction false} NoBaseIff(base: Option<Error>, calls: seq<Call>)
    ensures Base(base, calls).None? <==> base.None? && !HasCause(calls)
    decreases |calls|
  {
    if base.None? && calls != [] {
      hide HasCause;
      FirstCause(calls);
      NoBaseIff(if calls[0].AddCause? then Some(calls[0].cause) else None, calls[1..]);
    }
  }

  // ---------------------------------------------------------------- what the calls contribute

  ghost predicate CauseHint(calls: seq<Call>, x: string) {
    exists c :: AddCause(c) in calls && Attached(Hints, c, x)
  }

  /** x is what escaping makes of a hint of a cause. */
  ghost predicate EscapedCauseHint(calls: seq<Call>, x: string) {
    exists h :: CauseHint(calls, h) && x == Escape(h)
  }

  predicate HasCause(calls: seq<Call>) {
    exists i :: 0 <= i < |calls| && calls[i].AddCause?
  }

  /** Escaping leaves every hint of e alone, as it does for hints that a builder put there. */
  ghost predicate Settled(e: Error) {
    forall x :: Attached(Hints, e, x) ==> Escape(x) == x
  }

  ghost predicate CausesSettled(calls: seq<Call>) {
    forall c :: AddCause(c) in calls ==> Settled(c)
  }

  lemma {:induction false} CauseAttaches(p: Parts, cause: Error, x: string)
    requires p.err.Some?
    ensures AfterCause(p, Some(cause)).err.Some?
    ensures Attached(Hints, AfterCause(p, Some(cause)).err.value, x)
            <==> Attached(Hints, p.err.value, x) || Attached(Hints, cause, x)
    ensures x in AfterCause(p, Some(cause)).hints <==> x in p.hints || Attached(Hints, cause, x)
    ensures Chain(Hints, AfterCause(p, Some(cause)).err.value) == []
  {
    var both := [p.err.value, cause];
    var wrapped := AfterCause(p, Some(cause)).err.value;
    DetailsAndMarksCarryNoHint(Multi(both), AllTexts(Details, cause), []);
    EncounterFindsAttached(Hints, wrapped, x);
    EncounterFindsAttached(Hints, Multi(both), x);
    assert both[0] in both && both[1] in both;
    AllTextsFindsAll(Hints, cause);
  }

  lemma {:induction false} CallsContribute(p: Parts, calls: seq<Call>, x: string)
    requires Base(p.err, calls).Some?
    ensures AfterAll(p, calls).err.Some?
    ensures Attached(Hints, AfterAll(p, calls).err.value, x) <==>
              Attached(Hints, Base(p.err, calls).value, x) || CauseHint(Later(p.err, calls), x)
    ensures x in AfterAll(p, calls).hints <==>
              x in p.hints || AddHint(x) in calls || CauseHint(Later(p.err, calls), x)
    decreases |calls|
  {
    hide After, CauseHint, Attached;
    if calls == [] {
      NoCalls(x);
    } else {
      if p.err.Some? {
        OneCall(p, calls[0], x);
        FirstCall(calls, x);
      } else {
        NilCall(p, calls[0]);
        FirstCall(calls, x);
        FirstCall([calls[0]] + Later(None, calls[1..]), x);
      }
      CallsContribute(After(p, calls[0]), calls[1..], x);
    }
  }

  /** A nil error stays nil until a cause takes its place, of which nothing else is taken over. */
  lemma NilCall(p: Parts, call: Call)
    requires p.err.None?
    ensures After(p, call).err == if call.AddCause? then Some(call.cause) else None
    ensures After(p, call).hints == if call.AddHint? then p.hints + [call.text] else p.hints
  {
  }

  lemma NoCalls(x: string)
    ensures !CauseHint([], x)
  {
  }

  lemma OneCall(p: Parts, call: Call, x: string)
    requires p.err.Some?
    ensures After(p, call).err.Some?
    ensures Attached(Hints, After(p, call).err.value, x)
            <==> Attached(Hints, p.err.value, x) || (call.AddCause? && Attached(Hints, call.cause, x))
    ensures x in After(p, call).hints
            <==> x in p.hints || call == AddHint(x) || (call.AddCause? && Attached(Hints, call.cause, x))
  {
    hide AfterCause;
    if call.AddCause? {
      hide Attached;
      CauseAttaches(p, call.cause, x);
    }
  }

  lemma FirstCall(calls: seq<Call>, x: string)
    requires calls != []
    ensures CauseHint(calls, x)
            <==> (calls[0].AddCause? && Attached(Hints, calls[0].cause, x)) || CauseHint(calls[1..], x)
    ensures AddHint(x) in calls <==> calls[0] == AddHint(x) || AddHint(x) in calls[1..]
  {
    assert forall c :: c in calls <==> c == calls[0] || c in calls[1..];
  }

  // ---------------------------------------------------------------- one builder

  /** x is a hint that this builder itself gives: its title, or a hint added to it, escaped. */
  ghost predicate OwnHint(base: Option<Error>, calls: seq<Call>, x: string) {
    || x in TitleHint(AfterAll(Fresh(base), calls))
    || exists h :: AddHint(h) in calls && x == Escape(h)
  }

  lemma {:induction false} ChainOfBuilt(base: Option<Error>, calls: seq<Call>)
    requires Base(base, calls).Some?
    ensures var p := AfterAll(Fresh(base), calls);
            && p.err.Some?
            && Chain(Hints, Built(base, calls)) == Chain(Hints, p.err.value) + (TitleHint(p) + EscapeAll(p.hints))
            && Beneath(Hints, Built(base, calls)) == Beneath(Hints, p.err.value)
  {
    KeepsError(Fresh(base), calls);
    FinishedHints(AfterAll(Fresh(base), calls));
  }

  lemma {:induction false} EscapedHints(base: Option<Error>, calls: seq<Call>, x: string)
    requires Base(base, calls).Some?
    ensures var p := AfterAll(Fresh(base), calls);
            x in TitleHint(p) + EscapeAll(p.hints) <==>
              OwnHint(base, calls, x) || EscapedCauseHint(Later(base, calls), x)
  {
    hide EscapeAll, CauseHint, Base, Later;
    var p := AfterAll(Fresh(base), calls);
    EscapeAllMembers(p.hints, x);
    forall h ensures h in p.hints <==> AddHint(h) in calls || CauseHint(Later(base, calls), h) {
      CallsContribute(Fresh(base), calls, h);
    }
  }

  /** Once a cause has joined, the builder's error is multi-cause and its own chain is not followed any further. */
  lemma {:induction false} InnerChain(p: Parts, calls: seq<Call>)
    requires Base(p.err, calls).Some?
    ensures AfterAll(p, calls).err.Some?
    ensures Chain(Hints, AfterAll(p, calls).err.value) ==
              if HasCause(Later(p.err, calls)) then [] else Chain(Hints, Base(p.err, calls).value)
    decreases |calls|
  {
    hide After, Chain, HasCause;
    if calls == [] {
      NoCause();
    } else {
      if p.err.Some? {
        OneInnerChain(p, calls[0]);
        FirstCause(calls);
      } else {
        NilCall(p, calls[0]);
        FirstCause([calls[0]] + Later(None, calls[1..]));
      }
      InnerChain(After(p, calls[0]), calls[1..]);
    }
  }

  lemma NoCause()
    ensures !HasCause([])
  {
  }

  lemma FirstCause(calls: seq<Call>)
    requires calls != []
    ensures HasCause(calls) <==> calls[0].AddCause? || HasCause(calls[1..])
  {
    assert forall i :: 1 <= i < |calls| ==> calls[i] == calls[1..][i - 1];
    if HasCause(calls[1..]) {
      var i :| 0 <= i < |calls[1..]| && calls[1..][i].AddCause?;
      assert calls[i + 1].AddCause?;
    }
  }

  lemma OneInnerChain(p: Parts, call: Call)
    requires p.err.Some?
    ensures After(p, call).err.Some?
    ensures Chain(Hints, After(p, call).err.value) == if call.AddCause? then [] else Chain(Hints, p.err.value)
  {
    hide AfterCause;
    if call.AddCause? {
      CauseAttaches(p, call.cause, "");
    }
  }

  /**
  What the single-cause traversal reaches: the builder's own hints and those of the causes that joined,
  escaped; the base's only without such a cause.
   */
  lemma {:induction false} ReachedIff(base: Option<Error>, calls: seq<Call>, x: string)
    requires Base(base, calls).Some?
    ensures x in Chain(Hints, Built(base, calls)) <==>
              || OwnHint(base, calls, x)
              || EscapedCauseHint(Later(base, calls), x)
              || (!HasCause(Later(base, calls)) && x in Chain(Hints, Base(base, calls).value))
  {
    hide Chain, Built, OwnHint, EscapedCauseHint, HasCause, EscapeAll, TitleHint, Base, Later;
    ChainOfBuilt(base, calls);
    EscapedHints(base, calls, x);
    InnerChain(Fresh(base), calls);
  }

  /**
  A built error carries the builder's own hints, the base error's and those of the causes that joined, these
  also escaped, and no other.
   */
  lemma {:induction false} BuiltKeepsHints(base: Option<Error>, calls: seq<Call>, x: string)
    requires Base(base, calls).Some?
    ensures Attached(Hints, Built(base, calls), x) <==>
              || OwnHint(base, calls, x)
              || CauseHint(Later(base, calls), x)
              || EscapedCauseHint(Later(base, calls), x)
              || Attached(Hints, Base(base, calls).value, x)
  {
    hide Chain, OwnHint, EscapedCauseHint, CauseHint, EscapeAll, TitleHint, Beneath, Attached, Base, Later;
    var p := AfterAll(Fresh(base), calls);
    ChainOfBuilt(base, calls);
    EscapedHints(base, calls, x);
    CallsContribute(Fresh(base), calls, x);
    EncounterFindsAttached(Hints, Built(base, calls), x);
    EncounterFindsAttached(Hints, p.err.value, x);
  }

  /** What a builder gives itself stays as it is under escaping, and so does what it escaped. */
  lemma OwnIsSettled(base: Option<Error>, calls: seq<Call>, x: string)
    requires OwnHint(base, calls, x) || EscapedCauseHint(Later(base, calls), x)
    ensures Escape(x) == x
  {
    hide Escape, CauseHint, Later;
    var p := AfterAll(Fresh(base), calls);
    if x in TitleHint(p) {
      TitleIsExempt(p.title.value);
    } else if exists h :: AddHint(h) in calls && x == Escape(h) {
      var h :| AddHint(h) in calls && x == Escape(h);
      EscapeIdempotent(h);
    } else {
      var h :| CauseHint(Later(base, calls), h) && x == Escape(h);
      EscapeIdempotent(h);
    }
  }

  /**
  The single-cause traversal finds the hint of a cause that joined with its text unchanged exactly when
  escaping leaves it alone.
   */
  lemma {:induction false} CauseHintReached(base: Option<Error>, calls: seq<Call>, x: string)
    requires Base(base, calls).Some? && CauseHint(Later(base, calls), x)
    ensures x in Chain(Hints, Built(base, calls)) <==> Escape(x) == x
  {
    hide Chain, Built, OwnHint, Escape, Attached, Base, Later;
    ReachedIff(base, calls, x);
    var later := Later(base, calls);
    var c :| AddCause(c) in later && Attached(Hints, c, x);
    var i :| 0 <= i < |later| && later[i] == AddCause(c);
    assert later[i].AddCause?;
    if OwnHint(base, calls, x) || EscapedCauseHint(later, x) {
      OwnIsSettled(base, calls, x);
    }
  }

  /**
  Nothing is taken over of a cause that takes the place of nil: a hint beneath its chain is not reached, also
  where escaping leaves it alone.
   */
  lemma NilBaseHidesHint(hint: string)
    ensures var cause := Multi([Wrap(Hint(hint), Leaf("inner"))]);
            && Base(None, [AddCause(cause)]) == Some(cause) && Later(None, [AddCause(cause)]) == []
            && Built(None, [AddCause(cause)]) == cause
            && Attached(Hints, cause, hint) && hint !in Chain(Hints, cause)
  {
    var inner := Wrap(Hint(hint), Leaf("inner"));
    var cause := Multi([inner]);
    assert [AddCause(cause)][1..] == [];
    assert AfterAll(Fresh(None), [AddCause(cause)]) == Fresh(None).(err := Some(cause));
    assert inner in [inner] && Attached(Hints, inner, hint);
  }

  /** The base's hints that stay in reach: where a cause joined, those that the builder or such a cause gives too. */
  ghost predicate BaseHintsReached(base: Option<Error>, calls: seq<Call>)
    requires Base(base, calls).Some?
  {
    forall x :: Attached(Hints, Base(base, calls).value, x) ==>
      || OwnHint(base, calls, x)
      || CauseHint(Later(base, calls), x)
      || (!HasCause(Later(base, calls)) && x in Chain(Hints, Base(base, calls).value))
  }

  /**
  The single-cause traversal reaches every hint exactly when those of the causes that joined are settled and
  the base's are given again.
   */
  lemma {:induction false} ReachesAllIff(base: Option<Error>, calls: seq<Call>)
    requires Base(base, calls).Some?
    ensures ReachesAll(Built(base, calls)) <==> CausesSettled(Later(base, calls)) && BaseHintsReached(base, calls)
  {
    hide Chain, Built, OwnHint, HasCause, Escape, Attached, Base, Later;
    var built, later := Built(base, calls), Later(base, calls);
    forall x
      ensures Attached(Hints, built, x) <==>
                || OwnHint(base, calls, x)
                || CauseHint(later, x)
                || EscapedCauseHint(later, x)
                || Attached(Hints, Base(base, calls).value, x)
      ensures x in Chain(Hints, built) <==>
                || OwnHint(base, calls, x)
                || EscapedCauseHint(later, x)
                || (!HasCause(later) && x in Chain(Hints, Base(base, calls).value))
      ensures CauseHint(later, x) ==> (x in Chain(Hints, built) <==> Escape(x) == x)
    {
      BuiltKeepsHints(base, calls, x);
      ReachedIff(base, calls, x);
      if CauseHint(later, x) {
        CauseHintReached(base, calls, x);
      }
    }
    SettledCauses(later);
    if ReachesAll(built) {
      ReachedBase(base, calls);
    }
  }

  lemma SettledCauses(calls: seq<Call>)
    ensures CausesSettled(calls) <==> forall x :: CauseHint(calls, x) ==> Escape(x) == x
    ensures CausesSettled(calls) ==> forall x :: EscapedCauseHint(calls, x) <==> CauseHint(calls, x)
  {
    hide Attached, Escape;
    forall c, x | AddCause(c) in calls && Attached(Hints, c, x) ensures CauseHint(calls, x) {
    }
  }

  lemma ReachedBase(base: Option<Error>, calls: seq<Call>)
    requires Base(base, calls).Some? && ReachesAll(Built(base, calls))
    ensures CausesSettled(Later(base, calls)) && BaseHintsReached(base, calls)
  {
    hide Chain, Built, OwnHint, HasCause, Escape, Attached, CauseHint, EscapedCauseHint, Base, Later;
    var later := Later(base, calls);
    forall x ensures CauseHint(later, x) ==> Escape(x) == x {
      BuiltKeepsHints(base, calls, x);
      if CauseHint(later, x) {
        CauseHintReached(base, calls, x);
      }
    }
    SettledCauses(later);
    forall x | Attached(Hints, Base(base, calls).value, x)
      ensures OwnHint(base, calls, x) || CauseHint(later, x)
           || (!HasCause(later) && x in Chain(Hints, Base(base, calls).value))
    {
      BuiltKeepsHints(base, calls, x);
      ReachedIff(base, calls, x);
    }
  }

  /** AllHints is the list that the single-cause traversal finds exactly when that reaches every hint. */
  lemma {:induction false} AllTextsIsChainIff(e: Error)
    ensures AllTexts(Hints, e) == Collect(Hints, e) <==> ReachesAll(e)
  {
    hide Chain, Beneath, Attached;
    var chain, beneath := Chain(Hints, e), Beneath(Hints, e);
    AppendNewMembers([], chain);
    AppendNewAppend([], chain, beneath);
    AllTextsFindsAll(Hints, e);
    forall x ensures Attached(Hints, e, x) <==> x in chain || x in beneath {
      EncounterFindsAttached(Hints, e, x);
    }
    if ReachesAll(e) {
      AppendKnown(AppendNew([], chain), beneath);
    }
  }

  /**
  No hint is lost or doubled: AllHints is the traversal's list, in order and once each, exactly under
  these conditions.
   */
  lemma {:induction false} AllHintsIsChain(base: Option<Error>, calls: seq<Call>)
    requires Base(base, calls).Some?
    ensures AllTexts(Hints, Built(base, calls)) == Collect(Hints, Built(base, calls)) <==>
              CausesSettled(Later(base, calls)) && BaseHintsReached(base, calls)
    ensures var p := AfterAll(Fresh(base), calls);
            var front := if HasCause(Later(base, calls)) then [] else Chain(Hints, Base(base, calls).value);
            Collect(Hints, Built(base, calls)) == AppendNew([], front + (TitleHint(p) + EscapeAll(p.hints)))
  {
    hide Chain, Built, ReachesAll, CausesSettled, BaseHintsReached, HasCause, EscapeAll, TitleHint, Base, Later;
    AllTextsIsChainIff(Built(base, calls));
    ReachesAllIff(base, calls);
    ChainOfBuilt(base, calls);
    InnerChain(Fresh(base), calls);
  }

  lemma {:induction false} BuiltSettledIff(base: Option<Error>, calls: seq<Call>)
    requires Base(base, calls).Some?
    ensures Settled(Built(base, calls)) <==>
              Settled(Base(base, calls).value) && CausesSettled(Later(base, calls))
  {
    hide Attached, Escape, CauseHint, OwnHint, Built, EscapedCauseHint, CausesSettled, Base, Later;
    var later := Later(base, calls);
    SettledCauses(later);
    forall x
      ensures Attached(Hints, Built(base, calls), x) <==>
        || OwnHint(base, calls, x) || CauseHint(later, x) || EscapedCauseHint(later, x)
        || Attached(Hints, Base(base, calls).value, x)
      ensures OwnHint(base, calls, x) || EscapedCauseHint(later, x) ==> Escape(x) == x
    {
      BuiltKeepsHints(base, calls, x);
      if OwnHint(base, calls, x) || EscapedCauseHint(later, x) {
        OwnIsSettled(base, calls, x);
      }
    }
  }
}
