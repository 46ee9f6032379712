/**
Every layer of the errors that the builder gives: where it comes from, and that none is lost. This is what
errors.Is, the exit code and the explanations are read from.
 */
module BuiltLayers {
  import opened Options
  import opened ErrorTrees
  import opened HintEscaping
  import opened ErrorBuilding
  import opened BuiltErrors
  import CT = ContextText

  /** Some wrapping layer of e, however deep, carries the note. */
  ghost predicate NoteIn(e: Error, note: Note) {
    exists cause :: NodeOf(Wrap(note, cause), e)
  }

  lemma OneLayer(outer: Note, e: Error, note: Note)
    ensures NoteIn(Wrap(outer, e), note) <==> outer == note || NoteIn(e, note)
  {
    var all := Wrap(outer, e);
    if outer == note {
      assert NodeOf(all, all);
    }
  }

  lemma OfBoth(a: Error, b: Error, note: Note)
    ensures NoteIn(Multi([a, b]), note) <==> NoteIn(a, note) || NoteIn(b, note)
  {
    var both := [a, b];
    assert both[0] in both && both[1] in both;
    assert forall c :: c in both <==> c == a || c == b;
  }

  // ---------------------------------------------------------------- what Err() adds

  lemma {:induction false} HintLayers(e: Error, hints: seq<string>, note: Note)
    ensures NoteIn(WithHints(e, hints), note) <==> NoteIn(e, note) || (note.Hint? && note.text in hints)
    decreases |hints|
  {
    hide NoteIn;
    if hints != [] {
      OneLayer(Hint(hints[0]), e, note);
      HintLayers(Wrap(Hint(hints[0]), e), hints[1..], note);
    }
  }

  lemma {:induction false} DetailLayers(e: Error, details: seq<string>, note: Note)
    ensures NoteIn(WithDetails(e, details), note) <==> NoteIn(e, note) || (note.Detail? && note.text in details)
    decreases |details|
  {
    hide NoteIn;
    if details != [] {
      OneLayer(Detail(details[0]), e, note);
      DetailLayers(Wrap(Detail(details[0]), e), details[1..], note);
    }
  }

  lemma {:induction false} MarkLayers(e: Error, sentinels: seq<Error>, note: Note)
    ensures NoteIn(WithMarks(e, sentinels), note) <==> NoteIn(e, note) || (note.Mark? && note.sentinel in sentinels)
    decreases |sentinels|
  {
    hide NoteIn;
    if sentinels != [] {
      OneLayer(Mark(sentinels[0]), e, note);
      MarkLayers(Wrap(Mark(sentinels[0]), e), sentinels[1..], note);
    }
  }

  /** What Err() itself says: the title, the escaped hints, the context, the sentinels and the exit code. */
  ghost predicate Says(p: Parts, note: Note) {
    match note
    case Hint(x) => (p.title.Some? && x == "TITLE:" + p.title.value) || exists h :: h in p.hints && x == Escape(h)
    case SafeDetails(text) => p.context != map[] && text == CT.Printed(p.context)
    case Mark(sentinel) => sentinel in p.sentinels
    case ExitCode(code) => p.exitCode == Some(code)
    case _ => false
  }

  lemma FinishedLayers(p: Parts, note: Note)
    requires p.err.Some?
    ensures NoteIn(Finished(p).value, note) <==> NoteIn(p.err.value, note) || Says(p, note)
    ensures p.exitCode.Some? ==> Finished(p).value.Wrap? && Finished(p).value.note == ExitCode(p.exitCode.value)
  {
    hide NoteIn, EscapeAll, WithHints, WithMarks, CT.Printed, Escape;
    var all := TitleHint(p) + EscapeAll(p.hints);
    var hinted := WithHints(p.err.value, all);
    var contexted := WithContextText(hinted, p.context);
    var marked := WithMarks(contexted, p.sentinels);
    HintLayers(p.err.value, all, note);
    if note.Hint? {
      EscapeAllMembers(p.hints, note.text);
    }
    if p.context != map[] {
      OneLayer(SafeDetails(CT.Printed(p.context)), hinted, note);
    }
    MarkLayers(contexted, p.sentinels, note);
    if p.exitCode.Some? {
      OneLayer(ExitCode(p.exitCode.value), marked, note);
    }
  }

  // ---------------------------------------------------------------- what the calls add

  /** x is an explanation that was given when there was an error to attach it to. */
  predicate Explained(err: Option<Error>, calls: seq<Call>, x: string) {
    exists i :: 0 <= i < |calls| && calls[i] == AddExplanation(x) && (err.Some? || HasCause(calls[..i]))
  }

  ghost predicate CauseNote(calls: seq<Call>, note: Note) {
    exists c :: AddCause(c) in calls && NoteIn(c, note)
  }

  lemma DetailIsNote(e: Error, x: string)
    ensures HasDetail(e, x) <==> NoteIn(e, Detail(x))
  {
  }

  lemma OneCallAdds(p: Parts, call: Call, note: Note)
    requires p.err.Some?
    ensures After(p, call).err.Some?
    ensures NoteIn(After(p, call).err.value, note) <==>
              || NoteIn(p.err.value, note)
              || (note.Detail? && call == AddExplanation(note.text))
              || (call.AddCause? && NoteIn(call.cause, note))
  {
    hide NoteIn, AllTexts, WithDetails, HasDetail;
    if call.AddExplanation? {
      OneLayer(Detail(call.text), p.err.value, note);
    } else if call.AddCause? {
      var both := Multi([p.err.value, call.cause]);
      DetailLayers(both, AllTexts(Details, call.cause), note);
      OfBoth(p.err.value, call.cause, note);
      if note.Detail? {
        AllTextsFindsNodes(call.cause, note.text);
        DetailIsNote(call.cause, note.text);
      }
    }
  }

  lemma FirstExplained(err: Option<Error>, calls: seq<Call>, x: string)
    requires calls != []
    ensures Explained(err, calls, x) <==>
              || (err.Some? && calls[0] == AddExplanation(x))
              || Explained(if err.None? && calls[0].AddCause? then Some(calls[0].cause) else err, calls[1..], x)
  {
    hide HasCause;
    forall i | 1 <= i < |calls| ensures HasCause(calls[..i]) <==> calls[0].AddCause? || HasCause(calls[1..][..i - 1]) {
      FirstCause(calls[..i]);
      assert calls[..i][1..] == calls[1..][..i - 1];
    }
    NoCause();
    assert calls[..0] == [];
    var next := if err.None? && calls[0].AddCause? then Some(calls[0].cause) else err;
    assert forall i :: 1 <= i < |calls| ==> calls[i] == calls[1..][i - 1];
    if Explained(next, calls[1..], x) {
      var i :| 0 <= i < |calls[1..]| && calls[1..][i] == AddExplanation(x)
        && (next.Some? || HasCause(calls[1..][..i]));
      assert calls[i + 1] == AddExplanation(x) && (err.Some? || HasCause(calls[..i + 1]));
    }
  }

  lemma FirstCauseNote(calls: seq<Call>, note: Note)
    requires calls != []
    ensures CauseNote(calls, note) <==>
              (calls[0].AddCause? && NoteIn(calls[0].cause, note)) || CauseNote(calls[1..], note)
  {
    hide NoteIn;
    assert forall c :: c in calls <==> c == calls[0] || c in calls[1..];
  }

  lemma NothingAdded(err: Option<Error>, x: string, note: Note)
    ensures !Explained(err, [], x) && !CauseNote([], note)
  {
  }

  /** Only whether there is an error matters to what is explained. */
  lemma SameKnown(a: Option<Error>, b: Option<Error>, calls: seq<Call>, x: string)
    requires calls != []
    requires a.Some? <==> b.Some? || calls[0].AddCause?
    ensures Explained(a, calls[1..], x) <==>
              Explained(if b.None? && calls[0].AddCause? then Some(calls[0].cause) else b, calls[1..], x)
  {
    hide HasCause;
  }

  lemma {:induction false} CallsAdd(p: Parts, calls: seq<Call>, note: Note)
    requires Base(p.err, calls).Some?
    ensures AfterAll(p, calls).err.Some?
    ensures NoteIn(AfterAll(p, calls).err.value, note) <==>
              || NoteIn(Base(p.err, calls).value, note)
              || CauseNote(Later(p.err, calls), note)
              || (note.Detail? && Explained(p.err, calls, note.text))
    decreases |calls|
  {
    hide After, CauseNote, NoteIn, Explained;
    var x := if note.Detail? then note.text else "";
    if calls == [] {
      NothingAdded(p.err, x, note);
    } else {
      FirstExplained(p.err, calls, x);
      if p.err.Some? {
        OneCallAdds(p, calls[0], note);
        FirstCauseNote(calls, note);
      } else {
        NilCall(p, calls[0]);
        FirstCauseNote([calls[0]] + Later(None, calls[1..]), note);
        assert ([calls[0]] + Later(None, calls[1..]))[1..] == Later(None, calls[1..]);
      }
      SameKnown(After(p, calls[0]).err, p.err, calls, x);
      CallsAdd(After(p, calls[0]), calls[1..], note);
    }
  }

  // ---------------------------------------------------------------- the built error

  /**
  Every layer of a built error comes from its base, from a cause that joined, from an explanation, or is
  what Err() says of the builder, and none of these is lost. An exit code is the outermost layer.
   */
  lemma {:induction false} BuiltLayer(base: Option<Error>, calls: seq<Call>, note: Note)
    requires Base(base, calls).Some?
    ensures NoteIn(Built(base, calls), note) <==>
              || NoteIn(Base(base, calls).value, note)
              || CauseNote(Later(base, calls), note)
              || (note.Detail? && Explained(base, calls, note.text))
              || Says(AfterAll(Fresh(base), calls), note)
    ensures var code := AfterAll(Fresh(base), calls).exitCode;
            code.Some? ==> Built(base, calls).Wrap? && Built(base, calls).note == ExitCode(code.value)
  {
    hide CauseNote, NoteIn, Explained, Base, Later, AfterAll, Says;
    CallsAdd(Fresh(base), calls, note);
    FinishedLayers(AfterAll(Fresh(base), calls), note);
  }

  /**
  The details of a built error are exactly the builder's explanations, its base's details and those of the
  causes that joined; with a nil base, explanations before the first cause are lost.
   */
  lemma {:induction false} BuiltKeepsDetails(base: Option<Error>, calls: seq<Call>, x: string)
    requires Base(base, calls).Some?
    ensures x in AllTexts(Details, Built(base, calls)) <==>
              || Explained(base, calls, x)
              || HasDetail(Base(base, calls).value, x)
              || exists c :: AddCause(c) in Later(base, calls) && HasDetail(c, x)
  {
    hide NoteIn, HasDetail, Explained, AllTexts, Base, Later, AfterAll, Built;
    BuiltLayer(base, calls, Detail(x));
    AllTextsFindsNodes(Built(base, calls), x);
    DetailIsNote(Built(base, calls), x);
    DetailIsNote(Base(base, calls).value, x);
    forall c ensures HasDetail(c, x) <==> NoteIn(c, Detail(x)) {
      DetailIsNote(c, x);
    }
  }

  /** The exit code that was given last, read from the end. */
  function LastExitCode(calls: seq<Call>): Option<int> {
    if calls == [] then None
    else
      var last := calls[|calls| - 1];
      if last.SetExitCode? then Some(last.code) else LastExitCode(calls[..|calls| - 1])
  }

  /** The exit code is the last one given, and an error that wraps nothing is its own sentinel. */
  lemma {:induction false} CodeAndSentinels(base: Option<Error>, calls: seq<Call>)
    ensures var p := AfterAll(Fresh(base), calls);
            && p.exitCode == LastExitCode(calls)
            && p.sentinels == if base.Some? && !base.value.Wrap? then [base.value] else []
  {
    LastCode(Fresh(base), calls);
  }

  lemma {:induction false} LastCode(p: Parts, calls: seq<Call>)
    ensures AfterAll(p, calls).sentinels == p.sentinels
    ensures AfterAll(p, calls).exitCode == if LastExitCode(calls).Some? then LastExitCode(calls) else p.exitCode
    decreases |calls|
  {
    if calls != [] {
      hide AfterAll;
      LastCall(p, calls);
      LastCode(p, calls[..|calls| - 1]);
    } else {
      assert AfterAll(p, calls) == p;
    }
  }

  lemma {:induction false} LastCall(p: Parts, calls: seq<Call>)
    requires calls != []
    ensures AfterAll(p, calls) == After(AfterAll(p, calls[..|calls| - 1]), calls[|calls| - 1])
    decreases |calls|
  {
    hide After;
    if |calls| == 1 {
      assert calls[1..] == [] && calls[..0] == [];
    } else {
      LastCall(After(p, calls[0]), calls[1..]);
      assert calls[1..][..|calls| - 2] == calls[..|calls| - 1][1..];
    }
  }

  // ---------------------------------------------------------------- errors.Is

  lemma {:induction false} InnerNode(e: Error, outer: Error, n: Error)
    requires NodeOf(n, e) && NodeOf(e, outer)
    ensures NodeOf(n, outer)
    decreases outer
  {
    if e != outer {
      match outer
      case Wrap(_, cause) =>
        InnerNode(e, cause, n);
      case Multi(causes) =>
        var c :| c in causes && NodeOf(e, c);
        InnerNode(e, c, n);
    }
  }

  lemma {:induction false} WrappedStays(e: Error, hints: seq<string>, details: seq<string>, sentinels: seq<Error>)
    ensures NodeOf(e, WithHints(e, hints)) && NodeOf(e, WithDetails(e, details)) && NodeOf(e, WithMarks(e, sentinels))
    decreases |hints| + |details| + |sentinels|
  {
    if hints != [] {
      var next := Wrap(Hint(hints[0]), e);
      WrappedStays(next, hints[1..], [], []);
      InnerNode(next, WithHints(e, hints), e);
    }
    if details != [] {
      var next := Wrap(Detail(details[0]), e);
      WrappedStays(next, [], details[1..], []);
      InnerNode(next, WithDetails(e, details), e);
    }
    if sentinels != [] {
      var next := Wrap(Mark(sentinels[0]), e);
      WrappedStays(next, [], [], sentinels[1..]);
      InnerNode(next, WithMarks(e, sentinels), e);
    }
  }

  lemma FinishedHolds(p: Parts)
    requires p.err.Some?
    ensures NodeOf(p.err.value, Finished(p).value)
  {
    hide WithHints, WithMarks, EscapeAll, CT.Printed;
    var e, all := p.err.value, TitleHint(p) + EscapeAll(p.hints);
    var hinted := WithHints(e, all);
    var contexted := WithContextText(hinted, p.context);
    var marked := WithMarks(contexted, p.sentinels);
    WrappedStays(e, all, [], []);
    WrappedStays(contexted, [], [], p.sentinels);
    LayersStay(e, hinted, contexted, marked);
    InnerNode(marked, Finished(p).value, e);
  }

  lemma LayersStay(a: Error, b: Error, c: Error, d: Error)
    requires NodeOf(a, b) && (c == b || (c.Wrap? && c.cause == b)) && NodeOf(c, d)
    ensures NodeOf(a, d)
  {
    InnerNode(b, c, a);
    InnerNode(c, d, a);
  }

  lemma JoinedNodes(a: Error, b: Error)
    ensures NodeOf(a, Multi([a, b])) && NodeOf(b, Multi([a, b]))
  {
    var pair := [a, b];
    ItselfNode(a);
    ItselfNode(b);
    assert pair[0] == a && pair[1] == b;
  }

  lemma OneCallHolds(p: Parts, call: Call)
    requires p.err.Some?
    ensures After(p, call).err.Some? && NodeOf(p.err.value, After(p, call).err.value)
    ensures call.AddCause? ==> NodeOf(call.cause, After(p, call).err.value)
  {
    hide WithDetails, AllTexts, CT.Absorb;
    if call.AddCause? {
      var both := Multi([p.err.value, call.cause]);
      JoinedNodes(p.err.value, call.cause);
      WrappedStays(both, [], AllTexts(Details, call.cause), []);
      InnerNode(both, After(p, call).err.value, p.err.value);
      InnerNode(both, After(p, call).err.value, call.cause);
    }
  }

  lemma {:induction false} CallsHold(p: Parts, calls: seq<Call>, n: Error)
    requires Base(p.err, calls).Some?
    requires Base(p.err, calls) == Some(n) || AddCause(n) in calls
    ensures AfterAll(p, calls).err.Some? && NodeOf(n, AfterAll(p, calls).err.value)
    decreases |calls|
  {
    hide After, NodeOf;
    KeepsError(p, calls);
    if calls == [] {
      ItselfNode(n);
    } else {
      var next := After(p, calls[0]);
      if p.err.Some? {
        OneCallHolds(p, calls[0]);
      } else {
        NilCall(p, calls[0]);
      }
      if AddCause(n) in calls[1..] || Base(next.err, calls[1..]) == Some(n) {
        CallsHold(next, calls[1..], n);
      } else {
        CallsHold(next, calls[1..], next.err.value);
        InnerNode(next.err.value, AfterAll(p, calls).err.value, n);
      }
    }
  }

  lemma ItselfNode(n: Error)
    ensures NodeOf(n, n)
  {
  }

  /** The built error holds the error that it was made from and every cause as they were, so errors.Is finds them. */
  lemma {:induction false} BuiltHoldsAll(base: Option<Error>, calls: seq<Call>, n: Error)
    requires Base(base, calls).Some? && (base == Some(n) || AddCause(n) in calls)
    ensures NodeOf(n, Built(base, calls))
  {
    hide NodeOf, AfterAll;
    var p := AfterAll(Fresh(base), calls);
    if base == Some(n) {
      BaseGivenIs(base, calls);
    }
    CallsHold(Fresh(base), calls, n);
    FinishedHolds(p);
    InnerNode(p.err.value, Built(base, calls), n);
  }

  lemma BaseGivenIs(base: Option<Error>, calls: seq<Call>)
    requires base.Some?
    ensures Base(base, calls) == base
  {
  }
}
