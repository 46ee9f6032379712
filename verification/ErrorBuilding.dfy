/**
The fluent error builder of errors/builder.go. Err() escapes every hint, also those taken from a cause
that were escaped when the cause was built, so "no hint is lost or doubled" at any depth of wrapping
rests on escaping being idempotent.
 */
module ErrorBuilding {
  import opened Options
  import opened ErrorTrees
  import opened UniqueLists
  import opened HintEscaping
  import CT = ContextText

  /** The fields of a builder, as a value. */
  datatype Parts = Parts(
    err: Option<Error>,
    title: Option<string>,
    hints: seq<string>,
    context: CT.Context,
    exitCode: Option<int>,
    sentinels: seq<Error>)

  function Fresh(err: Option<Error>): Parts {
    Parts(err, None, [], map[], None, if err.Some? && UnwrapOnce(err.value).None? then [err.value] else [])
  }

  function WithDetails(e: Error, details: seq<string>): Error
    decreases |details|
  {
    if details == [] then e else WithDetails(Wrap(Detail(details[0]), e), details[1..])
  }

  /** errors.GetAllSafeDetails: the single-cause chain, outermost layer first. */
  function SafeTexts(e: Error): seq<string> {
    if !e.Wrap? then []
    else (if e.note.SafeDetails? then [e.note.text] else []) + SafeTexts(e.cause)
  }

  function AfterCause(p: Parts, cause: Option<Error>): Parts {
    if cause.None? then p
    else if p.err.None? then p.(err := cause)
    else
      p.(hints := p.hints + AllTexts(Hints, cause.value),
         context := CT.Absorb(p.context, CT.AllPairs(SafeTexts(cause.value))),
         err := Some(WithDetails(Multi([p.err.value, cause.value]), AllTexts(Details, cause.value))))
  }

  /** One call on a builder between Build and Err. */
  datatype Call =
    | AddHint(text: string)
    | AddExplanation(text: string)
    | AddContext(key: string, value: string)
    | SetTitle(text: string)
    | SetExitCode(code: int)
    | AddCause(cause: Error)

  function After(p: Parts, call: Call): Parts {
    match call
    case AddHint(text) => p.(hints := p.hints + [text])
    case AddExplanation(text) => p.(err := if p.err.Some? then Some(Wrap(Detail(text), p.err.value)) else None)
    case AddContext(key, value) => p.(context := p.context[key := value])
    case SetTitle(text) => p.(title := Some(text))
    case SetExitCode(code) => p.(exitCode := Some(code))
    case AddCause(cause) => AfterCause(p, Some(cause))
  }

  function TitleHint(p: Parts): seq<string> {
    if p.title.Some? then ["TITLE:" + p.title.value] else []
  }

  function EscapeAll(hints: seq<string>): seq<string> {
    if hints == [] then [] else [Escape(hints[0])] + EscapeAll(hints[1..])
  }

  function WithMarks(e: Error, sentinels: seq<Error>): Error
    decreases |sentinels|
  {
    if sentinels == [] then e else WithMarks(Wrap(Mark(sentinels[0]), e), sentinels[1..])
  }

  ghost function WithContextText(e: Error, context: CT.Context): Error {
    if context == map[] then e else Wrap(SafeDetails(CT.Printed(context)), e)
  }

  /** The layers that Err() puts around the builder's error. */
  ghost function Finished(p: Parts): Option<Error> {
    if p.err.None? then None
    else
      var hinted := WithHints(p.err.value, TitleHint(p) + EscapeAll(p.hints));
      var marked := WithMarks(WithContextText(hinted, p.context), p.sentinels);
      Some(if p.exitCode.Some? then Wrap(ExitCode(p.exitCode.value), marked) else marked)
  }

  class ErrorBuilder {
    var err: Option<Error>
    var title: Option<string>
    var hints: seq<string>
    var context: CT.Context
    var exitCode: Option<int>
    var sentinels: seq<Error>

    ghost function State(): Parts
      reads this
    {
      Parts(err, title, hints, context, exitCode, sentinels)
    }

    constructor Build(err: Option<Error>)
      ensures State() == Fresh(err)
    {
      this.err := err;
      title, hints, context, exitCode, sentinels := None, [], map[], None, [];
      new;
      if err.Some? && UnwrapOnce(err.value).None? {
        sentinels := sentinels + [err.value];
      }
    }

    method WithHint(hint: string)
      modifies this
      ensures State() == After(old(State()), AddHint(hint))
    {
      hints := hints + [hint];
    }

    method WithExampleFile(content: string)
      modifies this
      ensures State() == After(old(State()), AddHint("EXAMPLE:" + content))
    {
      hints := hints + ["EXAMPLE:" + content];
    }

    /** errors.WithDetail leaves a nil error nil. */
    method WithExplanation(explanation: string)
      modifies this
      ensures State() == After(old(State()), AddExplanation(explanation))
    {
      if err.Some? {
        err := Some(Wrap(Detail(explanation), err.value));
      }
    }

    method WithContext(key: string, value: string)
      modifies this
      ensures State() == After(old(State()), AddContext(key, value))
    {
      context := context[key := value];
    }

    method WithTitle(title: string)
      modifies this
      ensures State() == After(old(State()), SetTitle(title))
    {
      this.title := Some(title);
    }

    method WithExitCode(code: int)
      modifies this
      ensures State() == After(old(State()), SetExitCode(code))
    {
      exitCode := Some(code);
    }

    method WithCause(cause: Option<Error>)
      modifies this
      ensures State() == if cause.Some? then After(old(State()), AddCause(cause.value)) else old(State())
    {
      hide WithDetails, AllTexts, SafeTexts, CT.Absorb, CT.AllPairs;
      if cause.Some? {
        if err.None? {
          err := cause;
        } else {
          var causeHints := CollectAcrossCauses(Hints, cause);
          if |causeHints| > 0 {
            hints := hints + causeHints;
          }
          var causeDetails := CollectAcrossCauses(Details, cause);
          context := CT.ExtractContext(context, SafeTexts(cause.value));
          var wrapped := Multi([err.value, cause.value]);
          ghost var goal := WithDetails(wrapped, causeDetails);
          for i := 0 to |causeDetails|
            invariant WithDetails(wrapped, causeDetails[i..]) == goal
            modifies {}
          {
            assert causeDetails[i..][0] == causeDetails[i] && causeDetails[i..][1..] == causeDetails[i + 1..];
            DetailsNext(wrapped, causeDetails[i..]);
            wrapped := Wrap(Detail(causeDetails[i]), wrapped);
          }
          NoDetailsLeft(wrapped, causeDetails);
          err := Some(wrapped);
        }
      }
    }

    method Err() returns (result: Option<Error>)
      requires CT.Formattable(context)
      ensures result == Finished(State())
    {
      if err.None? {
        return None;
      }
      var e := err.value;
      if title.Some? {
        e := Wrap(Hint("TITLE:" + title.value), e);
      }
      ghost var hinted := WithHints(err.value, TitleHint(State()) + EscapeAll(hints));
      TitleFirst(err.value, State());
      for i := 0 to |hints|
        invariant WithHints(e, EscapeAll(hints[i..])) == hinted
      {
        assert hints[i..][0] == hints[i] && hints[i..][1..] == hints[i + 1..];
        var escaped := EscapeHintAngleBrackets(hints[i]);
        e := Wrap(Hint(escaped), e);
      }
      if |context| > 0 {
        var text := CT.PrintContext(context);
        e := Wrap(SafeDetails(text), e);
      }
      ghost var marked := WithMarks(e, sentinels);
      for i := 0 to |sentinels|
        invariant WithMarks(e, sentinels[i..]) == marked
      {
        assert sentinels[i..][0] == sentinels[i] && sentinels[i..][1..] == sentinels[i + 1..];
        e := Wrap(Mark(sentinels[i]), e);
      }
      if exitCode.Some? {
        e := Wrap(ExitCode(exitCode.value), e);
      }
      return Some(e);
    }
  }

  lemma DetailsNext(e: Error, rest: seq<string>)
    requires rest != []
    ensures WithDetails(e, rest) == WithDetails(Wrap(Detail(rest[0]), e), rest[1..])
  {
  }

  lemma NoDetailsLeft(e: Error, details: seq<string>)
    ensures WithDetails(e, details[|details|..]) == e
  {
  }

  lemma TitleFirst(e: Error, p: Parts)
    ensures WithHints(e, TitleHint(p) + EscapeAll(p.hints))
            == WithHints(if p.title.Some? then Wrap(Hint("TITLE:" + p.title.value), e) else e, EscapeAll(p.hints))
  {
    var all := TitleHint(p) + EscapeAll(p.hints);
    if p.title.Some? {
      assert all[0] == "TITLE:" + p.title.value && all[1..] == EscapeAll(p.hints);
    } else {
      assert all == EscapeAll(p.hints);
    }
  }

  // ---------------------------------------------------------------- the hints of a finished error

  lemma {:induction false} DetailsAndMarksCarryNoHint(e: Error, details: seq<string>, sentinels: seq<Error>)
    ensures Chain(Hints, WithDetails(e, details)) == Chain(Hints, e)
    ensures Beneath(Hints, WithDetails(e, details)) == Beneath(Hints, e)
    ensures Chain(Hints, WithMarks(e, sentinels)) == Chain(Hints, e)
    ensures Beneath(Hints, WithMarks(e, sentinels)) == Beneath(Hints, e)
    decreases |details| + |sentinels|
  {
    if details != [] {
      DetailsAndMarksCarryNoHint(Wrap(Detail(details[0]), e), details[1..], []);
    }
    if sentinels != [] {
      DetailsAndMarksCarryNoHint(Wrap(Mark(sentinels[0]), e), [], sentinels[1..]);
    }
  }

  /** Err() puts the title first and then every hint, escaped; nothing else it adds is a hint. */
  lemma {:induction false} FinishedHints(p: Parts)
    requires p.err.Some?
    ensures Chain(Hints, Finished(p).value) == Chain(Hints, p.err.value) + (TitleHint(p) + EscapeAll(p.hints))
    ensures Beneath(Hints, Finished(p).value) == Beneath(Hints, p.err.value)
  {
    var e := p.err.value;
    var all := TitleHint(p) + EscapeAll(p.hints);
    var texted := WithContextText(WithHints(e, all), p.context);
    WithHintsChain(e, all);
    DetailsAndMarksCarryNoHint(texted, [], p.sentinels);
    hide WithHints, WithMarks, EscapeAll, TitleHint;
    NoteCarriesNoHint(SafeDetails(CT.Printed(p.context)), WithHints(e, all));
    if p.exitCode.Some? {
      NoteCarriesNoHint(ExitCode(p.exitCode.value), WithMarks(texted, p.sentinels));
    }
  }

  lemma NoteCarriesNoHint(note: Note, e: Error)
    requires !note.Hint?
    ensures Chain(Hints, Wrap(note, e)) == Chain(Hints, e)
    ensures Beneath(Hints, Wrap(note, e)) == Beneath(Hints, e)
  {
  }

  lemma {:induction false} EscapeAllMembers(hints: seq<string>, x: string)
    ensures x in EscapeAll(hints) <==> exists h :: h in hints && x == Escape(h)
    ensures x in EscapeAll(hints) ==> Escape(x) == x
  {
    if hints != [] {
      EscapeAllMembers(hints[1..], x);
      EscapeIdempotent(hints[0]);
      assert hints[0] in hints;
    }
  }

  lemma TitleIsExempt(title: string)
    ensures Escape("TITLE:" + title) == "TITLE:" + title
  {
    assert "TITLE:" <= "TITLE:" + title;
  }
}
