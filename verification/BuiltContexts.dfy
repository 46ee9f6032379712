/**
What answers a context key after any use of the error builder and through any depth of wrapping
(GetContext on the error): the builders print their contexts and read those of their causes back.
 */
module BuiltContexts {
  import opened Options
  import opened ErrorTrees
  import opened ErrorBuilding
  import opened BuiltErrors
  import opened BuiltTowers
  import CT = ContextText
  import Text

  /** GetContext on an error. */
  function ContextOf(e: Error, key: string): Option<string> {
    CT.Lookup(key, CT.AllPairs(SafeTexts(e)))
  }

  function OrElse(first: Option<string>, second: Option<string>): Option<string> {
    if first.Some? then first else second
  }

  /** The value that the key was given last. */
  function LastAdded(calls: seq<Call>, key: string): Option<string>
    decreases |calls|
  {
    if calls == [] then None
    else
      var here := if calls[0].AddContext? && calls[0].key == key then Some(calls[0].value) else None;
      OrElse(LastAdded(calls[1..], key), here)
  }

  /** What the first cause that answers the key says. */
  function FirstNamed(calls: seq<Call>, key: string): Option<string>
    decreases |calls|
  {
    if calls == [] then None
    else
      var here := if calls[0].AddCause? then ContextOf(calls[0].cause, key) else None;
      OrElse(here, FirstNamed(calls[1..], key))
  }

  function ValueIn(ctx: CT.Context, key: string): Option<string> {
    if key in ctx then Some(ctx[key]) else None
  }

  // ---------------------------------------------------------------- the context that a builder collects

  lemma {:induction false} AbsorbedValue(base: CT.Context, key: string, pairs: seq<string>)
    requires !Text.Contains(key, CT.EQUALS)
    ensures var merged := CT.Absorb(base, pairs);
            (if key in merged then Some(merged[key]) else None)
            == if key in base then Some(base[key]) else CT.Lookup(key, pairs)
    decreases |pairs|
  {
    if pairs != [] {
      CT.PrefixReads(key, pairs[0]);
      var read := CT.ReadPair(pairs[0]);
      if read.Some? {
        var (k, v) := read.value;
        AbsorbedValue(if k in base then base else base[k := v], key, pairs[1..]);
      } else {
        AbsorbedValue(base, key, pairs[1..]);
      }
    }
  }

  /** What the builder's context has for a key in the end: the last value given, or else the earliest from anywhere. */
  lemma {:induction false} ContextAfterAll(p: Parts, calls: seq<Call>, key: string)
    requires !Text.Contains(key, CT.EQUALS)
    ensures ValueIn(AfterAll(p, calls).context, key) ==
              OrElse(LastAdded(calls, key), OrElse(ValueIn(p.context, key), FirstNamed(Later(p.err, calls), key)))
    decreases |calls|
  {
    hide Text.Contains, ContextOf;
    if calls != [] {
      ContextAfterAll(After(p, calls[0]), calls[1..], key);
      ContextAfter(p, calls[0], key);
      if p.err.None? && !calls[0].AddCause? {
        NamedBehind(calls[0], Later(None, calls[1..]), key);
      }
    }
  }

  lemma NamedBehind(call: Call, calls: seq<Call>, key: string)
    requires !call.AddCause?
    ensures FirstNamed([call] + calls, key) == FirstNamed(calls, key)
  {
    assert ([call] + calls)[1..] == calls;
  }

  lemma ContextAfter(p: Parts, call: Call, key: string)
    requires !Text.Contains(key, CT.EQUALS)
    ensures var after := ValueIn(After(p, call).context, key);
            match call
            case AddContext(k, v) => after == if k == key then Some(v) else ValueIn(p.context, key)
            case AddCause(c) =>
              after == if p.err.None? then ValueIn(p.context, key)
                       else OrElse(ValueIn(p.context, key), ContextOf(c, key))
            case _ => after == ValueIn(p.context, key)
    ensures p.err.Some? ==> After(p, call).err.Some?
    ensures p.err.None? ==> After(p, call).err == if call.AddCause? then Some(call.cause) else None
  {
    hide Text.Contains, CT.Lookup, CT.Absorb, CT.AllPairs, AllTexts;
    if call.AddCause? {
      AbsorbedValue(p.context, key, CT.AllPairs(SafeTexts(call.cause)));
    }
  }

  /** The texts on the chain of the builder's error: the base's, unless a cause joined. */
  lemma {:induction false} TextsAfterAll(p: Parts, calls: seq<Call>)
    requires Base(p.err, calls).Some?
    ensures AfterAll(p, calls).err.Some?
    ensures SafeTexts(AfterAll(p, calls).err.value) ==
              if HasCause(Later(p.err, calls)) then [] else SafeTexts(Base(p.err, calls).value)
    decreases |calls|
  {
    hide After, SafeTexts, HasCause;
    if calls == [] {
      NoCause();
    } else {
      if p.err.Some? {
        TextsAfter(p, calls[0]);
        FirstCause(calls);
      } else {
        NilCall(p, calls[0]);
        FirstCause([calls[0]] + Later(None, calls[1..]));
      }
      TextsAfterAll(After(p, calls[0]), calls[1..]);
    }
  }

  lemma TextsAfter(p: Parts, call: Call)
    requires p.err.Some?
    ensures After(p, call).err.Some?
    ensures SafeTexts(After(p, call).err.value) == if call.AddCause? then [] else SafeTexts(p.err.value)
  {
    hide CT.Absorb, AllTexts;
    if call.AddCause? {
      HintsAndMarksCarryNoText(Multi([p.err.value, call.cause]), AllTexts(Details, call.cause), []);
    }
  }

  lemma {:induction false} SafeTextsOfFinished(p: Parts)
    requires p.err.Some?
    ensures SafeTexts(Finished(p).value)
            == (if p.context == map[] then [] else [CT.Printed(p.context)]) + SafeTexts(p.err.value)
  {
    hide EscapeAll, TitleHint, CT.Printed, WithHints, WithMarks;
    var all := TitleHint(p) + EscapeAll(p.hints);
    var hinted := WithHints(p.err.value, all);
    HintsAndMarksCarryNoText(p.err.value, all, []);
    HintsAndMarksCarryNoText(WithContextText(hinted, p.context), [], p.sentinels);
  }

  lemma {:induction false} HintsAndMarksCarryNoText(e: Error, texts: seq<string>, sentinels: seq<Error>)
    ensures SafeTexts(WithHints(e, texts)) == SafeTexts(e)
    ensures SafeTexts(WithDetails(e, texts)) == SafeTexts(e)
    ensures SafeTexts(WithMarks(e, sentinels)) == SafeTexts(e)
    decreases |texts| + |sentinels|
  {
    if texts != [] {
      HintsAndMarksCarryNoText(Wrap(Hint(texts[0]), e), texts[1..], []);
      HintsAndMarksCarryNoText(Wrap(Detail(texts[0]), e), texts[1..], []);
    }
    if sentinels != [] {
      HintsAndMarksCarryNoText(Wrap(Mark(sentinels[0]), e), [], sentinels[1..]);
    }
  }

  // ---------------------------------------------------------------- the answer of a built error

  ghost function ContextBuilt(base: Option<Error>, calls: seq<Call>): CT.Context {
    AfterAll(Fresh(base), calls).context
  }

  /** What is left to answer where the builder's own text does not: the base, unless a cause joined. */
  function BaseAnswer(base: Option<Error>, calls: seq<Call>, key: string): Option<string>
    requires Base(base, calls).Some?
  {
    if HasCause(Later(base, calls)) then None else ContextOf(Base(base, calls).value, key)
  }

  /** For any calls and any key: the first word that answers in the sorted text of all that the builder collected. */
  lemma {:induction false} BuiltAnswers(base: Option<Error>, calls: seq<Call>, key: string)
    requires Base(base, calls).Some? && CT.Formattable(ContextBuilt(base, calls))
    ensures ContextOf(Built(base, calls), key) ==
              OrElse(CT.FirstAnswer(key, CT.SortedPairs(ContextBuilt(base, calls))), BaseAnswer(base, calls, key))
  {
    hide AfterAll, Base, Later, HasCause, CT.Lookup, CT.Printed, CT.AllPairs, CT.SortedPairs, CT.FirstAnswer, SafeTexts;
    var p := AfterAll(Fresh(base), calls);
    TextsAfterAll(Fresh(base), calls);
    SafeTextsOfFinished(p);
    var texts := SafeTexts(p.err.value);
    NoTextNoAnswer(key);
    if p.context == map[] {
      assert [] + texts == texts;
    } else {
      CT.LookupFirst(key, p.context);
      TextInFront(key, CT.Printed(p.context), texts);
    }
  }

  lemma NoTextNoAnswer(key: string)
    ensures CT.Lookup(key, CT.AllPairs([])) == None && CT.FirstAnswer(key, CT.SortedPairs(map[])) == None
  {
    assert |CT.SortedKeys({})| == 0 by {
      if CT.SortedKeys({}) != [] {
        CT.FirstElement(CT.SortedKeys({}));
      }
    }
  }

  lemma TextInFront(key: string, text: string, texts: seq<string>)
    ensures CT.Lookup(key, CT.AllPairs([text] + texts)) ==
              OrElse(CT.Lookup(key, CT.AllPairs([text])), CT.Lookup(key, CT.AllPairs(texts)))
  {
    hide CT.Lookup, Text.Split;
    var all := [text] + texts;
    assert all[1..] == texts;
    CT.OneDetail(text);
    CT.LookupAppend(key, Text.Split(text, CT.SPACE), CT.AllPairs(texts));
  }

  lemma {:induction false} AllPairsHaveNoSpace(details: seq<string>)
    ensures forall p :: p in CT.AllPairs(details) ==> !Text.Contains(p, CT.SPACE)
  {
    if details != [] {
      AllPairsHaveNoSpace(details[1..]);
    }
  }

  /** No pair that is added for another key has a word that speaks of this one. */
  ghost predicate OthersSilent(calls: seq<Call>, key: string) {
    forall k, v :: AddContext(k, v) in calls && k != key ==> CT.SaysNothing(key, CT.Pair(k, v))
  }

  lemma {:induction false} CollectedOwnPair(p: Parts, calls: seq<Call>, key: string)
    requires CT.OnlyOwnPair(key, p.context) && OthersSilent(calls, key) && !Text.Contains(key, CT.EQUALS)
    ensures CT.OnlyOwnPair(key, AfterAll(p, calls).context)
    decreases |calls|
  {
    hide CT.OnlyOwnPair, CT.SaysNothing, Text.Contains, After;
    if calls != [] {
      assert forall call :: call in calls[1..] ==> call in calls;
      assert calls[0] in calls;
      CollectedOne(p, calls[0], key);
      CollectedOwnPair(After(p, calls[0]), calls[1..], key);
    }
  }

  lemma CollectedOne(p: Parts, call: Call, key: string)
    requires CT.OnlyOwnPair(key, p.context) && !Text.Contains(key, CT.EQUALS)
    requires call.AddContext? && call.key != key ==> CT.SaysNothing(key, CT.Pair(call.key, call.value))
    ensures CT.OnlyOwnPair(key, After(p, call).context)
  {
    hide CT.SaysNothing, CT.Pair, Text.Contains, CT.Absorb, CT.AllPairs, AllTexts, SafeTexts;
    if call.AddCause? && p.err.Some? {
      hide CT.OnlyOwnPair;
      AllPairsHaveNoSpace(SafeTexts(call.cause));
      CT.MergedOwnPair(key, p.context, CT.AllPairs(SafeTexts(call.cause)));
    }
  }

  /** What GetContext tells of a value: its first word. */
  function Word(value: string): string {
    Text.Split(value, CT.SPACE)[0]
  }

  /**
  For any calls: a key of which no other added pair speaks has the value that it was given last, up to its
  first space, or else what the first of the causes that joined says, or else what the base says.
   */
  lemma {:induction false} BuiltContext(base: Option<Error>, calls: seq<Call>, key: string)
    requires Base(base, calls).Some? && CT.Formattable(ContextBuilt(base, calls))
    requires !Text.Contains(key, CT.EQUALS) && OthersSilent(calls, key)
    ensures ContextOf(Built(base, calls), key) ==
              if Text.Contains(key, CT.SPACE) then None
              else if LastAdded(calls, key).Some? then Some(Word(LastAdded(calls, key).value))
              else OrElse(FirstNamed(Later(base, calls), key), BaseAnswer(base, calls, key))
  {
    hide Base, Later, HasCause, CT.Lookup, CT.Printed, CT.AllPairs, CT.SortedPairs, CT.FirstAnswer, SafeTexts,
        Text.Contains, CT.OnlyOwnPair, OthersSilent, AfterAll, Text.Split, Word, Built;
    var ctx := ContextBuilt(base, calls);
    BuiltAnswers(base, calls, key);
    NoPairsYet(key);
    CollectedOwnPair(Fresh(base), calls, key);
    ContextAfterAll(Fresh(base), calls, key);
    AnswerInSorted(key, ctx);
    if Text.Contains(key, CT.SPACE) {
      SpacedIsNotAnswered(Built(base, calls), key);
    } else {
      ToldIsWord(key, ctx);
      NamedIsOneWord(Later(base, calls), key);
    }
  }

  lemma NoPairsYet(key: string)
    ensures CT.OnlyOwnPair(key, map[])
  {
  }

  lemma AnswerInSorted(key: string, ctx: CT.Context)
    requires CT.OnlyOwnPair(key, ctx)
    ensures CT.FirstAnswer(key, CT.SortedPairs(ctx)) == CT.Told(key, ctx)
  {
    hide CT.FirstAnswer, CT.OnlyOwnPair, Text.Contains, Text.Split;
    var keys := CT.SortedKeys(ctx.Keys);
    assert forall k :: k in keys <==> k in CT.Elements(keys);
    CT.LookupInOwnPair(key, keys, ctx);
  }

  lemma ToldIsWord(key: string, ctx: CT.Context)
    requires !Text.Contains(key, CT.SPACE)
    ensures CT.Told(key, ctx) == if key in ctx then Some(Word(ctx[key])) else None
  {
  }

  lemma SpacedIsNotAnswered(e: Error, key: string)
    requires Text.Contains(key, CT.SPACE)
    ensures ContextOf(e, key) == None
  {
    hide Text.Contains, CT.Lookup, CT.AllPairs;
    AllPairsHaveNoSpace(SafeTexts(e));
    CT.SpacedIsNotFound(key, CT.AllPairs(SafeTexts(e)));
  }

  /** What a cause says has no space. */
  lemma {:induction false} NamedIsOneWord(calls: seq<Call>, key: string)
    ensures FirstNamed(calls, key).Some? ==> Word(FirstNamed(calls, key).value) == FirstNamed(calls, key).value
    decreases |calls|
  {
    hide ContextOf, Word;
    if calls != [] {
      if calls[0].AddCause? {
        AnswerIsOneWord(calls[0].cause, key);
      }
      NamedIsOneWord(calls[1..], key);
    }
  }

  lemma AnswerIsOneWord(e: Error, key: string)
    ensures ContextOf(e, key).Some? ==> Word(ContextOf(e, key).value) == ContextOf(e, key).value
  {
    hide Text.Contains, CT.Lookup, CT.AllPairs, CT.Pair, Text.Split;
    if ContextOf(e, key).Some? {
      FoundHasNoSpace(e, key);
      Text.SplitNone(ContextOf(e, key).value, CT.SPACE);
    }
  }

  lemma FoundHasNoSpace(e: Error, key: string)
    requires ContextOf(e, key).Some?
    ensures !Text.Contains(key, CT.SPACE) && !Text.Contains(ContextOf(e, key).value, CT.SPACE)
  {
    hide Text.Contains, CT.Lookup, CT.AllPairs;
    AllPairsHaveNoSpace(SafeTexts(e));
    CT.LookupFinds(key, CT.AllPairs(SafeTexts(e)));
    CT.PairSpaces(key, ContextOf(e, key).value);
  }

  // ---------------------------------------------------------------- answers in full

  /** The key is answered with the whole value that it was given last, or else as by the causes or the base. */
  ghost predicate InFull(base: Option<Error>, calls: seq<Call>, key: string)
    requires Base(base, calls).Some?
  {
    ContextOf(Built(base, calls), key) ==
    OrElse(LastAdded(calls, key), OrElse(FirstNamed(Later(base, calls), key), BaseAnswer(base, calls, key)))
  }

  ghost predicate AllInFull(base: Option<Error>, calls: seq<Call>)
    requires Base(base, calls).Some?
  {
    forall key :: !Text.Contains(key, CT.EQUALS) ==> InFull(base, calls, key)
  }

  /** The keys that keep a value given to them, and these values, have no space. */
  predicate AddsOneWord(calls: seq<Call>, key: string) {
    LastAdded(calls, key).Some? ==>
      !Text.Contains(key, CT.SPACE) && !Text.Contains(LastAdded(calls, key).value, CT.SPACE)
  }

  /** Where no key that is added holds a `=`, all keys are answered in full exactly then. */
  lemma {:induction false} AllInFullIff(base: Option<Error>, calls: seq<Call>)
    requires Base(base, calls).Some? && CT.Formattable(ContextBuilt(base, calls))
    requires forall key :: LastAdded(calls, key).Some? ==> !Text.Contains(key, CT.EQUALS)
    ensures AllInFull(base, calls) <==> forall key :: AddsOneWord(calls, key)
  {
    hide Text.Contains, ContextOf, Base, Later, BaseAnswer, Built, AddsOneWord, AfterAll;
    if AllInFull(base, calls) {
      forall key ensures AddsOneWord(calls, key) {
        FullIsOneWord(base, calls, key);
      }
    }
    if forall key :: AddsOneWord(calls, key) {
      forall key | !Text.Contains(key, CT.EQUALS) ensures InFull(base, calls, key) {
        CollectedIsClean(base, calls);
        OneWordIsFull(base, calls, key);
      }
    }
  }

  lemma FullIsOneWord(base: Option<Error>, calls: seq<Call>, key: string)
    requires Base(base, calls).Some? && AllInFull(base, calls)
    requires LastAdded(calls, key).Some? ==> !Text.Contains(key, CT.EQUALS)
    ensures AddsOneWord(calls, key)
  {
    hide Text.Contains, ContextOf, Base, Later, BaseAnswer, Built;
    if LastAdded(calls, key).Some? {
      assert InFull(base, calls, key);
      FoundHasNoSpace(Built(base, calls), key);
    }
  }

  lemma {:induction false} CollectedIsClean(base: Option<Error>, calls: seq<Call>)
    requires forall key :: AddsOneWord(calls, key)
    requires forall key :: LastAdded(calls, key).Some? ==> !Text.Contains(key, CT.EQUALS)
    ensures CT.Clean(ContextBuilt(base, calls))
  {
    hide Text.Contains, ContextOf, Later, CT.CleanKey;
    AddedOrRead(Fresh(base), calls);
    var ctx := ContextBuilt(base, calls);
    forall k | k in ctx ensures CT.CleanKey(k) && !Text.Contains(ctx[k], CT.SPACE) {
      assert AddsOneWord(calls, k);
      if LastAdded(calls, k).Some? {
        CleanKeyIs(k);
      }
    }
  }

  lemma CleanKeyIs(k: string)
    ensures CT.CleanKey(k) <==> !Text.Contains(k, CT.SPACE) && !Text.Contains(k, CT.EQUALS)
  {
  }

  /** What is in the context in the end was there before, was added last, or was read from a cause. */
  lemma {:induction false} AddedOrRead(p: Parts, calls: seq<Call>)
    ensures var ctx := AfterAll(p, calls).context;
            forall k :: k in ctx ==>
              || LastAdded(calls, k) == Some(ctx[k])
              || (LastAdded(calls, k).None? && k in p.context && p.context[k] == ctx[k])
              || (LastAdded(calls, k).None? && k !in p.context && CT.CleanKey(k) && !Text.Contains(ctx[k], CT.SPACE))
    decreases |calls|
  {
    hide Text.Contains, ContextOf, CT.CleanKey, After;
    if calls != [] {
      AddedOrRead(After(p, calls[0]), calls[1..]);
      OneAddedOrRead(p, calls[0]);
    }
  }

  lemma OneAddedOrRead(p: Parts, call: Call)
    ensures var ctx := After(p, call).context;
            forall k :: k in ctx ==>
              || (k in p.context && p.context[k] == ctx[k] && !(call.AddContext? && call.key == k))
              || (call.AddContext? && call.key == k && call.value == ctx[k])
              || (call.AddCause? && k !in p.context && CT.CleanKey(k) && !Text.Contains(ctx[k], CT.SPACE))
    ensures forall k :: k in p.context || (call.AddContext? && call.key == k) ==> k in After(p, call).context
  {
    hide Text.Contains, CT.CleanKey, CT.Absorb, CT.AllPairs, AllTexts, SafeTexts;
    if call.AddCause? && p.err.Some? {
      AllPairsHaveNoSpace(SafeTexts(call.cause));
      CT.AbsorbAddsClean(p.context, CT.AllPairs(SafeTexts(call.cause)));
    }
  }

  lemma OneWordIsFull(base: Option<Error>, calls: seq<Call>, key: string)
    requires Base(base, calls).Some? && CT.Clean(ContextBuilt(base, calls)) && !Text.Contains(key, CT.EQUALS)
    requires CT.Formattable(ContextBuilt(base, calls))
    ensures InFull(base, calls, key)
  {
    hide Base, Later, CT.Lookup, CT.SortedPairs, CT.FirstAnswer, Text.Contains, CT.OnlyOwnPair, AfterAll, CT.Told,
        ContextOf, BaseAnswer, CT.Clean, Built;
    var ctx := ContextBuilt(base, calls);
    BuiltAnswers(base, calls, key);
    CT.CleanTells(key, ctx);
    AnswerInSorted(key, ctx);
    ContextAfterAll(Fresh(base), calls, key);
  }

  // ---------------------------------------------------------------- through any depth of wrapping

  lemma {:induction false} LastAddedAppend(a: seq<Call>, b: seq<Call>, key: string)
    ensures LastAdded(a + b, key) == OrElse(LastAdded(b, key), LastAdded(a, key))
    decreases |a|
  {
    if a == [] {
      assert a + b == b;
    } else {
      var all := a + b;
      assert all[0] == a[0] && all[1..] == a[1..] + b;
      LastAddedAppend(a[1..], b, key);
    }
  }

  lemma {:induction false} FirstNamedAppend(a: seq<Call>, b: seq<Call>, key: string)
    ensures FirstNamed(a + b, key) == OrElse(FirstNamed(a, key), FirstNamed(b, key))
    decreases |a|
  {
    hide ContextOf;
    if a == [] {
      assert a + b == b;
    } else {
      var all := a + b;
      assert all[0] == a[0] && all[1..] == a[1..] + b;
      FirstNamedAppend(a[1..], b, key);
    }
  }

  /** The layer's own value, or else its causes in turn; the error below is one of them, or stands for its base. */
  function TowerValue(bottom: Error, layers: seq<Layer>, key: string): Option<string> {
    if layers == [] then ContextOf(bottom, key)
    else
      var layer, inner := layers[0], TowerValue(bottom, layers[1..], key);
      var added := LastAdded(layer.before + layer.after, key);
      if added.Some? then Some(Word(added.value))
      else if Joins(layer) then
        OrElse(FirstNamed(Later(layer.base, layer.before), key), OrElse(inner, FirstNamed(layer.after, key)))
      else OrElse(FirstNamed(Others(layer), key), if HasCause(Others(layer)) then None else inner)
  }

  /** Every text that the tower prints has keys that can stand in a format string. */
  ghost predicate AllFormattable(bottom: Error, layers: seq<Layer>) {
    layers != [] ==>
      && CT.Formattable(ContextBuilt(layers[0].base, Calls(layers[0], Tower(bottom, layers[1..]))))
      && AllFormattable(bottom, layers[1..])
  }

  /**
  Through any depth of wrapping the outermost layer that names a key decides its value, up to its first space,
  as long as no other pair that is added speaks of the key.
   */
  lemma {:induction false} TowerContext(bottom: Error, layers: seq<Layer>, key: string)
    requires !Text.Contains(key, CT.EQUALS) && AllFormattable(bottom, layers)
    requires forall l :: l in layers ==> OthersSilent(l.before + l.after, key)
    ensures ContextOf(Tower(bottom, layers), key) ==
              if Text.Contains(key, CT.SPACE) then None else TowerValue(bottom, layers, key)
  {
    hide Text.Contains, ContextOf, OthersSilent, Calls, Base, Later, Others, Word, Built, HasCause, AfterAll;
    if Text.Contains(key, CT.SPACE) {
      SpacedIsNotAnswered(Tower(bottom, layers), key);
    } else if layers != [] {
      var layer, inner := layers[0], Tower(bottom, layers[1..]);
      assert layer in layers;
      TowerContext(bottom, layers[1..], key);
      LayerBases(layer, inner);
      LayerPairs(layer, inner, key);
      BuiltContext(layer.base, Calls(layer, inner), key);
      LayerValues(layer, inner, key);
    }
  }

  lemma LayerPairs(layer: Layer, inner: Error, key: string)
    requires OthersSilent(layer.before + layer.after, key)
    ensures OthersSilent(Calls(layer, inner), key)
  {
    hide CT.SaysNothing;
    assert forall k, v :: AddContext(k, v) in Calls(layer, inner) <==> AddContext(k, v) in layer.before + layer.after;
  }

  lemma LayerValues(layer: Layer, inner: Error, key: string)
    ensures var calls := Calls(layer, inner);
            && Base(layer.base, calls).Some?
            && LastAdded(calls, key) == LastAdded(layer.before + layer.after, key)
            && FirstNamed(Later(layer.base, calls), key) ==
                 (if Joins(layer) then
                    OrElse(FirstNamed(Later(layer.base, layer.before), key),
                           OrElse(ContextOf(inner, key), FirstNamed(layer.after, key)))
                  else FirstNamed(Others(layer), key))
            && BaseAnswer(layer.base, calls, key) ==
                 if Joins(layer) || HasCause(Others(layer)) then None else ContextOf(inner, key)
  {
    hide ContextOf, Base, Later, Others;
    LayerBases(layer, inner);
    LayerCauses(layer, inner, "");
    hide HasCause;
    var before, one, after := layer.before, [AddCause(inner)], layer.after;
    OneCause(inner, key);
    LastAddedAppend(before + one, after, key);
    LastAddedAppend(before, one, key);
    LastAddedAppend(before, after, key);
    FirstNamedAppend(Later(layer.base, before) + one, after, key);
    FirstNamedAppend(Later(layer.base, before), one, key);
  }

  lemma OneCause(inner: Error, key: string)
    ensures LastAdded([AddCause(inner)], key) == None
    ensures FirstNamed([AddCause(inner)], key) == ContextOf(inner, key)
  {
    hide ContextOf;
    assert [AddCause(inner)][1..] == [];
  }
}
