/**
Any depth of wrapping: errors that are built with errors below them as causes. A layer may be made from nil;
its first cause, which may be the error below, then takes the base's place.
 */
module BuiltTowers {
  import opened Options
  import opened ErrorTrees
  import opened HintEscaping
  import opened ErrorBuilding
  import opened BuiltErrors

  /** A builder that takes the error below it as a cause, after some calls and before others. */
  datatype Layer = Layer(base: Option<Error>, before: seq<Call>, after: seq<Call>)

  function Calls(layer: Layer, inner: Error): seq<Call> {
    layer.before + [AddCause(inner)] + layer.after
  }

  /** bottom wrapped by each layer in turn, layers[0] outermost. */
  ghost function Tower(bottom: Error, layers: seq<Layer>): Error {
    if layers == [] then bottom
    else
      var inner := Tower(bottom, layers[1..]);
      LayerBases(layers[0], inner);
      Built(layers[0].base, Calls(layers[0], inner))
  }

  // ---------------------------------------------------------------- what a layer brings

  /** The error below joins as a cause: the layer has a base before that. */
  predicate Joins(layer: Layer) {
    Base(layer.base, layer.before).Some?
  }

  /** The calls of the layer but for the error below and a cause that takes the place of nil. */
  function Others(layer: Layer): seq<Call> {
    Later(layer.base, layer.before) + layer.after
  }

  lemma {:induction false} BaseAppend(err: Option<Error>, a: seq<Call>, b: seq<Call>)
    ensures Base(err, a + b) == if Base(err, a).Some? then Base(err, a) else Base(None, b)
    ensures Later(err, a + b) == Later(err, a) + if Base(err, a).Some? then b else Later(None, b)
    decreases |a|
  {
    hide Base, Later;
    if err.Some? {
      BaseGiven(err, a);
      BaseGiven(err, a + b);
    } else if a == [] {
      NoBaseYet();
      assert a + b == b;
    } else {
      var all := a + b;
      assert all[0] == a[0] && all[1..] == a[1..] + b;
      BaseStep(all);
      BaseStep(a);
      if a[0].AddCause? {
        BaseGiven(Some(a[0].cause), a[1..]);
      } else {
        BaseAppend(None, a[1..], b);
      }
    }
  }

  lemma BaseGiven(err: Option<Error>, calls: seq<Call>)
    requires err.Some?
    ensures Base(err, calls) == err && Later(err, calls) == calls
  {
  }

  lemma NoBaseYet()
    ensures Base(None, []) == None && Later(None, []) == []
  {
  }

  lemma BaseStep(calls: seq<Call>)
    requires calls != []
    ensures Base(None, calls) == if calls[0].AddCause? then Some(calls[0].cause) else Base(None, calls[1..])
    ensures Later(None, calls) == if calls[0].AddCause? then calls[1..] else [calls[0]] + Later(None, calls[1..])
  {
  }

  lemma {:induction false} LayerBases(layer: Layer, inner: Error)
    ensures Base(layer.base, Calls(layer, inner)) ==
              if Joins(layer) then Base(layer.base, layer.before) else Some(inner)
    ensures Later(layer.base, Calls(layer, inner)) ==
              if Joins(layer) then Later(layer.base, layer.before) + [AddCause(inner)] + layer.after
              else Others(layer)
  {
    hide Base, Later;
    var rest := [AddCause(inner)] + layer.after;
    BaseAppend(layer.base, layer.before, rest);
    BaseStep(rest);
    assert rest[0] == AddCause(inner) && rest[1..] == layer.after;
    assert Calls(layer, inner) == layer.before + rest;
  }

  function LastTitle(title: Option<string>, calls: seq<Call>): Option<string>
    decreases |calls|
  {
    if calls == [] then title
    else LastTitle(if calls[0].SetTitle? then Some(calls[0].text) else title, calls[1..])
  }

  lemma {:induction false} TitleAfterAll(p: Parts, calls: seq<Call>)
    ensures AfterAll(p, calls).title == LastTitle(p.title, calls)
    decreases |calls|
  {
    if calls != [] {
      TitleAfterAll(After(p, calls[0]), calls[1..]);
    }
  }

  lemma {:induction false} LastTitleAppend(title: Option<string>, a: seq<Call>, b: seq<Call>)
    ensures LastTitle(title, a + b) == LastTitle(LastTitle(title, a), b)
    decreases |a|
  {
    if a == [] {
      assert a + b == b;
    } else {
      assert (a + b)[1..] == a[1..] + b;
      LastTitleAppend(if a[0].SetTitle? then Some(a[0].text) else title, a[1..], b);
    }
  }

  /** x is a hint that the layer's builder gives itself: its title, or one of its hints escaped. */
  ghost predicate LayerOwn(layer: Layer, x: string) {
    var calls := layer.before + layer.after;
    var title := LastTitle(None, calls);
    || (title.Some? && x == "TITLE:" + title.value)
    || exists h :: AddHint(h) in calls && x == Escape(h)
  }

  /** y comes from this layer: its builder, its base, or another cause of it. */
  ghost predicate LayerSource(layer: Layer, y: string) {
    || LayerOwn(layer, y)
    || CauseHint(Others(layer), y)
    || (Joins(layer) && Attached(Hints, Base(layer.base, layer.before).value, y))
  }

  ghost predicate LayerSettled(layer: Layer) {
    (Joins(layer) ==> Settled(Base(layer.base, layer.before).value)) && CausesSettled(Others(layer))
  }

  lemma {:induction false} LayerTitle(layer: Layer, inner: Error)
    ensures var title := LastTitle(None, layer.before + layer.after);
            TitleHint(AfterAll(Fresh(layer.base), Calls(layer, inner))) ==
              if title.Some? then ["TITLE:" + title.value] else []
  {
    var p := Fresh(layer.base);
    var title := LastTitle(None, layer.before);
    TitleAfterAll(p, Calls(layer, inner));
    LastTitleAppend(None, layer.before + [AddCause(inner)], layer.after);
    LastTitleAppend(None, layer.before, [AddCause(inner)]);
    assert LastTitle(title, [AddCause(inner)]) == title by {
      assert [AddCause(inner)][1..] == [];
    }
    LastTitleAppend(None, layer.before, layer.after);
  }

  lemma LayerOwnHint(layer: Layer, inner: Error, x: string)
    ensures OwnHint(layer.base, Calls(layer, inner), x) <==> LayerOwn(layer, x)
  {
    hide Escape, LastTitle, AfterAll;
    LayerTitle(layer, inner);
    assert forall h :: AddHint(h) in Calls(layer, inner) <==> AddHint(h) in layer.before + layer.after;
  }

  /** The causes that join: the layer's others, and the error below where it joins. */
  lemma LayerCauses(layer: Layer, inner: Error, x: string)
    ensures var later := Later(layer.base, Calls(layer, inner));
            && (CauseHint(later, x) <==> CauseHint(Others(layer), x) || (Joins(layer) && Attached(Hints, inner, x)))
            && (HasCause(later) <==> Joins(layer) || HasCause(Others(layer)))
            && (CausesSettled(later) <==> CausesSettled(Others(layer)) && (Joins(layer) ==> Settled(inner)))
  {
    hide Attached, Settled, Calls, Base, Later;
    LayerBases(layer, inner);
    if Joins(layer) {
      OneAmong(Later(layer.base, layer.before), inner, layer.after);
    }
  }

  lemma OneAmong(a: seq<Call>, c: Error, b: seq<Call>)
    ensures forall d :: AddCause(d) in a + [AddCause(c)] + b <==> AddCause(d) in a + b || d == c
    ensures HasCause(a + [AddCause(c)] + b)
  {
    var all := a + [AddCause(c)] + b;
    assert all[|a|].AddCause?;
    assert forall call :: call in all <==> call in a + b || call == AddCause(c);
  }

  lemma LayerEscaped(layer: Layer, inner: Error, x: string)
    ensures EscapedCauseHint(Later(layer.base, Calls(layer, inner)), x) <==>
              || EscapedCauseHint(Others(layer), x)
              || (Joins(layer) && exists y :: Attached(Hints, inner, y) && x == Escape(y))
  {
    hide Attached, Escape, CauseHint, Calls, Later, Others, Joins;
    forall y
      ensures CauseHint(Later(layer.base, Calls(layer, inner)), y) <==>
                CauseHint(Others(layer), y) || (Joins(layer) && Attached(Hints, inner, y))
    {
      LayerCauses(layer, inner, y);
    }
  }

  /** For its hints, a builder made from nil is one made from its first cause. */
  lemma {:induction false} FirstCauseIsBase(before: seq<Call>, first: Error, after: seq<Call>, x: string)
    requires !HasCause(before)
    ensures var calls := before + [AddCause(first)] + after;
            && Base(None, calls) == Some(first)
            && (Attached(Hints, Built(None, calls), x) <==> Attached(Hints, Built(Some(first), before + after), x))
            && (x in Chain(Hints, Built(None, calls)) <==> x in Chain(Hints, Built(Some(first), before + after)))
  {
    hide Base, Later, HasCause, AfterAll, Built, Attached, Chain, Escape, CauseHint, EscapedCauseHint, OwnHint;
    var layer, calls, own := Layer(None, before, after), before + [AddCause(first)] + after, before + after;
    NoBaseIff(None, before);
    NothingLater(before);
    LayerBases(layer, first);
    BaseGiven(Some(first), own);
    LayerOwnHint(layer, first, x);
    OwnIsLayerOwn(layer, first, x);
    BuiltKeepsHints(None, calls, x);
    BuiltKeepsHints(Some(first), own, x);
    ReachedIff(None, calls, x);
    ReachedIff(Some(first), own, x);
  }

  lemma {:induction false} NothingLater(calls: seq<Call>)
    requires !HasCause(calls)
    ensures Later(None, calls) == calls
    decreases |calls|
  {
    hide HasCause;
    if calls != [] {
      FirstCause(calls);
      NothingLater(calls[1..]);
      assert calls == [calls[0]] + calls[1..];
    }
  }

  lemma OwnIsLayerOwn(layer: Layer, base: Error, x: string)
    ensures OwnHint(Some(base), layer.before + layer.after, x) <==> LayerOwn(layer, x)
  {
    hide Escape, LastTitle, AfterAll;
    TitleAfterAll(Fresh(Some(base)), layer.before + layer.after);
  }

  // ---------------------------------------------------------------- the hints of a tower

  /** y comes from the bottom or from some layer. */
  ghost predicate Source(bottom: Error, layers: seq<Layer>, y: string) {
    Attached(Hints, bottom, y) || exists l :: l in layers && LayerSource(l, y)
  }

  /** y is escaped on its way to the top: as a hint of a cause that joins a layer, or of an error below that does. */
  ghost predicate Escaped(bottom: Error, layers: seq<Layer>, y: string) {
    && layers != []
    && (|| CauseHint(Others(layers[0]), y)
        || if Joins(layers[0]) then Source(bottom, layers[1..], y) else Escaped(bottom, layers[1..], y))
  }

  ghost predicate TowerHint(bottom: Error, layers: seq<Layer>, x: string) {
    Source(bottom, layers, x) || exists y :: Escaped(bottom, layers, y) && x == Escape(y)
  }

  lemma SourceStep(bottom: Error, layers: seq<Layer>, y: string)
    requires layers != []
    ensures Source(bottom, layers, y) <==> LayerSource(layers[0], y) || Source(bottom, layers[1..], y)
  {
    hide Attached, LayerSource;
    assert forall l :: l in layers <==> l == layers[0] || l in layers[1..];
  }

  lemma {:induction false} EscapedIsSource(bottom: Error, layers: seq<Layer>, y: string)
    requires Escaped(bottom, layers, y)
    ensures Source(bottom, layers, y)
  {
    hide Attached, CauseHint, Source, LayerOwn;
    SourceStep(bottom, layers, y);
    if !CauseHint(Others(layers[0]), y) && !Joins(layers[0]) {
      EscapedIsSource(bottom, layers[1..], y);
    }
  }

  /** One more layer: its own hints, and those from below it as they are and, where it is joined, escaped. */
  lemma TowerStep(bottom: Error, layers: seq<Layer>, x: string)
    requires layers != []
    ensures var inner := Tower(bottom, layers[1..]);
            Attached(Hints, Tower(bottom, layers), x) <==>
              || LayerSource(layers[0], x)
              || EscapedCauseHint(Others(layers[0]), x)
              || Attached(Hints, inner, x)
              || (Joins(layers[0]) && exists y :: Attached(Hints, inner, y) && x == Escape(y))
  {
    hide Attached, Escape, CauseHint, Calls, OwnHint, LayerOwn, Built, EscapedCauseHint, Base, Later, Others;
    var layer, inner := layers[0], Tower(bottom, layers[1..]);
    LayerBases(layer, inner);
    LayerOwnHint(layer, inner, x);
    LayerCauses(layer, inner, x);
    LayerEscaped(layer, inner, x);
    BuiltKeepsHints(layer.base, Calls(layer, inner), x);
  }

  /**
  Through any depth of wrapping the hints are those of the bottom and of the layers, and the escaped ones of
  those that joined on the way, escaped once however often they are wrapped.
   */
  lemma {:induction false} TowerKeepsHints(bottom: Error, layers: seq<Layer>, x: string)
    ensures Attached(Hints, Tower(bottom, layers), x) <==> TowerHint(bottom, layers, x)
  {
    hide Attached, Escape, LayerSource, Tower, TowerHint;
    if layers == [] {
      NoLayers(bottom, x);
    } else {
      forall y ensures Attached(Hints, Tower(bottom, layers[1..]), y) <==> TowerHint(bottom, layers[1..], y) {
        TowerKeepsHints(bottom, layers[1..], y);
      }
      TowerStep(bottom, layers, x);
      ThroughLayer(bottom, layers, x);
    }
  }

  lemma NoLayers(bottom: Error, x: string)
    ensures Tower(bottom, []) == bottom && (TowerHint(bottom, [], x) <==> Attached(Hints, bottom, x))
  {
    hide Attached, LayerSource, Escape;
  }

  /** What comes through the outermost layer; escaping a second time changes nothing. */
  lemma ThroughLayer(bottom: Error, layers: seq<Layer>, x: string)
    requires layers != []
    ensures TowerHint(bottom, layers, x) <==>
              || LayerSource(layers[0], x)
              || EscapedCauseHint(Others(layers[0]), x)
              || TowerHint(bottom, layers[1..], x)
              || (Joins(layers[0]) && exists y :: TowerHint(bottom, layers[1..], y) && x == Escape(y))
  {
    hide Attached, Escape, LayerSource, CauseHint, Source, Joins, Others;
    var rest := layers[1..];
    SourceStep(bottom, layers, x);
    forall y
      ensures Escaped(bottom, rest, y) ==> Source(bottom, rest, y)
      ensures Escape(Escape(y)) == Escape(y)
    {
      EscapeIdempotent(y);
      if Escaped(bottom, rest, y) {
        EscapedIsSource(bottom, rest, y);
      }
    }
    EscapedBelow(bottom, layers, x);
  }

  lemma EscapedBelow(bottom: Error, layers: seq<Layer>, x: string)
    requires layers != []
    ensures (exists y :: Escaped(bottom, layers, y) && x == Escape(y)) <==>
              || EscapedCauseHint(Others(layers[0]), x)
              || exists y :: x == Escape(y) &&
                   if Joins(layers[0]) then Source(bottom, layers[1..], y) else Escaped(bottom, layers[1..], y)
  {
    hide Attached, Escape, CauseHint, Source, Joins, Others;
  }

  // ---------------------------------------------------------------- what the traversal reaches

  /** What the single-cause traversal reaches of a tower, layer by layer from the top. */
  ghost predicate TowerReached(bottom: Error, layers: seq<Layer>, x: string) {
    if layers == [] then x in Chain(Hints, bottom)
    else
      || LayerOwn(layers[0], x)
      || EscapedCauseHint(Others(layers[0]), x)
      || if Joins(layers[0]) then exists y :: Source(bottom, layers[1..], y) && x == Escape(y)
         else !HasCause(Others(layers[0])) && TowerReached(bottom, layers[1..], x)
  }

  lemma {:induction false} TowerReachedIff(bottom: Error, layers: seq<Layer>, x: string)
    ensures x in Chain(Hints, Tower(bottom, layers)) <==> TowerReached(bottom, layers, x)
  {
    hide Attached, Escape, CauseHint, OwnHint, LayerOwn, Built, EscapedCauseHint, HasCause, Chain, Source, Calls,
        Base, Later, Others;
    if layers != [] {
      var layer, inner := layers[0], Tower(bottom, layers[1..]);
      TowerReachedIff(bottom, layers[1..], x);
      LayerBases(layer, inner);
      LayerOwnHint(layer, inner, x);
      LayerCauses(layer, inner, x);
      LayerEscaped(layer, inner, x);
      ReachedIff(layer.base, Calls(layer, inner), x);
      EscapedFromTower(bottom, layers[1..], x);
    }
  }

  /** What is escaped of a tower's hints is what is escaped of its sources. */
  lemma EscapedFromTower(bottom: Error, layers: seq<Layer>, x: string)
    ensures (exists y :: Attached(Hints, Tower(bottom, layers), y) && x == Escape(y)) <==>
              exists y :: Source(bottom, layers, y) && x == Escape(y)
  {
    hide Attached, Escape, Source, Escaped, Tower;
    forall y
      ensures Attached(Hints, Tower(bottom, layers), y) <==> TowerHint(bottom, layers, y)
      ensures Escape(Escape(y)) == Escape(y) && (Escaped(bottom, layers, y) ==> Source(bottom, layers, y))
    {
      TowerKeepsHints(bottom, layers, y);
      EscapeIdempotent(y);
      if Escaped(bottom, layers, y) {
        EscapedIsSource(bottom, layers, y);
      }
    }
  }

  lemma OneLayerSettled(layer: Layer, inner: Error)
    requires Base(layer.base, Calls(layer, inner)).Some?
    ensures Settled(Built(layer.base, Calls(layer, inner))) <==> LayerSettled(layer) && Settled(inner)
  {
    hide Settled, Calls, Built, CausesSettled, Base, Later, Others;
    BuiltSettledIff(layer.base, Calls(layer, inner));
    LayerBases(layer, inner);
    LayerCauses(layer, inner, "");
  }

  /** Every hint of a tower is fixed under escaping exactly when those of its bottom, bases and causes are. */
  lemma {:induction false} TowerSettledIff(bottom: Error, layers: seq<Layer>)
    ensures Settled(Tower(bottom, layers)) <==> Settled(bottom) && forall l :: l in layers ==> LayerSettled(l)
  {
    hide Settled, Calls, Built, LayerSettled, Base;
    if layers != [] {
      TowerSettledIff(bottom, layers[1..]);
      LayerBases(layers[0], Tower(bottom, layers[1..]));
      OneLayerSettled(layers[0], Tower(bottom, layers[1..]));
      assert forall l :: l in layers <==> l == layers[0] || l in layers[1..];
    }
  }

  /** The hints of the outermost base that something else in the tower gives too. */
  ghost predicate OuterBaseGivenAgain(bottom: Error, layers: seq<Layer>)
    requires layers != [] && Joins(layers[0])
  {
    forall x :: Attached(Hints, Base(layers[0].base, layers[0].before).value, x) ==>
      || LayerOwn(layers[0], x)
      || CauseHint(Others(layers[0]), x)
      || TowerHint(bottom, layers[1..], x)
  }

  /** The hints below an outermost layer in whose base's place they stand, and that stay in reach. */
  ghost predicate BelowReached(bottom: Error, layers: seq<Layer>)
    requires layers != []
  {
    forall x :: TowerHint(bottom, layers[1..], x) ==>
      || LayerOwn(layers[0], x)
      || CauseHint(Others(layers[0]), x)
      || (!HasCause(Others(layers[0])) && TowerReached(bottom, layers[1..], x))
  }

  /**
  The formatter's single-cause traversal reaches every hint of a tower exactly when the other causes of the
  outermost layer are settled and, where the error below joins them, all of it is too and the outermost base
  has no hint that nothing else gives; where it stands in the base's place, when its hints stay in reach.
   */
  lemma {:induction false} TowerReachesAllIff(bottom: Error, layers: seq<Layer>)
    requires layers != []
    ensures ReachesAll(Tower(bottom, layers)) <==>
              && CausesSettled(Others(layers[0]))
              && if Joins(layers[0]) then
                   && Settled(bottom) && (forall l :: l in layers[1..] ==> LayerSettled(l))
                   && OuterBaseGivenAgain(bottom, layers)
                 else BelowReached(bottom, layers)
  {
    hide Settled, Calls, Built, Attached, LayerOwn, OwnHint, CauseHint, TowerHint, HasCause, CausesSettled,
        LayerSettled, TowerReached, Chain, Base, Later, Others;
    hide ReachesAll;
    var layer, inner := layers[0], Tower(bottom, layers[1..]);
    LayerBases(layer, inner);
    ReachesAllIff(layer.base, Calls(layer, inner));
    LayerCauses(layer, inner, "");
    TowerSettledIff(bottom, layers[1..]);
    forall x
      ensures OwnHint(layer.base, Calls(layer, inner), x) <==> LayerOwn(layer, x)
      ensures var later := Later(layer.base, Calls(layer, inner));
              CauseHint(later, x) <==>
                CauseHint(Others(layer), x) || (Joins(layer) && TowerHint(bottom, layers[1..], x))
      ensures Attached(Hints, inner, x) <==> TowerHint(bottom, layers[1..], x)
      ensures x in Chain(Hints, inner) <==> TowerReached(bottom, layers[1..], x)
    {
      LayerOwnHint(layer, inner, x);
      LayerCauses(layer, inner, x);
      TowerKeepsHints(bottom, layers[1..], x);
      TowerReachedIff(bottom, layers[1..], x);
    }
    assert Tower(bottom, layers) == Built(layer.base, Calls(layer, inner));
  }
}
