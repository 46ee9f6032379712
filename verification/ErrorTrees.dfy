/**
Error trees (errors/multicause.go, errors/join.go): wrapping layers over single causes, and
multi-cause errors such as those of errors.Join. cockroachdb's own traversals follow the single-cause
chain, innermost layer first, and take a multi-cause error for a leaf; AllHints and AllDetails go on
below it.
 */
module ErrorTrees {
  import opened Options
  import opened UniqueLists

  /** What one wrapping layer carries. */
  datatype Note =
    | Hint(text: string)
    | Detail(text: string)
    | SafeDetails(text: string)
    | Mark(sentinel: Error)
    | ExitCode(code: int)
    | Plain(text: string)

  datatype Error =
    | Leaf(message: string)
    | Wrap(note: Note, cause: Error)
    | Multi(causes: seq<Error>)

  /** The strings that are collected: hints, or details (explanations). */
  datatype Kind = Hints | Details

  function UnwrapOnce(e: Error): Option<Error> {
    if e.Wrap? then Some(e.cause) else None
  }

  function Size(e: Error): nat {
    match e
    case Leaf(_) => 1
    case Wrap(_, cause) => 1 + Size(cause)
    case Multi(causes) => 1 + SizeOfAll(causes)
  }

  function SizeOfAll(es: seq<Error>): nat {
    if es == [] then 0 else Size(es[0]) + SizeOfAll(es[1..])
  }

  function Own(kind: Kind, note: Note): seq<string> {
    match (kind, note)
    case (Hints, Hint(text)) => [text]
    case (Details, Detail(text)) => [text]
    case _ => []
  }

  /** The single-cause chain of e, innermost layer first; a multi-cause error ends it. */
  function Chain(kind: Kind, e: Error): seq<string> {
    if e.Wrap? then Chain(kind, e.cause) + Own(kind, e.note) else []
  }

  // ---------------------------------------------------------------- what is collected

  /** errors.GetAllHints drops repetitions, errors.GetAllDetails does not. */
  function Collect(kind: Kind, e: Error): seq<string> {
    if kind == Hints then AppendNew([], Chain(kind, e)) else Chain(kind, e)
  }

  /** The chain of e first, then each cause of the multi-cause error that ends it. */
  function Encounter(kind: Kind, e: Error): seq<string>
    decreases e, 1
  {
    Chain(kind, e) + Beneath(kind, e)
  }

  function Beneath(kind: Kind, e: Error): seq<string>
    decreases e, 0
  {
    match e
    case Leaf(_) => []
    case Wrap(_, cause) => Beneath(kind, cause)
    case Multi(causes) => EncounterAll(kind, causes)
  }

  function EncounterAll(kind: Kind, es: seq<Error>): seq<string>
    decreases es, 0
  {
    if es == [] then [] else Encounter(kind, es[0]) + EncounterAll(kind, es[1..])
  }

  function AllTexts(kind: Kind, e: Error): seq<string> {
    AppendNew([], Encounter(kind, e))
  }

  /** x is attached at some node of e, however deep. */
  ghost predicate Attached(kind: Kind, e: Error, x: string) {
    match e
    case Leaf(_) => false
    case Wrap(note, cause) => x in Own(kind, note) || Attached(kind, cause, x)
    case Multi(causes) => exists c :: c in causes && Attached(kind, c, x)
  }

  // ---------------------------------------------------------------- the traversal

  class Gatherer {
    const kind: Kind
    var seen: set<string>
    var out: seq<string>

    ghost predicate Valid()
      reads this
    {
      seen == set x | x in out
    }

    constructor (kind: Kind)
      ensures Valid() && out == [] && this.kind == kind
    {
      this.kind := kind;
      seen := {};
      out := [];
    }

    /** Both loops of gatherAcrossCauses, writing through the shared seen and out. */
    method Gather(err: Error)
      requires Valid()
      modifies this
      ensures Valid() && out == AppendNew(old(out), Encounter(kind, err))
      decreases Size(err)
    {
      AddAll(Collect(kind, err));
      ghost var added := out;
      CollectedChain(old(out), kind, err);
      var current := Some(err);
      while current.Some?
        invariant Valid()
        invariant current.Some? ==> Size(current.value) <= Size(err)
        invariant AppendNew(out, if current.Some? then Beneath(kind, current.value) else [])
                  == AppendNew(added, Beneath(kind, err))
        decreases if current.Some? then Size(current.value) else 0
      {
        if current.value.Multi? {
          var causes := current.value.causes;
          for i := 0 to |causes|
            invariant Valid()
            invariant AppendNew(out, EncounterAll(kind, causes[i..])) == AppendNew(added, Beneath(kind, err))
          {
            assert causes[i..][0] == causes[i] && causes[i..][1..] == causes[i + 1..];
            CauseIsSmaller(causes, i);
            AppendNewAppend(out, Encounter(kind, causes[i]), EncounterAll(kind, causes[i + 1..]));
            Gather(causes[i]);
          }
          assert causes[|causes|..] == [];
        }
        current := UnwrapOnce(current.value);
      }
      AppendNewAppend(old(out), Chain(kind, err), Beneath(kind, err));
    }

    method AddAll(texts: seq<string>)
      requires Valid()
      modifies this
      ensures Valid() && out == AppendNew(old(out), texts)
    {
      for i := 0 to |texts|
        invariant Valid() && AppendNew(out, texts[i..]) == AppendNew(old(out), texts)
      {
        assert texts[i..][1..] == texts[i + 1..];
        if texts[i] !in seen {
          seen := seen + {texts[i]};
          out := out + [texts[i]];
        }
      }
    }
  }

  lemma CollectedChain(out: seq<string>, kind: Kind, e: Error)
    ensures AppendNew(out, Collect(kind, e)) == AppendNew(out, Chain(kind, e))
  {
    AppendNewTwice(out, [], Chain(kind, e));
  }

  lemma {:induction false} CauseIsSmaller(es: seq<Error>, i: nat)
    requires i < |es|
    ensures Size(es[i]) < Size(Multi(es))
  {
    CauseWithinAll(es, i);
  }

  lemma {:induction false} CauseWithinAll(es: seq<Error>, i: nat)
    requires i < |es|
    ensures Size(es[i]) <= SizeOfAll(es)
  {
    if i > 0 {
      CauseWithinAll(es[1..], i - 1);
    }
  }

  /** collectAcrossCauses; a nil error has nothing to collect. */
  method CollectAcrossCauses(kind: Kind, err: Option<Error>) returns (texts: seq<string>)
    ensures texts == if err.Some? then AllTexts(kind, err.value) else []
  {
    if err.None? {
      return [];
    }
    var gatherer := new Gatherer(kind);
    gatherer.Gather(err.value);
    return gatherer.out;
  }

  // ---------------------------------------------------------------- what the traversal finds

  lemma {:induction false} EncounterFindsAttached(kind: Kind, e: Error, x: string)
    ensures x in Encounter(kind, e) <==> Attached(kind, e, x)
    decreases e, 1
  {
    match e
    case Leaf(_) =>
    case Wrap(note, cause) =>
      EncounterFindsAttached(kind, cause, x);
    case Multi(causes) =>
      EncounterAllFindsAttached(kind, causes, x);
  }

  lemma {:induction false} EncounterAllFindsAttached(kind: Kind, es: seq<Error>, x: string)
    ensures x in EncounterAll(kind, es) <==> exists c :: c in es && Attached(kind, c, x)
    decreases es, 0
  {
    if es != [] {
      EncounterFindsAttached(kind, es[0], x);
      EncounterAllFindsAttached(kind, es[1..], x);
      assert forall c :: c in es <==> c == es[0] || c in es[1..];
    }
  }

  /** AllHints and AllDetails list every attached string once, in the order of first encounter. */
  lemma {:induction false} AllTextsFindsAll(kind: Kind, e: Error)
    ensures forall x :: x in AllTexts(kind, e) <==> Attached(kind, e, x)
    ensures Distinct(AllTexts(kind, e))
    ensures FirstEncounters(AllTexts(kind, e), Encounter(kind, e))
  {
    DedupLists(Encounter(kind, e));
    forall x ensures x in AllTexts(kind, e) <==> Attached(kind, e, x) {
      EncounterFindsAttached(kind, e, x);
    }
  }

  /** n is e itself, or is further down in it. */
  ghost predicate NodeOf(n: Error, e: Error) {
    || n == e
    || match e
       case Leaf(_) => false
       case Wrap(_, cause) => NodeOf(n, cause)
       case Multi(causes) => exists c :: c in causes && NodeOf(n, c)
  }

  ghost predicate HasHint(e: Error, x: string) {
    exists cause :: NodeOf(Wrap(Hint(x), cause), e)
  }

  ghost predicate HasDetail(e: Error, x: string) {
    exists cause :: NodeOf(Wrap(Detail(x), cause), e)
  }

  /** What is attached at some node is what a wrapping layer of the tree holds. */
  lemma {:induction false} AttachedIsNode(e: Error, x: string)
    ensures Attached(Hints, e, x) <==> HasHint(e, x)
    ensures Attached(Details, e, x) <==> HasDetail(e, x)
  {
    match e
    case Leaf(_) =>
    case Wrap(note, cause) =>
      AttachedIsNode(cause, x);
      assert NodeOf(e, e);
    case Multi(causes) =>
      forall c | c in causes
        ensures Attached(Hints, c, x) <==> HasHint(c, x)
        ensures Attached(Details, c, x) <==> HasDetail(c, x)
      {
        AttachedIsNode(c, x);
      }
  }

  /** AllHints and AllDetails list exactly the texts of the hint and detail layers of the tree. */
  lemma {:induction false} AllTextsFindsNodes(e: Error, x: string)
    ensures x in AllTexts(Hints, e) <==> HasHint(e, x)
    ensures x in AllTexts(Details, e) <==> HasDetail(e, x)
  {
    AllTextsFindsAll(Hints, e);
    AllTextsFindsAll(Details, e);
    AttachedIsNode(e, x);
  }

  // ---------------------------------------------------------------- joining

  function Present(errs: seq<Option<Error>>): seq<Error> {
    if errs == [] then []
    else (if errs[0].Some? then [errs[0].value] else []) + Present(errs[1..])
  }

  /** Nil errors are left out, the others stay in order. */
  lemma {:induction false} PresentAround(a: seq<Option<Error>>, e: Option<Error>, b: seq<Option<Error>>)
    ensures Present([]) == []
    ensures Present(a + [e] + b) == Present(a) + (if e.None? then [] else [e.value]) + Present(b)
  {
    var all := a + [e] + b;
    if a == [] {
      assert all[0] == e && all[1..] == b;
    } else {
      assert all[0] == a[0] && all[1..] == a[1..] + [e] + b;
      PresentAround(a[1..], e, b);
    }
  }

  /** errors.Join. */
  function JoinErrors(errs: seq<Option<Error>>): Option<Error> {
    if Present(errs) == [] then None else Some(Multi(Present(errs)))
  }

  function WithHints(e: Error, hints: seq<string>): Error
    decreases |hints|
  {
    if hints == [] then e else WithHints(Wrap(Hint(hints[0]), e), hints[1..])
  }

  /** The hints that the single-cause traversal finds in each error. */
  function ChainHints(errs: seq<Error>): seq<string> {
    if errs == [] then [] else Chain(Hints, errs[0]) + ChainHints(errs[1..])
  }

  lemma NoneFirst(errs: seq<Option<Error>>)
    requires errs != [] && errs[0].None?
    ensures Present(errs) == Present(errs[1..])
  {
  }

  lemma NothingPresent()
    ensures ChainHints(Present([])) == []
  {
  }

  lemma NoHintsYet(e: Error)
    ensures WithHints(e, []) == e
  {
  }

  method JoinPreservingHints(errs: seq<Option<Error>>) returns (joined: Option<Error>)
    ensures joined.None? <==> Present(errs) == []
    ensures joined.Some? ==> joined.value == WithHints(Multi(Present(errs)), AppendNew([], ChainHints(Present(errs))))
  {
    hide Chain, Present, WithHints, ChainHints;
    joined := JoinErrors(errs);
    if joined.None? {
      return;
    }
    NoHintsYet(Multi(Present(errs)));
    assert errs[0..] == errs;
    var seen: set<string> := {};
    ghost var added: seq<string> := [];
    ghost var goal := AppendNew([], ChainHints(Present(errs)));
    for i := 0 to |errs|
      invariant joined == Some(WithHints(Multi(Present(errs)), added)) && seen == set x | x in added
      invariant AppendNew(added, ChainHints(Present(errs[i..]))) == goal
    {
      assert errs[i..][0] == errs[i] && errs[i..][1..] == errs[i + 1..];
      if errs[i].Some? {
        var hints := Collect(Hints, errs[i].value);
        ghost var later := ChainHints(Present(errs[i + 1..]));
        PresentNext(errs[i..]);
        AppendNewAppend(added, Chain(Hints, errs[i].value), later);
        CollectedChain(added, Hints, errs[i].value);
        for j := 0 to |hints|
          invariant joined == Some(WithHints(Multi(Present(errs)), added)) && seen == set x | x in added
          invariant AppendNew(AppendNew(added, hints[j..]), later) == goal
        {
          var hint := hints[j];
          assert hints[j..][1..] == hints[j + 1..];
          if hint !in seen {
            seen := seen + {hint};
            WithHintsAppend(Multi(Present(errs)), added, hint);
            joined := Some(Wrap(Hint(hint), joined.value));
            added := added + [hint];
          }
        }
        assert hints[|hints|..] == [];
      } else {
        NoneFirst(errs[i..]);
      }
    }
    assert errs[|errs|..] == [];
    NothingPresent();
  }

  lemma PresentNext(errs: seq<Option<Error>>)
    requires errs != [] && errs[0].Some?
    ensures ChainHints(Present(errs)) == Chain(Hints, errs[0].value) + ChainHints(Present(errs[1..]))
  {
    assert Present(errs)[1..] == Present(errs[1..]);
  }

  lemma {:induction false} WithHintsAppend(e: Error, hints: seq<string>, hint: string)
    ensures WithHints(e, hints + [hint]) == Wrap(Hint(hint), WithHints(e, hints))
    decreases |hints|
  {
    if hints == [] {
      assert WithHints(e, [hint]) == WithHints(Wrap(Hint(hint), e), []);
    } else {
      WithHintsAppend(Wrap(Hint(hints[0]), e), hints[1..], hint);
      assert (hints + [hint])[1..] == hints[1..] + [hint];
    }
  }

  lemma {:induction false} WithHintsChain(e: Error, hints: seq<string>)
    ensures Chain(Hints, WithHints(e, hints)) == Chain(Hints, e) + hints
    ensures Beneath(Hints, WithHints(e, hints)) == Beneath(Hints, e)
    ensures Chain(Details, WithHints(e, hints)) == Chain(Details, e)
    ensures Beneath(Details, WithHints(e, hints)) == Beneath(Details, e)
    decreases |hints|
  {
    if hints != [] {
      var next := Wrap(Hint(hints[0]), e);
      WithHintsChain(next, hints[1..]);
      assert Chain(Hints, next) == Chain(Hints, e) + [hints[0]];
      hide Chain, Beneath;
      assert Chain(Hints, e) + [hints[0]] + hints[1..] == Chain(Hints, e) + hints;
    }
  }

  /** The hints that the single-cause traversal finds in one of the errors it finds in their join, once each. */
  lemma {:induction false} JoinKeepsHints(errs: seq<Error>)
    ensures Collect(Hints, WithHints(Multi(errs), AppendNew([], ChainHints(errs)))) == AppendNew([], ChainHints(errs))
    ensures forall x :: x in AppendNew([], ChainHints(errs)) <==> OnSomeChain(errs, x)
  {
    var hints := AppendNew([], ChainHints(errs));
    WithHintsChain(Multi(errs), hints);
    AppendNewTwice([], [], ChainHints(errs));
    assert [] + hints == hints;
    AppendNewMembers([], ChainHints(errs));
    forall x ensures x in ChainHints(errs) <==> OnSomeChain(errs, x) {
      ChainHintsMembers(errs, x);
    }
  }

  lemma {:induction false} ChainHintsMembers(errs: seq<Error>, x: string)
    ensures x in ChainHints(errs) <==> OnSomeChain(errs, x)
  {
    if errs != [] {
      ChainHintsMembers(errs[1..], x);
      assert errs[0] in errs;
      assert forall e :: e in errs <==> e == errs[0] || e in errs[1..];
    }
  }

  /** The single-cause traversal finds every hint of e. */
  ghost predicate ReachesAll(e: Error) {
    forall x :: Attached(Hints, e, x) ==> x in Chain(Hints, e)
  }

  ghost predicate OnSomeChain(errs: seq<Error>, x: string) {
    exists e :: e in errs && x in Chain(Hints, e)
  }

  /**
  Joining attaches no new hint; the chain reaches them all exactly when each is on the chain of one of the
  errors.
   */
  lemma {:induction false} JoinReaches(errs: seq<Error>)
    ensures var joined := WithHints(Multi(errs), AppendNew([], ChainHints(errs)));
            && (forall x :: Attached(Hints, joined, x) <==> Attached(Hints, Multi(errs), x))
            && (ReachesAll(joined) <==> forall x :: Attached(Hints, Multi(errs), x) ==> OnSomeChain(errs, x))
  {
    var hints := AppendNew([], ChainHints(errs));
    var joined := WithHints(Multi(errs), hints);
    WithHintsChain(Multi(errs), hints);
    JoinKeepsHints(errs);
    forall x ensures Attached(Hints, joined, x) <==> Attached(Hints, Multi(errs), x) {
      EncounterFindsAttached(Hints, joined, x);
      EncounterFindsAttached(Hints, Multi(errs), x);
      if x in hints {
        var e :| e in errs && x in Chain(Hints, e);
        ChainIsAttached(e, x);
      }
    }
    assert [] + hints == hints;
    assert forall x :: x in Chain(Hints, joined) <==> OnSomeChain(errs, x);
  }

  lemma {:induction false} ChainIsAttached(e: Error, x: string)
    requires x in Chain(Hints, e)
    ensures Attached(Hints, e, x)
  {
    EncounterFindsAttached(Hints, e, x);
  }

  /**
  A hint below a nested multi-cause error stays off the chain: only hints on the errors' own chains are
  re-attached.
   */
  lemma NestedJoinHidesHint()
    ensures var nested := Multi([Wrap(Hint("fix it"), Leaf("inner"))]);
            var joined := WithHints(Multi([nested]), AppendNew([], ChainHints([nested])));
            Attached(Hints, joined, "fix it") && "fix it" !in Chain(Hints, joined)
  {
    var inner := Wrap(Hint("fix it"), Leaf("inner"));
    var nested := Multi([inner]);
    assert Attached(Hints, inner, "fix it");
    assert inner in [inner] && nested in [nested];
    JoinReaches([nested]);
    assert ChainHints([nested]) == [];
  }
}
