/**
Lists without repetition, built by appending what is not there yet: how hints, details and
authentication scopes are collected.
 */
module UniqueLists {

  /** out, then the strings of more that are not there yet, in order. */
  function AppendNew<T(==)>(out: seq<T>, more: seq<T>): seq<T>
    decreases |more|
  {
    if more == [] then out
    else AppendNew(if more[0] in out then out else out + [more[0]], more[1..])
  }

  predicate Distinct<T(==)>(xs: seq<T>) {
    forall i, j :: 0 <= i < j < |xs| ==> xs[i] != xs[j]
  }

  function FirstIndex<T(==)>(xs: seq<T>, x: T): (i: nat)
    requires x in xs
    ensures i < |xs| && xs[i] == x && x !in xs[..i]
  {
    if xs[0] == x then 0 else FirstIndex(xs[1..], x) + 1
  }

  /** ys lists the strings of xs once each, in the order in which xs first has them. */
  ghost predicate FirstEncounters<T(!new)>(ys: seq<T>, xs: seq<T>) {
    && (forall x :: x in ys <==> x in xs)
    && forall i, j :: 0 <= i < j < |ys| ==> FirstIndex(xs, ys[i]) < FirstIndex(xs, ys[j])
  }

  lemma {:induction false} AppendNewAppend<T(!new)>(out: seq<T>, a: seq<T>, b: seq<T>)
    ensures AppendNew(out, a + b) == AppendNew(AppendNew(out, a), b)
    decreases |a|
  {
    if a == [] {
      assert a + b == b;
    } else {
      assert (a + b)[1..] == a[1..] + b;
      AppendNewAppend(if a[0] in out then out else out + [a[0]], a[1..], b);
    }
  }

  lemma {:induction false} AppendNewMembers<T(!new)>(out: seq<T>, more: seq<T>)
    ensures forall x :: x in AppendNew(out, more) <==> x in out || x in more
    ensures Distinct(out) ==> Distinct(AppendNew(out, more))
    ensures out <= AppendNew(out, more)
    decreases |more|
  {
    if more != [] {
      var next := if more[0] in out then out else out + [more[0]];
      assert forall x :: x in next <==> x in out || x == more[0];
      assert forall x :: x in more <==> x == more[0] || x in more[1..];
      AppendNewMembers(next, more[1..]);
    }
  }

  /** Repetitions in the list that is added do not matter. */
  lemma {:induction false} AppendNewTwice<T(!new)>(out: seq<T>, acc: seq<T>, more: seq<T>)
    ensures AppendNew(out, AppendNew(acc, more)) == AppendNew(AppendNew(out, acc), more)
    decreases |more|
  {
    if more != [] {
      var x := more[0];
      if x in acc {
        AppendNewTwice(out, acc, more[1..]);
        AppendNewMembers(out, acc);
      } else {
        AppendNewTwice(out, acc + [x], more[1..]);
        AppendNewAppend(out, acc, [x]);
        AppendOne(AppendNew(out, acc), x);
      }
    }
  }

  lemma AppendOne<T(!new)>(out: seq<T>, x: T)
    ensures AppendNew(out, [x]) == if x in out then out else out + [x]
  {
    assert [x][1..] == [];
  }

  /** Adding strings that are all there already adds nothing. */
  lemma {:induction false} AppendKnown<T(!new)>(out: seq<T>, more: seq<T>)
    requires forall x :: x in more ==> x in out
    ensures AppendNew(out, more) == out
    decreases |more|
  {
    if more != [] {
      AppendKnown(out, more[1..]);
    }
  }

  lemma {:induction false} DedupFirstEncounters<T(!new)>(seen: seq<T>, xs: seq<T>)
    requires FirstEncounters(AppendNew([], seen), seen)
    ensures FirstEncounters(AppendNew([], seen + xs), seen + xs)
    decreases |xs|
  {
    if xs == [] {
      assert seen + xs == seen;
    } else {
      var x := xs[0];
      assert (seen + [x]) + xs[1..] == seen + xs;
      OneMoreEncounter(seen, x);
      DedupFirstEncounters(seen + [x], xs[1..]);
    }
  }

  lemma {:induction false} FirstIndexAppend<T(!new)>(xs: seq<T>, x: T, y: T)
    requires y in xs
    ensures FirstIndex(xs + [x], y) == FirstIndex(xs, y)
  {
    if xs[0] != y {
      FirstIndexAppend(xs[1..], x, y);
      assert (xs + [x])[1..] == xs[1..] + [x];
    }
  }

  lemma {:induction false} OneMoreEncounter<T(!new)>(seen: seq<T>, x: T)
    requires FirstEncounters(AppendNew([], seen), seen)
    ensures FirstEncounters(AppendNew([], seen + [x]), seen + [x])
  {
    var ys, all := AppendNew([], seen), seen + [x];
    AppendNewAppend([], seen, [x]);
    AppendOne(ys, x);
    var zs := AppendNew([], all);
    forall i, j | 0 <= i < j < |zs| ensures zs[i] in all && zs[j] in all &&
        FirstIndex(all, zs[i]) < FirstIndex(all, zs[j]) {
      assert zs[i] == ys[i];
      FirstIndexAppend(seen, x, ys[i]);
      if j < |ys| {
        FirstIndexAppend(seen, x, ys[j]);
      } else {
        assert zs[j] == x && x !in seen;
        assert all[FirstIndex(all, x)] == x;
      }
    }
  }

  lemma DedupLists<T(!new)>(xs: seq<T>)
    ensures FirstEncounters(AppendNew([], xs), xs) && Distinct(AppendNew([], xs))
  {
    DedupFirstEncounters([], xs);
    assert [] + xs == xs;
    AppendNewMembers([], xs);
  }
}
