/**
Error context as text (errors/builder.go, errors/error_funcs.go, errors/testing.go): a builder prints
its context map as one "k=v k2=v2" safe detail with sorted keys; the readers split it again. A value
stands for the text that the verb %s prints for it.
 */
module ContextText {
  import opened Options
  import opened Text

  const SPACE := " "
  const EQUALS := "="

  type Context = map<string, string>

  // ---------------------------------------------------------------- sorted keys

  /** Go's order on strings. */
  predicate Less(a: string, b: string) {
    b != "" && (a == "" || a[0] < b[0] || (a[0] == b[0] && Less(a[1..], b[1..])))
  }

  /** A string comes before those that it begins, and otherwise the first character that differs decides. */
  lemma {:induction false} LessMeans(a: string, b: string)
    ensures Less(a, b) <==>
              exists k :: 0 <= k <= |a| && k <= |b| && a[..k] == b[..k]
                && k < |b| && (k == |a| || a[k] < b[k])
  {
    if a == "" || b == "" {
      assert a[..0] == b[..0];
    } else if a[0] != b[0] {
      assert a[..0] == b[..0];
      assert forall k :: 0 < k <= |a| && k <= |b| ==> a[..k][0] == a[0] && b[..k][0] == b[0];
    } else {
      LessMeans(a[1..], b[1..]);
      if Less(a, b) {
        var k :| 0 <= k <= |a[1..]| && k <= |b[1..]| && a[1..][..k] == b[1..][..k]
          && k < |b[1..]| && (k == |a[1..]| || a[1..][k] < b[1..][k]);
        assert a[..k + 1] == [a[0]] + a[1..][..k] && b[..k + 1] == [b[0]] + b[1..][..k];
      }
      forall k | 0 <= k <= |a| && k <= |b| && a[..k] == b[..k] && k < |b| && (k == |a| || a[k] < b[k])
        ensures Less(a, b)
      {
        assert k > 0;
        assert a[1..][..k - 1] == a[..k][1..] && b[1..][..k - 1] == b[..k][1..];
        assert k < |a| ==> a[1..][k - 1] == a[k];
        assert b[1..][k - 1] == b[k];
      }
    }
  }

  lemma {:induction false} LessTotal(a: string, b: string)
    ensures a == b || Less(a, b) || Less(b, a)
    ensures !(Less(a, b) && Less(b, a)) && !Less(a, a)
  {
    if a != "" && b != "" {
      LessTotal(a[1..], b[1..]);
      assert a == [a[0]] + a[1..] && b == [b[0]] + b[1..];
    }
    if a != "" {
      LessTotal(a[1..], a[1..]);
    }
  }

  lemma {:induction false} LessTransitive(a: string, b: string, c: string)
    requires Less(a, b) && Less(b, c)
    ensures Less(a, c)
  {
    if a != "" && a[0] == b[0] && b[0] == c[0] {
      LessTransitive(a[1..], b[1..], c[1..]);
    }
  }

  /** In strictly increasing order, so without repetition. */
  predicate Sorted(keys: seq<string>) {
    forall i, j :: 0 <= i < j < |keys| ==> Less(keys[i], keys[j])
  }

  function Elements(keys: seq<string>): set<string> {
    set k | k in keys
  }

  lemma {:induction false} LeastFirst(keys: seq<string>, other: seq<string>)
    requires Sorted(keys) && Sorted(other) && keys != [] && other != [] && Elements(keys) == Elements(other)
    ensures keys[0] == other[0]
  {
    assert keys[0] in Elements(other) && other[0] in Elements(keys);
    LessTotal(keys[0], other[0]);
  }

  lemma FirstElement(keys: seq<string>)
    requires keys != []
    ensures keys[0] in Elements(keys)
  {
  }

  /** A set has one sorted listing. */
  lemma {:induction false} SortedUnique(keys: seq<string>, other: seq<string>)
    requires Sorted(keys) && Sorted(other) && Elements(keys) == Elements(other)
    ensures keys == other
  {
    if keys != [] { FirstElement(keys); }
    if other != [] { FirstElement(other); }
    if keys != [] && other != [] {
      LeastFirst(keys, other);
      DropFirst(keys);
      DropFirst(other);
      SortedUnique(keys[1..], other[1..]);
      assert keys == [keys[0]] + keys[1..] && other == [other[0]] + other[1..];
    }
  }

  lemma DropFirst(keys: seq<string>)
    requires Sorted(keys) && keys != []
    ensures Sorted(keys[1..]) && Elements(keys[1..]) == Elements(keys) - {keys[0]}
  {
    LessTotal(keys[0], keys[0]);
    assert forall k :: k in keys <==> k == keys[0] || k in keys[1..];
    assert keys[0] !in keys[1..];
  }

  /** sort.Strings on a list without repetition, by insertion. */
  function Insert(keys: seq<string>, k: string): (r: seq<string>)
    requires Sorted(keys) && k !in keys
    ensures Sorted(r) && Elements(r) == Elements(keys) + {k}
  {
    if keys == [] then [k]
    else if Less(k, keys[0]) then
      InsertFront(keys, k);
      [k] + keys
    else
      InsertBehind(keys, k);
      [keys[0]] + Insert(keys[1..], k)
  }

  lemma InsertFront(keys: seq<string>, k: string)
    requires Sorted(keys) && keys != [] && Less(k, keys[0])
    ensures Sorted([k] + keys)
  {
    forall j | 0 < j < |keys| ensures Less(k, keys[j]) {
      LessTransitive(k, keys[0], keys[j]);
    }
  }

  lemma InsertBehind(keys: seq<string>, k: string)
    requires Sorted(keys) && keys != [] && k !in keys && !Less(k, keys[0])
    ensures Sorted(keys[1..]) && Less(keys[0], k)
    ensures forall r :: Sorted(r) && Elements(r) == Elements(keys[1..]) + {k} ==>
      Sorted([keys[0]] + r) && Elements([keys[0]] + r) == Elements(keys) + {k}
  {
    LessTotal(keys[0], k);
    DropFirst(keys);
    forall r | Sorted(r) && Elements(r) == Elements(keys[1..]) + {k}
      ensures Sorted([keys[0]] + r) && Elements([keys[0]] + r) == Elements(keys) + {k}
    {
      forall j | 0 <= j < |r| ensures Less(keys[0], r[j]) {
        assert r[j] in Elements(r);
      }
      assert forall x :: x in [keys[0]] + r <==> x == keys[0] || x in r;
    }
  }

  ghost function SortedKeys(keys: set<string>): (r: seq<string>)
    ensures Sorted(r) && Elements(r) == keys
  {
    if keys == {} then []
    else
      var k :| k in keys;
      var rest := SortedKeys(keys - {k});
      assert k !in rest by {
        assert k !in Elements(rest);
      }
      Insert(rest, k)
  }

  // ---------------------------------------------------------------- printing

  function Pair(k: string, v: string): string {
    k + EQUALS + v
  }

  function Pairs(keys: seq<string>, ctx: Context): (pairs: seq<string>)
    requires forall k :: k in keys ==> k in ctx
    ensures |pairs| == |keys| && forall i :: 0 <= i < |keys| ==> pairs[i] == Pair(keys[i], ctx[keys[i]])
  {
    seq(|keys|, i requires 0 <= i < |keys| => Pair(keys[i], ctx[keys[i]]))
  }

  /** The keys stand in the format string, so a `%` in one would be read as a verb. */
  predicate Formattable(ctx: Context) {
    forall k :: k in ctx ==> '%' !in k
  }

  ghost function SortedPairs(ctx: Context): seq<string> {
    var keys := SortedKeys(ctx.Keys);
    assert forall k :: k in keys ==> k in Elements(keys);
    Pairs(keys, ctx)
  }

  /** What a formattable context is printed as. */
  ghost function Printed(ctx: Context): string {
    Join(SortedPairs(ctx), SPACE)
  }

  function Written(keys: seq<string>, ctx: Context): seq<string> {
    seq(|keys|, i requires 0 <= i < |keys| => keys[i] + "=" + if keys[i] in ctx then ctx[keys[i]] else "")
  }

  /** The text does not depend on the order in which the map is walked. */
  method PrintContext(ctx: Context) returns (text: string)
    requires Formattable(ctx)
    ensures text == Printed(ctx)
    ensures exists keys :: Sorted(keys) && Elements(keys) == ctx.Keys && text == Join(Written(keys, ctx), " ")
  {
    var keys: seq<string> := [];
    var left := ctx.Keys;
    while left != {}
      invariant left <= ctx.Keys && Sorted(keys) && Elements(keys) == ctx.Keys - left
      decreases left
    {
      var k :| k in left;
      assert k !in keys by {
        assert k !in Elements(keys);
      }
      keys := Insert(keys, k);
      left := left - {k};
    }
    SortedUnique(keys, SortedKeys(ctx.Keys));
    assert forall k :: k in keys ==> k in Elements(keys);
    text := Join(Pairs(keys, ctx), SPACE);
    assert Pairs(keys, ctx) == Written(keys, ctx);
  }

  // ---------------------------------------------------------------- reading

  /** strings.SplitN(pair, "=", 2) when it gives two parts. */
  function ReadPair(pair: string): Option<(string, string)> {
    var i := Index(pair, EQUALS);
    if i == -1 then None else Some((pair[..i], pair[i + 1..]))
  }

  /** The key ends at the first `=`. */
  lemma ReadPairIs(pair: string)
    ensures ReadPair(pair).None? <==> '=' !in pair
    ensures ReadPair(pair).Some? ==>
              '=' !in ReadPair(pair).value.0 && pair == ReadPair(pair).value.0 + "=" + ReadPair(pair).value.1
  {
    ContainsChar(pair, '=');
    if ReadPair(pair).Some? {
      var i := Index(pair, EQUALS);
      KeyHasNoEquals(pair);
      ContainsChar(pair[..i], '=');
      assert pair[i..i + 1] == "=" && pair == pair[..i] + pair[i..i + 1] + pair[i + 1..];
    }
  }

  /** A pair is added unless its key is there already. */
  function AbsorbPair(ctx: Context, pair: string): (more: Context)
    ensures forall k :: k in ctx ==> k in more && more[k] == ctx[k]
  {
    match ReadPair(pair)
    case None => ctx
    case Some((k, v)) => if k in ctx then ctx else ctx[k := v]
  }

  function Absorb(ctx: Context, pairs: seq<string>): (merged: Context)
    ensures forall k :: k in ctx ==> k in merged && merged[k] == ctx[k]
    decreases |pairs|
  {
    if pairs == [] then ctx else Absorb(AbsorbPair(ctx, pairs[0]), pairs[1..])
  }

  /** The pairs of all details, in order. */
  function AllPairs(details: seq<string>): seq<string> {
    if details == [] then [] else Split(details[0], SPACE) + AllPairs(details[1..])
  }

  function Lookup(key: string, pairs: seq<string>): Option<string> {
    if pairs == [] then None
    else if key + EQUALS <= pairs[0] then Some(pairs[0][|key| + 1..])
    else Lookup(key, pairs[1..])
  }

  predicate Holds(key: string, value: string, pairs: seq<string>) {
    pairs != [] && (ReadPair(pairs[0]) == Some((key, value)) || Holds(key, value, pairs[1..]))
  }

  // ---------------------------------------------------------------- the readers

  lemma AbsorbStep(ctx: Context, pairs: seq<string>, p: nat, later: seq<string>)
    requires p < |pairs|
    ensures Absorb(ctx, pairs[p..] + later) == Absorb(AbsorbPair(ctx, pairs[p]), pairs[p + 1..] + later)
  {
    hide ReadPair;
    var all := pairs[p..] + later;
    assert all[0] == pairs[p] && all[1..] == pairs[p + 1..] + later;
  }

  lemma PairsFrom(details: seq<string>, d: nat)
    requires d < |details|
    ensures AllPairs(details[d..]) == Split(details[d], SPACE)[0..] + AllPairs(details[d + 1..])
  {
    hide Split;
    assert details[d..][1..] == details[d + 1..];
  }

  lemma NoPairsLeft(pairs: seq<string>, later: seq<string>)
    ensures pairs[|pairs|..] + later == later
  {
  }

  method ExtractContext(ctx: Context, details: seq<string>) returns (merged: Context)
    ensures merged == Absorb(ctx, AllPairs(details))
  {
    hide Absorb, AllPairs, Split, ReadPair;
    merged := ctx;
    assert details[0..] == details;
    for d := 0 to |details|
      invariant Absorb(merged, AllPairs(details[d..])) == Absorb(ctx, AllPairs(details))
    {
      var pairs := Split(details[d], SPACE);
      PairsFrom(details, d);
      ghost var later := AllPairs(details[d + 1..]);
      for p := 0 to |pairs|
        invariant Absorb(merged, pairs[p..] + later) == Absorb(ctx, AllPairs(details))
      {
        AbsorbStep(merged, pairs, p, later);
        match ReadPair(pairs[p]) {
          case Some((key, value)) =>
            if key !in merged {
              merged := merged[key := value];
            }
          case None =>
        }
      }
      NoPairsLeft(pairs, later);
    }
    NothingLeft(merged, details);
  }

  lemma NothingLeft(ctx: Context, details: seq<string>)
    ensures Absorb(ctx, AllPairs(details[|details|..])) == ctx
  {
  }

  method GetContext(details: seq<string>, key: string) returns (value: Option<string>)
    ensures value == Lookup(key, AllPairs(details))
  {
    var keyPrefix := key + EQUALS;
    for d := 0 to |details|
      invariant Lookup(key, AllPairs(details[d..])) == Lookup(key, AllPairs(details))
    {
      var pairs := Split(details[d], SPACE);
      assert details[d..][0] == details[d] && details[d..][1..] == details[d + 1..];
      ghost var later := AllPairs(details[d + 1..]);
      for p := 0 to |pairs|
        invariant Lookup(key, pairs[p..] + later) == Lookup(key, AllPairs(details))
      {
        assert (pairs[p..] + later)[0] == pairs[p] && (pairs[p..] + later)[1..] == pairs[p + 1..] + later;
        if keyPrefix <= pairs[p] {
          return Some(pairs[p][|keyPrefix|..]);
        }
      }
      assert pairs[|pairs|..] + later == later;
    }
    return None;
  }

  method HasContext(details: seq<string>, key: string, value: string) returns (found: bool)
    ensures found <==> Holds(key, value, AllPairs(details))
  {
    hide Split, ReadPair;
    for d := 0 to |details|
      invariant Holds(key, value, AllPairs(details[d..])) == Holds(key, value, AllPairs(details))
    {
      var pairs := Split(details[d], SPACE);
      assert details[d..][0] == details[d] && details[d..][1..] == details[d + 1..];
      ghost var later := AllPairs(details[d + 1..]);
      for p := 0 to |pairs|
        invariant Holds(key, value, pairs[p..] + later) == Holds(key, value, AllPairs(details))
      {
        assert (pairs[p..] + later)[0] == pairs[p] && (pairs[p..] + later)[1..] == pairs[p + 1..] + later;
        if ReadPair(pairs[p]) == Some((key, value)) {
          return true;
        }
      }
      assert pairs[|pairs|..] + later == later;
    }
    return false;
  }

  // ---------------------------------------------------------------- the two lookups

  lemma PrefixReads(key: string, pair: string)
    requires !Contains(key, EQUALS)
    ensures key + EQUALS <= pair <==> ReadPair(pair).Some? && ReadPair(pair).value.0 == key
    ensures key + EQUALS <= pair ==> ReadPair(pair).value.1 == pair[|key| + 1..]
  {
    if key + EQUALS <= pair {
      var rest := pair[|key| + 1..];
      assert pair == key + EQUALS + rest;
      FirstSeparator(key, EQUALS, rest);
    }
    var i := Index(pair, EQUALS);
    if i != -1 && pair[..i] == key {
      assert pair[i..i + 1] == EQUALS;
      assert pair[..i + 1] == key + EQUALS;
    }
  }

  /**
  For a key without `=`, GetContext finds a value exactly when HasContext holds of some value, and it is
  one of them.
   */
  lemma {:induction false} LookupsAgree(key: string, pairs: seq<string>)
    requires !Contains(key, EQUALS)
    ensures Lookup(key, pairs).Some? ==> Holds(key, Lookup(key, pairs).value, pairs)
    ensures Lookup(key, pairs).None? ==> forall value :: !Holds(key, value, pairs)
  {
    if pairs != [] {
      PrefixReads(key, pairs[0]);
      LookupsAgree(key, pairs[1..]);
    }
  }

  /** GetContext takes the pair for one of the key. */
  predicate Answers(key: string, pair: string) {
    key + EQUALS <= pair
  }

  lemma {:induction false} LookupFinds(key: string, pairs: seq<string>)
    ensures Lookup(key, pairs).Some? ==> Pair(key, Lookup(key, pairs).value) in pairs
    ensures Lookup(key, pairs).None? <==> forall p :: p in pairs ==> !Answers(key, p)
  {
    if pairs != [] {
      LookupFinds(key, pairs[1..]);
      assert forall p :: p in pairs <==> p == pairs[0] || p in pairs[1..];
      if Answers(key, pairs[0]) {
        PairOfAnswer(key, pairs[0]);
      }
    }
  }

  lemma PairOfAnswer(key: string, pair: string)
    requires Answers(key, pair)
    ensures |key| + 1 <= |pair| && pair == Pair(key, pair[|key| + 1..])
  {
    assert pair == pair[..|key| + 1] + pair[|key| + 1..];
  }

  lemma PairAnswers(key: string, value: string)
    ensures Answers(key, Pair(key, value)) && |key| + 1 <= |Pair(key, value)| && Pair(key, value)[|key| + 1..] == value
  {
    assert Pair(key, value)[..|key| + 1] == key + EQUALS;
  }

  lemma {:induction false} HoldsIff(key: string, value: string, pairs: seq<string>)
    requires !Contains(key, EQUALS)
    ensures Holds(key, value, pairs) <==> Pair(key, value) in pairs
  {
    hide Pair;
    if pairs != [] {
      HoldsIff(key, value, pairs[1..]);
      ReadsKeyIff(key, value, pairs[0]);
    }
  }

  lemma ReadsKeyIff(key: string, value: string, pair: string)
    requires !Contains(key, EQUALS)
    ensures ReadPair(pair) == Some((key, value)) <==> pair == Pair(key, value)
  {
    hide ReadPair, Contains, Pair;
    PrefixReads(key, pair);
    PairAnswers(key, value);
    if Answers(key, pair) {
      PairOfAnswer(key, pair);
    }
  }

  /** No pair answers a key with `=` in it; the pairs that answer any other key are all the same. */
  predicate WrittenOnce(key: string, pairs: seq<string>) {
    if Contains(key, EQUALS) then forall p :: p in pairs ==> !Answers(key, p)
    else forall p, q :: p in pairs && q in pairs && Answers(key, p) && Answers(key, q) ==> p == q
  }

  ghost predicate Agree(key: string, pairs: seq<string>) {
    forall v :: Holds(key, v, pairs) <==> Lookup(key, pairs) == Some(v)
  }

  /** The two lookups say the same of a key, for every value, exactly when it is written once. */
  lemma {:induction false} LookupsAgreeIff(key: string, pairs: seq<string>)
    ensures Agree(key, pairs) <==> WrittenOnce(key, pairs)
  {
    hide Holds, Lookup, Answers, Pair, Contains;
    LookupFinds(key, pairs);
    if Contains(key, EQUALS) {
      forall v ensures !Holds(key, v, pairs) {
        NeverHeld(key, v, pairs);
      }
      assert Lookup(key, pairs).Some? ==> Lookup(key, pairs) == Some(Lookup(key, pairs).value);
    } else {
      if Agree(key, pairs) {
        forall p, q | p in pairs && q in pairs && Answers(key, p) && Answers(key, q) ensures p == q {
          AnswersAreFound(key, pairs, p);
          AnswersAreFound(key, pairs, q);
        }
      }
      if WrittenOnce(key, pairs) {
        forall v ensures Holds(key, v, pairs) <==> Lookup(key, pairs) == Some(v) {
          FoundIsHeld(key, pairs, v);
        }
      }
    }
  }

  lemma AnswersAreFound(key: string, pairs: seq<string>, p: string)
    requires !Contains(key, EQUALS) && Agree(key, pairs) && p in pairs && Answers(key, p)
    ensures Lookup(key, pairs).Some? && p == Pair(key, Lookup(key, pairs).value)
  {
    hide Holds, Lookup, Answers, Pair, Contains;
    PairOfAnswer(key, p);
    HoldsIff(key, p[|key| + 1..], pairs);
  }

  lemma FoundIsHeld(key: string, pairs: seq<string>, v: string)
    requires !Contains(key, EQUALS) && WrittenOnce(key, pairs)
    ensures Holds(key, v, pairs) <==> Lookup(key, pairs) == Some(v)
  {
    hide Holds, Lookup, Answers, Pair, Contains;
    LookupFinds(key, pairs);
    HoldsIff(key, v, pairs);
    PairAnswers(key, v);
    if Lookup(key, pairs).Some? {
      PairAnswers(key, Lookup(key, pairs).value);
    }
  }

  /**
  A key written with two values: GetContext gives the first, HasContext finds both, or neither where the
  key has a `=`.
   */
  lemma {:induction false} LookupsDisagree(key: string, v: string, w: string)
    requires v != w
    ensures var pairs := [Pair(key, v), Pair(key, w)];
            && Lookup(key, pairs) == Some(v)
            && (Holds(key, v, pairs) <==> !Contains(key, EQUALS))
            && (Holds(key, w, pairs) <==> !Contains(key, EQUALS))
  {
    hide Pair, Contains, Holds;
    var pairs := [Pair(key, v), Pair(key, w)];
    PairAnswers(key, v);
    if Contains(key, EQUALS) {
      NeverHeld(key, v, pairs);
      NeverHeld(key, w, pairs);
    } else {
      HoldsIff(key, v, pairs);
      HoldsIff(key, w, pairs);
    }
  }

  lemma {:induction false} NeverHeld(key: string, value: string, pairs: seq<string>)
    requires Contains(key, EQUALS)
    ensures !Holds(key, value, pairs)
  {
    if pairs != [] {
      NeverHeld(key, value, pairs[1..]);
      if ReadPair(pairs[0]).Some? {
        KeyHasNoEquals(pairs[0]);
      }
    }
  }

  lemma KeyHasNoEquals(pair: string)
    requires ReadPair(pair).Some?
    ensures !Contains(ReadPair(pair).value.0, EQUALS)
  {
    var i := Index(pair, EQUALS);
    var k := Index(pair[..i], EQUALS);
    if k != -1 {
      assert pair[..i][k..k + 1] == pair[k..k + 1];
      assert OccursAt(pair, EQUALS, k);
    }
  }

  // ---------------------------------------------------------------- printing and reading back

  predicate CleanKey(k: string) {
    !Contains(k, SPACE) && !Contains(k, EQUALS)
  }

  predicate Clean(ctx: Context) {
    forall k :: k in ctx ==> CleanKey(k) && !Contains(ctx[k], SPACE)
  }

  lemma PairSpaces(k: string, v: string)
    ensures Contains(Pair(k, v), SPACE) <==> Contains(k, SPACE) || Contains(v, SPACE)
  {
    hide Contains;
    ContainsChar(Pair(k, v), ' ');
    ContainsChar(k, ' ');
    ContainsChar(v, ' ');
  }

  lemma PairIsClean(k: string, v: string)
    requires !Contains(k, EQUALS)
    ensures ReadPair(Pair(k, v)) == Some((k, v))
    ensures Contains(Pair(k, v), SPACE) <==> Contains(k, SPACE) || Contains(v, SPACE)
  {
    FirstSeparator(k, EQUALS, v);
    assert Pair(k, v)[..|k|] == k && Pair(k, v)[|k| + 1..] == v;
    PairSpaces(k, v);
  }

  /** merged is base with the listed keys of ctx added, base winning. */
  ghost predicate Merged(base: Context, ctx: Context, keys: seq<string>, merged: Context)
    requires forall k :: k in keys ==> k in ctx
  {
    && (forall k :: k in merged <==> k in base || k in keys)
    && (forall k :: k in merged ==> merged[k] == if k in base then base[k] else ctx[k])
  }

  lemma MergeFirst(base: Context, ctx: Context, keys: seq<string>, merged: Context)
    requires keys != [] && forall k :: k in keys ==> k in ctx
    requires Merged(if keys[0] in base then base else base[keys[0] := ctx[keys[0]]], ctx, keys[1..], merged)
    ensures Merged(base, ctx, keys, merged)
  {
    assert forall x :: x in keys <==> x == keys[0] || x in keys[1..];
  }

  predicate ReadsAs(pair: string, k: string, ctx: Context) {
    k in ctx && ReadPair(pair) == Some((k, ctx[k]))
  }

  lemma {:induction false} AbsorbPairs(pairs: seq<string>, keys: seq<string>, ctx: Context, base: Context)
    requires forall k :: k in keys ==> k in ctx
    requires |pairs| == |keys| && forall i :: 0 <= i < |keys| ==> ReadsAs(pairs[i], keys[i], ctx)
    ensures Merged(base, ctx, keys, Absorb(base, pairs))
  {
    hide ReadPair;
    if keys != [] {
      hide Merged;
      var next := AbsorbPair(base, pairs[0]);
      assert ReadsAs(pairs[0], keys[0], ctx);
      AbsorbPairs(pairs[1..], keys[1..], ctx, next);
      MergeFirst(base, ctx, keys, Absorb(next, pairs[1..]));
    }
  }

  lemma PairsRead(keys: seq<string>, ctx: Context)
    requires forall k :: k in keys ==> k in ctx && CleanKey(k)
    ensures forall i :: 0 <= i < |keys| ==> ReadsAs(Pairs(keys, ctx)[i], keys[i], ctx)
  {
    hide ReadPair, Pair;
    forall i | 0 <= i < |keys| ensures ReadsAs(Pairs(keys, ctx)[i], keys[i], ctx) {
      PairIsClean(keys[i], ctx[keys[i]]);
    }
  }

  lemma MergedAll(base: Context, ctx: Context, keys: seq<string>, merged: Context)
    requires (forall k :: k in keys <==> k in ctx) && Merged(base, ctx, keys, merged)
    ensures merged == ctx + base
  {
    assert merged.Keys == (ctx + base).Keys;
  }

  lemma {:induction false} PrintedSplits(ctx: Context)
    requires Clean(ctx) && ctx != map[]
    ensures AllPairs([Printed(ctx)]) == Pairs(SortedKeys(ctx.Keys), ctx)
  {
    var keys := SortedKeys(ctx.Keys);
    assert forall k :: k in keys <==> k in Elements(keys);
    var pairs := Pairs(keys, ctx);
    forall p | p in pairs ensures !Contains(p, SPACE) {
      var i :| 0 <= i < |pairs| && pairs[i] == p;
      PairIsClean(keys[i], ctx[keys[i]]);
    }
    var k :| k in ctx;
    assert k in keys;
    SplitOfJoin(pairs, SPACE);
    OneDetail(Printed(ctx));
  }

  lemma OneDetail(text: string)
    ensures AllPairs([text]) == Split(text, SPACE)
  {
    assert [text][1..] == [];
  }

  /** A cause's printed context merges into a builder's: every key arrives, and the builder's own value wins. */
  lemma {:induction false} MergePrinted(base: Context, ctx: Context)
    requires Formattable(ctx) && Clean(ctx) && ctx != map[]
    ensures Absorb(base, AllPairs([Printed(ctx)])) == ctx + base
  {
    var keys := SortedKeys(ctx.Keys);
    assert forall k :: k in keys <==> k in Elements(keys);
    PrintedSplits(ctx);
    PairsRead(keys, ctx);
    AbsorbPairs(Pairs(keys, ctx), keys, ctx, base);
    MergedAll(base, ctx, keys, Absorb(base, Pairs(keys, ctx)));
  }

  /** Printing and reading back recovers a context exactly when its keys and values are clean. */
  lemma {:induction false} PrintReadRoundTrip(ctx: Context)
    requires Formattable(ctx) && ctx != map[]
    ensures Absorb(map[], AllPairs([Printed(ctx)])) == ctx <==> Clean(ctx)
  {
    if Clean(ctx) {
      MergePrinted(map[], ctx);
      assert ctx + map[] == ctx;
    }
    var pairs := AllPairs([Printed(ctx)]);
    OneDetail(Printed(ctx));
    AbsorbAddsClean(map[], pairs);
  }

  /** What is read from pairs without a space is clean. */
  lemma {:induction false} AbsorbAddsClean(base: Context, pairs: seq<string>)
    requires forall p :: p in pairs ==> !Contains(p, SPACE)
    ensures var merged := Absorb(base, pairs);
            forall k :: k in merged && k !in base ==> CleanKey(k) && !Contains(merged[k], SPACE)
    decreases |pairs|
  {
    hide CleanKey, Contains, ReadPair;
    if pairs != [] {
      assert pairs[0] in pairs;
      PairReadIsClean(pairs[0]);
      AbsorbAddsClean(AbsorbPair(base, pairs[0]), pairs[1..]);
    }
  }

  lemma PairReadIsClean(pair: string)
    requires !Contains(pair, SPACE)
    ensures ReadPair(pair).Some? ==>
              CleanKey(ReadPair(pair).value.0) && !Contains(ReadPair(pair).value.1, SPACE)
  {
    if ReadPair(pair).Some? {
      var (k, v) := ReadPair(pair).value;
      KeyHasNoEquals(pair);
      hide Contains;
      ContainsChar(pair, ' ');
      ContainsChar(k, ' ');
      ContainsChar(v, ' ');
    }
  }

  // ---------------------------------------------------------------- looking a printed context up

  lemma {:induction false} LookupInPairs(key: string, keys: seq<string>, ctx: Context)
    requires !Contains(key, EQUALS) && forall k :: k in keys ==> k in ctx && CleanKey(k)
    ensures Lookup(key, Pairs(keys, ctx)) == if key in keys then Some(ctx[key]) else None
    ensures forall value :: Holds(key, value, Pairs(keys, ctx)) <==> key in keys && value == ctx[key]
  {
    hide Contains;
    if keys != [] {
      LookupInPairs(key, keys[1..], ctx);
      assert Pairs(keys, ctx)[1..] == Pairs(keys[1..], ctx);
      PairIsClean(keys[0], ctx[keys[0]]);
      PrefixReads(key, Pairs(keys, ctx)[0]);
      hide Pairs, Pair, ReadPair, CleanKey;
      assert key in keys <==> key == keys[0] || key in keys[1..];
    }
  }

  /**
  In a printed context HasContext answers what the map does, for every key; so does GetContext, unless the
  key has a `=` and stands in front of one in some pair.
   */
  lemma {:induction false} LookupInPrinted(key: string, ctx: Context)
    requires Formattable(ctx) && Clean(ctx) && ctx != map[]
    ensures forall value :: Holds(key, value, AllPairs([Printed(ctx)])) <==> key in ctx && value == ctx[key]
    ensures Lookup(key, AllPairs([Printed(ctx)])) == (if key in ctx then Some(ctx[key]) else None) <==>
              (Contains(key, EQUALS) ==> forall k :: k in ctx ==> !Answers(key, Pair(k, ctx[k])))
  {
    hide Holds, Lookup, Pair, Pairs, Answers;
    var keys := SortedKeys(ctx.Keys);
    assert forall k :: k in keys <==> k in Elements(keys);
    PrintedSplits(ctx);
    if Contains(key, EQUALS) {
      LookupFinds(key, Pairs(keys, ctx));
      PairsAre(keys, ctx);
      forall value ensures !Holds(key, value, Pairs(keys, ctx)) {
        NeverHeld(key, value, Pairs(keys, ctx));
      }
    } else {
      LookupInPairs(key, keys, ctx);
    }
  }

  lemma PairsAre(keys: seq<string>, ctx: Context)
    requires forall k :: k in keys ==> k in ctx
    ensures forall p :: p in Pairs(keys, ctx) <==> exists k :: k in keys && p == Pair(k, ctx[k])
  {
    hide Pair;
    var pairs := Pairs(keys, ctx);
    forall k | k in keys ensures Pair(k, ctx[k]) in pairs {
      var i :| 0 <= i < |keys| && keys[i] == k;
      assert pairs[i] == Pair(k, ctx[k]);
    }
  }

  // ---------------------------------------------------------------- values with spaces

  /** Of a printed pair nothing is read as the value of key. */
  predicate SaysNothing(key: string, pair: string) {
    forall w :: w in Split(pair, SPACE) ==> !Answers(key, w)
  }

  /** Only key's own pair says something of it. */
  predicate OnlyOwnPair(key: string, ctx: Context) {
    forall k :: k in ctx && k != key ==> SaysNothing(key, Pair(k, ctx[k]))
  }

  /** What can be read of a key that is in ctx: the first word of its value, unless the key has a space. */
  function Told(key: string, ctx: Context): Option<string> {
    if key !in ctx || Contains(key, SPACE) then None else Some(Split(ctx[key], SPACE)[0])
  }

  lemma {:induction false} LookupAppend(key: string, a: seq<string>, b: seq<string>)
    ensures Lookup(key, a + b) == if Lookup(key, a).Some? then Lookup(key, a) else Lookup(key, b)
  {
    if a == [] {
      assert a + b == b;
    } else {
      var all := a + b;
      assert all[0] == a[0] && all[1..] == a[1..] + b;
      LookupAppend(key, a[1..], b);
    }
  }

  lemma {:induction false} LookupInJoined(key: string, pairs: seq<string>)
    ensures pairs != [] ==> Lookup(key, Split(Join(pairs, SPACE), SPACE)) == FirstAnswer(key, pairs)
  {
    hide Split, Lookup, Join;
    if |pairs| == 1 {
      OnePair(key, pairs);
    } else if |pairs| > 1 {
      LookupInJoined(key, pairs[1..]);
      JoinedFirst(pairs);
      SplitAppend(pairs[0], Join(pairs[1..], SPACE), SPACE);
      LookupAppend(key, Split(pairs[0], SPACE), Split(Join(pairs[1..], SPACE), SPACE));
    }
  }

  /** The first of the pairs with a word that answers. */
  function FirstAnswer(key: string, pairs: seq<string>): Option<string> {
    if pairs == [] then None
    else
      var first := Lookup(key, Split(pairs[0], SPACE));
      if first.Some? then first else FirstAnswer(key, pairs[1..])
  }

  lemma OnePair(key: string, pairs: seq<string>)
    requires |pairs| == 1
    ensures Join(pairs, SPACE) == pairs[0] && FirstAnswer(key, pairs) == Lookup(key, Split(pairs[0], SPACE))
  {
    assert FirstAnswer(key, pairs[1..]) == None;
  }

  lemma JoinedFirst(pairs: seq<string>)
    requires |pairs| > 1
    ensures Join(pairs, SPACE) == pairs[0] + SPACE + Join(pairs[1..], SPACE)
  {
  }

  lemma OwnPairTells(key: string, value: string)
    ensures Lookup(key, Split(Pair(key, value), SPACE)) ==
              if Contains(key, SPACE) then None else Some(Split(value, SPACE)[0])
  {
    var words := Split(value, SPACE);
    if Contains(key, SPACE) {
      SpacedIsNotFound(key, Split(Pair(key, value), SPACE));
    } else {
      FirstWord(key, value);
      PairAnswers(key, words[0]);
    }
  }

  /** The first word of a pair whose key has no space is the key with the first word of the value. */
  lemma FirstWord(key: string, value: string)
    requires !Contains(key, SPACE)
    ensures Split(Pair(key, value), SPACE)[0] == Pair(key, Split(value, SPACE)[0])
  {
    var front := key + EQUALS;
    SplitGlued(front, value, ' ');
    hide Split;
    ContainsChar(front, ' ');
    ContainsChar(key, ' ');
    SplitNone(front, SPACE);
    assert [front][..0] == [];
  }

  lemma {:induction false} SpacedIsNotFound(key: string, pairs: seq<string>)
    requires Contains(key, SPACE) && forall p :: p in pairs ==> !Contains(p, SPACE)
    ensures Lookup(key, pairs) == None
  {
    LookupFinds(key, pairs);
    forall p | p in pairs ensures !Answers(key, p) {
      SpaceInAnswer(key, p);
    }
  }

  lemma SpaceInAnswer(key: string, pair: string)
    requires Contains(key, SPACE)
    ensures Answers(key, pair) ==> Contains(pair, SPACE)
  {
    hide Contains;
    ContainsChar(key, ' ');
    ContainsChar(pair, ' ');
    if Answers(key, pair) {
      var i :| 0 <= i < |key| && key[i] == ' ';
      assert pair[i] == (key + EQUALS)[i];
    }
  }

  lemma {:induction false} LookupInOwnPair(key: string, keys: seq<string>, ctx: Context)
    requires (forall k :: k in keys ==> k in ctx) && OnlyOwnPair(key, ctx)
    ensures FirstAnswer(key, Pairs(keys, ctx)) == if key in keys then Told(key, ctx) else None
  {
    hide Split, Lookup, Contains, Pair;
    if keys != [] {
      var rest := keys[1..];
      LookupInOwnPair(key, rest, ctx);
      assert Pairs(keys, ctx)[1..] == Pairs(rest, ctx);
      assert key in keys <==> key == keys[0] || key in rest;
      if keys[0] == key {
        OwnPairTells(key, ctx[key]);
      } else {
        LookupFinds(key, Split(Pair(keys[0], ctx[keys[0]]), SPACE));
      }
    }
  }

  /** GetContext on a printed context: the first word that answers, in the order of the sorted keys. */
  lemma {:induction false} LookupFirst(key: string, ctx: Context)
    requires Formattable(ctx) && ctx != map[]
    ensures Lookup(key, AllPairs([Printed(ctx)])) == FirstAnswer(key, SortedPairs(ctx))
  {
    hide Lookup, FirstAnswer;
    var keys := SortedKeys(ctx.Keys);
    assert forall k :: k in keys <==> k in Elements(keys);
    OneDetail(Printed(ctx));
    LookupInJoined(key, Pairs(keys, ctx));
    SomeKey(keys, ctx);
  }

  /** Of a key that only its own pair speaks of, that is the first word of its value. */
  lemma {:induction false} LookupTells(key: string, ctx: Context)
    requires Formattable(ctx) && ctx != map[] && OnlyOwnPair(key, ctx)
    ensures Lookup(key, AllPairs([Printed(ctx)])) == Told(key, ctx)
  {
    hide Told, Lookup, OnlyOwnPair, FirstAnswer;
    var keys := SortedKeys(ctx.Keys);
    assert forall k :: k in keys <==> k in Elements(keys);
    LookupFirst(key, ctx);
    LookupInOwnPair(key, keys, ctx);
    NotTold(key, ctx);
  }

  lemma SomeKey(keys: seq<string>, ctx: Context)
    requires ctx != map[] && forall k :: k in keys <==> k in ctx
    ensures keys != []
  {
    var k :| k in ctx;
    assert k in keys;
  }

  lemma NotTold(key: string, ctx: Context)
    ensures key !in ctx ==> Told(key, ctx) == None
  {
  }

  /** A clean pair speaks of its own key alone. */
  lemma CleanSaysNothing(key: string, k: string, v: string)
    requires k != key && !Contains(key, EQUALS) && CleanKey(k) && !Contains(v, SPACE)
    ensures SaysNothing(key, Pair(k, v))
  {
    PairIsClean(k, v);
    SplitNone(Pair(k, v), SPACE);
    PrefixReads(key, Pair(k, v));
  }

  /** What is read from pairs without a space speaks of its own keys alone. */
  lemma MergedOwnPair(key: string, base: Context, pairs: seq<string>)
    requires OnlyOwnPair(key, base) && !Contains(key, EQUALS) && forall p :: p in pairs ==> !Contains(p, SPACE)
    ensures OnlyOwnPair(key, Absorb(base, pairs))
  {
    hide SaysNothing, Contains, CleanKey, Pair;
    var merged := Absorb(base, pairs);
    AbsorbAddsClean(base, pairs);
    forall k | k in merged && k != key ensures SaysNothing(key, Pair(k, merged[k])) {
      if k !in base {
        CleanSaysNothing(key, k, merged[k]);
      }
    }
  }

  lemma CleanTells(key: string, ctx: Context)
    requires Clean(ctx) && !Contains(key, EQUALS)
    ensures OnlyOwnPair(key, ctx) && Told(key, ctx) == if key in ctx then Some(ctx[key]) else None
  {
    hide SaysNothing, Contains, Pair, Split;
    forall k | k in ctx && k != key ensures SaysNothing(key, Pair(k, ctx[k])) {
      CleanSaysNothing(key, k, ctx[k]);
    }
    if key in ctx {
      SplitNone(ctx[key], SPACE);
    }
  }

  // ---------------------------------------------------------------- the pairs that are displayed

  /** unicode.IsSpace. */
  predicate IsSpace(c: char) {
    || '\t' <= c <= '\r' || c == ' ' || c == '\U{0085}' || c == '\U{00A0}' || c == '\U{1680}'
    || '\U{2000}' <= c <= '\U{200A}' || c == '\U{2028}' || c == '\U{2029}' || c == '\U{202F}'
    || c == '\U{205F}' || c == '\U{3000}'
  }

  /** strings.TrimSpace. */
  function TrimSpace(s: string): string {
    if s == "" then ""
    else if IsSpace(s[0]) then TrimSpace(s[1..])
    else if IsSpace(s[|s| - 1]) then TrimSpace(s[..|s| - 1])
    else s
  }

  /** The white space of Unicode outside Latin-1 and in it, by code point. */
  lemma SpacesAre(c: char)
    ensures IsSpace(c) <==>
              || c as int in {9, 10, 11, 12, 13, 32, 133, 160, 5760, 8232, 8233, 8239, 8287, 12288}
              || 8192 <= c as int <= 8202
  {
  }

  /** TrimSpace takes white space off both ends, and all of it. */
  lemma {:induction false} TrimSpaceIs(s: string) returns (a: nat, b: nat)
    ensures a <= b <= |s| && TrimSpace(s) == s[a..b]
    ensures (forall k :: 0 <= k < a || b <= k < |s| ==> IsSpace(s[k]))
    ensures a < b ==> !IsSpace(s[a]) && !IsSpace(s[b - 1])
    decreases |s|
  {
    hide IsSpace;
    if s == "" {
      a, b := 0, 0;
    } else if IsSpace(s[0]) {
      a, b := TrimSpaceIs(s[1..]);
      assert s[1..][a..b] == s[a + 1..b + 1];
      assert forall k :: 1 <= k < |s| ==> s[k] == s[1..][k - 1];
      a, b := a + 1, b + 1;
    } else if IsSpace(s[|s| - 1]) {
      a, b := TrimSpaceIs(s[..|s| - 1]);
      assert s[..|s| - 1][a..b] == s[a..b];
      assert forall k :: 0 <= k < |s| - 1 ==> s[k] == s[..|s| - 1][k];
    } else {
      a, b := 0, |s|;
    }
  }

  predicate IsShown(pair: string) {
    pair != "" && Contains(pair, EQUALS)
  }

  function Shown(pairs: seq<string>): seq<string> {
    if pairs == [] then []
    else if IsShown(TrimSpace(pairs[0])) then [TrimSpace(pairs[0])] + Shown(pairs[1..])
    else Shown(pairs[1..])
  }

  method ExtractContextPairs(details: seq<string>) returns (contextPairs: seq<string>)
    ensures contextPairs == Shown(AllPairs(details))
  {
    hide Shown, TrimSpace, Contains;
    contextPairs := [];
    for d := 0 to |details|
      invariant contextPairs + Shown(AllPairs(details[d..])) == Shown(AllPairs(details))
    {
      var pairs := Split(details[d], SPACE);
      assert details[d..][0] == details[d] && details[d..][1..] == details[d + 1..];
      ghost var later := AllPairs(details[d + 1..]);
      for p := 0 to |pairs|
        invariant contextPairs + Shown(pairs[p..] + later) == Shown(AllPairs(details))
      {
        assert (pairs[p..] + later)[0] == pairs[p] && (pairs[p..] + later)[1..] == pairs[p + 1..] + later;
        ShownNext(contextPairs, pairs[p..] + later);
        var pair := TrimSpace(pairs[p]);
        if pair != "" && Contains(pair, EQUALS) {
          contextPairs := contextPairs + [pair];
        }
      }
      assert pairs[|pairs|..] + later == later;
    }
    NothingShown();
  }

  lemma NothingShown()
    ensures Shown(AllPairs([])) == []
  {
  }

  lemma ShownNext(shown: seq<string>, pairs: seq<string>)
    requires pairs != []
    ensures var pair := TrimSpace(pairs[0]);
            shown + Shown(pairs) == (if IsShown(pair) then shown + [pair] else shown) + Shown(pairs[1..])
  {
    hide TrimSpace, IsShown;
  }

  lemma {:induction false} TrimKeepsEquals(s: string)
    ensures Contains(TrimSpace(s), EQUALS) <==> Contains(s, EQUALS)
    ensures Contains(s, EQUALS) ==> TrimSpace(s) != ""
  {
    ContainsChar(s, '=');
    if s != "" && IsSpace(s[0]) {
      TrimKeepsEquals(s[1..]);
      ContainsChar(s[1..], '=');
      assert s == [s[0]] + s[1..];
    } else if s != "" && IsSpace(s[|s| - 1]) {
      TrimKeepsEquals(s[..|s| - 1]);
      ContainsChar(s[..|s| - 1], '=');
      assert s == s[..|s| - 1] + [s[|s| - 1]];
    }
  }

  lemma {:induction false} AllShown(pairs: seq<string>)
    requires forall p :: p in pairs ==> IsShown(TrimSpace(p))
    ensures |Shown(pairs)| == |pairs| && forall i :: 0 <= i < |pairs| ==> Shown(pairs)[i] == TrimSpace(pairs[i])
  {
    hide TrimSpace, IsShown;
    if pairs != [] {
      AllShown(pairs[1..]);
    }
  }

  lemma ShownPairs(keys: seq<string>, ctx: Context)
    requires forall k :: k in keys ==> k in ctx
    ensures Shown(Pairs(keys, ctx)) == Pairs(keys, ctx) <==>
              forall k :: k in keys ==> TrimSpace(Pair(k, ctx[k])) == Pair(k, ctx[k])
  {
    hide TrimSpace, Contains, Pair, Shown;
    var pairs := Pairs(keys, ctx);
    forall i | 0 <= i < |keys| ensures IsShown(TrimSpace(pairs[i])) {
      PairHasEquals(keys[i], ctx[keys[i]]);
      TrimKeepsEquals(pairs[i]);
    }
    AllShown(pairs);
    if Shown(pairs) == pairs {
      forall k | k in keys ensures TrimSpace(Pair(k, ctx[k])) == Pair(k, ctx[k]) {
        var i :| 0 <= i < |keys| && keys[i] == k;
        assert Shown(pairs)[i] == pairs[i];
      }
    }
  }

  lemma PairHasEquals(k: string, v: string)
    ensures Contains(Pair(k, v), EQUALS)
  {
    ContainsChar(Pair(k, v), '=');
    assert Pair(k, v)[|k|] == '=';
  }

  /** The display shows a printed context word for word exactly when trimming takes nothing off its pairs. */
  lemma {:induction false} PrintedIsShown(ctx: Context)
    requires Formattable(ctx) && Clean(ctx) && ctx != map[]
    ensures Shown(AllPairs([Printed(ctx)])) == Pairs(SortedKeys(ctx.Keys), ctx)
            <==> forall k :: k in ctx ==> TrimSpace(Pair(k, ctx[k])) == Pair(k, ctx[k])
  {
    var keys := SortedKeys(ctx.Keys);
    assert forall k :: k in keys <==> k in Elements(keys);
    PrintedSplits(ctx);
    ShownPairs(keys, ctx);
  }
}
