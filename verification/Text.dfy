/**
Go's string functions that the modelled code calls, with their laws: first occurrence, split on a
separator, join with a separator, and concatenation of a list of pieces.
 */
module Text {

  /** The separator sep stands in s at offset i. */
  predicate OccursAt(s: string, sep: string, i: int) {
    0 <= i && i + |sep| <= |s| && s[i..i + |sep|] == sep
  }

  lemma DropThenSlice(s: string, lo: nat, hi: nat)
    requires 1 <= lo <= hi <= |s|
    ensures s[1..][lo - 1..hi - 1] == s[lo..hi]
  {
  }

  /** strings.Index: the first offset at which sep stands in s, or -1. */
  function Index(s: string, sep: string): (i: int)
    ensures i == -1 || OccursAt(s, sep, i)
    ensures i == -1 ==> forall k :: !OccursAt(s, sep, k)
    ensures forall k :: 0 <= k < i ==> !OccursAt(s, sep, k)
  {
    if |s| < |sep| then -1
    else if s[..|sep|] == sep then 0
    else if s == "" then -1
    else
      var rest := Index(s[1..], sep);
      assert forall k | 1 <= k :: OccursAt(s, sep, k) <==> OccursAt(s[1..], sep, k - 1) by {
        forall k | 1 <= k ensures OccursAt(s, sep, k) <==> OccursAt(s[1..], sep, k - 1) {
          if k + |sep| <= |s| {
            DropThenSlice(s, k, k + |sep|);
          }
        }
      }
      if rest == -1 then -1 else rest + 1
  }

  predicate Contains(s: string, sub: string) {
    Index(s, sub) != -1
  }

  /** A separator whose first character does not come back inside it; every one used here is. */
  predicate Separator(sep: string) {
    sep != "" && sep[0] !in sep[1..]
  }

  /** strings.Split for a non-empty separator. */
  function Split(s: string, sep: string): (parts: seq<string>)
    requires Separator(sep)
    ensures |parts| >= 1
    ensures forall p :: p in parts ==> !Contains(p, sep)
    decreases |s|
  {
    var i := Index(s, sep);
    if i == -1 then [s]
    else
      assert forall k :: OccursAt(s[..i], sep, k) ==> OccursAt(s, sep, k) by {
        forall k | OccursAt(s[..i], sep, k) ensures OccursAt(s, sep, k) {
          assert s[k..k + |sep|] == s[..i][k..k + |sep|];
        }
      }
      [s[..i]] + Split(s[i + |sep|..], sep)
  }

  /** strings.Join. */
  function Join(parts: seq<string>, sep: string): string {
    if |parts| == 0 then ""
    else if |parts| == 1 then parts[0]
    else parts[0] + sep + Join(parts[1..], sep)
  }

  /** The pieces one after the other. */
  function Concat(pieces: seq<string>): string {
    if pieces == [] then "" else pieces[0] + Concat(pieces[1..])
  }

  lemma {:induction false} JoinOfSplit(s: string, sep: string)
    requires Separator(sep)
    ensures Join(Split(s, sep), sep) == s
    decreases |s|
  {
    var i := Index(s, sep);
    if i != -1 {
      JoinOfSplit(s[i + |sep|..], sep);
      var parts := Split(s, sep);
      assert parts[1..] == Split(s[i + |sep|..], sep);
      assert s == s[..i] + sep + s[i + |sep|..];
    }
  }

  /** The first separator of p + sep + t is the one written there when p itself has none. */
  lemma {:induction false} FirstSeparator(p: string, sep: string, t: string)
    requires Separator(sep) && !Contains(p, sep)
    ensures Index(p + sep + t, sep) == |p|
  {
    var s := p + sep + t;
    assert s[|p|..|p| + |sep|] == sep;
    assert OccursAt(s, sep, |p|);
    forall k | 0 <= k < |p| ensures !OccursAt(s, sep, k) {
      if k + |sep| <= |p| {
        assert !OccursAt(p, sep, k);
        assert p[k..k + |sep|] == s[k..k + |sep|];
      } else {
        assert sep[1..][|p| - k - 1] != sep[0];
        assert s[k..k + |sep|][|p| - k] == s[|p|] == sep[0];
      }
    }
  }

  lemma SplitNone(p: string, sep: string)
    requires Separator(sep) && !Contains(p, sep)
    ensures Split(p, sep) == [p]
  {
  }

  lemma SplitFirst(p: string, sep: string, t: string)
    requires Separator(sep) && !Contains(p, sep)
    ensures Split(p + sep + t, sep) == [p] + Split(t, sep)
  {
    FirstSeparator(p, sep, t);
    var s := p + sep + t;
    assert s[..|p|] == p && s[|p| + |sep|..] == t;
  }

  lemma {:induction false} SplitOfJoin(parts: seq<string>, sep: string)
    requires Separator(sep) && |parts| >= 1
    requires forall p :: p in parts ==> !Contains(p, sep)
    ensures Split(Join(parts, sep), sep) == parts
  {
    hide Split, Contains;
    assert parts[0] in parts;
    if |parts| == 1 {
      SplitNone(parts[0], sep);
      assert parts == [parts[0]];
    } else {
      SplitOfJoin(parts[1..], sep);
      SplitFirst(parts[0], sep, Join(parts[1..], sep));
      assert parts == [parts[0]] + parts[1..];
    }
  }

  lemma {:induction false} JoinAppend(a: seq<string>, b: seq<string>, sep: string)
    requires a != [] && b != []
    ensures Join(a + b, sep) == Join(a, sep) + sep + Join(b, sep)
  {
    if |a| == 1 {
      assert (a + b)[1..] == b;
    } else {
      JoinAppend(a[1..], b, sep);
      assert (a + b)[1..] == a[1..] + b;
    }
  }

  lemma {:induction false} SplitAppend(s: string, t: string, sep: string)
    requires Separator(sep)
    ensures Split(s + sep + t, sep) == Split(s, sep) + Split(t, sep)
  {
    JoinOfSplit(s, sep);
    JoinOfSplit(t, sep);
    JoinAppend(Split(s, sep), Split(t, sep), sep);
    SplitOfJoin(Split(s, sep) + Split(t, sep), sep);
  }

  lemma {:induction false} ConcatAppend(a: seq<string>, b: seq<string>)
    ensures Concat(a + b) == Concat(a) + Concat(b)
  {
    if a == [] {
      assert a + b == b;
    } else {
      var all := a + b;
      assert all[0] == a[0] && all[1..] == a[1..] + b;
      ConcatAppend(a[1..], b);
    }
  }

  lemma ContainsFirst(s: string, sub: string)
    requires sub != "" && Contains(s, sub)
    ensures sub[0] in s
  {
    var i := Index(s, sub);
    assert s[i..i + |sub|][0] == s[i];
  }

  lemma ContainsMiddle(front: string, sub: string, tail: string)
    ensures Contains(front + sub + tail, sub)
  {
    var s := front + sub + tail;
    assert s[|front|..|front| + |sub|] == sub;
    assert OccursAt(s, sub, |front|);
  }

  /** Containing one character is membership. */
  lemma ContainsChar(s: string, c: char)
    ensures Contains(s, [c]) <==> c in s
  {
    if c in s {
      var k :| 0 <= k < |s| && s[k] == c;
      assert s[k..k + 1] == [c];
      assert OccursAt(s, [c], k);
    }
    var i := Index(s, [c]);
    if i != -1 {
      assert s[i..i + 1][0] == c;
    }
  }

  lemma {:induction false} JoinGlued(a: seq<string>, b: seq<string>, sep: string)
    requires |a| >= 1 && |b| >= 1
    ensures Join(a[..|a| - 1] + [a[|a| - 1] + b[0]] + b[1..], sep) == Join(a, sep) + Join(b, sep)
  {
    var glued := a[..|a| - 1] + [a[|a| - 1] + b[0]] + b[1..];
    if |a| == 1 {
      if |b| > 1 {
        assert glued[1..] == b[1..];
      }
    } else {
      JoinGlued(a[1..], b, sep);
      assert glued[1..] == a[1..][..|a| - 2] + [a[1..][|a| - 2] + b[0]] + b[1..];
    }
  }

  /** Each part of a + b is a part of a, a part of b, or the last of a with the first of b. */
  lemma {:induction false} SplitGlued(a: string, b: string, c: char)
    ensures var pa, pb := Split(a, [c]), Split(b, [c]);
            Split(a + b, [c]) == pa[..|pa| - 1] + [pa[|pa| - 1] + pb[0]] + pb[1..]
  {
    var pa, pb := Split(a, [c]), Split(b, [c]);
    var glued := pa[..|pa| - 1] + [pa[|pa| - 1] + pb[0]] + pb[1..];
    JoinOfSplit(a, [c]);
    JoinOfSplit(b, [c]);
    JoinGlued(pa, pb, [c]);
    forall p | p in glued ensures !Contains(p, [c]) {
      ContainsChar(p, c);
      ContainsChar(pa[|pa| - 1], c);
      ContainsChar(pb[0], c);
    }
    SplitOfJoin(glued, [c]);
  }
}
