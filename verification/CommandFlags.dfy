/**
The flags of a custom command (cmd/cmd_utils.go, pkg/customcommand/flags.go): what is declared is validated
against the flags that the parent passes down. A flag set refuses (Go: panics) a name or a shorthand that it
has already, and a shorthand of more than one byte.
 */
module CommandFlags {
  import opened FlagValues
  import opened Options
  import opened UniqueLists
  import ContextText

  // ---------------------------------------------------------------- registered flags

  datatype Flag = Flag(name: string, shorthand: string, value: Value)

  predicate OneByte(s: string) {
    |s| == 1 && s[0] as int < 0x80
  }

  /** What a flag set keeps: names are unique, and so are shorthands, each of one byte. */
  predicate WellFormed(flags: seq<Flag>) {
    && (forall i :: 0 <= i < |flags| ==> WellTyped(flags[i].value))
    && (forall i :: 0 <= i < |flags| ==> flags[i].shorthand == "" || OneByte(flags[i].shorthand))
    && (forall i, j :: 0 <= i < j < |flags| ==> flags[i].name != flags[j].name)
    && (forall i, j :: 0 <= i < j < |flags| ==> flags[i].shorthand == "" || flags[i].shorthand != flags[j].shorthand)
  }

  function Lookup(flags: seq<Flag>, name: string): (r: Option<Flag>)
    ensures r.Some? ==> r.value in flags && r.value.name == name
    ensures r.None? ==> forall g :: g in flags ==> g.name != name
  {
    if flags == [] then None
    else if flags[0].name == name then Some(flags[0])
    else Lookup(flags[1..], name)
  }

  predicate ShorthandTaken(flags: seq<Flag>, shorthand: string) {
    exists i :: 0 <= i < |flags| && flags[i].shorthand == shorthand
  }

  predicate CanAdd(flags: seq<Flag>, flag: Flag) {
    && Lookup(flags, flag.name).None?
    && (flag.shorthand == "" || (OneByte(flag.shorthand) && !ShorthandTaken(flags, flag.shorthand)))
  }

  // ---------------------------------------------------------------- declared flags

  /** A default as decoded from YAML: a whole number may be a float; anything else is Unusable. */
  datatype Default = Missing | OnOff(on: bool) | Words(text: string) | Whole(n: int) | Unusable

  datatype Declared = Declared(
    name: string,
    shorthand: string,
    kind: string,
    default': Default,
    hasValues: bool,
    required: bool)

  function EffectiveType(flag: Declared): string {
    if flag.kind == "" then STRING_TYPE else flag.kind
  }

  function IntDefault(d: Default): Option<int> {
    match d
    case Missing => Some(0)
    case Whole(n) => if InRange(n) then Some(n) else None
    case Words(text) => if ContextText.TrimSpace(text) == "" then Some(0) else Atoi(ContextText.TrimSpace(text))
    case OnOff(_) => None
    case Unusable => None
  }

  datatype Problem = UnsupportedType | WrongDefault | ValuesOfInt
    | DuplicateFlag | TypeMismatch | LongShorthand | DuplicateShorthand | ReservedShorthand

  /** customcommand.ValidateFlag. */
  function OwnProblem(flag: Declared): Option<Problem> {
    var kind := EffectiveType(flag);
    if kind == STRING_TYPE then
      if flag.default'.Missing? || flag.default'.Words? then None else Some(WrongDefault)
    else if kind == BOOL_TYPE then
      if flag.default'.Missing? || flag.default'.OnOff? then None else Some(WrongDefault)
    else if kind == INT_TYPE then
      if IntDefault(flag.default').None? then Some(WrongDefault)
      else if flag.hasValues then Some(ValuesOfInt)
      else None
    else Some(UnsupportedType)
  }

  /** What a flag may be by itself: of one of three types, with a default of that type, and no values if an integer. */
  lemma OwnProblemIff(flag: Declared)
    ensures OwnProblem(flag).None? <==>
              match flag.default'
              case Missing => flag.kind in {"", "string", "bool"} || (flag.kind == "int" && !flag.hasValues)
              case OnOff(_) => flag.kind == "bool"
              case Whole(n) =>
                flag.kind == "int" && !flag.hasValues && -0x8000_0000_0000_0000 <= n < 0x8000_0000_0000_0000
              case Words(text) =>
                || flag.kind in {"", "string"}
                || (flag.kind == "int" && !flag.hasValues
                    && (ContextText.TrimSpace(text) == "" || Atoi(ContextText.TrimSpace(text)).Some?))
              case Unusable => false
    ensures flag.kind !in {"", "string", "bool", "int"} <==> OwnProblem(flag) == Some(UnsupportedType)
    ensures OwnProblem(flag) == Some(ValuesOfInt) ==> flag.kind == "int" && flag.hasValues
  {
    hide ContextText.TrimSpace, Atoi;
  }

  // ---------------------------------------------------------------- validation

  /** Crash: looking up a shorthand of more than one byte panics. */
  datatype Verdict = Accept | Reject(problem: Problem) | Crash

  predicate IsNew(flag: Declared, visible: seq<Flag>) {
    Lookup(visible, flag.name).None?
  }

  /** What a flag puts into the map of names and shorthands seen. */
  function Keys(flag: Declared, visible: seq<Flag>): seq<string> {
    if IsNew(flag, visible) && flag.shorthand != "" then [flag.name, flag.shorthand] else [flag.name]
  }

  function ShorthandVerdict(flag: Declared, seen: seq<string>, visible: seq<Flag>): Verdict {
    if flag.shorthand == "" then Accept
    else if |flag.shorthand| != 1 then Reject(LongShorthand)
    else if flag.shorthand in seen then Reject(DuplicateShorthand)
    else if !OneByte(flag.shorthand) then Crash
    else if ShorthandTaken(visible, flag.shorthand) then Reject(ReservedShorthand)
    else Accept
  }

  function FlagVerdict(flag: Declared, seen: seq<string>, visible: seq<Flag>): Verdict {
    if OwnProblem(flag).Some? then Reject(OwnProblem(flag).value)
    else if flag.name in seen then Reject(DuplicateFlag)
    else
      match Lookup(visible, flag.name)
      case Some(existing) => if TypeOf(existing.value) == EffectiveType(flag) then Accept else Reject(TypeMismatch)
      case None => ShorthandVerdict(flag, seen + [flag.name], visible)
  }

  function Validated(flags: seq<Declared>, seen: seq<string>, visible: seq<Flag>): Verdict
    decreases |flags|
  {
    if flags == [] then Accept
    else
      var first := FlagVerdict(flags[0], seen, visible);
      if first != Accept then first
      else Validated(flags[1..], seen + Keys(flags[0], visible), visible)
  }

  method ValidateFlagShorthand(flag: Declared, seen: seq<string>, visible: seq<Flag>)
      returns (verdict: Verdict, seen': seq<string>)
    requires IsNew(flag, visible)
    ensures verdict == ShorthandVerdict(flag, seen, visible)
    ensures verdict.Accept? ==> seen' == if flag.shorthand == "" then seen else seen + [flag.shorthand]
  {
    seen' := seen;
    if flag.shorthand == "" {
      return Accept, seen';
    }
    if |flag.shorthand| != 1 {
      return Reject(LongShorthand), seen';
    }
    if flag.shorthand in seen' {
      return Reject(DuplicateShorthand), seen';
    }
    seen' := seen' + [flag.shorthand];
    if !OneByte(flag.shorthand) {
      return Crash, seen';
    }
    if ShorthandTaken(visible, flag.shorthand) {
      return Reject(ReservedShorthand), seen';
    }
    return Accept, seen';
  }

  method ValidateFlag(flag: Declared, seen: seq<string>, visible: seq<Flag>)
      returns (verdict: Verdict, seen': seq<string>)
    ensures verdict == FlagVerdict(flag, seen, visible)
    ensures verdict.Accept? ==> seen' == seen + Keys(flag, visible)
  {
    seen' := seen;
    if OwnProblem(flag).Some? {
      return Reject(OwnProblem(flag).value), seen';
    }
    if flag.name in seen' {
      return Reject(DuplicateFlag), seen';
    }
    seen' := seen' + [flag.name];
    var existing := Lookup(visible, flag.name);
    if existing.Some? {
      if TypeOf(existing.value.value) != EffectiveType(flag) {
        return Reject(TypeMismatch), seen';
      }
      return Accept, seen';
    }
    verdict, seen' := ValidateFlagShorthand(flag, seen', visible);
  }

  method ValidateCustomCommandFlags(flags: seq<Declared>, visible: seq<Flag>) returns (verdict: Verdict)
    ensures verdict == Validated(flags, [], visible)
    ensures verdict == Accept <==> Acceptable(flags, visible)
  {
    hide FlagVerdict, Keys;
    AcceptedIff(flags, visible);
    var seen: seq<string> := [];
    for i := 0 to |flags|
      invariant Validated(flags, [], visible) == Validated(flags[i..], seen, visible)
    {
      assert flags[i..][0] == flags[i] && flags[i..][1..] == flags[i + 1..];
      verdict, seen := ValidateFlag(flags[i], seen, visible);
      if verdict != Accept {
        return;
      }
    }
    return Accept;
  }

  // ---------------------------------------------------------------- what validation accepts

  predicate Suitable(flag: Declared, visible: seq<Flag>) {
    && OwnProblem(flag).None?
    && (Lookup(visible, flag.name).Some? ==> TypeOf(Lookup(visible, flag.name).value.value) == EffectiveType(flag))
    && (IsNew(flag, visible) && flag.shorthand != "" ==>
          OneByte(flag.shorthand) && !ShorthandTaken(visible, flag.shorthand))
  }

  function AllKeys(flags: seq<Declared>, visible: seq<Flag>): seq<string> {
    if flags == [] then [] else Keys(flags[0], visible) + AllKeys(flags[1..], visible)
  }

  /** Each flag is suitable for itself, and all the names and new shorthands together are distinct. */
  predicate Acceptable(flags: seq<Declared>, visible: seq<Flag>) {
    && (forall f :: f in flags ==> Suitable(f, visible))
    && Distinct(AllKeys(flags, visible))
  }

  lemma AcceptedFlag(flag: Declared, seen: seq<string>, visible: seq<Flag>)
    requires Distinct(seen)
    ensures FlagVerdict(flag, seen, visible) == Accept <==>
              Suitable(flag, visible) && Distinct(seen + Keys(flag, visible))
  {
    hide OwnProblem, EffectiveType, OneByte, ShorthandTaken;
    DistinctAppend(seen, flag.name);
    if IsNew(flag, visible) && flag.shorthand != "" {
      var named := seen + [flag.name];
      assert seen + Keys(flag, visible) == named + [flag.shorthand];
      ByteIsCharacter(flag.shorthand);
      if flag.name !in seen {
        DistinctAppend(named, flag.shorthand);
      } else if Distinct(named + [flag.shorthand]) {
        DistinctPrefix(named, [flag.shorthand]);
      }
    }
  }

  lemma ByteIsCharacter(s: string)
    ensures OneByte(s) ==> |s| == 1
  {
  }

  lemma DistinctAppend(xs: seq<string>, x: string)
    requires Distinct(xs)
    ensures Distinct(xs + [x]) <==> x !in xs
  {
    if x in xs {
      var i :| 0 <= i < |xs| && xs[i] == x;
      assert (xs + [x])[i] == (xs + [x])[|xs|];
    }
  }

  lemma DistinctPrefix(xs: seq<string>, ys: seq<string>)
    requires Distinct(xs + ys)
    ensures Distinct(xs)
  {
    forall i, j | 0 <= i < j < |xs| ensures xs[i] != xs[j] {
      assert (xs + ys)[i] != (xs + ys)[j];
    }
  }

  lemma {:induction false} AcceptedFrom(flags: seq<Declared>, seen: seq<string>, visible: seq<Flag>)
    requires Distinct(seen)
    ensures Validated(flags, seen, visible) == Accept
       <==> (forall f :: f in flags ==> Suitable(f, visible)) && Distinct(seen + AllKeys(flags, visible))
    decreases |flags|
  {
    hide FlagVerdict, Keys, Suitable, Distinct;
    if flags == [] {
      assert seen + AllKeys(flags, visible) == seen;
    } else {
      var next, later := seen + Keys(flags[0], visible), AllKeys(flags[1..], visible);
      assert seen + AllKeys(flags, visible) == next + later;
      assert forall f :: f in flags <==> f == flags[0] || f in flags[1..];
      AcceptedFlag(flags[0], seen, visible);
      if Distinct(next + later) {
        DistinctPrefix(next, later);
      }
      if Distinct(next) {
        AcceptedFrom(flags[1..], next, visible);
      }
    }
  }

  /** Validation accepts exactly the acceptable flags, whatever their order. */
  lemma {:induction false} AcceptedIff(flags: seq<Declared>, visible: seq<Flag>)
    ensures Validated(flags, [], visible) == Accept <==> Acceptable(flags, visible)
  {
    AcceptedFrom(flags, [], visible);
    assert [] + AllKeys(flags, visible) == AllKeys(flags, visible);
  }

  // ---------------------------------------------------------------- what it does not accept

  lemma {:induction false} ValidatedAppend(a: seq<Declared>, b: seq<Declared>, seen: seq<string>, visible: seq<Flag>)
    ensures Validated(a + b, seen, visible) ==
              if Validated(a, seen, visible) != Accept then Validated(a, seen, visible)
              else Validated(b, seen + AllKeys(a, visible), visible)
    decreases |a|
  {
    hide FlagVerdict, Keys;
    if a == [] {
      assert a + b == b && seen + AllKeys(a, visible) == seen;
    } else {
      var next := seen + Keys(a[0], visible);
      assert (a + b)[1..] == a[1..] + b && next + AllKeys(a[1..], visible) == seen + AllKeys(a, visible);
      ValidatedAppend(a[1..], b, next, visible);
    }
  }

  /** The flags before i are accepted, and flag i is the first for which validation says something else. */
  predicate StopsAt(flags: seq<Declared>, i: nat, verdict: Verdict, visible: seq<Flag>) {
    && i < |flags|
    && Acceptable(flags[..i], visible)
    && FlagVerdict(flags[i], AllKeys(flags[..i], visible), visible) == verdict
  }

  /** Every verdict but acceptance is that of the first flag which is not accepted behind those before it. */
  lemma {:induction false} StopsIff(flags: seq<Declared>, verdict: Verdict, visible: seq<Flag>)
    requires verdict != Accept
    ensures Validated(flags, [], visible) == verdict <==> exists i :: StopsAt(flags, i, verdict, visible)
  {
    hide FlagVerdict, Acceptable, AllKeys;
    if Validated(flags, [], visible) == verdict {
      var i := FirstStop(flags, verdict, visible);
    }
    forall i: nat | StopsAt(flags, i, verdict, visible) ensures Validated(flags, [], visible) == verdict {
      AcceptedIff(flags[..i], visible);
      assert flags == flags[..i] + flags[i..] && [] + AllKeys(flags[..i], visible) == AllKeys(flags[..i], visible);
      ValidatedAppend(flags[..i], flags[i..], [], visible);
    }
  }

  lemma {:induction false} FirstStop(flags: seq<Declared>, verdict: Verdict, visible: seq<Flag>) returns (i: nat)
    requires verdict != Accept && Validated(flags, [], visible) == verdict
    ensures StopsAt(flags, i, verdict, visible)
    decreases |flags|
  {
    hide FlagVerdict, Acceptable, AllKeys;
    assert flags != [];
    var n := |flags| - 1;
    var front, last := flags[..n], flags[n..];
    assert flags == front + last && [] + AllKeys(front, visible) == AllKeys(front, visible);
    ValidatedAppend(front, last, [], visible);
    if Validated(front, [], visible) == Accept {
      AcceptedIff(front, visible);
      i := n;
    } else {
      i := FirstStop(front, verdict, visible);
      assert front[..i] == flags[..i];
    }
  }

  /**
  A new flag without a problem of its own, whose shorthand is one character beyond ASCII, both name and
  shorthand unseen.
   */
  predicate WideShorthand(flag: Declared, seen: seq<string>, visible: seq<Flag>) {
    && OwnProblem(flag).None? && IsNew(flag, visible) && flag.name !in seen
    && |flag.shorthand| == 1 && flag.shorthand[0] as int >= 128
    && flag.shorthand !in seen && flag.shorthand != flag.name
  }

  /** Validation panics exactly when such a flag comes behind flags that are acceptable. */
  lemma {:induction false} CrashIff(flags: seq<Declared>, visible: seq<Flag>)
    ensures Validated(flags, [], visible) == Crash <==>
              exists i: nat :: i < |flags| && Acceptable(flags[..i], visible)
                && WideShorthand(flags[i], AllKeys(flags[..i], visible), visible)
  {
    hide Acceptable, AllKeys, Validated;
    StopsIff(flags, Crash, visible);
    forall i: nat | i < |flags|
      ensures StopsAt(flags, i, Crash, visible) <==>
        Acceptable(flags[..i], visible) && WideShorthand(flags[i], AllKeys(flags[..i], visible), visible)
    {
      CrashVerdict(flags[i], AllKeys(flags[..i], visible), visible);
    }
  }

  lemma CrashVerdict(flag: Declared, seen: seq<string>, visible: seq<Flag>)
    ensures FlagVerdict(flag, seen, visible) == Crash <==> WideShorthand(flag, seen, visible)
  {
    hide OwnProblem, EffectiveType;
  }

  /** Names and shorthands share one map: a new flag whose shorthand is its own name is its own duplicate. */
  lemma ShorthandOfOwnName(flag: Declared, seen: seq<string>, visible: seq<Flag>)
    requires OwnProblem(flag).None? && IsNew(flag, visible) && flag.name !in seen
    requires |flag.name| == 1 && flag.shorthand == flag.name
    ensures FlagVerdict(flag, seen, visible) == Reject(DuplicateShorthand)
  {
    hide OwnProblem, OneByte, EffectiveType;
  }

  lemma WideShorthandCrashes()
    ensures Validated([Declared("eclair", "\U{00E9}", "", Missing, false, false)], [], []) == Crash
  {
    var flag := Declared("eclair", "\U{00E9}", "", Missing, false, false);
    assert FlagVerdict(flag, [], []) == Crash;
  }
}
