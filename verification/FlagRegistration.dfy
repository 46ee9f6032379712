/**
Registering the declared flags of a custom command beside its own ones (cmd/cmd_utils.go), merging in what
the parent passes down, and reading every declared flag's value back when the command runs.
 */
module FlagRegistration {
  import opened CommandFlags
  import opened FlagValues
  import opened Options
  import opened UniqueLists
  import ContextText

  // ---------------------------------------------------------------- registration

  const IDENTITY := "identity"

  /** Every custom command has these before its declared flags are looked at. */
  const RESERVED: seq<Flag> := [Flag("", "", Bool(false)), Flag(IDENTITY, "i", Text(""))]

  function InitialValue(flag: Declared): Value {
    if EffectiveType(flag) == BOOL_TYPE then Bool(flag.default'.OnOff? && flag.default'.on)
    else if EffectiveType(flag) == INT_TYPE then
      Int(if IntDefault(flag.default').Some? then IntDefault(flag.default').value else 0)
    else Text(if flag.default'.Words? then flag.default'.text else "")
  }

  function NewFlag(flag: Declared): Flag {
    Flag(flag.name, flag.shorthand, InitialValue(flag))
  }

  /** The command's own flags after registration; None where registering panics. */
  function Registered(own: seq<Flag>, flags: seq<Declared>, visible: seq<Flag>): Option<seq<Flag>>
    decreases |flags|
  {
    if flags == [] then Some(own)
    else if !IsNew(flags[0], visible) then Registered(own, flags[1..], visible)
    else if !CanAdd(own, NewFlag(flags[0])) then None
    else Registered(own + [NewFlag(flags[0])], flags[1..], visible)
  }

  class FlagSet {
    var flags: seq<Flag>
    var required: seq<string>

    constructor ()
      ensures flags == RESERVED == [Flag("", "", Bool(false)), Flag("identity", "i", Text(""))] && required == []
    {
      flags := RESERVED;
      required := [];
    }

    method AddFlag(flag: Flag) returns (panicked: bool)
      modifies this`flags
      ensures panicked <==> !CanAdd(old(flags), flag)
      ensures flags == if panicked then old(flags) else old(flags) + [flag]
    {
      if !CanAdd(flags, flag) {
        return true;
      }
      flags := flags + [flag];
      return false;
    }

    /** MarkPersistentFlagRequired: an error for a name that is not there. */
    method MarkRequired(name: string) returns (failed: bool)
      modifies this`required
      ensures failed <==> Lookup(flags, name).None?
      ensures required == if failed then old(required) else old(required) + [name]
    {
      if Lookup(flags, name).None? {
        return true;
      }
      required := required + [name];
      return false;
    }
  }

  /** The new flags that are declared as required, in order. */
  function RequiredNames(flags: seq<Declared>, visible: seq<Flag>): seq<string> {
    if flags == [] then []
    else if IsNew(flags[0], visible) && flags[0].required then [flags[0].name] + RequiredNames(flags[1..], visible)
    else RequiredNames(flags[1..], visible)
  }

  /** Marking a flag as required never fails, because the flag was registered just before. */
  method RegisterCustomCommandFlags(flags: seq<Declared>, command: FlagSet, visible: seq<Flag>)
      returns (panicked: bool, failed: bool)
    modifies command
    ensures !failed
    ensures panicked <==> Registered(old(command.flags), flags, visible).None?
    ensures !panicked ==> command.flags == Registered(old(command.flags), flags, visible).value
    ensures !panicked ==> command.required == old(command.required) + RequiredNames(flags, visible)
  {
    hide CanAdd, InitialValue, Registered, RequiredNames;
    failed := false;
    for i := 0 to |flags|
      invariant Registered(old(command.flags), flags, visible) == Registered(command.flags, flags[i..], visible)
      invariant command.required + RequiredNames(flags[i..], visible) ==
                old(command.required) + RequiredNames(flags, visible)
    {
      assert flags[i..][0] == flags[i] && flags[i..][1..] == flags[i + 1..];
      RegisteredNext(command.flags, flags[i..], visible);
      RequiredNext(command.required, flags[i..], visible);
      if Lookup(visible, flags[i].name).Some? {
        continue;
      }
      panicked := command.AddFlag(NewFlag(flags[i]));
      if panicked {
        return;
      }
      if flags[i].required {
        FoundAdded(command.flags, NewFlag(flags[i]));
        failed := command.MarkRequired(flags[i].name);
        if failed {
          return;
        }
      }
    }
    NothingToRegister(command.flags, command.required, visible);
    return false, false;
  }

  lemma RegisteredNext(own: seq<Flag>, rest: seq<Declared>, visible: seq<Flag>)
    requires rest != []
    ensures Registered(own, rest, visible) ==
              if !IsNew(rest[0], visible) then Registered(own, rest[1..], visible)
              else if !CanAdd(own, NewFlag(rest[0])) then None
              else Registered(own + [NewFlag(rest[0])], rest[1..], visible)
  {
    hide CanAdd, InitialValue;
  }

  lemma RequiredNext(marked: seq<string>, rest: seq<Declared>, visible: seq<Flag>)
    requires rest != []
    ensures marked + RequiredNames(rest, visible) ==
              (if IsNew(rest[0], visible) && rest[0].required then marked + [rest[0].name] else marked)
              + RequiredNames(rest[1..], visible)
  {
  }

  lemma NothingToRegister(own: seq<Flag>, marked: seq<string>, visible: seq<Flag>)
    ensures Registered(own, [], visible) == Some(own) && marked + RequiredNames([], visible) == marked
  {
  }

  lemma FoundAdded(flags: seq<Flag>, flag: Flag)
    requires flags != [] && flags[|flags| - 1] == flag
    ensures Lookup(flags, flag.name).Some?
  {
    assert flag in flags;
  }

  function NewFlags(flags: seq<Declared>, visible: seq<Flag>): seq<Flag> {
    if flags == [] then []
    else if IsNew(flags[0], visible) then [NewFlag(flags[0])] + NewFlags(flags[1..], visible)
    else NewFlags(flags[1..], visible)
  }

  /** No declared new flag has a name or shorthand of the command's own flags. */
  predicate NoClash(own: seq<Flag>, flags: seq<Declared>, visible: seq<Flag>) {
    forall f :: f in flags && IsNew(f, visible) ==> CanAdd(own, NewFlag(f))
  }

  lemma {:induction false} LookupAppend(a: seq<Flag>, b: seq<Flag>, name: string)
    ensures Lookup(a + b, name) == if Lookup(a, name).Some? then Lookup(a, name) else Lookup(b, name)
    decreases |a|
  {
    if a == [] {
      assert a + b == b;
    } else {
      assert (a + b)[1..] == a[1..] + b;
      LookupAppend(a[1..], b, name);
    }
  }

  lemma TakenAppend(own: seq<Flag>, g: Flag, shorthand: string)
    ensures ShorthandTaken(own + [g], shorthand) <==> ShorthandTaken(own, shorthand) || g.shorthand == shorthand
  {
    var all := own + [g];
    assert all[|own|] == g;
    if ShorthandTaken(own, shorthand) {
      var i :| 0 <= i < |own| && own[i].shorthand == shorthand;
      assert all[i].shorthand == shorthand;
    }
  }

  lemma AddOne(own: seq<Flag>, g: Flag, h: Flag)
    ensures CanAdd(own + [g], h) <==>
              CanAdd(own, h) && g.name != h.name && (h.shorthand == "" || g.shorthand != h.shorthand)
  {
    hide OneByte, ShorthandTaken, Lookup;
    LookupAppend(own, [g], h.name);
    LookupOne(g, h.name);
    TakenAppend(own, g, h.shorthand);
  }

  lemma LookupOne(g: Flag, name: string)
    ensures Lookup([g], name) == if g.name == name then Some(g) else None
  {
  }

  lemma StaysWellFormed(own: seq<Flag>, g: Flag)
    requires WellFormed(own) && CanAdd(own, g) && WellTyped(g.value)
    ensures WellFormed(own + [g])
  {
  }

  lemma NewIsWellTyped(flag: Declared)
    requires OwnProblem(flag).None?
    ensures WellTyped(InitialValue(flag)) && TypeOf(InitialValue(flag)) == EffectiveType(flag)
  {
  }

  lemma {:induction false} KeysCover(flags: seq<Declared>, visible: seq<Flag>, f: Declared)
    requires f in flags
    ensures f.name in AllKeys(flags, visible)
    ensures IsNew(f, visible) && f.shorthand != "" ==> f.shorthand in AllKeys(flags, visible)
    decreases |flags|
  {
    hide IsNew;
    if f != flags[0] {
      KeysCover(flags[1..], visible, f);
    } else {
      assert f.name == Keys(f, visible)[0];
      assert IsNew(f, visible) && f.shorthand != "" ==> f.shorthand == Keys(f, visible)[1];
    }
  }

  lemma DistinctParts(xs: seq<string>, ys: seq<string>)
    requires Distinct(xs + ys)
    ensures Distinct(ys) && forall x :: x in xs ==> x !in ys
  {
    var all := xs + ys;
    forall i, j | 0 <= i < j < |ys| ensures ys[i] != ys[j] {
      assert all[|xs| + i] != all[|xs| + j];
    }
    forall i, j | 0 <= i < |xs| && 0 <= j < |ys| ensures xs[i] != ys[j] {
      assert all[i] != all[|xs| + j];
    }
  }

  /** What distinct keys say about the first flag and a later one. */
  lemma LaterDiffers(flags: seq<Declared>, visible: seq<Flag>, f: Declared)
    requires flags != [] && Acceptable(flags, visible) && f in flags[1..]
    requires IsNew(f, visible) && IsNew(flags[0], visible)
    ensures f.name != flags[0].name && (f.shorthand == "" || f.shorthand != flags[0].shorthand)
  {
    hide IsNew, Suitable, Distinct;
    DistinctParts(Keys(flags[0], visible), AllKeys(flags[1..], visible));
    KeysCover(flags[1..], visible, f);
    KeysCover([flags[0]], visible, flags[0]);
    assert Keys(flags[0], visible)[0] == flags[0].name;
    assert flags[0].shorthand != "" ==> Keys(flags[0], visible)[1] == flags[0].shorthand;
  }

  lemma AcceptableRest(flags: seq<Declared>, visible: seq<Flag>)
    requires flags != [] && Acceptable(flags, visible)
    ensures Acceptable(flags[1..], visible)
  {
    hide Keys, Suitable, Distinct;
    DistinctParts(Keys(flags[0], visible), AllKeys(flags[1..], visible));
  }

  lemma NoClashStep(own: seq<Flag>, flags: seq<Declared>, visible: seq<Flag>)
    requires flags != [] && Acceptable(flags, visible) && IsNew(flags[0], visible)
    ensures NoClash(own + [NewFlag(flags[0])], flags[1..], visible) <==> NoClash(own, flags[1..], visible)
  {
    hide IsNew, Acceptable, CanAdd;
    forall f | f in flags[1..] && IsNew(f, visible)
      ensures CanAdd(own + [NewFlag(flags[0])], NewFlag(f)) <==> CanAdd(own, NewFlag(f))
    {
      LaterDiffers(flags, visible, f);
      AddOne(own, NewFlag(flags[0]), NewFlag(f));
    }
  }

  /** Accepted flags can be registered exactly when they stay clear of the command's own ones. */
  lemma {:induction false} RegisteredIff(own: seq<Flag>, flags: seq<Declared>, visible: seq<Flag>)
    requires WellFormed(own) && Acceptable(flags, visible)
    ensures Registered(own, flags, visible).Some? <==> NoClash(own, flags, visible)
    ensures Registered(own, flags, visible).Some? ==>
              && Registered(own, flags, visible).value == own + NewFlags(flags, visible)
              && WellFormed(own + NewFlags(flags, visible))
    decreases |flags|
  {
    hide IsNew, CanAdd, Suitable, WellFormed, Distinct, InitialValue;
    if flags == [] {
      assert own + NewFlags(flags, visible) == own;
    } else {
      assert forall f :: f in flags <==> f == flags[0] || f in flags[1..];
      AcceptableRest(flags, visible);
      if IsNew(flags[0], visible) {
        NoClashStep(own, flags, visible);
        if CanAdd(own, NewFlag(flags[0])) {
          OneRegistered(own, flags[0], visible);
          assert own + [NewFlag(flags[0])] + NewFlags(flags[1..], visible) == own + NewFlags(flags, visible);
          RegisteredIff(own + [NewFlag(flags[0])], flags[1..], visible);
        }
      } else {
        RegisteredIff(own, flags[1..], visible);
      }
    }
  }

  lemma OneRegistered(own: seq<Flag>, flag: Declared, visible: seq<Flag>)
    requires WellFormed(own) && Suitable(flag, visible) && CanAdd(own, NewFlag(flag))
    ensures WellFormed(own + [NewFlag(flag)])
  {
    hide WellFormed, CanAdd, InitialValue;
    NewIsWellTyped(flag);
    StaysWellFormed(own, NewFlag(flag));
  }

  // ---------------------------------------------------------------- the flags a running command sees

  /** Cobra adds the flags that parents pass down to the command's own, nearest first, unless the name is there. */
  function Merged(own: seq<Flag>, visible: seq<Flag>): Option<seq<Flag>>
    decreases |visible|
  {
    if visible == [] then Some(own)
    else if Lookup(own, visible[0].name).Some? then Merged(own, visible[1..])
    else if !CanAdd(own, visible[0]) then None
    else Merged(own + [visible[0]], visible[1..])
  }

  predicate NoShorthandClash(own: seq<Flag>, visible: seq<Flag>) {
    forall g :: g in visible && Lookup(own, g.name).None? && g.shorthand != "" ==> !ShorthandTaken(own, g.shorthand)
  }

  lemma WellFormedRest(flags: seq<Flag>)
    requires flags != [] && WellFormed(flags)
    ensures WellFormed(flags[1..])
    ensures forall g :: g in flags[1..] ==>
              g.name != flags[0].name && (g.shorthand == "" || g.shorthand != flags[0].shorthand)
  {
  }

  lemma NoShorthandClashStep(own: seq<Flag>, visible: seq<Flag>)
    requires visible != [] && WellFormed(visible)
    ensures NoShorthandClash(own + [visible[0]], visible[1..]) <==> NoShorthandClash(own, visible[1..])
  {
    hide WellFormed, ShorthandTaken, Lookup;
    WellFormedRest(visible);
    forall g | g in visible[1..]
      ensures Lookup(own + [visible[0]], g.name) == Lookup(own, g.name)
      ensures g.shorthand != "" ==>
                (ShorthandTaken(own + [visible[0]], g.shorthand) <==> ShorthandTaken(own, g.shorthand))
    {
      LookupAppend(own, [visible[0]], g.name);
      LookupOne(visible[0], g.name);
      TakenAppend(own, visible[0], g.shorthand);
    }
  }

  /** Merging works exactly without a clash of shorthands; the command's own flags come first. */
  lemma {:induction false} MergedIff(own: seq<Flag>, visible: seq<Flag>)
    requires WellFormed(own) && WellFormed(visible)
    ensures Merged(own, visible).Some? <==> NoShorthandClash(own, visible)
    ensures Merged(own, visible).Some? ==> WellFormed(Merged(own, visible).value)
    decreases |visible|
  {
    hide WellFormed, ShorthandTaken, Lookup, OneByte, WellTyped;
    if visible != [] {
      var g := visible[0];
      WellFormedRest(visible);
      FirstIsFine(visible);
      assert forall h :: h in visible <==> h == g || h in visible[1..];
      if Lookup(own, g.name).Some? {
        MergedIff(own, visible[1..]);
      } else if CanAdd(own, g) {
        NoShorthandClashStep(own, visible);
        StaysWellFormed(own, g);
        MergedIff(own + [g], visible[1..]);
      }
    }
  }

  lemma FirstIsFine(flags: seq<Flag>)
    requires flags != [] && WellFormed(flags)
    ensures WellTyped(flags[0].value) && (flags[0].shorthand == "" || OneByte(flags[0].shorthand))
  {
  }

  lemma {:induction false} LookupMerged(own: seq<Flag>, visible: seq<Flag>, name: string)
    requires Merged(own, visible).Some?
    ensures Lookup(Merged(own, visible).value, name) ==
              if Lookup(own, name).Some? then Lookup(own, name) else Lookup(visible, name)
    decreases |visible|
  {
    hide CanAdd;
    if visible != [] {
      var g := visible[0];
      if Lookup(own, g.name).Some? {
        LookupMerged(own, visible[1..], name);
      } else {
        LookupAppend(own, [g], name);
        LookupOne(g, name);
        LookupMerged(own + [g], visible[1..], name);
      }
    }
  }

  // ---------------------------------------------------------------- accepted means total, and when

  /** Registering and merging do not panic, and every declared flag is there with its type. */
  predicate Works(flags: seq<Declared>, visible: seq<Flag>) {
    && Built(flags, visible).Some?
    && (forall f :: f in flags ==> HasType(Built(flags, visible).value, f))
  }

  function Built(flags: seq<Declared>, visible: seq<Flag>): Option<seq<Flag>> {
    var own := Registered(RESERVED, flags, visible);
    if own.None? then None else Merged(own.value, visible)
  }

  predicate HasType(flags: seq<Flag>, f: Declared) {
    Lookup(flags, f.name).Some? && TypeOf(Lookup(flags, f.name).value.value) == EffectiveType(f)
  }

  predicate IsReserved(name: string) {
    name == "" || name == "identity"
  }

  /** The reserved names and the shorthand i are not taken anew, and keep their types where they are inherited. */
  predicate ClearOfReserved(f: Declared, visible: seq<Flag>) {
    if IsNew(f, visible) then !IsReserved(f.name) && f.shorthand != "i"
    else (f.name == "" ==> EffectiveType(f) == BOOL_TYPE) && (f.name == IDENTITY ==> EffectiveType(f) == STRING_TYPE)
  }

  predicate Safe(flags: seq<Declared>, visible: seq<Flag>) {
    && (forall f :: f in flags ==> ClearOfReserved(f, visible))
    && (forall g :: g in visible && g.shorthand == "i" ==> IsReserved(g.name))
  }

  lemma ReservedClash(f: Declared, visible: seq<Flag>)
    requires IsNew(f, visible) && Suitable(f, visible)
    ensures CanAdd(RESERVED, NewFlag(f)) <==> ClearOfReserved(f, visible)
  {
  }

  lemma LookupReserved(name: string)
    ensures Lookup(RESERVED, name) ==
              if name == "" then Some(RESERVED[0]) else if name == IDENTITY then Some(RESERVED[1]) else None
  {
    assert RESERVED[1..] == [RESERVED[1]];
    LookupOne(RESERVED[1], name);
  }

  lemma RegisteredIffClear(flags: seq<Declared>, visible: seq<Flag>)
    requires Acceptable(flags, visible)
    ensures Registered(RESERVED, flags, visible).Some? <==>
              forall f :: f in flags && IsNew(f, visible) ==> ClearOfReserved(f, visible)
    ensures Registered(RESERVED, flags, visible).Some? ==>
              Registered(RESERVED, flags, visible).value == RESERVED + NewFlags(flags, visible)
              && WellFormed(RESERVED + NewFlags(flags, visible))
  {
    hide IsNew, CanAdd, Suitable, Distinct, ClearOfReserved;
    ReservedIsWellFormed();
    RegisteredIff(RESERVED, flags, visible);
    forall f | f in flags && IsNew(f, visible) ensures CanAdd(RESERVED, NewFlag(f)) <==> ClearOfReserved(f, visible) {
      ReservedClash(f, visible);
    }
  }

  lemma ReservedIsWellFormed()
    ensures WellFormed(RESERVED)
  {
  }

  /** The flags that are registered are those of the declared ones that are new. */
  lemma {:induction false} NewFlagsAre(flags: seq<Declared>, visible: seq<Flag>)
    ensures forall f :: f in flags && IsNew(f, visible) ==> NewFlag(f) in NewFlags(flags, visible)
    ensures forall g :: g in NewFlags(flags, visible) ==> exists f :: f in flags && IsNew(f, visible) && NewFlag(f) == g
  {
    hide IsNew, NewFlag;
    if flags != [] {
      NewFlagsAre(flags[1..], visible);
      assert forall f :: f in flags <==> f == flags[0] || f in flags[1..];
    }
  }

  lemma NewNames(flags: seq<Declared>, visible: seq<Flag>, g: Flag)
    requires g in visible
    ensures Lookup(NewFlags(flags, visible), g.name).None?
  {
    hide InitialValue, NewFlags;
    NewFlagsAre(flags, visible);
  }

  lemma NewShorthands(flags: seq<Declared>, visible: seq<Flag>, g: Flag)
    requires g in visible && g.shorthand != "" && Acceptable(flags, visible)
    ensures !ShorthandTaken(NewFlags(flags, visible), g.shorthand)
  {
    hide InitialValue, NewFlags, IsNew, OwnProblem, OneByte, Distinct;
    NewFlagsAre(flags, visible);
    var added := NewFlags(flags, visible);
    var i :| 0 <= i < |visible| && visible[i] == g;
    assert ShorthandTaken(visible, g.shorthand);
    forall k | 0 <= k < |added| ensures added[k].shorthand != g.shorthand {
      assert added[k] in added;
      var f :| f in flags && IsNew(f, visible) && NewFlag(f) == added[k];
      assert Suitable(f, visible);
    }
  }

  lemma OwnFlagsAgainst(flags: seq<Declared>, visible: seq<Flag>, g: Flag)
    requires g in visible && Acceptable(flags, visible)
    ensures var own := RESERVED + NewFlags(flags, visible);
            && (Lookup(own, g.name).None? <==> !IsReserved(g.name))
            && (g.shorthand != "" ==> (ShorthandTaken(own, g.shorthand) <==> g.shorthand == "i"))
  {
    hide Acceptable, NewFlags;
    var fresh' := NewFlags(flags, visible);
    LookupAppend(RESERVED, fresh', g.name);
    LookupReserved(g.name);
    NewNames(flags, visible, g);
    if g.shorthand != "" {
      NewShorthands(flags, visible, g);
      TakenAfterReserved(fresh', g.shorthand);
    }
  }

  lemma TakenAfterReserved(more: seq<Flag>, shorthand: string)
    requires shorthand != ""
    ensures ShorthandTaken(RESERVED + more, shorthand) <==> shorthand == "i" || ShorthandTaken(more, shorthand)
  {
    var all := RESERVED + more;
    assert all[1].shorthand == "i" && all[0].shorthand == "";
    forall i | 0 <= i < |more| ensures all[i + 2] == more[i] {
    }
    if ShorthandTaken(all, shorthand) && shorthand != "i" {
      var i :| 0 <= i < |all| && all[i].shorthand == shorthand;
      assert more[i - 2].shorthand == shorthand;
    }
  }

  lemma BuiltIff(flags: seq<Declared>, visible: seq<Flag>)
    requires WellFormed(visible) && Acceptable(flags, visible)
    ensures Built(flags, visible).Some? <==>
              && (forall f :: f in flags && IsNew(f, visible) ==> ClearOfReserved(f, visible))
              && (forall g :: g in visible && g.shorthand == "i" ==> IsReserved(g.name))
    ensures Built(flags, visible).Some? ==> WellFormed(Built(flags, visible).value)
  {
    hide Acceptable, WellFormed, NewFlags, ClearOfReserved, IsNew, IsReserved, ShorthandTaken, Lookup;
    RegisteredIffClear(flags, visible);
    if Registered(RESERVED, flags, visible).Some? {
      var own := RESERVED + NewFlags(flags, visible);
      MergedIff(own, visible);
      forall g | g in visible
        ensures Lookup(own, g.name).None? <==> !IsReserved(g.name)
        ensures g.shorthand != "" ==> (ShorthandTaken(own, g.shorthand) <==> g.shorthand == "i")
      {
        OwnFlagsAgainst(flags, visible, g);
      }
    }
  }

  lemma {:induction false} LookupUnique(flags: seq<Flag>, g: Flag)
    requires WellFormed(flags) && g in flags
    ensures Lookup(flags, g.name) == Some(g)
  {
    hide OneByte, WellTyped;
    if flags[0] != g {
      WellFormedRest(flags);
      LookupUnique(flags[1..], g);
    }
  }

  lemma OwnHasType(flags: seq<Declared>, visible: seq<Flag>, f: Declared)
    requires f in flags && Acceptable(flags, visible) && IsNew(f, visible)
    requires Registered(RESERVED, flags, visible).Some?
    ensures Lookup(RESERVED + NewFlags(flags, visible), f.name) == Some(NewFlag(f))
    ensures TypeOf(NewFlag(f).value) == EffectiveType(f)
  {
    hide WellFormed, IsNew, NewFlags, InitialValue, EffectiveType, Distinct, Lookup;
    var own := RESERVED + NewFlags(flags, visible);
    RegisteredIffClear(flags, visible);
    NewFlagsAre(flags, visible);
    assert NewFlag(f) in own;
    LookupUnique(own, NewFlag(f));
    NewIsWellTyped(f);
  }

  lemma HasTypeIff(flags: seq<Declared>, visible: seq<Flag>, f: Declared)
    requires WellFormed(visible) && Acceptable(flags, visible) && f in flags && Built(flags, visible).Some?
    ensures HasType(Built(flags, visible).value, f) <==> ClearOfReserved(f, visible)
  {
    hide WellFormed, NewFlags, Acceptable, EffectiveType, Lookup;
    var own := RESERVED + NewFlags(flags, visible);
    RegisteredIffClear(flags, visible);
    LookupMerged(own, visible, f.name);
    if IsNew(f, visible) {
      OwnHasType(flags, visible, f);
    } else {
      var g := Lookup(visible, f.name).value;
      FoundIsThere(visible, f.name);
      AcceptedSuits(flags, visible, f);
      LookupAppend(RESERVED, NewFlags(flags, visible), f.name);
      LookupReserved(f.name);
      NewNames(flags, visible, g);
    }
  }

  lemma FoundIsThere(flags: seq<Flag>, name: string)
    requires Lookup(flags, name).Some?
    ensures Lookup(flags, name).value in flags && Lookup(flags, name).value.name == name
  {
  }

  lemma AcceptedSuits(flags: seq<Declared>, visible: seq<Flag>, f: Declared)
    requires Acceptable(flags, visible) && f in flags
    ensures Suitable(f, visible)
  {
  }

  /** Flags that validation accepts can be registered and used exactly when they are safe beside the reserved ones. */
  lemma {:induction false} AcceptedFlagsWork(flags: seq<Declared>, visible: seq<Flag>)
    requires WellFormed(visible) && Validated(flags, [], visible) == Accept
    ensures Works(flags, visible) <==> Safe(flags, visible)
    ensures Works(flags, visible) ==> WellFormed(Built(flags, visible).value)
  {
    hide WellFormed, Acceptable, Validated, IsNew, ClearOfReserved, Built, HasType, IsReserved;
    AcceptedIff(flags, visible);
    BuiltIff(flags, visible);
    if Built(flags, visible).Some? {
      forall f | f in flags ensures HasType(Built(flags, visible).value, f) <==> ClearOfReserved(f, visible) {
        HasTypeIff(flags, visible, f);
      }
    }
  }

  /** The root command has a flag identity without a shorthand; -i passes validation there and panics. */
  lemma ShorthandOfIdentityPanics()
    ensures var root, flags := [Flag(IDENTITY, "", Text(""))], [Declared("input", "i", "", Missing, false, false)];
            Validated(flags, [], root) == Accept && Registered(RESERVED, flags, root).None?
  {
    var root, flag := [Flag(IDENTITY, "", Text(""))], Declared("input", "i", "", Missing, false, false);
    assert FlagVerdict(flag, [], root) == Accept;
    assert RESERVED[1].shorthand == "i";
    assert ShorthandTaken(RESERVED, NewFlag(flag).shorthand);
  }

  // ---------------------------------------------------------------- the help flag

  /** When a command runs, Cobra adds this flag to the merged ones unless the name is there. */
  const HELP := Flag("help", "h", Bool(false))

  function WithHelp(flags: seq<Flag>): Option<seq<Flag>> {
    if Lookup(flags, HELP.name).Some? then Some(flags)
    else if CanAdd(flags, HELP) then Some(flags + [HELP])
    else None
  }

  /** The flags of the command when it runs, before the command line is parsed; None where a step panics. */
  function Ready(flags: seq<Declared>, visible: seq<Flag>): Option<seq<Flag>> {
    var built := Built(flags, visible);
    if built.None? then None else WithHelp(built.value)
  }

  /** The command can run: nothing panics, every declared flag has its type, and the help flag reads as a boolean. */
  predicate CanRun(flags: seq<Declared>, visible: seq<Flag>) {
    && Ready(flags, visible).Some?
    && (forall f :: f in flags ==> HasType(Ready(flags, visible).value, f))
    && Lookup(Ready(flags, visible).value, HELP.name).Some?
    && IsBool(Lookup(Ready(flags, visible).value, HELP.name).value)
  }

  /** GetBool reads it. */
  predicate IsBool(flag: Flag) {
    TypeOf(flag.value) == BOOL_TYPE
  }

  predicate HelpGiven(flags: seq<Declared>, visible: seq<Flag>) {
    Lookup(visible, "help").Some? || exists f :: f in flags && f.name == "help"
  }

  /** A flag named help is boolean; where there is none, nothing that is added has the shorthand h. */
  predicate ClearOfHelp(flags: seq<Declared>, visible: seq<Flag>) {
    if HelpGiven(flags, visible) then
      && (Lookup(visible, "help").Some? ==> IsBool(Lookup(visible, "help").value))
      && (forall f :: f in flags && f.name == "help" ==> EffectiveType(f) == "bool")
    else
      && (forall f :: f in flags && IsNew(f, visible) ==> f.shorthand != "h")
      && (forall g :: g in visible && g.shorthand == "h" ==> IsReserved(g.name))
  }

  /** What the merged flags hold under a name: the own flags first, then the inherited ones. */
  lemma BuiltHelp(flags: seq<Declared>, visible: seq<Flag>)
    requires WellFormed(visible) && Acceptable(flags, visible) && Built(flags, visible).Some?
    requires forall f :: f in flags ==> HasType(Built(flags, visible).value, f)
    ensures var found := Lookup(Built(flags, visible).value, HELP.name);
            && (found.Some? <==> HelpGiven(flags, visible))
            && (found.Some? ==> (IsBool(found.value) <==> ClearOfHelp(flags, visible)))
  {
    hide WellFormed, Acceptable, NewFlags, Built, EffectiveType, IsNew;
    RegisteredIffClear(flags, visible);
    BuiltLookup(flags, visible, HELP.name);
    NewHelp(flags, visible);
  }

  lemma BuiltLookup(flags: seq<Declared>, visible: seq<Flag>, name: string)
    requires Acceptable(flags, visible) && Built(flags, visible).Some? && !IsReserved(name)
    ensures Lookup(Built(flags, visible).value, name) ==
              if Lookup(NewFlags(flags, visible), name).Some? then Lookup(NewFlags(flags, visible), name)
              else Lookup(visible, name)
  {
    hide Acceptable, NewFlags, Lookup;
    RegisteredIffClear(flags, visible);
    LookupMerged(RESERVED + NewFlags(flags, visible), visible, name);
    LookupAppend(RESERVED, NewFlags(flags, visible), name);
    LookupReserved(name);
  }

  lemma NewHelp(flags: seq<Declared>, visible: seq<Flag>)
    ensures Lookup(NewFlags(flags, visible), HELP.name).Some? <==>
              Lookup(visible, HELP.name).None? && exists f :: f in flags && f.name == HELP.name
  {
    hide NewFlags, InitialValue;
    NewFlagsAre(flags, visible);
    var added := NewFlags(flags, visible);
    if exists f :: f in flags && f.name == HELP.name && IsNew(f, visible) {
      var f :| f in flags && f.name == HELP.name && IsNew(f, visible);
      assert NewFlag(f) in added;
    }
  }

  /** Without a help flag, the shorthand h is taken by the added flags or by the inherited ones that are merged in. */
  lemma HelpCanBeAdded(flags: seq<Declared>, visible: seq<Flag>)
    requires WellFormed(visible) && Acceptable(flags, visible) && Built(flags, visible).Some?
    requires Lookup(Built(flags, visible).value, HELP.name).None? && !HelpGiven(flags, visible)
    ensures CanAdd(Built(flags, visible).value, HELP) <==> ClearOfHelp(flags, visible)
  {
    hide WellFormed, Acceptable, NewFlags, Built, EffectiveType, Lookup;
    BuiltShorthand(flags, visible, HELP.shorthand);
    NewFlagsAre(flags, visible);
    var added := NewFlags(flags, visible);
    if ShorthandTaken(added, HELP.shorthand) {
      var i :| 0 <= i < |added| && added[i].shorthand == HELP.shorthand;
      assert added[i] in added;
    }
    forall f | f in flags && IsNew(f, visible) && f.shorthand == HELP.shorthand
      ensures ShorthandTaken(added, HELP.shorthand)
    {
      assert NewFlag(f) in added;
    }
  }

  lemma BuiltShorthand(flags: seq<Declared>, visible: seq<Flag>, shorthand: string)
    requires WellFormed(visible) && Acceptable(flags, visible) && Built(flags, visible).Some?
    requires shorthand != "" && shorthand != "i"
    ensures ShorthandTaken(Built(flags, visible).value, shorthand) <==>
              || ShorthandTaken(NewFlags(flags, visible), shorthand)
              || exists g :: g in visible && g.shorthand == shorthand && !IsReserved(g.name)
  {
    hide WellFormed, Acceptable, NewFlags, Lookup, ShorthandTaken, IsReserved;
    var own := RESERVED + NewFlags(flags, visible);
    RegisteredIffClear(flags, visible);
    MergedShorthand(own, visible, shorthand);
    TakenAfterReserved(NewFlags(flags, visible), shorthand);
    forall g | g in visible ensures Lookup(own, g.name).None? <==> !IsReserved(g.name) {
      OwnFlagsAgainst(flags, visible, g);
    }
  }

  lemma {:induction false} MergedShorthand(own: seq<Flag>, visible: seq<Flag>, shorthand: string)
    requires WellFormed(visible) && Merged(own, visible).Some?
    ensures ShorthandTaken(Merged(own, visible).value, shorthand) <==>
              || ShorthandTaken(own, shorthand)
              || exists g :: g in visible && g.shorthand == shorthand && Lookup(own, g.name).None?
    decreases |visible|
  {
    hide CanAdd, WellFormed, Lookup, ShorthandTaken;
    if visible != [] {
      var g := visible[0];
      WellFormedRest(visible);
      assert forall h :: h in visible <==> h == g || h in visible[1..];
      if Lookup(own, g.name).Some? {
        MergedShorthand(own, visible[1..], shorthand);
      } else {
        MergedShorthand(own + [g], visible[1..], shorthand);
        TakenAppend(own, g, shorthand);
        forall h | h in visible[1..] ensures Lookup(own + [g], h.name) == Lookup(own, h.name) {
          LookupAppend(own, [g], h.name);
          LookupOne(g, h.name);
        }
      }
    }
  }

  lemma HelpKeepsTypes(flags: seq<Flag>, f: Declared)
    requires WithHelp(flags).Some? && HasType(flags, f)
    ensures HasType(WithHelp(flags).value, f)
  {
    hide CanAdd, EffectiveType;
    LookupAppend(flags, [HELP], f.name);
  }

  lemma HelpChangesNoOther(flags: seq<Flag>, f: Declared)
    requires WithHelp(flags).Some? && HasType(WithHelp(flags).value, f) && f.name != HELP.name
    ensures HasType(flags, f)
  {
    hide CanAdd, EffectiveType;
    LookupAppend(flags, [HELP], f.name);
    LookupOne(HELP, f.name);
  }

  /** Accepted flags let their command run exactly when they are safe and clear of the help flag. */
  lemma {:induction false} AcceptedFlagsRun(flags: seq<Declared>, visible: seq<Flag>)
    requires WellFormed(visible) && Validated(flags, [], visible) == Accept
    ensures CanRun(flags, visible) <==> Safe(flags, visible) && ClearOfHelp(flags, visible)
  {
    hide WellFormed, Acceptable, Validated, IsNew, Safe, ClearOfHelp, Built, HasType, EffectiveType, CanAdd, HelpGiven;
    AcceptedIff(flags, visible);
    AcceptedFlagsWork(flags, visible);
    if Works(flags, visible) {
      WorkingRuns(flags, visible);
    } else if CanRun(flags, visible) {
      RunningWorks(flags, visible);
    }
  }

  lemma WorkingRuns(flags: seq<Declared>, visible: seq<Flag>)
    requires WellFormed(visible) && Acceptable(flags, visible) && Works(flags, visible)
    ensures CanRun(flags, visible) <==> ClearOfHelp(flags, visible)
  {
    hide WellFormed, Acceptable, IsNew, ClearOfHelp, Built, HasType, EffectiveType, CanAdd, HelpGiven, Lookup;
    var built := Built(flags, visible).value;
    BuiltHelp(flags, visible);
    if Lookup(built, HELP.name).None? {
      HelpCanBeAdded(flags, visible);
      LookupAppend(built, [HELP], HELP.name);
      LookupOne(HELP, HELP.name);
    }
    if WithHelp(built).Some? {
      forall f | f in flags ensures HasType(WithHelp(built).value, f) {
        HelpKeepsTypes(built, f);
      }
    }
  }

  lemma RunningWorks(flags: seq<Declared>, visible: seq<Flag>)
    requires WellFormed(visible) && Acceptable(flags, visible) && CanRun(flags, visible)
    ensures Works(flags, visible)
  {
    hide WellFormed, Acceptable, Built, EffectiveType, CanAdd, Lookup;
    var built := Built(flags, visible).value;
    forall f | f in flags ensures HasType(built, f) {
      if f.name == HELP.name {
        DeclaredIsThere(flags, visible, f);
      } else {
        HelpChangesNoOther(built, f);
      }
    }
  }

  lemma DeclaredIsThere(flags: seq<Declared>, visible: seq<Flag>, f: Declared)
    requires Acceptable(flags, visible) && Built(flags, visible).Some? && f in flags && f.name == HELP.name
    ensures Lookup(Built(flags, visible).value, HELP.name).Some?
  {
    hide Acceptable, NewFlags, Lookup;
    BuiltLookup(flags, visible, HELP.name);
    NewHelp(flags, visible);
  }

  /** A flag with the shorthand h is accepted and works, but its command panics when it runs. */
  lemma ShorthandOfHelpPanics()
    ensures var root, flags := [Flag(IDENTITY, "", Text(""))], [Declared("host", "h", "", Missing, false, false)];
            Validated(flags, [], root) == Accept && Works(flags, root) && Ready(flags, root).None?
  {
    var root, flag := [Flag(IDENTITY, "", Text(""))], Declared("host", "h", "", Missing, false, false);
    assert FlagVerdict(flag, [], root) == Accept;
    assert Validated([flag], [], root) == Accept;
    assert Safe([flag], root) by {
      assert flag.name != IDENTITY;
    }
    AcceptedFlagsWork([flag], root);
    AcceptedIff([flag], root);
    assert !HelpGiven([flag], root);
    assert !ClearOfHelp([flag], root) by {
      assert flag in [flag];
    }
    hide Validated, Safe, ClearOfHelp, Built, HasType, Acceptable;
    BuiltHelp([flag], root);
    HelpCanBeAdded([flag], root);
  }

  // ---------------------------------------------------------------- nested commands

  /** Every command's flags are accepted, from the outermost command inwards; each sees what is built above it. */
  predicate AllAccepted(levels: seq<seq<Declared>>, visible: seq<Flag>)
    decreases |levels|
  {
    levels == [] ||
    (Validated(levels[0], [], visible) == Accept
    && (Built(levels[0], visible).Some? ==> AllAccepted(levels[1..], Built(levels[0], visible).value)))
  }

  predicate AllWork(levels: seq<seq<Declared>>, visible: seq<Flag>)
    decreases |levels|
  {
    levels == [] || (Works(levels[0], visible) && AllWork(levels[1..], Built(levels[0], visible).value))
  }

  /** The flags that a custom command passes down. */
  predicate BelowCustom(visible: seq<Flag>) {
    && WellFormed(visible)
    && Lookup(visible, "") == Some(RESERVED[0])
    && Lookup(visible, IDENTITY) == Some(RESERVED[1])
  }

  lemma BuiltIsBelowCustom(flags: seq<Declared>, visible: seq<Flag>)
    requires WellFormed(visible) && Validated(flags, [], visible) == Accept && Built(flags, visible).Some?
    ensures BelowCustom(Built(flags, visible).value)
  {
    hide WellFormed, Acceptable, Validated, NewFlags, Lookup;
    AcceptedIff(flags, visible);
    BuiltIff(flags, visible);
    RegisteredIffClear(flags, visible);
    var own := RESERVED + NewFlags(flags, visible);
    forall name | IsReserved(name)
      ensures Lookup(Built(flags, visible).value, name) == Lookup(RESERVED, name)
    {
      LookupReserved(name);
      LookupAppend(RESERVED, NewFlags(flags, visible), name);
      LookupMerged(own, visible, name);
    }
    LookupReserved("");
    LookupReserved(IDENTITY);
  }

  lemma TakenBy(flags: seq<Flag>, g: Flag, h: Flag)
    requires WellFormed(flags) && g in flags && h in flags && g.shorthand == h.shorthand != ""
    ensures g == h && ShorthandTaken(flags, g.shorthand)
  {
    hide OneByte, WellTyped;
    var i :| 0 <= i < |flags| && flags[i] == g;
    var j :| 0 <= j < |flags| && flags[j] == h;
    assert flags[i].shorthand == g.shorthand;
  }

  /** Below a custom command, validation itself keeps the declared flags clear of the reserved ones. */
  lemma BelowCustomIsSafe(flags: seq<Declared>, visible: seq<Flag>)
    requires BelowCustom(visible) && Validated(flags, [], visible) == Accept
    ensures Safe(flags, visible)
  {
    hide WellFormed, Validated, Distinct, OneByte, OwnProblem, EffectiveType, Lookup, ShorthandTaken;
    AcceptedIff(flags, visible);
    FoundIsThere(visible, IDENTITY);
    var identity := RESERVED[1];
    TakenBy(visible, identity, identity);
    forall g | g in visible && g.shorthand == "i" ensures IsReserved(g.name) {
      TakenBy(visible, g, identity);
    }
  }

  lemma {:induction false} BelowCustomAllWork(levels: seq<seq<Declared>>, visible: seq<Flag>)
    requires BelowCustom(visible) && AllAccepted(levels, visible)
    ensures AllWork(levels, visible)
    decreases |levels|
  {
    hide BelowCustom, Validated, Safe, Built;
    if levels != [] {
      OneLevelBelow(levels[0], visible);
      BuiltIsBelowCustom(levels[0], visible);
      BelowCustomAllWork(levels[1..], Built(levels[0], visible).value);
    }
  }

  lemma OneLevelBelow(flags: seq<Declared>, visible: seq<Flag>)
    requires BelowCustom(visible) && Validated(flags, [], visible) == Accept
    ensures WellFormed(visible) && Works(flags, visible)
  {
    hide Validated, Safe, Works, WellFormed;
    BelowCustomIsSafe(flags, visible);
    AcceptedFlagsWork(flags, visible);
  }

  /** To any depth, accepted flags all work exactly when those of the outermost custom command are safe. */
  lemma {:induction false} NestedFlagsWork(levels: seq<seq<Declared>>, visible: seq<Flag>)
    requires levels != [] && WellFormed(visible) && AllAccepted(levels, visible)
    ensures AllWork(levels, visible) <==> Safe(levels[0], visible)
  {
    hide WellFormed, Validated, Safe, Built, BelowCustom;
    AcceptedFlagsWork(levels[0], visible);
    if Works(levels[0], visible) {
      BuiltIsBelowCustom(levels[0], visible);
      BelowCustomAllWork(levels[1..], Built(levels[0], visible).value);
    }
  }

  predicate AllRun(levels: seq<seq<Declared>>, visible: seq<Flag>)
    decreases |levels|
  {
    levels == [] || (CanRun(levels[0], visible) && AllRun(levels[1..], Built(levels[0], visible).value))
  }

  predicate AllClearOfHelp(levels: seq<seq<Declared>>, visible: seq<Flag>)
    decreases |levels|
  {
    levels == [] ||
    (ClearOfHelp(levels[0], visible)
    && (Built(levels[0], visible).Some? ==> AllClearOfHelp(levels[1..], Built(levels[0], visible).value)))
  }

  lemma {:induction false} RunIsWork(levels: seq<seq<Declared>>, visible: seq<Flag>)
    requires WellFormed(visible) && AllAccepted(levels, visible)
    ensures AllRun(levels, visible) <==> AllWork(levels, visible) && AllClearOfHelp(levels, visible)
    decreases |levels|
  {
    hide WellFormed, Validated, Safe, ClearOfHelp, HasType, Built, Lookup, EffectiveType;
    if levels != [] {
      AcceptedFlagsWork(levels[0], visible);
      AcceptedFlagsRun(levels[0], visible);
      if Works(levels[0], visible) {
        RunIsWork(levels[1..], Built(levels[0], visible).value);
      }
    }
  }

  /**
  To any depth, the commands with accepted flags all can run exactly when the flags of the outermost one are
  safe and those of each are clear of the help flag.
   */
  lemma {:induction false} NestedFlagsRun(levels: seq<seq<Declared>>, visible: seq<Flag>)
    requires levels != [] && WellFormed(visible) && AllAccepted(levels, visible)
    ensures AllRun(levels, visible) <==> Safe(levels[0], visible) && AllClearOfHelp(levels, visible)
  {
    hide WellFormed, Validated, Safe, ClearOfHelp, Built, CanRun, Works;
    RunIsWork(levels, visible);
    NestedFlagsWork(levels, visible);
  }

  // ---------------------------------------------------------------- reading the values back

  /** Parsing a command line changes values, each within its type. */
  predicate Parsed(before: seq<Flag>, after: seq<Flag>) {
    && |before| == |after|
    && (forall i :: 0 <= i < |before| ==>
          && after[i].name == before[i].name
          && TypeOf(after[i].value) == TypeOf(before[i].value)
          && WellTyped(after[i].value))
  }

  /** One flag's value, read through its printed form as its declared type. */
  function ReadValue(f: Declared, v: Value): Option<Value> {
    if EffectiveType(f) == BOOL_TYPE then
      var on := ParseBool(Printed(v));
      if on.None? then None else Some(Bool(on.value))
    else if EffectiveType(f) == INT_TYPE then
      var n := Atoi(ContextText.TrimSpace(Printed(v)));
      if n.None? then None else Some(Int(n.value))
    else Some(Text(Printed(v)))
  }

  /** The method stops, without data, at the first flag that is missing or does not read as its type. */
  method ExtractFlags(flags: seq<Declared>, current: seq<Flag>) returns (flagsData: Option<map<string, Value>>)
    ensures flagsData.Some? <==>
              forall f :: f in flags ==>
                Lookup(current, f.name).Some? && ReadValue(f, Lookup(current, f.name).value.value).Some?
    ensures flagsData.Some? && (forall i, j :: 0 <= i < j < |flags| ==> flags[i].name != flags[j].name) ==>
              forall f :: f in flags ==>
                && f.name in flagsData.value
                && Some(flagsData.value[f.name]) == ReadValue(f, Lookup(current, f.name).value.value)
  {
    hide ReadValue, Lookup;
    var data: map<string, Value> := map[];
    for i := 0 to |flags|
      invariant forall k :: 0 <= k < i ==> ReadsAs(flags[k], current)
      invariant (forall k, l :: 0 <= k < l < |flags| ==> flags[k].name != flags[l].name) ==>
          forall k :: 0 <= k < i ==> flags[k].name in data && Some(data[flags[k].name]) == ReadBack(flags[k], current)
    {
      var flag := Lookup(current, flags[i].name);
      if flag.None? {
        assert flags[i] in flags;
        return None;
      }
      var value := ReadValue(flags[i], flag.value.value);
      if value.None? {
        assert flags[i] in flags;
        return None;
      }
      data := data[flags[i].name := value.value];
    }
    return Some(data);
  }

  predicate ReadsAs(f: Declared, current: seq<Flag>) {
    Lookup(current, f.name).Some? && ReadValue(f, Lookup(current, f.name).value.value).Some?
  }

  function ReadBack(f: Declared, current: seq<Flag>): Option<Value> {
    if Lookup(current, f.name).Some? then ReadValue(f, Lookup(current, f.name).value.value) else None
  }

  /** A value of the declared type reads back as itself. */
  lemma ReadsItself(f: Declared, v: Value)
    requires OwnProblem(f).None? && WellTyped(v) && TypeOf(v) == EffectiveType(f)
    ensures ReadValue(f, v) == Some(v)
  {
    hide Atoi, ContextText.TrimSpace, Itoa, IntDefault;
    if v.Int? {
      AtoiOfItoa(v.n);
    }
  }

  lemma {:induction false} LookupParsed(before: seq<Flag>, after: seq<Flag>, name: string)
    requires Parsed(before, after) && Lookup(before, name).Some?
    ensures Lookup(after, name).Some? && WellTyped(Lookup(after, name).value.value)
    ensures TypeOf(Lookup(after, name).value.value) == TypeOf(Lookup(before, name).value.value)
  {
    hide WellTyped, TypeOf;
    if before[0].name != name {
      LookupParsed(before[1..], after[1..], name);
    }
  }

  /** Accepted flags whose command runs always read back, as the values that the command line left in them. */
  lemma RunningFlagsReadBack(flags: seq<Declared>, visible: seq<Flag>, current: seq<Flag>, f: Declared)
    requires WellFormed(visible) && Validated(flags, [], visible) == Accept && f in flags
    requires CanRun(flags, visible) && Parsed(Ready(flags, visible).value, current)
    ensures ReadsAs(f, current) && ReadBack(f, current) == Some(Lookup(current, f.name).value.value)
  {
    hide WellFormed, Validated, Safe, Parsed, ReadValue, OwnProblem, Lookup, TypeOf, Ready, Distinct;
    AcceptedIff(flags, visible);
    assert HasType(Ready(flags, visible).value, f);
    LookupParsed(Ready(flags, visible).value, current, f.name);
    ReadsItself(f, Lookup(current, f.name).value.value);
  }

  // ---------------------------------------------------------------- flags that the command line leaves alone

  /** What a declared default stands for; the text of an integer default is read in base 10, blank text as 0. */
  predicate IsDefaultOf(f: Declared, v: Value) {
    match f.default'
    case OnOff(on) => v == Bool(on)
    case Whole(n) => v == Int(n)
    case Words(text) =>
      if f.kind == "int" then
        && v.Int?
        && (ContextText.TrimSpace(text) == "" ==> v.n == 0)
        && (InRange(v.n) && (ContextText.TrimSpace(text) != "" ==> Atoi(ContextText.TrimSpace(text)) == Some(v.n)))
      else v == Text(text)
    case Missing => v == if f.kind == "bool" then Bool(false) else if f.kind == "int" then Int(0) else Text("")
    case Unusable => false
  }

  lemma InitialIsDefault(f: Declared)
    requires OwnProblem(f).None?
    ensures IsDefaultOf(f, InitialValue(f))
  {
    hide ContextText.TrimSpace, Number;
  }

  lemma NewFlagIsReady(flags: seq<Declared>, visible: seq<Flag>, f: Declared)
    requires WellFormed(visible) && Acceptable(flags, visible) && f in flags && IsNew(f, visible)
    requires Ready(flags, visible).Some?
    ensures Lookup(Ready(flags, visible).value, f.name) == Some(NewFlag(f))
  {
    hide WellFormed, Acceptable, NewFlags, InitialValue, EffectiveType, Lookup, CanAdd;
    OwnHasType(flags, visible, f);
    RegisteredIffClear(flags, visible);
    LookupMerged(RESERVED + NewFlags(flags, visible), visible, f.name);
    LookupAppend(Built(flags, visible).value, [HELP], f.name);
  }

  lemma ReadyIsParsed(flags: seq<Declared>, visible: seq<Flag>)
    requires WellFormed(visible) && Acceptable(flags, visible) && Ready(flags, visible).Some?
    ensures Parsed(Ready(flags, visible).value, Ready(flags, visible).value)
  {
    hide Acceptable, OneByte, Lookup, CanAdd, Built;
    BuiltIff(flags, visible);
  }

  /**
  A new accepted flag of a command that runs is there under its name and shorthand, and where the command line
  leaves it alone its declared default is read.
   */
  lemma UntouchedFlagReads(flags: seq<Declared>, visible: seq<Flag>, f: Declared)
    requires WellFormed(visible) && Validated(flags, [], visible) == Accept && f in flags && IsNew(f, visible)
    requires CanRun(flags, visible)
    ensures var ready := Ready(flags, visible).value;
            && Lookup(ready, f.name).Some?
            && Lookup(ready, f.name).value.name == f.name && Lookup(ready, f.name).value.shorthand == f.shorthand
            && ReadBack(f, ready).Some? && IsDefaultOf(f, ReadBack(f, ready).value)
  {
    hide WellFormed, Validated, Parsed, ReadValue, OwnProblem, Lookup, Ready, Distinct, InitialValue, IsDefaultOf;
    AcceptedIff(flags, visible);
    NewFlagIsReady(flags, visible, f);
    ReadyIsParsed(flags, visible);
    RunningFlagsReadBack(flags, visible, Ready(flags, visible).value, f);
    InitialIsDefault(f);
  }
}
