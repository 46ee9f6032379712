/**
Two scanners over leading root flags. isVersionCommandWithArgs (cmd/cmd_utils.go) advances an index,
skipLeadingRootFlags (cmd/root.go) reslices the argument list; they accept the same grammar.
 */
module RootFlags {
  import opened Options
  import opened Text

  const EQUALS := "="

  const BOOL_FLAGS: set<string> := {
    "--ai", "--force-color", "--force-tty", "--heatmap", "--help", "-h", "--interactive", "--mask",
    "--no-color", "--logs-color", "--profiler-enabled", "--verbose", "-v"
  }

  const VALUE_FLAGS: set<string> := {
    "--base-path", "--chdir", "-C", "--config", "--config-path", "--heatmap-mode", "--identity",
    "--logs-file", "--logs-level", "--pager", "--profile", "--profile-file", "--profile-type",
    "--profiler-host", "--profiler-port", "--redirect-stderr", "--settings-list-merge-strategy",
    "--skill", "--use-version"
  }

  // ---------------------------------------------------------------- one argument

  /** strings.SplitN(arg, "=", 2)[0]. */
  function FlagName(arg: string): string {
    var i := Index(arg, EQUALS);
    if i == -1 then arg else arg[..i]
  }

  predicate IsRootBoolFlag(arg: string) {
    FlagName(arg) in BOOL_FLAGS
  }

  predicate IsRootValueFlag(arg: string) {
    FlagName(arg) in VALUE_FLAGS
  }

  predicate IsSkippable(arg: string) {
    IsRootBoolFlag(arg) || IsRootValueFlag(arg) || ("-C" <= arg && arg != "-C")
  }

  /** A value flag without an inline value takes the next argument. */
  predicate ConsumesValue(arg: string) {
    !IsRootBoolFlag(arg) && IsRootValueFlag(arg) && !Contains(arg, EQUALS)
  }

  method IsSkippableRootFlag(arg: string) returns (skip: bool, consumesValue: bool)
    ensures skip == IsSkippable(arg) && consumesValue == ConsumesValue(arg)
  {
    if IsRootBoolFlag(arg) {
      return true, false;
    }
    if IsRootValueFlag(arg) {
      return true, !Contains(arg, EQUALS);
    }
    if "-C" <= arg && arg != "-C" {
      return true, false;
    }
    return false, false;
  }

  /** Simple case folding, as far as it reaches the letters of the two literals. */
  function Fold(c: char): char {
    if 'A' <= c <= 'Z' then c - 'A' + 'a' else if c == '\U{017F}' then 's' else c
  }

  predicate EqualFold(s: string, lower: string) {
    |s| == |lower| && forall i :: 0 <= i < |s| ==> Fold(s[i]) == lower[i]
  }

  predicate IsBoolLiteral(value: string) {
    EqualFold(value, "true") || EqualFold(value, "false")
  }

  predicate IsBareBoolFlag(arg: string) {
    IsRootBoolFlag(arg) && !Contains(arg, EQUALS)
  }

  predicate BoolFlagHasSeparateValue(arg: string, args: seq<string>, i: nat) {
    IsBareBoolFlag(arg) && i + 1 < |args| && IsBoolLiteral(args[i + 1])
  }

  // ---------------------------------------------------------------- the reslicing scanner

  /** How many arguments the first, skippable one takes; a value that is missing counts. */
  function Width(args: seq<string>): (n: nat)
    requires args != []
    ensures 1 <= n <= 2
  {
    if ConsumesValue(args[0]) || BoolFlagHasSeparateValue(args[0], args, 0) then 2 else 1
  }

  /** What is left behind the leading root flags; None at "--" or where a flag's value is missing. */
  function Skip(args: seq<string>): Option<seq<string>>
    decreases |args|
  {
    if args == [] then Some([])
    else if args[0] == "--" then None
    else if !IsSkippable(args[0]) then Some(args)
    else if Width(args) > |args| then None
    else Skip(args[Width(args)..])
  }

  method SkipLeadingRootFlags(all: seq<string>) returns (rest: seq<string>, ok: bool)
    ensures ok == Skip(all).Some?
    ensures rest == if ok then Skip(all).value else []
  {
    hide IsSkippable, ConsumesValue, IsBareBoolFlag, IsBoolLiteral;
    var args := all;
    while |args| > 0
      invariant Skip(args) == Skip(all)
      decreases |args|
    {
      if args[0] == "--" {
        return [], false;
      }
      var skip, consumesValue := IsSkippableRootFlag(args[0]);
      if !skip {
        break;
      }
      if !consumesValue && BoolFlagHasSeparateValue(args[0], args, 0) {
        args := args[2..];
        continue;
      }
      if consumesValue {
        if |args| < 2 {
          return [], false;
        }
        args := args[2..];
        continue;
      }
      args := args[1..];
    }
    return args, true;
  }

  // ---------------------------------------------------------------- what is skipped, shape by shape

  predicate Plain(name: string) {
    '=' !in name && name != "--"
  }

  lemma BoolFlagsArePlain(name: string)
    requires name in BOOL_FLAGS
    ensures Plain(name)
  {
    assert Plain("--ai") && Plain("--force-color") && Plain("--force-tty");
    assert Plain("--heatmap") && Plain("--help") && Plain("-h");
    assert Plain("--interactive") && Plain("--mask") && Plain("--no-color");
    assert Plain("--logs-color") && Plain("--profiler-enabled") && Plain("--verbose");
    assert Plain("-v");
    hide Plain;
  }

  lemma FirstPlainNames()
    ensures Plain("--base-path") && Plain("--chdir") && Plain("-C")
    ensures Plain("--config") && Plain("--config-path") && Plain("--heatmap-mode")
    ensures Plain("--identity")
  {
  }

  lemma MorePlainNames()
    ensures Plain("--logs-file") && Plain("--logs-level") && Plain("--pager")
    ensures Plain("--profile") && Plain("--profile-file") && Plain("--profile-type")
  {
  }

  lemma LastPlainNames()
    ensures Plain("--profiler-host") && Plain("--profiler-port") && Plain("--redirect-stderr")
    ensures Plain("--settings-list-merge-strategy") && Plain("--skill") && Plain("--use-version")
  {
  }

  lemma ValueFlagsArePlain(name: string)
    requires name in VALUE_FLAGS
    ensures Plain(name)
  {
    hide Plain;
    FirstPlainNames();
    MorePlainNames();
    LastPlainNames();
  }

  lemma NoFlagHasEquals(name: string)
    requires name in BOOL_FLAGS || name in VALUE_FLAGS
    ensures '=' !in name && name != "--"
  {
    if name in BOOL_FLAGS {
      BoolFlagsArePlain(name);
    } else {
      ValueFlagsArePlain(name);
    }
  }

  lemma FlagsApart(name: string)
    requires name in VALUE_FLAGS
    ensures name !in BOOL_FLAGS
  {
    assert forall f :: f in BOOL_FLAGS ==> f !in VALUE_FLAGS;
  }

  lemma InlineValue(name: string, value: string)
    requires '=' !in name
    ensures FlagName(name + "=" + value) == name && Contains(name + "=" + value, "=")
    ensures FlagName(name) == name && !Contains(name, "=")
  {
    var arg := name + "=" + value;
    ContainsChar(name, '=');
    FirstSeparator(name, "=", value);
    assert arg[..|name|] == name;
  }

  /** A value flag takes the next argument, whatever it is, and nothing but itself with a value behind `=`. */
  lemma ValueFlagSkips(name: string, value: string, rest: seq<string>)
    requires name in {
               "--base-path", "--chdir", "-C", "--config", "--config-path", "--heatmap-mode", "--identity",
               "--logs-file", "--logs-level", "--pager", "--profile", "--profile-file", "--profile-type",
               "--profiler-host", "--profiler-port", "--redirect-stderr", "--settings-list-merge-strategy",
               "--skill", "--use-version"}
    ensures Skip([name]).None?
    ensures Skip([name, value] + rest) == Skip(rest)
    ensures Skip([name + "=" + value] + rest) == Skip(rest)
  {
    hide FlagName, Contains, IsBoolLiteral;
    NoFlagHasEquals(name);
    FlagsApart(name);
    InlineValue(name, value);
    Taken(name, [value] + rest);
    assert [name, value] + rest == [name] + ([value] + rest) && ([value] + rest)[1..] == rest;
    var inline := name + "=" + value;
    NotDashes(name, value);
    Taken(inline, rest);
    Taken(name, []);
    assert [name] + [] == [name];
  }

  lemma NotDashes(name: string, value: string)
    ensures name + "=" + value != "--"
  {
    assert (name + "=" + value)[|name|] == '=';
  }

  /** A boolean flag takes a following boolean literal, but not with a value behind `=`. */
  lemma BoolFlagSkips(name: string, value: string, rest: seq<string>)
    requires name in {
               "--ai", "--force-color", "--force-tty", "--heatmap", "--help", "-h", "--interactive", "--mask",
               "--no-color", "--logs-color", "--profiler-enabled", "--verbose", "-v"}
    ensures Skip([name] + rest) == if rest != [] && IsBoolLiteral(rest[0]) then Skip(rest[1..]) else Skip(rest)
    ensures Skip([name + "=" + value] + rest) == Skip(rest)
  {
    hide FlagName, Contains, IsBoolLiteral;
    NoFlagHasEquals(name);
    InlineValue(name, value);
    NotDashes(name, value);
    Taken(name, rest);
    Taken(name + "=" + value, rest);
  }

  /** -C with its value attached stands alone; `--` ends without a remainder; at anything else scanning stops. */
  lemma OtherArgumentSkips(value: string, arg: string, rest: seq<string>)
    requires value != "" && FlagName("-C" + value) !in BOOL_FLAGS + VALUE_FLAGS
    ensures Skip(["-C" + value] + rest) == Skip(rest)
    ensures Skip(["--"] + rest) == None && Skip([]) == Some([])
    ensures FlagName(arg) !in BOOL_FLAGS + VALUE_FLAGS && !("-C" <= arg) && arg != "--" ==>
              Skip([arg] + rest) == Some([arg] + rest)
  {
    hide FlagName, Contains, IsBoolLiteral;
    assert ("-C" + value)[1] == 'C' && "-C" <= "-C" + value && |"-C" + value| > 2;
    Taken("-C" + value, rest);
  }

  /** One step of the scan. */
  lemma Taken(arg: string, rest: seq<string>)
    ensures arg != "--" && IsSkippable(arg) ==>
              Skip([arg] + rest) ==
                if ConsumesValue(arg) || (IsBareBoolFlag(arg) && rest != [] && IsBoolLiteral(rest[0])) then
                  if rest == [] then None else Skip(rest[1..])
                else Skip(rest)
  {
    hide IsSkippable, ConsumesValue, IsBareBoolFlag, IsBoolLiteral;
    var all := [arg] + rest;
    assert all[0] == arg && all[1..] == rest && (rest != [] ==> all[1] == rest[0] && all[2..] == rest[1..]);
  }

  /** The two words in any mixture of cases, the long s among them. */
  lemma BoolLiterals()
    ensures IsBoolLiteral("true") && IsBoolLiteral("FALSE") && IsBoolLiteral("True") && IsBoolLiteral("fal\U{017F}e")
    ensures !IsBoolLiteral("") && !IsBoolLiteral("yes") && !IsBoolLiteral("1") && !IsBoolLiteral("trues")
  {
    assert Fold("trues"[0]) != "false"[0];
  }

  // ---------------------------------------------------------------- the indexing scanner

  predicate StartsWithVersion(rest: Option<seq<string>>) {
    rest.Some? && rest.value != [] && (rest.value[0] == "version" || rest.value[0] == "--version")
  }

  /** The index scanner says "version" exactly when the other one skips to "version" or "--version". */
  method IsVersionCommandWithArgs(args: seq<string>) returns (version: bool)
    ensures version <==> |args| >= 1 && StartsWithVersion(Skip(args[1..]))
  {
    hide IsSkippable, ConsumesValue, IsBareBoolFlag, IsBoolLiteral;
    if |args| < 2 {
      return false;
    }
    VersionIsNoFlag();
    var i: nat := 1;
    while i < |args|
      invariant 1 <= i <= |args| + 1
      invariant StartsWithVersion(Skip(args[1..])) <==> i <= |args| && StartsWithVersion(Skip(args[i..]))
    {
      var arg := args[i];
      var rest := args[i..];
      assert rest[0] == arg && rest[1..] == args[i + 1..] && (i + 1 < |args| ==> rest[1] == args[i + 1]);
      if arg == "version" || arg == "--version" {
        return true;
      }
      if arg == "--" {
        return false;
      }
      var skip, consumesValue := IsSkippableRootFlag(arg);
      if !skip {
        return false;
      }
      assert i + 2 <= |args| ==> rest[2..] == args[i + 2..];
      if !consumesValue && BoolFlagHasSeparateValue(arg, args, i) {
        i := i + 1;
        i := i + 1;
        continue;
      }
      if consumesValue {
        i := i + 1;
      }
      i := i + 1;
    }
    return false;
  }

  lemma VersionIsNoFlag()
    ensures !IsSkippable("version") && !IsSkippable("--version")
    ensures "version" != "--" && "--version" != "--"
  {
    hide IsRootBoolFlag, IsRootValueFlag;
    FlagsStartWithDash("version");
    NoVersionFlag();
    assert "--version"[1] == '-';
  }

  lemma NoVersionFlag()
    ensures !IsRootBoolFlag("--version") && !IsRootValueFlag("--version")
  {
    VersionHasNoValue();
    hide FlagName;
    assert forall f :: f in BOOL_FLAGS ==> |f| != 9 || f[5] != 's';
    assert forall f :: f in VALUE_FLAGS ==> |f| != 9 || f[5] != 's';
  }

  lemma VersionHasNoValue()
    ensures FlagName("--version") == "--version"
  {
    ContainsChar("--version", '=');
  }

  lemma FlagsStartWithDash(arg: string)
    ensures IsSkippable(arg) ==> arg != "" && arg[0] == '-'
  {
    assert forall f :: f in BOOL_FLAGS ==> f[0] == '-';
    assert forall f :: f in VALUE_FLAGS ==> f[0] == '-';
  }

  // ---------------------------------------------------------------- a block of flags in front

  /** The last thing that the scan of block takes is a bare boolean flag, not a flag's value. */
  predicate EndsInBareBool(block: seq<string>)
    decreases |block|
  {
    && block != []
    && (if Width(block) >= |block| then |block| == 1 && IsBareBoolFlag(block[0])
        else EndsInBareBool(block[Width(block)..]))
  }

  lemma LiteralIsNoFlag(value: string)
    requires IsBoolLiteral(value)
    ensures !IsSkippable(value) && value != "--"
  {
    FlagsStartWithDash(value);
    assert Fold(value[0]) == 't' || Fold(value[0]) == 'f';
  }

  lemma {:induction false} SkipShrinks(args: seq<string>)
    ensures Skip(args).Some? ==> |Skip(args).value| <= |args|
    decreases |args|
  {
    hide IsSkippable, Width;
    if args != [] && args[0] != "--" && IsSkippable(args[0]) && Width(args) <= |args| {
      SkipShrinks(args[Width(args)..]);
    }
  }

  /** A block that ends in a bare boolean flag takes a boolean literal behind it as that flag's value. */
  lemma {:induction false} BlockInFront(block: seq<string>, args: seq<string>)
    requires Skip(block) == Some([])
    ensures var eats := EndsInBareBool(block) && args != [] && IsBoolLiteral(args[0]);
            Skip(block + args) == if eats then Skip(args[1..]) else Skip(args)
    decreases |block|
  {
    hide IsSkippable, ConsumesValue, IsBareBoolFlag, IsBoolLiteral;
    var all := block + args;
    if block == [] {
      assert all == args;
    } else {
      var n := Width(block);
      if n < |block| || n == 2 {
        assert all[n..] == block[n..] + args;
        BlockInFront(block[n..], args);
        FirstSame(block, args);
      } else {
        assert block == [block[0]];
        assert all[1..] == args && (args != [] ==> all[1] == args[0] && all[2..] == args[1..]);
      }
    }
  }

  lemma FirstSame(block: seq<string>, args: seq<string>)
    requires block != [] && (Width(block) < |block| || (Width(block) == 2 && |block| >= 2))
    ensures Width(block + args) == Width(block)
  {
    assert (block + args)[0] == block[0] && (|block| >= 2 ==> (block + args)[1] == block[1]);
  }

  /**
  A complete block of root flags changes nothing, unless it ends in a bare boolean flag and a boolean
  literal follows.
   */
  lemma {:induction false} BlockChangesNothing(block: seq<string>, args: seq<string>)
    requires Skip(block) == Some([])
    ensures Skip(block + args) == Skip(args) <==> !(EndsInBareBool(block) && args != [] && IsBoolLiteral(args[0]))
  {
    BlockInFront(block, args);
    if args != [] && IsBoolLiteral(args[0]) {
      LiteralIsNoFlag(args[0]);
      SkipShrinks(args[1..]);
    }
  }

  // ---------------------------------------------------------------- the commands behind the flags

  method MatchesLeadingTokens(args: seq<string>, tokens: seq<string>) returns (matches: bool)
    ensures matches <==> tokens <= args
  {
    if |args| < |tokens| {
      return false;
    }
    for i := 0 to |tokens|
      invariant tokens[..i] == args[..i]
    {
      if args[i] != tokens[i] {
        return false;
      }
    }
    return true;
  }

  predicate IsConfigValidation(args: seq<string>) {
    ["config", "validate"] <= args || ["validate", "config"] <= args || ["validate", "schema", "config"] <= args
  }

  method IsBuiltinConfigValidationArgs(args: seq<string>) returns (builtin: bool)
    ensures builtin <==> |args| >= 2 && Skip(args[1..]).Some? && IsConfigValidation(Skip(args[1..]).value)
  {
    if |args| < 2 {
      return false;
    }
    var rest, ok := SkipLeadingRootFlags(args[1..]);
    if !ok {
      return false;
    }
    builtin := MatchesLeadingTokens(rest, ["config", "validate"]);
    if !builtin {
      builtin := MatchesLeadingTokens(rest, ["validate", "config"]);
    }
    if !builtin {
      builtin := MatchesLeadingTokens(rest, ["validate", "schema", "config"]);
    }
  }
}
