/**
Registering custom commands (cmd/cmd_utils.go): a forest of configured commands is merged into the tree
of commands that exist already. Whether a command's flags are acceptable is a given outcome here; module
CommandFlags models it.
 */
module CommandTree {
  import opened Options
  import opened Text

  // ---------------------------------------------------------------- configuration

  /** What creating a command with its flags comes to: it works, it gives a stub, or it ends registration. */
  datatype FlagOutcome = Accepted | Unusable(cause: string) | Conflict(cause: string)

  datatype Config = Config(
    name: string,
    workingDirectory: string,
    hasSteps: bool,
    loadError: Option<string>,
    cloneError: Option<string>,
    flags: FlagOutcome,
    commands: seq<Config>)

  // ---------------------------------------------------------------- the tree as a value

  /** What running a command does: built in, a custom command in its working directory, or a stub that reports. */
  datatype Run = Builtin(id: string) | Custom(name: string, workingDirectory: string) | Stub(cause: string)

  /** A function that a command has for Cobra to call before it runs; Warning remembers the two that it found. */
  datatype Hook = Given(id: string) | Warning(custom: string, previousE: Option<Hook>, previous: Option<Hook>)

  /** A command's name is its use line up to the first space. */
  type Name = s: string | ' ' !in s

  datatype Node = Node(name: Name, run: Run, preRunE: Option<Hook>, preRun: Option<Hook>, children: seq<Node>)

  /** What a call of a hook does: print the collision warning, or call a given hook, whose error counts or is none. */
  datatype Effect = Warned(custom: string) | Called(id: string, errorCounts: bool)

  function Effects(hook: Hook, errorCounts: bool): seq<Effect> {
    match hook
    case Given(id) => [Called(id, errorCounts)]
    case Warning(custom, previousE, previous) =>
      if previousE.Some? then [Warned(custom)] + Effects(previousE.value, errorCounts)
      else if previous.Some? then [Warned(custom)] + Effects(previous.value, false)
      else [Warned(custom)]
  }

  /** What happens before a command runs: Cobra calls PreRunE, or else PreRun, and not both. */
  function Before(preRunE: Option<Hook>, preRun: Option<Hook>): seq<Effect> {
    if preRunE.Some? then Effects(preRunE.value, true)
    else if preRun.Some? then Effects(preRun.value, false)
    else []
  }

  /** What a command does when it is invoked. */
  datatype Behaviour = Behaviour(before: seq<Effect>, run: Run)

  function BehaviourOf(n: Node): Behaviour {
    Behaviour(Before(n.preRunE, n.preRun), n.run)
  }

  /** warnStepsConflictOnRun's hook in front of the two that were there. */
  function Warn(n: Node, custom: string): Node {
    n.(preRunE := Some(Warning(custom, n.preRunE, n.preRun)))
  }

  /** The warning comes first, and then exactly what happened before. */
  lemma WarnKeepsBehaviour(n: Node, custom: string)
    ensures BehaviourOf(Warn(n, custom)).before == [Warned(custom)] + BehaviourOf(n).before
    ensures BehaviourOf(Warn(n, custom)).run == BehaviourOf(n).run
  {
  }

  /** Name(); a configured command's use line starts with its configured name. */
  function CommandName(use: string): (name: Name)
    ensures name == use <==> ' ' !in use
    ensures name <= use && (name != use ==> use[|name|] == ' ')
  {
    ContainsChar(use, ' ');
    var i := Index(use, " ");
    if i == -1 then use else
      NoSpaceBefore(use, i);
      use[..i]
  }

  lemma NoSpaceBefore(use: string, i: nat)
    requires Index(use, " ") == i
    ensures i < |use| && use[i] == ' ' && ' ' !in use[..i]
  {
    forall k | 0 <= k < i ensures use[k] != ' ' {
      assert !OccursAt(use, " ", k);
      assert use[k..k + 1] == [use[k]];
    }
    assert use[i..i + 1][0] == use[i];
  }

  /** The first child with the name. */
  function FindSubcommand(children: seq<Node>, name: string): (i: int)
    ensures i == -1 || (0 <= i < |children| && children[i].name == name)
    ensures forall k :: 0 <= k < (if i == -1 then |children| else i) ==> children[k].name != name
  {
    if children == [] then -1
    else if children[0].name == name then 0
    else
      var rest := FindSubcommand(children[1..], name);
      if rest == -1 then -1 else rest + 1
  }

  function Directory(cfg: Config, parentDirectory: string): string {
    if cfg.workingDirectory == "" then parentDirectory else cfg.workingDirectory
  }

  /** The command that a configuration entry adds where there is none of its name, if it adds one. */
  function NewRun(cfg: Config, parentDirectory: string): Option<Run> {
    if cfg.loadError.Some? then Some(Stub(cfg.loadError.value))
    else if cfg.cloneError.Some? then None
    else
      match cfg.flags
      case Accepted => Some(Custom(cfg.name, Directory(cfg, parentDirectory)))
      case Unusable(cause) => Some(Stub(cause))
      case Conflict(_) => None
  }

  /** The error that ends registration at this entry. */
  function Fatal(cfg: Config, exists': bool): Option<string> {
    if cfg.loadError.Some? then None
    else if cfg.cloneError.Some? then cfg.cloneError
    else if !exists' && cfg.flags.Conflict? then Some(cfg.flags.cause)
    else None
  }

  /** A custom command has the hook preCustomCommand as its PreRun, a stub has none. */
  function NewHook(run: Run): Option<Hook> {
    if run.Custom? then Some(Given(run.name)) else None
  }

  function Added(name: string, run: Run): Node {
    Node(CommandName(name), run, None, NewHook(run), [])
  }

  function NewNode(cfg: Config, parentDirectory: string): Node
    requires NewRun(cfg, parentDirectory).Some?
  {
    Added(cfg.name, NewRun(cfg, parentDirectory).value)
  }

  /** The steps of the entry are ignored where its command exists already. */
  predicate Collides(cfg: Config) {
    cfg.loadError.None? && cfg.hasSteps
  }

  /** A command that exists already and also has configured steps gets the warning. */
  function Reused(child: Node, cfg: Config): Node {
    if Collides(cfg) then Warn(child, cfg.name) else child
  }

  datatype Registered = Registered(node: Node, err: Option<string>)

  function RegisterAll(node: Node, cfgs: seq<Config>, directory: string): Registered
    decreases cfgs, 0
  {
    if cfgs == [] then Registered(node, None)
    else
      var first := Register(node, cfgs[0], directory);
      if first.err.Some? then first else RegisterAll(first.node, cfgs[1..], directory)
  }

  function Register(node: Node, cfg: Config, directory: string): Registered
    decreases cfg, 1
  {
    var i := FindSubcommand(node.children, cfg.name);
    if Fatal(cfg, i != -1).Some? then Registered(node, Fatal(cfg, i != -1))
    else if i != -1 then
      var below := RegisterAll(Reused(node.children[i], cfg), cfg.commands, Directory(cfg, directory));
      Registered(node.(children := node.children[i := below.node]), below.err)
    else
      var below := RegisterAll(NewNode(cfg, directory), cfg.commands, Directory(cfg, directory));
      Registered(node.(children := node.children + [below.node]), below.err)
  }

  // ---------------------------------------------------------------- the tree in memory

  class Command {
    var name: Name
    var run: Run
    var preRunE: Option<Hook>
    var preRun: Option<Hook>
    var children: seq<Command>
    ghost var tree: Node
    ghost var repr: set<object>

    ghost predicate SameFields()
      reads this
    {
      tree.name == name && tree.run == run && tree.preRunE == preRunE && tree.preRun == preRun
    }

    ghost predicate Valid()
      reads this, repr
      decreases repr
    {
      && this in repr
      && SameFields() && |tree.children| == |children|
      && (forall i :: 0 <= i < |children| ==>
            && children[i] in repr && children[i].repr <= repr && this !in children[i].repr
            && children[i].Valid() && children[i].tree == tree.children[i])
      && (forall i, j :: 0 <= i < j < |children| ==> children[i].repr !! children[j].repr)
    }

    constructor (name: Name, run: Run, preRun: Option<Hook>)
      ensures Valid() && fresh(repr) && tree == Node(name, run, None, preRun, [])
    {
      this.name := name;
      this.run := run;
      preRunE := None;
      this.preRun := preRun;
      children := [];
      tree := Node(name, run, None, preRun, []);
      repr := {this};
    }

    method AddCommand(child: Command)
      requires Valid() && child.Valid() && child.repr !! repr
      modifies this
      ensures Valid() && repr == old(repr) + child.repr
      ensures children == old(children) + [child]
      ensures tree == old(tree).(children := old(tree).children + [child.tree])
    {
      children := children + [child];
      tree := tree.(children := tree.children + [child.tree]);
      repr := repr + child.repr;
    }

    /** The earlier hooks are kept inside the new one, which Cobra calls instead of them. */
    method WarnStepsConflictOnRun(customName: string)
      requires Valid()
      modifies this
      ensures Valid() && repr == old(repr) && children == old(children)
      ensures tree == Warn(old(tree), customName)
      ensures Before(preRunE, preRun) == [Warned(customName)] + old(Before(preRunE, preRun)) && run == old(run)
    {
      WarnKeepsBehaviour(tree, customName);
      var prevPreRunE := preRunE;
      var prevPreRun := preRun;
      preRunE := Some(Warning(customName, prevPreRunE, prevPreRun));
      tree := Warn(tree, customName);
    }

    method Find(name: string) returns (i: int)
      requires Valid()
      ensures i == FindSubcommand(tree.children, name)
      ensures i != -1 ==> 0 <= i < |children|
    {
      for k := 0 to |children|
        invariant forall j :: 0 <= j < k ==> tree.children[j].name != name
      {
        if children[k].name == name {
          FirstWithName(tree.children, name, k);
          return k;
        }
      }
      NoneWithName(tree.children, name);
      return -1;
    }

    /** After child i was changed within its own part of memory, the parent takes its new tree over. */
    ghost method Refresh(i: nat)
      requires i < |children| && this in repr
      requires SameFields() && |tree.children| == |children|
      requires forall j :: 0 <= j < |children| ==>
        && children[j].Valid() && this !in children[j].repr
        && (j != i ==> children[j] in repr && children[j].repr <= repr && children[j].tree == tree.children[j])
      requires forall j, k :: 0 <= j < k < |children| ==> children[j].repr !! children[k].repr
      modifies this
      ensures Valid() && repr == old(repr) + children[i].repr && children == old(children)
      ensures tree == old(tree).(children := old(tree).children[i := children[i].tree])
    {
      tree := tree.(children := tree.children[i := children[i].tree]);
      repr := repr + children[i].repr;
    }
  }

  lemma {:induction false} FirstWithName(children: seq<Node>, name: string, k: nat)
    requires k < |children| && children[k].name == name && forall j :: 0 <= j < k ==> children[j].name != name
    ensures FindSubcommand(children, name) == k
  {
  }

  lemma {:induction false} NoneWithName(children: seq<Node>, name: string)
    requires forall j :: 0 <= j < |children| ==> children[j].name != name
    ensures FindSubcommand(children, name) == -1
  {
  }

  // ---------------------------------------------------------------- registration

  /** Registers cfgs below child i of parent. */
  method RegisterBelow(parent: Command, i: nat, cfgs: seq<Config>, directory: string) returns (err: Option<string>)
    requires parent.Valid() && i < |parent.children|
    modifies parent.repr
    ensures parent.Valid() && fresh(parent.repr - old(parent.repr))
    ensures var below := RegisterAll(old(parent.tree).children[i], cfgs, directory);
            && parent.tree == old(parent.tree).(children := old(parent.tree).children[i := below.node])
            && err == below.err
    decreases cfgs, 2
  {
    hide RegisterAll;
    var child := parent.children[i];
    ghost var before := child.repr;
    assert forall j :: 0 <= j < |parent.children| && j != i ==> parent.children[j].repr !! before;
    err := ProcessCommands(cfgs, child, directory);
    assert forall j :: 0 <= j < |parent.children| && j != i ==> parent.children[j].Valid();
    parent.Refresh(i);
  }

  /** processCustomCommandsWithWorkingDirectory: its loop over the entries. */
  method ProcessCommands(cfgs: seq<Config>, parent: Command, directory: string) returns (err: Option<string>)
    requires parent.Valid()
    modifies parent.repr
    ensures parent.Valid() && fresh(parent.repr - old(parent.repr))
    ensures Registered(parent.tree, err) == RegisterAll(old(parent.tree), cfgs, directory)
    decreases cfgs, 1
  {
    hide Register;
    for i := 0 to |cfgs|
      invariant parent.Valid() && fresh(parent.repr - old(parent.repr))
      invariant RegisterAll(parent.tree, cfgs[i..], directory) == RegisterAll(old(parent.tree), cfgs, directory)
    {
      assert cfgs[i..][0] == cfgs[i] && cfgs[i..][1..] == cfgs[i + 1..];
      err := ProcessCommand(cfgs[i], parent, directory);
      if err.Some? {
        return;
      }
    }
    return None;
  }

  /** One entry of the loop. */
  method ProcessCommand(cfg: Config, parent: Command, directory: string) returns (err: Option<string>)
    requires parent.Valid()
    modifies parent.repr
    ensures parent.Valid() && fresh(parent.repr - old(parent.repr))
    ensures Registered(parent.tree, err) == Register(old(parent.tree), cfg, directory)
    decreases cfg, 3
  {
    hide RegisterAll, CommandName, FindSubcommand;
    var workingDirectory := Directory(cfg, directory);
    if cfg.loadError.Some? {
      var target := parent.Find(cfg.name);
      if target == -1 {
        err := RegisterNew(cfg, Stub(cfg.loadError.value), parent, workingDirectory);
      } else {
        err := RegisterBelow(parent, target, cfg.commands, workingDirectory);
      }
      return;
    }
    if cfg.cloneError.Some? {
      return cfg.cloneError;
    }
    var existing := parent.Find(cfg.name);
    if existing != -1 {
      ghost var children := parent.tree.children;
      if cfg.hasSteps {
        WarnBelow(parent, existing, cfg.name);
      }
      ghost var child := parent.tree.children[existing];
      err := RegisterBelow(parent, existing, cfg.commands, workingDirectory);
      SetTwice(children, existing, child, parent.tree.children[existing]);
      return;
    }
    if cfg.flags.Conflict? {
      return Some(cfg.flags.cause);
    }
    var run := if cfg.flags.Unusable? then Stub(cfg.flags.cause) else Custom(cfg.name, workingDirectory);
    err := RegisterNew(cfg, run, parent, workingDirectory);
  }

  lemma SetTwice(children: seq<Node>, i: nat, child: Node, below: Node)
    requires i < |children|
    ensures children[i := child][i := below] == children[i := below]
  {
  }

  /** A new command is added to its parent first and its own commands are registered below it then. */
  method RegisterNew(cfg: Config, run: Run, parent: Command, workingDirectory: string) returns (err: Option<string>)
    requires parent.Valid()
    modifies parent.repr
    ensures parent.Valid() && fresh(parent.repr - old(parent.repr))
    ensures var below := RegisterAll(Added(cfg.name, run), cfg.commands, workingDirectory);
            && parent.tree == old(parent.tree).(children := old(parent.tree).children + [below.node])
            && err == below.err
    decreases cfg, 2
  {
    hide RegisterAll, CommandName;
    ghost var children := parent.tree.children;
    var command := new Command(CommandName(cfg.name), run, NewHook(run));
    parent.AddCommand(command);
    var last := |parent.children| - 1;
    assert parent.tree.children[last] == command.tree;
    err := RegisterBelow(parent, last, cfg.commands, workingDirectory);
    ghost var below := parent.tree.children[last];
    assert (children + [Added(cfg.name, run)])[last := below] == children + [below];
  }

  method WarnBelow(parent: Command, i: nat, customName: string)
    requires parent.Valid() && i < |parent.children|
    modifies parent.repr
    ensures parent.Valid() && parent.repr == old(parent.repr) && parent.children == old(parent.children)
    ensures parent.tree == old(parent.tree).(children :=
              old(parent.tree).children[i := Warn(old(parent.tree).children[i], customName)])
  {
    var child := parent.children[i];
    assert forall j :: 0 <= j < |parent.children| && j != i ==> parent.children[j].repr !! child.repr;
    child.WarnStepsConflictOnRun(customName);
    assert forall j :: 0 <= j < |parent.children| && j != i ==> parent.children[j].Valid();
    parent.Refresh(i);
  }

  // ---------------------------------------------------------------- what registration keeps

  /** after is what happened before, behind some more warnings. */
  predicate WarnsMore(before: seq<Effect>, after: seq<Effect>) {
    && |before| <= |after|
    && after[|after| - |before|..] == before
    && forall i :: 0 <= i < |after| - |before| ==> after[i].Warned?
  }

  /** new' is old' with warnings in front of its hook, and commands at the end of each list of children. */
  predicate Extends(old': Node, new': Node)
    decreases old', 1
  {
    && new'.name == old'.name && new'.run == old'.run && new'.preRun == old'.preRun
    && WarnsMore(BehaviourOf(old').before, BehaviourOf(new').before)
    && ExtendsAll(old'.children, new'.children)
  }

  predicate ExtendsAll(old': seq<Node>, new': seq<Node>)
    decreases old', 0
  {
    && |old'| <= |new'|
    && (old' != [] ==> Extends(old'[0], new'[0]) && ExtendsAll(old'[1..], new'[1..]))
  }

  lemma {:induction false} ExtendsAt(old': seq<Node>, new': seq<Node>)
    ensures ExtendsAll(old', new') <==> |old'| <= |new'| && forall i :: 0 <= i < |old'| ==> Extends(old'[i], new'[i])
  {
    if old' != [] && |old'| <= |new'| {
      ExtendsAt(old'[1..], new'[1..]);
      assert forall i :: 1 <= i < |old'| ==> old'[i] == old'[1..][i - 1] && new'[i] == new'[1..][i - 1];
    }
  }

  lemma {:induction false} ExtendsSelf(n: Node)
    ensures Extends(n, n)
    decreases n
  {
    forall i | 0 <= i < |n.children| ensures Extends(n.children[i], n.children[i]) {
      ExtendsSelf(n.children[i]);
    }
    ExtendsAt(n.children, n.children);
  }

  lemma WarnsMoreTrans(a: seq<Effect>, b: seq<Effect>, c: seq<Effect>)
    requires WarnsMore(a, b) && WarnsMore(b, c)
    ensures WarnsMore(a, c)
  {
    assert c[|c| - |a|..] == c[|c| - |b|..][|b| - |a|..];
    forall i | 0 <= i < |c| - |a| ensures c[i].Warned? {
      if i >= |c| - |b| {
        assert c[i] == c[|c| - |b|..][i - (|c| - |b|)];
      }
    }
  }

  lemma {:induction false} ExtendsTrans(a: Node, b: Node, c: Node)
    requires Extends(a, b) && Extends(b, c)
    ensures Extends(a, c)
    decreases a
  {
    WarnsMoreTrans(BehaviourOf(a).before, BehaviourOf(b).before, BehaviourOf(c).before);
    hide WarnsMore;
    ExtendsAt(a.children, b.children);
    ExtendsAt(b.children, c.children);
    forall i | 0 <= i < |a.children| ensures Extends(a.children[i], c.children[i]) {
      ExtendsTrans(a.children[i], b.children[i], c.children[i]);
    }
    ExtendsAt(a.children, c.children);
  }

  lemma {:induction false} ExtendsChild(n: Node, i: nat, child: Node)
    requires i < |n.children| && Extends(n.children[i], child)
    ensures Extends(n, n.(children := n.children[i := child]))
  {
    forall j | 0 <= j < |n.children| ensures Extends(n.children[j], n.children[i := child][j]) {
      ExtendsSelf(n.children[j]);
    }
    ExtendsAt(n.children, n.children[i := child]);
  }

  lemma {:induction false} ExtendsAdd(n: Node, child: Node)
    ensures Extends(n, n.(children := n.children + [child]))
  {
    forall j | 0 <= j < |n.children| ensures Extends(n.children[j], (n.children + [child])[j]) {
      ExtendsSelf(n.children[j]);
    }
    ExtendsAt(n.children, n.children + [child]);
  }

  lemma ExtendsName(n: Node, m: Node)
    requires Extends(n, m)
    ensures m.name == n.name
  {
  }

  lemma ReusedExtends(child: Node, cfg: Config)
    ensures Extends(child, Reused(child, cfg))
  {
    WarnKeepsBehaviour(child, cfg.name);
    hide BehaviourOf;
    ExtendsSelf(child);
    SameOrWarned(BehaviourOf(child).before, cfg.name);
  }

  lemma SameOrWarned(before: seq<Effect>, custom: string)
    ensures WarnsMore(before, before) && WarnsMore(before, [Warned(custom)] + before)
  {
  }

  /**
  Registration never removes or replaces a command or what running it does, also when it ends with an error:
  before it runs there are more warnings at most, and then the hook that was effective.
   */
  lemma {:induction false} RegisterAllExtends(node: Node, cfgs: seq<Config>, directory: string)
    ensures Extends(node, RegisterAll(node, cfgs, directory).node)
    decreases cfgs, 0
  {
    if cfgs == [] {
      ExtendsSelf(node);
    } else {
      RegisterExtends(node, cfgs[0], directory);
      var first := Register(node, cfgs[0], directory);
      if first.err.None? {
        RegisterAllExtends(first.node, cfgs[1..], directory);
        ExtendsTrans(node, first.node, RegisterAll(first.node, cfgs[1..], directory).node);
      }
    }
  }

  lemma {:induction false} RegisterExtends(node: Node, cfg: Config, directory: string)
    ensures Extends(node, Register(node, cfg, directory).node)
    decreases cfg, 1
  {
    var i := FindSubcommand(node.children, cfg.name);
    if Fatal(cfg, i != -1).Some? {
      ExtendsSelf(node);
    } else if i != -1 {
      var child := node.children[i];
      var warned := Reused(child, cfg);
      ReusedExtends(child, cfg);
      RegisterAllExtends(warned, cfg.commands, Directory(cfg, directory));
      var below := RegisterAll(warned, cfg.commands, Directory(cfg, directory)).node;
      ExtendsTrans(child, warned, below);
      ExtendsChild(node, i, below);
    } else {
      ExtendsAdd(node, RegisterAll(NewNode(cfg, directory), cfg.commands, Directory(cfg, directory)).node);
    }
  }

  // ---------------------------------------------------------------- unique sibling names

  predicate DistinctNames(children: seq<Node>) {
    forall i, j :: 0 <= i < j < |children| ==> children[i].name != children[j].name
  }

  predicate Unique(n: Node)
    decreases n
  {
    DistinctNames(n.children) && forall c :: c in n.children ==> Unique(c)
  }

  predicate SpaceFree(cfg: Config)
    decreases cfg
  {
    ' ' !in cfg.name && forall c :: c in cfg.commands ==> SpaceFree(c)
  }

  /** The node below which the commands of an entry are registered. */
  function Start(node: Node, cfg: Config, directory: string): Node
    requires FindSubcommand(node.children, cfg.name) == -1 ==> NewRun(cfg, directory).Some?
  {
    var i := FindSubcommand(node.children, cfg.name);
    if i != -1 then Reused(node.children[i], cfg) else NewNode(cfg, directory)
  }

  /** Each command that registration adds comes where none has its name: the configured one up to its first space. */
  predicate AddsApart(node: Node, cfgs: seq<Config>, directory: string)
    decreases cfgs, 0
  {
    cfgs != [] ==>
      && AddsApartOne(node, cfgs[0], directory)
      && var first := Register(node, cfgs[0], directory);
         (first.err.None? ==> AddsApart(first.node, cfgs[1..], directory))
  }

  predicate AddsApartOne(node: Node, cfg: Config, directory: string)
    decreases cfg, 1
  {
    var i := FindSubcommand(node.children, cfg.name);
    Fatal(cfg, i != -1).None? ==>
      SamePlace(node, cfg) && AddsApart(Start(node, cfg, directory), cfg.commands, Directory(cfg, directory))
  }

  predicate SamePlace(node: Node, cfg: Config) {
    FindSubcommand(node.children, CommandName(cfg.name)) == FindSubcommand(node.children, cfg.name)
  }

  /** Names without a space always come apart. */
  lemma {:induction false} SpaceFreeIsApart(node: Node, cfgs: seq<Config>, directory: string)
    requires forall c :: c in cfgs ==> SpaceFree(c)
    ensures AddsApart(node, cfgs, directory)
    decreases cfgs, 0
  {
    hide CommandName, Register, FindSubcommand;
    if cfgs != [] {
      assert cfgs[0] in cfgs;
      var i := FindSubcommand(node.children, cfgs[0].name);
      if Fatal(cfgs[0], i != -1).None? {
        SpaceFreeIsApart(Start(node, cfgs[0], directory), cfgs[0].commands, Directory(cfgs[0], directory));
      }
      if Register(node, cfgs[0], directory).err.None? {
        SpaceFreeIsApart(Register(node, cfgs[0], directory).node, cfgs[1..], directory);
      }
    }
  }

  /** Sibling names stay unique exactly when the added commands come apart, with any names and also on an error. */
  lemma {:induction false} RegisterAllUniqueIff(node: Node, cfgs: seq<Config>, directory: string)
    requires Unique(node)
    ensures Unique(RegisterAll(node, cfgs, directory).node) <==> AddsApart(node, cfgs, directory)
    decreases cfgs, 0
  {
    hide Unique, Register, AddsApartOne, Extends;
    if cfgs != [] {
      RegisterUniqueIff(node, cfgs[0], directory);
      var first := Register(node, cfgs[0], directory);
      if first.err.None? {
        if Unique(first.node) {
          RegisterAllUniqueIff(first.node, cfgs[1..], directory);
        } else {
          RegisterAllExtends(first.node, cfgs[1..], directory);
          var all := RegisterAll(first.node, cfgs[1..], directory);
          if Unique(all.node) {
            UniqueBefore(first.node, all.node);
          }
        }
      }
    }
  }

  lemma {:induction false} RegisterUniqueIff(node: Node, cfg: Config, directory: string)
    requires Unique(node)
    ensures Unique(Register(node, cfg, directory).node) <==> AddsApartOne(node, cfg, directory)
    decreases cfg, 1
  {
    hide Unique, Extends, BehaviourOf, RegisterAll, AddsApart, CommandName, FindSubcommand;
    var i := FindSubcommand(node.children, cfg.name);
    if Fatal(cfg, i != -1).None? {
      var start := Start(node, cfg, directory);
      if i != -1 {
        UniqueReused(node, i, cfg);
        FoundInPlace(node, cfg);
      } else {
        UniqueAlone(start);
      }
      RegisterAllUniqueIff(start, cfg.commands, Directory(cfg, directory));
      RegisterAllExtends(start, cfg.commands, Directory(cfg, directory));
      var below := RegisterAll(start, cfg.commands, Directory(cfg, directory)).node;
      ExtendsName(start, below);
      if i != -1 {
        UniqueUpdate(node, i, below);
      } else {
        UniqueAdd(node, below);
      }
    }
  }

  /** A configured name that is found has no space. */
  lemma FoundInPlace(node: Node, cfg: Config)
    requires FindSubcommand(node.children, cfg.name) != -1
    ensures SamePlace(node, cfg) && CommandName(cfg.name) == cfg.name
  {
    hide FindSubcommand, CommandName;
    var child := node.children[FindSubcommand(node.children, cfg.name)];
    assert child.name == cfg.name;
  }

  lemma {:induction false} UniqueBefore(old': Node, new': Node)
    requires Extends(old', new') && Unique(new')
    ensures Unique(old')
    decreases old'
  {
    ExtendsAt(old'.children, new'.children);
    hide WarnsMore, BehaviourOf, ExtendsAll;
    forall i, j | 0 <= i < j < |old'.children| ensures old'.children[i].name != old'.children[j].name {
      ExtendsName(old'.children[i], new'.children[i]);
      ExtendsName(old'.children[j], new'.children[j]);
    }
    forall c | c in old'.children ensures Unique(c) {
      var i :| 0 <= i < |old'.children| && old'.children[i] == c;
      assert new'.children[i] in new'.children;
      UniqueBefore(c, new'.children[i]);
    }
  }

  lemma UniqueReused(node: Node, i: nat, cfg: Config)
    requires Unique(node) && i < |node.children|
    ensures Unique(Reused(node.children[i], cfg)) && Reused(node.children[i], cfg).name == node.children[i].name
  {
    assert node.children[i] in node.children;
  }

  lemma UniqueAlone(n: Node)
    requires n.children == []
    ensures Unique(n)
  {
  }

  lemma UniqueUpdate(n: Node, i: nat, child: Node)
    requires Unique(n) && i < |n.children| && child.name == n.children[i].name
    ensures Unique(n.(children := n.children[i := child])) <==> Unique(child)
  {
    var children := n.children[i := child];
    assert children[i] in children;
    if Unique(child) {
      forall c | c in children ensures Unique(c) {
        var k :| 0 <= k < |children| && children[k] == c;
        assert k != i ==> c == n.children[k] && n.children[k] in n.children;
      }
    }
  }

  lemma UniqueAdd(n: Node, child: Node)
    requires Unique(n)
    ensures Unique(n.(children := n.children + [child])) <==>
              Unique(child) && FindSubcommand(n.children, child.name) == -1
  {
    hide FindSubcommand, DistinctNames;
    var children := n.children + [child];
    OneMoreName(n.children, child);
    assert forall c :: c in children <==> c in n.children || c == child;
  }

  lemma OneMoreName(children: seq<Node>, child: Node)
    requires DistinctNames(children)
    ensures DistinctNames(children + [child]) <==> FindSubcommand(children, child.name) == -1
  {
    hide FindSubcommand;
    var all, i := children + [child], FindSubcommand(children, child.name);
    assert all[|children|] == child;
    if i != -1 {
      assert all[i].name == all[|children|].name;
    }
  }

  // ---------------------------------------------------------------- what each path does

  /** What the command at a path of names below n does, if there is one. */
  function DoesAt(n: Node, path: seq<string>): Option<Behaviour>
    decreases |path|
  {
    if path == [] then Some(BehaviourOf(n))
    else
      var i := FindSubcommand(n.children, path[0]);
      if i == -1 then None else DoesAt(n.children[i], path[1..])
  }

  function NewBehaviour(cfg: Config, directory: string): Option<Behaviour> {
    var run := NewRun(cfg, directory);
    if run.None? then None else Some(Behaviour(Before(None, NewHook(run.value)), run.value))
  }

  /** What the first configuration entry for a path makes of it, in its own or its nearest ancestor's directory. */
  function Origin(cfgs: seq<Config>, path: seq<string>, directory: string): Option<Behaviour>
    requires path != []
    decreases cfgs, 0
  {
    if cfgs == [] then None
    else
      var here := OriginIn(cfgs[0], path, directory);
      if here.Some? then here else Origin(cfgs[1..], path, directory)
  }

  function OriginIn(cfg: Config, path: seq<string>, directory: string): Option<Behaviour>
    requires path != []
    decreases cfg, 1
  {
    if CommandName(cfg.name) != path[0] then None
    else if |path| == 1 then NewBehaviour(cfg, directory)
    else Origin(cfg.commands, path[1..], Directory(cfg, directory))
  }

  function Else(first: Option<Behaviour>, second: Option<Behaviour>): Option<Behaviour> {
    if first.Some? then first else second
  }

  /** The warnings of the entries for a path whose command exists when their turn comes, the latest first. */
  function Collisions(cfgs: seq<Config>, path: seq<string>, directory: string, exists': bool): seq<Effect>
    requires path != []
    decreases cfgs, 0
  {
    if cfgs == [] then []
    else
      Collisions(cfgs[1..], path, directory, exists' || OriginIn(cfgs[0], path, directory).Some?)
      + CollisionsIn(cfgs[0], path, directory, exists')
  }

  function CollisionsIn(cfg: Config, path: seq<string>, directory: string, exists': bool): seq<Effect>
    requires path != []
    decreases cfg, 1
  {
    if CommandName(cfg.name) != path[0] then []
    else if |path| > 1 then Collisions(cfg.commands, path[1..], Directory(cfg, directory), exists')
    else if exists' && Collides(cfg) then [Warned(cfg.name)]
    else []
  }

  function Behind(warnings: seq<Effect>, does: Option<Behaviour>): Option<Behaviour> {
    if does.None? then None else Some(does.value.(before := warnings + does.value.before))
  }

  lemma {:induction false} FindAfterUpdate(children: seq<Node>, i: nat, child: Node, name: string)
    requires i < |children| && child.name == children[i].name
    ensures FindSubcommand(children[i := child], name) == FindSubcommand(children, name)
  {
    if i > 0 {
      FindAfterUpdate(children[1..], i - 1, child, name);
      assert children[i := child][1..] == children[1..][i - 1 := child];
    } else {
      assert children[i := child][1..] == children[1..];
    }
  }

  lemma {:induction false} FindAfterAppend(children: seq<Node>, child: Node, name: string)
    ensures var i := FindSubcommand(children, name);
            FindSubcommand(children + [child], name)
            == if i != -1 then i else if child.name == name then |children| else -1
  {
    if children != [] {
      FindAfterAppend(children[1..], child, name);
      assert (children + [child])[1..] == children[1..] + [child];
    }
  }

  /**
  After a registration without error every path does what it did before; a new path does what its first
  configuration entry says, in its own or its nearest ancestor's working directory; there is no other path.
  In front of that come the warnings of exactly the entries whose steps are ignored. The condition is the one
  for unique sibling names; among equal names the order of the children would decide.
   */
  lemma {:induction false} RegisterAllRuns(node: Node, cfgs: seq<Config>, directory: string, path: seq<string>)
    requires path != [] && AddsApart(node, cfgs, directory) && RegisterAll(node, cfgs, directory).err.None?
    ensures DoesAt(RegisterAll(node, cfgs, directory).node, path) ==
              Behind(Collisions(cfgs, path, directory, DoesAt(node, path).Some?),
                     Else(DoesAt(node, path), Origin(cfgs, path, directory)))
    decreases cfgs, 0
  {
    hide DoesAt, Register, OriginIn, CollisionsIn, AddsApartOne;
    if cfgs == [] {
      NothingInFront(DoesAt(node, path));
    } else {
      var first := Register(node, cfgs[0], directory);
      RegisterRuns(node, cfgs[0], directory, path);
      RegisterAllRuns(first.node, cfgs[1..], directory, path);
      var there := DoesAt(node, path).Some?;
      NoCollisionIfAbsent(cfgs[0], path, directory);
      ChainWarnings(
        Collisions(cfgs[1..], path, directory, there || OriginIn(cfgs[0], path, directory).Some?),
        CollisionsIn(cfgs[0], path, directory, there),
        DoesAt(node, path), OriginIn(cfgs[0], path, directory), Origin(cfgs[1..], path, directory));
    }
  }

  lemma NothingInFront(does: Option<Behaviour>)
    ensures Behind([], Else(does, None)) == does
  {
    if does.Some? {
      assert [] + does.value.before == does.value.before;
    }
  }

  lemma ChainWarnings(later: seq<Effect>, first: seq<Effect>, does: Option<Behaviour>, here: Option<Behaviour>,
                      then': Option<Behaviour>)
    requires does.None? && here.None? ==> first == []
    ensures Behind(later, Else(Behind(first, Else(does, here)), then')) ==
              Behind(later + first, Else(does, if here.Some? then here else then'))
  {
    var b := Else(does, here);
    if b.Some? {
      assert later + (first + b.value.before) == later + first + b.value.before;
    } else if then'.Some? {
      assert later + [] == later;
    }
  }

  /** Where a path neither exists nor comes into being, nothing collides. */
  lemma {:induction false} NoCollisionIfAbsent(cfg: Config, path: seq<string>, directory: string)
    requires path != []
    ensures OriginIn(cfg, path, directory).None? ==> CollisionsIn(cfg, path, directory, false) == []
    decreases cfg, 1
  {
    hide CommandName;
    if CommandName(cfg.name) == path[0] && |path| > 1 {
      NoCollisionsIfAbsent(cfg.commands, path[1..], Directory(cfg, directory));
    }
  }

  lemma {:induction false} NoCollisionsIfAbsent(cfgs: seq<Config>, path: seq<string>, directory: string)
    requires path != []
    ensures Origin(cfgs, path, directory).None? ==> Collisions(cfgs, path, directory, false) == []
    decreases cfgs, 0
  {
    hide OriginIn, CollisionsIn;
    if cfgs != [] {
      NoCollisionIfAbsent(cfgs[0], path, directory);
      NoCollisionsIfAbsent(cfgs[1..], path, directory);
    }
  }

  lemma {:induction false} RegisterRuns(node: Node, cfg: Config, directory: string, path: seq<string>)
    requires path != [] && AddsApartOne(node, cfg, directory) && Register(node, cfg, directory).err.None?
    ensures DoesAt(Register(node, cfg, directory).node, path) ==
              Behind(CollisionsIn(cfg, path, directory, DoesAt(node, path).Some?),
                     Else(DoesAt(node, path), OriginIn(cfg, path, directory)))
    decreases cfg, 1
  {
    hide BehaviourOf, Behind, Else, CollisionsIn, OriginIn, CommandName, AddsApart;
    var start := Start(node, cfg, directory);
    var below := RegisterAll(start, cfg.commands, Directory(cfg, directory));
    Descend(node, cfg, directory, path);
    if path[0] != CommandName(cfg.name) {
      OtherName(node, cfg, directory, path);
    } else if |path| == 1 {
      TopOfRegistered(start, cfg.commands, Directory(cfg, directory));
      StartDoes(node, cfg, directory, path);
    } else {
      RegisterAllRuns(start, cfg.commands, Directory(cfg, directory), path[1..]);
      BelowStart(node, cfg, directory, path);
    }
  }

  /** Where a path leads after one entry. */
  lemma Descend(node: Node, cfg: Config, directory: string, path: seq<string>)
    requires path != [] && SamePlace(node, cfg) && Register(node, cfg, directory).err.None?
    ensures var below := RegisterAll(Start(node, cfg, directory), cfg.commands, Directory(cfg, directory));
            DoesAt(Register(node, cfg, directory).node, path) ==
              if path[0] == CommandName(cfg.name) then DoesAt(below.node, path[1..]) else DoesAt(node, path)
  {
    hide BehaviourOf, RegisterAll, Extends, CommandName;
    var i := FindSubcommand(node.children, cfg.name);
    var start := Start(node, cfg, directory);
    var below := RegisterAll(start, cfg.commands, Directory(cfg, directory));
    RegisterAllExtends(start, cfg.commands, Directory(cfg, directory));
    ExtendsName(start, below.node);
    if i != -1 {
      FoundInPlace(node, cfg);
      FindAfterUpdate(node.children, i, below.node, path[0]);
    } else {
      FindAfterAppend(node.children, below.node, path[0]);
    }
  }

  lemma OtherName(node: Node, cfg: Config, directory: string, path: seq<string>)
    requires path != [] && path[0] != CommandName(cfg.name)
    ensures DoesAt(node, path) == Behind(CollisionsIn(cfg, path, directory, DoesAt(node, path).Some?),
                                         Else(DoesAt(node, path), OriginIn(cfg, path, directory)))
  {
    hide DoesAt;
    NothingInFront(DoesAt(node, path));
  }

  /** Registering below a node changes nothing of the node but its children. */
  lemma {:induction false} TopOfRegistered(node: Node, cfgs: seq<Config>, directory: string)
    ensures BehaviourOf(RegisterAll(node, cfgs, directory).node) == BehaviourOf(node)
    decreases |cfgs|
  {
    hide Before;
    if cfgs != [] {
      var first := Register(node, cfgs[0], directory);
      assert BehaviourOf(first.node) == BehaviourOf(node);
      TopOfRegistered(first.node, cfgs[1..], directory);
    }
  }

  lemma StartDoes(node: Node, cfg: Config, directory: string, path: seq<string>)
    requires path == [CommandName(cfg.name)] && SamePlace(node, cfg)
    requires FindSubcommand(node.children, cfg.name) == -1 ==> NewRun(cfg, directory).Some?
    ensures Some(BehaviourOf(Start(node, cfg, directory))) ==
              Behind(CollisionsIn(cfg, path, directory, DoesAt(node, path).Some?),
                     Else(DoesAt(node, path), OriginIn(cfg, path, directory)))
  {
    hide Before, FindSubcommand, NewRun, CommandName;
    var i := FindSubcommand(node.children, cfg.name);
    assert DoesAt(node, path) == if i == -1 then None else Some(BehaviourOf(node.children[i]));
    if i != -1 {
      WarnKeepsBehaviour(node.children[i], cfg.name);
      assert [] + BehaviourOf(node.children[i]).before == BehaviourOf(node.children[i]).before;
    } else {
      NothingInFront(NewBehaviour(cfg, directory));
    }
  }

  lemma BelowStart(node: Node, cfg: Config, directory: string, path: seq<string>)
    requires |path| > 1 && path[0] == CommandName(cfg.name) && SamePlace(node, cfg)
    requires FindSubcommand(node.children, cfg.name) == -1 ==> NewRun(cfg, directory).Some?
    ensures DoesAt(Start(node, cfg, directory), path[1..]) == DoesAt(node, path)
    ensures CollisionsIn(cfg, path, directory, DoesAt(node, path).Some?) ==
              Collisions(cfg.commands, path[1..], Directory(cfg, directory), DoesAt(node, path).Some?)
    ensures OriginIn(cfg, path, directory) == Origin(cfg.commands, path[1..], Directory(cfg, directory))
  {
    hide BehaviourOf, Collisions, Origin, NewRun, CommandName;
  }

  // ---------------------------------------------------------------- which entry, and in which directory

  /** The entries from the outermost to one for the path, each configured below the one before. */
  predicate IsChain(chain: seq<Config>, cfgs: seq<Config>, path: seq<string>)
    decreases |path|
  {
    && |chain| == |path|
    && (path != [] ==>
          && chain[0] in cfgs && CommandName(chain[0].name) == path[0]
          && IsChain(chain[1..], chain[0].commands, path[1..]))
  }

  /** An entry that adds a command where there is none. */
  predicate Adds(cfg: Config) {
    cfg.loadError.Some? || (cfg.cloneError.None? && !cfg.flags.Conflict?)
  }

  /** The chain to the first entry for the path that adds a command; empty if there is none. */
  function FirstChain(cfgs: seq<Config>, path: seq<string>): seq<Config>
    requires path != []
    decreases cfgs, 0
  {
    if cfgs == [] then []
    else
      var here := ChainIn(cfgs[0], path);
      if here != [] then here else FirstChain(cfgs[1..], path)
  }

  function ChainIn(cfg: Config, path: seq<string>): seq<Config>
    requires path != []
    decreases cfg, 1
  {
    if CommandName(cfg.name) != path[0] then []
    else if |path| == 1 then if Adds(cfg) then [cfg] else []
    else
      var below := FirstChain(cfg.commands, path[1..]);
      if below == [] then [] else [cfg] + below
  }

  function Configured(chain: seq<Config>): (dirs: seq<string>)
    ensures |dirs| == |chain| && forall i :: 0 <= i < |chain| ==> dirs[i] == chain[i].workingDirectory
  {
    seq(|chain|, i requires 0 <= i < |chain| => chain[i].workingDirectory)
  }

  predicate AllEmpty(dirs: seq<string>) {
    forall i :: 0 <= i < |dirs| ==> dirs[i] == ""
  }

  predicate NearestAt(d: string, dirs: seq<string>, i: int) {
    0 <= i < |dirs| && dirs[i] == d && d != "" && forall j :: i < j < |dirs| ==> dirs[j] == ""
  }

  /** d is the last of the directories that is not empty, or empty if all are. */
  predicate IsNearest(d: string, dirs: seq<string>) {
    if AllEmpty(dirs) then d == "" else exists i :: 0 <= i < |dirs| && NearestAt(d, dirs, i)
  }

  /** What the entry makes of a new command: it runs in d, or is a stub that reports what is wrong with it. */
  predicate RunsAs(run: Run, cfg: Config, d: string) {
    if cfg.loadError.Some? then run == Stub(cfg.loadError.value)
    else
      match cfg.flags
      case Accepted => run == Custom(cfg.name, d)
      case Unusable(cause) => run == Stub(cause)
      case Conflict(_) => false
  }

  lemma NearestNext(d: string, directory: string, first: string, dirs: seq<string>)
    requires IsNearest(d, [if first == "" then directory else first] + dirs)
    ensures IsNearest(d, [directory] + ([first] + dirs))
  {
    hide AllEmpty, NearestAt;
    var start := if first == "" then directory else first;
    var inner, all := [start] + dirs, [directory] + ([first] + dirs);
    EmptyNext(directory, first, dirs);
    if !AllEmpty(inner) {
      var i :| 0 <= i < |inner| && NearestAt(d, inner, i);
      ShiftedNearest(d, directory, first, dirs, i);
      var k := if i > 0 then i + 1 else if first == "" then 0 else 1;
      assert NearestAt(d, all, k);
    }
  }

  lemma EmptyNext(directory: string, first: string, dirs: seq<string>)
    ensures AllEmpty([if first == "" then directory else first] + dirs) <==> AllEmpty([directory] + ([first] + dirs))
  {
    var inner, all := [if first == "" then directory else first] + dirs, [directory] + ([first] + dirs);
    assert all[0] == directory && all[1] == first && inner[0] == if first == "" then directory else first;
    assert forall i :: 1 <= i < |inner| ==> inner[i] == dirs[i - 1] == all[i + 1];
    if AllEmpty(all) {
      forall i | 0 <= i < |inner| ensures inner[i] == "" {
        assert i > 0 ==> inner[i] == all[i + 1];
      }
    }
    if AllEmpty(inner) {
      forall i | 0 <= i < |all| ensures all[i] == "" {
        assert i > 1 ==> all[i] == inner[i - 1];
      }
    }
  }

  lemma ShiftedNearest(d: string, directory: string, first: string, dirs: seq<string>, i: int)
    requires NearestAt(d, [if first == "" then directory else first] + dirs, i)
    ensures NearestAt(d, [directory] + ([first] + dirs), if i > 0 then i + 1 else if first == "" then 0 else 1)
  {
    var inner, all := [if first == "" then directory else first] + dirs, [directory] + ([first] + dirs);
    assert all[0] == directory && all[1] == first;
    var k := if i > 0 then i + 1 else if first == "" then 0 else 1;
    forall j | k < j < |all| ensures all[j] == "" {
      if j > 1 {
        assert all[j] == dirs[j - 2] == inner[j - 1];
      }
    }
    assert i > 0 ==> all[i + 1] == dirs[i - 1] == inner[i];
  }

  lemma {:induction false} OriginOfChain(cfgs: seq<Config>, path: seq<string>, directory: string)
    requires path != []
    ensures OriginSays(Origin(cfgs, path, directory), FirstChain(cfgs, path), directory)
    ensures FirstChain(cfgs, path) != [] ==> IsChain(FirstChain(cfgs, path), cfgs, path)
    decreases cfgs, 0
  {
    hide OriginIn, ChainIn, OriginSays, CommandName;
    if cfgs == [] {
      NoOrigin(directory);
    } else {
      OriginOfChainIn(cfgs[0], path, directory);
      OriginOfChain(cfgs[1..], path, directory);
      SomeOrNone(OriginIn(cfgs[0], path, directory), ChainIn(cfgs[0], path), directory);
    }
  }

  ghost predicate OriginSays(does: Option<Behaviour>, chain: seq<Config>, directory: string) {
    if chain == [] then does.None?
    else
      && does.Some?
      && does.value.before == HookOf(chain[|chain| - 1], does.value.run)
      && exists d :: IsNearest(d, [directory] + Configured(chain)) && RunsAs(does.value.run, chain[|chain| - 1], d)
  }

  /** Before it runs, a new command calls its own hook, whose error does not count; a stub has none. */
  function HookOf(cfg: Config, run: Run): seq<Effect> {
    if run.Stub? then [] else [Called(cfg.name, false)]
  }

  lemma NoOrigin(directory: string)
    ensures OriginSays(None, [], directory)
  {
  }

  lemma SomeOrNone(does: Option<Behaviour>, chain: seq<Config>, directory: string)
    requires OriginSays(does, chain, directory)
    ensures does.Some? <==> chain != []
  {
  }

  lemma {:induction false} OriginOfChainIn(cfg: Config, path: seq<string>, directory: string)
    requires path != []
    ensures OriginSays(OriginIn(cfg, path, directory), ChainIn(cfg, path), directory)
    ensures ChainIn(cfg, path) != [] ==> IsChain(ChainIn(cfg, path), [cfg], path)
    decreases cfg, 1
  {
    hide OriginSays, CommandName, IsNearest;
    if CommandName(cfg.name) != path[0] {
      NoOrigin(directory);
    } else if |path| == 1 {
      NewRunSays(cfg, directory);
      assert [cfg][1..] == [];
    } else {
      var chain := FirstChain(cfg.commands, path[1..]);
      OriginOfChain(cfg.commands, path[1..], Directory(cfg, directory));
      ChainLonger(Origin(cfg.commands, path[1..], Directory(cfg, directory)), cfg, chain, directory);
      assert ([cfg] + chain)[0] == cfg && ([cfg] + chain)[1..] == chain;
    }
  }

  lemma NewRunSays(cfg: Config, directory: string)
    ensures OriginSays(NewBehaviour(cfg, directory), if Adds(cfg) then [cfg] else [], directory)
  {
    hide IsNearest;
    if Adds(cfg) {
      var d := Directory(cfg, directory);
      AloneIsNearest(d);
      NearestNext(d, directory, cfg.workingDirectory, []);
      assert [d] + [] == [d];
      assert [cfg.workingDirectory] + [] == Configured([cfg]);
    }
  }

  lemma AloneIsNearest(d: string)
    ensures IsNearest(d, [d] + [])
  {
    var dirs := [d] + [];
    assert dirs[0] == d;
    if d == "" {
      assert AllEmpty(dirs);
    } else {
      assert NearestAt(d, dirs, 0) && !AllEmpty(dirs);
    }
  }

  lemma ChainLonger(does: Option<Behaviour>, cfg: Config, chain: seq<Config>, directory: string)
    requires OriginSays(does, chain, Directory(cfg, directory))
    ensures OriginSays(does, if chain == [] then [] else [cfg] + chain, directory)
  {
    hide IsNearest, RunsAs;
    if chain != [] {
      var d :| IsNearest(d, [Directory(cfg, directory)] + Configured(chain))
        && RunsAs(does.value.run, chain[|chain| - 1], d);
      NearestNext(d, directory, cfg.workingDirectory, Configured(chain));
      assert [cfg.workingDirectory] + Configured(chain) == Configured([cfg] + chain);
      assert ([cfg] + chain)[|chain|] == chain[|chain| - 1];
    }
  }

  /**
  A command is new at a path exactly when some chain of entries leads there, and runs as the last entry of the
  first such chain says, in the nearest working directory configured along the chain, or else the one given.
   */
  lemma {:induction false} NewCommandRuns(node: Node, cfgs: seq<Config>, directory: string, path: seq<string>)
    requires path != [] && AddsApart(node, cfgs, directory) && RegisterAll(node, cfgs, directory).err.None?
    requires DoesAt(node, path).None?
    ensures var does, chain := DoesAt(RegisterAll(node, cfgs, directory).node, path), FirstChain(cfgs, path);
            && (does.Some? <==> chain != [])
            && (does.Some? ==>
                  && IsChain(chain, cfgs, path)
                  && does.value.before ==
                       Collisions(cfgs, path, directory, false) + HookOf(chain[|chain| - 1], does.value.run)
                  && exists d :: IsNearest(d, [directory] + Configured(chain))
                       && RunsAs(does.value.run, chain[|chain| - 1], d))
  {
    hide DoesAt, Origin, Collisions, FirstChain, IsNearest, RunsAs, AddsApart, RegisterAll, IsChain;
    RegisterAllRuns(node, cfgs, directory, path);
    OriginOfChain(cfgs, path, directory);
  }

  // ---------------------------------------------------------------- registering again

  /** Every entry of cfgs has its command below n already. */
  predicate Covered(n: Node, cfgs: seq<Config>)
    decreases cfgs, 0
  {
    cfgs != [] ==> CoveredOne(n, cfgs[0]) && Covered(n, cfgs[1..])
  }

  predicate CoveredOne(n: Node, cfg: Config)
    decreases cfg, 1
  {
    var i := FindSubcommand(n.children, cfg.name);
    i != -1 && Fatal(cfg, true).None? && Covered(n.children[i], cfg.commands)
  }

  lemma {:induction false} FindInExtension(old': seq<Node>, new': seq<Node>, name: string)
    requires ExtendsAll(old', new') && FindSubcommand(old', name) != -1
    ensures FindSubcommand(new', name) == FindSubcommand(old', name)
  {
    if old'[0].name != name {
      FindInExtension(old'[1..], new'[1..], name);
    }
  }

  lemma {:induction false} CoveredByExtension(n: Node, m: Node, cfgs: seq<Config>)
    requires Covered(n, cfgs) && Extends(n, m)
    ensures Covered(m, cfgs)
    decreases cfgs, 0
  {
    if cfgs != [] {
      CoveredOneByExtension(n, m, cfgs[0]);
      CoveredByExtension(n, m, cfgs[1..]);
    }
  }

  lemma {:induction false} CoveredOneByExtension(n: Node, m: Node, cfg: Config)
    requires CoveredOne(n, cfg) && Extends(n, m)
    ensures CoveredOne(m, cfg)
    decreases cfg, 1
  {
    var i := FindSubcommand(n.children, cfg.name);
    FindInExtension(n.children, m.children, cfg.name);
    ExtendsAt(n.children, m.children);
    CoveredByExtension(n.children[i], m.children[i], cfg.commands);
  }

  lemma {:induction false} RegisteredIsCovered(node: Node, cfgs: seq<Config>, directory: string)
    requires (forall c :: c in cfgs ==> SpaceFree(c)) && RegisterAll(node, cfgs, directory).err.None?
    ensures Covered(RegisterAll(node, cfgs, directory).node, cfgs)
    decreases cfgs, 0
  {
    if cfgs != [] {
      assert cfgs[0] in cfgs;
      var first := Register(node, cfgs[0], directory);
      RegisteredOneIsCovered(node, cfgs[0], directory);
      RegisteredIsCovered(first.node, cfgs[1..], directory);
      RegisterAllExtends(first.node, cfgs[1..], directory);
      CoveredOneByExtension(first.node, RegisterAll(first.node, cfgs[1..], directory).node, cfgs[0]);
    }
  }

  lemma {:induction false} RegisteredOneIsCovered(node: Node, cfg: Config, directory: string)
    requires SpaceFree(cfg) && Register(node, cfg, directory).err.None?
    ensures CoveredOne(Register(node, cfg, directory).node, cfg)
    decreases cfg, 1
  {
    hide Extends, Covered, RegisterAll, CommandName;
    var i := FindSubcommand(node.children, cfg.name);
    var start := if i != -1 then Reused(node.children[i], cfg) else NewNode(cfg, directory);
    RegisteredIsCovered(start, cfg.commands, Directory(cfg, directory));
    var below := RegisterAll(start, cfg.commands, Directory(cfg, directory));
    RegisterAllExtends(start, cfg.commands, Directory(cfg, directory));
    ExtendsName(start, below.node);
    if i != -1 {
      FindAfterUpdate(node.children, i, below.node, cfg.name);
    } else {
      FindAfterAppend(node.children, below.node, cfg.name);
    }
  }

  /** The tree without its PreRunE hooks, which is where the warnings are. */
  function Quiet(n: Node): Node
    decreases n, 1
  {
    Node(n.name, n.run, None, n.preRun, QuietAll(n.children))
  }

  function QuietAll(ns: seq<Node>): (quiet: seq<Node>)
    ensures |quiet| == |ns|
    decreases ns, 0
  {
    if ns == [] then [] else [Quiet(ns[0])] + QuietAll(ns[1..])
  }

  lemma {:induction false} QuietAfterUpdate(ns: seq<Node>, i: nat, n: Node)
    requires i < |ns| && Quiet(n) == Quiet(ns[i])
    ensures QuietAll(ns[i := n]) == QuietAll(ns)
  {
    if i > 0 {
      QuietAfterUpdate(ns[1..], i - 1, n);
      assert ns[i := n][1..] == ns[1..][i - 1 := n];
    } else {
      assert ns[i := n][1..] == ns[1..];
    }
  }

  lemma {:induction false} CoveredAddsNothing(n: Node, cfgs: seq<Config>, directory: string)
    requires Covered(n, cfgs)
    ensures RegisterAll(n, cfgs, directory).err.None? && Quiet(RegisterAll(n, cfgs, directory).node) == Quiet(n)
    decreases cfgs, 0
  {
    if cfgs != [] {
      CoveredOneAddsNothing(n, cfgs[0], directory);
      var first := Register(n, cfgs[0], directory);
      RegisterExtends(n, cfgs[0], directory);
      CoveredByExtension(n, first.node, cfgs[1..]);
      CoveredAddsNothing(first.node, cfgs[1..], directory);
    }
  }

  lemma {:induction false} CoveredOneAddsNothing(n: Node, cfg: Config, directory: string)
    requires CoveredOne(n, cfg)
    ensures Register(n, cfg, directory).err.None? && Quiet(Register(n, cfg, directory).node) == Quiet(n)
    decreases cfg, 1
  {
    var i := FindSubcommand(n.children, cfg.name);
    var child := n.children[i];
    var warned := Reused(child, cfg);
    ReusedExtends(child, cfg);
    CoveredByExtension(child, warned, cfg.commands);
    CoveredAddsNothing(warned, cfg.commands, Directory(cfg, directory));
    QuietAfterUpdate(n.children, i, RegisterAll(warned, cfg.commands, Directory(cfg, directory)).node);
  }

  /** Processing the same configuration again ends without error and adds no command, at most warnings. */
  lemma {:induction false} RegisterTwice(node: Node, cfgs: seq<Config>, directory: string)
    requires (forall c :: c in cfgs ==> SpaceFree(c)) && RegisterAll(node, cfgs, directory).err.None?
    ensures var once := RegisterAll(node, cfgs, directory).node;
            var twice := RegisterAll(once, cfgs, directory);
            twice.err.None? && Quiet(twice.node) == Quiet(once)
  {
    RegisteredIsCovered(node, cfgs, directory);
    CoveredAddsNothing(RegisterAll(node, cfgs, directory).node, cfgs, directory);
  }

  function Count(n: Node): nat
    decreases n, 1
  {
    1 + CountAll(n.children)
  }

  function CountAll(ns: seq<Node>): nat
    decreases ns, 0
  {
    if ns == [] then 0 else Count(ns[0]) + CountAll(ns[1..])
  }

  lemma {:induction false} CountAfterUpdate(ns: seq<Node>, i: nat, n: Node)
    requires i < |ns|
    ensures CountAll(ns[i := n]) == CountAll(ns) - Count(ns[i]) + Count(n)
  {
    hide Count;
    var all := ns[i := n];
    if i > 0 {
      assert all[0] == ns[0] && all[1..] == ns[1..][i - 1 := n];
      CountAfterUpdate(ns[1..], i - 1, n);
    } else {
      assert all[0] == n && all[1..] == ns[1..];
    }
  }

  lemma {:induction false} CountAfterAppend(ns: seq<Node>, n: Node)
    ensures CountAll(ns + [n]) == CountAll(ns) + Count(n)
  {
    hide Count;
    var all := ns + [n];
    if ns == [] {
      assert all == [n] && all[1..] == [];
    } else {
      assert all[0] == ns[0] && all[1..] == ns[1..] + [n];
      CountAfterAppend(ns[1..], n);
    }
  }

  lemma {:induction false} CountOfQuiet(n: Node)
    ensures Count(Quiet(n)) == Count(n)
    decreases n, 1
  {
    CountOfQuietAll(n.children);
  }

  lemma {:induction false} CountOfQuietAll(ns: seq<Node>)
    ensures CountAll(QuietAll(ns)) == CountAll(ns)
    decreases ns, 0
  {
    if ns != [] {
      CountOfQuiet(ns[0]);
      CountOfQuietAll(ns[1..]);
    }
  }

  /** Registration never lowers the number of commands, and raises it for a name with a space at any depth. */
  lemma {:induction false} RegisterAllCounts(node: Node, cfgs: seq<Config>, directory: string)
    ensures var all := RegisterAll(node, cfgs, directory);
            && Count(all.node) >= Count(node)
            && (all.err.None? && !(forall c :: c in cfgs ==> SpaceFree(c)) ==> Count(all.node) > Count(node))
    decreases cfgs, 0
  {
    hide Count, Register, SpaceFree;
    if cfgs != [] {
      RegisterCounts(node, cfgs[0], directory);
      var first := Register(node, cfgs[0], directory);
      if first.err.None? {
        RegisterAllCounts(first.node, cfgs[1..], directory);
        assert forall c :: c in cfgs <==> c == cfgs[0] || c in cfgs[1..];
      }
    }
  }

  lemma {:induction false} RegisterCounts(node: Node, cfg: Config, directory: string)
    ensures var one := Register(node, cfg, directory);
            Count(one.node) >= Count(node) && (one.err.None? && !SpaceFree(cfg) ==> Count(one.node) > Count(node))
    decreases cfg, 1
  {
    hide CountAll, RegisterAll, FindSubcommand, CommandName;
    var i := FindSubcommand(node.children, cfg.name);
    if Fatal(cfg, i != -1).None? {
      var start := Start(node, cfg, directory);
      RegisterAllCounts(start, cfg.commands, Directory(cfg, directory));
      var below := RegisterAll(start, cfg.commands, Directory(cfg, directory)).node;
      if i != -1 {
        FoundInPlace(node, cfg);
        CountAfterUpdate(node.children, i, below);
      } else {
        CountAfterAppend(node.children, below);
      }
    }
  }

  /**
  After a registration without error, processing the same configuration again ends without error and changes
  nothing but warnings exactly when no configured name has a space.
   */
  lemma {:induction false} RegisterTwiceIff(node: Node, cfgs: seq<Config>, directory: string)
    requires RegisterAll(node, cfgs, directory).err.None?
    ensures var once := RegisterAll(node, cfgs, directory).node;
            var twice := RegisterAll(once, cfgs, directory);
            (twice.err.None? && Quiet(twice.node) == Quiet(once) <==> forall c :: c in cfgs ==> SpaceFree(c))
  {
    hide Count, RegisterAll, Quiet, SpaceFree;
    var once := RegisterAll(node, cfgs, directory).node;
    var twice := RegisterAll(once, cfgs, directory);
    if forall c :: c in cfgs ==> SpaceFree(c) {
      RegisterTwice(node, cfgs, directory);
    } else {
      RegisterAllCounts(once, cfgs, directory);
      CountOfQuiet(once);
      CountOfQuiet(twice.node);
    }
  }

  /** A name with a space is registered under its first word and never found again, so it is added each time. */
  lemma SpacedNameIsAddedAgain()
    ensures var cfg := Config("a b", "", false, None, None, Accepted, []);
            var root := Node("atmos", Builtin("root"), None, None, []);
            var once := RegisterAll(root, [cfg], "").node;
            var twice := RegisterAll(once, [cfg], "").node;
            |once.children| == 1 && |twice.children| == 2 && !Unique(twice)
  {
    var cfg := Config("a b", "", false, None, None, Accepted, []);
    var root := Node("atmos", Builtin("root"), None, None, []);
    FirstWord();
    assert [cfg][1..] == [];
    var once := Register(root, cfg, "").node;
    assert once == RegisterAll(root, [cfg], "").node;
    assert once.children == [Node("a", Custom("a b", ""), None, Some(Given("a b")), [])];
    assert once.children[1..] == [];
    var twice := Register(once, cfg, "").node;
    assert twice == RegisterAll(once, [cfg], "").node;
    assert twice.children[0].name == "a" && twice.children[1].name == "a";
  }

  lemma FirstWord()
    ensures CommandName("a b") == "a"
  {
    ContainsChar("a", ' ');
    FirstSeparator("a", " ", "b");
    assert "a" + " " + "b" == "a b";
  }
}
