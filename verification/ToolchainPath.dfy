/**
Atmos's own PATH entries (cmd/toolchain_environment.go). Two environment variables are a small state
machine that every invocation, also a nested one, steps: PATH, and a marker that lists the directories
Atmos put there. Everything on PATH that the marker does not list is the user's. Unix list separator.
 */
module ToolchainPath {
  import opened Options
  import opened Text

  const MARKER := "_ATMOS_TOOLCHAIN_PATH"
  const PATH := "PATH"
  const COLON := ":"

  type Env = map<string, string>

  /** os.LookupEnv with the second result ignored. */
  function Get(vars: Env, key: string): string {
    if key in vars then vars[key] else ""
  }

  /** filepath.SplitList. */
  function SplitList(list: string): (dirs: seq<string>)
    ensures forall d :: d in dirs ==> !Contains(d, COLON)
  {
    if list == "" then [] else Split(list, COLON)
  }

  /** The entries of xs that ys does not have. */
  function Minus(xs: seq<string>, ys: seq<string>): seq<string> {
    if xs == [] then []
    else if xs[0] in ys then Minus(xs[1..], ys)
    else [xs[0]] + Minus(xs[1..], ys)
  }

  /** The entries of xs that ys has too. */
  function Common(xs: seq<string>, ys: seq<string>): seq<string> {
    if xs == [] then []
    else if xs[0] in ys then [xs[0]] + Common(xs[1..], ys)
    else Common(xs[1..], ys)
  }

  /** A variable that is not set reads as empty, and an empty list has no entry. */
  lemma ReadsOf(vars: Env, key: string, list: string)
    ensures key !in vars ==> Get(vars, key) == ""
    ensures key in vars ==> Get(vars, key) == vars[key]
    ensures SplitList("") == [] && (list != "" ==> SplitList(list) != [] && Join(SplitList(list), ":") == list)
  {
    if list != "" {
      JoinOfSplit(list, ":");
    }
  }

  // ---------------------------------------------------------------- the state

  /** The user's own entries: PATH without what the marker lists. */
  function User(vars: Env): seq<string> {
    Minus(SplitList(Get(vars, PATH)), SplitList(Get(vars, MARKER)))
  }

  function NewPath(dirs: seq<string>, user: seq<string>): seq<string> {
    dirs + Minus(user, dirs)
  }

  /** What the marker has to list: the directories that are not the user's already. */
  function Added(dirs: seq<string>, user: seq<string>): seq<string> {
    Minus(dirs, user)
  }

  predicate NothingToDo(vars: Env, dirs: seq<string>) {
    dirs == [] && Get(vars, MARKER) == ""
  }

  function Replaced(vars: Env, dirs: seq<string>): Env {
    if NothingToDo(vars, dirs) then vars
    else
      vars[PATH := Join(NewPath(dirs, User(vars)), COLON)][MARKER := Join(Added(dirs, User(vars)), COLON)]
  }

  // ---------------------------------------------------------------- the code

  class Process {
    var vars: Env

    constructor (vars: Env)
      ensures this.vars == vars
    {
      this.vars := vars;
    }

    /** os.Setenv refuses a value with a NUL character in it. */
    method Setenv(key: string, value: string) returns (ok: bool)
      modifies this
      ensures ok <==> '\0' !in value
      ensures vars == if ok then old(vars)[key := value] else old(vars)
    {
      ok := '\0' !in value;
      if ok {
        vars := vars[key := value];
      }
    }

    /** Both variables change, or neither does. */
    method ReplaceInstalledProjectPath(dirs: seq<string>) returns (ok: bool)
      modifies this
      ensures ok <==> NothingToDo(old(vars), dirs) || '\0' !in Join(NewPath(dirs, User(old(vars))), COLON)
      ensures vars == if ok then Replaced(old(vars), dirs) else old(vars)
    {
      hide Minus, Join, Split;
      var previous := Get(vars, MARKER);
      if |dirs| == 0 && previous == "" {
        return true;
      }
      var currentPath := Get(vars, PATH);
      var previousDirs := SplitList(previous);
      var current := SplitList(currentPath);
      var inherited: seq<string> := [];
      for i := 0 to |current|
        invariant vars == old(vars)
        invariant inherited + Minus(current[i..], previousDirs) == Minus(current, previousDirs)
      {
        MinusNext(inherited, current, i, previousDirs);
        if current[i] !in previousDirs {
          inherited := inherited + [current[i]];
        }
      }
      MinusDone(inherited, current, previousDirs);

      var selected: set<string> := {};
      var added: seq<string> := [];
      for i := 0 to |dirs|
        invariant vars == old(vars)
        invariant forall d :: d in selected <==> d in dirs[..i]
        invariant added + Minus(dirs[i..], inherited) == Minus(dirs, inherited)
      {
        MinusNext(added, dirs, i, inherited);
        assert dirs[..i + 1] == dirs[..i] + [dirs[i]];
        selected := selected + {dirs[i]};
        if dirs[i] !in inherited {
          added := added + [dirs[i]];
        }
      }
      MinusDone(added, dirs, inherited);
      assert dirs[..|dirs|] == dirs;

      ghost var kept: seq<string> := [];
      var result := dirs;
      for i := 0 to |inherited|
        invariant vars == old(vars)
        invariant result == dirs + kept
        invariant kept + Minus(inherited[i..], dirs) == Minus(inherited, dirs)
      {
        MinusNext(kept, inherited, i, dirs);
        if inherited[i] !in selected {
          kept := kept + [inherited[i]];
          result := result + [inherited[i]];
        }
      }
      MinusDone(kept, inherited, dirs);
      AddedIsOnPath(dirs, inherited, '\0');
      ok := Setenv(PATH, Join(result, COLON));
      if !ok {
        return;
      }
      ok := Setenv(MARKER, Join(added, COLON));
    }

    /** The baseline is cleared first, so it is gone even when the new manifest cannot be read. */
    method ApplyInstalledProjectTools(toolchainDirs: Option<seq<string>>) returns (ok: bool)
      modifies this
      ensures ok ==> toolchainDirs.Some? && vars == Replaced(Replaced(old(vars), []), toolchainDirs.value)
      ensures !ok ==> vars == old(vars) || vars == Replaced(old(vars), [])
      ensures toolchainDirs.None? && '\0' !in Get(old(vars), PATH) ==> !ok && vars == Replaced(old(vars), [])
    {
      NoNulInUser(vars);
      ok := ReplaceInstalledProjectPath([]);
      if !ok {
        return;
      }
      if toolchainDirs.None? {
        return false;
      }
      ok := ReplaceInstalledProjectPath(toolchainDirs.value);
    }
  }

  // ---------------------------------------------------------------- characters of a joined list

  lemma {:induction false} JoinChars(parts: seq<string>, c: char)
    requires c != ':'
    ensures c in Join(parts, COLON) <==> exists p :: p in parts && c in p
  {
    if |parts| == 1 {
      assert parts[0] in parts;
    } else if |parts| > 1 {
      JoinChars(parts[1..], c);
      assert parts[0] in parts;
      assert forall p :: p in parts <==> p == parts[0] || p in parts[1..];
    }
  }

  lemma {:induction false} MinusMembers(xs: seq<string>, ys: seq<string>)
    ensures forall x :: x in Minus(xs, ys) <==> x in xs && x !in ys
  {
    if xs != [] {
      MinusMembers(xs[1..], ys);
      assert forall x :: x in xs <==> x == xs[0] || x in xs[1..];
    }
  }

  lemma {:induction false} CommonMembers(xs: seq<string>, ys: seq<string>)
    ensures forall x :: x in Common(xs, ys) <==> x in xs && x in ys
  {
    if xs != [] {
      CommonMembers(xs[1..], ys);
      assert forall x :: x in xs <==> x == xs[0] || x in xs[1..];
    }
  }

  lemma MinusNext(done: seq<string>, xs: seq<string>, i: nat, ys: seq<string>)
    requires i < |xs|
    ensures done + Minus(xs[i..], ys) == (if xs[i] in ys then done else done + [xs[i]]) + Minus(xs[i + 1..], ys)
  {
    assert xs[i..][0] == xs[i] && xs[i..][1..] == xs[i + 1..];
  }

  lemma MinusDone(done: seq<string>, xs: seq<string>, ys: seq<string>)
    ensures done + Minus(xs[|xs|..], ys) == done
  {
  }

  lemma AddedIsOnPath(dirs: seq<string>, user: seq<string>, c: char)
    requires c != ':'
    ensures c in Join(Added(dirs, user), COLON) ==> c in Join(NewPath(dirs, user), COLON)
  {
    JoinChars(Added(dirs, user), c);
    JoinChars(NewPath(dirs, user), c);
    MinusMembers(dirs, user);
  }

  lemma NoNulInUser(vars: Env)
    ensures '\0' !in Get(vars, PATH) ==> '\0' !in Join(NewPath([], User(vars)), COLON)
  {
    var entries, user := SplitList(Get(vars, PATH)), User(vars);
    MinusMembers(entries, SplitList(Get(vars, MARKER)));
    MinusMembers(user, []);
    JoinChars(NewPath([], user), '\0');
    if Get(vars, PATH) != "" {
      JoinOfSplit(Get(vars, PATH), COLON);
      JoinChars(entries, '\0');
    }
  }

  // ---------------------------------------------------------------- lists that are joined and split again

  /** The pieces that the separator cuts the entries into. */
  function Pieces(dirs: seq<string>): seq<string> {
    if dirs == [] then [] else Split(dirs[0], COLON) + Pieces(dirs[1..])
  }

  lemma {:induction false} PieceOf(dirs: seq<string>, x: string)
    ensures x in Pieces(dirs) <==> exists d :: d in dirs && x in Split(d, COLON)
  {
    if dirs != [] {
      PieceOf(dirs[1..], x);
      assert dirs[0] in dirs;
      assert forall d :: d in dirs <==> d == dirs[0] || d in dirs[1..];
    }
  }

  lemma {:induction false} JoinOfPieces(dirs: seq<string>)
    requires dirs != []
    ensures Pieces(dirs) != [] && Join(Pieces(dirs), COLON) == Join(dirs, COLON)
    ensures forall p :: p in Pieces(dirs) ==> !Contains(p, COLON)
  {
    JoinOfSplit(dirs[0], COLON);
    if |dirs| == 1 {
      assert Pieces(dirs) == Split(dirs[0], COLON);
    } else {
      JoinOfPieces(dirs[1..]);
      JoinAppend(Split(dirs[0], COLON), Pieces(dirs[1..]), COLON);
    }
  }

  /** A list that is joined and split again comes back in pieces; one that joins to "" comes back empty. */
  lemma {:induction false} SplitListOfJoin(dirs: seq<string>)
    ensures SplitList(Join(dirs, COLON)) == if Join(dirs, COLON) == "" then [] else Pieces(dirs)
    ensures Join(dirs, COLON) == "" <==> dirs == [] || dirs == [""]
  {
    if |dirs| > 1 {
      assert Join(dirs, COLON)[|dirs[0]|] == ':';
    }
    if Join(dirs, COLON) != "" {
      JoinOfPieces(dirs);
      SplitOfJoin(Pieces(dirs), COLON);
    }
  }

  lemma {:induction false} PlainPieces(dirs: seq<string>)
    requires forall d :: d in dirs ==> !Contains(d, COLON)
    ensures Pieces(dirs) == dirs
  {
    if dirs != [] {
      PlainPieces(dirs[1..]);
      assert dirs[0] in dirs;
    }
  }

  // ---------------------------------------------------------------- one call, any directories

  lemma UserHasNoColon(vars: Env)
    ensures forall u :: u in User(vars) ==> !Contains(u, COLON)
  {
    MinusMembers(SplitList(Get(vars, PATH)), SplitList(Get(vars, MARKER)));
  }

  lemma {:induction false} UserAfter(vars: Env, dirs: seq<string>)
    requires !NothingToDo(vars, dirs)
    ensures var path, added := NewPath(dirs, User(vars)), Added(dirs, User(vars));
            User(Replaced(vars, dirs)) == Minus(if Join(path, COLON) == "" then [] else Pieces(path),
                                                if Join(added, COLON) == "" then [] else Pieces(added))
  {
    SplitListOfJoin(NewPath(dirs, User(vars)));
    SplitListOfJoin(Added(dirs, User(vars)));
  }

  /** The same entries, in any order and number. */
  ghost predicate SameEntries(a: seq<string>, b: seq<string>) {
    forall x :: x in a <==> x in b
  }

  /**
  No piece of a directory that the call adds is one of the user's entries, it does not add just the empty
  directory, and it does not leave an empty string for the user's entries.
   */
  predicate Keeps(vars: Env, dirs: seq<string>) {
    var user, path, added := User(vars), NewPath(dirs, User(vars)), Added(dirs, User(vars));
    || NothingToDo(vars, dirs)
    || (if Join(path, COLON) == "" then user == [] else added != [""] && forall u :: u in user ==> u !in Pieces(added))
  }

  /** One call keeps the set of user entries exactly under that condition. */
  lemma {:induction false} UserEntriesKeptIff(vars: Env, dirs: seq<string>)
    ensures SameEntries(User(Replaced(vars, dirs)), User(vars)) <==> Keeps(vars, dirs)
  {
    if !NothingToDo(vars, dirs) {
      EntriesKeptIff(vars, dirs);
    }
  }

  lemma {:induction false} EntriesKeptIff(vars: Env, dirs: seq<string>)
    requires !NothingToDo(vars, dirs)
    ensures SameEntries(User(Replaced(vars, dirs)), User(vars)) <==> Keeps(vars, dirs)
  {
    var user, path, added := User(vars), NewPath(dirs, User(vars)), Added(dirs, User(vars));
    UserAfter(vars, dirs);
    var p := if Join(path, COLON) == "" then [] else Pieces(path);
    var a := if Join(added, COLON) == "" then [] else Pieces(added);
    SplitListOfJoin(added);
    SplitListOfJoin(path);
    MinusMembers(p, a);
    if Join(path, COLON) == "" {
      assert user != [] ==> user[0] in user;
    } else {
      forall x ensures x in Pieces(path) <==> x in user || x in Pieces(added) {
        PiecesOfPath(vars, dirs, x);
      }
      if added == [""] {
        MinusMembers(dirs, user);
        assert "" in added;
        EmptyPiece(added);
      }
    }
  }

  lemma EmptyPiece(added: seq<string>)
    requires added == [""]
    ensures "" in Pieces(added)
  {
    assert Index("", COLON) == -1;
  }

  lemma {:induction false} PiecesOfPath(vars: Env, dirs: seq<string>, x: string)
    ensures x in Pieces(NewPath(dirs, User(vars))) <==> x in User(vars) || x in Pieces(Added(dirs, User(vars)))
  {
    var user := User(vars);
    var path, added := NewPath(dirs, user), Added(dirs, user);
    UserHasNoColon(vars);
    PieceOf(path, x);
    PieceOf(added, x);
    MinusMembers(dirs, user);
    MinusMembers(user, dirs);
    assert forall d :: d in path <==> d in user || d in added;
    forall u | u in user ensures Split(u, COLON) == [u] {
      SplitNone(u, COLON);
    }
  }

  // ---------------------------------------------------------------- directories that a list can hold

  /** No entry is empty or has a separator in it; a PATH entry cannot be written otherwise. */
  predicate Listable(dirs: seq<string>) {
    forall d :: d in dirs ==> d != "" && !Contains(d, COLON)
  }

  lemma {:induction false} MinusAppend(a: seq<string>, b: seq<string>, ys: seq<string>)
    ensures Minus(a + b, ys) == Minus(a, ys) + Minus(b, ys)
  {
    if a == [] {
      assert a + b == b;
    } else {
      var all := a + b;
      assert all[0] == a[0] && all[1..] == a[1..] + b;
      MinusAppend(a[1..], b, ys);
    }
  }

  lemma {:induction false} MinusSame(xs: seq<string>, ys: seq<string>, zs: seq<string>)
    requires forall x :: x in xs ==> (x in ys <==> x in zs)
    ensures Minus(xs, ys) == Minus(xs, zs) && Common(xs, ys) == Common(xs, zs)
  {
    if xs != [] {
      assert xs[0] in xs;
      MinusSame(xs[1..], ys, zs);
    }
  }

  lemma {:induction false} MinusNone(xs: seq<string>, ys: seq<string>)
    requires forall x :: x in xs ==> x !in ys
    ensures Minus(xs, ys) == xs && Common(xs, ys) == []
  {
    if xs != [] {
      assert xs[0] in xs;
      MinusNone(xs[1..], ys);
    }
  }

  lemma {:induction false} MinusAll(xs: seq<string>, ys: seq<string>)
    requires forall x :: x in xs ==> x in ys
    ensures Minus(xs, ys) == []
  {
    if xs != [] {
      assert xs[0] in xs;
      MinusAll(xs[1..], ys);
    }
  }

  /** Taking away ys and then zs, where zs has all of ys, is taking away zs. */
  lemma {:induction false} MinusTwice(xs: seq<string>, ys: seq<string>, zs: seq<string>)
    requires forall y :: y in ys ==> y in zs
    ensures Minus(Minus(xs, ys), zs) == Minus(xs, zs)
  {
    if xs != [] {
      MinusTwice(xs[1..], ys, zs);
      if xs[0] !in ys {
        assert Minus(xs, ys)[1..] == Minus(xs[1..], ys);
      }
    }
  }

  /** The user's entries after a call: those the call names first, the others unchanged behind them. */
  function Reordered(dirs: seq<string>, user: seq<string>): seq<string> {
    Common(dirs, user) + Minus(user, dirs)
  }

  lemma {:induction false} ListsAfter(vars: Env, dirs: seq<string>)
    requires Listable(dirs) && (dirs != [] || User(vars) != [""]) && !NothingToDo(vars, dirs)
    ensures SplitList(Get(Replaced(vars, dirs), PATH)) == NewPath(dirs, User(vars))
    ensures SplitList(Get(Replaced(vars, dirs), MARKER)) == Added(dirs, User(vars))
  {
    var user := User(vars);
    var path, added := NewPath(dirs, user), Added(dirs, user);
    UserHasNoColon(vars);
    MinusMembers(dirs, user);
    MinusMembers(user, dirs);
    PlainPieces(path);
    PlainPieces(added);
    SplitListOfJoin(path);
    SplitListOfJoin(added);
    if dirs == [] {
      MinusNone(user, []);
    } else {
      assert path[0] == dirs[0] && dirs[0] in dirs;
    }
    if added != [] {
      assert added[0] in added;
    }
  }

  lemma {:induction false} PiecesAppend(a: seq<string>, b: seq<string>)
    ensures Pieces(a + b) == Pieces(a) + Pieces(b)
  {
    hide Split;
    if a == [] {
      assert a + b == b;
    } else {
      assert (a + b)[1..] == a[1..] + b;
      PiecesAppend(a[1..], b);
    }
  }

  /** Of the pieces of directories, those of the added ones go and the user's entries stay. */
  lemma {:induction false} PiecesLeft(dirs: seq<string>, user: seq<string>, gone: seq<string>)
    requires forall u :: u in user ==> !Contains(u, COLON) && u !in gone
    requires forall d, x :: d in dirs && d !in user && x in Split(d, COLON) ==> x in gone
    ensures Minus(Pieces(dirs), gone) == Common(dirs, user)
  {
    if dirs != [] {
      var first := Split(dirs[0], COLON);
      assert dirs[0] in dirs;
      PiecesLeft(dirs[1..], user, gone);
      MinusAppend(first, Pieces(dirs[1..]), gone);
      if dirs[0] in user {
        SplitNone(dirs[0], COLON);
        MinusNone(first, gone);
      } else {
        MinusAll(first, gone);
      }
    }
  }

  /** Under the condition of one call, the user's entries afterwards are those the call names, then the others. */
  lemma {:induction false} UserAfterKept(vars: Env, dirs: seq<string>)
    requires Keeps(vars, dirs)
    ensures User(Replaced(vars, dirs)) == Reordered(dirs, User(vars))
  {
    hide Pieces, Split, Join;
    var user, added := User(vars), Added(dirs, User(vars));
    if NothingToDo(vars, dirs) {
      MinusNone(user, []);
    } else {
      UserAfter(vars, dirs);
      SplitListOfJoin(added);
      UserHasNoColon(vars);
      if Join(NewPath(dirs, user), COLON) == "" {
        NoUser(dirs);
      } else {
        NoPieces();
        PathLeft(dirs, user);
      }
    }
  }

  lemma NoUser(dirs: seq<string>)
    ensures Reordered(dirs, []) == [] && forall ys :: Minus([], ys) == []
  {
    MinusNone(dirs, []);
  }

  lemma NoPieces()
    ensures Pieces([]) == []
  {
  }

  lemma {:induction false} PathLeft(dirs: seq<string>, user: seq<string>)
    requires forall u :: u in user ==> !Contains(u, COLON) && u !in Pieces(Added(dirs, user))
    ensures Minus(Pieces(NewPath(dirs, user)), Pieces(Added(dirs, user))) == Reordered(dirs, user)
  {
    hide Split, Minus, Common, Contains, Pieces;
    var added, others := Added(dirs, user), Minus(user, dirs);
    MinusMembers(dirs, user);
    MinusMembers(user, dirs);
    PiecesAppend(dirs, others);
    PlainPieces(others);
    MinusAppend(Pieces(dirs), others, Pieces(added));
    MinusNone(others, Pieces(added));
    forall d, x | d in dirs && d !in user && x in Split(d, COLON) ensures x in Pieces(added) {
      PieceOf(added, x);
    }
    PiecesLeft(dirs, user, Pieces(added));
  }

  lemma {:induction false} ListableKeeps(vars: Env, dirs: seq<string>)
    requires Listable(dirs) && (dirs != [] || User(vars) != [""])
    ensures Keeps(vars, dirs)
    ensures User(vars) != [""] ==> Reordered(dirs, User(vars)) != [""]
  {
    var user := User(vars);
    if !NothingToDo(vars, dirs) {
      ListsAfter(vars, dirs);
      MinusOfNewPath(dirs, user);
      ReorderedSame(dirs, user);
      UserEntriesKeptIff(vars, dirs);
    }
    if user != [""] {
      NotOneEmpty(dirs, user);
    }
  }

  lemma ReorderedSame(dirs: seq<string>, user: seq<string>)
    ensures SameEntries(Reordered(dirs, user), user)
  {
    CommonMembers(dirs, user);
    MinusMembers(user, dirs);
  }

  lemma {:induction false} MinusOfNewPath(dirs: seq<string>, user: seq<string>)
    ensures Minus(NewPath(dirs, user), Added(dirs, user)) == Reordered(dirs, user)
  {
    var added := Added(dirs, user);
    MinusAppend(dirs, Minus(user, dirs), added);
    MinusMembers(dirs, user);
    MinusMembers(user, dirs);
    MinusNone(Minus(user, dirs), added);
    MinusOfMinus(dirs, user, added);
  }

  lemma {:induction false} MinusOfMinus(xs: seq<string>, ys: seq<string>, zs: seq<string>)
    requires forall x :: x in xs ==> (x in zs <==> x !in ys)
    ensures Minus(xs, zs) == Common(xs, ys)
  {
    if xs != [] {
      assert xs[0] in xs;
      MinusOfMinus(xs[1..], ys, zs);
    }
  }

  lemma {:induction false} NotOneEmpty(dirs: seq<string>, user: seq<string>)
    requires Listable(dirs) && user != [""]
    ensures Reordered(dirs, user) != [""]
  {
    CommonMembers(dirs, user);
    MinusMembers(user, dirs);
    var both := Common(dirs, user);
    if both == [] {
      forall u | u in user ensures u !in dirs {
        assert u !in both;
      }
      MinusNone(user, dirs);
    } else {
      assert both[0] in both;
      assert Reordered(dirs, user)[0] == both[0];
    }
  }

  // ---------------------------------------------------------------- whole runs

  function RunAll(vars: Env, calls: seq<seq<string>>): Env
    decreases |calls|
  {
    if calls == [] then vars else RunAll(Replaced(vars, calls[0]), calls[1..])
  }

  /** Each call of a run keeps the user's entries. */
  predicate EachKeeps(vars: Env, calls: seq<seq<string>>)
    decreases |calls|
  {
    calls == [] || (Keeps(vars, calls[0]) && EachKeeps(Replaced(vars, calls[0]), calls[1..]))
  }

  ghost predicate Named(calls: seq<seq<string>>, named: seq<string>) {
    forall c, d :: c in calls && d in c ==> d in named
  }

  /** The set of user entries is the same after every call. */
  ghost predicate NeverChanges(vars: Env, calls: seq<seq<string>>)
    decreases |calls|
  {
    calls == [] || (SameEntries(User(Replaced(vars, calls[0])), User(vars)) &&
        NeverChanges(Replaced(vars, calls[0]), calls[1..]))
  }

  /**
  Over any sequence of calls with any directories, the set of user entries never changes exactly when each
  call meets the condition; then the entries that no call names keep their order and number.
   */
  lemma {:induction false} RunKeepsUserEntries(vars: Env, calls: seq<seq<string>>, named: seq<string>)
    requires Named(calls, named)
    ensures EachKeeps(vars, calls) <==> NeverChanges(vars, calls)
    ensures EachKeeps(vars, calls) ==> SameEntries(User(RunAll(vars, calls)), User(vars))
    ensures EachKeeps(vars, calls) ==> Minus(User(RunAll(vars, calls)), named) == Minus(User(vars), named)
    decreases |calls|
  {
    hide Keeps, User, Replaced;
    if calls != [] {
      var dirs, user := calls[0], User(vars);
      assert dirs in calls && forall c :: c in calls[1..] ==> c in calls;
      UserEntriesKeptIff(vars, dirs);
      RunKeepsUserEntries(Replaced(vars, dirs), calls[1..], named);
      if Keeps(vars, dirs) {
        UserAfterKept(vars, dirs);
        UnnamedStay(dirs, user, named);
      }
    }
  }

  lemma UnnamedStay(dirs: seq<string>, user: seq<string>, named: seq<string>)
    requires forall d :: d in dirs ==> d in named
    ensures Minus(Reordered(dirs, user), named) == Minus(user, named)
  {
    CommonMembers(dirs, user);
    MinusMembers(user, dirs);
    MinusAppend(Common(dirs, user), Minus(user, dirs), named);
    MinusAll(Common(dirs, user), named);
    MinusTwice(user, dirs, named);
  }

  /** Directories that a list can hold always meet the condition, unless all the user has is one empty entry. */
  lemma {:induction false} ListableRunKeeps(vars: Env, calls: seq<seq<string>>)
    requires (forall c :: c in calls ==> Listable(c)) && User(vars) != [""]
    ensures EachKeeps(vars, calls)
    decreases |calls|
  {
    hide Keeps, User, Replaced, Listable;
    if calls != [] {
      assert calls[0] in calls;
      ListableKeeps(vars, calls[0]);
      UserAfterKept(vars, calls[0]);
      ListableRunKeeps(Replaced(vars, calls[0]), calls[1..]);
    }
  }

  /** Calls that name no user entry leave the user's list exactly as it was. */
  lemma {:induction false} RunLeavesUserList(vars: Env, calls: seq<seq<string>>, named: seq<string>)
    requires Named(calls, named) && EachKeeps(vars, calls) && forall u :: u in User(vars) ==> u !in named
    ensures User(RunAll(vars, calls)) == User(vars)
  {
    RunKeepsUserEntries(vars, calls, named);
    MinusNone(User(vars), named);
    MinusNone(User(RunAll(vars, calls)), named);
  }

  lemma JoinOfSplitList(list: string)
    ensures Join(SplitList(list), COLON) == list && SplitList(list) != [""]
  {
    if list != "" {
      JoinOfSplit(list, COLON);
    }
  }

  /** With nothing marked, all of PATH is the user's. */
  lemma UnmarkedPath(vars: Env)
    requires Get(vars, MARKER) == ""
    ensures User(vars) == SplitList(Get(vars, PATH)) != [""] && Join(User(vars), COLON) == Get(vars, PATH)
  {
    MinusNone(SplitList(Get(vars, PATH)), []);
    JoinOfSplitList(Get(vars, PATH));
  }

  lemma {:induction false} RunAppend(vars: Env, calls: seq<seq<string>>, last: seq<string>)
    ensures RunAll(vars, calls + [last]) == Replaced(RunAll(vars, calls), last)
    decreases |calls|
  {
    if calls == [] {
      assert (calls + [last])[1..] == [];
      assert RunAll(Replaced(vars, last), []) == Replaced(vars, last);
    } else {
      assert (calls + [last])[1..] == calls[1..] + [last];
      RunAppend(Replaced(vars, calls[0]), calls[1..], last);
    }
  }

  /**
  When no call names a user entry, only the last call shows, with any directories and also with none: its
  directories in front of the user's own PATH.
   */
  lemma {:induction false} LastCallDecides(vars: Env, calls: seq<seq<string>>, last: seq<string>, named: seq<string>)
    requires Named(calls + [last], named) && EachKeeps(vars, calls) && forall u :: u in User(vars) ==> u !in named
    ensures var after := RunAll(vars, calls + [last]);
            && Get(after, "PATH") == Join(last + User(vars), ":")
            && Get(after, "_ATMOS_TOOLCHAIN_PATH") == Join(last, ":")
  {
    var before := RunAll(vars, calls);
    assert forall c :: c in calls ==> c in calls + [last];
    assert last in calls + [last];
    RunLeavesUserList(vars, calls, named);
    RunAppend(vars, calls, last);
    MinusNone(User(vars), last);
    MinusNone(last, User(vars));
    if NothingToDo(before, last) {
      UnmarkedPath(before);
      assert last + User(vars) == User(vars);
    }
  }

  /** An empty call then restores the PATH that the user had before Atmos first ran. */
  lemma {:induction false} EmptyCallRestores(vars: Env, calls: seq<seq<string>>, named: seq<string>)
    requires Named(calls, named) && EachKeeps(vars, calls)
    requires Get(vars, MARKER) == "" && forall u :: u in User(vars) ==> u !in named
    ensures var after := RunAll(vars, calls + [[]]);
            Get(after, "PATH") == Get(vars, "PATH") && Get(after, "_ATMOS_TOOLCHAIN_PATH") == ""
  {
    hide User, EachKeeps, RunAll;
    assert forall c :: c in calls + [[]] ==> c in calls || c == [];
    LastCallDecides(vars, calls, [], named);
    UnmarkedPath(vars);
    assert [] + User(vars) == User(vars);
  }

  // ---------------------------------------------------------------- repeating and clearing

  lemma {:induction false} PlanStable(dirs: seq<string>, user: seq<string>)
    ensures NewPath(dirs, Reordered(dirs, user)) == NewPath(dirs, user)
    ensures Added(dirs, Reordered(dirs, user)) == Added(dirs, user)
  {
    hide Minus, Common;
    CommonMembers(dirs, user);
    MinusMembers(user, dirs);
    MinusSame(dirs, Reordered(dirs, user), user);
    UnnamedStay(dirs, user, dirs);
  }

  /** No piece of an added directory is a user entry. */
  predicate NoPieceOfUser(vars: Env, dirs: seq<string>) {
    forall u :: u in User(vars) ==> u !in Pieces(Added(dirs, User(vars)))
  }

  /** Repeating a call changes nothing more, with any directories, exactly under that condition. */
  lemma {:induction false} ReplaceIdempotentIff(vars: Env, dirs: seq<string>)
    ensures Replaced(Replaced(vars, dirs), dirs) == Replaced(vars, dirs) <==> NoPieceOfUser(vars, dirs)
  {
    hide Keeps, Replaced, NothingToDo, NoPieceOfUser;
    if Keeps(vars, dirs) {
      KeptIsIdempotent(vars, dirs);
    } else if NoPieceOfUser(vars, dirs) {
      EmptyDirectoryIsIdempotent(vars, dirs);
    } else {
      PieceIsNotIdempotent(vars, dirs);
    }
  }

  lemma KeptIsIdempotent(vars: Env, dirs: seq<string>)
    requires Keeps(vars, dirs)
    ensures Replaced(Replaced(vars, dirs), dirs) == Replaced(vars, dirs) && NoPieceOfUser(vars, dirs)
  {
    hide Pieces, Split, Join, Minus, Common, User;
    if NothingToDo(vars, dirs) {
      NothingAdded(User(vars));
    } else {
      UserAfterKept(vars, dirs);
      PlanStable(dirs, User(vars));
      SetAgain(vars, Join(NewPath(dirs, User(vars)), COLON), Join(Added(dirs, User(vars)), COLON));
    }
  }

  lemma NothingAdded(user: seq<string>)
    ensures Pieces(Added([], user)) == []
  {
  }

  lemma WhatIsSet(vars: Env, dirs: seq<string>)
    requires !NothingToDo(vars, dirs)
    ensures Get(Replaced(vars, dirs), PATH) == Join(NewPath(dirs, User(vars)), COLON)
    ensures Get(Replaced(vars, dirs), MARKER) == Join(Added(dirs, User(vars)), COLON)
  {
  }

  lemma SetOver(vars: Env, path: string, marker: string, newPath: string, newMarker: string)
    ensures vars[PATH := path][MARKER := marker][PATH := newPath][MARKER := newMarker] ==
              vars[PATH := newPath][MARKER := newMarker]
  {
  }

  lemma SetAgain(vars: Env, path: string, marker: string)
    ensures var set' := vars[PATH := path][MARKER := marker]; set'[PATH := path][MARKER := marker] == set'
  {
  }

  /** What a call fails to keep without such a piece is an empty entry, and repeating it changes nothing. */
  lemma EmptyDirectoryIsIdempotent(vars: Env, dirs: seq<string>)
    requires !Keeps(vars, dirs) && NoPieceOfUser(vars, dirs)
    ensures Replaced(Replaced(vars, dirs), dirs) == Replaced(vars, dirs)
  {
    hide Pieces, Split, Join, Minus, Common;
    var user, path := User(vars), NewPath(dirs, User(vars));
    SplitListOfJoin(path);
    SetAgain(vars, Join(path, COLON), Join(Added(dirs, user), COLON));
    if Join(path, COLON) == "" {
      OnlyEmpty(dirs, user);
      assert Get(Replaced(vars, dirs), PATH) == "" && Get(Replaced(vars, dirs), MARKER) == "";
      EmptyLists(dirs);
    } else {
      OneEmptyAdded(dirs, user);
      UserHasNoColon(vars);
      UserAfter(vars, dirs);
      AllOnPath(vars, dirs);
      SplitListOfJoin([]);
    }
  }

  lemma OnlyEmpty(dirs: seq<string>, user: seq<string>)
    requires (NewPath(dirs, user) == [] || NewPath(dirs, user) == [""]) && user != []
    ensures (dirs == [] || dirs == [""]) && Join(Added(dirs, user), COLON) == ""
  {
    MinusMembers(user, dirs);
    MinusMembers(dirs, user);
    if dirs != [] {
      assert NewPath(dirs, user)[0] == dirs[0];
      assert dirs == [""];
      assert Minus(user, dirs) == [];
      assert user[0] in dirs;
      assert user[0] == "";
      MinusAll(dirs, user);
    }
  }

  lemma EmptyLists(dirs: seq<string>)
    requires dirs == [] || dirs == [""]
    ensures forall ys :: Minus([], ys) == []
    ensures Join(NewPath(dirs, []), COLON) == "" && Join(Added(dirs, []), COLON) == ""
  {
    assert dirs + [] == dirs;
    MinusNone(dirs, []);
  }

  lemma OneEmptyAdded(dirs: seq<string>, user: seq<string>)
    requires Added(dirs, user) == [""]
    ensures Join(Added(dirs, user), COLON) == "" && "" in dirs && forall d :: d in dirs ==> d == "" || d in user
  {
    MinusMembers(dirs, user);
    assert "" in Added(dirs, user);
  }

  /** Where only the empty directory is new, all of the new PATH counts as the user's, and stays as it is. */
  lemma AllOnPath(vars: Env, dirs: seq<string>)
    requires Join(NewPath(dirs, User(vars)), COLON) != "" && dirs != []
    requires User(Replaced(vars, dirs)) == Minus(Pieces(NewPath(dirs, User(vars))), [])
    requires forall d :: d in dirs ==> d == "" || d in User(vars)
    ensures NewPath(dirs, User(Replaced(vars, dirs))) == NewPath(dirs, User(vars))
    ensures Added(dirs, User(Replaced(vars, dirs))) == []
  {
    hide Pieces, Split, Join, Common, User, Replaced;
    var user := User(vars);
    var path, others := NewPath(dirs, user), Minus(user, dirs);
    UserHasNoColon(vars);
    MinusMembers(user, dirs);
    ContainsChar("", ':');
    PlainPieces(path);
    MinusNone(path, []);
    MinusAppend(dirs, others, dirs);
    MinusAll(dirs, dirs);
    MinusNone(others, dirs);
    assert [] + others == others;
    MinusAll(dirs, path);
  }

  lemma {:induction false} MorePieces(dirs: seq<string>, user: seq<string>, after: seq<string>, u: string)
    requires (forall d :: d in dirs && d !in user ==> d !in after)
    ensures |Pieces(Minus(dirs, user))| <= |Pieces(Minus(dirs, after))|
    ensures u in dirs && u in user && u !in after ==> |Pieces(Minus(dirs, user))| < |Pieces(Minus(dirs, after))|
  {
    hide Split;
    if dirs != [] {
      assert dirs[0] in dirs;
      MorePieces(dirs[1..], user, after, u);
      FirstPieces(dirs[0], Minus(dirs[1..], user));
      FirstPieces(dirs[0], Minus(dirs[1..], after));
    }
  }

  lemma FirstPieces(d: string, rest: seq<string>)
    ensures |Pieces([d] + rest)| > |Pieces(rest)|
  {
    hide Split;
    assert ([d] + rest)[1..] == rest;
  }

  /** A user entry that is a piece of an added directory is lost, so repeating the call writes something else. */
  lemma PieceIsNotIdempotent(vars: Env, dirs: seq<string>)
    requires !NoPieceOfUser(vars, dirs)
    ensures Replaced(Replaced(vars, dirs), dirs) != Replaced(vars, dirs)
  {
    hide Pieces, Split, Join, Minus, Common, User;
    var user, added := User(vars), Added(dirs, User(vars));
    var u :| u in user && u in Pieces(added);
    PieceMeansLists(dirs, user, u);
    if NothingToDo(vars, dirs) {
      NothingAdded(user);
    }
    UserAfter(vars, dirs);
    var after := User(Replaced(vars, dirs));
    PathIsPieces(vars, dirs);
    LostAfter(vars, dirs);
    if Replaced(Replaced(vars, dirs), dirs) == Replaced(vars, dirs) {
      WhatIsSet(vars, dirs);
      WhatIsSet(Replaced(vars, dirs), dirs);
      SplitListOfJoin(NewPath(dirs, user));
      SplitListOfJoin(NewPath(dirs, after));
      SplitListOfJoin(added);
      SplitListOfJoin(Added(dirs, after));
      MorePieces(dirs, user, after, u);
      MinusMembers(user, dirs);
      MinusMembers(after, dirs);
      OthersTold(dirs, Minus(user, dirs), Minus(after, dirs));
    }
  }

  /** A user entry among the pieces of what is added: neither list that is written is empty. */
  lemma PieceMeansLists(dirs: seq<string>, user: seq<string>, u: string)
    requires u in user && u in Pieces(Added(dirs, user))
    ensures Join(Added(dirs, user), COLON) != "" && Join(NewPath(dirs, user), COLON) != ""
  {
    hide Split, Minus, Join, Pieces;
    var added := Added(dirs, user);
    SplitListOfJoin(added);
    SplitListOfJoin(NewPath(dirs, user));
    MinusMembers(dirs, user);
    PieceOf(added, u);
    var d :| d in added && u in Split(d, COLON);
    EmptyEntry();
    assert d in dirs && d in NewPath(dirs, user);
    assert d == "" ==> u == "";
    assert d in added ==> d !in user;
    assert d != "";
    assert added != [] && added != [""];
  }

  lemma EmptyEntry()
    ensures Split("", COLON) == [""]
  {
    assert Index("", COLON) == -1;
  }

  /** The pieces of the new PATH: those of the directories, then the user's other entries. */
  lemma PathIsPieces(vars: Env, dirs: seq<string>)
    ensures Pieces(NewPath(dirs, User(vars))) == Pieces(dirs) + Minus(User(vars), dirs)
  {
    hide Pieces, Split, Minus, User, Contains;
    UserHasNoColon(vars);
    MinusMembers(User(vars), dirs);
    PiecesAppend(dirs, Minus(User(vars), dirs));
    PlainPieces(Minus(User(vars), dirs));
  }

  /** After the call no piece of an added directory counts as the user's. */
  lemma LostAfter(vars: Env, dirs: seq<string>)
    requires Join(Added(dirs, User(vars)), COLON) != "" && Join(NewPath(dirs, User(vars)), COLON) != ""
    requires User(Replaced(vars, dirs)) == Minus(Pieces(NewPath(dirs, User(vars))), Pieces(Added(dirs, User(vars))))
    ensures var after, added := User(Replaced(vars, dirs)), Added(dirs, User(vars));
            && (forall x :: x in Pieces(added) ==> x !in after)
            && (forall d :: d in dirs && d !in User(vars) ==> d !in after)
            && Pieces(NewPath(dirs, after)) == Pieces(dirs) + Minus(after, dirs)
  {
    hide Pieces, Split, Minus, User, Replaced, Contains, Join;
    var user, after, added := User(vars), User(Replaced(vars, dirs)), Added(dirs, User(vars));
    MinusMembers(Pieces(NewPath(dirs, user)), Pieces(added));
    MinusMembers(dirs, user);
    UserHasNoColon(Replaced(vars, dirs));
    PathIsPieces(Replaced(vars, dirs), dirs);
    forall d | d in dirs && d !in user ensures d !in after {
      if d in after {
        SplitNone(d, COLON);
        PieceOf(added, d);
      }
    }
  }

  lemma OthersTold(dirs: seq<string>, a: seq<string>, b: seq<string>)
    ensures Pieces(dirs) + a == Pieces(dirs) + b ==> a == b
  {
    var front := Pieces(dirs);
    assert (front + a)[|front|..] == a && (front + b)[|front|..] == b;
  }

  /**
  Clearing the baseline first makes no difference, unless all the user has is one empty entry and the call
  says more.
   */
  lemma {:induction false} ClearThenSet(vars: Env, dirs: seq<string>)
    ensures Replaced(Replaced(vars, []), dirs) == Replaced(vars, dirs) <==>
              dirs == [] || dirs == [""] || User(vars) != [""]
  {
    hide Join, Minus, User, NewPath, Added;
    var user, cleared := User(vars), Replaced(vars, []);
    if Get(vars, MARKER) == "" {
      UnmarkedPath(vars);
    } else {
      Cleared(vars);
      if dirs != [] {
        WhatIsSet(vars, dirs);
        WhatIsSet(cleared, dirs);
        LostEmptyEntry(dirs);
        SetOver(vars, Join(user, COLON), "", Join(NewPath(dirs, User(cleared)), COLON),
            Join(Added(dirs, User(cleared)), COLON));
      }
    }
  }

  /** After clearing, PATH has the user's entries alone, but one empty entry cannot be told from none. */
  lemma Cleared(vars: Env)
    requires Get(vars, MARKER) != ""
    ensures var cleared := Replaced(vars, []);
            && cleared == vars[PATH := Join(User(vars), COLON)][MARKER := ""]
            && Get(cleared, MARKER) == "" && User(cleared) == if User(vars) == [""] then [] else User(vars)
  {
    hide Join;
    var user := User(vars);
    MinusNone(user, []);
    assert [] + user == user;
    UserHasNoColon(vars);
    SplitListOfJoin(user);
    SplitListOfJoin([]);
    PlainPieces(user);
    assert Minus([], []) == [];
  }

  /** Against no user entry and one empty one, the same directories make different lists. */
  lemma LostEmptyEntry(dirs: seq<string>)
    requires dirs != []
    ensures (&& Join(NewPath(dirs, []), COLON) == Join(NewPath(dirs, [""]), COLON)
             && Join(Added(dirs, []), COLON) == Join(Added(dirs, [""]), COLON)) <==> dirs == [""]
  {
    MinusNone(dirs, []);
    assert NewPath(dirs, []) == dirs;
    if "" in dirs {
      MinusAll([""], dirs);
      assert NewPath(dirs, [""]) == dirs;
      FewerEntries(dirs);
    } else {
      MinusNone([""], dirs);
      JoinLength(dirs);
      JoinLength(dirs + [""]);
      LengthAppend(dirs, [""]);
    }
  }

  function Length(parts: seq<string>): nat {
    if parts == [] then 0 else |parts[0]| + Length(parts[1..])
  }

  lemma {:induction false} LengthAppend(a: seq<string>, b: seq<string>)
    ensures Length(a + b) == Length(a) + Length(b)
  {
    if a == [] {
      assert a + b == b;
    } else {
      assert (a + b)[1..] == a[1..] + b;
      LengthAppend(a[1..], b);
    }
  }

  lemma {:induction false} JoinLength(parts: seq<string>)
    ensures |Join(parts, COLON)| == if parts == [] then 0 else Length(parts) + |parts| - 1
  {
    if |parts| > 1 {
      JoinLength(parts[1..]);
    }
  }

  lemma {:induction false} WithoutEmpty(dirs: seq<string>)
    ensures Length(Minus(dirs, [""])) == Length(dirs) && |Minus(dirs, [""])| <= |dirs|
    ensures "" in dirs ==> |Minus(dirs, [""])| < |dirs|
  {
    if dirs != [] {
      WithoutEmpty(dirs[1..]);
      if dirs[0] != "" {
        assert Minus(dirs, [""])[1..] == Minus(dirs[1..], [""]);
      }
    }
  }

  lemma FewerEntries(dirs: seq<string>)
    requires "" in dirs
    ensures Join(dirs, COLON) == Join(Minus(dirs, [""]), COLON) <==> dirs == [""]
  {
    hide Join, Minus;
    WithoutEmpty(dirs);
    JoinLength(dirs);
    JoinLength(Minus(dirs, [""]));
    if |dirs| == 1 {
      assert dirs == [""];
      MinusAll(dirs, [""]);
    }
  }
}
