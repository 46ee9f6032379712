/**
Error reporting (errors/reporting.go): a reporting error keeps a detached copy of the component's
metadata and settings, and a flag shared by all wraps of one occurrence that the first claim sets.
 */
module Reporting {
  import opened Options

  // ---------------------------------------------------------------- the values that are copied

  /** Go maps and slices are references: a map[string]any, a map[string]string, a []any, a []string. */
  class MapCell {
    var entries: map<string, Value>
    constructor ()
      ensures entries == map[]
    {
      entries := map[];
    }
  }

  class TextMapCell {
    var entries: map<string, string>
    constructor ()
      ensures entries == map[]
    {
      entries := map[];
    }
  }

  class ListCell {
    var items: seq<Value>
    constructor ()
      ensures items == []
    {
      items := [];
    }
  }

  class TextListCell {
    var items: seq<string>
    constructor (items: seq<string>)
      ensures this.items == items
    {
      this.items := items;
    }
  }

  /** A value of type any; a reference may be nil, and a value of any other type is not looked into. */
  datatype Value =
    | Scalar(text: string)
    | MapOf(map': MapCell?)
    | TextMapOf(textMap: TextMapCell?)
    | ListOf(list: ListCell?)
    | TextListOf(textList: TextListCell?)
    | Other(thing: object?)

  /** What a value holds, to any depth; a nil map or slice holds what an empty one does. */
  datatype Content =
    | Text(text: string)
    | Entries(entries: map<string, Content>)
    | TextEntries(textEntries: map<string, string>)
    | Items(items: seq<Content>)
    | TextItems(textItems: seq<string>)
    | Thing(thing: object?)

  /** v is nested no deeper than depth, and all its maps and slices are in cells. */
  ghost predicate Within(v: Value, cells: set<object>, depth: nat)
    reads cells
    decreases depth
  {
    match v
    case Scalar(_) => true
    case Other(_) => true
    case TextMapOf(m) => m != null ==> m in cells
    case TextListOf(l) => l != null ==> l in cells
    case MapOf(m) =>
      m != null ==> m in cells && forall k :: k in m.entries ==> depth > 0 && Within(m.entries[k], cells, depth - 1)
    case ListOf(l) =>
      l != null ==> l in cells && forall v :: v in l.items ==> depth > 0 && Within(v, cells, depth - 1)
  }

  ghost predicate EntriesWithin(entries: map<string, Value>, cells: set<object>, depth: nat)
    reads cells
  {
    forall k :: k in entries ==> depth > 0 && Within(entries[k], cells, depth - 1)
  }

  ghost predicate ItemsWithin(items: seq<Value>, cells: set<object>, depth: nat)
    reads cells
  {
    forall v :: v in items ==> depth > 0 && Within(v, cells, depth - 1)
  }

  lemma PrefixWithin(items: seq<Value>, n: nat, cells: set<object>, depth: nat)
    requires ItemsWithin(items, cells, depth) && n <= |items|
    ensures ItemsWithin(items[..n], cells, depth)
  {
    assert forall v :: v in items[..n] ==> v in items;
  }

  ghost function ContentOf(v: Value, cells: set<object>, depth: nat): Content
    requires Within(v, cells, depth)
    reads cells
    decreases depth, 1, 0
  {
    match v
    case Scalar(text) => Text(text)
    case Other(thing) => Thing(thing)
    case TextMapOf(m) => TextEntries(if m == null then map[] else m.entries)
    case TextListOf(l) => TextItems(if l == null then [] else l.items)
    case MapOf(m) => Entries(if m == null then map[] else EntryContents(m.entries, cells, depth))
    case ListOf(l) => Items(if l == null then [] else ItemContents(l.items, cells, depth))
  }

  ghost function EntryContents(entries: map<string, Value>, cells: set<object>,
                               depth: nat): (contents: map<string, Content>)
    requires EntriesWithin(entries, cells, depth)
    reads cells
    decreases depth, 0, 0
  {
    map k | k in entries :: ContentOf(entries[k], cells, depth - 1)
  }

  ghost function ItemContents(items: seq<Value>, cells: set<object>, depth: nat): (contents: seq<Content>)
    requires ItemsWithin(items, cells, depth)
    reads cells
    decreases depth, 0, |items|
  {
    if items == [] then []
    else
      var front := items[..|items| - 1];
      PrefixWithin(items, |items| - 1, cells, depth);
      var last := items[|items| - 1];
      assert last in items;
      ItemContents(front, cells, depth) + [ContentOf(last, cells, depth - 1)]
  }

  /** More cells change nothing. */
  lemma {:induction false} MoreCells(v: Value, cells: set<object>, more: set<object>, depth: nat)
    requires Within(v, cells, depth) && cells <= more
    ensures Within(v, more, depth) && ContentOf(v, more, depth) == ContentOf(v, cells, depth)
    decreases depth, 1, 0
  {
    match v
    case MapOf(m) =>
      if m != null {
        MoreCellsForEntries(m.entries, cells, more, depth);
      }
    case ListOf(l) =>
      if l != null {
        MoreCellsForItems(l.items, cells, more, depth);
      }
    case _ =>
  }

  lemma {:induction false} MoreCellsForEntries(entries: map<string, Value>, cells: set<object>, more: set<object>,
                                               depth: nat)
    requires EntriesWithin(entries, cells, depth) && cells <= more
    ensures EntriesWithin(entries, more, depth)
    ensures EntryContents(entries, more, depth) == EntryContents(entries, cells, depth)
    decreases depth, 0, 0
  {
    forall k | k in entries
      ensures depth > 0 && Within(entries[k], more, depth - 1)
      ensures ContentOf(entries[k], more, depth - 1) == ContentOf(entries[k], cells, depth - 1)
    {
      MoreCells(entries[k], cells, more, depth - 1);
    }
  }

  lemma {:induction false} MoreCellsForItems(items: seq<Value>, cells: set<object>, more: set<object>, depth: nat)
    requires ItemsWithin(items, cells, depth) && cells <= more
    ensures ItemsWithin(items, more, depth) && ItemContents(items, more, depth) == ItemContents(items, cells, depth)
    decreases depth, 0, |items|
  {
    if items != [] {
      var last := |items| - 1;
      var front := items[..last];
      PrefixWithin(items, last, cells, depth);
      MoreCellsForItems(front, cells, more, depth);
      assert items[last] in items;
      MoreCells(items[last], cells, more, depth - 1);
      assert items == front + [items[last]];
    }
  }

  // ---------------------------------------------------------------- copying

  /** A nil map stays nil; any other is copied entry by entry into cells that did not exist before. */
  method CloneReportingMap(source: MapCell?, ghost cells: set<object>, ghost depth: nat)
      returns (result: MapCell?, ghost copies: set<object>)
    requires Within(MapOf(source), cells, depth)
    ensures fresh(copies) && Within(MapOf(result), copies, depth)
    ensures ContentOf(MapOf(result), copies, depth) == ContentOf(MapOf(source), cells, depth)
    ensures result == null <==> source == null
    decreases depth, 2
  {
    copies := {};
    if source == null {
      return null, {};
    }
    assert EntriesWithin(source.entries, cells, depth) && source in cells;
    hide Within, ContentOf, EntriesWithin, EntryContents;
    var entries := source.entries;
    ghost var goal := EntryContents(entries, cells, depth);
    EntryContentsKeys(entries, cells, depth);
    ClosedMap(source, cells, depth);
    result := new MapCell();
    NoEntries(copies, depth);
    var keys := entries.Keys;
    while keys != {}
      invariant keys <= entries.Keys && fresh(result) && fresh(copies) && result !in copies
      invariant EntriesWithin(entries, cells, depth) && goal == EntryContents(entries, cells, depth)
      invariant EntriesWithin(result.entries, copies, depth)
      invariant EntryContents(result.entries, copies, depth) == goal - keys
      decreases keys
    {
      var key :| key in keys;
      EntryOf(entries, key, cells, depth);
      copies := StoreClone(result, key, entries[key], cells, copies, depth);
      OneKeyLess(goal, keys, key);
      keys := keys - {key};
    }
    NoKeysLeft(goal);
    MoreCellsForEntries(result.entries, copies, copies + {result}, depth);
    copies := copies + {result};
    ClosedMap(result, copies, depth);
  }

  lemma OneKeyLess(contents: map<string, Content>, keys: set<string>, key: string)
    requires key in keys && key in contents
    ensures (contents - keys)[key := contents[key]] == contents - (keys - {key})
  {
  }

  lemma NoKeysLeft(contents: map<string, Content>)
    ensures contents - {} == contents
  {
  }

  /** One assignment of the copying loop: the entry's value is cloned and stored under its key. */
  method StoreClone(result: MapCell, key: string, value: Value, ghost cells: set<object>,
                    ghost copies: set<object>, ghost depth: nat)
      returns (ghost all: set<object>)
    requires result !in cells && result !in copies && depth > 0
    requires EntriesWithin(result.entries, copies, depth) && Within(value, cells, depth - 1)
    modifies result
    ensures copies <= all && fresh(all - copies) && result !in all
    ensures EntriesWithin(result.entries, all, depth)
    ensures EntryContents(result.entries, all, depth)
            == old(EntryContents(result.entries, copies, depth))[key := old(ContentOf(value, cells, depth - 1))]
    decreases depth, 1
  {
    hide Within, ContentOf, EntriesWithin, EntryContents;
    var clone, inner := CloneReportingValue(value, cells, depth - 1);
    all := copies + inner;
    MoreCellsForEntries(result.entries, copies, all, depth);
    MoreCells(clone, inner, all, depth - 1);
    OneMoreEntry(result.entries, key, clone, all, depth);
    result.entries := result.entries[key := clone];
  }

  lemma EntryContentsKeys(entries: map<string, Value>, cells: set<object>, depth: nat)
    requires EntriesWithin(entries, cells, depth)
    ensures EntryContents(entries, cells, depth).Keys == entries.Keys
  {
  }

  lemma NoEntries(cells: set<object>, depth: nat)
    ensures EntriesWithin(map[], cells, depth) && EntryContents(map[], cells, depth) == map[]
  {
  }

  lemma EntryOf(entries: map<string, Value>, key: string, cells: set<object>, depth: nat)
    requires EntriesWithin(entries, cells, depth) && key in entries
    ensures depth > 0 && Within(entries[key], cells, depth - 1)
    ensures key in EntryContents(entries, cells, depth)
    ensures EntryContents(entries, cells, depth)[key] == ContentOf(entries[key], cells, depth - 1)
  {
  }

  lemma OneMoreEntry(entries: map<string, Value>, key: string, v: Value, cells: set<object>, depth: nat)
    requires EntriesWithin(entries, cells, depth) && depth > 0 && Within(v, cells, depth - 1)
    ensures EntriesWithin(entries[key := v], cells, depth)
    ensures EntryContents(entries[key := v], cells, depth)
            == EntryContents(entries, cells, depth)[key := ContentOf(v, cells, depth - 1)]
  {
  }

  lemma ClosedMap(m: MapCell, cells: set<object>, depth: nat)
    requires m in cells && EntriesWithin(m.entries, cells, depth)
    ensures Within(MapOf(m), cells, depth)
    ensures ContentOf(MapOf(m), cells, depth) == Entries(EntryContents(m.entries, cells, depth))
  {
  }

  /** The []any case; the copy of a nil slice is an empty one. */
  method CloneReportingList(source: ListCell?, ghost cells: set<object>, ghost depth: nat)
      returns (result: ListCell, ghost copies: set<object>)
    requires Within(ListOf(source), cells, depth)
    ensures fresh(copies) && Within(ListOf(result), copies, depth)
    ensures ContentOf(ListOf(result), copies, depth) == ContentOf(ListOf(source), cells, depth)
    decreases depth, 2
  {
    copies := {};
    result := new ListCell();
    if source == null {
      copies := {result};
      return;
    }
    assert ItemsWithin(source.items, cells, depth) && source in cells;
    hide Within, ContentOf, ItemsWithin, ItemContents;
    var items := source.items;
    NoItems(copies, depth);
    NoItems(cells, depth);
    assert items[..0] == [];
    for i := 0 to |items|
      invariant fresh(result) && fresh(copies) && result !in copies
      invariant ItemsWithin(items, cells, depth) && ItemsWithin(result.items, copies, depth)
      invariant ItemsWithin(items[..i], cells, depth)
      invariant ItemContents(result.items, copies, depth) == ItemContents(items[..i], cells, depth)
    {
      copies := AppendClone(result, items, i, cells, copies, depth);
    }
    assert items[..|items|] == items;
    ClosedList(source, cells, depth);
    MoreCellsForItems(result.items, copies, copies + {result}, depth);
    copies := copies + {result};
    ClosedList(result, copies, depth);
  }

  /** One assignment of the copying loop for slices. */
  method AppendClone(result: ListCell, items: seq<Value>, i: nat, ghost cells: set<object>,
                     ghost copies: set<object>, ghost depth: nat)
      returns (ghost all: set<object>)
    requires result !in cells && result !in copies && i < |items|
    requires ItemsWithin(items, cells, depth) && ItemsWithin(result.items, copies, depth)
    requires ItemsWithin(items[..i], cells, depth)
    requires ItemContents(result.items, copies, depth) == ItemContents(items[..i], cells, depth)
    modifies result
    ensures copies <= all && fresh(all - copies) && result !in all
    ensures ItemsWithin(result.items, all, depth) && ItemsWithin(items[..i + 1], cells, depth)
    ensures ItemContents(result.items, all, depth) == ItemContents(items[..i + 1], cells, depth)
    decreases depth, 1
  {
    hide Within, ContentOf, ItemsWithin, ItemContents;
    ItemOf(items, i, cells, depth);
    OneMoreItem(items[..i], items[i], cells, depth);
    assert items[..i + 1] == items[..i] + [items[i]];
    var clone, inner := CloneReportingValue(items[i], cells, depth - 1);
    all := copies + inner;
    MoreCellsForItems(result.items, copies, all, depth);
    MoreCells(clone, inner, all, depth - 1);
    OneMoreItem(result.items, clone, all, depth);
    result.items := result.items + [clone];
  }

  lemma NoItems(cells: set<object>, depth: nat)
    ensures ItemsWithin([], cells, depth) && ItemContents([], cells, depth) == []
  {
  }

  lemma ItemOf(items: seq<Value>, i: nat, cells: set<object>, depth: nat)
    requires ItemsWithin(items, cells, depth) && i < |items|
    ensures depth > 0 && Within(items[i], cells, depth - 1)
  {
    assert items[i] in items;
  }

  lemma OneMoreItem(items: seq<Value>, v: Value, cells: set<object>, depth: nat)
    requires ItemsWithin(items, cells, depth) && depth > 0 && Within(v, cells, depth - 1)
    ensures ItemsWithin(items + [v], cells, depth)
    ensures ItemContents(items + [v], cells, depth) ==
              ItemContents(items, cells, depth) + [ContentOf(v, cells, depth - 1)]
  {
    assert (items + [v])[..|items|] == items;
  }

  lemma ClosedList(l: ListCell, cells: set<object>, depth: nat)
    requires l in cells && ItemsWithin(l.items, cells, depth)
    ensures Within(ListOf(l), cells, depth)
    ensures ContentOf(ListOf(l), cells, depth) == Items(ItemContents(l.items, cells, depth))
  {
  }

  /** Handled shapes are copied to any depth; a value of another type is the same value. */
  method CloneReportingValue(value: Value, ghost cells: set<object>, ghost depth: nat)
      returns (result: Value, ghost copies: set<object>)
    requires Within(value, cells, depth)
    ensures fresh(copies) && Within(result, copies, depth)
    ensures ContentOf(result, copies, depth) == ContentOf(value, cells, depth)
    decreases depth, 3
  {
    match value
    case MapOf(m) =>
      var clone, inner := CloneReportingMap(m, cells, depth);
      return MapOf(clone), inner;
    case TextMapOf(m) =>
      var clone := new TextMapCell();
      if m != null {
        clone.entries := m.entries;
      }
      return TextMapOf(clone), {clone};
    case ListOf(l) =>
      var clone, inner := CloneReportingList(l, cells, depth);
      return ListOf(clone), inner;
    case TextListOf(l) =>
      // Appending nothing to a nil slice leaves it nil.
      if l == null || l.items == [] {
        return TextListOf(null), {};
      }
      var clone := new TextListCell(l.items);
      return TextListOf(clone), {clone};
    case _ =>
      return value, {};
  }

  // ---------------------------------------------------------------- the snapshot

  /** The component's metadata; rest stands for every other field of the structure. */
  datatype Info = Info(
    component: string,
    componentFromArg: string,
    componentType: string,
    stack: string,
    stackFromArg: string,
    subCommand: string,
    metadata: MapCell?,
    settings: MapCell?,
    rest: string)

  const EMPTY_INFO := Info("", "", "", "", "", "", null, null, "")

  ghost predicate InfoWithin(info: Info, cells: set<object>, depth: nat)
    reads cells
  {
    Within(MapOf(info.metadata), cells, depth) && Within(MapOf(info.settings), cells, depth)
  }

  /** What a snapshot of info holds. */
  datatype Snapshot = Snapshot(names: seq<string>, metadata: Content, settings: Content)

  ghost function SnapshotOf(info: Info, cells: set<object>, depth: nat): Snapshot
    requires InfoWithin(info, cells, depth)
    reads cells
  {
    Snapshot([info.component, info.componentFromArg, info.componentType, info.stack, info.stackFromArg,
        info.subCommand],
             ContentOf(MapOf(info.metadata), cells, depth), ContentOf(MapOf(info.settings), cells, depth))
  }

  /** The copy holds what info holds, in cells of its own, and every field that is not copied is empty. */
  method SnapshotReportingInfo(info: Info, ghost cells: set<object>, ghost depth: nat)
      returns (copy: Info, ghost copies: set<object>)
    requires InfoWithin(info, cells, depth)
    ensures fresh(copies) && InfoWithin(copy, copies, depth)
    ensures SnapshotOf(copy, copies, depth) == SnapshotOf(info, cells, depth)
    ensures copy.rest == ""
  {
    hide Within, ContentOf;
    var metadata, inMetadata := CloneReportingMap(info.metadata, cells, depth);
    var settings, inSettings := CloneReportingMap(info.settings, cells, depth);
    copies := inMetadata + inSettings;
    MoreCells(MapOf(metadata), inMetadata, copies, depth);
    MoreCells(MapOf(settings), inSettings, copies, depth);
    copy := Info(info.component, info.componentFromArg, info.componentType, info.stack, info.stackFromArg,
                 info.subCommand, metadata, settings, "");
  }

  /** Isolation: as long as the cells of a snapshot are not written to, it holds the same. */
  twostate lemma SnapshotKept(info: Info, cells: set<object>, depth: nat)
    requires old(InfoWithin(info, cells, depth)) && forall o :: o in cells ==> old(allocated(o)) && unchanged(o)
    ensures InfoWithin(info, cells, depth) && SnapshotOf(info, cells, depth) == old(SnapshotOf(info, cells, depth))
  {
  }

  // ---------------------------------------------------------------- occurrences

  class Flag {
    var claimed: bool

    constructor ()
      ensures !claimed
    {
      claimed := false;
    }

    /** atomic.Bool.CompareAndSwap(false, true), one atomic step. */
    method Claim() returns (first: bool)
      modifies this
      ensures first == !old(claimed) && claimed
    {
      first := !claimed;
      claimed := true;
    }
  }

  /** Errors as errors.As walks them. */
  datatype Failure =
    | Plain(message: string)
    | Wrapping(cause: Failure)
    | Joining(causes: seq<Failure>)
    | Reported(report: ReportingError)

  class ReportingError {
    const cause: Failure
    const info: Info
    const executionID: string
    const captured: Flag
    ghost const cells: set<object>
    ghost const depth: nat

    ghost predicate Valid()
      reads cells
    {
      InfoWithin(info, cells, depth)
    }

    constructor (cause: Failure, info: Info, executionID: string, captured: Flag, ghost cells: set<object>,
                 ghost depth: nat)
      requires InfoWithin(info, cells, depth)
      ensures this.cause == cause && this.info == info && this.executionID == executionID && this.captured == captured
      ensures this.cells == cells && this.depth == depth
    {
      this.cause := cause;
      this.info := info;
      this.executionID := executionID;
      this.captured := captured;
      this.cells := cells;
      this.depth := depth;
    }

    /** Each call gives a copy of its own, so a consumer cannot change what is reported. */
    method ReportingContext() returns (copy: Info, id: string, ghost copies: set<object>)
      requires Valid()
      ensures id == executionID && fresh(copies) && InfoWithin(copy, copies, depth) && copy.rest == ""
      ensures SnapshotOf(copy, copies, depth) == SnapshotOf(info, cells, depth)
    {
      copy, copies := SnapshotReportingInfo(info, cells, depth);
      id := executionID;
    }
  }

  /** errors.As for a reporting error: the first one met, causes in order. */
  function FirstReport(e: Failure): Option<ReportingError> {
    match e
    case Plain(_) => None
    case Wrapping(cause) => FirstReport(cause)
    case Joining(causes) => FirstOfAll(causes)
    case Reported(report) => Some(report)
  }

  function FirstOfAll(es: seq<Failure>): Option<ReportingError> {
    if es == [] then None
    else if FirstReport(es[0]).Some? then FirstReport(es[0])
    else FirstOfAll(es[1..])
  }

  /** A re-wrap shares the flag of the occurrence it wraps; a first wrap starts a new one. */
  method WithReportingContext(err: Option<Failure>, info: Option<Info>, executionID: string,
                              ghost cells: set<object>, ghost depth: nat)
      returns (wrapped: Option<ReportingError>)
    requires info.Some? ==> InfoWithin(info.value, cells, depth)
    ensures wrapped.None? <==> err.None?
    ensures wrapped.Some? ==> var w := wrapped.value;
              && w.Valid() && fresh(w) && fresh(w.cells)
              && w.cause == err.value && w.executionID == executionID
              && (if FirstReport(err.value).Some? then w.captured == FirstReport(err.value).value.captured
                  else fresh(w.captured) && !w.captured.claimed)
    ensures wrapped.Some? && info.Some? ==>
              wrapped.value.depth == depth
              && SnapshotOf(wrapped.value.info, wrapped.value.cells, depth) == SnapshotOf(info.value, cells, depth)
    ensures wrapped.Some? && info.None? ==> wrapped.value.info == Info("", "", "", "", "", "", null, null, "")
    ensures wrapped.Some? ==> wrapped.value.info.rest == ""
  {
    if err.None? {
      return None;
    }
    var claimed := new Flag();
    var existing := FirstReport(err.value);
    if existing.Some? {
      claimed := existing.value.captured;
    }
    if info.None? {
      var w := new ReportingError(err.value, EMPTY_INFO, executionID, claimed, {}, depth);
      return Some(w);
    }
    var copy, copies := SnapshotReportingInfo(info.value, cells, depth);
    var w := new ReportingError(err.value, copy, executionID, claimed, copies, depth);
    return Some(w);
  }

  // ---------------------------------------------------------------- claiming once

  /** What callers put around a reporting error before it is wrapped again: one cause, or a join with others. */
  datatype Around = Single | InJoin(before: seq<Failure>, behind: seq<Failure>)

  function Enclosed(e: Failure, layers: seq<Around>): Failure
    decreases |layers|
  {
    if layers == [] then e
    else
      match layers[0]
      case Single => Enclosed(Wrapping(e), layers[1..])
      case InJoin(before, behind) => Enclosed(Joining(before + [e] + behind), layers[1..])
  }

  /** The occurrence that a search finds: what stands in front in the outermost join that has one, or else found. */
  function FirstFound(found: Option<ReportingError>, layers: seq<Around>): Option<ReportingError>
    decreases |layers|
  {
    if layers == [] then found
    else
      var ahead := if layers[0].InJoin? then FirstOfAll(layers[0].before) else None;
      FirstFound(if ahead.Some? then ahead else found, layers[1..])
  }

  /** No other occurrence stands in front of the one that is wrapped. */
  predicate NoneInFront(layers: seq<Around>) {
    forall i :: 0 <= i < |layers| ==> layers[i].InJoin? ==> FirstOfAll(layers[i].before).None?
  }

  lemma {:induction false} FirstAmong(before: seq<Failure>, e: Failure, behind: seq<Failure>)
    requires FirstReport(e).Some?
    ensures FirstOfAll(before + [e] + behind) == if FirstOfAll(before).Some? then FirstOfAll(before) else FirstReport(e)
  {
    var all := before + [e] + behind;
    if before == [] {
      assert all[0] == e;
    } else {
      FirstAmong(before[1..], e, behind);
      assert all[0] == before[0] && all[1..] == before[1..] + [e] + behind;
    }
  }

  /** However an occurrence is wrapped and joined, the search finds it, unless another one stands in front of it. */
  lemma {:induction false} FirstOfEnclosed(e: Failure, layers: seq<Around>)
    requires FirstReport(e).Some?
    ensures FirstReport(Enclosed(e, layers)) == FirstFound(FirstReport(e), layers)
    decreases |layers|
  {
    if layers != [] {
      match layers[0]
      case Single =>
        FirstOfEnclosed(Wrapping(e), layers[1..]);
      case InJoin(before, behind) =>
        FirstAmong(before, e, behind);
        FirstOfEnclosed(Joining(before + [e] + behind), layers[1..]);
    }
  }

  lemma {:induction false} NoneInFrontFound(found: Option<ReportingError>, layers: seq<Around>)
    requires NoneInFront(layers)
    ensures FirstFound(found, layers) == found
    decreases |layers|
  {
    if layers != [] {
      NoneInFrontFound(found, layers[1..]);
    }
  }

  /** One step of a schedule: somebody claims the n-th wrap, or wraps it again. */
  datatype Step = ClaimStep(n: nat) | RewrapStep(n: nat, layers: seq<Around>, id: string)

  function Claims(schedule: seq<Step>): nat {
    if schedule == [] then 0 else (if schedule[0].ClaimStep? then 1 else 0) + Claims(schedule[1..])
  }

  lemma ClaimsFrom(schedule: seq<Step>, s: nat)
    requires s < |schedule|
    ensures Claims(schedule[s..]) == (if schedule[s].ClaimStep? then 1 else 0) + Claims(schedule[s + 1..])
  {
    assert schedule[s..][0] == schedule[s] && schedule[s..][1..] == schedule[s + 1..];
  }

  /**
  Any interleaving of claims and re-wraps of one occurrence: of all the claims, on whatever wraps, exactly
  the first succeeds, and it does so if the occurrence was not claimed before.
   */
  method RunSchedule(occurrence: ReportingError, schedule: seq<Step>) returns (results: seq<bool>)
    requires occurrence.Valid() && forall step :: step in schedule && step.RewrapStep? ==> NoneInFront(step.layers)
    modifies occurrence.captured
    ensures |results| == Claims(schedule)
    ensures |results| > 0 ==> results[0] == !old(occurrence.captured.claimed)
    ensures forall i :: 1 <= i < |results| ==> !results[i]
    ensures occurrence.captured.claimed == (old(occurrence.captured.claimed) || |results| > 0)
  {
    var wraps: seq<ReportingError> := [occurrence];
    results := [];
    for s := 0 to |schedule|
      invariant |wraps| > 0 && forall w :: w in wraps ==> w.captured == occurrence.captured
      invariant |results| + Claims(schedule[s..]) == Claims(schedule)
      invariant |results| > 0 ==> results[0] == !old(occurrence.captured.claimed)
      invariant forall i :: 1 <= i < |results| ==> !results[i]
      invariant occurrence.captured.claimed == (old(occurrence.captured.claimed) || |results| > 0)
    {
      ClaimsFrom(schedule, s);
      match schedule[s] {
        case ClaimStep(n) =>
          var w := wraps[n % |wraps|];
          assert w in wraps;
          var first := w.captured.Claim();
          results := results + [first];
        case RewrapStep(n, layers, id) =>
          var w := wraps[n % |wraps|];
          assert w in wraps;
          assert schedule[s] in schedule;
          FirstOfEnclosed(Reported(w), layers);
          NoneInFrontFound(Some(w), layers);
          var again := WithReportingContext(Some(Enclosed(Reported(w), layers)), None, id, {}, 0);
          wraps := wraps + [again.value];
      }
    }
  }
}
