/**
 * deep_log/miner.py: `DeepLogMiner` builds the routing trie from the configured logger
 * entries, lists their paths, and mines files: parse, filter, handle, tag with the
 * file name, each stage chosen by the trie entry that governs the file's path.
 */
module Miner {
  import opened Wrappers
  import opened Strings
  import opened Records
  import opened Config
  import Seqs

  /** A configuration key: absent, present with a null value, or present with a value. */
  datatype Setting<T> = Missing | Null | Given(value: T)

  /** One `{name, params}` stage entry: a parser, filter, handler or file filter. */
  datatype Stage = Stage(name: string, params: map<string, string>)

  /** One logger entry of the configuration, with its path already substituted. */
  datatype Spec = Spec(
    path: Option<string>,
    parser: Setting<Stage>,
    filters: Setting<seq<Stage>>,
    handlers: Setting<seq<Stage>>,
    fileFilters: Setting<seq<Stage>>,
    modules: Setting<seq<string>>)

  /** The loaded settings: the root entry and the logger entries (a YAML null entry is `None`). */
  datatype Settings = Settings(root: Option<Spec>, loggers: seq<Option<Spec>>)

  /**
   * The classes `globals()[name](**params)` would instantiate, as functions of the stage
   * entry. `parse(None, f)` is the default parser.
   */
  datatype Registry = Registry(
    parse: (Option<Stage>, File) -> seq<Record>,
    filter: (Stage, Record) -> bool,
    handle: (Stage, Record) -> Record,
    fileFilter: (Stage, string) -> bool)

  // ---------------------------------------------------------------- the trie build

  /** `'path' in one_logger`, with the entry itself not null. */
  predicate HasPath(e: Option<Spec>)
  {
    e.Some? && e.value.path.Some?
  }

  /** `Logger("/", value=settings.get('root'))`. */
  function RootNode(root: Option<Spec>): Node<Spec>
  {
    Node("/", [], root)
  }

  /** The trie `__init__` builds when entries without a path are skipped. */
  function BuildTree(root: Option<Spec>, entries: seq<Option<Spec>>): Node<Spec>
  {
    if entries == [] then RootNode(root)
    else
      var t := BuildTree(root, entries[..|entries| - 1]);
      var e := entries[|entries| - 1];
      if HasPath(e) then InsertAt(t, Segments(e.value.path.value), e) else t
  }

  /** Index of the last entry with a path whose segments are `q`. */
  function LastAt(entries: seq<Option<Spec>>, q: seq<string>): (r: Option<nat>)
    ensures r.Some? ==> (r.value < |entries| && HasPath(entries[r.value])
      && Segments(entries[r.value].value.path.value) == q)
  {
    if entries == [] then None
    else
      var e := entries[|entries| - 1];
      if HasPath(e) && Segments(e.value.path.value) == q then Some(|entries| - 1)
      else LastAt(entries[..|entries| - 1], q)
  }

  /** What the built trie holds at `q`. */
  function ExpectedAt(root: Option<Spec>, entries: seq<Option<Spec>>, q: seq<string>): Option<Spec>
  {
    match LastAt(entries, q)
    case Some(i) => entries[i]
    case None => if q == [] then root else None
  }

  /**
   * Each path of the built trie holds the last entry inserted there; the root holds the
   * root entry unless an entry's path has no segments; every other node holds nothing.
   */
  lemma {:induction false} BuildTreeValues(root: Option<Spec>, entries: seq<Option<Spec>>, q: seq<string>)
    ensures ValueAt(BuildTree(root, entries), q) == ExpectedAt(root, entries, q)
  {
    if entries == [] {
      assert ValueAt(RootNode(root), q) == if q == [] then root else None;
    } else {
      var init, e := entries[..|entries| - 1], entries[|entries| - 1];
      var t := BuildTree(root, init);
      BuildTreeValues(root, init, q);
      if HasPath(e) {
        var segs := Segments(e.value.path.value);
        assert BuildTree(root, entries) == InsertAt(t, segs, e);
        if segs == q {
          InsertReaches(t, segs, e);
          assert LastAt(entries, q) == Some(|entries| - 1);
        } else {
          InsertKeepsOthers(t, segs, e, q);
          assert LastAt(entries, q) == LastAt(init, q);
        }
      } else {
        assert BuildTree(root, entries) == t;
        assert LastAt(entries, q) == LastAt(init, q);
      }
    }
  }

  /**
   * `__init__` as written: the warning for a skipped entry formats `%(key)s` against
   * `locals()`, which has no `key`, so the `%` raises `KeyError` before anything is logged.
   */
  function BuildAsWritten(root: Option<Spec>, entries: seq<Option<Spec>>): Result<Node<Spec>, string>
  {
    if entries == [] then Success(RootNode(root))
    else
      match BuildAsWritten(root, entries[..|entries| - 1])
      case Failure(err) => Failure(err)
      case Success(t) =>
        var e := entries[|entries| - 1];
        if HasPath(e) then Success(InsertAt(t, Segments(e.value.path.value), e))
        else Failure("KeyError: 'key'")
  }

  /** As written, construction succeeds exactly when every entry has a path, and then agrees. */
  lemma {:induction false} AsWrittenRaisesOnPathless(root: Option<Spec>, entries: seq<Option<Spec>>)
    ensures BuildAsWritten(root, entries).Success? <==> forall i :: 0 <= i < |entries| ==> HasPath(entries[i])
    ensures BuildAsWritten(root, entries).Success? ==> BuildAsWritten(root, entries).value == BuildTree(root, entries)
  {
    AsWrittenFails(root, entries);
    if BuildAsWritten(root, entries).Success? {
      AsWrittenAgrees(root, entries);
    }
  }

  lemma {:induction false} AsWrittenFails(root: Option<Spec>, entries: seq<Option<Spec>>)
    ensures BuildAsWritten(root, entries).Success? <==> forall i :: 0 <= i < |entries| ==> HasPath(entries[i])
  {
    if entries != [] {
      var init, e := entries[..|entries| - 1], entries[|entries| - 1];
      AsWrittenFails(root, init);
      if forall i :: 0 <= i < |entries| ==> HasPath(entries[i]) {
        forall i | 0 <= i < |init| ensures HasPath(init[i]) {
          assert init[i] == entries[i];
        }
      }
      if (forall i :: 0 <= i < |init| ==> HasPath(init[i])) && HasPath(e) {
        forall i | 0 <= i < |entries| ensures HasPath(entries[i]) {
          if i < |init| {
            assert entries[i] == init[i];
          }
        }
      }
    }
  }

  lemma {:induction false} AsWrittenAgrees(root: Option<Spec>, entries: seq<Option<Spec>>)
    requires BuildAsWritten(root, entries).Success?
    ensures BuildAsWritten(root, entries).value == BuildTree(root, entries)
  {
    if entries != [] {
      var init, e := entries[..|entries| - 1], entries[|entries| - 1];
      AsWrittenAgrees(root, init);
    }
  }

  /** A null entry before a real one: as written the miner cannot be built; corrected, the entry is found. */
  lemma {:induction false} NullEntryCounterexample(spec: Spec)
    requires spec.path.Some?
    ensures BuildAsWritten(None, [None, Some(spec)]).Failure?
    ensures ValueAt(BuildTree(None, [None, Some(spec)]), Segments(spec.path.value)) == Some(spec)
  {
    var entries := [None, Some(spec)];
    AsWrittenRaisesOnPathless(None, entries);
    assert !HasPath(entries[0]);
    BuildTreeValues(None, entries, Segments(spec.path.value));
  }

  // ---------------------------------------------------------------- listing paths

  /** `set(modules)` non-empty: a module restriction is in force. */
  predicate Restricted(modules: Option<seq<string>>)
  {
    modules.Some? && modules.value != []
  }

  /** The entry's module tags; none when the key is absent or null. */
  function ModulesOf(e: Spec): set<string>
  {
    if e.modules.Given? then set m | m in e.modules.value else {}
  }

  /** `get_all_paths` lists an entry when it has a path and, under a restriction, shares a module. */
  predicate Listed(e: Option<Spec>, modules: Option<seq<string>>)
  {
    HasPath(e) && (!Restricted(modules) || exists m :: m in modules.value && m in ModulesOf(e.value))
  }

  /** The paths of the listed entries, in configuration order. */
  function ListedPaths(entries: seq<Option<Spec>>, modules: Option<seq<string>>): seq<string>
  {
    if entries == [] then []
    else
      var e := entries[|entries| - 1];
      ListedPaths(entries[..|entries| - 1], modules) + (if Listed(e, modules) then [e.value.path.value] else [])
  }

  /** A path is listed exactly when some listed entry has it. */
  lemma {:induction false} ListedPathsMembers(entries: seq<Option<Spec>>, modules: Option<seq<string>>, p: string)
    ensures p in ListedPaths(entries, modules) <==>
      exists i :: 0 <= i < |entries| && Listed(entries[i], modules) && entries[i].value.path.value == p
  {
    if entries != [] {
      var init := entries[..|entries| - 1];
      ListedPathsMembers(init, modules, p);
      assert forall i :: 0 <= i < |init| ==> init[i] == entries[i];
    }
  }

  /** Without a restriction every entry with a path is listed; under one, entries without modules never are. */
  lemma {:induction false} ListedUnrestricted(e: Option<Spec>, modules: Option<seq<string>>)
    ensures !Restricted(modules) ==> (Listed(e, modules) <==> HasPath(e))
    ensures HasPath(e) && !e.value.modules.Given? && Restricted(modules) ==> !Listed(e, modules)
  {
  }

  // ---------------------------------------------------------------- stage chains

  /** Which key a lookup asks for: `find(file_name, accept=lambda x: key in x)`. */
  datatype Concern = ParserKey | FiltersKey | HandlersKey | FileFiltersKey

  predicate Declares(c: Concern, s: Spec)
  {
    match c
    case ParserKey => !s.parser.Missing?
    case FiltersKey => !s.filters.Missing?
    case HandlersKey => !s.handlers.Missing?
    case FileFiltersKey => !s.fileFilters.Missing?
  }

  function AcceptFor(c: Concern): Accept<Spec>
  {
    Only(s => Declares(c, s))
  }

  /** The parser `_parse_file` instantiates: the entry's if set, else the default (`None`). */
  function ParserOf(v: Option<Spec>): Option<Stage>
  {
    if v.Some? && v.value.parser.Given? then Some(v.value.parser.value) else None
  }

  /** The filter stages `_filter_file` runs; none unless the entry lists some. */
  function FilterStages(v: Option<Spec>): seq<Stage>
  {
    if v.Some? && v.value.filters.Given? then v.value.filters.value else []
  }

  /** The handler stages `_handle_file` runs; none unless the entry lists some. */
  function HandlerStages(v: Option<Spec>): seq<Stage>
  {
    if v.Some? && v.value.handlers.Given? then v.value.handlers.value else []
  }

  /** Each filter stage as a record predicate, in stage order. */
  function StagePredicates(reg: Registry, stages: seq<Stage>): (fs: seq<Record -> bool>)
    ensures |fs| == |stages|
  {
    if stages == [] then [] else [x => reg.filter(stages[0], x)] + StagePredicates(reg, stages[1..])
  }

  lemma {:induction false} StagePredicatesPass(reg: Registry, stages: seq<Stage>, x: Record)
    ensures Seqs.PassesAll(StagePredicates(reg, stages), x) <==> forall i :: 0 <= i < |stages| ==> reg.filter(stages[i], x)
  {
    if stages != [] {
      var f0: Record -> bool := y => reg.filter(stages[0], y);
      var rest := StagePredicates(reg, stages[1..]);
      var fs := [f0] + rest;
      assert StagePredicates(reg, stages) == fs;
      StagePredicatesPass(reg, stages[1..], x);
      if Seqs.PassesAll(fs, x) {
        forall j | 0 <= j < |rest| ensures rest[j](x) {
          assert fs[j + 1] == rest[j];
        }
        assert fs[0] == f0 && f0(x) == reg.filter(stages[0], x);
        forall i | 1 <= i < |stages| ensures reg.filter(stages[i], x) {
          assert stages[1..][i - 1] == stages[i];
        }
      }
      if forall i :: 0 <= i < |stages| ==> reg.filter(stages[i], x) {
        assert forall i :: 0 <= i < |stages| - 1 ==> reg.filter(stages[1..][i], x);
        forall i | 0 <= i < |fs| ensures fs[i](x) {
          if i > 0 {
            assert fs[i] == rest[i - 1];
          }
        }
      }
    }
  }

  /** Each handler stage as a record map, in stage order. */
  function StageMaps(reg: Registry, stages: seq<Stage>): seq<Record -> Record>
  {
    if stages == [] then [] else [x => reg.handle(stages[0], x)] + StageMaps(reg, stages[1..])
  }

  /** A record passed through every handler stage in order. */
  function ApplyHandlers(reg: Registry, stages: seq<Stage>, x: Record): Record
  {
    if stages == [] then x else ApplyHandlers(reg, stages[1..], reg.handle(stages[0], x))
  }

  lemma {:induction false} ComposeStageMaps(reg: Registry, stages: seq<Stage>, x: Record)
    ensures Seqs.Compose(StageMaps(reg, stages), x) == ApplyHandlers(reg, stages, x)
  {
    if stages != [] {
      ComposeStageMaps(reg, stages[1..], reg.handle(stages[0], x));
    }
  }

  /** `_filter_file` once the governing entry is known: one comprehension per filter stage. */
  function FilterRecords(reg: Registry, v: Option<Spec>, records: seq<Record>): seq<Record>
  {
    Seqs.SelectChain(records, StagePredicates(reg, FilterStages(v)))
  }

  /** `_handle_file` once the governing entry is known: one comprehension per handler stage. */
  function HandleRecords(reg: Registry, v: Option<Spec>, records: seq<Record>): seq<Record>
  {
    Seqs.MapChain(records, StageMaps(reg, HandlerStages(v)))
  }

  /**
   * The filter chain keeps, in order, the records every stage accepts, and a record is kept
   * exactly when it is an input record all stages accept; with no stages nothing changes.
   */
  lemma {:induction false} FilterRecordsKeepsAccepted(reg: Registry, v: Option<Spec>, records: seq<Record>, x: Record)
    ensures FilterRecords(reg, v, records) == Seqs.SelectPassingAll(records, StagePredicates(reg, FilterStages(v)))
    ensures x in FilterRecords(reg, v, records) <==>
      x in records && forall i :: 0 <= i < |FilterStages(v)| ==> reg.filter(FilterStages(v)[i], x)
    ensures FilterStages(v) == [] ==> FilterRecords(reg, v, records) == records
  {
    var fs := StagePredicates(reg, FilterStages(v));
    Seqs.SelectChainIsConjunction(records, fs);
    Seqs.SelectPassingAllMembers(records, fs, x);
    StagePredicatesPass(reg, FilterStages(v), x);
  }

  /** The handler chain keeps the number and order of records and sends each through every stage. */
  lemma {:induction false} HandleRecordsPointwise(reg: Registry, v: Option<Spec>, records: seq<Record>)
    ensures |HandleRecords(reg, v, records)| == |records|
    ensures forall i :: 0 <= i < |records| ==>
      HandleRecords(reg, v, records)[i] == ApplyHandlers(reg, HandlerStages(v), records[i])
  {
    var stages := HandlerStages(v);
    Seqs.MapChainPointwise(records, StageMaps(reg, stages));
    forall i | 0 <= i < |records|
      ensures HandleRecords(reg, v, records)[i] == ApplyHandlers(reg, stages, records[i])
    {
      ComposeStageMaps(reg, stages, records[i]);
    }
  }

  /** `{'file_name': file_name, **one}`: the record's own `file_name`, if any, wins. */
  function Tag(name: string, r: Record): (t: Record)
    ensures "file_name" in t
    ensures t["file_name"] == if "file_name" in r then r["file_name"] else Str(name)
    ensures forall k :: k in t <==> k == "file_name" || k in r
    ensures forall k :: k in r ==> t[k] == r[k]
  {
    map["file_name" := Str(name)] + r
  }

  function Tagged(name: string, rs: seq<Record>): seq<Record>
  {
    Seqs.Map(rs, r => Tag(name, r))
  }

  /** The file contents `open(path)` yields, if the path can be opened. */
  type Opener = string -> Option<string>

  /** `opened_file_list`: the paths that open, as files, in order. */
  function OpenAll(open: Opener, paths: seq<string>): seq<File>
  {
    if paths == [] then []
    else
      var p := paths[|paths| - 1];
      OpenAll(open, paths[..|paths| - 1]) + (if open(p).Some? then [File(p, open(p).value)] else [])
  }

  /** A file is among the opened ones iff its path was listed and opening it gave its text. */
  lemma {:induction false} OpenAllMembers(open: Opener, paths: seq<string>, f: File)
    ensures f in OpenAll(open, paths) <==> f.name in paths && open(f.name) == Some(f.text)
  {
    if paths != [] {
      var init := paths[..|paths| - 1];
      OpenAllMembers(open, init, f);
      assert paths == init + [paths[|paths| - 1]];
    }
  }

  /** When every path opens, the files come back one per path, in the order of the paths. */
  lemma {:induction false} OpenAllInOrder(open: Opener, paths: seq<string>)
    requires forall i :: 0 <= i < |paths| ==> open(paths[i]).Some?
    ensures |OpenAll(open, paths)| == |paths|
    ensures forall i :: 0 <= i < |paths| ==> OpenAll(open, paths)[i] == File(paths[i], open(paths[i]).value)
  {
    if paths != [] {
      var init := paths[..|paths| - 1];
      OpenAllInOrder(open, init);
      var files := OpenAll(open, paths);
      forall i | 0 <= i < |paths| ensures files[i] == File(paths[i], open(paths[i]).value) {
        if i < |init| {
          assert files[i] == OpenAll(open, init)[i] && paths[i] == init[i];
        }
      }
    }
  }

  /** The entry `find(name, accept=lambda x: key in x)` resolves in the trie `root`. */
  function Governing(root: Node<Spec>, name: string, c: Concern): Option<Spec>
  {
    Resolve(root, Segments(name), AcceptFor(c))
  }

  /** `mine_file`: parse, filter, handle, each stage chosen by its own governing entry. */
  function Mined(reg: Registry, root: Node<Spec>, f: File): seq<Record>
  {
    var parsed := reg.parse(ParserOf(Governing(root, f.name, ParserKey)), f);
    var kept := FilterRecords(reg, Governing(root, f.name, FiltersKey), parsed);
    HandleRecords(reg, Governing(root, f.name, HandlersKey), kept)
  }

  /** `mine_file` of the miner with this registry and trie. */
  function MinerOf(reg: Registry, root: Node<Spec>): File -> seq<Record>
  {
    f => Mined(reg, root, f)
  }

  /** `mine_files`: the tagged records of every file, file by file. */
  function MinedAll(mine: File -> seq<Record>, files: seq<File>): seq<Record>
  {
    if files == [] then []
    else
      var f := files[|files| - 1];
      MinedAll(mine, files[..|files| - 1]) + Tagged(f.name, mine(f))
  }

  /** The file filters of an entry accept `name`: no entry, no `file_filters`, or all of them pass. */
  predicate FileFiltersPass(reg: Registry, v: Option<Spec>, name: string)
  {
    || v.None?
    || !v.value.fileFilters.Given?
    || forall i :: 0 <= i < |v.value.fileFilters.value| ==> reg.fileFilter(v.value.fileFilters.value[i], name)
  }

  /** `_filter_one_file(name)` in the trie `root`. */
  predicate FileAccepted(reg: Registry, root: Node<Spec>, name: string)
  {
    FileFiltersPass(reg, Governing(root, name, FileFiltersKey), name)
  }

  /** `_filter_one_file` as a predicate on paths. */
  function FileAcceptor(reg: Registry, root: Node<Spec>): string -> bool
  {
    p => FileAccepted(reg, root, p)
  }

  /** The paths the configured file filters let through, in order. */
  function AcceptedPaths(reg: Registry, root: Node<Spec>, paths: seq<string>): seq<string>
  {
    Seqs.Select(paths, FileAcceptor(reg, root))
  }

  lemma {:induction false} AcceptedPathsMembers(reg: Registry, root: Node<Spec>, paths: seq<string>, p: string)
    ensures p in AcceptedPaths(reg, root, paths) <==> p in paths && FileAccepted(reg, root, p)
  {
    Seqs.SelectMembers(paths, FileAcceptor(reg, root), p);
  }

  /** A path is a mining candidate exactly when it was walked and every CLI and configured file filter accepts it. */
  lemma {:induction false} CandidatesMembers(reg: Registry, root: Node<Spec>, walked: seq<string>, cliFilters: seq<string -> bool>, p: string)
    ensures p in AcceptedPaths(reg, root, Seqs.SelectChain(walked, cliFilters)) <==>
      p in walked && Seqs.PassesAll(cliFilters, p) && FileAccepted(reg, root, p)
  {
    AcceptedPathsMembers(reg, root, Seqs.SelectChain(walked, cliFilters), p);
    Seqs.SelectChainIsConjunction(walked, cliFilters);
    Seqs.SelectPassingAllMembers(walked, cliFilters, p);
  }

  /** One more file adds its tagged records at the end. */
  lemma {:induction false} MinedAllStep(mine: File -> seq<Record>, files: seq<File>, i: int)
    requires 0 <= i < |files|
    ensures MinedAll(mine, files[..i + 1]) == MinedAll(mine, files[..i]) + Tagged(files[i].name, mine(files[i]))
  {
    assert files[..i + 1][..i] == files[..i];
  }

  /** Mining a list of files is mining each part in turn: outputs follow input file order. */
  lemma {:induction false} MinedAllAppend(mine: File -> seq<Record>, a: seq<File>, b: seq<File>)
    ensures MinedAll(mine, a + b) == MinedAll(mine, a) + MinedAll(mine, b)
    decreases |b|
  {
    if b == [] {
      assert a + b == a;
    } else {
      var b', f := b[..|b| - 1], b[|b| - 1];
      MinedAllAppend(mine, a, b');
      var ab := a + b;
      assert ab[..|ab| - 1] == a + b' && ab[|ab| - 1] == f;
      var t := Tagged(f.name, mine(f));
      assert MinedAll(mine, ab) == MinedAll(mine, a + b') + t;
      assert MinedAll(mine, b) == MinedAll(mine, b') + t;
    }
  }

  /** Every mined record is a record of some file, tagged with that file's name. */
  lemma {:induction false} MinedAllTagged(mine: File -> seq<Record>, files: seq<File>, k: int)
    requires 0 <= k < |MinedAll(mine, files)|
    ensures exists i, j :: (0 <= i < |files| && 0 <= j < |mine(files[i])|
      && MinedAll(mine, files)[k] == Tag(files[i].name, mine(files[i])[j]))
    decreases |files|
  {
    var init, f := files[..|files| - 1], files[|files| - 1];
    var head := MinedAll(mine, init);
    if k < |head| {
      MinedAllTagged(mine, init, k);
      var i, j :| 0 <= i < |init| && 0 <= j < |mine(init[i])| && head[k] == Tag(init[i].name, mine(init[i])[j]);
      assert init[i] == files[i];
    } else {
      var j := k - |head|;
      assert MinedAll(mine, files)[k] == Tagged(f.name, mine(f))[j];
    }
  }

  /** The loop of `_filter_one_file`: stop with false at the first stage that rejects `name`. */
  method AllFileFiltersPass(reg: Registry, stages: seq<Stage>, name: string) returns (ok: bool)
    ensures ok <==> forall i :: 0 <= i < |stages| ==> reg.fileFilter(stages[i], name)
  {
    var i := 0;
    while i < |stages|
      invariant 0 <= i <= |stages|
      invariant forall j :: 0 <= j < i ==> reg.fileFilter(stages[j], name)
    {
      if !reg.fileFilter(stages[i], name) {
        return false;
      }
      i := i + 1;
    }
    return true;
  }

  /** The loop of `mining` that opens each candidate, skipping those that fail to open. */
  method OpenFiles(open: Opener, paths: seq<string>) returns (files: seq<File>)
    ensures files == OpenAll(open, paths)
  {
    files := [];
    var i := 0;
    while i < |paths|
      invariant 0 <= i <= |paths|
      invariant files == OpenAll(open, paths[..i])
    {
      var p := paths[i];
      if open(p).Some? {
        files := files + [File(p, open(p).value)];
      }
      assert paths[..i + 1][..i] == paths[..i];
      i := i + 1;
    }
    assert paths[..i] == paths;
  }

  // ---------------------------------------------------------------- the miner

  /** `DeepLogMiner`: the settings, the stage registry, and the trie built from them. */
  class DeepLogMiner {
    const settings: Settings
    const registry: Registry
    const tree: Loggers<Spec>

    /** `DeepLogMiner(settings)`: the root entry at the root, then every entry with a path inserted in order. */
    constructor(settings: Settings, registry: Registry)
      ensures this.settings == settings && this.registry == registry
      ensures fresh(tree) && tree.root == BuildTree(settings.root, settings.loggers)
    {
      this.settings := settings;
      this.registry := registry;
      var t := new Loggers(Some(RootNode(settings.root)));
      var entries := settings.loggers;
      var i := 0;
      while i < |entries|
        invariant 0 <= i <= |entries|
        invariant fresh(t)
        invariant t.root == BuildTree(settings.root, entries[..i])
      {
        var e := entries[i];
        if e.Some? && e.value.path.Some? {
          t.Insert(e.value.path.value, e);
        }
        assert entries[..i + 1][..i] == entries[..i];
        i := i + 1;
      }
      assert entries[..i] == entries;
      tree := t;
    }

    /** `get_all_paths(modules)`. */
    method GetAllPaths(modules: Option<seq<string>>) returns (paths: seq<string>)
      ensures paths == ListedPaths(settings.loggers, modules)
    {
      var entries := settings.loggers;
      paths := [];
      var i := 0;
      while i < |entries|
        invariant 0 <= i <= |entries|
        invariant paths == ListedPaths(entries[..i], modules)
      {
        var e := entries[i];
        if Listed(e, modules) {
          paths := paths + [e.value.path.value];
        }
        assert entries[..i + 1][..i] == entries[..i];
        i := i + 1;
      }
      assert entries[..i] == entries;
    }

    /** `_parse_file(fp)`. */
    method ParseFile(f: File) returns (records: seq<Record>)
      ensures records == registry.parse(ParserOf(Governing(tree.root, f.name, ParserKey)), f)
    {
      var v := tree.Find(f.name, AcceptFor(ParserKey));
      if v.Some? && v.value.parser.Given? {
        records := registry.parse(Some(v.value.parser.value), f);
      } else {
        records := registry.parse(None, f);
      }
    }

    /** `_filter_file(fp, parsed_results)`. */
    method FilterFile(f: File, records: seq<Record>) returns (kept: seq<Record>)
      ensures kept == FilterRecords(registry, Governing(tree.root, f.name, FiltersKey), records)
    {
      var v := tree.Find(f.name, AcceptFor(FiltersKey));
      kept := FilterRecords(registry, v, records);
    }

    /** `_handle_file(fp, parsed_results)`. */
    method HandleFile(f: File, records: seq<Record>) returns (handled: seq<Record>)
      ensures handled == HandleRecords(registry, Governing(tree.root, f.name, HandlersKey), records)
    {
      var v := tree.Find(f.name, AcceptFor(HandlersKey));
      handled := HandleRecords(registry, v, records);
    }

    /** `mine_file(fp)`. */
    method MineFile(f: File) returns (records: seq<Record>)
      ensures records == Mined(registry, tree.root, f)
    {
      records := ParseFile(f);
      records := FilterFile(f, records);
      records := HandleFile(f, records);
    }

    /** `mine_files(fps)`, its generated records collected in order. */
    method MineFiles(files: seq<File>) returns (out: seq<Record>)
      ensures out == MinedAll(MinerOf(registry, tree.root), files)
    {
      out := [];
      var i := 0;
      while i < |files|
        invariant 0 <= i <= |files|
        invariant out == MinedAll(MinerOf(registry, tree.root), files[..i])
      {
        var f := files[i];
        var results := MineFile(f);
        MinedAllStep(MinerOf(registry, tree.root), files, i);
        out := out + Tagged(f.name, results);
        i := i + 1;
      }
      assert files[..i] == files;
    }

    /** `_filter_one_file(file_name)`: false at the first file filter that rejects. */
    method FilterOneFile(name: string) returns (ok: bool)
      ensures ok == FileAccepted(registry, tree.root, name)
    {
      var v := tree.Find(name, AcceptFor(FileFiltersKey));
      if v.None? || !v.value.fileFilters.Given? {
        return true;
      }
      ok := AllFileFiltersPass(registry, v.value.fileFilters.value, name);
    }

    /** The comprehension over `_filter_one_file` in `mining`. */
    method FilterFiles(paths: seq<string>) returns (kept: seq<string>)
      ensures kept == AcceptedPaths(registry, tree.root, paths)
    {
      kept := [];
      var i := 0;
      while i < |paths|
        invariant 0 <= i <= |paths|
        invariant kept == AcceptedPaths(registry, tree.root, paths[..i])
      {
        var ok := FilterOneFile(paths[i]);
        Seqs.SelectStep(paths, FileAcceptor(registry, tree.root), i);
        if ok {
          kept := kept + [paths[i]];
        }
        i := i + 1;
      }
      assert paths[..i] == paths;
    }

    /**
     * `mining(...)` after the directory walk, in batch mode: the walked paths pass the
     * command-line file filters one comprehension at a time, then the configured file
     * filters; the paths that open are mined in order.
     */
    method Mining(walked: seq<string>, cliFilters: seq<string -> bool>, open: Opener)
      returns (candidates: seq<string>, records: seq<Record>)
      ensures candidates == AcceptedPaths(registry, tree.root, Seqs.SelectChain(walked, cliFilters))
      ensures records == MinedAll(MinerOf(registry, tree.root), OpenAll(open, candidates))
    {
      var afterCli := Seqs.SelectChain(walked, cliFilters);
      candidates := FilterFiles(afterCli);
      var openFiles := OpenFiles(open, candidates);
      records := MineFiles(openFiles);
    }
  }
}
