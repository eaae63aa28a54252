# deep_log core in Dafny

This project models the core of `deep_log`, a command-line log miner. It covers:

- **The routing trie** (`deep_log/config.py`). Logger entries are registered under
  slash-separated glob patterns. A file path resolves to the entry that governs it: walk
  the path segment by segment, at each segment take the first child, in insertion order,
  whose pattern matches, and keep the last value the caller's `accept` predicate accepts.
- **The miner** (`deep_log/miner.py`):
  - `DeepLogMiner` builds that trie from the settings and lists the configured paths.
  - For each file it parses, filters and handles the records. Each stage is picked by its
    own trie lookup: the entry that declares `parser`, `filters` or `handlers`.
  - It tags every record with the file's name.
  - It selects candidate files through the command-line and configured file filters.
- **The runner** (`deep_log/runner.py`). `LogRunner.run` consumes the mined record stream:
  - it stops at the record limit;
  - it drops records whose key tuple over the `distinct` columns was already seen;
  - it writes each record, or collects the records for one analysis at the end.

  The streaming mode deals files round-robin to its workers.
- **The factories** (`deep_log/factory.py`). They turn a recency string ("90", "15m",
  "2H", "1d") into seconds and a threshold, and a comma-separated tag list into a set.
- **`NameFilter`** (`deep_log/meta_filter.py`). It accepts a file when its lower-cased
  name matches one of the comma-separated glob patterns.
- **The analyzer** (`deep_log/analyzer.py`):
  - the output formatter;
  - `need_reduce`;
  - the order-by reduction, a stable sort in place on the record list that raises
    `TypeError` when the keys cannot be compared.

Modules, one per file:

- `Wrappers`: `Option` and `Result`.
- `Strings`: Python's `split`, `strip`, `lower`, `isdigit` and `int()` on the strings
  the core handles.
- `Glob`: `fnmatch`.
- `Seqs`: the list comprehensions chained stage by stage.
- `Records`: a mined record, a map from field names to integers or strings.
- `Config`, `Miner`, `Runner`, `Factory`, `MetaFilter`, `Analyzer`: the six source files.

How the model is shaped:

- **Trie nodes** are values: `Config.Node`, with children in insertion order. The trie
  itself is the class `Config.Loggers`:
  - `Insert` rebuilds the path it upserts;
  - `Find` is the loop of `find`, proved equal to the function `Config.Resolve`.
- **The sort.** `Analyzer.Analyze` sorts an `array` in place by insertion sort. It is
  proved equal to the reference function `Analyzer.SortSeq`. That function is proved:
  - to give a permutation of the input;
  - to be ordered by the key;
  - to be stable.
- **Loops as methods.** `Runner.LogRunner.Run` and `Runner.Partition` are loops. Each is
  proved against a function of its inputs.

Behaviour of the code worth knowing, and where the model departs from it:

- **The root's value.** `find` seeds its result with the root's value unconditionally
  (`deep_log/config.py:60`). When no node on the walk is accepted, `find` therefore
  returns the root's value even if `accept` rejects it (`Config.ResolveRootSeed`).
- **No backtracking.** The walk stops at the first segment no child matches
  (`deep_log/config.py:65-67`). If the first matching child leads nowhere, a later
  sibling that would match is never tried.
- **`KeyError` in the constructor.** The miner's constructor as written raises `KeyError`
  on a logger entry without a path (`deep_log/miner.py:28-29`).
  Here the model does not follow the code: the class `Miner.DeepLogMiner` builds the
  evidently intended trie, which skips such entries. The code as written is the function
  `Miner.BuildAsWritten` (see Findings).
- **`TypeError` in `DslFilter`.** `DslFilter` calls the builtin `compile` with one argument,
  so building one from a non-empty expression raises `TypeError`. The recency and tag
  factories therefore raise on every input that reaches `DslFilter`. `Factory.RecentRecordFilter`
  and `Factory.TagsFilter` model the intended filters; `Factory.RecentRecordFilterAsWritten`
  and `Factory.TagsFilterAsWritten` model the code (see Findings).
- **Failed sort in `run`.** When the order-by sort raises, the exception leaves `run`
  before `write` is called. `Runner.RunOutcome` records that no write happened and that
  the run raised.

## Model

| member | source | states |
|---|---|---|
| Config.KeyIndex | deep_log/config.py:21-22 | an exact key lookup finds the first (only) child under that key, and `None` exactly when no child has it |
| Config.FirstMatch | deep_log/config.py:32-34 | the index found is the first child whose pattern glob-matches the segment; no earlier child matches; `None` only when no child matches |
| Config.GetChildIsFirstMatch | deep_log/config.py:28-34 | non-fuzzy lookup succeeds iff some child has exactly that key; fuzzy lookup succeeds iff some child's pattern matches, and returns the first such child in insertion order |
| Config.UpsertChild | deep_log/config.py:20-26 | an existing child is reused unchanged; otherwise a fresh valueless leaf is appended last; either way the child sits under that key, and distinct keys stay distinct |
| Config.SegmentsOfJoin | deep_log/config.py:50-53 | a path made of non-blank, slash-free segments splits back into exactly those segments |
| Config.SegmentsOfSeparators | deep_log/config.py:50-53 | a path of only slashes and whitespace has no segments, so it names the root |
| Config.InsertReaches | deep_log/config.py:48-56 | after `insert(p, v)` an exact walk of `p` reaches a node holding `v` |
| Config.InsertKeepsOthers | deep_log/config.py:48-56 | `insert(p, v)` changes the value at no other path |
| Config.InsertOverwrites | deep_log/config.py:48-56 | inserting twice at the same path gives the trie of the second insert alone |
| Config.ResolveRootSeed | deep_log/config.py:58-76 | when no node on the walk holds an accepted value, `find` returns the root's value whether or not `accept` holds of it |
| Config.ResolveDeepestAccepted | deep_log/config.py:58-78 | `find` returns the value of the deepest walked node whose value is present and accepted |
| Config.WalkStep | deep_log/config.py:62-65 | each node on the walk is the first child of the previous node whose pattern matches that segment |
| Config.WalkStop | deep_log/config.py:65-67 | the walk stops short only at a segment that no child of the current node matches |
| Config.WalkStopped | deep_log/config.py:65-67 | once the walk has stopped, further segments do not extend it |
| Config.InsertionOrderTieBreak | deep_log/config.py:32-34 | with `x/exact` registered before `x/*`, resolving `x/exact` returns the `x/exact` value, and any other name under `x` gets the `x/*` value |
| Config.Loggers.constructor | deep_log/config.py:45-46 | the root is the given node, or a fresh valueless node named "/" |
| Config.Loggers.Insert | deep_log/config.py:48-56 | the new trie is the old one with the nodes along the non-blank segments upserted and the last one's value set |
| Config.Loggers.Find | deep_log/config.py:58-78 | the loop returns `Resolve` of the trie for the non-blank segments of the name |
| Glob.LiteralMatch | deep_log/config.py:33 | a pattern without `*` or `?` matches exactly the name it spells |
| Glob.StarMatchesAll | deep_log/config.py:33 | the pattern `*` matches every segment |
| Glob.StarFreeLength | deep_log/config.py:33 | a pattern without `*` matches only names of its own length |
| Glob.LeadingStar | deep_log/meta_filter.py:21 | a leading `*` absorbs any prefix in front of a name the rest of the pattern matches |
| Strings.JoinSplit | deep_log/meta_filter.py:14 | joining the comma-split pieces gives back the original string |
| Strings.SplitJoin | deep_log/factory.py:39 | splitting pieces joined by a separator they do not contain gives back the pieces |
| Strings.Lower | deep_log/meta_filter.py:21 | lower-casing keeps the length and lower-cases each character |
| Strings.ParseIntOfDigits | deep_log/factory.py:20-22 | `int()` of a digit string is its decimal value |
| Strings.ParseIntRoundTrip | deep_log/factory.py:22 | `int()` reads back every natural number written in decimal |
| Records.Get | deep_log/runner.py:46 | `one.get(column)` is present exactly when the record has the field, and then is its value |
| MetaFilter.BaseAccepts | deep_log/meta_filter.py:7-8 | the base meta-filter accepts every file |
| MetaFilter.NewNameFilter | deep_log/meta_filter.py:12-16 | no patterns exactly for `None` or the empty string; otherwise at least one comma-free pattern, joining back to the input |
| MetaFilter.AnyMatch | deep_log/meta_filter.py:20-23 | true iff some pattern glob-matches the name |
| MetaFilter.NameAccepts | deep_log/meta_filter.py:18-25 | without patterns every file passes; with patterns, a file passes iff one pattern matches its lower-cased name |
| MetaFilter.CaseInsensitiveName | deep_log/meta_filter.py:21 | names that differ only in letter case are accepted alike |
| MetaFilter.NameFilterOfPatterns | deep_log/meta_filter.py:12-25 | a filter built from a non-empty string accepts a name iff one of its comma-separated pieces matches the lower-cased name |
| MetaFilter.EmptyNameFilterAcceptsAll | deep_log/meta_filter.py:15-16 | a filter built from `None` or `""` accepts every name |
| MetaFilter.SuffixPatternAccepts | deep_log/meta_filter.py:18-23 | a pattern `*ext` with a literal `ext` accepts every file whose lower-cased name ends in `ext` |
| MetaFilter.StarFreePatternsFixLength | deep_log/meta_filter.py:18-23 | with no `*` in the patterns, an accepted name is as long as one of them |
| Factory.RecentSeconds | deep_log/factory.py:19-32 | a digit string is seconds; otherwise it fails as unsupported exactly when the string is empty or its last letter is not s/m/h/d in either case, and as an invalid literal exactly when the unit is known but `int()` refuses the rest |
| Factory.RecentWithUnit | deep_log/factory.py:23-30 | a number followed by a unit letter is that number times the unit's seconds; a prefix `int()` refuses fails |
| Factory.RecentRoundTrip | deep_log/factory.py:20-30 | writing `n` with or without a unit and reading it back gives `n` times the unit's seconds |
| Factory.RecentRecordFilter | deep_log/factory.py:14-35 | as evidently intended: `None` or `""` give the always-true filter; otherwise records newer than `now` minus the duration, or the duration's error |
| Factory.DslFilterAsWritten | deep_log/filter.py:12-15 | building a `DslFilter` succeeds iff the expression is empty; a non-empty one raises `TypeError` from the one-argument `compile` |
| Factory.RecentRecordFilterRaises | deep_log/factory.py:14-35 | as written, `create_recent_dsl` succeeds iff the duration is `None` or empty; a duration that parses raises `TypeError`, a refused one its own error, as the intended filter would |
| Factory.RecentDslCounterexample | deep_log/factory.py:34-35 | for `"90"` the code as written raises `TypeError` while the intended filter keeps records newer than `now - 90` |
| Factory.RecentFileFilter | deep_log/factory.py:45-67 | only `None` gives no filter; `""` is refused as unsupported; otherwise files modified after `now` minus the duration, or the duration's error |
| Factory.LongerDurationEarlierThreshold | deep_log/factory.py:34-66 | a longer duration gives an earlier or equal threshold, for the file filter and the record filter alike |
| Factory.TagSet | deep_log/factory.py:38-40 | the tag set holds exactly the comma-separated pieces, none containing a comma |
| Factory.TagSetOfJoined | deep_log/factory.py:39 | comma-free tags joined by commas are recovered exactly as a set |
| Factory.TagsFilter | deep_log/factory.py:38-40 | as evidently intended: the filter holds exactly the comma-separated tags |
| Factory.TagsFilterAccepts | deep_log/factory.py:38-40 | a filter built from comma-free tags keeps a record iff the record carries one of them, as `tags & {...}` is truthy |
| Factory.TagsFilterRaises | deep_log/factory.py:38-40 | as written, `create_tags_filter` raises `TypeError` on every input |
| Analyzer.DefaultValues | deep_log/analyzer.py:14-16 | exactly the non-empty placeholder names are bound, each to `''` |
| Analyzer.NewFormatter | deep_log/analyzer.py:6-11 | the template is `{raw}` for `None` and the given string otherwise; full mode iff the string is `{}`; defaults for exactly the template's named placeholders |
| Analyzer.Format | deep_log/analyzer.py:18-23 | full mode renders the whole record; otherwise the template is filled from defaults overridden by the record's fields |
| Analyzer.EveryPlaceholderBound | deep_log/analyzer.py:18-23 | outside full mode every named placeholder is bound: to the record's field when present, else to `''` |
| Analyzer.NewAnalyzer | deep_log/analyzer.py:30-33 | order-by and reverse are kept; an empty or missing analyze expression becomes `None` |
| Analyzer.NeedReduceOfNew | deep_log/analyzer.py:35-36 | records are collected iff the order-by field or the analyze expression is non-empty |
| Analyzer.StrLessTotal | deep_log/analyzer.py:44 | any two distinct strings are ordered one way or the other by Python's `<` |
| Analyzer.BeforeAsymmetric | deep_log/analyzer.py:44 | no two records must each precede the other |
| Analyzer.SortPermutation | deep_log/analyzer.py:44 | the sorted list is a permutation of the input |
| Analyzer.SortSorted | deep_log/analyzer.py:44 | no element of the sorted list has to precede its left neighbour |
| Analyzer.SortStable | deep_log/analyzer.py:44 | records with equal keys keep their input order, in both directions |
| Analyzer.SortedMonotone | deep_log/analyzer.py:44 | with comparable keys, each key is at least its left neighbour's, or at most when reversed |
| Analyzer.AnalyzeOrderBy | deep_log/analyzer.py:42-45 | with an order-by field, `TypeError` exactly when two or more keys are not all numbers or all strings; otherwise a sorted, stable permutation |
| Analyzer.AnalyzeWithoutOrderBy | deep_log/analyzer.py:47-52 | without an order-by field, the analyze expression over the records if given, else the records unchanged |
| Analyzer.InsertInPlace | deep_log/analyzer.py:44 | one insertion step on the array: the prefix becomes the reference insertion, the rest is untouched |
| Analyzer.SortInPlace | deep_log/analyzer.py:44 | the array ends as the reference sort of its old contents |
| Analyzer.Analyze | deep_log/analyzer.py:41-52 | the result is `analyze` of the old contents, and the caller's list is sorted in place exactly in the order-by case |
| Seqs.SelectChainIsConjunction | deep_log/miner.py:115-119 | applying the filter comprehensions one after another keeps the records that pass all of them |
| Seqs.MapChainPointwise | deep_log/miner.py:102-106 | applying the handler comprehensions one after another sends each record through every handler, keeping count and order |
| Seqs.SelectMembers | deep_log/miner.py:204 | an element survives a list-comprehension filter iff it was in the list and the predicate holds of it |
| Miner.BuildTreeValues | deep_log/miner.py:16-34 | each path of the built trie holds the last entry registered there; the root holds the root entry unless an entry's path has no segments; other nodes hold nothing |
| Miner.AsWrittenRaisesOnPathless | deep_log/miner.py:27-29 | as written, construction succeeds exactly when every entry has a path, and then it builds the same trie |
| Miner.AsWrittenFails | deep_log/miner.py:27-29 | the constructor as written succeeds iff every entry is non-null and has a path |
| Miner.AsWrittenAgrees | deep_log/miner.py:27-34 | when the constructor as written succeeds, its trie is the one the corrected build makes |
| Miner.NullEntryCounterexample | deep_log/miner.py:27-34 | a null entry before a real one makes the constructor as written fail, while the corrected build finds the real entry at its path |
| Miner.ListedPathsMembers | deep_log/miner.py:36-51 | a path is listed iff some entry with that path is listed |
| Miner.ListedUnrestricted | deep_log/miner.py:43-49 | without a module restriction every entry with a path is listed; under one, an entry without modules never is |
| Miner.StagePredicatesPass | deep_log/miner.py:115-119 | a record passes all the stage predicates iff every filter stage accepts it |
| Miner.ComposeStageMaps | deep_log/miner.py:102-106 | the composed handler maps are the handler stages applied in order |
| Miner.FilterRecordsKeepsAccepted | deep_log/miner.py:110-123 | the filter chain keeps exactly the input records every stage accepts, in order; with no stages nothing changes |
| Miner.HandleRecordsPointwise | deep_log/miner.py:96-108 | the handler chain keeps the count and order and sends each record through every stage |
| Miner.Tag | deep_log/miner.py:137 | the tagged record has `file_name`, its own `file_name` winning over the file's, and every other field unchanged |
| Miner.AcceptedPathsMembers | deep_log/miner.py:204 | a path survives the configured file filters iff it was a candidate and `_filter_one_file` accepts it |
| Miner.CandidatesMembers | deep_log/miner.py:199-204 | a path is mined iff it was walked, every command-line file filter accepts it and the configured file filters accept it |
| Miner.MinedAllAppend | deep_log/miner.py:131-137 | mining a list of files is mining its parts in turn, outputs in file order |
| Miner.MinedAllTagged | deep_log/miner.py:131-137 | every mined record is a record of some file, tagged with that file's name |
| Miner.OpenAllMembers | deep_log/miner.py:210-216 | a file is opened iff its path is a candidate and opening that path yields its text |
| Miner.OpenAllInOrder | deep_log/miner.py:210-216 | when every candidate opens, the opened files are the candidates one for one, in order |
| Miner.OpenFiles | deep_log/miner.py:210-216 | the loop collects exactly the files that open, in candidate order, skipping failures |
| Miner.AllFileFiltersPass | deep_log/miner.py:167-174 | true iff every file filter stage accepts the name |
| Miner.DeepLogMiner.constructor | deep_log/miner.py:16-34 | the trie is the root entry at the root, then every entry with a path inserted in order |
| Miner.DeepLogMiner.GetAllPaths | deep_log/miner.py:36-51 | the paths of the listed entries, in configuration order |
| Miner.DeepLogMiner.ParseFile | deep_log/miner.py:84-94 | the records of the parser named by the entry governing the file for `parser`, or of the default parser |
| Miner.DeepLogMiner.FilterFile | deep_log/miner.py:110-123 | the records the filters of the entry governing the file for `filters` keep |
| Miner.DeepLogMiner.HandleFile | deep_log/miner.py:96-108 | the records as the handlers of the entry governing the file for `handlers` rewrite them |
| Miner.DeepLogMiner.MineFile | deep_log/miner.py:125-129 | parse, then filter, then handle, each by its own governing entry |
| Miner.DeepLogMiner.MineFiles | deep_log/miner.py:131-137 | the tagged records of each file, file by file |
| Miner.DeepLogMiner.FilterOneFile | deep_log/miner.py:156-174 | true when no entry governs the file for `file_filters` or it has none, else iff all its file filters accept the name |
| Miner.DeepLogMiner.FilterFiles | deep_log/miner.py:204 | the comprehension over `_filter_one_file` keeps exactly the accepted candidates, in order |
| Miner.DeepLogMiner.Mining | deep_log/miner.py:182-219 | the candidates are the walked paths the command-line and configured filters accept, and the records are those of the candidates that open, in order |
| Runner.DistinctColumns | deep_log/runner.py:20 | no columns for `None` or `""`; otherwise comma-free columns that join back to the argument |
| Runner.KeyOf | deep_log/runner.py:46 | the key tuple has one entry per column: the record's value, or `None` when it lacks the field |
| Runner.KeysOfMembers | deep_log/runner.py:45-50 | the seen keys are exactly the key tuples of the kept records |
| Runner.DedupStep | deep_log/runner.py:45-50 | one record of the stream is dropped iff distinct columns are set and its key tuple was already seen; otherwise it is appended |
| Runner.DedupNoColumns | deep_log/runner.py:45 | without distinct columns nothing is dropped |
| Runner.DedupKeys | deep_log/runner.py:45-50 | the kept records show every key tuple of the stream |
| Runner.DedupUnique | deep_log/runner.py:45-50 | with distinct columns no two kept records share a key tuple |
| Runner.DedupSubset | deep_log/runner.py:45-50 | every kept record comes from the stream |
| Runner.DedupPrefix | deep_log/runner.py:41-58 | what is kept from a prefix of the stream is a prefix of what is kept from the whole |
| Runner.KeptBound | deep_log/runner.py:42-43 | a positive limit bounds the records handled, a negative one handles none, and they are the first ones de-duplication keeps |
| Runner.KeptAtBreak | deep_log/runner.py:42-43 | where the loop breaks on the limit it has handled exactly what the limit allows |
| Runner.KeptAtEnd | deep_log/runner.py:41-58 | when the stream ends below the limit, every record de-duplication keeps was handled |
| Runner.WroteEach | deep_log/runner.py:52-54 | one write per handled record, in order |
| Runner.Partition | deep_log/runner.py:92-96 | with `w > 0` workers there are `w` groups and file `i` sits at position `i / w` of group `i % w`, every slot holding the file it names; with no workers and some files, `ZeroDivisionError` for 0 and `IndexError` for a negative count |
| Runner.LogRunner.constructor | deep_log/runner.py:8-20 | the distinct columns are the comma-split argument, none when it is empty or `None` |
| Runner.LogRunner.MineFiles | deep_log/runner.py:22-25 | it fails iff it is given a path, alone or first in a list, as `fp.name` raises on a `str` (deep_log/miner.py:133); a list of opened files is mined file by file |
| Runner.RunRaisesOnlyOnSort | deep_log/runner.py:36-62 | a run raises iff reduction sorts keys that cannot be compared, and then nothing was written; otherwise one write per handled record, or at most one analysis, never a failed one |
| Runner.LogRunner.Run | deep_log/runner.py:31-62 | the writes and whether the run raised are `RunOutcome` of the stream; the seen set holds the handled records' key tuples |

## Left out

- Subscribe (tail) mode is not modelled. This covers `mining_files` and the streaming loop
  of `run_in_multi_streams`, which never end. Only their partition of files into worker
  groups is modelled (`Runner.Partition`).
- Worker processes, `multiprocessing.Pool.imap_unordered` and the queue are not modelled.
  `Runner.LogRunner.Run` takes the mined stream as a finite sequence, so the delivery
  order of a worker pool is not captured.
- `LogRunner.run` lists files when `name_only` is set; that branch is not modelled. It
  calls `get_target_files`, which `DeepLogMiner` does not define; the batch and stream
  executors call it too.
- Settings loading, `get_settings_file` and the `{variables}` substitution in paths are
  not modelled. Paths enter the model already substituted. The model reads `loggers` as
  a list, which is what the constructor iterates; a dictionary-shaped `loggers`, as in
  the default file `get_settings_file` writes, is not modelled.
- The directory walk and `normalize_path` (`expanduser`, `expandvars`, `glob`,
  `os.walk`) are not modelled. `Miner.DeepLogMiner.Mining` takes the walked paths as a
  parameter. Opening a file is a parameter function (`Opener`) that may fail.
- Parsers, filters, handlers and file filters instantiated by name through `globals()`
  are abstract functions in `Miner.Registry`. The default parser is `parse(None, …)`.
  Their own behaviour is outside this core, and so is a missing name, which raises in
  the source.
- Miner.DeepLogMiner.FilterOneFile: does not raise for a file filter stage without
  `params`. The source unpacks `**None` there, which raises `TypeError`; the model hands
  the stage, with an empty parameter map, to the registry.
- Miner.HasPath: a `path` key holding null, on which the source fails at `.format`, is
  modelled as an absent path.
- `Miner.Stage` always has a name. An empty `parser` mapping, which the source treats as
  no parser, is not modelled.
- `DslFilter`, `DslFileFilter`, `DslMetaFilter` and the pandas analysis evaluate Python
  expressions; that evaluation is not modelled. `deep_log/file_filter.py` is not part of
  this model, so `Factory.RecentFileFilter` assumes `DslFileFilter` builds without raising. `Factory.RecordFilter` and
  `Factory.FileFilter` keep the threshold the expression would compare against.
  `Analyzer.Analysis.Evaluated` records the analysis expression and its input.
- The clock `datetime.now()` is the parameter `now`.
- The format-string parser `string.Formatter().parse` is a parameter function giving the
  placeholder names. Rendering a filled template to text is not modelled.
- Analyzer.Analyze: when the sort raises `TypeError`, the model leaves the list as it
  was. CPython may leave it partly reordered.
- Analyzer.NewAnalyzer: `reverse` is a boolean. The source's default `None`, which makes
  `list.sort` raise `TypeError`, is not modelled.
- `Records.Value` has only integers and strings. Floats, booleans, datetimes and `None`
  as field values are not modelled, and neither are their comparisons in the sort.
- `Glob.Match` treats `[` and `]` as ordinary characters. `fnmatch` bracket classes are
  not modelled.
- Strings.Lower: lower-cases ASCII letters only; non-ASCII case mapping, which
  `str.lower` performs, is not modelled.
- `Strings.LowerChar`, `Strings.IsDigit` and `Strings.IsSpace` follow ASCII, plus
  Python's whitespace code points for `IsSpace`. Non-ASCII case mapping and non-ASCII
  digits that `str.lower`, `str.isdigit` and `int()` accept are not modelled.
- Trie nodes are values rather than shared mutable objects. `Loggers.Insert` rebuilds
  the path it changes; the aliasing of `Logger` objects is not modelled.
- `LogFormatter.print` and `LogAnalyzer.analyze1` print or call miner methods that do not
  exist (`mine`, `mine_x`). They are not modelled.
- `Runner.Partition` takes `workers` as an integer. `workers=None`, on which `range`
  raises `TypeError`, is not modelled.

- Miner.DeepLogMiner.constructor: builds the intended trie, skipping null or pathless
  entries. The source raises `KeyError` there; `Miner.BuildAsWritten` models that.
- Factory.RecentRecordFilter: models the intended filter. For a duration that parses, the
  source raises `TypeError` in `DslFilter`; `Factory.RecentRecordFilterAsWritten` models that.
- Factory.TagsFilter: models the intended filter. The source raises `TypeError` on every
  input; `Factory.TagsFilterAsWritten` models that. How Python prints a set is a parameter.
- Runner.LogRunner.MineFiles: the worker pool's paths reach it only through `run`'s
  executors, which are not modelled; `run` takes the record stream as given.

## Findings

| source | as written | input that shows it | evidently intended | confidence | as-written member | corrected member |
|---|---|---|---|---|---|---|
| deep_log/miner.py:28-29 | a logger entry that is null or has no `path` is logged with `"config %(key)s ignore, because no path defined" % locals()`; `locals()` has no `key`, so the `%` raises `KeyError` and the miner cannot be built | settings whose `loggers` are `[None, {"path": "/var/log/a.log"}]` | warn, skip the entry and go on inserting the remaining entries | not executed | Miner.NullEntryCounterexample | Miner.BuildTreeValues |
| deep_log/filter.py:12-15 | `DslFilter` hands a non-empty expression to the builtin `compile` with one argument; `compile` requires source, filename and mode, so it raises `TypeError`, and `create_recent_dsl` (deep_log/factory.py:34-35) raises on every duration that parses | `create_recent_dsl("90")` | a filter for records newer than now minus 90 seconds, compiled as `compile(dsl, '', 'eval')` the way deep_log/meta_filter.py:31 does | not executed | Factory.RecentDslCounterexample | Factory.RecentRecordFilter |
| deep_log/factory.py:38-40 | `create_tags_filter` builds `DslFilter('tags & ' + str(set))`, a non-empty expression, so it raises `TypeError` on every input | `create_tags_filter("a,b")` | a filter keeping records whose tags meet `{"a", "b"}` | not executed | Factory.TagsFilterRaises | Factory.TagsFilterAccepts |
