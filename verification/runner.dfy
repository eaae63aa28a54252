/**
 * deep_log/runner.py: `LogRunner` consumes the mined record stream, applying the record
 * limit and de-duplication on key columns, writing records or collecting them for one
 * analysis at the end; streaming mode deals the files round-robin to the workers.
 */
module Runner {
  import opened Wrappers
  import opened Strings
  import opened Records
  import opened Analyzer
  import Miner

  // ---------------------------------------------------------------- distinct keys

  /** `distinct.split(',') if distinct else []`. */
  function DistinctColumns(distinct: Option<string>): (cols: seq<string>)
    ensures distinct.None? || distinct.value == "" ==> cols == []
    ensures distinct.Some? && distinct.value != "" ==> |cols| >= 1 && Join(cols, ',') == distinct.value
    ensures forall i :: 0 <= i < |cols| ==> ',' !in cols[i]
  {
    if distinct.Some? && distinct.value != "" then
      JoinSplit(distinct.value, ',');
      Split(distinct.value, ',')
    else []
  }

  /** A record's key tuple: each distinct column's value, `None` where the record lacks it. */
  function KeyOf(r: Record, cols: seq<string>): (k: seq<Option<Value>>)
    ensures |k| == |cols|
    ensures forall i :: 0 <= i < |cols| ==> k[i] == Get(r, cols[i])
  {
    seq(|cols|, i requires 0 <= i < |cols| => Get(r, cols[i]))
  }

  /** The key tuples of a list of records. */
  function KeysOf(s: seq<Record>, cols: seq<string>): set<seq<Option<Value>>>
  {
    if s == [] then {} else KeysOf(s[..|s| - 1], cols) + {KeyOf(s[|s| - 1], cols)}
  }

  lemma {:induction false} KeysOfMembers(s: seq<Record>, cols: seq<string>, k: seq<Option<Value>>)
    ensures k in KeysOf(s, cols) <==> exists i :: 0 <= i < |s| && KeyOf(s[i], cols) == k
  {
    if s != [] {
      var init := s[..|s| - 1];
      KeysOfMembers(init, cols, k);
      assert forall i :: 0 <= i < |init| ==> init[i] == s[i];
    }
  }

  /** The records `run` keeps when it drops every record whose key tuple it has already seen. */
  function Dedup(s: seq<Record>, cols: seq<string>): seq<Record>
  {
    if s == [] then []
    else
      var d := Dedup(s[..|s| - 1], cols);
      if cols != [] && KeyOf(s[|s| - 1], cols) in KeysOf(d, cols) then d else d + [s[|s| - 1]]
  }

  /** Without distinct columns nothing is dropped. */
  lemma {:induction false} DedupNoColumns(s: seq<Record>)
    ensures Dedup(s, []) == s
  {
    if s != [] {
      DedupNoColumns(s[..|s| - 1]);
    }
  }

  /** The kept records show every key tuple of the input. */
  lemma {:induction false} DedupKeys(s: seq<Record>, cols: seq<string>)
    ensures KeysOf(Dedup(s, cols), cols) == KeysOf(s, cols)
  {
    if s != [] {
      var d := Dedup(s[..|s| - 1], cols);
      DedupKeys(s[..|s| - 1], cols);
      if !(cols != [] && KeyOf(s[|s| - 1], cols) in KeysOf(d, cols)) {
        assert (d + [s[|s| - 1]])[..|d|] == d;
      }
    }
  }

  /** With distinct columns, no two kept records share a key tuple: the first occurrence wins. */
  lemma {:induction false} DedupUnique(s: seq<Record>, cols: seq<string>)
    requires cols != []
    ensures forall i, j :: 0 <= i < j < |Dedup(s, cols)| ==> KeyOf(Dedup(s, cols)[i], cols) != KeyOf(Dedup(s, cols)[j], cols)
  {
    if s != [] {
      var d := Dedup(s[..|s| - 1], cols);
      var x := s[|s| - 1];
      DedupUnique(s[..|s| - 1], cols);
      if KeyOf(x, cols) !in KeysOf(d, cols) {
        var d' := d + [x];
        forall i | 0 <= i < |d| ensures KeyOf(d'[i], cols) != KeyOf(d'[|d|], cols) {
          KeysOfMembers(d, cols, KeyOf(x, cols));
        }
      }
    }
  }

  /** Each kept record is an input record. */
  lemma {:induction false} DedupSubset(s: seq<Record>, cols: seq<string>, r: Record)
    ensures r in Dedup(s, cols) ==> r in s
  {
    if s != [] {
      DedupSubset(s[..|s| - 1], cols, r);
    }
  }

  /** What is kept from a prefix of the stream is a prefix of what is kept from the whole. */
  lemma {:induction false} DedupPrefix(s: seq<Record>, cols: seq<string>, i: int)
    requires 0 <= i <= |s|
    ensures |Dedup(s[..i], cols)| <= |Dedup(s, cols)|
    ensures Dedup(s[..i], cols) == Dedup(s, cols)[..|Dedup(s[..i], cols)|]
  {
    if i < |s| {
      var init := s[..|s| - 1];
      DedupPrefix(init, cols, i);
      assert init[..i] == s[..i];
    } else {
      assert s[..i] == s;
    }
  }

  /** One more record of the stream is kept exactly when its key tuple is new, or there are no columns. */
  lemma {:induction false} DedupStep(s: seq<Record>, cols: seq<string>, i: int)
    requires 0 <= i < |s|
    ensures Dedup(s[..i + 1], cols) ==
      if cols != [] && KeyOf(s[i], cols) in KeysOf(Dedup(s[..i], cols), cols) then Dedup(s[..i], cols)
      else Dedup(s[..i], cols) + [s[i]]
  {
    assert s[..i + 1][..i] == s[..i];
  }

  lemma {:induction false} KeysOfStep(s: seq<Record>, cols: seq<string>, x: Record)
    ensures KeysOf(s + [x], cols) == KeysOf(s, cols) + {KeyOf(x, cols)}
  {
    assert (s + [x])[..|s|] == s;
  }

  // ---------------------------------------------------------------- the limit

  /** `limit` as the loop applies it: none for `None` or 0, nothing for a negative one. */
  function Limited(limit: Option<int>, s: seq<Record>): seq<Record>
  {
    if limit.None? || limit.value == 0 then s
    else if limit.value < 0 then []
    else if |s| <= limit.value then s else s[..limit.value]
  }

  /** The records `run` handles: the de-duplicated stream, cut at the limit. */
  function Kept(limit: Option<int>, cols: seq<string>, stream: seq<Record>): seq<Record>
  {
    Limited(limit, Dedup(stream, cols))
  }

  /** A positive limit bounds the kept records, which are the first ones de-duplication keeps. */
  lemma {:induction false} KeptBound(limit: Option<int>, cols: seq<string>, stream: seq<Record>)
    ensures limit.Some? && limit.value > 0 ==> |Kept(limit, cols, stream)| <= limit.value
    ensures limit.Some? && limit.value < 0 ==> Kept(limit, cols, stream) == []
    ensures Kept(limit, cols, stream) == Dedup(stream, cols)[..|Kept(limit, cols, stream)|]
  {
    var d := Dedup(stream, cols);
    assert d[..|d|] == d;
  }

  // ---------------------------------------------------------------- output

  /** What `run` hands the writer: one record at a time, or one analysis. */
  datatype Output = Wrote(record: Record) | WroteAnalysis(analysis: Analysis)

  function WroteEach(s: seq<Record>): (out: seq<Output>)
    ensures |out| == |s|
    ensures forall i :: 0 <= i < |s| ==> out[i] == Wrote(s[i])
  {
    if s == [] then [] else WroteEach(s[..|s| - 1]) + [Wrote(s[|s| - 1])]
  }

  lemma {:induction false} WroteEachStep(s: seq<Record>, x: Record)
    ensures WroteEach(s + [x]) == WroteEach(s) + [Wrote(x)]
  {
    assert (s + [x])[..|s|] == s;
  }

  /** How a run ends: the writer's calls, and whether `run` raised after making them. */
  datatype Outcome = Outcome(writes: seq<Output>, raised: bool)

  /**
   * The whole run: each handled record written as it comes, or, when reduction is needed,
   * one write of the analysis; when the sort raises `TypeError`, `run` raises before it writes.
   */
  function RunOutcome(an: Analyzer, limit: Option<int>, cols: seq<string>, stream: seq<Record>): Outcome
  {
    var kept := Kept(limit, cols, stream);
    if !NeedReduce(an) then Outcome(WroteEach(kept), false)
    else if AnalysisOf(an, kept).Incomparable? then Outcome([], true)
    else Outcome([WroteAnalysis(AnalysisOf(an, kept))], false)
  }

  /**
   * A run raises exactly when reduction sorts keys that cannot be compared, and then the
   * writer was never called; otherwise every handled record reaches it once, in order, or
   * a single analysis of them does, and no write carries a failed analysis.
   */
  lemma {:induction false} RunRaisesOnlyOnSort(an: Analyzer, limit: Option<int>, cols: seq<string>, stream: seq<Record>)
    ensures var kept := Kept(limit, cols, stream);
      RunOutcome(an, limit, cols, stream).raised <==>
        Truthy(an.orderBy) && |kept| >= 2 && !KeysComparable(Order(an.orderBy.value, an.reverse), kept)
    ensures RunOutcome(an, limit, cols, stream).raised ==> RunOutcome(an, limit, cols, stream).writes == []
    ensures !NeedReduce(an) ==> |RunOutcome(an, limit, cols, stream).writes| == |Kept(limit, cols, stream)|
    ensures NeedReduce(an) ==> |RunOutcome(an, limit, cols, stream).writes| <= 1
    ensures forall i :: 0 <= i < |RunOutcome(an, limit, cols, stream).writes| ==>
      RunOutcome(an, limit, cols, stream).writes[i] != WroteAnalysis(Incomparable)
  {
    var kept := Kept(limit, cols, stream);
    var o := RunOutcome(an, limit, cols, stream);
    if !NeedReduce(an) {
      forall i | 0 <= i < |o.writes| ensures o.writes[i] != WroteAnalysis(Incomparable) {
        assert o.writes[i] == Wrote(kept[i]);
      }
    } else if Truthy(an.orderBy) {
      AnalyzeOrderBy(an, kept);
    } else {
      AnalyzeWithoutOrderBy(an, kept);
    }
  }

  /** Where the loop breaks on the limit, it has kept exactly what the limit allows. */
  lemma {:induction false} KeptAtBreak(limit: Option<int>, cols: seq<string>, stream: seq<Record>, i: int)
    requires 0 <= i <= |stream| && limit.Some? && limit.value != 0
    requires limit.value > 0 ==> |Dedup(stream[..i], cols)| == limit.value
    requires limit.value < 0 ==> i == 0
    ensures Dedup(stream[..i], cols) == Kept(limit, cols, stream)
  {
    DedupPrefix(stream, cols, i);
  }

  /** When the loop runs out of records without reaching the limit, it has kept all it would. */
  lemma {:induction false} KeptAtEnd(limit: Option<int>, cols: seq<string>, stream: seq<Record>)
    requires limit.Some? && limit.value > 0 ==> |Dedup(stream, cols)| <= limit.value
    requires limit.Some? && limit.value < 0 ==> stream == []
    ensures Dedup(stream, cols) == Kept(limit, cols, stream)
  {
  }

  // ---------------------------------------------------------------- partition

  /** Why dealing files to workers fails: `i % 0`, or no group list to index. */
  datatype PartitionError = ZeroDivision | IndexOutOfRange

  lemma {:induction false} MulAtLeast(a: int, w: int)
    requires a >= 1 && w > 0
    ensures a * w >= w
    decreases a
  {
    if a > 1 {
      MulAtLeast(a - 1, w);
      assert a * w == (a - 1) * w + w;
    }
  }

  lemma {:induction false} MulMonotone(a: int, b: int, w: int)
    requires w > 0 && a < b
    ensures a * w + w <= b * w
  {
    MulAtLeast(b - a, w);
    assert (b - a) * w == b * w - a * w;
  }

  lemma {:induction false} DivModUnique(k: int, w: int, q: int, r: int)
    requires w > 0 && 0 <= r < w && k == q * w + r
    ensures k / w == q && k % w == r
  {
    var q', r' := k / w, k % w;
    assert k == q' * w + r';
    if q > q' {
      MulMonotone(q', q, w);
    } else if q < q' {
      MulMonotone(q, q', w);
    }
  }

  /** The group of file `i` already holds exactly `i / w` files when `i` arrives. */
  lemma {:induction false} GroupLength(i: int, w: int, len: int)
    requires w > 0 && i >= 0 && len >= 0
    requires i % w + len * w >= i
    requires len == 0 || i % w + (len - 1) * w < i
    ensures len == i / w
  {
    var q, g := i / w, i % w;
    assert i == q * w + g;
    if len < q {
      MulMonotone(len, q, w);
    } else if len - 1 > q {
      MulMonotone(q, len - 1, w);
    }
  }

  /** After file `i` joins its group, every other group's next slot is still past `i`. */
  lemma {:induction false} NextSlotPast(i: int, w: int, g: int, len: int)
    requires w > 0 && i >= 0 && 0 <= g < w && g != i % w && len >= 0
    requires g + len * w >= i
    ensures g + len * w >= i + 1
  {
    if g + len * w == i {
      DivModUnique(i, w, len, g);
    }
  }

  /** File `k < i` sits at position `k / w` of group `k % w`. */
  predicate Placed(files: seq<string>, w: int, i: int, groups: seq<seq<string>>)
    requires w > 0 && |groups| == w && i <= |files|
  {
    forall k :: 0 <= k < i ==> k / w < |groups[k % w]| && groups[k % w][k / w] == files[k]
  }

  /** `x`, at position `j` of group `g`, is file `g + j * w`, one of the first `i`. */
  predicate SlotHolds(files: seq<string>, w: int, i: int, g: int, j: int, x: string)
    requires i <= |files| && 0 <= g + j * w
  {
    g + j * w < i && x == files[g + j * w]
  }

  /** Every position of every group holds the file it names, already dealt. */
  predicate Sound(files: seq<string>, w: int, i: int, groups: seq<seq<string>>)
    requires w > 0 && |groups| == w && i <= |files|
  {
    forall g, j :: 0 <= g < w && 0 <= j < |groups[g]| ==> SlotHolds(files, w, i, g, j, groups[g][j])
  }

  /** Each group's next slot names a file not yet dealt. */
  predicate Slots(w: int, i: int, groups: seq<seq<string>>)
    requires |groups| == w
  {
    forall g :: 0 <= g < w ==> g + |groups[g]| * w >= i
  }

  /** The groups after dealing `files[..i]` to `w` workers. */
  predicate Dealt(files: seq<string>, w: int, i: int, groups: seq<seq<string>>)
  {
    && w > 0 && 0 <= i <= |files| && |groups| == w
    && Placed(files, w, i, groups) && Sound(files, w, i, groups) && Slots(w, i, groups)
  }

  /** File `i`'s group holds `i / w` files when `i` arrives. */
  lemma {:induction false} ArrivalLength(files: seq<string>, w: int, i: int, groups: seq<seq<string>>)
    requires Dealt(files, w, i, groups) && i < |files|
    ensures |groups[i % w]| == i / w
  {
    var g0 := i % w;
    var len := |groups[g0]|;
    if len > 0 {
      assert groups[g0][len - 1] == groups[g0][len - 1];
    }
    GroupLength(i, w, len);
  }

  lemma {:induction false} SlotsStep(w: int, i: int, groups: seq<seq<string>>, x: string)
    requires w > 0 && i >= 0 && |groups| == w && Slots(w, i, groups) && |groups[i % w]| == i / w
    ensures Slots(w, i + 1, groups[i % w := groups[i % w] + [x]])
  {
    var g0 := i % w;
    var groups' := groups[g0 := groups[g0] + [x]];
    forall g | 0 <= g < w ensures g + |groups'[g]| * w >= i + 1 {
      if g != g0 {
        NextSlotPast(i, w, g, |groups[g]|);
      } else {
        assert |groups'[g0]| * w == (i / w) * w + w;
      }
    }
  }

  lemma {:induction false} PlacedStep(files: seq<string>, w: int, i: int, groups: seq<seq<string>>)
    requires w > 0 && 0 <= i < |files| && |groups| == w && Placed(files, w, i, groups) && |groups[i % w]| == i / w
    ensures Placed(files, w, i + 1, groups[i % w := groups[i % w] + [files[i]]])
  {
    var g0 := i % w;
    var groups' := groups[g0 := groups[g0] + [files[i]]];
    forall k | 0 <= k < i + 1 ensures k / w < |groups'[k % w]| && groups'[k % w][k / w] == files[k] {
      var g, j := k % w, k / w;
      if k == i {
        assert groups'[g0] == groups[g0] + [files[i]] && j == |groups[g0]|;
      } else if g == g0 {
        assert j < |groups[g]| && groups[g][j] == files[k];
        assert groups'[g0] == groups[g0] + [files[i]];
      } else {
        assert j < |groups[g]| && groups[g][j] == files[k];
        assert groups'[g] == groups[g];
      }
    }
  }

  lemma {:induction false} SoundStep(files: seq<string>, w: int, i: int, groups: seq<seq<string>>)
    requires w > 0 && 0 <= i < |files| && |groups| == w && Sound(files, w, i, groups) && |groups[i % w]| == i / w
    ensures Sound(files, w, i + 1, groups[i % w := groups[i % w] + [files[i]]])
  {
    var g0, len := i % w, i / w;
    var groups' := groups[g0 := groups[g0] + [files[i]]];
    forall g, j | 0 <= g < w && 0 <= j < |groups'[g]| ensures SlotHolds(files, w, i + 1, g, j, groups'[g][j]) {
      if g == g0 && j == len {
        assert i == len * w + g0;
      } else {
        assert groups'[g][j] == groups[g][j];
      }
    }
  }

  /** Appending file `i` to group `i % w` deals one more file. */
  lemma {:induction false} DealStep(files: seq<string>, w: int, i: int, groups: seq<seq<string>>)
    requires Dealt(files, w, i, groups) && i < |files|
    ensures Dealt(files, w, i + 1, groups[i % w := groups[i % w] + [files[i]]])
  {
    ArrivalLength(files, w, i, groups);
    SlotsStep(w, i, groups, files[i]);
    PlacedStep(files, w, i, groups);
    SoundStep(files, w, i, groups);
  }

  /**
   * The partition of `run_in_multi_streams`: `workers` empty groups, then file `i`
   * appended to group `i % workers`.
   */
  method Partition(files: seq<string>, workers: int) returns (r: Result<seq<seq<string>>, PartitionError>)
    ensures r.Failure? <==> workers <= 0 && files != []
    ensures r.Failure? ==> r.error == if workers == 0 then ZeroDivision else IndexOutOfRange
    ensures r.Success? ==> |r.value| == if workers > 0 then workers else 0
    ensures r.Success? && workers > 0 ==>
      forall i :: 0 <= i < |files| ==> i / workers < |r.value[i % workers]| && r.value[i % workers][i / workers] == files[i]
    ensures r.Success? ==>
      forall g, j :: 0 <= g < |r.value| && 0 <= j < |r.value[g]| ==> SlotHolds(files, workers, |files|, g, j, r.value[g][j])
  {
    if workers <= 0 {
      if files == [] {
        return Success([]);
      }
      return Failure(if workers == 0 then ZeroDivision else IndexOutOfRange);
    }
    var w := workers;
    var groups: seq<seq<string>> := seq(w, _ => []);
    var i := 0;
    while i < |files|
      invariant Dealt(files, w, i, groups)
    {
      DealStep(files, w, i, groups);
      groups := groups[i % w := groups[i % w] + [files[i]]];
      i := i + 1;
    }
    assert i == |files| && Placed(files, w, i, groups) && Sound(files, w, i, groups);
    return Success(groups);
  }

  // ---------------------------------------------------------------- the runner

  /**
   * What `mine_files` is handed: a single path (the `str` case), or a list, whose items are
   * paths as the worker pool passes them, or opened files. A list mixing the two is not a
   * case of its own: it also fails with `NoNameAttribute` at its first path, after the
   * opened files before it were mined, and the records of a failed call are never returned.
   */
  datatype FilesArg = Path(path: string) | Paths(paths: seq<string>) | Opened(files: seq<File>)

  /** Mining fails on the first item that is a path: a `str` has no `name` attribute. */
  datatype MineError = NoNameAttribute(path: string)

  /**
   * `mine_files(files)`: a lone path is wrapped in a list; reading `fp.name` on a path
   * raises `AttributeError` before any record is produced; opened files are mined in turn.
   */
  function MinedArg(mine: File -> seq<Record>, files: FilesArg): (r: Result<seq<Record>, MineError>)
  {
    match files
    case Path(p) => Failure(NoNameAttribute(p))
    case Paths(ps) => if ps == [] then Success([]) else Failure(NoNameAttribute(ps[0]))
    case Opened(fs) => Success(Miner.MinedAll(mine, fs))
  }

  /** `LogRunner`: the miner, the analyzer, the record limit and the distinct columns. */
  class LogRunner {
    const miner: Miner.DeepLogMiner
    const analyzer: Analyzer
    const limit: Option<int>
    const distinct: seq<string>
    const workers: int

    constructor(miner: Miner.DeepLogMiner, analyzer: Analyzer, workers: int, limit: Option<int>, distinct: Option<string>)
      ensures this.miner == miner && this.analyzer == analyzer && this.workers == workers && this.limit == limit
      ensures this.distinct == DistinctColumns(distinct)
    {
      this.miner := miner;
      this.analyzer := analyzer;
      this.workers := workers;
      this.limit := limit;
      this.distinct := DistinctColumns(distinct);
    }

    /**
     * `mine_files(files)`: only a list of opened files is mined, file by file; a path, alone
     * or first in a list, raises `AttributeError`, and an empty list gives no records.
     */
    method MineFiles(files: FilesArg) returns (r: Result<seq<Record>, MineError>)
      ensures r == MinedArg(Miner.MinerOf(miner.registry, miner.tree.root), files)
      ensures r.Failure? <==> files.Path? || (files.Paths? && files.paths != [])
      ensures files.Opened? ==> r == Success(Miner.MinedAll(Miner.MinerOf(miner.registry, miner.tree.root), files.files))
    {
      var list: seq<File>;
      match files {
        case Path(p) =>
          return Failure(NoNameAttribute(p));
        case Paths(ps) =>
          if ps != [] {
            return Failure(NoNameAttribute(ps[0]));
          }
          list := [];
        case Opened(fs) =>
          list := fs;
      }
      var records := miner.MineFiles(list);
      return Success(records);
    }

    /**
     * `run()` over the records `execute()` yields: stop once `limit` records were handled,
     * skip records whose key tuple was seen, then write each record or collect it for
     * one analysis at the end.
     */
    method Run(stream: seq<Record>) returns (out: seq<Output>, raised: bool, existing: set<seq<Option<Value>>>)
      ensures Outcome(out, raised) == RunOutcome(analyzer, limit, distinct, stream)
      ensures existing == if distinct == [] then {} else KeysOf(Kept(limit, distinct, stream), distinct)
    {
      var need := NeedReduce(analyzer);
      var counter := 0;
      existing := {};
      var mapped: seq<Record> := [];
      out := [];
      raised := false;
      ghost var kept: seq<Record> := [];
      ghost var stopped := false;
      var i := 0;
      while i < |stream|
        invariant 0 <= i <= |stream|
        invariant !stopped
        invariant kept == Dedup(stream[..i], distinct)
        invariant counter == |kept|
        invariant limit.Some? && limit.value > 0 ==> counter <= limit.value
        invariant limit.Some? && limit.value < 0 ==> i == 0
        invariant existing == if distinct == [] then {} else KeysOf(kept, distinct)
        invariant need ==> mapped == kept && out == []
        invariant !need ==> out == WroteEach(kept)
      {
        var one := stream[i];
        if limit.Some? && limit.value != 0 && counter >= limit.value {
          stopped := true;
          break;
        }
        DedupStep(stream, distinct, i);
        if distinct != [] {
          var key := KeyOf(one, distinct);
          if key in existing {
            i := i + 1;
            continue;
          }
          existing := existing + {key};
        }
        KeysOfStep(kept, distinct, one);
        WroteEachStep(kept, one);
        if need {
          mapped := mapped + [one];
        } else {
          out := out + [Wrote(one)];
        }
        kept := kept + [one];
        counter := counter + 1;
        i := i + 1;
      }
      if stopped {
        KeptAtBreak(limit, distinct, stream, i);
      } else {
        assert stream[..i] == stream;
        KeptAtEnd(limit, distinct, stream);
      }
      if need {
        var records := new Record[|mapped|](j requires 0 <= j < |mapped| => mapped[j]);
        assert records[..] == mapped;
        var analysis := Analyze(analyzer, records);
        if analysis.Incomparable? {
          raised := true;
        } else {
          out := [WroteAnalysis(analysis)];
        }
      }
    }
  }
}
