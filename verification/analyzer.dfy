/**
 * deep_log/analyzer.py: the output formatter, the decision whether records must be
 * collected before output, and the order-by reduction, a stable sort in place.
 */
module Analyzer {
  import opened Wrappers
  import opened Records
  import Seqs

  // ---------------------------------------------------------------- formatter

  /** A `LogFormatter`: its template, whether it prints whole records, and its blank defaults. */
  datatype Formatter = Formatter(logFormat: string, fullMode: bool, defaults: Record)

  /** What `format` renders: the whole record, or a template filled from bindings. */
  datatype Rendering = Whole(record: Record) | Filled(template: string, bindings: Record)

  /** `build_default_values`: an empty string for every named placeholder. */
  function DefaultValues(names: seq<string>): (d: Record)
    ensures forall k :: k in d <==> k in names && k != ""
    ensures forall k :: k in d ==> d[k] == Str("")
  {
    map k | k in names && k != "" :: Str("")
  }

  /**
   * `LogFormatter(format_string)`. `placeholders` gives the field names the library's
   * format-string parser finds in a template, in order.
   */
  function NewFormatter(formatString: Option<string>, placeholders: string -> seq<string>): (f: Formatter)
    ensures formatString.None? ==> f.logFormat == "{raw}"
    ensures formatString.Some? ==> f.logFormat == formatString.value
    ensures f.fullMode <==> formatString == Some("{}")
    ensures forall k :: k in f.defaults <==> k in placeholders(f.logFormat) && k != ""
  {
    var logFormat := if formatString.None? then "{raw}" else formatString.value;
    Formatter(logFormat, formatString == Some("{}"), DefaultValues(placeholders(logFormat)))
  }

  /** `format(content)`: the record's own fields override the blank defaults. */
  function Format(f: Formatter, content: Record): (r: Rendering)
    ensures r.Whole? <==> f.fullMode
    ensures r.Whole? ==> r.record == content
    ensures r.Filled? ==> r.template == f.logFormat
    ensures r.Filled? ==> forall k :: k in r.bindings <==> k in f.defaults || k in content
    ensures r.Filled? ==> forall k :: k in content ==> r.bindings[k] == content[k]
    ensures r.Filled? ==> forall k :: k in f.defaults && k !in content ==> r.bindings[k] == f.defaults[k]
  {
    if f.fullMode then Whole(content) else Filled(f.logFormat, f.defaults + content)
  }

  /** Outside full mode every named placeholder is bound: to the record's field, or to `''`. */
  lemma {:induction false} EveryPlaceholderBound(formatString: Option<string>, placeholders: string -> seq<string>, content: Record, k: string)
    requires formatString != Some("{}")
    requires k in placeholders(if formatString.None? then "{raw}" else formatString.value) && k != ""
    ensures Format(NewFormatter(formatString, placeholders), content).Filled?
    ensures k in Format(NewFormatter(formatString, placeholders), content).bindings
    ensures Format(NewFormatter(formatString, placeholders), content).bindings[k]
      == if k in content then content[k] else Str("")
  {
    var f := NewFormatter(formatString, placeholders);
    assert k in f.defaults && f.defaults[k] == Str("");
  }

  // ---------------------------------------------------------------- analyzer

  /** A `LogAnalyzer`: the order-by field, the analyze expression, and the sort direction. */
  datatype Analyzer = Analyzer(orderBy: Option<string>, analyzeDsl: Option<string>, reverse: bool)

  /** Python truthiness of an optional string. */
  predicate Truthy(s: Option<string>)
  {
    s.Some? && s.value != ""
  }

  /** `LogAnalyzer(order_by, analyze, reverse)`: an empty analyze expression becomes `None`. */
  function NewAnalyzer(orderBy: Option<string>, analyze: Option<string>, reverse: bool): (a: Analyzer)
    ensures a.orderBy == orderBy && a.reverse == reverse
    ensures a.analyzeDsl.Some? <==> Truthy(analyze)
    ensures Truthy(analyze) ==> a.analyzeDsl == analyze
  {
    Analyzer(orderBy, if Truthy(analyze) then analyze else None, reverse)
  }

  /** `need_reduce()`. */
  predicate NeedReduce(a: Analyzer)
  {
    Truthy(a.orderBy) || Truthy(a.analyzeDsl)
  }

  /** Records must be collected exactly when an order-by field or an analyze expression is given. */
  lemma {:induction false} NeedReduceOfNew(orderBy: Option<string>, analyze: Option<string>, reverse: bool)
    ensures NeedReduce(NewAnalyzer(orderBy, analyze, reverse)) <==> Truthy(orderBy) || Truthy(analyze)
  {
  }

  // ---------------------------------------------------------------- ordering

  /** Python's `<` on strings: code-point lexicographic order. */
  function StrLess(a: string, b: string): bool
  {
    if a == [] then b != []
    else if b == [] then false
    else if a[0] != b[0] then a[0] < b[0]
    else StrLess(a[1..], b[1..])
  }

  lemma {:induction false} StrLessIrreflexive(a: string)
    ensures !StrLess(a, a)
  {
    if a != [] {
      StrLessIrreflexive(a[1..]);
    }
  }

  lemma {:induction false} StrLessAsymmetric(a: string, b: string)
    ensures StrLess(a, b) ==> !StrLess(b, a)
  {
    if a != [] && b != [] && a[0] == b[0] {
      StrLessAsymmetric(a[1..], b[1..]);
    }
  }

  lemma {:induction false} StrLessTotal(a: string, b: string)
    ensures a == b || StrLess(a, b) || StrLess(b, a)
  {
    if a != [] && b != [] && a[0] == b[0] {
      StrLessTotal(a[1..], b[1..]);
      assert a == [a[0]] + a[1..] && b == [b[0]] + b[1..];
    }
  }

  /** Python's `<` on sort keys where it is defined: two numbers, or two strings. */
  predicate KeyLess(x: Option<Value>, y: Option<Value>)
  {
    match (x, y)
    case (Some(Int(m)), Some(Int(n))) => m < n
    case (Some(Str(s)), Some(Str(t))) => StrLess(s, t)
    case _ => false
  }

  /** The sort key `x.get(field)` and the direction. */
  datatype Order = Order(field: string, desc: bool)

  function Key(o: Order, r: Record): Option<Value>
  {
    Get(r, o.field)
  }

  /** `x` must come before `y`: its key is smaller, or larger when sorting in reverse. */
  predicate Before(o: Order, x: Record, y: Record)
  {
    if o.desc then KeyLess(Key(o, y), Key(o, x)) else KeyLess(Key(o, x), Key(o, y))
  }

  /**
   * Every key can be compared with every other by Python's `<`: all present and all
   * numbers, or all present and all strings. Otherwise sorting two or more raises `TypeError`.
   */
  predicate KeysComparable(o: Order, s: seq<Record>)
  {
    || (forall i :: 0 <= i < |s| ==> Key(o, s[i]).Some? && Key(o, s[i]).value.Int?)
    || (forall i :: 0 <= i < |s| ==> Key(o, s[i]).Some? && Key(o, s[i]).value.Str?)
  }

  /** Insert `x` after the last element of `t` it does not have to precede. */
  function Insert(o: Order, x: Record, t: seq<Record>): (r: seq<Record>)
    ensures |r| == |t| + 1
  {
    if t == [] then [x]
    else if Before(o, x, t[|t| - 1]) then Insert(o, x, t[..|t| - 1]) + [t[|t| - 1]]
    else t + [x]
  }

  /** The reference sort: insert the elements one after another, left to right. */
  function SortSeq(o: Order, s: seq<Record>): (r: seq<Record>)
    ensures |r| == |s|
  {
    if s == [] then [] else Insert(o, s[|s| - 1], SortSeq(o, s[..|s| - 1]))
  }

  /** No element has to precede its left neighbour. */
  predicate Sorted(o: Order, s: seq<Record>)
  {
    forall i :: 0 < i < |s| ==> !Before(o, s[i], s[i - 1])
  }

  lemma {:induction false} BeforeAsymmetric(o: Order, x: Record, y: Record)
    ensures Before(o, x, y) ==> !Before(o, y, x)
  {
    var kx, ky := Key(o, x), Key(o, y);
    if kx.Some? && ky.Some? && kx.value.Str? && ky.value.Str? {
      StrLessAsymmetric(kx.value.s, ky.value.s);
    }
  }

  lemma {:induction false} BeforeDistinctKeys(o: Order, x: Record, y: Record)
    ensures Before(o, x, y) ==> Key(o, x) != Key(o, y)
  {
    var kx := Key(o, x);
    if kx.Some? && kx.value.Str? {
      StrLessIrreflexive(kx.value.s);
    }
  }

  lemma {:induction false} InsertPermutation(o: Order, x: Record, t: seq<Record>)
    ensures multiset(Insert(o, x, t)) == multiset(t) + multiset{x}
  {
    if t != [] && Before(o, x, t[|t| - 1]) {
      InsertPermutation(o, x, t[..|t| - 1]);
      assert t == t[..|t| - 1] + [t[|t| - 1]];
    }
  }

  /** The order-by result is a permutation of the input. */
  lemma {:induction false} SortPermutation(o: Order, s: seq<Record>)
    ensures multiset(SortSeq(o, s)) == multiset(s)
  {
    if s != [] {
      SortPermutation(o, s[..|s| - 1]);
      InsertPermutation(o, s[|s| - 1], SortSeq(o, s[..|s| - 1]));
      assert s == s[..|s| - 1] + [s[|s| - 1]];
    }
  }

  /** The last element of an insertion is `x` or the last element of `t`. */
  lemma {:induction false} InsertLast(o: Order, x: Record, t: seq<Record>)
    ensures var r := Insert(o, x, t); r[|r| - 1] == x || (t != [] && r[|r| - 1] == t[|t| - 1])
  {
  }

  lemma {:induction false} InsertSorted(o: Order, x: Record, t: seq<Record>)
    requires Sorted(o, t)
    ensures Sorted(o, Insert(o, x, t))
  {
    if t != [] {
      var init, last := t[..|t| - 1], t[|t| - 1];
      if Before(o, x, last) {
        InsertSorted(o, x, init);
        var u := Insert(o, x, init);
        InsertLast(o, x, init);
        BeforeAsymmetric(o, x, last);
        assert !Before(o, last, u[|u| - 1]);
        assert Insert(o, x, t) == u + [last];
      }
    }
  }

  /** The order-by result has no adjacent pair out of order. */
  lemma {:induction false} SortSorted(o: Order, s: seq<Record>)
    ensures Sorted(o, SortSeq(o, s))
  {
    if s != [] {
      SortSorted(o, s[..|s| - 1]);
      InsertSorted(o, s[|s| - 1], SortSeq(o, s[..|s| - 1]));
    }
  }

  /** The records whose key is `k`, in order. */
  function WithKey(o: Order, s: seq<Record>, k: Option<Value>): seq<Record>
  {
    Seqs.Select(s, r => Key(o, r) == k)
  }

  lemma {:induction false} InsertStable(o: Order, x: Record, t: seq<Record>, k: Option<Value>)
    ensures WithKey(o, Insert(o, x, t), k) == WithKey(o, t, k) + WithKey(o, [x], k)
  {
    var p := r => Key(o, r) == k;
    if t == [] {
      assert Insert(o, x, t) == [] + [x];
      Seqs.SelectAppend([], [x], p);
    } else {
      var init, last := t[..|t| - 1], t[|t| - 1];
      assert t == init + [last];
      Seqs.SelectAppend(init, [last], p);
      if Before(o, x, last) {
        InsertStable(o, x, init, k);
        Seqs.SelectAppend(Insert(o, x, init), [last], p);
        BeforeDistinctKeys(o, x, last);
        assert Seqs.Select([x], p) == [] || Seqs.Select([last], p) == [];
      } else {
        Seqs.SelectAppend(t, [x], p);
      }
    }
  }

  /** Records with equal keys keep their input order. */
  lemma {:induction false} SortStable(o: Order, s: seq<Record>, k: Option<Value>)
    ensures WithKey(o, SortSeq(o, s), k) == WithKey(o, s, k)
  {
    if s != [] {
      var init, x := s[..|s| - 1], s[|s| - 1];
      SortStable(o, init, k);
      InsertStable(o, x, SortSeq(o, init), k);
      assert s == init + [x];
      Seqs.SelectAppend(init, [x], r => Key(o, r) == k);
    }
  }

  /**
   * With comparable keys, "no adjacent pair out of order" is the usual meaning: each key is
   * at least (or, in reverse, at most) its left neighbour's.
   */
  lemma {:induction false} SortedMonotone(o: Order, s: seq<Record>, i: int)
    requires Sorted(o, s) && KeysComparable(o, s)
    requires 0 < i < |s|
    ensures Key(o, s[i - 1]) == Key(o, s[i])
      || (if o.desc then KeyLess(Key(o, s[i]), Key(o, s[i - 1])) else KeyLess(Key(o, s[i - 1]), Key(o, s[i])))
  {
    var a, b := Key(o, s[i - 1]), Key(o, s[i]);
    assert a.Some? && b.Some?;
    if a.value.Str? {
      StrLessTotal(a.value.s, b.value.s);
    }
  }

  // ---------------------------------------------------------------- analyze

  /** What `analyze(content)` produces. */
  datatype Analysis =
    | Ordered(records: seq<Record>)            // the list itself, sorted by the order-by field
    | Evaluated(dsl: string, data: seq<Record>) // the analyze expression over a table of the records
    | Passed(records: seq<Record>)             // the list unchanged
    | Incomparable                             // `list.sort` raised `TypeError`

  /** `analyze(content)`: order-by first, then the analyze expression, else the input. */
  function AnalysisOf(a: Analyzer, content: seq<Record>): Analysis
  {
    if Truthy(a.orderBy) then
      var o := Order(a.orderBy.value, a.reverse);
      if |content| >= 2 && !KeysComparable(o, content) then Incomparable
      else Ordered(SortSeq(o, content))
    else if Truthy(a.analyzeDsl) then Evaluated(a.analyzeDsl.value, content)
    else Passed(content)
  }

  /**
   * With an order-by field, `analyze` fails exactly on incomparable keys; otherwise it returns a
   * permutation, ordered by the key (reversed on request), and stable on equal keys.
   */
  lemma {:induction false} AnalyzeOrderBy(a: Analyzer, content: seq<Record>)
    requires Truthy(a.orderBy)
    ensures var o := Order(a.orderBy.value, a.reverse);
      AnalysisOf(a, content).Incomparable? <==> |content| >= 2 && !KeysComparable(o, content)
    ensures var o := Order(a.orderBy.value, a.reverse);
      AnalysisOf(a, content).Ordered? ==>
        && multiset(AnalysisOf(a, content).records) == multiset(content)
        && Sorted(o, AnalysisOf(a, content).records)
        && forall k :: WithKey(o, AnalysisOf(a, content).records, k) == WithKey(o, content, k)
  {
    var o := Order(a.orderBy.value, a.reverse);
    SortPermutation(o, content);
    SortSorted(o, content);
    forall k ensures WithKey(o, SortSeq(o, content), k) == WithKey(o, content, k) {
      SortStable(o, content, k);
    }
  }

  /** Without an order-by field, the analyze expression is used if given, else the input comes back. */
  lemma {:induction false} AnalyzeWithoutOrderBy(a: Analyzer, content: seq<Record>)
    requires !Truthy(a.orderBy)
    ensures Truthy(a.analyzeDsl) ==> AnalysisOf(a, content) == Evaluated(a.analyzeDsl.value, content)
    ensures !Truthy(a.analyzeDsl) ==> AnalysisOf(a, content) == Passed(content)
  {
  }

  /** One step of the inner loop: `x` moves past `t[j - 1]`, which it must precede. */
  lemma {:induction false} InsertStep(o: Order, x: Record, t: seq<Record>, j: int)
    requires 0 < j <= |t| && Before(o, x, t[j - 1])
    ensures Insert(o, x, t[..j]) + t[j..] == Insert(o, x, t[..j - 1]) + t[j - 1..]
  {
    assert t[..j][..j - 1] == t[..j - 1];
  }

  /** Where the inner loop stops, `x` sits between `t[..j]` and `t[j..]`. */
  lemma {:induction false} InsertStop(o: Order, x: Record, t: seq<Record>, j: int)
    requires 0 <= j <= |t| && (j == 0 || !Before(o, x, t[j - 1]))
    ensures Insert(o, x, t[..j]) + t[j..] == t[..j] + [x] + t[j..]
  {
  }

  /**
   * The inner loop's state `s` of the whole array: `x` sits at `j`, the untouched part of the
   * sorted prefix `t` on its left, the part it has passed on its right, then `rest`.
   */
  ghost predicate InsertState(o: Order, x: Record, t: seq<Record>, rest: seq<Record>, s: seq<Record>, j: int)
  {
    && 0 <= j <= |t|
    && |s| == |t| + 1 + |rest|
    && s[j] == x
    && s[..j] == t[..j]
    && s[j + 1..|t| + 1] == t[j..]
    && s[|t| + 1..] == rest
    && Insert(o, x, t) == Insert(o, x, t[..j]) + t[j..]
  }

  /** Swapping `x` with its left neighbour, which it must precede, keeps the state. */
  lemma {:induction false} InsertShift(o: Order, x: Record, t: seq<Record>, rest: seq<Record>, s: seq<Record>, j: int)
    requires InsertState(o, x, t, rest, s, j) && 0 < j && Before(o, x, s[j - 1])
    ensures InsertState(o, x, t, rest, s[j - 1 := s[j]][j := s[j - 1]], j - 1)
  {
    var s' := s[j - 1 := s[j]][j := s[j - 1]];
    assert s[j - 1] == t[j - 1] by { assert s[..j][j - 1] == t[..j][j - 1]; }
    InsertStep(o, x, t, j);
    assert s'[..j - 1] == s[..j - 1] == t[..j - 1];
    assert s'[j..|t| + 1] == [t[j - 1]] + s[j + 1..|t| + 1];
    assert t[j - 1..] == [t[j - 1]] + t[j..];
    assert s'[|t| + 1..] == s[|t| + 1..];
  }

  /** Where the inner loop stops, the prefix holds `Insert(o, x, t)` and `rest` follows it. */
  lemma {:induction false} InsertDone(o: Order, x: Record, t: seq<Record>, rest: seq<Record>, s: seq<Record>, j: int)
    requires InsertState(o, x, t, rest, s, j) && (j == 0 || !Before(o, x, s[j - 1]))
    ensures s[..|t| + 1] == Insert(o, x, t) && s[|t| + 1..] == rest
  {
    if j > 0 {
      assert s[j - 1] == t[j - 1] by { assert s[..j][j - 1] == t[..j][j - 1]; }
    }
    InsertStop(o, x, t, j);
    assert s[..|t| + 1] == s[..j] + [s[j]] + s[j + 1..|t| + 1];
  }

  /** Move `a[i]` left past every element of the sorted prefix `a[..i]` it must precede. */
  method InsertInPlace(o: Order, a: array<Record>, i: int)
    requires 0 <= i < a.Length
    modifies a
    ensures a[..i + 1] == Insert(o, old(a[i]), old(a[..i]))
    ensures a[i + 1..] == old(a[i + 1..])
  {
    ghost var t := a[..i];
    ghost var rest := a[i + 1..];
    var x := a[i];
    var j := i;
    assert a[..] == a[..i] + [a[i]] + a[i + 1..];
    while j > 0 && Before(o, a[j], a[j - 1])
      invariant InsertState(o, x, t, rest, a[..], j)
    {
      ghost var s := a[..];
      InsertShift(o, x, t, rest, s, j);
      a[j - 1], a[j] := a[j], a[j - 1];
      assert a[..] == s[j - 1 := s[j]][j := s[j - 1]];
      j := j - 1;
    }
    InsertDone(o, x, t, rest, a[..], j);
  }

  /** `content.sort(key=lambda x: x.get(field), reverse=desc)` as an insertion sort. */
  method SortInPlace(o: Order, a: array<Record>)
    modifies a
    ensures a[..] == SortSeq(o, old(a[..]))
  {
    ghost var s := a[..];
    var i := 0;
    while i < a.Length
      invariant 0 <= i <= a.Length
      invariant a[..i] == SortSeq(o, s[..i])
      invariant a[i..] == s[i..]
    {
      assert s[..i + 1][..i] == s[..i] && a[i] == s[i];
      InsertInPlace(o, a, i);
      i := i + 1;
    }
    assert a[..] == a[..a.Length] && s == s[..a.Length];
  }

  /** `analyze(content)` on the caller's list, which the order-by branch sorts in place. */
  method Analyze(an: Analyzer, content: array<Record>) returns (r: Analysis)
    modifies content
    ensures r == AnalysisOf(an, old(content[..]))
    ensures r.Ordered? ==> content[..] == r.records
    ensures !r.Ordered? ==> content[..] == old(content[..])
  {
    if Truthy(an.orderBy) {
      var o := Order(an.orderBy.value, an.reverse);
      if content.Length >= 2 && !KeysComparable(o, content[..]) {
        return Incomparable;
      }
      SortInPlace(o, content);
      return Ordered(content[..]);
    } else if Truthy(an.analyzeDsl) {
      return Evaluated(an.analyzeDsl.value, content[..]);
    } else {
      return Passed(content[..]);
    }
  }
}
