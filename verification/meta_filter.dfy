/** File-level meta-filters of deep_log/meta_filter.py. */
module MetaFilter {
  import opened Wrappers
  import opened Strings
  import Glob

  /** `MetaFilter.filter_file`: the base filter lets every file through. */
  function BaseAccepts(fileName: string): (r: bool)
    ensures r
  {
    true
  }

  /** A `NameFilter`: the comma-separated glob patterns, or `None` when built from nothing. */
  datatype NameFilter = NameFilter(patterns: Option<seq<string>>)

  /** `NameFilter(filters)`: split a non-empty pattern string on commas, in order. */
  function NewNameFilter(filters: Option<string>): (nf: NameFilter)
    ensures nf.patterns.None? <==> (filters.None? || filters.value == "")
    ensures nf.patterns.Some? ==> |nf.patterns.value| >= 1 && Join(nf.patterns.value, ',') == filters.value
    ensures nf.patterns.Some? ==> forall i :: 0 <= i < |nf.patterns.value| ==> ',' !in nf.patterns.value[i]
  {
    if filters.Some? && filters.value != "" then
      JoinSplit(filters.value, ',');
      NameFilter(Some(Split(filters.value, ',')))
    else NameFilter(None)
  }

  /** The loop of `filter_file`: true as soon as one pattern matches. */
  function AnyMatch(patterns: seq<string>, name: string): (r: bool)
    ensures r <==> exists i :: 0 <= i < |patterns| && Glob.Match(patterns[i], name)
  {
    if patterns == [] then false
    else if Glob.Match(patterns[0], name) then true
    else
      var r := AnyMatch(patterns[1..], name);
      assert forall i :: 1 <= i < |patterns| ==> patterns[i] == patterns[1..][i - 1];
      r
  }

  /**
   * `NameFilter.filter_file`: with patterns, the lower-cased file name must match
   * one of them (the patterns themselves are not lower-cased); without, every file passes.
   */
  function NameAccepts(nf: NameFilter, fileName: string): (r: bool)
    ensures nf.patterns.None? || nf.patterns.value == [] ==> r
    ensures nf.patterns.Some? && nf.patterns.value != [] ==>
      (r <==> exists i :: 0 <= i < |nf.patterns.value| && Glob.Match(nf.patterns.value[i], Lower(fileName)))
  {
    if nf.patterns.Some? && nf.patterns.value != [] then AnyMatch(nf.patterns.value, Lower(fileName))
    else true
  }

  /** Two names that differ only in the case of ASCII letters. */
  predicate SameUpToCase(a: string, b: string)
  {
    |a| == |b| && forall i :: 0 <= i < |a| ==> LowerChar(a[i]) == LowerChar(b[i])
  }

  /** Changing the letter case of a file name never changes whether a `NameFilter` accepts it. */
  lemma {:induction false} CaseInsensitiveName(nf: NameFilter, a: string, b: string)
    requires SameUpToCase(a, b)
    ensures NameAccepts(nf, a) == NameAccepts(nf, b)
  {
    assert Lower(a) == Lower(b);
  }

  /** A filter built from a pattern string accepts a name iff some comma-separated piece matches it. */
  lemma {:induction false} NameFilterOfPatterns(filters: string, fileName: string)
    requires filters != ""
    ensures NameAccepts(NewNameFilter(Some(filters)), fileName) <==>
      exists i :: 0 <= i < |Split(filters, ',')| && Glob.Match(Split(filters, ',')[i], Lower(fileName))
  {
    var nf := NewNameFilter(Some(filters));
    assert nf.patterns == Some(Split(filters, ','));
  }

  /** Built from `None` or the empty string, a `NameFilter` accepts every name. */
  lemma {:induction false} EmptyNameFilterAcceptsAll(filters: Option<string>, fileName: string)
    requires filters.None? || filters.value == ""
    ensures NameAccepts(NewNameFilter(filters), fileName)
  {
  }

  /**
   * A suffix pattern `*ext`, with `ext` free of wildcards and commas, accepts every file
   * whose lower-cased name ends in `ext`.
   */
  lemma {:induction false} SuffixPatternAccepts(ext: string, stem: string, fileName: string)
    requires Glob.IsLiteral(ext) && ',' !in ext
    requires Lower(fileName) == stem + ext
    ensures NameAccepts(NewNameFilter(Some("*" + ext)), fileName)
  {
    var pattern := "*" + ext;
    assert ',' !in pattern by {
      assert forall i :: 1 <= i < |pattern| ==> pattern[i] == ext[i - 1];
    }
    SplitWithoutSep(pattern, ',');
    Glob.LiteralMatch(ext, ext);
    Glob.LeadingStar(ext, stem, ext);
    assert Glob.Match(Split(pattern, ',')[0], Lower(fileName));
  }

  /**
   * Patterns without `*` only accept names as long as one of them: `?` and literal
   * characters each match exactly one character, and lower-casing keeps the length.
   */
  lemma {:induction false} StarFreePatternsFixLength(filters: string, fileName: string)
    requires filters != "" && '*' !in filters
    requires NameAccepts(NewNameFilter(Some(filters)), fileName)
    ensures exists i :: 0 <= i < |Split(filters, ',')| && |Split(filters, ',')[i]| == |fileName|
  {
    var ps := Split(filters, ',');
    NameFilterOfPatterns(filters, fileName);
    var i :| 0 <= i < |ps| && Glob.Match(ps[i], Lower(fileName));
    JoinSplit(filters, ',');
    JoinMembers(ps, ',', i);
    Glob.StarFreeLength(ps[i], Lower(fileName));
  }
}
