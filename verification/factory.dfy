/**
 * deep_log/factory.py: the recency filters, whose duration strings ("90", "15m",
 * "2H", "1d") become a number of seconds, and the tag filter's tag set.
 */
module Factory {
  import opened Wrappers
  import opened Strings

  /** Why a duration string is refused: no known unit, or a prefix `int()` rejects. */
  datatype RecentError = UnsupportedFormat(recent: string) | InvalidLiteral(literal: string)

  /** Seconds per unit for the suffixes `s`, `m`, `h`, `d`, in either case. */
  function UnitSeconds(c: char): Option<int>
  {
    match LowerChar(c)
    case 's' => Some(1)
    case 'm' => Some(60)
    case 'h' => Some(60 * 60)
    case 'd' => Some(60 * 60 * 24)
    case _ => None
  }

  /**
   * The if/elif chain shared by `create_recent_dsl` and `create_recent_filter`: digits
   * are seconds; otherwise the last character names a unit and the rest is read by `int()`.
   */
  function RecentSeconds(recent: string): (r: Result<int, RecentError>)
    ensures IsDigitString(recent) ==> r == Success(DigitsValue(recent) as int)
    ensures r.Failure? && r.error.UnsupportedFormat? <==>
      !IsDigitString(recent) && (recent == [] || UnitSeconds(recent[|recent| - 1]).None?)
    ensures r.Failure? && r.error.InvalidLiteral? <==>
      !IsDigitString(recent) && recent != [] && UnitSeconds(recent[|recent| - 1]).Some?
      && ParseInt(recent[..|recent| - 1]).None?
  {
    if IsDigitString(recent) then Success(DigitsValue(recent) as int)
    else if recent == [] then Failure(UnsupportedFormat(recent))
    else
      match UnitSeconds(recent[|recent| - 1])
      case None => Failure(UnsupportedFormat(recent))
      case Some(unit) =>
        match ParseInt(recent[..|recent| - 1])
        case None => Failure(InvalidLiteral(recent[..|recent| - 1]))
        case Some(n) => Success(n * unit)
  }

  /** A number followed by a unit letter is that many units, whatever the letter's case. */
  lemma {:induction false} RecentWithUnit(prefix: string, u: char)
    requires UnitSeconds(u).Some?
    ensures ParseInt(prefix).Some? ==> RecentSeconds(prefix + [u]) == Success(ParseInt(prefix).value * UnitSeconds(u).value)
    ensures ParseInt(prefix).None? ==> RecentSeconds(prefix + [u]) == Failure(InvalidLiteral(prefix))
  {
    var s := prefix + [u];
    assert s[..|s| - 1] == prefix && s[|s| - 1] == u;
    assert !IsDigit(u) by { assert LowerChar(u) in {'s', 'm', 'h', 'd'}; }
  }

  /** Writing `n` followed by a unit and reading it back gives `n` times the unit's seconds. */
  lemma {:induction false} RecentRoundTrip(n: nat, u: char)
    requires UnitSeconds(u).Some?
    ensures RecentSeconds(NatToString(n) + [u]) == Success(n * UnitSeconds(u).value)
    ensures RecentSeconds(NatToString(n)) == Success(n as int)
  {
    ParseIntRoundTrip(n);
    RecentWithUnit(NatToString(n), u);
    NatToStringValue(n);
  }

  /** What a content recency filter admits: everything, or records newer than a threshold. */
  datatype RecordFilter = AlwaysTrue | NewerThan(threshold: int)

  /**
   * The filter `create_recent_dsl(recent)` is evidently meant to build with the clock reading
   * `now`: the literal `'True'` for `None` or the empty string; otherwise records stamped after
   * `now - seconds`. The code as written raises instead (`RecentRecordFilterAsWritten`).
   */
  function RecentRecordFilter(recent: Option<string>, now: int): (r: Result<RecordFilter, RecentError>)
    ensures recent.None? || recent.value == "" ==> r == Success(AlwaysTrue)
    ensures recent.Some? && recent.value != "" ==>
      match RecentSeconds(recent.value)
      case Success(secs) => r == Success(NewerThan(now - secs))
      case Failure(e) => r == Failure(e)
  {
    if recent.None? || recent.value == "" then Success(AlwaysTrue)
    else
      match RecentSeconds(recent.value)
      case Success(secs) => Success(NewerThan(now - secs))
      case Failure(e) => Failure(e)
  }

  /** What a file recency filter admits: every file, or files modified after a threshold. */
  datatype FileFilter = NoFilter | ModifiedAfter(threshold: int)

  /**
   * `create_recent_filter(recent)`: only `None` means no filter; the empty string
   * goes through the duration chain and is refused as an unsupported format.
   */
  function RecentFileFilter(recent: Option<string>, now: int): (r: Result<FileFilter, RecentError>)
    ensures recent.None? <==> r == Success(NoFilter)
    ensures recent == Some("") ==> r == Failure(UnsupportedFormat(""))
    ensures recent.Some? ==>
      match RecentSeconds(recent.value)
      case Success(secs) => r == Success(ModifiedAfter(now - secs))
      case Failure(e) => r == Failure(e)
  {
    if recent.None? then Success(NoFilter)
    else
      match RecentSeconds(recent.value)
      case Success(secs) => Success(ModifiedAfter(now - secs))
      case Failure(e) => Failure(e)
  }

  /** A longer duration gives an earlier (or equal) threshold, for records and for files alike. */
  lemma {:induction false} LongerDurationEarlierThreshold(r1: string, r2: string, now: int)
    requires RecentSeconds(r1).Success? && RecentSeconds(r2).Success?
    requires RecentSeconds(r1).value <= RecentSeconds(r2).value
    ensures RecentFileFilter(Some(r2), now).value.threshold <= RecentFileFilter(Some(r1), now).value.threshold
    ensures r1 != "" && r2 != "" ==>
      RecentRecordFilter(Some(r2), now).value.threshold <= RecentRecordFilter(Some(r1), now).value.threshold
  {
  }

  /** `create_tags_filter(tags)`: the set of comma-separated pieces of `tags`. */
  function TagSet(tags: string): (r: set<string>)
    ensures forall t :: t in r ==> ',' !in t
    ensures forall t :: t in r <==> t in Split(tags, ',')
  {
    set t | t in Split(tags, ',')
  }

  /** Tags joined with commas are recovered exactly as a set. */
  lemma {:induction false} TagSetOfJoined(tags: seq<string>)
    requires |tags| >= 1
    requires forall i :: 0 <= i < |tags| ==> ',' !in tags[i]
    ensures TagSet(Join(tags, ',')) == set t | t in tags
  {
    SplitJoin(tags, ',');
  }

  // ------------------------------------------------------- `DslFilter` as written

  /** Why building a content filter fails as written: a bad duration, or `compile`'s arity. */
  datatype BuildError = BadRecent(recent: RecentError) | CompileTypeError

  /**
   * `DslFilter(dsl)` as written: a non-empty expression goes to the builtin `compile` with
   * one argument, where it needs source, filename and mode, so construction raises
   * `TypeError`; an empty one is kept and accepts every record.
   */
  function DslFilterAsWritten(dsl: string): (r: Result<RecordFilter, BuildError>)
    ensures r.Success? <==> dsl == ""
    ensures r.Failure? ==> r.error == CompileTypeError
  {
    if dsl == "" then Success(AlwaysTrue) else Failure(CompileTypeError)
  }

  /** The expression `create_recent_dsl` hands to `DslFilter`, never empty. */
  function RecentDsl(start: int): (dsl: string)
    ensures dsl != ""
  {
    var digits := if start < 0 then "-" + NatToString(-start) else NatToString(start);
    "time.timestamp() - " + digits + " > 0"
  }

  /**
   * `create_recent_dsl(recent)` as written: `'True'` for `None` or `""`, the duration's
   * error when it is refused, and otherwise the `TypeError` of `DslFilter`.
   */
  function RecentRecordFilterAsWritten(recent: Option<string>, now: int): (r: Result<RecordFilter, BuildError>)
  {
    if recent.None? || recent.value == "" then Success(AlwaysTrue)
    else
      match RecentSeconds(recent.value)
      case Success(secs) => DslFilterAsWritten(RecentDsl(now - secs))
      case Failure(e) => Failure(BadRecent(e))
  }

  /**
   * As written, `create_recent_dsl` succeeds only where it does not build a `DslFilter`:
   * every duration that parses raises `TypeError`, where the intended filter keeps the
   * records newer than `now` minus it; elsewhere the two agree.
   */
  lemma {:induction false} RecentRecordFilterRaises(recent: Option<string>, now: int)
    ensures RecentRecordFilterAsWritten(recent, now).Success? <==> recent.None? || recent.value == ""
    ensures RecentRecordFilter(recent, now).Success? && RecentRecordFilter(recent, now).value.NewerThan? ==>
      RecentRecordFilterAsWritten(recent, now) == Failure(CompileTypeError)
    ensures RecentRecordFilter(recent, now).Failure? ==>
      RecentRecordFilterAsWritten(recent, now) == Failure(BadRecent(RecentRecordFilter(recent, now).error))
  {
  }

  /** The duration "90" at clock `now`: `TypeError` as written, records newer than `now - 90` as intended. */
  lemma {:induction false} RecentDslCounterexample(now: int)
    ensures RecentRecordFilterAsWritten(Some("90"), now) == Failure(CompileTypeError)
    ensures RecentRecordFilter(Some("90"), now) == Success(NewerThan(now - 90))
  {
    assert IsDigitString("90") by { assert forall i :: 0 <= i < 2 ==> IsDigit("90"[i]); }
    assert DigitsValue("90") == 90 by {
      assert "90"[..1] == "9" && "9"[..0] == [];
    }
  }

  /** What the tag filter is evidently meant to keep: records sharing a tag with the set. */
  datatype TagFilter = TagFilter(tags: set<string>)

  /** `create_tags_filter(tags)` as evidently intended: a filter on the tag set of `tags`. */
  function TagsFilter(tags: string): (f: TagFilter)
    ensures forall t :: t in f.tags <==> t in Split(tags, ',')
  {
    TagFilter(TagSet(tags))
  }

  /** The expression `tags & {...}` is truthy iff the record's tags meet the filter's. */
  predicate TagsAccept(f: TagFilter, recordTags: set<string>)
  {
    recordTags * f.tags != {}
  }

  /** A filter built from comma-free tags keeps a record iff it carries one of them. */
  lemma {:induction false} TagsFilterAccepts(tags: seq<string>, recordTags: set<string>)
    requires |tags| >= 1
    requires forall i :: 0 <= i < |tags| ==> ',' !in tags[i]
    ensures TagsAccept(TagsFilter(Join(tags, ',')), recordTags) <==> exists i :: 0 <= i < |tags| && tags[i] in recordTags
  {
    TagSetOfJoined(tags);
    var f := TagsFilter(Join(tags, ','));
    if TagsAccept(f, recordTags) {
      var t :| t in recordTags * f.tags;
      var i :| 0 <= i < |tags| && tags[i] == t;
    }
    if i :| 0 <= i < |tags| && tags[i] in recordTags {
      assert tags[i] in recordTags * f.tags;
    }
  }

  /**
   * `create_tags_filter(tags)` as written: the expression `tags & ` followed by the printed
   * set, which goes to `DslFilter`. How Python prints a set is the parameter `repr`.
   */
  function TagsFilterAsWritten(tags: string, repr: set<string> -> string): (r: Result<RecordFilter, BuildError>)
  {
    DslFilterAsWritten("tags & " + repr(TagSet(tags)))
  }

  /** As written, `create_tags_filter` raises `TypeError` on every input. */
  lemma {:induction false} TagsFilterRaises(tags: string, repr: set<string> -> string)
    ensures TagsFilterAsWritten(tags, repr) == Failure(CompileTypeError)
  {
  }
}
