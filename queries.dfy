/** The two queries built on the tracker: the versions on either side of a
    target (`version_range`) and the runtime check (`version_checker`). */
module Queries {
  import opened Errors
  import opened PyText
  import opened VersionTuple
  import opened Extract
  import opened VersionSort
  import opened Tracker

  // ---------------------------------------------------------------------
  // version_range

  /** `if not v: v = min_stable_version.version`: an absent or empty target
      defaults to the least active version. */
  function RangeTarget(page: Page, v: Option<string>): (r: Result<string>)
    ensures v.Some? && v.value != "" ==> r == Ok(v.value)
    ensures (v.None? || v.value == "") ==>
      (r.Ok? <==> MinStableVersion(page).Ok?) && (r.Ok? ==> r.value == MinStableVersion(page).value.version)
  {
    if v.None? || v.value == "" then
      var least :- MinStableVersion(page);
      Ok(least.version)
    else Ok(v.value)
  }

  /** `operator.ge(key, target)` when `above`, else `operator.le(key, target)`. */
  predicate InRange(key: seq<int>, target: seq<int>, above: bool) {
    if above then LexLe(target, key) else LexLe(key, target)
  }

  /** The records, in order, whose key is on the requested side of `target`. */
  function KeepInRange(records: seq<Release>, target: seq<int>, above: bool, key: string -> seq<int>)
    : (r: seq<Release>)
    ensures IsSubsequence(r, records)
    ensures forall x :: x in r <==> x in records && InRange(key(x.version), target, above)
    ensures forall x :: multiset(r)[x] == if InRange(key(x.version), target, above) then multiset(records)[x] else 0
  {
    if |records| == 0 then []
    else
      var rest := KeepInRange(records[1..], target, above, key);
      assert records == [records[0]] + records[1..];
      if InRange(key(records[0].version), target, above) then [records[0]] + rest else rest
  }

  lemma KeepInRangeCons(rec: Release, tail: seq<Release>, target: seq<int>, above: bool, key: string -> seq<int>)
    ensures KeepInRange([rec] + tail, target, above, key) ==
      if InRange(key(rec.version), target, above) then [rec] + KeepInRange(tail, target, above, key)
      else KeepInRange(tail, target, above, key)
  {
    assert ([rec] + tail)[1..] == tail;
  }

  /** The generator of `version_range`, consumed in order: each record is
      flagged (by `is_deprecated`, inside `all_versions`), then its version
      is read as a tuple by `parse` and compared with the target. */
  function RangeFilter(records: seq<Release>, target: seq<int>, above: bool, flag: string -> Result<bool>,
                       parse: string -> Result<seq<int>>)
    : Result<seq<Release>>
  {
    if |records| == 0 then Ok([])
    else
      var dep :- flag(records[0].version);
      var key :- parse(records[0].version);
      var rest :- RangeFilter(records[1..], target, above, flag, parse);
      var rec := Release(records[0].version, records[0].releaseDate, Some(dep));
      Ok(if InRange(key, target, above) then [rec] + rest else rest)
  }

  /** The generator runs to the end exactly when every record flags and
      every version has a tuple, and then yields the flagged records on the
      requested side of the target, in order (`key` being the tuple wherever
      `parse` succeeds). */
  lemma {:induction false} RangeFilterOutcome(records: seq<Release>, target: seq<int>, above: bool,
                                              flag: string -> Result<bool>, parse: string -> Result<seq<int>>,
                                              key: string -> seq<int>)
    requires forall v :: parse(v).Ok? ==> key(v) == parse(v).value
    ensures RangeFilter(records, target, above, flag, parse).Ok? <==> forall i :: 0 <= i < |records| ==>
      flag(records[i].version).Ok? && parse(records[i].version).Ok?
    ensures RangeFilter(records, target, above, flag, parse).Ok? ==> (WithFlags(records, flag).Ok?
      && RangeFilter(records, target, above, flag, parse).value ==
           KeepInRange(WithFlags(records, flag).value, target, above, key))
  {
    if |records| > 0 {
      assert forall i :: 1 <= i < |records| ==> records[1..][i - 1] == records[i];
      RangeFilterOutcome(records[1..], target, above, flag, parse, key);
      if RangeFilter(records, target, above, flag, parse).Ok? {
        var rec := Release(records[0].version, records[0].releaseDate, Some(flag(records[0].version).value));
        var tail := WithFlags(records[1..], flag).value;
        assert WithFlags(records, flag).value == [rec] + tail;
        KeepInRangeCons(rec, tail, target, above, key);
      }
    }
  }

  /** `version_range(v, above)` with the comparison evidently intended: the
      target and each record's version read as integer tuples, the target
      included on both sides. */
  function VersionRange(page: Page, v: Option<string>, above: bool): (r: Result<seq<Release>>)
    ensures r.Ok? ==> RangeTarget(page, v).Ok? && Validate(page, RangeTarget(page, v).value).Ok?
    ensures r.Ok? ==> (AllVersions(page).Ok? && r.value ==
      KeepInRange(AllVersions(page).value, Key(Validate(page, RangeTarget(page, v).value).value), above, Key))
    ensures r.Ok? ==> GetAllVersions(page).Ok? && forall i :: 0 <= i < |GetAllVersions(page).value| ==>
      Str2Tuple(GetAllVersions(page).value[i].version).Ok?
  {
    var requested :- RangeTarget(page, v);
    var version :- Validate(page, requested);
    var target :- Str2Tuple(version);
    var raw :- GetAllVersions(page);
    RangeFilterOutcome(raw, target, above, Deprecated(page), Str2Tuple, Key);
    RangeFilter(raw, target, above, Deprecated(page), Str2Tuple)
  }

  /** `version_range(v, above)` as written: `tuple2str` raises on every
      input, so the target is never computed and no record is compared. */
  function VersionRangeAsWritten(page: Page, v: Option<string>, above: bool): (r: Result<seq<Release>>)
    ensures r.Err?
    ensures RangeTarget(page, v).Ok? && Validate(page, RangeTarget(page, v).value).Ok? ==> r == Err(JoinTypeError)
  {
    var requested :- RangeTarget(page, v);
    var version :- Validate(page, requested);
    PatternTuple(version);
    // `tuple2str(version)` always raises, so the comparison is never reached.
    Err(Tuple2StrAsWritten(version).error)
  }

  /** Once the target validates and `all_versions` succeeds with versions
      that all have tuples, `version_range` yields exactly the records of
      `all_versions`, in order, whose tuple is at least (`above`) or at most
      the target's. */
  lemma VersionRangeSelects(page: Page, v: Option<string>, above: bool, version: string, flagged: seq<Release>)
    requires RangeTarget(page, v).Ok? && Validate(page, RangeTarget(page, v).value) == Ok(version)
    requires AllVersions(page) == Ok(flagged)
    requires forall i :: 0 <= i < |flagged| ==> Str2Tuple(flagged[i].version).Ok?
    ensures Str2Tuple(version).Ok?
    ensures VersionRange(page, v, above) == Ok(KeepInRange(flagged, Str2Tuple(version).value, above, Key))
  {
    PatternTuple(version);
    var raw := GetAllVersions(page).value;
    assert WithFlags(raw, Deprecated(page)) == Ok(flagged);
    RangeFilterRuns(raw, Str2Tuple(version).value, above, Deprecated(page), flagged);
  }

  /** The generator runs to the end when every record flags and every
      version has a tuple. */
  lemma RangeFilterRuns(records: seq<Release>, target: seq<int>, above: bool, flag: string -> Result<bool>,
                        flagged: seq<Release>)
    requires WithFlags(records, flag) == Ok(flagged)
    requires forall i :: 0 <= i < |flagged| ==> Str2Tuple(flagged[i].version).Ok?
    ensures RangeFilter(records, target, above, flag, Str2Tuple) == Ok(KeepInRange(flagged, target, above, Key))
  {
    assert forall i :: 0 <= i < |records| ==> records[i].version == flagged[i].version;
    RangeFilterOutcome(records, target, above, flag, Str2Tuple, Key);
  }

  /** The two sides of a target cover every record, and both hold the
      records whose tuple equals the target's. */
  lemma RangesCover(records: seq<Release>, target: seq<int>)
    ensures forall x :: x in records ==> x in KeepInRange(records, target, false, Key) || x in KeepInRange(records, target, true, Key)
    ensures forall x :: x in records && Key(x.version) == target ==>
      x in KeepInRange(records, target, false, Key) && x in KeepInRange(records, target, true, Key)
  {
    forall x | x in records
      ensures x in KeepInRange(records, target, false, Key) || x in KeepInRange(records, target, true, Key)
    {
      LexLessTotal(Key(x.version), target);
    }
  }

  // ---------------------------------------------------------------------
  // version_checker

  /** `minimum_version`, defaulting to the least active version when None. */
  function DefaultMinimum(page: Page, minimum: Option<string>): (r: Result<string>)
    ensures minimum.Some? ==> r == Ok(minimum.value)
    ensures minimum.None? ==>
      (r.Ok? <==> MinStableVersion(page).Ok?) && (r.Ok? ==> r.value == MinStableVersion(page).value.version)
  {
    match minimum
    case Some(m) => Ok(m)
    case None =>
      var least :- MinStableVersion(page);
      Ok(least.version)
  }

  /** `version_checker(sys, minimum)`, `sys` being the version already read
      out of `sys.version`: true unless the running version's tuple is below
      the validated minimum's. */
  function VersionChecker(page: Page, sysVersion: string, minimum: Option<string>): (r: Result<bool>)
    ensures r.Ok? ==> r.value
  {
    var requested :- DefaultMinimum(page, minimum);
    var minVersion :- Validate(page, requested);
    var current :- Str2Tuple(sysVersion);
    var least :- Str2Tuple(minVersion);
    if LexLess(current, least) then Err(UnsupportedRuntime(sysVersion, minVersion)) else Ok(true)
  }

  /** Once the minimum validates, the check fails exactly when the running
      version's tuple is below the minimum's (a running version without a
      tuple fails with the `str2tuple` error). */
  lemma VersionCheckerDecides(page: Page, sysVersion: string, minimum: Option<string>, minVersion: string)
    requires DefaultMinimum(page, minimum).Ok?
    requires Validate(page, DefaultMinimum(page, minimum).value) == Ok(minVersion)
    ensures Str2Tuple(minVersion).Ok?
    ensures Str2Tuple(sysVersion).Err? ==> VersionChecker(page, sysVersion, minimum) == Err(Str2Tuple(sysVersion).error)
    ensures Str2Tuple(sysVersion).Ok? ==> (VersionChecker(page, sysVersion, minimum) ==
      if LexLess(Str2Tuple(sysVersion).value, Str2Tuple(minVersion).value)
      then Err(UnsupportedRuntime(sysVersion, minVersion))
      else Ok(true))
  {
    PatternTuple(minVersion);
  }

  lemma FormatThreeParts(t: seq<int>, a: string, b: string, c: string)
    requires |t| == 3 && IntToString(t[0]) == a && IntToString(t[1]) == b && IntToString(t[2]) == c
    ensures FormatTuple(t) == a + "." + b + "." + c
  {
    var parts := seq(3, i requires 0 <= i < 3 => IntToString(t[i]));
    assert parts == [a, b, c];
    assert parts[1..] == [b, c] && parts[1..][1..] == [c];
    assert JoinDot([c]) == c;
    assert JoinDot([b, c]) == b + "." + c;
    assert JoinDot(parts) == a + "." + (b + "." + c);
  }

  /** The tuple of a formatted three-part tuple. */
  lemma TupleOfFormatted(t: seq<int>, s: string)
    requires |t| == 3 && FormatTuple(t) == s
    ensures Str2Tuple(s) == Ok(t)
  {
    FormatTupleRoundTrip(t);
  }

  lemma ThreeEightZero()
    ensures Str2Tuple("3.8.0") == Ok([3, 8, 0])
    ensures IsXYZ("3.8.0")
  {
    ThreeEightZeroIsXYZ();
    FormatThreeParts([3, 8, 0], "3", "8", "0");
    TupleOfFormatted([3, 8, 0], "3.8.0");
  }

  lemma ThreeEightZeroIsXYZ()
    ensures IsXYZ("3.8.0")
  {
    var p := ["3", "8", "0"];
    assert p[1..] == ["8", "0"] && p[1..][1..] == ["0"];
    assert JoinDot(p) == "3" + "." + ("8" + "." + "0");
    SplitJoinDot(p);
  }

  lemma ThreeEight()
    ensures IsXY("3.8") && "3.8" + ".0" == "3.8.0"
  {
    var p := ["3", "8"];
    assert p[1..] == ["8"];
    assert JoinDot(p) == "3" + "." + "8";
    SplitJoinDot(p);
  }

  /** The import-time call `version_checker(sys.version, '3.8')`: on a page
      that lists 3.8.0, the minimum becomes 3.8.0 and the check fails
      exactly for running versions below it. */
  lemma ImportTimeGate(page: Page, sysVersion: string)
    requires AllVersionStrings(page).Ok? && "3.8.0" in AllVersionStrings(page).value
    requires Str2Tuple(sysVersion).Ok?
    ensures VersionChecker(page, sysVersion, Some("3.8")) ==
      if LexLess(Str2Tuple(sysVersion).value, [3, 8, 0])
      then Err(UnsupportedRuntime(sysVersion, "3.8.0"))
      else Ok(true)
  {
    ThreeEightZero();
    ThreeEight();
    ListedTwoPartValidates(page, "3.8");
    VersionCheckerDecides(page, sysVersion, Some("3.8"), "3.8.0");
  }

  /** Whatever the page, 3.7.0 falls short of a 3.8.0 minimum. */
  lemma CheckerRejectsOlder(page: Page)
    ensures VersionChecker(page, "3.7.0", Some("3.8.0")) == Err(UnsupportedRuntime("3.7.0", "3.8.0"))
  {
    ThreeEightZero();
    ThreeSevenZero();
    VersionCheckerDecides(page, "3.7.0", Some("3.8.0"), "3.8.0");
  }

  /** Whatever the page, a 3.8.0 minimum accepts 3.11.0 (a string comparison
      would put "3.11.0" first). */
  lemma CheckerAcceptsNewer(page: Page)
    ensures VersionChecker(page, "3.11.0", Some("3.8.0")) == Ok(true)
  {
    ThreeEightZero();
    ThreeElevenZero();
    VersionCheckerDecides(page, "3.11.0", Some("3.8.0"), "3.8.0");
  }

  lemma ThreeSevenZero()
    ensures Str2Tuple("3.7.0") == Ok([3, 7, 0])
  {
    FormatThreeParts([3, 7, 0], "3", "7", "0");
    TupleOfFormatted([3, 7, 0], "3.7.0");
  }

  lemma ThreeElevenZero()
    ensures Str2Tuple("3.11.0") == Ok([3, 11, 0])
  {
    assert NatToString(1) == "1";
    assert NatToString(11) == "11";
    FormatThreeParts([3, 11, 0], "3", "11", "0");
    TupleOfFormatted([3, 11, 0], "3.11.0");
  }
}
