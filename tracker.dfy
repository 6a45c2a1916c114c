/** The tracker's queries over one scraped downloads page: the matcher,
    version validation and membership, the unsupported versions, deprecation,
    the records with their deprecation flags and the stable extremes. */
module Tracker {
  import opened Errors
  import opened PyText
  import opened VersionTuple
  import opened Extract
  import opened VersionSort

  // ---------------------------------------------------------------------
  // _compiler(defaults, k, escape_k=False, search=False)

  /** ASCII letters fold to lower case under IGNORECASE. */
  function Fold(c: char): char {
    if 'A' <= c <= 'Z' then (c as int + 32) as char else c
  }

  /** The escaped pattern `p` matches at the start of `k`, ignoring case. */
  predicate IsPrefixIgnoreCase(p: string, k: string) {
    |p| <= |k| && forall i :: 0 <= i < |p| ==> Fold(p[i]) == Fold(k[i])
  }

  /** Alternative `i` is the first of `alts` that matches at the start of `k`. */
  predicate FirstMatchAt(alts: seq<string>, k: string, i: int) {
    && 0 <= i < |alts|
    && IsPrefixIgnoreCase(alts[i], k)
    && forall j :: 0 <= j < i ==> !IsPrefixIgnoreCase(alts[j], k)
  }

  lemma FirstMatchUnique(alts: seq<string>, k: string, i: int, j: int)
    requires FirstMatchAt(alts, k, i) && FirstMatchAt(alts, k, j)
    ensures i == j
  {
  }

  /** An alternation is tried left to right and the first alternative that
      matches wins. */
  function FirstPrefix(alts: seq<string>, k: string): (r: Option<nat>)
    ensures r.None? <==> forall i :: 0 <= i < |alts| ==> !IsPrefixIgnoreCase(alts[i], k)
    ensures r.Some? ==> FirstMatchAt(alts, k, r.value)
  {
    if |alts| == 0 then None
    else if IsPrefixIgnoreCase(alts[0], k) then Some(0)
    else
      assert forall i :: 1 <= i < |alts| ==> alts[1..][i - 1] == alts[i];
      match FirstPrefix(alts[1..], k)
      case None => None
      case Some(i) => Some(i + 1)
  }

  /** `_compiler(defaults, k, escape_k=False, search=False)`: the escaped
      defaults joined by `|` and matched at the start of `k` ignoring case.
      The result is the matched text (`group(0)`), or None where the match
      fails. With no defaults the pattern is empty and matches "". */
  function Compiler(defaults: seq<string>, k: string): (r: Option<string>)
    ensures |defaults| == 0 ==> r == Some("")
    ensures |defaults| > 0 ==> (r.None? <==> forall i :: 0 <= i < |defaults| ==> !IsPrefixIgnoreCase(defaults[i], k))
    ensures |defaults| > 0 && r.Some? ==>
      exists i :: FirstMatchAt(defaults, k, i) && r.value == k[..|defaults[i]|]
  {
    var alternatives := if |defaults| == 0 then [""] else defaults;
    match FirstPrefix(alternatives, k)
    case None => None
    case Some(i) => Some(k[..|alternatives[i]|])
  }

  // ---------------------------------------------------------------------
  // _validate_version and is_version

  /** `_unpack_versions(_get_all_versions())`. */
  function AllVersionStrings(page: Page): (r: Result<seq<string>>)
    ensures r.Ok? <==> GetAllVersions(page).Ok?
    ensures r.Err? ==> r.error == IndexOutOfRange
    ensures r.Ok? ==> r.value == UnpackVersions(GetAllVersions(page).value)
  {
    var all :- GetAllVersions(page);
    Ok(UnpackVersions(all))
  }

  /** `_validate_version` calls `is_version` only on X.Y inputs, which then
      passes X.Y.0 back to it: the recursion is one level deep. */
  function Rank(s: string): nat {
    if IsXY(s) then 1 else 0
  }

  /** `_validate_version(s)`: X.Y.Z is returned as it is; X.Y becomes X.Y.0
      once `is_version(X.Y.0)` has returned, whatever it returned; anything
      else fails. A string that `str2tuple` reads as three integers without
      matching X.Y.Z (" 3.8.1", "+3.8.1") reaches `return version` with
      `version` unassigned. */
  function Validate(page: Page, s: string): (r: Result<string>)
    decreases Rank(s), 0
    ensures IsXYZ(s) ==> r == Ok(s)
    ensures r.Ok? ==> IsXYZ(r.value) && (r.value == s || (IsXY(s) && r.value == s + ".0"))
    ensures !IsXYZ(s) && !IsXY(s) ==> r.Err?
    ensures !IsXYZ(s) && !IsXY(s) && Str2Tuple(s).Err? ==> r.error == Str2Tuple(s).error
    ensures !IsXYZ(s) && !IsXY(s) && Str2Tuple(s).Ok? ==>
      r.error == (if |Str2Tuple(s).value| == 3 then UnboundVersion(s) else InvalidVersionFormat(s))
  {
    if IsXYZ(s) then Ok(s)
    else if IsXY(s) then
      AppendZero(s);
      var _ :- IsVersion(page, s + ".0");
      Ok(s + ".0")
    else
      var t :- Str2Tuple(s);
      if |t| == 3 then Err(UnboundVersion(s)) else Err(InvalidVersionFormat(s))
  }

  /** `is_version(s)`: the listed versions, as alternatives, are matched at
      the start of `s` itself (not of its validated form), and the answer is
      whether the matched text equals the validated form. No match is the
      out-of-range error. */
  function IsVersion(page: Page, s: string): (r: Result<bool>)
    decreases Rank(s), 1
    ensures AllVersionStrings(page).Err? ==> r == Err(IndexOutOfRange)
    ensures AllVersionStrings(page).Ok? && Validate(page, s).Err? ==> r == Err(Validate(page, s).error)
  {
    var versions :- AllVersionStrings(page);
    var org :- Validate(page, s);
    match Compiler(versions, s)
    case None => Err(OutOfRange)
    case Some(found) => Ok(found == org)
  }

  /** On an X.Y input validation stands or falls with `is_version(X.Y.0)`. */
  lemma ValidateTwoPart(page: Page, s: string)
    requires IsXY(s)
    ensures Validate(page, s).Ok? <==> IsVersion(page, s + ".0").Ok?
    ensures Validate(page, s).Err? ==> Validate(page, s).error == IsVersion(page, s + ".0").error
  {
  }

  lemma XYZNotEmpty(s: string)
    requires IsXYZ(s)
    ensures |s| > 0
  {
  }

  /** Validation is idempotent: a validated version validates to itself. */
  lemma ValidateIdempotent(page: Page, s: string)
    requires Validate(page, s).Ok?
    ensures Validate(page, Validate(page, s).value) == Validate(page, s)
  {
  }

  /** What `is_version` answers once the listed versions are known and the
      input has validated: false for an empty list (the empty pattern
      matches ""), the out-of-range error when no listed version is a prefix
      of the input, and otherwise whether the text matched by the first
      listed version that is a prefix equals the validated form. */
  lemma IsVersionCases(page: Page, s: string, vs: seq<string>, org: string)
    requires AllVersionStrings(page) == Ok(vs) && Validate(page, s) == Ok(org)
    ensures |vs| == 0 ==> IsVersion(page, s) == Ok(false)
    ensures |vs| > 0 ==>
      (IsVersion(page, s) == Err(OutOfRange) <==> forall i :: 0 <= i < |vs| ==> !IsPrefixIgnoreCase(vs[i], s))
    ensures IsVersion(page, s).Ok? || IsVersion(page, s) == Err(OutOfRange)
    ensures forall i :: FirstMatchAt(vs, s, i) ==> IsVersion(page, s) == Ok(s[..|vs[i]|] == org)
  {
    XYZNotEmpty(org);
    if |vs| > 0 && Compiler(vs, s).Some? {
      var i :| FirstMatchAt(vs, s, i) && Compiler(vs, s).value == s[..|vs[i]|];
      forall j | FirstMatchAt(vs, s, j) ensures IsVersion(page, s) == Ok(s[..|vs[j]|] == org) {
        FirstMatchUnique(vs, s, i, j);
      }
    }
  }

  /** `is_version` answers true only for an X.Y.Z input whose whole text is
      matched by the first listed version that matches at all. */
  lemma IsVersionTrue(page: Page, s: string)
    requires IsVersion(page, s) == Ok(true)
    ensures IsXYZ(s)
    ensures exists i :: FirstMatchAt(AllVersionStrings(page).value, s, i)
                && |AllVersionStrings(page).value[i]| == |s|
  {
    var vs, org := AllVersionStrings(page).value, Validate(page, s).value;
    XYZNotEmpty(org);
    IsVersionCases(page, s, vs, org);
    var i :| FirstMatchAt(vs, s, i) && Compiler(vs, s).value == s[..|vs[i]|];
    assert s[..|vs[i]|] == org;
  }

  /** An X.Y input is never reported as a version: the validated X.Y.0 is
      longer than any text matched at the start of X.Y. */
  lemma TwoPartIsNeverVersion(page: Page, s: string)
    requires IsXY(s)
    ensures IsVersion(page, s) != Ok(true)
  {
    if IsVersion(page, s) == Ok(true) {
      IsVersionTrue(page, s);
      AppendZero(s);
    }
  }

  /** A listed X.Y.Z version never draws the out-of-range error. */
  lemma ListedVersionIsInRange(page: Page, s: string)
    requires IsXYZ(s) && AllVersionStrings(page).Ok? && s in AllVersionStrings(page).value
    ensures IsVersion(page, s).Ok?
  {
    var vs := AllVersionStrings(page).value;
    IsVersionCases(page, s, vs, s);
    var i :| 0 <= i < |vs| && vs[i] == s;
    assert IsPrefixIgnoreCase(vs[i], s);
  }

  /** An X.Y input validates to X.Y.0 when X.Y.0 is listed. */
  lemma ListedTwoPartValidates(page: Page, s: string)
    requires IsXY(s) && AllVersionStrings(page).Ok? && s + ".0" in AllVersionStrings(page).value
    ensures Validate(page, s) == Ok(s + ".0")
  {
    AppendZero(s);
    ListedVersionIsInRange(page, s + ".0");
  }

  /** A listed version that is a prefix of a later one shadows it: with
      "3.8.1" listed before "3.8.10", the alternation matches "3.8.1" at the
      start of "3.8.10" and `is_version("3.8.10")` is false. */
  lemma PrefixShadowsLongerVersion(page: Page)
    requires AllVersionStrings(page) == Ok(["3.8.1", "3.8.10"])
    ensures IsVersion(page, "3.8.10") == Ok(false)
  {
    var s, vs := "3.8.10", ["3.8.1", "3.8.10"];
    ThreeEightTenIsXYZ();
    ThreeEightOneMatches();
    IsVersionCases(page, s, vs, s);
  }

  lemma ThreeEightTenIsXYZ()
    ensures IsXYZ("3.8.10")
  {
    var p := ["3", "8", "10"];
    assert p[1..] == ["8", "10"] && p[1..][1..] == ["10"];
    assert JoinDot(p) == "3" + "." + ("8" + "." + "10");
    SplitJoinDot(p);
  }

  lemma ThreeEightOneMatches()
    ensures FirstMatchAt(["3.8.1", "3.8.10"], "3.8.10", 0)
    ensures "3.8.10"[..5] == "3.8.1"
  {
  }

  // ---------------------------------------------------------------------
  // _unsupported_v, unsupported_versions and is_deprecated

  /** `a` is `b` with some elements left out, the rest kept in order. */
  predicate IsSubsequence<T(==)>(a: seq<T>, b: seq<T>)
    decreases |b|
  {
    |a| == 0 || (|b| > 0 && ((a[0] == b[0] && IsSubsequence(a[1..], b[1..])) || IsSubsequence(a, b[1..])))
  }

  /** `(i for i in records if i.version in versions)`. */
  function KeepListed(records: seq<Release>, versions: seq<string>): (r: seq<Release>)
    ensures IsSubsequence(r, records)
    ensures forall x :: x in r <==> x in records && x.version in versions
    ensures forall x :: multiset(r)[x] == if x.version in versions then multiset(records)[x] else 0
  {
    if |records| == 0 then []
    else
      var rest := KeepListed(records[1..], versions);
      assert records == [records[0]] + records[1..];
      if records[0].version in versions then [records[0]] + rest else rest
  }

  /** The version of the last row of the active-versions table. */
  function LastActive(page: Page): string
    requires |ActiveVersions(page)| > 0
  {
    ActiveVersions(page)[|ActiveVersions(page)| - 1].version
  }

  /** `_unsupported_v(everything)`: with `everything`, the records as they
      are; otherwise the last active version is validated, the listed
      versions are sorted by tuple, and the records are kept, in page order,
      whose version lies before the first occurrence of that last active
      version in the sorted list. */
  function UnsupportedV(page: Page, everything: bool): (r: Result<seq<Release>>)
    ensures everything ==> r == GetAllVersions(page)
    ensures r.Ok? ==> GetAllVersions(page).Ok?
    ensures !everything && r.Ok? ==> IsSubsequence(r.value, GetAllVersions(page).value)
  {
    var all :- GetAllVersions(page);
    if everything then Ok(all)
    else if |ActiveVersions(page)| == 0 then Err(IndexOutOfRange)
    else
      var last :- Validate(page, LastActive(page));
      var sorted :- SortedByTuple(UnpackVersions(all));
      match IndexOf(sorted, last)
      case None => Err(ValueNotInList)
      case Some(i) => Ok(KeepListed(all, sorted[..i]))
  }

  /** The state in which `_unsupported_v()` gets past its own failure
      points: the records were read, the active table has a row, its last
      version validated to `last`, and every listed version has a tuple. */
  predicate Supported(page: Page, all: seq<Release>, last: string) {
    && GetAllVersions(page) == Ok(all)
    && |ActiveVersions(page)| > 0
    && Validate(page, LastActive(page)) == Ok(last)
    && forall i :: 0 <= i < |all| ==> Str2Tuple(all[i].version).Ok?
  }

  /** `unsupported_versions`: defined exactly when the last active version is
      listed (else ValueError from `index`). It holds the records, in page
      order, whose version has a smaller tuple than the last active one, or
      an equal tuple and an earlier place in the list than its first
      occurrence; so no unsupported version is newer than the last active
      one, and the last active one is not among them. */
  lemma {:induction false} UnsupportedVersions(page: Page, all: seq<Release>, last: string)
    requires Supported(page, all, last)
    ensures UnsupportedV(page, false).Ok? <==> last in UnpackVersions(all)
    ensures UnsupportedV(page, false).Err? ==> UnsupportedV(page, false).error == ValueNotInList
    ensures UnsupportedV(page, false).Ok? ==>
      forall x :: x in UnsupportedV(page, false).value <==>
        x in all && InZoneBefore(UnpackVersions(all), last, x.version, Key)
    ensures UnsupportedV(page, false).Ok? ==>
      forall x :: x in UnsupportedV(page, false).value ==>
        LexLe(Key(x.version), Key(last)) && x.version != last
  {
    var vs := UnpackVersions(all);
    assert forall i :: 0 <= i < |vs| ==> Str2Tuple(vs[i]).Ok?;
    var sorted := Sort(vs, Key);
    assert SortedByTuple(vs) == Ok(sorted);
    SortMembers(vs, Key);
    if last in vs {
      var i := IndexOf(sorted, last).value;
      assert sorted[..i] == Before(sorted, last);
      assert UnsupportedV(page, false) == Ok(KeepListed(all, sorted[..i]));
      forall x | x in all
        ensures x.version in Before(sorted, last) <==> InZoneBefore(vs, last, x.version, Key)
      {
        SortBefore(vs, last, x.version, Key);
      }
      forall x | x in all && InZoneBefore(vs, last, x.version, Key)
        ensures LexLe(Key(x.version), Key(last)) && x.version != last
      {
        LexLessIrreflexive(Key(last));
      }
    }
  }

  /** No unsupported version has a larger tuple than the last active one:
      an active version above it is never unsupported. */
  lemma NothingAboveLastUnsupported(page: Page, all: seq<Release>, last: string)
    requires Supported(page, all, last) && UnsupportedV(page, false).Ok?
    ensures forall x :: x in UnsupportedV(page, false).value ==> !LexLess(Key(last), Key(x.version))
  {
    UnsupportedVersions(page, all, last);
    forall x | x in UnsupportedV(page, false).value ensures !LexLess(Key(last), Key(x.version)) {
      if LexLess(Key(x.version), Key(last)) {
        LexLessAsymmetric(Key(x.version), Key(last));
      } else {
        LexLessIrreflexive(Key(last));
      }
    }
  }

  /** `is_deprecated(v)`: the validated version must be listed (else the
      out-of-range error); it is deprecated when it is among the unsupported
      versions. */
  function IsDeprecated(page: Page, v: string): (r: Result<bool>)
    ensures r.Ok? ==> Validate(page, v).Ok? && UnsupportedV(page, false).Ok?
    ensures r.Ok? ==> Validate(page, v).value in UnpackVersions(GetAllVersions(page).value)
  {
    var version :- Validate(page, v);
    var unsupported :- UnsupportedV(page, false);
    // `_unsupported_v(True)` cannot fail once `_unsupported_v()` has returned.
    var all := UnsupportedV(page, true).value;
    if version !in UnpackVersions(all) then Err(OutOfRange)
    else Ok(version in UnpackVersions(unsupported))
  }

  /** Deprecation by the tuple order: a listed version is deprecated exactly
      when it lies, in the sorted list, before the last active version; an
      unlisted one draws the out-of-range error. */
  lemma Deprecation(page: Page, all: seq<Release>, last: string, v: string, version: string)
    requires Supported(page, all, last) && last in UnpackVersions(all)
    requires Validate(page, v) == Ok(version)
    ensures IsDeprecated(page, v).Ok? <==> version in UnpackVersions(all)
    ensures IsDeprecated(page, v).Err? ==> IsDeprecated(page, v).error == OutOfRange
    ensures IsDeprecated(page, v).Ok? ==>
      (IsDeprecated(page, v).value <==> InZoneBefore(UnpackVersions(all), last, version, Key))
  {
    var vs := UnpackVersions(all);
    UnsupportedVersions(page, all, last);
    var unsupported := UnsupportedV(page, false).value;
    assert IsDeprecated(page, v) ==
      (if version !in vs then Err(OutOfRange) else Ok(version in UnpackVersions(unsupported)));
    UnpackMember(all, version);
    UnpackMember(unsupported, version);
  }

  /** A version is unpacked from the records exactly when a record carries it. */
  lemma UnpackMember(records: seq<Release>, v: string)
    ensures v in UnpackVersions(records) <==> exists x :: x in records && x.version == v
  {
    var vs := UnpackVersions(records);
    if v in vs {
      var j :| 0 <= j < |vs| && vs[j] == v;
      assert records[j] in records;
    }
  }

  /** The last active version is never deprecated. */
  lemma LastActiveNotDeprecated(page: Page, all: seq<Release>, last: string)
    requires Supported(page, all, last) && last in UnpackVersions(all)
    ensures IsDeprecated(page, last) == Ok(false)
  {
    assert Validate(page, last) == Ok(last);
    Deprecation(page, all, last, last, last);
    LexLessIrreflexive(Key(last));
  }

  // ---------------------------------------------------------------------
  // all_versions and max_stable_version

  /** `is_deprecated` on the page, as the function `_base_pytuple` applies. */
  function Deprecated(page: Page): string -> Result<bool> {
    v => IsDeprecated(page, v)
  }

  /** `_base_pytuple(records, with_deprecation=True)`, consumed in order:
      each record gets `flag` of its version, and the first call that
      raises is the error. */
  function WithFlags(records: seq<Release>, flag: string -> Result<bool>): (r: Result<seq<Release>>)
    ensures r.Ok? <==> forall i :: 0 <= i < |records| ==> flag(records[i].version).Ok?
    ensures r.Ok? ==> |r.value| == |records|
    ensures r.Ok? ==> forall i :: 0 <= i < |records| ==>
      r.value[i] == Release(records[i].version, records[i].releaseDate, Some(flag(records[i].version).value))
    ensures r.Err? ==> exists i :: (0 <= i < |records| && flag(records[i].version) == Err(r.error)
      && forall j :: 0 <= j < i ==> flag(records[j].version).Ok?)
  {
    if |records| == 0 then Ok([])
    else
      assert forall i :: 1 <= i < |records| ==> records[1..][i - 1] == records[i];
      var dep :- flag(records[0].version);
      var rest := WithFlags(records[1..], flag);
      if rest.Err? then
        ghost var i :| 0 <= i < |records| - 1 && flag(records[1..][i].version) == Err(rest.error)
          && forall j :: 0 <= j < i ==> flag(records[1..][j].version).Ok?;
        assert flag(records[i + 1].version) == Err(rest.error);
        Err(rest.error)
      else
        Ok([Release(records[0].version, records[0].releaseDate, Some(dep))] + rest.value)
  }

  /** `all_versions`: the records with their deprecation flags. */
  function AllVersions(page: Page): (r: Result<seq<Release>>)
    ensures GetAllVersions(page).Err? ==> r == Err(IndexOutOfRange)
    ensures r.Ok? <==> GetAllVersions(page).Ok? && var raw := GetAllVersions(page).value;
      forall i :: 0 <= i < |raw| ==> IsDeprecated(page, raw[i].version).Ok?
    ensures r.Ok? ==> var raw := GetAllVersions(page).value;
      |r.value| == |raw| && forall i :: 0 <= i < |raw| ==>
        r.value[i] == Release(raw[i].version, raw[i].releaseDate, Some(IsDeprecated(page, raw[i].version).value))
  {
    var raw :- GetAllVersions(page);
    WithFlags(raw, Deprecated(page))
  }

  /** On a page whose listed versions are all X.Y.Z and whose last active
      version validates to a listed one, `all_versions` succeeds, and each
      record is flagged deprecated exactly when its version lies before the
      last active one in the sorted list. */
  lemma AllVersionsFlags(page: Page, raw: seq<Release>, last: string)
    requires GetAllVersions(page) == Ok(raw)
    requires forall i :: 0 <= i < |raw| ==> IsXYZ(raw[i].version)
    requires |ActiveVersions(page)| > 0 && Validate(page, LastActive(page)) == Ok(last)
    requires last in UnpackVersions(raw)
    ensures AllVersions(page).Ok?
    ensures forall i :: 0 <= i < |raw| ==>
      AllVersions(page).value[i] ==
        Release(raw[i].version, raw[i].releaseDate, Some(InZoneBefore(UnpackVersions(raw), last, raw[i].version, Key)))
  {
    forall i | 0 <= i < |raw| ensures Str2Tuple(raw[i].version).Ok? {
      PatternTuple(raw[i].version);
    }
    assert Supported(page, raw, last);
    forall i | 0 <= i < |raw|
      ensures IsDeprecated(page, raw[i].version).Ok?
      ensures IsDeprecated(page, raw[i].version).value == InZoneBefore(UnpackVersions(raw), last, raw[i].version, Key)
    {
      assert UnpackVersions(raw)[i] == raw[i].version;
      Deprecation(page, raw, last, raw[i].version, raw[i].version);
    }
  }

  /** `next(ver for ver in all_versions if ver.version == target)`: records
      are flagged one at a time until the first whose version is `target`. */
  function FirstWithVersion(records: seq<Release>, target: string, flag: string -> Result<bool>): (r: Result<Release>)
    ensures r.Ok? ==> r.value.version == target
  {
    if |records| == 0 then Err(NoMatchingRecord)
    else
      var dep :- flag(records[0].version);
      var rec := Release(records[0].version, records[0].releaseDate, Some(dep));
      if rec.version == target then Ok(rec) else FirstWithVersion(records[1..], target, flag)
  }

  /** The first `n` records are passed over by the lazy search: none
      carries `target`, and each flags. */
  predicate PassedOver(records: seq<Release>, target: string, flag: string -> Result<bool>, n: int) {
    forall m :: 0 <= m < n && m < |records| ==> records[m].version != target && flag(records[m].version).Ok?
  }

  /** Where the lazy search stops: the first record that carries `target`
      or fails to flag, or the end. */
  function Stop(records: seq<Release>, target: string, flag: string -> Result<bool>): (n: nat)
    ensures n <= |records| && PassedOver(records, target, flag, n)
    ensures n < |records| ==> records[n].version == target || flag(records[n].version).Err?
  {
    if |records| == 0 || records[0].version == target || flag(records[0].version).Err? then 0
    else
      assert forall m :: 0 <= m < |records| - 1 ==> records[1..][m] == records[m + 1];
      1 + Stop(records[1..], target, flag)
  }

  /** The record where the search stops decides its outcome. */
  lemma {:induction false} StopDecides(records: seq<Release>, target: string, flag: string -> Result<bool>)
    ensures var n := Stop(records, target, flag);
      && (n == |records| ==> FirstWithVersion(records, target, flag) == Err(NoMatchingRecord))
      && (n < |records| && flag(records[n].version).Err? ==>
            FirstWithVersion(records, target, flag) == Err(flag(records[n].version).error))
      && (n < |records| && flag(records[n].version).Ok? ==>
            FirstWithVersion(records, target, flag) ==
              Ok(Release(records[n].version, records[n].releaseDate, Some(flag(records[n].version).value))))
  {
    if |records| > 0 && records[0].version != target && flag(records[0].version).Ok? {
      StopDecides(records[1..], target, flag);
      assert records[1..][Stop(records[1..], target, flag)..] == records[Stop(records, target, flag)..];
    }
  }

  /** The lazy search in full, whether or not later records flag: it
      succeeds exactly when some record carries `target` and every record up
      to the first such one flags, and then yields that first record with
      its flag; it stops with StopIteration when no record carries `target`
      and all flag; and otherwise the first record that fails to flag, at or
      before the first carrier, gives the error. */
  lemma FirstWithVersionLazy(records: seq<Release>, target: string, flag: string -> Result<bool>)
    ensures FirstWithVersion(records, target, flag).Ok? <==>
      (target in UnpackVersions(records)
       && forall j :: 0 <= j <= IndexOf(UnpackVersions(records), target).value ==> flag(records[j].version).Ok?)
    ensures FirstWithVersion(records, target, flag).Ok? ==>
      var i := IndexOf(UnpackVersions(records), target).value;
      FirstWithVersion(records, target, flag).value ==
        Release(records[i].version, records[i].releaseDate, Some(flag(records[i].version).value))
    ensures target !in UnpackVersions(records) && (forall j :: 0 <= j < |records| ==> flag(records[j].version).Ok?) ==>
      FirstWithVersion(records, target, flag) == Err(NoMatchingRecord)
    ensures forall j :: (0 <= j < |records| && flag(records[j].version).Err? && target !in UnpackVersions(records)[..j]
      && forall m :: 0 <= m < j ==> flag(records[m].version).Ok?) ==>
      FirstWithVersion(records, target, flag) == Err(flag(records[j].version).error)
  {
    StopDecides(records, target, flag);
    LazyFound(records, target, flag);
    if target !in UnpackVersions(records) && (forall j :: 0 <= j < |records| ==> flag(records[j].version).Ok?) {
      LazyExhausted(records, target, flag);
    }
    forall j | (0 <= j < |records| && flag(records[j].version).Err? && target !in UnpackVersions(records)[..j]
        && forall m :: 0 <= m < j ==> flag(records[m].version).Ok?)
      ensures FirstWithVersion(records, target, flag) == Err(flag(records[j].version).error)
    {
      LazyFails(records, target, flag, j);
    }
  }

  /** Where the first carrier of `target` lies at or after the stop. */
  lemma LazyFound(records: seq<Release>, target: string, flag: string -> Result<bool>)
    ensures var n := Stop(records, target, flag);
      target in UnpackVersions(records) ==>
        && n <= IndexOf(UnpackVersions(records), target).value
        && ((n < |records| && flag(records[n].version).Ok?) <==>
            forall j :: 0 <= j <= IndexOf(UnpackVersions(records), target).value ==> flag(records[j].version).Ok?)
        && (n < |records| && flag(records[n].version).Ok? ==> n == IndexOf(UnpackVersions(records), target).value)
    ensures target !in UnpackVersions(records) ==>
      Stop(records, target, flag) < |records| ==> flag(records[Stop(records, target, flag)].version).Err?
  {
    var vs := UnpackVersions(records);
    var n := Stop(records, target, flag);
    if target in vs {
      var i := IndexOf(vs, target).value;
      if n < i { assert vs[n] in vs[..i]; }
    }
    if target !in vs && n < |records| {
      assert vs[n] in vs;
    }
  }

  lemma LazyExhausted(records: seq<Release>, target: string, flag: string -> Result<bool>)
    requires target !in UnpackVersions(records)
    requires forall j :: 0 <= j < |records| ==> flag(records[j].version).Ok?
    ensures Stop(records, target, flag) == |records|
  {
    LazyFound(records, target, flag);
  }

  lemma LazyFails(records: seq<Release>, target: string, flag: string -> Result<bool>, j: nat)
    requires j < |records| && flag(records[j].version).Err? && target !in UnpackVersions(records)[..j]
    requires forall m :: 0 <= m < j ==> flag(records[m].version).Ok?
    ensures Stop(records, target, flag) == j
  {
    var vs := UnpackVersions(records);
    assert forall m :: 0 <= m < j ==> vs[..j][m] == records[m].version;
  }

  /** `max_stable_version`: the last token of the second child of the
      download-buttons paragraph names the version, and the result is the
      first flagged record carrying it. */
  function MaxStableVersion(page: Page): (r: Result<Release>)
    ensures page.downloadButtons.None? ==> r == Err(MissingElement)
    ensures page.downloadButtons.Some? && |page.downloadButtons.value| < 2 ==> r == Err(IndexOutOfRange)
    ensures r.Ok? ==> page.downloadButtons.Some? && |page.downloadButtons.value| >= 2
                      && LastToken(page.downloadButtons.value[1]) == Ok(r.value.version)
  {
    match page.downloadButtons
    case None => Err(MissingElement)
    case Some(children) =>
      if |children| < 2 then Err(IndexOutOfRange)
      else
        var target :- LastToken(children[1]);
        var raw :- GetAllVersions(page);
        FirstWithVersion(raw, target, Deprecated(page))
  }

  /** The first record of `flagged` carrying `target`. */
  function FindVersion(flagged: seq<Release>, target: string): (r: Result<Release>)
  {
    if |flagged| == 0 then Err(NoMatchingRecord)
    else if flagged[0].version == target then Ok(flagged[0])
    else FindVersion(flagged[1..], target)
  }

  /** Stopping at the first match agrees with flagging every record first. */
  lemma {:induction false} FirstWithVersionAgrees(records: seq<Release>, target: string, flag: string -> Result<bool>,
                                                  flagged: seq<Release>)
    requires WithFlags(records, flag) == Ok(flagged)
    ensures FirstWithVersion(records, target, flag) == FindVersion(flagged, target)
  {
    if |records| > 0 {
      var rest := WithFlags(records[1..], flag).value;
      assert flagged == [flagged[0]] + rest;
      assert flagged[1..] == rest;
      FirstWithVersionAgrees(records[1..], target, flag, rest);
    }
  }

  /** The lookup yields the record at the first position of `target`, or
      StopIteration when no record carries it. */
  lemma {:induction false} FindVersionIndex(flagged: seq<Release>, target: string)
    ensures target in UnpackVersions(flagged) ==>
      FindVersion(flagged, target) == Ok(flagged[IndexOf(UnpackVersions(flagged), target).value])
    ensures target !in UnpackVersions(flagged) ==> FindVersion(flagged, target) == Err(NoMatchingRecord)
  {
    if |flagged| > 0 {
      var ws, rs := UnpackVersions(flagged), UnpackVersions(flagged[1..]);
      assert ws == [flagged[0].version] + rs;
      assert ws[1..] == rs;
      if flagged[0].version != target {
        FindVersionIndex(flagged[1..], target);
      }
    }
  }

  /** `max_stable_version` is the first record of `all_versions` whose
      version is the one the download button names. */
  lemma MaxStableIsFirstListed(page: Page, flagged: seq<Release>, target: string)
    requires AllVersions(page) == Ok(flagged)
    requires page.downloadButtons.Some? && |page.downloadButtons.value| >= 2
    requires LastToken(page.downloadButtons.value[1]) == Ok(target)
    ensures target in UnpackVersions(flagged) ==>
      MaxStableVersion(page) == Ok(flagged[IndexOf(UnpackVersions(flagged), target).value])
    ensures target !in UnpackVersions(flagged) ==> MaxStableVersion(page) == Err(NoMatchingRecord)
  {
    FirstWithVersionAgrees(GetAllVersions(page).value, target, Deprecated(page), flagged);
    FindVersionIndex(flagged, target);
  }

  // ---------------------------------------------------------------------
  // min_stable_version

  /** Key `i` is a least key and no earlier key is as small. */
  predicate IsFirstMinimum(keys: seq<seq<int>>, i: int) {
    && 0 <= i < |keys|
    && (forall j :: 0 <= j < |keys| ==> !LexLess(keys[j], keys[i]))
    && (forall j :: 0 <= j < i ==> LexLess(keys[i], keys[j]))
  }

  /** The candidate `next` with a smaller key than `best` becomes the new
      first least key of the keys up to and including it. */
  lemma NewMinimum(keys: seq<seq<int>>, best: nat, next: nat)
    requires best < next < |keys|
    requires forall j :: 0 <= j < next ==> !LexLess(keys[j], keys[best])
    requires LexLess(keys[next], keys[best])
    ensures forall j :: 0 <= j <= next ==> !LexLess(keys[j], keys[next])
    ensures forall j :: 0 <= j < next ==> LexLess(keys[next], keys[j])
  {
    LexLessIrreflexive(keys[next]);
    forall j | 0 <= j < next
      ensures !LexLess(keys[j], keys[next]) && LexLess(keys[next], keys[j])
    {
      if LexLess(keys[j], keys[next]) { LexLessTransitive(keys[j], keys[next], keys[best]); }
      LexLessTotal(keys[j], keys[next]);
    }
  }

  /** The loop of `min(..., key=...)` from position `next` on, `best` being
      the first least key before it: a key replaces the best only when it is
      strictly smaller. */
  function FirstMinimum(keys: seq<seq<int>>, best: nat, next: nat): (r: nat)
    requires best < next <= |keys|
    requires forall j :: 0 <= j < next ==> !LexLess(keys[j], keys[best])
    requires forall j :: 0 <= j < best ==> LexLess(keys[best], keys[j])
    ensures IsFirstMinimum(keys, r)
    decreases |keys| - next
  {
    if next == |keys| then best
    else if LexLess(keys[next], keys[best]) then
      NewMinimum(keys, best, next);
      FirstMinimum(keys, next, next + 1)
    else
      FirstMinimum(keys, best, next + 1)
  }

  /** The versions of the active rows. */
  function ActiveVersionStrings(rows: seq<Active>): (r: seq<string>)
    ensures |r| == |rows| && forall j :: 0 <= j < |rows| ==> r[j] == rows[j].version
  {
    seq(|rows|, j requires 0 <= j < |rows| => rows[j].version)
  }

  /** The keys of the active rows' versions (empty where `parse` fails). */
  function RowKeys(rows: seq<Active>, parse: string -> Result<seq<int>>): (r: seq<seq<int>>)
    ensures |r| == |rows|
    ensures forall j :: 0 <= j < |rows| && parse(rows[j].version).Ok? ==> r[j] == parse(rows[j].version).value
  {
    seq(|rows|, j requires 0 <= j < |rows| => var k := parse(rows[j].version); if k.Ok? then k.value else [])
  }

  /** `min(rows, key=lambda r: parse(r.version))`: the first row with the
      least key; ValueError on no rows, and otherwise the first row whose
      key fails is the error (`min` computes each key before comparing it,
      and comparisons do not fail). */
  function MinByKey(rows: seq<Active>, parse: string -> Result<seq<int>>): (r: Result<Active>)
    ensures |rows| == 0 ==> r == Err(EmptySequence)
    ensures r.Ok? <==> (|rows| > 0 && forall j :: 0 <= j < |rows| ==> parse(rows[j].version).Ok?)
    ensures r.Ok? ==> exists i :: IsFirstMinimum(RowKeys(rows, parse), i) && r.value == rows[i]
    ensures r.Err? && |rows| > 0 ==>
      exists j :: (0 <= j < |rows| && parse(rows[j].version) == Err(r.error)
        && forall m :: 0 <= m < j ==> parse(rows[m].version).Ok?)
  {
    if |rows| == 0 then Err(EmptySequence)
    else
      var versions := ActiveVersionStrings(rows);
      var _ :- CheckKeys(versions, parse);
      var keys := RowKeys(rows, parse);
      LexLessIrreflexive(keys[0]);
      var i := FirstMinimum(keys, 0, 1);
      Ok(rows[i])
  }

  /** `min_stable_version`: the active row with the least tuple. */
  function MinStableVersion(page: Page): (r: Result<Active>)
    ensures |ActiveVersions(page)| == 0 ==> r == Err(EmptySequence)
    ensures r.Ok? <==> (|ActiveVersions(page)| > 0
      && forall j :: 0 <= j < |ActiveVersions(page)| ==> Str2Tuple(ActiveVersions(page)[j].version).Ok?)
    ensures r.Ok? ==> exists i :: IsFirstMinimum(RowKeys(ActiveVersions(page), Str2Tuple), i)
                                  && r.value == ActiveVersions(page)[i]
  {
    MinByKey(ActiveVersions(page), Str2Tuple)
  }

  /** Where the active table's last row is also its first least row, as it
      is when the table lists the newest version first, the last active
      version is the oldest: no active version has a smaller tuple. */
  lemma LastRowOldest(page: Page)
    requires MinStableVersion(page).Ok?
    requires MinStableVersion(page).value == ActiveVersions(page)[|ActiveVersions(page)| - 1]
    ensures forall j :: 0 <= j < |ActiveVersions(page)| ==>
      LexLe(Key(LastActive(page)), Key(ActiveVersions(page)[j].version))
  {
    var rows := ActiveVersions(page);
    var keys := RowKeys(rows, Str2Tuple);
    var i :| IsFirstMinimum(keys, i) && MinStableVersion(page).value == rows[i];
    assert keys[i] == Key(LastActive(page));
    forall j | 0 <= j < |rows| ensures LexLe(keys[i], Key(rows[j].version)) {
      assert keys[j] == Key(rows[j].version);
      LexLessTotal(keys[i], keys[j]);
    }
  }
}
