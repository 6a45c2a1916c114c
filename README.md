# PyVersionTracker version logic in Dafny

This project models the version-handling core of PyVersionTracker. The
tracker scrapes the python.org downloads page and answers questions about
Python releases:

- which versions exist;
- which are active, and the least of these;
- which is the newest stable release;
- which are no longer supported, and whether a given version is deprecated;
- which versions lie on either side of a target;
- whether the running interpreter is recent enough.

The page enters the model as plain data (`Extract.Page`): one sequence of
cell texts per CSS class, the table header first, which is what the HTML
layer delivers. The download-buttons paragraph is a list of child texts, or
None when the element is missing. Each operation that can raise returns a
`Result` whose `Error` names the exception kind (`Errors.Error`).

Modules:

- `Errors`: the error kinds, with `Option` and `Result`.
- `PyText`: the Python string built-ins the tracker uses:
  - `str.split()` with Python's whitespace set, and its last token;
  - `str.split('.')` and `'.'.join`;
  - base-10 `int()` with the whitespace it skips (sign, underscores between digits), and `str(int)`.
- `VersionTuple`: tuple conversion (`str2tuple`, `tuple2str`), the two
  validator patterns, and Python's lexicographic tuple order. A proper
  prefix compares smaller in that order.
- `Extract`: header removal, the zipped record columns, and version unpacking.
- `VersionSort`: `sorted(..., key=str2tuple)` as a stable insertion sort,
  proved sorted and a permutation. It also holds `list.index` and what
  precedes the first occurrence of a version in the sorted list.
- `Tracker`:
  - the escaped-alternation matcher;
  - `_validate_version` and `is_version`, which are mutually recursive to depth one;
  - `_unsupported_v`, `is_deprecated`, `all_versions`;
  - `max_stable_version`, `min_stable_version`.
- `Queries`: `version_range` and `version_checker`.

Records are processed in page order, and the first exception the lazy
evaluation would meet is the result. Several points of the code's behaviour are stated as lemmas:

- **Arity errors are not re-wrapped.** `PyVersionException` derives from
  `BaseException`, not `ValueError`. So the wrong-arity error raised inside
  `_convert_tuple` is not caught by the `except ValueError` there, and it
  escapes as its own error (`InvalidTupleLength`). The "cannot be
  interpreted" error (`NotInterpretable`) comes only from `int()`. Read as
  a `ValueError`, the arity error would have been re-wrapped; the model
  follows the class hierarchy the code declares (line 20).
- **Unassigned result in `_validate_version`.** An input that `str2tuple`
  reads as three integers but that is not X.Y.Z reaches `return version`
  with the local unassigned (`UnboundVersion`). Examples are " 3.8.1" and
  "+3.8.1".
- **X.Y input to `is_version`.** `is_version` matches the listed versions
  against the raw input rather than its validated X.Y.0 form. So an X.Y
  input is never reported as a version (`Tracker.TwoPartIsNeverVersion`).
- **Prefix shadowing.** A listed version that is a prefix of a later one
  shadows it (`Tracker.PrefixShadowsLongerVersion`).

## Model

| member | source | states |
|---|---|---|
| PyText.LastToken | src/py_version_tracker/py_version_tracker.py:176 | `cell.split()[-1]`: fails (IndexError) exactly when the cell is all whitespace; otherwise the result is a maximal non-whitespace run with only whitespace after it |
| PyText.LastTokenUnique | src/py_version_tracker/py_version_tracker.py:176 | the last whitespace-separated token is unique: any two positions that delimit it coincide |
| PyText.SplitDot | src/py_version_tracker/py_version_tracker.py:328 | `s.split('.')` yields at least one piece and no piece contains a dot |
| PyText.JoinDot | src/py_version_tracker/py_version_tracker.py:326 | `'.'.join(parts)`: the parts in order with one dot between neighbours; `PyText.JoinSplitDot` states that it undoes `str.split('.')` |
| PyText.JoinSplitDot | src/py_version_tracker/py_version_tracker.py:326 | joining the pieces of a split with '.' gives back the string |
| PyText.SplitJoinDot | src/py_version_tracker/py_version_tracker.py:326 | splitting a '.'-join of dot-free pieces gives back the pieces |
| PyText.IntStrip | src/py_version_tracker/py_version_tracker.py:328 | the text `int()` reads is the input with a run of leading and a run of trailing `int()` whitespace removed (ASCII whitespace and non-ASCII `str.isspace()` characters), and neither starts nor ends with such whitespace; a string without it is unchanged |
| PyText.PyInt | src/py_version_tracker/py_version_tracker.py:328 | `int(piece)` succeeds exactly when the piece, without the whitespace `int()` skips, is an optional sign followed by digit groups joined by single underscores, and its value is the decimal value of those digits, negated after a minus sign |
| PyText.UnderscoresIgnored | src/py_version_tracker/py_version_tracker.py:328 | the underscores `int()` allows between digits do not change the value: it is the value of the digits alone, which form a plain numeral |
| PyText.SeparatorBreaksInt | src/py_version_tracker/py_version_tracker.py:328 | U+001C is whitespace to `str.split()` but not to `int()`, so `int("\x1c3")` raises ValueError |
| PyText.NegatedDigitsAreInt | src/py_version_tracker/py_version_tracker.py:345-347 | `int` reads a minus sign followed by ASCII digits as the negated decimal value |
| PyText.IntToStringRoundTrip | src/py_version_tracker/py_version_tracker.py:345-347 | `int(str(n)) == n` for every integer |
| VersionTuple.LexLessIrreflexive | src/py_version_tracker/py_version_tracker.py:442 | no tuple is below itself |
| VersionTuple.LexLess | src/py_version_tracker/py_version_tracker.py:379 | Python's `<` on tuples of integers: the first differing component decides and a proper prefix is smaller; the lemmas below prove it a strict total order |
| VersionTuple.LexLe | src/py_version_tracker/py_version_tracker.py:442 | Python's `<=` on tuples: below or equal |
| VersionTuple.LexLessTransitive | src/py_version_tracker/py_version_tracker.py:442 | tuple `<` is transitive |
| VersionTuple.LexLessTotal | src/py_version_tracker/py_version_tracker.py:379 | any two tuples are equal or one is below the other |
| VersionTuple.LexLessAsymmetric | src/py_version_tracker/py_version_tracker.py:442 | tuple `<` is asymmetric |
| VersionTuple.AppendZero | src/py_version_tracker/py_version_tracker.py:230-231 | an X.Y string with ".0" appended is X.Y.Z and no longer X.Y, its pieces being those of X.Y plus "0" |
| VersionTuple.ParseAll | src/py_version_tracker/py_version_tracker.py:328 | `map(int, pieces)` succeeds exactly when every piece is an integer, and yields each piece's value in order |
| VersionTuple.Str2Tuple | src/py_version_tracker/py_version_tracker.py:323-339 | succeeds exactly when every piece is an integer and there are 2 or 3 pieces, yielding their values; a non-integer piece gives the cannot-be-interpreted error, and a wrong arity gives its own error, which is not re-wrapped |
| VersionTuple.XYZShape | src/py_version_tracker/py_version_tracker.py:228 | a string satisfies the X.Y.Z pattern exactly when it is three runs of ASCII digits joined by dots |
| VersionTuple.XYShape | src/py_version_tracker/py_version_tracker.py:230 | a string satisfies the X.Y pattern exactly when it is two runs of ASCII digits joined by a dot |
| VersionTuple.PatternValues | src/py_version_tracker/py_version_tracker.py:228-233 | a string matching either pattern reads as the decimal values of its pieces |
| VersionTuple.PatternTuple | src/py_version_tracker/py_version_tracker.py:228-233 | whatever matches X.Y.Z or X.Y has a tuple of 3 or 2 components, each the decimal value of its digits |
| VersionTuple.Tuple2StrAsWritten | src/py_version_tracker/py_version_tracker.py:325-326 | `tuple2str` as written never returns: TypeError from the join when every piece is an integer, the cannot-be-interpreted error otherwise |
| VersionTuple.Tuple2Str | src/py_version_tracker/py_version_tracker.py:345-347 | the intended `tuple2str` succeeds exactly where `str2tuple` does, fails with the same error, and its result reads back as the same tuple |
| VersionTuple.FormatTupleRoundTrip | src/py_version_tracker/py_version_tracker.py:345-347 | `str2tuple(tuple2str(t)) == t` for every two- or three-component tuple |
| VersionTuple.CanonicalVersionRoundTrip | src/py_version_tracker/py_version_tracker.py:345-347 | on versions written without superfluous leading zeros, the intended `tuple2str` is the identity |
| VersionSort.NumericOrder | src/py_version_tracker/py_version_tracker.py:379 | versions matching either pattern sort by the integer values of their pieces, compared component by component, whatever their number of digits |
| VersionSort.MinorOrder | src/py_version_tracker/py_version_tracker.py:379 | two X.Y versions with the same major value sort by the integer value of their minor pieces |
| VersionTuple.TwoDigitMinorSortsLater | src/py_version_tracker/py_version_tracker.py:379 | "3.9" reads as (3, 9) and "3.10" as (3, 10), and the tuple order puts 3.9 first |
| Extract.DefaultSlicer | src/py_version_tracker/py_version_tracker.py:127-129 | every column loses exactly its first (header) cell, the rest kept in order |
| Extract.LastTokens | src/py_version_tracker/py_version_tracker.py:176 | the eager comprehension succeeds exactly when every cell has a token, and then holds each cell's last token |
| Extract.GetAllVersions | src/py_version_tracker/py_version_tracker.py:174-178 | fails (IndexError) exactly when a release-number cell after the header is blank; otherwise there are as many records as the shorter column has rows after its header, each record's version is the last token of its release-number cell and its date the matching release-date cell |
| Extract.ActiveVersions | src/py_version_tracker/py_version_tracker.py:180-200 | as many rows as the shortest of the five columns has after its header, row i built from cell i+1 of each column |
| Extract.UnpackVersions | src/py_version_tracker/py_version_tracker.py:289-302 | the version of each record, in order |
| VersionSort.CheckKeys | src/py_version_tracker/py_version_tracker.py:379 | the keys of a sort are all computed: success exactly when every version has a tuple, and otherwise the error of the first that has none |
| VersionSort.SortedByTuple | src/py_version_tracker/py_version_tracker.py:379 | `sorted(vs, key=str2tuple)` succeeds exactly when every version has a tuple, and then is in non-decreasing tuple order and a permutation of its input |
| VersionSort.SortIsSortedPermutation | src/py_version_tracker/py_version_tracker.py:379 | the insertion sort yields a sorted permutation of its input |
| VersionSort.IndexOf | src/py_version_tracker/py_version_tracker.py:380 | `list.index`: found exactly when present, at a position holding the value with no earlier occurrence |
| VersionSort.Before | src/py_version_tracker/py_version_tracker.py:380 | `versions[:versions.index(v)]`: a proper prefix of the list that is followed by `v` and does not contain it |
| VersionSort.SortBefore | src/py_version_tracker/py_version_tracker.py:379-380 | what precedes the first `v` of the stably sorted list is every listed version with a smaller tuple, and those with an equal tuple that come before the first `v` in the input |
| Tracker.FirstPrefix | src/py_version_tracker/py_version_tracker.py:57-63 | the alternation tries its alternatives left to right: the first that matches the start of the input wins, and none matches only when no alternative is a prefix |
| Tracker.Compiler | src/py_version_tracker/py_version_tracker.py:50-66 | the match of the escaped alternation at the start of the input, ignoring case: the text matched by the first alternative that is a prefix, nothing when none is, and "" for an empty alternation |
| Tracker.AllVersionStrings | src/py_version_tracker/py_version_tracker.py:255 | the listed version strings, available exactly when the records can be read |
| Tracker.Validate | src/py_version_tracker/py_version_tracker.py:227-240 | X.Y.Z is returned unchanged; a result is always X.Y.Z, either the input or X.Y with ".0" appended; every other input fails, with the `str2tuple` error, with the unassigned-local error for a three-part tuple, or with the invalid-format error |
| Tracker.ValidateTwoPart | src/py_version_tracker/py_version_tracker.py:230-232 | an X.Y input validates exactly when `is_version(X.Y.0)` returns, and fails with its error otherwise |
| Tracker.ValidateIdempotent | src/py_version_tracker/py_version_tracker.py:227-240 | validating a validated version gives it back |
| Tracker.IsVersion | src/py_version_tracker/py_version_tracker.py:255-265 | fails when the records cannot be read or the input does not validate, with that error |
| Tracker.IsVersionCases | src/py_version_tracker/py_version_tracker.py:255-265 | with an empty list the answer is false; the out-of-range error comes exactly when no listed version is a case-insensitive prefix of the input; otherwise the answer is whether the text matched by the first such version equals the validated input |
| Tracker.IsVersionTrue | src/py_version_tracker/py_version_tracker.py:257-263 | a true answer means the input is X.Y.Z and the first matching listed version covers the whole input |
| Tracker.TwoPartIsNeverVersion | src/py_version_tracker/py_version_tracker.py:256-263 | an X.Y input is never answered true |
| Tracker.ListedVersionIsInRange | src/py_version_tracker/py_version_tracker.py:255-265 | a listed X.Y.Z version never draws the out-of-range error |
| Tracker.ListedTwoPartValidates | src/py_version_tracker/py_version_tracker.py:230-231 | X.Y validates to X.Y.0 when X.Y.0 is listed |
| Tracker.PrefixShadowsLongerVersion | src/py_version_tracker/py_version_tracker.py:257-263 | with "3.8.1" listed before "3.8.10", `is_version("3.8.10")` is false |
| Tracker.KeepListed | src/py_version_tracker/py_version_tracker.py:381-382 | the filter keeps, in page order, exactly the records whose version is in the list, every copy of each |
| Tracker.UnsupportedV | src/py_version_tracker/py_version_tracker.py:371-382 | with the all flag, the records as they are; otherwise a subsequence of them in page order, produced only when the records can be read |
| Tracker.UnsupportedVersions | src/py_version_tracker/py_version_tracker.py:374-395 | the unsupported versions exist exactly when the validated last active version is listed (ValueError otherwise); they are the records whose version sorts before its first occurrence; none has a larger tuple, and the last active version is not among them |
| Tracker.IsDeprecated | src/py_version_tracker/py_version_tracker.py:280-287 | an answer means the input validated, the unsupported versions were computed, and the validated version is listed |
| Tracker.Deprecation | src/py_version_tracker/py_version_tracker.py:280-287 | a validated version is answered exactly when it is listed (the out-of-range error otherwise), and it is deprecated exactly when it sorts before the last active version |
| Tracker.NothingAboveLastUnsupported | src/py_version_tracker/py_version_tracker.py:376-382 | no unsupported version has a larger tuple than the validated last active version, so no active version above it is unsupported |
| Tracker.LastActive | src/py_version_tracker/py_version_tracker.py:377-378 | `active_versions.pop()`: the version of the last row of the active table |
| Tracker.LastActiveNotDeprecated | src/py_version_tracker/py_version_tracker.py:378-380 | the last active version is not deprecated |
| Tracker.WithFlags | src/py_version_tracker/py_version_tracker.py:159 | every record of the input, in order, with `deprecated` set to the flag of its version (`is_deprecated` in `all_versions`); fails exactly when some call fails, with the first failing call's error |
| Tracker.AllVersions | src/py_version_tracker/py_version_tracker.py:162-172 | fails with IndexError when the records cannot be read, succeeds exactly when `is_deprecated` answers for every record's version, and then holds every record, in order, with its flag |
| Tracker.AllVersionsFlags | src/py_version_tracker/py_version_tracker.py:162-172 | on a page whose versions are X.Y.Z and whose last active version is listed, `all_versions` succeeds and flags exactly the versions that sort before the last active one |
| Tracker.FirstWithVersion | src/py_version_tracker/py_version_tracker.py:135-136 | a found record carries the target version |
| Tracker.StopDecides | src/py_version_tracker/py_version_tracker.py:135-136 | the lazy search is decided by the first record that carries the target or fails to flag: StopIteration when there is none, that record's flag error, or that record with its flag |
| Tracker.FirstWithVersionLazy | src/py_version_tracker/py_version_tracker.py:135-136 | the lazy search succeeds exactly when some record carries the target and every record up to the first such one flags, later records unflagged; it yields that first record with its flag; it raises StopIteration when no record carries the target and all flag, and otherwise the error of the first record that fails to flag, at or before the first carrier |
| Tracker.FirstWithVersionAgrees | src/py_version_tracker/py_version_tracker.py:135-136 | flagging lazily and stopping at the first match gives the same result as searching the records after flagging them all |
| Tracker.FindVersionIndex | src/py_version_tracker/py_version_tracker.py:135-136 | the search yields the record at the first position of the target in the version list, or StopIteration when the target is absent |
| Tracker.MaxStableVersion | src/py_version_tracker/py_version_tracker.py:131-136 | a missing element and a paragraph with fewer than two children fail; a result carries the last token of the second child |
| Tracker.MaxStableIsFirstListed | src/py_version_tracker/py_version_tracker.py:131-136 | `max_stable_version` is the first record of `all_versions` carrying the named version, or StopIteration when there is none |
| Tracker.FirstMinimum | src/py_version_tracker/py_version_tracker.py:140-141 | the scan of `min` ends on a least key with no earlier key as small |
| Tracker.MinStableVersion | src/py_version_tracker/py_version_tracker.py:138-141 | `min_stable_version`: ValueError for an empty active table; it succeeds exactly when every active version has a tuple, and yields the first active row with the least tuple |
| Tracker.LastRowOldest | src/py_version_tracker/py_version_tracker.py:138-141 | when the last active row is also the first least one, no active version has a smaller tuple than the last active version |
| Tracker.MinByKey | src/py_version_tracker/py_version_tracker.py:138-141 | `min` of the rows by the key of their version (`str2tuple` in `min_stable_version`): ValueError for no rows; otherwise it fails exactly when some key fails (the first one's error), and yields the first row with the least key |
| Queries.RangeTarget | src/py_version_tracker/py_version_tracker.py:363-364 | a present non-empty target is used as given; an absent or empty one is the minimum stable version |
| Queries.InRange | src/py_version_tracker/py_version_tracker.py:367 | `operator.ge(key, target)` when `above`, else `operator.le(key, target)`, on Python's tuple order |
| Queries.KeepInRange | src/py_version_tracker/py_version_tracker.py:367-369 | the records, in order, whose key is at least (`above`) or at most the target, every copy of each |
| Queries.RangeFilter | src/py_version_tracker/py_version_tracker.py:368-369 | the generator expression consumed in order: each record is flagged, then its version read as a tuple and compared with the target; the first failure ends it. `Queries.RangeFilterOutcome` states its outcome |
| Queries.RangeFilterOutcome | src/py_version_tracker/py_version_tracker.py:368-369 | the generator runs to the end exactly when every record flags and has a tuple, and yields the flagged records on the requested side |
| Queries.VersionRange | src/py_version_tracker/py_version_tracker.py:363-369 | a result is the records of `all_versions`, in order, whose tuple is on the requested side of the validated target's tuple, inclusive; it arises only when every record's version has a tuple |
| Queries.RangeFilterRuns | src/py_version_tracker/py_version_tracker.py:368-369 | when every record flags and every flagged version has a tuple, the generator yields exactly the flagged records in range |
| Queries.VersionRangeSelects | src/py_version_tracker/py_version_tracker.py:363-369 | once the target validates and `all_versions` succeeds with versions that all have tuples, `version_range` succeeds with exactly that selection |
| Queries.RangesCover | src/py_version_tracker/py_version_tracker.py:367 | the two sides together hold every record, and a record whose tuple equals the target is on both |
| Queries.VersionRangeAsWritten | src/py_version_tracker/py_version_tracker.py:363-366 | `version_range` as written never succeeds; once the target validates it fails with TypeError |
| Queries.DefaultMinimum | src/py_version_tracker/py_version_tracker.py:437-438 | a given minimum is used as given; None means the minimum stable version |
| Queries.VersionChecker | src/py_version_tracker/py_version_tracker.py:434-450 | the only answer ever returned is true |
| Queries.VersionCheckerDecides | src/py_version_tracker/py_version_tracker.py:441-450 | once the minimum validates, the check fails exactly when the running version's tuple is below the minimum's; a running version without a tuple fails with the `str2tuple` error |
| Queries.ImportTimeGate | src/py_version_tracker/py_version_tracker.py:452 | with 3.8.0 listed, the check against "3.8" fails exactly for running versions below (3, 8, 0) |
| Queries.CheckerRejectsOlder | src/py_version_tracker/py_version_tracker.py:442-448 | 3.7.0 falls short of a 3.8.0 minimum on any page |
| Queries.CheckerAcceptsNewer | src/py_version_tracker/py_version_tracker.py:442-450 | 3.11.0 meets a 3.8.0 minimum on any page |

## Left out

- Network fetch (`_request_py`, lines 70-95): I/O and async. Each query reads a given `Page`, and every fetch of one query is assumed to return the same page.
- HTML parsing (`_parse_py`, `_soupify`, `_clean_page`, lines 98-125): a foreign library. Its output is the `Page` columns.
- Memoisation (`@cache`, `@cached_property`): caching is out. So is the one-shot consumption of a cached generator that a later access would see; for example, `max_stable_version` consumes part of `all_versions`. Each query is computed from fresh sequences.
- `package_tracker` (lines 397-414): a dynamic pass-through to the pypistats API.
- `platform._sys_version` (line 440) and the `sys.version` default (lines 434-435): a foreign parser. `Queries.VersionChecker` takes the already-extracted version string.
- The import-time call (line 452) and the module's `print`: side effects with network access. Line 452 is stated only as `Queries.ImportTimeGate` over a given page.
- Tracker.Compiler: models only the mode the callers use (alternation joined by `|`, input not escaped, match at the start). The `escape_k=True`, `search=True` and `escape_default=False` modes are not modelled.
- Tracker.Compiler: IGNORECASE folds ASCII letters only; Python also folds non-ASCII letters.
- VersionTuple.IsXYZ / IsXY: `\d` is ASCII digits only; Python's `\d` also accepts other Unicode decimal digits. `$` is exact end of string; Python's `$` also matches before one trailing newline.
- PyText.PyInt: only ASCII digits; Python's `int()` also accepts other Unicode decimal digits.
- PyText.PyInt: does not model the limit on the number of digits that CPython places on `int()` of a string (4300 by default, since 3.11 and in the 3.10.7, 3.9.14 and 3.8.14 security releases); longer numerals raise ValueError there but read as their value here.
- Tracker.UnsupportedVersions: the unsupported versions are those before the LAST row of the active table, as the code computes them (`active_versions.pop()`, line 378). That row is the oldest active version only when the table lists the newest version first, and the model does not assume any order of the table. `Tracker.LastRowOldest` states when it is the oldest, and `Tracker.NothingAboveLastUnsupported` states that nothing above it is unsupported. The model does not claim that no active version is unsupported for an arbitrary table.
- Queries.VersionRange: returns a generator, which the model treats as fully consumed: the result is the whole list it would yield, or the first exception met on the way. A caller that stops early, and so never meets a later exception, is not modelled.
- Tracker.AllVersions: a generator as well, modelled as fully consumed in the same way. A consumer that stops early never meets a later record's error.
- Error messages: only the kind of each exception and the offending input are modelled, not its text.
- Tracker.MinByKey: computes every key before comparing any. Comparisons cannot fail, so the outcome and the error are those of `min`'s interleaved loop.
- `setup.py`: packaging metadata only.

## Findings

| source | as written | input that shows it | evidently intended | confidence | as-written member | corrected member |
|---|---|---|---|---|---|---|
| src/py_version_tracker/py_version_tracker.py:326 | `tuple2str` hands the integers from `int()` to `str.join`, which raises TypeError; the surrounding handler catches only ValueError. Had the join succeeded, the arity check on line 330 would count the characters of the joined string, not its pieces | "3.8.0" | read the pieces as integers and write them back as a dotted string, checking the number of dot-separated pieces (2 or 3), as `VersionTuple.Tuple2Str` does through `str2tuple` | high; not executed | VersionTuple.Tuple2StrAsWritten | VersionTuple.Tuple2Str |
| src/py_version_tracker/py_version_tracker.py:366-369 | `version_range` computes its target with `tuple2str`, so it raises before any record is compared | any page, target "3.8.0" | compare integer tuples (the annotation on line 366 names a tuple of integers), the target included on both sides | high; not executed | Queries.VersionRangeAsWritten | Queries.VersionRange |
