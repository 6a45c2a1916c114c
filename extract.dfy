/** Column extraction: the scraped page as plain cell texts, and the records
    the tracker zips out of them. Fetching and HTML parsing are not part of
    this model; a `Page` holds what they deliver. */
module Extract {
  import opened Errors
  import opened PyText

  /** What `_clean_page` returns for each CSS class of the downloads page: the
      stripped text of every `<span>` of that class, in document order, the
      table's header cell first. `downloadButtons` holds the stripped texts of
      the children of the first `<p class="download-buttons">`, or None when
      the page has no such element. */
  datatype Page = Page(
    releaseNumber: seq<string>,
    releaseDate: seq<string>,
    releaseVersion: seq<string>,
    releaseStatus: seq<string>,
    releaseStart: seq<string>,
    releaseEnd: seq<string>,
    releasePep: seq<string>,
    downloadButtons: Option<seq<string>>)

  /** The `PyVersion` named tuple; `deprecated` is None unless it was asked for. */
  datatype Release = Release(version: string, releaseDate: string, deprecated: Option<bool>)

  /** The `PyActive` named tuple: one row of the active-versions table. */
  datatype Active = Active(version: string, status: string, start: string, end: string, schedule: string)

  function Min(a: nat, b: nat): nat { if a < b then a else b }

  /** Data rows in a column of `n` cells, the first being the header. */
  function Rows(n: nat): nat { if n == 0 then 0 else n - 1 }

  /** `column[_default_slicer()]`, i.e. `column[1:]`: the column without its header cell. */
  function DefaultSlicer<T>(column: seq<T>): (r: seq<T>)
    ensures |r| == Rows(|column|)
    ensures forall i :: 0 <= i < |r| ==> r[i] == column[i + 1]
  {
    if |column| == 0 then [] else column[1..]
  }

  /** `[c.split()[-1] for c in cells]`: eager, so any cell without a token raises. */
  function LastTokens(cells: seq<string>): (r: Result<seq<string>>)
    ensures r.Ok? <==> forall i :: 0 <= i < |cells| ==> LastToken(cells[i]).Ok?
    ensures r.Ok? ==> |r.value| == |cells|
    ensures r.Ok? ==> forall i :: 0 <= i < |cells| ==> LastToken(cells[i]) == Ok(r.value[i])
    ensures r.Err? ==> r.error == IndexOutOfRange
  {
    if |cells| == 0 then Ok([])
    else
      assert forall i :: 1 <= i < |cells| ==> cells[1..][i - 1] == cells[i];
      var t :- LastToken(cells[0]);
      var ts :- LastTokens(cells[1..]);
      Ok([t] + ts)
  }

  /** `_get_all_versions()`: the release-number and release-date columns
      without their headers, the version being the last token of each
      release-number cell, zipped into records (truncated to the shorter
      column) with no deprecation information. */
  function GetAllVersions(page: Page): (r: Result<seq<Release>>)
    ensures r.Ok? <==> forall i :: 1 <= i < |page.releaseNumber| ==> LastToken(page.releaseNumber[i]).Ok?
    ensures r.Err? ==> r.error == IndexOutOfRange
    ensures r.Ok? ==> |r.value| == Rows(Min(|page.releaseNumber|, |page.releaseDate|))
    ensures r.Ok? ==> forall i :: 0 <= i < |r.value| ==>
      && LastToken(page.releaseNumber[i + 1]) == Ok(r.value[i].version)
      && r.value[i].releaseDate == page.releaseDate[i + 1]
      && r.value[i].deprecated == None
  {
    var numberCells := DefaultSlicer(page.releaseNumber);
    assert forall i :: 1 <= i < |page.releaseNumber| ==> numberCells[i - 1] == page.releaseNumber[i];
    var numbers :- LastTokens(numberCells);
    var dates := DefaultSlicer(page.releaseDate);
    var n := Min(|numbers|, |dates|);
    Ok(seq(n, i requires 0 <= i < n => Release(numbers[i], dates[i], None)))
  }

  /** `active_versions`: the five active-table columns without their headers,
      zipped into rows (truncated to the shortest column). */
  function ActiveVersions(page: Page): (r: seq<Active>)
    ensures |r| == Rows(Min(Min(Min(Min(|page.releaseVersion|, |page.releaseStatus|),
                                    |page.releaseStart|), |page.releaseEnd|), |page.releasePep|))
    ensures forall i :: 0 <= i < |r| ==>
      r[i] == Active(page.releaseVersion[i + 1], page.releaseStatus[i + 1], page.releaseStart[i + 1],
                     page.releaseEnd[i + 1], page.releasePep[i + 1])
  {
    var v, st, b, e, p := DefaultSlicer(page.releaseVersion), DefaultSlicer(page.releaseStatus),
      DefaultSlicer(page.releaseStart), DefaultSlicer(page.releaseEnd), DefaultSlicer(page.releasePep);
    var n := Min(Min(Min(Min(|v|, |st|), |b|), |e|), |p|);
    seq(n, i requires 0 <= i < n => Active(v[i], st[i], b[i], e[i], p[i]))
  }

  /** `_unpack_versions`: the version field of each record, in order. */
  function UnpackVersions(records: seq<Release>): (r: seq<string>)
    ensures |r| == |records|
    ensures forall i :: 0 <= i < |r| ==> r[i] == records[i].version
  {
    seq(|records|, i requires 0 <= i < |records| => records[i].version)
  }
}
