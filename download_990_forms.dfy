/**
 * download_990_forms.py: for each configured EIN, download the PDF of every
 * usable filing whose tax year lies in the configured range into the EIN's
 * folder, skipping files that already exist.
 */
module Download990Forms {
  import opened Wrappers
  import opened Text
  import opened JsonValues
  import opened ProPublica
  import opened LocalFiles

  /** The configured EINs, processed by `RunConfigured`. */
  const EIN_LIST: seq<string> := ["010215213"]
  const START_YEAR := 2000
  const END_YEAR := 2018
  const UNKNOWN := "Unknown"

  /** `filing.get('formtype_str', 'Unknown')`. */
  function Label(f: Filing): string {
    f.formType.GetOr(UNKNOWN)
  }

  /**
   * The form type guessed from the URL: only a formLabel that is exactly
   * 'Unknown' is replaced, by the first of `_990_`, `_990EZ_`, `_990PF_` the
   * URL contains; with none of them it stays 'Unknown'.
   */
  function InferFormType(formLabel: string, pdfUrl: string): (t: string)
    ensures formLabel != UNKNOWN ==> t == formLabel
    ensures formLabel == UNKNOWN && (pdfUrl == "" || !(Contains(pdfUrl, "_990_") || Contains(pdfUrl, "_990EZ_") || Contains(pdfUrl, "_990PF_")))
      ==> t == UNKNOWN
    ensures formLabel == UNKNOWN && pdfUrl != "" && Contains(pdfUrl, "_990_") ==> t == "990"
    ensures formLabel == UNKNOWN && pdfUrl != "" && !Contains(pdfUrl, "_990_") && Contains(pdfUrl, "_990EZ_") ==> t == "990EZ"
    ensures (formLabel == UNKNOWN && pdfUrl != "" && !Contains(pdfUrl, "_990_") && !Contains(pdfUrl, "_990EZ_") &&
             Contains(pdfUrl, "_990PF_")) ==> t == "990PF"
  {
    if formLabel == UNKNOWN && pdfUrl != "" then
      if Contains(pdfUrl, "_990_") then "990"
      else if Contains(pdfUrl, "_990EZ_") then "990EZ"
      else if Contains(pdfUrl, "_990PF_") then "990PF"
      else formLabel
    else formLabel
  }

  /** The form type as it goes into the file name: inferred, then every `/` made `_`. */
  function FormType(f: Filing): (t: string)
    ensures '/' !in t
    ensures |t| == |InferFormType(Label(f), f.pdfUrl)|
  {
    ReplaceChar(InferFormType(Label(f), f.pdfUrl), '/', '_')
  }

  /** `{year}_Form{type}`, then `_{tax_prd_id}` only when the id is truthy, then `.pdf`. */
  function FileName(year: int, formType: string, filingId: Scalar): string {
    var stem := IntToString(year) + "_Form" + formType;
    (if Truthy(filingId) then stem + "_" + Format(filingId) else stem) + ".pdf"
  }

  /** A file name starts with the year and the form type and ends in `.pdf`;
      between them stands `_{id}` when the filing id is truthy, and nothing otherwise. */
  lemma FileNameShape(year: int, formType: string, filingId: Scalar)
    ensures EndsWith(FileName(year, formType, filingId), ".pdf")
    ensures var stem := IntToString(year) + "_Form" + formType;
      |stem| <= |FileName(year, formType, filingId)| && FileName(year, formType, filingId)[..|stem|] == stem
    ensures var stem := IntToString(year) + "_Form" + formType;
      var name := FileName(year, formType, filingId);
      |stem| + 4 <= |name| &&
      name[|stem|..|name| - 4] == if Truthy(filingId) then "_" + Format(filingId) else ""
  {
    var name := FileName(year, formType, filingId);
    var stem := IntToString(year) + "_Form" + formType;
    var withId := if Truthy(filingId) then stem + "_" + Format(filingId) else stem;
    assert name == withId + ".pdf";
    assert name[|name| - 4..] == ".pdf";
    assert name[..|stem|] == withId[..|stem|] == stem;
    assert name[|stem|..|name| - 4] == withId[|stem|..];
  }

  /** A file name has no `/` (it names a file inside the EIN's folder) when
      neither the form type nor the id has one. */
  lemma FileNameHasNoSlash(year: int, formType: string, filingId: Scalar)
    requires '/' !in formType && '/' !in Format(filingId)
    ensures '/' !in FileName(year, formType, filingId)
  {
    var digits := IntToString(year);
    assert '/' !in digits by {
      forall k | 0 <= k < |digits|
        ensures digits[k] != '/'
      {
      }
    }
    assert '/' !in "_Form" && '/' !in "_" && '/' !in ".pdf";
  }

  /** The download a filing leads to (its URL and target path), or None when
      it is skipped: not usable, or its year is outside the range. */
  function Target(ein: string, f: Filing): (t: Option<(string, Path)>)
    ensures t.Some? ==> t.value.0 == f.pdfUrl != "" && t.value.1.folder == ein
  {
    match UsableYear(f)
    case None => None
    case Some(y) =>
      if START_YEAR <= y <= END_YEAR then Some((f.pdfUrl, Path(ein, FileName(y, FormType(f), f.taxPeriodId))))
      else None
  }

  /**
   * A filing leads to a download exactly when it is usable and its year lies
   * in START_YEAR..END_YEAR; the download is its `pdf_url`, saved in the EIN's
   * folder under the file name built from that year.
   */
  lemma TargetSpec(ein: string, f: Filing)
    ensures Target(ein, f).Some? <==> UsableYear(f).Some? && START_YEAR <= UsableYear(f).value <= END_YEAR
    ensures Target(ein, f).Some? ==>
      Target(ein, f).value == (f.pdfUrl, Path(ein, FileName(UsableYear(f).value, FormType(f), f.taxPeriodId)))
  {
  }

  /** What `download_file` returns: None (no request made), True, False. */
  datatype Outcome = NoRequest | Downloaded | DownloadFailed

  /**
   * What `download_file` returns on the file system `files`: no request is
   * made for an empty URL or for a path that exists (of any size);
   * otherwise the fetch decides.
   */
  function DownloadOutcome(files: map<Path, nat>, url: string, p: Path, fetch: Fetcher): (o: Outcome)
    ensures o == NoRequest <==> url == "" || p in files
    ensures o == Downloaded <==> url != "" && p !in files && fetch(url).Saved?
  {
    if url == "" || p in files then NoRequest
    else if fetch(url).Saved? then Downloaded
    else DownloadFailed
  }

  /** The files after `download_file`: unchanged when no request is made. */
  function FilesAfterDownload(files: map<Path, nat>, url: string, p: Path, fetch: Fetcher): (r: map<Path, nat>)
    ensures url == "" || p in files ==> r == files
    ensures forall q :: q != p ==> (q in r <==> q in files) && (q in r ==> r[q] == files[q])
  {
    if url == "" || p in files then files else AfterFetch(files, p, fetch(url))
  }

  method DownloadFile(disk: Disk, url: string, p: Path, fetch: Fetcher) returns (o: Outcome)
    modifies disk
    ensures o == DownloadOutcome(old(disk.files), url, p, fetch)
    ensures disk.files == FilesAfterDownload(old(disk.files), url, p, fetch)
  {
    if url == "" {
      return NoRequest;
    }
    if p in disk.files {
      return NoRequest;
    }
    var fetched := fetch(url);
    disk.files := AfterFetch(disk.files, p, fetched);
    o := if fetched.Saved? then Downloaded else DownloadFailed;
  }

  /** The files after one pass of the filing loop. */
  function FilesAfterFiling(files: map<Path, nat>, ein: string, f: Filing, fetch: Fetcher): map<Path, nat> {
    match Target(ein, f)
    case None => files
    case Some((url, p)) => FilesAfterDownload(files, url, p, fetch)
  }

  /** Whether one pass of the filing loop counts a download. */
  predicate DownloadedFiling(files: map<Path, nat>, ein: string, f: Filing, fetch: Fetcher) {
    match Target(ein, f)
    case None => false
    case Some((url, p)) => DownloadOutcome(files, url, p, fetch) == Downloaded
  }

  /** The files after the loop over one organisation's filings. */
  function FilesAfterFilings(files: map<Path, nat>, ein: string, fs: seq<Filing>, fetch: Fetcher): map<Path, nat> {
    if fs == [] then files
    else FilesAfterFiling(FilesAfterFilings(files, ein, fs[..|fs| - 1], fetch), ein, fs[|fs| - 1], fetch)
  }

  /** `download_count` after the loop over one organisation's filings. */
  function DownloadCount(files: map<Path, nat>, ein: string, fs: seq<Filing>, fetch: Fetcher): nat {
    if fs == [] then 0
    else
      var n := |fs| - 1;
      DownloadCount(files, ein, fs[..n], fetch)
        + if DownloadedFiling(FilesAfterFilings(files, ein, fs[..n], fetch), ein, fs[n], fetch) then 1 else 0
  }

  /** How many filings are usable and within the year range. */
  function InRangeCount(ein: string, fs: seq<Filing>): nat {
    if fs == [] then 0
    else InRangeCount(ein, fs[..|fs| - 1]) + if Target(ein, fs[|fs| - 1]).Some? then 1 else 0
  }

  method DownloadFiling(disk: Disk, ein: string, filing: Filing, fetch: Fetcher) returns (downloaded: bool)
    modifies disk
    ensures downloaded == DownloadedFiling(old(disk.files), ein, filing, fetch)
    ensures disk.files == FilesAfterFiling(old(disk.files), ein, filing, fetch)
  {
    downloaded := false;
    if Truthy(filing.taxYear) && filing.pdfUrl != "" {
      var taxYear := ToInt(filing.taxYear);
      if taxYear.Some? && START_YEAR <= taxYear.value <= END_YEAR {
        var formType := FormType(filing);
        var filename := FileName(taxYear.value, formType, filing.taxPeriodId);
        assert Target(ein, filing) == Some((filing.pdfUrl, Path(ein, filename)));
        var result := DownloadFile(disk, filing.pdfUrl, Path(ein, filename), fetch);
        downloaded := result == Downloaded;
      }
    }
  }

  method DownloadFilings(disk: Disk, ein: string, filings: seq<Filing>, fetch: Fetcher) returns (downloadCount: nat)
    modifies disk
    ensures disk.files == FilesAfterFilings(old(disk.files), ein, filings, fetch)
    ensures downloadCount == DownloadCount(old(disk.files), ein, filings, fetch)
  {
    downloadCount := 0;
    var k := 0;
    while k < |filings|
      invariant 0 <= k <= |filings|
      invariant disk.files == FilesAfterFilings(old(disk.files), ein, filings[..k], fetch)
      invariant downloadCount == DownloadCount(old(disk.files), ein, filings[..k], fetch)
    {
      assert filings[..k + 1][..k] == filings[..k];
      ghost var before := disk.files;
      var downloaded := DownloadFiling(disk, ein, filings[k], fetch);
      assert disk.files == FilesAfterFiling(before, ein, filings[k], fetch);
      assert FilesAfterFilings(old(disk.files), ein, filings[..k + 1], fetch)
        == FilesAfterFiling(FilesAfterFilings(old(disk.files), ein, filings[..k], fetch), ein, filings[k], fetch);
      if downloaded {
        downloadCount := downloadCount + 1;
      }
      k := k + 1;
    }
    assert filings[..k] == filings;
  }

  /** `download_count` never exceeds the number of usable in-range filings. */
  lemma {:induction false} DownloadCountBound(files: map<Path, nat>, ein: string, fs: seq<Filing>, fetch: Fetcher)
    ensures DownloadCount(files, ein, fs, fetch) <= InRangeCount(ein, fs)
  {
    if fs != [] {
      DownloadCountBound(files, ein, fs[..|fs| - 1], fetch);
    }
  }

  /** A file that exists before the loop is never touched: same path, same size. */
  lemma {:induction false} ExistingFilesKept(files: map<Path, nat>, ein: string, fs: seq<Filing>, fetch: Fetcher)
    ensures forall p :: p in files ==>
      p in FilesAfterFilings(files, ein, fs, fetch) && FilesAfterFilings(files, ein, fs, fetch)[p] == files[p]
  {
    if fs != [] {
      ExistingFilesKept(files, ein, fs[..|fs| - 1], fetch);
    }
  }

  /** Filing `i` is usable, in range and downloaded to `p`. */
  predicate TargetsPath(ein: string, fs: seq<Filing>, i: int, p: Path) {
    0 <= i < |fs| && Target(ein, fs[i]).Some? && Target(ein, fs[i]).value.1 == p
  }

  /** Every file the loop creates or changes is the target of a usable in-range filing. */
  lemma {:induction false} OnlyTargetsWritten(files: map<Path, nat>, ein: string, fs: seq<Filing>, fetch: Fetcher)
    ensures forall p :: p in FilesAfterFilings(files, ein, fs, fetch) && (p !in files || FilesAfterFilings(files, ein, fs, fetch)[p] != files[p]) ==>
      exists i :: TargetsPath(ein, fs, i, p)
  {
    if fs != [] {
      var n := |fs| - 1;
      var before := FilesAfterFilings(files, ein, fs[..n], fetch);
      var after := FilesAfterFilings(files, ein, fs, fetch);
      OnlyTargetsWritten(files, ein, fs[..n], fetch);
      forall p | p in after && (p !in files || after[p] != files[p])
        ensures exists i :: TargetsPath(ein, fs, i, p)
      {
        if TargetsPath(ein, fs, n, p) {
        } else {
          assert p in before && before[p] == after[p];
          var i :| TargetsPath(ein, fs[..n], i, p);
          assert TargetsPath(ein, fs, i, p);
        }
      }
    }
  }

  /** A filing that is unusable or outside the year range never reaches
      `download_file`: no file changes and nothing is counted. */
  lemma OutOfRangeSkipped(files: map<Path, nat>, ein: string, f: Filing, fetch: Fetcher)
    requires UsableYear(f).None? || !(START_YEAR <= UsableYear(f).value <= END_YEAR)
    ensures FilesAfterFiling(files, ein, f, fetch) == files
    ensures !DownloadedFiling(files, ein, f, fetch)
  {
    TargetSpec(ein, f);
  }

  /** Every file the loop creates or changes is named after the in-range year
      of one of the filings, inside the EIN's folder. */
  lemma OnlyInRangeYearsWritten(files: map<Path, nat>, ein: string, fs: seq<Filing>, fetch: Fetcher)
    ensures forall p :: p in FilesAfterFilings(files, ein, fs, fetch) && (p !in files || FilesAfterFilings(files, ein, fs, fetch)[p] != files[p]) ==>
      exists i ::
        0 <= i < |fs| && UsableYear(fs[i]).Some? && START_YEAR <= UsableYear(fs[i]).value <= END_YEAR &&
        p == Path(ein, FileName(UsableYear(fs[i]).value, FormType(fs[i]), fs[i].taxPeriodId))
  {
    var after := FilesAfterFilings(files, ein, fs, fetch);
    OnlyTargetsWritten(files, ein, fs, fetch);
    forall p | p in after && (p !in files || after[p] != files[p])
      ensures exists i ::
        0 <= i < |fs| && UsableYear(fs[i]).Some? && START_YEAR <= UsableYear(fs[i]).value <= END_YEAR &&
        p == Path(ein, FileName(UsableYear(fs[i]).value, FormType(fs[i]), fs[i].taxPeriodId))
    {
      var i :| TargetsPath(ein, fs, i, p);
      TargetSpec(ein, fs[i]);
    }
  }

  /** A filing is settled when it is skipped, its target exists, or fetching
      its URL fails without leaving a file. */
  predicate SettledFiling(files: map<Path, nat>, ein: string, f: Filing, fetch: Fetcher) {
    match Target(ein, f)
    case None => true
    case Some((url, p)) => p in files || fetch(url) == Failed(None)
  }

  /** Every filing of the loop is settled. */
  predicate Settled(files: map<Path, nat>, ein: string, fs: seq<Filing>, fetch: Fetcher) {
    forall i :: 0 <= i < |fs| ==> SettledFiling(files, ein, fs[i], fetch)
  }

  /** Nothing is downloaded for a settled filing, and the files stay as they are. */
  lemma SettledFilingIsIdle(files: map<Path, nat>, ein: string, f: Filing, fetch: Fetcher)
    requires SettledFiling(files, ein, f, fetch)
    ensures FilesAfterFiling(files, ein, f, fetch) == files
    ensures !DownloadedFiling(files, ein, f, fetch)
  {
  }

  /** A loop over settled filings downloads nothing and changes no file. */
  lemma {:induction false} SettledRunIsIdle(files: map<Path, nat>, ein: string, fs: seq<Filing>, fetch: Fetcher)
    requires Settled(files, ein, fs, fetch)
    ensures FilesAfterFilings(files, ein, fs, fetch) == files
    ensures DownloadCount(files, ein, fs, fetch) == 0
  {
    if fs != [] {
      var n := |fs| - 1;
      assert Settled(files, ein, fs[..n], fetch) by {
        forall i | 0 <= i < n
          ensures SettledFiling(files, ein, fs[..n][i], fetch)
        {
          assert fs[..n][i] == fs[i];
        }
      }
      SettledRunIsIdle(files, ein, fs[..n], fetch);
      SettledFilingIsIdle(files, ein, fs[n], fetch);
    }
  }

  /** One pass of the filing loop keeps every file and settles its filing. */
  lemma FilingSettles(files: map<Path, nat>, ein: string, f: Filing, fetch: Fetcher)
    ensures forall p :: p in files ==> p in FilesAfterFiling(files, ein, f, fetch)
    ensures SettledFiling(FilesAfterFiling(files, ein, f, fetch), ein, f, fetch)
  {
    match Target(ein, f)
    case None =>
    case Some((url, p)) =>
      if p !in files {
        assert FilesAfterFiling(files, ein, f, fetch) == AfterFetch(files, p, fetch(url));
      }
  }

  /** A settled filing stays settled when files are only added. */
  lemma SettledFilingGrows(files: map<Path, nat>, more: map<Path, nat>, ein: string, f: Filing, fetch: Fetcher)
    requires SettledFiling(files, ein, f, fetch)
    requires forall p :: p in files ==> p in more
    ensures SettledFiling(more, ein, f, fetch)
  {
  }

  /** After the loop, every one of its filings is settled. */
  lemma {:induction false} RunSettles(files: map<Path, nat>, ein: string, fs: seq<Filing>, fetch: Fetcher)
    ensures Settled(FilesAfterFilings(files, ein, fs, fetch), ein, fs, fetch)
  {
    if fs != [] {
      var n := |fs| - 1;
      var before := FilesAfterFilings(files, ein, fs[..n], fetch);
      var after := FilesAfterFilings(files, ein, fs, fetch);
      RunSettles(files, ein, fs[..n], fetch);
      FilingSettles(before, ein, fs[n], fetch);
      assert after == FilesAfterFiling(before, ein, fs[n], fetch);
      forall i | 0 <= i < |fs|
        ensures SettledFiling(after, ein, fs[i], fetch)
      {
        if i < n {
          assert fs[..n][i] == fs[i];
          SettledFilingGrows(before, after, ein, fs[i], fetch);
        } else {
          assert fs[i] == fs[n];
        }
      }
    }
  }

  /** Running the loop a second time over the same filings, with the same
      server answers, downloads nothing and leaves the files as they were. */
  lemma SecondRunDownloadsNothing(files: map<Path, nat>, ein: string, fs: seq<Filing>, fetch: Fetcher)
    ensures var first := FilesAfterFilings(files, ein, fs, fetch);
      FilesAfterFilings(first, ein, fs, fetch) == first && DownloadCount(first, ein, fs, fetch) == 0
  {
    RunSettles(files, ein, fs, fetch);
    SettledRunIsIdle(FilesAfterFilings(files, ein, fs, fetch), ein, fs, fetch);
  }

  /** The filings `main()` loops over for one EIN, or None when the API gives
      nothing or no filings (the EIN is passed over). */
  function OrganizationFilings(ein: string, api: Api): (r: Option<seq<Filing>>)
    ensures r.Some? <==> api(ein).Some? && AllFilings(api(ein).value) != []
    ensures r.Some? ==> r.value == AllFilings(api(ein).value)
  {
    match api(ein)
    case None => None
    case Some(data) => if AllFilings(data) == [] then None else Some(AllFilings(data))
  }

  /** The files after `main()` over a list of EINs. */
  function FilesAfterAll(files: map<Path, nat>, eins: seq<string>, api: Api, fetch: Fetcher): map<Path, nat> {
    if eins == [] then files
    else
      var before := FilesAfterAll(files, eins[..|eins| - 1], api, fetch);
      var ein := eins[|eins| - 1];
      match OrganizationFilings(ein, api)
      case None => before
      case Some(fs) => FilesAfterFilings(before, ein, fs, fetch)
  }

  /** Each EIN's `download_count` in `main()`, None for an EIN passed over. */
  function CountsOfAll(files: map<Path, nat>, eins: seq<string>, api: Api, fetch: Fetcher): (r: seq<Option<nat>>)
    ensures |r| == |eins|
  {
    if eins == [] then []
    else
      var n := |eins| - 1;
      var before := FilesAfterAll(files, eins[..n], api, fetch);
      CountsOfAll(files, eins[..n], api, fetch) +
        [match OrganizationFilings(eins[n], api)
         case None => None
         case Some(fs) => Some(DownloadCount(before, eins[n], fs, fetch))]
  }

  /** An EIN gets a `download_count` exactly when the API gives it filings;
      every other EIN is passed over. */
  lemma {:induction false} CountsOfAllPassOver(files: map<Path, nat>, eins: seq<string>, api: Api, fetch: Fetcher)
    ensures forall k :: 0 <= k < |eins| ==>
      (CountsOfAll(files, eins, api, fetch)[k].Some? <==> OrganizationFilings(eins[k], api).Some?)
  {
    if eins != [] {
      var n := |eins| - 1;
      CountsOfAllPassOver(files, eins[..n], api, fetch);
      forall k | 0 <= k < n
        ensures eins[..n][k] == eins[k]
      {
      }
    }
  }

  /**
   * `main()`: the EIN list in order; an EIN without data or without filings
   * is passed over, every other one has its filings downloaded. The EIN goes
   * to the API as it is (this script does not clean EINs).
   */
  method DownloadAll(disk: Disk, eins: seq<string>, api: Api, fetch: Fetcher) returns (counts: seq<Option<nat>>)
    modifies disk
    ensures disk.files == FilesAfterAll(old(disk.files), eins, api, fetch)
    ensures counts == CountsOfAll(old(disk.files), eins, api, fetch)
  {
    counts := [];
    var k := 0;
    while k < |eins|
      invariant 0 <= k <= |eins|
      invariant disk.files == FilesAfterAll(old(disk.files), eins[..k], api, fetch)
      invariant counts == CountsOfAll(old(disk.files), eins[..k], api, fetch)
    {
      var ein := eins[k];
      assert eins[..k + 1][..k] == eins[..k];
      var data := api(ein);
      var count: Option<nat> := None;
      if data.Some? {
        var filings := AllFilings(data.value);
        if filings != [] {
          var downloadCount := DownloadFilings(disk, ein, filings, fetch);
          count := Some(downloadCount);
        }
      }
      counts := counts + [count];
      k := k + 1;
    }
    assert eins[..k] == eins;
  }

  /** `main()` never removes or changes a file that existed before it. */
  lemma {:induction false} DownloadAllKeepsExisting(files: map<Path, nat>, eins: seq<string>, api: Api, fetch: Fetcher)
    ensures forall p :: p in files ==>
      p in FilesAfterAll(files, eins, api, fetch) && FilesAfterAll(files, eins, api, fetch)[p] == files[p]
  {
    if eins != [] {
      var n := |eins| - 1;
      DownloadAllKeepsExisting(files, eins[..n], api, fetch);
      match OrganizationFilings(eins[n], api)
      case None =>
      case Some(fs) => ExistingFilesKept(FilesAfterAll(files, eins[..n], api, fetch), eins[n], fs, fetch);
    }
  }

  /** `main()` as configured: the loop of `DownloadAll` over `EIN_LIST`. */
  method RunConfigured(disk: Disk, api: Api, fetch: Fetcher) returns (counts: seq<Option<nat>>)
    modifies disk
    ensures disk.files == FilesAfterAll(old(disk.files), EIN_LIST, api, fetch)
    ensures counts == CountsOfAll(old(disk.files), EIN_LIST, api, fetch)
  {
    counts := DownloadAll(disk, EIN_LIST, api, fetch);
  }
}
