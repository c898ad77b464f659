/**
 * download_990_forms_v2.py: download the PDF linked from every row of the
 * merged CSV that has a link, into a folder named after the row's EIN and
 * institution, counting downloads, files already there and failures.
 */
module Download990FormsV2 {
  import opened Wrappers
  import opened Text
  import opened CsvRows
  import opened LocalFiles

  const UNKNOWN := "Unknown"
  /** How many characters of the institution name go into the folder name. */
  const NAME_LIMIT := 30

  /** A row is processed when its link is present and not only whitespace. */
  predicate HasLink(row: Row) {
    Truthy(Get(row, PDF_URL_COLUMN)) && Strip(row[PDF_URL_COLUMN]) != ""
  }

  /** The rows with a link, in their order in the file. */
  function RowsWithLinks(rows: seq<Row>): (r: seq<Row>)
    ensures |r| <= |rows|
  {
    if rows == [] then []
    else
      var n := |rows| - 1;
      RowsWithLinks(rows[..n]) + if HasLink(rows[n]) then [rows[n]] else []
  }

  /** Exactly the rows with a link are kept. */
  lemma {:induction false} RowsWithLinksMembers(rows: seq<Row>)
    ensures forall row :: row in RowsWithLinks(rows) <==> row in rows && HasLink(row)
  {
    if rows != [] {
      var n := |rows| - 1;
      RowsWithLinksMembers(rows[..n]);
      assert rows == rows[..n] + [rows[n]];
    }
  }

  method SelectRows(rows: seq<Row>) returns (rowsToProcess: seq<Row>)
    ensures rowsToProcess == RowsWithLinks(rows)
  {
    rowsToProcess := [];
    var k := 0;
    while k < |rows|
      invariant 0 <= k <= |rows|
      invariant rowsToProcess == RowsWithLinks(rows[..k])
    {
      assert rows[..k + 1][..k] == rows[..k];
      if Truthy(Get(rows[k], PDF_URL_COLUMN)) && Strip(rows[k][PDF_URL_COLUMN]) != "" {
        rowsToProcess := rowsToProcess + [rows[k]];
      }
      k := k + 1;
    }
    assert rows[..k] == rows;
  }

  /** `row.get("Corrected_EIN") or row.get("EIN")`. */
  function EinFor(row: Row): Option<string> {
    if Truthy(Get(row, CORRECTED_EIN_COLUMN)) then Get(row, CORRECTED_EIN_COLUMN) else Get(row, EIN_COLUMN)
  }

  /**
   * The institution name ('Unknown' without the column) with spaces and
   * slashes made underscores, cut to its first 30 characters.
   */
  function InstName(row: Row): (r: string)
    ensures var full := GetOr(row, NAME_COLUMN, UNKNOWN);
      |r| == if |full| <= NAME_LIMIT then |full| else NAME_LIMIT
    ensures var full := GetOr(row, NAME_COLUMN, UNKNOWN);
      forall k :: 0 <= k < |r| ==> r[k] == if full[k] == ' ' || full[k] == '/' then '_' else full[k]
    ensures ' ' !in r && '/' !in r
  {
    var replaced := ReplaceChar(ReplaceChar(GetOr(row, NAME_COLUMN, UNKNOWN), ' ', '_'), '/', '_');
    if |replaced| <= NAME_LIMIT then replaced else replaced[..NAME_LIMIT]
  }

  /** The characters a folder name keeps. */
  predicate IsSafe(c: char) {
    IsAlnum(c) || c == '_'
  }

  /** The name with every character but letters, digits and `_` dropped. */
  function SafeName(name: string): (r: string)
    ensures |r| <= |name|
    ensures forall k :: 0 <= k < |r| ==> IsSafe(r[k])
  {
    Keep(name, IsSafe)
  }

  /** Safe characters are kept (each as often as it occurs) and in order; the others are dropped. */
  lemma SafeNameKeeps(a: string, b: string, c: char)
    ensures multiset(SafeName(a))[c] == if IsSafe(c) then multiset(a)[c] else 0
    ensures SafeName(a + b) == SafeName(a) + SafeName(b)
  {
    KeepCounts(a, IsSafe, c);
    KeepAppend(a, b, IsSafe);
  }

  /** A name is its own safe name exactly when it is all safe characters; so
      making a name safe twice is making it safe once. */
  lemma SafeNameIdempotent(name: string)
    ensures SafeName(name) == name <==> forall k :: 0 <= k < |name| ==> IsSafe(name[k])
    ensures SafeName(SafeName(name)) == SafeName(name)
  {
    KeepIdentity(name, IsSafe);
    KeepIdentity(SafeName(name), IsSafe);
  }

  /** `f"{ein}_{safe_name}"`. */
  function FolderName(row: Row): string {
    Format(EinFor(row)) + "_" + SafeName(InstName(row))
  }

  /** `f"{ein}_{safe_name}"` ends in at most 30 safe characters after the EIN and `_`. */
  lemma FolderNameShape(row: Row)
    ensures var prefix := Format(EinFor(row)) + "_";
      var name := FolderName(row);
      |prefix| <= |name| <= |prefix| + NAME_LIMIT && name[..|prefix|] == prefix &&
      forall k :: |prefix| <= k < |name| ==> IsSafe(name[k])
  {
    var prefix := Format(EinFor(row)) + "_";
    var name := FolderName(row);
    assert name[..|prefix|] == prefix;
    forall k | |prefix| <= k < |name|
      ensures IsSafe(name[k])
    {
      assert name[k] == SafeName(InstName(row))[k - |prefix|];
    }
  }

  /** The id gets `.pdf` appended unless it already ends in it. */
  function WithPdfSuffix(id: string): (r: string)
    ensures EndsWith(r, ".pdf")
    ensures EndsWith(id, ".pdf") ==> r == id
    ensures !EndsWith(id, ".pdf") ==> |r| == |id| + 4 && r[..|id|] == id
  {
    if EndsWith(id, ".pdf") then id
    else
      var r := id + ".pdf";
      assert r[|r| - 4..] == ".pdf";
      r
  }

  /** `url.split("/")[-1].split("?")[0]`, with `.pdf` added when missing. */
  function FileId(url: string): string {
    WithPdfSuffix(BeforeFirst(AfterLast(url, '/'), '?'))
  }

  /**
   * The file id is the last path segment of the URL before any query,
   * so it has no `/` and no `?`, and ends in `.pdf`.
   */
  lemma FileIdShape(url: string)
    ensures EndsWith(FileId(url), ".pdf")
    ensures '/' !in FileId(url) && '?' !in FileId(url)
    ensures var id := BeforeFirst(AfterLast(url, '/'), '?');
      '?' !in id && '/' !in id && |id| <= |FileId(url)| && FileId(url)[..|id|] == id
  {
    var id := BeforeFirst(AfterLast(url, '/'), '?');
    assert '/' !in id by {
      assert forall k :: 0 <= k < |id| ==> id[k] == AfterLast(url, '/')[k];
    }
    if !EndsWith(id, ".pdf") {
      assert FileId(url) == id + ".pdf";
      assert '/' !in ".pdf" && '?' !in ".pdf";
    }
  }

  /** `f"{year}_{file_id}"`. */
  function FileName(row: Row, url: string): string {
    Format(Get(row, YEAR_COLUMN)) + "_" + FileId(url)
  }

  /** One download: the URL and the path it is saved to. */
  datatype Job = Job(url: string, path: Path)

  /** The download a processed row leads to. */
  function JobFor(row: Row): Job {
    var url := GetOr(row, PDF_URL_COLUMN, "");
    Job(url, Path(FolderName(row), FileName(row, url)))
  }

  /** The downloads of a list of rows, one per row and in order. */
  function Jobs(rows: seq<Row>): (jobs: seq<Job>)
    ensures |jobs| == |rows|
  {
    if rows == [] then [] else Jobs(rows[..|rows| - 1]) + [JobFor(rows[|rows| - 1])]
  }

  /** What `download_file` returns: True, "exists", False. */
  datatype Outcome = Done | AlreadyExists | Error

  /** A path holds a non-empty file. */
  predicate NonEmpty(files: map<Path, nat>, p: Path) {
    p in files && files[p] > 0
  }

  /**
   * `download_file`: False for an empty URL; "exists" for a non-empty file
   * already at the path; otherwise the fetch decides, and an empty file at
   * the path is fetched again.
   */
  function DownloadOutcome(files: map<Path, nat>, job: Job, fetch: Fetcher): (o: Outcome)
    ensures o == AlreadyExists <==> job.url != "" && NonEmpty(files, job.path)
    ensures o == Done <==> job.url != "" && !NonEmpty(files, job.path) && fetch(job.url).Saved?
  {
    if job.url == "" then Error
    else if NonEmpty(files, job.path) then AlreadyExists
    else if fetch(job.url).Saved? then Done
    else Error
  }

  /** The files after `download_file`: unchanged unless a fetch is made. */
  function FilesAfterDownload(files: map<Path, nat>, job: Job, fetch: Fetcher): (r: map<Path, nat>)
    ensures job.url == "" || NonEmpty(files, job.path) ==> r == files
    ensures forall q :: q != job.path ==> (q in r <==> q in files) && (q in r ==> r[q] == files[q])
  {
    if job.url == "" || NonEmpty(files, job.path) then files else AfterFetch(files, job.path, fetch(job.url))
  }

  method DownloadFile(disk: Disk, url: string, folder: string, filename: string, fetch: Fetcher) returns (o: Outcome)
    modifies disk
    ensures o == DownloadOutcome(old(disk.files), Job(url, Path(folder, filename)), fetch)
    ensures disk.files == FilesAfterDownload(old(disk.files), Job(url, Path(folder, filename)), fetch)
  {
    if url == "" {
      return Error;
    }
    var filepath := Path(folder, filename);
    if filepath in disk.files {
      if disk.files[filepath] > 0 {
        return AlreadyExists;
      }
    }
    var fetched := fetch(url);
    disk.files := AfterFetch(disk.files, filepath, fetched);
    o := if fetched.Saved? then Done else Error;
  }

  /** The files after the download loop over `jobs`. */
  function FilesAfterJobs(files: map<Path, nat>, jobs: seq<Job>, fetch: Fetcher): map<Path, nat> {
    if jobs == [] then files
    else FilesAfterDownload(FilesAfterJobs(files, jobs[..|jobs| - 1], fetch), jobs[|jobs| - 1], fetch)
  }

  /** How many downloads of the loop over `jobs` end with outcome `o`. */
  function CountOutcome(files: map<Path, nat>, jobs: seq<Job>, fetch: Fetcher, o: Outcome): nat {
    if jobs == [] then 0
    else
      var n := |jobs| - 1;
      CountOutcome(files, jobs[..n], fetch, o)
        + if DownloadOutcome(FilesAfterJobs(files, jobs[..n], fetch), jobs[n], fetch) == o then 1 else 0
  }

  /** Every download is counted exactly once: success + skipped + errors == total. */
  lemma {:induction false} CountsAddUp(files: map<Path, nat>, jobs: seq<Job>, fetch: Fetcher)
    ensures CountOutcome(files, jobs, fetch, Done) + CountOutcome(files, jobs, fetch, AlreadyExists)
      + CountOutcome(files, jobs, fetch, Error) == |jobs|
  {
    if jobs != [] {
      CountsAddUp(files, jobs[..|jobs| - 1], fetch);
    }
  }

  /** A non-empty file that exists before the loop is never touched. */
  lemma {:induction false} NonEmptyFilesKept(files: map<Path, nat>, jobs: seq<Job>, fetch: Fetcher)
    ensures forall p :: NonEmpty(files, p) ==> p in FilesAfterJobs(files, jobs, fetch) && FilesAfterJobs(files, jobs, fetch)[p] == files[p]
  {
    if jobs != [] {
      NonEmptyFilesKept(files, jobs[..|jobs| - 1], fetch);
    }
  }

  /** Every file the loop creates or changes is the target of one of its downloads. */
  lemma {:induction false} OnlyJobPathsWritten(files: map<Path, nat>, jobs: seq<Job>, fetch: Fetcher)
    ensures forall p :: p in FilesAfterJobs(files, jobs, fetch) && (p !in files || FilesAfterJobs(files, jobs, fetch)[p] != files[p]) ==>
      exists i :: 0 <= i < |jobs| && jobs[i].path == p
  {
    if jobs != [] {
      var n := |jobs| - 1;
      var before := FilesAfterJobs(files, jobs[..n], fetch);
      var after := FilesAfterJobs(files, jobs, fetch);
      OnlyJobPathsWritten(files, jobs[..n], fetch);
      forall p | p in after && (p !in files || after[p] != files[p])
        ensures exists i :: 0 <= i < |jobs| && jobs[i].path == p
      {
        if jobs[n].path != p {
          var i :| 0 <= i < n && jobs[..n][i].path == p;
          assert jobs[i].path == p;
        }
      }
    }
  }

  /**
   * A failure after the file was opened leaves a partial file; when it is
   * not empty, the next attempt reports it as already there and does not
   * fetch it again.
   */
  lemma PartialFileCountsAsExisting(files: map<Path, nat>, job: Job, fetch: Fetcher)
    requires job.url != "" && !NonEmpty(files, job.path)
    requires fetch(job.url).Failed? && fetch(job.url).partial.Some? && fetch(job.url).partial.value > 0
    ensures DownloadOutcome(files, job, fetch) == Error
    ensures DownloadOutcome(FilesAfterDownload(files, job, fetch), job, fetch) == AlreadyExists
  {
  }

  /** The fetcher never leaves an empty file: every saved body and every partial file has some bytes. */
  ghost predicate NeverEmpty(fetch: Fetcher) {
    forall url :: match fetch(url)
      case Saved(n) => n > 0
      case Failed(partial) => partial.None? || partial.value > 0
  }

  /** A download is settled: it would be skipped, or its fetch fails without leaving a file. */
  predicate SettledJob(files: map<Path, nat>, job: Job, fetch: Fetcher) {
    job.url == "" || NonEmpty(files, job.path) || fetch(job.url) == Failed(None)
  }

  /** One download settles itself and keeps every non-empty file, with a fetcher that never leaves an empty file. */
  lemma JobSettles(files: map<Path, nat>, job: Job, fetch: Fetcher)
    requires NeverEmpty(fetch)
    ensures forall p :: NonEmpty(files, p) ==> NonEmpty(FilesAfterDownload(files, job, fetch), p)
    ensures SettledJob(FilesAfterDownload(files, job, fetch), job, fetch)
  {
    if job.url != "" && !NonEmpty(files, job.path) {
      var after := FilesAfterDownload(files, job, fetch);
      assert after == AfterFetch(files, job.path, fetch(job.url));
      match fetch(job.url)
      case Saved(n) =>
      case Failed(partial) =>
    }
  }

  /** With such a fetcher, after the loop every one of its downloads is settled. */
  lemma {:induction false} RunSettles(files: map<Path, nat>, jobs: seq<Job>, fetch: Fetcher)
    requires NeverEmpty(fetch)
    ensures forall i :: 0 <= i < |jobs| ==> SettledJob(FilesAfterJobs(files, jobs, fetch), jobs[i], fetch)
  {
    if jobs != [] {
      var n := |jobs| - 1;
      var before := FilesAfterJobs(files, jobs[..n], fetch);
      var after := FilesAfterJobs(files, jobs, fetch);
      RunSettles(files, jobs[..n], fetch);
      JobSettles(before, jobs[n], fetch);
      forall i | 0 <= i < |jobs|
        ensures SettledJob(after, jobs[i], fetch)
      {
        if i < n {
          assert jobs[..n][i] == jobs[i];
        }
      }
    }
  }

  /** A loop over settled downloads downloads nothing and changes no file. */
  lemma {:induction false} SettledRunIsIdle(files: map<Path, nat>, jobs: seq<Job>, fetch: Fetcher)
    requires forall i :: 0 <= i < |jobs| ==> SettledJob(files, jobs[i], fetch)
    ensures FilesAfterJobs(files, jobs, fetch) == files
    ensures CountOutcome(files, jobs, fetch, Done) == 0
  {
    if jobs != [] {
      var n := |jobs| - 1;
      forall i | 0 <= i < n
        ensures SettledJob(files, jobs[..n][i], fetch)
      {
        assert jobs[..n][i] == jobs[i];
      }
      SettledRunIsIdle(files, jobs[..n], fetch);
      assert SettledJob(files, jobs[n], fetch);
    }
  }

  /** Running the loop again, when the server never sends an empty file,
      downloads nothing and leaves the files as the first run left them. */
  lemma SecondRunDownloadsNothing(files: map<Path, nat>, jobs: seq<Job>, fetch: Fetcher)
    requires NeverEmpty(fetch)
    ensures var first := FilesAfterJobs(files, jobs, fetch);
      FilesAfterJobs(first, jobs, fetch) == first && CountOutcome(first, jobs, fetch, Done) == 0
  {
    RunSettles(files, jobs, fetch);
    SettledRunIsIdle(FilesAfterJobs(files, jobs, fetch), jobs, fetch);
  }

  /** The three counters `main()` prints, and how many rows it processed. */
  datatype Summary = Summary(successCount: nat, skippedCount: nat, errorCount: nat, total: nat)

  /** The downloads of one more row are those of the rows before it and that row's. */
  lemma JobsSnoc(rows: seq<Row>, k: nat)
    requires k < |rows|
    ensures Jobs(rows[..k + 1]) == Jobs(rows[..k]) + [JobFor(rows[k])]
  {
    assert rows[..k + 1][..k] == rows[..k];
  }

  /** The loop over `jobs + [job]` is the loop over `jobs` and one more download. */
  lemma JobsStep(files: map<Path, nat>, jobs: seq<Job>, job: Job, fetch: Fetcher)
    ensures var before := FilesAfterJobs(files, jobs, fetch);
      FilesAfterJobs(files, jobs + [job], fetch) == FilesAfterDownload(before, job, fetch) &&
      forall o :: CountOutcome(files, jobs + [job], fetch, o)
        == CountOutcome(files, jobs, fetch, o) + if DownloadOutcome(before, job, fetch) == o then 1 else 0
  {
    assert (jobs + [job])[..|jobs|] == jobs;
  }

  /**
   * One pass of the loop in `main()`: the row's folder and file name, the
   * download, and the counter its outcome increments. The loop so far has
   * made the downloads `done` from the files `files`.
   */
  method DownloadRow(disk: Disk, row: Row, fetch: Fetcher, ghost files: map<Path, nat>, ghost done: seq<Job>,
                     successCount: nat, skippedCount: nat, errorCount: nat)
    returns (newSuccessCount: nat, newSkippedCount: nat, newErrorCount: nat, ghost job: Job)
    requires PDF_URL_COLUMN in row
    requires disk.files == FilesAfterJobs(files, done, fetch)
    requires successCount == CountOutcome(files, done, fetch, Done)
    requires skippedCount == CountOutcome(files, done, fetch, AlreadyExists)
    requires errorCount == CountOutcome(files, done, fetch, Error)
    modifies disk
    ensures job == JobFor(row)
    ensures disk.files == FilesAfterJobs(files, done + [job], fetch)
    ensures newSuccessCount == CountOutcome(files, done + [job], fetch, Done)
    ensures newSkippedCount == CountOutcome(files, done + [job], fetch, AlreadyExists)
    ensures newErrorCount == CountOutcome(files, done + [job], fetch, Error)
  {
    var url := row[PDF_URL_COLUMN];
    var folder := Format(EinFor(row)) + "_" + SafeName(InstName(row));
    var filename := Format(Get(row, YEAR_COLUMN)) + "_" + FileId(url);
    job := Job(url, Path(folder, filename));
    var result := DownloadFile(disk, url, folder, filename, fetch);
    JobsStep(files, done, job, fetch);
    newSuccessCount, newSkippedCount, newErrorCount := successCount, skippedCount, errorCount;
    if result == Done {
      newSuccessCount := successCount + 1;
    } else if result == AlreadyExists {
      newSkippedCount := skippedCount + 1;
    } else {
      newErrorCount := errorCount + 1;
    }
  }

  /** The download loop of `main()` over the rows to process. */
  method DownloadRows(disk: Disk, rowsToProcess: seq<Row>, fetch: Fetcher) returns (summary: Summary)
    requires forall i :: 0 <= i < |rowsToProcess| ==> PDF_URL_COLUMN in rowsToProcess[i]
    modifies disk
    ensures var jobs := Jobs(rowsToProcess);
      && disk.files == FilesAfterJobs(old(disk.files), jobs, fetch)
      && summary.total == |rowsToProcess|
      && summary.successCount == CountOutcome(old(disk.files), jobs, fetch, Done)
      && summary.skippedCount == CountOutcome(old(disk.files), jobs, fetch, AlreadyExists)
      && summary.errorCount == CountOutcome(old(disk.files), jobs, fetch, Error)
  {
    var total := |rowsToProcess|;
    var successCount, skippedCount, errorCount := 0, 0, 0;
    ghost var done: seq<Job> := [];
    var k := 0;
    while k < total
      invariant 0 <= k <= total
      invariant done == Jobs(rowsToProcess[..k])
      invariant disk.files == FilesAfterJobs(old(disk.files), done, fetch)
      invariant successCount == CountOutcome(old(disk.files), done, fetch, Done)
      invariant skippedCount == CountOutcome(old(disk.files), done, fetch, AlreadyExists)
      invariant errorCount == CountOutcome(old(disk.files), done, fetch, Error)
    {
      ghost var job;
      successCount, skippedCount, errorCount, job :=
        DownloadRow(disk, rowsToProcess[k], fetch, old(disk.files), done, successCount, skippedCount, errorCount);
      JobsSnoc(rowsToProcess, k);
      done := done + [job];
      k := k + 1;
    }
    assert rowsToProcess[..k] == rowsToProcess;
    summary := Summary(successCount, skippedCount, errorCount, total);
  }

  /**
   * `main()` on the rows of the CSV: the rows with a link are processed in
   * order, each downloaded to its folder and file name; every one of them
   * is counted once, as downloaded, already there, or failed.
   */
  method DownloadAll(disk: Disk, rows: seq<Row>, fetch: Fetcher) returns (summary: Summary)
    modifies disk
    ensures var jobs := Jobs(RowsWithLinks(rows));
      && disk.files == FilesAfterJobs(old(disk.files), jobs, fetch)
      && summary.total == |RowsWithLinks(rows)|
      && summary.successCount == CountOutcome(old(disk.files), jobs, fetch, Done)
      && summary.skippedCount == CountOutcome(old(disk.files), jobs, fetch, AlreadyExists)
      && summary.errorCount == CountOutcome(old(disk.files), jobs, fetch, Error)
    ensures summary.successCount + summary.skippedCount + summary.errorCount == summary.total
  {
    var rowsToProcess := SelectRows(rows);
    RowsWithLinksMembers(rows);
    assert forall i :: 0 <= i < |rowsToProcess| ==> rowsToProcess[i] in RowsWithLinks(rows);
    summary := DownloadRows(disk, rowsToProcess, fetch);
    CountsAddUp(old(disk.files), Jobs(rowsToProcess), fetch);
  }
}
