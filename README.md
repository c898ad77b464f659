# Nonprofit 990 filings workflow — a verified model

This project models the batch scripts of a workflow that collects IRS Form 990
filings of nonprofit institutions from the ProPublica Nonprofit Explorer API.

- **fix_eins.py** looks every institution name up in the organisation search.
  It writes the CSV back with a `Corrected_EIN` and a `ProPublica_Name` column.
- **match_pdf_links.py** and **match_pdf_links_v2.py** join each CSV row with the PDF URL of its
  organisation's filing for the row's year.
  - v1 keys by `EIN`, and the last usable filing for a year wins.
  - v2 keys by `Corrected_EIN`, the first usable filing wins, and it reports coverage.
- **download_990_forms.py** downloads, for a configured list of EINs, every usable filing from 2000 to
  2018. File names are built from the year, the form type and the filing id.
- **download_990_forms_v2.py** downloads the PDF of every CSV row that has a link. It keeps a folder per EIN
  and institution, and counts downloads, files already present and failures.

Modules:

- `Wrappers` (Option)
- `Text`: the Python string operations used, over ASCII — `strip`, `replace`, `split`, `endswith`, `int()`, `str()`
- `JsonValues`: JSON scalars with Python truthiness, `int()` and `str()`
- `CsvRows`: rows as `csv.DictReader` yields them, and header edits
- `ProPublica`: filing records, the organisation endpoint as an oracle, EIN cleaning
- `LocalFiles`: the download directory as a class `Disk` holding a map from path to size, and the fetch oracle
- `PdfLinks`: what both matchers share
- one module per script

Loops are methods with invariants. A loop over a list is proved against a recursive
specification function of the prefix processed so far. A loop over a set of keys (the two
`BuildFilingCache` methods and `FixEins.BuildCorrections`) is proved against a map over
the keys processed so far. The properties the scripts promise are proved as lemmas
about those functions.

Sets of EINs or names are iterated in an arbitrary order (`:|`). The scripts
sort them first. The order cannot matter, because every key is processed once
and the oracles are pure functions.

## Model

| member | source | states |
|---|---|---|
| `Text.Strip` | download_990_forms_v2.py:67 | `strip()` leaves no whitespace at either end. It is empty exactly when the text is all whitespace. It returns already-stripped text unchanged. Its value is fixed by `StripIsSlice`. |
| `Text.StripIsSlice` | match_pdf_links.py:76 | `strip()` gives the slice of the text between its leading and its trailing whitespace |
| `Text.TrimStartIsSuffix` | match_pdf_links.py:76 | what `lstrip` keeps is a suffix of the text |
| `Text.TrimStart` | match_pdf_links.py:76 | `lstrip()` drops only leading whitespace and leaves text that starts with none unchanged |
| `Text.TrimEnd` | match_pdf_links.py:76 | `rstrip()` keeps a prefix and drops only trailing whitespace |
| `Text.Keep` | download_990_forms_v2.py:85 | the kept characters all qualify and are no more than the input |
| `Text.RemoveChar` | match_pdf_links.py:76 | `replace(c, "")` leaves no `c` and never lengthens the text; its value is fixed by `RemoveCharAppend` and `RemoveCharSingle` |
| `Text.RemoveCharAppend` | match_pdf_links.py:76 | `replace(c, "")` distributes over concatenation, so every other character is kept, in order |
| `Text.RemoveCharSingle` | match_pdf_links.py:76 | on one character, `replace(c, "")` drops exactly `c` |
| `Text.RemoveCharCounts` | match_pdf_links.py:76 | every character other than `c` is kept as often as it occurs |
| `Text.RemoveCharIdentity` | match_pdf_links.py:76 | `replace(c, "")` leaves a text unchanged exactly when `c` does not occur in it |
| `Text.IntToString` | download_990_forms.py:145 | `str(n)` is non-empty and made of digits and `-` |
| `Text.ReplaceChar` | download_990_forms.py:138 | `replace(a, b)` keeps the length, turns every `a` into `b` and leaves every other character in place; no `a` remains |
| `Text.KeepAppend` | download_990_forms_v2.py:85 | filtering characters distributes over concatenation, so kept characters keep their order |
| `Text.KeepCounts` | download_990_forms_v2.py:85 | a qualifying character is kept as often as it occurs, any other not at all |
| `Text.KeepIdentity` | download_990_forms_v2.py:85 | filtering leaves a text unchanged exactly when all its characters qualify |
| `Text.AfterLast` | download_990_forms_v2.py:90 | `split(c)[-1]` has no `c`. When shorter than the text, it is preceded by a `c`. It is the whole text when `c` does not occur. |
| `Text.AfterLastIsSuffix` | download_990_forms_v2.py:90 | `split(c)[-1]` is a suffix of the text |
| `Text.BeforeFirst` | download_990_forms_v2.py:90 | `split(c)[0]` is a prefix without `c` that stops right before the first `c` |
| `Text.NatToString` | download_990_forms.py:145 | `str(n)` for a natural number is digits without a leading zero, whose value is `n` |
| `Text.IntToStringRoundTrip` | download_990_forms.py:145 | `int(str(n)) == n` for every integer |
| `Text.ParseDigits` | match_pdf_links.py:116 | `int()` reads a digit string as the number it denotes |
| `Text.ParseNegativeDigits` | match_pdf_links.py:116 | `int()` reads `-` and digits as the negated number |
| `Text.ParseInt` | match_pdf_links.py:116 | definition of `int()` on text (surrounding whitespace, one optional sign, decimal digits, None for a ValueError); its values are fixed by `ParseDigits`, `ParseNegativeDigits` and `IntToStringRoundTrip` |
| `CsvRows.AppendIfAbsent` | match_pdf_links.py:98-100 | the column is present afterwards. A header that had it is unchanged. Otherwise the column is appended once at the end and the rest stays in place. |
| `CsvRows.InsertAt` | fix_eins.py:112 | `list.insert(i, x)` places `x` at `i`, or at the end when `i` is past it; the columns before and after are kept |
| `ProPublica.AllFilings` | match_pdf_links.py:82-84 | the combined list is the with-data filings followed by the without-data filings |
| `ProPublica.UsableYear` | match_pdf_links.py:87-92 | a filing yields a year exactly when its `tax_prd_yr` and `pdf_url` are truthy and `int()` accepts the year, and that year is `int(tax_prd_yr)` |
| `ProPublica.NonIntegerYearSkipped` | match_pdf_links.py:89-92 | a year text that `int()` rejects makes the filing unusable, whatever its URL |
| `ProPublica.DigitYearUsed` | match_pdf_links.py:89-91 | a filing with a URL and a year of decimal digits is used under the number those digits denote |
| `ProPublica.CleanEin` | match_pdf_links.py:76 | the cleaned EIN has no `-`, no whitespace at its ends, and is no longer than the input; its value is fixed by `CleanEinValue` |
| `ProPublica.CleanEinValue` | match_pdf_links.py:76 | the EIN sent is the input with every `-` dropped and the rest kept in order, cut to the slice between its leading and trailing whitespace |
| `ProPublica.CleanEinIdentity` | match_pdf_links.py:76 | an EIN is sent as it is exactly when it has no `-` and no whitespace at its ends |
| `ProPublica.CleanEinIdempotent` | match_pdf_links.py:76 | cleaning a cleaned EIN changes nothing |
| `ProPublica.GetFilings` | match_pdf_links.py:19-29 | no request for an empty identifier; otherwise the endpoint's answer (None for a 404 or any error) |
| `ProPublica.FilingsFor` | match_pdf_links.py:76-84 | definition: the combined filings fetched under the cleaned EIN, empty when nothing comes back; the `BuildFilingCache` contracts and `ExpectedLink` are stated through it |
| `LocalFiles.AfterFetch` | download_990_forms_v2.py:34-45 | a fetch changes only its target path. A saved body gives the body's size. A failure before the file was opened changes nothing; a later failure leaves a partial file. |
| `LocalFiles.Disk.constructor` | download_990_forms_v2.py:29-31 | the file system as a run finds it: exactly the given paths and sizes (it creates nothing) |
| `PdfLinks.CollectEins` | match_pdf_links.py:56-59 | the set of EINs to process is exactly the set of non-empty values of the EIN column |
| `PdfLinks.Hit` | match_pdf_links.py:113-117 | definition of a cache hit; `LookUp` proves the output loop tests exactly it |
| `PdfLinks.LinkFor` | match_pdf_links.py:111-118 | definition of a row's link; `LookUp` proves the output loop computes it |
| `PdfLinks.Annotated` | match_pdf_links.py:122 | definition: the row with `990_PDF_URL` set to its link; the `MatchRows` methods write every row so |
| `PdfLinks.LookUp` | match_pdf_links.py:108-120 | a row hits exactly when EIN and Year are truthy, the year converts and the cache holds both. The link is the cached URL on a hit and `""` otherwise. |
| `PdfLinks.HitCountBound` | match_pdf_links.py:119 | no more rows hit than there are rows |
| `PdfLinks.LinkedCountBound` | match_pdf_links_v2.py:157-158 | no more rows carry a link than there are rows |
| `PdfLinks.LinkedCountIsHitCount` | match_pdf_links.py:117-122 | when every cached URL is non-empty, counting hits and counting rows with a link agree |
| `MatchPdfLinks.LastWins` | match_pdf_links.py:86-92 | definition of the filing loop from a given entry; its meaning is stated by `YearMapLastKeys` and `YearMapLastSpec` |
| `MatchPdfLinks.YearMapLast` | match_pdf_links.py:77-92 | definition: the filing loop from the emptied entry; see `YearMapLastKeys` and `YearMapLastSpec` |
| `MatchPdfLinks.YearMapLastKeys` | match_pdf_links.py:86-92 | an EIN's year map has a year exactly when some usable filing is for that year |
| `MatchPdfLinks.YearMapLastSpec` | match_pdf_links.py:86-92 | a cached year holds the URL of the last usable filing for that year |
| `MatchPdfLinks.LastWinsUrls` | match_pdf_links.py:89-91 | every URL the filing loop stores is non-empty |
| `MatchPdfLinks.FillYears` | match_pdf_links.py:86-92 | the filing loop computes the last-write-wins map of the filings |
| `MatchPdfLinks.CacheFilings` | match_pdf_links.py:76-92 | one EIN's entry is reset, then filled from the filings fetched under the cleaned EIN. No other entry changes. |
| `MatchPdfLinks.BuildFilingCache` | match_pdf_links.py:72-92 | every EIN gets an entry: the last-write-wins map of its filings, or an empty map when the API returns nothing |
| `MatchPdfLinks.CacheUrlsNonEmpty` | match_pdf_links.py:89-91 | every URL in the built cache is non-empty |
| `MatchPdfLinks.MatchRows` | match_pdf_links.py:108-123 | every row is kept, in order, with its link set; `matches_found` is the number of cache hits |
| `MatchPdfLinks.ExpectedLink` | match_pdf_links.py:72-122 | definition on the API alone of the link a row should get; `Run` proves every output row gets it |
| `MatchPdfLinks.Run` | match_pdf_links.py:53-123 | no output without a header. Otherwise: the header with `990_PDF_URL` added if absent; every row in order with the URL of the last usable filing of its EIN and year, or `""`; and a match count equal to the rows that got a link. |
| `MatchPdfLinksV2.FirstWins` | match_pdf_links_v2.py:110-121 | definition of the filing loop from a given entry; its meaning is stated by `YearMapFirstSpec` |
| `MatchPdfLinksV2.YearMapFirst` | match_pdf_links_v2.py:99-121 | definition: the filing loop from an empty entry; see `YearMapFirstSpec` |
| `MatchPdfLinksV2.YearMapFirstSpec` | match_pdf_links_v2.py:110-121 | an EIN's year map has a year exactly when some usable filing is for it, and holds the URL of the first such filing |
| `MatchPdfLinksV2.FirstWinsUrls` | match_pdf_links_v2.py:115-119 | every URL the filing loop stores is non-empty |
| `MatchPdfLinksV2.SameYearsAsLastWins` | match_pdf_links_v2.py:118-119 | first-write-wins and last-write-wins cache the same years |
| `MatchPdfLinksV2.AgreesWithLastWins` | match_pdf_links_v2.py:118-119 | the two policies give the same URL for a year whose usable filings all carry one URL |
| `MatchPdfLinksV2.FillYears` | match_pdf_links_v2.py:110-121 | the filing loop computes the first-write-wins map, starting from the existing entry |
| `MatchPdfLinksV2.CacheFilings` | match_pdf_links_v2.py:96-121 | an entry is created only if absent, then filled first-write-wins from the cleaned EIN's filings. No other entry changes. |
| `MatchPdfLinksV2.BuildFilingCache` | match_pdf_links_v2.py:90-121 | every corrected EIN gets the first-write-wins map of its filings, or an empty map when the API returns nothing |
| `MatchPdfLinksV2.MatchRows` | match_pdf_links_v2.py:142-161 | every row is kept, in order, with its link set; `matches_found` counts the rows whose link is non-empty |
| `MatchPdfLinksV2.Coverage` | match_pdf_links_v2.py:168 | coverage is 0 without rows. Otherwise, scaled by the row count, it gives 100 times the matches. It lies in [0, 100] when matches do not exceed rows. |
| `MatchPdfLinksV2.ExpectedLink` | match_pdf_links_v2.py:90-160 | definition on the API alone of the link a row should get; `Run` proves every output row gets it |
| `MatchPdfLinksV2.Run` | match_pdf_links_v2.py:64-168 | no output without a header. Otherwise: the header with `990_PDF_URL` added if absent; each row with the URL of the first usable filing of its corrected EIN and year, or `""`; the link count; and a coverage between 0 and 100. |
| `Download990Forms.Label` | download_990_forms.py:126 | definition: `formtype_str`, or `Unknown` without one; used by `FormType` |
| `Download990Forms.InferFormType` | download_990_forms.py:126-135 | only the label `Unknown` is replaced: by `990`, `990EZ` or `990PF`, the first of `_990_`, `_990EZ_`, `_990PF_` the URL contains. Without any of them it stays `Unknown`. |
| `Download990Forms.FormType` | download_990_forms.py:137-138 | the sanitised form type has no `/` and the inferred type's length |
| `Download990Forms.FileName` | download_990_forms.py:143-148 | definition of the file name; its shape is stated by `FileNameShape` and `FileNameHasNoSlash` |
| `Download990Forms.FileNameShape` | download_990_forms.py:143-148 | the file name starts with `{year}_Form{type}` and ends in `.pdf`; between them stands `_{id}` when the filing id is truthy and nothing otherwise |
| `Download990Forms.FileNameHasNoSlash` | download_990_forms.py:143-148 | the file name has no `/` when the filing id has none |
| `Download990Forms.Target` | download_990_forms.py:111-151 | a download's URL is the filing's non-empty `pdf_url` and its folder is the EIN's; when there is one and its file name are stated by `TargetSpec` |
| `Download990Forms.TargetSpec` | download_990_forms.py:111-151 | a filing leads to a download exactly when it is usable and its year lies in 2000..2018; the download is its `pdf_url`, into the EIN's folder, under the file name built from that year |
| `Download990Forms.DownloadOutcome` | download_990_forms.py:44-75 | no request for an empty URL or an existing path; otherwise True exactly when the fetch succeeds |
| `Download990Forms.FilesAfterDownload` | download_990_forms.py:44-75 | `download_file` changes no path but its target, and nothing when it makes no request |
| `Download990Forms.DownloadFile` | download_990_forms.py:44-75 | the method returns `download_file`'s result and leaves the files it describes |
| `Download990Forms.DownloadFiling` | download_990_forms.py:111-156 | one pass of the filing loop: the download of the filing's target, counted only when it returns True |
| `Download990Forms.DownloadFilings` | download_990_forms.py:109-156 | the filing loop leaves the specified files and `download_count` |
| `Download990Forms.DownloadCountBound` | download_990_forms.py:153-154 | `download_count` never exceeds the number of usable in-range filings |
| `Download990Forms.ExistingFilesKept` | download_990_forms.py:57-60 | a file that existed before the loop keeps its path and size |
| `Download990Forms.OnlyTargetsWritten` | download_990_forms.py:150-153 | every file created or changed is the target of a usable in-range filing |
| `Download990Forms.OutOfRangeSkipped` | download_990_forms.py:116-125 | an unusable or out-of-range filing never reaches `download_file`: no file changes and nothing is counted |
| `Download990Forms.OnlyInRangeYearsWritten` | download_990_forms.py:125-153 | every file created or changed lies in the EIN's folder and is named after the in-range year of one of the filings |
| `Download990Forms.SettledFilingIsIdle` | download_990_forms.py:57-60 | a filing whose file exists, or whose fetch fails without a file, downloads nothing |
| `Download990Forms.SettledRunIsIdle` | download_990_forms.py:111-154 | a loop over such filings downloads nothing and changes no file |
| `Download990Forms.FilingSettles` | download_990_forms.py:57-75 | one pass keeps every file and leaves its filing settled |
| `Download990Forms.SettledFilingGrows` | download_990_forms.py:58-60 | a settled filing stays settled when files are added |
| `Download990Forms.RunSettles` | download_990_forms.py:111-154 | after the loop every one of its filings is settled |
| `Download990Forms.SecondRunDownloadsNothing` | download_990_forms.py:111-154 | with the same server answers, a second run downloads nothing and changes no file |
| `Download990Forms.OrganizationFilings` | download_990_forms.py:90-107 | an EIN is processed exactly when the API answers with at least one filing, and then its filings are the combined list |
| `Download990Forms.CountsOfAll` | download_990_forms.py:86-158 | one `download_count` (or none for an EIN passed over) per configured EIN |
| `Download990Forms.CountsOfAllPassOver` | download_990_forms.py:90-107 | an EIN gets a `download_count` exactly when the API gives it filings |
| `Download990Forms.DownloadAll` | download_990_forms.py:86-158 | `main()` leaves the specified files and per-EIN counts |
| `Download990Forms.DownloadAllKeepsExisting` | download_990_forms.py:86-158 | `main()` never removes or changes a file that existed before it |
| `Download990Forms.RunConfigured` | download_990_forms.py:9-13 | `main()` over the configured `EIN_LIST` leaves the specified files and per-EIN counts |
| `Download990FormsV2.HasLink` | download_990_forms_v2.py:67 | definition of a row with a link; `RowsWithLinksMembers` states that exactly these rows are processed |
| `Download990FormsV2.RowsWithLinks` | download_990_forms_v2.py:65-68 | no more rows are processed than are read |
| `Download990FormsV2.RowsWithLinksMembers` | download_990_forms_v2.py:65-68 | exactly the rows whose link is present and not blank are processed |
| `Download990FormsV2.SelectRows` | download_990_forms_v2.py:61-68 | the reading loop keeps the rows with a link, in order |
| `Download990FormsV2.EinFor` | download_990_forms_v2.py:79 | definition: `Corrected_EIN` when truthy, `EIN` otherwise; the folder prefix of `FolderNameShape` |
| `Download990FormsV2.InstName` | download_990_forms_v2.py:81 | the name (or `Unknown`) cut to 30 characters, with every space and `/` made `_` and every other character kept |
| `Download990FormsV2.SafeName` | download_990_forms_v2.py:85 | the safe name has only letters, digits and `_`, and is no longer than the name |
| `Download990FormsV2.SafeNameKeeps` | download_990_forms_v2.py:85 | safe characters are kept in order, each as often as it occurs; the others are dropped |
| `Download990FormsV2.SafeNameIdempotent` | download_990_forms_v2.py:85 | a name is its own safe name exactly when all its characters are safe, so the sanitising is idempotent |
| `Download990FormsV2.FolderName` | download_990_forms_v2.py:85-86 | definition of the folder name; its shape is stated by `FolderNameShape` |
| `Download990FormsV2.FolderNameShape` | download_990_forms_v2.py:79-86 | the folder is `{ein}_` followed by at most 30 safe characters |
| `Download990FormsV2.WithPdfSuffix` | download_990_forms_v2.py:91-92 | the id ends in `.pdf`: unchanged if it did, `.pdf` appended otherwise |
| `Download990FormsV2.FileId` | download_990_forms_v2.py:90-92 | definition of the file id; its shape is stated by `FileIdShape` |
| `Download990FormsV2.FileIdShape` | download_990_forms_v2.py:90-92 | the file id has no `/` and no `?`, ends in `.pdf`, and starts with the last URL segment up to any `?` |
| `Download990FormsV2.FileName` | download_990_forms_v2.py:93 | definition: `{year}_{file_id}` |
| `Download990FormsV2.JobFor` | download_990_forms_v2.py:79-93 | definition of a row's download (URL, folder, file name); `DownloadRow` proves one pass performs it |
| `Download990FormsV2.Jobs` | download_990_forms_v2.py:78-93 | one download per processed row |
| `Download990FormsV2.JobsSnoc` | download_990_forms_v2.py:78-93 | the downloads of one more row are the earlier ones followed by that row's |
| `Download990FormsV2.DownloadOutcome` | download_990_forms_v2.py:17-45 | `download_file` returns False for an empty URL. It returns `"exists"` exactly when a non-empty file is at the path, and True exactly when the fetch succeeds otherwise. |
| `Download990FormsV2.FilesAfterDownload` | download_990_forms_v2.py:17-45 | `download_file` changes no path but its target, and nothing when it makes no request |
| `Download990FormsV2.DownloadFile` | download_990_forms_v2.py:17-45 | the method returns `download_file`'s result and leaves the files it describes |
| `Download990FormsV2.CountsAddUp` | download_990_forms_v2.py:98-109 | `success_count + skipped_count + error_count == total` |
| `Download990FormsV2.NonEmptyFilesKept` | download_990_forms_v2.py:29-32 | a non-empty file that existed before the loop is never touched |
| `Download990FormsV2.OnlyJobPathsWritten` | download_990_forms_v2.py:86-98 | every file created or changed is the target of one of the downloads |
| `Download990FormsV2.PartialFileCountsAsExisting` | download_990_forms_v2.py:29-45 | a failed download that left a non-empty partial file is reported `"exists"` next time, without a fetch |
| `Download990FormsV2.JobSettles` | download_990_forms_v2.py:17-45 | with a server that never leaves an empty file, a download keeps the non-empty files and settles itself |
| `Download990FormsV2.RunSettles` | download_990_forms_v2.py:78-109 | with such a server, every download of the loop is settled afterwards |
| `Download990FormsV2.SettledRunIsIdle` | download_990_forms_v2.py:78-109 | a loop over settled downloads downloads nothing and changes no file |
| `Download990FormsV2.SecondRunDownloadsNothing` | download_990_forms_v2.py:78-109 | with such a server, a second run downloads nothing and changes no file |
| `Download990FormsV2.JobsStep` | download_990_forms_v2.py:98-109 | one more download extends the file state and exactly one counter |
| `Download990FormsV2.DownloadRow` | download_990_forms_v2.py:78-109 | one pass computes the row's folder and file name, downloads, and increments the counter of the outcome |
| `Download990FormsV2.DownloadRows` | download_990_forms_v2.py:74-109 | the loop leaves the specified files and the three counters of the downloads, and a total equal to the row count |
| `Download990FormsV2.DownloadAll` | download_990_forms_v2.py:61-109 | `main()` downloads for exactly the rows with a link, and its counters add up to the total |
| `FixEins.SearchEinByName` | fix_eins.py:19-41 | (None, None) for an empty name, a failed request or no organisations; otherwise the first organisation's `ein` and `name` |
| `FixEins.MatchComesFromSearch` | fix_eins.py:32-36 | a match with an EIN is the first organisation the search returned for that name |
| `FixEins.Institutions` | fix_eins.py:67-72 | definition of `unique_institutions`; its meaning is stated by `InstitutionsKeys` and `InstitutionsLastEin` |
| `FixEins.InstitutionsKeys` | fix_eins.py:67-72 | the names of `unique_institutions` are exactly the non-empty names of the rows |
| `FixEins.InstitutionsLastEin` | fix_eins.py:67-72 | a name maps to the `EIN` of the last row carrying it |
| `FixEins.CollectInstitutions` | fix_eins.py:67-72 | the reading loop keeps every row in order and fills `unique_institutions` |
| `FixEins.EinCell` | fix_eins.py:126-131 | definition of the `Corrected_EIN` cell an entry gives; used by `CorrectedRow` |
| `FixEins.NameCell` | fix_eins.py:126-132 | definition of the `ProPublica_Name` cell an entry gives; used by `CorrectedRow` |
| `FixEins.CorrectionFor` | fix_eins.py:94-100 | a name is found exactly when the search gives a truthy EIN, and then holds that EIN and name; otherwise it holds the original EIN |
| `FixEins.CorrectionSpec` | fix_eins.py:23-100 | stated on the search alone: a name is found exactly when it is non-empty and the first organisation returned has a truthy EIN, and then holds that organisation's EIN and name |
| `FixEins.Corrections` | fix_eins.py:89-100 | every unique name gets an entry, and no other name does |
| `FixEins.BuildCorrections` | fix_eins.py:89-100 | the search loop builds the entry of every unique name |
| `FixEins.Without` | fix_eins.py:110-114 | the header without the given columns has none of them and is no longer than the header |
| `FixEins.FixedHeader` | fix_eins.py:110-114 | definition of `output_fieldnames`; its meaning is stated by the `FixedHeader` lemmas |
| `FixEins.WithoutAppend` | fix_eins.py:110-114 | dropping columns distributes over concatenation |
| `FixEins.InsertAtWithout` | fix_eins.py:112 | inserting a dropped column leaves the other columns as they were |
| `FixEins.InsertAtOnce` | fix_eins.py:112 | inserting an absent column makes it occur once |
| `FixEins.InsertAtMembers` | fix_eins.py:112 | inserting adds the column and keeps every other |
| `FixEins.AppendIfAbsentMembers` | fix_eins.py:113-114 | appending when absent adds the column and keeps every other |
| `FixEins.FixedHeaderColumns` | fix_eins.py:110-114 | the output header has both new columns. A header that had both is unchanged. It grows by one per absent column. |
| `FixEins.FixedHeaderPositions` | fix_eins.py:110-114 | an absent `Corrected_EIN` is added once at index 1 (0 in an empty header); an absent `ProPublica_Name` is added once at the end |
| `FixEins.FixedHeaderExistingEin` | fix_eins.py:110-114 | a header that already has `Corrected_EIN` keeps every column in its place; only `ProPublica_Name` may follow at the end |
| `FixEins.FixedHeaderKeepsOrder` | fix_eins.py:110-114 | the input's other columns keep their relative order |
| `FixEins.FixedHeaderIdempotent` | fix_eins.py:110-114 | fixing a fixed header changes nothing |
| `FixEins.OutputFieldnames` | fix_eins.py:110-114 | the in-place insert and append give the fixed header |
| `FixEins.CorrectedRow` | fix_eins.py:121-134 | a row whose name has an entry gets the entry's EIN and name. Any other row gets its own `EIN` (empty when absent) and `""`. Every other column is unchanged. |
| `FixEins.CorrectRow` | fix_eins.py:121-134 | one pass of the writing loop gives the corrected row |
| `FixEins.AugmentRows` | fix_eins.py:121-134 | the writing loop keeps every row, in order, each corrected |
| `FixEins.Run` | fix_eins.py:52-134 | `main()` writes the fixed header and every input row in order, corrected by the entries of the unique names |
| `FixEins.FoundRow` | fix_eins.py:89-129 | a named row whose search finds an EIN is written with the first organisation's EIN and name |
| `FixEins.NotFoundRow` | fix_eins.py:67-129 | a named row whose search finds no EIN is written with `NOT_FOUND` and the `EIN` of the LAST row with that name |
| `FixEins.UnnamedRow` | fix_eins.py:121-132 | a row with an absent or empty name is written with its own `EIN` and an empty `ProPublica_Name` |

## Left out

- HTTP is not modelled. The organisation endpoint, the search endpoint and the streamed PDF download are oracles (`Api`, `Search`, `Fetcher`): pure functions of the request. Headers, timeouts and retries have no part in them. A server that answers the same request differently over time is not modelled.
- download_990_forms.py catches only `RequestException`, so an `OSError` while writing would crash it. download_990_forms_v2.py catches every exception. Both are modelled as one `Failed` result, possibly with a partial file.
- Reading and writing CSV files is not modelled: opening, BOM handling, `DictReader`/`DictWriter` mechanics and the missing-input-file exits. Rows are maps from column to text, and the output is the sequence of written rows.
- A row is modelled as written out as a new row. Rows are not mutated in place. Nothing reads a row after it is written.
- `DictReader` short rows are not modelled. A short row gives `None` cells, which would, for example, crash `.strip()` and `.replace()`. Long rows with a `None` key, and `DictWriter`'s error for keys outside the header, are also not modelled.
- Sorting the EINs and names before the loops is not modelled. Each key is processed once, with pure oracles, so the order changes nothing.
- `time.sleep`, progress printing and summary printing are not modelled. The `:.2f` formatting of coverage is also left out; coverage is a `real`.
- Creating folders (`os.makedirs`) is not modelled. Paths are pairs of folder and file name, and the base directories are left out.
- In download_990_forms.py, a `formtype_str` that is present but null makes `.replace` raise. The model reads a missing or null form type as absent (`Unknown`).
- In download_990_forms.py, a null `filings_with_data` list makes `+` raise. The model reads it as empty, as the matchers do.
- `int()` is modelled over ASCII only: digit-group underscores and non-ASCII digits are not accepted. `isalnum` and `isspace` are also modelled over ASCII only.
- In fix_eins.py, a CSV without a header makes `list(None)` raise. The model takes the header as a sequence, possibly empty.
- In download_990_forms.py, an `organization` field that is JSON null makes `org.get` raise (download_990_forms.py:96-97), which ends the run. The organisation's name is only printed, so the model leaves the field out, and `OrganizationFilings` and `DownloadAll` go on to that EIN's filings.
- JSON values of `tax_prd_yr`, `tax_prd_id` and the search's `ein` are modelled as absent, integer or string (`JsonValues.Scalar`). Floats and booleans are not modelled, so neither are `int(2012.0) == 2012`, the falsy `0.0`, or the text of `f"{2012.0}"`. A list or object year is not modelled either; it would raise a `TypeError` that download_990_forms.py:119-121 does not catch.
- The fetch oracle depends on the URL alone. A write that fails because of the target path (the `open()` of download_990_forms.py:67 or download_990_forms_v2.py:38) cannot be told apart from a failure for that URL elsewhere.
- inspect_excel.py and inspect_excel_v2.py (spreadsheet inspection over floating-point cells) are not part of this model.
- Download990FormsV2.Jobs: its contract gives only the length. The correspondence of download `k` to row `k` is stated step by step by `JobsSnoc`.
- Download990Forms.CountsOfAll: its contract gives only one count per EIN. What each count is comes from `DownloadCount` and its lemmas.
