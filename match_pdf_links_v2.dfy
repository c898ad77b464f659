/**
 * match_pdf_links_v2.py: the same join as match_pdf_links.py, keyed by the
 * row's `Corrected_EIN`, except that when one EIN has several usable filings
 * for the same year the FIRST one in with-data-then-without-data order wins;
 * it also reports the coverage percentage.
 */
module MatchPdfLinksV2 {
  import opened Wrappers
  import opened Text
  import opened CsvRows
  import JsonValues
  import opened ProPublica
  import opened PdfLinks
  import MatchPdfLinks

  /** The loop over one EIN's filings, starting from the entry `m`: a usable
      filing is stored only if its year has no URL yet. */
  function FirstWins(m: map<int, string>, fs: seq<Filing>): map<int, string> {
    if fs == [] then m
    else
      var prev := FirstWins(m, fs[..|fs| - 1]);
      var f := fs[|fs| - 1];
      match UsableYear(f)
      case None => prev
      case Some(y) => if y in prev then prev else prev[y := f.pdfUrl]
  }

  /** The year map of one EIN, built from an empty entry. */
  function YearMapFirst(fs: seq<Filing>): map<int, string> {
    FirstWins(map[], fs)
  }

  /**
   * The first-write-wins map has a year exactly when some usable filing is
   * for that year, and then its URL is that of the first such filing.
   */
  lemma {:induction false} YearMapFirstSpec(fs: seq<Filing>, y: int)
    ensures y in YearMapFirst(fs) <==> exists i :: UsableFor(fs, i, y)
    ensures y in YearMapFirst(fs) ==>
      exists i :: UsableFor(fs, i, y) && YearMapFirst(fs)[y] == fs[i].pdfUrl
        && forall j :: 0 <= j < i ==> !UsableFor(fs, j, y)
  {
    if fs != [] {
      var n := |fs| - 1;
      var init := fs[..n];
      YearMapFirstSpec(init, y);
      assert forall i :: 0 <= i < n ==> (UsableFor(fs, i, y) <==> UsableFor(init, i, y));
      if y in YearMapFirst(init) {
        var i :| UsableFor(init, i, y) && YearMapFirst(init)[y] == init[i].pdfUrl
          && forall j :: 0 <= j < i ==> !UsableFor(init, j, y);
        assert UsableFor(fs, i, y);
      } else if UsableYear(fs[n]) == Some(y) {
        assert UsableFor(fs, n, y);
      } else {
        assert !UsableFor(fs, n, y);
      }
    }
  }

  /** Only usable filings reach the map, so every URL a first-write-wins fill adds is non-empty. */
  lemma {:induction false} FirstWinsUrls(m: map<int, string>, fs: seq<Filing>)
    requires forall y :: y in m ==> m[y] != ""
    ensures forall y :: y in FirstWins(m, fs) ==> FirstWins(m, fs)[y] != ""
  {
    if fs != [] {
      FirstWinsUrls(m, fs[..|fs| - 1]);
    }
  }

  /** Both policies cache the same years for an EIN. */
  lemma SameYearsAsLastWins(fs: seq<Filing>)
    ensures YearMapFirst(fs).Keys == MatchPdfLinks.YearMapLast(fs).Keys
  {
    forall y ensures y in YearMapFirst(fs) <==> y in MatchPdfLinks.YearMapLast(fs) {
      YearMapFirstSpec(fs, y);
      MatchPdfLinks.YearMapLastKeys(fs, y);
    }
  }

  /** The policies can differ only for a year whose usable filings do not all
      carry the same URL. */
  lemma AgreesWithLastWins(fs: seq<Filing>, y: int)
    requires forall i, j :: UsableFor(fs, i, y) && UsableFor(fs, j, y) ==> fs[i].pdfUrl == fs[j].pdfUrl
    ensures y in YearMapFirst(fs) <==> y in MatchPdfLinks.YearMapLast(fs)
    ensures y in YearMapFirst(fs) ==> YearMapFirst(fs)[y] == MatchPdfLinks.YearMapLast(fs)[y]
  {
    YearMapFirstSpec(fs, y);
    MatchPdfLinks.YearMapLastKeys(fs, y);
    if y in YearMapFirst(fs) {
      MatchPdfLinks.YearMapLastSpec(fs, y);
    }
  }

  /** The loop over one EIN's combined filing list, filling its year map
      `years` (the dict `filing_cache[ein]`) in place. */
  method FillYears(years: map<int, string>, all: seq<Filing>) returns (filled: map<int, string>)
    ensures filled == FirstWins(years, all)
  {
    filled := years;
    var k := 0;
    while k < |all|
      invariant 0 <= k <= |all|
      invariant filled == FirstWins(years, all[..k])
    {
      var filing := all[k];
      assert all[..k + 1][..k] == all[..k];
      if JsonValues.Truthy(filing.taxYear) && filing.pdfUrl != "" {
        var year := JsonValues.ToInt(filing.taxYear);
        if year.Some? {
          if year.value !in filled {
            filled := filled[year.value := filing.pdfUrl];
          }
        }
      }
      k := k + 1;
    }
    assert all[..k] == all;
  }

  /**
   * One pass of the cache-building loop: the EIN's entry is created empty if
   * it is missing, then every usable filing fetched under the cleaned EIN
   * whose year has no URL yet adds its URL. No other entry changes.
   */
  method CacheFilings(cache: Cache, ein: string, api: Api) returns (updated: Cache)
    ensures updated == cache[ein := FirstWins(if ein in cache then cache[ein] else map[], FilingsFor(api, ein))]
  {
    var cleanEin := CleanEin(ein);
    var years := if ein in cache then cache[ein] else map[];
    var data := GetFilings(api, cleanEin);
    if data.Some? {
      years := FillYears(years, AllFilings(data.value));
    }
    updated := cache[ein := years];
  }

  /** The cache-building loop over the set of EINs to process: each gets an
      entry, and the entry is the first-write-wins map of its filings. */
  method BuildFilingCache(eins: set<string>, api: Api) returns (cache: Cache)
    ensures cache.Keys == eins
    ensures forall e :: e in eins ==> cache[e] == YearMapFirst(FilingsFor(api, e))
    ensures forall e :: e in eins && GetFilings(api, CleanEin(e)).None? ==> cache[e] == map[]
  {
    cache := map[];
    var todo := eins;
    while todo != {}
      invariant todo <= eins
      invariant cache.Keys == eins - todo
      invariant forall e :: e in cache ==> cache[e] == YearMapFirst(FilingsFor(api, e))
      decreases todo
    {
      var ein :| ein in todo;
      cache := CacheFilings(cache, ein, api);
      todo := todo - {ein};
    }
  }

  /**
   * The output loop: every row, in input order, with `990_PDF_URL` set to its
   * cache hit or ""; `matches_found` counts the rows whose link is non-empty.
   */
  method MatchRows(rows: seq<Row>, cache: Cache) returns (out: seq<Row>, matches: nat)
    ensures |out| == |rows|
    ensures forall i :: 0 <= i < |rows| ==> out[i] == Annotated(cache, rows[i], CORRECTED_EIN_COLUMN)
    ensures matches == LinkedCount(out)
  {
    out := [];
    matches := 0;
    var k := 0;
    while k < |rows|
      invariant 0 <= k <= |rows|
      invariant |out| == k
      invariant forall i :: 0 <= i < k ==> out[i] == Annotated(cache, rows[i], CORRECTED_EIN_COLUMN)
      invariant matches == LinkedCount(out)
    {
      var row := rows[k];
      var pdfLink, _ := LookUp(cache, row, CORRECTED_EIN_COLUMN);
      if pdfLink != "" {
        matches := matches + 1;
      }
      var written := row[PDF_URL_COLUMN := pdfLink];
      assert (out + [written])[..k] == out;
      assert Get(written, PDF_URL_COLUMN) == Some(pdfLink);
      out := out + [written];
      k := k + 1;
    }
  }

  /** `matches_found / len(all_rows) * 100`, or 0 without rows: a percentage
      that scaled back by the row count gives the matches. */
  function Coverage(matches: nat, rows: nat): (c: real)
    ensures rows == 0 ==> c == 0.0
    ensures rows > 0 ==> c * (rows as real) == (matches as real) * 100.0
    ensures matches <= rows ==> 0.0 <= c <= 100.0
  {
    if rows > 0 then matches as real / rows as real * 100.0 else 0.0
  }

  /** The link the script gives a row, stated on the API alone: the URL of
      the first usable filing for the row's corrected EIN and year, or "". */
  function ExpectedLink(api: Api, row: Row): string {
    var ein, year := Get(row, CORRECTED_EIN_COLUMN), Get(row, YEAR_COLUMN);
    if Truthy(ein) && Truthy(year) && ParseInt(year.value).Some? then
      var m := YearMapFirst(FilingsFor(api, ein.value));
      var y := ParseInt(year.value).value;
      if y in m then m[y] else ""
    else ""
  }

  /** What the run writes and reports. */
  datatype Report = Report(header: seq<string>, rows: seq<Row>, matches: nat, coverage: real)

  /**
   * `main()` after the input is read: no output for a CSV without a header;
   * otherwise the header with `990_PDF_URL` added if absent, every row in
   * order with its expected link, the number of rows that got one, and the
   * coverage, which lies between 0 and 100.
   */
  method Run(header: seq<string>, rows: seq<Row>, api: Api) returns (r: Option<Report>)
    ensures r.None? <==> header == []
    ensures r.Some? ==> r.value.header == AppendIfAbsent(header, PDF_URL_COLUMN)
    ensures r.Some? ==> |r.value.rows| == |rows|
    ensures r.Some? ==> forall i :: 0 <= i < |rows| ==>
      r.value.rows[i] == rows[i][PDF_URL_COLUMN := ExpectedLink(api, rows[i])]
    ensures r.Some? ==> r.value.matches == LinkedCount(r.value.rows) <= |rows|
    ensures r.Some? ==> r.value.coverage == Coverage(r.value.matches, |rows|)
    ensures r.Some? ==> 0.0 <= r.value.coverage <= 100.0
  {
    if header == [] {
      return None;
    }
    var eins := CollectEins(rows, CORRECTED_EIN_COLUMN);
    var cache := BuildFilingCache(eins, api);
    var outHeader := AppendIfAbsent(header, PDF_URL_COLUMN);
    var out, matches := MatchRows(rows, cache);
    forall i | 0 <= i < |rows|
      ensures out[i] == rows[i][PDF_URL_COLUMN := ExpectedLink(api, rows[i])]
    {
      var ein := Get(rows[i], CORRECTED_EIN_COLUMN);
      if Truthy(ein) {
        assert ein.value in eins;
      }
    }
    LinkedCountBound(out);
    var coverage := Coverage(matches, |rows|);
    return Some(Report(outHeader, out, matches, coverage));
  }
}
