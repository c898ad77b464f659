/**
 * match_pdf_links.py: join every input row with the PDF URL of its
 * organisation's filing for the row's year, keyed by the row's `EIN`.
 * When one EIN has several usable filings for the same year, the LAST one in
 * with-data-then-without-data order wins.
 */
module MatchPdfLinks {
  import opened Wrappers
  import opened Text
  import opened CsvRows
  import JsonValues
  import opened ProPublica
  import opened PdfLinks

  /** The loop over one EIN's filings, starting from the entry `m`: each
      usable filing overwrites the entry for its year. */
  function LastWins(m: map<int, string>, fs: seq<Filing>): map<int, string> {
    if fs == [] then m
    else
      var prev := LastWins(m, fs[..|fs| - 1]);
      var f := fs[|fs| - 1];
      match UsableYear(f)
      case None => prev
      case Some(y) => prev[y := f.pdfUrl]
  }

  /** The year map of one EIN, built from the emptied entry. */
  function YearMapLast(fs: seq<Filing>): map<int, string> {
    LastWins(map[], fs)
  }

  /** The last-write-wins map has a year exactly when some usable filing is for that year. */
  lemma {:induction false} YearMapLastKeys(fs: seq<Filing>, y: int)
    ensures y in YearMapLast(fs) <==> exists i :: UsableFor(fs, i, y)
  {
    if fs != [] {
      var n := |fs| - 1;
      var init := fs[..n];
      YearMapLastKeys(init, y);
      assert forall i :: 0 <= i < n ==> (UsableFor(fs, i, y) <==> UsableFor(init, i, y));
      if UsableYear(fs[n]) == Some(y) {
        assert UsableFor(fs, n, y);
      } else {
        assert !UsableFor(fs, n, y);
      }
    }
  }

  /** When the last-write-wins map has a year, its URL is that of the last usable filing for that year. */
  lemma {:induction false} YearMapLastSpec(fs: seq<Filing>, y: int)
    requires y in YearMapLast(fs)
    ensures exists i ::
              UsableFor(fs, i, y) && YearMapLast(fs)[y] == fs[i].pdfUrl &&
              forall j :: i < j < |fs| ==> !UsableFor(fs, j, y)
  {
    var n := |fs| - 1;
    var init := fs[..n];
    if UsableYear(fs[n]) == Some(y) {
      assert UsableFor(fs, n, y);
    } else {
      assert y in YearMapLast(init);
      YearMapLastSpec(init, y);
      var i :| UsableFor(init, i, y) && YearMapLast(init)[y] == init[i].pdfUrl
        && forall j :: i < j < n ==> !UsableFor(init, j, y);
      assert UsableFor(fs, i, y);
      assert forall j :: i < j < |fs| ==> !UsableFor(fs, j, y) by {
        assert forall j :: i < j < n ==> (UsableFor(fs, j, y) <==> UsableFor(init, j, y));
      }
    }
  }

  /** Only usable filings reach the map, so every URL a last-write-wins fill adds is non-empty. */
  lemma {:induction false} LastWinsUrls(m: map<int, string>, fs: seq<Filing>)
    requires forall y :: y in m ==> m[y] != ""
    ensures forall y :: y in LastWins(m, fs) ==> LastWins(m, fs)[y] != ""
  {
    if fs != [] {
      LastWinsUrls(m, fs[..|fs| - 1]);
    }
  }

  /** The loop over one EIN's combined filing list, filling its year map
      `years` (the dict `filing_cache[ein]`) in place. */
  method FillYears(years: map<int, string>, all: seq<Filing>) returns (filled: map<int, string>)
    ensures filled == LastWins(years, all)
  {
    filled := years;
    var k := 0;
    while k < |all|
      invariant 0 <= k <= |all|
      invariant filled == LastWins(years, all[..k])
    {
      var filing := all[k];
      assert all[..k + 1][..k] == all[..k];
      if JsonValues.Truthy(filing.taxYear) && filing.pdfUrl != "" {
        var year := JsonValues.ToInt(filing.taxYear);
        if year.Some? {
          filled := filled[year.value := filing.pdfUrl];
        }
      }
      k := k + 1;
    }
    assert all[..k] == all;
  }

  /**
   * One pass of the cache-building loop: the EIN's entry is reset to empty,
   * then every usable filing fetched under the cleaned EIN writes its URL
   * into the entry for its year. No other entry changes.
   */
  method CacheFilings(cache: Cache, ein: string, api: Api) returns (updated: Cache)
    ensures updated == cache[ein := YearMapLast(FilingsFor(api, ein))]
  {
    var cleanEin := CleanEin(ein);
    var years: map<int, string> := map[];
    var data := GetFilings(api, cleanEin);
    if data.Some? {
      years := FillYears(years, AllFilings(data.value));
    }
    updated := cache[ein := years];
  }

  /** The cache-building loop over the set of EINs to process: each gets an
      entry, and the entry is the last-write-wins map of its filings. */
  method BuildFilingCache(eins: set<string>, api: Api) returns (cache: Cache)
    ensures cache.Keys == eins
    ensures forall e :: e in eins ==> cache[e] == YearMapLast(FilingsFor(api, e))
    ensures forall e :: e in eins && GetFilings(api, CleanEin(e)).None? ==> cache[e] == map[]
  {
    cache := map[];
    var todo := eins;
    while todo != {}
      invariant todo <= eins
      invariant cache.Keys == eins - todo
      invariant forall e :: e in cache ==> cache[e] == YearMapLast(FilingsFor(api, e))
      decreases todo
    {
      var ein :| ein in todo;
      cache := CacheFilings(cache, ein, api);
      todo := todo - {ein};
    }
  }

  /** Every URL of a cache so built is non-empty. */
  lemma CacheUrlsNonEmpty(eins: set<string>, api: Api, cache: Cache)
    requires cache.Keys == eins
    requires forall e :: e in eins ==> cache[e] == YearMapLast(FilingsFor(api, e))
    ensures UrlsNonEmpty(cache)
  {
    forall e | e in eins {
      LastWinsUrls(map[], FilingsFor(api, e));
    }
  }

  /**
   * The output loop: every row, in input order, with `990_PDF_URL` set to its
   * cache hit or ""; `matches_found` counts the rows that hit.
   */
  method MatchRows(rows: seq<Row>, cache: Cache) returns (out: seq<Row>, matches: nat)
    ensures |out| == |rows|
    ensures forall i :: 0 <= i < |rows| ==> out[i] == Annotated(cache, rows[i], EIN_COLUMN)
    ensures matches == HitCount(cache, rows, EIN_COLUMN)
  {
    out := [];
    matches := 0;
    var k := 0;
    while k < |rows|
      invariant 0 <= k <= |rows|
      invariant |out| == k
      invariant forall i :: 0 <= i < k ==> out[i] == Annotated(cache, rows[i], EIN_COLUMN)
      invariant matches == HitCount(cache, rows[..k], EIN_COLUMN)
    {
      var row := rows[k];
      assert rows[..k + 1][..k] == rows[..k];
      var pdfLink, hit := LookUp(cache, row, EIN_COLUMN);
      if hit {
        matches := matches + 1;
      }
      out := out + [row[PDF_URL_COLUMN := pdfLink]];
      k := k + 1;
    }
    assert rows[..k] == rows;
  }

  /** The link the script gives a row, stated on the API alone: the URL of
      the last usable filing for the row's EIN and year, or "". */
  function ExpectedLink(api: Api, row: Row): string {
    var ein, year := Get(row, EIN_COLUMN), Get(row, YEAR_COLUMN);
    if Truthy(ein) && Truthy(year) && ParseInt(year.value).Some? then
      var m := YearMapLast(FilingsFor(api, ein.value));
      var y := ParseInt(year.value).value;
      if y in m then m[y] else ""
    else ""
  }

  /** What the run writes: the header, the rows, and the number of matches it reports. */
  datatype Report = Report(header: seq<string>, rows: seq<Row>, matches: nat)

  /**
   * `main()` after the input is read: no output for a CSV without a header;
   * otherwise the header with `990_PDF_URL` added if absent, every row in
   * order with its expected link, and a match count equal to the number of
   * rows that got a link.
   */
  method Run(header: seq<string>, rows: seq<Row>, api: Api) returns (r: Option<Report>)
    ensures r.None? <==> header == []
    ensures r.Some? ==> r.value.header == AppendIfAbsent(header, PDF_URL_COLUMN)
    ensures r.Some? ==> |r.value.rows| == |rows|
    ensures r.Some? ==> forall i :: 0 <= i < |rows| ==>
      r.value.rows[i] == rows[i][PDF_URL_COLUMN := ExpectedLink(api, rows[i])]
    ensures r.Some? ==> r.value.matches == LinkedCount(r.value.rows) <= |rows|
  {
    if header == [] {
      return None;
    }
    var eins := CollectEins(rows, EIN_COLUMN);
    var cache := BuildFilingCache(eins, api);
    var outHeader := AppendIfAbsent(header, PDF_URL_COLUMN);
    var out, matches := MatchRows(rows, cache);
    forall i | 0 <= i < |rows|
      ensures out[i] == rows[i][PDF_URL_COLUMN := ExpectedLink(api, rows[i])]
    {
      var ein := Get(rows[i], EIN_COLUMN);
      if Truthy(ein) {
        assert ein.value in eins;
      }
    }
    CacheUrlsNonEmpty(eins, api, cache);
    LinkedCountIsHitCount(cache, rows, out, EIN_COLUMN);
    HitCountBound(cache, rows, EIN_COLUMN);
    return Some(Report(outHeader, out, matches));
  }
}
