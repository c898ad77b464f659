/**
 * What the two link-matching scripts share: the filing cache's shape, the
 * collection of the EINs to look up, and the lookup of one row's (EIN, Year)
 * pair in the cache.
 */
module PdfLinks {
  import opened Wrappers
  import opened Text
  import opened CsvRows
  import opened ProPublica

  /** `filing_cache`: EIN as it appears in the input, then tax year, then PDF URL. */
  type Cache = map<string, map<int, string>>

  /** Filing `i` of `fs` is usable and is for tax year `y`. */
  predicate UsableFor(fs: seq<Filing>, i: int, y: int) {
    0 <= i < |fs| && UsableYear(fs[i]) == Some(y)
  }

  /** Every URL in the cache is non-empty. */
  predicate UrlsNonEmpty(cache: Cache) {
    forall e, y :: e in cache && y in cache[e] ==> cache[e][y] != ""
  }

  /**
   * The loop that reads the input: the set of EINs to process holds exactly
   * the non-empty values of `column` among the rows.
   */
  method CollectEins(rows: seq<Row>, column: string) returns (eins: set<string>)
    ensures forall e :: e in eins <==> e != "" && exists i :: 0 <= i < |rows| && Get(rows[i], column) == Some(e)
  {
    eins := {};
    var k := 0;
    while k < |rows|
      invariant 0 <= k <= |rows|
      invariant forall e :: e in eins <==> e != "" && exists i :: 0 <= i < k && Get(rows[i], column) == Some(e)
    {
      var v := Get(rows[k], column);
      if Truthy(v) {
        eins := eins + {v.value};
      }
      k := k + 1;
    }
  }

  /** The row's EIN (from `einColumn`) and Year are truthy, the year converts
      with `int()`, and the cache holds that EIN and year. */
  predicate Hit(cache: Cache, row: Row, einColumn: string) {
    var ein, year := Get(row, einColumn), Get(row, YEAR_COLUMN);
    && Truthy(ein) && Truthy(year)
    && ParseInt(year.value).Some?
    && ein.value in cache && ParseInt(year.value).value in cache[ein.value]
  }

  /** The `990_PDF_URL` a row receives: the cached URL on a hit, "" otherwise. */
  function LinkFor(cache: Cache, row: Row, einColumn: string): string {
    if Hit(cache, row, einColumn) then
      cache[Get(row, einColumn).value][ParseInt(Get(row, YEAR_COLUMN).value).value]
    else ""
  }

  /**
   * The lookup in the output loop: `int(year_str)` on the row's truthy Year,
   * then the cache; a ValueError or a miss leaves the link "".
   */
  method LookUp(cache: Cache, row: Row, einColumn: string) returns (pdfLink: string, hit: bool)
    ensures hit == Hit(cache, row, einColumn)
    ensures pdfLink == LinkFor(cache, row, einColumn)
  {
    var ein := Get(row, einColumn);
    var yearText := Get(row, YEAR_COLUMN);
    pdfLink, hit := "", false;
    if Truthy(ein) && Truthy(yearText) {
      var year := ParseInt(yearText.value);
      if year.Some? {
        if ein.value in cache && year.value in cache[ein.value] {
          pdfLink, hit := cache[ein.value][year.value], true;
        }
      }
    }
  }

  /** The row as written: its link column set to its link. */
  function Annotated(cache: Cache, row: Row, einColumn: string): Row {
    row[PDF_URL_COLUMN := LinkFor(cache, row, einColumn)]
  }

  /** How many rows hit the cache. */
  function HitCount(cache: Cache, rows: seq<Row>, einColumn: string): nat {
    if rows == [] then 0
    else HitCount(cache, rows[..|rows| - 1], einColumn) + (if Hit(cache, rows[|rows| - 1], einColumn) then 1 else 0)
  }

  /** How many rows carry a non-empty `990_PDF_URL`. */
  function LinkedCount(rows: seq<Row>): nat {
    if rows == [] then 0
    else LinkedCount(rows[..|rows| - 1]) + (if Truthy(Get(rows[|rows| - 1], PDF_URL_COLUMN)) then 1 else 0)
  }

  /** No more rows can hit than there are. */
  lemma {:induction false} HitCountBound(cache: Cache, rows: seq<Row>, einColumn: string)
    ensures HitCount(cache, rows, einColumn) <= |rows|
  {
    if rows != [] {
      HitCountBound(cache, rows[..|rows| - 1], einColumn);
    }
  }

  /** No more rows can carry a link than there are. */
  lemma {:induction false} LinkedCountBound(rows: seq<Row>)
    ensures LinkedCount(rows) <= |rows|
  {
    if rows != [] {
      LinkedCountBound(rows[..|rows| - 1]);
    }
  }

  /** When every cached URL is non-empty, an annotated row has a link exactly
      when it hit the cache, so counting hits and counting links agree. */
  lemma {:induction false} LinkedCountIsHitCount(cache: Cache, rows: seq<Row>, out: seq<Row>, einColumn: string)
    requires UrlsNonEmpty(cache)
    requires |out| == |rows|
    requires forall i :: 0 <= i < |rows| ==> out[i] == Annotated(cache, rows[i], einColumn)
    ensures LinkedCount(out) == HitCount(cache, rows, einColumn)
  {
    if rows != [] {
      var n := |rows| - 1;
      LinkedCountIsHitCount(cache, rows[..n], out[..n], einColumn);
      assert Get(out[n], PDF_URL_COLUMN) == Some(LinkFor(cache, rows[n], einColumn));
    }
  }
}
