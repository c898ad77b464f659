/**
 * CSV rows as `csv.DictReader` yields them and `csv.DictWriter` takes them:
 * a mapping from column name to cell text. A key the row lacks is what
 * `row.get(key)` reports as `None`.
 */
module CsvRows {
  import opened Wrappers

  type Row = map<string, string>

  /** The columns of the institutions workbook the scripts read and write. */
  const NAME_COLUMN := "Institution Name"
  const EIN_COLUMN := "EIN"
  const CORRECTED_EIN_COLUMN := "Corrected_EIN"
  const PROPUBLICA_NAME_COLUMN := "ProPublica_Name"
  const YEAR_COLUMN := "Year"
  const PDF_URL_COLUMN := "990_PDF_URL"

  /** `row.get(key)`. */
  function Get(row: Row, key: string): Option<string> {
    if key in row then Some(row[key]) else None
  }

  /** `row.get(key, default)`. */
  function GetOr(row: Row, key: string, default: string): string {
    if key in row then row[key] else default
  }

  /** Truthiness of an optional text value: present and non-empty. */
  predicate Truthy(v: Option<string>) {
    v.Some? && v.value != ""
  }

  /** `str(v)` of an optional text value, as an f-string renders it. */
  function Format(v: Option<string>): string {
    match v
    case None => "None"
    case Some(s) => s
  }

  /** The text `csv.DictWriter` writes for an optional value: `None` is an empty field. */
  function Cell(v: Option<string>): string {
    v.GetOr("")
  }

  /** Number of occurrences of `x` in `s`. */
  function Occurrences<T(==)>(s: seq<T>, x: T): nat {
    multiset(s)[x]
  }

  /**
   * `if col not in header: header.append(col)`: the column is there
   * afterwards; a header that had it is unchanged; otherwise the column is
   * added once, at the end, and every other column keeps its place.
   */
  function AppendIfAbsent(header: seq<string>, col: string): (h: seq<string>)
    ensures col in h
    ensures col in header ==> h == header
    ensures col !in header ==> |h| == |header| + 1 && h[..|header|] == header && h[|header|] == col
    ensures col !in header ==> Occurrences(h, col) == 1
  {
    if col in header then header
    else
      assert multiset(header)[col] == 0;
      header + [col]
  }

  /**
   * `header.insert(index, x)`: Python places `x` before position `index`,
   * or at the end when `index` is past it.
   */
  function InsertAt(header: seq<string>, index: nat, x: string): (h: seq<string>)
    ensures |h| == |header| + 1
    ensures var at := if index <= |header| then index else |header|;
      h[at] == x && h[..at] == header[..at] && h[at + 1..] == header[at..]
  {
    var at := if index <= |header| then index else |header|;
    header[..at] + [x] + header[at..]
  }
}
