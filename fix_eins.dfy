/**
 * fix_eins.py: look every institution name of the longitudinal CSV up in the
 * ProPublica organisation search, and write the CSV back with two more
 * columns: `Corrected_EIN` (the EIN the search found, or the original one)
 * and `ProPublica_Name` (the name the search found, "NOT_FOUND", or "").
 */
module FixEins {
  import opened Wrappers
  import opened CsvRows
  import JsonValues

  const NOT_FOUND := "NOT_FOUND"

  /** One entry of the search's `organizations` list: its `ein` and `name`
      fields (absent or null ones are Missing). */
  datatype Org = Org(ein: JsonValues.Scalar, name: JsonValues.Scalar)

  /** The search request for a name, as an oracle: the `organizations` list of
      the reply (an absent or null list is empty), or None when the request
      raises (transport error, error status, unreadable body). */
  type Search = string -> Option<seq<Org>>

  /** The pair `search_ein_by_name` returns: an EIN and a name, each possibly None. */
  datatype TopMatch = TopMatch(ein: JsonValues.Scalar, foundName: JsonValues.Scalar)

  /** `(None, None)`. */
  const NO_MATCH := TopMatch(JsonValues.Missing, JsonValues.Missing)

  /**
   * `search_ein_by_name`: no request for an empty name; (None, None) when
   * the request fails or finds nothing; otherwise the `ein` and `name` of
   * the first organisation found.
   */
  function SearchEinByName(search: Search, name: string): (r: TopMatch)
    ensures name == "" ==> r == NO_MATCH
    ensures name != "" && (search(name).None? || search(name).value == []) ==> r == NO_MATCH
    ensures name != "" && search(name).Some? && search(name).value != [] ==>
      r.ein == search(name).value[0].ein && r.foundName == search(name).value[0].name
  {
    if name == "" then NO_MATCH
    else match search(name)
      case None => NO_MATCH
      case Some(organizations) =>
        if organizations == [] then NO_MATCH
        else TopMatch(organizations[0].ein, organizations[0].name)
  }

  /** A match with an EIN was returned by the search for that very name, as its first organisation. */
  lemma MatchComesFromSearch(search: Search, name: string)
    requires JsonValues.Truthy(SearchEinByName(search, name).ein)
    ensures name != "" && search(name).Some? && |search(name).value| > 0
    ensures SearchEinByName(search, name) == TopMatch(search(name).value[0].ein, search(name).value[0].name)
  {
  }

  // ----- Reading the input -----

  /** Row `i` carries the institution name `name`. */
  predicate NamedAt(rows: seq<Row>, i: int, name: string) {
    0 <= i < |rows| && Get(rows[i], NAME_COLUMN) == Some(name)
  }

  /** `unique_institutions` after the reading loop over `rows`: each row with
      a non-empty name sets that name's entry to the row's `EIN`. */
  function Institutions(rows: seq<Row>): map<string, Option<string>> {
    if rows == [] then map[]
    else
      var prev := Institutions(rows[..|rows| - 1]);
      var row := rows[|rows| - 1];
      var name := Get(row, NAME_COLUMN);
      if Truthy(name) then prev[name.value := Get(row, EIN_COLUMN)] else prev
  }

  /** The names in `unique_institutions` are exactly the non-empty names of the rows. */
  lemma {:induction false} InstitutionsKeys(rows: seq<Row>, name: string)
    ensures name in Institutions(rows) <==> name != "" && exists i :: NamedAt(rows, i, name)
  {
    if rows != [] {
      var n := |rows| - 1;
      var init := rows[..n];
      InstitutionsKeys(init, name);
      assert forall i :: 0 <= i < n ==> (NamedAt(rows, i, name) <==> NamedAt(init, i, name));
      if Get(rows[n], NAME_COLUMN) == Some(name) {
        assert NamedAt(rows, n, name);
      } else {
        assert !NamedAt(rows, n, name);
      }
    }
  }

  /** A name's entry is the `EIN` of the last row carrying that name. */
  lemma {:induction false} InstitutionsLastEin(rows: seq<Row>, name: string)
    requires name in Institutions(rows)
    ensures exists i ::
              NamedAt(rows, i, name) && Institutions(rows)[name] == Get(rows[i], EIN_COLUMN) &&
              forall j :: i < j < |rows| ==> !NamedAt(rows, j, name)
  {
    var n := |rows| - 1;
    var init := rows[..n];
    InstitutionsKeys(rows, name);
    if Get(rows[n], NAME_COLUMN) == Some(name) {
      assert NamedAt(rows, n, name);
    } else {
      assert name in Institutions(init);
      InstitutionsLastEin(init, name);
      var i :| NamedAt(init, i, name) && Institutions(init)[name] == Get(init[i], EIN_COLUMN) &&
        forall j :: i < j < n ==> !NamedAt(init, j, name);
      assert NamedAt(rows, i, name);
      assert forall j :: i < j < |rows| ==> !NamedAt(rows, j, name) by {
        assert forall j :: i < j < n ==> (NamedAt(rows, j, name) <==> NamedAt(init, j, name));
      }
    }
  }

  /** The reading loop: every row is kept, in order, and `unique_institutions` is filled. */
  method CollectInstitutions(rows: seq<Row>) returns (allRows: seq<Row>, uniqueInstitutions: map<string, Option<string>>)
    ensures allRows == rows
    ensures uniqueInstitutions == Institutions(rows)
  {
    allRows := [];
    uniqueInstitutions := map[];
    var k := 0;
    while k < |rows|
      invariant 0 <= k <= |rows|
      invariant allRows == rows[..k]
      invariant uniqueInstitutions == Institutions(rows[..k])
    {
      var row := rows[k];
      assert rows[..k + 1][..k] == rows[..k];
      allRows := allRows + [row];
      var name := Get(row, NAME_COLUMN);
      var ein := Get(row, EIN_COLUMN);
      if name.Some? && name.value != "" {
        uniqueInstitutions := uniqueInstitutions[name.value := ein];
      }
      k := k + 1;
    }
    assert rows[..k] == rows;
  }

  // ----- The correction map -----

  /** An entry of `correction_map`: the EIN and name the search found, or the
      original EIN with "NOT_FOUND". */
  datatype Correction = Found(ein: JsonValues.Scalar, foundName: JsonValues.Scalar) | NotFound(originalEin: Option<string>)

  /** The `Corrected_EIN` cell an entry gives a row, as `csv.DictWriter` writes it. */
  function EinCell(c: Correction): string {
    match c
    case Found(ein, _) => JsonValues.CellText(ein)
    case NotFound(originalEin) => Cell(originalEin)
  }

  /** The `ProPublica_Name` cell an entry gives a row. */
  function NameCell(c: Correction): string {
    match c
    case Found(_, foundName) => JsonValues.CellText(foundName)
    case NotFound(_) => NOT_FOUND
  }

  /** The entry for one name: found when the search returns a truthy EIN,
      otherwise the name's original EIN. */
  function CorrectionFor(search: Search, name: string, originalEin: Option<string>): (c: Correction)
    ensures c.Found? <==> JsonValues.Truthy(SearchEinByName(search, name).ein)
    ensures c.Found? ==> c.ein == SearchEinByName(search, name).ein && c.foundName == SearchEinByName(search, name).foundName
    ensures c.NotFound? ==> c.originalEin == originalEin
  {
    var top := SearchEinByName(search, name);
    if JsonValues.Truthy(top.ein) then Found(top.ein, top.foundName) else NotFound(originalEin)
  }

  /**
   * The entry stated on the search alone: found exactly when the name is not
   * empty and its search returns organisations, the first with a truthy EIN,
   * and then it holds that organisation's EIN and name.
   */
  lemma CorrectionSpec(search: Search, name: string, originalEin: Option<string>)
    ensures var c := CorrectionFor(search, name, originalEin);
      c.Found? <==> name != "" && search(name).Some? && |search(name).value| > 0 && JsonValues.Truthy(search(name).value[0].ein)
    ensures var c := CorrectionFor(search, name, originalEin);
      c.Found? ==> c == Found(search(name).value[0].ein, search(name).value[0].name)
  {
    if JsonValues.Truthy(SearchEinByName(search, name).ein) {
      MatchComesFromSearch(search, name);
    }
  }

  /** `correction_map` for the names in `institutions`. */
  function Corrections(search: Search, institutions: map<string, Option<string>>): (m: map<string, Correction>)
    ensures m.Keys == institutions.Keys
  {
    map name | name in institutions :: CorrectionFor(search, name, institutions[name])
  }

  /** The search loop over the unique names: every name gets its entry. */
  method BuildCorrections(uniqueInstitutions: map<string, Option<string>>, search: Search) returns (correctionMap: map<string, Correction>)
    ensures correctionMap == Corrections(search, uniqueInstitutions)
  {
    correctionMap := map[];
    var todo := uniqueInstitutions.Keys;
    while todo != {}
      invariant todo <= uniqueInstitutions.Keys
      invariant correctionMap.Keys == uniqueInstitutions.Keys - todo
      invariant forall name :: name in correctionMap ==>
        correctionMap[name] == CorrectionFor(search, name, uniqueInstitutions[name])
      decreases todo
    {
      var name :| name in todo;
      var top := SearchEinByName(search, name);
      if JsonValues.Truthy(top.ein) {
        correctionMap := correctionMap[name := Found(top.ein, top.foundName)];
      } else {
        correctionMap := correctionMap[name := NotFound(uniqueInstitutions[name])];
      }
      todo := todo - {name};
    }
  }

  // ----- The output header -----

  /** The columns of `s` that are not in `cols`, in their order. */
  function Without(s: seq<string>, cols: set<string>): (r: seq<string>)
    ensures |r| <= |s|
    ensures forall k :: 0 <= k < |r| ==> r[k] !in cols
  {
    if s == [] then []
    else
      var init, last := s[..|s| - 1], s[|s| - 1];
      Without(init, cols) + if last in cols then [] else [last]
  }

  /** Dropping columns distributes over concatenation. */
  lemma {:induction false} WithoutAppend(a: seq<string>, b: seq<string>, cols: set<string>)
    ensures Without(a + b, cols) == Without(a, cols) + Without(b, cols)
  {
    if b == [] {
      assert a + b == a;
    } else {
      var init := b[..|b| - 1];
      assert (a + b)[..|a + b| - 1] == a + init;
      WithoutAppend(a, init, cols);
    }
  }

  /** `output_fieldnames`: `Corrected_EIN` inserted at index 1 when absent,
      then `ProPublica_Name` appended when absent. */
  function FixedHeader(header: seq<string>): seq<string> {
    var withEin := if CORRECTED_EIN_COLUMN in header then header else InsertAt(header, 1, CORRECTED_EIN_COLUMN);
    AppendIfAbsent(withEin, PROPUBLICA_NAME_COLUMN)
  }

  /** Inserting a column that is dropped anyway leaves the other columns as they were. */
  lemma InsertAtWithout(header: seq<string>, index: nat, x: string, cols: set<string>)
    requires x in cols
    ensures Without(InsertAt(header, index, x), cols) == Without(header, cols)
  {
    var at := if index <= |header| then index else |header|;
    var left, right := header[..at], header[at..];
    assert InsertAt(header, index, x) == left + [x] + right;
    assert header == left + right;
    WithoutAppend(left, [x], cols);
    WithoutAppend(left + [x], right, cols);
    WithoutAppend(left, right, cols);
    assert Without([x], cols) == [];
  }

  /** Inserting a column that was absent makes it occur once. */
  lemma InsertAtOnce(header: seq<string>, index: nat, x: string)
    requires x !in header
    ensures Occurrences(InsertAt(header, index, x), x) == 1
  {
    var at := if index <= |header| then index else |header|;
    var left, right := header[..at], header[at..];
    assert InsertAt(header, index, x) == left + [x] + right;
    assert header == left + right;
    assert multiset(header) == multiset(left) + multiset(right);
    assert multiset(left + [x] + right) == multiset(left) + multiset{x} + multiset(right);
  }

  /** Inserting a column adds that column and keeps every other. */
  lemma InsertAtMembers(header: seq<string>, index: nat, x: string, y: string)
    ensures y in InsertAt(header, index, x) <==> y == x || y in header
  {
    var at := if index <= |header| then index else |header|;
    assert InsertAt(header, index, x) == header[..at] + [x] + header[at..];
    assert header == header[..at] + header[at..];
  }

  /** Appending a column when absent adds that column and keeps every other. */
  lemma AppendIfAbsentMembers(header: seq<string>, col: string, y: string)
    ensures y in AppendIfAbsent(header, col) <==> y == col || y in header
  {
    if col !in header {
      assert AppendIfAbsent(header, col) == header + [col];
    }
  }

  /** The output header has both added columns, and a header that had both is unchanged. */
  lemma FixedHeaderColumns(header: seq<string>)
    ensures CORRECTED_EIN_COLUMN in FixedHeader(header) && PROPUBLICA_NAME_COLUMN in FixedHeader(header)
    ensures CORRECTED_EIN_COLUMN in header && PROPUBLICA_NAME_COLUMN in header ==> FixedHeader(header) == header
    ensures |FixedHeader(header)| == |header| + (if CORRECTED_EIN_COLUMN in header then 0 else 1)
      + (if PROPUBLICA_NAME_COLUMN in header then 0 else 1)
  {
    var withEin := if CORRECTED_EIN_COLUMN in header then header else InsertAt(header, 1, CORRECTED_EIN_COLUMN);
    InsertAtMembers(header, 1, CORRECTED_EIN_COLUMN, CORRECTED_EIN_COLUMN);
    InsertAtMembers(header, 1, CORRECTED_EIN_COLUMN, PROPUBLICA_NAME_COLUMN);
    AppendIfAbsentMembers(withEin, PROPUBLICA_NAME_COLUMN, CORRECTED_EIN_COLUMN);
  }

  /**
   * An absent `Corrected_EIN` is added once, at index 1 (index 0 in an empty
   * header); an absent `ProPublica_Name` is added once, at the end.
   */
  lemma FixedHeaderPositions(header: seq<string>)
    ensures CORRECTED_EIN_COLUMN !in header ==>
      var at := if |header| == 0 then 0 else 1;
      FixedHeader(header)[at] == CORRECTED_EIN_COLUMN && Occurrences(FixedHeader(header), CORRECTED_EIN_COLUMN) == 1
    ensures PROPUBLICA_NAME_COLUMN !in header ==>
      var h := FixedHeader(header);
      h[|h| - 1] == PROPUBLICA_NAME_COLUMN && Occurrences(h, PROPUBLICA_NAME_COLUMN) == 1
  {
    FixedHeaderColumns(header);
    var withEin := if CORRECTED_EIN_COLUMN in header then header else InsertAt(header, 1, CORRECTED_EIN_COLUMN);
    var h := FixedHeader(header);
    assert h[..|withEin|] == withEin;
    if CORRECTED_EIN_COLUMN !in header {
      InsertAtOnce(header, 1, CORRECTED_EIN_COLUMN);
      var at := if |header| == 0 then 0 else 1;
      assert h[at] == withEin[at];
      if PROPUBLICA_NAME_COLUMN !in withEin {
        assert multiset(h) == multiset(withEin) + multiset{PROPUBLICA_NAME_COLUMN};
      }
    }
    if PROPUBLICA_NAME_COLUMN !in header {
      if CORRECTED_EIN_COLUMN !in header {
        var at := if |header| == 0 then 0 else 1;
        assert withEin == header[..at] + [CORRECTED_EIN_COLUMN] + header[at..];
        assert header == header[..at] + header[at..];
      }
      assert PROPUBLICA_NAME_COLUMN !in withEin;
    }
  }

  /** A header that already has `Corrected_EIN` keeps every column in its
      place, that one included; only `ProPublica_Name` may follow at the end. */
  lemma FixedHeaderExistingEin(header: seq<string>)
    requires CORRECTED_EIN_COLUMN in header
    ensures var h := FixedHeader(header);
      |header| <= |h| && h[..|header|] == header &&
      (PROPUBLICA_NAME_COLUMN !in header ==> h == header + [PROPUBLICA_NAME_COLUMN])
  {
  }

  /** The input's other columns keep their relative order. */
  lemma FixedHeaderKeepsOrder(header: seq<string>)
    ensures var added := {CORRECTED_EIN_COLUMN, PROPUBLICA_NAME_COLUMN};
      Without(FixedHeader(header), added) == Without(header, added)
  {
    var added := {CORRECTED_EIN_COLUMN, PROPUBLICA_NAME_COLUMN};
    var withEin := if CORRECTED_EIN_COLUMN in header then header else InsertAt(header, 1, CORRECTED_EIN_COLUMN);
    if CORRECTED_EIN_COLUMN !in header {
      InsertAtWithout(header, 1, CORRECTED_EIN_COLUMN, added);
    }
    if PROPUBLICA_NAME_COLUMN !in withEin {
      WithoutAppend(withEin, [PROPUBLICA_NAME_COLUMN], added);
      assert Without([PROPUBLICA_NAME_COLUMN], added) == [];
    }
  }

  /** Fixing a fixed header changes nothing, so the script's output header is stable under a second run. */
  lemma FixedHeaderIdempotent(header: seq<string>)
    ensures FixedHeader(FixedHeader(header)) == FixedHeader(header)
  {
    FixedHeaderColumns(header);
    FixedHeaderColumns(FixedHeader(header));
  }

  /** The two header updates of `main()`, made to the list in place. */
  method OutputFieldnames(inputFieldnames: seq<string>) returns (outputFieldnames: seq<string>)
    ensures outputFieldnames == FixedHeader(inputFieldnames)
  {
    outputFieldnames := inputFieldnames;
    if CORRECTED_EIN_COLUMN !in outputFieldnames {
      outputFieldnames := InsertAt(outputFieldnames, 1, CORRECTED_EIN_COLUMN);
    }
    if PROPUBLICA_NAME_COLUMN !in outputFieldnames {
      outputFieldnames := outputFieldnames + [PROPUBLICA_NAME_COLUMN];
    }
  }

  // ----- The output rows -----

  /**
   * The row as written: a row whose name has an entry gets the entry's EIN
   * and name; any other row gets its own `EIN` (an empty cell when absent)
   * and an empty `ProPublica_Name`. Every other column is unchanged.
   */
  function CorrectedRow(correctionMap: map<string, Correction>, row: Row): (r: Row)
    ensures r.Keys == row.Keys + {CORRECTED_EIN_COLUMN, PROPUBLICA_NAME_COLUMN}
    ensures forall col :: col in row && col != CORRECTED_EIN_COLUMN && col != PROPUBLICA_NAME_COLUMN ==> r[col] == row[col]
    ensures var name := Get(row, NAME_COLUMN);
      name.Some? && name.value in correctionMap ==>
        r[CORRECTED_EIN_COLUMN] == EinCell(correctionMap[name.value]) &&
        r[PROPUBLICA_NAME_COLUMN] == NameCell(correctionMap[name.value])
    ensures var name := Get(row, NAME_COLUMN);
      !(name.Some? && name.value in correctionMap) ==>
        r[CORRECTED_EIN_COLUMN] == Cell(Get(row, EIN_COLUMN)) && r[PROPUBLICA_NAME_COLUMN] == ""
  {
    var name := Get(row, NAME_COLUMN);
    if name.Some? && name.value in correctionMap then
      var c := correctionMap[name.value];
      row[CORRECTED_EIN_COLUMN := EinCell(c)][PROPUBLICA_NAME_COLUMN := NameCell(c)]
    else
      row[CORRECTED_EIN_COLUMN := Cell(Get(row, EIN_COLUMN))][PROPUBLICA_NAME_COLUMN := ""]
  }

  /** One pass of the writing loop: the row's two new cells. */
  method CorrectRow(correctionMap: map<string, Correction>, row: Row) returns (written: Row)
    ensures written == CorrectedRow(correctionMap, row)
  {
    var name := Get(row, NAME_COLUMN);
    var origEin := Get(row, EIN_COLUMN);
    if name.Some? && name.value in correctionMap {
      var correctedData := correctionMap[name.value];
      written := row[CORRECTED_EIN_COLUMN := EinCell(correctedData)];
      written := written[PROPUBLICA_NAME_COLUMN := NameCell(correctedData)];
    } else {
      written := row[CORRECTED_EIN_COLUMN := Cell(origEin)];
      written := written[PROPUBLICA_NAME_COLUMN := ""];
    }
  }

  /** The writing loop: every row, in input order, with its two new cells. */
  method AugmentRows(allRows: seq<Row>, correctionMap: map<string, Correction>) returns (written: seq<Row>)
    ensures |written| == |allRows|
    ensures forall i :: 0 <= i < |allRows| ==> written[i] == CorrectedRow(correctionMap, allRows[i])
  {
    written := [];
    var k := 0;
    while k < |allRows|
      invariant 0 <= k <= |allRows|
      invariant |written| == k
      invariant forall i :: 0 <= i < k ==> written[i] == CorrectedRow(correctionMap, allRows[i])
    {
      var row := CorrectRow(correctionMap, allRows[k]);
      written := written + [row];
      k := k + 1;
    }
  }

  /** `main()` after the input is read: the output header and the rows as written. */
  method Run(header: seq<string>, rows: seq<Row>, search: Search) returns (outHeader: seq<string>, outRows: seq<Row>)
    ensures outHeader == FixedHeader(header)
    ensures |outRows| == |rows|
    ensures forall i :: 0 <= i < |rows| ==> outRows[i] == CorrectedRow(Corrections(search, Institutions(rows)), rows[i])
  {
    var allRows, uniqueInstitutions := CollectInstitutions(rows);
    var correctionMap := BuildCorrections(uniqueInstitutions, search);
    outHeader := OutputFieldnames(header);
    outRows := AugmentRows(allRows, correctionMap);
  }

  // ----- What each output row holds, stated on the input and the search -----

  /** The row the run writes for row `i`. */
  function OutputRow(search: Search, rows: seq<Row>, i: nat): Row
    requires i < |rows|
  {
    CorrectedRow(Corrections(search, Institutions(rows)), rows[i])
  }

  /** A named row whose search finds an EIN is written with the first organisation's EIN and name. */
  lemma FoundRow(search: Search, rows: seq<Row>, i: nat)
    requires i < |rows| && Truthy(Get(rows[i], NAME_COLUMN))
    requires var name := rows[i][NAME_COLUMN];
      search(name).Some? && |search(name).value| > 0 && JsonValues.Truthy(search(name).value[0].ein)
    ensures var top := search(rows[i][NAME_COLUMN]).value[0];
      OutputRow(search, rows, i)[CORRECTED_EIN_COLUMN] == JsonValues.CellText(top.ein) &&
      OutputRow(search, rows, i)[PROPUBLICA_NAME_COLUMN] == JsonValues.CellText(top.name)
  {
    var name := rows[i][NAME_COLUMN];
    InstitutionsKeys(rows, name);
    assert NamedAt(rows, i, name);
  }

  /**
   * A named row whose search finds no EIN is written with "NOT_FOUND" and
   * the `EIN` of the LAST row carrying the same name, which need not be its own.
   */
  lemma NotFoundRow(search: Search, rows: seq<Row>, i: nat)
    requires i < |rows| && Truthy(Get(rows[i], NAME_COLUMN))
    requires !JsonValues.Truthy(SearchEinByName(search, rows[i][NAME_COLUMN]).ein)
    ensures OutputRow(search, rows, i)[PROPUBLICA_NAME_COLUMN] == NOT_FOUND
    ensures exists j ::
              NamedAt(rows, j, rows[i][NAME_COLUMN]) &&
              OutputRow(search, rows, i)[CORRECTED_EIN_COLUMN] == Cell(Get(rows[j], EIN_COLUMN)) &&
              forall k :: j < k < |rows| ==> !NamedAt(rows, k, rows[i][NAME_COLUMN])
  {
    var name := rows[i][NAME_COLUMN];
    InstitutionsKeys(rows, name);
    assert NamedAt(rows, i, name);
    InstitutionsLastEin(rows, name);
  }

  /** A row without a name (absent or empty) is written with its own `EIN` and an empty `ProPublica_Name`. */
  lemma UnnamedRow(search: Search, rows: seq<Row>, i: nat)
    requires i < |rows| && !Truthy(Get(rows[i], NAME_COLUMN))
    ensures OutputRow(search, rows, i)[CORRECTED_EIN_COLUMN] == Cell(Get(rows[i], EIN_COLUMN))
    ensures OutputRow(search, rows, i)[PROPUBLICA_NAME_COLUMN] == ""
  {
    if Get(rows[i], NAME_COLUMN).Some? {
      InstitutionsKeys(rows, "");
    }
  }
}
