/**
 * The organisation-filings endpoint of the ProPublica Nonprofit Explorer API
 * (`GET .../organizations/{ein}.json`) as the scripts see it: a response with
 * two lists of filing records, or nothing at all.
 */
module ProPublica {
  import opened Wrappers
  import opened Text
  import opened JsonValues

  /** One filing record: `tax_prd_yr`, `pdf_url` (an absent or null URL is ""),
      `formtype_str` (None when the key is absent) and `tax_prd_id`. */
  datatype Filing = Filing(taxYear: Scalar, pdfUrl: string, formType: Option<string>, taxPeriodId: Scalar)

  /** `filings_with_data` and `filings_without_data`; an absent or null list is empty. */
  datatype FilingsResponse = FilingsResponse(withData: seq<Filing>, withoutData: seq<Filing>)

  /** The HTTP request, as an oracle: None stands for a 404, any other
      non-success status and any transport error. */
  type Api = string -> Option<FilingsResponse>

  /** The filings in the order the scripts examine them: with-data first, then without-data. */
  function AllFilings(r: FilingsResponse): (fs: seq<Filing>)
    ensures |fs| == |r.withData| + |r.withoutData|
    ensures fs[..|r.withData|] == r.withData && fs[|r.withData|..] == r.withoutData
  {
    r.withData + r.withoutData
  }

  /**
   * The tax year of a filing the scripts will use: `tax_prd_yr` and `pdf_url`
   * must both be truthy and the year must convert with `int()`; every other
   * filing is skipped (None).
   */
  function UsableYear(f: Filing): (r: Option<int>)
    ensures r.Some? <==> Truthy(f.taxYear) && f.pdfUrl != "" && ToInt(f.taxYear).Some?
    ensures r.Some? ==> r == ToInt(f.taxYear)
  {
    if Truthy(f.taxYear) && f.pdfUrl != "" then ToInt(f.taxYear) else None
  }

  /** `str(ein).replace("-", "").strip()`: the identifier sent to the API. */
  function CleanEin(ein: string): (r: string)
    ensures '-' !in r
    ensures r == [] || (!IsSpace(r[0]) && !IsSpace(r[|r| - 1]))
    ensures |r| <= |ein|
  {
    var r := Strip(RemoveChar(ein, '-'));
    assert |r| <= |RemoveChar(ein, '-')| by {
      assert forall c :: c in r ==> c in RemoveChar(ein, '-');
    }
    r
  }

  /** A year text that `int()` rejects makes the filing unusable, whatever its URL. */
  lemma NonIntegerYearSkipped(year: string, f: Filing)
    requires f.taxYear == Str(year) && ParseInt(year).None?
    ensures UsableYear(f).None?
  {
  }

  /** A filing with a URL and a year of decimal digits is used under the year those digits denote. */
  lemma DigitYearUsed(year: string, f: Filing)
    requires f.taxYear == Str(year) && |year| > 0 && AllDigits(year) && f.pdfUrl != ""
    ensures UsableYear(f) == Some(DigitsValue(year) as int)
  {
    ParseDigits(year);
  }

  /** The cleaned EIN: every `-` dropped, the other characters kept in order
      (`RemoveCharAppend`, `RemoveCharSingle`), then cut to the slice between
      the leading and the trailing whitespace. */
  lemma CleanEinValue(ein: string)
    ensures var d := RemoveChar(ein, '-');
      exists i, j ::
        0 <= i <= j <= |d| && CleanEin(ein) == d[i..j] &&
        (forall k :: 0 <= k < i ==> IsSpace(d[k])) &&
        (forall k :: j <= k < |d| ==> IsSpace(d[k]))
  {
    StripIsSlice(RemoveChar(ein, '-'));
  }

  /** An EIN is sent as it is exactly when it has no `-` and no whitespace at its ends. */
  lemma CleanEinIdentity(ein: string)
    ensures CleanEin(ein) == ein <==>
      '-' !in ein && (ein == [] || (!IsSpace(ein[0]) && !IsSpace(ein[|ein| - 1])))
  {
    RemoveCharIdentity(ein, '-');
  }

  /** Cleaning a cleaned EIN changes nothing. */
  lemma CleanEinIdempotent(ein: string)
    ensures CleanEin(CleanEin(ein)) == CleanEin(ein)
  {
    CleanEinIdentity(CleanEin(ein));
  }

  /** `get_filings` of the link-matching scripts: no request for an empty identifier. */
  function GetFilings(api: Api, ein: string): (data: Option<FilingsResponse>)
    ensures ein == "" ==> data == None
    ensures ein != "" ==> data == api(ein)
  {
    if ein == "" then None else api(ein)
  }

  /** The combined filing list the link-matching scripts build for one EIN of
      their input: requested under its cleaned form, empty when nothing came back. */
  function FilingsFor(api: Api, ein: string): seq<Filing> {
    match GetFilings(api, CleanEin(ein))
    case None => []
    case Some(r) => AllFilings(r)
  }
}
