/**
 * Scalar fields of the filings API's JSON records, as the scripts read them
 * with `dict.get`, and the three things Python does with them: test their
 * truth, convert them with `int()`, and turn them into text.
 */
module JsonValues {
  import opened Wrappers
  import opened Text

  /** A field that is absent or null (`None`), a JSON integer, or a JSON string. */
  datatype Scalar = Missing | Num(n: int) | Str(s: string)

  /** Python truthiness: `None`, `0` and `""` are false. */
  predicate Truthy(v: Scalar) {
    match v
    case Missing => false
    case Num(n) => n != 0
    case Str(s) => s != ""
  }

  /** `int(v)`: an integer is itself, a string goes through `int()`, and a
      ValueError is None. The scripts call it on truthy values only. */
  function ToInt(v: Scalar): Option<int>
    requires !v.Missing?
  {
    match v
    case Num(n) => Some(n)
    case Str(s) => ParseInt(s)
  }

  /** `str(v)`, as an f-string renders it: `None` becomes "None". */
  function Format(v: Scalar): string {
    match v
    case Missing => "None"
    case Num(n) => IntToString(n)
    case Str(s) => s
  }

  /** The text `csv.DictWriter` writes for `v`: `None` is an empty field. */
  function CellText(v: Scalar): string {
    match v
    case Missing => ""
    case Num(n) => IntToString(n)
    case Str(s) => s
  }
}
