/** The parsed table that the cleaner works on: an ordered list of columns,
    each textual (pandas `object` dtype) or not, and rows of cells.  A cell
    is missing (what `pd.isna` accepts), a string, or some other value
    carried by its `str(...)` rendering. */
module Tables {

  datatype Cell =
    | Missing                     // NaN / None as read by the CSV parser
    | Text(s: string)             // a Python `str` value
    | Other(rendered: string)     // any other value, as `str(v)` renders it

  datatype ColumnKind = Textual | NonTextual

  datatype Column = Column(name: string, kind: ColumnKind)

  type Row = seq<Cell>

  datatype Table = Table(columns: seq<Column>, rows: seq<Row>)

  /** What a data frame always is: rectangular, with distinct column names
      (the CSV reader renames duplicated headers). */
  predicate WellFormed(t: Table) {
    && (forall i :: 0 <= i < |t.rows| ==> |t.rows[i]| == |t.columns|)
    && (forall a, b :: 0 <= a < b < |t.columns| ==> t.columns[a].name != t.columns[b].name)
  }

  /** `str(v)` of a cell: a missing value is the float NaN, rendered "nan". */
  function Display(c: Cell): string
  {
    match c
    case Missing => "nan"
    case Text(s) => s
    case Other(rendered) => rendered
  }

  /** Python's `s[:n]`: drop characters from the end until at most `n`
      are left. */
  function Truncate(s: string, n: nat): (r: string)
    ensures |r| <= n && |r| <= |s|
  {
    if |s| <= n then s else Truncate(s[..|s| - 1], n)
  }

  /** The cut is the slice `s[..n]`: as many characters as fit, in order,
      and the whole string when it fits. */
  lemma {:induction false} TruncateIsPrefix(s: string, n: nat)
    ensures Truncate(s, n) == if |s| <= n then s else s[..n]
  {
    if |s| > n {
      var t := s[..|s| - 1];
      TruncateIsPrefix(t, n);
      assert t[..n] == s[..n];
    }
  }
}
