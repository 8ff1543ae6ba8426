/** `process_dataframe`: split the rows of a table into clean rows (no
    string cell has an unclenable character), which are normalised column
    by column, and dirty rows, which are reported unchanged with a problem
    record each; then report, per textual column, whether any value of the
    whole original column had an unclenable character. */
module Processing {
  import opened Tables
  import opened CharacterRules
  import opened TextCleaning
  import opened Detection

  /** One entry of a dirty row's `problems`. */
  datatype CellProblem = CellProblem(column: string, value: string, issues: seq<Issue>)

  /** One entry of a dirty row's `row_data`. */
  datatype Field = Field(column: string, value: string)

  /** One entry of `dirty_row_details`. */
  datatype RowProblem = RowProblem(rowNumber: int, rowData: seq<Field>, problems: seq<CellProblem>)

  /** One entry of `column_analysis`. */
  datatype ColumnReport = ColumnReport(valueType: string, hadUnclenableChars: bool)

  /** Display limits of the report. */
  const RowDataLimit: nat := 50
  const ProblemValueLimit: nat := 100
  /** Row numbers count from 1 and skip the header line. */
  const HeaderOffset: nat := 2

  /** The row scan's test of one cell: a non-missing string with an
      unclenable character. */
  predicate CellIsDirty(c: Cell) {
    c.Text? && ShowsUnclenable(c)
  }

  /** The issues the row scan sees in one cell: only non-missing strings
      are examined. */
  function ScannedIssues(c: Cell): seq<Issue>
  {
    if c.Text? then Detect(c) else []
  }

  /** The scan sees issues in a cell exactly when the cell is dirty. */
  lemma {:induction false} ScannedIssuesIff(c: Cell)
    ensures |ScannedIssues(c)| > 0 <==> CellIsDirty(c)
  {
    HasUnclenableCharsIff(c);
  }

  /** What the scan of one cell adds to `row_issues`: one problem, with the
      value cut to its first 100 characters, when detection finds issues. */
  function CellFindings(col: Column, value: Cell): seq<CellProblem>
  {
    if |ScannedIssues(value)| > 0
    then [CellProblem(col.name, Truncate(Display(value), ProblemValueLimit), ScannedIssues(value))]
    else []
  }

  /** The problem record of one cell: its column, its `str` cut to 100
      characters and the issues the scan found in it. */
  function Problem(col: Column, value: Cell): CellProblem
  {
    CellProblem(col.name, Truncate(Display(value), ProblemValueLimit), ScannedIssues(value))
  }

  /** `row_issues` after the scan has looked at the first `n` columns. */
  function RowIssues(cols: seq<Column>, row: Row, n: nat): (ps: seq<CellProblem>)
    requires n <= |cols| && |row| == |cols|
  {
    if n == 0 then []
    else
      var c := n - 1;
      RowIssues(cols, row, c) + CellFindings(cols[c], row[c])
  }

  /** A row is dirty when some non-missing string cell has an unclenable
      character. */
  predicate RowIsDirty(row: Row) {
    exists c :: 0 <= c < |row| && CellIsDirty(row[c])
  }

  /** The scan finds issues in one of the first `n` cells. */
  predicate ScanFindsBelow(row: Row, n: nat)
    requires n <= |row|
  {
    n > 0 && (|ScannedIssues(row[n - 1])| > 0 || ScanFindsBelow(row, n - 1))
  }

  /** The scan of the first `n` cells reports a problem iff it finds
      issues in one of them. */
  lemma {:induction false} RowIssuesEmptyIff(cols: seq<Column>, row: Row, n: nat)
    requires n <= |cols| && |row| == |cols|
    ensures |RowIssues(cols, row, n)| > 0 <==> ScanFindsBelow(row, n)
  {
    if n > 0 {
      RowIssuesEmptyIff(cols, row, n - 1);
      assert |RowIssues(cols, row, n)| == |RowIssues(cols, row, n - 1)| + |CellFindings(cols[n - 1], row[n - 1])|;
    }
  }

  /** The scan finds issues among the first `n` cells iff one of them is
      dirty. */
  lemma {:induction false} ScanFindsBelowIff(row: Row, n: nat)
    requires n <= |row|
    ensures ScanFindsBelow(row, n) <==> exists c :: 0 <= c < n && CellIsDirty(row[c])
  {
    if n > 0 {
      ScanFindsBelowIff(row, n - 1);
      ScannedIssuesIff(row[n - 1]);
      if exists c :: 0 <= c < n && CellIsDirty(row[c]) {
        var c :| 0 <= c < n && CellIsDirty(row[c]);
        if c < n - 1 {
          assert exists c' :: 0 <= c' < n - 1 && CellIsDirty(row[c']);
        }
      }
    }
  }

  /** The scan of a row reports a problem iff the row is dirty. */
  lemma {:induction false} RowIsDirtyIff(cols: seq<Column>, row: Row)
    requires |row| == |cols|
    ensures |RowIssues(cols, row, |cols|)| > 0 <==> RowIsDirty(row)
  {
    RowIssuesEmptyIff(cols, row, |cols|);
    ScanFindsBelowIff(row, |row|);
  }

  /** The dirtiness of every cell of a row, left to right. */
  function CellDirtyFlags(row: Row): seq<bool>
  {
    seq(|row|, c requires 0 <= c < |row| => CellIsDirty(row[c]))
  }

  /** The problems recorded for the listed columns, in list order. */
  function ProblemsAt(cols: seq<Column>, row: Row, ix: seq<nat>): seq<CellProblem>
    requires |row| == |cols| && forall k :: 0 <= k < |ix| ==> ix[k] < |cols|
  {
    seq(|ix|, k requires 0 <= k < |ix| => Problem(cols[ix[k]], row[ix[k]]))
  }

  /** The scan of the first `n` cells reports one problem per dirty cell
      among them, in column order; each problem names that cell's column,
      holds the cell's `str` cut to 100 characters and lists exactly the
      issues the scan found in it. */
  lemma {:induction false} RowIssuesAreCellProblems(cols: seq<Column>, row: Row, n: nat)
    requires n <= |cols| && |row| == |cols|
    ensures RowIssues(cols, row, n) == ProblemsAt(cols, row, IndicesWhere(CellDirtyFlags(row), true, n))
  {
    if n > 0 {
      RowIssuesAreCellProblems(cols, row, n - 1);
      ScannedIssuesIff(row[n - 1]);
      var ix := IndicesWhere(CellDirtyFlags(row), true, n - 1);
      if CellIsDirty(row[n - 1]) {
        assert CellFindings(cols[n - 1], row[n - 1]) == [Problem(cols[n - 1], row[n - 1])];
        ProblemsAtAppend(cols, row, ix, n - 1);
      } else {
        assert CellFindings(cols[n - 1], row[n - 1]) == [];
      }
    }
  }

  lemma {:induction false} ProblemsAtAppend(cols: seq<Column>, row: Row, ix: seq<nat>, c: nat)
    requires |row| == |cols| && c < |cols| && forall k :: 0 <= k < |ix| ==> ix[k] < |cols|
    ensures ProblemsAt(cols, row, ix + [c]) == ProblemsAt(cols, row, ix) + [Problem(cols[c], row[c])]
  {
  }

  /** The positions of a row's dirty cells, left to right. */
  function DirtyCells(row: Row): seq<nat>
  {
    IndicesWhere(CellDirtyFlags(row), true, |row|)
  }

  /** The dirtiness of every row, top to bottom. */
  function DirtyFlags(t: Table): seq<bool>
  {
    seq(|t.rows|, i requires 0 <= i < |t.rows| => RowIsDirty(t.rows[i]))
  }

  /** The positions below `n` whose flag is `want`, in order. */
  function IndicesWhere(flags: seq<bool>, want: bool, n: nat): (ix: seq<nat>)
    requires n <= |flags|
    ensures |ix| <= n
    ensures forall k :: 0 <= k < |ix| ==> ix[k] < n
  {
    if n == 0 then []
    else
      var prev := IndicesWhere(flags, want, n - 1);
      if flags[n - 1] == want then prev + [n - 1] else prev
  }

  /** The listed positions are below `n`, carry the flag `want`, are in
      increasing order, and are all such positions. */
  lemma {:induction false} IndicesWhereListsMatches(flags: seq<bool>, want: bool, n: nat)
    requires n <= |flags|
    ensures forall k :: 0 <= k < |IndicesWhere(flags, want, n)| ==>
      IndicesWhere(flags, want, n)[k] < n && flags[IndicesWhere(flags, want, n)[k]] == want
    ensures forall k, l :: 0 <= k < l < |IndicesWhere(flags, want, n)| ==>
      IndicesWhere(flags, want, n)[k] < IndicesWhere(flags, want, n)[l]
    ensures forall i :: 0 <= i < n ==> (i in IndicesWhere(flags, want, n) <==> flags[i] == want)
  {
    if n > 0 {
      IndicesWhereListsMatches(flags, want, n - 1);
    }
  }

  /** `dirty_row_indices`: the positions of the dirty rows, in order. */
  function DirtyIndices(t: Table): seq<nat>
  {
    IndicesWhere(DirtyFlags(t), true, |t.rows|)
  }

  /** The positions of the clean rows, in order. */
  function CleanIndices(t: Table): seq<nat>
  {
    IndicesWhere(DirtyFlags(t), false, |t.rows|)
  }

  /** The positions flagged `true` and those flagged `false` below `n`
      number `n` together. */
  lemma {:induction false} IndicesWhereSizes(flags: seq<bool>, n: nat)
    requires n <= |flags|
    ensures |IndicesWhere(flags, true, n)| + |IndicesWhere(flags, false, n)| == n
  {
    if n > 0 {
      IndicesWhereSizes(flags, n - 1);
    }
  }

  /** The partition is a strict, stable split: each row lands on exactly
      one side, the two sides together are as many as the rows, and each
      side keeps the original order. */
  lemma {:induction false} PartitionIsStrictStableSplit(t: Table)
    requires WellFormed(t)
    ensures |DirtyIndices(t)| + |CleanIndices(t)| == |t.rows|
    ensures forall i :: 0 <= i < |t.rows| ==> ((i in DirtyIndices(t)) <==> (i !in CleanIndices(t)))
    ensures forall i :: 0 <= i < |t.rows| ==> ((i in DirtyIndices(t)) <==> RowIsDirty(t.rows[i]))
    ensures forall k, l :: 0 <= k < l < |DirtyIndices(t)| ==> DirtyIndices(t)[k] < DirtyIndices(t)[l]
    ensures forall k, l :: 0 <= k < l < |CleanIndices(t)| ==> CleanIndices(t)[k] < CleanIndices(t)[l]
  {
    var flags := DirtyFlags(t);
    assert |flags| == |t.rows| && forall i :: 0 <= i < |t.rows| ==> flags[i] == RowIsDirty(t.rows[i]);
    IndicesWhereSizes(flags, |t.rows|);
    IndicesWhereListsMatches(flags, true, |t.rows|);
    IndicesWhereListsMatches(flags, false, |t.rows|);
  }

  /** `df.loc[ix]`: the rows at the listed positions. */
  function Select(rows: seq<Row>, ix: seq<nat>): seq<Row>
    requires forall k :: 0 <= k < |ix| ==> ix[k] < |rows|
  {
    seq(|ix|, k requires 0 <= k < |ix| => rows[ix[k]])
  }

  /** The positions below `n` that are not listed in `ix`, in order. */
  function Remaining(ix: seq<nat>, n: nat): (r: seq<nat>)
    ensures forall k :: 0 <= k < |r| ==> r[k] < n && r[k] !in ix
    ensures forall i :: 0 <= i < n && i !in ix ==> i in r
  {
    if n == 0 then [] else Remaining(ix, n - 1) + (if n - 1 in ix then [] else [n - 1])
  }

  /** `df.drop(ix)`: the rows at the positions not listed. */
  function Drop(rows: seq<Row>, ix: seq<nat>): seq<Row>
  {
    Select(rows, Remaining(ix, |rows|))
  }

  /** Dropping the positions flagged `true` leaves exactly the positions
      flagged `false`. */
  lemma {:induction false} RemainingIsComplement(flags: seq<bool>, n: nat)
    requires n <= |flags|
    ensures Remaining(IndicesWhere(flags, true, |flags|), n) == IndicesWhere(flags, false, n)
  {
    if n > 0 {
      RemainingIsComplement(flags, n - 1);
      IndicesWhereListsMatches(flags, true, |flags|);
    }
  }

  /** The rows among the first `n` whose flag is `want`, in order. */
  function Kept(rows: seq<Row>, flags: seq<bool>, want: bool, n: nat): seq<Row>
    requires n <= |flags| == |rows|
  {
    if n == 0 then [] else Kept(rows, flags, want, n - 1) + if flags[n - 1] == want then [rows[n - 1]] else []
  }

  /** Selecting the flagged positions picks the flagged rows. */
  lemma {:induction false} SelectIsKept(rows: seq<Row>, flags: seq<bool>, want: bool, n: nat)
    requires n <= |flags| == |rows|
    ensures Select(rows, IndicesWhere(flags, want, n)) == Kept(rows, flags, want, n)
  {
    if n > 0 {
      SelectIsKept(rows, flags, want, n - 1);
      if flags[n - 1] == want {
        SelectAppend(rows, IndicesWhere(flags, want, n - 1), n - 1);
      }
    }
  }

  /** Splitting by a flag loses and duplicates no row: the rows flagged
      `true` and the rows flagged `false` among the first `n` are, together,
      exactly those `n` rows. */
  lemma {:induction false} SplitKeepsRows(rows: seq<Row>, flags: seq<bool>, n: nat)
    requires n <= |flags| == |rows|
    ensures multiset(Kept(rows, flags, true, n)) + multiset(Kept(rows, flags, false, n)) == multiset(rows[..n])
  {
    if n > 0 {
      SplitKeepsRows(rows, flags, n - 1);
      TakeOneMore(rows, n);
      var yes, no := Kept(rows, flags, true, n - 1), Kept(rows, flags, false, n - 1);
      if flags[n - 1] {
        assert Kept(rows, flags, true, n) == yes + [rows[n - 1]];
        assert Kept(rows, flags, false, n) == no;
      } else {
        assert Kept(rows, flags, true, n) == yes;
        assert Kept(rows, flags, false, n) == no + [rows[n - 1]];
      }
    }
  }

  lemma {:induction false} TakeOneMore<T>(s: seq<T>, n: nat)
    requires 0 < n <= |s|
    ensures multiset(s[..n]) == multiset(s[..n - 1]) + multiset{s[n - 1]}
  {
    assert s[..n] == s[..n - 1] + [s[n - 1]];
  }

  lemma {:induction false} SelectAppend(rows: seq<Row>, ix: seq<nat>, i: nat)
    requires i < |rows| && forall k :: 0 <= k < |ix| ==> ix[k] < |rows|
    ensures Select(rows, ix + [i]) == Select(rows, ix) + [rows[i]]
  {
  }

  /** `df.loc[dirty_row_indices]` and `df.drop(dirty_row_indices)` together
      hold every row of the frame, each once. */
  lemma {:induction false} PartitionKeepsRows(t: Table)
    ensures multiset(Select(t.rows, DirtyIndices(t))) + multiset(Drop(t.rows, DirtyIndices(t))) == multiset(t.rows)
  {
    RemainingIsComplement(DirtyFlags(t), |t.rows|);
    SelectIsKept(t.rows, DirtyFlags(t), true, |t.rows|);
    SelectIsKept(t.rows, DirtyFlags(t), false, |t.rows|);
    SplitKeepsRows(t.rows, DirtyFlags(t), |t.rows|);
    assert t.rows[..|t.rows|] == t.rows;
  }

  /** `str(v)[:50]` for every column of the row, in column order. */
  function RowData(cols: seq<Column>, row: Row): (fs: seq<Field>)
    requires |row| == |cols|
    ensures |fs| == |cols|
    ensures forall k :: 0 <= k < |fs| ==>
      fs[k].column == cols[k].name && |fs[k].value| <= RowDataLimit && fs[k].value == Truncate(Display(row[k]), RowDataLimit)
  {
    seq(|cols|, k requires 0 <= k < |cols| => Field(cols[k].name, Truncate(Display(row[k]), RowDataLimit)))
  }

  /** The record the scan keeps for the row at position `i`. */
  function ProblemOf(t: Table, i: nat): RowProblem
    requires WellFormed(t) && i < |t.rows|
  {
    RowProblem(i + HeaderOffset, RowData(t.columns, t.rows[i]), RowIssues(t.columns, t.rows[i], |t.columns|))
  }

  /** `dirty_row_details` after the scan has looked at the first `n` rows. */
  function Details(t: Table, n: nat): seq<RowProblem>
    requires WellFormed(t) && n <= |t.rows|
  {
    if n == 0 then []
    else Details(t, n - 1) + if DirtyFlags(t)[n - 1] then [ProblemOf(t, n - 1)] else []
  }

  /** The records are those of the dirty rows, one each, in row order. */
  lemma {:induction false} DetailsAreProblems(t: Table, n: nat)
    requires WellFormed(t) && n <= |t.rows|
    ensures |Details(t, n)| == |IndicesWhere(DirtyFlags(t), true, n)|
    ensures forall k :: 0 <= k < |Details(t, n)| ==>
      IndicesWhere(DirtyFlags(t), true, n)[k] < n && Details(t, n)[k] == ProblemOf(t, IndicesWhere(DirtyFlags(t), true, n)[k])
  {
    if n > 0 {
      DetailsAreProblems(t, n - 1);
    }
  }

  /** What a dirty row's record says: its display number, a truncated view
      of every column, and a non-empty list of problems, one per dirty cell
      in column order, each naming the cell's column, its value cut to 100
      characters and the issues detected in it. */
  lemma {:induction false} DirtyRowReport(t: Table, i: nat)
    requires WellFormed(t) && i < |t.rows| && RowIsDirty(t.rows[i])
    ensures ProblemOf(t, i).rowNumber == i + 2
    ensures |ProblemOf(t, i).rowData| == |t.columns|
    ensures forall k :: 0 <= k < |t.columns| ==> |ProblemOf(t, i).rowData[k].value| <= 50
    ensures |ProblemOf(t, i).problems| > 0
    ensures |ProblemOf(t, i).problems| == |DirtyCells(t.rows[i])|
    ensures forall c :: 0 <= c < |t.columns| ==> (c in DirtyCells(t.rows[i]) <==> CellIsDirty(t.rows[i][c]))
    ensures forall k, l :: 0 <= k < l < |DirtyCells(t.rows[i])| ==> DirtyCells(t.rows[i])[k] < DirtyCells(t.rows[i])[l]
    ensures forall k :: 0 <= k < |ProblemOf(t, i).problems| ==>
      var c := DirtyCells(t.rows[i])[k];
      && c < |t.columns| && CellIsDirty(t.rows[i][c])
      && ProblemOf(t, i).problems[k] == CellProblem(t.columns[c].name, Truncate(t.rows[i][c].s, 100), Detect(t.rows[i][c]))
  {
    var row := t.rows[i];
    RowIsDirtyIff(t.columns, row);
    RowIssuesAreCellProblems(t.columns, row, |t.columns|);
    IndicesWhereListsMatches(CellDirtyFlags(row), true, |row|);
  }


  /** A clean row after the column pass over the first `n` columns: each
      textual cell among them replaced by `clean_text` of it. */
  function CleanColumns(cols: seq<Column>, row: Row, n: nat): (r: Row)
    requires |row| == |cols|
    ensures |r| == |row|
  {
    seq(|row|, k requires 0 <= k < |row| =>
      if k < n && cols[k].kind == Textual then Text(CleanText(row[k])) else row[k])
  }

  /** Cleaning column `c` of a row whose first `c` columns are done. */
  lemma {:induction false} CleanColumnsStep(cols: seq<Column>, row: Row, c: nat)
    requires |row| == |cols| && c < |cols|
    ensures CleanColumns(cols, row, c)[c] == row[c]
    ensures CleanColumns(cols, row, c + 1) ==
      if cols[c].kind == Textual then CleanColumns(cols, row, c)[c := Text(CleanText(row[c]))] else CleanColumns(cols, row, c)
  {
    var a, b := CleanColumns(cols, row, c), CleanColumns(cols, row, c + 1);
    var a' := if cols[c].kind == Textual then a[c := Text(CleanText(row[c]))] else a;
    forall k | 0 <= k < |b| ensures b[k] == a'[k] {
      if k != c {
        assert a'[k] == a[k];
      }
    }
  }

  /** A clean row as it is returned. */
  function CleanRow(cols: seq<Column>, row: Row): Row
    requires |row| == |cols|
  {
    CleanColumns(cols, row, |cols|)
  }

  /** Clean rows: every textual cell is replaced by its cleaned text, every
      other cell is unchanged, and a cell that was not dirty (a string or a
      missing value) is not dirty after cleaning. */
  lemma {:induction false} CleanRowCells(cols: seq<Column>, row: Row, k: nat)
    requires |row| == |cols| && k < |cols| && !RowIsDirty(row)
    ensures |CleanRow(cols, row)| == |cols|
    ensures cols[k].kind == Textual ==> CleanRow(cols, row)[k] == Text(CleanText(row[k]))
    ensures cols[k].kind != Textual ==> CleanRow(cols, row)[k] == row[k]
    ensures !row[k].Other? ==> !CellIsDirty(CleanRow(cols, row)[k])
  {
    if row[k].Text? && cols[k].kind == Textual {
      assert !CellIsDirty(row[k]);
      ContainsUnclenableIff(row[k].s);
      NormalizeKeepsClean(row[k].s);
      ContainsUnclenableIff(Normalize(row[k].s));
    }
  }

  /** `clean_df[col].apply(clean_text)`. */
  function ApplyCleanText(rows: seq<Row>, c: nat): seq<Row>
    requires forall i :: 0 <= i < |rows| ==> c < |rows[i]|
  {
    seq(|rows|, i requires 0 <= i < |rows| => rows[i][c := Text(CleanText(rows[i][c]))])
  }

  /** `df[col]`: the column's values, top to bottom. */
  function ColumnValues(rows: seq<Row>, c: nat): seq<Cell>
    requires forall i :: 0 <= i < |rows| ==> c < |rows[i]|
  {
    seq(|rows|, i requires 0 <= i < |rows| => rows[i][c])
  }

  /** `any(has_unclenable_chars(str(v)) for v in values.dropna())`. */
  function AnyUnclenable(values: seq<Cell>): bool
  {
    if |values| == 0 then false
    else (!values[0].Missing? && HasUnclenableChars(Text(Display(values[0])))) || AnyUnclenable(values[1..])
  }

  /** The column test holds exactly when some non-missing value shows an
      unclenable character. */
  lemma {:induction false} AnyUnclenableIff(values: seq<Cell>)
    ensures AnyUnclenable(values) <==> exists i :: 0 <= i < |values| && ShowsUnclenable(values[i])
  {
    if |values| > 0 {
      HasUnclenableCharsIff(Text(Display(values[0])));
      var rest := values[1..];
      AnyUnclenableIff(rest);
      if AnyUnclenable(rest) {
        var i :| 0 <= i < |rest| && ShowsUnclenable(rest[i]);
        assert ShowsUnclenable(values[i + 1]);
      } else if AnyUnclenable(values) {
        assert ShowsUnclenable(values[0]);
      } else {
        forall i | 0 <= i < |values| ensures !ShowsUnclenable(values[i]) {
          if i > 0 {
            assert values[i] == rest[i - 1];
          }
        }
      }
    }
  }

  /** Some non-missing value anywhere in column `c` has an unclenable
      character, whichever side its row landed on. */
  predicate ColumnHadUnclenable(t: Table, c: nat)
    requires WellFormed(t) && c < |t.columns|
  {
    exists i :: 0 <= i < |t.rows| && ShowsUnclenable(t.rows[i][c])
  }

  /** Testing the column's values finds what `ColumnHadUnclenable` says. */
  lemma {:induction false} ColumnTestIff(t: Table, c: nat)
    requires WellFormed(t) && c < |t.columns|
    ensures AnyUnclenable(ColumnValues(t.rows, c)) == ColumnHadUnclenable(t, c)
  {
    var vs := ColumnValues(t.rows, c);
    AnyUnclenableIff(vs);
    assert |vs| == |t.rows| && forall i :: 0 <= i < |vs| ==> vs[i] == t.rows[i][c];
  }

  /** The names of the textual columns. */
  function TextualNames(cols: seq<Column>, n: nat): set<string>
    requires n <= |cols|
  {
    set k | 0 <= k < n && cols[k].kind == Textual :: cols[k].name
  }

  /** The `'type'` value of every `column_analysis` entry. */
  const StringType := "string"

  /** One step of the row loop, given the problems found in row `i`. */
  lemma {:induction false} ScanRowsStep(t: Table, i: nat, rowIssues: seq<CellProblem>)
    requires WellFormed(t) && i < |t.rows| && rowIssues == RowIssues(t.columns, t.rows[i], |t.columns|)
    ensures IndicesWhere(DirtyFlags(t), true, i + 1) ==
      IndicesWhere(DirtyFlags(t), true, i) + if |rowIssues| > 0 then [i] else []
    ensures Details(t, i + 1) ==
      Details(t, i) + if |rowIssues| > 0 then [RowProblem(i + HeaderOffset, RowData(t.columns, t.rows[i]), rowIssues)] else []
  {
    RowIsDirtyIff(t.columns, t.rows[i]);
  }

  /** The scan of one cell: detection runs only on non-missing strings,
      and issues found make one problem. */
  method ScanCell(col: Column, value: Cell) returns (found: seq<CellProblem>)
    ensures found == CellFindings(col, value)
  {
    var issues := [];
    if value.Text? {
      issues := DetectUnclenableChars(value);
    }
    found := [];
    if |issues| > 0 {
      found := [CellProblem(col.name, Truncate(Display(value), ProblemValueLimit), issues)];
    }
  }

  /** The inner loop of the row scan: every cell in which the scan finds
      issues adds one problem. */
  lemma {:induction false} RowIssuesStep(cols: seq<Column>, row: Row, c: nat)
    requires c < |cols| && |row| == |cols|
    ensures RowIssues(cols, row, c + 1) == RowIssues(cols, row, c) + CellFindings(cols[c], row[c])
  {
  }

  method ScanRow(cols: seq<Column>, row: Row) returns (rowIssues: seq<CellProblem>)
    requires |row| == |cols|
    ensures rowIssues == RowIssues(cols, row, |cols|)
  {
    rowIssues := [];
    for c := 0 to |cols|
      invariant rowIssues == RowIssues(cols, row, c)
    {
      var found := ScanCell(cols[c], row[c]);
      RowIssuesStep(cols, row, c);
      rowIssues := rowIssues + found;
    }
  }

  /** The row loop of `process_dataframe`: the positions of the dirty rows
      and one problem record per dirty row, in row order. */
  method ScanRows(t: Table) returns (dirtyRowIndices: seq<nat>, details: seq<RowProblem>)
    requires WellFormed(t)
    ensures dirtyRowIndices == DirtyIndices(t)
    ensures |details| == |dirtyRowIndices|
    ensures forall k :: 0 <= k < |details| ==> details[k] == ProblemOf(t, dirtyRowIndices[k])
  {
    dirtyRowIndices := [];
    details := [];
    for i := 0 to |t.rows|
      invariant dirtyRowIndices == IndicesWhere(DirtyFlags(t), true, i)
      invariant details == Details(t, i)
    {
      var row := t.rows[i];
      var rowIssues := ScanRow(t.columns, row);
      ScanRowsStep(t, i, rowIssues);
      if |rowIssues| > 0 {
        dirtyRowIndices := dirtyRowIndices + [i];
        details := details + [RowProblem(i + HeaderOffset, RowData(t.columns, row), rowIssues)];
      }
    }
    DetailsAreProblems(t, |t.rows|);
  }

  /** The kept rows after the cleaning loop has done its first `n` columns. */
  function CleanedUpTo(cols: seq<Column>, rows: seq<Row>, n: nat): (r: seq<Row>)
    requires forall i :: 0 <= i < |rows| ==> |rows[i]| == |cols|
    ensures |r| == |rows|
  {
    seq(|rows|, i requires 0 <= i < |rows| => CleanColumns(cols, rows[i], n))
  }

  /** One pass of the cleaning loop: a textual column has `clean_text`
      applied, any other column is left alone. */
  lemma {:induction false} CleanedUpToStep(cols: seq<Column>, rows: seq<Row>, c: nat)
    requires forall i :: 0 <= i < |rows| ==> |rows[i]| == |cols|
    requires c < |cols|
    ensures CleanedUpTo(cols, rows, c + 1) ==
      if cols[c].kind == Textual then ApplyCleanText(CleanedUpTo(cols, rows, c), c) else CleanedUpTo(cols, rows, c)
  {
    var a, b := CleanedUpTo(cols, rows, c), CleanedUpTo(cols, rows, c + 1);
    var a' := if cols[c].kind == Textual then ApplyCleanText(a, c) else a;
    forall i | 0 <= i < |rows| ensures b[i] == a'[i] {
      CleanColumnsStep(cols, rows[i], c);
    }
  }

  /** The cleaning loop of `process_dataframe`: `clean_text` applied to
      every textual column of the kept rows, column after column. */
  method CleanKeptRows(cols: seq<Column>, rows: seq<Row>) returns (cleanRows: seq<Row>)
    requires forall r :: 0 <= r < |rows| ==> |rows[r]| == |cols|
    ensures |cleanRows| == |rows|
    ensures forall r :: 0 <= r < |rows| ==> cleanRows[r] == CleanRow(cols, rows[r])
  {
    cleanRows := rows;
    forall i | 0 <= i < |rows| ensures CleanColumns(cols, rows[i], 0) == rows[i] {
      assert CleanColumns(cols, rows[i], 0) == rows[i];
    }
    assert cleanRows == CleanedUpTo(cols, rows, 0);
    for c := 0 to |cols|
      invariant cleanRows == CleanedUpTo(cols, rows, c)
    {
      CleanedUpToStep(cols, rows, c);
      if cols[c].kind == Textual {
        cleanRows := ApplyCleanText(cleanRows, c);
      }
    }
  }

  /** The analysis loop of `process_dataframe`: for every textual column,
      whether any non-missing value of the whole original column has an
      unclenable character. */
  method AnalyzeColumns(t: Table) returns (analysis: map<string, ColumnReport>)
    requires WellFormed(t)
    ensures analysis.Keys == TextualNames(t.columns, |t.columns|)
    ensures forall k :: 0 <= k < |t.columns| && t.columns[k].kind == Textual ==>
      analysis[t.columns[k].name] == ColumnReport(StringType, ColumnHadUnclenable(t, k))
  {
    analysis := map[];
    for c := 0 to |t.columns|
      invariant analysis.Keys == TextualNames(t.columns, c)
      invariant forall k :: 0 <= k < c && t.columns[k].kind == Textual ==>
        analysis[t.columns[k].name] == ColumnReport(StringType, ColumnHadUnclenable(t, k))
    {
      if t.columns[c].kind == Textual {
        var hasIssues := AnyUnclenable(ColumnValues(t.rows, c));
        ColumnTestIff(t, c);
        analysis := analysis[t.columns[c].name := ColumnReport(StringType, hasIssues)];
      }
      assert TextualNames(t.columns, c + 1) ==
        TextualNames(t.columns, c) + (if t.columns[c].kind == Textual then {t.columns[c].name} else {});
    }
  }

  /** `process_dataframe`: the clean rows (cleaned), the dirty rows
      (unchanged, or a table with no columns when there are none), one
      problem record per dirty row and the per-column analysis. */
  method ProcessDataFrame(t: Table) returns (clean: Table, dirty: Table, details: seq<RowProblem>, analysis: map<string, ColumnReport>)
    requires WellFormed(t)
    ensures clean.columns == t.columns
    ensures |clean.rows| == |CleanIndices(t)|
    ensures forall k :: 0 <= k < |clean.rows| ==> clean.rows[k] == CleanRow(t.columns, t.rows[CleanIndices(t)[k]])
    ensures dirty.columns == if |DirtyIndices(t)| == 0 then [] else t.columns
    ensures |dirty.rows| == |DirtyIndices(t)|
    ensures forall k :: 0 <= k < |dirty.rows| ==> dirty.rows[k] == t.rows[DirtyIndices(t)[k]]
    ensures |details| == |DirtyIndices(t)|
    ensures forall k :: 0 <= k < |details| ==> details[k] == ProblemOf(t, DirtyIndices(t)[k])
    ensures |clean.rows| + |dirty.rows| == |t.rows|
    ensures analysis.Keys == TextualNames(t.columns, |t.columns|)
    ensures forall k :: 0 <= k < |t.columns| && t.columns[k].kind == Textual ==>
      analysis[t.columns[k].name] == ColumnReport(StringType, ColumnHadUnclenable(t, k))
  {
    var dirtyRowIndices;
    dirtyRowIndices, details := ScanRows(t);

    RemainingIsComplement(DirtyFlags(t), |t.rows|);
    PartitionIsStrictStableSplit(t);
    var kept := Drop(t.rows, dirtyRowIndices);
    dirty := if |dirtyRowIndices| > 0 then Table(t.columns, Select(t.rows, dirtyRowIndices)) else Table([], []);

    var cleanRows := CleanKeptRows(t.columns, kept);
    clean := Table(t.columns, cleanRows);

    analysis := AnalyzeColumns(t);
  }
}
