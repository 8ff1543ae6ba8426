# Data-cleaning gate: character rules, detection, cleaning and row partition

This project models the decision logic of `CleanDataFunction.py`, a gate
that checks tabular data for corrupted characters before it is loaded
elsewhere. The model covers five parts of that file:

- **The two rule tables.** `CLEANABLE_CHARS` is a list of single characters,
  each with a safe replacement. `UNCLENABLE_PATTERNS` holds seven named
  detectors of characters that signal corruption. Every detector is a class
  of single code points.
- **`clean_text`.** A missing value becomes `""`. Any other value is
  rendered with `str`. Every cleanable rule is then applied in declaration
  order, whitespace runs are collapsed to one space and the ends are
  stripped.
- **`detect_unclenable_chars`.** Each detector runs over the raw value. For
  each detector that matches, the result is one issue with the match count
  and the first three matches.
- **`has_unclenable_chars`.** It tests whether detection reports anything.
- **`process_dataframe`.**
  - A row is dirty when one of its non-missing string cells has an issue.
  - Each dirty row gets a problem record. The record holds the row number
    (position + 2), every cell cut to 50 characters, and every problem cell
    cut to 100 characters with its issues.
  - The dirty rows are returned unchanged.
  - The clean rows keep their order, and each textual column is passed
    through `clean_text`.
  - Every textual column is reported with whether any non-missing value of
    the whole original column had an issue.

The Dafny modules follow the file's structure:

- `Tables` (`tables.dfy`): cells, columns, rows and tables. It also holds
  `str(v)` (`Display`) and Python slicing `s[:n]` (`Truncate`).
- `CharacterRules` (`character_rules.dfy`): the two tables. It also holds
  the union of the detector classes (`IsUnclenableChar`) and Python's
  whitespace test for `str.split`/`str.strip` (`IsPySpace`).
- `Detection` (`detection.dfy`): `re.findall` for single-character classes,
  the detection loop as a method, its specification `Detect` and
  `has_unclenable_chars`.
- `TextCleaning` (`text_cleaning.dfy`): `clean_text` as recursive
  functions, with its shape, provenance and idempotence.
- `Processing` (`processing.dfy`): `process_dataframe` as methods with
  loops.
  - The methods are proved against specification functions:
    - `RowIssues` for the cell loop;
    - `IndicesWhere` and `Details` for the row loop;
    - `CleanedUpTo` for the cleaning loop;
    - `ColumnHadUnclenable` for the analysis loop.
  - Lemmas prove the partition and report properties about those functions.

A table is a column list, where each column is textual (pandas `object`
dtype) or not, plus rows of cells. A cell is `Missing` (what `pd.isna`
accepts), `Text(s)` (a Python `str`) or `Other(rendered)` (any other value,
carried as its `str(v)` rendering).

## Model

| member | source | states |
|---|---|---|
| Tables.Display | CleanDataFunction.py:80 | definition of `str(v)`: a string renders as itself, a missing value (NaN) as "nan", any other value as its rendering; what detection and the reports see of a cell (see `Detection.DetectNonEmptyIff`, `Processing.RowIssuesAreCellProblems`) |
| Tables.Truncate | CleanDataFunction.py:145 | a display cut is never longer than the limit nor than the value |
| Tables.TruncateIsPrefix | CleanDataFunction.py:153 | the cut is Python's `s[:n]`: the whole value when it fits, otherwise its first `n` characters |
| CharacterRules.CleanableSourcesNotReplaced | CleanDataFunction.py:14-28 | no replacement string contains any rule's source character, so a later rule never re-matches an earlier rule's output |
| CharacterRules.CleanableCharsAreDictionary | CleanDataFunction.py:14-28 | the `CLEANABLE_CHARS` table (`CleanableChars`) has thirteen rules in declaration order, no two with the same source, as the keys of a dictionary |
| CharacterRules.UnionOfClasses | CleanDataFunction.py:33-69 | a character is matched by some one of the seven detector classes iff it lies in the listed code-point ranges (0x00-0x08, 0x0B, 0x0C, 0x0E-0x1F, 0x85, 0x8D, 0x8F, 0x90, 0x9D, U+FFFD, U+E000-U+F8FF) |
| CharacterRules.UnclenablePatternsAreDictionary | CleanDataFunction.py:33-69 | the `UNCLENABLE_PATTERNS` table (`UnclenablePatterns`) has seven detectors in declaration order, no two with the same name, as the keys of a dictionary; their classes are fixed by `UnionOfClasses` |
| CharacterRules.InClass | CleanDataFunction.py:104 | definition of a regular-expression class match on one character: its code point lies in one of the class's ranges; used by `FindAllInClass`, `FindAllCounts` and `UnionOfClasses` |
| CharacterRules.TabNewlineReturnNotFlagged | CleanDataFunction.py:39-43 | tab, line feed and carriage return are in no detector class |
| CharacterRules.EscapeIsControl | CleanDataFunction.py:40-45 | every character of the escape class is also in the control class |
| CharacterRules.SpaceIsNotSource | CleanDataFunction.py:14-28 | the space used to join words is not a cleanable source character |
| CharacterRules.IsPySpace | CleanDataFunction.py:87-89 | definition of Python's `str.isspace` on one character, the separator of `split` and what `strip` removes; used by `SplitAtSpace`, `SplitConcat`, `StripLeftSuffix` and `StripRightPrefix` |
| CharacterRules.ReplacementsAreNotUnclenable | CleanDataFunction.py:14-69 | no character of any replacement string, and not the space, is matched by a detector |
| Detection.FindAll | CleanDataFunction.py:104 | `re.findall` of a single-character class yields at most as many matches as the text has characters |
| Detection.FindAllInClass | CleanDataFunction.py:104 | every match is a character of the class |
| Detection.FindAllEmptyIff | CleanDataFunction.py:104-105 | there are no matches iff no character of the text is in the class |
| Detection.FindAllCounts | CleanDataFunction.py:104 | the matches are exactly the text's characters in the class, each as often as it occurs, so the match count is the number of such characters |
| Detection.FindAllEverything | CleanDataFunction.py:104 | a text made only of class characters is matched in full |
| Detection.FindAllAppend | CleanDataFunction.py:104 | matching a concatenation gives the matches of the first part followed by those of the second |
| Detection.DetectIn | CleanDataFunction.py:103-112 | detection reports at most one issue per detector |
| Detection.FiringIsOrderedMatches | CleanDataFunction.py:103-105 | the positions of the detectors that report are valid, strictly increasing (declaration order), and a detector is among them iff it matches at least once |
| Detection.DetectInIsFiring | CleanDataFunction.py:103-112 | issue `k` is the record of the `k`-th matching detector: its name, its match count and its first matches |
| Detection.DetectInCounts | CleanDataFunction.py:110-111 | every issue has count at least 1 and min(count, 3) sample matches |
| Detection.Detect | CleanDataFunction.py:97-98 | a missing value has no issues |
| Detection.DetectUnclenableChars | CleanDataFunction.py:92-114 | the detector loop returns the issues of the specification `Detect`: empty for a missing value, otherwise one issue per matching detector in declaration order |
| Detection.DetectInNonEmpty | CleanDataFunction.py:103-114 | detection reports something iff some character of the text is in some detector's class |
| Detection.DetectNonEmptyIff | CleanDataFunction.py:97-114 | detection of a value reports something iff the value is not missing and one character of `str(v)` is in the union of the seven classes |
| Detection.ContainsUnclenableIff | CleanDataFunction.py:117-119 | the recursive scan for an unclenable character agrees with "some position holds one" |
| Detection.HasUnclenableChars | CleanDataFunction.py:117-119 | definition of `has_unclenable_chars` as "detection reports something"; specified by `HasUnclenableCharsIff` |
| Detection.HasUnclenableCharsIff | CleanDataFunction.py:117-119 | `has_unclenable_chars` holds iff the value is not missing and some character of it is in the union of the seven classes |
| Detection.IssueCounts | CleanDataFunction.py:103-112 | each issue of a value is the record of one detector on `str(v)`, with count at least 1 and min(count, 3) samples |
| Detection.IssueFor | CleanDataFunction.py:106-112 | definition of one issue record: the detector, `len(matches)` and `matches[:3]`; specified by `DetectInIsFiring` and `DetectInCounts` |
| Detection.EscapeCountedAsControl | CleanDataFunction.py:40-45 | the control detector matches at least as often as the escape detector |
| Detection.EscapeRaisesBoth | CleanDataFunction.py:39-48 | a value holding `\x1B` gets a `control_chars` issue and, after it, an `escape_char` issue |
| Detection.InsertLayoutCharUnflagged | CleanDataFunction.py:39-43 | inserting a tab, line feed or carriage return anywhere in a string changes none of its issues |
| Detection.DetectInInsert | CleanDataFunction.py:103-112 | inserting a character that no detector matches leaves the issue list unchanged |
| Detection.FindAllInsert | CleanDataFunction.py:104 | inserting a character outside the class leaves the matches unchanged |
| TextCleaning.ReplaceCharChars | CleanDataFunction.py:84 | `str.replace` yields only characters of the text other than the replaced one, or characters of the replacement; without the character the text is unchanged (the converse, character by character, is `ReplaceCharAppend` with `ApplyRulesIsSubstAll`) |
| TextCleaning.ReplaceCharPointwise | CleanDataFunction.py:84 | a one-character replacement keeps the length and rewrites exactly the positions holding the replaced character |
| TextCleaning.ReplaceChar | CleanDataFunction.py:84 | definition of `str.replace` for a one-character pattern; specified by `ReplaceCharPointwise`, `ReplaceCharAppend` and `ReplaceCharChars` |
| TextCleaning.ReplaceCharAppend | CleanDataFunction.py:84 | replacing in a concatenation is replacing in each part: the replacement works character by character |
| TextCleaning.ApplyRules | CleanDataFunction.py:83-84 | definition of the rule loop, a fold of `str.replace` over the rules in declaration order; specified by `ApplyRulesIsSubstAll` and `ApplyRulesChars` |
| TextCleaning.ApplyRulesAppend | CleanDataFunction.py:83-84 | the rule loop on a concatenation is the rule loop on each part |
| TextCleaning.Subst | CleanDataFunction.py:14-28 | reference definition: what one character becomes under a rule table, the replacement of the first rule whose source it is, else itself |
| TextCleaning.SubstOfNonSource | CleanDataFunction.py:14-28 | a character that is no rule's source stays as it is |
| TextCleaning.SubstOfSource | CleanDataFunction.py:14-28 | a source character becomes the replacement of the first rule that names it |
| TextCleaning.SubstAll | CleanDataFunction.py:83-84 | reference definition: every character of the text replaced by `Subst` of it, independently |
| TextCleaning.ApplyRulesOneChar | CleanDataFunction.py:83-84 | when no replacement holds a source, the rule loop on one character gives exactly `Subst` of it |
| TextCleaning.ApplyRulesIsSubstAll | CleanDataFunction.py:83-84 | when no replacement holds a source (true of the cleanable table), the rule loop equals the character-by-character reference `SubstAll` |
| TextCleaning.ApplyRulesChars | CleanDataFunction.py:83-84 | the rule loop yields only characters of the text or of replacements; text without any source is unchanged; when no replacement holds a source, no source survives (its exact output is `ApplyRulesIsSubstAll`) |
| TextCleaning.SplitFromWords | CleanDataFunction.py:87 | the `str.split` scan yields non-empty, whitespace-free words made of the text's characters (that no character is lost is `SplitFromConcat`, where words break is `SplitFromAtSpace`) |
| TextCleaning.SplitWords | CleanDataFunction.py:87 | `str.split()` yields non-empty, whitespace-free words made of the text's characters (that no character is lost is `SplitConcat`, where words break is `SplitAtSpace`) |
| TextCleaning.JoinChars | CleanDataFunction.py:87 | every character of `' '.join(words)` is the space or a character of some word |
| TextCleaning.Split | CleanDataFunction.py:87 | definition of `str.split()` with no argument; specified by `SplitAtSpace`, `SplitWords`, `SplitConcat` and `SplitJoin` |
| TextCleaning.Join | CleanDataFunction.py:87 | definition of `' '.join(words)`; specified by `JoinChars`, `JoinCollapsed` and `NonSpaceJoin` |
| TextCleaning.SkipSpaces | CleanDataFunction.py:89 | the first non-whitespace index lies between the start and the end |
| TextCleaning.SkipSpacesSkips | CleanDataFunction.py:89 | everything skipped is whitespace and the character reached is not |
| TextCleaning.StripLeftSuffix | CleanDataFunction.py:89 | `lstrip` keeps a suffix that does not start with whitespace and drops only whitespace |
| TextCleaning.TrimSpaces | CleanDataFunction.py:89 | the trimmed length is at most the original |
| TextCleaning.TrimSpacesTrims | CleanDataFunction.py:89 | everything trimmed is whitespace and the last character kept is not |
| TextCleaning.StripRightPrefix | CleanDataFunction.py:89 | `rstrip` keeps a prefix that does not end with whitespace and drops only whitespace |
| TextCleaning.Strip | CleanDataFunction.py:89 | definition of `str.strip()` as `lstrip` then `rstrip`; specified by `StripLeftSuffix`, `StripRightPrefix`, `StripUnchanged` and `NonSpaceStrip` |
| TextCleaning.StripChars | CleanDataFunction.py:89 | `strip` keeps only characters of its input |
| TextCleaning.SplitJoinStripChars | CleanDataFunction.py:87-89 | split, join and strip add no character except the joining space |
| TextCleaning.JoinCollapsed | CleanDataFunction.py:87 | joining words with single spaces gives text with no whitespace at the ends, only plain spaces, and never two whitespace characters in a row |
| TextCleaning.SplitFromWord | CleanDataFunction.py:87 | a whitespace-free prefix only extends the word being scanned |
| TextCleaning.SplitFromAtSpace | CleanDataFunction.py:87 | a whitespace character ends the word being scanned: the scan of `a + [c] + b` is the scan of `a` followed by the split of `b` |
| TextCleaning.SplitAtSpace | CleanDataFunction.py:87 | `str.split()` breaks at every whitespace character: `Split(a + [c] + b) == Split(a) + Split(b)`; with `Split("") == []` and `SplitJoin` on one word this fixes `Split` on every string |
| TextCleaning.SplitJoin | CleanDataFunction.py:87 | splitting words joined with single spaces gives the words back |
| TextCleaning.StripUnchanged | CleanDataFunction.py:89 | `strip` leaves text without whitespace at either end unchanged |
| TextCleaning.JoinedWordsHaveNoSource | CleanDataFunction.py:87 | split and join bring back no rule source that the text lacked |
| TextCleaning.NonSpace | CleanDataFunction.py:87-89 | reference definition: the non-whitespace characters of a text, in order |
| TextCleaning.Concat | CleanDataFunction.py:87 | reference definition: words run together |
| TextCleaning.NonSpaceAppend | CleanDataFunction.py:87-89 | the non-whitespace characters of a concatenation are those of each part, in order |
| TextCleaning.NonSpaceOfSpaces | CleanDataFunction.py:89 | whitespace-only text has no non-whitespace character |
| TextCleaning.NonSpaceOfWord | CleanDataFunction.py:87 | whitespace-free text keeps all its characters |
| TextCleaning.SplitFromConcat | CleanDataFunction.py:87 | the `str.split` scan loses no character: its words run together are the open word followed by the non-whitespace characters of the rest, in order |
| TextCleaning.SplitConcat | CleanDataFunction.py:87 | the words of `str.split()` run together are exactly the non-whitespace characters of the text, in order |
| TextCleaning.NonSpaceJoin | CleanDataFunction.py:87 | joining words with spaces adds only whitespace: the non-whitespace characters of the result are the words run together |
| TextCleaning.NonSpaceStrip | CleanDataFunction.py:89 | `strip` removes only whitespace: the non-whitespace characters are unchanged |
| TextCleaning.NormalizeKeepsText | CleanDataFunction.py:83-89 | the non-whitespace characters of a cleaned text are those of the text after the rules, in order, and equally those of the character-by-character substitution |
| TextCleaning.CleanText | CleanDataFunction.py:72-89 | definition of `clean_text`: "" for a missing value, otherwise `Normalize` of `str(v)`; specified by `CleanTextShape` and `CleanTextIdempotent` |
| TextCleaning.Normalize | CleanDataFunction.py:83-89 | definition of the rules, split, join and strip steps; specified by `NormalizeShape`, `NormalizeKeepsText`, `NormalizeProvenance`, `NormalizeKeepsClean` and `NormalizeIdempotent` |
| TextCleaning.NormalizeProvenance | CleanDataFunction.py:80-89 | every character of a cleaned value comes from the value, from a replacement, or is the joining space |
| TextCleaning.NormalizeShape | CleanDataFunction.py:83-89 | a cleaned value is collapsed, holds no cleanable source, and has the same words as the value after the rules |
| TextCleaning.CleanTextShape | CleanDataFunction.py:72-89 | `clean_text` of a missing value is `""`; otherwise the result has no surrounding whitespace, no whitespace but single spaces, no cleanable source, the words of the value after the rules, and exactly the non-whitespace characters of the value with every cleanable character substituted |
| TextCleaning.NormalizeKeepsClean | CleanDataFunction.py:14-89 | cleaning a text free of unclenable characters leaves it free of them |
| TextCleaning.NormalizeIdempotent | CleanDataFunction.py:83-89 | cleaning cleaned text changes nothing |
| TextCleaning.NormalizeEmpty | CleanDataFunction.py:83-89 | the empty text cleans to the empty text |
| TextCleaning.CleanTextIdempotent | CleanDataFunction.py:72-89 | `clean_text(clean_text(x)) == clean_text(x)` for every value, missing or not |
| Processing.ScannedIssuesIff | CleanDataFunction.py:140-142 | the row scan finds issues in a cell iff the cell is a non-missing string with an unclenable character |
| Processing.ScannedIssues | CleanDataFunction.py:140-141 | definition of the issues the row scan sees in a cell: detection on a non-missing string, nothing otherwise; specified by `ScannedIssuesIff` |
| Processing.CellFindings | CleanDataFunction.py:139-147 | definition of what one cell adds to `row_issues`: one problem when the scan finds issues, else nothing; specified by `ScanCell` and `RowIssuesAreCellProblems` |
| Processing.RowIssues | CleanDataFunction.py:136-147 | definition of `row_issues` after the first `n` columns; specified by `RowIssuesEmptyIff` and `RowIssuesAreCellProblems` |
| Processing.RowIssuesEmptyIff | CleanDataFunction.py:138-147 | after scanning the first `n` cells, `row_issues` is non-empty iff the scan found issues in one of them |
| Processing.ScanFindsBelowIff | CleanDataFunction.py:138-142 | the scan finds issues among the first `n` cells iff one of them is dirty |
| Processing.RowIsDirtyIff | CleanDataFunction.py:136-149 | a row's `row_issues` is non-empty iff the row has a dirty cell |
| Processing.RowIssuesAreCellProblems | CleanDataFunction.py:136-147 | `row_issues` after `n` columns is exactly one problem per dirty cell among them, in column order, each naming the column, holding the cell's `str` cut to 100 characters and listing that cell's issues |
| Processing.CellDirtyFlags | CleanDataFunction.py:138-142 | definition: the dirtiness of every cell of a row, left to right |
| Processing.Problem | CleanDataFunction.py:143-147 | definition of one cell's problem record: the column, the cell's `str` cut to 100 characters and the issues the scan found; `RowIssuesAreCellProblems` shows it is the record `CellFindings` adds |
| Processing.ProblemsAt | CleanDataFunction.py:143-147 | definition: the problem records of the listed columns, in list order |
| Processing.DirtyCells | CleanDataFunction.py:138-142 | definition: the positions of a row's dirty cells, left to right |
| Processing.DirtyFlags | CleanDataFunction.py:135-150 | definition: one flag per row, the row's dirtiness; what the partition is drawn from (see `PartitionIsStrictStableSplit`) |
| Processing.IndicesWhere | CleanDataFunction.py:150 | the listed positions are below the bound and no more numerous than it |
| Processing.IndicesWhereListsMatches | CleanDataFunction.py:150 | the positions listed are exactly the rows carrying the flag, in strictly increasing order |
| Processing.IndicesWhereSizes | CleanDataFunction.py:158-159 | the number of positions flagged `true` and the number flagged `false` among the first `n` add up to `n` |
| Processing.PartitionIsStrictStableSplit | CleanDataFunction.py:135-159 | each row is dirty-listed iff it is not clean-listed and iff it is dirty; the two sides add up to all rows; each side keeps row order |
| Processing.DirtyIndices | CleanDataFunction.py:150 | definition of `dirty_row_indices`: the positions flagged dirty, in order; specified by `PartitionIsStrictStableSplit` and `ScanRows` |
| Processing.CleanIndices | CleanDataFunction.py:158 | definition of the positions `df.drop(dirty_row_indices)` keeps: those flagged clean, in order; specified by `PartitionIsStrictStableSplit` and `RemainingIsComplement` |
| Processing.Select | CleanDataFunction.py:159 | definition of `df.loc[ix]` by position; specified by `SelectIsKept` and `PartitionKeepsRows` |
| Processing.Remaining | CleanDataFunction.py:158 | the positions left by `df.drop` are exactly those not dropped |
| Processing.RemainingIsComplement | CleanDataFunction.py:158 | dropping the dirty positions leaves exactly the clean positions, in order |
| Processing.Drop | CleanDataFunction.py:158 | definition of `df.drop(ix)` by position: the rows at the positions not listed; specified by `RemainingIsComplement` and `PartitionKeepsRows` |
| Processing.Kept | CleanDataFunction.py:158-159 | reference definition: the rows among the first `n` carrying a given flag, in order |
| Processing.SelectIsKept | CleanDataFunction.py:158-159 | selecting the positions carrying a flag gives exactly the rows carrying it, in order |
| Processing.SplitKeepsRows | CleanDataFunction.py:158-159 | the rows flagged `true` and those flagged `false` together are the rows, each once |
| Processing.PartitionKeepsRows | CleanDataFunction.py:158-159 | `df.loc[dirty_row_indices]` and `df.drop(dirty_row_indices)` together hold every row of the frame, each exactly once |
| Processing.RowData | CleanDataFunction.py:153 | `row_data` has one entry per column, in column order, each the cell's `str` cut to at most 50 characters |
| Processing.ProblemOf | CleanDataFunction.py:151-155 | definition of the `dirty_row_details` entry of one row: number position + 2, `row_data` and `row_issues`; specified by `DirtyRowReport` and `DetailsAreProblems` |
| Processing.DetailsAreProblems | CleanDataFunction.py:149-155 | `dirty_row_details` has one record per dirty row, in row order, each the record of that row |
| Processing.Details | CleanDataFunction.py:149-155 | definition of `dirty_row_details` after the first `n` rows; specified by `DetailsAreProblems` and `ScanRows` |
| Processing.DirtyRowReport | CleanDataFunction.py:136-155 | a dirty row's record has row number position + 2, every cell cut to 50 characters, and a non-empty list of problems, exactly one per dirty cell in column order, each naming that cell's column, its value cut to 100 characters and its issues |
| Processing.CleanColumns | CleanDataFunction.py:162-164 | cleaning some columns of a row keeps its length |
| Processing.CleanColumnsStep | CleanDataFunction.py:162-164 | cleaning one more column replaces that column's cell by its `clean_text` when the column is textual, and changes nothing else |
| Processing.CleanRowCells | CleanDataFunction.py:161-164 | in a clean row, a textual cell becomes its `clean_text`, every other cell is unchanged, and no string or missing cell is dirty after cleaning |
| Processing.CleanRow | CleanDataFunction.py:161-164 | definition of one kept row after the cleaning loop; specified by `CleanRowCells` |
| Processing.ApplyCleanText | CleanDataFunction.py:164 | definition of `apply(clean_text)` on one column; specified through `CleanedUpToStep`, `CleanKeptRows` and `CleanRowCells` |
| Processing.ColumnValues | CleanDataFunction.py:169-172 | definition of `df[col]` by position; its test is related to the whole column by `ColumnTestIff` |
| Processing.AnyUnclenable | CleanDataFunction.py:170-173 | definition of the `any(...)` test over the non-missing values; specified by `AnyUnclenableIff` |
| Processing.AnyUnclenableIff | CleanDataFunction.py:170-173 | the column test holds iff some non-missing value shows an unclenable character |
| Processing.ColumnHadUnclenable | CleanDataFunction.py:166-177 | reference definition: some non-missing value of the whole original column shows an unclenable character; related to the loop by `ColumnTestIff` and `AnalyzeColumns` |
| Processing.ColumnTestIff | CleanDataFunction.py:168-177 | the column test on a column's values agrees with "some non-missing value of the whole original column has an unclenable character" |
| Processing.ScanRowsStep | CleanDataFunction.py:149-155 | one row of the scan appends its position and record iff its `row_issues` is non-empty |
| Processing.ScanCell | CleanDataFunction.py:139-147 | a cell's scan adds one problem iff detection on a non-missing string finds issues |
| Processing.ScanRow | CleanDataFunction.py:136-147 | the cell loop builds exactly `RowIssues` of the row |
| Processing.ScanRows | CleanDataFunction.py:131-155 | the row loop yields exactly the dirty positions in order, and one record per dirty row, each that row's record |
| Processing.CleanedUpTo | CleanDataFunction.py:161-164 | cleaning some columns keeps the number of rows |
| Processing.CleanedUpToStep | CleanDataFunction.py:162-164 | one pass of the cleaning loop applies `clean_text` to a textual column and leaves the table alone otherwise |
| Processing.CleanKeptRows | CleanDataFunction.py:161-164 | the cleaning loop yields, for every kept row, the row with every textual cell replaced by its `clean_text` |
| Processing.AnalyzeColumns | CleanDataFunction.py:166-177 | the analysis has exactly the textual columns as keys, each with type "string" and a flag true iff some non-missing value of the whole original column had an unclenable character |
| Processing.ProcessDataFrame | CleanDataFunction.py:122-179 | clean rows are the non-dirty rows, in order, cleaned; dirty rows are the dirty rows, in order, unchanged (no columns when there are none); one record per dirty row; the two sides add up to all rows; the analysis as above |

## Left out

- The HTTP handler `CleanDataFunction` (`CleanDataFunction.py:182-270`) is I/O glue: the request and response JSON, the Azure Functions decorator and the error envelope.
- Base64 decoding and encoding, and CSV parsing and writing through pandas, are calls into foreign libraries. The model takes the parsed table as its input.
- Logging and `datetime.now()` are side effects and time.
- pandas dtype inference and `pd.isna` are replaced by an explicit column kind (`Textual` for `object` dtype) and an explicit `Missing` cell. The cleaning and analysis loops test the column kind, as the source tests `dtype == 'object'`.
- `iterrows` can coerce the values of a mixed row. The model keeps each cell as it is in the table.
- The row scan's test `isinstance(value, str)` is taken to hold exactly for `Text` cells.
- Row labels are taken to be the default 0-based positions of `pd.read_csv`. Then `df.drop` and `df.loc` by label act on positions, and `int(idx) + 2` is the position plus 2.
- The unused `file_name` parameter of `process_dataframe` is not modelled.
- Detection.Issue: `found_chars` holds the first `min(count, 3)` matched characters themselves, in match order; their `repr(m)` text is not modelled.
- Detection.Issue: the record's `type`, `description` and `example` are derived from its `Detector`, which carries the exact strings of the table.
- CharacterRules.CleanableChars: the four smart-quote entries are shown in CleanDataFunction.py:18-21 flattened to ASCII quotes. Their comments name the left and right quotes and apostrophes, so they are modelled as four rules: U+201C and U+201D become `"`, and U+2018 and U+2019 become `'`.
- Processing.AnalyzeColumns: non-textual columns get no entry in the analysis; the code omits them and the model follows the code.
- Processing.AnalyzeColumns: the analysis is a map, so the insertion order of `column_analysis` (the column order) is not modelled.
- Processing.ProcessDataFrame: the returned tables carry no row labels. pandas keeps the original labels through `drop` and `loc`; in the model the original position of each kept row is `CleanIndices` or `DirtyIndices` of the input, not a field of the result.
- Processing.ProcessDataFrame: the dirty table of a table without dirty rows is `pd.DataFrame()`, a table with no columns and no rows, modelled as `Table([], [])`.
- Processing.CleanRowCells: a non-string value in a textual column (`Other`) is cleaned from its `str` rendering. The lemma makes no claim about unclenable characters in such a cell, because the row scan never examined it.
