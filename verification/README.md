# Multi-year ACS label reconciliation, modelled in Dafny

The repository is a helper module (`utils.py`) for downloading several
vintages of American Community Survey tables through a census-data client,
stacking them into one table, and plotting them. Its own logic, as opposed
to calls into the client, pandas and plotly, is modelled here:

- **Label history** (`LabelHistory`, `label_history.dfy`):
  `get_unique_labels_for_variable` asks the provider for a variable's label
  in every requested year. It groups the years by label in an
  insertion-ordered `defaultdict(list)`. The dictionary is the datatype
  `History`: the keys in insertion order, plus a map from label to years.
  The Python loop is the method `GetUniqueLabelsForVariable`, proved
  equal to the function `Group`. The lemmas relate `Group` to
  definitions that do not follow the loop: a filter of the years by label,
  the first position at which each label is seen, and a permutation of the
  input.
- **Label-drift sweep** (`LabelDrift`, `label_drift.dfy`):
  `warn_variable_changes` first reads the table's "Year" column. It then
  skips the columns outside the group. For every group column it builds the
  label history over `vintages`. It warns when there is more than one
  label, and with `prompt` set it asks whether to continue. The function is
  the method `WarnVariableChanges`, proved equal to `WarnSweep`; its loop
  is `Sweep`. `SweepOutcome` states the loop's whole behaviour in terms of
  the list of drifted group columns and the number of leading "y" answers.
- **Column names from labels** (`NameMapper`, `name_mapper.dfy`, on top of
  `Strings`, `strings.dfy`): `name_mapper`'s inner function keeps names
  outside the group. A group name becomes `label.split("!")[-1].split(":")[0]`
  of the first search hit. `Strings.Split` has Python's `str.split`
  semantics for a one-character separator, empty pieces included.
  `df.rename` is modelled on the list of column names.
- **Column filter** (`ColumnFilter`, `column_filter.dfy`): the `drop_cols`
  comprehension keeps the columns that start with the group code or are
  `"Year"`.

Calls into code that is not part of this model become parameters:

- `lookup: (string, int) -> string` is `ced.variables.get(dataset, year, variable)["label"]`.
- `search: string -> seq<string>` is the LABEL column of the rows returned by `ced.variables.search`.
- `answers: seq<string>` holds the successive replies typed at the console prompt.

The printed warnings become the `warnings` of the sweep's `Report`.

Behaviour of the code worth noting:

- The sweep groups over the `vintages` argument, not over the years present
  in the table. The value of `years = df["Year"].unique()` at utils.py:64 is
  never used; the name is reused by the inner `for` at utils.py:78. The
  lookup itself still fails on a table without a "Year" column (pandas
  raises KeyError), before any warning: the outcome `MissingYearColumn`.
- Years are lists, not sets. A repeated year is kept as often as it
  occurs.
- The prompt is asked once per drifted column. Only the exact reply "y"
  continues. A missing reply ends the sweep with `EndOfInput`, as Python's
  `input()` raises `EOFError` at end of input.
- Renaming is idempotent when every group column is found and no parsed
  label starts with the group code (`RenameIdempotent`); otherwise a second
  rename can fail (`RenameNotAlwaysIdempotent`).

## Model

| member | source | states |
|---|---|---|
| `LabelHistory.Append` | utils.py:54 | `labels[label].append(year)`: the year goes at the end of its label's list (a fresh list for a new label), and a new label goes at the end of the key order |
| `LabelHistory.AppendFrame` | utils.py:54 | every other key, and its list, is left as it was |
| `LabelHistory.Group` | utils.py:50-56 | the dictionary after visiting the years never has more labels than years |
| `LabelHistory.GetUniqueLabelsForVariable` | utils.py:50-56 | the loop that appends each year to its label's list builds exactly the history `Group` describes |
| `LabelHistory.GroupValid` | utils.py:50-56 | the dictionary has each key once, exactly the listed keys, and no empty list |
| `LabelHistory.GroupLists` | utils.py:50-54 | a label is a key iff some year has it, and its list is exactly the years with that label, in input order |
| `LabelHistory.YearInExactlyOneList` | utils.py:50-56 | every input year lies in its own label's list and in no other list |
| `LabelHistory.GroupPartition` | utils.py:50-56 | the lists concatenated in key order are a permutation of the input years |
| `LabelHistory.GroupKeys` | utils.py:50-54 | the keys are exactly the labels of the input years |
| `LabelHistory.GroupKeyOrder` | utils.py:50-54 | the keys come in the order in which each label was first seen |
| `LabelHistory.GroupOrderSnoc` | utils.py:53-54 | one more year adds its label to the keys, at the end, iff the label is not a key yet |
| `LabelHistory.KeyOrderStep` | utils.py:53-54 | one append keeps the keys in first-seen order |
| `LabelHistory.StableLabel` | utils.py:45-56 | an empty input gives an empty dictionary; a non-empty input has exactly one key iff every year has the same label, and that key's list is then the whole input |
| `LabelHistory.SizeIsKeyCount` | utils.py:48 | `len` of the dictionary equals the number of keys in insertion order |
| `LabelHistory.MotorcycleExample` | utils.py:37-38 | the documented B08006_017E labels of 2005, 2006 and 2019 give three keys with one year each |
| `LabelDrift.Drifted` | utils.py:76 | a column drifts when its history has more than one label, which takes at least two vintages |
| `LabelDrift.Sweep` | utils.py:66-82 | the loop never gives more warnings than there are columns, never reports a missing "Year" column and, without `prompt`, always completes |
| `LabelDrift.WarnSweep` | utils.py:63-82 | the whole function ends with `MissingYearColumn` iff the table has no "Year" column, and then before any warning; never more warnings than columns |
| `LabelDrift.WarnVariableChanges` | utils.py:63-82 | the "Year" lookup and then the sweep loop, with its `continue`, warnings and conditional raise, compute exactly `WarnSweep` |
| `LabelDrift.WarnSweepOutcome` | utils.py:63-82 | a table without "Year" fails before any warning; otherwise the result is the closed form `Expected` of the drifted group columns and the answers |
| `LabelDrift.SweepOutcome` | utils.py:66-82 | without prompt, every drifted group column is reported and the sweep returns; with prompt, it continues while the answers are "y" and stops at the first drifted column whose answer is missing or not "y" |
| `LabelDrift.ExpectedStep` | utils.py:76-82 | one more drifted column in front of the rest behaves as one step of the Python loop |
| `LabelDrift.SweepRaises` | utils.py:76-82 | `VariableMistmatchOverTime` is raised iff prompt is set and some drifted group column is answered with something other than "y" after only "y" answers |
| `LabelDrift.SweepWarnings` | utils.py:66-79 | every warning names a column of the input that starts with the group, has more than one label, and carries its history over the vintages |
| `LabelDrift.NoDriftCompletes` | utils.py:66-82 | when no group column drifts, the sweep warns about nothing and returns, whatever the prompt and answers |
| `LabelDrift.LeadingYes` | utils.py:80-82 | the count of leading "y" answers: all answers before it are "y", and the one at it is not |
| `Strings.StartsWith` | utils.py:14 | Python's `str.startswith`: the first characters of the string are the prefix |
| `Strings.Split` | utils.py:21 | Python `str.split` with one separator: never empty, no piece contains the separator, one more piece than separators |
| `Strings.SplitLastPiece` | utils.py:21 | the last piece of a split is the text after the last separator |
| `Strings.JoinSplit` | utils.py:21 | joining the pieces of a split gives the string back |
| `Strings.SplitJoin` | utils.py:21 | splitting a join of separator-free pieces gives the pieces back |
| `NameMapper.ParseLabel` | utils.py:21 | the parsed label contains neither "!" nor ":" |
| `NameMapper.ParseLabelSpan` | utils.py:21 | the parsed label is the stretch of the raw label after its last "!" up to the next ":" or the end |
| `NameMapper.ParseLabelOfParts` | utils.py:21 | a label built from "!"-separated parts, whose last part is built from ":"-separated pieces, parses to the first piece |
| `NameMapper.ParseLabelPlainTail` | utils.py:21 | a last "!"-part without ":" is the parsed label itself |
| `NameMapper.ParseLabelCutTail` | utils.py:21 | a last "!"-part with a ":" parses to the text before its first ":" |
| `NameMapper.ParseLabelWorkedFromHome` | utils.py:37-38 | 'Estimate!!Total:!!Worked from home' parses to 'Worked from home' |
| `NameMapper.ParseLabelMotorcycle` | utils.py:37 | 'Estimate!!Total!!Motorcycle' parses to 'Motorcycle' |
| `NameMapper.ParseLabelTotal` | utils.py:105-107 | 'Estimate!!Total:' parses to 'Total' |
| `NameMapper.MapName` | utils.py:12-24 | names outside the group pass unchanged; a group name fails iff the search finds nothing, and otherwise maps to `ParseLabel` of the first row's label, which is free of "!" and ":" |
| `NameMapper.RenameColumns` | utils.py:162-165 | renaming succeeds iff every name maps; then it has the same length and each position holds its name's mapping |
| `NameMapper.RenameIdempotent` | utils.py:162-165 | when every group column is found and no parsed label starts with the group code, renaming again changes nothing |
| `NameMapper.RenameNotAlwaysIdempotent` | utils.py:14-21 | without that condition a second rename can fail after the first one succeeded |
| `ColumnFilter.Keep` | utils.py:160 | a column survives iff it is "Year" or its first characters are the group code |
| `ColumnFilter.DropColumns` | utils.py:160 | the filtered list is never longer than the input |
| `ColumnFilter.DropColumnsMembers` | utils.py:160 | a column is kept iff it is in the input and starts with the group or is "Year" |
| `ColumnFilter.DropColumnsAppend` | utils.py:160 | filtering a concatenation concatenates the filtered parts, so the original order is preserved |
| `ColumnFilter.DropColumnsCounts` | utils.py:160 | each column to keep survives as often as it occurs; every other column is gone |
| `ColumnFilter.DropColumnsIdempotent` | utils.py:160 | filtering the filtered columns changes nothing |

## Left out

- The remote calls `ced.variables.get` and `ced.variables.search` (utils.py:16-18, 53) are function parameters. Their own failures (network errors, a missing year or variable, a missing "label" key) are not modelled: the lookup is total.
- Only the first search row's LABEL is used (utils.py:20); the other columns of the search result are not modelled.
- LabelDrift.WarnSweep: column labels are assumed distinct, as `download_multiyear` produces them. pandas allows a repeated label: with "Year" twice, `df["Year"]` is a table and `.unique()` (utils.py:64) raises AttributeError, which the model does not capture (it runs the sweep).
- ColumnFilter.DropColumns: with a kept column label repeated, `df[[...]]` (utils.py:160) returns each copy once per matching key (two copies become four); the model keeps each copy once, under the same distinct-labels assumption.
- `download_multiyear`'s download loop, its `ced.download` calls and `pd.concat` (utils.py:134-152) are pandas table mechanics and a remote call. So is the sequencing of warn, drop and rename (utils.py:157-165), including `vintages[-1]`. A table is modelled only as its list of column names.
- The text and formatting of the printed warnings and of the prompt (utils.py:77-81) are console output. The model keeps the column and history of each warning.
- `graph_multiyear` (utils.py:170-261) is plotly rendering with global renderer state.
- `pct_change_multiyear` (utils.py:264-308) is floating-point arithmetic through pandas.
