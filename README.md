# CSV record matcher: merge by customer id

This project models the core of a small C# batch tool. The tool fetches two
customer CSV files from HDFS, merges the newer one into the older one by
`Customer Id`, and writes the result. The model covers the merge step of
`UpdateCsvFile` and `CsvRow.UpdateFields` (Program.cs). It proves what that
loop guarantees about the merged list of rows.

- `records.dfy` (module `Records`): the datatype `CsvRow` has the eleven
  nullable text properties of the C# class (Program.cs:153-165), in the same
  order. Each is an `Option<string>`, with `None` for C# `null`. `Header`
  holds the eleven column names in the order the output header is written
  (Program.cs:129-139). The class map binds the names to the properties in
  that same order (Program.cs:186-196). The module also defines
  `UpdateFields`.
- `merge.dfy` (module `Merge`): the first-match scan (`FirstMatch`, and the
  loop `FindFirst`), one loop iteration (`Step`), and the state after a
  prefix of the incoming rows (`Merged`). `MergeRows` is the loop itself. It
  starts from a copy of the base rows and either updates the first matching
  row or appends, once per incoming row. It is proved to compute `Merged`.
- `merge_properties.dfy` (module `MergeProperties`): lemmas about `Merged`.
  They cover last-writer-wins, untouched rows, the order and keys of the
  appended rows, and the result length.
- `wrappers.dfy`: the `Option` type.

Keys are compared as C# `==` compares `string?` values. Two `null` keys are
equal, so rows without an id collide like any other key.

Keys that repeat change what the merge returns:
- Merging into an empty base returns the incoming rows if and only if no two
  incoming rows share a key (`MergeIntoEmptyExactly`). Otherwise rows are
  dropped: two incoming rows with one key collapse into one row that holds
  the second row's fields (`DuplicateIncomingCollapses`).
- For the same reason the result can be shorter than the incoming list. Its
  exact length is the number of base rows plus the number of incoming keys
  the base lacks (`MergedLength`).
- A key repeated in the base rows stays repeated in the result, and only
  the first of those rows is ever updated (`LaterDuplicatesUntouched`). A
  key that the base holds at most once appears at most once in the result
  (`KeyNeverDuplicated`). Every key of either side appears (`MergedIds`).

## Model

| member | source | states |
|---|---|---|
| `Records.UpdateFields` | Program.cs:167-179 | the key is kept; the ten other cells, in column order, become the argument's |
| `Records.UpdateFieldsDetermined` | Program.cs:167-179 | a row with the original key and the argument's ten other cells is exactly the result of the update |
| `Records.UpdateFromSameKey` | Program.cs:167-179 | updating from a row with the same key yields exactly that row |
| `Records.UpdateFieldsLastWins` | Program.cs:167-179 | after two updates only the second is visible |
| `Merge.FirstMatch` | Program.cs:67 | finds a row exactly when some row has the key, and then it is the lowest such index |
| `Merge.FindFirst` | Program.cs:67 | the linear scan returns none exactly when the key is absent, otherwise the lowest matching index |
| `Merge.Step` | Program.cs:66-75 | on a hit: same length, the first match keeps its key and takes the incoming row's other cells, every other row is unchanged; on a miss: the incoming row is appended to the unchanged rows; keys are never rewritten |
| `Merge.StepIds` | Program.cs:66-75 | an iteration adds the incoming key to the key set and removes none |
| `Merge.Merged` | Program.cs:64-76 | the result is at least as long as the base, and each base position keeps its key |
| `Merge.MergedIds` | Program.cs:64-76 | the result's key set is the union of the base keys and the incoming keys |
| `Merge.MergeRows` | Program.cs:56-76 | the loop, starting from a copy of the base, computes `Merged` of the base and all incoming rows |
| `MergeProperties.NoIncomingKeepsBase` | Program.cs:56-76 | with no incoming rows the result equals the base rows |
| `MergeProperties.StepTouchesOnlyFirstMatch` | Program.cs:67-70 | an iteration changes no row except the first one with the incoming key |
| `MergeProperties.LastWriterWins` | Program.cs:64-76 | for the last incoming row with a given key, the first result row with that key exists and holds that row's non-key cells |
| `MergeProperties.BaseOnlyRowsUnchanged` | Program.cs:64-76 | a base row whose key no incoming row has is unchanged |
| `MergeProperties.LaterDuplicatesUntouched` | Program.cs:67 | a base row whose key occurs earlier in the base is never modified |
| `MergeProperties.KeyNeverDuplicated` | Program.cs:64-76 | a key held by at most one base row is held by at most one result row |
| `MergeProperties.AppendedRowsAreNew` | Program.cs:72-75 | appended rows have pairwise distinct keys, none of them a base key |
| `MergeProperties.StepAppendedKeys` | Program.cs:66-75 | an iteration adds the incoming key to the appended keys exactly when no row holds it yet, otherwise leaves them as they were |
| `MergeProperties.AppendedKeysInOrder` | Program.cs:64-76 | the keys of the rows after the base rows are the incoming keys the base lacks, each once, in the order they first arrive |
| `MergeProperties.MergedLength` | Program.cs:64-76 | the appended rows' keys are the incoming keys minus the base keys, and the length is the base length plus their number |
| `MergeProperties.MergeIntoEmpty` | Program.cs:56-76 | incoming rows with distinct keys merged into an empty base come out unchanged |
| `MergeProperties.MergeIntoEmptyExactly` | Program.cs:56-76 | merging into an empty base gives back the incoming rows if and only if their keys are pairwise distinct |
| `MergeProperties.DuplicateIncomingCollapses` | Program.cs:64-76 | two incoming rows with one key, merged into an empty base, give the second row alone |
| `MergeProperties.RenameAndAppendExample` | Program.cs:64-76 | base [1 Ann], incoming [1 Anna, 2 Bob] merge to [1 Anna, 2 Bob] |

## Left out

- Object identity and aliasing. `new List<CsvRow>(singleRows)` copies
  references only, so `UpdateFields` also changes the objects that
  `singleRows` holds. An appended incoming row object is changed again by
  later incoming rows with the same key. The model works on values. Neither
  input list is read after the loop, and the value model reproduces the
  update of an already appended row, so the merged result is the same.
- `ReadCsvFromHdfs` (Program.cs:88-104): an HTTP request to WebHDFS with a
  basic-auth header. This is network I/O.
- `ParseCsvData` and `GenerateCsvData` (Program.cs:106-150), and `CsvRowMap`
  (Program.cs:182-198): parsing, quoting and escaping are done by the
  CsvHelper library, which is not part of this model. Only the fixed column
  order is kept, as `Records.Header`.
- `Main` (Program.cs:13-39): fixed configuration, path joining, console
  output and exception reporting.
- Writing `updated_Records.csv` (Program.cs:82-83): local file I/O.
- The `customerIds` set (Program.cs:55-62): it is filled but never read, so
  it has no effect on the result.
