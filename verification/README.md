# Q-learning table and tester, modelled in Dafny

This project models the tabular Q-learning core of a Unity grid game. An agent
learns to get away from another entity that chases it on a grid. It learns one
row of four action values for each perceived state and, once trained, moves by
the best action of the row.

The model has six modules:

- `QTable` covers the table of `QTable.cs` as an immutable `map<State, Row>`. It
  has `Add`, `GetQ`, `GetMaxQ`, `GetBestAction`, `SetQ` and `UpdateQ`, together
  with Unity's `Mathf.Max`, `Mathf.Clamp01` and `Mathf.Lerp`. An operation that
  changes the C# dictionary in place returns the new table here.
- `QTableData` covers the records of `QTableData.cs`: the `QTableAction` and
  `QTableDistances` enums, the nine-field `QTableState` key, the four-value
  `QTableReward` row, and the CSV encoder and decoder of each record. The
  encoders are `StateText` and `RowText` (`CSVGetData`); the decoders are
  `DecodeState` and `DecodeRow` (`CSVSetData(string[], int)`).
- `QTableFile` covers the line logic of `ReadFile` and `WriteFile`. A file is the
  sequence of its lines. `EncodeLine` is the line `WriteFile` writes for one
  entry, `WriteLines` the whole file, `DecodeLine` one pass of the `ReadFile`
  loop before the insertion, and `Load` the loop itself. A load keeps the rows
  it added before the line that failed, because an exception leaves the
  dictionary changed.
- `CsvText` holds the text primitives those records use:
  - `String.Split` on `,` and `;`;
  - trimming;
  - `bool.ToString`, `bool.Parse`, `int.ToString` and `int.Parse`;
  - an abstract float text format.
- `Tester` covers `MyQMindTester.cs`. It perceives the state from the grid,
  asks the table for the first best action, and moves one cell. The grid
  queries are functions carried by a `World` value. The C# methods
  `GetIsWalkable`, `GetOtherIsInDirection`, `GetOtherDistance`, `GetState`,
  `MoveAgent` and `GetNextStep` are the functions and the method of the same
  names.
- `Wrappers` holds `Option` and `Result`, which model the exceptions and the
  `null` cell.

The model follows the code in these points:

- `GetQ` and `GetMaxQ` do not insert a row for an unknown state.
- `UpdateQ` inserts the updated state but not the successor state.
- A blank line in the table file is not skipped. It fails the load.
- A written line splits into fourteen fields. The last is the empty field after
  the trailing separator, and it is never read.

## Model

| member | source | states |
|---|---|---|
| `QTable.Add` | Practica_2_IA/Assets/Scripts/MyQMind/QTable.cs:52-58 | afterwards the state maps to the given row whether or not it was present; no other key changes and no key is lost |
| `QTable.AddDefault` | Practica_2_IA/Assets/Scripts/MyQMind/QTable.cs:60-64 | stores an all-zero row, also over an existing row, and leaves every other key as it was |
| `QTable.GetQ` | Practica_2_IA/Assets/Scripts/MyQMind/QTable.cs:74-91 | 0 for an absent state (the table is untouched), otherwise exactly the field the action selects |
| `QTable.MathfMax` | Practica_2_IA/Assets/Scripts/MyQMind/QTable.cs:101 | `Mathf.Max` of a non-empty list is one of its values and no value exceeds it; of no values it is 0 |
| `QTable.GetMaxQ` | Practica_2_IA/Assets/Scripts/MyQMind/QTable.cs:93-102 | as written: 0 for an absent state, otherwise the largest of north, east and south, with west never taking part |
| `QTable.GetMaxQIntended` | Practica_2_IA/Assets/Scripts/MyQMind/QTable.cs:93-102 | the corrected maximum: 0 for an absent state, otherwise a value of some action that no action's value exceeds |
| `QTable.GetMaxQIgnoresWest` | Practica_2_IA/Assets/Scripts/MyQMind/QTable.cs:97-101 | changing the west value of a row never changes `GetMaxQ` |
| `QTable.GetMaxQMissesWest` | Practica_2_IA/Assets/Scripts/MyQMind/QTable.cs:101 | the row (0, 0, 0, 1) gives 0 as written but 1 as intended |
| `QTable.MaxQAgreesUnlessWestDominates` | Practica_2_IA/Assets/Scripts/MyQMind/QTable.cs:93-102 | the two maxima are equal exactly when the state is absent or its west value is at most the written maximum |
| `QTable.FirstBestUnique` | Practica_2_IA/Assets/Scripts/MyQMind/QTable.cs:112-123 | a row has only one action that is maximal with all earlier actions strictly smaller, so the scan's answer is determined by the row |
| `QTable.BestAction` | Practica_2_IA/Assets/Scripts/MyQMind/QTable.cs:109-123 | the scan's result as a function: its value is at least every value of the row, and every action earlier in North, East, South, West order is strictly smaller |
| `QTable.GetBestAction` | Practica_2_IA/Assets/Scripts/MyQMind/QTable.cs:104-124 | a present state leaves the table unchanged; an absent one gets a zero row and the answer GoNorth; the answer is the first maximum of the row |
| `QTable.SetQ` | Practica_2_IA/Assets/Scripts/MyQMind/QTable.cs:126-147 | the state ends up present with the chosen value stored; the other three values are what `GetQ` read before (zero for a new row); every other key is unchanged |
| `QTable.GetQAfterSetQ` | Practica_2_IA/Assets/Scripts/MyQMind/QTable.cs:126-147 | `GetQ` after `SetQ` reads the stored value at that state and action and the earlier `GetQ` everywhere else |
| `QTable.Lerp` | Practica_2_IA/Assets/Scripts/MyQMind/QTable.cs:69 | `Mathf.Lerp` gives `a` for `t <= 0` and `b` for `t >= 1`, and never leaves the interval between `a` and `b` |
| `QTable.MoveToward` | Practica_2_IA/Assets/Scripts/MyQMind/QTable.cs:69-71 | the write of `UpdateQ` for a given target: the value moves by the clamped rate toward the target and stays between the old value and the target; alpha >= 1 stores the target, alpha <= 0 keeps the value; nothing else changes |
| `QTable.UpdateQ` | Practica_2_IA/Assets/Scripts/MyQMind/QTable.cs:66-72 | the new value is `q + clamp01(alpha) * (reward + gamma * GetMaxQ(next) - q)`, with both readings taken before the write; alpha >= 1 stores the target and alpha <= 0 keeps `q`; only `(s, a)` changes and only `s` may be inserted |
| `QTable.UpdateQBetween` | Practica_2_IA/Assets/Scripts/MyQMind/QTable.cs:66-72 | the updated value lies between the old value and the target |
| `QTable.FirstUpdateStoresReward` | Practica_2_IA/Assets/Scripts/MyQMind/QTable.cs:66-72 | from an empty table, with alpha 1 and any successor, the updated state itself included, the table holds one row with the reward at the action and zeros elsewhere |
| `QTable.UpdateQIntended` | Practica_2_IA/Assets/Scripts/MyQMind/QTable.cs:66-72 | the corrected update moves toward `reward + gamma * (maximum over all four successor values)` and has the same frame as `UpdateQ` |
| `QTable.UpdateQAgreesUnlessWestDominates` | Practica_2_IA/Assets/Scripts/MyQMind/QTable.cs:66-102 | the written and the corrected update give the same table unless the successor's west value exceeds the other three |
| `QTableData.ActionsByOrdinal` | Practica_2_IA/Assets/Scripts/MyQMind/QTableData.cs:12-18 | action ordinals are GoNorth 0, GoEast 1, GoSouth 2, GoWest 3, and the scan list holds each action at its ordinal |
| `QTableData.DecodeFlags` | Practica_2_IA/Assets/Scripts/MyQMind/QTableData.cs:62-69 | reading consecutive flags succeeds exactly when each of those fields exists and parses, and yields the parsed values in order |
| `QTableData.DecodeState` | Practica_2_IA/Assets/Scripts/MyQMind/QTableData.cs:60-71 | succeeds exactly when fields `offset .. offset+7` parse as booleans and field `offset+8` parses as an `int`; the state then has those flags in file order and that distance, with no range check |
| `QTableData.DecodeFloats` | Practica_2_IA/Assets/Scripts/MyQMind/QTableData.cs:107-110 | reading consecutive floats succeeds exactly when each of those fields exists and parses, and yields the parsed values in order |
| `QTableData.DecodeRow` | Practica_2_IA/Assets/Scripts/MyQMind/QTableData.cs:105-111 | succeeds exactly when fields `offset .. offset+3` parse as floats; the row then holds them as north, east, south and west |
| `QTableData.DecodeStateFields` | Practica_2_IA/Assets/Scripts/MyQMind/QTableData.cs:60-71 | a window of fields showing the nine texts the encoder writes decodes to the original state, whatever else the line holds |
| `QTableData.DecodeRowFields` | Practica_2_IA/Assets/Scripts/MyQMind/QTableData.cs:105-111 | a window of fields showing the four float texts decodes to the original row, whenever each of the row's four values has a float text that round-trips |
| `QTableData.StateFieldsShape` | Practica_2_IA/Assets/Scripts/MyQMind/QTableData.cs:49-52 | the state encoder writes nine field texts, none containing a separator or surrounding white space |
| `QTableData.StateTextRoundTrip` | Practica_2_IA/Assets/Scripts/MyQMind/QTableData.cs:49-76 | splitting `CSVGetData` with either separator gives `CSVGetNumElements` fields plus one trailing empty field, and decoding from field 0 recovers the state |
| `QTableData.RowTextRoundTrip` | Practica_2_IA/Assets/Scripts/MyQMind/QTableData.cs:94-116 | the same for a row and its four values, whenever each of those values has a float text that round-trips |
| `CsvText.SplitAfterField` | Practica_2_IA/Assets/Scripts/MyQMind/QTable.cs:162 | a field free of separators, followed by a separator, is split off as the first field |
| `CsvText.SplitTerminated` | Practica_2_IA/Assets/Scripts/MyQMind/QTableData.cs:51 | separator-free texts, each followed by a separator, split back into those texts plus one empty field |
| `CsvText.RecordJoin` | Practica_2_IA/Assets/Scripts/MyQMind/QTable.cs:183-185 | the state record, a space, then the row record form one record of all thirteen fields |
| `CsvText.ParseBoolText` | Practica_2_IA/Assets/Scripts/MyQMind/QTableData.cs:62-69 | `bool.Parse` reads back what `bool.ToString` wrote, with or without a leading space |
| `CsvText.ParseIntText` | Practica_2_IA/Assets/Scripts/MyQMind/QTableData.cs:70 | `int.Parse` reads back every `int` that `int.ToString` wrote, with or without a leading space |
| `CsvText.ParseFloatText` | Practica_2_IA/Assets/Scripts/MyQMind/QTableData.cs:107-110 | `float.Parse` reads back the text of a value behind the writer's space, whenever that value's text round-trips |
| `QTableFile.DecodeLine` | Practica_2_IA/Assets/Scripts/MyQMind/QTable.cs:162-168 | a line decodes only if its split has at least the thirteen fields the state and the row read |
| `QTableFile.LineRoundTrip` | Practica_2_IA/Assets/Scripts/MyQMind/QTable.cs:162-185 | a line written as `stateString + " " + rowString` holds no line break, splits into fourteen fields and decodes to its state and row, with either separator, whenever the row's float texts round-trip |
| `QTableFile.BlankLineFails` | Practica_2_IA/Assets/Scripts/MyQMind/QTable.cs:160-165 | a blank line is not skipped: its first flag does not parse and the load fails |
| `QTableFile.AddLines` | Practica_2_IA/Assets/Scripts/MyQMind/QTable.cs:160-171 | loading keeps every entry already present; on success every line decoded, the table holds each line's row at its state, every key is an old one or some line's state, and there is one new key per line; on failure some line `j` did not decode or held a state already loaded, and the table holds exactly the old entries and those of the lines before `j` |
| `QTableFile.Load` | Practica_2_IA/Assets/Scripts/MyQMind/QTable.cs:153-174 | `ReadFile` never clears the table; on success every line decoded, the table holds each line's row at its state, every key is an old one or some line's state, and there is one new key per line; when line `j` throws, the table holds exactly the old entries and those of the lines before `j` |
| `QTableFile.AddLinesRejectsPresentState` | Practica_2_IA/Assets/Scripts/MyQMind/QTable.cs:170 | `Dictionary.Add` of a state already in the table stops the load with an error |
| `QTableFile.AddLinesRejectsRepeatedState` | Practica_2_IA/Assets/Scripts/MyQMind/QTable.cs:160-171 | when the lines up to some line decode and that line's state is already in the table or on an earlier line, the load fails with `DuplicateKey` |
| `QTableFile.WriteLines` | Practica_2_IA/Assets/Scripts/MyQMind/QTable.cs:181-186 | `WriteFile` writes one line per entry |
| `QTableFile.AddDecodedLines` | Practica_2_IA/Assets/Scripts/MyQMind/QTable.cs:160-171 | lines decoding to distinct new entries load without error and add exactly those entries |
| `QTableFile.WriteThenLoad` | Practica_2_IA/Assets/Scripts/MyQMind/QTable.cs:153-189 | writing the table in any enumeration order gives one line per entry with no line break in it, and loading those lines into an empty table gives the same table back, whenever every value's float text round-trips |
| `QTableFile.LoadTwiceFails` | Practica_2_IA/Assets/Scripts/MyQMind/QTable.cs:160-171 | loading a table's own file into it fails at the first line, because loading never clears the table, whenever the first written row's float texts round-trip |
| `Tester.InDirectionSymmetric` | Practica_2_IA/Assets/Scripts/GrupoS/MyQMind/QMind/MyQMindTester.cs:76-95 | seen from the other cell, `cell` lies in the opposite direction |
| `Tester.InDirectionExclusive` | Practica_2_IA/Assets/Scripts/GrupoS/MyQMind/QMind/MyQMindTester.cs:76-95 | up and down are never both true, nor right and left; no direction holds exactly when the coordinates are equal |
| `Tester.DistanceBucket` | Practica_2_IA/Assets/Scripts/GrupoS/MyQMind/QMind/MyQMindTester.cs:97-103 | Far iff d >= 10, Middle iff 5 <= d < 10, Close iff d < 5 |
| `Tester.DistanceBucketMonotone` | Practica_2_IA/Assets/Scripts/GrupoS/MyQMind/QMind/MyQMindTester.cs:97-103 | a larger distance never gets a closer bucket |
| `Tester.GetState` | Practica_2_IA/Assets/Scripts/GrupoS/MyQMind/QMind/MyQMindTester.cs:55-69 | the walkable flags are the world's answers for up, right, down and left; each direction flag holds iff the strict coordinate comparison does; the distance is the bucket of the world's distance |
| `Tester.GetStateConsistent` | Practica_2_IA/Assets/Scripts/GrupoS/MyQMind/QMind/MyQMindTester.cs:55-69 | a perceived state never has the other entity both north and south or both east and west, and its distance is a named bucket |
| `Tester.DirectionOf` | Practica_2_IA/Assets/Scripts/GrupoS/MyQMind/QMind/MyQMindTester.cs:107-108 | the action's direction is the entry at its ordinal in Up, Right, Down, Left |
| `Tester.DirectionOfBijective` | Practica_2_IA/Assets/Scripts/GrupoS/MyQMind/QMind/MyQMindTester.cs:107-108 | distinct actions move in distinct directions, and ordinals 0 to 3 move up, right, down and left |
| `Tester.MoveAgent` | Practica_2_IA/Assets/Scripts/GrupoS/MyQMind/QMind/MyQMindTester.cs:105-111 | `null` exactly when the neighbour in the action's direction is not walkable; otherwise that neighbour |
| `Tester.GetNextStep` | Practica_2_IA/Assets/Scripts/GrupoS/MyQMind/QMind/MyQMindTester.cs:46-53 | moves by the first best action of the perceived state's row; inserts a zero row (and moves north) only for an unseen state, leaving every other row as it was; never returns a cell that cannot be walked on |

## Left out

- Opening, reading, writing and closing the file, `GetFileName`, `LoadTable` and
  `SaveTable` are left out. A file is the sequence of its lines.
- `DebugPrintTableInfo` and the `Debug.Log` calls are left out. They only log.
- The trainer (`MyQMindTrainer.cs`) and the `ICSVConvertible` interface are not
  part of this model.
- `float` arithmetic is modelled with exact `real` values, so rounding in `Lerp`
  and `UpdateQ` is not modelled.
- The float text format is abstract. A `FloatCodec` stands for `float.ToString`
  and `float.Parse` under the current culture. The round trips ask, only of the
  values actually written, that their text has no separator, no line break and
  no white space at its ends, and reads back exactly (`CsvText.RoundTrips`).
  A culture with a decimal comma breaks this, and so does a `float` text that
  does not read back to the same value. `CsvText.WholeCodec` is one format that
  meets the requirement, for every whole number in the range of an `int`.
- The model's `ParseBool` and `ParseInt32` trim only ASCII white space, and
  `ParseBool` folds only ASCII letters. .NET's `bool.Parse` also trims Unicode
  white space and NUL characters, and folds case beyond ASCII; that is not
  modelled.
- `int.ToString` and `int.Parse` use the current culture's negative sign. The
  model fixes it as `-`. Only a negative distance, which `CSVGetData` never
  writes, reaches it.
- `int.Parse` throws either a format error or an overflow error. Both are one
  `BadField` error here.
- `WorldInfo.NextCell` and the Manhattan `CellInfo.Distance` are parameters of
  the model, carried in the `World` value, because their code is not part of
  this model.
- `WorldInfo.NextCell` always returns a cell here. In C# it may return `null`
  when a cell has no neighbour, and `GetIsWalkable` and `MoveAgent` then throw a
  `NullReferenceException`. Those null neighbours are not modelled.
- Tester cell coordinates are integers. The C# compares them after converting
  them to `float`, which is exact for grid-sized coordinates.
- Dictionary enumeration order is left out. `WriteLines` takes the order as an
  argument, and `WriteThenLoad` holds for every order that lists each key once.
- The string overload `CSVSetData(string, char[], int)` is left out. The file
  reader never calls it; it only splits and calls the modelled overload.
- `GetQ`'s `default: return -1` is left out. No action value outside the four
  enum members can reach it in this model.
- QTable.MathfMax: Unity's `Mathf.Max` source is not part of this model. Only
  its result is stated (a maximal element of the list, 0 for none), not how it
  compares.
- QTableFile.DecodeLine: the contract states only the field count. The decoded
  values are stated by `QTableData.DecodeState` and `QTableData.DecodeRow`,
  which it calls.
- QTableFile.WriteLines: the contract states only the line count. The text of
  each line is stated by `QTableFile.LineRoundTrip`.

## Findings

| source | as written | input that shows it | evidently intended | confidence | as-written member | corrected member |
|---|---|---|---|---|---|---|
| Practica_2_IA/Assets/Scripts/MyQMind/QTable.cs:101 | `Mathf.Max(f1, f2, f3, f3)` passes the south value twice and never the west value `f4` | a state whose row is north 0, east 0, south 0, west 1: `GetMaxQ` returns 0 | `Mathf.Max(f1, f2, f3, f4)`, the maximum over all four actions, here 1 | not executed | `QTable.GetMaxQMissesWest` | `QTable.GetMaxQIntended` |

`QTable.UpdateQ` keeps the maximum as written, because QTable.cs:69 calls
`GetMaxQ`. `QTable.UpdateQIntended` is the corrected update. It uses
`QTable.GetMaxQIntended`. `QTable.UpdateQAgreesUnlessWestDominates` states when
the two updates give the same table.
