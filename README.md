# Phone table loader — Dafny model

The program reads `cells.csv`, a table of mobile phones, into a list of
`Cell` records and prints a few properties of each. The logic is the read
loop of `Program.Main`: the first line is a header and is skipped; each
later line is cut at every `,` (plain `String.Split(',')`, no quote
handling, empty pieces kept); a line whose split gives at least eleven
pieces becomes one `Cell` whose eleven properties (Brand, Model,
LaunchInfo, Status, Dimensions, Weight, SIM, DisplayType, DisplaySize,
Resolution, OS) are the first eleven pieces, each passed through
`String.Trim()`; shorter lines are dropped, and pieces after the eleventh
are ignored.

The model has three modules:

- `Strings` (`Strings.dfy`): the two .NET string operations the loop relies
  on. `Split` cuts at every separator and keeps empty pieces, so it gives
  one more piece than there are separators. `Trim` removes leading and
  trailing characters for which `Char.IsWhiteSpace` holds. `Join` is the
  inverse of `Split`, and `TrimStart`/`TrimEnd` are the two halves of `Trim`.
- `DemoConsole` (`DemoConsole.dfy`): the `Cell` class with its constructor.
  Its properties have public setters in C#, but nothing writes them after
  construction, so they are constant fields here.
  It also holds the pure specification of the loader: `ParseLine` gives the
  row one data line contributes, `DataRows` gives the rows of a run of data
  lines, and `Load` gives the rows of a whole file, header included.
  `LoadCells` is the imperative read loop, with the `isFirstLine` flag and a
  list that grows at its end. It is proved to create one new `Cell` per
  row of `Load`, in the same order, with no `Cell` appearing twice.
- `WhiteSpace` (`WhiteSpace.dfy`): the white-space set of `Char.IsWhiteSpace`
  restated by Unicode category, and a proof that the code-point ranges used by
  `Trim` are exactly that set.

The file is given to the model as a sequence of lines whose terminators
have already been removed, which is what `ReadLine` hands to the loop.

## Model

| member | source | states |
|---|---|---|
| `Strings.Split` | source/repos/alternativeLanguageProjectGiani/Program.cs:61 | there is always at least one piece, and no piece contains the separator |
| `Strings.SplitCount` | source/repos/alternativeLanguageProjectGiani/Program.cs:61 | a line with n commas splits into exactly n + 1 pieces, so empty pieces are kept |
| `Strings.JoinSplit` | source/repos/alternativeLanguageProjectGiani/Program.cs:61 | joining the pieces of a split with the separator rebuilds the original line |
| `Strings.SplitJoin` | source/repos/alternativeLanguageProjectGiani/Program.cs:61 | splitting a join of separator-free pieces gives back exactly those pieces, empty ones included |
| `Strings.SplitAtSeparator` | source/repos/alternativeLanguageProjectGiani/Program.cs:61 | splitting `a + "," + b` gives the pieces of a followed by the pieces of b |
| `Strings.TrimStart` | source/repos/alternativeLanguageProjectGiani/Program.cs:66-68 | the result is no longer than the input, does not start with white space, and keeps the input's last character |
| `Strings.TrimEnd` | source/repos/alternativeLanguageProjectGiani/Program.cs:66-68 | the result is no longer than the input, does not end with white space, and keeps the input's first character |
| `WhiteSpace.WhiteSpaceCharacters` | source/repos/alternativeLanguageProjectGiani/Program.cs:66-68 | the white-space test used by Trim, like `Char.IsWhiteSpace`, holds exactly for the Zs characters, U+2028, U+2029, U+0009..U+000D and U+0085 |
| `Strings.Trim` | source/repos/alternativeLanguageProjectGiani/Program.cs:66-68 | the trimmed text neither starts nor ends with a white-space character |
| `Strings.TrimStartDrops` | source/repos/alternativeLanguageProjectGiani/Program.cs:66-68 | TrimStart keeps a suffix of the input, and everything it drops is white space |
| `Strings.TrimEndDrops` | source/repos/alternativeLanguageProjectGiani/Program.cs:66-68 | TrimEnd keeps a prefix of the input, and everything it drops is white space |
| `Strings.TrimDecomposes` | source/repos/alternativeLanguageProjectGiani/Program.cs:66-68 | the input is a white-space prefix, then the trimmed text, then a white-space suffix |
| `Strings.TrimStartPast` | source/repos/alternativeLanguageProjectGiani/Program.cs:66-68 | TrimStart removes a white-space prefix and stops at the first non-white-space character |
| `Strings.TrimEndBefore` | source/repos/alternativeLanguageProjectGiani/Program.cs:66-68 | TrimEnd removes a white-space suffix and stops at the last non-white-space character |
| `Strings.TrimSurrounded` | source/repos/alternativeLanguageProjectGiani/Program.cs:66-68 | any trimmed text with any white space around it trims back to exactly that text, so Trim removes no more and no less than the surrounding white space |
| `Strings.TrimOfTrimmed` | source/repos/alternativeLanguageProjectGiani/Program.cs:66-68 | Trim leaves text without leading or trailing white space unchanged |
| `Strings.TrimIdempotent` | source/repos/alternativeLanguageProjectGiani/Program.cs:66-68 | trimming twice gives the same as trimming once |
| `DemoConsole.Cell.constructor` | source/repos/alternativeLanguageProjectGiani/Program.cs:22-35 | each of the eleven arguments is stored unchanged in the property of the same name |
| `DemoConsole.ParseLine` | source/repos/alternativeLanguageProjectGiani/Program.cs:61-68 | a data line gives a row if and only if its split has at least 11 pieces; the row has exactly 11 fields and each is trimmed |
| `DemoConsole.LineKept` | source/repos/alternativeLanguageProjectGiani/Program.cs:61-64 | a data line gives a row if and only if it holds at least 10 commas |
| `DemoConsole.DataRows` | source/repos/alternativeLanguageProjectGiani/Program.cs:53-71 | data lines give at most one row each, and every row has 11 trimmed fields |
| `DemoConsole.Load` | source/repos/alternativeLanguageProjectGiani/Program.cs:46-71 | an empty file or a header-only file gives no rows; otherwise there are at most as many rows as lines after the header; every field is trimmed |
| `DemoConsole.LoadCells` | source/repos/alternativeLanguageProjectGiani/Program.cs:46-71 | the loop returns one Cell per row of Load, in order, each Cell's eleven properties are that row's fields, and every Cell is newly created and appears only once |
| `DemoConsole.MakeCell` | source/repos/alternativeLanguageProjectGiani/Program.cs:66-68 | the Cell built from a row is new and holds the row's fields in column order |
| `DemoConsole.FieldsOfAt` | source/repos/alternativeLanguageProjectGiani/Program.cs:66-69 | row j of the cells' property table is the properties of cell j |
| `DemoConsole.LoadStep` | source/repos/alternativeLanguageProjectGiani/Program.cs:53-70 | reading one more data line appends that line's row, or nothing, to the rows of the data lines read so far |
| `DemoConsole.HeaderIgnored` | source/repos/alternativeLanguageProjectGiani/Program.cs:52-60 | the first line's content never influences the result: only the lines after it are parsed |
| `DemoConsole.DataRowsAppend` | source/repos/alternativeLanguageProjectGiani/Program.cs:53-71 | the rows of two consecutive blocks of lines are the first block's rows followed by the second block's |
| `DemoConsole.RowsFromKeptLines` | source/repos/alternativeLanguageProjectGiani/Program.cs:61-69 | there is one kept line position per row, and row j is exactly what the line at position j parses to |
| `DemoConsole.KeptLinesIncrease` | source/repos/alternativeLanguageProjectGiani/Program.cs:53-69 | the kept positions lie inside the input and strictly increase, so rows keep the order of their lines and no line gives two rows |
| `DemoConsole.ParsedLinesKept` | source/repos/alternativeLanguageProjectGiani/Program.cs:64-69 | every data line that parses is among the kept positions, so no row is lost |
| `DemoConsole.LoadedFieldsStable` | source/repos/alternativeLanguageProjectGiani/Program.cs:66-68 | trimming any stored field again changes nothing |
| `DemoConsole.ExtraColumnsIgnored` | source/repos/alternativeLanguageProjectGiani/Program.cs:64-68 | appending further columns to a line that already has eleven does not change its row |
| `DemoConsole.ParseJoined` | source/repos/alternativeLanguageProjectGiani/Program.cs:61-68 | for a line made of comma-joined pieces, field k (Brand = 0, Model = 1, … OS = 10) is piece k trimmed |
| `DemoConsole.ParseJoinedFields` | source/repos/alternativeLanguageProjectGiani/Program.cs:61-68 | eleven trimmed, comma-free fields joined with commas load back as exactly those fields |
| `DemoConsole.TenCommas` | source/repos/alternativeLanguageProjectGiani/Program.cs:61-64 | a line of ten commas and nothing else still becomes a row of eleven empty fields |

## Left out

- Locating the file (`AppDomain.CurrentDomain.BaseDirectory`, `Path.Combine`, `Path.GetFullPath`, Program.cs:42-44): filesystem and library behaviour.
- Reading the file (`StreamReader`, `EndOfStream`, `ReadLine`, Program.cs:50-55): I/O. The input is the sequence of lines that `ReadLine` would return, terminators removed.
- The `try`/`catch` and its message (Program.cs:48, 74-77): the only exceptions come from opening or reading the file. On such an error the source keeps the cells read so far; the model has no read errors.
- Printing the cells (Program.cs:80-83): console output.
- `Cell` property setters (Program.cs:10-20): no code writes a property after the constructor, so the fields are constants and later writes are not modelled.
- Text encoding: .NET strings are UTF-16 code units, while Dafny characters are Unicode scalar values, so lone surrogates cannot be represented. No separator or white-space character is a surrogate, so `Split` and `Trim` are not affected.
- Program.cs stores every field as a trimmed string; it does no numeric or year extraction, no validation and no aggregation, so the model has none either.
