# Laptop catalog: text import, export and cell edits

This project models the record pipeline of the laptop catalog web application
(`src/App.js`): the `App` component that holds a collection of laptop
specification records, loads it from a semicolon-delimited text file, lets the
grid edit one cell at a time, and exports the collection back as text.

- `wrappers.dfy` — `Option`, standing for a JavaScript value that may be `undefined`.
- `delimited.dfy` — `String.prototype.split` with a one-character separator
  (`Split`), its inverse (`Join`) and the "each piece followed by a
  terminator" concatenation the exporter writes (`Terminated`), with the
  lemmas that connect them.
- `laptop.dfy` — the fifteen column accessors (`Field`, in column order) and a
  `Record` of fifteen `Option<string>` columns; `Get` reads a column, `With` is
  the object spread `{ ...row, [columnId]: value }`, `FromPieces` maps the
  pieces of a line to columns 0..14 positionally.
- `text_codec.dfy` — the text format: `Parse` (the reader's `onload` body,
  implemented by the loop `OnLoad`) and `Serialize` (the loop in `storeData`,
  implemented by `BuildFileContent`), with the record-count, trailing-newline
  and round-trip lemmas.
- `catalog.dfy` — `UpdateRow` (the `old.map` in `updateMyData`) and the class
  `App` with the component's state: `data`, `skipPageReset`, and two counters
  that stand for React's array identity so the `[data]` effect can be modelled.

A line has fifteen columns. No `id` is synthesised. A load does no line
filtering. An edit is not validated; the code has no per-field rule.

The round trip is stated as the code behaves: exporting clean records and
reading the file back yields the records followed by one extra record, the one
the final empty line becomes (`producent` is `""`, every other column
`undefined`).

## Model

| member | source | states |
|---|---|---|
| Delimited.Split | src/App.js:305-307 | `split` yields one more piece than there are separators, and no piece contains the separator |
| Delimited.JoinSplit | src/App.js:305-307 | putting the separators back between the pieces gives the original text: splitting loses nothing |
| Delimited.SplitJoin | src/App.js:305-307 | separator-free pieces joined with the separator split back into exactly those pieces |
| Delimited.SplitTerminated | src/App.js:274-289 | pieces each followed by a terminator split on it into the pieces plus one empty last piece |
| Delimited.SplitTrailing | src/App.js:305 | a separator at the end of the text adds exactly one empty last piece |
| Delimited.TerminatedSnoc | src/App.js:273-290 | appending one more terminated piece appends the piece and its terminator at the end |
| Laptop.Position | src/App.js:181-240 | each column accessor has one position 0..14 in the column order, and the order lists it there |
| Laptop.With | src/App.js:255-258 | the spread copy holds the new value (`undefined` included) under the edited column and every other column unchanged |
| Laptop.At | src/App.js:309-323 | `fileField[k]` is the k-th piece when it exists and `undefined` otherwise |
| Laptop.FromPieces | src/App.js:308-324 | column k of the record is piece k of the line for k in 0..14; later pieces are ignored, missing ones `undefined` |
| Laptop.Values | src/App.js:275-289 | a record has exactly fifteen column values, in the exporter's order |
| Laptop.Get | src/App.js:253-258 | `row[columnId]` is the value at that column's position in the order the grid, the exporter and the loader share |
| TextCodec.Texts | src/App.js:275-289 | the text written for each column, `undefined` written as "undefined", in column order |
| TextCodec.Show | src/App.js:275-289 | a defined value is written as it is; `undefined` is written as a non-empty text with no ';' and no newline |
| TextCodec.LineBody | src/App.js:275-289 | one exported line ends in ';', holds a newline only if a column text does, and splits on ';' into the fifteen column texts plus an empty last piece when no column text holds a ';' |
| TextCodec.Serialize | src/App.js:273-290 | the exported text is empty exactly for an empty collection and otherwise ends in a newline; its lines are stated by `SerializedLines` and `RoundTrip` |
| TextCodec.RecordOfLine | src/App.js:307-324 | a line always yields a defined producent, no defined column holds a ';', and a line without ';' is all producent with every other column `undefined` |
| TextCodec.Parse | src/App.js:305-326 | one record per line, empty lines included: the record count is the number of newlines plus one |
| TextCodec.EmptyLineRecord | src/App.js:307-324 | an empty line becomes a record whose producent is "" and whose other columns are `undefined` |
| TextCodec.OnLoad | src/App.js:304-327 | the `onload` loop pushes, in line order, exactly the records `Parse` describes |
| TextCodec.BuildFileContent | src/App.js:272-290 | the `storeData` loop builds exactly `Serialize` of the collection: each record's columns each followed by ';', the line ended by a newline, in collection order |
| TextCodec.ParseField | src/App.js:307-324 | column k of record i is the k-th ';'-piece of line i, or `undefined` past the end |
| TextCodec.ParseTrailingNewline | src/App.js:305-326 | a trailing newline adds one final record, the empty-line record, after the others |
| TextCodec.SerializedLines | src/App.js:273-290 | with no newline inside a column, the exported text splits into one line per record plus a final empty line |
| TextCodec.LineRoundTrip | src/App.js:307-324 | a line written for a record with every column defined and free of ';' and newline reads back as the same record |
| TextCodec.RoundTrip | src/App.js:270-327 | reading back an export of such records gives the same records in the same order plus the empty-line record |
| TextCodec.CrlfLineRoundTrip | src/App.js:305-324 | an exported line read back with a trailing '\r' still gives the same record: the '\r' falls in the piece after the last ';', past column 14 |
| Catalog.UpdateRow | src/App.js:252-262 | the edit changes only cell (rowIndex, columnId) to the value, `undefined` included; length, order and every other cell are kept; an out-of-range rowIndex changes nothing |
| Catalog.UpdateRowOthers | src/App.js:253-260 | every row other than rowIndex is returned as the very same record |
| Catalog.UpdateRowIdempotent | src/App.js:252-262 | repeating the same edit changes nothing more |
| Catalog.UpdateRowCommute | src/App.js:252-262 | edits of two different cells give the same collection in either order |
| Catalog.App.constructor | src/App.js:247-248 | the component starts with no records and the flag down |
| Catalog.App.UpdateMyData | src/App.js:250-263 | the flag is raised and the collection becomes `UpdateRow` of the old one, a new array the effect has not yet seen; the value may be `undefined` (a cell that started `undefined` and was left untouched) |
| Catalog.App.DataEffect | src/App.js:265-267 | after a change of `data` the flag is back to false; with no change it is left as it was |
| Catalog.App.SelectFile | src/App.js:297-303 | a non-empty selection discards the old collection (a new empty array) and starts a read; an empty one changes nothing |
| Catalog.App.FileLoaded | src/App.js:304-328 | the parsed records replace the collection wholesale, nothing is merged |
| Catalog.App.StoreData | src/App.js:270-295 | an empty collection gives the "load a source file first" notice and no export; otherwise the serialized text is exported as t2_katalog.txt |

## Left out

- Reading the file (`FileReader`, `readAsText`) and the scheduling of `onload`: the file's text is a parameter of `FileLoaded`, and the race between two selections is not modelled beyond each load replacing the collection.
- `exportFile` and `alert`: `StoreData` returns what would be downloaded or shown (`Export`) instead of performing it.
- Rendering: the styled table, `EditableCell`, `Table`, the pagination controls and what `react-table` does with `autoResetPage`; only the flag the grid receives is modelled.
- React's batching and re-render timing: `UpdateMyData` applies the flag and the new collection together, and `DataEffect` is the effect run after the following render.
- Catalog.App.UpdateMyData: `columnId` is one of the fifteen column accessors, because the grid passes only those; a key outside them (which JavaScript would add to the row as a new property) is not modelled.
- The text "undefined" that `+` writes for a missing column is modelled only in the exporter; reading such a file back yields the text "undefined", which no lemma builds on.
- A `'\r'` from a Windows line ending is not stripped: it ends up in the line's last ';'-piece. On a line with fifteen or more ';', as every exported line has, it falls past column 14 and is dropped (`CrlfLineRoundTrip`). On a shorter line that ends in ';' it becomes the value of the column after the last ';'. On a line without a trailing ';' it stays at the end of the last column present. Byte order marks and UTF-8 decoding are not modelled.
