/**
 * The `App` component's state and the handlers that change it: the record
 * collection `data`, the `skipPageReset` flag handed to the grid as
 * `autoResetPage: !skipPageReset`, the single-cell edit `updateMyData`, the
 * effect that clears the flag after every change of `data`, file loading
 * (`loadData`) and export (`storeData`).
 */
module Catalog {
  import opened Wrappers
  import opened Laptop
  import opened TextCodec

  /**
   * `old.map((row, index) => index === rowIndex ? { ...old[rowIndex], [columnId]: value } : row)`:
   * exactly the one cell (rowIndex, columnId) takes the new value. The value
   * is what the cell's editor holds, `undefined` when the cell started out
   * `undefined` and was left without typing.
   */
  function UpdateRow(rows: seq<Record>, rowIndex: int, columnId: Field, value: Option<string>): (r: seq<Record>)
    ensures |r| == |rows|
    ensures forall i, f :: 0 <= i < |r| ==>
      Get(r[i], f) == if i == rowIndex && f == columnId then value else Get(rows[i], f)
    ensures !(0 <= rowIndex < |rows|) ==> r == rows
  {
    seq(|rows|, i requires 0 <= i < |rows| => if i == rowIndex then With(rows[i], columnId, value) else rows[i])
  }

  /** Every row other than rowIndex is the same record as before. */
  lemma UpdateRowOthers(rows: seq<Record>, rowIndex: int, columnId: Field, value: Option<string>, i: int)
    requires 0 <= i < |rows| && i != rowIndex
    ensures UpdateRow(rows, rowIndex, columnId, value)[i] == rows[i]
  {
  }

  /** Writing the same value into the same cell twice is the same as once. */
  lemma UpdateRowIdempotent(rows: seq<Record>, rowIndex: int, columnId: Field, value: Option<string>)
    ensures UpdateRow(UpdateRow(rows, rowIndex, columnId, value), rowIndex, columnId, value)
         == UpdateRow(rows, rowIndex, columnId, value)
  {
  }

  /** Edits of two different cells do not interfere: their order does not matter. */
  lemma UpdateRowCommute(rows: seq<Record>, i1: int, f1: Field, v1: Option<string>, i2: int, f2: Field, v2: Option<string>)
    requires i1 != i2 || f1 != f2
    ensures UpdateRow(UpdateRow(rows, i1, f1, v1), i2, f2, v2)
         == UpdateRow(UpdateRow(rows, i2, f2, v2), i1, f1, v1)
  {
  }

  /** What the "save" button does: download a file, or show a notice. */
  datatype Export = Download(content: string, fileName: string) | Alert(message: string)

  const ExportFileName: string := "t2_katalog.txt"
  const LoadFirstNotice: string := "Załaduj najpierw plik źródłowy!"

  class App {
    /** The record collection shown by the grid. */
    var data: seq<Record>
    /** True while a cell edit is being rendered: the grid must not jump back to page 0. */
    var skipPageReset: bool
    /** Counts `setData` calls: each one installs a new array, which the `[data]` effect notices. */
    var dataVersion: nat
    /** The `dataVersion` the `[data]` effect last ran for. */
    var effectVersion: nat

    ghost predicate Valid()
      reads this
    {
      effectVersion <= dataVersion
    }

    /** The data of the current version has been seen by the effect. */
    predicate Settled()
      reads this
    {
      effectVersion == dataVersion
    }

    /** `useState([])` and `useState(false)`, after the first render's effect has run. */
    constructor ()
      ensures Valid() && Settled()
      ensures data == [] && !skipPageReset
    {
      data := [];
      skipPageReset := false;
      dataVersion, effectVersion := 0, 0;
    }

    /**
     * `updateMyData(rowIndex, columnId, value)`: raise the flag, then
     * replace one cell. The new collection is not yet seen by the effect.
     */
    method UpdateMyData(rowIndex: int, columnId: Field, value: Option<string>)
      requires Valid()
      modifies this
      ensures Valid() && !Settled()
      ensures skipPageReset
      ensures data == UpdateRow(old(data), rowIndex, columnId, value)
      ensures dataVersion == old(dataVersion) + 1 && effectVersion == old(effectVersion)
    {
      skipPageReset := true;
      data := UpdateRow(data, rowIndex, columnId, value);
      dataVersion := dataVersion + 1;
    }

    /**
     * The `[data]` effect, run after a render: when `data` is a new array
     * since it last ran, the flag goes back to false.
     */
    method DataEffect()
      requires Valid()
      modifies this
      ensures Valid() && Settled()
      ensures data == old(data) && dataVersion == old(dataVersion)
      ensures skipPageReset == (old(skipPageReset) && old(Settled()))
    {
      if effectVersion != dataVersion {
        skipPageReset := false;
        effectVersion := dataVersion;
      }
    }

    /**
     * The first half of `loadData`: a non-empty file selection empties the
     * collection and starts reading the file; an empty one does nothing.
     */
    method SelectFile(value: string) returns (reading: bool)
      requires Valid()
      modifies this
      ensures Valid()
      ensures reading <==> |value| != 0
      ensures reading ==> data == [] && dataVersion == old(dataVersion) + 1
      ensures !reading ==> data == old(data) && dataVersion == old(dataVersion)
      ensures skipPageReset == old(skipPageReset) && effectVersion == old(effectVersion)
    {
      reading := |value| != 0;
      if reading {
        data := [];
        dataVersion := dataVersion + 1;
      }
    }

    /**
     * The second half of `loadData`, the reader's `onload`: the parsed
     * records replace the collection wholesale.
     */
    method FileLoaded(fileText: string)
      requires Valid()
      modifies this
      ensures Valid() && !Settled()
      ensures data == Parse(fileText)
      ensures dataVersion == old(dataVersion) + 1
      ensures skipPageReset == old(skipPageReset) && effectVersion == old(effectVersion)
    {
      var parsed := OnLoad(fileText);
      data := parsed;
      dataVersion := dataVersion + 1;
    }

    /**
     * `storeData`: with records loaded, export their text as
     * t2_katalog.txt; with none, show the "load a source file first" notice.
     */
    method StoreData() returns (e: Export)
      ensures |data| == 0 ==> e == Alert(LoadFirstNotice)
      ensures |data| != 0 ==> e == Download(Serialize(data), ExportFileName)
    {
      if |data| != 0 {
        var txtFileContent := BuildFileContent(data);
        e := Download(txtFileContent, ExportFileName);
      } else {
        e := Alert(LoadFirstNotice);
      }
    }
  }
}
