/**
 * The catalog's plain-text file format: one record per line, each of the
 * fifteen columns followed by ';', each line ended by '\n', no header and
 * no escaping. Parsing is the body of the file reader's `onload` handler in
 * `loadData`; serializing is the loop in `storeData`.
 */
module TextCodec {
  import opened Wrappers
  import opened Delimited
  import opened Laptop

  /** How JavaScript's `+` writes a column value: `undefined` becomes the text "undefined". */
  function Show(v: Option<string>): (s: string)
    ensures v.Some? ==> s == v.value
    ensures v.None? ==> s != [] && ';' !in s && '\n' !in s
  {
    match v
    case Some(s) => s
    case None => "undefined"
  }

  /** The fifteen column texts of a record, in column order. */
  function Texts(r: Record): (ts: seq<string>)
    ensures |ts| == FieldCount
    ensures forall f :: ts[Position(f)] == Show(Get(r, f))
  {
    var vs := Values(r);
    seq(FieldCount, k requires 0 <= k < FieldCount => Show(vs[k]))
  }

  /**
   * A record's line without its newline: every column text followed by ';'.
   * It always ends in ';', holds a newline only if a column text does, and
   * splits on ';' into the column texts plus an empty last piece when no
   * column text holds a ';'.
   */
  function LineBody(r: Record): (line: string)
    ensures line != [] && line[|line| - 1] == ';'
    ensures (forall f :: '\n' !in Show(Get(r, f))) ==> '\n' !in line
    ensures NoneContains(Texts(r), ';') ==> Split(line, ';') == Texts(r) + [""]
  {
    var ts := Texts(r);
    assert (forall f :: '\n' !in Show(Get(r, f))) ==> '\n' !in Terminated(ts, ';') by {
      if forall f :: '\n' !in Show(Get(r, f)) {
        forall k | 0 <= k < |ts| ensures '\n' !in ts[k] {
          assert ts[k] == Show(Get(r, FieldOrder[k]));
        }
        TerminatedFree(ts, ';', '\n');
      }
    }
    assert NoneContains(ts, ';') ==> Split(Terminated(ts, ';'), ';') == ts + [""] by {
      if NoneContains(ts, ';') {
        SplitTerminated(ts, ';');
      }
    }
    Terminated(ts, ';')
  }

  /**
   * The exported text: every record's line, each followed by '\n'. An empty
   * collection writes nothing; any other ends in a newline.
   */
  function Serialize(data: seq<Record>): (text: string)
    ensures text == [] <==> data == []
    ensures data != [] ==> text[|text| - 1] == '\n'
  {
    Terminated(LineBodies(data), '\n')
  }

  /** Every record's line body, in collection order. */
  function LineBodies(data: seq<Record>): seq<string>
  {
    seq(|data|, i requires 0 <= i < |data| => LineBody(data[i]))
  }

  /**
   * The record one line of the file becomes. The producent is always
   * defined, no defined column holds a ';', and a line without any ';' is
   * all producent with every other column `undefined`.
   */
  function RecordOfLine(line: string): (r: Record)
    ensures Get(r, Producent).Some?
    ensures forall f :: Get(r, f).Some? ==> ';' !in Get(r, f).value
    ensures ';' !in line ==> Get(r, Producent) == Some(line) && forall f :: f != Producent ==> Get(r, f) == None
  {
    assert ';' !in line ==> Split(line, ';') == [line] by {
      if ';' !in line {
        SplitFree(line, ';');
      }
    }
    FromPieces(Split(line, ';'))
  }

  /**
   * The records a file's text becomes: one per '\n'-separated line, empty
   * lines included, so always one more than the number of newlines.
   */
  function Parse(text: string): (data: seq<Record>)
    ensures |data| == Count(text, '\n') + 1
    ensures data != []
  {
    var lines := Split(text, '\n');
    seq(|lines|, i requires 0 <= i < |lines| => RecordOfLine(lines[i]))
  }

  /** The record an empty line becomes: producent is "" and every other column is `undefined`. */
  function EmptyLineRecord(): (r: Record)
    ensures Get(r, Producent) == Some("")
    ensures forall f :: f != Producent ==> Get(r, f) == None
  {
    RecordOfLine("")
  }

  /**
   * The `onload` handler: split the text into lines, split each line on
   * ';' and push one record per line, in order.
   */
  method OnLoad(fileText: string) returns (data: seq<Record>)
    ensures data == Parse(fileText)
  {
    var fileContent := Split(fileText, '\n');
    data := [];
    for i := 0 to |fileContent|
      invariant |data| == i
      invariant forall j :: 0 <= j < i ==> data[j] == RecordOfLine(fileContent[j])
    {
      var fileField := Split(fileContent[i], ';');
      var product := FromPieces(fileField);
      data := data + [product];
    }
  }

  /**
   * The `storeData` loop: append every record's line to the text, in
   * collection order.
   */
  method BuildFileContent(data: seq<Record>) returns (txtFileContent: string)
    ensures txtFileContent == Serialize(data)
  {
    txtFileContent := "";
    for i := 0 to |data|
      invariant txtFileContent == Serialize(data[..i])
    {
      assert data[..i + 1] == data[..i] + [data[i]];
      assert LineBodies(data[..i + 1]) == LineBodies(data[..i]) + [LineBody(data[i])];
      TerminatedSnoc(LineBodies(data[..i]), LineBody(data[i]), '\n');
      txtFileContent := txtFileContent + LineBody(data[i]) + "\n";
    }
    assert data[..|data|] == data;
  }

  /** Field k of line i is the k-th ';'-separated piece of that line, or `undefined` past the end. */
  lemma ParseField(text: string, i: nat, f: Field)
    requires i < Count(text, '\n') + 1
    ensures Get(Parse(text)[i], f) == At(Split(Split(text, '\n')[i], ';'), Position(f))
  {
  }

  /** A trailing newline adds one final record: the empty-line record. */
  lemma ParseTrailingNewline(text: string)
    ensures Parse(text + "\n") == Parse(text) + [EmptyLineRecord()]
  {
    SplitTrailing(text, '\n');
  }

  /** No column value holds the line or column delimiter. */
  predicate Clean(r: Record)
  {
    Defined(r) && forall f :: ';' !in Get(r, f).value && '\n' !in Get(r, f).value
  }

  /** The exported text splits back into one line per record plus a final empty line. */
  lemma SerializedLines(data: seq<Record>)
    requires forall i, f :: 0 <= i < |data| ==> '\n' !in Show(Get(data[i], f))
    ensures Split(Serialize(data), '\n') == LineBodies(data) + [""]
  {
    var ls := LineBodies(data);
    forall i | 0 <= i < |ls|
      ensures '\n' !in ls[i]
    {
      assert ls[i] == LineBody(data[i]);
    }
    SplitTerminated(ls, '\n');
  }

  /** A clean record's line reads back as the same record. */
  lemma LineRoundTrip(r: Record)
    requires Clean(r)
    ensures RecordOfLine(LineBody(r)) == r
  {
    var ts := Texts(r);
    assert NoneContains(ts, ';') by {
      forall k | 0 <= k < |ts| ensures ';' !in ts[k] {
        assert ts[k] == Show(Get(r, FieldOrder[k]));
      }
    }
    var r' := RecordOfLine(LineBody(r));
    forall f ensures Get(r', f) == Get(r, f) {
      assert Get(r', f) == At(ts + [""], Position(f));
    }
    Extensionality(r', r);
  }

  /**
   * Round trip: reading back an export of clean records gives the same
   * records in the same order, followed by the empty-line record that the
   * final newline produces.
   */
  lemma RoundTrip(data: seq<Record>)
    requires forall i :: 0 <= i < |data| ==> Clean(data[i])
    ensures Parse(Serialize(data)) == data + [EmptyLineRecord()]
  {
    forall i, f | 0 <= i < |data| ensures '\n' !in Show(Get(data[i], f)) {
      assert Clean(data[i]);
    }
    SerializedLines(data);
    var p := Parse(Serialize(data));
    forall i | 0 <= i < |data| ensures p[i] == data[i] {
      LineRoundTrip(data[i]);
    }
  }

  /**
   * A line written by the exporter and read back with a Windows line ending:
   * the '\r' lands in the piece after the last ';', past column 14, so the
   * record is read back unchanged.
   */
  lemma CrlfLineRoundTrip(r: Record)
    requires Clean(r)
    ensures RecordOfLine(LineBody(r) + "\r") == r
  {
    var ts := Texts(r);
    assert NoneContains(ts, ';') by {
      forall k | 0 <= k < |ts| ensures ';' !in ts[k] {
        assert ts[k] == Show(Get(r, FieldOrder[k]));
      }
    }
    TerminatedIsJoin(ts, ';');
    TerminatedIsJoin(ts + ["\r"], ';');
    JoinCrlf(ts, ';');
    SplitJoin(ts + ["\r"], ';');
    var r' := RecordOfLine(LineBody(r) + "\r");
    forall f ensures Get(r', f) == Get(r, f) {
      assert Get(r', f) == At(ts + ["\r"], Position(f));
    }
    Extensionality(r', r);
  }

  /** Appending "\r" to a join whose last piece is empty makes that last piece "\r". */
  lemma {:induction false} JoinCrlf(pieces: seq<string>, sep: char)
    ensures Join(pieces + [""], sep) + "\r" == Join(pieces + ["\r"], sep)
  {
    if pieces != [] {
      JoinCrlf(pieces[1..], sep);
      assert (pieces + [""])[1..] == pieces[1..] + [""];
      assert (pieces + ["\r"])[1..] == pieces[1..] + ["\r"];
    }
  }
}
