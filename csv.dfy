/**
 * The naive CSV codec of Delopgave_3/error_handling.py: `read_csv` strips the
 * file's text, splits it into lines and each line at commas; `write_csv`
 * writes each row joined with commas and ended with a newline to
 * `output_data.csv` in the given directory.
 */
module Csv {
  import opened Wrappers
  import opened Strings
  import opened Files

  type Row = seq<string>
  type Table = seq<Row>

  /** Why `read_csv` returned nothing: the extension check, or the error the read raised. */
  datatype CsvError = NotCsvFile | ReadFailed(cause: IoError)

  /** Each line split at commas. */
  function SplitRows(lines: seq<string>): (rows: Table)
    ensures |rows| == |lines|
    ensures forall i :: 0 <= i < |lines| ==> rows[i] == Split(lines[i], ',')
  {
    seq(|lines|, i requires 0 <= i < |lines| => Split(lines[i], ','))
  }

  /** The parse in `read_csv`: the lines of the stripped text, each split at commas. */
  function ParseCsv(text: string): (rows: Table)
    ensures |rows| >= 1
    ensures forall i :: 0 <= i < |rows| ==> |rows[i]| >= 1
  {
    SplitRows(Split(Strip(text), '\n'))
  }

  /**
   * A parse has one more row than the stripped text has newlines, every row
   * has a field, and no field holds a comma or a newline.
   */
  lemma ParseCsvShape(text: string)
    ensures |ParseCsv(text)| == multiset(Strip(text))['\n'] + 1
    ensures forall row :: row in ParseCsv(text) ==> |row| >= 1
    ensures forall row, field :: row in ParseCsv(text) && field in row ==> ',' !in field && '\n' !in field
  {
    var lines := Split(Strip(text), '\n');
    var rows := ParseCsv(text);
    SplitCount(Strip(text), '\n');
    forall row, field | row in rows && field in row ensures ',' !in field && '\n' !in field {
      var i :| 0 <= i < |lines| && row == Split(lines[i], ',');
      assert lines[i] in lines;
      SplitJoinsBack(lines[i], ',');
      JoinHasPartChars(row, ',', field, '\n');
    }
  }

  /** Each row joined at commas. */
  function RowTexts(rows: Table): (lines: seq<string>)
    ensures |lines| == |rows|
  {
    seq(|rows|, i requires 0 <= i < |rows| => Join(rows[i], ','))
  }

  /** Rows joined at commas and the lines joined at newlines. */
  function JoinedText(rows: Table): string {
    Join(RowTexts(rows), '\n')
  }

  /** Parsing gives lines that join back to the stripped text: nothing but the outer whitespace is lost. */
  lemma ParseJoinsBack(text: string)
    ensures JoinedText(ParseCsv(text)) == Strip(text)
  {
    var lines := Split(Strip(text), '\n');
    var rows := ParseCsv(text);
    SplitJoinsBack(Strip(text), '\n');
    assert RowTexts(rows) == lines by {
      forall i | 0 <= i < |lines| ensures RowTexts(rows)[i] == lines[i] {
        assert rows[i] == Split(lines[i], ',');
        SplitJoinsBack(lines[i], ',');
      }
    }
  }

  /** A file holding only whitespace parses to one row with one empty field, not to an error or an empty table. */
  lemma BlankTextIsOneEmptyRow(text: string)
    requires AllSpace(text)
    ensures ParseCsv(text) == [[""]]
  {
    StripTrailingSpace("", text);
    assert Split("", '\n') == [""];
    assert Split("", ',') == [""];
  }

  /**
   * `read_csv(filepath)`: a path without the `.csv` ending is refused before
   * any read; otherwise the file's text is parsed, or the read's error is
   * returned. (The script prints the error and returns `None`.)
   */
  function ReadCsv(path: string, fs: FileSystem): (r: Result<Table, CsvError>)
    ensures !EndsWith(path, ".csv") ==> r == Err(NotCsvFile)
    ensures EndsWith(path, ".csv") && path !in fs ==> r == Err(ReadFailed(NotFound))
    ensures r.Ok? <==> EndsWith(path, ".csv") && path in fs && fs[path].Contents?
    ensures r.Ok? ==> r.value == ParseCsv(TranslateNewlines(fs[path].text))
  {
    if !EndsWith(path, ".csv") then Err(NotCsvFile)
    else match ReadText(fs, path)
      case Ok(text) => Ok(ParseCsv(text))
      case Err(e) => Err(ReadFailed(e))
  }

  /** The extension check comes first: the file system is not consulted for a non-`.csv` path. */
  lemma ExtensionCheckedFirst(path: string, fs1: FileSystem, fs2: FileSystem)
    requires !EndsWith(path, ".csv")
    ensures ReadCsv(path, fs1) == ReadCsv(path, fs2) == Err(NotCsvFile)
  {
  }

  /** What the write loop puts in the file: each row joined at commas, followed by a newline. */
  function Serialise(rows: Table): (text: string)
    ensures text == [] <==> rows == []
    ensures rows != [] ==> text[|text| - 1] == '\n'
  {
    TerminatedEnds(RowTexts(rows));
    Terminated(RowTexts(rows))
  }

  /** The output of a non-empty table is its joined text with a final newline. */
  lemma SerialiseIsJoinedText(rows: Table)
    requires |rows| >= 1
    ensures Serialise(rows) == JoinedText(rows) + "\n"
  {
    TerminatedIsJoin(RowTexts(rows));
  }

  /** The name `write_csv` always writes to. */
  const OutputName: string := "output_data.csv"

  /** The output path ends with `.csv`, so `read_csv` accepts it. */
  lemma OutputPathIsCsv(dirpath: string)
    ensures EndsWith(PathJoin(dirpath, OutputName), ".csv")
  {
    PathJoinEndsWith(dirpath, OutputName, ".csv");
  }

  /**
   * `write_csv(data, dirpath)`: the loop writes one joined row and a newline
   * per row into `output_data.csv` in `dirpath`. A failure to make the
   * directory or open the file is caught, leaving the file system as it was.
   */
  method WriteCsv(data: Table, dirpath: string, fs: FileSystem) returns (fs': FileSystem, ok: bool)
    ensures ok <==> CanMakeDirs(dirpath) && !IsInaccessible(fs, PathJoin(dirpath, OutputName))
    ensures ok ==> fs' == fs[PathJoin(dirpath, OutputName) := Contents(Serialise(data))]
    ensures !ok ==> fs' == fs
  {
    if !CanMakeDirs(dirpath) {
      return fs, false;
    }
    var path := PathJoin(dirpath, OutputName);
    if IsInaccessible(fs, path) {
      return fs, false;
    }
    var buffer := "";
    for i := 0 to |data|
      invariant buffer == Serialise(data[..i])
    {
      assert RowTexts(data[..i + 1]) == RowTexts(data[..i]) + [Join(data[i], ',')];
      TerminatedSnoc(RowTexts(data[..i]), Join(data[i], ','));
      buffer := buffer + Join(data[i], ',') + "\n";
    }
    assert data[..|data|] == data;
    return fs[path := Contents(buffer)], true;
  }

  /**
   * `write_csv(None, dirpath)`, which the main block runs when `read_csv`
   * returned `None`: the directory is made and `output_data.csv` opened for
   * writing, which empties it; then `for row in data` raises a `TypeError`
   * that `except IOError` does not catch. The flag says whether it escapes;
   * when it is false, making the directory or opening the file failed and
   * was caught, leaving the file system as it was.
   */
  function WriteCsvNone(dirpath: string, fs: FileSystem): (r: (FileSystem, bool))
    ensures r.1 <==> CanMakeDirs(dirpath) && !IsInaccessible(fs, PathJoin(dirpath, OutputName))
    ensures r.1 ==> r.0 == fs[PathJoin(dirpath, OutputName) := Contents("")]
    ensures !r.1 ==> r.0 == fs
  {
    var path := PathJoin(dirpath, OutputName);
    if !CanMakeDirs(dirpath) || IsInaccessible(fs, path) then (fs, false)
    else (fs[path := Contents("")], true)
  }

  /**
   * After a failed read, whatever `output_data.csv` held is gone: the file is
   * left as writing an empty table would leave it, and reading it back gives
   * one row with one empty field.
   */
  lemma FailedReadEmptiesOutput(dirpath: string, fs: FileSystem)
    requires WriteCsvNone(dirpath, fs).1
    ensures var path := PathJoin(dirpath, OutputName);
            WriteCsvNone(dirpath, fs).0 == fs[path := Contents(Serialise([]))]
    ensures var path := PathJoin(dirpath, OutputName);
            ReadCsv(path, WriteCsvNone(dirpath, fs).0) == Ok([[""]])
  {
    OutputPathIsCsv(dirpath);
    BlankTextIsOneEmptyRow("");
  }

  /**
   * The main block reads and then writes: what `write_csv` puts in the file
   * for a table `read_csv` returned is the stripped, translated text of the
   * input with one final newline.
   */
  lemma ReadThenWrite(path: string, fs: FileSystem)
    requires ReadCsv(path, fs).Ok?
    ensures Serialise(ReadCsv(path, fs).value) == Strip(TranslateNewlines(fs[path].text)) + "\n"
  {
    var t := TranslateNewlines(fs[path].text);
    ParseJoinsBack(t);
    SerialiseIsJoinedText(ParseCsv(t));
  }

  /** No field holds a comma, a newline or a carriage return. */
  ghost predicate PlainFields(rows: Table) {
    forall row, field :: row in rows && field in row ==> ',' !in field && '\n' !in field && '\r' !in field
  }

  /** With no newline in a field, the output holds one newline per row. */
  lemma SerialiseLineCount(rows: Table)
    requires forall row, field :: row in rows && field in row ==> '\n' !in field
    ensures multiset(Serialise(rows))['\n'] == |rows|
  {
    var lines := RowTexts(rows);
    forall l | l in lines ensures '\n' !in l {
      var i :| 0 <= i < |lines| && lines[i] == l;
      assert rows[i] in rows;
      JoinChars(rows[i], ',', '\n');
    }
    TerminatorCount(lines);
  }

  /**
   * Round trip: parsing what the write loop produced gives the table back,
   * when the table has a row, every row has a field, no field holds a comma,
   * a newline or a carriage return, and the joined text has no outer
   * whitespace for `strip()` to remove.
   */
  lemma ParseSerialise(rows: Table)
    requires |rows| >= 1 && forall row :: row in rows ==> |row| >= 1
    requires PlainFields(rows)
    requires NoOuterSpace(JoinedText(rows))
    ensures ParseCsv(TranslateNewlines(Serialise(rows))) == rows
  {
    var lines := RowTexts(rows);
    RowTextsPlain(rows);
    SerialiseHasNoReturn(rows);
    TranslateWithoutReturn(Serialise(rows));
    SerialiseIsJoinedText(rows);
    assert AllSpace("\n");
    StripTrailingSpace(JoinedText(rows), "\n");
    SplitJoin(lines, '\n');
    SplitRowTexts(rows);
  }

  /** With plain fields, no joined row holds a newline or a carriage return. */
  lemma RowTextsPlain(rows: Table)
    requires PlainFields(rows)
    ensures forall l :: l in RowTexts(rows) ==> '\n' !in l && '\r' !in l
  {
    var lines := RowTexts(rows);
    forall l | l in lines ensures '\n' !in l && '\r' !in l {
      var i :| 0 <= i < |lines| && lines[i] == l;
      assert rows[i] in rows;
      JoinChars(rows[i], ',', '\n');
      JoinChars(rows[i], ',', '\r');
    }
  }

  /** With plain fields, the written text holds no carriage return, so reading it translates nothing. */
  lemma SerialiseHasNoReturn(rows: Table)
    requires PlainFields(rows)
    ensures '\r' !in Serialise(rows)
  {
    if rows != [] {
      RowTextsPlain(rows);
      SerialiseIsJoinedText(rows);
      JoinChars(RowTexts(rows), '\n', '\r');
    }
  }

  /** Splitting each joined row at commas gives the rows back when every row has a field and no field a comma. */
  lemma SplitRowTexts(rows: Table)
    requires forall row :: row in rows ==> |row| >= 1
    requires forall row, field :: row in rows && field in row ==> ',' !in field
    ensures SplitRows(RowTexts(rows)) == rows
  {
    var back := SplitRows(RowTexts(rows));
    forall i | 0 <= i < |rows| ensures back[i] == rows[i] {
      assert rows[i] in rows;
      SplitJoin(rows[i], ',');
    }
  }

  /**
   * Writing a table and reading `output_data.csv` back gives the table, under
   * the conditions of `ParseSerialise` and when the write succeeds.
   */
  lemma WriteThenRead(rows: Table, dirpath: string, fs: FileSystem)
    requires |rows| >= 1 && forall row :: row in rows ==> |row| >= 1
    requires PlainFields(rows)
    requires NoOuterSpace(JoinedText(rows))
    ensures var path := PathJoin(dirpath, OutputName);
            ReadCsv(path, fs[path := Contents(Serialise(rows))]) == Ok(rows)
  {
    OutputPathIsCsv(dirpath);
    ParseSerialise(rows);
  }
}
