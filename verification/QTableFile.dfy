/** The line logic of `QTable.WriteFile` and `QTable.ReadFile`. Opening, reading and
    closing the file are left out: a file is the sequence of its lines. */
module QTableFile {
  import opened Wrappers
  import opened CsvText
  import opened QTableData
  import opened QTable

  /** The separator `WriteFile` uses: the default argument of `CSVGetData`. */
  const WriteSeparator: char := ';'

  /** `$"{stateString} {valueString}"` for one table entry. */
  function LineText(codec: FloatCodec, s: State, row: Row, sep: char): string {
    StateText(s, sep) + " " + RowText(codec, row, sep)
  }

  /** One line written by `WriteFile`. */
  function EncodeLine(codec: FloatCodec, s: State, row: Row): string {
    LineText(codec, s, row, WriteSeparator)
  }

  /** One pass of the `ReadFile` loop before the insertion: split on `,` and `;`, the
      state from field 0, the row from field `CSVGetNumElements()` of the state. */
  function DecodeLine(codec: FloatCodec, line: string): (r: Result<(State, Row), CsvError>)
    ensures r.Success? ==> |Split(line)| >= StateNumElements + RowNumElements
  {
    var fields := Split(line);
    var s :- DecodeState(fields, 0);
    var row :- DecodeRow(codec, fields, StateNumElements);
    Success((s, row))
  }

  /** A written line splits into the state texts and the row texts, each after the
      first behind one space, and the empty field after the last separator. */
  lemma SplitLineText(codec: FloatCodec, s: State, row: Row, sep: char)
    requires RowRoundTrips(codec, row) && sep in Separators
    ensures Split(LineText(codec, s, row, sep)) == Spaced(StateFields(s) + RowFields(codec, row)) + [""]
  {
    var sf := StateFields(s);
    var rf := RowFields(codec, row);
    StateFieldsShape(s);
    RowFieldsShape(codec, row);
    RecordJoin(sf, rf, sep);
    var all := sf + rf;
    assert forall i :: 0 <= i < |all| ==> NoSeparator(all[i]);
    SpacedNoSeparator(all);
    SplitTerminated(Spaced(all), sep);
  }

  /** A written line holds no line break. */
  lemma LineTextSingleLine(codec: FloatCodec, s: State, row: Row, sep: char)
    requires RowRoundTrips(codec, row) && sep in Separators
    ensures SingleLine(LineText(codec, s, row, sep))
  {
    var all := StateFields(s) + RowFields(codec, row);
    StateFieldsShape(s);
    RowFieldsShape(codec, row);
    RecordJoin(StateFields(s), RowFields(codec, row), sep);
    assert forall i :: 0 <= i < |all| ==> SingleLine(all[i]);
    RecordSingleLine(all, sep);
  }

  /** A written line, with either separator, is one line of the file and reads back
      as the entry it was written from; its split has one field more than the
      thirteen that are read. */
  lemma LineRoundTrip(codec: FloatCodec, s: State, row: Row, sep: char)
    requires RowRoundTrips(codec, row) && sep in Separators
    ensures SingleLine(LineText(codec, s, row, sep))
    ensures |Split(LineText(codec, s, row, sep))| == StateNumElements + RowNumElements + 1
    ensures DecodeLine(codec, LineText(codec, s, row, sep)) == Success((s, row))
  {
    var sf := StateFields(s);
    var rf := RowFields(codec, row);
    var all := sf + rf;
    LineTextSingleLine(codec, s, row, sep);
    SplitLineText(codec, s, row, sep);
    var fields := Spaced(all) + [""];
    forall i | 0 <= i < StateNumElements
      ensures Shows(fields[0 + i], sf[i])
    {
      SpacedShows(all, i);
      assert all[i] == sf[i];
    }
    DecodeStateFields(s, fields, 0);
    forall i | 0 <= i < RowNumElements
      ensures Shows(fields[StateNumElements + i], rf[i])
    {
      SpacedShows(all, StateNumElements + i);
      assert all[StateNumElements + i] == rf[i];
    }
    DecodeRowFields(codec, row, fields, StateNumElements);
  }

  /** A blank line is not skipped: it has no state flag to parse, so the load fails. */
  lemma BlankLineFails(codec: FloatCodec)
    ensures DecodeLine(codec, "") == Failure(BadField(0))
  {
    assert Split("") == [""];
    assert LowerText(Trim("")) == "";
  }

  /** What a load leaves behind: the table, and the error that stopped it if any.
      Rows added before a failing line stay in the table, as they do in the
      `Dictionary` when `ReadFile` throws. */
  datatype LoadOutcome = LoadOutcome(table: Table, error: Option<CsvError>)

  /** What adding every one of `lines` to `t` leaves: every line decoded, the table
      holds each line's row at its state, every key is an old one or some line's
      state, and there is one new key per line. */
  ghost predicate LoadedLines(decode: string -> Result<(State, Row), CsvError>, t: Table, lines: seq<string>, table: Table) {
    && |table| == |t| + |lines|
    && (forall i :: 0 <= i < |lines| ==>
          && decode(lines[i]).Success?
          && decode(lines[i]).value.0 in table
          && table[decode(lines[i]).value.0] == decode(lines[i]).value.1)
    && (forall k :: k in table ==>
          k in t || exists i :: 0 <= i < |lines| && decode(lines[i]).Success? && decode(lines[i]).value.0 == k)
  }

  /** Why `line` stops a load that has reached `table`: it does not decode, and
      `error` is the decoding error, or its state is already in the table, and
      `error` is the one `Dictionary.Add` throws. */
  ghost predicate StopsAt(decode: string -> Result<(State, Row), CsvError>, table: Table, line: string, error: CsvError) {
    match decode(line)
    case Failure(e) => error == e
    case Success((s, _)) => s in table && error == DuplicateKey
  }

  /** The `ReadFile` loop for a given line decoder: each line is decoded and its
      entry added with `Dictionary.Add`, which fails on a state already present.
      A failure at line `j` leaves exactly the entries of the lines before it. */
  function AddLines(decode: string -> Result<(State, Row), CsvError>, t: Table, lines: seq<string>): (r: LoadOutcome)
    ensures t.Keys <= r.table.Keys
    ensures forall k :: k in t ==> r.table[k] == t[k]
    ensures r.error.None? ==> LoadedLines(decode, t, lines, r.table)
    ensures r.error.Some? ==>
              exists j :: 0 <= j < |lines| &&
                LoadedLines(decode, t, lines[..j], r.table) && StopsAt(decode, r.table, lines[j], r.error.value)
    decreases |lines|
  {
    if |lines| == 0 then LoadOutcome(t, None)
    else
      match decode(lines[0])
      case Failure(e) =>
        assert LoadedLines(decode, t, lines[..0], t) && StopsAt(decode, t, lines[0], e);
        LoadOutcome(t, Some(e))
      case Success((s, row)) =>
        if s in t then
          assert LoadedLines(decode, t, lines[..0], t) && StopsAt(decode, t, lines[0], DuplicateKey);
          LoadOutcome(t, Some(DuplicateKey))
        else
          var r := AddLines(decode, t[s := row], lines[1..]);
          if r.error.None? then
            LoadedFirstLine(decode, t, lines, r.table);
            r
          else
            StoppedAfterFirstLine(decode, t, lines, r);
            r
  }

  /** A load of the lines after the first that stops at one of them, into the table
      with the first line's entry added, is a load of all the lines that stops at
      the same line. */
  lemma StoppedAfterFirstLine(decode: string -> Result<(State, Row), CsvError>, t: Table, lines: seq<string>, r: LoadOutcome)
    requires |lines| > 0 && decode(lines[0]).Success? && decode(lines[0]).value.0 !in t
    requires r.error.Some?
    requires var (s, row) := decode(lines[0]).value; s in r.table && r.table[s] == row
    requires var (s, row) := decode(lines[0]).value;
             exists j :: 0 <= j < |lines[1..]| &&
               LoadedLines(decode, t[s := row], lines[1..][..j], r.table) && StopsAt(decode, r.table, lines[1..][j], r.error.value)
    ensures exists j :: 0 <= j < |lines| &&
              LoadedLines(decode, t, lines[..j], r.table) && StopsAt(decode, r.table, lines[j], r.error.value)
  {
    var (s, row) := decode(lines[0]).value;
    var j :| 0 <= j < |lines[1..]| &&
      LoadedLines(decode, t[s := row], lines[1..][..j], r.table) && StopsAt(decode, r.table, lines[1..][j], r.error.value);
    var prefix := lines[..j + 1];
    assert prefix[0] == lines[0] && prefix[1..] == lines[1..][..j];
    LoadedFirstLine(decode, t, prefix, r.table);
    assert lines[1..][j] == lines[j + 1];
  }

  /** A successful load of the lines after the first, into the table with the first
      line's entry added, is a successful load of all the lines. */
  lemma LoadedFirstLine(decode: string -> Result<(State, Row), CsvError>, t: Table, lines: seq<string>, table: Table)
    requires |lines| > 0 && decode(lines[0]).Success? && decode(lines[0]).value.0 !in t
    requires var (s, row) := decode(lines[0]).value; LoadedLines(decode, t[s := row], lines[1..], table)
    requires var (s, row) := decode(lines[0]).value; s in table && table[s] == row
    ensures LoadedLines(decode, t, lines, table)
  {
    var (s, row) := decode(lines[0]).value;
    var rest := lines[1..];
    assert forall i :: 1 <= i < |lines| ==> lines[i] == rest[i - 1];
    forall k | k in table
      ensures k in t || exists i :: 0 <= i < |lines| && decode(lines[i]).Success? && decode(lines[i]).value.0 == k
    {
      if k !in t && k != s {
        var i :| 0 <= i < |rest| && decode(rest[i]).Success? && decode(rest[i]).value.0 == k;
        assert lines[i + 1] == rest[i];
      }
    }
  }

  /** The line decoder of `ReadFile` for one float text format. */
  function LineDecoder(codec: FloatCodec): string -> Result<(State, Row), CsvError> {
    line => DecodeLine(codec, line)
  }

  /** `ReadFile` on the lines of a file: never clears the table; when it succeeds
      every line decoded and the table holds exactly the old entries and one new
      entry per line, and when line `j` throws the table holds exactly the old
      entries and those of the lines before `j`. */
  function Load(codec: FloatCodec, t: Table, lines: seq<string>): (r: LoadOutcome)
    ensures t.Keys <= r.table.Keys
    ensures forall k :: k in t ==> r.table[k] == t[k]
    ensures r.error.None? ==> LoadedLines(LineDecoder(codec), t, lines, r.table)
    ensures r.error.Some? ==>
              exists j :: 0 <= j < |lines| &&
                LoadedLines(LineDecoder(codec), t, lines[..j], r.table) &&
                StopsAt(LineDecoder(codec), r.table, lines[j], r.error.value)
  {
    AddLines(LineDecoder(codec), t, lines)
  }

  /** A line whose state is already in the table stops the load with that table. */
  lemma AddLinesRejectsPresentState(decode: string -> Result<(State, Row), CsvError>, t: Table, lines: seq<string>)
    requires |lines| > 0 && decode(lines[0]).Success? && decode(lines[0]).value.0 in t
    ensures AddLines(decode, t, lines) == LoadOutcome(t, Some(DuplicateKey))
  {
  }

  /** `Dictionary.Add` throws on a repeated key: when the lines up to `j` decode and
      line `j`'s state is already in the table or on an earlier line, the load
      stops with `DuplicateKey` (at line `j` or at an earlier repeat). */
  lemma {:induction false} AddLinesRejectsRepeatedState(decode: string -> Result<(State, Row), CsvError>, t: Table, lines: seq<string>, j: nat)
    requires j < |lines|
    requires forall i :: 0 <= i <= j ==> decode(lines[i]).Success?
    requires || decode(lines[j]).value.0 in t
             || exists i :: 0 <= i < j && decode(lines[i]).value.0 == decode(lines[j]).value.0
    ensures AddLines(decode, t, lines).error == Some(DuplicateKey)
    decreases j
  {
    var (s, row) := decode(lines[0]).value;
    if s !in t {
      var rest := lines[1..];
      assert forall i :: 1 <= i < |lines| ==> lines[i] == rest[i - 1];
      assert decode(rest[j - 1]).value.0 in t[s := row]
          || exists i :: 0 <= i < j - 1 && decode(rest[i]).value.0 == decode(rest[j - 1]).value.0;
      AddLinesRejectsRepeatedState(decode, t[s := row], rest, j - 1);
    }
  }

  /** `order` lists the keys of `t` once each: one iteration order of the `Dictionary`. */
  ghost predicate Enumerates(t: Table, order: seq<State>) {
    && (forall i, j :: 0 <= i < j < |order| ==> order[i] != order[j])
    && (forall k :: k in order <==> k in t)
  }

  /** The lines `WriteFile` writes when the table is enumerated in `order`. */
  function WriteLines(codec: FloatCodec, t: Table, order: seq<State>): (lines: seq<string>)
    requires forall k :: k in order ==> k in t
    ensures |lines| == |order|
  {
    seq(|order|, i requires 0 <= i < |order| => EncodeLine(codec, order[i], t[order[i]]))
  }

  /** Adding lines that decode to distinct entries of `t`, none of them in `t0`,
      adds exactly those entries and keeps the rest of `t0`. */
  lemma {:induction false} AddDecodedLines(decode: string -> Result<(State, Row), CsvError>, t: Table, order: seq<State>, lines: seq<string>, t0: Table)
    requires |lines| == |order|
    requires forall i, j :: 0 <= i < j < |order| ==> order[i] != order[j]
    requires forall k :: k in order ==> k in t && k !in t0
    requires forall i :: 0 <= i < |order| ==> decode(lines[i]) == Success((order[i], t[order[i]]))
    ensures AddLines(decode, t0, lines).error == None
    ensures forall k :: k in AddLines(decode, t0, lines).table <==> k in t0 || k in order
    ensures forall k :: k in order ==> AddLines(decode, t0, lines).table[k] == t[k]
    decreases |order|
  {
    if |order| > 0 {
      var k := order[0];
      assert decode(lines[0]) == Success((k, t[k]));
      assert forall j :: 0 <= j < |order[1..]| ==> order[1..][j] == order[j + 1] && lines[1..][j] == lines[j + 1];
      AddDecodedLines(decode, t, order[1..], lines[1..], t0[k := t[k]]);
      assert forall x :: x in order <==> x == k || x in order[1..];
    }
  }

  /** Every line `WriteFile` writes decodes to the entry it was written from. */
  lemma WrittenLinesDecode(codec: FloatCodec, t: Table, order: seq<State>)
    requires TableRoundTrips(codec, t)
    requires forall k :: k in order ==> k in t
    ensures forall i :: 0 <= i < |order| ==> SingleLine(WriteLines(codec, t, order)[i])
    ensures forall i :: 0 <= i < |order| ==>
              DecodeLine(codec, WriteLines(codec, t, order)[i]) == Success((order[i], t[order[i]]))
  {
    forall i | 0 <= i < |order|
      ensures SingleLine(WriteLines(codec, t, order)[i])
      ensures DecodeLine(codec, WriteLines(codec, t, order)[i]) == Success((order[i], t[order[i]]))
    {
      LineRoundTrip(codec, order[i], t[order[i]], WriteSeparator);
    }
  }

  /** Lines that decode, in an enumeration order of `t`, to the entries of `t` load
      into an empty table as `t` itself. */
  lemma AddEnumeratedLines(decode: string -> Result<(State, Row), CsvError>, t: Table, order: seq<State>, lines: seq<string>)
    requires Enumerates(t, order) && |lines| == |order|
    requires forall i :: 0 <= i < |order| ==> decode(lines[i]) == Success((order[i], t[order[i]]))
    ensures AddLines(decode, map[], lines) == LoadOutcome(t, None)
  {
    AddDecodedLines(decode, t, order, lines, map[]);
    SameEntries(AddLines(decode, map[], lines).table, t, order);
  }

  /** A table with exactly the keys an enumeration of `t` lists, and `t`'s rows at
      them, is `t`. */
  lemma SameEntries(r: Table, t: Table, order: seq<State>)
    requires forall k :: k in order <==> k in t
    requires forall k :: k in r <==> k in order
    requires forall k :: k in order ==> r[k] == t[k]
    ensures r == t
  {
    assert r.Keys == t.Keys;
  }

  /** The float texts of every value in the table round-trip. */
  predicate TableRoundTrips(codec: FloatCodec, t: Table) {
    forall k :: k in t ==> RowRoundTrips(codec, t[k])
  }

  /** Writing the table in any enumeration order gives one file line per entry, and
      loading those lines into an empty table gives the same table back, with no
      error. */
  lemma WriteThenLoad(codec: FloatCodec, t: Table, order: seq<State>)
    requires TableRoundTrips(codec, t) && Enumerates(t, order)
    ensures forall i :: 0 <= i < |order| ==> SingleLine(WriteLines(codec, t, order)[i])
    ensures Load(codec, map[], WriteLines(codec, t, order)) == LoadOutcome(t, None)
  {
    var lines := WriteLines(codec, t, order);
    WrittenLinesDecode(codec, t, order);
    AddEnumeratedLines(LineDecoder(codec), t, order, lines);
  }

  /** Loading the same file twice into one table fails at the first line: loading
      never clears the table. */
  lemma LoadTwiceFails(codec: FloatCodec, t: Table, order: seq<State>)
    requires Enumerates(t, order) && |order| > 0 && RowRoundTrips(codec, t[order[0]])
    ensures Load(codec, t, WriteLines(codec, t, order)) == LoadOutcome(t, Some(DuplicateKey))
  {
    var lines := WriteLines(codec, t, order);
    LineRoundTrip(codec, order[0], t[order[0]], WriteSeparator);
    AddLinesRejectsPresentState(LineDecoder(codec), t, lines);
  }
}
