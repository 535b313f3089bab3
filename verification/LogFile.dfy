/** A log file written out as CSV or JSON, and what can be read back from the CSV. */
module LogFile {
  import opened Wrappers
  import opened Crc32
  import opened LogFormat
  import opened LogReader
  import opened LogTheorems

  datatype Sensor = Sensor(idHash: bv32, name: string, unit: string)

  // How numbers and records are spelled, which is the library's business.
  datatype Spelling = Spelling(
    time: bv32 -> string,
    value: Bytes -> string,
    header: Header -> string,
    record: Record -> string)

  // A conversion returns whether there was a header, or fails with the reader's exception.
  datatype Finish = Returned(result: bool) | Threw

  class Output {
    var text: string

    method Write(s: string)
      modifies this
      ensures text == old(text) + s
    {
      text := text + s;
    }
  }

  // ----- CSV

  function ColumnTitles(sensors: seq<Sensor>): string {
    if sensors == [] then ""
    else ",\"" + sensors[0].name + " (" + sensors[0].unit + ")\"" + ColumnTitles(sensors[1..])
  }

  function CsvHeader(metadata: Option<seq<Sensor>>): string {
    match metadata
    case None => "\"Time (sec)\",\"Value\""
    case Some(sensors) => "\"Time (sec)\"" + ColumnTitles(sensors)
  }

  function Ids(metadata: Option<seq<Sensor>>): seq<bv32> {
    match metadata
    case None => []
    case Some(sensors) => seq(|sensors|, k requires 0 <= k < |sensors| => sensors[k].idHash)
  }

  function Cell(sp: Spelling, id: bv32, r: Record): string {
    if r.sensorId == id then sp.value(r.data) else ""
  }

  function Cells(sp: Spelling, ids: seq<bv32>, r: Record): string {
    if ids == [] then "" else "," + Cell(sp, ids[0], r) + Cells(sp, ids[1..], r)
  }

  function Row(sp: Spelling, ids: seq<bv32>, r: Record): string {
    sp.time(r.timeDelta) + if ids != [] then Cells(sp, ids, r) else "," + sp.value(r.data)
  }

  function Rows(sp: Spelling, ids: seq<bv32>, rs: seq<Record>): seq<string> {
    if rs == [] then [] else [Row(sp, ids, rs[0])] + Rows(sp, ids, rs[1..])
  }

  /** Each line behind a line break. */
  function Lines(lines: seq<string>): string {
    if lines == [] then "" else "\n" + lines[0] + Lines(lines[1..])
  }

  lemma {:induction false} CellsLast(sp: Spelling, ids: seq<bv32>, r: Record)
    requires ids != []
    ensures Cells(sp, ids, r)
            == Cells(sp, ids[..|ids| - 1], r) + "," + Cell(sp, ids[|ids| - 1], r)
  {
    if |ids| > 1 {
      CellsLast(sp, ids[1..], r);
      assert ids[1..][..|ids| - 2] == ids[..|ids| - 1][1..];
    }
  }

  lemma {:induction false} TitlesLast(ss: seq<Sensor>)
    requires ss != []
    ensures var s := ss[|ss| - 1];
            ColumnTitles(ss) == ColumnTitles(ss[..|ss| - 1]) + (",\"" + s.name) + (" (" + s.unit + ")\"")
  {
    if |ss| > 1 {
      TitlesLast(ss[1..]);
      assert ss[1..][..|ss| - 2] == ss[..|ss| - 1][1..];
    }
  }

  lemma NoTitles()
    ensures ColumnTitles([]) == ""
  {
  }

  /** The line for one record. */
  method RecordLine(sp: Spelling, ids: seq<bv32>, r: Record) returns (line: string)
    ensures line == Row(sp, ids, r)
  {
    line := sp.time(r.timeDelta);
    if ids != [] {
      for i := 0 to |ids|
        invariant line == sp.time(r.timeDelta) + Cells(sp, ids[..i], r)
      {
        CellsLast(sp, ids[..i + 1], r);
        assert ids[..i + 1][..i] == ids[..i];
        line := line + ",";
        line := line + if r.sensorId == ids[i] then sp.value(r.data) else "";
      }
      assert ids[..|ids|] == ids;
    } else {
      line := line + ("," + sp.value(r.data));
    }
  }

  /** The header line, and the sensors' hashes in the order of its columns. */
  method HeaderLine(sensors: seq<Sensor>) returns (line: string, ids: seq<bv32>)
    ensures line == CsvHeader(Some(sensors)) && ids == Ids(Some(sensors))
  {
    hide ColumnTitles;
    line, ids := "\"Time (sec)\"", [];
    assert sensors[..0] == [];
    NoTitles();
    for i := 0 to |sensors|
      invariant line == "\"Time (sec)\"" + ColumnTitles(sensors[..i])
      invariant ids == Ids(Some(sensors))[..i]
    {
      TitlesLast(sensors[..i + 1]);
      assert sensors[..i + 1][..i] == sensors[..i];
      ids := ids + [sensors[i].idHash];
      line := line + (",\"" + sensors[i].name);
      line := line + (" (" + sensors[i].unit + ")\"");
    }
    assert sensors[..|sensors|] == sensors;
  }

  /** All that a CSV conversion writes. */
  function CsvText(sp: Spelling, metadata: Option<seq<Sensor>>, bytes: Bytes): string {
    CsvHeader(metadata) +
    match Log(bytes)
    case Got((_, records, _)) => Lines(Rows(sp, Ids(metadata), records))
    case _ => ""
  }

  function Result(bytes: Bytes): Finish {
    match Log(bytes)
    case Got((_, _, raised)) => if raised then Threw else Returned(true)
    case Absent => Returned(false)
    case Raised => Threw
  }

  /** What one turn of the loop over the records writes. */
  lemma LinesStep(sp: Spelling, ids: seq<bv32>, rest: Bytes)
    requires RecordAt(rest, ANALOG).Got?
    ensures |rest| >= 21 && Records(rest).1 == Records(rest[21..]).1
    ensures Lines(Rows(sp, ids, Records(rest).0))
            == "\n" + Row(sp, ids, RecordAt(rest, ANALOG).value)
               + Lines(Rows(sp, ids, Records(rest[21..]).0))
  {
    hide RecordAt, Row;
    AnalogSpan(rest);
    var r, tail := RecordAt(rest, ANALOG).value, Records(rest[21..]).0;
    assert Records(rest).0[1..] == tail;
    assert Rows(sp, ids, Records(rest).0)[1..] == Rows(sp, ids, tail);
  }

  lemma LinesEnd(sp: Spelling, ids: seq<bv32>, rest: Bytes)
    requires !RecordAt(rest, ANALOG).Got?
    ensures Records(rest) == ([], RecordAt(rest, ANALOG).Raised?)
    ensures Lines(Rows(sp, ids, Records(rest).0)) == ""
  {
    hide RecordAt;
  }

  method NextRecord(input: Stream) returns (r: Outcome<Record>)
    requires input.Valid()
    modifies input
    ensures input.Valid()
    ensures r == RecordAt(old(input.Rest()), ANALOG)
    ensures r.Got? ==> |old(input.Rest())| >= 21 && input.Rest() == old(input.Rest())[21..]
  {
    ghost var rest := input.Rest();
    r := CreateRecord(input, ANALOG);
    if r.Got? {
      AnalogSpan(rest);
    }
  }

  lemma Assoc(a: string, b: string, c: string)
    ensures a + b + c == a + (b + c)
  {
  }

  /** The loop over the records. */
  method WriteRows(sp: Spelling, ids: seq<bv32>, input: Stream, output: Output) returns (raised: bool)
    requires input.Valid()
    modifies input, output
    ensures raised == Records(old(input.Rest())).1
    ensures output.text == old(output.text) + Lines(Rows(sp, ids, Records(old(input.Rest())).0))
  {
    hide RecordAt, Row, Records, Rows, Lines;
    ghost var rest, text := input.Rest(), output.text;
    ghost var want, end := text + Lines(Rows(sp, ids, Records(rest).0)), Records(rest).1;
    var record := NextRecord(input);
    while record.Got?
      invariant input.Valid() && record == RecordAt(rest, ANALOG)
      invariant record.Got? ==> |rest| >= 21 && input.Rest() == rest[21..]
      invariant Records(rest).1 == end
      invariant output.text + Lines(Rows(sp, ids, Records(rest).0)) == want
      decreases |rest|
    {
      ghost var before := output.text;
      LinesStep(sp, ids, rest);
      output.Write("\n");
      var line := RecordLine(sp, ids, record.value);
      output.Write(line);
      ghost var tail := Lines(Rows(sp, ids, Records(rest[21..]).0));
      Assoc(before, "\n", line);
      Assoc(before, "\n" + line, tail);
      rest := rest[21..];
      record := NextRecord(input);
    }
    LinesEnd(sp, ids, rest);
    assert output.text + "" == output.text;
    return record.Raised?;
  }

  lemma HeaderSpan(bytes: Bytes)
    requires HeaderAt(bytes).Got?
    ensures |bytes| >= 32 && HeaderTake(bytes) == 32
  {
  }

  method ReadHeader(input: Stream) returns (r: Outcome<Header>)
    requires input.Valid()
    modifies input
    ensures input.Valid()
    ensures r == HeaderAt(old(input.Rest()))
    ensures r.Got? ==> |old(input.Rest())| >= 32 && input.Rest() == old(input.Rest())[32..]
  {
    ghost var rest := input.Rest();
    r := CreateHeader(input);
    if r.Got? {
      HeaderSpan(rest);
    }
  }

  /** Writes a log as a table, one column for each sensor the metadata names. */
  method ToCsv(sp: Spelling, metadata: Option<seq<Sensor>>, input: Stream, output: Output)
    returns (f: Finish)
    requires input.Valid()
    modifies input, output
    ensures f == Result(old(input.Rest()))
    ensures output.text == old(output.text) + CsvText(sp, metadata, old(input.Rest()))
  {
    hide HeaderAt, Records, Rows, Lines, ColumnTitles;
    ghost var text := output.text;
    var ids := [];
    if metadata.Some? {
      var line;
      line, ids := HeaderLine(metadata.value);
      output.Write(line);
    } else {
      output.Write("\"Time (sec)\",\"Value\"");
    }
    var header := ReadHeader(input);
    if !header.Got? {
      assert CsvHeader(metadata) + "" == CsvHeader(metadata);
      return if header.Raised? then Threw else Returned(false);
    }
    var raised := WriteRows(sp, ids, input, output);
    Assoc(text, CsvHeader(metadata), Lines(Rows(sp, ids, Records(old(input.Rest())[32..]).0)));
    return if raised then Threw else Returned(true);
  }

  // ----- JSON

  /** The records spelled out with commas between them; `first` when none has gone before. */
  function Listed(sp: Spelling, rs: seq<Record>, first: bool): string {
    if rs == [] then ""
    else (if first then "" else ",") + sp.record(rs[0]) + Listed(sp, rs[1..], false)
  }

  /** All that a JSON conversion writes. */
  function JsonText(sp: Spelling, bytes: Bytes): string {
    "{\"header\": " +
    match Log(bytes)
    case Got((h, records, raised)) =>
      sp.header(h) + ",\"records\": [" + Listed(sp, records, true) + if raised then "" else "]}"
    case _ => ""
  }

  lemma ListedStep(sp: Spelling, rest: Bytes, first: bool)
    requires RecordAt(rest, ANALOG).Got?
    ensures |rest| >= 21 && Records(rest).1 == Records(rest[21..]).1
    ensures Listed(sp, Records(rest).0, first)
            == (if first then "" else ",") + sp.record(RecordAt(rest, ANALOG).value)
               + Listed(sp, Records(rest[21..]).0, false)
  {
    hide RecordAt;
    AnalogSpan(rest);
    assert Records(rest).0[1..] == Records(rest[21..]).0;
  }

  lemma ListedEnd(sp: Spelling, rest: Bytes, first: bool)
    requires !RecordAt(rest, ANALOG).Got?
    ensures Records(rest).1 == RecordAt(rest, ANALOG).Raised?
    ensures Listed(sp, Records(rest).0, first) == ""
  {
    hide RecordAt;
  }

  method WriteList(sp: Spelling, input: Stream, output: Output) returns (raised: bool)
    requires input.Valid()
    modifies input, output
    ensures raised == Records(old(input.Rest())).1
    ensures output.text == old(output.text) + Listed(sp, Records(old(input.Rest())).0, true)
  {
    hide RecordAt, Records, Listed;
    ghost var rest, text := input.Rest(), output.text;
    ghost var want, end := text + Listed(sp, Records(rest).0, true), Records(rest).1;
    var firstRecord := true;
    var record := NextRecord(input);
    while record.Got?
      invariant input.Valid() && record == RecordAt(rest, ANALOG)
      invariant record.Got? ==> |rest| >= 21 && input.Rest() == rest[21..]
      invariant Records(rest).1 == end
      invariant output.text + Listed(sp, Records(rest).0, firstRecord) == want
      decreases |rest|
    {
      ghost var before, comma := output.text, if firstRecord then "" else ",";
      ListedStep(sp, rest, firstRecord);
      if !firstRecord {
        output.Write(",");
      }
      assert output.text == before + comma;
      firstRecord := false;
      var line := sp.record(record.value);
      output.Write(line);
      ghost var tail := Listed(sp, Records(rest[21..]).0, false);
      Assoc(before, comma, line);
      Assoc(before, comma + line, tail);
      rest := rest[21..];
      record := NextRecord(input);
    }
    ListedEnd(sp, rest, firstRecord);
    assert output.text + "" == output.text;
    return record.Raised?;
  }

  /** Writes a log as one JSON object. */
  method ToJson(sp: Spelling, input: Stream, output: Output) returns (f: Finish)
    requires input.Valid()
    modifies input, output
    ensures f == Result(old(input.Rest()))
    ensures output.text == old(output.text) + JsonText(sp, old(input.Rest()))
  {
    hide HeaderAt, Records, Listed;
    ghost var bytes, text := input.Rest(), output.text;
    output.Write("{");
    output.Write("\"header\": ");
    Assoc(text, "{", "\"header\": ");
    assert output.text == text + "{\"header\": ";
    var header := ReadHeader(input);
    if !header.Got? {
      assert text + "{\"header\": " == text + ("{\"header\": " + "");
      return if header.Raised? then Threw else Returned(false);
    }
    ghost var h := sp.header(header.value);
    output.Write(sp.header(header.value));
    output.Write(",");
    output.Write("\"records\": [");
    assert output.text == text + ("{\"header\": " + (h + ",\"records\": ["));
    var raised := WriteList(sp, input, output);
    ghost var list, end := Listed(sp, Records(bytes[32..]).0, true), if raised then "" else "]}";
    if !raised {
      output.Write("]}");
    }
    assert output.text == text + ("{\"header\": " + (h + ",\"records\": [")) + list + end;
    Regroup(text, "{\"header\": ", h + ",\"records\": [", list, end);
    return if raised then Threw else Returned(true);
  }

  lemma Regroup(a: string, b: string, c: string, d: string, e: string)
    ensures a + (b + c) + d + e == a + (b + (c + d + e))
  {
  }

  // ----- the result

  lemma {:induction false} RecordsEnd(rest: Bytes) returns (n: nat)
    ensures n == |Records(rest).0| && |rest| >= 21 * n
    ensures forall k | 0 <= k < n :: RecordAt(rest[21 * k..], ANALOG).Got?
    ensures !RecordAt(rest[21 * n..], ANALOG).Got?
    ensures Records(rest).1 == RecordAt(rest[21 * n..], ANALOG).Raised?
    decreases |rest|
  {
    hide RecordAt;
    n := 0;
    assert rest[0..] == rest;
    if RecordAt(rest, ANALOG).Got? {
      AnalogSpan(rest);
      var m := RecordsEnd(rest[21..]);
      n := m + 1;
      forall k | 0 <= k < n ensures RecordAt(rest[21 * k..], ANALOG).Got? {
        if k > 0 {
          Further(rest, k);
        }
      }
      Further(rest, n);
    }
  }

  lemma Further(rest: Bytes, k: nat)
    requires k > 0 && 21 * k <= |rest|
    ensures 21 * (k - 1) <= |rest[21..]| && rest[21 * k..] == rest[21..][21 * (k - 1)..]
  {
  }

  /** What a conversion returns, from the file alone: true when behind an accepted header comes record
      after record and then, where the next would begin, the reader finds none; false when there is
      no header; and an exception exactly when the reader raises one at the header or there. */
  lemma ResultMeans(bytes: Bytes) returns (n: nat)
    ensures Result(bytes) == Returned(false) <==> HeaderAt(bytes).Absent?
    ensures HeaderAt(bytes).Raised? ==> Result(bytes).Threw?
    ensures HeaderAt(bytes).Got? ==>
              && |bytes| >= 32 + 21 * n && Log(bytes).Got? && |Log(bytes).value.1| == n
              && (forall k | 0 <= k < n :: RecordAt(bytes[32..][21 * k..], ANALOG).Got?)
              && var end := RecordAt(bytes[32..][21 * n..], ANALOG);
                 && !end.Got?
                 && (Result(bytes) == Returned(true) <==> end.Absent?)
                 && (Result(bytes).Threw? <==> end.Raised?)
  {
    hide RecordAt, HeaderAt, Records;
    n := 0;
    if HeaderAt(bytes).Got? {
      HeaderSpan(bytes);
      n := RecordsEnd(bytes[32..]);
    }
  }
}
