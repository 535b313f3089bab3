/** Reading the CSV back: rows, cells, and each sensor's time series. */
module LogTable {
  import opened Wrappers
  import opened Crc32
  import opened LogFormat
  import opened LogTheorems
  import opened LogFile

  /** Cuts a text at every separator. */
  function Split(s: string, sep: char): (parts: seq<string>)
    ensures |parts| >= 1
  {
    if s == "" then [""]
    else
      var rest := Split(s[1..], sep);
      if s[0] == sep then [""] + rest else [[s[0]] + rest[0]] + rest[1..]
  }

  lemma {:induction false} SplitNone(s: string, sep: char)
    requires sep !in s
    ensures Split(s, sep) == [s]
  {
    if s != "" {
      SplitNone(s[1..], sep);
      assert s == [s[0]] + s[1..];
      assert [s[1..]][1..] == [];
    }
  }

  lemma {:induction false} SplitAt(a: string, sep: char, b: string)
    requires sep !in a
    ensures Split(a + [sep] + b, sep) == [a] + Split(b, sep)
  {
    var s := a + [sep] + b;
    if a == "" {
      assert s[1..] == b;
    } else {
      assert s[1..] == a[1..] + [sep] + b;
      SplitAt(a[1..], sep, b);
      assert a == [a[0]] + a[1..];
      assert ([a[1..]] + Split(b, sep))[1..] == Split(b, sep);
    }
  }

  /** Numbers are spelled without commas and line breaks, and a value is never spelled as
      nothing. */
  ghost predicate Plain(sp: Spelling) {
    && (forall t :: ',' !in sp.time(t) && '\n' !in sp.time(t))
    && (forall d :: ',' !in sp.value(d) && '\n' !in sp.value(d) && sp.value(d) != "")
  }

  function CellList(sp: Spelling, ids: seq<bv32>, r: Record): seq<string> {
    if ids == [] then [] else [Cell(sp, ids[0], r)] + CellList(sp, ids[1..], r)
  }

  lemma {:induction false} CellListAt(sp: Spelling, ids: seq<bv32>, r: Record)
    ensures |CellList(sp, ids, r)| == |ids|
    ensures forall i | 0 <= i < |ids| :: CellList(sp, ids, r)[i] == Cell(sp, ids[i], r)
  {
    if ids != [] {
      CellListAt(sp, ids[1..], r);
    }
  }

  lemma {:induction false} CellsSplit(sp: Spelling, ids: seq<bv32>, r: Record, before: string)
    requires Plain(sp) && ',' !in before
    ensures Split(before + Cells(sp, ids, r), ',') == [before] + CellList(sp, ids, r)
  {
    if ids == [] {
      SplitNone(before, ',');
      assert before + "" == before;
    } else {
      var cell, rest := Cell(sp, ids[0], r), Cells(sp, ids[1..], r);
      assert before + Cells(sp, ids, r) == before + [','] + (cell + rest);
      SplitAt(before, ',', cell + rest);
      CellsSplit(sp, ids[1..], r, cell);
    }
  }

  /** A row splits into its time and one cell for each sensor; each cell holds the value exactly
      when the record is that sensor's. */
  lemma RowSplit(sp: Spelling, ids: seq<bv32>, r: Record)
    requires Plain(sp) && ids != []
    ensures var cells := Split(Row(sp, ids, r), ',');
            && |cells| == |ids| + 1
            && cells[0] == sp.time(r.timeDelta)
            && (forall i | 0 <= i < |ids| ::
                  cells[i + 1] == if r.sensorId == ids[i] then sp.value(r.data) else "")
  {
    CellsSplit(sp, ids, r, sp.time(r.timeDelta));
    CellListAt(sp, ids, r);
  }

  /** With distinct hashes at most one value cell of a row is filled. */
  lemma OneCellFilled(sp: Spelling, ids: seq<bv32>, r: Record, i: nat, j: nat)
    requires Plain(sp)
    requires forall m, n | 0 <= m < n < |ids| :: ids[m] != ids[n]
    requires i < |ids| && j < |ids|
    ensures var cells := Split(Row(sp, ids, r), ',');
            && |cells| == |ids| + 1
            && (cells[i + 1] != "" && cells[j + 1] != "" ==> i == j)
  {
    RowSplit(sp, ids, r);
    var cells := Split(Row(sp, ids, r), ',');
    assert cells[i + 1] != "" ==> r.sensorId == ids[i];
    assert cells[j + 1] != "" ==> r.sensorId == ids[j];
  }

  // ----- columns of the header

  /** Cuts a line at every comma outside quotes. */
  function Fields(s: string, quoted: bool): (parts: seq<string>)
    ensures |parts| >= 1
  {
    if s == "" then [""]
    else if s[0] == ',' && !quoted then [""] + Fields(s[1..], false)
    else
      var rest := Fields(s[1..], QuotedAfter(s[0], quoted));
      [[s[0]] + rest[0]] + rest[1..]
  }

  function QuotedAfter(c: char, quoted: bool): bool {
    if c == '"' then !quoted else quoted
  }

  /** Whether a quote is open behind a text. */
  function Open(s: string, quoted: bool): bool {
    if s == "" then quoted else Open(s[1..], QuotedAfter(s[0], quoted))
  }

  /** Every comma of the text is within quotes. */
  predicate Uncut(s: string, quoted: bool) {
    s != "" ==> (s[0] == ',' ==> quoted) && Uncut(s[1..], QuotedAfter(s[0], quoted))
  }

  lemma {:induction false} OpenConcat(a: string, b: string, quoted: bool)
    ensures Open(a + b, quoted) == Open(b, Open(a, quoted))
  {
    if a == "" {
      assert a + b == b;
    } else {
      assert (a + b)[1..] == a[1..] + b;
      OpenConcat(a[1..], b, QuotedAfter(a[0], quoted));
    }
  }

  lemma {:induction false} UncutConcat(a: string, b: string, quoted: bool)
    ensures Uncut(a + b, quoted) <==> Uncut(a, quoted) && Uncut(b, Open(a, quoted))
  {
    if a == "" {
      assert a + b == b;
    } else {
      assert (a + b)[1..] == a[1..] + b;
      UncutConcat(a[1..], b, QuotedAfter(a[0], quoted));
    }
  }

  /** A text without loose commas opens the first field. */
  lemma {:induction false} FieldsUncut(a: string, b: string, quoted: bool)
    requires Uncut(a, quoted)
    ensures var rest := Fields(b, Open(a, quoted)); Fields(a + b, quoted) == [a + rest[0]] + rest[1..]
  {
    var rest := Fields(b, Open(a, quoted));
    if a == "" {
      assert a + b == b && "" + rest[0] == rest[0];
    } else {
      assert (a + b)[1..] == a[1..] + b;
      FieldsUncut(a[1..], b, QuotedAfter(a[0], quoted));
      FirstGrows(a, rest[0], rest[1..]);
    }
  }

  lemma FirstGrows(a: string, t: string, ts: seq<string>)
    requires a != ""
    ensures [[a[0]] + ([a[1..] + t] + ts)[0]] + ([a[1..] + t] + ts)[1..] == [a + t] + ts
  {
    assert ([a[1..] + t] + ts)[1..] == ts;
    assert [a[0]] + (a[1..] + t) == a + t;
  }

  /** Any other is cut. */
  lemma {:induction false} FieldsCut(a: string, b: string, quoted: bool)
    requires !Uncut(a, quoted)
    ensures |Fields(a + b, quoted)[0]| < |a|
  {
    assert (a + b)[1..] == a[1..] + b;
    if a[0] != ',' || quoted {
      FieldsCut(a[1..], b, QuotedAfter(a[0], quoted));
    }
  }

  /** What stands between the quotes of a column's title. */
  function Label(s: Sensor): string {
    s.name + " (" + s.unit + ")"
  }

  function Enclosed(t: string): string {
    "\"" + t + "\""
  }

  function Title(s: Sensor): string {
    Enclosed(Label(s))
  }

  function Titles(ss: seq<Sensor>): seq<string> {
    if ss == [] then [] else [Title(ss[0])] + Titles(ss[1..])
  }

  /** The quotes in a label come in pairs, and no comma stands between the two of a pair. */
  predicate Neutral(s: Sensor) {
    Uncut(Label(s), true) && Open(Label(s), true)
  }

  lemma EnclosedReads(t: string)
    ensures Uncut(Enclosed(t), false) <==> Uncut(t, true)
    ensures Open(Enclosed(t), false) == !Open(t, true)
    ensures '"' !in t ==> Uncut(Enclosed(t), false) && !Open(Enclosed(t), false)
  {
    hide Open, Uncut;
    UncutConcat("\"", t + "\"", false);
    UncutConcat(t, "\"", true);
    OpenConcat("\"", t + "\"", false);
    OpenConcat(t, "\"", true);
    assert Enclosed(t) == "\"" + (t + "\"");
    Quote(false);
    Quote(true);
    Quote(Open(t, true));
    if '"' !in t {
      Unquoted(t, true);
    }
  }

  lemma Quote(quoted: bool)
    ensures Open("\"", quoted) == !quoted && Uncut("\"", quoted)
  {
    assert "\""[1..] == "";
  }

  /** A first field with a comma behind it. */
  lemma FieldEnds(a: string, b: string, quoted: bool)
    ensures Fields(a + ("," + b), quoted) == [a] + Fields(b, false) <== Uncut(a, quoted) && !Open(a, quoted)
    ensures Fields(a + ("," + b), quoted)[0] == a ==> Uncut(a, quoted) && !Open(a, quoted)
  {
    var fs := Fields("," + b, Open(a, quoted));
    assert ("," + b)[1..] == b;
    if !Uncut(a, quoted) {
      FieldsCut(a, "," + b, quoted);
      return;
    }
    FieldsUncut(a, "," + b, quoted);
    if Open(a, quoted) {
      assert fs[0][0] == ',';
    } else {
      assert fs == [""] + Fields(b, false) && a + "" == a;
    }
  }

  lemma LastField(a: string, quoted: bool)
    ensures Fields(a, quoted) == [a] <== Uncut(a, quoted)
    ensures Fields(a, quoted)[0] == a ==> Uncut(a, quoted)
  {
    assert a + "" == a && Fields("", Open(a, quoted)) == [""];
    if Uncut(a, quoted) {
      FieldsUncut(a, "", quoted);
    } else {
      FieldsCut(a, "", quoted);
    }
  }

  /** The fields are the given one and the titles, and the line ends outside quotes. */
  predicate ReadsAs(line: string, first: string, ss: seq<Sensor>) {
    Fields(line, false) == [first] + Titles(ss) && !Open(line, false)
  }

  lemma {:induction false} TitlesRead(first: string, ss: seq<Sensor>)
    ensures ReadsAs(first + ColumnTitles(ss), first, ss)
            <==> Uncut(first, false) && !Open(first, false) && forall s | s in ss :: Neutral(s)
    decreases |ss|
  {
    hide Fields, Uncut, Open, Neutral;
    if ss == [] {
      assert first + ColumnTitles(ss) == first && [first] + Titles(ss) == [first];
      LastField(first, false);
    } else {
      MoreTitles(first, ss);
      TitlesRead(Title(ss[0]), ss[1..]);
      EnclosedReads(Label(ss[0]));
      assert Neutral(ss[0]) <==> Uncut(Title(ss[0]), false) && !Open(Title(ss[0]), false) by {
        NeutralMeans(ss[0]);
      }
      assert (forall s | s in ss :: Neutral(s)) <==> Neutral(ss[0]) && forall s | s in ss[1..] :: Neutral(s);
    }
  }

  lemma NeutralMeans(s: Sensor)
    ensures Neutral(s) <==> Uncut(Label(s), true) && Open(Label(s), true)
  {
  }

  lemma MoreTitles(first: string, ss: seq<Sensor>)
    requires ss != []
    ensures ReadsAs(first + ColumnTitles(ss), first, ss)
            <==> Uncut(first, false) && !Open(first, false)
                 && ReadsAs(Title(ss[0]) + ColumnTitles(ss[1..]), Title(ss[0]), ss[1..])
  {
    hide Fields, Uncut, Open;
    var rest := Title(ss[0]) + ColumnTitles(ss[1..]);
    FirstTitle(first, ss);
    FieldEnds(first, rest, false);
    OpenConcat(first, "," + rest, false);
    OpenConcat(",", rest, false);
    Comma();
    Heads(first, Fields(rest, false), Titles(ss));
  }

  lemma FirstTitle(first: string, ss: seq<Sensor>)
    requires ss != []
    ensures first + ColumnTitles(ss) == first + ("," + (Title(ss[0]) + ColumnTitles(ss[1..])))
    ensures Titles(ss) == [Title(ss[0])] + Titles(ss[1..])
  {
    hide Title;
    var rest := ColumnTitles(ss[1..]);
    TitleSpelled(ss[0]);
    Assoc(",", Title(ss[0]), rest);
    Assoc(first, "," + Title(ss[0]), rest);
  }

  lemma TitleSpelled(s: Sensor)
    ensures ",\"" + s.name + " (" + s.unit + ")\"" == "," + Title(s)
  {
    Assoc(",", "\"", s.name);
    Assoc(",", "\"" + s.name, " (");
    Assoc(",", "\"" + s.name + " (", s.unit);
    Assoc(",", "\"" + s.name + " (" + s.unit, ")\"");
    assert ",\"" == "," + "\"" && ")\"" == ")" + "\"";
    LabelEnclosed(s.name, s.unit);
  }

  lemma LabelEnclosed(name: string, unit: string)
    ensures "\"" + name + " (" + unit + ")\"" == "\"" + (name + " (" + unit + ")") + "\""
  {
    var inner := name + " (" + unit;
    Assoc("\"", name, " (");
    Assoc("\"", name + " (", unit);
    Assoc("\"", inner, ")");
    Assoc("\"" + inner, ")", "\"");
    assert ")\"" == ")" + "\"";
  }

  lemma Heads<T>(a: T, xs: seq<T>, ys: seq<T>)
    ensures [a] + xs == [a] + ys <==> xs == ys
    ensures forall b {:trigger [b] + ys} :: [a] + xs == [b] + ys ==> a == b
  {
    if [a] + xs == [a] + ys {
      assert ([a] + xs)[1..] == xs && ([a] + ys)[1..] == ys;
    }
    forall b | [a] + xs == [b] + ys ensures a == b {
      assert ([a] + xs)[0] == ([b] + ys)[0];
    }
  }

  lemma Comma()
    ensures !Open(",", false)
  {
    assert ","[1..] == "";
  }

  const TIME := Enclosed("Time (sec)")

  /** The title line reads as the titles of the sensors it was made from, one column each, if and
      only if no label, name and unit together, upsets the quotes. */
  lemma HeaderReads(sensors: seq<Sensor>)
    ensures ReadsAs(CsvHeader(Some(sensors)), TIME, sensors) <==> forall s | s in sensors :: Neutral(s)
  {
    hide Fields, Open, Uncut, ColumnTitles, Neutral;
    EnclosedReads("Time (sec)");
    TitlesRead(TIME, sensors);
    assert "\"Time (sec)\"" == TIME;
  }

  /** A text without quotes leaves the quoting as it is. */
  lemma {:induction false} Unquoted(s: string, quoted: bool)
    requires '"' !in s
    ensures Open(s, quoted) == quoted
    ensures Uncut(s, quoted) <==> quoted || ',' !in s
    ensures !quoted ==> Fields(s, false) == Split(s, ',')
  {
    if s != "" {
      Unquoted(s[1..], quoted);
    }
  }

  /** Names and units without quotes upset nothing, whatever commas they hold. */
  lemma QuoteFreeNeutral(s: Sensor)
    requires '"' !in s.name && '"' !in s.unit
    ensures Neutral(s)
  {
    Unquoted(Label(s), true);
  }

  /** Numbers are spelled without quotes. */
  ghost predicate QuoteFree(sp: Spelling) {
    (forall t :: '"' !in sp.time(t)) && (forall d :: '"' !in sp.value(d))
  }

  lemma {:induction false} CellsQuoteFree(sp: Spelling, ids: seq<bv32>, r: Record)
    requires QuoteFree(sp)
    ensures '"' !in Cells(sp, ids, r)
  {
    if ids != [] {
      CellsQuoteFree(sp, ids[1..], r);
    }
  }

  /** How many fields a row has. */
  lemma RowFields(sp: Spelling, ids: seq<bv32>, r: Record)
    requires Plain(sp) && QuoteFree(sp)
    ensures |Fields(Row(sp, ids, r), false)| == if ids == [] then 2 else |ids| + 1
  {
    CellsQuoteFree(sp, ids, r);
    assert '"' !in sp.time(r.timeDelta) && '"' !in sp.value(r.data);
    Unquoted(Row(sp, ids, r), false);
    if ids != [] {
      RowSplit(sp, ids, r);
    } else {
      SplitAt(sp.time(r.timeDelta), ',', sp.value(r.data));
      SplitNone(sp.value(r.data), ',');
      assert Row(sp, ids, r) == sp.time(r.timeDelta) + [','] + sp.value(r.data);
    }
  }

  lemma {:induction false} TitlesCount(ss: seq<Sensor>)
    ensures |Titles(ss)| == |ss|
  {
    if ss != [] {
      TitlesCount(ss[1..]);
    }
  }

  /** With metadata, the title line reads as one title for each sensor and has as many columns as
      every row, if and only if there is a sensor and no label, name and unit together, upsets the
      quotes. */
  lemma ColumnsAgreeIff(sp: Spelling, sensors: seq<Sensor>, r: Record)
    requires Plain(sp) && QuoteFree(sp)
    ensures var line, row := CsvHeader(Some(sensors)), Row(sp, Ids(Some(sensors)), r);
            && ReadsAs(line, TIME, sensors)
            && |Fields(line, false)| == |Fields(row, false)|
            <==> sensors != [] && forall s | s in sensors :: Neutral(s)
  {
    hide Fields, Neutral, Row;
    HeaderReads(sensors);
    TitlesCount(sensors);
    RowFields(sp, Ids(Some(sensors)), r);
  }

  lemma BareRow(sp: Spelling, r: Record)
    requires Plain(sp) && QuoteFree(sp)
    ensures Fields(Row(sp, [], r), false) == [sp.time(r.timeDelta), sp.value(r.data)]
  {
    var time, value := sp.time(r.timeDelta), sp.value(r.data);
    assert '"' !in time && '"' !in value;
    Unquoted(Row(sp, [], r), false);
    SplitAt(time, ',', value);
    SplitNone(value, ',');
    assert Row(sp, [], r) == time + [','] + value;
  }

  /** Without metadata both have two columns: a row holds the time and the value. */
  lemma ColumnsAgreeBare(sp: Spelling, r: Record)
    requires Plain(sp) && QuoteFree(sp)
    ensures Fields(CsvHeader(None), false) == [TIME, Enclosed("Value")]
    ensures Fields(Row(sp, Ids(None), r), false) == [sp.time(r.timeDelta), sp.value(r.data)]
  {
    hide Fields, Open, Uncut;
    BareRow(sp, r);
    EnclosedReads("Time (sec)");
    EnclosedReads("Value");
    FieldEnds(TIME, Enclosed("Value"), false);
    LastField(Enclosed("Value"), false);
    assert CsvHeader(None) == TIME + ("," + Enclosed("Value"));
  }

  const QUOTED_NAME := Sensor(1, "a\",\"b", "V")

  /** One sensor whose name holds a comma between quotes makes a title line of three columns. */
  lemma QuotedNameSplits()
    ensures Fields(CsvHeader(Some([QUOTED_NAME])), false) == [TIME, Enclosed("a"), Enclosed("b (V)")]
    ensures !Neutral(QUOTED_NAME)
  {
    hide Fields, Open, Uncut, ColumnTitles, Neutral;
    var a, b := Enclosed("a"), Enclosed("b (V)");
    EnclosedReads("Time (sec)");
    EnclosedReads("a");
    EnclosedReads("b (V)");
    FieldEnds(TIME, a + ("," + b), false);
    FieldEnds(a, b, false);
    LastField(b, false);
    var sensors := [QUOTED_NAME];
    assert sensors[1..] == [] && QUOTED_NAME == sensors[0];
    FirstTitle(TIME, sensors);
    assert Title(QUOTED_NAME) == a + ("," + b);
    NoTitles();
    assert Title(QUOTED_NAME) + "" == Title(QUOTED_NAME) && "\"Time (sec)\"" == TIME;
    assert CsvHeader(Some(sensors)) == TIME + ("," + (a + ("," + b)));
    HeaderReads(sensors);
    assert Titles(sensors) == [Title(QUOTED_NAME)];
  }

  // ----- columns

  /** The times and values in column `i` of a table. */
  function Column(rows: seq<string>, i: nat): seq<(string, string)> {
    if rows == [] then []
    else
      var cells := Split(rows[0], ',');
      (if i + 1 < |cells| && cells[i + 1] != "" then [(cells[0], cells[i + 1])] else [])
      + Column(rows[1..], i)
  }

  /** What a sensor recorded, in order. */
  function Series(sp: Spelling, rs: seq<Record>, id: bv32): seq<(string, string)> {
    if rs == [] then []
    else
      (if rs[0].sensorId == id then [(sp.time(rs[0].timeDelta), sp.value(rs[0].data))] else [])
      + Series(sp, rs[1..], id)
  }

  /** Column `i` holds exactly the time series of sensor `i`. */
  lemma {:induction false} ColumnIsSeries(sp: Spelling, ids: seq<bv32>, rs: seq<Record>, i: nat)
    requires Plain(sp) && i < |ids|
    ensures |Rows(sp, ids, rs)| == |rs|
    ensures Column(Rows(sp, ids, rs), i) == Series(sp, rs, ids[i])
  {
    hide Row, Split;
    if rs != [] {
      RowSplit(sp, ids, rs[0]);
      ColumnIsSeries(sp, ids, rs[1..], i);
      assert Rows(sp, ids, rs)[1..] == Rows(sp, ids, rs[1..]);
    }
  }

  // ----- the whole text

  lemma {:induction false} CellsOneLine(sp: Spelling, ids: seq<bv32>, r: Record)
    requires Plain(sp)
    ensures '\n' !in Cells(sp, ids, r)
  {
    if ids != [] {
      CellsOneLine(sp, ids[1..], r);
    }
  }

  lemma RowOneLine(sp: Spelling, ids: seq<bv32>, r: Record)
    requires Plain(sp)
    ensures '\n' !in Row(sp, ids, r)
  {
    CellsOneLine(sp, ids, r);
  }

  lemma {:induction false} LinesSplit(sp: Spelling, ids: seq<bv32>, rs: seq<Record>, before: string)
    requires Plain(sp) && '\n' !in before
    ensures Split(before + Lines(Rows(sp, ids, rs)), '\n') == [before] + Rows(sp, ids, rs)
  {
    hide Row;
    if rs == [] {
      SplitNone(before, '\n');
      assert before + "" == before;
    } else {
      var row, rest := Row(sp, ids, rs[0]), Lines(Rows(sp, ids, rs[1..]));
      assert Rows(sp, ids, rs)[1..] == Rows(sp, ids, rs[1..]);
      assert before + Lines(Rows(sp, ids, rs)) == before + ['\n'] + (row + rest);
      SplitAt(before, '\n', row + rest);
      RowOneLine(sp, ids, rs[0]);
      LinesSplit(sp, ids, rs[1..], row);
    }
  }

  /** From the text of the table alone every sensor's time series can be read back: one line for
      the header, one for each record, and column `i` holds what sensor `i` recorded. */
  lemma TableReadsBack(sp: Spelling, metadata: Option<seq<Sensor>>, bytes: Bytes, i: nat)
    requires Plain(sp) && '\n' !in CsvHeader(metadata)
    requires Log(bytes).Got? && i < |Ids(metadata)|
    ensures var lines, records := Split(CsvText(sp, metadata, bytes), '\n'), Log(bytes).value.1;
            && |lines| == 1 + |records|
            && lines[0] == CsvHeader(metadata)
            && Column(lines[1..], i) == Series(sp, records, Ids(metadata)[i])
  {
    hide Log, Split, Column, CsvHeader;
    var records := Log(bytes).value.1;
    LinesSplit(sp, Ids(metadata), records, CsvHeader(metadata));
    ColumnIsSeries(sp, Ids(metadata), records, i);
    var lines := Split(CsvText(sp, metadata, bytes), '\n');
    assert lines[1..] == Rows(sp, Ids(metadata), records);
  }

  /** When times and values are spelled one to one, equal series are equal recordings. */
  lemma {:induction false} SeriesDetermines(sp: Spelling, rs: seq<Record>, qs: seq<Record>, id: bv32)
    requires forall t, u :: sp.time(t) == sp.time(u) ==> t == u
    requires forall d, e :: sp.value(d) == sp.value(e) ==> d == e
    requires forall k | 0 <= k < |rs| :: rs[k].sensorId == id
    requires forall k | 0 <= k < |qs| :: qs[k].sensorId == id
    requires Series(sp, rs, id) == Series(sp, qs, id)
    ensures |rs| == |qs|
    ensures forall k | 0 <= k < |rs| :: rs[k].timeDelta == qs[k].timeDelta && rs[k].data == qs[k].data
  {
    if rs != [] && qs != [] {
      assert Series(sp, rs, id)[0] == Series(sp, qs, id)[0];
      assert Series(sp, rs, id)[1..] == Series(sp, rs[1..], id);
      assert Series(sp, qs, id)[1..] == Series(sp, qs[1..], id);
      SeriesDetermines(sp, rs[1..], qs[1..], id);
    }
  }
}
