/** A Modbus sheet written out line by line is split and parsed back into the rows it was written
    from, and a bad line or device is reported as the first one met. */
module SheetRoundTrip {
  import opened Prelude
  import opened Rows
  import opened Subtables
  import opened ModbusSheet

  // ---- What a line is ----

  /** The trimmed text of a first cell that has one. */
  function FirstText(reader: Reader, line: Line): Option<string> {
    if line != [] && line[0].Text? && reader.strip(line[0].s) != "" then Some(reader.strip(line[0].s)) else None
  }

  /** Only a first cell with text can announce a device or repeat a header row; a line is data if its
      first cell holds something that does neither. */
  lemma LineKinds(reader: Reader, line: Line)
    ensures Classify(reader, line).NoLine? <==>
              FirstText(reader, line).Some? && reader.noLine(FirstText(reader, line).value).Some?
    ensures Classify(reader, line).NoLine? ==>
              Some(Classify(reader, line).header) == reader.noLine(FirstText(reader, line).value)
    ensures Classify(reader, line).Data? <==>
              line != [] && !line[0].Blank?
              && (line[0].Text? ==>
                    FirstText(reader, line).Some? && reader.noLine(FirstText(reader, line).value).None?
                    && FirstText(reader, line).value !in reader.markers)
  {
  }

  // ---- A sheet as written ----

  /** One device's part of the sheet. */
  datatype Section = Section(header: Header, rows: seq<ModbusRow>)

  function WrittenRows(rows: seq<ModbusRow>): (r: seq<Line>)
    ensures |r| == |rows|
  {
    seq(|rows|, i requires 0 <= i < |rows| => Written(rows[i]))
  }

  /** Each section under its "no:" line. */
  function WrittenSheet(title: Header -> string, sections: seq<Section>): seq<Line> {
    if sections == [] then []
    else
      var last := sections[|sections| - 1];
      WrittenSheet(title, sections[..|sections| - 1]) + [[Text(title(last.header))]] + WrittenRows(last.rows)
  }

  function Tables(sections: seq<Section>): (r: seq<Table>)
    ensures |r| == |sections|
  {
    seq(|sections|, i requires 0 <= i < |sections| => Table(sections[i].header, WrittenRows(sections[i].rows)))
  }

  /** The rows, each with the device its section belongs to. */
  function RowsIn(sections: seq<Section>): seq<DeviceRow> {
    if sections == [] then []
    else
      var last := sections[|sections| - 1];
      RowsIn(sections[..|sections| - 1]) + Owned(last.header.code, last.rows)
  }

  function Owned(code: string, rows: seq<ModbusRow>): (r: seq<DeviceRow>)
    ensures |r| == |rows|
  {
    seq(|rows|, i requires 0 <= i < |rows| => DeviceRow(code, rows[i]))
  }

  /** The titles are recognised as what they announce. */
  ghost predicate Titled(reader: Reader, title: Header -> string, sections: seq<Section>) {
    forall s :: s in sections ==>
      reader.strip(title(s.header)) != "" && reader.noLine(reader.strip(title(s.header))) == Some(s.header)
  }

  /** A row as the sheet can hold it: of a known class, not named like the stray template row, its name's
      key the normaliser's, and no optional field empty. */
  predicate Writable(cells: CellReader, code: string, row: ModbusRow) {
    && code in DEVICE_ADDR && row.deviceAddr == DEVICE_ADDR[code]
    && row.regClass in {2, 3, 4} && row.name.raw != JUNK_NAME && row.name.key == cells.joinKey(row.name.raw)
    && Some("") !in [row.precision, row.attribute, row.description]
  }

  predicate AllWritable(cells: CellReader, sections: seq<Section>) {
    forall s :: s in sections ==>
      s.header.code in DEVICE_ADDR && forall row :: row in s.rows ==> Writable(cells, s.header.code, row)
  }

  lemma WrittenAreData(reader: Reader, rows: seq<ModbusRow>)
    ensures NoLines(reader, WrittenRows(rows)) && DataRows(reader, WrittenRows(rows)) == WrittenRows(rows)
  {
    AllData(reader, WrittenRows(rows));
  }

  lemma {:induction false} AllData(reader: Reader, lines: seq<Line>)
    requires forall i :: 0 <= i < |lines| ==> Classify(reader, lines[i]).Data?
    ensures DataRows(reader, lines) == lines
  {
    if lines != [] {
      AllData(reader, lines[..|lines| - 1]);
    }
  }

  lemma {:induction false} SheetSplits(reader: Reader, title: Header -> string, sections: seq<Section>)
    requires Titled(reader, title, sections)
    ensures Split(reader, WrittenSheet(title, sections)) == Success(Tables(sections))
  {
    if sections != [] {
      var init, last := sections[..|sections| - 1], sections[|sections| - 1];
      assert last in sections && forall s :: s in init ==> s in sections;
      SheetSplits(reader, title, init);
      SectionSplits(reader, title, WrittenSheet(title, init), last);
      TablesLast(sections);
    }
  }

  lemma TablesLast(sections: seq<Section>)
    requires sections != []
    ensures var init, last := sections[..|sections| - 1], sections[|sections| - 1];
            Tables(sections) == Tables(init) + [Table(last.header, WrittenRows(last.rows))]
  {
  }

  lemma SectionSplits(reader: Reader, title: Header -> string, before: seq<Line>, section: Section)
    requires Split(reader, before).Success? && Titled(reader, title, [section])
    ensures Split(reader, before + [[Text(title(section.header))]] + WrittenRows(section.rows))
            == Success(Split(reader, before).value + [Table(section.header, WrittenRows(section.rows))])
  {
    var line: Line := [Text(title(section.header))];
    assert section in [section];
    assert Classify(reader, line) == NoLine(section.header);
    WrittenAreData(reader, section.rows);
    LineGathersItsRows(reader, before, line, WrittenRows(section.rows));
  }

  lemma {:induction false} RowsScanned(cells: CellReader, st: Scan, code: string, rows: seq<ModbusRow>)
    requires code in DEVICE_ADDR && st.error.None? && forall s :: cells.shown(Text(s)) == s
    requires forall row :: row in rows ==> Writable(cells, code, row)
    ensures ScanLines(cells, st, code, WrittenRows(rows))
            == st.(kept := st.kept + Owned(code, rows))
  {
    if rows == [] {
      assert st.kept + [] == st.kept;
    } else {
      var init, row := rows[..|rows| - 1], rows[|rows| - 1];
      assert row in rows && forall r :: r in init ==> r in rows;
      RowsScanned(cells, st, code, init);
      WrittenRowIsRead(cells, code, row);
      WrittenLast(rows);
      OwnedLast(code, rows);
    }
  }

  lemma WrittenLast(rows: seq<ModbusRow>)
    requires rows != []
    ensures WrittenRows(rows)[..|rows| - 1] == WrittenRows(rows[..|rows| - 1])
    ensures WrittenRows(rows)[|rows| - 1] == Written(rows[|rows| - 1])
  {
  }

  lemma OwnedLast(code: string, rows: seq<ModbusRow>)
    requires rows != []
    ensures Owned(code, rows) == Owned(code, rows[..|rows| - 1]) + [DeviceRow(code, rows[|rows| - 1])]
  {
  }

  lemma {:induction false} TablesParse(cells: CellReader, sections: seq<Section>)
    requires AllWritable(cells, sections) && forall s :: cells.shown(Text(s)) == s
    ensures ScanTables(cells, Tables(sections)) == Scan(RowsIn(sections), [], None)
  {
    if sections != [] {
      var init, last := sections[..|sections| - 1], sections[|sections| - 1];
      assert last in sections && forall s :: s in init ==> s in sections;
      TablesParse(cells, init);
      TablesLast(sections);
      assert Tables(sections)[..|sections| - 1] == Tables(init);
      RowsScanned(cells, Scan(RowsIn(init), [], None), last.header.code, last.rows);
    }
  }

  /** Splitting and parsing give back every row of every section, in order, under its own device. */
  lemma WrittenSheetIsParsed(reader: Reader, cells: CellReader, title: Header -> string, sections: seq<Section>)
    requires Titled(reader, title, sections) && AllWritable(cells, sections) && forall s :: cells.shown(Text(s)) == s
    ensures var split := Split(reader, WrittenSheet(title, sections));
            split.Success? && ScanTables(cells, split.value) == Scan(RowsIn(sections), [], None)
  {
    SheetSplits(reader, title, sections);
    TablesParse(cells, sections);
  }

  // ---- The first error ----

  /** After readable subtables, the first unknown device code is the error. */
  lemma UnknownDeviceReported(cells: CellReader, good: seq<Table>, bad: Table, rest: seq<Table>)
    requires AllReadable(cells, good) && bad.header.code !in DEVICE_ADDR
    ensures ScanTables(cells, good + [bad] + rest).error == Some(UnknownDevice(bad.header.code))
    ensures ScanTables(cells, good + [bad] + rest).dropped == DroppedIn(cells, good)
  {
    ParseSucceedsIff(cells, good);
    assert (good + [bad])[..|good|] == good;
    assert (good + [bad] + rest)[..|good| + 1] == good + [bad];
    TablesErrorStays(cells, good + [bad] + rest, |good| + 1);
  }

  /** After readable subtables and lines, the first bad line gives the error. */
  lemma BadLineReported(cells: CellReader, good: seq<Table>, header: Header, before: seq<Line>, line: Line,
                        after: seq<Line>, rest: seq<Table>)
    requires AllReadable(cells, good) && header.code in DEVICE_ADDR && ReadLine(cells, header.code, line).Bad?
    requires forall l :: l in before ==> !ReadLine(cells, header.code, l).Bad?
    ensures var bad := Table(header, before + [line] + after);
            var scan := ScanTables(cells, good + [bad] + rest);
            && scan.error == Some(ReadLine(cells, header.code, line).error)
            && scan.dropped == DroppedIn(cells, good) + DroppedLines(cells, header.code, before)
  {
    var code, all := header.code, before + [line] + after;
    var bad := Table(header, all);
    ParseSucceedsIff(cells, good);
    var st := ScanTables(cells, good);
    LinesScanned(cells, st, code, before);
    assert (before + [line])[..|before|] == before;
    assert all[..|before| + 1] == before + [line];
    LinesErrorStays(cells, st, code, all, |before| + 1);
    assert (good + [bad])[..|good|] == good;
    assert (good + [bad] + rest)[..|good| + 1] == good + [bad];
    TablesErrorStays(cells, good + [bad] + rest, |good| + 1);
  }

  /** Different devices have different addresses. */
  lemma DeviceAddressesDiffer(a: string, b: string)
    requires a in DEVICE_ADDR && b in DEVICE_ADDR && a != b
    ensures DEVICE_ADDR[a] != DEVICE_ADDR[b]
  {
  }
}
