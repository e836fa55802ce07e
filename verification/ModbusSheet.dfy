/** Reading the Modbus workbook's subtables into rows, and what the join makes of them. */
module ModbusSheet {
  import opened Prelude
  import opened Rows
  import opened Subtables
  import JoinSpec
  import JoinTheorems
  import JoinPoints
  import JoinRegisters
  import JoinConservation

  /** How a cell reads as trimmed text, and the join key of a name. */
  datatype CellReader = CellReader(shown: Cell -> string, joinKey: string -> string)

  const DEVICE_ADDR: map<string, int> := map[
    "EMS" := 1, "PCS" := 2, "BMS" := 34, "BMS_CELLS" := 98,
    "PCS_METER" := 163, "DIDO" := 168, "TMS" := 170, "CSJ" := 172]

  const JUNK_NAME := "Parameter Names:"

  datatype ParseError =
    | UnknownDevice(code: string)
    | MissingCell(device: string, line: Line)
    | BadClassOrAddress(device: string, line: Line)
    | UnknownClass(device: string, regClass: int)

  datatype DeviceRow = DeviceRow(device: string, row: ModbusRow)

  datatype Junk = Junk(device: string, address: int, name: string)

  datatype Outcome = Kept(row: ModbusRow) | Dropped(address: int, name: string) | Bad(error: ParseError)

  function CellText(cells: CellReader, line: Line, i: nat): Option<string> {
    if i >= |line| || line[i].Blank? || cells.shown(line[i]) == "" then None else Some(cells.shown(line[i]))
  }

  function OrEmpty(text: Option<string>): string {
    if text.Some? then text.value else ""
  }

  function ReadLine(cells: CellReader, device: string, line: Line): (o: Outcome)
    requires device in DEVICE_ADDR
    ensures o.Kept? ==> o.row.regClass in {2, 3, 4} && o.row.name.raw != JUNK_NAME
    ensures o.Bad? <==> |line| < 2 || !line[0].Number? || !line[1].Number? || line[0].n !in {2, 3, 4}
    ensures o.Bad? && o.error.MissingCell? <==> |line| == 0 || (|line| == 1 && line[0].Number?)
    ensures o.Bad? && o.error.UnknownClass? <==>
            |line| >= 2 && line[0].Number? && line[1].Number? && line[0].n !in {2, 3, 4}
    ensures !o.Bad? ==> (o.Dropped? <==> CellText(cells, line, 2) == Some(JUNK_NAME))
    ensures o.Dropped? ==> o.address == line[1].n
    ensures o.Kept? ==> o.row.regClass == line[0].n && o.row.address == line[1].n
  {
    if |line| == 0 then Bad(MissingCell(device, line))
    else if !line[0].Number? then Bad(BadClassOrAddress(device, line))
    else if |line| == 1 then Bad(MissingCell(device, line))
    else if !line[1].Number? then Bad(BadClassOrAddress(device, line))
    else if line[0].n !in {2, 3, 4} then Bad(UnknownClass(device, line[0].n))
    else
      var name := OrEmpty(CellText(cells, line, 2));
      if name == JUNK_NAME then Dropped(line[1].n, name)
      else
        Kept(ModbusRow(
          DEVICE_ADDR[device], line[0].n, line[1].n, Name(name, cells.joinKey(name)),
          OrEmpty(CellText(cells, line, 3)), OrEmpty(CellText(cells, line, 4)),
          CellText(cells, line, 5), CellText(cells, line, 6), CellText(cells, line, 7)))
  }

  /** A row written out cell by cell, as the workbook lays it out. */
  function Written(row: ModbusRow): Line {
    [Number(row.regClass), Number(row.address), Text(row.name.raw), Text(row.access), Text(row.dataType),
     Optional(row.precision), Optional(row.attribute), Optional(row.description)]
  }

  function Optional(text: Option<string>): Cell {
    if text.Some? then Text(text.value) else Blank
  }

  /** Reading gives back the row that was written, every cell in its own field. */
  lemma WrittenRowIsRead(cells: CellReader, device: string, row: ModbusRow)
    requires device in DEVICE_ADDR && row.deviceAddr == DEVICE_ADDR[device]
    requires row.regClass in {2, 3, 4} && row.name.raw != JUNK_NAME && row.name.key == cells.joinKey(row.name.raw)
    requires forall s :: cells.shown(Text(s)) == s
    requires Some("") !in [row.precision, row.attribute, row.description]
    ensures ReadLine(cells, device, Written(row)) == Kept(row)
  {
    assert row.precision in [row.precision, row.attribute, row.description];
    assert row.attribute in [row.precision, row.attribute, row.description];
    assert row.description in [row.precision, row.attribute, row.description];
  }

  // ---- The parse as a fold ----

  datatype Scan = Scan(kept: seq<DeviceRow>, dropped: seq<Junk>, error: Option<ParseError>)

  function ScanLine(cells: CellReader, st: Scan, device: string, line: Line): Scan
    requires device in DEVICE_ADDR
  {
    if st.error.Some? then st
    else
      match ReadLine(cells, device, line)
      case Kept(row) => st.(kept := st.kept + [DeviceRow(device, row)])
      case Dropped(address, name) => st.(dropped := st.dropped + [Junk(device, address, name)])
      case Bad(error) => st.(error := Some(error))
  }

  function ScanLines(cells: CellReader, st: Scan, device: string, lines: seq<Line>): Scan
    requires device in DEVICE_ADDR
  {
    if lines == [] then st
    else ScanLine(cells, ScanLines(cells, st, device, lines[..|lines| - 1]), device, lines[|lines| - 1])
  }

  function ScanTable(cells: CellReader, st: Scan, table: Table): Scan {
    if st.error.Some? then st
    else if table.header.code !in DEVICE_ADDR then st.(error := Some(UnknownDevice(table.header.code)))
    else ScanLines(cells, st, table.header.code, table.rows)
  }

  function ScanTables(cells: CellReader, tables: seq<Table>): Scan {
    if tables == [] then Scan([], [], None)
    else ScanTable(cells, ScanTables(cells, tables[..|tables| - 1]), tables[|tables| - 1])
  }

  method ParseLines(cells: CellReader, device: string, lines: seq<Line>, kept: seq<DeviceRow>, dropped: seq<Junk>)
    returns (out: seq<DeviceRow>, droppedOut: seq<Junk>, error: Option<ParseError>)
    requires device in DEVICE_ADDR
    ensures Scan(out, droppedOut, error) == ScanLines(cells, Scan(kept, dropped, None), device, lines)
  {
    out, droppedOut, error := kept, dropped, None;
    for i := 0 to |lines|
      invariant error.None? && Scan(out, droppedOut, error) == ScanLines(cells, Scan(kept, dropped, None), device, lines[..i])
    {
      assert lines[..i + 1][..i] == lines[..i];
      match ReadLine(cells, device, lines[i]) {
        case Kept(row) => out := out + [DeviceRow(device, row)];
        case Dropped(address, name) => droppedOut := droppedOut + [Junk(device, address, name)];
        case Bad(e) =>
          error := Some(e);
          LinesErrorStays(cells, Scan(kept, dropped, None), device, lines, i + 1);
          return;
      }
    }
    assert lines[..|lines|] == lines;
  }

  method ParseModbus(cells: CellReader, tables: seq<Table>)
    returns (result: Result<seq<DeviceRow>, ParseError>, dropped: seq<Junk>)
    ensures var scan := ScanTables(cells, tables);
            && dropped == scan.dropped
            && result == if scan.error.Some? then Failure(scan.error.value) else Success(scan.kept)
  {
    var out: seq<DeviceRow> := [];
    dropped := [];
    for i := 0 to |tables|
      invariant Scan(out, dropped, None) == ScanTables(cells, tables[..i])
    {
      assert tables[..i + 1][..i] == tables[..i];
      var table := tables[i];
      if table.header.code !in DEVICE_ADDR {
        TablesErrorStays(cells, tables, i + 1);
        return Failure(UnknownDevice(table.header.code)), dropped;
      }
      var error;
      out, dropped, error := ParseLines(cells, table.header.code, table.rows, out, dropped);
      if error.Some? {
        TablesErrorStays(cells, tables, i + 1);
        return Failure(error.value), dropped;
      }
    }
    assert tables[..|tables|] == tables;
    result := Success(out);
  }

  lemma {:induction false} LinesErrorStays(cells: CellReader, st: Scan, device: string, lines: seq<Line>, n: nat)
    requires device in DEVICE_ADDR && n <= |lines| && ScanLines(cells, st, device, lines[..n]).error.Some?
    ensures ScanLines(cells, st, device, lines) == ScanLines(cells, st, device, lines[..n])
  {
    if n == |lines| {
      assert lines[..n] == lines;
    } else {
      assert lines[..|lines| - 1][..n] == lines[..n];
      LinesErrorStays(cells, st, device, lines[..|lines| - 1], n);
    }
  }

  lemma {:induction false} TablesErrorStays(cells: CellReader, tables: seq<Table>, n: nat)
    requires n <= |tables| && ScanTables(cells, tables[..n]).error.Some?
    ensures ScanTables(cells, tables) == ScanTables(cells, tables[..n])
  {
    if n == |tables| {
      assert tables[..n] == tables;
    } else {
      assert tables[..|tables| - 1][..n] == tables[..n];
      TablesErrorStays(cells, tables[..|tables| - 1], n);
    }
  }

  // ---- What the parse means ----

  predicate Readable(cells: CellReader, table: Table) {
    table.header.code in DEVICE_ADDR && forall line :: line in table.rows ==> !ReadLine(cells, table.header.code, line).Bad?
  }

  /** The kept rows of one subtable, in order. */
  function KeptLines(cells: CellReader, device: string, lines: seq<Line>): seq<DeviceRow>
    requires device in DEVICE_ADDR
  {
    if lines == [] then []
    else
      var o := ReadLine(cells, device, lines[|lines| - 1]);
      KeptLines(cells, device, lines[..|lines| - 1]) + if o.Kept? then [DeviceRow(device, o.row)] else []
  }

  function DroppedLines(cells: CellReader, device: string, lines: seq<Line>): seq<Junk>
    requires device in DEVICE_ADDR
  {
    if lines == [] then []
    else
      var o := ReadLine(cells, device, lines[|lines| - 1]);
      DroppedLines(cells, device, lines[..|lines| - 1]) + if o.Dropped? then [Junk(device, o.address, o.name)] else []
  }

  predicate AllReadable(cells: CellReader, tables: seq<Table>) {
    forall t :: t in tables ==> Readable(cells, t)
  }

  function KeptIn(cells: CellReader, tables: seq<Table>): seq<DeviceRow>
    requires AllReadable(cells, tables)
  {
    if tables == [] then []
    else
      var last := tables[|tables| - 1];
      assert Readable(cells, last);
      KeptIn(cells, tables[..|tables| - 1]) + KeptLines(cells, last.header.code, last.rows)
  }

  function DroppedIn(cells: CellReader, tables: seq<Table>): seq<Junk>
    requires AllReadable(cells, tables)
  {
    if tables == [] then []
    else
      var last := tables[|tables| - 1];
      assert Readable(cells, last);
      DroppedIn(cells, tables[..|tables| - 1]) + DroppedLines(cells, last.header.code, last.rows)
  }

  lemma {:induction false} LinesScanned(cells: CellReader, st: Scan, device: string, lines: seq<Line>)
    requires device in DEVICE_ADDR && st.error.None?
    ensures var scan := ScanLines(cells, st, device, lines);
            && (scan.error.None? <==> forall line :: line in lines ==> !ReadLine(cells, device, line).Bad?)
            && (scan.error.None? ==> && scan.kept == st.kept + KeptLines(cells, device, lines)
                                     && scan.dropped == st.dropped + DroppedLines(cells, device, lines)
                                     && |KeptLines(cells, device, lines)| + |DroppedLines(cells, device, lines)| == |lines|)
  {
    if lines != [] {
      var init, last := lines[..|lines| - 1], lines[|lines| - 1];
      LinesScanned(cells, st, device, init);
      assert forall line :: line in lines <==> line in init || line == last by {
        assert lines == init + [last];
      }
      if ScanLines(cells, st, device, init).error.None? {
        LineScanned(cells, ScanLines(cells, st, device, init), device, last);
      }
    }
  }

  lemma LineScanned(cells: CellReader, st: Scan, device: string, line: Line)
    requires device in DEVICE_ADDR && st.error.None?
    ensures var scan, o := ScanLine(cells, st, device, line), ReadLine(cells, device, line);
            && (scan.error.None? <==> !o.Bad?)
            && (!o.Bad? ==> && scan.kept == st.kept + (if o.Kept? then [DeviceRow(device, o.row)] else [])
                            && scan.dropped == st.dropped + (if o.Dropped? then [Junk(device, o.address, o.name)] else []))
  {
  }

  /** The parse succeeds exactly when every device is known and every line readable; then no line is
      lost: each is kept or dropped, in order. */
  lemma {:induction false} ParseSucceedsIff(cells: CellReader, tables: seq<Table>)
    ensures ScanTables(cells, tables).error.None? <==> AllReadable(cells, tables)
    ensures AllReadable(cells, tables) ==>
      && ScanTables(cells, tables).kept == KeptIn(cells, tables)
      && ScanTables(cells, tables).dropped == DroppedIn(cells, tables)
      && |KeptIn(cells, tables)| + |DroppedIn(cells, tables)| == |RowsOf(tables)|
  {
    if tables != [] {
      var init, last := tables[..|tables| - 1], tables[|tables| - 1];
      assert tables == init + [last];
      ParseSucceedsIff(cells, init);
      assert AllReadable(cells, tables) <==> AllReadable(cells, init) && Readable(cells, last);
      if ScanTables(cells, init).error.None? && last.header.code in DEVICE_ADDR {
        LinesScanned(cells, ScanTables(cells, init), last.header.code, last.rows);
      }
    }
  }

  // ---- From the parse to the join ----

  /** The rows one device contributes to its join. */
  function ForDevice(rows: seq<DeviceRow>, device: string): seq<ModbusRow> {
    if rows == [] then []
    else
      var last := rows[|rows| - 1];
      ForDevice(rows[..|rows| - 1], device) + if last.device == device then [last.row] else []
  }

  predicate KnownClasses(rows: seq<DeviceRow>) {
    forall r :: r in rows ==> r.row.regClass in {2, 3, 4}
  }

  lemma {:induction false} KeptHaveKnownClasses(cells: CellReader, device: string, lines: seq<Line>)
    requires device in DEVICE_ADDR
    ensures KnownClasses(KeptLines(cells, device, lines))
  {
    if lines != [] {
      KeptHaveKnownClasses(cells, device, lines[..|lines| - 1]);
    }
  }

  lemma {:induction false} ParsedHaveKnownClasses(cells: CellReader, tables: seq<Table>)
    requires AllReadable(cells, tables)
    ensures KnownClasses(KeptIn(cells, tables))
  {
    if tables != [] {
      var last := tables[|tables| - 1];
      assert Readable(cells, last);
      ParsedHaveKnownClasses(cells, tables[..|tables| - 1]);
      KeptHaveKnownClasses(cells, last.header.code, last.rows);
    }
  }

  lemma {:induction false} EveryRowIsPoolable(rows: seq<DeviceRow>, device: string)
    requires KnownClasses(rows)
    ensures JoinTheorems.Poolable(ForDevice(rows, device)) == ForDevice(rows, device)
  {
    if rows != [] {
      var init, last := rows[..|rows| - 1], rows[|rows| - 1];
      EveryRowIsPoolable(init, device);
      var before := ForDevice(init, device);
      assert last.device == device ==> (before + [last.row])[..|before|] == before;
      assert before + [] == before;
    }
  }

  /** Every Modbus row parsed for a device is on one of its points or reported as unmatched. */
  lemma ParsedRowsReachJoin(cells: CellReader, tables: seq<Table>, device: string, iec: seq<IecRow>, tags: seq<TagRow>)
    requires AllReadable(cells, tables) && JoinTheorems.DistinctAddresses(iec)
    requires JoinPoints.Succeeds(device, iec, ForDevice(KeptIn(cells, tables), device), tags)
    ensures var modbus := ForDevice(KeptIn(cells, tables), device);
            var o, left := JoinSpec.Join(device, iec, modbus, tags), JoinRegisters.LeftRows(device, iec, modbus);
            && o.report.unmatchedModbus == JoinSpec.Listed(left)
            && JoinRegisters.OnPoints(o.result.value) + multiset(JoinRegisters.Registers(left))
               == multiset(JoinRegisters.Registers(modbus))
  {
    ParsedHaveKnownClasses(cells, tables);
    EveryRowIsPoolable(KeptIn(cells, tables), device);
    JoinConservation.DistinctRowsConserved(device, iec, ForDevice(KeptIn(cells, tables), device), tags);
  }
}
