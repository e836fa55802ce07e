/** Splitting one sheet's rows into per-device subtables. */
module Subtables {
  import opened Prelude

  /** A spreadsheet cell. `Other` is any value that is neither text nor an integer. */
  datatype Cell = Blank | Number(n: int) | Text(s: string) | Other(shown: string)

  type Line = seq<Cell>

  /** What a "no:" line announces. */
  datatype Header = Header(code: string, name: string, addr: Option<int>)

  /** How text is trimmed, how a "no:" line is recognised, and which texts mark a repeated header row. */
  datatype Reader = Reader(strip: string -> string, noLine: string -> Option<Header>, markers: set<string>)

  datatype Kind = Service | NoLine(header: Header) | Heading | Data

  function Classify(reader: Reader, line: Line): Kind {
    if line == [] || line[0].Blank? then Service
    else if line[0].Text? then
      var text := reader.strip(line[0].s);
      if text == "" then Service
      else if reader.noLine(text).Some? then NoLine(reader.noLine(text).value)
      else if text in reader.markers then Heading
      else Data
    else Data
  }

  /** A subtable as a value. */
  datatype Table = Table(header: Header, rows: seq<Line>)

  class RawSubtable {
    const header: Header
    var rows: seq<Line>

    constructor (header: Header)
      ensures this.header == header && rows == []
    {
      this.header := header;
      rows := [];
    }

    function View(): Table
      reads this
    {
      Table(header, rows)
    }
  }

  function AddRow(tables: seq<Table>, line: Line): seq<Table>
    requires tables != []
  {
    var last := tables[|tables| - 1];
    tables[..|tables| - 1] + [last.(rows := last.rows + [line])]
  }

  /** One line's effect on the subtables so far, or on the data row that came before any "no:" line. */
  function SplitStep(reader: Reader, tables: Result<seq<Table>, Line>, line: Line): Result<seq<Table>, Line> {
    if tables.Failure? then tables
    else
      match Classify(reader, line)
      case Service => tables
      case Heading => tables
      case NoLine(h) => Success(tables.value + [Table(h, [])])
      case Data => if tables.value == [] then Failure(line) else Success(AddRow(tables.value, line))
  }

  function Split(reader: Reader, lines: seq<Line>): Result<seq<Table>, Line> {
    if lines == [] then Success([])
    else SplitStep(reader, Split(reader, lines[..|lines| - 1]), lines[|lines| - 1])
  }

  ghost predicate Shows(subtables: seq<RawSubtable>, tables: seq<Table>)
    reads subtables
  {
    && |subtables| == |tables|
    && (forall i :: 0 <= i < |tables| ==> subtables[i].View() == tables[i])
    && (forall i, j :: 0 <= i < j < |subtables| ==> subtables[i] != subtables[j])
  }

  method Open(h: Header, ghost subtables: seq<RawSubtable>, ghost tables: seq<Table>) returns (current: RawSubtable)
    requires Shows(subtables, tables)
    ensures fresh(current) && Shows(subtables + [current], tables + [Table(h, [])])
  {
    current := new RawSubtable(h);
  }

  /** `current` is the last of the subtables listed, which sees the row as well. */
  method Append(current: RawSubtable, line: Line, ghost subtables: seq<RawSubtable>, ghost tables: seq<Table>)
    requires Shows(subtables, tables) && subtables != [] && current == subtables[|subtables| - 1]
    modifies current
    ensures Shows(subtables, AddRow(tables, line))
  {
    current.rows := current.rows + [line];
  }

  /** The first `i` lines make the tables. */
  predicate SplitSoFar(reader: Reader, lines: seq<Line>, i: nat, tables: seq<Table>) {
    i <= |lines| && Split(reader, lines[..i]) == Success(tables)
  }

  /** What one more line does to the tables; a data row before any of them ends the split. */
  lemma SplitNext(reader: Reader, lines: seq<Line>, i: nat, tables: seq<Table>)
    requires i < |lines| && SplitSoFar(reader, lines, i, tables)
    ensures Classify(reader, lines[i]).Data? && tables == [] ==> Split(reader, lines) == Failure(lines[i])
    ensures !(Classify(reader, lines[i]).Data? && tables == []) ==>
              SplitSoFar(reader, lines, i + 1, SplitStep(reader, Success(tables), lines[i]).value)
  {
    assert lines[..i + 1][..i] == lines[..i];
    if Classify(reader, lines[i]).Data? && tables == [] {
      FailureStays(reader, lines, i + 1);
    }
  }

  method SplitSubtables(reader: Reader, lines: seq<Line>) returns (result: Result<seq<RawSubtable>, Line>)
    ensures result.Success? <==> Split(reader, lines).Success?
    ensures result.Failure? ==> result.error == Split(reader, lines).error
    ensures result.Success? ==> fresh(result.value) && Shows(result.value, Split(reader, lines).value)
  {
    var subtables: seq<RawSubtable> := [];
    var current: RawSubtable? := null;
    ghost var tables: seq<Table> := [];
    for i := 0 to |lines|
      invariant fresh(subtables) && Shows(subtables, tables)
      invariant SplitSoFar(reader, lines, i, tables)
      invariant current == if subtables == [] then null else subtables[|subtables| - 1]
    {
      var line := lines[i];
      SplitNext(reader, lines, i, tables);
      match Classify(reader, line) {
        case Service =>
        case Heading =>
        case NoLine(h) =>
          current := Open(h, subtables, tables);
          subtables, tables := subtables + [current], tables + [Table(h, [])];
        case Data =>
          if current == null {
            return Failure(line);
          }
          Append(current, line, subtables, tables);
          tables := AddRow(tables, line);
      }
    }
    assert lines[..|lines|] == lines;
    return Success(subtables);
  }

  lemma {:induction false} FailureStays(reader: Reader, lines: seq<Line>, n: nat)
    requires n <= |lines| && Split(reader, lines[..n]).Failure?
    ensures Split(reader, lines) == Split(reader, lines[..n])
  {
    if n == |lines| {
      assert lines[..n] == lines;
    } else {
      var init := lines[..|lines| - 1];
      assert init[..n] == lines[..n];
      FailureStays(reader, init, n);
    }
  }

  // ---- What the split means ----

  function DataRows(reader: Reader, lines: seq<Line>): seq<Line> {
    if lines == [] then []
    else
      var line := lines[|lines| - 1];
      DataRows(reader, lines[..|lines| - 1]) + if Classify(reader, line).Data? then [line] else []
  }

  function Headers(reader: Reader, lines: seq<Line>): seq<Header> {
    if lines == [] then []
    else
      var kind := Classify(reader, lines[|lines| - 1]);
      Headers(reader, lines[..|lines| - 1]) + if kind.NoLine? then [kind.header] else []
  }

  function HeadersOf(tables: seq<Table>): seq<Header> {
    seq(|tables|, i requires 0 <= i < |tables| => tables[i].header)
  }

  function RowsOf(tables: seq<Table>): seq<Line> {
    if tables == [] then [] else RowsOf(tables[..|tables| - 1]) + tables[|tables| - 1].rows
  }

  predicate DataBeforeAnyLine(reader: Reader, lines: seq<Line>) {
    exists i :: 0 <= i < |lines| && Classify(reader, lines[i]).Data?
                && forall j :: 0 <= j < i ==> !Classify(reader, lines[j]).NoLine?
  }

  predicate NoLines(reader: Reader, lines: seq<Line>) {
    forall i :: 0 <= i < |lines| ==> !Classify(reader, lines[i]).NoLine?
  }

  lemma {:induction false} EmptyUntilALine(reader: Reader, lines: seq<Line>)
    requires Split(reader, lines).Success?
    ensures Split(reader, lines).value == [] <==> NoLines(reader, lines)
  {
    if lines != [] {
      EmptyUntilALine(reader, lines[..|lines| - 1]);
    }
  }

  lemma DataBeforeSnoc(reader: Reader, lines: seq<Line>, line: Line)
    ensures DataBeforeAnyLine(reader, lines + [line])
            <==> DataBeforeAnyLine(reader, lines) || (NoLines(reader, lines) && Classify(reader, line).Data?)
  {
    var all, n := lines + [line], |lines|;
    if DataBeforeAnyLine(reader, all) {
      var i :| 0 <= i <= n && Classify(reader, all[i]).Data? && forall j :: 0 <= j < i ==> !Classify(reader, all[j]).NoLine?;
      assert forall j :: 0 <= j < i ==> lines[j] == all[j];
      assert i < n ==> Classify(reader, lines[i]).Data?;
    }
    if DataBeforeAnyLine(reader, lines) {
      var i :| 0 <= i < n && Classify(reader, lines[i]).Data? && forall j :: 0 <= j < i ==> !Classify(reader, lines[j]).NoLine?;
      assert Classify(reader, all[i]).Data?;
      assert forall j :: 0 <= j < i ==> all[j] == lines[j];
    }
    if NoLines(reader, lines) && Classify(reader, line).Data? {
      assert Classify(reader, all[n]).Data?;
      assert forall j :: 0 <= j < n ==> all[j] == lines[j];
    }
  }

  /** The split fails exactly when a data row stands before every "no:" line. */
  lemma {:induction false} SplitFailsIff(reader: Reader, lines: seq<Line>)
    ensures Split(reader, lines).Failure? <==> DataBeforeAnyLine(reader, lines)
  {
    if lines != [] {
      var init, line := lines[..|lines| - 1], lines[|lines| - 1];
      SplitFailsIff(reader, init);
      assert lines == init + [line];
      DataBeforeSnoc(reader, init, line);
      if Split(reader, init).Success? {
        EmptyUntilALine(reader, init);
      }
    }
  }

  lemma AddRowAppends(tables: seq<Table>, line: Line)
    requires tables != []
    ensures RowsOf(AddRow(tables, line)) == RowsOf(tables) + [line]
    ensures HeadersOf(AddRow(tables, line)) == HeadersOf(tables)
  {
    var after := AddRow(tables, line);
    assert after[..|after| - 1] == tables[..|tables| - 1];
  }

  lemma NewTableAppends(tables: seq<Table>, h: Header)
    ensures RowsOf(tables + [Table(h, [])]) == RowsOf(tables)
    ensures HeadersOf(tables + [Table(h, [])]) == HeadersOf(tables) + [h]
  {
    assert (tables + [Table(h, [])])[..|tables|] == tables;
  }

  /** One subtable for each "no:" line in order, and between them every data row in its order. */
  lemma {:induction false} SplitLosesNothing(reader: Reader, lines: seq<Line>)
    requires Split(reader, lines).Success?
    ensures HeadersOf(Split(reader, lines).value) == Headers(reader, lines)
    ensures RowsOf(Split(reader, lines).value) == DataRows(reader, lines)
  {
    if lines != [] {
      var init, line := lines[..|lines| - 1], lines[|lines| - 1];
      SplitLosesNothing(reader, init);
      match Classify(reader, line) {
        case Service =>
        case Heading =>
        case NoLine(h) => NewTableAppends(Split(reader, init).value, h);
        case Data => AddRowAppends(Split(reader, init).value, line);
      }
    }
  }

  /** A "no:" line gathers exactly the data rows from there to the next one. */
  lemma {:induction false} LineGathersItsRows(reader: Reader, before: seq<Line>, line: Line, after: seq<Line>)
    requires Split(reader, before).Success? && Classify(reader, line).NoLine? && NoLines(reader, after)
    ensures Split(reader, before + [line] + after)
            == Success(Split(reader, before).value + [Table(Classify(reader, line).header, DataRows(reader, after))])
  {
    var lines := before + [line] + after;
    if after == [] {
      assert lines[..|lines| - 1] == before;
    } else {
      var init := after[..|after| - 1];
      var last := after[|after| - 1];
      LineGathersItsRows(reader, before, line, init);
      assert lines[..|lines| - 1] == before + [line] + init && lines[|lines| - 1] == last;
      var tables := Split(reader, before).value;
      var grown := tables + [Table(Classify(reader, line).header, DataRows(reader, init))];
      assert Split(reader, lines) == SplitStep(reader, Success(grown), last);
      assert !Classify(reader, last).NoLine?;
      assert DataRows(reader, init) + [] == DataRows(reader, init);
      assert grown[..|grown| - 1] == tables;
    }
  }
}
