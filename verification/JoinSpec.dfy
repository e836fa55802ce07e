/** The three-way join as a fold over the IEC-104 rows, with each name pool seen as the plain
    list of rows not yet taken. */
module JoinSpec {
  import opened Prelude
  import opened Rows
  import opened NamePools

  datatype JoinError =
    | NoCounterpart(address: int, expected: int)
    | WrongAddress(address: int, found: int, expected: int)
    | TagCountMismatch(tags: nat, readOnly: nat)

  /** A setpoint joined by formula: its address and name, and the Modbus row's name. */
  datatype FormulaJoin = FormulaJoin(address: int, nameRaw: string, modbusName: string)

  datatype Unmatched = Unmatched(address: int, nameRaw: string)

  /** An IEC-104 row and the Modbus row it was given. */
  datatype Claim = Claim(iec: IecRow, modbus: Option<ModbusRow>)

  // ---- Pass 1: setpoints ----

  datatype Pass1 = Pass1(
    rest: seq<ModbusRow>,
    claims: seq<Claim>,
    points: map<int, JoinedPoint>,
    claimed: map<int, int>,
    byFormula: seq<FormulaJoin>,
    withoutReadback: seq<int>,
    error: Option<JoinError>)

  /** The holding register at each address, the last row winning. */
  function ByAddress(rows: seq<ModbusRow>): (r: map<int, ModbusRow>)
    ensures forall a :: a in r ==> r[a] in rows && r[a].regClass == 3 && r[a].address == a
    ensures forall m :: m in rows && m.regClass == 3 ==> m.address in r
  {
    if rows == [] then map[]
    else
      var init, last := ByAddress(rows[..|rows| - 1]), rows[|rows| - 1];
      assert rows == rows[..|rows| - 1] + [last];
      if last.regClass == 3 then init[last.address := last] else init
  }

  function Placed(device: string, st: Pass1, row: IecRow, m: ModbusRow): Pass1
    requires m.regClass == 3
  {
    var readback := ReadbackOf(row.address);
    st.(claims := st.claims + [Claim(row, Some(m))],
        points := st.points[row.address := NewPoint(device, row, Some(m), readback)],
        claimed := if readback.Some? then st.claimed[readback.value := row.address] else st.claimed,
        withoutReadback := if readback.Some? then st.withoutReadback else st.withoutReadback + [row.address])
  }

  function Step1(device: string, index: map<int, ModbusRow>, st: Pass1, row: IecRow): Pass1
    requires forall m :: m in st.rest ==> m.regClass == 3
    requires forall a :: a in index ==> index[a].regClass == 3
  {
    if st.error.Some? || ClassOf(row) != Setpoint then st
    else
      var expected, head := Expected(row.address), HeadOf(st.rest, row.name.key);
      if head.None? then
        if expected in index then
          var m := index[expected];
          Placed(device,
                 st.(rest := RemoveFirst(st.rest, m),
                     byFormula := st.byFormula + [FormulaJoin(row.address, row.name.raw, m.name.raw)]),
                 row, m)
        else st.(error := Some(NoCounterpart(row.address, expected)))
      else if head.value.address != expected then
        st.(rest := DropKey(st.rest, row.name.key), error := Some(WrongAddress(row.address, head.value.address, expected)))
      else Placed(device, st.(rest := DropKey(st.rest, row.name.key)), row, head.value)
  }

  function First(device: string, iec: seq<IecRow>, modbus: seq<ModbusRow>): (st: Pass1)
    ensures forall m :: m in st.rest ==> m.regClass == 3
  {
    if iec == [] then Pass1(OfClass(modbus, 3), [], map[], map[], [], [], None)
    else Step1(device, ByAddress(modbus), First(device, iec[..|iec| - 1], modbus), iec[|iec| - 1])
  }

  // ---- Pass 2: alarms and telemetry ----

  datatype Pass2 = Pass2(
    alarms: seq<ModbusRow>,
    telemetry: seq<ModbusRow>,
    claims: seq<Claim>,
    points: map<int, JoinedPoint>,
    unmatched: seq<Unmatched>)

  function Joined(device: string, st: Pass2, row: IecRow, m: Option<ModbusRow>): Pass2
    requires m.Some? ==> m.value.regClass in {2, 3, 4}
  {
    st.(claims := st.claims + [Claim(row, m)], points := st.points[row.address := NewPoint(device, row, m, None)])
  }

  function Reported(st: Pass2, row: IecRow, m: Option<ModbusRow>): Pass2 {
    if m.Some? then st else st.(unmatched := st.unmatched + [Unmatched(row.address, row.name.raw)])
  }

  predicate InPools(st: Pass2) {
    (forall m :: m in st.alarms ==> m.regClass == 2) && (forall m :: m in st.telemetry ==> m.regClass == 4)
  }

  /** `claimed` holds the readback addresses: their telemetry rows ask for nothing. */
  function Step2(device: string, claimed: map<int, int>, st: Pass2, row: IecRow): (r: Pass2)
    requires InPools(st)
    ensures InPools(r)
  {
    var key := row.name.key;
    match ClassOf(row)
    case Setpoint => st
    case Alarm =>
      var m := HeadOf(st.alarms, key);
      Joined(device, Reported(st.(alarms := DropKey(st.alarms, key)), row, m), row, m)
    case Telemetry =>
      if row.address in claimed then Joined(device, st, row, None)
      else
        var m := HeadOf(st.telemetry, key);
        Joined(device, Reported(st.(telemetry := DropKey(st.telemetry, key)), row, m), row, m)
  }

  function Second(device: string, iec: seq<IecRow>, modbus: seq<ModbusRow>, claimed: map<int, int>,
                  points: map<int, JoinedPoint>): (st: Pass2)
    ensures InPools(st)
  {
    if iec == [] then Pass2(OfClass(modbus, 2), OfClass(modbus, 4), [], points, [])
    else Step2(device, claimed, Second(device, iec[..|iec| - 1], modbus, claimed, points), iec[|iec| - 1])
  }

  // ---- Pass 3: tags ----

  function ReadOnly(iec: seq<IecRow>): seq<IecRow> {
    if iec == [] then []
    else
      var init, last := ReadOnly(iec[..|iec| - 1]), iec[|iec| - 1];
      if last.access == "RO" then init + [last] else init
  }

  /** The tag of each read-only address by position, the last row winning. */
  function TagsByAddress(readOnly: seq<IecRow>, tags: seq<TagRow>): map<int, string>
    requires |tags| == |readOnly|
  {
    if readOnly == [] then map[]
    else
      var n := |readOnly| - 1;
      TagsByAddress(readOnly[..n], tags[..n])[readOnly[n].address := tags[n].tag]
  }

  /** Some setpoint among the points is read back at `address`. */
  predicate ReadBack(points: map<int, JoinedPoint>, address: int) {
    exists a :: a in points && points[a].pointClass == Setpoint && points[a].readbackAddr == Some(address)
  }

  /** A point keeps the tag of its own address unless a setpoint took it; a setpoint takes the
      tag of its readback address. */
  function TagOf(points: map<int, JoinedPoint>, tags: map<int, string>, address: int): Option<string>
    requires address in points
  {
    var p := points[address];
    if address in tags && !ReadBack(points, address) then Some(tags[address])
    else if p.pointClass == Setpoint && p.readbackAddr.Some? && p.readbackAddr.value in tags then Some(tags[p.readbackAddr.value])
    else p.tag
  }

  function WithTag(p: JoinedPoint, tag: Option<string>): JoinedPoint {
    p.(tag := tag, sources := if tag.Some? then p.sources + ["TAG"] else p.sources)
  }

  function Tagged(points: map<int, JoinedPoint>, tags: map<int, string>): map<int, JoinedPoint> {
    map a | a in points :: WithTag(points[a], TagOf(points, tags, a))
  }

  // ---- The whole ----

  datatype Report = Report(
    unmatchedModbus: seq<Unmatched>,
    unmatchedIec: seq<Unmatched>,
    byFormula: seq<FormulaJoin>,
    withoutReadback: seq<int>)

  datatype Outcome = Outcome(report: Report, result: Result<map<int, JoinedPoint>, JoinError>)

  function Leftover(modbus: seq<ModbusRow>, rest: seq<ModbusRow>, regClass: int): seq<ModbusRow> {
    Gathered(KeysInOrder(OfClass(modbus, regClass)), rest)
  }

  function Listed(rows: seq<ModbusRow>): (r: seq<Unmatched>)
    ensures |r| == |rows|
  {
    seq(|rows|, i requires 0 <= i < |rows| => Unmatched(rows[i].address, rows[i].name.raw))
  }

  /** All Modbus rows no point was given, pool by pool. */
  function AllLeft(modbus: seq<ModbusRow>, first: Pass1, second: Pass2): seq<ModbusRow> {
    Leftover(modbus, second.alarms, 2) + Leftover(modbus, second.telemetry, 4) + Leftover(modbus, first.rest, 3)
  }

  /** What joining one device yields and reports. */
  function Join(device: string, iec: seq<IecRow>, modbus: seq<ModbusRow>, tags: seq<TagRow>): Outcome {
    var first := First(device, iec, modbus);
    if first.error.Some? then Outcome(Report([], [], first.byFormula, first.withoutReadback), Failure(first.error.value))
    else
      var second := Second(device, iec, modbus, first.claimed, first.points);
      var report := Report(Listed(AllLeft(modbus, first, second)), second.unmatched, first.byFormula, first.withoutReadback);
      var readOnly := ReadOnly(iec);
      if |tags| != |readOnly| then Outcome(report, Failure(TagCountMismatch(|tags|, |readOnly|)))
      else Outcome(report, Success(Tagged(second.points, TagsByAddress(readOnly, tags))))
  }

  /** The points in ascending order of their addresses. */
  predicate InAddressOrder(list: seq<JoinedPoint>, points: map<int, JoinedPoint>) {
    && (forall i, j :: 0 <= i < j < |list| ==> list[i].iec104Addr < list[j].iec104Addr)
    && (forall p :: p in list ==> p.iec104Addr in points && points[p.iec104Addr] == p)
    && (forall a :: a in points ==> points[a] in list)
  }

  // ---- The shape of the points dictionary ----

  /** A point sits under its own address and is read back where the formula says. */
  predicate WellKeyed(points: map<int, JoinedPoint>) {
    forall a :: a in points ==>
      && points[a].iec104Addr == a
      && points[a].tag.None?
      && points[a].readbackAddr == (if points[a].pointClass == Setpoint then ReadbackOf(a) else None)
  }

  lemma {:induction false} FirstWellKeyed(device: string, iec: seq<IecRow>, modbus: seq<ModbusRow>)
    ensures WellKeyed(First(device, iec, modbus).points)
  {
    if iec != [] {
      FirstWellKeyed(device, iec[..|iec| - 1], modbus);
    }
  }

  /** The row the second pass finds for an alarm or telemetry row. */
  function Found(claimed: map<int, int>, st: Pass2, row: IecRow): Option<ModbusRow> {
    if ClassOf(row) == Alarm then HeadOf(st.alarms, row.name.key)
    else if row.address in claimed then None
    else HeadOf(st.telemetry, row.name.key)
  }

  /** What one row of the second pass adds to the points. */
  lemma Step2Points(device: string, claimed: map<int, int>, st: Pass2, row: IecRow) returns (m: Option<ModbusRow>)
    requires InPools(st)
    ensures m == Found(claimed, st, row) && (m.Some? ==> m.value.regClass in {2, 4})
    ensures Step2(device, claimed, st, row).points
            == if ClassOf(row) == Setpoint then st.points else st.points[row.address := NewPoint(device, row, m, None)]
    ensures Step2(device, claimed, st, row).claims
            == if ClassOf(row) == Setpoint then st.claims else st.claims + [Claim(row, m)]
  {
    m := Found(claimed, st, row);
  }

  lemma KeyedAfter(points: map<int, JoinedPoint>, device: string, row: IecRow, m: Option<ModbusRow>)
    requires WellKeyed(points) && ClassOf(row) != Setpoint && (m.Some? ==> m.value.regClass in {2, 4})
    ensures WellKeyed(points[row.address := NewPoint(device, row, m, None)])
  {
  }

  lemma {:induction false} SecondWellKeyed(device: string, iec: seq<IecRow>, modbus: seq<ModbusRow>,
                                           claimed: map<int, int>, points: map<int, JoinedPoint>)
    requires WellKeyed(points)
    ensures WellKeyed(Second(device, iec, modbus, claimed, points).points)
    ensures points.Keys <= Second(device, iec, modbus, claimed, points).points.Keys
    ensures forall row :: row in iec && ClassOf(row) != Setpoint
              ==> row.address in Second(device, iec, modbus, claimed, points).points
  {
    if iec != [] {
      var init, row := iec[..|iec| - 1], iec[|iec| - 1];
      SecondWellKeyed(device, init, modbus, claimed, points);
      assert iec == init + [row];
      var st := Second(device, init, modbus, claimed, points);
      var m := Step2Points(device, claimed, st, row);
      if ClassOf(row) != Setpoint {
        KeyedAfter(st.points, device, row, m);
      }
    }
  }

  lemma {:induction false} ReadOnlyRows(iec: seq<IecRow>)
    ensures forall row :: row in ReadOnly(iec) <==> row in iec && row.access == "RO"
  {
    if iec != [] {
      ReadOnlyRows(iec[..|iec| - 1]);
      assert iec == iec[..|iec| - 1] + [iec[|iec| - 1]];
    }
  }

  lemma {:induction false} TagKeys(readOnly: seq<IecRow>, tags: seq<TagRow>)
    requires |tags| == |readOnly|
    ensures forall a :: a in TagsByAddress(readOnly, tags)
              <==> exists i :: 0 <= i < |readOnly| && readOnly[i].address == a
  {
    if readOnly != [] {
      var n := |readOnly| - 1;
      TagKeys(readOnly[..n], tags[..n]);
      forall i | 0 <= i < |readOnly|
        ensures readOnly[i].address in TagsByAddress(readOnly, tags)
      {
        if i < n {
          assert readOnly[..n][i] == readOnly[i];
        }
      }
      forall a | a in TagsByAddress(readOnly, tags)
        ensures exists i :: 0 <= i < |readOnly| && readOnly[i].address == a
      {
        if a in TagsByAddress(readOnly[..n], tags[..n]) {
          var i :| 0 <= i < n && readOnly[..n][i].address == a;
          assert readOnly[i].address == a;
        } else {
          assert readOnly[n].address == a;
        }
      }
    }
  }

  /** Every tagged address has a point to carry the tag. */
  lemma TagsHavePoints(device: string, iec: seq<IecRow>, modbus: seq<ModbusRow>, tags: seq<TagRow>)
    requires |tags| == |ReadOnly(iec)|
    ensures var first := First(device, iec, modbus);
            var points := Second(device, iec, modbus, first.claimed, first.points).points;
            WellKeyed(points) && TagsByAddress(ReadOnly(iec), tags).Keys <= points.Keys
  {
    var first := First(device, iec, modbus);
    FirstWellKeyed(device, iec, modbus);
    SecondWellKeyed(device, iec, modbus, first.claimed, first.points);
    ReadOnlyRows(iec);
    TagKeys(ReadOnly(iec), tags);
    forall a | a in TagsByAddress(ReadOnly(iec), tags)
      ensures a in Second(device, iec, modbus, first.claimed, first.points).points
    {
      var i :| 0 <= i < |ReadOnly(iec)| && ReadOnly(iec)[i].address == a;
      assert ReadOnly(iec)[i] in iec;
    }
  }

  predicate KeyedByAddress(points: map<int, JoinedPoint>) {
    forall a :: a in points ==> points[a].iec104Addr == a
  }

  lemma Shorter(list: seq<JoinedPoint>, points: map<int, JoinedPoint>)
    requires list != [] && InAddressOrder(list, points) && KeyedByAddress(points)
    ensures InAddressOrder(list[..|list| - 1], points - {list[|list| - 1].iec104Addr})
  {
    EarlierListed(list, points);
    forall a | a in points - {list[|list| - 1].iec104Addr}
      ensures points[a] in list[..|list| - 1]
    {
      OthersListed(list, points, a);
    }
  }

  lemma EarlierListed(list: seq<JoinedPoint>, points: map<int, JoinedPoint>)
    requires list != [] && InAddressOrder(list, points)
    ensures forall x :: x in list[..|list| - 1] ==> x in list && x.iec104Addr < list[|list| - 1].iec104Addr
  {
    var n := |list| - 1;
    forall x | x in list[..n]
      ensures x in list && x.iec104Addr < list[n].iec104Addr
    {
      var i :| 0 <= i < n && list[..n][i] == x;
      assert list[i] == x;
    }
  }

  lemma OthersListed(list: seq<JoinedPoint>, points: map<int, JoinedPoint>, a: int)
    requires list != [] && InAddressOrder(list, points) && KeyedByAddress(points)
    requires a in points && a != list[|list| - 1].iec104Addr
    ensures points[a] in list[..|list| - 1]
  {
    assert points[a] in list && points[a].iec104Addr == a;
    var i :| 0 <= i < |list| && list[i] == points[a];
    assert list[..|list| - 1][i] == points[a];
  }

  lemma NoPoints(list: seq<JoinedPoint>, points: map<int, JoinedPoint>)
    requires InAddressOrder(list, points) && list == []
    ensures points == map[]
  {
    assert forall a :: a in points ==> points[a] in list;
    assert points.Keys == {};
  }

  lemma NoListing(list: seq<JoinedPoint>)
    requires InAddressOrder(list, map[])
    ensures list == []
  {
    if list != [] {
      FirstListed(list);
      assert false;
    }
  }

  lemma FirstListed(list: seq<JoinedPoint>)
    requires list != []
    ensures list[0] in list
  {
  }

  lemma LastIsGreatest(list: seq<JoinedPoint>, points: map<int, JoinedPoint>, a: int)
    requires list != [] && InAddressOrder(list, points) && KeyedByAddress(points) && a in points
    ensures list[|list| - 1].iec104Addr in points && points[list[|list| - 1].iec104Addr] == list[|list| - 1]
    ensures a <= list[|list| - 1].iec104Addr
  {
    assert list[|list| - 1] in list;
    assert points[a] in list && points[a].iec104Addr == a;
    var i :| 0 <= i < |list| && list[i] == points[a];
  }

  lemma SameLast(p: seq<JoinedPoint>, q: seq<JoinedPoint>, points: map<int, JoinedPoint>)
    requires p != [] && q != [] && KeyedByAddress(points)
    requires InAddressOrder(p, points) && InAddressOrder(q, points)
    ensures p[|p| - 1] == q[|q| - 1]
  {
    assert p[|p| - 1] in p && q[|q| - 1] in q;
    LastIsGreatest(p, points, q[|q| - 1].iec104Addr);
    LastIsGreatest(q, points, p[|p| - 1].iec104Addr);
  }

  /** A dictionary of points has one listing in address order. */
  lemma {:induction false} AddressOrderUnique(p: seq<JoinedPoint>, q: seq<JoinedPoint>, points: map<int, JoinedPoint>)
    requires InAddressOrder(p, points) && InAddressOrder(q, points) && KeyedByAddress(points)
    ensures p == q
    decreases |p|
  {
    if p == [] || q == [] {
      NoPoints(if p == [] then p else q, points);
      NoListing(p);
      NoListing(q);
    } else {
      var m, n := |p| - 1, |q| - 1;
      SameLast(p, q, points);
      Shorter(p, points);
      Shorter(q, points);
      AddressOrderUnique(p[..m], q[..n], points - {p[m].iec104Addr});
      assert p == p[..m] + [p[m]] && q == q[..n] + [q[n]];
    }
  }
}
