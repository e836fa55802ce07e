/** Conservation of Modbus rows, read off what the join puts out: its points and its report. */
module JoinConservation {
  import opened Prelude
  import opened Rows
  import opened JoinSpec
  import opened JoinTheorems
  import opened JoinPoints
  import opened JoinRegisters

  /** Row `i` is given a Modbus row. */
  predicate Takes(iec: seq<IecRow>, modbus: seq<ModbusRow>, i: nat)
    requires i < |iec|
  {
    TakesWith(iec, modbus, Claimed(iec), i)
  }

  /** Rows sharing an address are all setpoints, or are all alarms and telemetry of which only the
      last takes a Modbus row. */
  predicate NoRowLost(iec: seq<IecRow>, modbus: seq<ModbusRow>) {
    forall i, j :: 0 <= i < j < |iec| && iec[i].address == iec[j].address ==>
      (!Other(iec[i]) && !Other(iec[j])) || (Other(iec[i]) && Other(iec[j]) && !Takes(iec, modbus, i))
  }

  /** The registers on the resulting points and of the rows reported are those of the rows the join
      reads, each once. */
  ghost predicate Conserved(device: string, iec: seq<IecRow>, modbus: seq<ModbusRow>, tags: seq<TagRow>)
    requires Succeeds(device, iec, modbus, tags)
  {
    && Join(device, iec, modbus, tags).report.unmatchedModbus == Listed(LeftRows(device, iec, modbus))
    && OnPoints(Join(device, iec, modbus, tags).result.value) + multiset(Registers(LeftRows(device, iec, modbus)))
       == multiset(Registers(Poolable(modbus)))
  }

  /** Tags move no register. */
  lemma ResultRegisters(device: string, iec: seq<IecRow>, modbus: seq<ModbusRow>, tags: seq<TagRow>)
    requires Succeeds(device, iec, modbus, tags)
    ensures First(device, iec, modbus).error.None?
    ensures OnPoints(Join(device, iec, modbus, tags).result.value) == OnPoints(PassPoints(device, iec, modbus))
    ensures Join(device, iec, modbus, tags).report.unmatchedModbus == Listed(LeftRows(device, iec, modbus))
  {
    var points := PassPoints(device, iec, modbus);
    OnPointsSame(Tagged(points, TagsByAddress(ReadOnly(iec), tags)), points);
  }

  lemma SafeIffNoneLost(iec: seq<IecRow>, modbus: seq<ModbusRow>, setpoints: set<int>)
    requires forall a :: a in setpoints <==> SetpointAt(iec, a)
    ensures SafeRows(iec, modbus, Claimed(iec), setpoints) <==> NoRowLost(iec, modbus)
  {
    if SafeRows(iec, modbus, Claimed(iec), setpoints) {
      SafeLosesNone(iec, modbus, setpoints);
    }
    if NoRowLost(iec, modbus) {
      NoneLostIsSafe(iec, modbus, setpoints);
    }
  }

  lemma SafeLosesNone(iec: seq<IecRow>, modbus: seq<ModbusRow>, setpoints: set<int>)
    requires (forall a :: a in setpoints <==> SetpointAt(iec, a)) && SafeRows(iec, modbus, Claimed(iec), setpoints)
    ensures NoRowLost(iec, modbus)
  {
    forall i, j | 0 <= i < j < |iec| && iec[i].address == iec[j].address
      ensures (!Other(iec[i]) && !Other(iec[j])) || (Other(iec[i]) && Other(iec[j]) && !Takes(iec, modbus, i))
    {
      if Other(iec[i]) {
        assert SafeRow(iec, modbus, Claimed(iec), setpoints, i);
      }
      if Other(iec[j]) {
        assert SafeRow(iec, modbus, Claimed(iec), setpoints, j);
      }
    }
  }

  lemma NoneLostIsSafe(iec: seq<IecRow>, modbus: seq<ModbusRow>, setpoints: set<int>)
    requires (forall a :: a in setpoints <==> SetpointAt(iec, a)) && NoRowLost(iec, modbus)
    ensures SafeRows(iec, modbus, Claimed(iec), setpoints)
  {
    forall j | 0 <= j < |iec| && Other(iec[j])
      ensures SafeRow(iec, modbus, Claimed(iec), setpoints, j)
    {
      forall i | 0 <= i < |iec| && iec[i].address == iec[j].address
        ensures Other(iec[i])
      {
        assert i < j || i == j || j < i;
      }
    }
  }

  lemma Balanced(x: multiset<Register>, o: multiset<Register>, t: multiset<Register>)
    requires x + o == t
    ensures x == t <==> o == multiset{}
  {
    if x == t {
      assert o == x + o - x;
    }
  }

  /** A successful join conserves the Modbus rows exactly when no row shares an address in a way that
      overwrites a register, and no repeated setpoint takes another row. */
  lemma RowsConservedIff(device: string, iec: seq<IecRow>, modbus: seq<ModbusRow>, tags: seq<TagRow>)
    requires Succeeds(device, iec, modbus, tags)
    ensures Conserved(device, iec, modbus, tags) <==> NoRowLost(iec, modbus) && NoneTakenAgain(device, iec, modbus)
  {
    ResultRegisters(device, iec, modbus, tags);
    LostIff(device, iec, modbus);
    RegistersAccounted(device, iec, modbus);
    Balanced(OnPoints(PassPoints(device, iec, modbus)) + multiset(Registers(LeftRows(device, iec, modbus))),
             Lost(device, iec, modbus), multiset(Registers(Poolable(modbus))));
  }

  lemma LostIff(device: string, iec: seq<IecRow>, modbus: seq<ModbusRow>)
    requires First(device, iec, modbus).error.None?
    ensures Lost(device, iec, modbus) == multiset{} <==> NoRowLost(iec, modbus) && NoneTakenAgain(device, iec, modbus)
  {
    var first := First(device, iec, modbus);
    FirstPlaces(device, iec, modbus);
    NothingOverwrittenIff(device, iec, modbus, first.claimed, first.points);
    SafeIffNoneLost(iec, modbus, first.points.Keys);
    NothingTakenAgainIff(device, iec, modbus);
    EmptySum(AllOverwritten(device, iec, modbus), TakenAgain(device, iec, modbus));
  }

  lemma EmptySum(x: multiset<Register>, y: multiset<Register>)
    ensures x + y == multiset{} <==> x == multiset{} && y == multiset{}
  {
    if x + y == multiset{} {
      assert forall r :: x[r] + y[r] == (x + y)[r];
    }
  }

  /** Where class 3 registers differ, the condition is one on the rows read alone. */
  lemma DifferingRowsConservedIff(device: string, iec: seq<IecRow>, modbus: seq<ModbusRow>, tags: seq<TagRow>)
    requires AddressesDiffer(OfClass(modbus, 3)) && Succeeds(device, iec, modbus, tags)
    ensures Conserved(device, iec, modbus, tags) <==> NoRowLost(iec, modbus)
  {
    ResultRegisters(device, iec, modbus, tags);
    RowsConservedIff(device, iec, modbus, tags);
    DifferingTakeOnce(device, iec, modbus);
  }

  /** Every Modbus row read is on a point or in the report, once, for distinct IEC addresses. */
  lemma DistinctRowsConserved(device: string, iec: seq<IecRow>, modbus: seq<ModbusRow>, tags: seq<TagRow>)
    requires DistinctAddresses(iec) && Succeeds(device, iec, modbus, tags)
    ensures Conserved(device, iec, modbus, tags)
  {
    RowsConservedIff(device, iec, modbus, tags);
    DistinctTakeOnce(device, iec, modbus);
    assert NoRowLost(iec, modbus);
  }

  // ---- In the output's own terms ----

  function PointRegisters(list: seq<JoinedPoint>): seq<Register> {
    if list == [] then []
    else
      var p := list[|list| - 1];
      PointRegisters(list[..|list| - 1])
      + if p.modbusClass.Some? && p.modbusAddr.Some? then [Register(p.modbusClass.value, p.modbusAddr.value)] else []
  }

  lemma {:induction false} ListedRegisters(list: seq<JoinedPoint>, points: map<int, JoinedPoint>)
    requires InAddressOrder(list, points) && KeyedByAddress(points)
    ensures multiset(PointRegisters(list)) == OnPoints(points)
    decreases |list|
  {
    if list == [] {
      NoPoints(list, points);
    } else {
      var a := list[|list| - 1].iec104Addr;
      LastIsGreatest(list, points, a);
      Shorter(list, points);
      ListedRegisters(list[..|list| - 1], points - {a});
      OnPointsWithout(points, a);
    }
  }

  function AddressOf(r: Register): int {
    r.address
  }

  function ReportedAddress(u: Unmatched): int {
    u.address
  }

  function RowAddress(m: ModbusRow): int {
    m.address
  }

  /** The Modbus addresses on the listed points and in the report are those of the rows read. */
  lemma OutputConservesAddresses(device: string, iec: seq<IecRow>, modbus: seq<ModbusRow>, tags: seq<TagRow>,
                                 list: seq<JoinedPoint>)
    requires Succeeds(device, iec, modbus, tags) && Conserved(device, iec, modbus, tags)
    requires InAddressOrder(list, Join(device, iec, modbus, tags).result.value)
    ensures multiset(Mapped(AddressOf, PointRegisters(list)))
            + multiset(Mapped(ReportedAddress, Join(device, iec, modbus, tags).report.unmatchedModbus))
            == multiset(Mapped(RowAddress, Poolable(modbus)))
  {
    var left := LeftRows(device, iec, modbus);
    TagsHavePoints(device, iec, modbus, tags);
    ListedRegisters(list, Join(device, iec, modbus, tags).result.value);
    MappedSame(AddressOf, PointRegisters(list) + Registers(left), Registers(Poolable(modbus)));
    MappedConcat(AddressOf, PointRegisters(list), Registers(left));
    assert Mapped(AddressOf, Registers(left)) == Mapped(ReportedAddress, Listed(left));
    assert Mapped(AddressOf, Registers(Poolable(modbus))) == Mapped(RowAddress, Poolable(modbus));
  }

  // ---- A row lost ----

  /** Two alarm rows at one address: the join succeeds, reports nothing, and has one point, with the
      second register. The first register is nowhere. */
  lemma RepeatedAddressLosesRow(row: IecRow, m1: ModbusRow, m2: ModbusRow, tags: seq<TagRow>)
    requires ClassOf(row) == Alarm && m1.regClass == m2.regClass == 2
    requires row.name.key == m1.name.key == m2.name.key
    requires |tags| == |ReadOnly([row, row])|
    ensures Succeeds("EMS", [row, row], [m1, m2], tags) && !Conserved("EMS", [row, row], [m1, m2], tags)
    ensures var o := Join("EMS", [row, row], [m1, m2], tags);
            && o.report.unmatchedModbus == [] && o.result.value.Keys == {row.address}
            && o.result.value[row.address].modbusAddr == Some(m2.address)
  {
    RepeatedOutcome(row, m1, m2, tags);
    FirstTakes(row, m1, m2);
    var iec := [row, row];
    assert iec[0].address == iec[1].address && Other(iec[0]) && !NoRowLost(iec, [m1, m2]);
    TwoOfClass(m1, m2, 3);
    RowsConservedIff("EMS", iec, [m1, m2], tags);
  }

  lemma RepeatedOutcome(row: IecRow, m1: ModbusRow, m2: ModbusRow, tags: seq<TagRow>)
    requires ClassOf(row) == Alarm && m1.regClass == m2.regClass == 2
    requires row.name.key == m1.name.key == m2.name.key
    requires |tags| == |ReadOnly([row, row])|
    ensures Succeeds("EMS", [row, row], [m1, m2], tags)
    ensures var o := Join("EMS", [row, row], [m1, m2], tags);
            && o.report.unmatchedModbus == [] && o.result.value.Keys == {row.address}
            && o.result.value[row.address].modbusAddr == Some(m2.address)
  {
    BothTaken(row, m1, m2);
    NothingLeft(row, m1, m2);
  }

  lemma NothingLeft(row: IecRow, m1: ModbusRow, m2: ModbusRow)
    requires ClassOf(row) == Alarm && m1.regClass == m2.regClass == 2
    requires row.name.key == m1.name.key == m2.name.key
    ensures LeftRows("EMS", [row, row], [m1, m2]) == []
  {
    BothTaken(row, m1, m2);
    LeftIsRest("EMS", [row, row], [m1, m2]);
    var left := LeftRows("EMS", [row, row], [m1, m2]);
    assert multiset(left) == multiset{};
    assert |multiset(left)| == |left|;
  }

  lemma FirstTakes(row: IecRow, m1: ModbusRow, m2: ModbusRow)
    requires ClassOf(row) == Alarm && m1.regClass == m2.regClass == 2
    requires row.name.key == m1.name.key == m2.name.key
    ensures Takes([row, row], [m1, m2], 0)
  {
    TwoOfClass(m1, m2, 2);
    assert [row, row][..0] == [];
    assert |WithKey([m1, m2], row.name.key)| > 0;
  }

  lemma BothTaken(row: IecRow, m1: ModbusRow, m2: ModbusRow)
    requires ClassOf(row) == Alarm && m1.regClass == m2.regClass == 2
    requires row.name.key == m1.name.key == m2.name.key
    ensures OfClass([m1, m2], 2) == [m1, m2]
    ensures First("EMS", [row, row], [m1, m2]) == Pass1([], [], map[], map[], [], [], None)
    ensures var st := Second("EMS", [row, row], [m1, m2], map[], map[]);
            st.alarms == [] && st.telemetry == [] && st.points == map[row.address := NewPoint("EMS", row, Some(m2), None)]
  {
    var modbus := [m1, m2];
    TwoOfClass(m1, m2, 2);
    TwoOfClass(m1, m2, 3);
    TwoOfClass(m1, m2, 4);
    assert [row, row][..1] == [row] && [row][..0] == [];
    assert First("EMS", [row], modbus) == First("EMS", [], modbus);
    var s0 := Second("EMS", [], modbus, map[], map[]);
    var s1 := Second("EMS", [row], modbus, map[], map[]);
    assert s1 == Step2("EMS", map[], s0, row);
    assert s1.alarms == [m2];
  }

  lemma TwoOfClass(m1: ModbusRow, m2: ModbusRow, regClass: int)
    requires m1.regClass == m2.regClass
    ensures OfClass([m1, m2], regClass) == if m1.regClass == regClass then [m1, m2] else []
  {
    assert [m1, m2][..1] == [m1] && [m1][..0] == [];
    assert OfClass([m1], regClass) == if m1.regClass == regClass then [m1] else [];
  }

  // ---- A register taken twice ----

  /** Two setpoint rows at one address and two registers of their name at its formula address: the join
      succeeds, no row is overwritten, and one register is on no point and not reported. */
  lemma RepeatedSetpointLosesRow(row: IecRow, m1: ModbusRow, m2: ModbusRow)
    requires ClassOf(row) == Setpoint && m1.regClass == m2.regClass == 3
    requires row.name.key == m1.name.key == m2.name.key && m1.address == m2.address == Expected(row.address)
    ensures Succeeds("EMS", [row, row], [m1, m2], []) && NoRowLost([row, row], [m1, m2])
    ensures !Conserved("EMS", [row, row], [m1, m2], [])
    ensures Join("EMS", [row, row], [m1, m2], []).report.unmatchedModbus == []
    ensures OnPoints(Join("EMS", [row, row], [m1, m2], []).result.value) == multiset{RowRegister(m1)}
  {
    SetpointsSucceed(row, m1, m2);
    SecondTakesAgain(row, m1, m2);
    OneSetpointPoint(row, m1, m2);
    RowsConservedIff("EMS", [row, row], [m1, m2], []);
    ResultRegisters("EMS", [row, row], [m1, m2], []);
  }

  lemma SetpointsSucceed(row: IecRow, m1: ModbusRow, m2: ModbusRow)
    requires ClassOf(row) == Setpoint && m1.regClass == m2.regClass == 3
    requires row.name.key == m1.name.key == m2.name.key && m1.address == m2.address == Expected(row.address)
    ensures Succeeds("EMS", [row, row], [m1, m2], []) && NoRowLost([row, row], [m1, m2])
  {
    NothingReadOnly(row);
    BothSetpointsTake(row, m1, m2);
  }

  lemma SecondTakesAgain(row: IecRow, m1: ModbusRow, m2: ModbusRow)
    requires ClassOf(row) == Setpoint && m1.regClass == m2.regClass == 3
    requires row.name.key == m1.name.key == m2.name.key && m1.address == m2.address == Expected(row.address)
    ensures !NoneTakenAgain("EMS", [row, row], [m1, m2])
  {
    var iec := [row, row];
    BothSetpointsTake(row, m1, m2);
    assert iec[..1] == [row] && [row][0] == row;
    assert TakesAgain("EMS", iec[..1], [m1, m2], iec[1]);
  }

  lemma NothingReadOnly(row: IecRow)
    requires ClassOf(row) == Setpoint
    ensures ReadOnly([row, row]) == []
  {
    assert [row, row][..1] == [row] && [row][..0] == [];
    assert ReadOnly([row]) == [];
  }

  lemma BothSetpointsTake(row: IecRow, m1: ModbusRow, m2: ModbusRow)
    requires ClassOf(row) == Setpoint && m1.regClass == m2.regClass == 3
    requires row.name.key == m1.name.key == m2.name.key && m1.address == m2.address == Expected(row.address)
    ensures First("EMS", [row], [m1, m2]).rest == [m2] && First("EMS", [row], [m1, m2]).error.None?
    ensures var st := First("EMS", [row, row], [m1, m2]);
            st.rest == [] && st.error.None? && row.address in st.points
  {
    TwoOfClass(m1, m2, 3);
    assert [row, row][..1] == [row] && [row][..0] == [];
    var s0 := First("EMS", [], [m1, m2]);
    var s1 := First("EMS", [row], [m1, m2]);
    assert s0.rest == [m1, m2] && s1 == Step1("EMS", ByAddress([m1, m2]), s0, row);
    assert s1.rest == [m2];
    assert First("EMS", [row, row], [m1, m2]) == Step1("EMS", ByAddress([m1, m2]), s1, row);
  }

  lemma NoOtherPools(row: IecRow, m1: ModbusRow, m2: ModbusRow, claimed: map<int, int>, points: map<int, JoinedPoint>)
    requires ClassOf(row) == Setpoint && m1.regClass == m2.regClass == 3
    ensures Second("EMS", [row, row], [m1, m2], claimed, points) == Pass2([], [], [], points, [])
  {
    TwoOfClass(m1, m2, 2);
    TwoOfClass(m1, m2, 4);
    assert [row, row][..1] == [row] && [row][..0] == [];
    assert Second("EMS", [row], [m1, m2], claimed, points) == Second("EMS", [], [m1, m2], claimed, points);
  }

  lemma NoSetpointLeft(row: IecRow, m1: ModbusRow, m2: ModbusRow)
    requires ClassOf(row) == Setpoint && m1.regClass == m2.regClass == 3
    requires row.name.key == m1.name.key == m2.name.key && m1.address == m2.address == Expected(row.address)
    ensures LeftRows("EMS", [row, row], [m1, m2]) == []
    ensures PassPoints("EMS", [row, row], [m1, m2]) == First("EMS", [row, row], [m1, m2]).points
  {
    BothSetpointsTake(row, m1, m2);
    var first, left := First("EMS", [row, row], [m1, m2]), LeftRows("EMS", [row, row], [m1, m2]);
    NoOtherPools(row, m1, m2, first.claimed, first.points);
    LeftIsRest("EMS", [row, row], [m1, m2]);
    assert |multiset(left)| == |left|;
  }

  lemma OneSetpointPoint(row: IecRow, m1: ModbusRow, m2: ModbusRow)
    requires ClassOf(row) == Setpoint && m1.regClass == m2.regClass == 3
    requires row.name.key == m1.name.key == m2.name.key && m1.address == m2.address == Expected(row.address)
    ensures LeftRows("EMS", [row, row], [m1, m2]) == []
    ensures OnPoints(PassPoints("EMS", [row, row], [m1, m2])) == multiset{RowRegister(m1)}
  {
    NoSetpointLeft(row, m1, m2);
    BothSetpointsTake(row, m1, m2);
    FirstPlaces("EMS", [row, row], [m1, m2]);
    OneFormulaPoint([row, row], First("EMS", [row, row], [m1, m2]).points, row.address);
  }

  lemma OneFormulaPoint(iec: seq<IecRow>, points: map<int, JoinedPoint>, a: int)
    requires OnFormulaPoints(iec, points) && a in points && forall row :: row in iec ==> row.address == a
    ensures OnPoints(points) == multiset{Register(3, Expected(a))}
  {
    assert forall b :: b in points ==> b == a;
    OnPointsWithout(points, a);
    assert points - {a} == map[];
  }
}
