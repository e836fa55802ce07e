/** Where every Modbus register ends up: on a point, in the report, overwritten with its point, or taken
    for a setpoint that already has its register. */
module JoinRegisters {
  import opened Prelude
  import opened Rows
  import opened JoinSpec
  import opened JoinTheorems
  import opened JoinRanks

  datatype Register = Register(regClass: int, address: int)

  function RegisterOf(p: JoinedPoint): multiset<Register> {
    if p.modbusClass.Some? && p.modbusAddr.Some? then multiset{Register(p.modbusClass.value, p.modbusAddr.value)} else multiset{}
  }

  function RowRegister(m: ModbusRow): Register {
    Register(m.regClass, m.address)
  }

  function Registers(rows: seq<ModbusRow>): seq<Register> {
    Mapped(RowRegister, rows)
  }

  /** The registers the points carry. */
  ghost function OnPoints(points: map<int, JoinedPoint>): multiset<Register>
    decreases points.Keys
  {
    if a :| a in points then OnPoints(points - {a}) + RegisterOf(points[a]) else multiset{}
  }

  lemma OnSomePoint(points: map<int, JoinedPoint>) returns (b: int)
    requires exists a :: a in points
    ensures b in points && OnPoints(points) == OnPoints(points - {b}) + RegisterOf(points[b])
  {
    b :| b in points && OnPoints(points) == OnPoints(points - {b}) + RegisterOf(points[b]);
  }

  lemma Swap(t: multiset<Register>, x: multiset<Register>, y: multiset<Register>)
    ensures t + x + y == t + y + x
  {
  }

  lemma {:induction false} OnPointsWithout(points: map<int, JoinedPoint>, a: int)
    requires a in points
    ensures OnPoints(points) == OnPoints(points - {a}) + RegisterOf(points[a])
    decreases points.Keys
  {
    var b := OnSomePoint(points);
    if b != a {
      OnPointsWithout(points - {b}, a);
      OnPointsWithout(points - {a}, b);
      assert points - {b} - {a} == points - {a} - {b};
      Swap(OnPoints(points - {a} - {b}), RegisterOf(points[a]), RegisterOf(points[b]));
    }
  }

  lemma OnNewPoint(points: map<int, JoinedPoint>, a: int, p: JoinedPoint)
    requires a !in points
    ensures OnPoints(points[a := p]) == OnPoints(points) + RegisterOf(p)
  {
    OnPointsWithout(points[a := p], a);
    assert points[a := p] - {a} == points;
  }

  /** Putting a point under an address replaces what was there. */
  lemma OnPointsSet(points: map<int, JoinedPoint>, a: int, p: JoinedPoint)
    requires a in points
    ensures OnPoints(points[a := p]) + RegisterOf(points[a]) == OnPoints(points) + RegisterOf(p)
  {
    OnPointsWithout(points[a := p], a);
    OnPointsWithout(points, a);
    assert points[a := p] - {a} == points - {a};
    Swap(OnPoints(points - {a}), RegisterOf(p), RegisterOf(points[a]));
  }

  lemma {:induction false} OnPointsSame(p: map<int, JoinedPoint>, q: map<int, JoinedPoint>)
    requires p.Keys == q.Keys && forall a :: a in p ==> RegisterOf(p[a]) == RegisterOf(q[a])
    ensures OnPoints(p) == OnPoints(q)
    decreases p.Keys
  {
    if a :| a in p {
      OnPointsWithout(p, a);
      OnPointsWithout(q, a);
      OnPointsSame(p - {a}, q - {a});
    } else {
      assert forall a :: a !in q;
    }
  }

  lemma RegistersAppend(rows: seq<ModbusRow>, m: ModbusRow)
    ensures Registers(rows + [m]) == Registers(rows) + [RowRegister(m)]
  {
  }

  // ---- The setpoint pass ----

  ghost predicate SetpointAt(iec: seq<IecRow>, address: int) {
    exists i :: 0 <= i < |iec| && ClassOf(iec[i]) == Setpoint && iec[i].address == address
  }

  lemma SetpointAtAppend(iec: seq<IecRow>, row: IecRow, address: int)
    ensures SetpointAt(iec + [row], address)
            <==> SetpointAt(iec, address) || (ClassOf(row) == Setpoint && row.address == address)
  {
    var longer := iec + [row];
    if SetpointAt(iec, address) {
      var i :| 0 <= i < |iec| && ClassOf(iec[i]) == Setpoint && iec[i].address == address;
      assert longer[i] == iec[i];
    }
    assert longer[|iec|] == row;
  }

  lemma SpokenIsSetpoint(iec: seq<IecRow>, address: int)
    ensures Spoken(iec, Expected(address)) <==> SetpointAt(iec, address)
  {
  }

  /** Setpoint points, and nothing else, each on its formula register. */
  ghost predicate OnFormulaPoints(iec: seq<IecRow>, points: map<int, JoinedPoint>) {
    && (forall a :: a in points <==> SetpointAt(iec, a))
    && (forall a :: a in points ==> RegisterOf(points[a]) == multiset{Register(3, Expected(a))})
  }

  /** The readback addresses of the setpoint rows. */
  function Claimed(iec: seq<IecRow>): map<int, int> {
    if iec == [] then map[]
    else
      var claimed, row := Claimed(iec[..|iec| - 1]), iec[|iec| - 1];
      if ClassOf(row) == Setpoint && ReadbackOf(row.address).Some? then claimed[ReadbackOf(row.address).value := row.address]
      else claimed
  }

  lemma FormulaPointsMore(iec: seq<IecRow>, points: map<int, JoinedPoint>, row: IecRow, p: JoinedPoint)
    requires OnFormulaPoints(iec, points)
    requires ClassOf(row) == Setpoint ==> RegisterOf(p) == multiset{Register(3, Expected(row.address))}
    ensures OnFormulaPoints(iec + [row], if ClassOf(row) == Setpoint then points[row.address := p] else points)
  {
    forall a
      ensures SetpointAt(iec + [row], a) <==> SetpointAt(iec, a) || (ClassOf(row) == Setpoint && row.address == a)
    {
      SetpointAtAppend(iec, row, a);
    }
  }

  lemma {:induction false} FirstPlaces(device: string, iec: seq<IecRow>, modbus: seq<ModbusRow>)
    requires First(device, iec, modbus).error.None?
    ensures OnFormulaPoints(iec, First(device, iec, modbus).points)
    ensures First(device, iec, modbus).claimed == Claimed(iec)
  {
    if iec != [] {
      var init, row := iec[..|iec| - 1], iec[|iec| - 1];
      assert iec == init + [row];
      FirstPlaces(device, init, modbus);
      var st := First(device, init, modbus);
      var placed := StepPlaces(device, ByAddress(modbus), st, row);
      StepPlacesRegister(device, init, modbus, row, placed);
      if placed.Some? {
        FormulaPointsMore(init, st.points, row, NewPoint(device, row, placed, ReadbackOf(row.address)));
      } else {
        FormulaPointsMore(init, st.points, row, NewPoint(device, row, None, None));
      }
    }
  }

  lemma StepPlacesRegister(device: string, iec: seq<IecRow>, modbus: seq<ModbusRow>, row: IecRow,
                           placed: Option<ModbusRow>)
    requires var st := First(device, iec, modbus);
             var n := Step1(device, ByAddress(modbus), st, row);
             && st.error.None? && n.error.None?
             && if placed.Some? then PlacesOne(device, st, n, row, placed.value) else SamePlaces(st, n)
    ensures placed.Some? <==> ClassOf(row) == Setpoint
    ensures placed.Some? ==> placed.value.address == Expected(row.address)
  {
    var st := First(device, iec, modbus);
    var n := Step1(device, ByAddress(modbus), st, row);
    if ClassOf(row) == Setpoint {
      assert |n.claims| == |st.claims| + 1;
      assert n.claims[|st.claims|].modbus.value.address == Expected(row.address);
    }
  }

  /** A setpoint at an address a setpoint before it has takes another row out of the pool. */
  ghost predicate TakesAgain(device: string, iec: seq<IecRow>, modbus: seq<ModbusRow>, row: IecRow) {
    && ClassOf(row) == Setpoint && SetpointAt(iec, row.address)
    && Finds(First(device, iec, modbus).rest, ByAddress(modbus), row)
  }

  /** The registers taken for setpoints that have a point with that register already. */
  ghost function TakenAgain(device: string, iec: seq<IecRow>, modbus: seq<ModbusRow>): multiset<Register> {
    if iec == [] then multiset{}
    else
      var init, row := iec[..|iec| - 1], iec[|iec| - 1];
      TakenAgain(device, init, modbus)
      + if TakesAgain(device, init, modbus, row) then multiset{Register(3, Expected(row.address))} else multiset{}
  }

  /** Points and leftovers of the setpoint pass, and what repeated setpoints took, are the class 3
      registers, each once. */
  lemma {:induction false} FirstAccounted(device: string, iec: seq<IecRow>, modbus: seq<ModbusRow>)
    requires First(device, iec, modbus).error.None?
    ensures var st := First(device, iec, modbus);
            OnPoints(st.points) + multiset(Registers(st.rest)) + TakenAgain(device, iec, modbus)
            == multiset(Registers(OfClass(modbus, 3)))
  {
    if iec != [] {
      var init, row := iec[..|iec| - 1], iec[|iec| - 1];
      assert iec == init + [row];
      FirstAccounted(device, init, modbus);
      if ClassOf(row) == Setpoint {
        FirstStepAccounted(device, init, modbus, row);
        var st, n := First(device, init, modbus), First(device, iec, modbus);
        Moved(OnPoints(st.points), multiset(Registers(st.rest)), TakenAgain(device, init, modbus),
              OnPoints(n.points), multiset(Registers(n.rest)), TakenAgain(device, iec, modbus),
              if TakesAgain(device, init, modbus, row) then multiset{Register(3, Expected(row.address))} else multiset{},
              multiset(Registers(OfClass(modbus, 3))));
      }
    }
  }

  lemma Moved(x: multiset<Register>, y: multiset<Register>, g: multiset<Register>, u: multiset<Register>,
              v: multiset<Register>, h: multiset<Register>, d: multiset<Register>, total: multiset<Register>)
    requires x + y + g == total && u + v + d == x + y && h == g + d
    ensures u + v + h == total
  {
    assert u + v + (g + d) == (u + v + d) + g;
  }

  lemma FirstStepAccounted(device: string, iec: seq<IecRow>, modbus: seq<ModbusRow>, row: IecRow)
    requires ClassOf(row) == Setpoint && First(device, iec, modbus).error.None?
    requires Step1(device, ByAddress(modbus), First(device, iec, modbus), row).error.None?
    ensures var st := First(device, iec, modbus);
            var n := Step1(device, ByAddress(modbus), st, row);
            OnPoints(n.points) + multiset(Registers(n.rest))
            + (if TakesAgain(device, iec, modbus, row) then multiset{Register(3, Expected(row.address))} else multiset{})
            == OnPoints(st.points) + multiset(Registers(st.rest))
  {
    RestAfter(device, iec, modbus, row);
    PointsAfter(device, iec, modbus, row);
    FirstAskFinds(device, iec, modbus, row);
  }

  lemma FirstAskFinds(device: string, iec: seq<IecRow>, modbus: seq<ModbusRow>, row: IecRow)
    requires ClassOf(row) == Setpoint && First(device, iec, modbus).error.None?
    requires Step1(device, ByAddress(modbus), First(device, iec, modbus), row).error.None?
    ensures !SetpointAt(iec, row.address) ==> Finds(First(device, iec, modbus).rest, ByAddress(modbus), row)
  {
    if !SetpointAt(iec, row.address) {
      SpokenIsSetpoint(iec, row.address);
      StepTakesOne(device, iec, modbus, row);
    }
  }

  /** The registers left after a step. */
  lemma RestAfter(device: string, iec: seq<IecRow>, modbus: seq<ModbusRow>, row: IecRow)
    requires ClassOf(row) == Setpoint && First(device, iec, modbus).error.None?
    requires Step1(device, ByAddress(modbus), First(device, iec, modbus), row).error.None?
    ensures var st := First(device, iec, modbus);
            var n := Step1(device, ByAddress(modbus), st, row);
            multiset(Registers(n.rest)) + (if Finds(st.rest, ByAddress(modbus), row)
                                           then multiset{Register(3, Expected(row.address))} else multiset{})
            == multiset(Registers(st.rest))
  {
    var st := First(device, iec, modbus);
    var n := Step1(device, ByAddress(modbus), st, row);
    StepRemoves(device, ByAddress(modbus), st, row);
    if Finds(st.rest, ByAddress(modbus), row) {
      var m := n.claims[|st.claims|].modbus.value;
      MappedSame(RowRegister, st.rest, n.rest + [m]);
      RegistersAppend(n.rest, m);
    }
  }

  /** The registers on the points after a step: a repeated setpoint gets its register again. */
  lemma PointsAfter(device: string, iec: seq<IecRow>, modbus: seq<ModbusRow>, row: IecRow)
    requires ClassOf(row) == Setpoint && First(device, iec, modbus).error.None?
    requires Step1(device, ByAddress(modbus), First(device, iec, modbus), row).error.None?
    ensures var st := First(device, iec, modbus);
            var n := Step1(device, ByAddress(modbus), st, row);
            OnPoints(n.points)
            == OnPoints(st.points) + if SetpointAt(iec, row.address) then multiset{}
                                     else multiset{Register(3, Expected(row.address))}
  {
    var st := First(device, iec, modbus);
    var n := Step1(device, ByAddress(modbus), st, row);
    var placed := StepPlaces(device, ByAddress(modbus), st, row);
    StepPlacesRegister(device, iec, modbus, row, placed);
    FirstPlaces(device, iec, modbus);
    PlacedRegister(device, st, n, row, placed.value);
    if SetpointAt(iec, row.address) {
      Cancel(OnPoints(n.points), OnPoints(st.points), multiset{Register(3, Expected(row.address))});
    }
  }

  lemma Cancel(x: multiset<Register>, y: multiset<Register>, r: multiset<Register>)
    requires x + r == y + r
    ensures x == y
  {
    assert x == x + r - r && y == y + r - r;
  }

  lemma PlacedRegister(device: string, st: Pass1, n: Pass1, row: IecRow, m: ModbusRow)
    requires PlacesOne(device, st, n, row, m) && m.address == Expected(row.address)
    ensures row.address in st.points ==>
              OnPoints(n.points) + RegisterOf(st.points[row.address]) == OnPoints(st.points) + multiset{Register(3, m.address)}
    ensures row.address !in st.points ==> OnPoints(n.points) == OnPoints(st.points) + multiset{Register(3, m.address)}
  {
    var p := NewPoint(device, row, Some(m), ReadbackOf(row.address));
    assert n.points == st.points[row.address := p] && RegisterOf(p) == multiset{Register(3, m.address)};
    if row.address in st.points {
      OnPointsSet(st.points, row.address, p);
    } else {
      OnNewPoint(st.points, row.address, p);
    }
  }

  // ---- When no setpoint takes another row ----

  /** Every repeated setpoint finds the pool without a row for it. */
  ghost predicate NoneTakenAgain(device: string, iec: seq<IecRow>, modbus: seq<ModbusRow>) {
    forall i :: 0 <= i < |iec| ==> !TakesAgain(device, iec[..i], modbus, iec[i])
  }

  lemma {:induction false} NothingTakenAgainIff(device: string, iec: seq<IecRow>, modbus: seq<ModbusRow>)
    ensures TakenAgain(device, iec, modbus) == multiset{} <==> NoneTakenAgain(device, iec, modbus)
  {
    if iec != [] {
      var init, row := iec[..|iec| - 1], iec[|iec| - 1];
      NothingTakenAgainIff(device, init, modbus);
      assert forall i :: 0 <= i < |init| ==> init[..i] == iec[..i] && init[i] == iec[i];
    }
  }

  /** Setpoints at distinct addresses take nothing again. */
  lemma DistinctTakeOnce(device: string, iec: seq<IecRow>, modbus: seq<ModbusRow>)
    requires DistinctAddresses(iec)
    ensures NoneTakenAgain(device, iec, modbus)
  {
  }

  lemma {:induction false} PrefixSucceeds(device: string, iec: seq<IecRow>, modbus: seq<ModbusRow>, i: nat)
    requires i <= |iec| && First(device, iec, modbus).error.None?
    ensures First(device, iec[..i], modbus).error.None?
  {
    if i == |iec| {
      assert iec[..i] == iec;
    } else {
      var init := iec[..|iec| - 1];
      PrefixSucceeds(device, init, modbus, i);
      assert init[..i] == iec[..i];
    }
  }

  /** Where class 3 registers differ, a formula address has one register, and the first setpoint there
      took it. */
  lemma DifferingFindsNothing(device: string, iec: seq<IecRow>, modbus: seq<ModbusRow>, row: IecRow)
    requires AddressesDiffer(OfClass(modbus, 3)) && First(device, iec, modbus).error.None?
    requires Step1(device, ByAddress(modbus), First(device, iec, modbus), row).error.None?
    ensures !TakesAgain(device, iec, modbus, row)
  {
    if ClassOf(row) == Setpoint && SetpointAt(iec, row.address) {
      var st := First(device, iec, modbus);
      SpokenIsSetpoint(iec, row.address);
      RepeatedKeepsRest(device, iec, modbus, row);
      FoundIsFewer(device, ByAddress(modbus), st, row);
    }
  }

  lemma FoundIsFewer(device: string, index: map<int, ModbusRow>, st: Pass1, row: IecRow)
    requires forall m :: m in st.rest ==> m.regClass == 3
    requires forall a :: a in index ==> index[a].regClass == 3 && index[a].address == a
    requires ClassOf(row) == Setpoint && st.error.None? && Step1(device, index, st, row).error.None?
    ensures Finds(st.rest, index, row) ==> Step1(device, index, st, row).rest != st.rest
  {
    StepRemoves(device, index, st, row);
    var n := Step1(device, index, st, row);
    assert |multiset(st.rest)| == |st.rest| && |multiset(n.rest)| == |n.rest|;
  }

  lemma PrefixStep(device: string, iec: seq<IecRow>, modbus: seq<ModbusRow>, i: nat)
    requires i < |iec| && First(device, iec, modbus).error.None?
    ensures First(device, iec[..i], modbus).error.None?
    ensures Step1(device, ByAddress(modbus), First(device, iec[..i], modbus), iec[i]).error.None?
  {
    PrefixSucceeds(device, iec, modbus, i);
    PrefixSucceeds(device, iec, modbus, i + 1);
    assert iec[..i + 1][..i] == iec[..i];
  }

  lemma DifferingTakeOnce(device: string, iec: seq<IecRow>, modbus: seq<ModbusRow>)
    requires AddressesDiffer(OfClass(modbus, 3)) && First(device, iec, modbus).error.None?
    ensures NoneTakenAgain(device, iec, modbus)
  {
    forall i | 0 <= i < |iec|
      ensures !TakesAgain(device, iec[..i], modbus, iec[i])
    {
      PrefixStep(device, iec, modbus, i);
      DifferingFindsNothing(device, iec[..i], modbus, iec[i]);
    }
  }

  lemma RepeatedKeepsRest(device: string, iec: seq<IecRow>, modbus: seq<ModbusRow>, row: IecRow)
    requires AddressesDiffer(OfClass(modbus, 3)) && ClassOf(row) == Setpoint && Spoken(iec, Expected(row.address))
    requires First(device, iec, modbus).error.None?
    requires Step1(device, ByAddress(modbus), First(device, iec, modbus), row).error.None?
    ensures Step1(device, ByAddress(modbus), First(device, iec, modbus), row).rest == First(device, iec, modbus).rest
  {
    SetpointPassSucceedsIff(device, iec, modbus);
    FitsDecidesStep(device, iec, modbus, row);
    AvailableAppend(iec, modbus, row);
    AvailableDiffers(iec, modbus);
    ExcludingKeepsOthers(Available(iec, modbus), Expected(row.address));
  }

  lemma AvailableAppend(iec: seq<IecRow>, modbus: seq<ModbusRow>, row: IecRow)
    requires ClassOf(row) == Setpoint
    ensures Available(iec + [row], modbus) == Excluding(Available(iec, modbus), Expected(row.address))
  {
    assert (iec + [row])[..|iec|] == iec;
  }

  // ---- The second pass ----

  /** The registers of the points that later rows at their addresses replace. */
  function Overwritten(device: string, iec: seq<IecRow>, modbus: seq<ModbusRow>, claimed: map<int, int>,
                       known: map<int, JoinedPoint>): multiset<Register>
  {
    if iec == [] then multiset{}
    else
      var init, row := iec[..|iec| - 1], iec[|iec| - 1];
      var before := Second(device, init, modbus, claimed, known).points;
      Overwritten(device, init, modbus, claimed, known)
      + if ClassOf(row) != Setpoint && row.address in before then RegisterOf(before[row.address]) else multiset{}
  }

  function Taken(m: Option<ModbusRow>): multiset<Register> {
    if m.Some? then multiset{RowRegister(m.value)} else multiset{}
  }

  lemma ClaimRegisters(claims: seq<Claim>, c: Claim)
    ensures multiset(Registers(RowsOf(claims + [c]))) == multiset(Registers(RowsOf(claims))) + Taken(c.modbus)
  {
    RowsOfAppend(claims, c);
    if c.modbus.Some? {
      RegistersAppend(RowsOf(claims), c.modbus.value);
    }
  }

  lemma NewPointRegister(device: string, row: IecRow, m: Option<ModbusRow>)
    requires m.Some? ==> m.value.regClass in {2, 4}
    ensures RegisterOf(NewPoint(device, row, m, None)) == Taken(m)
  {
  }

  lemma Regroup(x: multiset<Register>, o: multiset<Register>, r: multiset<Register>, y: multiset<Register>,
                t: multiset<Register>, k: multiset<Register>, c: multiset<Register>)
    requires x + o == k + c && y + r == x + t
    ensures y + (o + r) == k + (c + t)
  {
    assert y + (o + r) == (y + r) + o == (x + o) + t;
  }

  lemma {:induction false} SecondAccounted(device: string, iec: seq<IecRow>, modbus: seq<ModbusRow>,
                                           claimed: map<int, int>, known: map<int, JoinedPoint>)
    ensures var st := Second(device, iec, modbus, claimed, known);
            OnPoints(st.points) + Overwritten(device, iec, modbus, claimed, known)
            == OnPoints(known) + multiset(Registers(RowsOf(st.claims)))
  {
    if iec != [] {
      var init, row := iec[..|iec| - 1], iec[|iec| - 1];
      SecondAccounted(device, init, modbus, claimed, known);
      var st := Second(device, init, modbus, claimed, known);
      var m := Step2Points(device, claimed, st, row);
      if ClassOf(row) != Setpoint {
        var p := NewPoint(device, row, m, None);
        NewPointRegister(device, row, m);
        ClaimRegisters(st.claims, Claim(row, m));
        if row.address in st.points {
          OnPointsSet(st.points, row.address, p);
        } else {
          OnNewPoint(st.points, row.address, p);
        }
        Regroup(OnPoints(st.points), Overwritten(device, init, modbus, claimed, known),
                if row.address in st.points then RegisterOf(st.points[row.address]) else multiset{},
                OnPoints(st.points[row.address := p]), Taken(m), OnPoints(known), multiset(Registers(RowsOf(st.claims))));
      }
    }
  }

  // ---- Both passes ----

  /** The Modbus rows the join reports as unmatched. */
  function LeftRows(device: string, iec: seq<IecRow>, modbus: seq<ModbusRow>): seq<ModbusRow> {
    var first := First(device, iec, modbus);
    AllLeft(modbus, first, Second(device, iec, modbus, first.claimed, first.points))
  }

  function AllOverwritten(device: string, iec: seq<IecRow>, modbus: seq<ModbusRow>): multiset<Register> {
    var first := First(device, iec, modbus);
    Overwritten(device, iec, modbus, first.claimed, first.points)
  }

  function PassPoints(device: string, iec: seq<IecRow>, modbus: seq<ModbusRow>): map<int, JoinedPoint> {
    var first := First(device, iec, modbus);
    Second(device, iec, modbus, first.claimed, first.points).points
  }

  lemma SecondRegisters(device: string, iec: seq<IecRow>, modbus: seq<ModbusRow>, claimed: map<int, int>,
                        known: map<int, JoinedPoint>)
    ensures var st := Second(device, iec, modbus, claimed, known);
            multiset(Registers(RowsOf(st.claims))) + multiset(Registers(st.alarms)) + multiset(Registers(st.telemetry))
            == multiset(Registers(OfClass(modbus, 2))) + multiset(Registers(OfClass(modbus, 4)))
  {
    var st := Second(device, iec, modbus, claimed, known);
    SecondConserves(device, iec, modbus, claimed, known);
    MappedSame(RowRegister, RowsOf(st.claims) + st.alarms + st.telemetry, OfClass(modbus, 2) + OfClass(modbus, 4));
    MappedConcat(RowRegister, RowsOf(st.claims) + st.alarms, st.telemetry);
    MappedConcat(RowRegister, RowsOf(st.claims), st.alarms);
    MappedConcat(RowRegister, OfClass(modbus, 2), OfClass(modbus, 4));
  }

  /** The points of the second pass, what it overwrote, and what its pools have left are the points it
      started from and the class 2 and class 4 registers, each once. */
  lemma SecondPassAccounted(device: string, iec: seq<IecRow>, modbus: seq<ModbusRow>, claimed: map<int, int>,
                            known: map<int, JoinedPoint>)
    ensures var st := Second(device, iec, modbus, claimed, known);
            OnPoints(st.points) + Overwritten(device, iec, modbus, claimed, known)
            + multiset(Registers(st.alarms)) + multiset(Registers(st.telemetry))
            == OnPoints(known) + multiset(Registers(OfClass(modbus, 2))) + multiset(Registers(OfClass(modbus, 4)))
  {
    var st := Second(device, iec, modbus, claimed, known);
    SecondAccounted(device, iec, modbus, claimed, known);
    SecondRegisters(device, iec, modbus, claimed, known);
    Both(OnPoints(st.points), Overwritten(device, iec, modbus, claimed, known), OnPoints(known),
         multiset(Registers(RowsOf(st.claims))), multiset(Registers(st.alarms)), multiset(Registers(st.telemetry)),
         multiset(Registers(OfClass(modbus, 2))), multiset(Registers(OfClass(modbus, 4))));
  }

  lemma Both(s: multiset<Register>, o: multiset<Register>, f: multiset<Register>, r: multiset<Register>,
             a: multiset<Register>, t: multiset<Register>, c2: multiset<Register>, c4: multiset<Register>)
    requires s + o == f + r && r + a + t == c2 + c4
    ensures s + o + a + t == f + c2 + c4
  {
    assert s + o + a + t == f + (r + a + t);
  }

  lemma LeftRegisters(device: string, iec: seq<IecRow>, modbus: seq<ModbusRow>)
    ensures var first := First(device, iec, modbus);
            var second := Second(device, iec, modbus, first.claimed, first.points);
            multiset(Registers(LeftRows(device, iec, modbus)))
            == multiset(Registers(second.alarms)) + multiset(Registers(second.telemetry)) + multiset(Registers(first.rest))
  {
    var first := First(device, iec, modbus);
    var second := Second(device, iec, modbus, first.claimed, first.points);
    LeftIsRest(device, iec, modbus);
    MappedSame(RowRegister, LeftRows(device, iec, modbus), second.alarms + second.telemetry + first.rest);
    MappedConcat(RowRegister, second.alarms + second.telemetry, first.rest);
    MappedConcat(RowRegister, second.alarms, second.telemetry);
  }

  lemma PoolRegisters(modbus: seq<ModbusRow>)
    ensures multiset(Registers(Poolable(modbus)))
            == multiset(Registers(OfClass(modbus, 2))) + multiset(Registers(OfClass(modbus, 3))) + multiset(Registers(OfClass(modbus, 4)))
  {
    PoolsPartition(modbus);
    MappedSame(RowRegister, Poolable(modbus), OfClass(modbus, 2) + OfClass(modbus, 3) + OfClass(modbus, 4));
    MappedConcat(RowRegister, OfClass(modbus, 2) + OfClass(modbus, 3), OfClass(modbus, 4));
    MappedConcat(RowRegister, OfClass(modbus, 2), OfClass(modbus, 3));
  }

  lemma Total(f: multiset<Register>, rest: multiset<Register>, g: multiset<Register>, c3: multiset<Register>,
              s: multiset<Register>, o: multiset<Register>, r: multiset<Register>, a: multiset<Register>,
              t: multiset<Register>, c2: multiset<Register>, c4: multiset<Register>)
    requires f + rest + g == c3 && s + o == f + r && r + a + t == c2 + c4
    ensures s + (a + t + rest) + (o + g) == c2 + c3 + c4
  {
    assert s + (a + t + rest) + (o + g) == (s + o) + (a + t + rest) + g == (f + rest + g) + (r + a + t);
  }

  /** The registers that end neither on a point nor in the report. */
  ghost function Lost(device: string, iec: seq<IecRow>, modbus: seq<ModbusRow>): multiset<Register> {
    AllOverwritten(device, iec, modbus) + TakenAgain(device, iec, modbus)
  }

  /** Every register is on a point, or reported, or was overwritten with its point, or was taken for a
      setpoint that had one. */
  lemma RegistersAccounted(device: string, iec: seq<IecRow>, modbus: seq<ModbusRow>)
    requires First(device, iec, modbus).error.None?
    ensures OnPoints(PassPoints(device, iec, modbus)) + multiset(Registers(LeftRows(device, iec, modbus)))
            + Lost(device, iec, modbus) == multiset(Registers(Poolable(modbus)))
  {
    var first := First(device, iec, modbus);
    var second := Second(device, iec, modbus, first.claimed, first.points);
    FirstAccounted(device, iec, modbus);
    SecondAccounted(device, iec, modbus, first.claimed, first.points);
    SecondRegisters(device, iec, modbus, first.claimed, first.points);
    LeftRegisters(device, iec, modbus);
    PoolRegisters(modbus);
    Total(OnPoints(first.points), multiset(Registers(first.rest)), TakenAgain(device, iec, modbus),
          multiset(Registers(OfClass(modbus, 3))),
          OnPoints(second.points), AllOverwritten(device, iec, modbus), multiset(Registers(RowsOf(second.claims))),
          multiset(Registers(second.alarms)), multiset(Registers(second.telemetry)),
          multiset(Registers(OfClass(modbus, 2))), multiset(Registers(OfClass(modbus, 4))));
  }

  // ---- When nothing is overwritten ----

  predicate Other(row: IecRow) {
    ClassOf(row) != Setpoint
  }

  /** Row `i` is given a Modbus row, judged by its rank among the rows of its name before it. */
  predicate TakesWith(iec: seq<IecRow>, modbus: seq<ModbusRow>, claimed: map<int, int>, i: nat)
    requires i < |iec|
  {
    var row, key := iec[i], iec[i].name.key;
    match ClassOf(row)
    case Setpoint => true
    case Alarm => Count(Alarms(iec[..i]), key) < |WithKey(OfClass(modbus, 2), key)|
    case Telemetry => row.address !in claimed && Count(Asking(iec[..i], claimed), key) < |WithKey(OfClass(modbus, 4), key)|
  }

  lemma TakesPrefix(iec: seq<IecRow>, row: IecRow, modbus: seq<ModbusRow>, claimed: map<int, int>, i: nat)
    requires i < |iec|
    ensures TakesWith(iec + [row], modbus, claimed, i) <==> TakesWith(iec, modbus, claimed, i)
  {
    assert (iec + [row])[..i] == iec[..i];
  }

  lemma QueueLeft(asks: seq<IecRow>, rows: seq<ModbusRow>, key: string)
    ensures HeadOf(Rest(asks, rows), key).Some? <==> Count(asks, key) < |WithKey(rows, key)|
  {
    RestQueue(asks, rows, key);
    HeadIsQueueHead(Rest(asks, rows), key);
  }

  lemma FoundIffTakes(device: string, iec: seq<IecRow>, modbus: seq<ModbusRow>, claimed: map<int, int>,
                      known: map<int, JoinedPoint>, row: IecRow)
    requires Other(row)
    ensures Found(claimed, Second(device, iec, modbus, claimed, known), row).Some?
            <==> TakesWith(iec + [row], modbus, claimed, |iec|)
  {
    SecondPassPairsByRank(device, iec, modbus, claimed, known);
    assert (iec + [row])[..|iec|] == iec;
    QueueLeft(Alarms(iec), OfClass(modbus, 2), row.name.key);
    QueueLeft(Asking(iec, claimed), OfClass(modbus, 4), row.name.key);
  }

  /** The last alarm or telemetry row at an address, or -1. */
  function LastOther(iec: seq<IecRow>, address: int): (i: int)
    ensures -1 <= i < |iec|
    ensures i >= 0 ==> Other(iec[i]) && iec[i].address == address
    ensures forall j :: i < j < |iec| && Other(iec[j]) ==> iec[j].address != address
  {
    if iec == [] then -1
    else if Other(iec[|iec| - 1]) && iec[|iec| - 1].address == address then |iec| - 1
    else LastOther(iec[..|iec| - 1], address)
  }

  /** Whether there is a point at `a`, and whether it carries a register. */
  predicate PointSays(points: map<int, JoinedPoint>, a: int, present: bool, carries: bool) {
    (a in points <==> present) && (a in points ==> (RegisterOf(points[a]) != multiset{} <==> carries))
  }

  /** What stands at an address after the second pass: the point of the last row there, or the
      setpoint's point if there is none. */
  lemma {:induction false} PointAt(device: string, iec: seq<IecRow>, modbus: seq<ModbusRow>, claimed: map<int, int>,
                                   known: map<int, JoinedPoint>, a: int)
    requires forall x :: x in known ==> RegisterOf(known[x]) != multiset{}
    ensures var i := LastOther(iec, a);
            PointSays(Second(device, iec, modbus, claimed, known).points, a, i >= 0 || a in known,
                      if i >= 0 then TakesWith(iec, modbus, claimed, i) else true)
  {
    if iec != [] {
      var init, row := iec[..|iec| - 1], iec[|iec| - 1];
      assert iec == init + [row];
      PointAt(device, init, modbus, claimed, known, a);
      var st := Second(device, init, modbus, claimed, known);
      var m := Step2Points(device, claimed, st, row);
      if Other(row) && row.address == a {
        NewPointRegister(device, row, m);
        FoundIffTakes(device, init, modbus, claimed, known, row);
      } else if LastOther(init, a) >= 0 {
        TakesPrefix(init, row, modbus, claimed, LastOther(init, a));
      }
    }
  }

  /** Alarm and telemetry rows stand at no setpoint's address, and an earlier one at the same
      address takes no row. */
  ghost predicate SafeRows(iec: seq<IecRow>, modbus: seq<ModbusRow>, claimed: map<int, int>, setpoints: set<int>) {
    forall j :: 0 <= j < |iec| && Other(iec[j]) ==> SafeRow(iec, modbus, claimed, setpoints, j)
  }

  ghost predicate SafeRow(iec: seq<IecRow>, modbus: seq<ModbusRow>, claimed: map<int, int>, setpoints: set<int>, j: nat)
    requires j < |iec|
  {
    && iec[j].address !in setpoints
    && forall i :: 0 <= i < j && Other(iec[i]) && iec[i].address == iec[j].address ==> !TakesWith(iec, modbus, claimed, i)
  }

  lemma SafeRowsSnoc(iec: seq<IecRow>, row: IecRow, modbus: seq<ModbusRow>, claimed: map<int, int>, setpoints: set<int>)
    ensures SafeRows(iec + [row], modbus, claimed, setpoints)
            <==> SafeRows(iec, modbus, claimed, setpoints)
                 && (Other(row) ==> SafeRow(iec + [row], modbus, claimed, setpoints, |iec|))
  {
    var longer := iec + [row];
    forall j | 0 <= j < |iec|
      ensures SafeRow(longer, modbus, claimed, setpoints, j) <==> SafeRow(iec, modbus, claimed, setpoints, j)
    {
      forall i | 0 <= i < j
        ensures TakesWith(longer, modbus, claimed, i) <==> TakesWith(iec, modbus, claimed, i)
      {
        TakesPrefix(iec, row, modbus, claimed, i);
      }
    }
    assert forall j :: 0 <= j < |iec| ==> longer[j] == iec[j];
  }

  /** The last row at the address decides for all of them. */
  lemma LastDecides(iec: seq<IecRow>, row: IecRow, modbus: seq<ModbusRow>, claimed: map<int, int>, setpoints: set<int>)
    requires Other(row) && SafeRows(iec, modbus, claimed, setpoints)
    ensures var i := LastOther(iec, row.address);
            SafeRow(iec + [row], modbus, claimed, setpoints, |iec|)
            <==> if i >= 0 then !TakesWith(iec, modbus, claimed, i) else row.address !in setpoints
  {
    var longer, last := iec + [row], LastOther(iec, row.address);
    forall i | 0 <= i < |iec|
      ensures TakesWith(longer, modbus, claimed, i) <==> TakesWith(iec, modbus, claimed, i)
    {
      TakesPrefix(iec, row, modbus, claimed, i);
    }
    if last >= 0 {
      assert SafeRow(iec, modbus, claimed, setpoints, last);
      assert longer[last] == iec[last];
    }
    assert forall i :: 0 <= i < |iec| ==> longer[i] == iec[i];
  }

  lemma {:induction false} NothingOverwrittenIff(device: string, iec: seq<IecRow>, modbus: seq<ModbusRow>,
                                                 claimed: map<int, int>,
                                                 known: map<int, JoinedPoint>)
    requires forall x :: x in known ==> RegisterOf(known[x]) != multiset{}
    ensures Overwritten(device, iec, modbus, claimed, known) == multiset{}
            <==> SafeRows(iec, modbus, claimed, known.Keys)
  {
    if iec != [] {
      var init, row := iec[..|iec| - 1], iec[|iec| - 1];
      assert iec == init + [row];
      NothingOverwrittenIff(device, init, modbus, claimed, known);
      SafeRowsSnoc(init, row, modbus, claimed, known.Keys);
      if Other(row) && SafeRows(init, modbus, claimed, known.Keys) {
        PointAt(device, init, modbus, claimed, known, row.address);
        LastDecides(init, row, modbus, claimed, known.Keys);
      }
    }
  }
}
