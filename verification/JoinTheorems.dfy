/** What the join guarantees: formula addresses, conservation of Modbus rows, and exactly when
    its setpoint pass goes through. */
module JoinTheorems {
  import opened Prelude
  import opened Rows
  import opened NamePools
  import opened JoinSpec

  predicate DistinctAddresses(iec: seq<IecRow>) {
    forall i, j :: 0 <= i < j < |iec| ==> iec[i].address != iec[j].address
  }

  function RowsOf(claims: seq<Claim>): seq<ModbusRow> {
    if claims == [] then []
    else
      var init, last := RowsOf(claims[..|claims| - 1]), claims[|claims| - 1].modbus;
      if last.Some? then init + [last.value] else init
  }

  lemma RowsOfAppend(claims: seq<Claim>, c: Claim)
    ensures RowsOf(claims + [c]) == RowsOf(claims) + if c.modbus.Some? then [c.modbus.value] else []
  {
    assert (claims + [c])[..|claims|] == claims;
  }

  lemma {:induction false} OfClassMembers(rows: seq<ModbusRow>, regClass: int)
    ensures forall m :: m in OfClass(rows, regClass) <==> m in rows && m.regClass == regClass
  {
    if rows != [] {
      OfClassMembers(rows[..|rows| - 1], regClass);
      assert rows == rows[..|rows| - 1] + [rows[|rows| - 1]];
    }
  }

  // ---- Setpoints sit where the formula says ----

  predicate OnFormula(modbus: seq<ModbusRow>, c: Claim) {
    && ClassOf(c.iec) == Setpoint
    && c.modbus.Some?
    && c.modbus.value in modbus
    && c.modbus.value.regClass == 3
    && c.modbus.value.address == Expected(c.iec.address)
  }

  lemma {:induction false} FirstRestIsOld(device: string, iec: seq<IecRow>, modbus: seq<ModbusRow>)
    ensures forall m :: m in First(device, iec, modbus).rest ==> m in modbus
  {
    if iec != [] {
      FirstRestIsOld(device, iec[..|iec| - 1], modbus);
    }
  }

  /** Every setpoint that got through holds a register at its formula address. */
  lemma {:induction false} SetpointsOnFormula(device: string, iec: seq<IecRow>, modbus: seq<ModbusRow>)
    ensures forall c :: c in First(device, iec, modbus).claims ==> OnFormula(modbus, c) && c.iec in iec
  {
    if iec != [] {
      var init, row := iec[..|iec| - 1], iec[|iec| - 1];
      SetpointsOnFormula(device, init, modbus);
      FirstRestIsOld(device, init, modbus);
      assert iec == init + [row];
      var st, n := First(device, init, modbus), First(device, iec, modbus);
      if n.error.None? && ClassOf(row) == Setpoint {
        assert n.claims == st.claims + [n.claims[|st.claims|]];
      }
    }
  }

  /** Every setpoint got through. */
  lemma {:induction false} SetpointsClaimed(device: string, iec: seq<IecRow>, modbus: seq<ModbusRow>)
    requires First(device, iec, modbus).error.None?
    ensures forall row :: row in iec && ClassOf(row) == Setpoint ==> ClaimsRow(First(device, iec, modbus).claims, row)
  {
    if iec != [] {
      var init, row := iec[..|iec| - 1], iec[|iec| - 1];
      assert iec == init + [row];
      SetpointsClaimed(device, init, modbus);
      var st := First(device, init, modbus);
      var placed := StepPlaces(device, ByAddress(modbus), st, row);
      if placed.Some? {
        ClaimsMore(st.claims, Claim(row, placed));
      }
    }
  }

  ghost predicate ClaimsRow(claims: seq<Claim>, row: IecRow) {
    exists c :: c in claims && c.iec == row
  }

  lemma ClaimsMore(claims: seq<Claim>, c: Claim)
    ensures ClaimsRow(claims + [c], c.iec)
    ensures forall row :: ClaimsRow(claims, row) ==> ClaimsRow(claims + [c], row)
  {
    assert c in claims + [c];
    forall row | ClaimsRow(claims, row)
      ensures ClaimsRow(claims + [c], row)
    {
      var d :| d in claims && d.iec == row;
      assert d in claims + [c];
    }
  }

  // ---- Conservation ----

  /** The earlier setpoints' formula addresses. */
  ghost predicate Spoken(iec: seq<IecRow>, address: int) {
    exists i :: 0 <= i < |iec| && ClassOf(iec[i]) == Setpoint && Expected(iec[i].address) == address
  }

  lemma SpokenAppend(iec: seq<IecRow>, row: IecRow, address: int)
    ensures Spoken(iec + [row], address)
            <==> Spoken(iec, address) || (ClassOf(row) == Setpoint && Expected(row.address) == address)
  {
    var longer := iec + [row];
    if Spoken(iec, address) {
      var i :| 0 <= i < |iec| && ClassOf(iec[i]) == Setpoint && Expected(iec[i].address) == address;
      assert longer[i] == iec[i];
    }
    assert longer[|iec|] == row;
  }

  /** The pool has a row for a setpoint: one of its name, or else the fallback row. */
  predicate Finds(rest: seq<ModbusRow>, index: map<int, ModbusRow>, row: IecRow) {
    HeadOf(rest, row.name.key).Some? || (Expected(row.address) in index && index[Expected(row.address)] in rest)
  }

  /** What a step that succeeds takes out of the pool. */
  lemma StepRemoves(device: string, index: map<int, ModbusRow>, st: Pass1, row: IecRow)
    requires forall m :: m in st.rest ==> m.regClass == 3
    requires forall a :: a in index ==> index[a].regClass == 3 && index[a].address == a
    requires ClassOf(row) == Setpoint && st.error.None? && Step1(device, index, st, row).error.None?
    ensures var n := Step1(device, index, st, row);
            && |n.claims| == |st.claims| + 1
            && var c := n.claims[|st.claims|];
            && n.claims == st.claims + [c]
            && c.iec == row && c.modbus.Some? && c.modbus.value.address == Expected(row.address)
            && if Finds(st.rest, index, row)
               then c.modbus.value in st.rest && multiset(st.rest) == multiset(n.rest) + multiset{c.modbus.value}
               else n.rest == st.rest
  {
    DropCount(st.rest, row.name.key);
    if HeadOf(st.rest, row.name.key).None? {
      RemoveCount(st.rest, index[Expected(row.address)]);
    }
  }

  /** A register no setpoint's formula speaks of is never taken. */
  lemma {:induction false} UnspokenStay(device: string, iec: seq<IecRow>, modbus: seq<ModbusRow>)
    requires First(device, iec, modbus).error.None?
    ensures forall m :: m in OfClass(modbus, 3) && !Spoken(iec, m.address) ==> m in First(device, iec, modbus).rest
  {
    if iec != [] {
      var init, row := iec[..|iec| - 1], iec[|iec| - 1];
      assert iec == init + [row];
      UnspokenStay(device, init, modbus);
      var st, n := First(device, init, modbus), First(device, iec, modbus);
      if ClassOf(row) == Setpoint {
        StepRemoves(device, ByAddress(modbus), st, row);
      }
      forall m | m in OfClass(modbus, 3) && !Spoken(iec, m.address)
        ensures m in n.rest
      {
        SpokenAppend(init, row, m.address);
        if n.rest != st.rest {
          OthersStay(st.rest, n.rest, n.claims[|st.claims|].modbus.value, m);
        }
      }
    }
  }

  lemma OthersStay(rest: seq<ModbusRow>, left: seq<ModbusRow>, m: ModbusRow, x: ModbusRow)
    requires multiset(rest) == multiset(left) + multiset{m} && x in rest && x != m
    ensures x in left
  {
    assert x in multiset(rest);
    assert x in multiset(left);
  }

  /** The row a step gives away leaves the pool: the fallback row is always still there. */
  lemma StepTakesOne(device: string, iec: seq<IecRow>, modbus: seq<ModbusRow>, row: IecRow)
    requires ClassOf(row) == Setpoint && !Spoken(iec, Expected(row.address))
    requires var st := First(device, iec, modbus);
             st.error.None? && Step1(device, ByAddress(modbus), st, row).error.None?
    ensures var st := First(device, iec, modbus);
            var n := Step1(device, ByAddress(modbus), st, row);
            && |n.claims| == |st.claims| + 1
            && var c := n.claims[|st.claims|];
            && c.iec == row && c.modbus.Some? && c.modbus.value.address == Expected(row.address)
            && n.claims == st.claims + [c]
            && c.modbus.value in st.rest
            && multiset(st.rest) == multiset(n.rest) + multiset{c.modbus.value}
    ensures Finds(First(device, iec, modbus).rest, ByAddress(modbus), row)
  {
    UnspokenStay(device, iec, modbus);
    OfClassMembers(modbus, 3);
    StepRemoves(device, ByAddress(modbus), First(device, iec, modbus), row);
  }

  lemma {:induction false} FirstConserves(device: string, iec: seq<IecRow>, modbus: seq<ModbusRow>)
    requires DistinctAddresses(iec) && First(device, iec, modbus).error.None?
    ensures var st := First(device, iec, modbus);
            multiset(RowsOf(st.claims)) + multiset(st.rest) == multiset(OfClass(modbus, 3))
  {
    if iec != [] {
      var init, row := iec[..|iec| - 1], iec[|iec| - 1];
      assert iec == init + [row];
      FirstConserves(device, init, modbus);
      if ClassOf(row) == Setpoint {
        NotYetSpoken(init, row);
        StepTakesOne(device, init, modbus, row);
        var st, n := First(device, init, modbus), First(device, iec, modbus);
        OneTaken(st.claims, n.claims[|st.claims|], st.rest, n.rest);
      }
    }
  }

  lemma OneTaken(claims: seq<Claim>, c: Claim, rest: seq<ModbusRow>, left: seq<ModbusRow>)
    requires c.modbus.Some? && multiset(rest) == multiset(left) + multiset{c.modbus.value}
    ensures multiset(RowsOf(claims + [c])) + multiset(left) == multiset(RowsOf(claims)) + multiset(rest)
  {
    RowsOfAppend(claims, c);
  }

  lemma NotYetSpoken(iec: seq<IecRow>, row: IecRow)
    requires DistinctAddresses(iec + [row])
    ensures !Spoken(iec, Expected(row.address))
  {
    var longer := iec + [row];
    forall i | 0 <= i < |iec|
      ensures iec[i].address != row.address
    {
      assert longer[i] == iec[i] && longer[|iec|] == row;
    }
  }

  lemma PopBalances(taken: multiset<ModbusRow>, rows: seq<ModbusRow>, key: string, others: multiset<ModbusRow>)
    ensures var head := HeadOf(rows, key);
            var given := if head.Some? then multiset{head.value} else multiset{};
            taken + given + multiset(DropKey(rows, key)) + others == taken + multiset(rows) + others
  {
    DropCount(rows, key);
  }

  function Given(m: Option<ModbusRow>): multiset<ModbusRow> {
    if m.Some? then multiset{m.value} else multiset{}
  }

  lemma AlarmStepConserves(st: Pass2, row: IecRow)
    ensures var head := HeadOf(st.alarms, row.name.key);
            multiset(RowsOf(st.claims + [Claim(row, head)])) + multiset(DropKey(st.alarms, row.name.key)) + multiset(st.telemetry)
            == multiset(RowsOf(st.claims)) + multiset(st.alarms) + multiset(st.telemetry)
  {
    RowsOfAppend(st.claims, Claim(row, HeadOf(st.alarms, row.name.key)));
    PopBalances(multiset(RowsOf(st.claims)), st.alarms, row.name.key, multiset(st.telemetry));
  }

  lemma TelemetryStepConserves(st: Pass2, row: IecRow)
    ensures var head := HeadOf(st.telemetry, row.name.key);
            multiset(RowsOf(st.claims + [Claim(row, head)])) + multiset(st.alarms) + multiset(DropKey(st.telemetry, row.name.key))
            == multiset(RowsOf(st.claims)) + multiset(st.alarms) + multiset(st.telemetry)
  {
    var head, taken := HeadOf(st.telemetry, row.name.key), multiset(RowsOf(st.claims));
    RowsOfAppend(st.claims, Claim(row, head));
    assert multiset(RowsOf(st.claims + [Claim(row, head)])) == taken + Given(head);
    DropCount(st.telemetry, row.name.key);
    assert multiset(st.telemetry) == multiset(DropKey(st.telemetry, row.name.key)) + Given(head);
  }

  lemma SecondStepConserves(device: string, claimed: map<int, int>, st: Pass2, row: IecRow)
    requires InPools(st)
    ensures var n := Step2(device, claimed, st, row);
            multiset(RowsOf(n.claims)) + multiset(n.alarms) + multiset(n.telemetry)
            == multiset(RowsOf(st.claims)) + multiset(st.alarms) + multiset(st.telemetry)
  {
    match ClassOf(row)
    case Setpoint =>
    case Alarm => AlarmStepConserves(st, row);
    case Telemetry =>
      TelemetryStepConserves(st, row);
      RowsOfAppend(st.claims, Claim(row, None));
  }

  lemma {:induction false} SecondConserves(device: string, iec: seq<IecRow>, modbus: seq<ModbusRow>,
                                           claimed: map<int, int>, points: map<int, JoinedPoint>)
    ensures var st := Second(device, iec, modbus, claimed, points);
            multiset(RowsOf(st.claims)) + multiset(st.alarms) + multiset(st.telemetry) == multiset(OfClass(modbus, 2)) + multiset(OfClass(modbus, 4))
  {
    if iec != [] {
      SecondConserves(device, iec[..|iec| - 1], modbus, claimed, points);
      SecondStepConserves(device, claimed, Second(device, iec[..|iec| - 1], modbus, claimed, points), iec[|iec| - 1]);
    }
  }

  /** The rows of the classes the join reads. */
  function Poolable(rows: seq<ModbusRow>): seq<ModbusRow> {
    if rows == [] then []
    else
      var init, last := Poolable(rows[..|rows| - 1]), rows[|rows| - 1];
      if last.regClass in {2, 3, 4} then init + [last] else init
  }

  lemma {:induction false} PoolsPartition(rows: seq<ModbusRow>)
    ensures multiset(Poolable(rows))
            == multiset(OfClass(rows, 2)) + multiset(OfClass(rows, 3)) + multiset(OfClass(rows, 4))
  {
    if rows != [] {
      PoolsPartition(rows[..|rows| - 1]);
    }
  }

  lemma {:induction false} SecondRestIsOld(device: string, iec: seq<IecRow>, modbus: seq<ModbusRow>,
                                           claimed: map<int, int>, points: map<int, JoinedPoint>)
    ensures var st := Second(device, iec, modbus, claimed, points);
            && (forall m :: m in st.alarms ==> m in OfClass(modbus, 2))
            && (forall m :: m in st.telemetry ==> m in OfClass(modbus, 4))
  {
    if iec != [] {
      SecondRestIsOld(device, iec[..|iec| - 1], modbus, claimed, points);
    }
  }

  lemma LeftoverIsRest(modbus: seq<ModbusRow>, rest: seq<ModbusRow>, regClass: int)
    requires forall m :: m in rest ==> m in OfClass(modbus, regClass)
    ensures multiset(Leftover(modbus, rest, regClass)) == multiset(rest)
  {
    GatheredIsEverything(KeysInOrder(OfClass(modbus, regClass)), rest);
  }

  /** Rows claimed in either pass plus rows left over are the rows read, each once. */
  lemma ClaimsConserved(device: string, iec: seq<IecRow>, modbus: seq<ModbusRow>)
    requires DistinctAddresses(iec) && First(device, iec, modbus).error.None?
    ensures var first := First(device, iec, modbus);
            var second := Second(device, iec, modbus, first.claimed, first.points);
            multiset(RowsOf(first.claims)) + multiset(RowsOf(second.claims)) + multiset(AllLeft(modbus, first, second))
            == multiset(Poolable(modbus))
  {
    var first := First(device, iec, modbus);
    var second := Second(device, iec, modbus, first.claimed, first.points);
    var left := multiset(second.alarms) + multiset(second.telemetry) + multiset(first.rest);
    FirstConserves(device, iec, modbus);
    SecondConserves(device, iec, modbus, first.claimed, first.points);
    PoolsPartition(modbus);
    LeftIsRest(device, iec, modbus);
    Balance(multiset(RowsOf(first.claims)), multiset(first.rest), multiset(RowsOf(second.claims)), multiset(second.alarms),
            multiset(second.telemetry), multiset(OfClass(modbus, 2)), multiset(OfClass(modbus, 3)), multiset(OfClass(modbus, 4)));
  }

  lemma Balance(f: multiset<ModbusRow>, rest: multiset<ModbusRow>, s: multiset<ModbusRow>, a: multiset<ModbusRow>,
                t: multiset<ModbusRow>,
                c2: multiset<ModbusRow>, c3: multiset<ModbusRow>, c4: multiset<ModbusRow>)
    requires f + rest == c3 && s + a + t == c2 + c4
    ensures f + s + (a + t + rest) == c2 + c3 + c4
  {
    assert f + s + (a + t + rest) == (f + rest) + (s + a + t);
  }

  lemma LeftIsRest(device: string, iec: seq<IecRow>, modbus: seq<ModbusRow>)
    ensures var first := First(device, iec, modbus);
            var second := Second(device, iec, modbus, first.claimed, first.points);
            multiset(AllLeft(modbus, first, second)) == multiset(second.alarms) + multiset(second.telemetry) + multiset(first.rest)
  {
    var first := First(device, iec, modbus);
    var second := Second(device, iec, modbus, first.claimed, first.points);
    SecondRestIsOld(device, iec, modbus, first.claimed, first.points);
    FirstRestIsOld(device, iec, modbus);
    OfClassMembers(modbus, 3);
    LeftoverIsRest(modbus, second.alarms, 2);
    LeftoverIsRest(modbus, second.telemetry, 4);
    LeftoverIsRest(modbus, first.rest, 3);
  }

  // ---- Exactly when the setpoint pass goes through ----

  function Excluding(rows: seq<ModbusRow>, address: int): (r: seq<ModbusRow>)
    ensures forall m :: m in r <==> m in rows && m.address != address
  {
    if rows == [] then []
    else if rows[0].address == address then Excluding(rows[1..], address)
    else [rows[0]] + Excluding(rows[1..], address)
  }

  /** The holding registers not yet spoken for: those of earlier setpoints' formula addresses
      are gone. */
  function Available(iec: seq<IecRow>, modbus: seq<ModbusRow>): seq<ModbusRow> {
    if iec == [] then OfClass(modbus, 3)
    else
      var init, last := Available(iec[..|iec| - 1], modbus), iec[|iec| - 1];
      if ClassOf(last) == Setpoint then Excluding(init, Expected(last.address)) else init
  }

  /** Setpoint `i` has a register at its formula address, and if its name finds an available
      register at all, the first one found is that register. */
  predicate Fits(iec: seq<IecRow>, modbus: seq<ModbusRow>, i: nat)
    requires i < |iec|
  {
    ClassOf(iec[i]) == Setpoint ==>
      var expected, named := Expected(iec[i].address), HeadOf(Available(iec[..i], modbus), iec[i].name.key);
      (exists m :: m in modbus && m.regClass == 3 && m.address == expected)
      && (named.None? || named.value.address == expected)
  }

  predicate AddressesDiffer(rows: seq<ModbusRow>) {
    forall i, j :: 0 <= i < j < |rows| ==> rows[i].address != rows[j].address
  }

  lemma {:induction false} ExcludingKeepsOthers(rows: seq<ModbusRow>, address: int)
    requires forall m :: m in rows ==> m.address != address
    ensures Excluding(rows, address) == rows
  {
    if rows != [] {
      ExcludingKeepsOthers(rows[1..], address);
    }
  }

  lemma TailDiffers(rows: seq<ModbusRow>)
    requires rows != [] && AddressesDiffer(rows)
    ensures AddressesDiffer(rows[1..]) && forall m :: m in rows[1..] ==> m.address != rows[0].address
  {
  }

  lemma {:induction false} DropIsExcluding(rows: seq<ModbusRow>, key: string)
    requires AddressesDiffer(rows) && HeadOf(rows, key).Some?
    ensures DropKey(rows, key) == Excluding(rows, HeadOf(rows, key).value.address)
  {
    TailDiffers(rows);
    if rows[0].name.key == key {
      ExcludingKeepsOthers(rows[1..], rows[0].address);
    } else {
      DropIsExcluding(rows[1..], key);
    }
  }

  lemma {:induction false} RemoveIsExcluding(rows: seq<ModbusRow>, m: ModbusRow)
    requires AddressesDiffer(rows) && m in rows
    ensures RemoveFirst(rows, m) == Excluding(rows, m.address)
  {
    TailDiffers(rows);
    if rows[0] == m {
      ExcludingKeepsOthers(rows[1..], m.address);
    } else {
      assert m in rows[1..];
      RemoveIsExcluding(rows[1..], m);
    }
  }

  lemma {:induction false} ExcludingDiffers(rows: seq<ModbusRow>, address: int)
    requires AddressesDiffer(rows)
    ensures AddressesDiffer(Excluding(rows, address))
  {
    if rows != [] {
      TailDiffers(rows);
      ExcludingDiffers(rows[1..], address);
    }
  }

  lemma {:induction false} AvailableDiffers(iec: seq<IecRow>, modbus: seq<ModbusRow>)
    requires AddressesDiffer(OfClass(modbus, 3))
    ensures AddressesDiffer(Available(iec, modbus))
    ensures forall m :: m in Available(iec, modbus) <==> m in modbus && m.regClass == 3 && !Spoken(iec, m.address)
  {
    OfClassMembers(modbus, 3);
    if iec != [] {
      var init, row := iec[..|iec| - 1], iec[|iec| - 1];
      assert iec == init + [row];
      AvailableDiffers(init, modbus);
      ExcludingDiffers(Available(init, modbus), Expected(row.address));
      forall m: ModbusRow
        ensures Spoken(iec, m.address)
                <==> Spoken(init, m.address) || (ClassOf(row) == Setpoint && Expected(row.address) == m.address)
      {
        SpokenAppend(init, row, m.address);
      }
    }
  }

  lemma FitsDecidesStep(device: string, iec: seq<IecRow>, modbus: seq<ModbusRow>, row: IecRow)
    requires AddressesDiffer(OfClass(modbus, 3)) && ClassOf(row) == Setpoint
    requires First(device, iec, modbus).error.None? && First(device, iec, modbus).rest == Available(iec, modbus)
    ensures var n := Step1(device, ByAddress(modbus), First(device, iec, modbus), row);
            && (n.error.None? <==> Fits(iec + [row], modbus, |iec|))
            && (n.error.None? ==> n.rest == Available(iec + [row], modbus))
  {
    var st, expected := First(device, iec, modbus), Expected(row.address);
    var longer := iec + [row];
    assert longer[..|iec|] == iec && longer[|iec|] == row;
    AvailableDiffers(iec, modbus);
    var head := HeadOf(st.rest, row.name.key);
    if head.Some? {
      DropIsExcluding(st.rest, row.name.key);
    } else if expected in ByAddress(modbus) {
      if Spoken(iec, expected) {
        RemoveCount(st.rest, ByAddress(modbus)[expected]);
        ExcludingKeepsOthers(st.rest, expected);
      } else {
        RemoveIsExcluding(st.rest, ByAddress(modbus)[expected]);
      }
    }
  }

  lemma FitsPrefix(iec: seq<IecRow>, row: IecRow, modbus: seq<ModbusRow>, i: nat)
    requires i < |iec|
    ensures Fits(iec + [row], modbus, i) <==> Fits(iec, modbus, i)
  {
    assert (iec + [row])[..i] == iec[..i];
  }

  /** The setpoint pass succeeds exactly when every setpoint fits; its name-based matching then
      never gives another answer than the address formula. */
  lemma {:induction false} SetpointPassSucceedsIff(device: string, iec: seq<IecRow>, modbus: seq<ModbusRow>)
    requires AddressesDiffer(OfClass(modbus, 3))
    ensures First(device, iec, modbus).error.None? <==> forall i :: 0 <= i < |iec| ==> Fits(iec, modbus, i)
    ensures First(device, iec, modbus).error.None? ==> First(device, iec, modbus).rest == Available(iec, modbus)
  {
    if iec != [] {
      var init, row := iec[..|iec| - 1], iec[|iec| - 1];
      assert iec == init + [row];
      SetpointPassSucceedsIff(device, init, modbus);
      forall i | 0 <= i < |init|
        ensures Fits(iec, modbus, i) <==> Fits(init, modbus, i)
      {
        FitsPrefix(init, row, modbus, i);
      }
      if First(device, init, modbus).error.None? && ClassOf(row) == Setpoint {
        FitsDecidesStep(device, init, modbus, row);
      }
    }
  }

  /** On every successful pass each setpoint holds the one register at its formula address, as a
      plain lookup by that address would find it. */
  lemma NameJoinRefinesFormula(device: string, iec: seq<IecRow>, modbus: seq<ModbusRow>, c: Claim, m: ModbusRow)
    requires AddressesDiffer(OfClass(modbus, 3)) && c in First(device, iec, modbus).claims
    requires m in modbus && m.regClass == 3
    ensures c.modbus == Some(m) <==> m.address == Expected(c.iec.address)
  {
    SetpointsOnFormula(device, iec, modbus);
    OfClassMembers(modbus, 3);
    var pool := OfClass(modbus, 3);
    var i :| 0 <= i < |pool| && pool[i] == m;
    var j :| 0 <= j < |pool| && pool[j] == c.modbus.value;
  }

  // ---- Points carry their claims ----

  ghost predicate HasClaim(claims: seq<Claim>, address: int) {
    exists c :: c in claims && c.iec.address == address
  }

  ghost predicate ClaimsReadback(claims: seq<Claim>, address: int) {
    exists c :: c in claims && ReadbackOf(c.iec.address) == Some(address)
  }

  /** The point under a claim's address was built from that claim. */
  ghost predicate Carries(device: string, st: Pass1, c: Claim) {
    && c.modbus.Some? && c.modbus.value.regClass == 3
    && c.iec.address in st.points
    && st.points[c.iec.address] == NewPoint(device, c.iec, c.modbus, ReadbackOf(c.iec.address))
  }

  /** `n` differs from `st` by one placed point, as far as claims, points and readbacks go. */
  predicate PlacesOne(device: string, st: Pass1, n: Pass1, row: IecRow, m: ModbusRow) {
    && m.regClass == 3
    && n.points == Placed(device, st, row, m).points
    && n.claims == st.claims + [Claim(row, Some(m))]
    && n.claimed == Placed(device, st, row, m).claimed
  }

  predicate SamePlaces(st: Pass1, n: Pass1) {
    n.claims == st.claims && n.points == st.points && n.claimed == st.claimed
  }

  lemma PlacedPlacesOne(device: string, st: Pass1, more: Pass1, row: IecRow, m: ModbusRow)
    requires m.regClass == 3 && SamePlaces(st, more)
    ensures PlacesOne(device, st, Placed(device, more, row, m), row, m)
  {
  }

  /** A step either places one point or leaves claims and points alone. */
  lemma StepPlaces(device: string, index: map<int, ModbusRow>, st: Pass1,
                   row: IecRow) returns (placed: Option<ModbusRow>)
    requires forall m :: m in st.rest ==> m.regClass == 3
    requires forall a :: a in index ==> index[a].regClass == 3
    ensures var n := Step1(device, index, st, row);
            if placed.Some? then PlacesOne(device, st, n, row, placed.value) else SamePlaces(st, n)
    ensures Step1(device, index, st, row).error.None? && ClassOf(row) == Setpoint ==> placed.Some?
  {
    placed := None;
    if st.error.None? && ClassOf(row) == Setpoint {
      var expected, head := Expected(row.address), HeadOf(st.rest, row.name.key);
      if head.None? {
        if expected in index {
          var m := index[expected];
          placed := Some(m);
          PlacedPlacesOne(device, st, st.(rest := RemoveFirst(st.rest, m),
                          byFormula := st.byFormula + [FormulaJoin(row.address, row.name.raw, m.name.raw)]), row, m);
        }
      } else if head.value.address == expected {
        placed := head;
        PlacedPlacesOne(device, st, st.(rest := DropKey(st.rest, row.name.key)), row, head.value);
      }
    }
  }

  lemma {:induction false} FirstPoints(device: string, iec: seq<IecRow>, modbus: seq<ModbusRow>)
    requires DistinctAddresses(iec)
    ensures var st := First(device, iec, modbus);
            && (forall a :: a in st.points ==> HasClaim(st.claims, a))
            && (forall c :: c in st.claims ==> c.iec in iec && Carries(device, st, c))
            && (forall x :: x in st.claimed <==> ClaimsReadback(st.claims, x))
  {
    if iec != [] {
      var init, row := iec[..|iec| - 1], iec[|iec| - 1];
      assert iec == init + [row];
      FirstPoints(device, init, modbus);
      var st := First(device, init, modbus);
      var n := Step1(device, ByAddress(modbus), st, row);
      var placed := StepPlaces(device, ByAddress(modbus), st, row);
      if placed.Some? {
        PlacedPoints(device, init, st, n, row, placed.value);
      } else {
        assert forall c :: c in st.claims ==> Carries(device, st, c) && Carries(device, n, c);
      }
    }
  }

  lemma AddressIsNew(iec: seq<IecRow>, row: IecRow)
    requires DistinctAddresses(iec + [row])
    ensures forall r :: r in iec ==> r.address != row.address
  {
    forall r | r in iec
      ensures r.address != row.address
    {
      var i :| 0 <= i < |iec| && iec[i] == r;
      assert (iec + [row])[i] == r && (iec + [row])[|iec|] == row;
    }
  }

  lemma PlacedPoints(device: string, iec: seq<IecRow>, st: Pass1, n: Pass1, row: IecRow, m: ModbusRow)
    requires DistinctAddresses(iec + [row])
    requires forall a :: a in st.points ==> HasClaim(st.claims, a)
    requires forall c :: c in st.claims ==> c.iec in iec && Carries(device, st, c)
    requires forall x :: x in st.claimed <==> ClaimsReadback(st.claims, x)
    requires PlacesOne(device, st, n, row, m)
    ensures forall a :: a in n.points ==> HasClaim(n.claims, a)
    ensures forall c :: c in n.claims ==> c.iec in iec + [row] && Carries(device, n, c)
    ensures forall x :: x in n.claimed <==> ClaimsReadback(n.claims, x)
  {
    var d := n.claims[|st.claims|];
    assert n.claims == st.claims + [d] && d in n.claims && d.iec == row;
    AddressIsNew(iec, row);
    forall a | a in n.points
      ensures HasClaim(n.claims, a)
    {
      if a != row.address {
        var c :| c in st.claims && c.iec.address == a;
        assert c in n.claims;
      }
    }
    forall x
      ensures ClaimsReadback(n.claims, x) <==> ClaimsReadback(st.claims, x) || ReadbackOf(row.address) == Some(x)
    {
      if ClaimsReadback(st.claims, x) {
        var c :| c in st.claims && ReadbackOf(c.iec.address) == Some(x);
        assert c in n.claims;
      }
    }
  }
}
