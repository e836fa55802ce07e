/** What the join puts out, row by row and field by field: every point's contents, and every list of
    its report, in terms of the rows read. */
module JoinReport {
  import opened Prelude
  import opened Rows
  import opened NamePools
  import opened JoinSpec
  import opened JoinTheorems
  import opened JoinPoints
  import opened JoinRanks
  import opened JoinRegisters

  // ---- Readback addresses ----

  /** Some setpoint row is read back at the address. */
  ghost predicate Mirrored(iec: seq<IecRow>, address: int) {
    exists i :: 0 <= i < |iec| && ClassOf(iec[i]) == Setpoint && 25089 <= iec[i].address <= 25236
                && address == 16411 + (iec[i].address - 25089)
  }

  lemma {:induction false} ClaimedIsMirrored(iec: seq<IecRow>, address: int)
    ensures address in Claimed(iec) <==> Mirrored(iec, address)
  {
    if iec != [] {
      var init, row := iec[..|iec| - 1], iec[|iec| - 1];
      ClaimedIsMirrored(init, address);
      if Mirrored(init, address) {
        var i :| 0 <= i < |init| && ClassOf(init[i]) == Setpoint && 25089 <= init[i].address <= 25236
                 && address == 16411 + (init[i].address - 25089);
        assert iec[i] == init[i];
      }
    }
  }

  // ---- The Modbus row an alarm or telemetry row is given ----

  /** Whether row `i` asks for a Modbus row in the second pass: readback duplicates do not. */
  predicate Asks(iec: seq<IecRow>, claimed: map<int, int>, i: nat)
    requires i < |iec|
  {
    ClassOf(iec[i]) == Alarm || (ClassOf(iec[i]) == Telemetry && iec[i].address !in claimed)
  }

  /** As many rows of its name and kind asked before as come before its partner in the file. */
  function GivenTo(iec: seq<IecRow>, modbus: seq<ModbusRow>, claimed: map<int, int>, i: nat): (m: Option<ModbusRow>)
    requires i < |iec|
    ensures m.Some? ==> m.value.regClass in {2, 4}
  {
    var key := iec[i].name.key;
    if !Asks(iec, claimed, i) then None
    else if ClassOf(iec[i]) == Alarm then NthOf(WithKey(OfClass(modbus, 2), key), Count(Alarms(iec[..i]), key))
    else NthOf(WithKey(OfClass(modbus, 4), key), Count(Asking(iec[..i], claimed), key))
  }

  function NthOf(queue: seq<ModbusRow>, r: nat): Option<ModbusRow> {
    if r < |queue| then Some(queue[r]) else None
  }

  lemma GivenPrefix(iec: seq<IecRow>, row: IecRow, modbus: seq<ModbusRow>, claimed: map<int, int>, i: nat)
    requires i < |iec|
    ensures GivenTo(iec + [row], modbus, claimed, i) == GivenTo(iec, modbus, claimed, i)
    ensures Asks(iec + [row], claimed, i) <==> Asks(iec, claimed, i)
  {
    assert (iec + [row])[..i] == iec[..i];
  }

  lemma {:induction false} AskersPrefix(iec: seq<IecRow>, claimed: map<int, int>, i: nat)
    requires i <= |iec|
    ensures Alarms(iec[..i]) <= Alarms(iec) && Asking(iec[..i], claimed) <= Asking(iec, claimed)
  {
    if i == |iec| {
      assert iec[..i] == iec;
    } else {
      var init := iec[..|iec| - 1];
      AskersPrefix(init, claimed, i);
      assert init[..i] == iec[..i];
    }
  }

  /** It is the partner its rank among the asking rows gives it. */
  lemma GivenIsPartner(iec: seq<IecRow>, modbus: seq<ModbusRow>, claimed: map<int, int>, i: nat)
    requires i < |iec| && Asks(iec, claimed, i)
    ensures ClassOf(iec[i]) == Alarm ==>
              |Alarms(iec[..i])| < |Alarms(iec)| && Alarms(iec)[|Alarms(iec[..i])|] == iec[i]
              && GivenTo(iec, modbus, claimed, i) == Partner(Alarms(iec), OfClass(modbus, 2), |Alarms(iec[..i])|)
    ensures ClassOf(iec[i]) == Telemetry ==>
              |Asking(iec[..i], claimed)| < |Asking(iec, claimed)|
              && Asking(iec, claimed)[|Asking(iec[..i], claimed)|] == iec[i]
              && GivenTo(iec, modbus, claimed, i)
                 == Partner(Asking(iec, claimed), OfClass(modbus, 4), |Asking(iec[..i], claimed)|)
  {
    AskersPrefix(iec, claimed, i + 1);
    AskersPrefix(iec, claimed, i);
    assert iec[..i + 1] == iec[..i] + [iec[i]];
    AskersAppend(iec[..i], iec[i], claimed);
    if ClassOf(iec[i]) == Alarm {
      assert Alarms(iec)[..|Alarms(iec[..i])|] == Alarms(iec[..i]);
    } else {
      assert Asking(iec, claimed)[..|Asking(iec[..i], claimed)|] == Asking(iec[..i], claimed);
    }
  }

  /** The second pass finds that row. */
  lemma FoundIsGiven(device: string, iec: seq<IecRow>, modbus: seq<ModbusRow>, claimed: map<int, int>,
                     known: map<int, JoinedPoint>, row: IecRow)
    requires Other(row)
    ensures Found(claimed, Second(device, iec, modbus, claimed, known), row)
            == GivenTo(iec + [row], modbus, claimed, |iec|)
  {
    SecondPassPairsByRank(device, iec, modbus, claimed, known);
    assert (iec + [row])[..|iec|] == iec && (iec + [row])[|iec|] == row;
    HeadLeft(Alarms(iec), OfClass(modbus, 2), row.name.key);
    HeadLeft(Asking(iec, claimed), OfClass(modbus, 4), row.name.key);
  }

  lemma HeadLeft(asks: seq<IecRow>, rows: seq<ModbusRow>, key: string)
    ensures HeadOf(Rest(asks, rows), key) == NthOf(WithKey(rows, key), Count(asks, key))
  {
    RestQueue(asks, rows, key);
    HeadIsQueueHead(Rest(asks, rows), key);
  }

  // ---- Rows reported as unmatched ----

  /** In file order, the rows that ask and are given nothing. */
  function GivenNothing(iec: seq<IecRow>, modbus: seq<ModbusRow>, claimed: map<int, int>): seq<Unmatched> {
    if iec == [] then []
    else
      var n, row := |iec| - 1, iec[|iec| - 1];
      GivenNothing(iec[..n], modbus, claimed)
      + if Asks(iec, claimed, n) && GivenTo(iec, modbus, claimed, n).None? then [Unmatched(row.address, row.name.raw)]
        else []
  }

  lemma StepReports(device: string, claimed: map<int, int>, st: Pass2, row: IecRow)
    requires InPools(st)
    ensures Step2(device, claimed, st, row).unmatched
            == st.unmatched + if Other(row) && (ClassOf(row) == Alarm || row.address !in claimed) && Found(claimed, st, row).None?
                              then [Unmatched(row.address, row.name.raw)] else []
  {
  }

  lemma {:induction false} SecondReports(device: string, iec: seq<IecRow>, modbus: seq<ModbusRow>,
                                         claimed: map<int, int>, known: map<int, JoinedPoint>)
    ensures Second(device, iec, modbus, claimed, known).unmatched == GivenNothing(iec, modbus, claimed)
  {
    if iec != [] {
      var init, row := iec[..|iec| - 1], iec[|iec| - 1];
      assert iec == init + [row];
      SecondReports(device, init, modbus, claimed, known);
      StepReports(device, claimed, Second(device, init, modbus, claimed, known), row);
      if Other(row) {
        FoundIsGiven(device, init, modbus, claimed, known, row);
      }
    }
  }

  /** The report names, in file order, exactly the alarm rows and the telemetry rows at no setpoint's
      readback address that have no partner. */
  lemma UnmatchedIecIsGivenNothing(device: string, iec: seq<IecRow>, modbus: seq<ModbusRow>, tags: seq<TagRow>)
    requires First(device, iec, modbus).error.None?
    ensures Join(device, iec, modbus, tags).report.unmatchedIec == GivenNothing(iec, modbus, Claimed(iec))
    ensures forall i :: 0 <= i < |iec| ==>
              (Asks(iec, Claimed(iec), i) <==>
                 ClassOf(iec[i]) == Alarm || (ClassOf(iec[i]) == Telemetry && !Mirrored(iec, iec[i].address)))
  {
    var first := First(device, iec, modbus);
    FirstPlaces(device, iec, modbus);
    SecondReports(device, iec, modbus, first.claimed, first.points);
    forall i | 0 <= i < |iec|
      ensures iec[i].address in Claimed(iec) <==> Mirrored(iec, iec[i].address)
    {
      ClaimedIsMirrored(iec, iec[i].address);
    }
  }

  // ---- What a point holds ----

  /** The point of an IEC row and the Modbus row it was given, field by field. */
  predicate Holds(device: string, row: IecRow, m: Option<ModbusRow>, p: JoinedPoint) {
    && p.device == device && p.deviceAddr == row.deviceAddr && p.iec104Addr == row.address
    && p.nameRaw == row.name.raw && p.access == row.access && p.dataType == row.dataType
    && p.precisionIec == row.precision && p.description == row.description
    && p.pointClass == (if row.attribute == Some("alarm") then Alarm else if row.access == "WO" then Setpoint else Telemetry)
    && (m.None? ==> p.modbusAddr == None && p.modbusClass == None && p.modbusFunction == None && p.precisionModbus == None)
    && (m.Some? ==>
          && p.modbusAddr == Some(m.value.address) && p.modbusClass == Some(m.value.regClass)
          && p.precisionModbus == m.value.precision
          && (m.value.regClass == 2 ==> p.modbusFunction == Some([2]))
          && (m.value.regClass == 3 ==> p.modbusFunction == Some([3, 6, 16]))
          && (m.value.regClass == 4 ==> p.modbusFunction == Some([4])))
    && p.sources == ["IEC104"] + (if m.Some? then ["Modbus"] else []) + if p.tag.Some? then ["TAG"] else []
  }

  lemma {:induction false} SecondPointIs(device: string, iec: seq<IecRow>, modbus: seq<ModbusRow>,
                                         claimed: map<int, int>, known: map<int, JoinedPoint>, i: nat)
    requires DistinctAddresses(iec) && i < |iec| && Other(iec[i])
    ensures var points := Second(device, iec, modbus, claimed, known).points;
            iec[i].address in points
            && points[iec[i].address] == NewPoint(device, iec[i], GivenTo(iec, modbus, claimed, i), None)
  {
    var init, row := iec[..|iec| - 1], iec[|iec| - 1];
    assert iec == init + [row];
    var st := Second(device, init, modbus, claimed, known);
    var m := Step2Points(device, claimed, st, row);
    if i < |init| {
      SecondPointIs(device, init, modbus, claimed, known, i);
      GivenPrefix(init, row, modbus, claimed, i);
    } else {
      FoundIsGiven(device, init, modbus, claimed, known, row);
    }
  }

  lemma NewPointHolds(device: string, row: IecRow, m: Option<ModbusRow>, readback: Option<int>, tag: Option<string>)
    requires m.Some? ==> m.value.regClass in {2, 3, 4}
    ensures Holds(device, row, m, WithTag(NewPoint(device, row, m, readback), tag))
  {
    var sources := ["IEC104"] + if m.Some? then ["Modbus"] else [];
    assert sources + [] == sources;
  }

  /** An alarm or telemetry row's point holds that row and its partner. */
  lemma OtherPointHolds(device: string, iec: seq<IecRow>, modbus: seq<ModbusRow>, tags: seq<TagRow>, i: nat)
    requires DistinctAddresses(iec) && Succeeds(device, iec, modbus, tags) && i < |iec| && Other(iec[i])
    ensures var points := Join(device, iec, modbus, tags).result.value;
            && iec[i].address in points && points[iec[i].address].readbackAddr == None
            && Holds(device, iec[i], GivenTo(iec, modbus, Claimed(iec), i), points[iec[i].address])
  {
    var first, m := First(device, iec, modbus), GivenTo(iec, modbus, Claimed(iec), i);
    FirstPlaces(device, iec, modbus);
    SecondPointIs(device, iec, modbus, first.claimed, first.points, i);
    PassPointHolds(device, iec, modbus, tags, iec[i], m, None);
  }

  lemma SetpointPassPoint(device: string, iec: seq<IecRow>, modbus: seq<ModbusRow>, row: IecRow)
    returns (m: ModbusRow)
    requires DistinctAddresses(iec) && First(device, iec, modbus).error.None? && row in iec && !Other(row)
    ensures m in modbus && m.regClass == 3 && m.address == Expected(row.address)
    ensures var first := First(device, iec, modbus);
            row.address in first.points
            && first.points[row.address] == NewPoint(device, row, Some(m), ReadbackOf(row.address))
  {
    FirstPoints(device, iec, modbus);
    SetpointsOnFormula(device, iec, modbus);
    SetpointsClaimed(device, iec, modbus);
    var first := First(device, iec, modbus);
    assert ClaimsRow(first.claims, row);
    var c :| c in first.claims && c.iec == row;
    assert Carries(device, first, c) && OnFormula(modbus, c);
    m := c.modbus.value;
  }

  lemma SetpointPointStays(device: string, iec: seq<IecRow>, modbus: seq<ModbusRow>, row: IecRow)
    requires DistinctAddresses(iec) && row in iec && !Other(row)
    requires row.address in First(device, iec, modbus).points
    ensures row.address in PassPoints(device, iec, modbus)
    ensures PassPoints(device, iec, modbus)[row.address] == First(device, iec, modbus).points[row.address]
  {
    var first := First(device, iec, modbus);
    SecondPoints(device, iec, modbus, first.claimed, first.points);
    assert !HasOther(iec, row.address) by {
      SameAddressSameRow(iec);
    }
  }

  /** A setpoint row's point holds that row and a holding register at its formula address. */
  lemma SetpointPointHolds(device: string, iec: seq<IecRow>, modbus: seq<ModbusRow>, tags: seq<TagRow>, row: IecRow)
    returns (m: ModbusRow)
    requires DistinctAddresses(iec) && Succeeds(device, iec, modbus, tags) && row in iec && !Other(row)
    ensures m in modbus && m.regClass == 3 && m.address == 40001 + 2 * (row.address - 25089)
    ensures var points := Join(device, iec, modbus, tags).result.value;
            && row.address in points && Holds(device, row, Some(m), points[row.address])
            && points[row.address].readbackAddr
               == if 25089 <= row.address <= 25236 then Some(16411 + (row.address - 25089)) else None
  {
    m := SetpointPassPoint(device, iec, modbus, row);
    SetpointPointStays(device, iec, modbus, row);
    PassPointHolds(device, iec, modbus, tags, row, Some(m), ReadbackOf(row.address));
  }

  /** The tag pass adds a tag, if one is due, and the source it names. */
  lemma PassPointHolds(device: string, iec: seq<IecRow>, modbus: seq<ModbusRow>, tags: seq<TagRow>, row: IecRow,
                       m: Option<ModbusRow>, readback: Option<int>)
    requires Succeeds(device, iec, modbus, tags) && (m.Some? ==> m.value.regClass in {2, 3, 4})
    requires var passed := PassPoints(device, iec, modbus);
             row.address in passed && passed[row.address] == NewPoint(device, row, m, readback)
    ensures var points := Join(device, iec, modbus, tags).result.value;
            && row.address in points && Holds(device, row, m, points[row.address])
            && points[row.address].readbackAddr == readback
  {
    var passed := PassPoints(device, iec, modbus);
    NewPointHolds(device, row, m, readback, TagOf(passed, TagsByAddress(ReadOnly(iec), tags), row.address));
  }

  // ---- Modbus rows reported as unmatched ----

  /** Position `p` holds the first row of the name. */
  predicate FirstAt(rows: seq<ModbusRow>, key: string, p: nat) {
    p < |rows| && rows[p].name.key == key && forall q :: 0 <= q < p ==> rows[q].name.key != key
  }

  /** The names in the order in which they first appear, each once. */
  lemma {:induction false} KeysByFirstAppearance(rows: seq<ModbusRow>, i: nat, j: nat, p: nat, q: nat)
    requires i < j < |KeysInOrder(rows)|
    requires FirstAt(rows, KeysInOrder(rows)[i], p) && FirstAt(rows, KeysInOrder(rows)[j], q)
    ensures p < q
  {
    var n := |rows| - 1;
    var init, last := rows[..n], rows[n];
    assert rows == init + [last];
    FirstInPrefix(rows, i, p);
    if j < |KeysInOrder(init)| {
      FirstInPrefix(rows, j, q);
      KeysByFirstAppearance(init, i, j, p, q);
    } else {
      assert last.name.key !in KeysInOrder(init);
      assert forall k :: 0 <= k < n ==> init[k] in init && init[k].name.key != last.name.key;
    }
  }

  /** A name that appears before the last row appears there first. */
  lemma FirstInPrefix(rows: seq<ModbusRow>, i: nat, p: nat)
    requires rows != [] && i < |KeysInOrder(rows[..|rows| - 1])|
    requires FirstAt(rows, KeysInOrder(rows)[i], p)
    ensures KeysInOrder(rows[..|rows| - 1])[i] == KeysInOrder(rows)[i]
    ensures FirstAt(rows[..|rows| - 1], KeysInOrder(rows)[i], p)
  {
    KeyAppears(rows[..|rows| - 1], i);
    var k :| 0 <= k < |rows| - 1 && rows[..|rows| - 1][k].name.key == KeysInOrder(rows[..|rows| - 1])[i];
    assert rows[k].name.key == KeysInOrder(rows)[i];
  }

  lemma {:induction false} KeyAppears(rows: seq<ModbusRow>, i: nat)
    requires i < |KeysInOrder(rows)|
    ensures exists p :: 0 <= p < |rows| && rows[p].name.key == KeysInOrder(rows)[i]
  {
    var n := |rows| - 1;
    var init := rows[..n];
    if i < |KeysInOrder(init)| {
      KeyAppears(init, i);
      var p :| 0 <= p < n && init[p].name.key == KeysInOrder(init)[i];
      assert rows[p].name.key == KeysInOrder(rows)[i];
    } else {
      assert rows[n].name.key == KeysInOrder(rows)[i];
    }
  }

  /** What a run of askers leaves of the rows, name by name. */
  function LeftBy(keys: seq<string>, asks: seq<IecRow>, rows: seq<ModbusRow>): seq<ModbusRow> {
    if keys == [] then []
    else
      var key := keys[|keys| - 1];
      LeftBy(keys[..|keys| - 1], asks, rows) + WithKey(rows, key)[Min(Count(asks, key), |WithKey(rows, key)|)..]
  }

  lemma {:induction false} GatheredIsLeftBy(keys: seq<string>, asks: seq<IecRow>, rows: seq<ModbusRow>)
    ensures Gathered(keys, Rest(asks, rows)) == LeftBy(keys, asks, rows)
  {
    if keys != [] {
      GatheredIsLeftBy(keys[..|keys| - 1], asks, rows);
      RestQueue(asks, rows, keys[|keys| - 1]);
    }
  }

  /** The report lists what the alarm rows leave of class 2, then what the asking telemetry rows leave
      of class 4, then what the setpoints leave of class 3, each name by name in the order in which the
      names first appear, with address and name as written. */
  lemma UnmatchedModbusListed(device: string, iec: seq<IecRow>, modbus: seq<ModbusRow>, tags: seq<TagRow>)
    returns (left: seq<ModbusRow>)
    requires First(device, iec, modbus).error.None?
    ensures left == LeftBy(KeysInOrder(OfClass(modbus, 2)), Alarms(iec), OfClass(modbus, 2))
                    + LeftBy(KeysInOrder(OfClass(modbus, 4)), Asking(iec, Claimed(iec)), OfClass(modbus, 4))
                    + Gathered(KeysInOrder(OfClass(modbus, 3)), First(device, iec, modbus).rest)
    ensures ListsRows(Join(device, iec, modbus, tags).report.unmatchedModbus, left)
  {
    left := LeftRows(device, iec, modbus);
    LeftInOrder(device, iec, modbus);
    ReportListsLeft(device, iec, modbus, tags);
  }

  /** One entry a row, with its address and its name as written. */
  predicate ListsRows(listed: seq<Unmatched>, rows: seq<ModbusRow>) {
    && |listed| == |rows|
    && forall i :: 0 <= i < |rows| ==> listed[i].address == rows[i].address && listed[i].nameRaw == rows[i].name.raw
  }

  lemma ReportListsLeft(device: string, iec: seq<IecRow>, modbus: seq<ModbusRow>, tags: seq<TagRow>)
    requires First(device, iec, modbus).error.None?
    ensures ListsRows(Join(device, iec, modbus, tags).report.unmatchedModbus, LeftRows(device, iec, modbus))
  {
  }

  lemma LeftInOrder(device: string, iec: seq<IecRow>, modbus: seq<ModbusRow>)
    requires First(device, iec, modbus).error.None?
    ensures LeftRows(device, iec, modbus)
            == LeftBy(KeysInOrder(OfClass(modbus, 2)), Alarms(iec), OfClass(modbus, 2))
               + LeftBy(KeysInOrder(OfClass(modbus, 4)), Asking(iec, Claimed(iec)), OfClass(modbus, 4))
               + Gathered(KeysInOrder(OfClass(modbus, 3)), First(device, iec, modbus).rest)
  {
    var first := First(device, iec, modbus);
    FirstPlaces(device, iec, modbus);
    SecondPassPairsByRank(device, iec, modbus, first.claimed, first.points);
    GatheredIsLeftBy(KeysInOrder(OfClass(modbus, 2)), Alarms(iec), OfClass(modbus, 2));
    GatheredIsLeftBy(KeysInOrder(OfClass(modbus, 4)), Asking(iec, Claimed(iec)), OfClass(modbus, 4));
  }

  // ---- The setpoint pass: its warnings and its errors ----

  /** In file order, the setpoints outside 25089..25236. */
  function OffRange(iec: seq<IecRow>): seq<int> {
    if iec == [] then []
    else
      var row := iec[|iec| - 1];
      OffRange(iec[..|iec| - 1])
      + if ClassOf(row) == Setpoint && !(25089 <= row.address <= 25236) then [row.address] else []
  }

  /** What one setpoint that goes through adds to the warnings. */
  lemma StepWarns(device: string, index: map<int, ModbusRow>, st: Pass1, row: IecRow)
    requires forall m :: m in st.rest ==> m.regClass == 3
    requires forall a :: a in index ==> index[a].regClass == 3
    requires ClassOf(row) == Setpoint && st.error.None? && Step1(device, index, st, row).error.None?
    ensures var n := Step1(device, index, st, row);
            && n.withoutReadback == st.withoutReadback + (if 25089 <= row.address <= 25236 then [] else [row.address])
            && (HeadOf(st.rest, row.name.key).Some? ==> n.byFormula == st.byFormula)
            && (HeadOf(st.rest, row.name.key).None? ==>
                  Expected(row.address) in index
                  && n.byFormula
                     == st.byFormula + [FormulaJoin(row.address, row.name.raw, index[Expected(row.address)].name.raw)])
  {
  }

  lemma {:induction false} WithoutReadbackIsOffRange(device: string, iec: seq<IecRow>, modbus: seq<ModbusRow>)
    requires First(device, iec, modbus).error.None?
    ensures First(device, iec, modbus).withoutReadback == OffRange(iec)
  {
    if iec != [] {
      var init, row := iec[..|iec| - 1], iec[|iec| - 1];
      WithoutReadbackIsOffRange(device, init, modbus);
      if ClassOf(row) == Setpoint {
        StepWarns(device, ByAddress(modbus), First(device, init, modbus), row);
      }
    }
  }

  /** `m` is the holding register at the formula address of the row. */
  predicate IsRegisterOf(modbus: seq<ModbusRow>, row: IecRow, m: ModbusRow) {
    m in modbus && m.regClass == 3 && m.address == 40001 + 2 * (row.address - 25089)
  }

  /** Row `i` is a setpoint whose name no register still available has. */
  predicate Unnamed(iec: seq<IecRow>, modbus: seq<ModbusRow>, i: nat)
    requires i < |iec|
  {
    ClassOf(iec[i]) == Setpoint
    && forall m :: m in Available(iec[..i], modbus) ==> m.name.key != iec[i].name.key
  }

  /** The setpoints joined by the formula alone, in file order, each with its register's name. */
  ghost predicate ByFormulaAre(iec: seq<IecRow>, modbus: seq<ModbusRow>, joins: seq<FormulaJoin>)
    decreases |iec|
  {
    if iec == [] then joins == []
    else
      var n := |iec| - 1;
      if !Unnamed(iec, modbus, n) then ByFormulaAre(iec[..n], modbus, joins)
      else
        && joins != [] && ByFormulaAre(iec[..n], modbus, joins[..|joins| - 1])
        && joins[|joins| - 1].address == iec[n].address && joins[|joins| - 1].nameRaw == iec[n].name.raw
        && exists m :: IsRegisterOf(modbus, iec[n], m) && joins[|joins| - 1].modbusName == m.name.raw
  }

  lemma UnnamedIff(iec: seq<IecRow>, modbus: seq<ModbusRow>, i: nat)
    requires i < |iec|
    ensures Unnamed(iec, modbus, i)
            <==> ClassOf(iec[i]) == Setpoint && HeadOf(Available(iec[..i], modbus), iec[i].name.key).None?
  {
  }

  lemma ByFormulaMore(iec: seq<IecRow>, modbus: seq<ModbusRow>, joins: seq<FormulaJoin>, more: seq<FormulaJoin>,
                      m: ModbusRow)
    requires iec != [] && Unnamed(iec, modbus, |iec| - 1) && ByFormulaAre(iec[..|iec| - 1], modbus, joins)
    requires var row := iec[|iec| - 1];
             IsRegisterOf(modbus, row, m) && more == joins + [FormulaJoin(row.address, row.name.raw, m.name.raw)]
    ensures ByFormulaAre(iec, modbus, more)
  {
    assert more[..|more| - 1] == joins;
  }

  /** What the last row adds to the setpoints joined by formula. */
  lemma LastByFormula(device: string, iec: seq<IecRow>, modbus: seq<ModbusRow>)
    requires AddressesDiffer(OfClass(modbus, 3)) && iec != [] && First(device, iec, modbus).error.None?
    ensures var n, row := |iec| - 1, iec[|iec| - 1];
            var before, after := First(device, iec[..n], modbus).byFormula, First(device, iec, modbus).byFormula;
            if !Unnamed(iec, modbus, n) then after == before
            else
              && Expected(row.address) in ByAddress(modbus)
              && after == before + [FormulaJoin(row.address, row.name.raw, ByAddress(modbus)[Expected(row.address)].name.raw)]
  {
    var init, row := iec[..|iec| - 1], iec[|iec| - 1];
    SetpointPassSucceedsIff(device, init, modbus);
    UnnamedIff(iec, modbus, |init|);
    if ClassOf(row) == Setpoint {
      StepWarns(device, ByAddress(modbus), First(device, init, modbus), row);
    }
  }

  lemma {:induction false} ByFormulaListed(device: string, iec: seq<IecRow>, modbus: seq<ModbusRow>)
    requires AddressesDiffer(OfClass(modbus, 3)) && First(device, iec, modbus).error.None?
    ensures ByFormulaAre(iec, modbus, First(device, iec, modbus).byFormula)
  {
    if iec != [] {
      var init, row := iec[..|iec| - 1], iec[|iec| - 1];
      ByFormulaListed(device, init, modbus);
      LastByFormula(device, iec, modbus);
      if Unnamed(iec, modbus, |init|) {
        ByFormulaMore(iec, modbus, First(device, init, modbus).byFormula, First(device, iec, modbus).byFormula,
                      ByAddress(modbus)[Expected(row.address)]);
      }
    }
  }

  /** The error of the first setpoint that does not fit: no register of its name is available and none
      stands at its formula address, or the first one of its name stands elsewhere. */
  function ErrorAt(iec: seq<IecRow>, modbus: seq<ModbusRow>, i: nat): JoinError
    requires i < |iec|
  {
    var expected, named := 40001 + 2 * (iec[i].address - 25089), HeadOf(Available(iec[..i], modbus), iec[i].name.key);
    if named.None? then NoCounterpart(iec[i].address, expected)
    else WrongAddress(iec[i].address, named.value.address, expected)
  }

  /** The join fails with the error of the first setpoint that does not fit, having warned of the ones
      before it. */
  lemma FirstMisfitFails(device: string, iec: seq<IecRow>, modbus: seq<ModbusRow>, tags: seq<TagRow>, k: nat)
    requires AddressesDiffer(OfClass(modbus, 3)) && k < |iec|
    requires !Fits(iec, modbus, k) && forall i :: 0 <= i < k ==> Fits(iec, modbus, i)
    ensures var o := Join(device, iec, modbus, tags);
            && o.result == Failure(ErrorAt(iec, modbus, k))
            && ByFormulaAre(iec[..k], modbus, o.report.byFormula) && o.report.withoutReadback == OffRange(iec[..k])
            && o.report.unmatchedModbus == [] && o.report.unmatchedIec == []
  {
    var before := iec[..k];
    forall i | 0 <= i < k
      ensures Fits(before, modbus, i)
    {
      assert Fits(iec, modbus, i) && before[..i] == iec[..i] && before[i] == iec[i];
    }
    SetpointPassSucceedsIff(device, before, modbus);
    ByFormulaListed(device, before, modbus);
    WithoutReadbackIsOffRange(device, before, modbus);
    MisfitStep(device, iec, modbus, k);
    ErrorStays(device, iec, modbus, k + 1);
  }

  /** A setpoint that finds no register, or one that stands elsewhere. */
  lemma StepFails(device: string, index: map<int, ModbusRow>, st: Pass1, row: IecRow)
    requires forall m :: m in st.rest ==> m.regClass == 3
    requires forall a :: a in index ==> index[a].regClass == 3
    requires ClassOf(row) == Setpoint && st.error.None?
    requires var head := HeadOf(st.rest, row.name.key);
             if head.None? then Expected(row.address) !in index else head.value.address != Expected(row.address)
    ensures var n, head := Step1(device, index, st, row), HeadOf(st.rest, row.name.key);
            && n.byFormula == st.byFormula && n.withoutReadback == st.withoutReadback
            && n.error == Some(if head.None? then NoCounterpart(row.address, Expected(row.address))
                               else WrongAddress(row.address, head.value.address, Expected(row.address)))
  {
  }

  lemma MisfitStep(device: string, iec: seq<IecRow>, modbus: seq<ModbusRow>, k: nat)
    requires AddressesDiffer(OfClass(modbus, 3)) && k < |iec| && !Fits(iec, modbus, k)
    requires First(device, iec[..k], modbus).error.None? && First(device, iec[..k], modbus).rest == Available(iec[..k], modbus)
    ensures var st, n := First(device, iec[..k], modbus), First(device, iec[..k + 1], modbus);
            && n.error == Some(ErrorAt(iec, modbus, k))
            && n.byFormula == st.byFormula && n.withoutReadback == st.withoutReadback
  {
    assert iec[..k + 1][..k] == iec[..k];
    MisfitMisses(iec, modbus, k);
    StepFails(device, ByAddress(modbus), First(device, iec[..k], modbus), iec[k]);
  }

  lemma MisfitMisses(iec: seq<IecRow>, modbus: seq<ModbusRow>, k: nat)
    requires AddressesDiffer(OfClass(modbus, 3)) && k < |iec| && !Fits(iec, modbus, k)
    ensures ClassOf(iec[k]) == Setpoint
    ensures var head := HeadOf(Available(iec[..k], modbus), iec[k].name.key);
            if head.None? then Expected(iec[k].address) !in ByAddress(modbus)
            else head.value.address != Expected(iec[k].address)
  {
    AvailableDiffers(iec[..k], modbus);
  }

  lemma {:induction false} ErrorStays(device: string, iec: seq<IecRow>, modbus: seq<ModbusRow>, n: nat)
    requires n <= |iec| && First(device, iec[..n], modbus).error.Some?
    ensures First(device, iec, modbus) == First(device, iec[..n], modbus)
  {
    if n == |iec| {
      assert iec[..n] == iec;
    } else {
      var init := iec[..|iec| - 1];
      assert init[..n] == iec[..n];
      ErrorStays(device, init, modbus, n);
    }
  }

  /** The warnings of a join whose setpoint pass goes through. */
  lemma SetpointWarnings(device: string, iec: seq<IecRow>, modbus: seq<ModbusRow>, tags: seq<TagRow>)
    requires AddressesDiffer(OfClass(modbus, 3)) && First(device, iec, modbus).error.None?
    ensures var report := Join(device, iec, modbus, tags).report;
            ByFormulaAre(iec, modbus, report.byFormula) && report.withoutReadback == OffRange(iec)
  {
    ByFormulaListed(device, iec, modbus);
    WithoutReadbackIsOffRange(device, iec, modbus);
  }

  // ---- Repeated keys ----

  /** Of the holding registers at one address the fallback index has the last. */
  lemma {:induction false} IndexHasLast(modbus: seq<ModbusRow>, i: nat)
    requires i < |modbus| && modbus[i].regClass == 3
    requires forall j :: i < j < |modbus| && modbus[j].regClass == 3 ==> modbus[j].address != modbus[i].address
    ensures modbus[i].address in ByAddress(modbus) && ByAddress(modbus)[modbus[i].address] == modbus[i]
  {
    if i < |modbus| - 1 {
      IndexHasLast(modbus[..|modbus| - 1], i);
    }
  }

  /** Of the read-only rows at one address the tag dictionary has the last. */
  lemma {:induction false} TagsHaveLast(readOnly: seq<IecRow>, tags: seq<TagRow>, i: nat)
    requires |tags| == |readOnly| && i < |readOnly|
    requires forall j :: i < j < |readOnly| ==> readOnly[j].address != readOnly[i].address
    ensures readOnly[i].address in TagsByAddress(readOnly, tags)
    ensures TagsByAddress(readOnly, tags)[readOnly[i].address] == tags[i].tag
  {
    var n := |readOnly| - 1;
    if i < n {
      TagsHaveLast(readOnly[..n], tags[..n], i);
    }
  }
}
