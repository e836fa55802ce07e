/** The rows of the three register-map files and the joined point. */
module Rows {
  import opened Prelude

  /** A name as written, with the key the normaliser gives it. */
  datatype Name = Name(raw: string, key: string)

  datatype IecRow = IecRow(
    deviceAddr: int,
    address: int,
    name: Name,
    access: string,
    dataType: string,
    precision: Option<string>,
    attribute: Option<string>,
    description: Option<string>)

  /** `regClass` is 2 for discrete inputs, 3 for holding and 4 for input registers. */
  datatype ModbusRow = ModbusRow(
    deviceAddr: int,
    regClass: int,
    address: int,
    name: Name,
    access: string,
    dataType: string,
    precision: Option<string>,
    attribute: Option<string>,
    description: Option<string>)

  datatype TagRow = TagRow(tag: string, name: string)

  datatype PointClass = Alarm | Telemetry | Setpoint

  datatype JoinedPoint = JoinedPoint(
    device: string,
    deviceAddr: int,
    tag: Option<string>,
    nameRaw: string,
    pointClass: PointClass,
    access: string,
    iec104Addr: int,
    modbusAddr: Option<int>,
    modbusClass: Option<int>,
    modbusFunction: Option<seq<int>>,
    dataType: string,
    precisionIec: Option<string>,
    precisionModbus: Option<string>,
    description: Option<string>,
    readbackAddr: Option<int>,
    sources: seq<string>)

  const READBACK_BASE_IEC := 16411
  const SETPOINT_BASE_IEC := 25089
  const SETPOINT_MAX_IEC := 25236

  function ClassOf(row: IecRow): PointClass {
    if row.attribute == Some("alarm") then Alarm
    else if row.access == "WO" then Setpoint
    else Telemetry
  }

  /** The Modbus address the control formula requires of a setpoint. */
  function Expected(address: int): int {
    40001 + (address - SETPOINT_BASE_IEC) * 2
  }

  function ReadbackOf(address: int): Option<int> {
    if SETPOINT_BASE_IEC <= address <= SETPOINT_MAX_IEC
    then Some(READBACK_BASE_IEC + (address - SETPOINT_BASE_IEC))
    else None
  }

  /** Defined for the register classes the pools hold. */
  function ModbusFunction(regClass: int): seq<int>
    requires regClass in {2, 3, 4}
  {
    if regClass == 2 then [2] else if regClass == 3 then [3, 6, 16] else [4]
  }

  function NewPoint(device: string, row: IecRow, m: Option<ModbusRow>, readback: Option<int>): JoinedPoint
    requires m.Some? ==> m.value.regClass in {2, 3, 4}
  {
    JoinedPoint(
      device, row.deviceAddr, None, row.name.raw, ClassOf(row), row.access, row.address,
      if m.Some? then Some(m.value.address) else None,
      if m.Some? then Some(m.value.regClass) else None,
      if m.Some? then Some(ModbusFunction(m.value.regClass)) else None,
      row.dataType, row.precision,
      if m.Some? then m.value.precision else None,
      row.description, readback,
      ["IEC104"] + if m.Some? then ["Modbus"] else [])
  }

  function OfClass(rows: seq<ModbusRow>, regClass: int): (r: seq<ModbusRow>)
    ensures forall m :: m in r ==> m.regClass == regClass && m in rows
  {
    if rows == [] then []
    else
      var init, last := OfClass(rows[..|rows| - 1], regClass), rows[|rows| - 1];
      if last.regClass == regClass then init + [last] else init
  }

  /** The rows carrying one key, in order. */
  function WithKey(rows: seq<ModbusRow>, key: string): (r: seq<ModbusRow>)
    ensures forall m :: m in r <==> m in rows && m.name.key == key
  {
    if rows == [] then []
    else if rows[0].name.key == key then [rows[0]] + WithKey(rows[1..], key)
    else WithKey(rows[1..], key)
  }

  /** The first row carrying the key. */
  function HeadOf(rows: seq<ModbusRow>, key: string): (r: Option<ModbusRow>)
    ensures r.Some? ==> r.value in rows && r.value.name.key == key
    ensures r.None? <==> forall m :: m in rows ==> m.name.key != key
  {
    if rows == [] then None
    else if rows[0].name.key == key then Some(rows[0])
    else HeadOf(rows[1..], key)
  }

  /** All but the first row carrying the key. */
  function DropKey(rows: seq<ModbusRow>, key: string): (r: seq<ModbusRow>)
    ensures forall m :: m in r ==> m in rows
  {
    if rows == [] then []
    else if rows[0].name.key == key then rows[1..]
    else [rows[0]] + DropKey(rows[1..], key)
  }

  /** All but the first row equal to `row`. */
  function RemoveFirst(rows: seq<ModbusRow>, row: ModbusRow): (r: seq<ModbusRow>)
    ensures forall m :: m in r ==> m in rows
  {
    if rows == [] then []
    else if rows[0] == row then rows[1..]
    else [rows[0]] + RemoveFirst(rows[1..], row)
  }

  lemma {:induction false} HeadIsQueueHead(rows: seq<ModbusRow>, key: string)
    ensures HeadOf(rows, key) == if WithKey(rows, key) == [] then None else Some(WithKey(rows, key)[0])
  {
    if rows != [] && rows[0].name.key != key {
      HeadIsQueueHead(rows[1..], key);
    }
  }

  lemma {:induction false} QueueAfterDrop(rows: seq<ModbusRow>, key: string, k: string)
    ensures WithKey(DropKey(rows, key), k) ==
            if k == key && WithKey(rows, key) != [] then WithKey(rows, key)[1..] else WithKey(rows, k)
  {
    if rows != [] && rows[0].name.key != key {
      QueueAfterDrop(rows[1..], key, k);
      assert DropKey(rows, key)[1..] == DropKey(rows[1..], key);
    }
  }

  lemma {:induction false} QueueAfterRemove(rows: seq<ModbusRow>, row: ModbusRow, k: string)
    ensures WithKey(RemoveFirst(rows, row), k) ==
            if k == row.name.key then RemoveFirst(WithKey(rows, k), row) else WithKey(rows, k)
  {
    if rows != [] && rows[0] != row {
      QueueAfterRemove(rows[1..], row, k);
      assert RemoveFirst(rows, row)[1..] == RemoveFirst(rows[1..], row);
      if k == row.name.key == rows[0].name.key {
        assert WithKey(rows, k)[1..] == WithKey(rows[1..], k);
      }
    } else if rows != [] && k == row.name.key {
      assert WithKey(rows, k)[1..] == WithKey(rows[1..], k);
    }
  }

  lemma {:induction false} DropCount(rows: seq<ModbusRow>, key: string)
    ensures HeadOf(rows, key).None? ==> DropKey(rows, key) == rows
    ensures HeadOf(rows, key).Some?
            ==> multiset(rows) == multiset(DropKey(rows, key)) + multiset{HeadOf(rows, key).value}
  {
    if rows != [] {
      assert rows == [rows[0]] + rows[1..];
      if rows[0].name.key != key {
        DropCount(rows[1..], key);
      }
    }
  }

  lemma {:induction false} RemoveCount(rows: seq<ModbusRow>, row: ModbusRow)
    ensures row !in rows ==> RemoveFirst(rows, row) == rows
    ensures row in rows ==> multiset(rows) == multiset(RemoveFirst(rows, row)) + multiset{row}
  {
    if rows != [] {
      assert rows == [rows[0]] + rows[1..];
      if rows[0] != row {
        RemoveCount(rows[1..], row);
      }
    }
  }
}
