/** The catalog checks that look at joined points, as the validator runs them. */
module Validator {
  import opened Prelude
  import opened Rows

  const SETPOINT_COUNT := 148

  // ---- Address collisions ----

  function IecSlots(records: seq<JoinedPoint>): seq<(string, int)> {
    seq(|records|, i requires 0 <= i < |records| => (records[i].device, records[i].iec104Addr))
  }

  function ModbusSlots(records: seq<JoinedPoint>): seq<(string, int)> {
    if records == [] then []
    else
      var init, last := ModbusSlots(records[..|records| - 1]), records[|records| - 1];
      if last.modbusAddr.Some? then init + [(last.device, last.modbusAddr.value)] else init
  }

  /** What occurs more than once. */
  function Repeated(slots: seq<(string, int)>): set<(string, int)> {
    set x | x in slots && multiset(slots)[x] > 1
  }

  method CheckNoAddressCollisions(records: seq<JoinedPoint>) returns (iec: set<(string, int)>,
                                  modbus: set<(string, int)>)
    ensures iec == Repeated(IecSlots(records)) && modbus == Repeated(ModbusSlots(records))
  {
    var iecSeen: multiset<(string, int)>, modbusSeen: multiset<(string, int)> := multiset{}, multiset{};
    for i := 0 to |records|
      invariant iecSeen == multiset(IecSlots(records)[..i])
      invariant modbusSeen == multiset(ModbusSlots(records[..i]))
    {
      var r := records[i];
      assert records[..i + 1][..i] == records[..i];
      assert IecSlots(records)[..i + 1] == IecSlots(records)[..i] + [(r.device, r.iec104Addr)];
      iecSeen := iecSeen + multiset{(r.device, r.iec104Addr)};
      if r.modbusAddr.Some? {
        modbusSeen := modbusSeen + multiset{(r.device, r.modbusAddr.value)};
      }
    }
    assert records[..|records|] == records && IecSlots(records)[..|records|] == IecSlots(records);
    iec := set x | x in iecSeen && iecSeen[x] > 1;
    modbus := set x | x in modbusSeen && modbusSeen[x] > 1;
  }

  // ---- Tags against read-only points ----

  function TagCount(records: seq<JoinedPoint>, device: string): nat {
    if records == [] then 0
    else
      var last := records[|records| - 1];
      TagCount(records[..|records| - 1], device) + if last.device == device && last.tag.Some? then 1 else 0
  }

  function ReadOnlyCount(records: seq<JoinedPoint>, device: string): nat {
    if records == [] then 0
    else
      var last := records[|records| - 1];
      ReadOnlyCount(records[..|records| - 1], device) + if last.device == device && last.access == "RO" then 1 else 0
  }

  ghost predicate Counted(records: seq<JoinedPoint>, tags: map<string, nat>, readOnly: map<string, nat>) {
    && tags.Keys == readOnly.Keys
    && (forall d :: TagCount(records, d) == if d in tags then tags[d] else 0)
    && (forall d :: ReadOnlyCount(records, d) == if d in readOnly then readOnly[d] else 0)
  }

  lemma CountedSnoc(records: seq<JoinedPoint>, tags: map<string, nat>, readOnly: map<string, nat>, r: JoinedPoint,
                    t: nat, n: nat)
    requires Counted(records, tags, readOnly)
    requires t == TagCount(records, r.device) + if r.tag.Some? then 1 else 0
    requires n == ReadOnlyCount(records, r.device) + if r.access == "RO" then 1 else 0
    ensures Counted(records + [r], tags[r.device := t], readOnly[r.device := n])
  {
    var longer, tags', readOnly' := records + [r], tags[r.device := t], readOnly[r.device := n];
    forall d
      ensures TagCount(longer, d) == if d in tags' then tags'[d] else 0
      ensures ReadOnlyCount(longer, d) == if d in readOnly' then readOnly'[d] else 0
    {
      CountsSnoc(records, r, d);
    }
  }

  lemma CountsSnoc(records: seq<JoinedPoint>, r: JoinedPoint, d: string)
    ensures TagCount(records + [r], d) == TagCount(records, d) + if d == r.device && r.tag.Some? then 1 else 0
    ensures ReadOnlyCount(records + [r], d)
            == ReadOnlyCount(records, d) + if d == r.device && r.access == "RO" then 1 else 0
  {
    assert (records + [r])[..|records|] == records;
  }

  /** The devices whose tags and read-only points differ in number. */
  method CheckTagCount(records: seq<JoinedPoint>) returns (off: set<string>)
    ensures forall d :: d in off <==> TagCount(records, d) != ReadOnlyCount(records, d)
  {
    var tags: map<string, nat>, readOnly: map<string, nat> := map[], map[];
    for i := 0 to |records|
      invariant Counted(records[..i], tags, readOnly)
    {
      var r := records[i];
      var t := (if r.device in tags then tags[r.device] else 0) + if r.tag.Some? then 1 else 0;
      var n := (if r.device in readOnly then readOnly[r.device] else 0) + if r.access == "RO" then 1 else 0;
      CountedSnoc(records[..i], tags, readOnly, r, t, n);
      assert records[..i + 1] == records[..i] + [r];
      tags := tags[r.device := t];
      readOnly := readOnly[r.device := n];
    }
    assert records[..|records|] == records;
    off := set d | d in tags && tags[d] != readOnly[d];
  }

  // ---- The setpoint formula ----

  datatype Violation = SetpointCountIs(n: nat) | ModbusOff(address: int) | ReadbackOff(address: int)

  function Setpoints(records: seq<JoinedPoint>): seq<JoinedPoint> {
    if records == [] then []
    else
      var init, last := Setpoints(records[..|records| - 1]), records[|records| - 1];
      if last.pointClass == Setpoint then init + [last] else init
  }

  predicate MeetsFormula(p: JoinedPoint) {
    p.modbusAddr == Some(Expected(p.iec104Addr))
    && p.readbackAddr == Some(READBACK_BASE_IEC + (p.iec104Addr - SETPOINT_BASE_IEC))
  }

  /** The two formulas in numbers, and how many setpoints there are to be. */
  lemma FormulaInNumbers(p: JoinedPoint)
    ensures MeetsFormula(p) <==> && p.modbusAddr == Some(40001 + 2 * (p.iec104Addr - 25089))
                                 && p.readbackAddr == Some(16411 + (p.iec104Addr - 25089))
    ensures SETPOINT_COUNT == 148 == 25236 - 25089 + 1
  {
  }

  method CheckSetpointFormula(records: seq<JoinedPoint>) returns (failures: seq<Violation>)
    ensures failures == [] <==>
            |Setpoints(records)| == SETPOINT_COUNT && forall p :: p in records && p.pointClass == Setpoint ==> MeetsFormula(p)
  {
    failures := [];
    var n := 0;
    for i := 0 to |records|
      invariant n == |Setpoints(records[..i])|
      invariant failures == [] <==> forall j :: 0 <= j < i && records[j].pointClass == Setpoint ==> MeetsFormula(records[j])
    {
      var r := records[i];
      assert records[..i + 1][..i] == records[..i];
      if r.pointClass == Setpoint {
        n := n + 1;
        if r.modbusAddr != Some(Expected(r.iec104Addr)) {
          failures := failures + [ModbusOff(r.iec104Addr)];
        }
        if r.readbackAddr != Some(READBACK_BASE_IEC + (r.iec104Addr - SETPOINT_BASE_IEC)) {
          failures := failures + [ReadbackOff(r.iec104Addr)];
        }
      }
    }
    assert records[..|records|] == records;
    if n != SETPOINT_COUNT {
      failures := [SetpointCountIs(n)] + failures;
    }
  }
}
