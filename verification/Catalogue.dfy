/** The joins of all devices put together, against the validator's checks over the whole list. */
module Catalogue {
  import opened Prelude
  import opened Rows
  import opened JoinSpec
  import opened JoinTheorems
  import opened JoinPoints
  import JoinValidates
  import JoinDevice
  import opened Validator

  /** What the three files say about one device. */
  datatype Sheets = Sheets(device: string, iec: seq<IecRow>, modbus: seq<ModbusRow>, tags: seq<TagRow>)

  function Outcomes(x: Sheets): Outcome {
    Join(x.device, x.iec, x.modbus, x.tags)
  }

  function Concat(lists: seq<seq<JoinedPoint>>): seq<JoinedPoint> {
    if lists == [] then [] else Concat(lists[..|lists| - 1]) + lists[|lists| - 1]
  }

  /** `list` is a successful join of the sheets, in address order. */
  predicate IsJoin(x: Sheets, list: seq<JoinedPoint>) {
    Outcomes(x).result.Success? && InAddressOrder(list, Outcomes(x).result.value)
  }

  predicate Joins(inputs: seq<Sheets>, lists: seq<seq<JoinedPoint>>) {
    |lists| == |inputs| && forall i :: 0 <= i < |inputs| ==> IsJoin(inputs[i], lists[i])
  }

  lemma JoinsSnoc(inputs: seq<Sheets>, lists: seq<seq<JoinedPoint>>, x: Sheets, list: seq<JoinedPoint>)
    requires Joins(inputs, lists) && IsJoin(x, list)
    ensures Joins(inputs + [x], lists + [list])
  {
    forall i | 0 <= i < |lists| + 1
      ensures IsJoin((inputs + [x])[i], (lists + [list])[i])
    {
      if i < |lists| {
        assert IsJoin(inputs[i], lists[i]);
      }
    }
  }

  lemma JoinsNext(inputs: seq<Sheets>, lists: seq<seq<JoinedPoint>>, list: seq<JoinedPoint>)
    requires |lists| < |inputs| && Joins(inputs[..|lists|], lists) && IsJoin(inputs[|lists|], list)
    ensures Joins(inputs[..|lists| + 1], lists + [list])
    ensures Concat(lists + [list]) == Concat(lists) + list
  {
    PrefixSnoc(inputs, |lists|);
    JoinsSnoc(inputs[..|lists|], lists, inputs[|lists|], list);
    ConcatSnoc(lists, list);
  }

  lemma PrefixSnoc(inputs: seq<Sheets>, n: nat)
    requires n < |inputs|
    ensures inputs[..n + 1] == inputs[..n] + [inputs[n]]
  {
  }

  lemma ConcatSnoc(lists: seq<seq<JoinedPoint>>, list: seq<JoinedPoint>)
    ensures Concat(lists + [list]) == Concat(lists) + list
  {
    assert (lists + [list])[..|lists|] == lists;
  }

  lemma JoinOrError(x: Sheets, joined: Result<seq<JoinedPoint>, JoinError>)
    requires if Outcomes(x).result.Failure? then joined == Failure(Outcomes(x).result.error)
             else joined.Success? && InAddressOrder(joined.value, Outcomes(x).result.value)
    ensures joined.Success? ==> IsJoin(x, joined.value)
    ensures joined.Failure? ==> Outcomes(x).result == Failure(joined.error)
  {
  }

  /** What the joins of several devices add to their common report. */
  datatype Notes = Notes(
    unmatchedModbus: seq<JoinDevice.Noted<Unmatched>>,
    unmatchedIec: seq<JoinDevice.Noted<Unmatched>>,
    byFormula: seq<JoinDevice.Noted<FormulaJoin>>,
    withoutReadback: seq<JoinDevice.Noted<int>>)

  function Plus(a: Notes, x: Sheets): Notes {
    var r := Outcomes(x).report;
    Notes(a.unmatchedModbus + JoinDevice.Noting(x.device, r.unmatchedModbus),
          a.unmatchedIec + JoinDevice.Noting(x.device, r.unmatchedIec),
          a.byFormula + JoinDevice.Noting(x.device, r.byFormula),
          a.withoutReadback + JoinDevice.Noting(x.device, r.withoutReadback))
  }

  function NotedOver(start: Notes, inputs: seq<Sheets>): Notes {
    if inputs == [] then start else Plus(NotedOver(start, inputs[..|inputs| - 1]), inputs[|inputs| - 1])
  }

  function NotesIn(w: JoinDevice.JoinWarnings): Notes
    reads w
  {
    Notes(w.unmatchedModbus, w.unmatchedIec, w.byFormula, w.withoutReadback)
  }

  method JoinSheets(x: Sheets, warnings: JoinDevice.JoinWarnings) returns (r: Result<seq<JoinedPoint>, JoinError>)
    modifies warnings
    ensures NotesIn(warnings) == Plus(old(NotesIn(warnings)), x)
    ensures r.Success? ==> IsJoin(x, r.value)
    ensures r.Failure? ==> Outcomes(x).result == Failure(r.error)
  {
    r := JoinDevice.JoinDevice(x.device, x.iec, x.modbus, x.tags, warnings);
    JoinOrError(x, r);
  }

  /** The devices are joined one after another into one report; the first that fails ends the build,
      after adding what it had found. */
  method BuildPoints(inputs: seq<Sheets>, warnings: JoinDevice.JoinWarnings)
    returns (r: Result<seq<JoinedPoint>, JoinError>, ghost lists: seq<seq<JoinedPoint>>)
    modifies warnings
    ensures r.Success? ==> Joins(inputs, lists) && r.value == Concat(lists)
                           && NotesIn(warnings) == NotedOver(old(NotesIn(warnings)), inputs)
    ensures r.Failure? ==> |lists| < |inputs| && Joins(inputs[..|lists|], lists)
                           && Outcomes(inputs[|lists|]).result == Failure(r.error)
                           && NotesIn(warnings) == NotedOver(old(NotesIn(warnings)), inputs[..|lists| + 1])
  {
    var all: seq<JoinedPoint> := [];
    lists := [];
    ghost var start := NotesIn(warnings);
    for i := 0 to |inputs|
      invariant BuiltSoFar(inputs, i, lists, all, start, NotesIn(warnings))
    {
      ghost var notes := NotesIn(warnings);
      var joined := JoinSheets(inputs[i], warnings);
      NotedNext(start, inputs, i);
      if joined.Failure? {
        return Failure(joined.error), lists;
      }
      BuiltNext(inputs, i, lists, all, start, notes, joined.value);
      lists := lists + [joined.value];
      all := all + joined.value;
    }
    assert inputs[..|inputs|] == inputs;
    r := Success(all);
  }

  /** The first `i` devices are joined and noted. */
  ghost predicate BuiltSoFar(inputs: seq<Sheets>, i: nat, lists: seq<seq<JoinedPoint>>, all: seq<JoinedPoint>,
                             start: Notes, notes: Notes) {
    && i <= |inputs|
    && |lists| == i
    && Joins(inputs[..i], lists)
    && all == Concat(lists)
    && notes == NotedOver(start, inputs[..i])
  }

  lemma BuiltNext(inputs: seq<Sheets>, i: nat, lists: seq<seq<JoinedPoint>>, all: seq<JoinedPoint>,
                  start: Notes, notes: Notes, list: seq<JoinedPoint>)
    requires BuiltSoFar(inputs, i, lists, all, start, notes) && i < |inputs| && IsJoin(inputs[i], list)
    ensures BuiltSoFar(inputs, i + 1, lists + [list], all + list, start, Plus(notes, inputs[i]))
  {
    NotedNext(start, inputs, i);
    JoinsNext(inputs, lists, list);
  }

  lemma NotedNext(start: Notes, inputs: seq<Sheets>, i: nat)
    requires i < |inputs|
    ensures NotedOver(start, inputs[..i + 1]) == Plus(NotedOver(start, inputs[..i]), inputs[i])
  {
    assert inputs[..i + 1][..i] == inputs[..i];
  }

  // ---- The checks over a concatenation ----

  lemma {:induction false} SlotsConcat(a: seq<JoinedPoint>, b: seq<JoinedPoint>)
    ensures IecSlots(a + b) == IecSlots(a) + IecSlots(b)
    ensures ModbusSlots(a + b) == ModbusSlots(a) + ModbusSlots(b)
  {
    if b == [] {
      assert a + b == a;
    } else {
      SlotsConcat(a, b[..|b| - 1]);
      assert (a + b)[..|a + b| - 1] == a + b[..|b| - 1];
    }
  }

  lemma {:induction false} CountsConcat(a: seq<JoinedPoint>, b: seq<JoinedPoint>, device: string)
    ensures TagCount(a + b, device) == TagCount(a, device) + TagCount(b, device)
    ensures ReadOnlyCount(a + b, device) == ReadOnlyCount(a, device) + ReadOnlyCount(b, device)
    ensures Setpoints(a + b) == Setpoints(a) + Setpoints(b)
  {
    if b == [] {
      assert a + b == a;
    } else {
      CountsConcat(a, b[..|b| - 1], device);
      assert (a + b)[..|a + b| - 1] == a + b[..|b| - 1];
    }
  }

  lemma RepeatedConcat(s: seq<(string, int)>, t: seq<(string, int)>)
    requires Repeated(s) == {} && Repeated(t) == {} && forall x :: x in s ==> x !in t
    ensures Repeated(s + t) == {}
  {
    forall x | x in s + t
      ensures multiset(s + t)[x] <= 1
    {
      assert multiset(s + t)[x] == multiset(s)[x] + multiset(t)[x];
      assert x in s ==> x !in Repeated(s) && x !in t;
      assert x in t ==> x !in Repeated(t) && x !in s;
    }
  }

  /** Every slot belongs to a listed point's device. */
  lemma {:induction false} SlotDevices(list: seq<JoinedPoint>, devices: set<string>)
    requires forall p :: p in list ==> p.device in devices
    ensures forall x :: x in IecSlots(list) ==> x.0 in devices
    ensures forall x :: x in ModbusSlots(list) ==> x.0 in devices
  {
    if list != [] {
      var init, last := list[..|list| - 1], list[|list| - 1];
      SlotDevices(init, devices);
      SlotsConcat(init, [last]);
      assert list == init + [last] && last in list;
    }
  }

  // ---- The whole catalogue ----

  predicate DistinctDevices(inputs: seq<Sheets>) {
    forall i, j :: 0 <= i < j < |inputs| ==> inputs[i].device != inputs[j].device
  }

  predicate DistinctRows(inputs: seq<Sheets>) {
    forall i :: 0 <= i < |inputs| ==> DistinctAddresses(inputs[i].iec)
  }

  predicate DistinctRegisterRows(inputs: seq<Sheets>) {
    forall i :: 0 <= i < |inputs| ==> AddressesDiffer(Poolable(inputs[i].modbus))
  }

  lemma ListDevice(x: Sheets, list: seq<JoinedPoint>)
    requires DistinctAddresses(x.iec) && IsJoin(x, list)
    ensures forall p :: p in list ==> p.device == x.device
  {
    JoinValidates.ResultKeyed(x.device, x.iec, x.modbus, x.tags);
  }

  ghost predicate FromListed(inputs: seq<Sheets>, device: string) {
    exists i :: 0 <= i < |inputs| && inputs[i].device == device
  }

  lemma FromPrefix(inputs: seq<Sheets>, n: nat, device: string)
    requires n <= |inputs| && FromListed(inputs[..n], device)
    ensures FromListed(inputs, device)
  {
    var i :| 0 <= i < n && inputs[..n][i].device == device;
    assert inputs[i].device == device;
  }

  lemma {:induction false} ConcatDevices(inputs: seq<Sheets>, lists: seq<seq<JoinedPoint>>)
    requires Joins(inputs, lists) && DistinctRows(inputs)
    ensures forall p :: p in Concat(lists) ==> FromListed(inputs, p.device)
  {
    if inputs != [] {
      var n := |inputs| - 1;
      ConcatDevices(inputs[..n], lists[..n]);
      ListDevice(inputs[n], lists[n]);
      forall p | p in Concat(lists)
        ensures FromListed(inputs, p.device)
      {
        if p in Concat(lists[..n]) {
          FromPrefix(inputs, n, p.device);
        } else {
          assert inputs[n].device == p.device;
        }
      }
    }
  }

  lemma CollisionStep(before: seq<JoinedPoint>, list: seq<JoinedPoint>, device: string)
    requires Repeated(IecSlots(before)) == {} && Repeated(ModbusSlots(before)) == {}
    requires Repeated(IecSlots(list)) == {} && Repeated(ModbusSlots(list)) == {}
    requires (forall p :: p in list ==> p.device == device) && forall p :: p in before ==> p.device != device
    ensures Repeated(IecSlots(before + list)) == {} && Repeated(ModbusSlots(before + list)) == {}
  {
    var devices := set p | p in before :: p.device;
    SlotDevices(before, devices);
    SlotDevices(list, {device});
    assert device !in devices;
    SlotsConcat(before, list);
    RepeatedConcat(IecSlots(before), IecSlots(list));
    RepeatedConcat(ModbusSlots(before), ModbusSlots(list));
  }

  lemma OtherDevices(inputs: seq<Sheets>, lists: seq<seq<JoinedPoint>>)
    requires inputs != [] && Joins(inputs[..|inputs| - 1], lists) && DistinctDevices(inputs) && DistinctRows(inputs)
    ensures forall p :: p in Concat(lists) ==> p.device != inputs[|inputs| - 1].device
  {
    var n := |inputs| - 1;
    ConcatDevices(inputs[..n], lists);
    forall p | p in Concat(lists)
      ensures p.device != inputs[n].device
    {
      assert FromListed(inputs[..n], p.device);
      var i :| 0 <= i < n && inputs[..n][i].device == p.device;
      assert inputs[..n][i] == inputs[i];
    }
  }

  /** No address collision in the whole catalogue, given distinct addresses per device and file. */
  lemma {:induction false} CatalogueHasNoCollisions(inputs: seq<Sheets>, lists: seq<seq<JoinedPoint>>)
    requires Joins(inputs, lists) && DistinctDevices(inputs) && DistinctRows(inputs) && DistinctRegisterRows(inputs)
    ensures Repeated(IecSlots(Concat(lists))) == {} && Repeated(ModbusSlots(Concat(lists))) == {}
  {
    if inputs != [] {
      var n := |inputs| - 1;
      var x := inputs[n];
      assert IsJoin(x, lists[n]);
      CatalogueHasNoCollisions(inputs[..n], lists[..n]);
      JoinValidates.JoinPassesCollisionCheck(x.device, x.iec, x.modbus, x.tags, lists[n]);
      OtherDevices(inputs, lists[..n]);
      ListDevice(x, lists[n]);
      CollisionStep(Concat(lists[..n]), lists[n], x.device);
    }
  }

  /** As many tags as read-only points for every device of the whole catalogue. */
  lemma {:induction false} CatalogueTagsMatch(inputs: seq<Sheets>, lists: seq<seq<JoinedPoint>>, device: string)
    requires Joins(inputs, lists) && DistinctRows(inputs)
    ensures TagCount(Concat(lists), device) == ReadOnlyCount(Concat(lists), device)
  {
    if inputs != [] {
      var n := |inputs| - 1;
      var x := inputs[n];
      CatalogueTagsMatch(inputs[..n], lists[..n], device);
      JoinValidates.JoinPassesTagCheck(x.device, x.iec, x.modbus, x.tags, lists[n], device);
      CountsConcat(Concat(lists[..n]), lists[n], device);
    }
  }

  // ---- The formula over the whole catalogue ----

  function SetpointRows(inputs: seq<Sheets>): seq<int> {
    if inputs == [] then [] else SetpointRows(inputs[..|inputs| - 1]) + SetpointRowsOf(inputs[|inputs| - 1].iec)
  }

  function SetpointRowsOf(iec: seq<IecRow>): seq<int> {
    if iec == [] then []
    else
      var last := iec[|iec| - 1];
      SetpointRowsOf(iec[..|iec| - 1]) + if ClassOf(last) == Setpoint then [last.address] else []
  }

  predicate InRange(addresses: seq<int>) {
    forall a :: a in addresses ==> SETPOINT_BASE_IEC <= a <= SETPOINT_MAX_IEC
  }

  lemma {:induction false} SetpointRowsAre(iec: seq<IecRow>)
    ensures forall a :: a in SetpointRowsOf(iec)
              <==> exists i :: 0 <= i < |iec| && ClassOf(iec[i]) == Setpoint && iec[i].address == a
  {
    if iec != [] {
      var init, last := iec[..|iec| - 1], iec[|iec| - 1];
      SetpointRowsAre(init);
      forall a
        ensures a in SetpointRowsOf(iec)
                <==> exists i :: 0 <= i < |iec| && ClassOf(iec[i]) == Setpoint && iec[i].address == a
      {
        if a in SetpointRowsOf(init) {
          var i :| 0 <= i < |init| && ClassOf(init[i]) == Setpoint && init[i].address == a;
          assert iec[i] == init[i];
        } else if a in SetpointRowsOf(iec) {
          assert iec[|iec| - 1].address == a;
        }
        if i :| 0 <= i < |iec| && ClassOf(iec[i]) == Setpoint && iec[i].address == a {
          assert i < |init| ==> init[i] == iec[i];
        }
      }
    }
  }

  lemma {:induction false} SetpointRowsDiffer(iec: seq<IecRow>)
    requires DistinctAddresses(iec)
    ensures forall i, j :: 0 <= i < j < |SetpointRowsOf(iec)| ==> SetpointRowsOf(iec)[i] != SetpointRowsOf(iec)[j]
  {
    if iec != [] {
      var init, last := iec[..|iec| - 1], iec[|iec| - 1];
      SetpointRowsDiffer(init);
      SetpointRowsAre(init);
      forall k | 0 <= k < |SetpointRowsOf(init)|
        ensures SetpointRowsOf(init)[k] != last.address
      {
        assert SetpointRowsOf(init)[k] in SetpointRowsOf(init);
        var i :| 0 <= i < |init| && ClassOf(init[i]) == Setpoint && init[i].address == SetpointRowsOf(init)[k];
        assert iec[i] == init[i];
      }
    }
  }

  lemma JoinedSetpoints(x: Sheets, list: seq<JoinedPoint>)
    requires DistinctAddresses(x.iec) && IsJoin(x, list)
    ensures |Setpoints(list)| == |SetpointRowsOf(x.iec)|
    ensures (forall p :: p in list && p.pointClass == Setpoint ==> MeetsFormula(p)) <==> InRange(SetpointRowsOf(x.iec))
  {
    var points := Outcomes(x).result.value;
    var found := JoinValidates.SetpointAddresses(points);
    JoinValidates.ResultKeyed(x.device, x.iec, x.modbus, x.tags);
    JoinValidates.CountsAreSizes(list, points, x.device);
    JoinValidates.FormulaOverListing(list, points);
    SetpointRowsAre(x.iec);
    SetpointRowsDiffer(x.iec);
    forall a
      ensures a in found <==> a in SetpointRowsOf(x.iec)
    {
      SetpointHasRow(x, a);
    }
    JoinValidates.DistinctSize(SetpointRowsOf(x.iec), found);
    forall a | a in found
      ensures MeetsFormula(points[a]) <==> SETPOINT_BASE_IEC <= a <= SETPOINT_MAX_IEC
    {
      JoinValidates.SetpointMeetsFormulaIff(x.device, x.iec, x.modbus, x.tags, a);
    }
  }

  lemma SetpointHasRow(x: Sheets, a: int)
    requires DistinctAddresses(x.iec) && Outcomes(x).result.Success?
    ensures a in JoinValidates.SetpointAddresses(Outcomes(x).result.value)
            <==> exists i :: 0 <= i < |x.iec| && ClassOf(x.iec[i]) == Setpoint && x.iec[i].address == a
  {
    var points := Outcomes(x).result.value;
    if a in JoinValidates.SetpointAddresses(points) {
      JoinValidates.DeviceOf(x.device, x.iec, x.modbus, x.tags, a);
      var row :| row in x.iec && row.address == a && Describes(x.device, row, points[a].(tag := None));
      var i :| 0 <= i < |x.iec| && x.iec[i] == row;
    }
    if i :| 0 <= i < |x.iec| && ClassOf(x.iec[i]) == Setpoint && x.iec[i].address == a {
      TagOfRow(x.device, x.iec, x.modbus, x.tags, x.iec[i]);
    }
  }

  /** The whole catalogue passes the formula check exactly when the files hold 148 setpoint rows and
      all of them lie in the range the formula is made for. */
  lemma {:induction false} CataloguePassesFormulaCheckIff(inputs: seq<Sheets>, lists: seq<seq<JoinedPoint>>)
    requires Joins(inputs, lists) && DistinctRows(inputs)
    ensures |Setpoints(Concat(lists))| == |SetpointRows(inputs)|
    ensures (forall p :: p in Concat(lists) && p.pointClass == Setpoint ==> MeetsFormula(p))
            <==> InRange(SetpointRows(inputs))
  {
    if inputs != [] {
      var n := |inputs| - 1;
      CataloguePassesFormulaCheckIff(inputs[..n], lists[..n]);
      JoinedSetpoints(inputs[n], lists[n]);
      FormulaStep(Concat(lists[..n]), lists[n], SetpointRows(inputs[..n]), SetpointRowsOf(inputs[n].iec));
    }
  }

  lemma FormulaStep(before: seq<JoinedPoint>, list: seq<JoinedPoint>, rows: seq<int>, more: seq<int>)
    requires |Setpoints(before)| == |rows| && |Setpoints(list)| == |more|
    requires (forall p :: p in before && p.pointClass == Setpoint ==> MeetsFormula(p)) <==> InRange(rows)
    requires (forall p :: p in list && p.pointClass == Setpoint ==> MeetsFormula(p)) <==> InRange(more)
    ensures |Setpoints(before + list)| == |rows + more|
    ensures (forall p :: p in before + list && p.pointClass == Setpoint ==> MeetsFormula(p)) <==> InRange(rows + more)
  {
    CountsConcat(before, list, "");
    assert forall p :: p in before + list <==> p in before || p in list;
    assert forall a :: a in rows + more <==> a in rows || a in more;
  }
}
