/** The join as the catalog builder runs it: queues that are consumed, dictionaries that are
    filled, tags that move from readback points to setpoints. */
module JoinDevice {
  import opened Prelude
  import opened Rows
  import opened NamePools
  import opened JoinSpec

  datatype Noted<+T> = Noted(device: string, item: T)

  function Noting<T>(device: string, items: seq<T>): (r: seq<Noted<T>>)
    ensures |r| == |items| && forall i :: 0 <= i < |items| ==> r[i] == Noted(device, items[i])
  {
    seq(|items|, i requires 0 <= i < |items| => Noted(device, items[i]))
  }

  class JoinWarnings {
    var unmatchedModbus: seq<Noted<Unmatched>>
    var unmatchedIec: seq<Noted<Unmatched>>
    var byFormula: seq<Noted<FormulaJoin>>
    var withoutReadback: seq<Noted<int>>

    constructor ()
      ensures unmatchedModbus == unmatchedIec == [] && byFormula == [] && withoutReadback == []
    {
      unmatchedModbus, unmatchedIec, byFormula, withoutReadback := [], [], [], [];
    }
  }

  method IndexByAddress(modbus: seq<ModbusRow>) returns (index: map<int, ModbusRow>)
    ensures index == ByAddress(modbus)
  {
    index := map[];
    for i := 0 to |modbus|
      invariant index == ByAddress(modbus[..i])
    {
      assert modbus[..i + 1][..i] == modbus[..i];
      if modbus[i].regClass == 3 {
        index := index[modbus[i].address := modbus[i]];
      }
    }
    assert modbus[..|modbus|] == modbus;
  }

  lemma NotingAppend<T>(device: string, base: seq<Noted<T>>, items: seq<T>, item: T)
    ensures base + Noting(device, items + [item]) == base + Noting(device, items) + [Noted(device, item)]
  {
  }

  lemma {:induction false} ErrorStays(device: string, iec: seq<IecRow>, modbus: seq<ModbusRow>, n: nat)
    requires n <= |iec| && First(device, iec[..n], modbus).error.Some?
    ensures First(device, iec, modbus) == First(device, iec[..n], modbus)
  {
    if n == |iec| {
      assert iec[..n] == iec;
    } else {
      assert iec[..|iec| - 1][..n] == iec[..n];
      ErrorStays(device, iec[..|iec| - 1], modbus, n);
    }
  }

  /** One setpoint row: by name if the name has a row left, else by formula, and in both cases
      at the address the formula requires. */
  method JoinSetpoint(device: string, row: IecRow, index: map<int, ModbusRow>, pool: NamePool, warnings: JoinWarnings,
                      points: map<int, JoinedPoint>, claimed: map<int, int>,
                      ghost st: Pass1, ghost formulas: seq<Noted<FormulaJoin>>, ghost unread: seq<Noted<int>>)
    returns (points': map<int, JoinedPoint>, claimed': map<int, int>, error: Option<JoinError>)
    requires warnings.byFormula == formulas + Noting(device, st.byFormula)
    requires warnings.withoutReadback == unread + Noting(device, st.withoutReadback)
    requires pool.Valid() && pool.rest == st.rest && points == st.points && claimed == st.claimed && st.error.None?
    requires ClassOf(row) == Setpoint
    requires forall m :: m in st.rest ==> m.regClass == 3
    requires forall a :: a in index ==> index[a].regClass == 3
    modifies pool, warnings`byFormula, warnings`withoutReadback
    ensures pool.Valid()
    ensures var n := Step1(device, index, st, row);
            && points' == n.points && claimed' == n.claimed && error == n.error && pool.rest == n.rest
            && warnings.byFormula == formulas + Noting(device, n.byFormula)
            && warnings.withoutReadback == unread + Noting(device, n.withoutReadback)
  {
    points', claimed', error := points, claimed, None;
    var expected := Expected(row.address);
    var mrow := pool.PopLeft(row.name.key);
    if mrow.None? {
      DropCount(st.rest, row.name.key);
      if expected !in index {
        error := Some(NoCounterpart(row.address, expected));
        return;
      }
      mrow := Some(index[expected]);
      pool.Remove(mrow.value);
      NotingAppend(device, formulas, st.byFormula, FormulaJoin(row.address, row.name.raw, mrow.value.name.raw));
      warnings.byFormula := warnings.byFormula + [Noted(device, FormulaJoin(row.address, row.name.raw, mrow.value.name.raw))];
    } else if mrow.value.address != expected {
      error := Some(WrongAddress(row.address, mrow.value.address, expected));
      return;
    }
    var readback := ReadbackOf(row.address);
    if readback.Some? {
      claimed' := claimed'[readback.value := row.address];
    } else {
      NotingAppend(device, unread, st.withoutReadback, row.address);
      warnings.withoutReadback := warnings.withoutReadback + [Noted(device, row.address)];
    }
    points' := points'[row.address := NewPoint(device, row, mrow, readback)];
  }

  method JoinSetpoints(device: string, iec: seq<IecRow>, modbus: seq<ModbusRow>, pool: NamePool,
                       warnings: JoinWarnings)
    returns (points: map<int, JoinedPoint>, claimed: map<int, int>, error: Option<JoinError>)
    requires pool.Valid() && pool.rest == OfClass(modbus, 3)
    modifies pool, warnings`byFormula, warnings`withoutReadback
    ensures pool.Valid()
    ensures var st := First(device, iec, modbus);
            && points == st.points && claimed == st.claimed && error == st.error && pool.rest == st.rest
            && warnings.byFormula == old(warnings.byFormula) + Noting(device, st.byFormula)
            && warnings.withoutReadback == old(warnings.withoutReadback) + Noting(device, st.withoutReadback)
  {
    var setpointByAddr := IndexByAddress(modbus);
    points, claimed, error := map[], map[], None;
    ghost var st := First(device, [], modbus);
    for i := 0 to |iec|
      invariant st == First(device, iec[..i], modbus)
      invariant pool.Valid() && pool.rest == st.rest
      invariant points == st.points && claimed == st.claimed && st.error == error == None
      invariant warnings.byFormula == old(warnings.byFormula) + Noting(device, st.byFormula)
      invariant warnings.withoutReadback == old(warnings.withoutReadback) + Noting(device, st.withoutReadback)
    {
      FirstStep(device, iec, modbus, i);
      if ClassOf(iec[i]) == Setpoint {
        points, claimed, error := JoinSetpoint(device, iec[i], setpointByAddr, pool, warnings, points, claimed, st,
                                                old(warnings.byFormula), old(warnings.withoutReadback));
        st := Step1(device, setpointByAddr, st, iec[i]);
        if error.Some? {
          ErrorStays(device, iec, modbus, i + 1);
          return;
        }
      }
    }
    assert iec[..|iec|] == iec;
  }

  lemma FirstStep(device: string, iec: seq<IecRow>, modbus: seq<ModbusRow>, i: nat)
    requires i < |iec|
    ensures First(device, iec[..i + 1], modbus)
            == Step1(device, ByAddress(modbus), First(device, iec[..i], modbus), iec[i])
  {
    assert iec[..i + 1][..i] == iec[..i];
  }

  /** One alarm or telemetry row. */
  method JoinOther(device: string, row: IecRow, claimed: map<int, int>, alarms: NamePool, telemetry: NamePool,
                   warnings: JoinWarnings, points: map<int, JoinedPoint>, ghost st: Pass2,
                   ghost unmatched: seq<Noted<Unmatched>>)
    returns (points': map<int, JoinedPoint>)
    requires warnings.unmatchedIec == unmatched + Noting(device, st.unmatched)
    requires alarms.Valid() && telemetry.Valid() && alarms != telemetry
    requires alarms.rest == st.alarms && telemetry.rest == st.telemetry && points == st.points && InPools(st)
    requires ClassOf(row) != Setpoint
    modifies alarms, telemetry, warnings`unmatchedIec
    ensures alarms.Valid() && telemetry.Valid()
    ensures var n := Step2(device, claimed, st, row);
            && points' == n.points && alarms.rest == n.alarms && telemetry.rest == n.telemetry
            && warnings.unmatchedIec == unmatched + Noting(device, n.unmatched)
  {
    var mrow: Option<ModbusRow> := None;
    NotingAppend(device, unmatched, st.unmatched, Unmatched(row.address, row.name.raw));
    if ClassOf(row) == Alarm {
      mrow := alarms.PopLeft(row.name.key);
      if mrow.None? {
        warnings.unmatchedIec := warnings.unmatchedIec + [Noted(device, Unmatched(row.address, row.name.raw))];
      }
    } else if row.address !in claimed {
      mrow := telemetry.PopLeft(row.name.key);
      if mrow.None? {
        warnings.unmatchedIec := warnings.unmatchedIec + [Noted(device, Unmatched(row.address, row.name.raw))];
      }
    }
    points' := points[row.address := NewPoint(device, row, mrow, None)];
  }

  method JoinAlarmsAndTelemetry(device: string, iec: seq<IecRow>, ghost modbus: seq<ModbusRow>,
                                claimed: map<int, int>,
                                known: map<int, JoinedPoint>, alarms: NamePool, telemetry: NamePool,
                                warnings: JoinWarnings)
    returns (points: map<int, JoinedPoint>)
    requires alarms.Valid() && telemetry.Valid() && alarms != telemetry
    requires alarms.rest == OfClass(modbus, 2) && telemetry.rest == OfClass(modbus, 4)
    modifies alarms, telemetry, warnings`unmatchedIec
    ensures alarms.Valid() && telemetry.Valid()
    ensures var st := Second(device, iec, modbus, claimed, known);
            && points == st.points && alarms.rest == st.alarms && telemetry.rest == st.telemetry
            && warnings.unmatchedIec == old(warnings.unmatchedIec) + Noting(device, st.unmatched)
  {
    points := known;
    ghost var st := Second(device, [], modbus, claimed, known);
    for i := 0 to |iec|
      invariant st == Second(device, iec[..i], modbus, claimed, known)
      invariant alarms.Valid() && alarms.rest == st.alarms
      invariant telemetry.Valid() && telemetry.rest == st.telemetry
      invariant points == st.points
      invariant warnings.unmatchedIec == old(warnings.unmatchedIec) + Noting(device, st.unmatched)
    {
      SecondStep(device, iec, modbus, claimed, known, i);
      if ClassOf(iec[i]) != Setpoint {
        points := JoinOther(device, iec[i], claimed, alarms, telemetry, warnings, points, st, old(warnings.unmatchedIec));
        st := Step2(device, claimed, st, iec[i]);
      }
    }
    assert iec[..|iec|] == iec;
  }

  lemma SecondStep(device: string, iec: seq<IecRow>, modbus: seq<ModbusRow>, claimed: map<int, int>,
                   known: map<int, JoinedPoint>, i: nat)
    requires i < |iec|
    ensures Second(device, iec[..i + 1], modbus, claimed, known) ==
            Step2(device, claimed, Second(device, iec[..i], modbus, claimed, known), iec[i])
  {
    assert iec[..i + 1][..i] == iec[..i];
  }

  method CollectReadOnly(iec: seq<IecRow>) returns (r: seq<IecRow>)
    ensures r == ReadOnly(iec)
  {
    r := [];
    for i := 0 to |iec|
      invariant r == ReadOnly(iec[..i])
    {
      assert iec[..i + 1][..i] == iec[..i];
      if iec[i].access == "RO" {
        r := r + [iec[i]];
      }
    }
    assert iec[..|iec|] == iec;
  }

  method CollectTags(readOnly: seq<IecRow>, tags: seq<TagRow>) returns (r: map<int, string>)
    requires |tags| == |readOnly|
    ensures r == TagsByAddress(readOnly, tags)
  {
    r := map[];
    for i := 0 to |readOnly|
      invariant r == TagsByAddress(readOnly[..i], tags[..i])
    {
      assert readOnly[..i + 1][..i] == readOnly[..i] && tags[..i + 1][..i] == tags[..i];
      r := r[readOnly[i].address := tags[i].tag];
    }
    assert readOnly[..|readOnly|] == readOnly && tags[..|tags|] == tags;
  }

  /** A setpoint whose readback address is tagged. */
  predicate TakesTag(points: map<int, JoinedPoint>, tags: map<int, string>, a: int) {
    a in points && points[a].pointClass == Setpoint && points[a].readbackAddr.Some? && points[a].readbackAddr.value in tags
  }

  /** Some setpoint at one of `places` is read back at `address`. */
  ghost predicate ReadBackFrom(points: map<int, JoinedPoint>, places: set<int>, address: int) {
    exists a :: a in places && a in points && points[a].pointClass == Setpoint && points[a].readbackAddr == Some(address)
  }

  lemma ReadBackFromMore(points: map<int, JoinedPoint>, places: set<int>, a: int, x: int)
    requires a in points
    ensures ReadBackFrom(points, places + {a}, x) <==>
            ReadBackFrom(points, places, x) || (points[a].pointClass == Setpoint && points[a].readbackAddr == Some(x))
  {
    assert a in places + {a};
    if ReadBackFrom(points, places, x) {
      var b :| b in places && b in points && points[b].pointClass == Setpoint && points[b].readbackAddr == Some(x);
      assert b in places + {a};
    }
  }

  /** No other point competes for the tag: readback addresses are distinct. */
  lemma ReadBackOnce(points: map<int, JoinedPoint>, places: set<int>, a: int)
    requires WellKeyed(points) && a in points && a !in places && points[a].pointClass == Setpoint
             && points[a].readbackAddr.Some?
    ensures !ReadBackFrom(points, places, points[a].readbackAddr.value)
  {
  }

  /** A setpoint takes the tag at its readback address. */
  function Popped(points: map<int, JoinedPoint>, tags: map<int, string>, a: int): JoinedPoint
    requires a in points
  {
    if TakesTag(points, tags, a) then points[a].(tag := Some(tags[points[a].readbackAddr.value])) else points[a]
  }

  /** The points at `done` have been visited. */
  ghost predicate PoppedSoFar(points: map<int, JoinedPoint>, tags: map<int, string>, done: set<int>,
                              tagged: map<int, JoinedPoint>, left: map<int, string>) {
    && tagged.Keys == points.Keys
    && (forall a :: a in points ==> tagged[a] == if a in done then Popped(points, tags, a) else points[a])
    && (forall x :: x in left <==> x in tags && !ReadBackFrom(points, done, x))
    && (forall x :: x in left ==> left[x] == tags[x])
  }

  lemma VisitTakesTag(points: map<int, JoinedPoint>, tags: map<int, string>, done: set<int>,
                      tagged: map<int, JoinedPoint>, left: map<int, string>, a: int, x: int)
    requires PoppedSoFar(points, tags, done, tagged, left) && a in points
    requires points[a].pointClass == Setpoint && points[a].readbackAddr == Some(x) && x in left
    ensures PoppedSoFar(points, tags, done + {a}, tagged[a := points[a].(tag := Some(left[x]))], left - {x})
  {
    forall y
      ensures ReadBackFrom(points, done + {a}, y) <==> ReadBackFrom(points, done, y) || y == x
    {
      ReadBackFromMore(points, done, a, y);
    }
    assert Popped(points, tags, a) == points[a].(tag := Some(left[x]));
  }

  lemma VisitTakesNone(points: map<int, JoinedPoint>, tags: map<int, string>, done: set<int>,
                       tagged: map<int, JoinedPoint>, left: map<int, string>, a: int)
    requires WellKeyed(points) && PoppedSoFar(points, tags, done, tagged, left) && a in points && a !in done
    requires points[a].pointClass == Setpoint && points[a].readbackAddr.Some? ==> points[a].readbackAddr.value !in left
    ensures PoppedSoFar(points, tags, done + {a}, tagged, left)
  {
    if points[a].pointClass == Setpoint && points[a].readbackAddr.Some? {
      ReadBackOnce(points, done, a);
    }
    assert Popped(points, tags, a) == points[a];
    forall y
      ensures ReadBackFrom(points, done + {a}, y)
              <==> ReadBackFrom(points, done, y) || (points[a].pointClass == Setpoint && points[a].readbackAddr == Some(y))
    {
      ReadBackFromMore(points, done, a, y);
    }
  }

  /** Setpoints pop the tags of their readback addresses, in whatever order the dictionary gives. */
  method PopReadbackTags(points: map<int, JoinedPoint>, tags: map<int, string>)
    returns (tagged: map<int, JoinedPoint>, left: map<int, string>)
    requires WellKeyed(points)
    ensures tagged.Keys == points.Keys
    ensures forall a :: a in points ==> tagged[a] == Popped(points, tags, a)
    ensures forall x :: x in left <==> x in tags && !ReadBack(points, x)
    ensures forall x :: x in left ==> left[x] == tags[x]
  {
    tagged, left := points, tags;
    var todo := points.Keys;
    ghost var done: set<int> := {};
    while todo != {}
      invariant done + todo == points.Keys && done !! todo
      invariant PoppedSoFar(points, tags, done, tagged, left)
      decreases todo
    {
      ghost var some := SomeMember(todo);
      var a :| a in todo;
      var p := tagged[a];
      if p.pointClass == Setpoint && p.readbackAddr.Some? && p.readbackAddr.value in left {
        VisitTakesTag(points, tags, done, tagged, left, a, p.readbackAddr.value);
        tagged := tagged[a := p.(tag := Some(left[p.readbackAddr.value]))];
        left := left - {p.readbackAddr.value};
      } else {
        VisitTakesNone(points, tags, done, tagged, left, a);
      }
      todo, done := todo - {a}, done + {a};
    }
    assert done == points.Keys;
    assert forall x :: ReadBack(points, x) <==> ReadBackFrom(points, done, x);
  }

  /** The tags no setpoint took go to the points of their own addresses. */
  method PlaceTags(points: map<int, JoinedPoint>, left: map<int, string>) returns (tagged: map<int, JoinedPoint>)
    requires left.Keys <= points.Keys
    ensures tagged == map a | a in points :: if a in left then points[a].(tag := Some(left[a])) else points[a]
  {
    tagged := points;
    var todo := left.Keys;
    while todo != {}
      invariant todo <= left.Keys
      invariant tagged == map a | a in points :: if a in left && a !in todo then points[a].(tag := Some(left[a])) else points[a]
      decreases todo
    {
      ghost var some := SomeMember(todo);
      var a :| a in todo;
      tagged := tagged[a := tagged[a].(tag := Some(left[a]))];
      todo := todo - {a};
    }
  }

  method MarkTagSource(points: map<int, JoinedPoint>) returns (marked: map<int, JoinedPoint>)
    ensures marked == map a | a in points :: WithTag(points[a], points[a].tag)
  {
    marked := points;
    var todo := points.Keys;
    while todo != {}
      invariant todo <= points.Keys
      invariant marked == map a | a in points :: if a in todo then points[a] else WithTag(points[a], points[a].tag)
      decreases todo
    {
      ghost var some := SomeMember(todo);
      var a :| a in todo;
      if marked[a].tag.Some? {
        marked := marked[a := marked[a].(sources := marked[a].sources + ["TAG"])];
      }
      todo := todo - {a};
    }
  }

  method TransferTags(points: map<int, JoinedPoint>, tags: map<int, string>) returns (result: map<int, JoinedPoint>)
    requires WellKeyed(points) && tags.Keys <= points.Keys
    ensures result == Tagged(points, tags)
  {
    var popped, left := PopReadbackTags(points, tags);
    assert forall x :: x in left ==> x in tags.Keys;
    var placed := PlaceTags(popped, left);
    result := MarkTagSource(placed);
    forall a | a in points
      ensures result[a] == WithTag(points[a], TagOf(points, tags, a))
    {
      PlacedTag(points, tags, left, a);
      assert placed[a] == points[a].(tag := TagOf(points, tags, a));
    }
  }

  lemma PlacedTag(points: map<int, JoinedPoint>, tags: map<int, string>, left: map<int, string>, a: int)
    requires a in points
    requires forall x :: x in left <==> x in tags && !ReadBack(points, x)
    requires forall x :: x in left ==> left[x] == tags[x]
    ensures (if a in left then Popped(points, tags, a).(tag := Some(left[a])) else Popped(points, tags, a))
            == points[a].(tag := TagOf(points, tags, a))
  {
  }

  lemma {:induction false} LeastExists(s: set<int>)
    requires s != {}
    ensures exists a :: a in s && forall b :: b in s ==> a <= b
    decreases s
  {
    var x := SomeMember(s);
    var rest := s - {x};
    if rest == {} {
      assert s == {x};
    } else {
      LeastExists(rest);
      var a :| a in rest && forall b :: b in rest ==> a <= b;
      assert s == rest + {x};
      if x < a {
        assert forall b :: b in s ==> x <= b;
      } else {
        assert forall b :: b in s ==> a <= b;
      }
    }
  }

  /** Addresses in ascending order, each once. */
  predicate Ascending(s: seq<int>) {
    forall i, j :: 0 <= i < j < |s| ==> s[i] < s[j]
  }

  method Sorted(keys: set<int>) returns (r: seq<int>)
    ensures Ascending(r) && forall a :: a in r <==> a in keys
  {
    r := [];
    var todo := keys;
    while todo != {}
      invariant todo <= keys && Ascending(r)
      invariant forall a :: a in keys <==> a in r || a in todo
      invariant forall i, a :: 0 <= i < |r| && a in todo ==> r[i] < a
      decreases todo
    {
      LeastExists(todo);
      var a :| a in todo && forall b :: b in todo ==> a <= b;
      r := r + [a];
      todo := todo - {a};
    }
  }

  method SortedPoints(points: map<int, JoinedPoint>) returns (list: seq<JoinedPoint>)
    requires forall a :: a in points ==> points[a].iec104Addr == a
    ensures InAddressOrder(list, points)
  {
    var keys := Sorted(points.Keys);
    assert forall i :: 0 <= i < |keys| ==> keys[i] in keys;
    list := seq(|keys|, i requires 0 <= i < |keys| => assert keys[i] in points; points[keys[i]]);
    forall a | a in points
      ensures points[a] in list
    {
      var i :| 0 <= i < |keys| && keys[i] == a;
      assert list[i] == points[a];
    }
  }

  method CollectLeftovers(alarmPool: NamePool, telemetryPool: NamePool, setpointPool: NamePool,
                          ghost modbus: seq<ModbusRow>, ghost first: Pass1, ghost second: Pass2)
    returns (left: seq<ModbusRow>)
    requires alarmPool.Valid() && alarmPool.initial == OfClass(modbus, 2) && alarmPool.rest == second.alarms
    requires telemetryPool.Valid() && telemetryPool.initial == OfClass(modbus, 4)
             && telemetryPool.rest == second.telemetry
    requires setpointPool.Valid() && setpointPool.initial == OfClass(modbus, 3) && setpointPool.rest == first.rest
    ensures left == AllLeft(modbus, first, second)
  {
    var alarmsLeft := alarmPool.Leftovers();
    var telemetryLeft := telemetryPool.Leftovers();
    var setpointsLeft := setpointPool.Leftovers();
    left := alarmsLeft + telemetryLeft + setpointsLeft;
  }

  /** The whole join of one device: the outcome, the report and every error path are those of
      the plain fold. */
  method JoinDevice(device: string, iec: seq<IecRow>, modbus: seq<ModbusRow>, tags: seq<TagRow>,
                    warnings: JoinWarnings)
    returns (result: Result<seq<JoinedPoint>, JoinError>)
    modifies warnings
    ensures var o := Join(device, iec, modbus, tags);
            && warnings.unmatchedModbus == old(warnings.unmatchedModbus) + Noting(device, o.report.unmatchedModbus)
            && warnings.unmatchedIec == old(warnings.unmatchedIec) + Noting(device, o.report.unmatchedIec)
            && warnings.byFormula == old(warnings.byFormula) + Noting(device, o.report.byFormula)
            && warnings.withoutReadback == old(warnings.withoutReadback) + Noting(device, o.report.withoutReadback)
            && (if o.result.Failure? then result == Failure(o.result.error)
                else result.Success? && InAddressOrder(result.value, o.result.value))
  {
    var alarmPool := new NamePool(modbus, 2);
    var telemetryPool := new NamePool(modbus, 4);
    var setpointPool := new NamePool(modbus, 3);
    ghost var first := First(device, iec, modbus);

    var points, claimed, error := JoinSetpoints(device, iec, modbus, setpointPool, warnings);
    if error.Some? {
      return Failure(error.value);
    }
    ghost var second := Second(device, iec, modbus, claimed, points);
    points := JoinAlarmsAndTelemetry(device, iec, modbus, claimed, points, alarmPool, telemetryPool, warnings);

    var left := CollectLeftovers(alarmPool, telemetryPool, setpointPool, modbus, first, second);
    warnings.unmatchedModbus := warnings.unmatchedModbus + Noting(device, Listed(left));

    TagsHaveRoom(device, iec, modbus, tags);
    result := AttachTags(iec, tags, points);
  }

  lemma TagsHaveRoom(device: string, iec: seq<IecRow>, modbus: seq<ModbusRow>, tags: seq<TagRow>)
    ensures var first := First(device, iec, modbus);
            var points := Second(device, iec, modbus, first.claimed, first.points).points;
            WellKeyed(points) && (|tags| == |ReadOnly(iec)| ==> TagsByAddress(ReadOnly(iec), tags).Keys <= points.Keys)
  {
    if |tags| == |ReadOnly(iec)| {
      TagsHavePoints(device, iec, modbus, tags);
    } else {
      FirstWellKeyed(device, iec, modbus);
      var first := First(device, iec, modbus);
      SecondWellKeyed(device, iec, modbus, first.claimed, first.points);
    }
  }

  /** The third pass and the final listing. */
  method AttachTags(iec: seq<IecRow>, tags: seq<TagRow>, points: map<int, JoinedPoint>)
    returns (result: Result<seq<JoinedPoint>, JoinError>)
    requires WellKeyed(points)
    requires |tags| == |ReadOnly(iec)| ==> TagsByAddress(ReadOnly(iec), tags).Keys <= points.Keys
    ensures |tags| != |ReadOnly(iec)| ==> result == Failure(TagCountMismatch(|tags|, |ReadOnly(iec)|))
    ensures |tags| == |ReadOnly(iec)| ==>
              result.Success? && InAddressOrder(result.value, Tagged(points, TagsByAddress(ReadOnly(iec), tags)))
  {
    var readOnly := CollectReadOnly(iec);
    if |tags| != |readOnly| {
      return Failure(TagCountMismatch(|tags|, |readOnly|));
    }
    var tagByAddr := CollectTags(readOnly, tags);
    var tagged := TransferTags(points, tagByAddr);
    var list := SortedPoints(tagged);
    result := Success(list);
  }
}
