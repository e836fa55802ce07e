/** A successful join passes the validator's checks on its own output. */
module JoinValidates {
  import opened Prelude
  import opened Rows
  import opened JoinSpec
  import opened JoinTheorems
  import opened JoinPoints
  import opened Validator

  // ---- No register row sits on two points ----

  /** All claims of both passes. */
  function AllClaims(device: string, iec: seq<IecRow>, modbus: seq<ModbusRow>): seq<Claim> {
    var first := First(device, iec, modbus);
    first.claims + Second(device, iec, modbus, first.claimed, first.points).claims
  }

  lemma {:induction false} RowsOfConcat(a: seq<Claim>, b: seq<Claim>)
    ensures RowsOf(a + b) == RowsOf(a) + RowsOf(b)
  {
    if b == [] {
      assert a + b == a;
    } else {
      RowsOfConcat(a, b[..|b| - 1]);
      assert (a + b)[..|a + b| - 1] == a + b[..|b| - 1];
    }
  }

  lemma {:induction false} DistinctOnce(rows: seq<ModbusRow>, m: ModbusRow)
    requires AddressesDiffer(rows)
    ensures multiset(rows)[m] <= 1
  {
    if rows != [] {
      var init, last := rows[..|rows| - 1], rows[|rows| - 1];
      assert rows == init + [last];
      DistinctOnce(init, m);
      assert m == last ==> m !in init;
    }
  }

  lemma CountedTwice(rows: seq<ModbusRow>, i: nat, j: nat)
    requires i < j < |rows| && rows[i] == rows[j]
    ensures multiset(rows)[rows[i]] >= 2
  {
    assert rows == rows[..j] + rows[j..] && rows[j..] == [rows[j]] + rows[j + 1..];
    assert rows[..j][i] == rows[i];
    assert rows[i] in multiset(rows[..j]);
  }

  lemma SubDistinct(some: seq<ModbusRow>, all: seq<ModbusRow>)
    requires AddressesDiffer(all) && multiset(some) <= multiset(all)
    ensures AddressesDiffer(some)
  {
    forall i, j | 0 <= i < j < |some|
      ensures some[i].address != some[j].address
    {
      assert some[i] in multiset(some) && some[j] in multiset(some);
      var p :| 0 <= p < |all| && all[p] == some[i];
      var q :| 0 <= q < |all| && all[q] == some[j];
      DistinctOnce(all, some[i]);
      if some[i] == some[j] {
        CountedTwice(some, i, j);
        assert false;
      }
    }
  }

  /** The row of the i-th claim comes right after those of the claims before it. */
  lemma {:induction false} RowOfClaim(claims: seq<Claim>, i: nat)
    requires i < |claims| && claims[i].modbus.Some?
    ensures |RowsOf(claims[..i])| < |RowsOf(claims)| && RowsOf(claims)[|RowsOf(claims[..i])|] == claims[i].modbus.value
  {
    var init := claims[..|claims| - 1];
    if i < |init| {
      RowOfClaim(init, i);
      assert init[..i] == claims[..i];
    }
  }

  lemma RowsOfAt(claims: seq<Claim>, i: nat, j: nat)
    requires i < j < |claims| && claims[i].modbus.Some? && claims[j].modbus.Some?
    requires AddressesDiffer(RowsOf(claims))
    ensures claims[i].modbus.value.address != claims[j].modbus.value.address
  {
    RowOfClaim(claims, i);
    RowOfClaim(claims, j);
    RowOfClaim(claims[..j], i);
    assert claims[..j][..i] == claims[..i];
  }

  lemma SetpointHasClaim(device: string, iec: seq<IecRow>, modbus: seq<ModbusRow>, row: IecRow) returns (i: nat)
    requires DistinctAddresses(iec) && First(device, iec, modbus).error.None? && row in iec && ClassOf(row) == Setpoint
    ensures var first := First(device, iec, modbus);
            && i < |first.claims| && first.claims[i].iec == row && first.claims[i].modbus.Some?
            && first.claims[i].modbus.value.address == Expected(row.address)
  {
    SetpointsOnFormula(device, iec, modbus);
    SetpointsClaimed(device, iec, modbus);
    var first := First(device, iec, modbus);
    assert ClaimsRow(first.claims, row);
    var c :| c in first.claims && c.iec == row;
    assert OnFormula(modbus, c);
    var j :| 0 <= j < |first.claims| && first.claims[j] == c;
    i := j;
  }

  lemma OtherHasClaim(device: string, claims: seq<Claim>, row: IecRow, p: JoinedPoint) returns (i: nat)
    requires BuiltFrom(device, claims, row, p) && p.modbusAddr.Some?
    ensures i < |claims| && claims[i].iec == row && claims[i].modbus.Some?
            && p.modbusAddr == Some(claims[i].modbus.value.address)
  {
    var c :| c in claims && c.iec == row && (c.modbus.Some? ==> c.modbus.value.regClass in {2, 4}) && p == NewPoint(device, row, c.modbus, None);
    var j :| 0 <= j < |claims| && claims[j] == c;
    i := j;
  }

  /** Claim `i` is the row's own and carries the point's Modbus address. */
  predicate IsClaimOf(claims: seq<Claim>, i: nat, row: IecRow, p: JoinedPoint) {
    i < |claims| && claims[i].iec == row && claims[i].modbus.Some? && p.modbusAddr == Some(claims[i].modbus.value.address)
  }

  lemma ClaimInEither(a: seq<Claim>, b: seq<Claim>, i: nat, row: IecRow, p: JoinedPoint)
    ensures IsClaimOf(a, i, row, p) ==> IsClaimOf(a + b, i, row, p)
    ensures IsClaimOf(b, i, row, p) ==> IsClaimOf(a + b, |a| + i, row, p)
  {
  }

  /** A point off a setpoint row was built from a claim of its row. */
  lemma OtherIsBuilt(device: string, iec: seq<IecRow>, modbus: seq<ModbusRow>, row: IecRow)
    requires DistinctAddresses(iec) && First(device, iec, modbus).error.None? && row in iec && ClassOf(row) != Setpoint
    ensures var first := First(device, iec, modbus);
            var second := Second(device, iec, modbus, first.claimed, first.points);
            row.address in second.points && BuiltFrom(device, second.claims, row, second.points[row.address])
  {
    var first := First(device, iec, modbus);
    SecondPoints(device, iec, modbus, first.claimed, first.points);
    assert HasOther(iec, row.address);
  }

  lemma SetpointRegister(device: string, iec: seq<IecRow>, modbus: seq<ModbusRow>, row: IecRow)
    requires DistinctAddresses(iec) && First(device, iec, modbus).error.None? && row in iec && ClassOf(row) == Setpoint
    ensures var first := First(device, iec, modbus);
            var points := Second(device, iec, modbus, first.claimed, first.points).points;
            row.address in points && points[row.address].modbusAddr == Some(Expected(row.address))
  {
    PointsMatchRows(device, iec, modbus);
  }

  /** A point with a Modbus address was built from a claim of its row. */
  lemma PointHasClaim(device: string, iec: seq<IecRow>, modbus: seq<ModbusRow>, row: IecRow) returns (i: nat)
    requires DistinctAddresses(iec) && First(device, iec, modbus).error.None? && row in iec
    requires var first := First(device, iec, modbus);
             var points := Second(device, iec, modbus, first.claimed, first.points).points;
             row.address in points && points[row.address].modbusAddr.Some?
    ensures var first := First(device, iec, modbus);
            var points := Second(device, iec, modbus, first.claimed, first.points).points;
            IsClaimOf(AllClaims(device, iec, modbus), i, row, points[row.address])
  {
    var first := First(device, iec, modbus);
    var second := Second(device, iec, modbus, first.claimed, first.points);
    var p := second.points[row.address];
    if ClassOf(row) == Setpoint {
      i := SetpointHasClaim(device, iec, modbus, row);
      SetpointRegister(device, iec, modbus, row);
      ClaimInEither(first.claims, second.claims, i, row, p);
    } else {
      OtherIsBuilt(device, iec, modbus, row);
      var j := OtherHasClaim(device, second.claims, row, p);
      i := |first.claims| + j;
      ClaimInEither(first.claims, second.claims, j, row, p);
    }
  }

  /** With distinct register addresses no two points share one. */
  lemma PointsHaveOwnRegisters(device: string, iec: seq<IecRow>, modbus: seq<ModbusRow>, r: IecRow, q: IecRow)
    requires DistinctAddresses(iec) && AddressesDiffer(Poolable(modbus)) && First(device, iec, modbus).error.None?
    requires r in iec && q in iec && r != q
    ensures var first := First(device, iec, modbus);
            var points := Second(device, iec, modbus, first.claimed, first.points).points;
            && r.address in points && q.address in points
            && (points[r.address].modbusAddr.Some? ==> points[r.address].modbusAddr != points[q.address].modbusAddr)
  {
    PointsMatchRows(device, iec, modbus);
    var first := First(device, iec, modbus);
    var second := Second(device, iec, modbus, first.claimed, first.points);
    if second.points[r.address].modbusAddr.Some? && second.points[q.address].modbusAddr.Some? {
      var i := PointHasClaim(device, iec, modbus, r);
      var j := PointHasClaim(device, iec, modbus, q);
      ClaimedRowsDiffer(device, iec, modbus);
      OwnRegisters(AllClaims(device, iec, modbus), i, j, r, q, second.points[r.address], second.points[q.address]);
    }
  }

  lemma OwnRegisters(claims: seq<Claim>, i: nat, j: nat, r: IecRow, q: IecRow, p: JoinedPoint, o: JoinedPoint)
    requires AddressesDiffer(RowsOf(claims)) && IsClaimOf(claims, i, r, p) && IsClaimOf(claims, j, q, o) && r != q
    ensures p.modbusAddr != o.modbusAddr
  {
    if i < j {
      RowsOfAt(claims, i, j);
    } else {
      RowsOfAt(claims, j, i);
    }
  }

  lemma ClaimedRowsDiffer(device: string, iec: seq<IecRow>, modbus: seq<ModbusRow>)
    requires DistinctAddresses(iec) && AddressesDiffer(Poolable(modbus)) && First(device, iec, modbus).error.None?
    ensures AddressesDiffer(RowsOf(AllClaims(device, iec, modbus)))
  {
    var first := First(device, iec, modbus);
    var second := Second(device, iec, modbus, first.claimed, first.points);
    ClaimsConserved(device, iec, modbus);
    RowsOfConcat(first.claims, second.claims);
    SubDistinct(RowsOf(AllClaims(device, iec, modbus)), Poolable(modbus));
  }

  // ---- The collision check ----

  lemma {:induction false} NoRepeats(slots: seq<(string, int)>)
    requires forall i, j :: 0 <= i < j < |slots| ==> slots[i] != slots[j]
    ensures Repeated(slots) == {}
  {
    forall x | x in slots
      ensures multiset(slots)[x] <= 1
    {
      OccursOnce(slots, x);
    }
  }

  lemma {:induction false} OccursOnce(slots: seq<(string, int)>, x: (string, int))
    requires forall i, j :: 0 <= i < j < |slots| ==> slots[i] != slots[j]
    ensures multiset(slots)[x] <= 1
  {
    if slots != [] {
      var init := slots[..|slots| - 1];
      assert slots == init + [slots[|slots| - 1]];
      OccursOnce(init, x);
      assert x == slots[|slots| - 1] ==> x !in init;
    }
  }

  lemma {:induction false} SlotMembers(records: seq<JoinedPoint>)
    ensures forall x :: x in ModbusSlots(records)
              ==> exists i :: 0 <= i < |records| && records[i].modbusAddr == Some(x.1)
  {
    if records != [] {
      var init := records[..|records| - 1];
      SlotMembers(init);
      forall x | x in ModbusSlots(records)
        ensures exists i :: 0 <= i < |records| && records[i].modbusAddr == Some(x.1)
      {
        if x in ModbusSlots(init) {
          var i :| 0 <= i < |init| && init[i].modbusAddr == Some(x.1);
          assert records[i].modbusAddr == Some(x.1);
        } else {
          assert records[|records| - 1].modbusAddr == Some(x.1);
        }
      }
    }
  }

  lemma {:induction false} ModbusSlotsDiffer(records: seq<JoinedPoint>)
    requires forall i, j :: 0 <= i < j < |records| && records[i].modbusAddr.Some?
               ==> records[i].modbusAddr != records[j].modbusAddr
    ensures forall k, l :: 0 <= k < l < |ModbusSlots(records)| ==> ModbusSlots(records)[k] != ModbusSlots(records)[l]
  {
    if records != [] {
      var init, last := records[..|records| - 1], records[|records| - 1];
      ModbusSlotsDiffer(init);
      SlotMembers(init);
      if last.modbusAddr.Some? {
        assert (last.device, last.modbusAddr.value) !in ModbusSlots(init);
      }
    }
  }

  /** The listed points and the rows they come from. */
  lemma ListedPoint(device: string, iec: seq<IecRow>, modbus: seq<ModbusRow>, tags: seq<TagRow>,
                    list: seq<JoinedPoint>, i: nat)
    returns (row: IecRow)
    requires DistinctAddresses(iec) && Succeeds(device, iec, modbus, tags)
    requires InAddressOrder(list, Join(device, iec, modbus, tags).result.value) && i < |list|
    ensures row in iec && row.address == list[i].iec104Addr
    ensures Describes(device, row, list[i].(tag := None))
    ensures First(device, iec, modbus).error.None?
    ensures var first := First(device, iec, modbus);
            var points := Second(device, iec, modbus, first.claimed, first.points).points;
            row.address in points && list[i].modbusAddr == points[row.address].modbusAddr
  {
    TagCountMatches(device, iec, modbus, tags);
    PointsMatchRows(device, iec, modbus);
    assert list[i] in list;
    var first := First(device, iec, modbus);
    var points := Second(device, iec, modbus, first.claimed, first.points).points;
    row :| row in iec && row.address == list[i].iec104Addr;
    TagOfRow(device, iec, modbus, tags, row);
  }

  /** The join's output has no address collision, given distinct addresses in both files. */
  lemma JoinPassesCollisionCheck(device: string, iec: seq<IecRow>, modbus: seq<ModbusRow>, tags: seq<TagRow>,
                                 list: seq<JoinedPoint>)
    requires DistinctAddresses(iec) && AddressesDiffer(Poolable(modbus)) && Succeeds(device, iec, modbus, tags)
    requires InAddressOrder(list, Join(device, iec, modbus, tags).result.value)
    ensures Repeated(IecSlots(list)) == {} && Repeated(ModbusSlots(list)) == {}
  {
    NoRepeats(IecSlots(list));
    forall i, j | 0 <= i < j < |list| && list[i].modbusAddr.Some?
      ensures list[i].modbusAddr != list[j].modbusAddr
    {
      var r := ListedPoint(device, iec, modbus, tags, list, i);
      var q := ListedPoint(device, iec, modbus, tags, list, j);
      PointsHaveOwnRegisters(device, iec, modbus, r, q);
    }
    ModbusSlotsDiffer(list);
    NoRepeats(ModbusSlots(list));
  }

  // ---- Counting listed points ----

  function TaggedAddresses(points: map<int, JoinedPoint>, device: string): set<int> {
    set a | a in points && points[a].device == device && points[a].tag.Some?
  }

  function Readable(points: map<int, JoinedPoint>, device: string): set<int> {
    set a | a in points && points[a].device == device && points[a].access == "RO"
  }

  function SetpointAddresses(points: map<int, JoinedPoint>): set<int> {
    set a | a in points && points[a].pointClass == Setpoint
  }

  lemma TaggedLess(points: map<int, JoinedPoint>, device: string, a: int)
    requires a in points
    ensures |TaggedAddresses(points, device)| == |TaggedAddresses(points - {a}, device)|
            + if points[a].device == device && points[a].tag.Some? then 1 else 0
  {
    if points[a].device == device && points[a].tag.Some? {
      assert TaggedAddresses(points, device) == TaggedAddresses(points - {a}, device) + {a};
    } else {
      assert TaggedAddresses(points, device) == TaggedAddresses(points - {a}, device);
    }
  }

  lemma ReadableLess(points: map<int, JoinedPoint>, device: string, a: int)
    requires a in points
    ensures |Readable(points, device)| == |Readable(points - {a}, device)|
            + if points[a].device == device && points[a].access == "RO" then 1 else 0
  {
    if points[a].device == device && points[a].access == "RO" {
      assert Readable(points, device) == Readable(points - {a}, device) + {a};
    } else {
      assert Readable(points, device) == Readable(points - {a}, device);
    }
  }

  lemma SetpointsLess(points: map<int, JoinedPoint>, a: int)
    requires a in points
    ensures |SetpointAddresses(points)| == |SetpointAddresses(points - {a})|
            + if points[a].pointClass == Setpoint then 1 else 0
  {
    if points[a].pointClass == Setpoint {
      assert SetpointAddresses(points) == SetpointAddresses(points - {a}) + {a};
    } else {
      assert SetpointAddresses(points) == SetpointAddresses(points - {a});
    }
  }

  /** The validator's counts over the listing are sizes of sets of addresses. */
  lemma {:induction false} CountsAreSizes(list: seq<JoinedPoint>, points: map<int, JoinedPoint>, device: string)
    requires InAddressOrder(list, points) && KeyedByAddress(points)
    ensures TagCount(list, device) == |TaggedAddresses(points, device)|
    ensures ReadOnlyCount(list, device) == |Readable(points, device)|
    ensures |Setpoints(list)| == |SetpointAddresses(points)|
    decreases |list|
  {
    if list == [] {
      NoPoints(list, points);
    } else {
      var a := list[|list| - 1].iec104Addr;
      LastIsGreatest(list, points, a);
      Shorter(list, points);
      CountsAreSizes(list[..|list| - 1], points - {a}, device);
      TaggedLess(points, device, a);
      ReadableLess(points, device, a);
      SetpointsLess(points, a);
    }
  }

  lemma {:induction false} DistinctSize(s: seq<int>, elements: set<int>)
    requires forall i, j :: 0 <= i < j < |s| ==> s[i] != s[j]
    requires forall x :: x in elements <==> x in s
    ensures |elements| == |s|
  {
    if s == [] {
      assert forall x :: x !in elements;
    } else {
      var init, last := s[..|s| - 1], s[|s| - 1];
      assert s == init + [last];
      DistinctSize(init, elements - {last});
      assert last in elements;
    }
  }

  // ---- The tag check ----

  ghost function Holders(iec: seq<IecRow>, n: nat): (r: seq<int>)
    requires n <= |ReadOnly(iec)|
    ensures |r| == n && forall i :: 0 <= i < n ==> r[i] == Holder(iec, ReadOnly(iec)[i].address)
  {
    seq(n, i requires 0 <= i < n => Holder(iec, ReadOnly(iec)[i].address))
  }

  lemma HoldersAreTagged(device: string, iec: seq<IecRow>, modbus: seq<ModbusRow>, tags: seq<TagRow>, i: nat)
    requires DistinctAddresses(iec) && Succeeds(device, iec, modbus, tags) && i < |ReadOnly(iec)|
    ensures Holder(iec, ReadOnly(iec)[i].address) in TaggedAddresses(Join(device, iec, modbus, tags).result.value, device)
  {
    TagCountMatches(device, iec, modbus, tags);
    TagReachesHolder(device, iec, modbus, tags, i);
    DeviceOf(device, iec, modbus, tags, Holder(iec, ReadOnly(iec)[i].address));
  }

  lemma TaggedPointsCount(device: string, iec: seq<IecRow>, modbus: seq<ModbusRow>, tags: seq<TagRow>)
    requires DistinctAddresses(iec) && Succeeds(device, iec, modbus, tags)
    ensures |TaggedAddresses(Join(device, iec, modbus, tags).result.value, device)| == |tags|
  {
    var points := Join(device, iec, modbus, tags).result.value;
    TagsConserved(device, iec, modbus, tags);
    var holders := Holders(iec, |tags|);
    forall i | 0 <= i < |tags|
      ensures holders[i] in TaggedAddresses(points, device)
    {
      HoldersAreTagged(device, iec, modbus, tags, i);
    }
    forall x | x in TaggedAddresses(points, device)
      ensures x in holders
    {
      var i :| 0 <= i < |tags| && Holder(iec, ReadOnly(iec)[i].address) == x && points[x].tag == Some(tags[i].tag);
      assert holders[i] == x;
    }
    DistinctSize(holders, TaggedAddresses(points, device));
  }

  lemma DeviceOf(device: string, iec: seq<IecRow>, modbus: seq<ModbusRow>, tags: seq<TagRow>, a: int)
    requires DistinctAddresses(iec) && Succeeds(device, iec, modbus, tags)
             && a in Join(device, iec, modbus, tags).result.value
    ensures exists row :: row in iec && row.address == a
              && Describes(device, row, Join(device, iec, modbus, tags).result.value[a].(tag := None))
  {
    TagCountMatches(device, iec, modbus, tags);
    PointsMatchRows(device, iec, modbus);
    var row :| row in iec && row.address == a;
    TagOfRow(device, iec, modbus, tags, row);
  }

  lemma ReadablePointsCount(device: string, iec: seq<IecRow>, modbus: seq<ModbusRow>, tags: seq<TagRow>)
    requires DistinctAddresses(iec) && Succeeds(device, iec, modbus, tags)
    ensures |Readable(Join(device, iec, modbus, tags).result.value, device)| == |ReadOnly(iec)|
  {
    var points, readOnly := Join(device, iec, modbus, tags).result.value, ReadOnly(iec);
    ReadOnlyRows(iec);
    ReadOnlyDistinct(iec);
    var addresses := seq(|readOnly|, i requires 0 <= i < |readOnly| => readOnly[i].address);
    forall i | 0 <= i < |addresses|
      ensures addresses[i] in Readable(points, device)
    {
      RowIsReadable(device, iec, modbus, tags, readOnly[i]);
    }
    forall x | x in Readable(points, device)
      ensures x in addresses
    {
      var i := ReadableHasRow(device, iec, modbus, tags, x);
      assert addresses[i] == x;
    }
    DistinctSize(addresses, Readable(points, device));
  }

  lemma RowIsReadable(device: string, iec: seq<IecRow>, modbus: seq<ModbusRow>, tags: seq<TagRow>, row: IecRow)
    requires DistinctAddresses(iec) && Succeeds(device, iec, modbus, tags) && row in ReadOnly(iec)
    ensures row.address in Readable(Join(device, iec, modbus, tags).result.value, device)
  {
    ReadOnlyRows(iec);
    TagOfRow(device, iec, modbus, tags, row);
  }

  lemma ReadableHasRow(device: string, iec: seq<IecRow>, modbus: seq<ModbusRow>, tags: seq<TagRow>,
                       a: int) returns (i: nat)
    requires DistinctAddresses(iec) && Succeeds(device, iec, modbus, tags)
    requires a in Readable(Join(device, iec, modbus, tags).result.value, device)
    ensures i < |ReadOnly(iec)| && ReadOnly(iec)[i].address == a
  {
    DeviceOf(device, iec, modbus, tags, a);
    var row :| row in iec && row.address == a && Describes(device, row, Join(device, iec, modbus, tags).result.value[a].(tag := None));
    ReadOnlyRows(iec);
    assert row in ReadOnly(iec);
    i :| 0 <= i < |ReadOnly(iec)| && ReadOnly(iec)[i] == row;
  }

  lemma ResultKeyed(device: string, iec: seq<IecRow>, modbus: seq<ModbusRow>, tags: seq<TagRow>)
    requires DistinctAddresses(iec) && Succeeds(device, iec, modbus, tags)
    ensures KeyedByAddress(Join(device, iec, modbus, tags).result.value)
    ensures forall a :: a in Join(device, iec, modbus, tags).result.value
              ==> Join(device, iec, modbus, tags).result.value[a].device == device
  {
    forall a | a in Join(device, iec, modbus, tags).result.value
      ensures Join(device, iec, modbus, tags).result.value[a].iec104Addr == a
              && Join(device, iec, modbus, tags).result.value[a].device == device
    {
      DeviceOf(device, iec, modbus, tags, a);
    }
  }

  /** The join's output has as many tags as read-only points. */
  lemma JoinPassesTagCheck(device: string, iec: seq<IecRow>, modbus: seq<ModbusRow>, tags: seq<TagRow>,
                           list: seq<JoinedPoint>, d: string)
    requires DistinctAddresses(iec) && Succeeds(device, iec, modbus, tags)
    requires InAddressOrder(list, Join(device, iec, modbus, tags).result.value)
    ensures TagCount(list, d) == ReadOnlyCount(list, d)
  {
    var points := Join(device, iec, modbus, tags).result.value;
    ResultKeyed(device, iec, modbus, tags);
    CountsAreSizes(list, points, d);
    if d == device {
      TagCountMatches(device, iec, modbus, tags);
      TaggedPointsCount(device, iec, modbus, tags);
      ReadablePointsCount(device, iec, modbus, tags);
    } else {
      assert TaggedAddresses(points, d) == {} == Readable(points, d);
    }
  }

  // ---- The formula check ----

  function Between(low: int, high: int): (r: set<int>)
    ensures forall a :: a in r <==> low <= a <= high
    decreases high - low
  {
    if low > high then {} else Between(low, high - 1) + {high}
  }

  lemma {:induction false} BetweenSize(low: int, high: int)
    requires low <= high + 1
    ensures |Between(low, high)| == high - low + 1
    decreases high - low
  {
    if low <= high {
      BetweenSize(low, high - 1);
    }
  }

  lemma {:induction false} SameSizeSubset(a: set<int>, b: set<int>)
    requires a <= b && |a| == |b|
    ensures a == b
  {
    assert b == a + (b - a);
    assert |b| == |a| + |b - a|;
  }

  lemma SetpointMeetsFormulaIff(device: string, iec: seq<IecRow>, modbus: seq<ModbusRow>, tags: seq<TagRow>, a: int)
    requires DistinctAddresses(iec) && Succeeds(device, iec, modbus, tags)
    requires a in SetpointAddresses(Join(device, iec, modbus, tags).result.value)
    ensures MeetsFormula(Join(device, iec, modbus, tags).result.value[a])
            <==> SETPOINT_BASE_IEC <= a <= SETPOINT_MAX_IEC
  {
    DeviceOf(device, iec, modbus, tags, a);
    var points := Join(device, iec, modbus, tags).result.value;
    var row :| row in iec && row.address == a && Describes(device, row, points[a].(tag := None));
    DescribedSetpoint(device, row, points[a]);
  }

  lemma DescribedSetpoint(device: string, row: IecRow, p: JoinedPoint)
    requires Describes(device, row, p.(tag := None)) && p.pointClass == Setpoint
    ensures MeetsFormula(p) <==> SETPOINT_BASE_IEC <= row.address <= SETPOINT_MAX_IEC
  {
  }

  /** The join's output passes the formula check exactly when its setpoints are the 148
      addresses from 25089 to 25236: outside that range the join makes no readback address. */
  lemma JoinPassesFormulaCheckIff(device: string, iec: seq<IecRow>, modbus: seq<ModbusRow>, tags: seq<TagRow>,
                                  list: seq<JoinedPoint>)
    requires DistinctAddresses(iec) && Succeeds(device, iec, modbus, tags)
    requires InAddressOrder(list, Join(device, iec, modbus, tags).result.value)
    ensures |Setpoints(list)| == SETPOINT_COUNT
            && (forall p :: p in list && p.pointClass == Setpoint ==> MeetsFormula(p))
            <==> SetpointAddresses(Join(device, iec, modbus, tags).result.value) == Between(SETPOINT_BASE_IEC, SETPOINT_MAX_IEC)
  {
    var points := Join(device, iec, modbus, tags).result.value;
    var found, range := SetpointAddresses(points), Between(SETPOINT_BASE_IEC, SETPOINT_MAX_IEC);
    ResultKeyed(device, iec, modbus, tags);
    CountsAreSizes(list, points, device);
    FormulaOverListing(list, points);
    BetweenSize(SETPOINT_BASE_IEC, SETPOINT_MAX_IEC);
    forall a | a in found
      ensures MeetsFormula(points[a]) <==> a in range
    {
      SetpointMeetsFormulaIff(device, iec, modbus, tags, a);
    }
    if |found| == SETPOINT_COUNT && found <= range {
      SameSizeSubset(found, range);
    }
  }

  lemma FormulaOverListing(list: seq<JoinedPoint>, points: map<int, JoinedPoint>)
    requires InAddressOrder(list, points) && KeyedByAddress(points)
    ensures (forall p :: p in list && p.pointClass == Setpoint ==> MeetsFormula(p))
            <==> forall a :: a in SetpointAddresses(points) ==> MeetsFormula(points[a])
  {
    if forall a :: a in SetpointAddresses(points) ==> MeetsFormula(points[a]) {
      forall p | p in list && p.pointClass == Setpoint
        ensures MeetsFormula(p)
      {
        assert p.iec104Addr in SetpointAddresses(points);
      }
    }
  }
}
