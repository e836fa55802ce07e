/** The joined points against the rows they come from, and where every tag ends up. */
module JoinPoints {
  import opened Prelude
  import opened Rows
  import opened JoinSpec
  import opened JoinTheorems

  ghost predicate HasOther(iec: seq<IecRow>, address: int) {
    exists row :: row in iec && ClassOf(row) != Setpoint && row.address == address
  }

  /** A point built by the second pass for this row, from some claim of the row. */
  ghost predicate BuiltFrom(device: string, claims: seq<Claim>, row: IecRow, p: JoinedPoint) {
    exists c :: c in claims && c.iec == row && (c.modbus.Some? ==> c.modbus.value.regClass in {2, 4})
                && p == NewPoint(device, row, c.modbus, None)
  }

  lemma {:induction false} SecondPoints(device: string, iec: seq<IecRow>, modbus: seq<ModbusRow>,
                                        claimed: map<int, int>, known: map<int, JoinedPoint>)
    requires DistinctAddresses(iec)
    ensures var st := Second(device, iec, modbus, claimed, known);
            && (forall a :: a in st.points <==> a in known || HasOther(iec, a))
            && (forall a :: a in known && !HasOther(iec, a) ==> st.points[a] == known[a])
            && AllBuilt(device, iec, st.claims, st.points)
  {
    if iec != [] {
      var init, row := iec[..|iec| - 1], iec[|iec| - 1];
      assert iec == init + [row];
      SecondPoints(device, init, modbus, claimed, known);
      AddressIsNew(init, row);
      OtherAppend(init, row);
      SecondPointsStep(device, init, claimed, known, Second(device, init, modbus, claimed, known), row);
    }
  }

  lemma OtherAppend(iec: seq<IecRow>, row: IecRow)
    ensures forall a :: HasOther(iec + [row], a) <==> HasOther(iec, a) || (ClassOf(row) != Setpoint && row.address == a)
  {
    forall a
      ensures HasOther(iec + [row], a) <==> HasOther(iec, a) || (ClassOf(row) != Setpoint && row.address == a)
    {
      if HasOther(iec, a) {
        var r :| r in iec && ClassOf(r) != Setpoint && r.address == a;
        assert r in iec + [row];
      }
      if ClassOf(row) != Setpoint && row.address == a {
        assert row in iec + [row];
      }
    }
  }

  lemma BuiltStaysBuilt(device: string, claims: seq<Claim>, c: Claim, row: IecRow, p: JoinedPoint)
    requires BuiltFrom(device, claims, row, p)
    ensures BuiltFrom(device, claims + [c], row, p)
  {
    var d :| d in claims && d.iec == row && (d.modbus.Some? ==> d.modbus.value.regClass in {2, 4})
             && p == NewPoint(device, row, d.modbus, None);
    assert d in claims + [c];
  }

  lemma BuiltFromLast(device: string, claims: seq<Claim>, row: IecRow, m: Option<ModbusRow>)
    requires m.Some? ==> m.value.regClass in {2, 4}
    ensures BuiltFrom(device, claims + [Claim(row, m)], row, NewPoint(device, row, m, None))
  {
    assert Claim(row, m) in claims + [Claim(row, m)];
  }

  ghost predicate AllBuilt(device: string, iec: seq<IecRow>, claims: seq<Claim>, points: map<int, JoinedPoint>) {
    forall r :: r in iec && ClassOf(r) != Setpoint ==> r.address in points && BuiltFrom(device, claims, r, points[r.address])
  }

  lemma AllBuiltMore(device: string, iec: seq<IecRow>, claims: seq<Claim>, points: map<int, JoinedPoint>,
                     row: IecRow, m: Option<ModbusRow>)
    requires forall r :: r in iec ==> r.address != row.address
    requires AllBuilt(device, iec, claims, points) && (m.Some? ==> m.value.regClass in {2, 4})
    ensures AllBuilt(device, iec + [row], claims + [Claim(row, m)], points[row.address := NewPoint(device, row, m, None)])
  {
    BuiltFromLast(device, claims, row, m);
    forall r | r in iec && ClassOf(r) != Setpoint
      ensures BuiltFrom(device, claims + [Claim(row, m)], r, points[r.address])
    {
      BuiltStaysBuilt(device, claims, Claim(row, m), r, points[r.address]);
    }
  }

  lemma SecondPointsStep(device: string, iec: seq<IecRow>, claimed: map<int, int>, known: map<int, JoinedPoint>,
                         st: Pass2, row: IecRow)
    requires InPools(st)
    requires forall r :: r in iec ==> r.address != row.address
    requires forall a :: HasOther(iec + [row], a)
               <==> HasOther(iec, a) || (ClassOf(row) != Setpoint && row.address == a)
    requires forall a :: a in st.points <==> a in known || HasOther(iec, a)
    requires forall a :: a in known && !HasOther(iec, a) ==> st.points[a] == known[a]
    requires AllBuilt(device, iec, st.claims, st.points)
    ensures var n := Step2(device, claimed, st, row);
            && (forall a :: a in n.points <==> a in known || HasOther(iec + [row], a))
            && (forall a :: a in known && !HasOther(iec + [row], a) ==> n.points[a] == known[a])
            && AllBuilt(device, iec + [row], n.claims, n.points)
  {
    var m := Step2Points(device, claimed, st, row);
    if ClassOf(row) != Setpoint {
      AllBuiltMore(device, iec, st.claims, st.points, row, m);
    }
  }

  /** What the passes leave under a row's address. */
  predicate Describes(device: string, row: IecRow, p: JoinedPoint) {
    && p.device == device && p.iec104Addr == row.address
    && p.pointClass == ClassOf(row) && p.access == row.access && p.tag.None?
    && (ClassOf(row) == Setpoint ==> p.modbusAddr == Some(Expected(row.address)) && p.readbackAddr == ReadbackOf(row.address))
    && (ClassOf(row) != Setpoint ==> p.readbackAddr.None?)
  }

  /** One point per row, under the row's address. */
  lemma PointsMatchRows(device: string, iec: seq<IecRow>, modbus: seq<ModbusRow>)
    requires DistinctAddresses(iec) && First(device, iec, modbus).error.None?
    ensures var first := First(device, iec, modbus);
            var points := Second(device, iec, modbus, first.claimed, first.points).points;
            && (forall row :: row in iec ==> row.address in points && Describes(device, row, points[row.address]))
            && (forall a :: a in points ==> exists row :: row in iec && row.address == a)
  {
    var first := First(device, iec, modbus);
    var second := Second(device, iec, modbus, first.claimed, first.points);
    FirstPoints(device, iec, modbus);
    SetpointsOnFormula(device, iec, modbus);
    SetpointsClaimed(device, iec, modbus);
    SecondPoints(device, iec, modbus, first.claimed, first.points);
    forall row | row in iec
      ensures row.address in second.points && Describes(device, row, second.points[row.address])
    {
      if ClassOf(row) == Setpoint {
        assert ClaimsRow(first.claims, row);
        var c :| c in first.claims && c.iec == row;
        assert Carries(device, first, c) && OnFormula(modbus, c);
        assert !HasOther(iec, row.address) by {
          SameAddressSameRow(iec);
        }
      } else {
        assert HasOther(iec, row.address);
        assert BuiltFrom(device, second.claims, row, second.points[row.address]);
      }
    }
    forall a | a in second.points
      ensures exists row :: row in iec && row.address == a
    {
      if a in first.points {
        assert HasClaim(first.claims, a);
        var c :| c in first.claims && c.iec.address == a;
      }
    }
  }

  lemma SameAddressSameRow(iec: seq<IecRow>)
    requires DistinctAddresses(iec)
    ensures forall r, q :: r in iec && q in iec && r.address == q.address ==> r == q
  {
    forall r, q | r in iec && q in iec && r.address == q.address
      ensures r == q
    {
      var i :| 0 <= i < |iec| && iec[i] == r;
      var j :| 0 <= j < |iec| && iec[j] == q;
    }
  }

  // ---- Tags ----

  /** A setpoint row is read back at `address`. */
  ghost predicate ReadBackRow(iec: seq<IecRow>, address: int) {
    exists s :: s in iec && ClassOf(s) == Setpoint && ReadbackOf(s.address) == Some(address)
  }

  /** Where the tag of a read-only address belongs. */
  ghost function Holder(iec: seq<IecRow>, address: int): int {
    if ReadBackRow(iec, address) then address - READBACK_BASE_IEC + SETPOINT_BASE_IEC else address
  }

  lemma {:induction false} TagAt(readOnly: seq<IecRow>, tags: seq<TagRow>, i: nat)
    requires |tags| == |readOnly| && DistinctAddresses(readOnly) && i < |readOnly|
    ensures readOnly[i].address in TagsByAddress(readOnly, tags)
    ensures TagsByAddress(readOnly, tags)[readOnly[i].address] == tags[i].tag
    decreases |readOnly|
  {
    var n := |readOnly| - 1;
    if i < n {
      TagAt(readOnly[..n], tags[..n], i);
    }
  }

  lemma {:induction false} ReadOnlyDistinct(iec: seq<IecRow>)
    requires DistinctAddresses(iec)
    ensures DistinctAddresses(ReadOnly(iec))
  {
    if iec != [] {
      var init, row := iec[..|iec| - 1], iec[|iec| - 1];
      assert iec == init + [row];
      ReadOnlyDistinct(init);
      ReadOnlyRows(init);
      AddressIsNew(init, row);
      assert forall i :: 0 <= i < |ReadOnly(init)| ==> ReadOnly(init)[i] in init;
    }
  }

  lemma ReadBackMatchesRows(device: string, iec: seq<IecRow>, modbus: seq<ModbusRow>, address: int)
    requires DistinctAddresses(iec) && First(device, iec, modbus).error.None?
    ensures var first := First(device, iec, modbus);
            ReadBack(Second(device, iec, modbus, first.claimed, first.points).points, address) <==> ReadBackRow(iec, address)
  {
    var first := First(device, iec, modbus);
    var points := Second(device, iec, modbus, first.claimed, first.points).points;
    PointsMatchRows(device, iec, modbus);
    if ReadBack(points, address) {
      var a :| a in points && points[a].pointClass == Setpoint && points[a].readbackAddr == Some(address);
      var row :| row in iec && row.address == a;
      assert Describes(device, row, points[a]);
    }
    if ReadBackRow(iec, address) {
      var s :| s in iec && ClassOf(s) == Setpoint && ReadbackOf(s.address) == Some(address);
      assert Describes(device, s, points[s.address]);
    }
  }

  /** A successful join and what it hangs on. */
  ghost predicate Succeeds(device: string, iec: seq<IecRow>, modbus: seq<ModbusRow>, tags: seq<TagRow>) {
    Join(device, iec, modbus, tags).result.Success?
  }

  lemma TagOfRow(device: string, iec: seq<IecRow>, modbus: seq<ModbusRow>, tags: seq<TagRow>, row: IecRow)
    requires DistinctAddresses(iec) && Succeeds(device, iec, modbus, tags) && row in iec
    ensures var points, byAddress := Join(device, iec, modbus, tags).result.value, TagsByAddress(ReadOnly(iec), tags);
            && row.address in points
            && Describes(device, row, points[row.address].(tag := None))
            && points[row.address].tag ==
               if ClassOf(row) == Setpoint then
                 if ReadbackOf(row.address).Some? && ReadbackOf(row.address).value in byAddress
                 then Some(byAddress[ReadbackOf(row.address).value]) else None
               else if row.address in byAddress && !ReadBackRow(iec, row.address) then Some(byAddress[row.address]) else None
  {
    var first := First(device, iec, modbus);
    var points := Second(device, iec, modbus, first.claimed, first.points).points;
    var byAddress := TagsByAddress(ReadOnly(iec), tags);
    PointsMatchRows(device, iec, modbus);
    ReadBackMatchesRows(device, iec, modbus, row.address);
    assert Describes(device, row, points[row.address]);
    if ClassOf(row) == Setpoint {
      assert row.address !in byAddress by {
        TaggedAreReadOnly(iec, tags);
        SameAddressSameRow(iec);
      }
    }
    assert Join(device, iec, modbus, tags).result.value == Tagged(points, byAddress);
  }

  lemma TaggedAreReadOnly(iec: seq<IecRow>, tags: seq<TagRow>)
    requires |tags| == |ReadOnly(iec)|
    ensures forall a :: a in TagsByAddress(ReadOnly(iec), tags)
              ==> exists r :: r in iec && r.address == a && r.access == "RO" && ClassOf(r) != Setpoint
  {
    TagKeys(ReadOnly(iec), tags);
    ReadOnlyRows(iec);
    forall a | a in TagsByAddress(ReadOnly(iec), tags)
      ensures exists r :: r in iec && r.address == a && r.access == "RO" && ClassOf(r) != Setpoint
    {
      var i :| 0 <= i < |ReadOnly(iec)| && ReadOnly(iec)[i].address == a;
      assert ReadOnly(iec)[i] in iec;
    }
  }

  lemma TagCountMatches(device: string, iec: seq<IecRow>, modbus: seq<ModbusRow>, tags: seq<TagRow>)
    requires Succeeds(device, iec, modbus, tags)
    ensures |tags| == |ReadOnly(iec)| && First(device, iec, modbus).error.None?
  {
  }

  lemma TagMoves(device: string, iec: seq<IecRow>, modbus: seq<ModbusRow>, tags: seq<TagRow>, row: IecRow, s: IecRow)
    requires DistinctAddresses(iec) && Succeeds(device, iec, modbus, tags) && row in iec && s in iec
    requires ClassOf(s) == Setpoint && ReadbackOf(s.address) == Some(row.address) && ClassOf(row) != Setpoint
    requires |tags| == |ReadOnly(iec)| && row.address in TagsByAddress(ReadOnly(iec), tags)
    ensures Holder(iec, row.address) == s.address
    ensures var points := Join(device, iec, modbus, tags).result.value;
            && row.address in points && s.address in points
            && points[s.address].tag == Some(TagsByAddress(ReadOnly(iec), tags)[row.address])
            && points[s.address].readbackAddr == Some(row.address)
            && points[row.address].tag.None?
  {
    assert ReadBackRow(iec, row.address);
    TagOfRow(device, iec, modbus, tags, row);
    TagOfRow(device, iec, modbus, tags, s);
  }

  /** Every tag reaches exactly one point: the point at its own row's address, or the setpoint
      read back there, in which case the readback point goes without. */
  lemma TagReachesHolder(device: string, iec: seq<IecRow>, modbus: seq<ModbusRow>, tags: seq<TagRow>, i: nat)
    requires DistinctAddresses(iec) && Succeeds(device, iec, modbus, tags) && i < |tags|
    ensures i < |ReadOnly(iec)|
    ensures var points, a := Join(device, iec, modbus, tags).result.value, ReadOnly(iec)[i].address;
            && a in points && Holder(iec, a) in points
            && points[Holder(iec, a)].tag == Some(tags[i].tag)
            && (Holder(iec, a) != a ==> points[a].tag.None? && points[Holder(iec, a)].readbackAddr == Some(a))
  {
    TagCountMatches(device, iec, modbus, tags);
    var row := ReadOnly(iec)[i];
    ReadOnlyRows(iec);
    ReadOnlyDistinct(iec);
    TagAt(ReadOnly(iec), tags, i);
    if ReadBackRow(iec, row.address) {
      var s :| s in iec && ClassOf(s) == Setpoint && ReadbackOf(s.address) == Some(row.address);
      TagMoves(device, iec, modbus, tags, row, s);
    } else {
      TagOfRow(device, iec, modbus, tags, row);
    }
  }

  lemma TaggedPointHasRow(device: string, iec: seq<IecRow>, modbus: seq<ModbusRow>, tags: seq<TagRow>,
                          row: IecRow) returns (i: nat)
    requires DistinctAddresses(iec) && Succeeds(device, iec, modbus, tags) && row in iec
    requires row.address in Join(device, iec, modbus, tags).result.value
    requires Join(device, iec, modbus, tags).result.value[row.address].tag.Some?
    ensures |tags| == |ReadOnly(iec)| && i < |tags| && Holder(iec, ReadOnly(iec)[i].address) == row.address
    ensures Join(device, iec, modbus, tags).result.value[row.address].tag == Some(tags[i].tag)
  {
    TagCountMatches(device, iec, modbus, tags);
    TagOfRow(device, iec, modbus, tags, row);
    var x := if ClassOf(row) == Setpoint then ReadbackOf(row.address).value else row.address;
    TagKeys(ReadOnly(iec), tags);
    var j :| 0 <= j < |ReadOnly(iec)| && ReadOnly(iec)[j].address == x;
    ReadOnlyDistinct(iec);
    TagAt(ReadOnly(iec), tags, j);
    assert ClassOf(row) == Setpoint ==> ReadBackRow(iec, x);
    i := j;
  }

  /** Every tag on a point came from a tag row, and no two tag rows share a holder: the tags on
      the points are the tags read, each once. */
  lemma TagsConserved(device: string, iec: seq<IecRow>, modbus: seq<ModbusRow>, tags: seq<TagRow>)
    requires DistinctAddresses(iec) && Succeeds(device, iec, modbus, tags)
    ensures |tags| == |ReadOnly(iec)|
    ensures forall i, j :: 0 <= i < j < |tags|
              ==> Holder(iec, ReadOnly(iec)[i].address) != Holder(iec, ReadOnly(iec)[j].address)
    ensures var points := Join(device, iec, modbus, tags).result.value;
            forall a :: a in points && points[a].tag.Some? ==>
              exists i :: 0 <= i < |tags| && Holder(iec, ReadOnly(iec)[i].address) == a && points[a].tag == Some(tags[i].tag)
  {
    TagCountMatches(device, iec, modbus, tags);
    var readOnly := ReadOnly(iec);
    ReadOnlyDistinct(iec);
    ReadOnlyRows(iec);
    forall i, j | 0 <= i < j < |tags|
      ensures Holder(iec, readOnly[i].address) != Holder(iec, readOnly[j].address)
    {
      HoldersDiffer(iec, readOnly[i], readOnly[j]);
    }
    var points := Join(device, iec, modbus, tags).result.value;
    forall a | a in points && points[a].tag.Some?
      ensures exists i :: 0 <= i < |tags| && Holder(iec, readOnly[i].address) == a && points[a].tag == Some(tags[i].tag)
    {
      PointsMatchRows(device, iec, modbus);
      var row :| row in iec && row.address == a;
      var i := TaggedPointHasRow(device, iec, modbus, tags, row);
    }
  }

  lemma HoldersDiffer(iec: seq<IecRow>, r: IecRow, q: IecRow)
    requires DistinctAddresses(iec) && r in iec && q in iec && r.address != q.address
    requires ClassOf(r) != Setpoint && ClassOf(q) != Setpoint
    ensures Holder(iec, r.address) != Holder(iec, q.address)
  {
    SameAddressSameRow(iec);
    if ReadBackRow(iec, r.address) {
      var s :| s in iec && ClassOf(s) == Setpoint && ReadbackOf(s.address) == Some(r.address);
    }
    if ReadBackRow(iec, q.address) {
      var s :| s in iec && ClassOf(s) == Setpoint && ReadbackOf(s.address) == Some(q.address);
    }
  }
}
