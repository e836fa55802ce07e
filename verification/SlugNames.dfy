/** The slugs in closed form: each device by itself, and the points of one name numbered in the order
    they are served. */
module SlugNames {
  import opened FreshNames
  import opened Ordering
  import opened Rows
  import opened Slugs

  // ---- Each device by itself ----

  function OfDevice(points: seq<JoinedPoint>, device: string): seq<JoinedPoint> {
    if points == [] then []
    else
      var last := points[|points| - 1];
      OfDevice(points[..|points| - 1], device) + if last.device == device then [last] else []
  }

  /** The slugs of one device's points. */
  function SlugsOf(points: seq<JoinedPoint>, slugs: seq<string>, device: string): (r: seq<string>)
    requires |points| == |slugs|
  {
    if points == [] then []
    else
      var n := |points| - 1;
      SlugsOf(points[..n], slugs[..n], device) + if points[n].device == device then [slugs[n]] else []
  }

  lemma {:induction false} TakenIsSlugsOf(points: seq<JoinedPoint>, slugs: seq<string>, device: string)
    requires |points| == |slugs|
    ensures forall s :: s in Taken(points, slugs, device) <==> s in SlugsOf(points, slugs, device)
  {
    if points != [] {
      var n := |points| - 1;
      TakenIsSlugsOf(points[..n], slugs[..n], device);
      TakenSnoc(points[..n], slugs[..n], points[n], slugs[n], device);
      assert points == points[..n] + [points[n]] && slugs == slugs[..n] + [slugs[n]];
    }
  }

  /** Within one device everything given is taken. */
  lemma {:induction false} AllTakenAlone(points: seq<JoinedPoint>, slugs: seq<string>, device: string)
    requires |points| == |slugs| && forall p :: p in points ==> p.device == device
    ensures SlugsOf(points, slugs, device) == slugs
  {
    if points != [] {
      var n := |points| - 1;
      assert points[n] in points && forall p :: p in points[..n] ==> p in points;
      AllTakenAlone(points[..n], slugs[..n], device);
      assert slugs == slugs[..n] + [slugs[n]];
    }
  }

  lemma {:induction false} OfDeviceIsOf(points: seq<JoinedPoint>, device: string)
    ensures forall p :: p in OfDevice(points, device) ==> p.device == device
  {
    if points != [] {
      OfDeviceIsOf(points[..|points| - 1], device);
    }
  }

  /** The points of other devices play no part in a device's slugs. */
  lemma {:induction false} DevicesDoNotMix(points: seq<JoinedPoint>, slugify: string -> string, device: string)
    ensures SlugsOf(points, Assigned(points, slugify), device) == Assigned(OfDevice(points, device), slugify)
  {
    if points != [] {
      var n, p := |points| - 1, points[|points| - 1];
      var init, own := points[..n], OfDevice(points[..n], device);
      DevicesDoNotMix(init, slugify, device);
      assert Assigned(points, slugify)[..n] == Assigned(init, slugify);
      if p.device == device {
        SameTaken(init, slugify, device);
        AssignedSnoc(own, slugify, p);
      } else {
        assert own + [] == own;
      }
    }
  }

  lemma SameTaken(points: seq<JoinedPoint>, slugify: string -> string, device: string)
    requires SlugsOf(points, Assigned(points, slugify), device) == Assigned(OfDevice(points, device), slugify)
    ensures var own := OfDevice(points, device);
            Taken(points, Assigned(points, slugify), device) == Taken(own, Assigned(own, slugify), device)
  {
    var own := OfDevice(points, device);
    TakenIsSlugsOf(points, Assigned(points, slugify), device);
    OfDeviceIsOf(points, device);
    AllTakenAlone(own, Assigned(own, slugify), device);
    TakenIsSlugsOf(own, Assigned(own, slugify), device);
  }

  // ---- Points of one name ----

  predicate AllNamed(points: seq<JoinedPoint>, slugify: string -> string, device: string, base: string) {
    forall p :: p in points ==> p.device == device && Base(p, slugify) == base
  }

  lemma {:induction false} SameNameAt(points: seq<JoinedPoint>, slugify: string -> string, device: string,
                                      base: string, i: nat)
    requires AllNamed(points, slugify, device, base) && i < |points|
    ensures Assigned(points, slugify)[i] == Candidate(base, "_", i + 1)
    decreases i
  {
    var slugs := Assigned(points[..i], slugify);
    AssignedAt(points, slugify, i);
    forall k | 0 <= k < i
      ensures slugs[k] == Candidate(base, "_", k + 1)
    {
      SameNameAt(points, slugify, device, base, k);
      assert Assigned(points, slugify)[..i][k] == Assigned(points, slugify)[k];
    }
    OneMoreName(points[..i], slugify, device, base, slugs);
    assert points[i] in points;
  }

  lemma OneMoreName(points: seq<JoinedPoint>, slugify: string -> string, device: string, base: string, slugs: seq<string>)
    requires AllNamed(points, slugify, device, base) && |slugs| == |points|
    requires forall i :: 0 <= i < |slugs| ==> slugs[i] == Candidate(base, "_", i + 1)
    ensures FreeName(base, "_", Taken(points, slugs, device)) == Candidate(base, "_", |points| + 1)
  {
    AllTakenAlone(points, slugs, device);
    TakenIsSlugsOf(points, slugs, device);
    NextNumber(base, slugs, Taken(points, slugs, device));
  }

  /** Points of one device that share a clean name get it as it is, then with `_2`, `_3` and so on, in the
      order they are served. */
  lemma SameNamesAreNumbered(points: seq<JoinedPoint>, slugify: string -> string, device: string, base: string, i: nat)
    requires AllNamed(points, slugify, device, base) && i < |points|
    ensures Assigned(points, slugify)[i] == if i == 0 then base else base + "_" + Decimal(i + 1)
  {
    SameNameAt(points, slugify, device, base, i);
  }

  lemma NextNumber(base: string, slugs: seq<string>, taken: set<string>)
    requires forall k :: 0 <= k < |slugs| ==> slugs[k] == Candidate(base, "_", k + 1)
    requires forall s :: s in taken <==> s in slugs
    ensures FreeName(base, "_", taken) == Candidate(base, "_", |slugs| + 1)
  {
    forall k | 1 <= k < |slugs| + 1
      ensures Candidate(base, "_", k) in taken
    {
      assert slugs[k - 1] in slugs;
    }
    if Candidate(base, "_", |slugs| + 1) in taken {
      var k :| 0 <= k < |slugs| && slugs[k] == Candidate(base, "_", |slugs| + 1);
      CandidatesDiffer(base, "_", k + 1, |slugs| + 1);
    }
    FreeNameIs(base, "_", taken, |slugs| + 1);
  }

  /** A name that leaves nothing stands as `point`; so the points without a usable name are `point`,
      `point_2` and so on. */
  lemma NamelessArePoints(points: seq<JoinedPoint>, slugify: string -> string, device: string, i: nat)
    requires forall p :: p in points ==> p.device == device && slugify(p.nameRaw) == ""
    requires i < |points|
    ensures Assigned(points, slugify)[i] == if i == 0 then "point" else "point_" + Decimal(i + 1)
  {
    SameNamesAreNumbered(points, slugify, device, "point", i);
    assert "point" + "_" == "point_";
  }

  // ---- The order of service ----

  /** Points of one device and one rank are served by ascending IEC-104 address, and the devices one
      after another. */
  lemma ServedByAddress(points: seq<JoinedPoint>, i: nat, j: nat)
    requires InServiceOrder(points) && i < j < |points|
    ensures points[i].device == points[j].device || Before(points[i].device, points[j].device)
    ensures points[i].device == points[j].device
            && (points[i].pointClass == Telemetry <==> points[j].pointClass == Telemetry)
            ==> points[i].iec104Addr <= points[j].iec104Addr
  {
    assert ServedNoLater(points[i], points[j]);
    BeforeIsStrict(points[i].device);
  }
}
