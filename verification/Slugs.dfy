/** Slug assignment over the joined points of all devices. */
module Slugs {
  import opened FreshNames
  import opened Ordering
  import opened Rows

  // ---- Assignment ----

  function BaseOf(nameRaw: string, slugify: string -> string): string {
    if slugify(nameRaw) == "" then "point" else slugify(nameRaw)
  }

  function Base(p: JoinedPoint, slugify: string -> string): string {
    BaseOf(p.nameRaw, slugify)
  }

  /** The slugs given to the points of one device. */
  function Taken(points: seq<JoinedPoint>, slugs: seq<string>, device: string): set<string>
    requires |points| == |slugs|
  {
    set i | 0 <= i < |points| && points[i].device == device :: slugs[i]
  }

  /** Points served one after another, each taking its first free candidate within its device. */
  ghost function Assigned(points: seq<JoinedPoint>, slugify: string -> string): (slugs: seq<string>)
    ensures |slugs| == |points|
  {
    if points == [] then []
    else
      var init, p := points[..|points| - 1], points[|points| - 1];
      var slugs := Assigned(init, slugify);
      slugs + [FreeName(Base(p, slugify), "_", Taken(init, slugs, p.device))]
  }

  function UsedIn(used: map<string, set<string>>, device: string): set<string> {
    if device in used then used[device] else {}
  }

  class SlugRegistry {
    var used: map<string, set<string>>

    constructor ()
      ensures used == map[]
    {
      used := map[];
    }

    function UsedBy(device: string): set<string>
      reads this
    {
      UsedIn(used, device)
    }

    method SlugFor(device: string, nameRaw: string, slugify: string -> string) returns (slug: string)
      modifies this
      ensures slug == FreeName(BaseOf(nameRaw, slugify), "_", old(UsedBy(device)))
      ensures used == old(used)[device := old(UsedBy(device)) + {slug}]
    {
      var base := BaseOf(nameRaw, slugify);
      var taken := UsedBy(device);
      slug := NextFree(base, "_", taken);
      used := used[device := taken + {slug}];
    }
  }

  ghost predicate Tracks(used: map<string, set<string>>, points: seq<JoinedPoint>, slugs: seq<string>) {
    |points| == |slugs| && forall d :: UsedIn(used, d) == Taken(points, slugs, d)
  }

  /** `points` is the list in the order the slugs are served. */
  method AssignSlugs(points: seq<JoinedPoint>, slugify: string -> string) returns (slugs: seq<string>)
    ensures slugs == Assigned(points, slugify)
  {
    var registry := new SlugRegistry();
    slugs := [];
    assert Tracks(registry.used, [], []) by {
      assert forall d :: UsedIn(map[], d) == {};
      assert forall d :: Taken([], [], d) == {};
    }
    for i := 0 to |points|
      invariant |slugs| == i && slugs == Assigned(points[..i], slugify)
      invariant Tracks(registry.used, points[..i], slugs)
    {
      var p := points[i];
      ghost var before := registry.used;
      var slug := registry.SlugFor(p.device, p.nameRaw, slugify);
      AssignedSnoc(points[..i], slugify, p);
      TracksSnoc(before, registry.used, points[..i], slugs, p, slug);
      assert points[..i + 1] == points[..i] + [p];
      slugs := slugs + [slug];
    }
    assert points[..|points|] == points;
  }

  lemma TracksSnoc(before: map<string, set<string>>, after: map<string, set<string>>, points: seq<JoinedPoint>,
                   slugs: seq<string>, p: JoinedPoint, slug: string)
    requires Tracks(before, points, slugs)
    requires after == before[p.device := UsedIn(before, p.device) + {slug}]
    ensures Tracks(after, points + [p], slugs + [slug])
  {
    forall d
      ensures UsedIn(after, d) == Taken(points + [p], slugs + [slug], d)
    {
      TakenSnoc(points, slugs, p, slug, d);
    }
  }

  lemma AssignedSnoc(points: seq<JoinedPoint>, slugify: string -> string, p: JoinedPoint)
    ensures Assigned(points + [p], slugify) ==
            Assigned(points, slugify) + [FreeName(Base(p, slugify), "_", Taken(points, Assigned(points, slugify), p.device))]
  {
    assert (points + [p])[..|points|] == points;
  }

  lemma TakenSnoc(points: seq<JoinedPoint>, slugs: seq<string>, p: JoinedPoint, slug: string, device: string)
    requires |points| == |slugs|
    ensures Taken(points + [p], slugs + [slug], device)
            == Taken(points, slugs, device) + if p.device == device then {slug} else {}
  {
    var all := Taken(points + [p], slugs + [slug], device);
    var parts := Taken(points, slugs, device) + if p.device == device then {slug} else {};
    forall s | s in parts
      ensures s in all
    {
      if s in Taken(points, slugs, device) {
        var i :| 0 <= i < |points| && points[i].device == device && slugs[i] == s;
        assert (points + [p])[i].device == device && (slugs + [slug])[i] == s;
      } else {
        assert (points + [p])[|points|].device == device && (slugs + [slug])[|points|] == s;
      }
    }
  }

  // ---- What the order of service means ----

  function Priority(c: PointClass): nat {
    if c == Telemetry then 1 else 0
  }

  predicate ServedNoLater(p: JoinedPoint, q: JoinedPoint) {
    || Before(p.device, q.device)
    || (p.device == q.device && Priority(p.pointClass) < Priority(q.pointClass))
    || (p.device == q.device && Priority(p.pointClass) == Priority(q.pointClass) && p.iec104Addr <= q.iec104Addr)
  }

  /** Sorted by device, then priority, then address. */
  predicate InServiceOrder(points: seq<JoinedPoint>) {
    forall i, j :: 0 <= i < j < |points| ==> ServedNoLater(points[i], points[j])
  }

  /** Alarms and setpoints are served before telemetry of the same device. */
  predicate ControlsFirst(points: seq<JoinedPoint>) {
    forall i, j :: 0 <= i < j < |points| && points[i].device == points[j].device && points[i].pointClass == Telemetry
                   ==> points[j].pointClass == Telemetry
  }

  lemma ServiceOrderPutsControlsFirst(points: seq<JoinedPoint>)
    requires InServiceOrder(points)
    ensures ControlsFirst(points)
  {
    forall i, j | 0 <= i < j < |points| && points[i].device == points[j].device && points[i].pointClass == Telemetry
      ensures points[j].pointClass == Telemetry
    {
      assert ServedNoLater(points[i], points[j]);
      BeforeIsStrict(points[i].device);
    }
  }

  /** Each point's slug depends on the points served before it and nothing else. */
  lemma AssignedAt(points: seq<JoinedPoint>, slugify: string -> string, i: nat)
    requires i < |points|
    ensures Assigned(points, slugify)[..i] == Assigned(points[..i], slugify)
    ensures Assigned(points, slugify)[i]
            == FreeName(Base(points[i], slugify), "_", Taken(points[..i], Assigned(points[..i], slugify), points[i].device))
  {
    AssignedPrefix(points, slugify, i + 1);
    AssignedPrefix(points, slugify, i);
    assert points[..i + 1][..i] == points[..i];
    assert Assigned(points, slugify)[i] == Assigned(points[..i + 1], slugify)[i];
  }

  /** Points served later change no slug given earlier. */
  lemma {:induction false} AssignedPrefix(points: seq<JoinedPoint>, slugify: string -> string, n: nat)
    requires n <= |points|
    ensures Assigned(points, slugify)[..n] == Assigned(points[..n], slugify)
  {
    if n == |points| {
      assert points[..n] == points;
    } else {
      var init := points[..|points| - 1];
      AssignedPrefix(init, slugify, n);
      assert init[..n] == points[..n];
      assert Assigned(points, slugify)[..n] == Assigned(init, slugify)[..n];
    }
  }

  lemma TakenMember(points: seq<JoinedPoint>, slugify: string -> string, h: nat, i: nat, device: string)
    requires h < i < |points| && points[h].device == device
    ensures Assigned(points, slugify)[h] in Taken(points[..i], Assigned(points[..i], slugify), device)
  {
    AssignedAt(points, slugify, i);
    assert points[..i][h].device == device && Assigned(points[..i], slugify)[h] == Assigned(points, slugify)[h];
  }

  /** No two points of one device share a slug. */
  lemma SlugsAreDistinct(points: seq<JoinedPoint>, slugify: string -> string, i: nat, j: nat)
    requires i < j < |points| && points[i].device == points[j].device
    ensures Assigned(points, slugify)[i] != Assigned(points, slugify)[j]
  {
    AssignedAt(points, slugify, j);
    TakenMember(points, slugify, i, j, points[j].device);
  }

  /** Once a point is served, its clean name is held by it or by a point served before it. */
  lemma CleanNameIsHeld(points: seq<JoinedPoint>, slugify: string -> string, i: nat) returns (h: nat)
    requires i < |points|
    ensures h <= i && points[h].device == points[i].device
    ensures Assigned(points, slugify)[h] == Base(points[i], slugify)
  {
    AssignedAt(points, slugify, i);
    var before, device := Assigned(points[..i], slugify), points[i].device;
    if Base(points[i], slugify) in Taken(points[..i], before, device) {
      h :| 0 <= h < i && points[..i][h].device == device && before[h] == Base(points[i], slugify);
    } else {
      h := i;
    }
  }

  /** Telemetry never holds the clean name of an alarm or a setpoint of its device, whatever its own name is. */
  lemma TelemetryYieldsCleanNames(points: seq<JoinedPoint>, slugify: string -> string, i: nat, j: nat)
    requires InServiceOrder(points) && i < |points| && j < |points| && points[i].device == points[j].device
    requires points[i].pointClass == Telemetry && points[j].pointClass != Telemetry
    ensures Assigned(points, slugify)[i] != Base(points[j], slugify)
  {
    ServiceOrderPutsControlsFirst(points);
    var h := CleanNameIsHeld(points, slugify, j);
    assert points[h].pointClass != Telemetry;
    SlugsAreDistinct(points, slugify, h, i);
  }

  /** The alarms and setpoints of one device, whose clean names the order protects. */
  predicate Control(p: JoinedPoint, device: string) {
    p.device == device && p.pointClass != Telemetry
  }

  ghost predicate ControlsAreClean(points: seq<JoinedPoint>, slugify: string -> string, device: string) {
    forall i :: 0 <= i < |points| && Control(points[i], device)
                ==> Assigned(points, slugify)[i] == Base(points[i], slugify)
  }

  ghost predicate ControlNamesDiffer(points: seq<JoinedPoint>, slugify: string -> string, device: string) {
    forall i, j :: 0 <= i < j < |points| && Control(points[i], device) && Control(points[j], device)
                   ==> Base(points[i], slugify) != Base(points[j], slugify)
  }

  /** Every alarm and setpoint of a device keeps its clean name exactly when their names differ. */
  lemma ControlsKeepCleanNamesIff(points: seq<JoinedPoint>, slugify: string -> string, device: string)
    requires InServiceOrder(points)
    ensures ControlsAreClean(points, slugify, device) <==> ControlNamesDiffer(points, slugify, device)
  {
    if ControlsAreClean(points, slugify, device) {
      forall i, j | 0 <= i < j < |points| && Control(points[i], device) && Control(points[j], device)
        ensures Base(points[i], slugify) != Base(points[j], slugify)
      {
        SlugsAreDistinct(points, slugify, i, j);
      }
    }
    if ControlNamesDiffer(points, slugify, device) {
      forall i | 0 <= i < |points| && Control(points[i], device)
        ensures Assigned(points, slugify)[i] == Base(points[i], slugify)
      {
        ControlIsClean(points, slugify, device, i);
      }
    }
  }

  lemma {:induction false} ControlIsClean(points: seq<JoinedPoint>, slugify: string -> string, device: string, i: nat)
    requires InServiceOrder(points) && ControlNamesDiffer(points, slugify, device)
    requires i < |points| && Control(points[i], device)
    ensures Assigned(points, slugify)[i] == Base(points[i], slugify)
    decreases i
  {
    ServiceOrderPutsControlsFirst(points);
    var h := CleanNameIsHeld(points, slugify, i);
    if h < i {
      ControlIsClean(points, slugify, device, h);
    }
  }

  /** A telemetry point named like a control gets the suffix `_2` unless an earlier point already has it. */
  lemma TwinSuffix(points: seq<JoinedPoint>, slugify: string -> string, i: nat, j: nat)
    requires InServiceOrder(points) && i < |points| && j < |points| && points[i].device == points[j].device
    requires points[i].pointClass == Telemetry && points[j].pointClass != Telemetry
    requires Base(points[i], slugify) == Base(points[j], slugify)
    ensures Assigned(points, slugify)[i] == Candidate(Base(points[i], slugify), "_", 2)
            <==> forall h :: 0 <= h < i && points[h].device == points[i].device
                             ==> Assigned(points, slugify)[h] != Candidate(Base(points[i], slugify), "_", 2)
  {
    var base, device := Base(points[i], slugify), points[i].device;
    var second := Candidate(base, "_", 2);
    var taken := Taken(points[..i], Assigned(points[..i], slugify), device);
    AssignedAt(points, slugify, i);
    TelemetryYieldsCleanNames(points, slugify, i, j);
    assert AllTaken(base, "_", taken, 2) by {
      assert Candidate(base, "_", 1) == base;
    }
    if second !in taken {
      FreeNameIs(base, "_", taken, 2);
      forall h | 0 <= h < i && points[h].device == device
        ensures Assigned(points, slugify)[h] != second
      {
        TakenMember(points, slugify, h, i, device);
      }
    } else {
      var h :| 0 <= h < i && points[..i][h].device == device && Assigned(points[..i], slugify)[h] == second;
      assert points[h].device == device && Assigned(points, slugify)[h] == second;
    }
  }

  /** Where a device's controls have different names, the twin gets the suffix `_2` exactly when no
      other point served before it has its name or that name with `_2` after it. */
  lemma TwinSuffixByNames(points: seq<JoinedPoint>, slugify: string -> string, i: nat, j: nat)
    requires InServiceOrder(points) && i < |points| && j < |points| && points[i].device == points[j].device
    requires points[i].pointClass == Telemetry && points[j].pointClass != Telemetry
    requires Base(points[i], slugify) == Base(points[j], slugify)
    requires ControlNamesDiffer(points, slugify, points[i].device)
    ensures Assigned(points, slugify)[i] == Candidate(Base(points[i], slugify), "_", 2)
            <==> forall h :: 0 <= h < i && h != j && points[h].device == points[i].device
                             ==> Base(points[h], slugify) !in {Base(points[i], slugify), Candidate(Base(points[i], slugify), "_", 2)}
  {
    TwinSuffix(points, slugify, i, j);
    ServiceOrderPutsControlsFirst(points);
    ControlsKeepCleanNamesIff(points, slugify, points[i].device);
    assert Control(points[j], points[i].device);
    forall h | 0 <= h < i && points[h].device == points[i].device && Assigned(points, slugify)[h] == Candidate(Base(points[i], slugify), "_", 2)
      ensures h != j && Base(points[h], slugify) in {Base(points[i], slugify), Candidate(Base(points[i], slugify), "_", 2)}
    {
      SecondIsNamed(points, slugify, h, Base(points[i], slugify));
    }
    forall h | 0 <= h < i && h != j && points[h].device == points[i].device
               && Base(points[h], slugify) in {Base(points[i], slugify), Candidate(Base(points[i], slugify), "_", 2)}
      ensures exists g :: 0 <= g < i && points[g].device == points[i].device
                          && Assigned(points, slugify)[g] == Candidate(Base(points[i], slugify), "_", 2)
    {
      var g := SecondIsHeld(points, slugify, h, j, Base(points[i], slugify));
    }
  }

  /** Who holds a second candidate has its base as name, or the candidate itself. */
  lemma SecondIsNamed(points: seq<JoinedPoint>, slugify: string -> string, h: nat, base: string)
    requires h < |points| && Assigned(points, slugify)[h] == Candidate(base, "_", 2)
    ensures Base(points[h], slugify) in {base, Candidate(base, "_", 2)}
  {
    AssignedAt(points, slugify, h);
    var used := Taken(points[..h], Assigned(points[..h], slugify), points[h].device);
    var n := FreeNameIsCandidate(Base(points[h], slugify), "_", used);
    SecondCandidateIs(base, Base(points[h], slugify), n);
  }

  /** A second point of a name, or one named like the second candidate, sees to it that the candidate is held. */
  lemma SecondIsHeld(points: seq<JoinedPoint>, slugify: string -> string, h: nat, j: nat, base: string) returns (g: nat)
    requires h < |points| && j < |points| && h != j && points[h].device == points[j].device
    requires Base(points[h], slugify) in {base, Candidate(base, "_", 2)} && Base(points[j], slugify) == base
    requires InServiceOrder(points) && points[j].pointClass != Telemetry
    requires ControlNamesDiffer(points, slugify, points[j].device)
    ensures g <= h && points[g].device == points[h].device && Assigned(points, slugify)[g] == Candidate(base, "_", 2)
  {
    if Base(points[h], slugify) == Candidate(base, "_", 2) {
      g := CleanNameIsHeld(points, slugify, h);
    } else {
      SameNameIsTelemetry(points, slugify, h, j);
      TelemetryYieldsCleanNames(points, slugify, h, j);
      g := SecondOrEarlier(points, slugify, h);
    }
  }

  lemma SameNameIsTelemetry(points: seq<JoinedPoint>, slugify: string -> string, h: nat, j: nat)
    requires h < |points| && j < |points| && h != j && points[h].device == points[j].device
    requires Base(points[h], slugify) == Base(points[j], slugify) && points[j].pointClass != Telemetry
    requires ControlNamesDiffer(points, slugify, points[j].device)
    ensures points[h].pointClass == Telemetry
  {
    if points[h].pointClass != Telemetry {
      assert Control(points[h], points[j].device) && Control(points[j], points[j].device);
      if h < j {
        assert false;
      } else {
        assert false;
      }
    }
  }

  /** A point without its clean name has its second candidate, or found it held. */
  lemma SecondOrEarlier(points: seq<JoinedPoint>, slugify: string -> string, h: nat) returns (g: nat)
    requires h < |points| && Assigned(points, slugify)[h] != Base(points[h], slugify)
    ensures g <= h && points[g].device == points[h].device
    ensures Assigned(points, slugify)[g] == Candidate(Base(points[h], slugify), "_", 2)
  {
    AssignedAt(points, slugify, h);
    var base, device := Base(points[h], slugify), points[h].device;
    var used := Taken(points[..h], Assigned(points[..h], slugify), device);
    var n := FreeNameIsCandidate(base, "_", used);
    assert Candidate(base, "_", 1) == base;
    if n == 2 {
      g := h;
    } else {
      assert Candidate(base, "_", 2) in used;
      var k :| 0 <= k < h && points[..h][k].device == device && Assigned(points[..h], slugify)[k] == Candidate(base, "_", 2);
      assert Assigned(points, slugify)[k] == Assigned(points[..h], slugify)[k];
      g := k;
    }
  }

  /** An alarm whose own name ends in `_2` pushes a setpoint's twin to `_3`. */
  lemma TwinCanBeThird(p: JoinedPoint, slugify: string -> string, points: seq<JoinedPoint>)
    requires points == [p.(nameRaw := "x_2", pointClass := Alarm, iec104Addr := 1),
                        p.(nameRaw := "x", pointClass := Setpoint, iec104Addr := 25089),
                        p.(nameRaw := "x", pointClass := Telemetry, iec104Addr := 16411)]
    requires slugify("x") == "x" && slugify("x_2") == "x_2"
    ensures InServiceOrder(points) && Assigned(points, slugify)[2] == "x_3"
  {
    assert Decimal(2) == "2" && Decimal(3) == "3";
    assert Control(points[0], p.device) && Control(points[1], p.device);
    assert ControlNamesDiffer(points, slugify, p.device);
    ControlsKeepCleanNamesIff(points, slugify, p.device);
    var taken := Taken(points[..2], Assigned(points[..2], slugify), p.device);
    TakenMember(points, slugify, 0, 2, p.device);
    TakenMember(points, slugify, 1, 2, p.device);
    assert "x_2" in taken && "x" in taken;
    assert AllTaken("x", "_", taken, 3) by {
      assert Candidate("x", "_", 1) == "x" && Candidate("x", "_", 2) == "x_2";
    }
    AssignedAt(points, slugify, 2);
    assert Candidate("x", "_", 3) == "x_3";
    FreeNameIs("x", "_", taken, 3);
  }

  // ---- The override index ----

  datatype PointRef = PointRef(device: string, slug: string)

  function References(points: seq<JoinedPoint>, slugs: seq<string>): (r: seq<PointRef>)
    requires |points| == |slugs|
    ensures |r| == |points|
  {
    seq(|points|, i requires 0 <= i < |points| => PointRef(points[i].device, slugs[i]))
  }

  /** The place of the last record under each reference. */
  ghost predicate Indexes(index: map<PointRef, nat>, refs: seq<PointRef>) {
    && (forall r :: r in index <==> r in refs)
    && (forall r :: r in index ==> index[r] < |refs| && refs[index[r]] == r && forall k :: index[r] < k < |refs| ==> refs[k] != r)
  }

  /** A later record under the same reference replaces an earlier one. */
  method IndexRecords(refs: seq<PointRef>) returns (index: map<PointRef, nat>)
    ensures Indexes(index, refs)
  {
    index := map[];
    for i := 0 to |refs|
      invariant Indexes(index, refs[..i])
    {
      IndexesSnoc(index, refs[..i], refs[i]);
      assert refs[..i + 1] == refs[..i] + [refs[i]];
      index := index[refs[i] := i];
    }
    assert refs[..|refs|] == refs;
  }

  lemma IndexesSnoc(index: map<PointRef, nat>, refs: seq<PointRef>, r: PointRef)
    requires Indexes(index, refs)
    ensures Indexes(index[r := |refs|], refs + [r])
  {
  }

  ghost predicate OneToOne(index: map<PointRef, nat>, refs: seq<PointRef>) {
    |index| == |refs| && forall i :: 0 <= i < |refs| ==> refs[i] in index && index[refs[i]] == i
  }

  /** Over assigned slugs, in whatever order the records are listed, the index has one entry a record
      and finds each record at its own place. */
  lemma IndexIsOneToOne(points: seq<JoinedPoint>, slugify: string -> string, refs: seq<PointRef>,
                        index: map<PointRef, nat>)
    requires multiset(refs) == multiset(References(points, Assigned(points, slugify))) && Indexes(index, refs)
    ensures |refs| == |points| && OneToOne(index, refs)
  {
    var served := References(points, Assigned(points, slugify));
    ReferencesDiffer(points, slugify);
    DistinctAnyOrder(served, refs);
    assert |multiset(refs)| == |refs| && |multiset(served)| == |served|;
    IndexOfDistinct(refs, index);
  }

  lemma DistinctAnyOrder(a: seq<PointRef>, b: seq<PointRef>)
    requires Distinct(a) && multiset(a) == multiset(b)
    ensures Distinct(b)
  {
    forall i, j | 0 <= i < j < |b|
      ensures b[i] != b[j]
    {
      if b[i] == b[j] {
        CountsTwo(b, i, j);
        DistinctCountsOnce(a, b[i]);
        assert false;
      }
    }
  }

  lemma CountsTwo(refs: seq<PointRef>, i: nat, j: nat)
    requires i < j < |refs| && refs[i] == refs[j]
    ensures multiset(refs)[refs[i]] >= 2
  {
    assert refs == refs[..j] + ([refs[j]] + refs[j + 1..]);
    assert refs[..j][i] == refs[i];
  }

  lemma {:induction false} DistinctCountsOnce(refs: seq<PointRef>, r: PointRef)
    requires Distinct(refs)
    ensures multiset(refs)[r] <= 1
  {
    if refs != [] {
      var init, last := refs[..|refs| - 1], refs[|refs| - 1];
      assert refs == init + [last];
      DistinctCountsOnce(init, r);
      assert last !in init;
    }
  }

  lemma ReferencesDiffer(points: seq<JoinedPoint>, slugify: string -> string)
    ensures Distinct(References(points, Assigned(points, slugify)))
  {
    var refs := References(points, Assigned(points, slugify));
    forall i, j | 0 <= i < j < |refs|
      ensures refs[i] != refs[j]
    {
      if points[i].device == points[j].device {
        SlugsAreDistinct(points, slugify, i, j);
      }
    }
  }

  predicate Distinct(refs: seq<PointRef>) {
    forall i, j :: 0 <= i < j < |refs| ==> refs[i] != refs[j]
  }

  lemma IndexOfDistinct(refs: seq<PointRef>, index: map<PointRef, nat>)
    requires Indexes(index, refs) && Distinct(refs)
    ensures OneToOne(index, refs)
  {
    forall i | 0 <= i < |refs|
      ensures refs[i] in index && index[refs[i]] == i
    {
      assert refs[i] in refs;
    }
    DistinctCount(refs);
    assert index.Keys == (set r | r in refs);
  }

  lemma {:induction false} DistinctCount(refs: seq<PointRef>)
    requires Distinct(refs)
    ensures |set r | r in refs| == |refs|
  {
    if refs != [] {
      var init, last := refs[..|refs| - 1], refs[|refs| - 1];
      DistinctCount(init);
      assert refs == init + [last];
      assert (set r | r in refs) == (set r | r in init) + {last};
    }
  }
}
