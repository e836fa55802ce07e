/** The console's map is the store's map at the console's revision, in every reachable state;
    and exactly when a telemetry message is taken for a gap. */
module ReplicationTheorems {
  import opened Prelude
  import opened Store
  import opened Wire
  import opened Feed
  import opened Console
  import Lifecycle
  import opened Logs
  import opened Replication

  // ---- The invariant ----

  predicate ProperChanges(changes: seq<Change>) {
    forall c :: c in changes ==> Proper(c.key)
  }

  /** `changes` turn revision `from - 1` into revision `to`. */
  predicate Bridges(h: seq<Values>, from: nat, to: nat, overlay: Values) {
    1 <= from <= to < |h| && h[to] == h[from - 1] + overlay
  }

  predicate Sound(h: seq<Values>, m: Wire.Message) {
    match m
    case Snapshot(rev, points) =>
      rev.Some? && points.Some? && rev.value < |h| && h[rev.value] == Overlay(points.value) && ProperChanges(points.value)
    case Telemetry(rev, from, changes) =>
      rev.Some? && from.Some? && changes.Some? && ProperChanges(changes.value)
      && Bridges(h, from.value, rev.value, Overlay(changes.value))
    case _ => true
  }

  /** The revision a receiver holding `base` ends with after reading the wire. */
  function Conveyed(base: Option<nat>, wire: seq<Sent>): Option<nat> {
    if wire == [] then base
    else
      var last := wire[|wire| - 1].message;
      if last.Snapshot? || last.Telemetry? then last.revision else Conveyed(base, wire[..|wire| - 1])
  }

  /** Each telemetry message starts right after what was conveyed before it, but for the
      batches it skipped. */
  predicate Linked(base: Option<nat>, wire: seq<Sent>) {
    wire == []
    || (var last := wire[|wire| - 1];
        var before := Conveyed(base, wire[..|wire| - 1]);
        && Linked(base, wire[..|wire| - 1])
        && (last.message.Telemetry? ==>
              before.Some? && last.message.fromRevision == Some(before.value + 1 + last.skipped)))
  }

  predicate SoundBatch(h: seq<Values>, b: Batch) {
    ProperChanges(b.changes) && Bridges(h, b.revision, b.revision, Overlay(b.changes))
  }

  predicate SoundFeed(h: seq<Values>, f: Feed) {
    && f.sent <= f.last < |h|
    && ProperValues(f.pending)
    && (f.pending == map[] ==> f.last == f.sent + f.idle && h[f.last] == h[f.sent])
    && (f.pending != map[] ==>
          && f.pendingRevision == f.last
          && f.pendingStart == f.sent + 1 + f.idle
          && Bridges(h, f.pendingStart, f.last, f.pending))
    && SoundQueue(h, f.queue)
    && (f.lossless ==> f.last + |f.queue| + 1 == |h| && Consecutive(f.queue, f.last + 1))
  }

  predicate SoundQueue(h: seq<Values>, queue: seq<Batch>) {
    forall b :: b in queue ==> SoundBatch(h, b)
  }

  predicate Consecutive(queue: seq<Batch>, first: nat) {
    forall i :: 0 <= i < |queue| ==> queue[i].revision == first + i
  }

  /** What the console holds is the store at the revision it names. */
  ghost predicate Replica(h: seq<Values>, c: State) {
    if c.revision.None? then c.points == map[]
    else c.revision.value < |h| && Mirrors(c.points, h[c.revision.value])
  }

  predicate SoundLink(h: seq<Values>, f: Feed, wire: seq<Sent>, base: Option<nat>) {
    && SoundFeed(h, f)
    && (forall i :: 0 <= i < |wire| ==> Sound(h, wire[i].message))
    && Linked(base, wire)
    && Conveyed(base, wire) == Some(f.sent)
  }

  ghost predicate Invariant(s: System) {
    && s.history != []
    && (forall r :: 0 <= r < |s.history| ==> ProperValues(s.history[r]))
    && Lifecycle.Held(s.console)
    && Replica(Shown(s), s.console)
    && (s.past.Some? && s.feed.Some? ==> s.wire != [] && s.wire[0].message.Snapshot?)
    && (s.feed.None? ==> s.wire == [])
    && (s.feed.Some? ==> s.console.openSources != {} && SoundLink(s.history, s.feed.value, s.wire, s.console.revision))
  }

  // ---- Wire facts ----

  lemma WireAppend(base: Option<nat>, wire: seq<Sent>, m: Sent)
    ensures Conveyed(base, wire + [m]) ==
            if m.message.Snapshot? || m.message.Telemetry? then m.message.revision else Conveyed(base, wire)
    ensures Linked(base, wire + [m]) <==>
            && Linked(base, wire)
            && (m.message.Telemetry? ==>
                  Conveyed(base, wire).Some? && m.message.fromRevision == Some(Conveyed(base, wire).value + 1 + m.skipped))
  {
    assert (wire + [m])[..|wire|] == wire;
  }

  /** What the head of the wire conveys. */
  function AfterHead(base: Option<nat>, first: Sent): Option<nat> {
    if first.message.Snapshot? || first.message.Telemetry? then first.message.revision else base
  }

  lemma {:induction false} ConveyedHead(base: Option<nat>, wire: seq<Sent>)
    requires wire != []
    ensures Conveyed(AfterHead(base, wire[0]), wire[1..]) == Conveyed(base, wire)
  {
    var init := wire[..|wire| - 1];
    if init != [] {
      ConveyedHead(base, init);
      assert wire[1..][..|wire| - 2] == init[1..];
    }
  }

  lemma {:induction false} LinkedHead(base: Option<nat>, wire: seq<Sent>)
    requires wire != [] && Linked(base, wire)
    ensures Linked(AfterHead(base, wire[0]), wire[1..])
    ensures wire[0].message.Telemetry? ==>
              base.Some? && wire[0].message.fromRevision == Some(base.value + 1 + wire[0].skipped)
  {
    var init := wire[..|wire| - 1];
    if init != [] {
      LinkedHead(base, init);
      ConveyedHead(base, init);
      assert wire[1..][..|wire| - 2] == init[1..];
    }
  }

  /** The head of the wire can be accounted to the receiver instead. */
  lemma WireHead(base: Option<nat>, wire: seq<Sent>)
    requires wire != [] && Linked(base, wire)
    ensures var next := Conveyed(base, wire[..1]);
            Conveyed(next, wire[1..]) == Conveyed(base, wire) && Linked(next, wire[1..])
    ensures wire[0].message.Telemetry? ==>
              base.Some? && wire[0].message.fromRevision == Some(base.value + 1 + wire[0].skipped)
  {
    ConveyedHead(base, wire);
    LinkedHead(base, wire);
    assert wire[..1][..0] == [];
  }

  lemma {:induction false} WireQuiet(base: Option<nat>, wire: seq<Sent>, more: seq<Sent>)
    requires forall i :: 0 <= i < |more| ==> !more[i].message.Snapshot? && !more[i].message.Telemetry?
    ensures Conveyed(base, wire + more) == Conveyed(base, wire)
    ensures Linked(base, wire) ==> Linked(base, wire + more)
    decreases |more|
  {
    if more == [] {
      assert wire + more == wire;
    } else {
      WireQuiet(base, wire, more[..|more| - 1]);
      WireAppend(base, wire + more[..|more| - 1], more[|more| - 1]);
      assert wire + more == wire + more[..|more| - 1] + [more[|more| - 1]];
    }
  }

  // ---- Every action keeps the invariant ----

  lemma SoundGrows(h: seq<Values>, m: Values, f: Feed, wire: seq<Sent>, base: Option<nat>)
    requires SoundLink(h, f, wire, base)
    ensures SoundLink(h + [m], f.(lossless := false), wire, base)
  {
  }

  lemma PublishSound(h: seq<Values>, m: Values, f: Feed, b: Batch)
    requires h != [] && SoundFeed(h + [m], f.(lossless := false)) && SoundFeed(h, f)
    requires b.revision == |h| && SoundBatch(h + [m], b)
    ensures SoundFeed(h + [m], Publish(f, b))
  {
    var g := Publish(f, b);
    assert forall x :: x in g.queue ==> x == b || x in f.queue;
  }

  lemma MutateKeeps(s: System, changes: seq<Change>)
    requires Invariant(s) && ProperChanges(changes)
    ensures Invariant(Next(s, Mutate(changes)))
  {
    var m := s.history[Current(s)] + Overlay(changes);
    var grown := s.history + [m];
    ProperOverlay(s.history[Current(s)], changes);
    if s.feed.Some? {
      var f, b := s.feed.value, Batch(|s.history|, changes);
      SoundGrows(s.history, m, f, s.wire, s.console.revision);
      assert SoundBatch(grown, b);
      PublishSound(s.history, m, f, b);
    }
  }

  lemma AcceptKeeps(s: System, points: seq<Change>, replay: seq<RareEvent>, expired: bool)
    requires Invariant(s) && Enabled(s, Accept(points, replay, expired))
    ensures Invariant(Next(s, Accept(points, replay, expired)))
  {
    var f := Subscribe(Current(s));
    var wire := Bootstrap(Current(s), points, replay, expired);
    OverlayKeys(points);
    assert ProperChanges(points);
    var head := wire[..1];
    assert head == [] + [Sent(Snapshot(Some(Current(s)), Some(points)), 0)];
    WireAppend(s.console.revision, [], head[0]);
    WireQuiet(s.console.revision, head, wire[1..]);
    assert wire == head + wire[1..];
    assert SoundLink(s.history, f, wire, s.console.revision);
  }

  lemma OverlayChain(base: Values, p: Values, o: Values)
    ensures base + p + o == base + (p + o)
    ensures p + o == map[] <==> p == map[] && o == map[]
    ensures ProperValues(p) && ProperValues(o) ==> ProperValues(p + o)
  {
    assert p.Keys <= (p + o).Keys && o.Keys <= (p + o).Keys;
  }

  lemma OverlayProper(changes: seq<Change>)
    requires ProperChanges(changes)
    ensures ProperValues(Overlay(changes))
    ensures Overlay(changes) == map[] <==> changes == []
  {
    OverlayKeys(changes);
    assert changes != [] ==> changes[0].key in Overlay(changes);
  }

  /** The queue behind its first batch. */
  lemma RestOfQueue(h: seq<Values>, queue: seq<Batch>, first: nat)
    requires queue != [] && SoundQueue(h, queue)
    ensures SoundBatch(h, queue[0]) && SoundQueue(h, queue[1..])
    ensures Consecutive(queue, first) ==> queue[0].revision == first && Consecutive(queue[1..], first + 1)
  {
  }

  lemma TakeNothing(h: seq<Values>, f: Feed)
    requires SoundFeed(h, f) && f.running && f.queue != [] && f.queue[0].revision == f.last + 1
    requires f.pending == map[] && f.queue[0].changes == []
    ensures SoundFeed(h, Take(f).0)
  {
    RestOfQueue(h, f.queue, f.last + 1);
    assert h[f.last] + Overlay([]) == h[f.last];
    assert Take(f).0.pending == map[];
  }

  lemma TakeFirst(h: seq<Values>, f: Feed)
    requires SoundFeed(h, f) && f.running && f.queue != [] && f.queue[0].revision == f.last + 1
    requires f.pending == map[] && f.queue[0].changes != []
    ensures SoundFeed(h, Take(f).0)
  {
    RestOfQueue(h, f.queue, f.last + 1);
    OverlayProper(f.queue[0].changes);
    assert Take(f).0.pending == Overlay(f.queue[0].changes);
  }

  lemma BridgeExtends(h: seq<Values>, from: nat, to: nat, p: Values, o: Values)
    requires Bridges(h, from, to, p) && Bridges(h, to + 1, to + 1, o)
    ensures Bridges(h, from, to + 1, p + o)
  {
    OverlayChain(h[from - 1], p, o);
  }

  lemma TakeMore(h: seq<Values>, f: Feed)
    requires SoundFeed(h, f) && f.running && f.queue != [] && f.queue[0].revision == f.last + 1
    requires f.pending != map[]
    ensures SoundFeed(h, Take(f).0)
  {
    var b := f.queue[0];
    var o := Overlay(b.changes);
    RestOfQueue(h, f.queue, f.last + 1);
    OverlayProper(b.changes);
    BridgeExtends(h, f.pendingStart, f.last, f.pending, o);
    OverlayChain(map[], f.pending, o);
    assert Take(f).0 == f.(queue := f.queue[1..], last := f.last + 1, pending := f.pending + o, pendingRevision := f.last + 1);
  }

  lemma TakeSound(h: seq<Values>, f: Feed)
    requires SoundFeed(h, f) && f.running && f.queue != []
    ensures SoundFeed(h, Take(f).0)
  {
    if f.queue[0].revision == f.last + 1 {
      if f.pending != map[] {
        TakeMore(h, f);
      } else if f.queue[0].changes == [] {
        TakeNothing(h, f);
      } else {
        TakeFirst(h, f);
      }
    }
  }

  /** A sound feed and wire may replace those in place. */
  lemma TransportKeeps(s: System, f: Feed, wire: seq<Sent>)
    requires Invariant(s) && s.feed.Some? && SoundLink(s.history, f, wire, s.console.revision) && s.wire <= wire
    ensures Invariant(s.(feed := Some(f), wire := wire))
  {
  }

  lemma TakeKeeps(s: System)
    requires Invariant(s) && Enabled(s, TakeBatch)
    ensures Invariant(Next(s, TakeBatch))
  {
    var (g, out) := Take(s.feed.value);
    TakeSound(s.history, s.feed.value);
    WireQuiet(s.console.revision, s.wire, Unmarked(out, 0));
    TransportKeeps(s, g, s.wire + Unmarked(out, 0));
  }

  lemma FlushSound(h: seq<Values>, f: Feed, changes: seq<Change>)
    requires SoundFeed(h, f) && f.running && Overlay(changes) == f.pending && f.pending != map[]
    ensures SoundFeed(h, Flush(f, changes).0) && Flush(f, changes).0.sent == f.last
    ensures Flush(f, changes).1 == [Telemetry(Some(f.last), Some(f.sent + 1 + f.idle), Some(changes))]
    ensures Sound(h, Telemetry(Some(f.last), Some(f.sent + 1 + f.idle), Some(changes)))
  {
    OverlayKeys(changes);
    assert forall c :: c in changes ==> c.key in f.pending;
  }

  lemma LinkMore(h: seq<Values>, f: Feed, g: Feed, wire: seq<Sent>, base: Option<nat>, m: Sent)
    requires SoundLink(h, f, wire, base) && SoundFeed(h, g) && Sound(h, m.message)
    requires m.message.Telemetry? && m.message.revision == Some(g.sent)
             && m.message.fromRevision == Some(f.sent + 1 + m.skipped)
    ensures SoundLink(h, g, wire + [m], base)
  {
    WireAppend(base, wire, m);
  }

  lemma FlushKeepsLink(h: seq<Values>, f: Feed, wire: seq<Sent>, base: Option<nat>, changes: seq<Change>)
    requires SoundLink(h, f, wire, base) && f.running && Overlay(changes) == f.pending
    ensures SoundLink(h, Flush(f, changes).0, wire + Unmarked(Flush(f, changes).1, f.idle), base)
  {
    var (g, out) := Flush(f, changes);
    if f.pending == map[] {
      assert wire + Unmarked(out, f.idle) == wire;
    } else {
      FlushSound(h, f, changes);
      var m := Sent(out[0], f.idle);
      assert Unmarked(out, f.idle) == [m];
      LinkMore(h, f, g, wire, base, m);
    }
  }

  lemma CloseWindowKeeps(s: System, changes: seq<Change>)
    requires Invariant(s) && Enabled(s, CloseWindow(changes))
    ensures Invariant(Next(s, CloseWindow(changes)))
  {
    FlushKeepsLink(s.history, s.feed.value, s.wire, s.console.revision, changes);
    var (g, out) := Flush(s.feed.value, changes);
    TransportKeeps(s, g, s.wire + Unmarked(out, s.feed.value.idle));
  }

  lemma PublishRareKeeps(s: System, event: RareEvent)
    requires Invariant(s) && Enabled(s, PublishRare(event))
    ensures Invariant(Next(s, PublishRare(event)))
  {
    WireAppend(s.console.revision, s.wire, Sent(Rare(event), 0));
  }

  /** The heart of the matter: reading one sound message keeps the replica. */
  lemma ConsumeKeepsReplica(h: seq<Values>, c: State, m: Wire.Message)
    requires forall r :: 0 <= r < |h| ==> ProperValues(h[r])
    requires Replica(h, c) && Sound(h, m)
    requires m.Telemetry? ==> c.revision.Some?
    ensures Replica(h, Consumed(c, m))
  {
    if m.Snapshot? {
      SnapshotMirrors(h, m);
    } else if m.Telemetry? && !Gapped(c, m) {
      TelemetryMirrors(h, c, m);
    }
  }

  lemma TelemetryMirrors(h: seq<Values>, c: State, m: Wire.Message)
    requires forall r :: 0 <= r < |h| ==> ProperValues(h[r])
    requires Replica(h, c) && m.Telemetry? && Sound(h, m) && c.revision.Some? && !Gapped(c, m)
    ensures Mirrors(Assigned(c.points, m.changes.value), h[m.revision.value])
  {
    AssignedMirrors(c.points, h[c.revision.value], m.changes.value);
  }

  lemma SnapshotMirrors(h: seq<Values>, m: Wire.Message)
    requires m.Snapshot? && Sound(h, m)
    ensures Mirrors(Assigned(map[], m.points.value), h[m.revision.value])
  {
    assert Mirrors(map[], map[]);
    AssignedMirrors(map[], map[], m.points.value);
    assert map[] + Overlay(m.points.value) == h[m.revision.value];
  }

  lemma DeliverKeeps(s: System)
    requires Invariant(s) && Enabled(s, Deliver)
    ensures Invariant(Next(s, Deliver))
  {
    var h, f, m := s.history, s.feed.value, s.wire[0].message;
    var c := Consumed(s.console, m);
    Lifecycle.HeldKept(s.console, Lifecycle.Message(s.console.source.value, m));
    WireHead(s.console.revision, s.wire);
    if s.past.Some? {
      SnapshotMirrors(h, m);
    } else {
      ConsumeKeepsReplica(h, s.console, m);
    }
    if c.openSources != {} {
      assert s.wire[..1] == [s.wire[0]];
      assert [s.wire[0]][..0] == [];
      assert Conveyed(s.console.revision, s.wire[..1]) == c.revision;
    }
  }

  lemma StepKeepsInvariant(s: System, a: Action)
    requires Invariant(s) && Enabled(s, a)
    ensures Invariant(Next(s, a))
  {
    match a
    case Mutate(changes) => MutateKeeps(s, changes);
    case Accept(points, replay, expired) => AcceptKeeps(s, points, replay, expired);
    case TakeBatch => TakeKeeps(s);
    case CloseWindow(changes) => CloseWindowKeeps(s, changes);
    case PublishRare(event) => PublishRareKeeps(s, event);
    case Deliver => DeliverKeeps(s);
    case LoseTransport =>
    case Restart(initial) =>
    case FailSource(source) => Lifecycle.HeldKept(s.console, Lifecycle.SourceFails(source));
    case FireTimer(timer) => Lifecycle.HeldKept(s.console, Lifecycle.Timer(timer));
    case Unmount => Lifecycle.HeldKept(s.console, Lifecycle.Cleanup);
  }

  lemma {:induction false} RanKeepsInvariant(s: System, actions: seq<Action>)
    requires Invariant(s) && Feasible(s, actions)
    ensures Invariant(Ran(s, actions))
    decreases |actions|
  {
    if actions != [] {
      StepKeepsInvariant(s, actions[0]);
      RanKeepsInvariant(Next(s, actions[0]), actions[1..]);
    }
  }

  lemma InvariantAlways(s: System)
    requires Reachable(s)
    ensures Invariant(s)
  {
    var initial, restored, actions :|
      ProperValues(initial) && Feasible(Start(initial, restored), actions) && s == Ran(Start(initial, restored), actions);
    assert Mirrors(map[], map[]);
    RanKeepsInvariant(Start(initial, restored), actions);
  }

  // ---- Main results ----

  /** Before the first snapshot the console's map is empty; from then on it is the store's map
      at the revision the console names, whatever was dropped, coalesced or lost. The store is that of
      the server process the last snapshot came from, and after a restart the first message to be read
      is a snapshot. */
  lemma ConsoleReplicatesStore(s: System)
    requires Reachable(s)
    ensures s.console.revision.None? ==> s.console.points == map[]
    ensures s.console.revision.Some? ==>
              && s.console.revision.value < |Shown(s)|
              && Mirrors(s.console.points, Shown(s)[s.console.revision.value])
    ensures s.past.Some? && s.wire != [] ==> s.wire[0].message.Snapshot?
  {
    InvariantAlways(s);
  }

  /** The record is determined by what it mirrors. */
  lemma MirrorsDetermines(p: map<string, real>, q: map<string, real>, m: Values)
    requires Mirrors(p, m) && Mirrors(q, m)
    ensures p == q
  {
    forall l | l in p
      ensures l in q && q[l] == p[l]
    {
      var k :| k in m && Label(k) == l;
    }
    forall l | l in q
      ensures l in p
    {
      var k :| k in m && Label(k) == l;
    }
  }

  /** A telemetry message reaching the console is taken for a gap exactly when the server passed
      over batches without changes before it; a gap leaves map and revision alone. */
  lemma GapExactlyAfterIdleBatches(s: System)
    requires Reachable(s) && s.history != [] && Enabled(s, Deliver) && s.wire[0].message.Telemetry?
    ensures Gapped(s.console, s.wire[0].message) <==> s.wire[0].skipped > 0
    ensures Gapped(s.console, s.wire[0].message) ==>
              var c := Next(s, Deliver).console;
              && c.points == s.console.points && c.revision == s.console.revision
              && c.openSources == {} && c.retryTimer.Some? && c.timers == {c.retryTimer.value}
    ensures !Gapped(s.console, s.wire[0].message) ==>
              Next(s, Deliver).console.revision == s.wire[0].message.revision
  {
    InvariantAlways(s);
    WireHead(s.console.revision, s.wire);
  }

  /** Nothing queued, pending or in flight on a running connection. */
  predicate Quiet(s: System) {
    s.feed.Some? && s.feed.value.running && s.feed.value.queue == [] && s.feed.value.pending == map[] && s.wire == []
  }

  /** On a quiet connection the console shows the present store exactly when the store has not
      moved away from the last batch taken; if no batch was dropped it always does. */
  lemma QuietConsoleIsCurrent(s: System)
    requires Reachable(s) && Quiet(s) && s.history != [] && s.feed.value.last < |s.history|
    ensures Mirrors(s.console.points, s.history[Current(s)]) <==> s.history[s.feed.value.last] == s.history[Current(s)]
    ensures s.feed.value.lossless ==> Mirrors(s.console.points, s.history[Current(s)])
  {
    InvariantAlways(s);
    QuietShows(s);
    if Mirrors(s.console.points, s.history[Current(s)]) {
      MirroredOnce(s.console.points, s.history[s.feed.value.last], s.history[Current(s)]);
    }
  }

  lemma QuietShows(s: System)
    requires Invariant(s) && Quiet(s)
    ensures s.feed.value.last < |s.history| && s.feed.value.last == s.feed.value.sent + s.feed.value.idle
    ensures s.console.revision == Some(s.feed.value.sent)
    ensures Mirrors(s.console.points, s.history[s.feed.value.last])
    ensures s.feed.value.lossless ==> s.feed.value.last == Current(s)
  {
  }

  lemma MirroredOnce(p: map<string, real>, m: Values, n: Values)
    requires ProperValues(m) && ProperValues(n) && Mirrors(p, m) && Mirrors(p, n)
    ensures m == n
  {
    forall k | k in m
      ensures k in n && n[k] == m[k]
    {
      var j :| j in n && Label(j) == Label(k);
      LabelInjective(j, k);
    }
    forall k | k in n
      ensures k in m
    {
      var j :| j in m && Label(j) == Label(k);
      LabelInjective(j, k);
    }
  }

  /** The loop takes a batch without changes while nothing is pending: only its revision moves. */
  lemma IdleBatch(s: System)
    requires s.history != [] && Quiet(s) && s.feed.value.last == Current(s)
    ensures var mid := Next(s, Mutate([]));
            && Enabled(mid, TakeBatch)
            && Next(mid, TakeBatch) ==
               s.(history := s.history + [s.history[Current(s)]],
                  feed := Some(s.feed.value.(last := |s.history|, idle := s.feed.value.idle + 1,
                                             pendingStart := |s.history|, pendingRevision := |s.history|)))
  {
    assert s.history[Current(s)] + Overlay([]) == s.history[Current(s)];
    assert s.feed.value.pending + Overlay([]) == map[];
    var out: seq<Wire.Message> := [];
    assert s.wire + Unmarked(out, 0) == [];
    var b := Batch(|s.history|, []);
    assert [b][1..] == [] && s.feed.value.queue + [b] == [b];
  }

  /** From a quiet connection one real change is taken, sent and read. */
  lemma RealBatch(s: System, change: Change)
    requires s.history != [] && Quiet(s) && s.feed.value.last == Current(s) && Proper(change.key)
    ensures var s1 := Next(s, Mutate([change]));
            Enabled(s1, TakeBatch)
            && (var s2 := Next(s1, TakeBatch);
                Enabled(s2, CloseWindow([change]))
                && (var s3 := Next(s2, CloseWindow([change]));
               && s3.wire == [Sent(Telemetry(Some(|s.history|), Some(|s.history|), Some([change])), s.feed.value.idle)]
               && s3.console == s.console && s3.feed.Some? && s3.history != []))
  {
    assert [change][..0] == [];
    assert Overlay([change]) == map[change.key := change.value];
    var s2 := Next(Next(s, Mutate([change])), TakeBatch);
    var out: seq<Wire.Message> := [];
    assert [] + Unmarked(out, 0) == [];
    assert s2.feed.value.pending == Overlay([change]);
  }

  lemma OneStep(s: System, actions: seq<Action>)
    requires actions != [] && s.history != [] && Enabled(s, actions[0])
    requires Feasible(Next(s, actions[0]), actions[1..])
    ensures Feasible(s, actions) && Ran(s, actions) == Ran(Next(s, actions[0]), actions[1..])
  {
  }

  lemma LastStep(s: System)
    requires Lifecycle.Held(s.console) && s.console.openSources != {} && s.history != [] && Enabled(s, Deliver)
    requires Gapped(s.console, s.wire[0].message)
    ensures var end := Next(s, Deliver);
            end.feed.None? && end.console.openSources == {} && end.console.timers != {} && end.console.points == s.console.points
  {
  }

  /** One change made, taken, sent and read. */
  function ChangeRead(change: Change): seq<Action> {
    [Mutate([change]), TakeBatch, CloseWindow([change]), Deliver]
  }

  /** With idle batches behind it, the next real change reaches the console as a gap. */
  lemma IdleThenRealIsGap(s: System, change: Change)
    requires Quiet(s) && Lively(s) && s.feed.value.last == Current(s) && Proper(change.key)
    requires s.feed.value.last > s.console.revision.value
    ensures var actions := ChangeRead(change);
            && Feasible(s, actions)
            && Ran(s, actions).feed.None?
            && Ran(s, actions).console.openSources == {} && Ran(s, actions).console.timers != {}
            && Ran(s, actions).console.points == s.console.points
  {
    RealBatch(s, change);
    var s1 := Next(s, Mutate([change]));
    var s2 := Next(s1, TakeBatch);
    var s3 := Next(s2, CloseWindow([change]));
    LastStep(s3);
    FourSteps(s, Mutate([change]), s1, TakeBatch, s2, CloseWindow([change]), s3, Deliver);
  }

  lemma FourSteps(s0: System, a0: Action, s1: System, a1: Action, s2: System, a2: Action, s3: System, a3: Action)
    requires s0.history != [] && Enabled(s0, a0) && Next(s0, a0) == s1
    requires s1.history != [] && Enabled(s1, a1) && Next(s1, a1) == s2
    requires s2.history != [] && Enabled(s2, a2) && Next(s2, a2) == s3
    requires s3.history != [] && Enabled(s3, a3)
    ensures Feasible(s0, [a0, a1, a2, a3]) && Ran(s0, [a0, a1, a2, a3]) == Next(s3, a3)
  {
    TwoSteps(s2, a2, s3, a3);
    TwoMore(s0, a0, s1, a1, s2, [a2, a3]);
    assert [a0, a1] + [a2, a3] == [a0, a1, a2, a3];
  }

  lemma TwoSteps(s0: System, a0: Action, s1: System, a1: Action)
    requires s0.history != [] && Enabled(s0, a0) && Next(s0, a0) == s1
    requires s1.history != [] && Enabled(s1, a1)
    ensures Feasible(s0, [a0, a1]) && Ran(s0, [a0, a1]) == Next(s1, a1)
  {
    assert [a0, a1][1..] == [a1] && [a1][1..] == [];
    OneStep(s1, [a1]);
    OneStep(s0, [a0, a1]);
  }

  lemma TwoMore(s0: System, a0: Action, s1: System, a1: Action, s2: System, rest: seq<Action>)
    requires s0.history != [] && Enabled(s0, a0) && Next(s0, a0) == s1
    requires s1.history != [] && Enabled(s1, a1) && Next(s1, a1) == s2
    requires Feasible(s2, rest)
    ensures Feasible(s0, [a0, a1] + rest) && Ran(s0, [a0, a1] + rest) == Ran(s2, rest)
  {
    var all := [a0, a1] + rest;
    assert all[1..] == [a1] + rest && all[1..][1..] == rest;
    OneStep(s1, all[1..]);
    OneStep(s0, all);
  }

  /** A restore that changes nothing costs every quiet console its connection at the next real
      change: the server's own revision arithmetic makes the console see a gap. */
  lemma NoOpMutationBreaksConnection(s: System, change: Change)
    requires Reachable(s) && Quiet(s) && s.feed.value.lossless && Proper(change.key)
    ensures var actions := [Mutate([]), TakeBatch] + ChangeRead(change);
            && Feasible(s, actions)
            && Ran(s, actions).feed.None?
            && Ran(s, actions).console.openSources == {} && Ran(s, actions).console.timers != {}
            && Ran(s, actions).console.points == s.console.points
  {
    assert Lively(s) && s.feed.value.last == Current(s) by {
      InvariantAlways(s);
      QuietShows(s);
    }
    AfterIdle(s);
    var s1 := Next(s, Mutate([]));
    var s2 := Next(s1, TakeBatch);
    IdleThenRealIsGap(s2, change);
    TwoMore(s, Mutate([]), s1, TakeBatch, s2, ChangeRead(change));
  }

  /** A mounted console holding a revision over an open source. */
  predicate Lively(s: System) {
    && s.history != [] && s.feed.Some?
    && Lifecycle.Held(s.console) && s.console.openSources != {}
    && s.console.revision.Some? && s.console.revision.value <= s.feed.value.last
  }

  lemma AfterIdle(s: System)
    requires Quiet(s) && Lively(s) && s.feed.value.last == Current(s)
    ensures var s1 := Next(s, Mutate([]));
            && s1.history != [] && Enabled(s1, TakeBatch)
            && (var s2 := Next(s1, TakeBatch);
                && Quiet(s2) && Lively(s2) && s2.feed.value.last == Current(s2)
                && s2.console == s.console && s2.feed.value.last > s.feed.value.last)
  {
    IdleBatch(s);
  }

  lemma {:induction false} RanSnoc(s: System, actions: seq<Action>, a: Action)
    requires Feasible(s, actions) && Ran(s, actions).history != [] && Enabled(Ran(s, actions), a)
    ensures Feasible(s, actions + [a]) && Ran(s, actions + [a]) == Next(Ran(s, actions), a)
    decreases |actions|
  {
    if actions == [] {
      assert (actions + [a])[1..] == [];
      assert Feasible(Next(s, a), []);
    } else {
      assert (actions + [a])[1..] == actions[1..] + [a];
      RanSnoc(Next(s, actions[0]), actions[1..], a);
    }
  }

  // ---- Replayed events ----

  /** The browser's own reconnect, answered with a replay, and the whole bootstrap read. */
  function Reconnect(points: seq<Change>, replay: seq<RareEvent>): seq<Action> {
    [LoseTransport, Accept(points, replay, false)] + Delivers(|replay| + 2)
  }

  function Delivers(n: nat): (r: seq<Action>)
    ensures |r| == n
  {
    seq(n, i => Deliver)
  }

  function Events(replay: seq<RareEvent>): (r: seq<Sent>)
    ensures |r| == |replay|
  {
    seq(|replay|, i requires 0 <= i < |replay| => Sent(Rare(replay[i]), 0))
  }

  /** The console after reading rare events. */
  function Heard(c: State, replay: seq<RareEvent>): State {
    if c.replayComplete then c.(events := LoggedAll(c.events, replay), progress := ProgressedAll(c.progress, replay)) else c
  }

  lemma HeardSnoc(c: State, replay: seq<RareEvent>, e: RareEvent)
    ensures Consumed(Heard(c, replay), Wire.Rare(e)) == Heard(c, replay + [e])
  {
    assert (replay + [e])[..|replay|] == replay;
  }

  lemma {:induction false} RaresRead(s: System, replay: seq<RareEvent>, rest: seq<Sent>)
    requires s.history != [] && s.feed.Some? && s.console.openSources != {} && s.wire == Events(replay) + rest
    ensures Feasible(s, Delivers(|replay|))
    ensures Ran(s, Delivers(|replay|)) == s.(wire := rest, console := Heard(s.console, replay))
    decreases |replay|
  {
    if replay == [] {
      assert s.wire == rest && Delivers(0) == [];
    } else {
      var init, last := replay[..|replay| - 1], replay[|replay| - 1];
      assert s.wire == Events(init) + ([Sent(Rare(last), 0)] + rest);
      RaresRead(s, init, [Sent(Rare(last), 0)] + rest);
      RanSnoc(s, Delivers(|init|), Deliver);
      assert Delivers(|replay|) == Delivers(|init|) + [Deliver];
      HeardSnoc(s.console, init, last);
      assert init + [last] == replay;
    }
  }

  /** Reading a bootstrap that holds a replay. */
  lemma BootstrapRead(s: System, points: seq<Change>, replay: seq<RareEvent>)
    requires s.history != [] && s.feed.Some? && s.console.openSources != {}
    requires s.wire == Bootstrap(Current(s), points, replay, false)
    ensures Feasible(s, Delivers(|replay| + 2))
    ensures var c := Ran(s, Delivers(|replay| + 2)).console;
            && c.replayComplete && Ran(s, Delivers(|replay| + 2)).wire == []
            && c.events == Heard(s.console, replay).events && c.progress == Heard(s.console, replay).progress
  {
    var snapshot := Sent(Snapshot(Some(Current(s)), Some(points)), 0);
    var done := Sent(InitialReplayComplete, 0);
    assert s.wire == [snapshot] + (Events(replay) + [done]);
    var s1 := Next(s, Deliver);
    assert s1.wire == Events(replay) + [done];
    RaresRead(s1, replay, [done]);
    RanSnoc(s1, Delivers(|replay|), Deliver);
    OneStep(s, [Deliver] + (Delivers(|replay|) + [Deliver]));
    assert ([Deliver] + (Delivers(|replay|) + [Deliver]))[1..] == Delivers(|replay|) + [Deliver];
    assert Delivers(|replay| + 2) == [Deliver] + (Delivers(|replay|) + [Deliver]);
  }

  /** The browser's own reconnect keeps the event source, so it keeps the replay gate as it was:
      the events replayed to a source that had once finished a replay are all logged as if they had
      just happened, and to any other source none is. */
  lemma ReplayLoggedIffGateWasOpen(s: System, points: seq<Change>, replay: seq<RareEvent>)
    requires Reachable(s) && s.feed.Some? && s.history != [] && Overlay(points) == s.history[Current(s)]
    ensures Feasible(s, Reconnect(points, replay))
    ensures var c := Ran(s, Reconnect(points, replay)).console;
            && c.replayComplete
            && c.events == (if s.console.replayComplete then LoggedAll(s.console.events, replay) else s.console.events)
            && c.progress == if s.console.replayComplete then ProgressedAll(s.console.progress, replay)
                             else s.console.progress
  {
    assert s.console.openSources != {} by {
      InvariantAlways(s);
    }
    var s1 := Next(s, LoseTransport);
    var s2 := Next(s1, Accept(points, replay, false));
    BootstrapRead(s2, points, replay);
    TwoMore(s, LoseTransport, s1, Accept(points, replay, false), s2, Delivers(|replay| + 2));
  }
}
