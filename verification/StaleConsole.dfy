/** Two reachable states of the composed system: a quiet connection that is up to date, and a
    quiet connection whose console shows an old store because a full queue dropped the last batch. */
module StaleConsole {
  import opened Prelude
  import opened Store
  import opened Wire
  import opened Feed
  import opened Console
  import opened Replication
  import opened ReplicationTheorems

  lemma ReachableNext(s: System, a: Action)
    requires Reachable(s) && s.history != [] && Enabled(s, a)
    ensures Reachable(Next(s, a))
  {
    var initial, restored, actions :|
      ProperValues(initial) && Feasible(Start(initial, restored), actions) && s == Ran(Start(initial, restored), actions);
    RanSnoc(Start(initial, restored), actions, a);
  }

  // ---- A quiet, lossless connection past its replay ----

  lemma Bootstrapped(points: seq<Change>, restored: seq<RareEvent>) returns (s: System)
    requires ProperChanges(points)
    ensures Reachable(s) && s.history == [Overlay(points)] && s.console.openSources != {}
    ensures s.feed == Some(Subscribe(0)) && s.wire == Bootstrap(0, points, [], false)
  {
    OverlayProper(points);
    var s0 := Start(Overlay(points), restored);
    assert Feasible(s0, []) && s0 == Ran(s0, []);
    ReachableNext(s0, Accept(points, [], false));
    s := Next(s0, Accept(points, [], false));
  }

  /** Some reachable connection is quiet, has lost nothing, and has finished its replay. */
  lemma QuietConnectionIsReachable(points: seq<Change>, restored: seq<RareEvent>) returns (s: System)
    requires ProperChanges(points)
    ensures Reachable(s) && Quiet(s) && s.feed.value.lossless && s.console.replayComplete
    ensures s.history == [Overlay(points)] && s.feed == Some(Subscribe(0)) && s.console.revision == Some(0)
    ensures s.console.openSources != {}
  {
    var s1 := Bootstrapped(points, restored);
    assert s1.wire == [Sent(Snapshot(Some(0), Some(points)), 0), Sent(InitialReplayComplete, 0)];
    ReachableNext(s1, Deliver);
    var s2 := Next(s1, Deliver);
    assert s2.wire == [Sent(InitialReplayComplete, 0)];
    ReachableNext(s2, Deliver);
    s := Next(s2, Deliver);
  }

  // ---- A stale one ----

  /** Revisions 1 to n, all carrying the same change. */
  function Batches(c: Change, n: nat): (r: seq<Batch>)
    ensures |r| == n && forall i :: 0 <= i < n ==> r[i] == Batch(i + 1, [c])
  {
    seq(n, i requires 0 <= i < n => Batch(i + 1, [c]))
  }

  function Repeated(m: Values, n: nat): (r: seq<Values>)
    ensures |r| == n && forall i :: 0 <= i < n ==> r[i] == m
  {
    seq(n, i => m)
  }

  /** `n` equal mutations made on a quiet connection, none taken. */
  function Filled(s: System, c: Change, n: nat): System
    requires s.history != [] && s.feed.Some?
  {
    s.(history := s.history + Repeated(s.history[0] + Overlay([c]), n),
       feed := Some(s.feed.value.(queue := Batches(c, n))))
  }

  ghost predicate Ready(s: System, initial: Values) {
    && Reachable(s) && s.history == [initial] && s.feed == Some(Subscribe(0)) && s.wire == []
    && s.console.revision == Some(0) && s.console.openSources != {}
  }

  lemma OneMore(initial: Values, c: Change, n: nat)
    ensures (if n == 0 then initial else initial + Overlay([c])) + Overlay([c]) == initial + Overlay([c])
  {
  }

  lemma FillStep(s: System, initial: Values, c: Change, n: nat)
    requires Ready(s, initial) && Proper(c.key) && n < SUBSCRIBER_BUFFER
    ensures Enabled(Filled(s, c, n), Mutate([c])) && Next(Filled(s, c, n), Mutate([c])) == Filled(s, c, n + 1)
  {
    var t, u := Filled(s, c, n), Filled(s, c, n + 1);
    OneMore(initial, c, n);
    var next := Next(t, Mutate([c]));
    assert next.history == u.history;
    assert Batches(c, n) + [Batch(n + 1, [c])] == Batches(c, n + 1);
  }

  lemma {:induction false} Fills(s: System, initial: Values, c: Change, n: nat)
    requires Ready(s, initial) && Proper(c.key) && n <= SUBSCRIBER_BUFFER
    ensures Reachable(Filled(s, c, n))
  {
    if n == 0 {
      assert Filled(s, c, 0) == s;
    } else {
      Fills(s, initial, c, n - 1);
      FillStep(s, initial, c, n - 1);
      ReachableNext(Filled(s, c, n - 1), Mutate([c]));
    }
  }

  /** The first `m` of the queued batches taken. */
  function Drained(t: System, c: Change, n: nat, m: nat): System
    requires t.feed.Some? && m <= n
  {
    t.(feed := Some(t.feed.value.(
                    queue := Batches(c, n)[m..],
                    last := m,
                    pending := if m == 0 then map[] else Overlay([c]),
                    pendingStart := if m == 0 then 0 else 1,
                    pendingRevision := m)))
  }

  /** A full queue of equal batches, in front of a loop that has taken nothing yet. */
  predicate Full(t: System, c: Change, n: nat) {
    t.history != [] && t.wire == [] && t.feed == Some(Subscribe(0).(queue := Batches(c, n), lossless := false))
  }

  lemma OverlayOne(c: Change)
    ensures Overlay([c]) == map[c.key := c.value] && |Overlay([c])| == 1
    ensures Overlay([c]) + Overlay([c]) == Overlay([c])
  {
    assert [c][..0] == [];
  }

  lemma DrainStep(t: System, c: Change, n: nat, m: nat)
    requires Full(t, c, n) && m < n
    ensures Enabled(Drained(t, c, n, m), TakeBatch)
    ensures Next(Drained(t, c, n, m), TakeBatch) == Drained(t, c, n, m + 1)
  {
    OverlayOne(c);
    var d := Drained(t, c, n, m);
    assert d.feed.value.queue[0] == Batch(m + 1, [c]);
    assert d.feed.value.queue[1..] == Batches(c, n)[m + 1..];
    assert map[] + Overlay([c]) == Overlay([c]);
    var none: seq<Wire.Message> := [];
    assert [] + Unmarked(none, 0) == [];
  }

  lemma DrainsOne(t: System, d: System, c: Change, n: nat, m: nat)
    requires Full(t, c, n) && m < n && d == Drained(t, c, n, m) && Reachable(d)
    ensures Reachable(Drained(t, c, n, m + 1))
  {
    DrainStep(t, c, n, m);
    ReachableNext(d, TakeBatch);
  }

  lemma DrainedNothing(t: System, c: Change, n: nat)
    requires Full(t, c, n)
    ensures Drained(t, c, n, 0) == t
  {
    assert Batches(c, n)[0..] == Batches(c, n);
  }

  lemma {:induction false} Drains(t: System, c: Change, n: nat, m: nat)
    requires Full(t, c, n) && m <= n && Reachable(t)
    ensures Reachable(Drained(t, c, n, m))
  {
    if m == 0 {
      DrainedNothing(t, c, n);
    } else {
      Drains(t, c, n, m - 1);
      DrainsOne(t, Drained(t, c, n, m - 1), c, n, m - 1);
    }
  }

  /** The window closes over what was drained. */
  lemma Flushed(t: System, c: Change, n: nat) returns (f: System)
    requires Full(t, c, n) && n > 0
    ensures var d := Drained(t, c, n, n); Enabled(d, CloseWindow([c])) && f == Next(d, CloseWindow([c]))
    ensures f.wire == [Sent(Telemetry(Some(n), Some(1), Some([c])), 0)]
    ensures f == t.(feed := f.feed, wire := f.wire) && f.feed.Some? && f.feed.value.running
    ensures f.feed.value.queue == [] && f.feed.value.pending == map[] && f.feed.value.last == n
  {
    OverlayOne(c);
    f := Next(Drained(t, c, n, n), CloseWindow([c]));
  }

  /** What was drained is flushed and read. */
  lemma ReadDrained(t: System, c: Change, n: nat) returns (u: System)
    requires Full(t, c, n) && n > 0 && Reachable(t) && t.console.revision == Some(0) && t.console.openSources != {}
    ensures Reachable(u) && Quiet(u) && u.history == t.history && u.feed.value.last == n
  {
    Drains(t, c, n, n);
    var f := Flushed(t, c, n);
    ReachableNext(Drained(t, c, n, n), CloseWindow([c]));
    u := TelemetryRead(f, c, n);
  }

  lemma TelemetryRead(f: System, c: Change, n: nat) returns (u: System)
    requires Reachable(f) && f.history != [] && f.feed.Some? && f.feed.value.running && f.feed.value.queue == []
    requires f.feed.value.pending == map[] && f.console.revision == Some(0) && f.console.openSources != {}
    requires f.wire == [Sent(Telemetry(Some(n), Some(1), Some([c])), 0)]
    ensures Reachable(u) && Quiet(u) && u.history == f.history && u.feed == f.feed
  {
    ReachableNext(f, Deliver);
    u := Next(f, Deliver);
    assert !Gapped(f.console, f.wire[0].message);
  }

  /** The mutation after a full queue is dropped, and moves the store. */
  lemma Drops(s: System, initial: Values, c: Change, d: Change) returns (t: System)
    requires Ready(s, initial) && Proper(c.key) && d.key == c.key && d.value != c.value
    ensures Reachable(t) && Full(t, c, SUBSCRIBER_BUFFER)
    ensures Current(t) == SUBSCRIBER_BUFFER + 1 && t.history[SUBSCRIBER_BUFFER] != t.history[Current(t)]
    ensures t.console == s.console
  {
    Fills(s, initial, c, SUBSCRIBER_BUFFER);
    var full := Filled(s, c, SUBSCRIBER_BUFFER);
    ReachableNext(full, Mutate([d]));
    t := Next(full, Mutate([d]));
    assert t.history == full.history + [full.history[SUBSCRIBER_BUFFER] + Overlay([d])];
    OverlayMoves(full.history[SUBSCRIBER_BUFFER], initial, c, d);
  }

  lemma OverlayMoves(m: Values, initial: Values, c: Change, d: Change)
    requires m == initial + Overlay([c]) && d.key == c.key && d.value != c.value
    ensures m + Overlay([d]) != m
  {
    OverlayOne(c);
    OverlayOne(d);
    assert m[c.key] == c.value && (m + Overlay([d]))[c.key] == d.value;
  }

  /** From a quiet connection: 64 changes fill the queue, the 65th is dropped, the queue is drained,
      flushed and read. Nothing is left to happen, and the console does not show the store. */
  lemma StaleConsoleIsReachable(points: seq<Change>, restored: seq<RareEvent>, key: PointKey, value: real, later: real)
    returns (u: System)
    requires ProperChanges(points) && Proper(key) && value != later
    ensures Reachable(u) && Quiet(u) && u.history != [] && !u.feed.value.lossless
    ensures Current(u) == 65 && u.feed.value.last == 64 && !Mirrors(u.console.points, u.history[Current(u)])
  {
    var c, d, initial := Change(key, value), Change(key, later), Overlay(points);
    var s := QuietConnectionIsReachable(points, restored);
    var t := Drops(s, initial, c, d);
    u := ReadDrained(t, c, SUBSCRIBER_BUFFER);
    QuietConsoleIsCurrent(u);
  }
}
