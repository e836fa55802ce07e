/** How a console comes back: what a demand to resynchronise does to the hook and to the connection,
    and how a batch lost on the way turns into such a demand. */
module Recovery {
  import opened Prelude
  import opened Store
  import opened Wire
  import opened Feed
  import opened Console
  import Lifecycle
  import opened Replication
  import opened ReplicationTheorems

  // ---- The hook ----

  /** Map, revision, gate and logs are as they were. */
  predicate SameContents(c: State, n: State) {
    && n.points == c.points && n.revision == c.revision && n.replayComplete == c.replayComplete
    && n.events == c.events && n.progress == c.progress && n.closed == c.closed
  }

  /** The hook waits for one timer, set just now. */
  predicate WaitsForNewTimer(c: State, n: State) {
    && n.openSources == {} && n.retryTimer == Some(c.nextHandle) && n.timers == {c.nextHandle}
    && c.nextHandle !in c.timers
  }

  /** A demand to resynchronise closes the source and sets a timer, and leaves everything shown. */
  lemma ResyncRecovers(c: State)
    requires Lifecycle.Held(c) && c.openSources != {}
    ensures WaitsForNewTimer(c, Consumed(c, ResyncRequired)) && SameContents(c, Consumed(c, ResyncRequired))
  {
  }

  /** So does a telemetry message that does not continue the revision held. */
  lemma GapRecovers(c: State, m: Wire.Message)
    requires Lifecycle.Held(c) && c.openSources != {} && c.revision.Some?
    requires m.Telemetry? && m.revision.Some? && m.fromRevision != Some(c.revision.value + 1)
    ensures WaitsForNewTimer(c, Consumed(c, m)) && SameContents(c, Consumed(c, m))
  {
  }

  /** Any other message leaves sources and timers alone. */
  lemma OthersKeepConnection(c: State, m: Wire.Message)
    requires !m.ResyncRequired? && !Gapped(c, m)
    ensures var n := Consumed(c, m);
            && n.openSources == c.openSources && n.timers == c.timers && n.source == c.source
            && n.retryTimer == c.retryTimer && n.nextHandle == c.nextHandle && n.closed == c.closed
  {
  }

  /** Telemetry without a revision is ignored. */
  lemma UnnumberedTelemetryIsIgnored(c: State, from: Option<nat>, changes: Option<seq<Change>>)
    ensures Consumed(c, Telemetry(None, from, changes)) == c
  {
  }

  /** The pending timer opens one new source, with the replay gate shut. */
  lemma TimerReconnects(c: State, t: nat)
    requires Lifecycle.Held(c) && t in c.timers
    ensures var n := TimerFired(c, t);
            && n.timers == {} && n.source == Some(c.nextHandle) && n.openSources == {c.nextHandle}
            && !n.replayComplete && SameContents(c.(replayComplete := false), n)
  {
  }

  // ---- The system ----

  /** The console has dropped its connection, still shows what it showed, and waits for a timer. */
  predicate Recovers(s: System, n: System) {
    && n.feed.None? && n.wire == [] && n.history == s.history
    && WaitsForNewTimer(s.console, n.console) && SameContents(s.console, n.console)
  }

  /** Reading a demand to resynchronise ends the connection in every reachable state. */
  lemma DemandEndsConnection(s: System)
    requires Reachable(s) && s.history != [] && Enabled(s, Deliver) && s.wire[0].message.ResyncRequired?
    ensures Recovers(s, Next(s, Deliver))
  {
    InvariantAlways(s);
    ResyncRecovers(s.console);
  }

  /** Then the timer opens a new source, over which the server accepts a connection afresh. */
  lemma TimerOpensConnection(s: System, t: nat, points: seq<Change>)
    requires Reachable(s) && s.history != [] && Enabled(s, FireTimer(t)) && Overlay(points) == s.history[Current(s)]
    ensures var n := Next(s, FireTimer(t));
            && n.console.openSources == {s.console.nextHandle} && n.console.timers == {} && !n.console.replayComplete
            && n.console.points == s.console.points && n.feed.None?
            && Enabled(n, Accept(points, [], false)) && Next(n, Accept(points, [], false)).feed == Some(Subscribe(Current(s)))
  {
    InvariantAlways(s);
    TimerReconnects(s.console, t);
  }

  /** A bootstrap whose history has expired shows the present store and ends the connection. */
  lemma ExpiredBootstrapEndsConnection(s: System, points: seq<Change>, replay: seq<RareEvent>)
    requires Reachable(s) && s.history != [] && Enabled(s, Accept(points, replay, true))
    ensures var s1 := Next(s, Accept(points, replay, true));
            Enabled(s1, Deliver)
            && var s2 := Next(s1, Deliver);
            && s2.console.revision == Some(Current(s)) && Enabled(s2, Deliver)
            && Recovers(s2, Next(s2, Deliver))
  {
    var s1 := Next(s, Accept(points, replay, true));
    InvariantAlways(s);
    assert s1.wire[0].message == Snapshot(Some(Current(s)), Some(points));
    assert s1.wire[1..] == [Sent(ResyncRequired, 0)];
    OthersKeepConnection(s1.console, s1.wire[0].message);
    var s2 := Next(s1, Deliver);
    assert s2.wire == [Sent(ResyncRequired, 0)];
    StepKeepsInvariant(s, Accept(points, replay, true));
    StepKeepsInvariant(s1, Deliver);
    ResyncRecovers(s2.console);
  }

  // ---- Lost batches ----

  /** Taking a batch that does not continue the one before writes a demand to resynchronise and ends
      the loop; taking one that does writes nothing and goes on. */
  lemma TakenBatchDecides(s: System)
    requires s.history != [] && Enabled(s, TakeBatch)
    ensures var f, n := s.feed.value, Next(s, TakeBatch);
            && n.feed.Some? && n.feed.value.queue == f.queue[1..] && n.console == s.console
            && if f.queue[0].revision == f.last + 1
               then n.feed.value.running && n.wire == s.wire && n.feed.value.last == f.last + 1
               else !n.feed.value.running && n.wire == s.wire + [Sent(ResyncRequired, 0)]
  {
    var f := s.feed.value;
    if f.queue[0].revision == f.last + 1 {
      var none: seq<Wire.Message> := [];
      assert s.wire + Unmarked(none, 0) == s.wire;
    } else {
      assert Unmarked([ResyncRequired], 0) == [Sent(ResyncRequired, 0)];
    }
  }

  /** A mutation is queued behind what waits, or dropped, exactly when 64 batches wait. */
  lemma QueuedUnlessFull(s: System, changes: seq<Change>)
    requires s.history != [] && s.feed.Some? && Enabled(s, Mutate(changes))
    ensures var f, n := s.feed.value, Next(s, Mutate(changes)).feed;
            && n.Some? && n.value.running == f.running && n.value.last == f.last
            && n.value.queue == if |f.queue| < 64 then f.queue + [Batch(|s.history|, changes)] else f.queue
  {
  }

  /** A loop that has emptied its queue after a batch was dropped ends at the very next mutation it
      takes: the dropped batch left it behind. */
  lemma DroppedBatchIsNoticed(s: System, changes: seq<Change>)
    requires Reachable(s) && s.history != [] && s.feed.Some? && s.feed.value.running && s.feed.value.queue == []
    requires s.feed.value.last < Current(s) && Enabled(s, Mutate(changes))
    ensures var s1 := Next(s, Mutate(changes));
            Enabled(s1, TakeBatch)
            && var s2 := Next(s1, TakeBatch);
            !s2.feed.value.running && s2.wire == s.wire + [Sent(ResyncRequired, 0)]
  {
    QueuedUnlessFull(s, changes);
    TakenBatchDecides(Next(s, Mutate(changes)));
  }
}
