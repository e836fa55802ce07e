/** The connection lifecycle of one console: what the browser may do to it, and what stays
    true of its sources and timers whatever it does. */
module Lifecycle {
  import opened Wire
  import opened Console
  import opened Logs

  /** The handles in play are the ones held, and there is at most one of them; after unmounting
      there is none. */
  predicate Held(c: State) {
    && (forall h :: h in c.openSources + c.timers ==> h < c.nextHandle)
    && (if c.closed then c.openSources == {} && c.timers == {}
        else
          || (c.openSources == {} && c.timers == {})
          || (c.source.Some? && c.openSources == {c.source.value} && c.timers == {})
          || (c.retryTimer.Some? && c.openSources == {} && c.timers == {c.retryTimer.value}))
  }

  /** Mounted, with neither a source that can deliver nor a timer. */
  predicate Stranded(c: State) {
    !c.closed && c.openSources == {} && c.timers == {}
  }

  /** A message arrives on an open source, the browser fails an open source, a pending timer fires,
      or the effect is cleaned up. A closed source delivers nothing and a cleared timer never fires.
      An answer other than a successful event stream fails the source: it is closed and never
      reconnects (HTML Living Standard, section 9.2 and section 8.6). */
  datatype Happening =
    | Message(source: nat, message: Wire.Message)
    | SourceFails(source: nat)
    | Timer(timer: nat)
    | Cleanup

  predicate Possible(c: State, h: Happening) {
    match h
    case Message(source, _) => source in c.openSources
    case SourceFails(source) => source in c.openSources
    case Timer(timer) => timer in c.timers
    case Cleanup => !c.closed
  }

  function After(c: State, h: Happening): State {
    match h
    case Message(_, m) => Consumed(c, m)
    case SourceFails(source) => SourceFailed(c, source)
    case Timer(timer) => TimerFired(c, timer)
    case Cleanup => Unmounted(c)
  }

  predicate Feasible(c: State, hs: seq<Happening>)
    decreases |hs|
  {
    hs == [] || (Possible(c, hs[0]) && Feasible(After(c, hs[0]), hs[1..]))
  }

  function Ran(c: State, hs: seq<Happening>): State
    decreases |hs|
  {
    if hs == [] then c else Ran(After(c, hs[0]), hs[1..])
  }

  /** Only a failed source strands the hook, and a stranded hook is only ever cleaned up. */
  lemma HeldKept(c: State, h: Happening)
    requires Held(c) && Possible(c, h)
    ensures Held(After(c, h))
    ensures c.closed ==> After(c, h).closed
    ensures Stranded(After(c, h)) <==> h.SourceFails?
    ensures Stranded(c) ==> h.Cleanup?
  {
  }

  lemma {:induction false} RanAppend(c: State, hs: seq<Happening>, h: Happening)
    requires Feasible(c, hs + [h])
    ensures Feasible(c, hs) && Possible(Ran(c, hs), h)
    ensures Ran(c, hs + [h]) == After(Ran(c, hs), h)
    decreases |hs|
  {
    if hs == [] {
      assert (hs + [h])[1..] == [];
    } else {
      assert (hs + [h])[1..] == hs[1..] + [h];
      RanAppend(After(c, hs[0]), hs[1..], h);
    }
  }

  /** Of the sources opened so far the browser has failed the last one. */
  predicate LastSourceFailed(hs: seq<Happening>) {
    hs != []
    && (match hs[|hs| - 1]
        case SourceFails(_) => true
        case Timer(_) => false
        case _ => LastSourceFailed(hs[..|hs| - 1]))
  }

  /** In every reachable state, no handle is in play but the ones held; nothing happens after
      cleanup; and a mounted hook is stranded exactly when its last source was failed. */
  lemma {:induction false} AlwaysHeld(restored: seq<RareEvent>, hs: seq<Happening>)
    requires Feasible(Mounted(restored), hs)
    ensures Held(Ran(Mounted(restored), hs))
    ensures !Ran(Mounted(restored), hs).closed ==> (Stranded(Ran(Mounted(restored), hs)) <==> LastSourceFailed(hs))
    decreases |hs|
  {
    if hs != [] {
      var init, last := hs[..|hs| - 1], hs[|hs| - 1];
      assert hs == init + [last];
      RanAppend(Mounted(restored), init, last);
      AlwaysHeld(restored, init);
      HeldKept(Ran(Mounted(restored), init), last);
    }
  }

  /** While mounted there is exactly one of an open source and a pending timer exactly when the
      browser has not failed the source opened last; once it has, there is neither, and nothing but
      cleanup can happen. After cleanup there is neither and nothing can happen. */
  lemma OneSourceOrOneTimerIff(restored: seq<RareEvent>, hs: seq<Happening>)
    requires Feasible(Mounted(restored), hs)
    ensures var c := Ran(Mounted(restored), hs);
            if c.closed then c.openSources == {} && c.timers == {} && forall h :: !Possible(c, h)
            else
              && (|c.openSources| + |c.timers| == 1 <==> !LastSourceFailed(hs))
              && (LastSourceFailed(hs) ==>
                    c.openSources == {} && c.timers == {} && forall h :: Possible(c, h) ==> h.Cleanup?)
  {
    AlwaysHeld(restored, hs);
  }

  /** The hook's very first source can be failed: it stays mounted with nothing to wake it. */
  lemma FailedSourceStrands(restored: seq<RareEvent>)
    ensures Feasible(Mounted(restored), [SourceFails(0)])
    ensures Stranded(Ran(Mounted(restored), [SourceFails(0)]))
  {
    var c := Mounted(restored);
    assert [SourceFails(0)][1..] == [];
    assert Possible(c, SourceFails(0)) && Stranded(After(c, SourceFails(0)));
    assert Ran(c, [SourceFails(0)]) == Ran(After(c, SourceFails(0)), []);
  }

  // ---- Replay gate ----

  /** The end of replay has been announced since the last connection was opened. */
  predicate ReplayDone(hs: seq<Happening>) {
    hs != []
    && (match hs[|hs| - 1]
        case Timer(_) => false
        case Message(_, m) => m.InitialReplayComplete? || ReplayDone(hs[..|hs| - 1])
        case _ => ReplayDone(hs[..|hs| - 1]))
  }

  /** The rare events that arrived after the end of replay of the connection they came on. */
  function Accepted(hs: seq<Happening>): seq<RareEvent> {
    if hs == [] then []
    else
      var init, last := hs[..|hs| - 1], hs[|hs| - 1];
      Accepted(init) + if last.Message? && last.message.Rare? && ReplayDone(init) then [last.message.event] else []
  }

  /** What one happening does to the replay gate and the logs behind it. */
  lemma LogStep(c: State, h: Happening)
    requires Held(c) && Possible(c, h)
    ensures var n, live := After(c, h), h.Message? && h.message.Rare? && c.replayComplete;
            && n.replayComplete == (!h.Timer? && (c.replayComplete || (h.Message? && h.message.InitialReplayComplete?)))
            && n.events == (if live then Logged(c.events, h.message.event) else c.events)
            && n.progress == if live then Progressed(c.progress, h.message.event) else c.progress
  {
  }

  lemma AcceptedSnoc(hs: seq<Happening>, h: Happening)
    ensures Accepted(hs + [h])
            == Accepted(hs) + if h.Message? && h.message.Rare? && ReplayDone(hs) then [h.message.event] else []
    ensures ReplayDone(hs + [h])
            == (!h.Timer? && (ReplayDone(hs) || (h.Message? && h.message.InitialReplayComplete?)))
  {
    assert (hs + [h])[..|hs|] == hs;
  }

  lemma LoggedSnoc(restored: seq<RareEvent>, live: seq<RareEvent>, e: RareEvent)
    ensures LoggedAll(restored, live + [e]) == Logged(LoggedAll(restored, live), e)
    ensures ProgressedAll([], live + [e]) == Progressed(ProgressedAll([], live), e)
  {
    assert (live + [e])[..|live|] == live;
  }

  /** Over every run the logs hold exactly the events past the replay gate: the newest twenty,
      and the longest one-scenario run of steps since the last reset. */
  lemma {:induction false} LogsFollowReplayGate(restored: seq<RareEvent>, hs: seq<Happening>)
    requires Feasible(Mounted(restored), hs)
    ensures var c := Ran(Mounted(restored), hs);
            && c.replayComplete == ReplayDone(hs)
            && c.events == LoggedAll(restored, Accepted(hs))
            && c.progress == ProgressedAll([], Accepted(hs))
    decreases |hs|
  {
    if hs != [] {
      var init, last := hs[..|hs| - 1], hs[|hs| - 1];
      assert hs == init + [last];
      RanAppend(Mounted(restored), init, last);
      LogsFollowReplayGate(restored, init);
      AlwaysHeld(restored, init);
      LogStep(Ran(Mounted(restored), init), last);
      AcceptedSnoc(init, last);
      if last.Message? && last.message.Rare? && ReplayDone(init) {
        LoggedSnoc(restored, Accepted(init), last.message.event);
      } else {
        assert Accepted(hs) == Accepted(init);
      }
    }
  }

  lemma RecordedEventsAreLive(restored: seq<RareEvent>, hs: seq<Happening>)
    requires Feasible(Mounted(restored), hs)
    ensures var c, live := Ran(Mounted(restored), hs), Accepted(hs);
            && c.events == (if live == [] then restored else First(Reversed(live) + restored, 20))
            && LongestRun(c.progress, StepsSinceReset(live))
  {
    LogsFollowReplayGate(restored, hs);
    LogIsNewestFirst(restored, Accepted(hs));
    ProgressIsLongestRun(Accepted(hs));
  }
}
