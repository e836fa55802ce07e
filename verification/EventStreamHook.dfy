/** The hook in its own form: refs and closure variables updated step by step, against the
    browser that owns its event sources and timers. */
module EventStreamHook {
  import opened Prelude
  import opened Store
  import opened Wire
  import opened Logs
  import opened Console

  /** What the page's environment keeps: sources that can deliver, timers that can fire. */
  class Browser {
    var openSources: set<nat>
    var timers: set<nat>
    var nextHandle: nat

    constructor ()
      ensures openSources == {} && timers == {} && nextHandle == 0
    {
      openSources, timers, nextHandle := {}, {}, 0;
    }

    method NewEventSource() returns (handle: nat)
      modifies this
      ensures handle == old(nextHandle) && nextHandle == old(nextHandle) + 1
      ensures openSources == old(openSources) + {handle} && timers == old(timers)
    {
      handle := nextHandle;
      openSources, nextHandle := openSources + {handle}, nextHandle + 1;
    }

    method Close(handle: nat)
      modifies this`openSources
      ensures openSources == old(openSources) - {handle}
    {
      openSources := openSources - {handle};
    }

    /** An answer that is no event stream closes the source for good, and only reports an error. */
    method Fail(handle: nat)
      modifies this`openSources
      ensures openSources == old(openSources) - {handle}
    {
      openSources := openSources - {handle};
    }

    method SetTimeout() returns (handle: nat)
      modifies this
      ensures handle == old(nextHandle) && nextHandle == old(nextHandle) + 1
      ensures timers == old(timers) + {handle} && openSources == old(openSources)
    {
      handle := nextHandle;
      timers, nextHandle := timers + {handle}, nextHandle + 1;
    }

    method ClearTimeout(handle: nat)
      modifies this`timers
      ensures timers == old(timers) - {handle}
    {
      timers := timers - {handle};
    }
  }

  class Hook {
    const browser: Browser
    var closed: bool
    var source: Option<nat>
    var retryTimer: Option<nat>
    var revision: Option<nat>
    var points: map<string, real>
    var replayComplete: bool
    var events: seq<RareEvent>
    var progress: seq<ScenarioStep>
    var history: map<string, seq<Sample>>

    ghost function View(): State
      reads this, browser
    {
      State(browser.openSources, browser.timers, browser.nextHandle, closed, source, retryTimer,
            revision, points, replayComplete, events, progress)
    }

    constructor (restored: seq<RareEvent>)
      ensures fresh(browser) && View() == Mounted(restored) && history == map[]
    {
      browser := new Browser();
      closed, source, retryTimer, revision := false, None, None, None;
      points, replayComplete, events, progress, history := map[], false, restored, [], map[];
      new;
      Connect();
    }

    method Connect()
      modifies this`source, this`replayComplete, browser
      ensures View() == Connected(old(View()))
    {
      if closed {
        return;
      }
      var handle := browser.NewEventSource();
      source := Some(handle);
      replayComplete := false;
    }

    method ConnectLater()
      modifies this`retryTimer, browser
      ensures View() == ConnectScheduled(old(View()))
    {
      if !closed {
        var handle := browser.SetTimeout();
        retryTimer := Some(handle);
      }
    }

    method CloseSource()
      modifies browser
      ensures View() == SourceClosed(old(View()))
    {
      if source.Some? {
        browser.Close(source.value);
      }
    }

    /** The loop that both message kinds run over their point list. */
    method Assign(base: map<string, real>, changes: seq<Change>) returns (next: map<string, real>)
      ensures next == Assigned(base, changes)
    {
      next := base;
      for i := 0 to |changes|
        invariant next == Assigned(base, changes[..i])
      {
        next := next[Label(changes[i].key) := changes[i].value];
        assert changes[..i + 1][..i] == changes[..i];
      }
      assert changes[..|changes|] == changes;
    }

    method Consume(m: Message)
      modifies this, browser
      ensures View() == Consumed(old(View()), m) && history == old(history)
    {
      match m
      case ResyncRequired =>
        CloseSource();
        ConnectLater();
      case Snapshot(rev, listed) =>
        var next := Assign(map[], if listed.Some? then listed.value else []);
        revision, points := rev, next;
      case InitialReplayComplete =>
        replayComplete := true;
      case Telemetry(rev, from, listed) =>
        if rev.Some? {
          if revision.Some? && from != Some(revision.value + 1) {
            CloseSource();
            ConnectLater();
            return;
          }
          var next := Assign(points, if listed.Some? then listed.value else []);
          revision, points := rev, next;
        }
      case Rare(event) =>
        if replayComplete {
          events := First([event] + events, RECENT_EVENTS_LIMIT);
          match event.kind {
            case Reset => progress := [];
            case Step(step) =>
              var sameRun := |progress| > 0 && progress[0].scenario == step.scenario;
              progress := if sameRun then progress + [step] else [step];
            case Fault =>
            case Diagnostic =>
          }
        }
    }

    /** The browser runs a pending timer's callback, which is `Connect`. */
    method RetryTimerFires(timer: nat)
      modifies this, browser
      ensures View() == TimerFired(old(View()), timer) && history == old(history)
    {
      browser.ClearTimeout(timer);
      Connect();
    }

    /** The error handler sets the connection status, which is not modelled, and nothing else. */
    method SourceFails(source: nat)
      modifies browser
      ensures View() == SourceFailed(old(View()), source) && history == old(history)
    {
      browser.Fail(source);
    }

    method Unmount()
      modifies this`closed, browser
      ensures View() == Unmounted(old(View()))
    {
      closed := true;
      CloseSource();
      if retryTimer.Some? {
        browser.ClearTimeout(retryTimer.value);
      }
    }

    /** After every change of the point map: one observation per point, none for points that
        have left the map. */
    method RecordHistory(now: int)
      modifies this`history
      ensures history == Recorded(old(history), Seen(points, now))
    {
      var todo := points.Keys;
      var next := history;
      while todo != {}
        invariant todo <= points.Keys
        invariant next.Keys <= old(history).Keys + points.Keys
        invariant forall l :: l in old(history) ==> l in next
        invariant forall l :: l in points && l !in todo ==>
                    l in next && next[l] == Observed(if l in old(history) then old(history)[l] else [], Sample(points[l], now))
        invariant forall l :: l in old(history) && (l in todo || l !in points) ==> next[l] == old(history)[l]
        invariant forall l :: l in todo && l !in old(history) ==> l !in next
        decreases todo
      {
        var l :| l in todo;
        var samples := if l in next then next[l] else [];
        if !(samples != [] && samples[|samples| - 1].value == points[l]) {
          next := next[l := Last(samples + [Sample(points[l], now)], HISTORY_LIMIT)];
        }
        todo := todo - {l};
      }
      history := next;
    }
  }
}
