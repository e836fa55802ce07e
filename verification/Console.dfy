/** The console's event-stream hook: connection lifecycle, replicated point map, and the
    gate in front of the rare-event log. */
module Console {
  import opened Prelude
  import opened Store
  import opened Wire
  import opened Logs

  /** The hook's variables together with what the browser holds for it: the event sources that
      can still deliver, the timers that can still fire, and the next unused handle. */
  datatype State = State(
    openSources: set<nat>,
    timers: set<nat>,
    nextHandle: nat,
    closed: bool,
    source: Option<nat>,
    retryTimer: Option<nat>,
    revision: Option<nat>,
    points: map<string, real>,
    replayComplete: bool,
    events: seq<RareEvent>,
    progress: seq<ScenarioStep>)

  /** The point map's key for a point. */
  function Label(k: PointKey): string {
    k.device + "/" + k.slug
  }

  /** The record a list of point values builds, later entries overwriting earlier ones. */
  function Assigned(base: map<string, real>, changes: seq<Change>): map<string, real> {
    if changes == [] then base
    else
      var last := changes[|changes| - 1];
      Assigned(base, changes[..|changes| - 1])[Label(last.key) := last.value]
  }

  function Listed(changes: Option<seq<Change>>): seq<Change> {
    if changes.Some? then changes.value else []
  }

  function Connected(c: State): State {
    if c.closed then c
    else c.(openSources := c.openSources + {c.nextHandle},
            source := Some(c.nextHandle),
            nextHandle := c.nextHandle + 1,
            replayComplete := false)
  }

  function SourceClosed(c: State): State {
    if c.source.None? then c else c.(openSources := c.openSources - {c.source.value})
  }

  /** The browser gives a source up for good: nothing in the hook reacts. */
  function SourceFailed(c: State, source: nat): State {
    c.(openSources := c.openSources - {source})
  }

  function ConnectScheduled(c: State): State {
    if c.closed then c
    else c.(timers := c.timers + {c.nextHandle},
            retryTimer := Some(c.nextHandle),
            nextHandle := c.nextHandle + 1)
  }

  function Recovering(c: State): State {
    ConnectScheduled(SourceClosed(c))
  }

  /** A telemetry message that does not continue the revision held. */
  predicate Gapped(c: State, m: Message) {
    m.Telemetry? && m.revision.Some? && c.revision.Some? && m.fromRevision != Some(c.revision.value + 1)
  }

  function Consumed(c: State, m: Message): State {
    match m
    case ResyncRequired => Recovering(c)
    case Snapshot(revision, points) => c.(revision := revision, points := Assigned(map[], Listed(points)))
    case InitialReplayComplete => c.(replayComplete := true)
    case Telemetry(revision, _, changes) =>
      if revision.None? then c
      else if Gapped(c, m) then Recovering(c)
      else c.(revision := revision, points := Assigned(c.points, Listed(changes)))
    case Rare(event) =>
      if !c.replayComplete then c
      else c.(events := Logged(c.events, event), progress := Progressed(c.progress, event))
  }

  function TimerFired(c: State, timer: nat): State {
    Connected(c.(timers := c.timers - {timer}))
  }

  function Unmounted(c: State): State {
    var shut := SourceClosed(c.(closed := true));
    if c.retryTimer.None? then shut else shut.(timers := shut.timers - {c.retryTimer.value})
  }

  /** The hook as mounted: nothing held but the restored log, then the first connection. */
  function Mounted(restored: seq<RareEvent>): State {
    Connected(State({}, {}, 0, false, None, None, None, map[], false, restored, []))
  }
}
