/** The console's bounded logs, each against the unbounded sequence it summarises. */
module Logs {
  import opened Wire

  const RECENT_EVENTS_LIMIT := 20
  const HISTORY_LIMIT := 36

  function First<T>(s: seq<T>, n: nat): seq<T> {
    if |s| <= n then s else s[..n]
  }

  function Last<T>(s: seq<T>, n: nat): seq<T> {
    if |s| <= n then s else s[|s| - n..]
  }

  function Reversed<T>(s: seq<T>): seq<T> {
    if s == [] then [] else [s[|s| - 1]] + Reversed(s[..|s| - 1])
  }

  /** An accepted rare event goes to the front of the log. */
  function Logged(events: seq<RareEvent>, event: RareEvent): seq<RareEvent> {
    First([event] + events, RECENT_EVENTS_LIMIT)
  }

  /** One more step continues the run or starts a new one. */
  function Continued(progress: seq<ScenarioStep>, step: ScenarioStep): seq<ScenarioStep> {
    if progress != [] && progress[0].scenario == step.scenario then progress + [step] else [step]
  }

  /** A reset clears the list, a step of the same scenario extends it, a step of another
      scenario starts it afresh. */
  function Progressed(progress: seq<ScenarioStep>, event: RareEvent): seq<ScenarioStep> {
    match event.kind
    case Reset => []
    case Step(step) => Continued(progress, step)
    case _ => progress
  }

  // ---- Recent events ----

  function LoggedAll(events: seq<RareEvent>, accepted: seq<RareEvent>): seq<RareEvent> {
    if accepted == [] then events
    else Logged(LoggedAll(events, accepted[..|accepted| - 1]), accepted[|accepted| - 1])
  }

  /** After any accepted event the log is the newest twenty of everything accepted, newest
      first, followed by what was restored; before that it is the restored log as it stands. */
  lemma {:induction false} LogIsNewestFirst(restored: seq<RareEvent>, accepted: seq<RareEvent>)
    ensures LoggedAll(restored, accepted) ==
            if accepted == [] then restored
            else First(Reversed(accepted) + restored, 20)
    decreases |accepted|
  {
    if accepted != [] {
      var init, last := accepted[..|accepted| - 1], accepted[|accepted| - 1];
      LogIsNewestFirst(restored, init);
      var all := Reversed(init) + restored;
      assert Reversed(accepted) + restored == [last] + all;
      assert First([last] + First(all, RECENT_EVENTS_LIMIT), RECENT_EVENTS_LIMIT) == First([last] + all, RECENT_EVENTS_LIMIT);
      if init == [] {
        assert Reversed(init) + restored == restored;
      }
    }
  }

  // ---- Scenario progress ----

  function ProgressedAll(progress: seq<ScenarioStep>, accepted: seq<RareEvent>): seq<ScenarioStep> {
    if accepted == [] then progress
    else Progressed(ProgressedAll(progress, accepted[..|accepted| - 1]), accepted[|accepted| - 1])
  }

  /** The scenario steps among `accepted`, from the last reset on. */
  function StepsSinceReset(accepted: seq<RareEvent>): seq<ScenarioStep> {
    if accepted == [] then []
    else
      var before := StepsSinceReset(accepted[..|accepted| - 1]);
      match accepted[|accepted| - 1].kind
      case Reset => []
      case Step(step) => before + [step]
      case _ => before
  }

  predicate SameScenario(steps: seq<ScenarioStep>) {
    forall i :: 0 <= i < |steps| ==> steps[i].scenario == steps[0].scenario
  }

  /** `run` is the longest suffix of `steps` within one scenario. */
  predicate LongestRun(run: seq<ScenarioStep>, steps: seq<ScenarioStep>) {
    && |run| <= |steps|
    && run == steps[|steps| - |run|..]
    && SameScenario(run)
    && (steps != [] ==> run != [])
    && (|run| < |steps| ==> steps[|steps| - |run| - 1].scenario != steps[|steps| - 1].scenario)
  }

  lemma {:induction false} ProgressIsLongestRun(accepted: seq<RareEvent>)
    ensures LongestRun(ProgressedAll([], accepted), StepsSinceReset(accepted))
    decreases |accepted|
  {
    if accepted != [] {
      var init, last := accepted[..|accepted| - 1], accepted[|accepted| - 1];
      ProgressIsLongestRun(init);
      if last.kind.Step? {
        RunContinues(ProgressedAll([], init), StepsSinceReset(init), StepsSinceReset(accepted), last.kind.step);
      } else if last.kind.Reset? {
        NothingIsLongestRun();
      }
    }
  }

  lemma NothingIsLongestRun()
    ensures LongestRun([], [])
  {
  }

  lemma RunContinues(run: seq<ScenarioStep>, steps: seq<ScenarioStep>, longer: seq<ScenarioStep>, step: ScenarioStep)
    requires LongestRun(run, steps) && longer == steps + [step]
    ensures LongestRun(Continued(run, step), longer)
  {
    if run != [] && run[0].scenario == step.scenario {
      RunExtends(run, steps, step);
    } else {
      RunRestarts(run, steps, step);
    }
  }

  lemma RunExtends(run: seq<ScenarioStep>, steps: seq<ScenarioStep>, step: ScenarioStep)
    requires LongestRun(run, steps) && run != [] && run[0].scenario == step.scenario
    ensures LongestRun(run + [step], steps + [step])
  {
    var n, longer := |steps| - |run|, steps + [step];
    assert run[|run| - 1] == steps[|steps| - 1];
    assert longer[n..] == steps[n..] + [step];
    assert n > 0 ==> longer[n - 1] == steps[n - 1];
  }

  lemma RunRestarts(run: seq<ScenarioStep>, steps: seq<ScenarioStep>, step: ScenarioStep)
    requires LongestRun(run, steps) && (run == [] || run[0].scenario != step.scenario)
    ensures LongestRun([step], steps + [step])
  {
    var longer := steps + [step];
    assert longer[|longer| - 1..] == [step];
    OneStepRun(step);
    if steps != [] {
      assert run[|run| - 1] == steps[|steps| - 1] == longer[|longer| - 2];
    }
  }

  lemma OneStepRun(step: ScenarioStep)
    ensures SameScenario([step])
  {
  }

  // ---- Point history ----

  /** A value and when it was observed. */
  datatype Sample = Sample(value: real, t: int)

  /** An observation is kept only when the value moved, and only the newest are kept. */
  function Observed(samples: seq<Sample>, now: Sample): seq<Sample> {
    if samples != [] && samples[|samples| - 1].value == now.value then samples
    else Last(samples + [now], HISTORY_LIMIT)
  }

  function ObservedAll(observations: seq<Sample>): seq<Sample> {
    if observations == [] then []
    else Observed(ObservedAll(observations[..|observations| - 1]), observations[|observations| - 1])
  }

  /** The observations whose value differs from the one just before. */
  function Movements(observations: seq<Sample>): seq<Sample> {
    if observations == [] then []
    else
      var n := |observations|;
      var before := Movements(observations[..n - 1]);
      if n > 1 && observations[n - 2].value == observations[n - 1].value then before else before + [observations[n - 1]]
  }

  /** The bounded history is the tail of the full history of movements. */
  lemma {:induction false} HistoryIsNewestMovements(observations: seq<Sample>)
    ensures ObservedAll(observations) == Last(Movements(observations), 36)
    ensures observations != [] ==>
              Movements(observations) != []
              && Movements(observations)[|Movements(observations)| - 1].value == observations[|observations| - 1].value
    decreases |observations|
  {
    if observations != [] {
      var init, now := observations[..|observations| - 1], observations[|observations| - 1];
      HistoryIsNewestMovements(init);
      LastOfLast(Movements(init), now, HISTORY_LIMIT);
    }
  }

  lemma LastOfLast<T>(all: seq<T>, x: T, n: nat)
    requires n > 0
    ensures Last(Last(all, n) + [x], n) == Last(all + [x], n)
    ensures all != [] ==> Last(all, n) != [] && Last(all, n)[|Last(all, n)| - 1] == all[|all| - 1]
  {
  }

  /** A point map as it was set, and when. */
  datatype Seen = Seen(points: map<string, real>, now: int)

  /** One observation for each point of the map; other histories stay. */
  function Recorded(history: map<string, seq<Sample>>, seen: Seen): map<string, seq<Sample>> {
    map l | l in history.Keys + seen.points.Keys ::
      if l in seen.points then Observed(if l in history then history[l] else [], Sample(seen.points[l], seen.now))
      else history[l]
  }

  function RecordedAll(maps: seq<Seen>): map<string, seq<Sample>> {
    if maps == [] then map[] else Recorded(RecordedAll(maps[..|maps| - 1]), maps[|maps| - 1])
  }

  /** What a run of point maps shows of one point. */
  function ObservationsOf(maps: seq<Seen>, l: string): seq<Sample> {
    if maps == [] then []
    else
      var last := maps[|maps| - 1];
      ObservationsOf(maps[..|maps| - 1], l) + if l in last.points then [Sample(last.points[l], last.now)] else []
  }

  lemma {:induction false} RecordedIsObserved(maps: seq<Seen>, l: string)
    ensures l in RecordedAll(maps) <==> ObservationsOf(maps, l) != []
    ensures l in RecordedAll(maps) ==> RecordedAll(maps)[l] == ObservedAll(ObservationsOf(maps, l))
  {
    if maps != [] {
      var init, last := maps[..|maps| - 1], maps[|maps| - 1];
      RecordedIsObserved(init, l);
      var before := ObservationsOf(init, l);
      if l in last.points {
        assert (before + [Sample(last.points[l], last.now)])[..|before|] == before;
      } else {
        assert before + [] == before;
      }
    }
  }

  /** Over any run of point maps, each point's history is the last 36 of its changed values. */
  lemma HistoriesAreNewestMovements(maps: seq<Seen>, l: string)
    ensures l in RecordedAll(maps) <==> ObservationsOf(maps, l) != []
    ensures l in RecordedAll(maps) ==> RecordedAll(maps)[l] == Last(Movements(ObservationsOf(maps, l)), 36)
  {
    RecordedIsObserved(maps, l);
    HistoryIsNewestMovements(ObservationsOf(maps, l));
  }
}
