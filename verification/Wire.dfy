/** The messages of the event stream. */
module Wire {
  import opened Prelude
  import opened Store

  datatype ScenarioStep = ScenarioStep(scenario: string, index: int, action: string, result: string, error: string)

  datatype RareKind = Fault | Reset | Diagnostic | Step(step: ScenarioStep)

  datatype RareEvent = RareEvent(id: nat, kind: RareKind)

  /** Every field the console treats as possibly absent is optional. */
  datatype Message =
    | Snapshot(revision: Option<nat>, points: Option<seq<Change>>)
    | Telemetry(revision: Option<nat>, fromRevision: Option<nat>, changes: Option<seq<Change>>)
    | ResyncRequired
    | InitialReplayComplete
    | Rare(event: RareEvent)
}
