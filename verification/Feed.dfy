/** The server side of one event-stream connection: a bounded, lossy queue of store batches
    in front of a loop that folds them into a short telemetry window. */
module Feed {
  import opened Prelude
  import opened Store
  import opened Wire

  const SUBSCRIBER_BUFFER := 64

  /** `queue` is the subscription channel; `last`, `pending`, `pendingStart` and
      `pendingRevision` are the loop's variables; `running` is false once the loop has returned.
      Three history variables that the loop does not have record what the theorems talk about:
      `sent`, the revision carried by the last snapshot or telemetry message written; `idle`, the
      batches without changes taken since then while nothing was pending; and `lossless`, whether
      every batch since the subscription found room in the queue. */
  datatype Feed = Feed(
    queue: seq<Batch>,
    last: nat,
    pending: Values,
    pendingStart: nat,
    pendingRevision: nat,
    running: bool,
    sent: nat,
    idle: nat,
    lossless: bool)

  /** Subscription and snapshot are taken under one lock, so the loop starts at `rev`. */
  function Subscribe(rev: nat): Feed {
    Feed([], rev, map[], 0, 0, true, rev, 0, true)
  }

  /** A full queue drops the whole batch. */
  function Publish(f: Feed, b: Batch): Feed {
    if |f.queue| < SUBSCRIBER_BUFFER then f.(queue := f.queue + [b]) else f.(lossless := false)
  }

  /** One batch taken from the queue; a revision gap ends the connection with a resync. */
  function Take(f: Feed): (r: (Feed, seq<Message>))
    requires f.running && f.queue != []
  {
    var b := f.queue[0];
    var rest := f.(queue := f.queue[1..]);
    if b.revision != f.last + 1 then
      (rest.(running := false), [ResyncRequired])
    else
      (rest.(last := b.revision,
             pendingStart := if |f.pending| == 0 then b.revision else f.pendingStart,
             pending := f.pending + Overlay(b.changes),
             pendingRevision := b.revision,
             idle := if |f.pending| == 0 && b.changes == [] then f.idle + 1 else f.idle),
       [])
  }

  /** The window closes: `changes` lists what is pending, in the order the server chose. */
  function Flush(f: Feed, changes: seq<Change>): (r: (Feed, seq<Message>))
    requires f.running && Overlay(changes) == f.pending
  {
    if |f.pending| == 0 then (f, [])
    else
      (f.(pending := map[], sent := f.pendingRevision, idle := 0),
       [Telemetry(Some(f.pendingRevision), Some(f.pendingStart), Some(changes))])
  }
}
