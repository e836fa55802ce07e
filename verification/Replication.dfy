/** Store, connection loop and console composed: every interleaving of mutations, queueing,
    coalescing, delivery, transport loss, server restarts, timers and unmounting. */
module Replication {
  import opened Prelude
  import opened Store
  import opened Wire
  import opened Feed
  import opened Console

  /** A message on the wire. `skipped` is history: the batches without changes the loop passed
      over between the revision conveyed before this message and the revisions it covers. */
  datatype Sent = Sent(message: Message, skipped: nat)

  /** `history[r]` is the store at revision `r`. The wire and the feed belong to the transport
      currently serving the console's event source, if there is one. `past` is history: the store of
      the earlier server process the console's last snapshot came from, if it was not this one. */
  datatype System = System(
    history: seq<Values>, feed: Option<Feed>, wire: seq<Sent>, console: State, past: Option<seq<Values>>)

  datatype Action =
    | Mutate(changes: seq<Change>)
    | Accept(points: seq<Change>, replay: seq<RareEvent>, expired: bool)
    | TakeBatch
    | CloseWindow(changes: seq<Change>)
    | PublishRare(event: RareEvent)
    | Deliver
    | LoseTransport
    | Restart(initial: Values)
    | FailSource(source: nat)
    | FireTimer(timer: nat)
    | Unmount

  /** Point labels are unambiguous as long as device codes contain no slash. */
  predicate Proper(k: PointKey) {
    '/' !in k.device
  }

  predicate ProperValues(m: Values) {
    forall k :: k in m ==> Proper(k)
  }

  function Current(s: System): nat
    requires s.history != []
  {
    |s.history| - 1
  }

  /** The store, revision by revision, of the process the console's last snapshot came from. */
  function Shown(s: System): seq<Values> {
    if s.past.Some? then s.past.value else s.history
  }

  function Unmarked(messages: seq<Message>, skipped: nat): (r: seq<Sent>)
    ensures |r| == |messages|
  {
    seq(|messages|, i requires 0 <= i < |messages| => Sent(messages[i], skipped))
  }

  /** What the server writes first: the snapshot, then the replayed rare events and the end of
      replay, or the demand to start over. */
  function Bootstrap(rev: nat, points: seq<Change>, replay: seq<RareEvent>, expired: bool): seq<Sent> {
    [Sent(Snapshot(Some(rev), Some(points)), 0)] +
    if expired then [Sent(ResyncRequired, 0)]
    else seq(|replay|, i requires 0 <= i < |replay| => Sent(Rare(replay[i]), 0)) + [Sent(InitialReplayComplete, 0)]
  }

  /** After the console has acted, a transport whose source it closed is gone. */
  function Settle(s: System): System {
    if s.console.openSources == {} then s.(feed := None, wire := []) else s
  }

  predicate Enabled(s: System, a: Action)
    requires s.history != []
  {
    match a
    case Mutate(changes) => forall c :: c in changes ==> Proper(c.key)
    case Accept(points, _, _) =>
      s.console.openSources != {} && s.feed.None? && Overlay(points) == s.history[Current(s)]
    case TakeBatch => s.feed.Some? && s.feed.value.running && s.feed.value.queue != []
    case CloseWindow(changes) => s.feed.Some? && s.feed.value.running && Overlay(changes) == s.feed.value.pending
    case PublishRare(_) => s.feed.Some? && s.feed.value.running
    case Deliver => s.feed.Some? && s.wire != []
    case LoseTransport => s.feed.Some?
    case Restart(initial) => ProperValues(initial)
    case FailSource(source) => s.feed.None? && source in s.console.openSources
    case FireTimer(timer) => timer in s.console.timers
    case Unmount => !s.console.closed
  }

  function Next(s: System, a: Action): System
    requires s.history != [] && Enabled(s, a)
  {
    match a
    case Mutate(changes) =>
      var grown := s.(history := s.history + [s.history[Current(s)] + Overlay(changes)]);
      if s.feed.None? then grown
      else grown.(feed := Some(Publish(s.feed.value, Batch(|s.history|, changes))))
    case Accept(points, replay, expired) =>
      s.(feed := Some(Subscribe(Current(s))), wire := Bootstrap(Current(s), points, replay, expired))
    case TakeBatch =>
      var (f, out) := Take(s.feed.value);
      s.(feed := Some(f), wire := s.wire + Unmarked(out, 0))
    case CloseWindow(changes) =>
      var (f, out) := Flush(s.feed.value, changes);
      s.(feed := Some(f), wire := s.wire + Unmarked(out, s.feed.value.idle))
    case PublishRare(event) => s.(wire := s.wire + [Sent(Rare(event), 0)])
    case Deliver =>
      Settle(s.(wire := s.wire[1..], console := Consumed(s.console, s.wire[0].message),
                past := if s.wire[0].message.Snapshot? then None else s.past))
    case LoseTransport => s.(feed := None, wire := [])
    case Restart(initial) => s.(history := [initial], feed := None, wire := [], past := Some(Shown(s)))
    case FailSource(source) => s.(console := SourceFailed(s.console, source))
    case FireTimer(timer) => s.(console := TimerFired(s.console, timer))
    case Unmount => Settle(s.(console := Unmounted(s.console)))
  }

  function Start(initial: Values, restored: seq<RareEvent>): System {
    System([initial], None, [], Mounted(restored), None)
  }

  /** Every action is enabled when its turn comes. */
  predicate Feasible(s: System, actions: seq<Action>)
    decreases |actions|
  {
    actions == []
    || (s.history != [] && Enabled(s, actions[0]) && Feasible(Next(s, actions[0]), actions[1..]))
  }

  function Ran(s: System, actions: seq<Action>): System
    requires Feasible(s, actions)
    decreases |actions|
  {
    if actions == [] then s else Ran(Next(s, actions[0]), actions[1..])
  }

  ghost predicate Reachable(s: System) {
    exists initial, restored, actions ::
      ProperValues(initial) && Feasible(Start(initial, restored), actions) && s == Ran(Start(initial, restored), actions)
  }

  // ---- Point labels ----

  lemma SlashSplitsUniquely(d1: string, s1: string, d2: string, s2: string)
    requires '/' !in d1 && '/' !in d2
    requires d1 + "/" + s1 == d2 + "/" + s2
    ensures d1 == d2 && s1 == s2
  {
    var whole := d1 + "/" + s1;
    assert whole[|d1|] == '/' && whole[|d2|] == '/';
    assert d1 == whole[..|d1|] && d2 == whole[..|d2|];
    assert s1 == whole[|d1| + 1..] && s2 == whole[|d2| + 1..];
  }

  lemma LabelInjective(k1: PointKey, k2: PointKey)
    requires Proper(k1) && Proper(k2)
    ensures Label(k1) == Label(k2) <==> k1 == k2
  {
    if Label(k1) == Label(k2) {
      SlashSplitsUniquely(k1.device, k1.slug, k2.device, k2.slug);
    }
  }

  /** The record holds exactly the labelled values of the map. */
  ghost predicate Mirrors(points: map<string, real>, m: Values) {
    && (forall k :: k in m ==> Label(k) in points && points[Label(k)] == m[k])
    && (forall l :: l in points ==> exists k :: k in m && Label(k) == l)
  }

  lemma MirrorsUpdate(points: map<string, real>, m: Values, key: PointKey, value: real)
    requires ProperValues(m) && Proper(key) && Mirrors(points, m)
    ensures Mirrors(points[Label(key) := value], m[key := value])
  {
    var after, m1 := points[Label(key) := value], m[key := value];
    forall k | k in m1
      ensures Label(k) in after && after[Label(k)] == m1[k]
    {
      LabelInjective(k, key);
    }
    forall l | l in after
      ensures exists k :: k in m1 && Label(k) == l
    {
      if l == Label(key) {
        assert key in m1;
      } else {
        var k :| k in m && Label(k) == l;
        assert k in m1;
      }
    }
  }

  lemma ProperOverlay(m: Values, changes: seq<Change>)
    requires ProperValues(m)
    requires forall c :: c in changes ==> Proper(c.key)
    ensures ProperValues(m + Overlay(changes))
  {
    OverlayKeys(changes);
  }

  lemma {:induction false} AssignedMirrors(points: map<string, real>, m: Values, changes: seq<Change>)
    requires ProperValues(m) && Mirrors(points, m)
    requires forall c :: c in changes ==> Proper(c.key)
    ensures Mirrors(Assigned(points, changes), m + Overlay(changes))
  {
    if changes == [] {
      assert m + Overlay(changes) == m;
    } else {
      var init, last := changes[..|changes| - 1], changes[|changes| - 1];
      assert changes == init + [last];
      assert last in changes;
      AssignedMirrors(points, m, init);
      ProperOverlay(m, init);
      var before, m0 := Assigned(points, init), m + Overlay(init);
      MirrorsUpdate(before, m0, last.key, last.value);
      OverlaySnoc(m, init, last);
      assert Assigned(points, changes) == before[Label(last.key) := last.value];
    }
  }
}
