/** Rare events from publication to one client: subscriber channel, numbering shared with telemetry,
    frames on the wire, and the number the client reports when it comes back. */
module EventDelivery {
  import opened Prelude
  import opened Journal
  import Wire

  type Entry = Event<Wire.RareKind>

  /** Snapshot and end of replay carry number zero. `behind` is history: when the telemetry frame took
      its number, an event published before was not yet written on this connection. */
  datatype Frame = Zero | Rare(event: Entry) | Telemetry(id: nat, behind: bool) | Resync

  /** `queue` is the subscriber channel, `cut` once it was full and closed, `ended` once the loop has
      returned or nothing it writes can be read any more. History: of the events published, `read`
      have been read or settled before, `written` are on the wire or read, and `first` had been
      published when the connection was made. */
  datatype Connection = Connection(
    queue: seq<Entry>, cut: bool, ended: bool, wire: seq<Frame>, read: nat, written: nat, first: nat)

  /** `last` is the number the client will report. History: `newest` is the frame it was read from, in
      this server process; `settled` the numbers of this process's events that the client has read or
      was told to resynchronise over; `whole`, whether the last answer of this process held all that
      was unsettled, or a resync has been read since; `owed`, whether some event of an earlier process
      was neither read nor covered by a resync read since. */
  datatype State = State(
    capacity: nat, next: nat, published: seq<Entry>, history: seq<Entry>,
    connection: Option<Connection>,
    last: nat, newest: Option<Frame>, settled: set<nat>, whole: bool, owed: bool)

  datatype Action =
    | Publish(payload: Wire.RareKind)
    | TakeNumber
    | WriteTelemetry
    | WriteRare
    | WriteResync
    | EndCut
    | Read
    | Lose
    | Connect
    | StartOver
    | Restart

  function Numbers(events: seq<Entry>): set<nat> {
    set i | 0 <= i < |events| :: events[i].id
  }

  function Queued(c: Connection, e: Entry): Connection {
    if c.cut || c.ended then c
    else if |c.queue| < CHANNEL_CAPACITY then c.(queue := c.queue + [e])
    else c.(cut := true)
  }

  function Replayed(events: seq<Entry>): (r: seq<Frame>)
    ensures |r| == |events|
  {
    seq(|events|, i requires 0 <= i < |events| => Rare(events[i]))
  }

  /** Everything unsettled is still in the history, above the number reported. */
  ghost predicate Complete(s: State) {
    forall k :: 0 <= k < |s.published| && s.published[k].id !in s.settled ==> s.published[k] in Beyond(s.history, s.last)
  }

  predicate Enabled(s: State, a: Action) {
    match a
    case Publish(_) => true
    case TakeNumber => true
    case WriteTelemetry => s.connection.Some? && !s.connection.value.ended
    case WriteRare => s.connection.Some? && !s.connection.value.ended && s.connection.value.queue != []
    case WriteResync => s.connection.Some? && !s.connection.value.ended
    case EndCut =>
      s.connection.Some? && !s.connection.value.ended && s.connection.value.cut && s.connection.value.queue == []
    case Read => s.connection.Some? && s.connection.value.wire != []
    case Lose => s.connection.Some?
    case Connect => s.connection.None?
    case StartOver => true
    case Restart => true
  }

  function AfterRead(s: State): State
    requires Enabled(s, Read)
  {
    var c, f := s.connection.value, s.connection.value.wire[0];
    var rest := c.(wire := c.wire[1..]);
    match f
    case Zero => s.(connection := Some(rest), last := 0, newest := Some(f))
    case Telemetry(id, _) => s.(connection := Some(rest), last := id, newest := Some(f))
    case Rare(e) =>
      s.(connection := Some(rest.(read := c.read + 1)), last := e.id, newest := Some(f), settled := s.settled + {e.id})
    case Resync =>
      s.(connection := None, last := 0, newest := None, settled := Numbers(s.published), whole := true, owed := false)
  }

  /** A client told to resynchronise closes the connection before reading anything further. */
  ghost function AfterConnect(s: State): State {
    var n := |s.published|;
    if MustResync(s.next, s.history, s.last) then
      s.(connection := Some(Connection([], false, true, [Zero, Resync], 0, n, n)))
    else
      var replay := Beyond(s.history, s.last);
      s.(connection := Some(Connection([], false, false, [Zero] + Replayed(replay) + [Zero],
                                       if |replay| <= n then n - |replay| else 0, n, n)),
         whole := Complete(s))
  }

  ghost function Next(s: State, a: Action): State
    requires Enabled(s, a)
  {
    match a
    case Publish(payload) =>
      var e := Event(s.next + 1, payload);
      s.(next := s.next + 1, published := s.published + [e], history := Newest(s.history + [e], s.capacity),
         connection := if s.connection.Some? then Some(Queued(s.connection.value, e)) else None)
    case TakeNumber => s.(next := s.next + 1)
    case WriteTelemetry =>
      var c := s.connection.value;
      s.(next := s.next + 1,
         connection := Some(c.(wire := c.wire + [Telemetry(s.next + 1, c.queue != [] || c.cut)])))
    case WriteRare =>
      var c := s.connection.value;
      s.(connection := Some(c.(wire := c.wire + [Rare(c.queue[0])], queue := c.queue[1..], written := c.written + 1)))
    case WriteResync =>
      var c := s.connection.value;
      s.(next := s.next + 1, connection := Some(c.(wire := c.wire + [Resync], ended := true)))
    case EndCut => s.(connection := Some(s.connection.value.(ended := true)))
    case Read => AfterRead(s)
    case Lose => s.(connection := None)
    case Connect => AfterConnect(s)
    case StartOver => s.(connection := None, last := 0, newest := None)
    case Restart =>
      s.(next := 0, published := [], history := [], connection := None, newest := None, settled := {}, whole := true,
         owed := s.owed || exists k :: Unsettled(s, k))
  }

  /** A client that has not connected yet is owed nothing of what came before. */
  ghost predicate Initial(s: State) {
    && s.capacity > 0 && Kept(s.published, s.history, s.next, s.capacity)
    && s.connection.None? && s.last == 0 && s.newest.None? && s.settled == Numbers(s.published)
    && s.whole && !s.owed
  }

  ghost predicate Feasible(s: State, actions: seq<Action>)
    decreases |actions|
  {
    actions == [] || (Enabled(s, actions[0]) && Feasible(Next(s, actions[0]), actions[1..]))
  }

  ghost function Ran(s: State, actions: seq<Action>): State
    requires Feasible(s, actions)
    decreases |actions|
  {
    if actions == [] then s else Ran(Next(s, actions[0]), actions[1..])
  }

  // ---- The invariant ----

  /** Frames on the wire, the k-th event being the next to come: events in order, and each telemetry
      frame numbered above what had been published at the start and marked as behind exactly if the
      next event to come is numbered below it. */
  predicate InOrder(published: seq<Entry>, next: nat, first: nat, k: nat, wire: seq<Frame>)
    decreases |wire|
  {
    wire == []
    || (match wire[0]
        case Rare(e) => k < |published| && e == published[k] && InOrder(published, next, first, k + 1, wire[1..])
        case Telemetry(id, behind) =>
          && first <= k && 0 < id <= next && (behind <==> k < |published| && published[k].id <= id)
          && (0 < first <= |published| ==> published[first - 1].id < id)
          && InOrder(published, next, first, k, wire[1..])
        case _ => InOrder(published, next, first, k, wire[1..]))
  }

  function Events(wire: seq<Frame>): nat {
    if wire == [] then 0 else (if wire[0].Rare? then 1 else 0) + Events(wire[1..])
  }

  /** Only frames of number zero come before the demand to resynchronise. */
  predicate Doomed(wire: seq<Frame>) {
    wire != [] && (wire[0].Resync? || (wire[0].Zero? && Doomed(wire[1..])))
  }

  /** The wire holds the events from `read` to `written`. */
  predicate Wired(published: seq<Entry>, next: nat, c: Connection) {
    c.first <= c.written <= |published| && InOrder(published, next, c.first, c.read, c.wire) && c.read + Events(c.wire) == c.written
  }

  /** The channel holds the events from `written` on; exactly a closed one has missed some. */
  predicate Lined(published: seq<Entry>, c: Connection) {
    && c.written + |c.queue| <= |published|
    && (forall i :: 0 <= i < |c.queue| ==> c.queue[i] == published[c.written + i])
    && (!c.ended ==> (c.cut <==> c.written + |c.queue| < |published|))
  }

  /** Nothing that is new on this connection and still to be read is settled. */
  predicate Fresh(published: seq<Entry>, settled: set<nat>, c: Connection) {
    forall k :: c.first <= k < |published| && c.read <= k ==> published[k].id !in settled
  }

  /** Everything before `read` is settled. */
  predicate Done(published: seq<Entry>, settled: set<nat>, c: Connection) {
    forall k :: 0 <= k < c.read && k < |published| ==> published[k].id in settled
  }

  predicate Orderly(s: State, c: Connection) {
    Wired(s.published, s.next, c) && Lined(s.published, c) && Fresh(s.published, s.settled, c)
  }

  /** All the client will do with this connection is to read that it must resynchronise. */
  predicate Dismissed(c: Connection) {
    Doomed(c.wire) && c.ended
  }

  ghost predicate Unsettled(s: State, k: int) {
    0 <= k < |s.published| && s.published[k].id !in s.settled
  }

  /** Some event the client lacks is numbered at or below what it will report. */
  ghost predicate Overtaken(s: State) {
    exists k :: Unsettled(s, k) && s.published[k].id <= s.last
  }

  /** What the last frame read says by itself. */
  ghost predicate Reported(s: State) {
    match s.newest
    case None => s.last > 0 ==> s.settled == {}
    case Some(f) =>
      s.last <= s.next
      && (match f
          case Zero => s.last == 0
          case Rare(_) => s.last > 0
          case Telemetry(_, behind) => s.last > 0 && (behind ==> Overtaken(s))
          case Resync => false)
  }

  /** The last frame read is numbered and not marked as behind. */
  predicate Clear(newest: Option<Frame>) {
    newest.Some? && (newest.value.Rare? || (newest.value.Telemetry? && !newest.value.behind))
  }

  /** After an answer that held everything, a frame in order overtakes nothing. */
  ghost predicate Caught(s: State) {
    && (Clear(s.newest) ==> !Overtaken(s))
    && (s.connection.Some? ==> Dismissed(s.connection.value) || Done(s.published, s.settled, s.connection.value))
  }

  /** The k-th event was left out of an answer: it comes before all that is still to be read, and no
      number reported will be below it. */
  ghost predicate LeftOut(s: State, k: int) {
    && Unsettled(s, k) && (s.last > 0 ==> s.published[k].id <= s.last)
    && (s.connection.Some? ==>
          Dismissed(s.connection.value) || (k < s.connection.value.read && k < s.connection.value.first))
  }

  /** What is known of the journal, the client and the connection, whatever answers were given. */
  ghost predicate Sane(s: State) {
    && s.capacity > 0 && Kept(s.published, s.history, s.next, s.capacity)
    && Reported(s) && (forall x :: x in s.settled ==> x <= s.next)
    && Connected(s)
  }

  predicate Connected(s: State) {
    s.connection.Some? ==> Dismissed(s.connection.value) || Orderly(s, s.connection.value)
  }

  ghost predicate Inv(s: State) {
    Sane(s) && if s.whole then Caught(s) else exists k :: LeftOut(s, k)
  }

  // ---- Wire facts ----

  lemma {:induction false} InOrderSnoc(published: seq<Entry>, next: nat, first: nat, k: nat, wire: seq<Frame>, f: Frame)
    requires InOrder(published, next, first, k, wire)
    requires f.Rare? ==> k + Events(wire) < |published| && f.event == published[k + Events(wire)]
    requires f.Telemetry? ==> first <= k + Events(wire) && 0 < f.id <= next
                              && (f.behind <==> k + Events(wire) < |published| && published[k + Events(wire)].id <= f.id)
                              && (0 < first <= |published| ==> published[first - 1].id < f.id)
    ensures InOrder(published, next, first, k, wire + [f])
    ensures Events(wire + [f]) == Events(wire) + if f.Rare? then 1 else 0
    decreases |wire|
  {
    if wire == [] {
      assert [f][1..] == [];
    } else {
      assert (wire + [f])[1..] == wire[1..] + [f];
      InOrderSnoc(published, next, first, if wire[0].Rare? then k + 1 else k, wire[1..], f);
    }
  }

  lemma {:induction false} InOrderGrows(published: seq<Entry>, next: nat, first: nat, k: nat, wire: seq<Frame>,
                                        e: Entry)
    requires InOrder(published, next, first, k, wire) && e.id > next && k <= |published| && first <= |published|
    ensures InOrder(published + [e], next + 1, first, k, wire)
    decreases |wire|
  {
    if wire != [] {
      InOrderGrows(published, next, first, if wire[0].Rare? then k + 1 else k, wire[1..], e);
    }
  }

  lemma {:induction false} InOrderLater(published: seq<Entry>, next: nat, first: nat, k: nat, wire: seq<Frame>)
    requires InOrder(published, next, first, k, wire)
    ensures InOrder(published, next + 1, first, k, wire)
    decreases |wire|
  {
    if wire != [] {
      InOrderLater(published, next, first, if wire[0].Rare? then k + 1 else k, wire[1..]);
    }
  }

  lemma {:induction false} ReplayInOrder(published: seq<Entry>, next: nat, first: nat, k: nat)
    requires k <= |published|
    ensures InOrder(published, next, first, k, Replayed(published[k..]))
    ensures Events(Replayed(published[k..])) == |published| - k
    decreases |published| - k
  {
    var wire := Replayed(published[k..]);
    if k < |published| {
      ReplayInOrder(published, next, first, k + 1);
      assert wire[1..] == Replayed(published[k + 1..]);
    }
  }

  /** What is numbered above `last` in an ascending journal is its tail. */
  lemma {:induction false} BeyondIsTail(events: seq<Entry>, last: nat)
    requires forall i, j :: 0 <= i < j < |events| ==> events[i].id < events[j].id
    ensures |Beyond(events, last)| <= |events| && Beyond(events, last) == events[|events| - |Beyond(events, last)|..]
  {
    if events != [] {
      var n := |events| - 1;
      if events[n].id <= last {
        BeyondNothing(events, last);
      } else {
        BeyondIsTail(events[..n], last);
        TailSnoc(events, n - |Beyond(events[..n], last)|);
      }
    }
  }

  lemma TailSnoc(events: seq<Entry>, r: nat)
    requires events != [] && r <= |events| - 1
    ensures events[..|events| - 1][r..] + [events[|events| - 1]] == events[r..]
  {
  }

  // ---- Every action keeps the invariant ----

  /** An event left out stays left out. */
  lemma StillLeftOut(s: State, n: State, k: int)
    requires LeftOut(s, k) && Sane(n) && !n.whole && Unsettled(n, k) && n.published[k] == s.published[k]
    requires n.last > 0 ==> n.published[k].id <= n.last
    requires n.connection.Some? ==> Dismissed(n.connection.value) || (k < n.connection.value.read && k < n.connection.value.first)
    ensures Inv(n)
  {
    assert LeftOut(n, k);
  }

  lemma QueuedLined(published: seq<Entry>, c: Connection, e: Entry)
    requires Lined(published, c)
    ensures Lined(published + [e], Queued(c, e))
  {
  }

  lemma QueuedOrderly(s: State, payload: Wire.RareKind)
    requires Sane(s) && s.connection.Some? && Orderly(s, s.connection.value)
    ensures var n := Next(s, Publish(payload)); n.connection.Some? && Orderly(n, n.connection.value)
  {
    var c, e := s.connection.value, Event(s.next + 1, payload);
    InOrderGrows(s.published, s.next, c.first, c.read, c.wire, e);
    QueuedLined(s.published, c, e);
  }

  lemma SameOvertaken(s: State, payload: Wire.RareKind)
    requires Sane(s) && s.last <= s.next
    ensures Overtaken(Next(s, Publish(payload))) <==> Overtaken(s)
  {
    var n := Next(s, Publish(payload));
    if Overtaken(s) {
      var k :| Unsettled(s, k) && s.published[k].id <= s.last;
      assert Unsettled(n, k);
    }
    if Overtaken(n) {
      var k :| Unsettled(n, k) && n.published[k].id <= n.last;
      assert Unsettled(s, k);
    }
  }

  lemma PublishConnected(s: State, payload: Wire.RareKind)
    requires Sane(s)
    ensures Connected(Next(s, Publish(payload)))
  {
    if s.connection.Some? && !Dismissed(s.connection.value) {
      QueuedOrderly(s, payload);
    }
  }

  lemma PublishSane(s: State, payload: Wire.RareKind)
    requires Sane(s)
    ensures Sane(Next(s, Publish(payload)))
    ensures s.newest.Some? ==> (Overtaken(Next(s, Publish(payload))) <==> Overtaken(s))
  {
    KeptNext(s.published, s.history, s.next, s.capacity, Event(s.next + 1, payload));
    PublishConnected(s, payload);
    if s.newest.Some? {
      SameOvertaken(s, payload);
    }
  }

  lemma PublishKeeps(s: State, payload: Wire.RareKind)
    requires Inv(s)
    ensures Inv(Next(s, Publish(payload)))
  {
    var n := Next(s, Publish(payload));
    PublishSane(s, payload);
    if !s.whole {
      var k :| LeftOut(s, k);
      assert Unsettled(n, k);
      StillLeftOut(s, n, k);
    }
  }

  lemma KeptLater(published: seq<Entry>, history: seq<Entry>, next: nat, capacity: nat)
    requires Kept(published, history, next, capacity)
    ensures Kept(published, history, next + 1, capacity)
  {
  }

  lemma LinedAfter(published: seq<Entry>, c: Connection, d: Connection)
    requires Lined(published, c) && d.queue == c.queue && d.cut == c.cut && d.written == c.written
    requires c.ended ==> d.ended
    ensures Lined(published, d)
  {
  }

  /** A frame written at the end of an orderly wire. */
  lemma WrittenWired(s: State, next: nat, f: Frame)
    requires Sane(s) && s.connection.Some? && Orderly(s, s.connection.value) && s.next <= next <= s.next + 1
    requires f.Rare? ==> s.connection.value.queue != [] && f.event == s.connection.value.queue[0]
    requires f.Telemetry? ==> next == s.next + 1 == f.id
                              && (f.behind <==> s.connection.value.written < |s.published|)
    ensures var c := s.connection.value;
            Wired(s.published, next, c.(wire := c.wire + [f], written := if f.Rare? then c.written + 1 else c.written))
  {
    var c := s.connection.value;
    if next == s.next + 1 {
      InOrderLater(s.published, s.next, c.first, c.read, c.wire);
    }
    InOrderSnoc(s.published, next, c.first, c.read, c.wire, f);
  }

  lemma TelemetryOrderly(s: State)
    requires Sane(s) && Enabled(s, WriteTelemetry) && Orderly(s, s.connection.value)
    ensures var n := Next(s, WriteTelemetry); Orderly(n, n.connection.value)
  {
    var c, d := s.connection.value, Next(s, WriteTelemetry).connection.value;
    WrittenWired(s, s.next + 1, Telemetry(s.next + 1, c.queue != [] || c.cut));
    LinedAfter(s.published, c, d);
  }

  lemma RareOrderly(s: State)
    requires Sane(s) && Enabled(s, WriteRare) && Orderly(s, s.connection.value)
    ensures var n := Next(s, WriteRare); Orderly(n, n.connection.value)
  {
    var c, d := s.connection.value, Next(s, WriteRare).connection.value;
    WrittenWired(s, s.next, Rare(c.queue[0]));
    HeadWritten(s.published, c, d);
  }

  lemma HeadWritten(published: seq<Entry>, c: Connection, d: Connection)
    requires Lined(published, c) && c.queue != [] && d.queue == c.queue[1..] && d.written == c.written + 1
    requires d.cut == c.cut && d.ended == c.ended
    ensures Lined(published, d)
  {
  }

  lemma ResyncOrderly(s: State)
    requires Sane(s) && Enabled(s, WriteResync) && Orderly(s, s.connection.value)
    ensures var n := Next(s, WriteResync); Orderly(n, n.connection.value)
  {
    var c, d := s.connection.value, Next(s, WriteResync).connection.value;
    WrittenWired(s, s.next + 1, Resync);
    LinedAfter(s.published, c, d);
  }

  /** Nothing the client knows or reports changes, only numbers are taken and frames written. */
  lemma SameUnsettled(s: State, n: State)
    requires n.published == s.published && n.settled == s.settled && n.last == s.last
    ensures Overtaken(n) <==> Overtaken(s)
    ensures forall k :: Unsettled(n, k) <==> Unsettled(s, k)
  {
    assert forall k :: Unsettled(n, k) <==> Unsettled(s, k);
  }

  predicate Writes(a: Action) {
    a.TakeNumber? || a.WriteTelemetry? || a.WriteRare? || a.WriteResync? || a.EndCut?
  }

  /** The connection after a write, whoever takes the number. */
  lemma WriteOrderly(s: State, a: Action)
    requires Sane(s) && Enabled(s, a) && Writes(a) && s.connection.Some? && Orderly(s, s.connection.value)
    ensures var n := Next(s, a); n.connection.Some? && Orderly(n, n.connection.value)
  {
    var c := s.connection.value;
    match a
    case WriteTelemetry => TelemetryOrderly(s);
    case WriteRare => RareOrderly(s);
    case WriteResync => ResyncOrderly(s);
    case TakeNumber => InOrderLater(s.published, s.next, c.first, c.read, c.wire);
    case EndCut => LinedAfter(s.published, c, Next(s, a).connection.value);
  }

  lemma WriteSane(s: State, a: Action)
    requires Sane(s) && Enabled(s, a) && Writes(a)
    ensures Sane(Next(s, a))
  {
    KeptLater(s.published, s.history, s.next, s.capacity);
    SameUnsettled(s, Next(s, a));
    if s.connection.Some? && !Dismissed(s.connection.value) {
      WriteOrderly(s, a);
    }
  }

  lemma WriteKeeps(s: State, a: Action)
    requires Inv(s) && Enabled(s, a) && Writes(a)
    ensures Inv(Next(s, a))
  {
    var n := Next(s, a);
    WriteSane(s, a);
    SameUnsettled(s, n);
    if !s.whole {
      var k :| LeftOut(s, k);
      StillLeftOut(s, n, k);
    }
  }

  lemma NotOvertaken(s: State, r: nat)
    requires Kept(s.published, s.history, s.next, s.capacity)
    requires forall k :: 0 <= k < r && k < |s.published| ==> s.published[k].id in s.settled
    requires r < |s.published| ==> s.last < s.published[r].id
    ensures !Overtaken(s)
  {
    forall k | Unsettled(s, k)
      ensures s.last < s.published[k].id
    {
      assert r < k ==> s.published[r].id < s.published[k].id;
    }
  }

  /** An event read in order. */
  lemma FreshNext(published: seq<Entry>, history: seq<Entry>, next: nat, capacity: nat, settled: set<nat>,
                  c: Connection, d: Connection)
    requires Kept(published, history, next, capacity) && c.read < |published|
    requires d.read == c.read + 1 && d.first == c.first
    ensures Fresh(published, settled, c) ==> Fresh(published, settled + {published[c.read].id}, d)
    ensures Done(published, settled, c) ==> Done(published, settled + {published[c.read].id}, d)
  {
  }

  lemma RareHeadWired(published: seq<Entry>, next: nat, c: Connection)
    requires Wired(published, next, c) && c.wire != [] && c.wire[0].Rare?
    ensures c.read < |published| && published[c.read] == c.wire[0].event
    ensures Wired(published, next, c.(read := c.read + 1, wire := c.wire[1..]))
  {
  }

  lemma RareReadSane(s: State)
    requires Sane(s) && Enabled(s, Read) && Orderly(s, s.connection.value) && s.connection.value.wire[0].Rare?
    ensures Sane(Next(s, Read))
    ensures var c, n := s.connection.value, Next(s, Read);
            && c.read < |s.published| && n.last == s.published[c.read].id
            && n.settled == s.settled + {s.published[c.read].id} && n.connection.value.read == c.read + 1
  {
    var c := s.connection.value;
    RareHeadWired(s.published, s.next, c);
    var d := c.(read := c.read + 1, wire := c.wire[1..]);
    FreshNext(s.published, s.history, s.next, s.capacity, s.settled, c, d);
    LinedAfter(s.published, c, d);
    assert Next(s, Read).connection == Some(d);
  }

  lemma RareReadKeeps(s: State)
    requires Inv(s) && Enabled(s, Read) && Orderly(s, s.connection.value) && s.connection.value.wire[0].Rare?
    requires !Dismissed(s.connection.value)
    ensures Inv(Next(s, Read))
  {
    var c, n := s.connection.value, Next(s, Read);
    RareReadSane(s);
    if s.whole {
      FreshNext(s.published, s.history, s.next, s.capacity, s.settled, c, n.connection.value);
      NotOvertaken(n, c.read + 1);
    } else {
      var k :| LeftOut(s, k);
      assert s.published[k].id < s.published[c.read].id;
      StillLeftOut(s, n, k);
    }
  }

  lemma TelemetryHeadWired(published: seq<Entry>, next: nat, c: Connection)
    requires Wired(published, next, c) && c.wire != [] && c.wire[0].Telemetry?
    ensures Wired(published, next, c.(wire := c.wire[1..]))
    ensures var Telemetry(id, behind) := c.wire[0];
            && c.first <= c.read && 0 < id <= next && (behind <==> c.read < |published| && published[c.read].id <= id)
            && (0 < c.first <= |published| ==> published[c.first - 1].id < id)
  {
  }

  lemma TelemetryReadSane(s: State)
    requires Sane(s) && Enabled(s, Read) && Orderly(s, s.connection.value) && s.connection.value.wire[0].Telemetry?
    ensures Sane(Next(s, Read))
  {
    var c, n := s.connection.value, Next(s, Read);
    TelemetryHeadWired(s.published, s.next, c);
    var d := c.(wire := c.wire[1..]);
    LinedAfter(s.published, c, d);
    if c.wire[0].behind {
      assert Unsettled(n, c.read);
    }
  }

  /** On a connection answered in full, a telemetry frame overtakes exactly what is still to come
      below it. */
  lemma TelemetryReadCaught(s: State)
    requires Inv(s) && s.whole && Enabled(s, Read) && Orderly(s, s.connection.value) && !Dismissed(s.connection.value)
    requires s.connection.value.wire[0].Telemetry?
    ensures Caught(Next(s, Read))
  {
    var c, n := s.connection.value, Next(s, Read);
    TelemetryHeadWired(s.published, s.next, c);
    assert Done(s.published, s.settled, n.connection.value);
    if !c.wire[0].behind {
      NotOvertaken(n, c.read);
    }
  }

  lemma TelemetryReadKeeps(s: State)
    requires Inv(s) && Enabled(s, Read) && Orderly(s, s.connection.value) && s.connection.value.wire[0].Telemetry?
    requires !Dismissed(s.connection.value)
    ensures Inv(Next(s, Read))
  {
    TelemetryReadSane(s);
    if s.whole {
      TelemetryReadCaught(s);
    } else {
      var c, n := s.connection.value, Next(s, Read);
      TelemetryHeadWired(s.published, s.next, c);
      var k :| LeftOut(s, k);
      assert k < c.first - 1 ==> s.published[k].id < s.published[c.first - 1].id;
      StillLeftOut(s, n, k);
    }
  }

  lemma ZeroHeadWired(published: seq<Entry>, next: nat, settled: set<nat>, c: Connection, d: Connection)
    requires c.wire != [] && c.wire[0].Zero? && d == c.(wire := c.wire[1..])
    ensures Dismissed(c) ==> Dismissed(d)
    ensures Wired(published, next, c) ==> Wired(published, next, d)
    ensures Fresh(published, settled, c) ==> Fresh(published, settled, d)
    ensures Done(published, settled, c) ==> Done(published, settled, d)
  {
  }

  lemma ZeroReadSane(s: State)
    requires Sane(s) && Enabled(s, Read) && s.connection.value.wire[0].Zero?
    ensures Sane(Next(s, Read)) && Next(s, Read).last == 0 && Next(s, Read).newest == Some(Zero)
    ensures var c := s.connection.value; Next(s, Read).connection == Some(c.(wire := c.wire[1..]))
  {
    var c := s.connection.value;
    var d := c.(wire := c.wire[1..]);
    ZeroHeadWired(s.published, s.next, s.settled, c, d);
    if !Dismissed(c) {
      LinedAfter(s.published, c, d);
    }
  }

  lemma ZeroReadKeeps(s: State)
    requires Inv(s) && Enabled(s, Read) && s.connection.value.wire[0].Zero?
    ensures Inv(Next(s, Read))
  {
    var c, n := s.connection.value, Next(s, Read);
    ZeroReadSane(s);
    ZeroHeadWired(s.published, s.next, s.settled, c, n.connection.value);
    if !s.whole {
      var k :| LeftOut(s, k);
      assert Unsettled(n, k);
      StillLeftOut(s, n, k);
    }
  }

  lemma ResyncReadKeeps(s: State)
    requires Inv(s) && Enabled(s, Read) && s.connection.value.wire[0].Resync?
    ensures Inv(Next(s, Read))
  {
  }

  lemma ReadKeeps(s: State)
    requires Inv(s) && Enabled(s, Read)
    ensures Inv(Next(s, Read))
  {
    match s.connection.value.wire[0]
    case Rare(_) => RareReadKeeps(s);
    case Telemetry(_, _) => TelemetryReadKeeps(s);
    case Zero => ZeroReadKeeps(s);
    case Resync => ResyncReadKeeps(s);
  }

  lemma NotInTail(published: seq<Entry>, r: nat, k: nat)
    requires forall i, j :: 0 <= i < j < |published| ==> published[i].id < published[j].id
    requires k < r <= |published|
    ensures published[k] !in published[r..]
  {
    forall j | 0 <= j < |published| - r
      ensures published[r..][j] != published[k]
    {
      assert published[r..][j] == published[r + j];
    }
  }

  /** What is replayed is a tail of everything published. */
  lemma HistoryTail(published: seq<Entry>, history: seq<Entry>, next: nat, capacity: nat, last: nat) returns (r: nat)
    requires Kept(published, history, next, capacity)
    ensures r <= |published| && Beyond(history, last) == published[r..]
  {
    var cut := |published| - |history|;
    assert history == published[cut..];
    BeyondIsTail(history, last);
    r := cut + |history| - |Beyond(history, last)|;
  }

  /** A replay starts in order, and an event it leaves out comes before all it will bring. */
  lemma ReplayOrderly(s: State) returns (r: nat)
    requires Sane(s) && !MustResync(s.next, s.history, s.last)
    ensures var n := AfterConnect(s);
            && n.connection.Some? && Orderly(n, n.connection.value) && !Dismissed(n.connection.value)
            && n.connection.value.read == r <= |s.published| == n.connection.value.first
            && Beyond(s.history, s.last) == s.published[r..]
  {
    var replay, m := Beyond(s.history, s.last), |s.published|;
    r := HistoryTail(s.published, s.history, s.next, s.capacity, s.last);
    assert r == m - |replay|;
    ReplayInOrder(s.published, s.next, m, r);
    var wire := [Zero] + Replayed(replay);
    assert wire[1..] == Replayed(replay);
    assert InOrder(s.published, s.next, m, r, wire) && Events(wire) == m - r;
    InOrderSnoc(s.published, s.next, m, r, wire, Zero);
  }

  lemma CompleteAnswer(s: State, r: nat)
    requires Inv(s) && !MustResync(s.next, s.history, s.last) && Complete(s)
    requires r <= |s.published| && Beyond(s.history, s.last) == s.published[r..]
    ensures forall k :: 0 <= k < r ==> s.published[k].id in s.settled
    ensures s.last > 0 ==> !Overtaken(s)
  {
    forall k | 0 <= k < r
      ensures s.published[k].id in s.settled
    {
      NotInTail(s.published, r, k);
    }
    CompleteIff(s);
  }

  /** An answer that leaves something out leaves out an event below all that is still to come. */
  lemma PartialAnswer(s: State, r: nat) returns (k: int)
    requires Inv(s) && !MustResync(s.next, s.history, s.last) && !Complete(s)
    requires r <= |s.published| && Beyond(s.history, s.last) == s.published[r..]
    ensures Unsettled(s, k) && k < r && (s.last > 0 ==> s.published[k].id <= s.last)
  {
    k :| 0 <= k < |s.published| && s.published[k].id !in s.settled && s.published[k] !in Beyond(s.history, s.last);
    assert Unsettled(s, k);
    KeptIff(s, k);
    assert forall j :: 0 <= j < |s.published| - r ==> s.published[r..][j] == s.published[r + j];
    assert s.published[k] !in s.published[r..];
  }

  lemma ResyncAnswer(s: State)
    requires Inv(s) && Enabled(s, Connect) && MustResync(s.next, s.history, s.last)
    ensures Inv(Next(s, Connect))
  {
    var n := Next(s, Connect);
    assert Dismissed(n.connection.value) by {
      assert Doomed([Resync]) && [Zero, Resync][1..] == [Resync];
    }
    SameUnsettled(s, n);
    assert Sane(n);
    if !s.whole {
      var k :| LeftOut(s, k);
      StillLeftOut(s, n, k);
    }
  }

  lemma ConnectKeeps(s: State)
    requires Inv(s) && Enabled(s, Connect)
    ensures Inv(Next(s, Connect))
  {
    var n := Next(s, Connect);
    if MustResync(s.next, s.history, s.last) {
      ResyncAnswer(s);
    } else {
      var r := ReplayOrderly(s);
      SameUnsettled(s, n);
      assert Sane(n);
      if Complete(s) {
        CompleteAnswer(s, r);
        assert Done(n.published, n.settled, n.connection.value);
      } else {
        var k := PartialAnswer(s, r);
        assert LeftOut(n, k);
      }
    }
  }

  lemma OtherKeeps(s: State, a: Action)
    requires Inv(s) && Enabled(s, a) && (a.Lose? || a.StartOver? || a.Restart?)
    ensures Inv(Next(s, a))
  {
    var n := Next(s, a);
    if a.Lose? {
      SameUnsettled(s, n);
    }
    if !a.Restart? && !s.whole {
      var k :| LeftOut(s, k);
      assert Unsettled(n, k);
      StillLeftOut(s, n, k);
    }
  }

  lemma StepKeeps(s: State, a: Action)
    requires Inv(s) && Enabled(s, a)
    ensures Inv(Next(s, a))
  {
    match a
    case Publish(payload) => PublishKeeps(s, payload);
    case Read => ReadKeeps(s);
    case Connect => ConnectKeeps(s);
    case Lose => OtherKeeps(s, a);
    case StartOver => OtherKeeps(s, a);
    case Restart => OtherKeeps(s, a);
    case _ => WriteKeeps(s, a);
  }

  lemma {:induction false} RunKeeps(s: State, actions: seq<Action>)
    requires Inv(s) && Feasible(s, actions)
    ensures Inv(Ran(s, actions))
    decreases |actions|
  {
    if actions != [] {
      StepKeeps(s, actions[0]);
      RunKeeps(Next(s, actions[0]), actions[1..]);
    }
  }

  // ---- Main result ----

  /** The client is sent to resynchronise, or replayed everything it lacks; what an earlier process
      published and the client never read is beyond replay. */
  ghost predicate ToldEverything(s: State) {
    MustResync(s.next, s.history, s.last) || (!s.owed && Complete(s))
  }

  ghost predicate EvictedUnsettled(s: State) {
    exists k :: Unsettled(s, k) && k < |s.published| - |s.history|
  }

  /** The number reported is safe: nothing of an earlier process is owed, and it is zero with nothing
      unsettled evicted; or comes from a frame that overtook no event on a connection answered in full;
      or comes from an earlier process and lies below every event of this one. */
  ghost predicate SafeNumber(s: State) {
    && !s.owed
    && if s.last == 0 then !EvictedUnsettled(s)
       else if s.newest.Some? then s.whole && Clear(s.newest)
       else s.published != [] ==> s.last < s.published[0].id
  }

  lemma FirstIsLeast(s: State)
    requires Inv(s) && s.settled == {}
    ensures Overtaken(s) <==> s.published != [] && s.published[0].id <= s.last
  {
    if s.published != [] && s.published[0].id <= s.last {
      assert Unsettled(s, 0);
    } else if s.published != [] {
      NotOvertaken(s, 0);
    }
  }

  lemma OvertakenIffUnsafe(s: State)
    requires Inv(s) && s.last > 0 && !s.owed
    ensures Overtaken(s) <==> !SafeNumber(s)
  {
    if s.newest.None? {
      FirstIsLeast(s);
    } else if !s.whole {
      var k :| LeftOut(s, k);
    }
  }

  lemma AboveIsKept(s: State, k: int)
    requires Inv(s) && Unsettled(s, k) && !MustResync(s.next, s.history, s.last)
    ensures s.published[k] in Beyond(s.history, s.last)
            <==> s.published[k].id > s.last && k >= |s.published| - |s.history|
  {
    var cut := |s.published| - |s.history|;
    assert s.history == s.published[cut..];
    BeyondMembers(s.history, s.last, s.published[k]);
    if k < cut {
      NotInTail(s.published, cut, k);
    } else {
      assert s.history[k - cut] == s.published[k];
    }
  }

  lemma {:induction false} BeyondMembers(events: seq<Entry>, last: nat, e: Entry)
    ensures e in Beyond(events, last) <==> e in events && e.id > last
  {
    if events != [] {
      BeyondMembers(events[..|events| - 1], last, e);
      assert events == events[..|events| - 1] + [events[|events| - 1]];
    }
  }

  /** A number in use that demands no resync is not below the oldest event kept. */
  lemma EvictedAreBelow(s: State, k: int)
    requires Inv(s) && !MustResync(s.next, s.history, s.last) && s.last > 0
    requires 0 <= k < |s.published| - |s.history|
    ensures s.published[k].id <= s.last
  {
    var cut := |s.published| - |s.history|;
    assert s.history[0] == s.published[cut];
  }

  lemma CompleteIff(s: State)
    requires Inv(s) && !MustResync(s.next, s.history, s.last)
    ensures Complete(s) <==> if s.last == 0 then !EvictedUnsettled(s) else !Overtaken(s)
  {
    if Complete(s) {
      forall k | Unsettled(s, k)
        ensures if s.last == 0 then k >= |s.published| - |s.history| else s.published[k].id > s.last
      {
        KeptIff(s, k);
      }
    } else {
      var k :| 0 <= k < |s.published| && s.published[k].id !in s.settled && s.published[k] !in Beyond(s.history, s.last);
      assert Unsettled(s, k);
      KeptIff(s, k);
    }
  }

  lemma KeptIff(s: State, k: int)
    requires Inv(s) && !MustResync(s.next, s.history, s.last) && Unsettled(s, k)
    ensures s.published[k] in Beyond(s.history, s.last)
            <==> if s.last == 0 then k >= |s.published| - |s.history| else s.published[k].id > s.last
  {
    AboveIsKept(s, k);
    if s.last > 0 && k < |s.published| - |s.history| {
      EvictedAreBelow(s, k);
    }
  }

  ghost predicate Reachable(s: State) {
    exists start, actions :: Initial(start) && Feasible(start, actions) && s == Ran(start, actions)
  }

  lemma InvAlways(s: State)
    requires Reachable(s)
    ensures Inv(s)
  {
    var start, actions :| Initial(start) && Feasible(start, actions) && s == Ran(start, actions);
    assert Inv(start);
    RunKeeps(start, actions);
  }

  /** In every reachable state: a client that comes back is sent to resynchronise or replayed
      everything it lacks exactly when the number it reports demands a resync or is safe. */
  lemma ToldEverythingIff(s: State)
    requires Reachable(s) && s.connection.None?
    ensures ToldEverything(s) <==> MustResync(s.next, s.history, s.last) || SafeNumber(s)
  {
    InvAlways(s);
    if !MustResync(s.next, s.history, s.last) && !s.owed {
      CompleteIff(s);
      if s.last > 0 {
        OvertakenIffUnsafe(s);
      }
    }
  }

  /** A safe number above zero is one with nothing unsettled at or below it. */
  lemma SafeMeansNothingBelow(s: State)
    requires Reachable(s) && s.last > 0 && !s.owed
    ensures SafeNumber(s)
            <==> forall k :: 0 <= k < |s.published| && s.published[k].id <= s.last ==> s.published[k].id in s.settled
  {
    InvAlways(s);
    OvertakenIffUnsafe(s);
    assert forall k :: 0 <= k < |s.published| ==> (Unsettled(s, k) <==> s.published[k].id !in s.settled);
  }

  /** What is owed across a restart stays owed until a demand to resynchronise is read. */
  lemma {:induction false} OwedUntilResync(s: State, actions: seq<Action>)
    requires Feasible(s, actions) && s.owed && !Ran(s, actions).owed
    ensures exists i :: 0 <= i < |actions| && ReadsResync(s, actions, i)
    decreases |actions|
  {
    var n := Next(s, actions[0]);
    if n.owed {
      OwedUntilResync(n, actions[1..]);
      var i :| 0 <= i < |actions| - 1 && ReadsResync(n, actions[1..], i);
      FeasiblePrefix(s, actions, i + 1);
      assert actions[..i + 1][1..] == actions[1..][..i];
      assert ReadsResync(s, actions, i + 1);
    } else {
      assert actions[..0] == [];
      assert ReadsResync(s, actions, 0);
    }
  }

  /** The i-th action of the run reads a demand to resynchronise. */
  ghost predicate ReadsResync(s: State, actions: seq<Action>, i: nat) {
    && i < |actions| && actions[i].Read? && Feasible(s, actions[..i])
    && var t := Ran(s, actions[..i]);
       t.connection.Some? && t.connection.value.wire != [] && t.connection.value.wire[0].Resync?
  }

  lemma {:induction false} FeasiblePrefix(s: State, actions: seq<Action>, n: nat)
    requires Feasible(s, actions) && n <= |actions|
    ensures Feasible(s, actions[..n])
    decreases n
  {
    if n > 0 {
      FeasiblePrefix(Next(s, actions[0]), actions[1..], n - 1);
      assert actions[..n][1..] == actions[1..][..n - 1];
    }
  }

  // ---- Numbers not given out ----

  /** A client that reports a number this process has not given out is answered with a bootstrap that
      demands a resync, and has everything settled once it has read that. */
  lemma UnknownNumberIsDismissed(s: State)
    requires s.connection.None? && s.last > s.next
    ensures var n := Next(s, Connect);
            && n.connection.Some? && n.connection.value.wire == [Zero, Resync] && n.connection.value.ended
            && Enabled(n, Read) && Enabled(Next(n, Read), Read)
            && var end := Next(Next(n, Read), Read);
            && end.connection.None? && end.last == 0 && !end.owed && end.whole
            && forall k :: 0 <= k < |end.published| ==> end.published[k].id in end.settled
  {
    var n := Next(s, Connect);
    assert n.connection.value.wire[1..] == [Resync];
    var end := Next(Next(n, Read), Read);
    assert forall k :: 0 <= k < |end.published| ==> end.published[k].id in Numbers(end.published);
  }

  /** So a restart before anything new is published is noticed by every client that had a number. */
  lemma RestartIsNoticed(s: State)
    requires s.last > 0
    ensures var r := Next(s, Restart);
            && r.connection.None? && r.last > r.next
            && Next(r, Connect).connection.value.wire == [Zero, Resync]
  {
    UnknownNumberIsDismissed(Next(s, Restart));
  }

  // ---- Five ways to lose an event ----

  lemma {:induction false} RanSnoc(s: State, actions: seq<Action>, a: Action)
    requires Feasible(s, actions) && Enabled(Ran(s, actions), a)
    ensures Feasible(s, actions + [a]) && Ran(s, actions + [a]) == Next(Ran(s, actions), a)
    decreases |actions|
  {
    if actions == [] {
      assert (actions + [a])[1..] == [];
      assert Feasible(Next(s, a), []);
    } else {
      assert (actions + [a])[1..] == actions[1..] + [a];
      RanSnoc(Next(s, actions[0]), actions[1..], a);
    }
  }

  lemma ReachableNext(s: State, a: Action)
    requires Reachable(s) && Enabled(s, a)
    ensures Reachable(Next(s, a))
  {
    var start, actions :| Initial(start) && Feasible(start, actions) && s == Ran(start, actions);
    RanSnoc(start, actions, a);
  }

  /** A new server and a client connected to it that has read the empty bootstrap. */
  function JustConnected(capacity: nat): State {
    State(capacity, 0, [], [], Some(Connection([], false, false, [], 0, 0, 0)), 0, Some(Zero), {}, true, false)
  }

  lemma JustConnectedIsReachable(capacity: nat)
    requires capacity > 0
    ensures Reachable(JustConnected(capacity))
  {
    var s0 := State(capacity, 0, [], [], None, 0, None, {}, true, false);
    assert Feasible(s0, []) && s0 == Ran(s0, []);
    ReachableNext(s0, Connect);
    var s1 := Next(s0, Connect);
    assert s1.connection.value.wire == [Zero, Zero];
    ReachableNext(s1, Read);
    var s2 := Next(s1, Read);
    assert s2.connection.value.wire == [Zero];
    ReachableNext(s2, Read);
    assert Next(s2, Read) == JustConnected(capacity);
  }

  /** One event published on the connection just made. */
  lemma OnePublished(capacity: nat, x: Wire.RareKind) returns (s: State)
    requires capacity > 0
    ensures Reachable(s) && s == JustConnected(capacity).(next := 1, published := [Event(1, x)], history := [Event(1, x)],
                                                      connection := Some(Connection([Event(1, x)], false, false, [], 0, 0, 0)))
  {
    JustConnectedIsReachable(capacity);
    ReachableNext(JustConnected(capacity), Publish(x));
    s := Next(JustConnected(capacity), Publish(x));
    assert [] + [Event(1, x)] == [Event(1, x)];
  }

  /** Nothing evicted, a number above zero, and still lost: the telemetry frame read last took its
      number after the event and was written before it. */
  lemma OvertakenEventIsLost(capacity: nat, x: Wire.RareKind) returns (s: State)
    requires capacity > 0
    ensures Reachable(s) && s.connection.None? && s.history == s.published == [Event(1, x)]
    ensures s.last == s.next == 2 && s.newest == Some(Telemetry(2, true)) && !ToldEverything(s)
  {
    var s1 := OnePublished(capacity, x);
    ReachableNext(s1, WriteTelemetry);
    var s2 := Next(s1, WriteTelemetry);
    assert s2.connection.value.wire == [Telemetry(2, true)];
    ReachableNext(s2, Read);
    var s3 := Next(s2, Read);
    ReachableNext(s3, Lose);
    s := Next(s3, Lose);
    NotReplayed(s, 0);
  }

  function OneReadState(capacity: nat, x: Wire.RareKind): State {
    JustConnected(capacity).(next := 1, published := [Event(1, x)], history := [Event(1, x)],
                         connection := Some(Connection([], false, false, [], 1, 1, 0)),
                         last := 1, newest := Some(Rare(Event(1, x))), settled := {1})
  }

  lemma NotReplayed(s: State, k: int)
    requires Unsettled(s, k) && !MustResync(s.next, s.history, s.last)
    requires s.published[k].id <= s.last || s.published[k] !in s.history
    ensures !ToldEverything(s)
  {
    BeyondMembers(s.history, s.last, s.published[k]);
  }

  lemma OneRead(capacity: nat, x: Wire.RareKind)
    requires capacity > 0
    ensures Reachable(OneReadState(capacity, x))
  {
    var s1 := OnePublished(capacity, x);
    ReachableNext(s1, WriteRare);
    var s2 := Next(s1, WriteRare);
    assert s2.connection.value.wire == [Rare(Event(1, x))];
    ReachableNext(s2, Read);
    assert s2.connection.value == Connection([], false, false, [Rare(Event(1, x))], 0, 1, 0);
    assert [Rare(Event(1, x))][1..] == [];
    assert Next(s2, Read) == OneReadState(capacity, x);
  }

  /** A restart after everything was read leaves the number, and nothing owed. */
  lemma OldNumberIsReachable(capacity: nat, x: Wire.RareKind)
    requires capacity > 0
    ensures Reachable(State(capacity, 0, [], [], None, 1, None, {}, true, false))
  {
    OneRead(capacity, x);
    var s := OneReadState(capacity, x);
    assert !exists k :: Unsettled(s, k);
    ReachableNext(s, Restart);
    assert Next(s, Restart) == State(capacity, 0, [], [], None, 1, None, {}, true, false);
  }

  /** A number from an earlier process passes for one of this process: its first event is lost. */
  lemma OldNumberLosesEvent(capacity: nat, x: Wire.RareKind, y: Wire.RareKind) returns (s: State)
    requires capacity > 0
    ensures Reachable(s) && s.connection.None? && !s.owed && s.history == s.published == [Event(1, y)]
    ensures s.last == s.next == 1 && s.newest.None? && !ToldEverything(s)
  {
    OldNumberIsReachable(capacity, x);
    var s1 := State(capacity, 0, [], [], None, 1, None, {}, true, false);
    ReachableNext(s1, Publish(y));
    s := Next(s1, Publish(y));
    assert [] + [Event(1, y)] == [Event(1, y)];
    NotReplayed(s, 0);
  }

  /** An event published on a live connection and not yet read is gone with the server: the new
      process answers with a bootstrap that neither replays it nor demands a resync. */
  lemma RestartLosesEvent(capacity: nat, x: Wire.RareKind) returns (s: State)
    requires capacity > 0
    ensures Reachable(s) && s.connection.None? && s.owed && s.last == 0 && !ToldEverything(s)
    ensures Next(s, Connect).connection.value.wire == [Zero, Zero] && Next(s, Connect).owed
  {
    var s1 := OnePublished(capacity, x);
    assert Unsettled(s1, 0);
    ReachableNext(s1, Restart);
    s := Next(s1, Restart);
  }

  /** The bootstrap's number zero is reported after an unread event was evicted. */
  lemma ZeroLosesEvicted(x: Wire.RareKind, y: Wire.RareKind) returns (s: State)
    ensures Reachable(s) && s.connection.None?
    ensures s.published == [Event(1, x), Event(2, y)] && s.history == [Event(2, y)]
    ensures s.last == 0 && s.next == 2 && s.capacity == 1 && s.settled == {} && !s.owed && !ToldEverything(s)
  {
    var s1 := OnePublished(1, x);
    ReachableNext(s1, Publish(y));
    var s2 := Next(s1, Publish(y));
    assert s2.history == [Event(2, y)];
    ReachableNext(s2, Lose);
    s := Next(s2, Lose);
    NotReplayed(s, 0);
  }

  /** A number read in order is unsafe all the same after an answer that left an event out: the
      bootstrap did not hold the first event, the number is the second one's. */
  lemma PartialAnswerLosesEvent(x: Wire.RareKind, y: Wire.RareKind) returns (s: State)
    ensures Reachable(s) && s.connection.None? && s.published == [Event(1, x), Event(2, y)]
    ensures s.last == 2 && s.newest == Some(Rare(Event(2, y))) && !s.whole && !ToldEverything(s)
  {
    var s1 := ZeroLosesEvicted(x, y);
    ReachableNext(s1, Connect);
    var s2 := Next(s1, Connect);
    assert s1.history[..1] == s1.history && s1.history[..0] == [];
    assert Beyond(s1.history, 0) == [Event(2, y)];
    assert s2.connection.value.wire == [Zero, Rare(Event(2, y)), Zero];
    ReachableNext(s2, Read);
    var s3 := Next(s2, Read);
    assert s3.connection.value.wire == [Rare(Event(2, y)), Zero];
    ReachableNext(s3, Read);
    var s4 := Next(s3, Read);
    ReachableNext(s4, Lose);
    s := Next(s4, Lose);
    NotReplayed(s, 0);
  }
}
