/** The server's journal of rare events: bounded history, numbered together with telemetry,
    replayed to a client that reconnects with the last number it saw. */
module Journal {

  datatype Event<T> = Event(id: nat, payload: T)

  const CHANNEL_CAPACITY := 64

  /** The events numbered above `last`. */
  function Beyond<T>(events: seq<Event<T>>, last: nat): seq<Event<T>> {
    if events == [] then []
    else
      var e := events[|events| - 1];
      Beyond(events[..|events| - 1], last) + if e.id > last then [e] else []
  }

  /** The client cannot be brought up to date from the history: it names a number not yet
      given out, or one before the oldest event kept. */
  predicate MustResync<T>(next: nat, history: seq<Event<T>>, last: nat) {
    last > next || (last > 0 && |history| > 0 && last < history[0].id - 1)
  }

  function Newest<T>(events: seq<Event<T>>, capacity: nat): seq<Event<T>> {
    if |events| > capacity then events[|events| - capacity..] else events
  }

  /** `published` is everything ever published; `history` its newest `capacity` events. Numbers
      rise, and may skip those given to telemetry. */
  ghost predicate Kept<T>(published: seq<Event<T>>, history: seq<Event<T>>, next: nat, capacity: nat) {
    && (forall i, j :: 0 <= i < j < |published| ==> published[i].id < published[j].id)
    && (forall i :: 0 <= i < |published| ==> 1 <= published[i].id <= next)
    && history == Newest(published, capacity)
  }

  lemma {:induction false} BeyondNothing<T>(events: seq<Event<T>>, last: nat)
    requires forall i :: 0 <= i < |events| ==> events[i].id <= last
    ensures Beyond(events, last) == []
  {
    if events != [] {
      BeyondNothing(events[..|events| - 1], last);
    }
  }

  lemma {:induction false} BeyondEverything<T>(events: seq<Event<T>>, last: nat)
    requires forall i :: 0 <= i < |events| ==> events[i].id > last
    ensures Beyond(events, last) == events
  {
    if events != [] {
      BeyondEverything(events[..|events| - 1], last);
    }
  }

  lemma {:induction false} BeyondConcat<T>(a: seq<Event<T>>, b: seq<Event<T>>, last: nat)
    ensures Beyond(a + b, last) == Beyond(a, last) + Beyond(b, last)
  {
    if b == [] {
      assert a + b == a;
    } else {
      BeyondConcat(a, b[..|b| - 1], last);
      assert (a + b)[..|a + b| - 1] == a + b[..|b| - 1];
    }
  }

  /** Dropping a front part of the journal loses nothing exactly when its newest event, hence
      all of it, is no newer than `last`. */
  lemma NothingMissed<T>(evicted: seq<Event<T>>, kept: seq<Event<T>>, last: nat)
    requires evicted != []
    requires forall i :: 0 <= i < |evicted| ==> evicted[i].id <= evicted[|evicted| - 1].id
    ensures Beyond(kept, last) == Beyond(evicted + kept, last) <==> evicted[|evicted| - 1].id <= last
  {
    BeyondConcat(evicted, kept, last);
    if evicted[|evicted| - 1].id <= last {
      BeyondNothing(evicted, last);
      assert Beyond(evicted, last) + Beyond(kept, last) == Beyond(kept, last);
    } else {
      assert |Beyond(evicted, last) + Beyond(kept, last)| > |Beyond(kept, last)|;
    }
  }

  lemma MissedIff<T>(published: seq<Event<T>>, history: seq<Event<T>>, next: nat, capacity: nat, last: nat)
    requires capacity > 0 && Kept(published, history, next, capacity) && |published| > capacity
    ensures Beyond(history, last) == Beyond(published, last) <==> published[|published| - capacity - 1].id <= last
  {
    var cut := |published| - capacity;
    var evicted := published[..cut];
    assert published == evicted + history;
    assert evicted[|evicted| - 1] == published[cut - 1];
    forall i | 0 <= i < |evicted|
      ensures evicted[i].id <= evicted[|evicted| - 1].id
    {
      assert evicted[i] == published[i];
    }
    NothingMissed(evicted, history, last);
  }

  /** Every event numbered above the number reported is replayed, or the client is told to
      resynchronise, exactly unless it reports number zero after events have been evicted. Whether
      the client holds the events numbered below is a matter of what was delivered to it. */
  lemma AboveReplayedOrResyncIff<T>(published: seq<Event<T>>, history: seq<Event<T>>, next: nat, capacity: nat,
                                    last: nat)
    requires capacity > 0 && Kept(published, history, next, capacity)
    ensures MustResync(next, history, last) || Beyond(history, last) == Beyond(published, last)
            <==> last > 0 || |published| <= capacity
  {
    if |published| > capacity {
      MissedIff(published, history, next, capacity, last);
      var cut := |published| - capacity;
      assert history[0] == published[cut] && published[cut - 1].id < published[cut].id;
    }
  }

  /** A client is sent away although every event numbered above its number is still kept, exactly
      when that number lies among those telemetry took between the newest evicted event and the
      oldest one kept. */
  lemma NeedlessResync<T>(published: seq<Event<T>>, history: seq<Event<T>>, next: nat, capacity: nat, last: nat)
    requires capacity > 0 && published != [] && Kept(published, history, next, capacity) && last <= next
    ensures history != []
    ensures MustResync(next, history, last) && Beyond(history, last) == Beyond(published, last)
            <==> && 0 < last && last + 1 < history[0].id
                 && (|published| > capacity ==> published[|published| - capacity - 1].id <= last)
  {
    if |published| > capacity {
      MissedIff(published, history, next, capacity, last);
    }
  }

  lemma KeptNext<T>(published: seq<Event<T>>, history: seq<Event<T>>, next: nat, capacity: nat, e: Event<T>)
    requires Kept(published, history, next, capacity) && e.id == next + 1
    ensures Kept(published + [e], Newest(history + [e], capacity), next + 1, capacity)
  {
    var all, longer := published + [e], history + [e];
    if |published| > capacity {
      assert longer == all[|published| - capacity..];
      assert Newest(longer, capacity) == all[|all| - capacity..];
    }
  }

  /** The channels with room take the event; the others are closed and forgotten. */
  function Delivered<T>(subscribers: map<nat, seq<Event<T>>>, e: Event<T>): (r: map<nat, seq<Event<T>>>)
    ensures forall s :: s in r <==> s in subscribers && |subscribers[s]| < CHANNEL_CAPACITY
    ensures forall s :: s in r ==> r[s] == subscribers[s] + [e]
  {
    map s | s in subscribers && |subscribers[s]| < CHANNEL_CAPACITY :: subscribers[s] + [e]
  }

  class EventHub<T> {
    const capacity: nat
    var next: nat
    var history: seq<Event<T>>
    var subscribers: map<nat, seq<Event<T>>>
    var nextSubscriber: nat
    ghost var published: seq<Event<T>>

    ghost predicate Valid()
      reads this
    {
      Kept(published, history, next, capacity) && forall s :: s in subscribers ==> s < nextSubscriber
    }

    constructor (capacity: nat)
      ensures Valid() && published == [] && this.capacity == capacity && subscribers == map[] && next == 0
    {
      this.capacity := capacity;
      next, history, subscribers, nextSubscriber, published := 0, [], map[], 0, [];
    }

    /** Every subscriber either has the event queued after all it had, or loses its channel. */
    method Publish(payload: T)
      requires Valid()
      modifies this`next, this`history, this`subscribers, this`published
      ensures Valid() && next == old(next) + 1
      ensures published == old(published) + [Event(next, payload)]
      ensures forall s :: s in subscribers <==> s in old(subscribers) && |old(subscribers)[s]| < 64
      ensures forall s :: s in subscribers ==> subscribers[s] == old(subscribers)[s] + [Event(next, payload)]
    {
      next := next + 1;
      var e := Event(next, payload);
      published := published + [e];
      history := history + [e];
      if |history| > capacity {
        history := history[|history| - capacity..];
      }
      assert Kept(published, history, next, capacity) by {
        assert history == Newest(old(history) + [e], capacity);
        KeptNext(old(published), old(history), old(next), capacity, e);
      }
      subscribers := Delivered(subscribers, e);
    }

    /** A number for a telemetry message. */
    method NextID() returns (id: nat)
      requires Valid()
      modifies this`next
      ensures Valid() && id == next == old(next) + 1
    {
      next := next + 1;
      id := next;
    }

    /** Registration and replay are one step, so what is published afterwards is queued. */
    method Subscribe(last: nat) returns (id: nat, replay: seq<Event<T>>, resync: bool)
      requires Valid()
      modifies this`subscribers, this`nextSubscriber
      ensures Valid()
      ensures id !in old(subscribers) && subscribers == old(subscribers)[id := []]
      ensures resync <==> MustResync(next, history, last)
      ensures last > next ==> resync && replay == []
      ensures last == next || last == 0 ==> !resync
      ensures replay == if resync then [] else Beyond(history, last)
      ensures capacity > 0 ==>
                (resync || replay == Beyond(published, last) <==> last > 0 || |published| <= capacity)
    {
      id := nextSubscriber;
      nextSubscriber := nextSubscriber + 1;
      subscribers := subscribers[id := []];
      resync := last > next || (last > 0 && |history| > 0 && last < history[0].id - 1);
      replay := [];
      if !resync {
        for i := 0 to |history|
          invariant replay == Beyond(history[..i], last)
        {
          if history[i].id > last {
            replay := replay + [history[i]];
          }
          assert history[..i + 1][..i] == history[..i];
        }
        assert history[..|history|] == history;
      }
      if capacity > 0 {
        AboveReplayedOrResyncIff(published, history, next, capacity, last);
      }
    }

    method Unsubscribe(id: nat)
      requires Valid()
      modifies this`subscribers
      ensures Valid() && subscribers == old(subscribers) - {id}
    {
      subscribers := subscribers - {id};
    }
  }
}
