/** The store's three mutations are mutations of the composed system: one revision further, and the
    batch published is the one the connection queues. */
module StoreMutations {
  import opened Prelude
  import opened Store
  import Feed
  import opened Replication

  /** The store at its present revision, with device codes free of slashes. */
  ghost predicate At(store: PointStore, s: System)
    reads store
  {
    && s.history != [] && Current(s) == store.rev && s.history[Current(s)] == store.values
    && ProperValues(store.values)
    && forall k :: k in store.readbackOf ==> Proper(store.readbackOf[k])
  }

  /** The batch moves the store one revision on from `s`. */
  lemma BatchIsMutation(s: System, b: Batch, after: Values)
    requires s.history != [] && ProperValues(s.history[Current(s)]) && ProperValues(after)
    requires after == s.history[Current(s)] + Overlay(b.changes) && b.revision == Current(s) + 1
    ensures Enabled(s, Mutate(b.changes))
    ensures var t := Next(s, Mutate(b.changes));
            && t.history == s.history + [after] && Current(t) == b.revision
            && (s.feed.Some? ==> t.feed == Some(Feed.Publish(s.feed.value, b)))
  {
    OverlayKeys(b.changes);
    forall c | c in b.changes
      ensures Proper(c.key)
    {
      assert c.key in Overlay(b.changes) && c.key in after;
    }
  }

  method SetIsMutation(store: PointStore, key: PointKey, value: real, ghost s: System)
    returns (published: Option<Batch>, ghost t: System)
    requires At(store, s)
    modifies store
    ensures At(store, t)
    ensures published.None? ==> t == s
    ensures published.Some? ==>
              Enabled(s, Mutate(published.value.changes)) && t == Next(s, Mutate(published.value.changes))
    ensures published.Some? && s.feed.Some? ==> t.feed == Some(Feed.Publish(s.feed.value, published.value))
  {
    published := store.Set(key, value);
    t := s;
    if published.Some? {
      ProperOverlay(s.history[Current(s)], published.value.changes);
      BatchIsMutation(s, published.value, store.values);
      t := Next(s, Mutate(published.value.changes));
    }
  }

  method SetBatchIsMutation(store: PointStore, writes: seq<Change>, ghost s: System)
    returns (published: Option<Batch>, ghost t: System)
    requires At(store, s)
    modifies store
    ensures At(store, t)
    ensures published.None? ==> t == s
    ensures published.Some? ==>
              Enabled(s, Mutate(published.value.changes)) && t == Next(s, Mutate(published.value.changes))
    ensures published.Some? && s.feed.Some? ==> t.feed == Some(Feed.Publish(s.feed.value, published.value))
  {
    published := store.SetBatch(writes);
    t := s;
    if published.Some? {
      BatchKeysProper(store.readbackOf, writes);
      ProperOverlay(s.history[Current(s)], published.value.changes);
      BatchIsMutation(s, published.value, store.values);
      t := Next(s, Mutate(published.value.changes));
    }
  }

  lemma {:induction false} BatchKeysProper(readbackOf: map<PointKey, PointKey>, writes: seq<Change>)
    requires forall w :: w in writes ==> Proper(w.key)
    requires forall k :: k in readbackOf ==> Proper(readbackOf[k])
    ensures forall c :: c in BatchChanges(readbackOf, writes) ==> Proper(c.key)
  {
    if writes != [] {
      BatchKeysProper(readbackOf, writes[..|writes| - 1]);
    }
  }

  method RestoreIsMutation(store: PointStore, snapshot: Values, ghost s: System) returns (published: Batch,
                           ghost t: System)
    requires At(store, s) && ProperValues(snapshot)
    modifies store
    ensures At(store, t)
    ensures Enabled(s, Mutate(published.changes)) && t == Next(s, Mutate(published.changes))
    ensures s.feed.Some? ==> t.feed == Some(Feed.Publish(s.feed.value, published))
  {
    published := store.Restore(snapshot);
    BatchIsMutation(s, published, store.values);
    t := Next(s, Mutate(published.changes));
  }

  // ---- A batch against its writes one by one ----

  function ChangesOf(batches: seq<Batch>): seq<Change> {
    if batches == [] then [] else ChangesOf(batches[..|batches| - 1]) + batches[|batches| - 1].changes
  }

  lemma ChangesSnoc(each: seq<Batch>, b: Batch)
    ensures ChangesOf(each + [b]) == ChangesOf(each) + b.changes
  {
    assert (each + [b])[..|each|] == each;
  }

  /** The writes set one by one. */
  method SetEach(store: PointStore, writes: seq<Change>) returns (each: seq<Batch>)
    requires forall w :: w in writes ==> w.key in store.values
    modifies store
    ensures |each| == |writes| && store.rev == old(store.rev) + |writes|
    ensures store.values == AfterSets(old(store.values), store.readbackOf, writes)
    ensures ChangesOf(each) == BatchChanges(store.readbackOf, writes)
  {
    each := [];
    for i := 0 to |writes|
      invariant |each| == i && store.rev == old(store.rev) + i
      invariant store.values == AfterSets(old(store.values), store.readbackOf, writes[..i])
      invariant old(store.values).Keys <= store.values.Keys
      invariant ChangesOf(each) == BatchChanges(store.readbackOf, writes[..i])
    {
      assert writes[..i + 1][..i] == writes[..i] && writes[i] in writes;
      var one := store.Set(writes[i].key, writes[i].value);
      ChangesSnoc(each, one.value);
      each := each + [one.value];
    }
    assert writes[..|writes|] == writes;
  }

  /** On a store in the same state, the writes set one by one leave the same values and publish the
      same changes, in as many revisions as there are writes where the batch takes one. */
  method SetBatchIsSets(batch: PointStore, single: PointStore, writes: seq<Change>)
    returns (published: Option<Batch>, each: seq<Batch>)
    requires batch != single && batch.values == single.values && batch.readbackOf == single.readbackOf
    requires forall w :: w in writes ==> w.key in batch.values
    modifies batch, single
    ensures published.Some? && |each| == |writes|
    ensures batch.values == single.values && published.value.changes == ChangesOf(each)
    ensures batch.rev == old(batch.rev) + 1 && single.rev == old(single.rev) + |writes|
  {
    published := batch.SetBatch(writes);
    each := SetEach(single, writes);
  }
}
