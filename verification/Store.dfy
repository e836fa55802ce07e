/** The simulator's point store: one revision per mutation, and one change batch that
    carries exactly that mutation. */
module Store {
  import opened Prelude

  datatype PointKey = PointKey(device: string, slug: string)

  type Values = map<PointKey, real>

  datatype Change = Change(key: PointKey, value: real)

  datatype Batch = Batch(revision: nat, changes: seq<Change>)

  /** What a list of changes amounts to when applied in order: the last value per key. */
  function Overlay(changes: seq<Change>): Values {
    if changes == [] then map[]
    else
      var last := changes[|changes| - 1];
      Overlay(changes[..|changes| - 1])[last.key := last.value]
  }

  lemma {:induction false} OverlayAppend(changes: seq<Change>, more: seq<Change>)
    ensures Overlay(changes + more) == Overlay(changes) + Overlay(more)
  {
    if more == [] {
      assert changes + more == changes;
    } else {
      var init := more[..|more| - 1];
      OverlayAppend(changes, init);
      assert (changes + more)[..|changes + more| - 1] == changes + init;
    }
  }

  lemma OverlaySnoc(values: Values, changes: seq<Change>, c: Change)
    ensures values + Overlay(changes + [c]) == (values + Overlay(changes))[c.key := c.value]
  {
    assert (changes + [c])[..|changes|] == changes;
  }

  lemma {:induction false} OverlayKeys(changes: seq<Change>)
    ensures Overlay(changes).Keys == set c | c in changes :: c.key
  {
    if changes != [] {
      var init := changes[..|changes| - 1];
      OverlayKeys(init);
      assert changes == init + [changes[|changes| - 1]];
    }
  }

  /** The changes one write causes: the point itself, then its readback twin. */
  function WriteChanges(readbackOf: map<PointKey, PointKey>, w: Change): seq<Change> {
    if w.key in readbackOf then [w, Change(readbackOf[w.key], w.value)] else [w]
  }

  function BatchChanges(readbackOf: map<PointKey, PointKey>, writes: seq<Change>): seq<Change> {
    if writes == [] then []
    else BatchChanges(readbackOf, writes[..|writes| - 1]) + WriteChanges(readbackOf, writes[|writes| - 1])
  }

  /** One write by plain updates: the point, then its readback twin. */
  function AfterSet(values: Values, readbackOf: map<PointKey, PointKey>, w: Change): Values {
    if w.key in readbackOf then values[w.key := w.value][readbackOf[w.key] := w.value] else values[w.key := w.value]
  }

  /** One write after another. */
  function AfterSets(values: Values, readbackOf: map<PointKey, PointKey>, writes: seq<Change>): Values {
    if writes == [] then values
    else AfterSet(AfterSets(values, readbackOf, writes[..|writes| - 1]), readbackOf, writes[|writes| - 1])
  }

  /** The value of the last write that reaches the point, as its own or as a readback. */
  function LastTo(readbackOf: map<PointKey, PointKey>, writes: seq<Change>, k: PointKey): Option<real> {
    if writes == [] then None
    else
      var w := writes[|writes| - 1];
      if w.key == k || (w.key in readbackOf && readbackOf[w.key] == k) then Some(w.value)
      else LastTo(readbackOf, writes[..|writes| - 1], k)
  }

  /** Every point ends with the last value written to it or mirrored onto it; any other keeps its own. */
  lemma {:induction false} LastWriteStays(values: Values, readbackOf: map<PointKey, PointKey>, writes: seq<Change>,
                                          k: PointKey)
    ensures var after, last := AfterSets(values, readbackOf, writes), LastTo(readbackOf, writes, k);
            && (last.Some? ==> k in after && after[k] == last.value)
            && (last.None? ==> (k in after <==> k in values) && (k in values ==> after[k] == values[k]))
  {
    if writes != [] {
      LastWriteStays(values, readbackOf, writes[..|writes| - 1], k);
    }
  }

  /** The store. A missing readback twin is a key absent from `readbackOf`. */
  class PointStore {
    var values: Values
    var rev: nat
    const readbackOf: map<PointKey, PointKey>

    constructor (initial: Values, readbackOf: map<PointKey, PointKey>)
      ensures values == initial && rev == 0 && this.readbackOf == readbackOf
    {
      this.values := initial;
      this.rev := 0;
      this.readbackOf := readbackOf;
    }

    /** Refused for an unknown key; otherwise the published batch turns the old values into
        the new ones and owns the next revision. */
    method Set(key: PointKey, value: real) returns (published: Option<Batch>)
      modifies this
      ensures published.Some? <==> key in old(values)
      ensures published.None? ==> values == old(values) && rev == old(rev)
      ensures published.Some? ==>
                && rev == old(rev) + 1
                && published.value == Batch(rev, [Change(key, value)]
                                                 + if key in readbackOf then [Change(readbackOf[key], value)] else [])
                && values == old(values) + Overlay(published.value.changes)
                && values == AfterSet(old(values), readbackOf, Change(key, value))
                && values[key] == value
                && (key in readbackOf ==> values[readbackOf[key]] == value)
    {
      if key !in values {
        return None;
      }
      rev := rev + 1;
      values := values[key := value];
      var changed := [Change(key, value)];
      OverlaySnoc(old(values), [], changed[0]);
      if key in readbackOf {
        values := values[readbackOf[key] := value];
        OverlaySnoc(old(values), changed, Change(readbackOf[key], value));
        changed := changed + [Change(readbackOf[key], value)];
      }
      published := Some(Batch(rev, changed));
    }

    /** One assignment inside a batch, remembered in the batch's change list. */
    method Assign(ghost start: Values, changed: seq<Change>, c: Change) returns (longer: seq<Change>)
      requires values == start + Overlay(changed)
      modifies this`values
      ensures longer == changed + [c]
      ensures values == start + Overlay(longer)
      ensures values == old(values)[c.key := c.value]
    {
      OverlaySnoc(start, changed, c);
      values := values[c.key := c.value];
      longer := changed + [c];
    }

    /** One write of a batch, with the readback point it moves. */
    method AssignWrite(ghost start: Values, changed: seq<Change>, w: Change) returns (longer: seq<Change>)
      requires values == start + Overlay(changed)
      modifies this`values
      ensures longer == changed + WriteChanges(readbackOf, w)
      ensures values == start + Overlay(longer)
      ensures values == AfterSet(old(values), readbackOf, w)
    {
      longer := Assign(start, changed, w);
      if w.key in readbackOf {
        longer := Assign(start, longer, Change(readbackOf[w.key], w.value));
      }
    }

    /** All of the batch or none of it: as one write after another, in one revision. */
    method SetBatch(writes: seq<Change>) returns (published: Option<Batch>)
      modifies this
      ensures published.Some? <==> forall w :: w in writes ==> w.key in old(values)
      ensures published.None? ==> values == old(values) && rev == old(rev)
      ensures published.Some? ==>
                && rev == old(rev) + 1
                && published.value == Batch(rev, BatchChanges(readbackOf, writes))
                && values == old(values) + Overlay(published.value.changes)
                && values == AfterSets(old(values), readbackOf, writes)
    {
      for i := 0 to |writes|
        invariant forall j :: 0 <= j < i ==> writes[j].key in values
        invariant values == old(values) && rev == old(rev)
      {
        if writes[i].key !in values {
          return None;
        }
      }
      rev := rev + 1;
      var changed: seq<Change> := [];
      for i := 0 to |writes|
        invariant rev == old(rev) + 1
        invariant changed == BatchChanges(readbackOf, writes[..i])
        invariant values == old(values) + Overlay(changed)
        invariant values == AfterSets(old(values), readbackOf, writes[..i])
      {
        assert writes[..i + 1][..i] == writes[..i];
        changed := AssignWrite(old(values), changed, writes[i]);
      }
      assert writes[..|writes|] == writes;
      published := Some(Batch(rev, changed));
    }

    /** Overwrites every point named in `snapshot`; publishes each point that differs, once, and no
        other, so restoring values already in force still takes a revision and publishes nothing in it. */
    method Restore(snapshot: Values) returns (published: Batch)
      modifies this
      ensures rev == old(rev) + 1 && published.revision == rev
      ensures values == old(values) + snapshot
      ensures values == old(values) + Overlay(published.changes)
      ensures Overlay(published.changes) == Moved(old(values), snapshot)
      ensures forall i, j :: 0 <= i < j < |published.changes| ==> published.changes[i].key != published.changes[j].key
      ensures published.changes == [] <==> old(values) + snapshot == old(values)
    {
      rev := rev + 1;
      var todo := snapshot.Keys;
      var changed: seq<Change> := [];
      while todo != {}
        invariant todo <= snapshot.Keys
        invariant rev == old(rev) + 1
        invariant values == old(values) + Overlay(changed)
        invariant Overlay(changed) == map k | k in Moved(old(values), snapshot) && k !in todo :: snapshot[k]
        invariant forall c :: c in changed ==> c.key in Overlay(changed)
        invariant forall i, j :: 0 <= i < j < |changed| ==> changed[i].key != changed[j].key
        decreases todo
      {
        var k :| k in todo;
        todo := todo - {k};
        if k !in values || values[k] != snapshot[k] {
          changed := MoveOne(old(values), changed, k, snapshot[k]);
        }
      }
      MovedSettles(old(values), snapshot);
      assert Overlay(changed) == Moved(old(values), snapshot);
      published := Batch(rev, changed);
      OverlayKeys(changed);
      assert changed != [] ==> changed[0].key in Overlay(changed);
    }

    /** A point that was not yet moved. */
    method MoveOne(ghost start: Values, changed: seq<Change>, k: PointKey, value: real) returns (longer: seq<Change>)
      requires values == start + Overlay(changed) && k !in Overlay(changed)
      requires forall c :: c in changed ==> c.key in Overlay(changed)
      requires forall i, j :: 0 <= i < j < |changed| ==> changed[i].key != changed[j].key
      modifies this`values
      ensures values == start + Overlay(longer) && Overlay(longer) == Overlay(changed)[k := value]
      ensures forall c :: c in longer ==> c.key in Overlay(longer)
      ensures forall i, j :: 0 <= i < j < |longer| ==> longer[i].key != longer[j].key
    {
      longer := Assign(start, changed, Change(k, value));
      assert longer[..|changed|] == changed;
    }
  }

  /** The points of the snapshot that are missing from the values or differ there. */
  function Moved(values: Values, snapshot: Values): Values {
    map k | k in snapshot && !(k in values && values[k] == snapshot[k]) :: snapshot[k]
  }

  lemma MovedSettles(values: Values, snapshot: Values)
    ensures values + Moved(values, snapshot) == values + snapshot
    ensures Moved(values, snapshot) == map[] <==> values + snapshot == values
  {
    if values + snapshot == values {
      forall k | k in snapshot
        ensures k in values && values[k] == snapshot[k]
      {
        assert (values + snapshot)[k] == snapshot[k];
      }
    }
    if Moved(values, snapshot) == map[] {
      forall k | k in snapshot
        ensures k in values && values[k] == snapshot[k]
      {
        assert k !in Moved(values, snapshot);
      }
    }
  }
}
