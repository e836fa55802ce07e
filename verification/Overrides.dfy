/** Applying configured overrides to the built records in place. */
module Overrides {
  import opened Prelude
  import opened Slugs

  type Fields = map<string, string>

  /** A built record. `ref` is the reference it was built under; an override may rewrite any field. */
  class Record {
    const ref: PointRef
    var fields: Fields

    constructor (ref: PointRef, fields: Fields)
      ensures this.ref == ref && this.fields == fields
    {
      this.ref, this.fields := ref, fields;
    }
  }

  datatype Override = Override(ref: PointRef, fields: Fields)

  /** One entry per reference, as in the configuration file. */
  predicate OncePerReference(overrides: seq<Override>) {
    forall i, j :: 0 <= i < j < |overrides| ==> overrides[i].ref != overrides[j].ref
  }

  function RefsOf(records: seq<Record>): (r: seq<PointRef>)
    ensures |r| == |records|
  {
    seq(|records|, i requires 0 <= i < |records| => records[i].ref)
  }

  /** What the overrides set on the record under a reference. */
  function FieldsFor(overrides: seq<Override>, ref: PointRef): Fields {
    if overrides == [] then map[]
    else
      var last := overrides[|overrides| - 1];
      FieldsFor(overrides[..|overrides| - 1], ref) + if last.ref == ref then last.fields else map[]
  }

  predicate Owns(refs: seq<PointRef>, k: nat) {
    k < |refs| && forall j :: k < j < |refs| ==> refs[j] != refs[k]
  }

  /** Whatever their order, the overrides of distinct references do not mix. */
  lemma {:induction false} FieldsForIs(overrides: seq<Override>, i: nat)
    requires OncePerReference(overrides) && i < |overrides|
    ensures FieldsFor(overrides, overrides[i].ref) == overrides[i].fields
  {
    var n := |overrides| - 1;
    if i < n {
      FieldsForIs(overrides[..n], i);
      assert overrides[..n][i] == overrides[i];
    } else {
      FieldsForNone(overrides[..n], overrides[n].ref);
    }
  }

  lemma {:induction false} FieldsForNone(overrides: seq<Override>, ref: PointRef)
    requires forall o :: o in overrides ==> o.ref != ref
    ensures FieldsFor(overrides, ref) == map[]
  {
    if overrides != [] {
      FieldsForNone(overrides[..|overrides| - 1], ref);
    }
  }

  /** What the overrides set on the k-th record: nothing where a later record has its reference. */
  function Due(refs: seq<PointRef>, overrides: seq<Override>, k: nat): Fields
    requires k < |refs|
  {
    if Owns(refs, k) then FieldsFor(overrides, refs[k]) else map[]
  }

  lemma DueSnoc(refs: seq<PointRef>, overrides: seq<Override>, o: Override, i: nat, k: nat)
    requires Owns(refs, i) && refs[i] == o.ref && k < |refs|
    ensures Due(refs, overrides + [o], k) == Due(refs, overrides, k) + if k == i then o.fields else map[]
  {
    assert (overrides + [o])[..|overrides|] == overrides;
    assert Due(refs, overrides, k) + map[] == Due(refs, overrides, k);
  }

  lemma Found(index: map<PointRef, nat>, refs: seq<PointRef>, ref: PointRef)
    requires Indexes(index, refs)
    ensures ref in index <==> ref in refs
    ensures ref in index ==> Owns(refs, index[ref]) && refs[index[ref]] == ref
  {
  }

  lemma NextPrefix(overrides: seq<Override>, i: nat)
    requires i <= |overrides|
    ensures i < |overrides| ==> overrides[..i + 1] == overrides[..i] + [overrides[i]]
    ensures i == |overrides| ==> overrides[..i] == overrides
  {
  }

  function FieldsOf(records: seq<Record>): (r: seq<Fields>)
    reads records
    ensures |r| == |records| && forall k :: 0 <= k < |records| ==> r[k] == records[k].fields
  {
    seq(|records|, k requires 0 <= k < |records| reads records => records[k].fields)
  }

  ghost predicate Overridden(refs: seq<PointRef>, start: seq<Fields>, overrides: seq<Override>, fields: seq<Fields>) {
    && |start| == |fields| == |refs|
    && forall k :: 0 <= k < |refs| ==> fields[k] == start[k] + Due(refs, overrides, k)
  }

  lemma OverriddenNext(refs: seq<PointRef>, start: seq<Fields>, overrides: seq<Override>, fields: seq<Fields>,
                       o: Override, i: nat)
    requires Overridden(refs, start, overrides, fields) && Owns(refs, i) && refs[i] == o.ref
    ensures Overridden(refs, start, overrides + [o], fields[i := fields[i] + o.fields])
  {
    forall k | 0 <= k < |refs|
      ensures fields[i := fields[i] + o.fields][k] == start[k] + Due(refs, overrides + [o], k)
    {
      DueOver(start[k], refs, overrides, o, i, k);
    }
  }

  lemma DueOver(start: Fields, refs: seq<PointRef>, overrides: seq<Override>, o: Override, i: nat, k: nat)
    requires Owns(refs, i) && refs[i] == o.ref && k < |refs|
    ensures k == i ==> start + Due(refs, overrides + [o], k) == start + Due(refs, overrides, k) + o.fields
    ensures k != i ==> Due(refs, overrides + [o], k) == Due(refs, overrides, k)
  {
    DueSnoc(refs, overrides, o, i, k);
    OverlayTwice(start, Due(refs, overrides, k), o.fields);
    assert Due(refs, overrides, k) + map[] == Due(refs, overrides, k);
  }

  lemma OverlayTwice(start: Fields, first: Fields, second: Fields)
    ensures start + (first + second) == start + first + second
  {
  }

  /** The record found through the index is the one in the list. */
  method Update(rec: Record, o: Override, ghost records: seq<Record>, ghost i: nat)
    requires forall i, j :: 0 <= i < j < |records| ==> records[i] != records[j]
    requires i < |records| && records[i] == rec
    modifies rec
    ensures FieldsOf(records) == old(FieldsOf(records))[i := old(rec.fields) + o.fields]
  {
    rec.fields := rec.fields + o.fields;
  }

  predicate AllKnown(refs: seq<PointRef>, overrides: seq<Override>) {
    forall i :: 0 <= i < |overrides| ==> overrides[i].ref in refs
  }

  lemma AllKnownNext(refs: seq<PointRef>, overrides: seq<Override>, i: nat)
    requires i < |overrides| && AllKnown(refs, overrides[..i])
    ensures AllKnown(refs, overrides[..i + 1]) <==> overrides[i].ref in refs
    ensures overrides[i].ref !in refs ==> !AllKnown(refs, overrides)
  {
    var longer := overrides[..i + 1];
    assert longer == overrides[..i] + [overrides[i]];
    assert longer[i].ref == overrides[i].ref;
  }

  lemma NothingYet(records: seq<Record>)
    ensures Overridden(RefsOf(records), FieldsOf(records), [], FieldsOf(records))
  {
    forall k | 0 <= k < |records|
      ensures Due(RefsOf(records), [], k) == map[]
    {
    }
  }

  /** Fails exactly for a reference no record was built under, the first such; else each record takes its own
      overrides, through the index, and every other record stays as it was. */
  method ApplyOverrides(records: seq<Record>, overrides: seq<Override>) returns (r: Result<(), PointRef>)
    requires forall i, j :: 0 <= i < j < |records| ==> records[i] != records[j]
    modifies records
    ensures r.Success? <==> AllKnown(RefsOf(records), overrides)
    ensures r.Failure? ==> r.error !in RefsOf(records)
                           && exists i :: 0 <= i < |overrides| && overrides[i].ref == r.error
                                          && AllKnown(RefsOf(records), overrides[..i])
    ensures r.Success? ==> Overridden(RefsOf(records), old(FieldsOf(records)), overrides, FieldsOf(records))
  {
    var index := IndexRecords(RefsOf(records));
    ghost var start := FieldsOf(records);
    NothingYet(records);
    for i := 0 to |overrides|
      invariant AllKnown(RefsOf(records), overrides[..i])
      invariant Overridden(RefsOf(records), start, overrides[..i], FieldsOf(records))
    {
      var o := overrides[i];
      Found(index, RefsOf(records), o.ref);
      AllKnownNext(RefsOf(records), overrides, i);
      NextPrefix(overrides, i);
      if o.ref !in index {
        return Failure(o.ref);
      }
      OverriddenNext(RefsOf(records), start, overrides[..i], FieldsOf(records), o, index[o.ref]);
      Update(records[index[o.ref]], o, records, index[o.ref]);
    }
    NextPrefix(overrides, |overrides|);
    r := Success(());
  }

  /** Over references that differ, as assigned slugs make them, each configured record ends with
      exactly its own overrides on top, in whatever order they are listed. */
  lemma OverridesDoNotMix(refs: seq<PointRef>, overrides: seq<Override>, k: nat, i: nat)
    requires Distinct(refs) && OncePerReference(overrides) && k < |refs| && i < |overrides|
    requires overrides[i].ref == refs[k]
    ensures Due(refs, overrides, k) == overrides[i].fields
  {
    FieldsForIs(overrides, i);
  }

  /** A configured record has the value its own entry gives for every field named there, and its old
      value for every other; a record without an entry is as it was. */
  lemma FieldsAfterOverrides(refs: seq<PointRef>, start: seq<Fields>, overrides: seq<Override>, after: seq<Fields>, k: nat)
    requires Distinct(refs) && OncePerReference(overrides) && Overridden(refs, start, overrides, after) && k < |refs|
    ensures forall i, name :: 0 <= i < |overrides| && overrides[i].ref == refs[k] && name in overrides[i].fields ==>
              name in after[k] && after[k][name] == overrides[i].fields[name]
    ensures forall i, name :: 0 <= i < |overrides| && overrides[i].ref == refs[k] && name !in overrides[i].fields ==>
              (name in after[k] <==> name in start[k]) && (name in start[k] ==> after[k][name] == start[k][name])
    ensures (forall i :: 0 <= i < |overrides| ==> overrides[i].ref != refs[k]) ==> after[k] == start[k]
  {
    forall i | 0 <= i < |overrides| && overrides[i].ref == refs[k]
      ensures after[k] == start[k] + overrides[i].fields
    {
      OverridesDoNotMix(refs, overrides, k, i);
    }
    if forall i :: 0 <= i < |overrides| ==> overrides[i].ref != refs[k] {
      FieldsForNone(overrides, refs[k]);
      assert start[k] + map[] == start[k];
    }
  }
}
