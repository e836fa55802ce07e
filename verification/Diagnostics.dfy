/** The latest diagnostic of each point, listed in an order that depends on nothing but the keys. */
module Diagnostics {
  import opened Ordering
  import opened Prelude
  import opened Store

  datatype Diagnostic = Diagnostic(code: string, pointKey: PointKey, acceptedValue: real, selectedMode: string)

  type Table = map<PointKey, Diagnostic>

  // ---- What a run of records leaves ----

  /** The last diagnostic recorded for a key. */
  function LastFor(log: seq<Diagnostic>, key: PointKey): (r: Option<Diagnostic>)
    ensures r.Some? ==> r.value in log && r.value.pointKey == key
    ensures r.None? <==> forall d :: d in log ==> d.pointKey != key
  {
    if log == [] then None
    else if log[|log| - 1].pointKey == key then Some(log[|log| - 1])
    else LastFor(log[..|log| - 1], key)
  }

  predicate IsLast(log: seq<Diagnostic>, d: Diagnostic) {
    LastFor(log, d.pointKey) == Some(d)
  }

  ghost predicate Holds(table: Table, log: seq<Diagnostic>) {
    forall key: PointKey :: LastFor(log, key) == if key in table then Some(table[key]) else None
  }

  // ---- The listing ----

  predicate KeyBefore(a: PointKey, b: PointKey) {
    if a.device != b.device then Before(a.device, b.device) else Before(a.slug, b.slug)
  }

  lemma KeysAreTotal(a: PointKey, b: PointKey)
    ensures a == b || KeyBefore(a, b) || KeyBefore(b, a)
  {
    BeforeIsTotal(a.device, b.device);
    BeforeIsTotal(a.slug, b.slug);
  }

  lemma KeysAreTransitive(a: PointKey, b: PointKey, c: PointKey)
    requires KeyBefore(a, b) && KeyBefore(b, c)
    ensures KeyBefore(a, c)
  {
    if a.device == b.device == c.device {
      BeforeIsTransitive(a.slug, b.slug, c.slug);
    } else if a.device != b.device && b.device != c.device {
      BeforeIsTransitive(a.device, b.device, c.device);
      BeforeIsStrict(a.device);
    }
  }

  lemma KeysAreStrict(a: PointKey, b: PointKey)
    requires KeyBefore(a, b)
    ensures a != b && !KeyBefore(b, a)
  {
    BeforeIsStrict(a.slug);
    if KeyBefore(b, a) {
      KeysAreTransitive(a, b, a);
    }
  }

  predicate Ascending(r: seq<Diagnostic>) {
    forall i, j :: 0 <= i < j < |r| ==> KeyBefore(r[i].pointKey, r[j].pointKey)
  }

  ghost predicate IsListing(r: seq<Diagnostic>, log: seq<Diagnostic>) {
    Ascending(r) && forall d :: d in r <==> IsLast(log, d)
  }

  lemma {:induction false} AscendingIsUnique(r: seq<Diagnostic>, s: seq<Diagnostic>)
    requires Ascending(r) && Ascending(s) && forall d :: d in r <==> d in s
    ensures r == s
  {
    if |r| == 0 {
      EmptyAlike(s, r);
    } else if |s| == 0 {
      EmptyAlike(r, s);
    } else {
      HeadsAgree(r, s);
      TailMembers(r);
      TailMembers(s);
      assert r == [r[0]] + r[1..] && s == [s[0]] + s[1..];
      AscendingIsUnique(r[1..], s[1..]);
    }
  }

  lemma EmptyAlike(r: seq<Diagnostic>, s: seq<Diagnostic>)
    requires |s| == 0 && forall d :: d in r ==> d in s
    ensures |r| == 0
  {
    if |r| > 0 {
      HeadIsMember(r);
      assert false;
    }
  }

  lemma HeadIsMember(r: seq<Diagnostic>)
    requires |r| > 0
    ensures exists d :: d in r
  {
    assert r[0] in r;
  }

  lemma TailMembers(r: seq<Diagnostic>)
    requires Ascending(r) && r != []
    ensures Ascending(r[1..]) && forall d :: d in r[1..] <==> d in r && d != r[0]
  {
    forall d | d in r[1..]
      ensures d != r[0]
    {
      var i :| 1 <= i < |r| && r[i] == d;
      KeysAreStrict(r[0].pointKey, r[i].pointKey);
    }
    assert r == [r[0]] + r[1..];
  }

  lemma HeadsAgree(r: seq<Diagnostic>, s: seq<Diagnostic>)
    requires Ascending(r) && Ascending(s) && r != [] && s != [] && forall d :: d in r <==> d in s
    ensures r[0] == s[0]
  {
    assert s[0] in r && r[0] in s;
    var i :| 0 <= i < |r| && r[i] == s[0];
    var j :| 0 <= j < |s| && s[j] == r[0];
    if i > 0 && j > 0 {
      KeysAreStrict(r[0].pointKey, r[i].pointKey);
    }
  }

  /** A listing goes device by device, and within a device slug by slug, both in string order. */
  lemma ListedByDeviceThenSlug(r: seq<Diagnostic>, log: seq<Diagnostic>, i: nat, j: nat)
    requires IsListing(r, log) && i < j < |r|
    ensures var a, b := r[i].pointKey, r[j].pointKey;
            Before(a.device, b.device) || (a.device == b.device && Before(a.slug, b.slug))
  {
  }

  /** One log has one listing. */
  lemma ListingIsUnique(r: seq<Diagnostic>, s: seq<Diagnostic>, log: seq<Diagnostic>)
    requires IsListing(r, log) && IsListing(s, log)
    ensures r == s
  {
    AscendingIsUnique(r, s);
  }

  // ---- Any iteration order, any sort ----

  ghost predicate Collects(collected: seq<Diagnostic>, log: seq<Diagnostic>) {
    && (forall d :: d in collected <==> IsLast(log, d))
    && forall i, j :: 0 <= i < j < |collected| ==> collected[i] != collected[j]
  }

  /** What a sort by key promises: no later element belongs before an earlier one. */
  predicate NoInversion(r: seq<Diagnostic>) {
    forall i, j :: 0 <= i < j < |r| ==> !KeyBefore(r[j].pointKey, r[i].pointKey)
  }

  lemma {:induction false} OnceEach(r: seq<Diagnostic>, d: Diagnostic)
    requires forall i, j :: 0 <= i < j < |r| ==> r[i] != r[j]
    ensures multiset(r)[d] <= 1
  {
    if r != [] {
      assert r == [r[0]] + r[1..];
      OnceEach(r[1..], d);
      if d == r[0] {
        assert d !in r[1..];
      }
    }
  }

  lemma TwiceCounts(r: seq<Diagnostic>, i: nat, j: nat)
    requires i < j < |r| && r[i] == r[j]
    ensures multiset(r)[r[i]] >= 2
  {
    assert r == r[..j] + r[j..];
    assert r[j..] == [r[j]] + r[j + 1..];
    assert r[i] == r[..j][i];
    assert r[i] in multiset(r[..j]) && r[i] in multiset(r[j..]);
  }

  /** Whatever order the table was walked in, and however the sort treats ties, the outcome is the listing. */
  lemma AnySortIsTheListing(collected: seq<Diagnostic>, sorted: seq<Diagnostic>, log: seq<Diagnostic>)
    requires Collects(collected, log)
    requires multiset(sorted) == multiset(collected) && NoInversion(sorted)
    ensures IsListing(sorted, log)
  {
    assert forall d :: d in sorted <==> d in multiset(sorted);
    assert forall d :: d in collected <==> d in multiset(collected);
    forall i, j | 0 <= i < j < |sorted|
      ensures KeyBefore(sorted[i].pointKey, sorted[j].pointKey)
    {
      assert IsLast(log, sorted[i]) && IsLast(log, sorted[j]);
      if sorted[i].pointKey == sorted[j].pointKey {
        TwiceCounts(sorted, i, j);
        OnceEach(collected, sorted[i]);
      }
      KeysAreTotal(sorted[i].pointKey, sorted[j].pointKey);
    }
  }

  lemma {:induction false} LeastExists(m: multiset<Diagnostic>) returns (least: Diagnostic)
    requires |m| > 0
    ensures least in m && forall d :: d in m ==> !KeyBefore(d.pointKey, least.pointKey)
    decreases |m|
  {
    var x :| x in m;
    var rest := m - multiset{x};
    if |rest| == 0 {
      least := x;
      assert forall d :: d in m ==> d == x by {
        assert forall d :: d in m && d != x ==> d in rest;
      }
    } else {
      least := LeastExists(rest);
      if KeyBefore(x.pointKey, least.pointKey) {
        forall d | d in m && KeyBefore(d.pointKey, x.pointKey)
          ensures false
        {
          KeysAreStrict(d.pointKey, x.pointKey);
          assert d in rest;
          KeysAreTransitive(d.pointKey, x.pointKey, least.pointKey);
        }
        least := x;
      }
    }
    if KeyBefore(least.pointKey, least.pointKey) {
      KeysAreStrict(least.pointKey, least.pointKey);
    }
  }

  /** A stand-in for the library sort, which promises no more than this. */
  method SortDiagnostics(ds: seq<Diagnostic>) returns (r: seq<Diagnostic>)
    ensures multiset(r) == multiset(ds) && NoInversion(r)
  {
    r := [];
    var todo := multiset(ds);
    while |todo| > 0
      invariant multiset(r) + todo == multiset(ds) && NoInversion(r) && NoneBelongsBefore(todo, r)
      decreases |todo|
    {
      ghost var least := LeastExists(todo);
      var d :| d in todo && forall e :: e in todo ==> !KeyBefore(e.pointKey, d.pointKey);
      SortStep(r, todo, d);
      r := r + [d];
      todo := todo - multiset{d};
    }
  }

  ghost predicate NoneBelongsBefore(todo: multiset<Diagnostic>, r: seq<Diagnostic>) {
    forall i, d :: 0 <= i < |r| && d in todo ==> !KeyBefore(d.pointKey, r[i].pointKey)
  }

  lemma SortStep(r: seq<Diagnostic>, todo: multiset<Diagnostic>, d: Diagnostic)
    requires NoInversion(r) && NoneBelongsBefore(todo, r)
    requires d in todo && forall e :: e in todo ==> !KeyBefore(e.pointKey, d.pointKey)
    ensures NoInversion(r + [d]) && NoneBelongsBefore(todo - multiset{d}, r + [d])
  {
  }

  // ---- The command processor's diagnostics ----

  class Processor {
    /** Absent until the first record. */
    var diagnostics: Option<Table>
    ghost var log: seq<Diagnostic>

    function Recorded(): Table
      reads this
    {
      if diagnostics.Some? then diagnostics.value else map[]
    }

    ghost predicate Valid()
      reads this
    {
      Holds(Recorded(), log)
    }

    constructor ()
      ensures Valid() && log == []
    {
      diagnostics := None;
      log := [];
    }

    method RecordDiagnostic(d: Diagnostic)
      requires Valid()
      modifies this
      ensures Valid() && log == old(log) + [d]
      ensures Recorded() == old(Recorded())[d.pointKey := d]
    {
      if diagnostics.None? {
        diagnostics := Some(map[]);
      }
      diagnostics := Some(diagnostics.value[d.pointKey := d]);
      log := log + [d];
      assert log[..|log| - 1] == old(log);
    }

    method DiagnosticFor(key: PointKey) returns (r: Option<Diagnostic>)
      requires Valid()
      ensures r == LastFor(log, key)
    {
      if diagnostics.Some? && key in diagnostics.value {
        r := Some(diagnostics.value[key]);
      } else {
        r := None;
      }
    }

    /** The walk over the table is in no particular order. */
    method Listing() returns (r: seq<Diagnostic>)
      requires Valid()
      ensures IsListing(r, log)
    {
      var out: seq<Diagnostic> := [];
      var table := Recorded();
      var todo := table.Keys;
      while todo != {}
        invariant todo <= table.Keys
        invariant forall d :: d in out <==> d.pointKey in table && d.pointKey !in todo && table[d.pointKey] == d
        invariant forall i, j :: 0 <= i < j < |out| ==> out[i] != out[j]
        decreases todo
      {
        ghost var some := SomeMember(todo);
        var key :| key in todo;
        KeyedByPoint(table, log, key);
        out := out + [table[key]];
        todo := todo - {key};
      }
      assert Collects(out, log) by {
        forall d
          ensures d in out <==> IsLast(log, d)
        {
          assert LastFor(log, d.pointKey) == if d.pointKey in table then Some(table[d.pointKey]) else None;
        }
      }
      r := SortDiagnostics(out);
      AnySortIsTheListing(out, r, log);
    }
  }

  lemma KeyedByPoint(table: Table, log: seq<Diagnostic>, key: PointKey)
    requires Holds(table, log) && key in table
    ensures table[key].pointKey == key
  {
    assert LastFor(log, key) == Some(table[key]);
  }
}
