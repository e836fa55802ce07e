/** Shared vocabulary: optional values and results. */
module Prelude {

  datatype Option<+T> = None | Some(value: T)

  datatype Result<+T, +E> = Success(value: T) | Failure(error: E)

  lemma SomeMember<T>(s: set<T>) returns (x: T)
    requires s != {}
    ensures x in s
  {
    x :| x in s;
  }

  function Mapped<T, U>(f: T -> U, s: seq<T>): (r: seq<U>)
    ensures |r| == |s| && forall i :: 0 <= i < |s| ==> r[i] == f(s[i])
  {
    seq(|s|, i requires 0 <= i < |s| => f(s[i]))
  }

  lemma MappedConcat<T, U>(f: T -> U, a: seq<T>, b: seq<T>)
    ensures Mapped(f, a + b) == Mapped(f, a) + Mapped(f, b)
  {
  }

  lemma TakeOut<T, U>(f: T -> U, s: seq<T>, j: nat)
    requires j < |s|
    ensures multiset(s) == multiset(s[..j] + s[j + 1..]) + multiset{s[j]}
    ensures multiset(Mapped(f, s)) == multiset(Mapped(f, s[..j] + s[j + 1..])) + multiset{f(s[j])}
  {
    assert s == s[..j] + ([s[j]] + s[j + 1..]);
    MappedConcat(f, s[..j], [s[j]] + s[j + 1..]);
    MappedConcat(f, [s[j]], s[j + 1..]);
    MappedConcat(f, s[..j], s[j + 1..]);
    assert Mapped(f, [s[j]]) == [f(s[j])];
  }

  /** Sequences that differ in order only map to sequences that differ in order only. */
  lemma {:induction false} MappedSame<T, U>(f: T -> U, a: seq<T>, b: seq<T>)
    requires multiset(a) == multiset(b)
    ensures multiset(Mapped(f, a)) == multiset(Mapped(f, b))
  {
    if a == [] {
      assert |multiset(b)| == |b|;
    } else {
      var n := |a| - 1;
      assert a[n] in multiset(a) && a[n] in b;
      var j :| 0 <= j < |b| && b[j] == a[n];
      var fewer := b[..j] + b[j + 1..];
      assert a[..n] + a[n + 1..] == a[..n];
      TakeOut(f, a, n);
      TakeOut(f, b, j);
      assert multiset(a[..n]) == multiset(a) - multiset{a[n]};
      assert multiset(fewer) == multiset(b) - multiset{b[j]};
      MappedSame(f, a[..n], fewer);
    }
  }
}
