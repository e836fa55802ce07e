/** The order of strings by their characters, first difference first. */
module Ordering {

  predicate Before(a: string, b: string) {
    if b == [] then false
    else if a == [] then true
    else if a[0] != b[0] then a[0] < b[0]
    else Before(a[1..], b[1..])
  }

  lemma {:induction false} BeforeIsTotal(a: string, b: string)
    ensures a == b || Before(a, b) || Before(b, a)
  {
    if a != [] && b != [] && a[0] == b[0] {
      BeforeIsTotal(a[1..], b[1..]);
      assert a == [a[0]] + a[1..] && b == [b[0]] + b[1..];
    }
  }

  lemma {:induction false} BeforeIsTransitive(a: string, b: string, c: string)
    requires Before(a, b) && Before(b, c)
    ensures Before(a, c)
  {
    if a != [] && a[0] == b[0] && b[0] == c[0] {
      BeforeIsTransitive(a[1..], b[1..], c[1..]);
    }
  }

  lemma {:induction false} BeforeIsStrict(a: string)
    ensures !Before(a, a)
  {
    if a != [] {
      BeforeIsStrict(a[1..]);
    }
  }

  /** The strings agree before place `k`; there `a` ends and `b` goes on, or `a` has the lesser character. */
  predicate LessAt(a: string, b: string, k: nat) {
    && k <= |a| && k < |b| && a[..k] == b[..k]
    && (k < |a| ==> a[k] < b[k])
  }

  lemma FirstAgrees(a: string, b: string, k: nat)
    requires LessAt(a, b, k)
    ensures k == 0 || (a != [] && a[0] == b[0])
  {
    if k > 0 {
      assert a[..k][0] == a[0] && b[..k][0] == b[0];
    }
  }

  lemma LessShifted(a: string, b: string, k: nat)
    requires a != [] && b != [] && a[0] == b[0]
    ensures LessAt(a, b, k + 1) <==> LessAt(a[1..], b[1..], k)
    ensures !LessAt(a, b, 0)
  {
    if k + 1 <= |a| && k + 1 <= |b| {
      assert a[..k + 1] == [a[0]] + a[1..][..k] && b[..k + 1] == [b[0]] + b[1..][..k];
      assert a[..k + 1][1..] == a[1..][..k] && b[..k + 1][1..] == b[1..][..k];
    }
  }

  /** One string comes before another exactly if it is a proper prefix of it, or has the lesser
      character at the first place where they differ. */
  lemma {:induction false} BeforeIff(a: string, b: string)
    ensures Before(a, b) <==> exists k: nat :: LessAt(a, b, k)
  {
    if a == [] || b == [] || a[0] != b[0] {
      if Before(a, b) {
        assert LessAt(a, b, 0);
      }
      forall k: nat | LessAt(a, b, k)
        ensures Before(a, b)
      {
        FirstAgrees(a, b, k);
      }
    } else {
      BeforeIff(a[1..], b[1..]);
      if Before(a, b) {
        var k: nat :| LessAt(a[1..], b[1..], k);
        LessShifted(a, b, k);
      }
      forall k: nat | LessAt(a, b, k)
        ensures Before(a, b)
      {
        LessShifted(a, b, if k == 0 then 0 else k - 1);
      }
    }
  }
}
