/** Lexicographic order on sequences of codes: how byte strings compare. */
module Lexicographic {

  type byte = x: int | 0 <= x < 256

  type Bytes = seq<byte>

  predicate Precedes(a: seq<int>, b: seq<int>)
    decreases |a|
  {
    if b == [] then false
    else if a == [] then true
    else a[0] < b[0] || (a[0] == b[0] && Precedes(a[1..], b[1..]))
  }

  predicate StartsWith(t: seq<int>, p: seq<int>) {
    |p| <= |t| && t[..|p|] == p
  }

  /** The first difference decides; where there is none, the shorter one comes first. */
  lemma {:induction false} PrecedesMeans(a: seq<int>, b: seq<int>)
    ensures Precedes(a, b) <==>
              exists k: nat :: k <= |a| && k < |b| && a[..k] == b[..k] && (k == |a| || a[k] < b[k])
    decreases |a|
  {
    forall k: nat | 0 < k <= |a| && k <= |b| && a[..k] == b[..k]
      ensures a[0] == b[0]
    {
      assert a[..k][0] == b[..k][0];
    }
    if a == [] || b == [] || a[0] != b[0] {
      assert a[..0] == b[..0];
    } else {
      PrecedesMeans(a[1..], b[1..]);
      if k: nat :| k <= |a[1..]| && k < |b[1..]| && a[1..][..k] == b[1..][..k]
                   && (k == |a[1..]| || a[1..][k] < b[1..][k]) {
        assert a[..k + 1] == [a[0]] + a[1..][..k] && b[..k + 1] == [b[0]] + b[1..][..k];
      }
      if k: nat :| k <= |a| && k < |b| && a[..k] == b[..k] && (k == |a| || a[k] < b[k]) {
        assert a[1..][..k - 1] == a[..k][1..] && b[1..][..k - 1] == b[..k][1..];
      }
    }
  }

  lemma {:induction false} PrecedesIrreflexive(a: seq<int>)
    ensures !Precedes(a, a)
    decreases |a|
  {
    if a != [] {
      PrecedesIrreflexive(a[1..]);
    }
  }

  lemma {:induction false} PrecedesTotal(a: seq<int>, b: seq<int>)
    ensures a == b || Precedes(a, b) || Precedes(b, a)
    decreases |a|
  {
    if a != [] && b != [] {
      PrecedesTotal(a[1..], b[1..]);
      assert a == [a[0]] + a[1..] && b == [b[0]] + b[1..];
    }
  }

  lemma {:induction false} PrecedesTransitive(a: seq<int>, b: seq<int>, c: seq<int>)
    requires Precedes(a, b) && Precedes(b, c)
    ensures Precedes(a, c)
    decreases |a|
  {
    if a != [] && a[0] == b[0] && b[0] == c[0] {
      PrecedesTransitive(a[1..], b[1..], c[1..]);
    }
  }

  lemma PrecedesAsymmetric(a: seq<int>, b: seq<int>)
    requires Precedes(a, b)
    ensures a != b && !Precedes(b, a)
  {
    PrecedesIrreflexive(a);
    if Precedes(b, a) {
      PrecedesTransitive(a, b, a);
    }
  }

  /** A common beginning does not affect the order. */
  lemma {:induction false} PrecedesAfterPrefix(p: seq<int>, a: seq<int>, b: seq<int>)
    ensures Precedes(p + a, p + b) <==> Precedes(a, b)
    decreases |p|
  {
    if p == [] {
      assert p + a == a && p + b == b;
    } else {
      PrecedesAfterPrefix(p[1..], a, b);
      assert (p + a)[1..] == p[1..] + a && (p + b)[1..] == p[1..] + b;
    }
  }

  /** Once two strings differ at a position both have, what follows does not matter. */
  lemma {:induction false} PrecedesDecided(a: seq<int>, b: seq<int>, x: seq<int>, y: seq<int>)
    requires !StartsWith(a, b) && !StartsWith(b, a)
    ensures Precedes(a + x, b + y) <==> Precedes(a, b)
    decreases |a|
  {
    assert a != [] && b != [];
    assert (a + x)[1..] == a[1..] + x && (b + y)[1..] == b[1..] + y;
    if a[0] == b[0] {
      assert a == [a[0]] + a[1..] && b == [b[0]] + b[1..];
      PrecedesDecided(a[1..], b[1..], x, y);
    }
  }

  /** Strings that begin with `p` stand together: nothing else sorts between `p` and one of them. */
  lemma {:induction false} PrefixRun(p: seq<int>, t: seq<int>, u: seq<int>)
    requires !Precedes(t, p) && (t == u || Precedes(t, u)) && StartsWith(u, p)
    ensures StartsWith(t, p)
    decreases |p|
  {
    if p != [] && t != u {
      assert u[0] == p[0];
      assert t != [] && t[0] == p[0];
      assert u[..|p|][1..] == u[1..][..|p| - 1];
      PrefixRun(p[1..], t[1..], u[1..]);
      assert t[..|p|] == [t[0]] + t[1..][..|p| - 1];
      assert p == [p[0]] + p[1..];
    }
  }

  lemma PrefixNotBelow(p: seq<int>, t: seq<int>)
    requires StartsWith(t, p)
    ensures !Precedes(t, p)
  {
    if Precedes(t, p) {
      assert t == p + t[|p|..];
      assert p == p + [];
      PrecedesAfterPrefix(p, t[|p|..], []);
    }
  }
}
