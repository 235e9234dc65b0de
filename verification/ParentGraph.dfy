/**
 Directed graphs of category names, and the ancestor relation they induce.

 A graph maps each category to the set of categories it links to.  Read with
 parent links, `Above(g, x, a)` says that `a` is an ancestor of `x`; read with
 child links it says that `a` is a descendant of `x`.
 */
module ParentGraph {

  type Name = string
  type Graph = map<Name, set<Name>>

  function Links(g: Graph, x: Name): set<Name> {
    if x in g then g[x] else {}
  }

  /** Every link leads to a category of the graph. */
  ghost predicate Closed(g: Graph) {
    forall x, p :: x in g && p in g[x] ==> p in g
  }

  /** A chain of exactly `n` links leads from `x` to `a`. */
  ghost predicate Chain(g: Graph, x: Name, a: Name, n: nat)
    decreases n
  {
    if n == 0 then x == a else exists p :: p in Links(g, x) && Chain(g, p, a, n - 1)
  }

  /** `a` can be reached from `x` by one or more links. */
  ghost predicate Above(g: Graph, x: Name, a: Name) {
    exists n: nat :: n >= 1 && Chain(g, x, a, n)
  }

  ghost predicate AboveOrSelf(g: Graph, x: Name, a: Name) {
    x == a || Above(g, x, a)
  }

  ghost predicate Acyclic(g: Graph) {
    forall x :: !Above(g, x, x)
  }

  /** Everything reachable from `x`: its ancestors when links are parent links. */
  ghost function Reach(g: Graph, x: Name): set<Name> {
    set a | a in g && Above(g, x, a)
  }

  /** Everything that reaches `a`: its descendants when links are parent links. */
  ghost function ReachedBy(g: Graph, a: Name): set<Name> {
    set x | x in g && Above(g, x, a)
  }

  /** The same graph with all links turned round. */
  ghost function Reverse(g: Graph): (r: Graph)
    ensures r.Keys == g.Keys
  {
    map x | x in g :: set y | y in g && x in g[y]
  }

  // ---------------------------------------------------------------- chains

  lemma {:induction false} ChainConcat(g: Graph, x: Name, y: Name, z: Name, m: nat, n: nat)
    requires Chain(g, x, y, m) && Chain(g, y, z, n)
    ensures Chain(g, x, z, m + n)
    decreases m
  {
    if m > 0 {
      var p :| p in Links(g, x) && Chain(g, p, y, m - 1);
      ChainConcat(g, p, y, z, m - 1, n);
    }
  }

  lemma AboveTransitive(g: Graph, x: Name, y: Name, z: Name)
    requires AboveOrSelf(g, x, y) && AboveOrSelf(g, y, z)
    ensures AboveOrSelf(g, x, z)
    ensures Above(g, x, y) || Above(g, y, z) ==> Above(g, x, z)
  {
    if Above(g, x, y) && Above(g, y, z) {
      var m: nat :| m >= 1 && Chain(g, x, y, m);
      var n: nat :| n >= 1 && Chain(g, y, z, n);
      ChainConcat(g, x, y, z, m, n);
    }
  }

  lemma AboveLink(g: Graph, x: Name, p: Name)
    requires p in Links(g, x)
    ensures Above(g, x, p)
  {
    assert Chain(g, p, p, 0);
    assert Chain(g, x, p, 1);
  }

  /** A first link, then the rest of the way. */
  lemma AboveFirstLink(g: Graph, x: Name, a: Name) returns (p: Name)
    requires Above(g, x, a)
    ensures p in Links(g, x) && AboveOrSelf(g, p, a)
  {
    var n: nat :| n >= 1 && Chain(g, x, a, n);
    p :| p in Links(g, x) && Chain(g, p, a, n - 1);
  }

  lemma {:induction false} ChainStaysInside(g: Graph, x: Name, a: Name, n: nat)
    requires Closed(g) && n >= 1 && Chain(g, x, a, n)
    ensures x in g && a in g
    decreases n
  {
    var p :| p in Links(g, x) && Chain(g, p, a, n - 1);
    if n > 1 {
      ChainStaysInside(g, p, a, n - 1);
    }
  }

  lemma AboveStaysInside(g: Graph, x: Name, a: Name)
    requires Closed(g) && Above(g, x, a)
    ensures x in g && a in g
  {
    var n: nat :| n >= 1 && Chain(g, x, a, n);
    ChainStaysInside(g, x, a, n);
  }

  // -------------------------------------------------------------- reversal

  lemma {:induction false} ChainReversed(g: Graph, x: Name, a: Name, n: nat)
    requires Closed(g) && Chain(g, x, a, n)
    ensures Chain(Reverse(g), a, x, n)
    decreases n
  {
    if n > 0 {
      var p :| p in Links(g, x) && Chain(g, p, a, n - 1);
      ChainReversed(g, p, a, n - 1);
      var r := Reverse(g);
      assert x in Links(r, p);
      assert Chain(r, x, x, 0);
      assert Chain(r, p, x, 1);
      ChainConcat(r, a, p, x, n - 1, 1);
    }
  }

  lemma ReverseTwice(g: Graph)
    requires Closed(g)
    ensures Closed(Reverse(g)) && Reverse(Reverse(g)) == g
  {
    var r := Reverse(Reverse(g));
    forall x | x in g
      ensures r[x] == g[x]
    {
      assert forall y :: y in r[x] <==> y in g[x];
    }
  }

  lemma AboveReversed(g: Graph, x: Name, a: Name)
    requires Closed(g)
    ensures Above(g, x, a) <==> Above(Reverse(g), a, x)
  {
    ReverseTwice(g);
    if Above(g, x, a) {
      var n: nat :| n >= 1 && Chain(g, x, a, n);
      ChainReversed(g, x, a, n);
    }
    if Above(Reverse(g), a, x) {
      var n: nat :| n >= 1 && Chain(Reverse(g), a, x, n);
      ChainReversed(Reverse(g), a, x, n);
    }
  }

  /** Reachability along reversed links is reachability seen from the other end. */
  lemma ReverseReach(g: Graph, x: Name)
    requires Closed(g)
    ensures Reach(Reverse(g), x) == ReachedBy(g, x)
    ensures Acyclic(g) ==> Acyclic(Reverse(g))
  {
    forall y, z
      ensures Above(g, y, z) <==> Above(Reverse(g), z, y)
    {
      AboveReversed(g, y, z);
    }
  }

  // ----------------------------------------------------- comparing graphs

  /** Every link of `g` is a link of `h`. */
  ghost predicate Subgraph(g: Graph, h: Graph) {
    forall x, p :: p in Links(g, x) ==> p in Links(h, x)
  }

  lemma {:induction false} ChainMonotone(g: Graph, h: Graph, x: Name, a: Name, n: nat)
    requires Subgraph(g, h) && Chain(g, x, a, n)
    ensures Chain(h, x, a, n)
    decreases n
  {
    if n > 0 {
      var p :| p in Links(g, x) && Chain(g, p, a, n - 1);
      ChainMonotone(g, h, p, a, n - 1);
      assert p in Links(h, x);
    }
  }

  lemma AboveMonotone(g: Graph, h: Graph, x: Name, a: Name)
    requires Subgraph(g, h) && Above(g, x, a)
    ensures Above(h, x, a)
  {
    var n: nat :| n >= 1 && Chain(g, x, a, n);
    ChainMonotone(g, h, x, a, n);
  }

  lemma SubgraphAcyclic(g: Graph, h: Graph)
    requires Subgraph(g, h) && Acyclic(h)
    ensures Acyclic(g)
  {
    forall x
      ensures !Above(g, x, x)
    {
      if Above(g, x, x) {
        AboveMonotone(g, h, x, x);
      }
    }
  }

  /** Graphs that agree on `x` and on everything its links lead to reach the same places. */
  lemma {:induction false} ChainAgree(g: Graph, h: Graph, inside: set<Name>, x: Name, a: Name, n: nat)
    requires x in inside && Chain(g, x, a, n)
    requires forall y :: y in inside ==> Links(g, y) == Links(h, y) && Links(g, y) <= inside
    ensures Chain(h, x, a, n)
    decreases n
  {
    if n > 0 {
      var p :| p in Links(g, x) && Chain(g, p, a, n - 1);
      ChainAgree(g, h, inside, p, a, n - 1);
      assert p in Links(h, x);
    }
  }

  lemma AboveAgree(g: Graph, h: Graph, inside: set<Name>, x: Name, a: Name)
    requires x in inside
    requires forall y :: y in inside ==> Links(g, y) == Links(h, y) && Links(g, y) <= inside
    ensures Above(g, x, a) <==> Above(h, x, a)
  {
    if Above(g, x, a) {
      var n: nat :| n >= 1 && Chain(g, x, a, n);
      ChainAgree(g, h, inside, x, a, n);
    }
    if Above(h, x, a) {
      var n: nat :| n >= 1 && Chain(h, x, a, n);
      ChainAgree(h, g, inside, x, a, n);
    }
  }

  // ------------------------------------------------------- adding a link

  ghost predicate AddsLink(g: Graph, h: Graph, c: Name, p: Name) {
    && Subgraph(g, h)
    && p in Links(h, c)
    && forall x, y :: y in Links(h, x) ==> y in Links(g, x) || (x == c && y == p)
  }

  lemma {:induction false} ChainAddLink(g: Graph, h: Graph, c: Name, p: Name, x: Name, a: Name, n: nat)
    requires AddsLink(g, h, c, p) && n >= 1 && Chain(h, x, a, n)
    ensures Above(g, x, a) || (AboveOrSelf(g, x, c) && AboveOrSelf(g, p, a))
    decreases n
  {
    var y :| y in Links(h, x) && Chain(h, y, a, n - 1);
    if n > 1 {
      ChainAddLink(g, h, c, p, y, a, n - 1);
    }
    if y in Links(g, x) {
      AboveLink(g, x, y);
      if AboveOrSelf(g, y, a) {
        AboveTransitive(g, x, y, a);
      } else {
        AboveTransitive(g, x, y, c);
      }
    }
  }

  /** How one more link from `c` to `p` changes reachability. */
  lemma AboveAddLink(g: Graph, h: Graph, c: Name, p: Name, x: Name, a: Name)
    requires AddsLink(g, h, c, p)
    ensures Above(h, x, a) <==> Above(g, x, a) || (AboveOrSelf(g, x, c) && AboveOrSelf(g, p, a))
  {
    if Above(h, x, a) {
      var n: nat :| n >= 1 && Chain(h, x, a, n);
      ChainAddLink(g, h, c, p, x, a, n);
    }
    if Above(g, x, a) {
      AboveMonotone(g, h, x, a);
    }
    if AboveOrSelf(g, x, c) && AboveOrSelf(g, p, a) {
      if Above(g, x, c) {
        AboveMonotone(g, h, x, c);
      }
      if Above(g, p, a) {
        AboveMonotone(g, h, p, a);
      }
      AboveLink(h, c, p);
      AboveTransitive(h, x, c, p);
      AboveTransitive(h, x, p, a);
    }
  }

  /** The new link closes a loop exactly when `c` could already be reached from `p`. */
  lemma AddLinkAcyclic(g: Graph, h: Graph, c: Name, p: Name)
    requires AddsLink(g, h, c, p) && Acyclic(g)
    ensures Acyclic(h) <==> !AboveOrSelf(g, p, c)
  {
    if !AboveOrSelf(g, p, c) {
      forall x
        ensures !Above(h, x, x)
      {
        AboveAddLink(g, h, c, p, x, x);
        if AboveOrSelf(g, x, c) && AboveOrSelf(g, p, x) {
          AboveTransitive(g, p, x, c);
        }
      }
    } else {
      AboveAddLink(g, h, c, p, c, c);
    }
  }

  // --------------------------------------------------- removing a category

  ghost function Without(g: Graph, c: Name): Graph {
    map x | x in g && x != c :: g[x] - {c}
  }

  lemma {:induction false} ChainWithout(g: Graph, c: Name, x: Name, a: Name, n: nat)
    requires x != c && Chain(g, x, a, n)
    requires !Above(g, x, c) || !AboveOrSelf(g, c, a)
    ensures Chain(Without(g, c), x, a, n)
    decreases n
  {
    if n > 0 {
      var p :| p in Links(g, x) && Chain(g, p, a, n - 1);
      AboveLink(g, x, p);
      assert AboveOrSelf(g, p, a);
      if Above(g, p, c) {
        AboveTransitive(g, x, p, c);
      }
      ChainWithout(g, c, p, a, n - 1);
      assert p in Links(Without(g, c), x);
    }
  }

  /** Removing `c` only affects pairs with `c` between them. */
  lemma AboveWithout(g: Graph, c: Name, x: Name, a: Name)
    ensures Above(Without(g, c), x, a) ==> Above(g, x, a)
    ensures x != c && (!Above(g, x, c) || !AboveOrSelf(g, c, a)) ==>
              (Above(g, x, a) <==> Above(Without(g, c), x, a))
  {
    if Above(Without(g, c), x, a) {
      AboveMonotone(Without(g, c), g, x, a);
    }
    if x != c && (!Above(g, x, c) || !AboveOrSelf(g, c, a)) && Above(g, x, a) {
      var n: nat :| n >= 1 && Chain(g, x, a, n);
      ChainWithout(g, c, x, a, n);
    }
  }

  // ---------------------------------------------------------------- weights

  /** Sum of the weights of a set of categories. */
  ghost function Sum(w: map<Name, nat>, s: set<Name>): nat
    requires s <= w.Keys
  {
    if s == {} then 0 else
      var x :| x in s;
      w[x] + Sum(w, s - {x})
  }

  lemma {:induction false} SumRemove(w: map<Name, nat>, s: set<Name>, x: Name)
    requires s <= w.Keys && x in s
    ensures Sum(w, s) == w[x] + Sum(w, s - {x})
    decreases s
  {
    var y :| y in s && Sum(w, s) == w[y] + Sum(w, s - {y});
    if y != x {
      SumRemove(w, s - {y}, x);
      SumRemove(w, s - {x}, y);
      assert s - {y} - {x} == s - {x} - {y};
    }
  }

  lemma {:induction false} SumUnion(w: map<Name, nat>, s: set<Name>, t: set<Name>)
    requires s <= w.Keys && t <= w.Keys
    ensures Sum(w, s + t) <= Sum(w, s) + Sum(w, t)
    decreases t
  {
    if t == {} {
      assert s + t == s;
    } else {
      var x :| x in t;
      SumUnion(w, s, t - {x});
      SumRemove(w, t, x);
      if x in s + (t - {x}) {
        assert s + t == s + (t - {x});
      } else {
        SumRemove(w, s + t, x);
        assert s + t - {x} == s + (t - {x});
      }
    }
  }

  lemma {:induction false} SumSame(w: map<Name, nat>, v: map<Name, nat>, s: set<Name>)
    requires s <= w.Keys && s <= v.Keys
    requires forall x :: x in s ==> w[x] == v[x]
    ensures Sum(w, s) == Sum(v, s)
    decreases s
  {
    if s != {} {
      var x :| x in s;
      SumRemove(w, s, x);
      SumRemove(v, s, x);
      SumSame(w, v, s - {x});
    }
  }

  /** Each category weighs one more than everything it links to: the number of
      chains that start there. */
  ghost predicate Weighting(g: Graph, w: map<Name, nat>) {
    && Closed(g) && w.Keys == g.Keys
    && forall x :: x in g ==> w[x] == 1 + Sum(w, g[x])
  }

  /** In an acyclic graph the links of `x` reach strictly less than `x` does. */
  lemma ReachShrinks(g: Graph, x: Name, p: Name)
    requires Closed(g) && Acyclic(g) && x in g && p in g[x]
    ensures |Reach(g, p)| < |Reach(g, x)|
  {
    AboveLink(g, x, p);
    forall a | a in Reach(g, p)
      ensures a in Reach(g, x)
    {
      AboveTransitive(g, x, p, a);
    }
    assert Reach(g, p) < Reach(g, x) by {
      assert p in Reach(g, x) && p !in Reach(g, p);
    }
    SubsetSmaller(Reach(g, p), Reach(g, x));
  }

  lemma {:induction false} SubsetSmaller<T>(s: set<T>, t: set<T>)
    requires s < t
    ensures |s| < |t|
  {
    var x :| x in t && x !in s;
    assert s <= t - {x};
    SubsetNotLarger(s, t - {x});
  }

  lemma {:induction false} SubsetNotLarger<T>(s: set<T>, t: set<T>)
    requires s <= t
    ensures |s| <= |t|
  {
    if s != {} {
      var x :| x in s;
      SubsetNotLarger(s - {x}, t - {x});
    }
  }

  /** Every finite acyclic graph can be weighed. */
  lemma WeightingExists(g: Graph) returns (w: map<Name, nat>)
    requires Closed(g) && Acyclic(g)
    ensures Weighting(g, w)
  {
    w := WeighBelow(g, |g|, g.Keys);
  }

  /** Weighs a set of categories that is closed under links, largest reach last. */
  lemma {:induction false} WeighBelow(g: Graph, size: nat, s: set<Name>) returns (w: map<Name, nat>)
    requires Closed(g) && Acyclic(g) && s <= g.Keys && |s| == size
    requires forall x, p :: x in s && p in g[x] ==> p in s
    ensures w.Keys == s
    ensures forall x :: x in s ==> g[x] <= s && w[x] == 1 + Sum(w, g[x])
    decreases size
  {
    if s == {} {
      w := map[];
    } else {
      var top := LargestReach(g, s);
      var rest := s - {top};
      forall x, p | x in rest && p in g[x]
        ensures p in rest
      {
        ReachShrinks(g, x, p);
      }
      var v := WeighBelow(g, size - 1, rest);
      forall p | p in g[top]
        ensures p in rest
      {
        ReachShrinks(g, top, p);
      }
      w := v[top := 1 + Sum(v, g[top])];
      forall x | x in s
        ensures g[x] <= s && w[x] == 1 + Sum(w, g[x])
      {
        SumSame(v, w, g[x]);
      }
    }
  }

  lemma {:induction false} LargestReach(g: Graph, s: set<Name>) returns (top: Name)
    requires s != {}
    ensures top in s && forall x :: x in s ==> |Reach(g, x)| <= |Reach(g, top)|
    decreases |s|
  {
    var y :| y in s;
    if s == {y} {
      top := y;
    } else {
      var t := LargestReach(g, s - {y});
      top := if |Reach(g, y)| <= |Reach(g, t)| then t else y;
      assert forall x :: x in s ==> x == y || x in s - {y};
    }
  }
}
