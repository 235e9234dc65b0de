/**
 What a taxonomy stores for a given DAG of parent links, and what the set unions
 and recalculations of its edits leave stored.
 */
module TaxonomySpec {
  import opened ParentGraph

  /** A category, with its stored relations. */
  datatype Category = Category(
    name: Name,
    parents: set<Name>,
    children: set<Name>,
    ancestors: set<Name>,
    descendants: set<Name>)
  {
    function AddParent(p: Name): Category {
      this.(parents := parents + {p}, ancestors := ancestors + {p})
    }

    function AddChild(c: Name): Category {
      this.(children := children + {c}, descendants := descendants + {c})
    }

    function AddAncestor(a: Name): Category {
      this.(ancestors := ancestors + {a})
    }

    function AddDescendant(d: Name): Category {
      this.(descendants := descendants + {d})
    }

    function RemoveParent(p: Name): Category {
      this.(parents := parents - {p})
    }

    function RemoveChild(c: Name): Category {
      this.(children := children - {c})
    }
  }

  /** The stored form of a taxonomy: categories by name. */
  type CategoryMap = map<Name, Category>

  function ParentLinks(c: CategoryMap): Graph {
    map x | x in c :: c[x].parents
  }

  function ChildLinks(c: CategoryMap): Graph {
    map x | x in c :: c[x].children
  }

  ghost predicate Dag(g: Graph) {
    Closed(g) && Acyclic(g)
  }

  /** What every category of a taxonomy with parent links `g` ought to store. */
  ghost function Derived(g: Graph): (c: CategoryMap)
    ensures c.Keys == g.Keys
  {
    map x | x in g :: Category(x, g[x], Reverse(g)[x], Reach(g, x), ReachedBy(g, x))
  }

  /** The parent links form a DAG and all other relations agree with them. */
  ghost predicate Consistent(c: CategoryMap) {
    Dag(ParentLinks(c)) && c == Derived(ParentLinks(c))
  }

  /** The categories created, removed or altered between two states. */
  ghost function Changed(before: CategoryMap, after: CategoryMap): set<Name> {
    set x | x in before.Keys + after.Keys &&
            !(x in before && x in after && before[x] == after[x])
  }

  /** Going from `before` by way of `mid`, no altered category returns to what it was. */
  ghost predicate NoneRestored(before: CategoryMap, mid: CategoryMap, after: CategoryMap) {
    Changed(before, after) == Changed(before, mid) + Changed(mid, after)
  }

  // ------------------------------------------------------- edits on graphs

  datatype Edit =
    | PutCategory(cat: Name)
    | DeleteCategory(cat: Name)
    | PutParent(cat: Name, parent: Name)
    | DeleteParent(cat: Name, parent: Name)

  function WithNode(g: Graph, x: Name): Graph {
    if x in g then g else g[x := {}]
  }

  function WithLink(g: Graph, c: Name, p: Name): Graph {
    var h := WithNode(WithNode(g, c), p);
    h[c := h[c] + {p}]
  }

  function WithoutLink(g: Graph, c: Name, p: Name): Graph {
    if c in g then g[c := g[c] - {p}] else g
  }

  /** An edit is refused exactly when its new parent link would close a loop. */
  ghost predicate Accepts(g: Graph, e: Edit) {
    e.PutParent? ==> !AboveOrSelf(g, e.parent, e.cat)
  }

  ghost function Apply(g: Graph, e: Edit): Graph
  {
    match e
    case PutCategory(c) => WithNode(g, c)
    case DeleteCategory(c) => Without(g, c)
    case PutParent(c, p) => if Accepts(g, e) then WithLink(g, c, p) else g
    case DeleteParent(c, p) => WithoutLink(g, c, p)
  }

  lemma WithNodeReach(g: Graph, c: Name)
    requires Dag(g)
    ensures Dag(WithNode(g, c))
    ensures forall x, a :: Above(WithNode(g, c), x, a) <==> Above(g, x, a)
    ensures c !in g ==> forall x :: !Above(g, x, c) && !Above(g, c, x)
  {
    var h := WithNode(g, c);
    assert forall x :: Links(g, x) == Links(h, x);
    forall x, a
      ensures Above(h, x, a) <==> Above(g, x, a)
    {
      if Above(h, x, a) { AboveMonotone(h, g, x, a); }
      if Above(g, x, a) { AboveMonotone(g, h, x, a); }
    }
    forall x | Above(g, x, c) || Above(g, c, x)
      ensures c in g
    {
      if Above(g, x, c) { AboveStaysInside(g, x, c); } else { AboveStaysInside(g, c, x); }
    }
  }

  /** Every edit leaves a DAG a DAG, with every named category present. */
  lemma ApplyDag(g: Graph, e: Edit)
    requires Dag(g)
    ensures Dag(Apply(g, e))
  {
    match e
    case PutCategory(c) =>
      WithNodeReach(g, c);
    case DeleteCategory(c) =>
      SubgraphAcyclic(Without(g, c), g);
    case PutParent(c, p) =>
      if Accepts(g, e) {
        var h := WithNode(WithNode(g, c), p);
        WithNodeReach(g, c);
        WithNodeReach(WithNode(g, c), p);
        AddLinkAcyclic(h, WithLink(g, c, p), c, p);
      }
    case DeleteParent(c, p) =>
      SubgraphAcyclic(WithoutLink(g, c, p), g);
  }

  ghost function ApplyAll(g: Graph, edits: seq<Edit>): Graph
    decreases |edits|
  {
    if edits == [] then g else ApplyAll(Apply(g, edits[0]), edits[1..])
  }

  lemma {:induction false} ApplyAllDag(g: Graph, edits: seq<Edit>)
    requires Dag(g)
    ensures Dag(ApplyAll(g, edits))
    decreases |edits|
  {
    if edits != [] {
      ApplyDag(g, edits[0]);
      ApplyAllDag(Apply(g, edits[0]), edits[1..]);
    }
  }

  // ----------------------------------------- the edits, on what is stored

  /** The entry of `x` says who its children, ancestors and descendants are. */
  ghost predicate ExactEntry(c: CategoryMap, x: Name)
    requires x in c
  {
    && c[x].name == x
    && (forall y :: y in c[x].children <==> y in c && x in c[y].parents)
    && (forall a :: a in c[x].ancestors <==> Above(ParentLinks(c), x, a))
    && (forall d :: d in c[x].descendants <==> Above(ParentLinks(c), d, x))
  }

  /** A consistent taxonomy has no loops, knows all parents, and its entries are exact. */
  lemma ConsistentMeans(c: CategoryMap)
    ensures Consistent(c) <==>
            && (forall x, p :: x in c && p in c[x].parents ==> p in c)
            && (forall x :: !Above(ParentLinks(c), x, x))
            && (forall x :: x in c ==> ExactEntry(c, x))
  {
    hide Above, ExactEntry, Derived;
    var g := ParentLinks(c);
    if Dag(g) {
      forall x | x in c
        ensures c[x] == Derived(g)[x] <==> ExactEntry(c, x)
      {
        EntryMeans(c, x);
      }
      assert c == Derived(g) <==> forall x :: x in c ==> c[x] == Derived(g)[x];
    }
  }

  lemma EntryMeans(c: CategoryMap, x: Name)
    requires x in c && Closed(ParentLinks(c))
    ensures c[x] == Derived(ParentLinks(c))[x] <==> ExactEntry(c, x)
  {
    hide Above;
    var g := ParentLinks(c);
    forall y, a | Above(g, y, a)
      ensures y in g && a in g
    {
      AboveStaysInside(g, y, a);
    }
    var e := Derived(g)[x];
    assert c[x].children == e.children <==> forall y :: y in c[x].children <==> y in e.children;
    assert c[x].ancestors == e.ancestors <==> forall a :: a in c[x].ancestors <==> a in e.ancestors;
    assert c[x].descendants == e.descendants <==> forall d :: d in c[x].descendants <==> d in e.descendants;
  }

  lemma AddedLinks(c: CategoryMap, after: CategoryMap, cat: Name)
    requires after == Derived(Apply(ParentLinks(c), PutCategory(cat)))
    ensures after.Keys == c.Keys + {cat}
    ensures forall x :: x in after ==> after[x].parents == if x in c then c[x].parents else {}
  {
    hide Reach, ReachedBy, Reverse;
  }

  lemma RemovedLinks(c: CategoryMap, after: CategoryMap, cat: Name)
    requires after == Derived(Apply(ParentLinks(c), DeleteCategory(cat)))
    ensures after.Keys == c.Keys - {cat}
    ensures forall x :: x in after ==> after[x].parents == c[x].parents - {cat}
  {
    hide Reach, ReachedBy, Reverse;
  }

  lemma LinkedLinks(c: CategoryMap, after: CategoryMap, cat: Name, parent: Name)
    requires after == Derived(Apply(ParentLinks(c), PutParent(cat, parent)))
    requires Accepts(ParentLinks(c), PutParent(cat, parent))
    ensures after.Keys == c.Keys + {cat, parent}
    ensures forall x :: x in after ==>
              after[x].parents == (if x in c then c[x].parents else {}) + if x == cat then {parent} else {}
  {
    hide Reach, ReachedBy, Reverse, Accepts;
  }

  lemma UnlinkedLinks(c: CategoryMap, after: CategoryMap, cat: Name, parent: Name)
    requires after == Derived(Apply(ParentLinks(c), DeleteParent(cat, parent)))
    ensures after.Keys == c.Keys
    ensures forall x :: x in after ==> after[x].parents == c[x].parents - if x == cat then {parent} else {}
  {
    hide Reach, ReachedBy, Reverse;
  }

  /** What an edit does to the names and parents stored. */
  ghost predicate EditEffect(before: CategoryMap, after: CategoryMap, e: Edit) {
    match e
    case PutCategory(cat) =>
      && after.Keys == before.Keys + {cat}
      && forall x :: x in after ==> after[x].parents == if x in before then before[x].parents else {}
    case DeleteCategory(cat) =>
      && after.Keys == before.Keys - {cat}
      && forall x :: x in after ==> after[x].parents == before[x].parents - {cat}
    case PutParent(cat, parent) =>
      if cat == parent || (parent in before && cat in before[parent].ancestors) then after == before
      else
        && after.Keys == before.Keys + {cat, parent}
        && forall x :: x in after ==>
             after[x].parents == (if x in before then before[x].parents else {}) + if x == cat then {parent} else {}
    case DeleteParent(cat, parent) =>
      && after.Keys == before.Keys
      && forall x :: x in after ==> after[x].parents == before[x].parents - if x == cat then {parent} else {}
  }

  lemma EditEffectOf(c: CategoryMap, e: Edit)
    requires Consistent(c)
    ensures EditEffect(c, Derived(Apply(ParentLinks(c), e)), e)
  {
    var after := Derived(Apply(ParentLinks(c), e));
    hide Derived, ParentLinks;
    match e
    case PutCategory(cat) => AddedLinks(c, after, cat);
    case DeleteCategory(cat) => RemovedLinks(c, after, cat);
    case DeleteParent(cat, parent) => UnlinkedLinks(c, after, cat, parent);
    case PutParent(cat, parent) =>
      AcceptsMeans(c, cat, parent);
      if Accepts(ParentLinks(c), e) {
        LinkedLinks(c, after, cat, parent);
      }
  }

  lemma ChangedAre(before: CategoryMap, after: CategoryMap)
    ensures forall x :: x in Changed(before, after) <==>
              (x in before || x in after) && !(x in before && x in after && before[x] == after[x])
  {
  }

  lemma AcceptsAlways(g: Graph, e: Edit)
    ensures !e.PutParent? ==> Accepts(g, e)
  {
  }

  /** A link is refused exactly for a category and itself, or one that is an ancestor of the parent. */
  lemma AcceptsMeans(c: CategoryMap, cat: Name, parent: Name)
    requires Consistent(c)
    ensures Accepts(ParentLinks(c), PutParent(cat, parent)) <==>
            cat != parent && !(parent in c && cat in c[parent].ancestors)
  {
    hide Above;
    if Above(ParentLinks(c), parent, cat) {
      AboveStaysInside(ParentLinks(c), parent, cat);
    }
  }

  lemma EmptyConsistent()
    ensures Dag(map[]) && Derived(map[]) == map[] && Consistent(map[])
  {
    forall x
      ensures !Above(map[], x, x)
    {
      if Above(map[], x, x) {
        var p := AboveFirstLink(map[], x, x);
      }
    }
    assert ParentLinks(map[]) == map[];
  }

  // ------------------------------------------------- stored forms, by step

  /** All of `down` below all of `up`. */
  ghost function Linked(c: CategoryMap, down: set<Name>, up: set<Name>): (l: CategoryMap)
    ensures l.Keys == c.Keys
  {
    map x | x in c :: c[x].(
      ancestors := if x in down then c[x].ancestors + up else c[x].ancestors,
      descendants := if x in up then c[x].descendants + down else c[x].descendants)
  }

  /** Ancestors of `lows` and descendants of `highs` recalculated from the stored links. */
  ghost function Recalculated(c: CategoryMap, lows: set<Name>, highs: set<Name>): (l: CategoryMap)
    ensures l.Keys == c.Keys
  {
    map x | x in c :: c[x].(
      ancestors := if x in lows then Reach(ParentLinks(c), x) else c[x].ancestors,
      descendants := if x in highs then Reach(ChildLinks(c), x) else c[x].descendants)
  }

  /** `cat` forgotten as a child by `ps` and as a parent by `cs`. */
  ghost function Dropped(c: CategoryMap, cat: Name, ps: set<Name>, cs: set<Name>): (l: CategoryMap)
    ensures l.Keys == c.Keys
  {
    map x | x in c :: c[x].(
      children := if x in ps then c[x].children - {cat} else c[x].children,
      parents := if x in cs then c[x].parents - {cat} else c[x].parents)
  }

  /** Everything below `x` linked with everything above it. */
  ghost function LinkThrough(c: CategoryMap, x: Name): CategoryMap
    requires x in c
  {
    Linked(c, c[x].descendants, c[x].ancestors)
  }

  ghost function LinkPair(c: CategoryMap, cat: Name, parent: Name): CategoryMap
    requires cat in c && parent in c && cat != parent
  {
    c[cat := c[cat].AddParent(parent)][parent := c[parent].AddChild(cat)]
  }

  /** What the source's `add_parent` stores once both categories exist. */
  ghost function LinkedIn(c: CategoryMap, cat: Name, parent: Name): CategoryMap
    requires cat in c && parent in c && cat != parent
  {
    LinkThrough(LinkThrough(LinkPair(c, cat, parent), cat), parent)
  }

  /** Reachability once `parent` is linked above `cat`, said in terms of the old graph. */
  ghost predicate AboveVia(g: Graph, cat: Name, parent: Name, x: Name, a: Name) {
    Above(g, x, a) || (AboveOrSelf(g, x, cat) && AboveOrSelf(g, parent, a))
  }

  /** The stored ancestors and descendants take the new link into account. */
  ghost predicate ClosureVia(g: Graph, cat: Name, parent: Name, x: Name, c: Category) {
    && (forall a :: a in c.ancestors <==> a in g && AboveVia(g, cat, parent, x, a))
    && (forall y :: y in c.descendants <==> y in g && AboveVia(g, cat, parent, y, x))
  }

  ghost predicate LinksVia(g: Graph, cat: Name, parent: Name, l: CategoryMap) {
    && l.Keys == g.Keys
    && forall x :: x in g ==>
         && l[x].name == x
         && l[x].parents == (if x == cat then g[x] + {parent} else g[x])
         && l[x].children == (if x == parent then Reverse(g)[x] + {cat} else Reverse(g)[x])
  }

  /** Two rounds of set unions are the transitive closure with the new link. */
  lemma LinkedInIsDerived(g: Graph, cat: Name, parent: Name)
    requires Dag(g) && cat in g && parent in g && !AboveOrSelf(g, parent, cat)
    ensures LinkedIn(Derived(g), cat, parent) == Derived(g[cat := g[cat] + {parent}])
  {
    hide Above, Reach, ReachedBy, Linked;
    var l, d := LinkedIn(Derived(g), cat, parent), Derived(g[cat := g[cat] + {parent}]);
    assert l.Keys == d.Keys by {
      LinkedInLinks(g, cat, parent);
    }
    forall x | x in l
      ensures l[x] == d[x]
    {
      LinkedInStored(g, cat, parent, x);
    }
    SameMap(l, d);
  }

  lemma SameMap<K, V>(a: map<K, V>, b: map<K, V>)
    requires a.Keys == b.Keys
    requires forall k :: k in a ==> a[k] == b[k]
    ensures a == b
  {
  }

  lemma LinkedInStored(g: Graph, cat: Name, parent: Name, x: Name)
    requires Dag(g) && cat in g && parent in g && !AboveOrSelf(g, parent, cat) && x in g
    ensures LinkedIn(Derived(g), cat, parent)[x] == Derived(g[cat := g[cat] + {parent}])[x]
  {
    hide Above, Reach, ReachedBy, Linked;
    LinkedInLinks(g, cat, parent);
    LinkedInClosure(g, cat, parent, x);
    StoredAfterLink(g, g[cat := g[cat] + {parent}], cat, parent, LinkedIn(Derived(g), cat, parent)[x]);
  }

  lemma StoredAfterLink(g: Graph, h: Graph, cat: Name, parent: Name, c: Category)
    requires Dag(g) && cat in g && parent in g && h == g[cat := g[cat] + {parent}]
    requires c.name in g && c.parents == h[c.name]
    requires c.children == if c.name == parent then Reverse(g)[parent] + {cat} else Reverse(g)[c.name]
    requires ClosureVia(g, cat, parent, c.name, c)
    ensures c == Derived(h)[c.name]
  {
    hide Above;
    assert AddsLink(g, h, cat, parent);
    forall x, a
      ensures Above(h, x, a) <==> AboveVia(g, cat, parent, x, a)
    {
      AboveAddLink(g, h, cat, parent, x, a);
    }
    assert c.children == Reverse(h)[c.name];
    assert c.ancestors == Reach(h, c.name);
    assert c.descendants == ReachedBy(h, c.name);
  }

  lemma LinkedInLinks(g: Graph, cat: Name, parent: Name)
    requires cat in g && parent in g && cat != parent
    ensures LinksVia(g, cat, parent, LinkedIn(Derived(g), cat, parent))
  {
    var c2 := LinkPair(Derived(g), cat, parent);
    assert LinksVia(g, cat, parent, c2);
    LinkThroughLinks(g, cat, parent, c2, cat);
    LinkThroughLinks(g, cat, parent, LinkThrough(c2, cat), parent);
  }

  lemma LinkThroughLinks(g: Graph, cat: Name, parent: Name, c: CategoryMap, x: Name)
    requires LinksVia(g, cat, parent, c) && x in c
    ensures LinksVia(g, cat, parent, LinkThrough(c, x))
  {
  }

  lemma LinkedInClosure(g: Graph, cat: Name, parent: Name, x: Name)
    requires Dag(g) && cat in g && parent in g && !AboveOrSelf(g, parent, cat) && x in g
    ensures ClosureVia(g, cat, parent, x, LinkedIn(Derived(g), cat, parent)[x])
  {
    LinkedInAt(Derived(g), cat, parent, x);
    UnionsAreClosure(g, cat, parent, x, LinkedIn(Derived(g), cat, parent)[x]);
  }

  /** The unions that the two rounds make at one category. */
  ghost predicate UnionsAt(c: CategoryMap, cat: Name, parent: Name, x: Name, l: Category)
    requires cat in c && parent in c && x in c
  {
    && l.ancestors == c[x].ancestors
       + (if x == cat then {parent} else {})
       + (if x in c[cat].descendants then c[cat].ancestors + {parent} else {})
       + (if x in c[parent].descendants + {cat} + c[cat].descendants then c[parent].ancestors else {})
    && l.descendants == c[x].descendants
       + (if x == parent then {cat} else {})
       + (if x in c[cat].ancestors + {parent} then c[cat].descendants else {})
       + (if x in c[parent].ancestors then c[parent].descendants + {cat} + c[cat].descendants else {})
  }

  lemma LinkedInAt(c: CategoryMap, cat: Name, parent: Name, x: Name)
    requires cat in c && parent in c && cat != parent && x in c && parent !in c[cat].descendants
    ensures UnionsAt(c, cat, parent, x, LinkedIn(c, cat, parent)[x])
  {
    hide Linked;
    var c2 := LinkPair(c, cat, parent);
    LinkedAt(c2, c2[cat].descendants, c2[cat].ancestors, parent);
    LinkedAt(c2, c2[cat].descendants, c2[cat].ancestors, x);
    var c3 := LinkThrough(c2, cat);
    assert c3[parent].ancestors == c[parent].ancestors;
    assert c3[parent].descendants == c[parent].descendants + {cat} + c[cat].descendants;
    LinkedAt(c3, c3[parent].descendants, c3[parent].ancestors, x);
  }

  lemma LinkedAt(c: CategoryMap, down: set<Name>, up: set<Name>, x: Name)
    requires x in c
    ensures Linked(c, down, up)[x] == c[x].(
        ancestors := c[x].ancestors + (if x in down then up else {}),
        descendants := c[x].descendants + (if x in up then down else {}))
  {
  }

  lemma UnionsAreClosure(g: Graph, cat: Name, parent: Name, x: Name, c: Category)
    requires cat in g && parent in g && x in g && UnionsAt(Derived(g), cat, parent, x, c)
    ensures ClosureVia(g, cat, parent, x, c)
  {
    hide Above;
    forall a
      ensures a in c.ancestors <==> a in g && AboveVia(g, cat, parent, x, a)
    {
      if Above(g, x, cat) && Above(g, cat, a) { AboveTransitive(g, x, cat, a); }
      if Above(g, x, parent) && Above(g, parent, a) { AboveTransitive(g, x, parent, a); }
    }
    forall y
      ensures y in c.descendants <==> y in g && AboveVia(g, cat, parent, y, x)
    {
      if Above(g, y, cat) && Above(g, cat, x) { AboveTransitive(g, y, cat, x); }
      if Above(g, y, parent) && Above(g, parent, x) { AboveTransitive(g, y, parent, x); }
    }
  }

  // --------------------------------------------- stored forms after removal

  /** The links still stored once `cat` has been dropped by its parents and children. */
  lemma DroppedReach(g: Graph, h: Graph, cat: Name, x: Name)
    requires Dag(g) && x in g && x != cat && h.Keys == g.Keys
    requires forall y :: y in g && y != cat ==> h[y] == g[y] - {cat}
    ensures Reach(h, x) == Reach(Without(g, cat), x)
  {
    var inside := g.Keys - {cat};
    forall a
      ensures Above(h, x, a) <==> Above(Without(g, cat), x, a)
      ensures Above(Without(g, cat), x, a) ==> a in Without(g, cat)
    {
      AboveAgree(h, Without(g, cat), inside, x, a);
      if Above(Without(g, cat), x, a) {
        AboveStaysInside(Without(g, cat), x, a);
      }
    }
  }

  lemma ReverseWithout(g: Graph, cat: Name)
    ensures Reverse(Without(g, cat)) == Without(Reverse(g), cat)
  {
    forall x | x in g && x != cat
      ensures Reverse(Without(g, cat))[x] == Without(Reverse(g), cat)[x]
    {
      assert forall y :: y in Reverse(Without(g, cat))[x] <==> y in Reverse(g)[x] - {cat};
    }
  }

  /** Reachability of a category that is not beyond the removed one stays as stored. */
  lemma UntouchedByRemove(g: Graph, cat: Name, x: Name)
    requires Dag(g) && x in g && x != cat
    ensures !Above(g, x, cat) ==> Reach(g, x) == Reach(Without(g, cat), x)
    ensures !Above(g, cat, x) ==> ReachedBy(g, x) == ReachedBy(Without(g, cat), x)
  {
    forall a
      ensures !Above(g, x, cat) ==> (Above(g, x, a) <==> Above(Without(g, cat), x, a))
      ensures !Above(g, cat, x) && a != cat ==> (Above(g, a, x) <==> Above(Without(g, cat), a, x))
    {
      AboveWithout(g, cat, x, a);
      AboveWithout(g, cat, a, x);
    }
  }

  lemma UntouchedByUnlink(g: Graph, cat: Name, parent: Name, x: Name)
    requires Dag(g) && cat in g && parent in g && x in g
    ensures var h := WithoutLink(g, cat, parent);
      && (!AboveOrSelf(g, x, cat) ==> Reach(h, x) == Reach(g, x))
      && (!AboveOrSelf(g, parent, x) ==> ReachedBy(h, x) == ReachedBy(g, x))
      && (AboveOrSelf(h, x, cat) <==> AboveOrSelf(g, x, cat))
      && (AboveOrSelf(h, parent, x) <==> AboveOrSelf(g, parent, x))
  {
    var h := WithoutLink(g, cat, parent);
    if parent in g[cat] {
      assert AddsLink(h, g, cat, parent);
      forall y, a
        ensures Above(g, y, a) <==> Above(h, y, a) || (AboveOrSelf(h, y, cat) && AboveOrSelf(h, parent, a))
        ensures Above(h, y, a) ==> Above(g, y, a)
      {
        AboveAddLink(h, g, cat, parent, y, a);
      }
      if AboveOrSelf(h, parent, cat) {
        AboveLink(g, cat, parent);
        AboveTransitive(g, cat, parent, cat);
      }
    } else {
      assert g[cat] - {parent} == g[cat];
      assert h == g;
    }
  }

  lemma AddIsDerived(g: Graph, cat: Name)
    requires Dag(g) && cat !in g
    ensures Derived(WithNode(g, cat)) == Derived(g)[cat := Category(cat, {}, {}, {}, {})]
    ensures Dag(WithNode(g, cat))
  {
    WithNodeReach(g, cat);
    var d, e := Derived(WithNode(g, cat)), Derived(g)[cat := Category(cat, {}, {}, {}, {})];
    forall x | x in d
      ensures d[x] == e[x]
    {
      AddIsDerivedAt(g, cat, x);
    }
    SameMap(d, e);
  }

  lemma AddIsDerivedAt(g: Graph, cat: Name, x: Name)
    requires Dag(g) && cat !in g && (x in g || x == cat)
    ensures Derived(WithNode(g, cat))[x] == Derived(g)[cat := Category(cat, {}, {}, {}, {})][x]
  {
    hide Above;
    WithNodeReach(g, cat);
    var h := WithNode(g, cat);
    assert forall y :: y in Reach(h, x) <==> y in g && Above(g, x, y);
    assert forall y :: y in ReachedBy(h, x) <==> y in g && Above(g, y, x);
    assert forall y :: y in Reverse(h)[x] <==> y in g && x in g[y];
  }

  lemma DerivedLinks(g: Graph)
    ensures ParentLinks(Derived(g)) == g
    ensures Dag(g) ==> Consistent(Derived(g))
  {
    assert ParentLinks(Derived(g)) == g;
  }

  lemma AddGrows(g: Graph, cat: Name)
    requires Dag(g)
    ensures Grows(Derived(g), Derived(WithNode(g, cat)))
  {
    if cat !in g {
      AddIsDerived(g, cat);
    }
  }

  lemma RecalculatedLinks(c: CategoryMap, lows: set<Name>, highs: set<Name>)
    ensures ParentLinks(Recalculated(c, lows, highs)) == ParentLinks(c)
    ensures ChildLinks(Recalculated(c, lows, highs)) == ChildLinks(c)
    ensures lows == {} && highs == {} ==> Recalculated(c, lows, highs) == c
  {
  }

  lemma RecalculatedKeeps(c: CategoryMap, lows: set<Name>, highs: set<Name>, x: Name)
    requires x in c
    ensures x !in lows ==> Recalculated(c, lows, highs)[x].ancestors == c[x].ancestors
    ensures x !in highs ==> Recalculated(c, lows, highs)[x].descendants == c[x].descendants
  {
  }

  lemma UnchangedNothing(c: CategoryMap)
    ensures Changed(c, c) == {}
  {
  }

  lemma LinkedNothing(c: CategoryMap, up: set<Name>)
    ensures Linked(c, {}, up) == c
  {
    forall x | x in c
      ensures Linked(c, {}, up)[x] == c[x]
    {
      assert c[x].descendants + {} == c[x].descendants;
    }
  }

  lemma LinkedToNothing(c: CategoryMap, i: Name)
    ensures Linked(c, {i}, {}) == c
  {
    forall x | x in c
      ensures Linked(c, {i}, {})[x] == c[x]
    {
      assert c[x].ancestors + {} == c[x].ancestors;
    }
  }

  /** One turn of the inner loop. */
  lemma LinkedStep(c: CategoryMap, i: Name, up: set<Name>, j: Name)
    requires i in c && j in c && i !in up && j !in up && i != j
    ensures var m := Linked(c, {i}, up);
      && Linked(c, {i}, up + {j}) == m[i := m[i].AddAncestor(j)][j := m[j].AddDescendant(i)]
      && Within(c[i], m[i]) && Within(m[i], m[i].AddAncestor(j))
      && Within(c[j], m[j]) && Within(m[j], m[j].AddDescendant(i))
  {
    var m := Linked(c, {i}, up);
    var n := m[i := m[i].AddAncestor(j)][j := m[j].AddDescendant(i)];
    forall x | x in c
      ensures Linked(c, {i}, up + {j})[x] == n[x]
    {
      assert c[x].ancestors + up + {j} == c[x].ancestors + (up + {j});
    }
    SameMap(Linked(c, {i}, up + {j}), n);
  }

  /** One turn of the outer loop. */
  lemma LinkedMore(c: CategoryMap, down: set<Name>, up: set<Name>, i: Name)
    ensures Linked(Linked(c, down, up), {i}, up) == Linked(c, down + {i}, up)
  {
    var m, n := Linked(Linked(c, down, up), {i}, up), Linked(c, down + {i}, up);
    forall x | x in c
      ensures m[x] == n[x]
    {
      assert c[x].ancestors + up + up == c[x].ancestors + up;
      assert c[x].descendants + down + {i} == c[x].descendants + (down + {i});
    }
    SameMap(m, n);
  }

  ghost predicate Within(c: Category, d: Category) {
    && c.name == d.name
    && c.parents <= d.parents && c.children <= d.children
    && c.ancestors <= d.ancestors && c.descendants <= d.descendants
  }

  ghost predicate Grows(before: CategoryMap, after: CategoryMap) {
    forall x :: x in before ==> x in after && Within(before[x], after[x])
  }

  lemma LinkedGrows(c: CategoryMap, down: set<Name>, up: set<Name>)
    ensures Grows(c, Linked(c, down, up))
  {
  }

  lemma GrowingChanges(before: CategoryMap, mid: CategoryMap, after: CategoryMap)
    requires Grows(before, mid) && Grows(mid, after)
    ensures NoneRestored(before, mid, after) && Grows(before, after)
  {
    forall x
      ensures x in Changed(before, after) <==> x in Changed(before, mid) + Changed(mid, after)
    {
      if x in before {
        assert Within(before[x], mid[x]) && Within(mid[x], after[x]);
      }
    }
  }

  lemma NotBetween(g: Graph, cat: Name, parent: Name, x: Name)
    requires Closed(g) && Acyclic(g) && !AboveOrSelf(g, parent, cat)
    ensures !(Above(g, x, cat) && Above(g, cat, x)) && !(Above(g, x, parent) && Above(g, parent, x))
    ensures !(Above(g, x, cat) && Above(g, parent, x))
  {
    hide Above;
    if Above(g, x, cat) && Above(g, cat, x) {
      AboveTransitive(g, x, cat, x);
    }
    if Above(g, x, parent) && Above(g, parent, x) {
      AboveTransitive(g, x, parent, x);
    }
    if Above(g, x, cat) && Above(g, parent, x) {
      AboveTransitive(g, parent, x, cat);
    }
  }

  /** In each round, what goes below and what goes above are different categories, and
      the sets being iterated over are not among those being changed. */
  lemma LinkRoundsDisjoint(c: CategoryMap, cat: Name, parent: Name)
    requires Consistent(c) && cat in c && parent in c
    requires !AboveOrSelf(ParentLinks(c), parent, cat)
    ensures var c2 := LinkPair(c, cat, parent); var c3 := LinkThrough(c2, cat);
      && c2[cat].descendants !! c2[cat].ancestors
      && c2[cat].descendants <= c.Keys && c2[cat].ancestors <= c.Keys
      && cat !in c2[cat].descendants + c2[cat].ancestors
      && c3[parent].descendants !! c3[parent].ancestors
      && c3[parent].descendants <= c.Keys && c3[parent].ancestors <= c.Keys
      && parent !in c3[parent].descendants + c3[parent].ancestors
  {
    hide Above, LinkPair, LinkThrough, ParentLinks;
    LinkSets(c, cat, parent);
    var g := ParentLinks(c);
    forall x
      ensures !(Above(g, x, cat) && Above(g, cat, x)) && !(Above(g, x, parent) && Above(g, parent, x))
      ensures !(Above(g, x, cat) && Above(g, parent, x))
    {
      NotBetween(g, cat, parent, x);
    }
  }

  /** What the two rounds of linking start from. */
  lemma LinkSets(c: CategoryMap, cat: Name, parent: Name)
    requires Consistent(c) && cat in c && parent in c
    requires !AboveOrSelf(ParentLinks(c), parent, cat)
    ensures var g := ParentLinks(c); var c2 := LinkPair(c, cat, parent); var c3 := LinkThrough(c2, cat);
      && Closed(g) && Acyclic(g) && c2.Keys == c.Keys && c3.Keys == c.Keys && g.Keys == c.Keys
      && c2[cat].ancestors == Reach(g, cat) + {parent} && c2[cat].descendants == ReachedBy(g, cat)
      && c3[parent].ancestors == Reach(g, parent)
      && c3[parent].descendants == ReachedBy(g, parent) + {cat} + ReachedBy(g, cat)
  {
    hide Above;
    forall x
      ensures !(Above(ParentLinks(c), x, cat) && Above(ParentLinks(c), cat, x))
      ensures !(Above(ParentLinks(c), x, cat) && Above(ParentLinks(c), parent, x))
    {
      NotBetween(ParentLinks(c), cat, parent, x);
    }
  }

  /** Creating the two ends of a link does not affect who is above whom. */
  lemma AddedPair(g: Graph, cat: Name, parent: Name)
    requires Dag(g)
    ensures var h := WithNode(WithNode(g, cat), parent);
      && Dag(h)
      && (forall x, a :: Above(h, x, a) <==> Above(g, x, a))
  {
    WithNodeReach(g, cat);
    WithNodeReach(WithNode(g, cat), parent);
  }

  /** A link can only be refused between categories that both exist already. */
  lemma RefusedPair(g: Graph, cat: Name, parent: Name)
    requires Dag(g) && Above(g, parent, cat)
    ensures WithNode(WithNode(g, cat), parent) == g
  {
    AboveStaysInside(g, parent, cat);
  }

  // ------------------------------------------------- removing a parent link

  ghost function Unlinked(c: CategoryMap, cat: Name, parent: Name): CategoryMap
    requires cat in c && parent in c
  {
    c[parent := c[parent].RemoveChild(cat)][cat := c[cat].RemoveParent(parent)]
  }

  lemma NothingToUnlink(g: Graph, cat: Name, parent: Name)
    requires Dag(g) && (cat == parent || cat !in g || parent !in g)
    ensures WithoutLink(g, cat, parent) == g
  {
    if cat in g && parent in g[cat] {
      AboveLink(g, cat, parent);
    }
    if cat in g {
      assert g[cat] - {parent} == g[cat];
    }
  }

  /** The links that are stored once both ends have dropped the link. */
  lemma UnlinkedStored(g: Graph, cat: Name, parent: Name)
    requires Dag(g) && cat in g && parent in g && cat != parent
    ensures var c := Unlinked(Derived(g), cat, parent); var h := WithoutLink(g, cat, parent);
      && ParentLinks(c) == h && ChildLinks(c) == Reverse(h) && Dag(h) && Dag(Reverse(h))
  {
    hide Derived, Reverse, Above;
    var c, h := Unlinked(Derived(g), cat, parent), WithoutLink(g, cat, parent);
    ApplyDag(g, DeleteParent(cat, parent));
    ReverseReach(h, cat);
    ReverseTwice(h);
    forall x | x in g
      ensures c[x].children == Reverse(h)[x] && c[x].parents == h[x]
    {
      UnlinkedAt(g, cat, parent, x);
    }
    SameMap(ChildLinks(c), Reverse(h));
    SameMap(ParentLinks(c), h);
  }

  lemma UnlinkedAt(g: Graph, cat: Name, parent: Name, x: Name)
    requires cat in g && parent in g && cat != parent && x in g
    ensures var c := Unlinked(Derived(g), cat, parent); var h := WithoutLink(g, cat, parent);
      c[x].parents == h[x] && c[x].children == Reverse(h)[x]
  {
    hide Reach, ReachedBy;
    assert Reverse(WithoutLink(g, cat, parent))[x] ==
           if x == parent then Reverse(g)[x] - {cat} else Reverse(g)[x];
  }

  lemma UnlinkedRanges(g: Graph, cat: Name, parent: Name)
    requires Dag(g) && cat in g && parent in g && cat != parent
    ensures var c := Unlinked(Derived(g), cat, parent); var h := WithoutLink(g, cat, parent);
      && c[cat].descendants == ReachedBy(g, cat) && cat !in c[cat].descendants
      && c[cat].descendants <= g.Keys
      && parent !in Reach(h, parent) && Reach(h, parent) <= g.Keys
      && Recalculated(c, {cat} + ReachedBy(g, cat), {parent})[parent].ancestors == Reach(h, parent)
  {
    UnlinkedStored(g, cat, parent);
    UntouchedByUnlink(g, cat, parent, parent);
  }

  /** Recalculating below the child and above the parent is enough. */
  lemma UnlinkedIsDerived(g: Graph, cat: Name, parent: Name)
    requires Dag(g) && cat in g && parent in g && cat != parent
    ensures Recalculated(Unlinked(Derived(g), cat, parent),
                         {cat} + ReachedBy(g, cat),
                         {parent} + Reach(WithoutLink(g, cat, parent), parent))
            == Derived(WithoutLink(g, cat, parent))
  {
    var h := WithoutLink(g, cat, parent);
    var c := Unlinked(Derived(g), cat, parent);
    var r := Recalculated(c, {cat} + ReachedBy(g, cat), {parent} + Reach(h, parent));
    UnlinkedStored(g, cat, parent);
    forall x | x in g
      ensures r[x] == Derived(h)[x]
    {
      UntouchedByUnlink(g, cat, parent, x);
      ReverseReach(h, x);
      assert r[x].ancestors == Reach(h, x);
      assert r[x].descendants == ReachedBy(h, x);
      assert r[x].parents == ParentLinks(c)[x] && r[x].children == ChildLinks(c)[x];
    }
    SameMap(r, Derived(h));
  }

  // --------------------------------------------------- removing a category

  lemma DroppedNothing(c: CategoryMap, cat: Name)
    ensures Dropped(c, cat, {}, {}) == c
  {
  }

  lemma DroppedAt(c: CategoryMap, cat: Name, ps: set<Name>, cs: set<Name>, x: Name)
    requires x in c
    ensures var d := Dropped(c, cat, ps, cs)[x];
      && d.ancestors == c[x].ancestors && d.descendants == c[x].descendants
      && (x !in ps && x !in cs ==> d == c[x])
  {
  }

  lemma DropChild(c: CategoryMap, cat: Name, ps: set<Name>, cs: set<Name>, x: Name)
    requires x in c && x !in ps
    ensures var m := Dropped(c, cat, ps, cs); var v := m[x].RemoveChild(cat);
      && Dropped(c, cat, ps + {x}, cs) == m[x := v]
      && (v == m[x] || v != c[x])
  {
    var m := Dropped(c, cat, ps, cs);
    var n := m[x := m[x].RemoveChild(cat)];
    forall y | y in c
      ensures n[y] == Dropped(c, cat, ps + {x}, cs)[y]
    {
    }
    SameMap(n, Dropped(c, cat, ps + {x}, cs));
  }

  lemma DropParent(c: CategoryMap, cat: Name, ps: set<Name>, cs: set<Name>, x: Name)
    requires x in c && x !in cs
    ensures var m := Dropped(c, cat, ps, cs); var v := m[x].RemoveParent(cat);
      && Dropped(c, cat, ps, cs + {x}) == m[x := v]
      && (v == m[x] || v != c[x])
  {
    var m := Dropped(c, cat, ps, cs);
    var n := m[x := m[x].RemoveParent(cat)];
    forall y | y in c
      ensures n[y] == Dropped(c, cat, ps, cs + {x})[y]
    {
    }
    SameMap(n, Dropped(c, cat, ps, cs + {x}));
  }

  /** The links stored once the neighbours of `cat` have forgotten it; `cat` itself still has its own. */
  lemma DroppedStored(g: Graph, cat: Name)
    requires Dag(g) && cat in g
    ensures var c := Dropped(Derived(g), cat, g[cat], Reverse(g)[cat]);
      && Dag(ParentLinks(c)) && Dag(ChildLinks(c))
      && (forall x :: x in g && x != cat ==> ParentLinks(c)[x] == g[x] - {cat})
      && (forall x :: x in g && x != cat ==> ChildLinks(c)[x] == Reverse(g)[x] - {cat})
      && g[cat] <= g.Keys && cat !in g[cat]
      && Reverse(g)[cat] <= g.Keys && cat !in Reverse(g)[cat]
  {
    hide Above, Reach, ReachedBy;
    var c := Dropped(Derived(g), cat, g[cat], Reverse(g)[cat]);
    if cat in g[cat] {
      AboveLink(g, cat, cat);
    }
    SubgraphAcyclic(ParentLinks(c), g);
    ReverseReach(g, cat);
    ReverseTwice(g);
    SubgraphAcyclic(ChildLinks(c), Reverse(g));
  }

  /** Recalculating above and below the category is enough. */
  lemma RemovedIsDerived(g: Graph, cat: Name)
    requires Dag(g) && cat in g
    ensures Recalculated(Dropped(Derived(g), cat, g[cat], Reverse(g)[cat]), ReachedBy(g, cat), Reach(g, cat)) - {cat}
            == Derived(Without(g, cat))
  {
    hide Above, Derived, Recalculated, Dropped, Reverse;
    var c := Dropped(Derived(g), cat, g[cat], Reverse(g)[cat]);
    var r := Recalculated(c, ReachedBy(g, cat), Reach(g, cat)) - {cat};
    forall x | x in Without(g, cat)
      ensures r[x] == Derived(Without(g, cat))[x]
    {
      RemovedAt(g, cat, x);
    }
    SameMap(r, Derived(Without(g, cat)));
  }

  lemma RemovedAt(g: Graph, cat: Name, x: Name)
    requires Dag(g) && cat in g && x in g && x != cat
    ensures Recalculated(Dropped(Derived(g), cat, g[cat], Reverse(g)[cat]), ReachedBy(g, cat), Reach(g, cat))[x]
            == Derived(Without(g, cat))[x]
  {
    hide Above;
    var c := Dropped(Derived(g), cat, g[cat], Reverse(g)[cat]);
    DroppedStored(g, cat);
    DroppedReach(g, ParentLinks(c), cat, x);
    ReverseTwice(g);
    ReverseReach(g, x);
    DroppedReach(Reverse(g), ChildLinks(c), cat, x);
    ReverseWithout(g, cat);
    ReverseReach(Without(g, cat), x);
    UntouchedByRemove(g, cat, x);
  }

  lemma NothingToRemove(g: Graph, cat: Name)
    requires Dag(g) && cat !in g
    ensures Without(g, cat) == g
  {
    forall x | x in g
      ensures Without(g, cat)[x] == g[x]
    {
      assert g[x] - {cat} == g[x];
    }
  }

  lemma DerivedAt(g: Graph, x: Name)
    requires x in g
    ensures Derived(g)[x] == Category(x, g[x], Reverse(g)[x], Reach(g, x), ReachedBy(g, x))
  {
  }

  lemma DroppedRanges(g: Graph, cat: Name)
    requires Dag(g) && cat in g
    ensures var c := Dropped(Derived(g), cat, g[cat], Reverse(g)[cat]);
      && c[cat] == Derived(g)[cat]
      && Reach(g, cat) <= g.Keys && cat !in Reach(g, cat)
      && ReachedBy(g, cat) <= g.Keys && cat !in ReachedBy(g, cat)
      && forall x :: x in g ==> c[x].ancestors == Derived(g)[x].ancestors
                                && c[x].descendants == Derived(g)[x].descendants
  {
    DroppedStored(g, cat);
  }

  lemma ForgottenChanges(before: CategoryMap, after: CategoryMap, cat: Name)
    requires cat in before && cat in after
    ensures Changed(before, after - {cat}) == Changed(before, after) + {cat}
  {
  }
}
