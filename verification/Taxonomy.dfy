/**
 The taxonomy of categories: a DAG of parent links whose children, ancestors and
 descendants are stored with each category and maintained edit by edit.
 */
module Taxonomies {
  import opened ParentGraph
  import opened TaxonomySpec

  // ------------------------------------------------------------ worklists

  lemma {:induction false} ClosedSetCatchesChain(g: Graph, s: set<Name>, x: Name, a: Name, n: nat)
    requires n >= 1 && Chain(g, x, a, n)
    requires Links(g, x) <= s
    requires forall y :: y in s ==> Links(g, y) <= s
    ensures a in s
    decreases n
  {
    var p :| p in Links(g, x) && Chain(g, p, a, n - 1);
    if n > 1 {
      ClosedSetCatchesChain(g, s, p, a, n - 1);
    }
  }

  /**
   The loop of both recalculations.  The stack is a set, and a category goes back
   on it whenever another link to it is found, even if it was handled before;
   `seen` is filled but never consulted.
   */
  method Worklist(links: Graph, start: Name) returns (reached: set<Name>)
    requires Dag(links) && start in links
    ensures reached == Reach(links, start)
  {
    reached := {};
    var seen := {};
    var stack := links[start];
    ghost var w := WeightingExists(links);
    forall p | p in stack
      ensures Above(links, start, p)
    {
      AboveLink(links, start, p);
    }
    while stack != {}
      invariant stack <= links.Keys && reached <= links.Keys
      invariant forall x :: x in reached + stack ==> Above(links, start, x)
      invariant links[start] <= reached + stack
      invariant forall x :: x in reached ==> links[x] <= reached + stack
      decreases Sum(w, stack)
    {
      var x :| x in stack;
      SumRemove(w, stack, x);
      SumUnion(w, stack - {x}, links[x]);
      forall p | p in links[x]
        ensures Above(links, start, p)
      {
        AboveLink(links, x, p);
        AboveTransitive(links, start, x, p);
      }
      stack := stack - {x};
      seen := seen + {x};
      reached := reached + {x};
      stack := stack + links[x];
    }
    forall a | a in Reach(links, start)
      ensures a in reached
    {
      var n: nat :| n >= 1 && Chain(links, start, a, n);
      ClosedSetCatchesChain(links, reached, start, a, n);
    }
  }

  // ------------------------------------------------------------- the class

  class Taxonomy {
    var categories: CategoryMap

    constructor ()
      ensures categories == Derived(map[]) && Consistent(categories)
    {
      categories := map[];
      new;
      EmptyConsistent();
    }

    constructor Load(c: CategoryMap)
      ensures categories == c
    {
      categories := c;
    }

    /** Stores a category, and notes its name if that altered it. */
    method Put(x: Name, c: Category, modified: set<Name>, ghost before: CategoryMap)
      returns (noted: set<Name>)
      requires x in categories
      requires c == categories[x] || x !in before || c != before[x]
      requires Changed(before, categories) <= modified
      modifies this
      ensures categories == old(categories)[x := c]
      ensures noted == modified + Changed(before, categories)
      ensures Changed(before, old(categories)) <= Changed(before, categories)
    {
      noted := if c != categories[x] then modified + {x} else modified;
      categories := categories[x := c];
    }

    method Add(cat: Name, modified: set<Name>) returns (noted: set<Name>)
      requires Consistent(categories)
      modifies this
      ensures categories.Keys == old(categories).Keys + {cat}
      ensures forall x :: x in old(categories) ==> categories[x] == old(categories)[x]
      ensures cat !in old(categories) ==> categories[cat] == Category(cat, {}, {}, {}, {})
      ensures categories == Derived(Apply(old(ParentLinks(categories)), PutCategory(cat)))
      ensures Consistent(categories)
      ensures noted == modified + Changed(old(categories), categories)
    {
      ghost var g := ParentLinks(categories);
      noted := modified;
      if cat !in categories {
        categories := categories[cat := Category(cat, {}, {}, {}, {})];
        noted := noted + {cat};
        AddIsDerived(g, cat);
        assert ParentLinks(categories) == WithNode(g, cat);
      }
    }

    method RecalcAncestors(x: Name, modified: set<Name>,
                           ghost before: CategoryMap, ghost base: CategoryMap,
                           ghost lows: set<Name>, ghost highs: set<Name>)
      returns (noted: set<Name>)
      requires categories == Recalculated(base, lows, highs)
      requires x in base && x !in lows && Dag(ParentLinks(base))
      requires x in before && before[x].ancestors == base[x].ancestors
      requires Changed(before, categories) <= modified
      modifies this
      ensures categories == Recalculated(base, lows + {x}, highs)
      ensures noted == modified + Changed(before, categories)
      ensures Changed(before, old(categories)) <= Changed(before, categories)
    {
      RecalculatedLinks(base, lows, highs);
      var ancestors := Worklist(ParentLinks(categories), x);
      noted := Put(x, categories[x].(ancestors := ancestors), modified, before);
    }

    method RecalcAllAncestors(s: set<Name>, modified: set<Name>,
                              ghost before: CategoryMap, ghost base: CategoryMap,
                              ghost lows: set<Name>, ghost highs: set<Name>)
      returns (noted: set<Name>)
      requires categories == Recalculated(base, lows, highs)
      requires s <= base.Keys && s !! lows && Dag(ParentLinks(base))
      requires forall x :: x in s ==> x in before && before[x].ancestors == base[x].ancestors
      requires Changed(before, categories) <= modified
      modifies this
      ensures categories == Recalculated(base, lows + s, highs)
      ensures noted == modified + Changed(before, categories)
      ensures Changed(before, old(categories)) <= Changed(before, categories)
    {
      hide Recalculated, Changed, Dag;
      noted := modified;
      var todo := s;
      ghost var did := lows;
      while todo != {}
        invariant todo <= s && todo !! did && did + todo == lows + s
        invariant categories == Recalculated(base, did, highs)
        invariant Changed(before, old(categories)) <= Changed(before, categories)
        invariant Changed(before, categories) <= noted
        invariant noted <= modified + Changed(before, categories) && modified <= noted
      {
        var x :| x in todo;
        noted := RecalcAncestors(x, noted, before, base, did, highs);
        todo, did := todo - {x}, did + {x};
      }
      assert did == lows + s;
    }

    method RecalcDescendants(x: Name, modified: set<Name>,
                           ghost before: CategoryMap, ghost base: CategoryMap,
                           ghost lows: set<Name>, ghost highs: set<Name>)
      returns (noted: set<Name>)
      requires categories == Recalculated(base, lows, highs)
      requires x in base && x !in highs && Dag(ChildLinks(base))
      requires x in before && before[x].descendants == base[x].descendants
      requires Changed(before, categories) <= modified
      modifies this
      ensures categories == Recalculated(base, lows, highs + {x})
      ensures noted == modified + Changed(before, categories)
      ensures Changed(before, old(categories)) <= Changed(before, categories)
    {
      RecalculatedLinks(base, lows, highs);
      var descendants := Worklist(ChildLinks(categories), x);
      noted := Put(x, categories[x].(descendants := descendants), modified, before);
    }

    method RecalcAllDescendants(s: set<Name>, modified: set<Name>,
                              ghost before: CategoryMap, ghost base: CategoryMap,
                              ghost lows: set<Name>, ghost highs: set<Name>)
      returns (noted: set<Name>)
      requires categories == Recalculated(base, lows, highs)
      requires s <= base.Keys && s !! highs && Dag(ChildLinks(base))
      requires forall x :: x in s ==> x in before && before[x].descendants == base[x].descendants
      requires Changed(before, categories) <= modified
      modifies this
      ensures categories == Recalculated(base, lows, highs + s)
      ensures noted == modified + Changed(before, categories)
      ensures Changed(before, old(categories)) <= Changed(before, categories)
    {
      hide Recalculated, Changed, Dag;
      noted := modified;
      var todo := s;
      ghost var did := highs;
      while todo != {}
        invariant todo <= s && todo !! did && did + todo == highs + s
        invariant categories == Recalculated(base, lows, did)
        invariant Changed(before, old(categories)) <= Changed(before, categories)
        invariant Changed(before, categories) <= noted
        invariant noted <= modified + Changed(before, categories) && modified <= noted
      {
        var x :| x in todo;
        noted := RecalcDescendants(x, noted, before, base, lows, did);
        todo, did := todo - {x}, did + {x};
      }
      assert did == highs + s;
    }

    /** The nested loops of `add_parent`: all of `down` goes below all of `up`. */
    method LinkAll(down: set<Name>, up: set<Name>, modified: set<Name>)
      returns (noted: set<Name>)
      requires down <= categories.Keys && up <= categories.Keys && down !! up
      modifies this
      ensures categories == Linked(old(categories), down, up)
      ensures noted == modified + Changed(old(categories), categories)
    {
      hide Linked, Grows, Changed, NoneRestored;
      ghost var before := categories;
      noted := modified;
      var todo := down;
      LinkedNothing(before, up);
      UnchangedNothing(before);
      assert down - todo == {};
      while todo != {}
        invariant todo <= down
        invariant categories == Linked(before, down - todo, up)
        invariant noted == modified + Changed(before, categories)
      {
        var i :| i in todo;
        ghost var mid := categories;
        noted := LinkOne(i, up, noted);
        LinkedGrows(before, down - todo, up);
        LinkedGrows(mid, {i}, up);
        GrowingChanges(before, mid, categories);
        LinkedMore(before, down - todo, up, i);
        assert down - (todo - {i}) == down - todo + {i};
        todo := todo - {i};
      }
      assert down - todo == down;
    }

    method LinkOne(i: Name, up: set<Name>, modified: set<Name>) returns (noted: set<Name>)
      requires i in categories && up <= categories.Keys && i !in up
      modifies this
      ensures categories == Linked(old(categories), {i}, up)
      ensures noted == modified + Changed(old(categories), categories)
    {
      hide Linked, Changed;
      ghost var before := categories;
      noted := modified;
      var todo := up;
      LinkedToNothing(before, i);
      UnchangedNothing(before);
      assert up - todo == {};
      while todo != {}
        invariant todo <= up
        invariant categories == Linked(before, {i}, up - todo)
        invariant noted == modified + Changed(before, categories)
      {
        var j :| j in todo;
        LinkedStep(before, i, up - todo, j);
        noted := Put(i, categories[i].AddAncestor(j), noted, before);
        noted := Put(j, categories[j].AddDescendant(i), noted, before);
        assert up - (todo - {j}) == up - todo + {j};
        todo := todo - {j};
      }
      assert up - todo == up;
    }

    method LinkDirectly(cat: Name, parent: Name, modified: set<Name>) returns (noted: set<Name>)
      requires cat in categories && parent in categories && cat != parent
      modifies this
      ensures categories == LinkPair(old(categories), cat, parent)
      ensures noted == modified + Changed(old(categories), categories)
      ensures Grows(old(categories), categories)
    {
      hide Changed;
      ghost var c := categories;
      UnchangedNothing(c);
      noted := LinkUp(cat, parent, modified, modified, c);
      noted := LinkDown(cat, parent, modified, noted, c);
    }

    method LinkUp(cat: Name, parent: Name, ghost base: set<Name>, modified: set<Name>, ghost c: CategoryMap)
      returns (noted: set<Name>)
      requires categories == c && cat in c && modified == base + Changed(c, categories)
      modifies this
      ensures categories == c[cat := c[cat].AddParent(parent)]
      ensures noted == base + Changed(c, categories)
    {
      hide Changed;
      noted := Put(cat, categories[cat].AddParent(parent), modified, c);
      assert categories[cat].AddAncestor(parent) == categories[cat];
      noted := Put(cat, categories[cat].AddAncestor(parent), noted, c);
    }

    method LinkDown(cat: Name, parent: Name, ghost base: set<Name>, modified: set<Name>, ghost c: CategoryMap)
      returns (noted: set<Name>)
      requires parent in categories && parent in c && categories[parent] == c[parent]
      requires categories.Keys == c.Keys && modified == base + Changed(c, categories)
      modifies this
      ensures categories == old(categories)[parent := c[parent].AddChild(cat)]
      ensures noted == base + Changed(c, categories)
    {
      hide Changed;
      noted := Put(parent, categories[parent].AddChild(cat), modified, c);
      assert categories[parent].AddDescendant(cat) == categories[parent];
      noted := Put(parent, categories[parent].AddDescendant(cat), noted, c);
    }

    /** The part of `add_parent` that follows its checks. */
    method LinkUnder(cat: Name, parent: Name, modified: set<Name>) returns (noted: set<Name>)
      requires Consistent(categories) && cat in categories && parent in categories
      requires !AboveOrSelf(ParentLinks(categories), parent, cat)
      modifies this
      ensures categories == LinkedIn(old(categories), cat, parent)
      ensures noted == modified + Changed(old(categories), categories)
      ensures Grows(old(categories), categories)
    {
      hide Linked, Changed, Consistent, Above, Grows;
      ghost var c := categories;
      LinkRoundsDisjoint(c, cat, parent);
      noted := LinkDirectly(cat, parent, modified);
      ghost var c2 := categories;
      noted := LinkAll(categories[cat].descendants, categories[cat].ancestors, noted);
      ghost var c3 := categories;
      assert c3 == LinkThrough(c2, cat);
      noted := LinkAll(categories[parent].descendants, categories[parent].ancestors, noted);
      LinkedGrows(c2, c2[cat].descendants, c2[cat].ancestors);
      LinkedGrows(c3, c3[parent].descendants, c3[parent].ancestors);
      GrowingChanges(c, c2, c3);
      GrowingChanges(c, c3, categories);
    }

    /** The loop check of `add_parent`: its test on the ancestors of `parent` finds
        nothing that the test on `parent` itself would not. */
    method ClosesLoop(cat: Name, parent: Name) returns (closes: bool)
      requires Consistent(categories) && cat in categories && parent in categories
      ensures closes <==> Above(ParentLinks(categories), parent, cat)
    {
      var todo := categories[parent].ancestors;
      while todo != {}
        invariant todo <= categories[parent].ancestors
      {
        var i :| i in todo;
        if i in categories[cat].descendants {
          AboveTransitive(ParentLinks(categories), parent, i, cat);
          return true;
        }
        todo := todo - {i};
      }
      return parent in categories[cat].descendants;
    }

    /** Returns false, having changed nothing, where the source throws. */
    method AddParent(cat: Name, parent: Name, modified: set<Name>)
      returns (ok: bool, noted: set<Name>)
      requires Consistent(categories)
      modifies this
      ensures ok <==> cat != parent && !(parent in old(categories) && cat in old(categories)[parent].ancestors)
      ensures !ok ==> categories == old(categories)
      ensures ok ==> categories.Keys == old(categories).Keys + {cat, parent}
      ensures ok ==> forall x :: x in categories ==>
                categories[x].parents == (if x in old(categories) then old(categories)[x].parents else {})
                                         + if x == cat then {parent} else {}
      ensures ok <==> Accepts(old(ParentLinks(categories)), PutParent(cat, parent))
      ensures categories == Derived(Apply(old(ParentLinks(categories)), PutParent(cat, parent)))
      ensures Consistent(categories)
      ensures noted == modified + Changed(old(categories), categories)
    {
      hide Derived, Changed, Above, Grows, LinkedIn, Closed, Acyclic;
      ghost var before := categories;
      ghost var g := ParentLinks(categories);
      AcceptsMeans(before, cat, parent);
      UnchangedNothing(before);
      noted := modified;
      if cat == parent {
        return false, noted;
      }
      noted := Add(cat, noted);
      ghost var c1 := categories;
      AddedPair(g, cat, parent);
      DerivedLinks(WithNode(g, cat));
      noted := Add(parent, noted);
      ghost var c2 := categories;
      ghost var h := WithNode(WithNode(g, cat), parent);
      DerivedLinks(h);
      var closes := ClosesLoop(cat, parent);
      if closes {
        RefusedPair(g, cat, parent);
        return false, noted;
      }
      noted := LinkUnder(cat, parent, noted);
      AddGrows(g, cat);
      AddGrows(WithNode(g, cat), parent);
      GrowingChanges(before, c1, c2);
      GrowingChanges(before, c2, categories);
      LinkedInIsDerived(h, cat, parent);
      ApplyDag(g, PutParent(cat, parent));
      DerivedLinks(WithLink(g, cat, parent));
      LinkedLinks(before, categories, cat, parent);
      return true, noted;
    }

    method RemoveParent(cat: Name, parent: Name, modified: set<Name>) returns (noted: set<Name>)
      requires Consistent(categories)
      modifies this
      ensures categories.Keys == old(categories).Keys
      ensures forall x :: x in categories ==>
                categories[x].parents == old(categories)[x].parents - if x == cat then {parent} else {}
      ensures categories == Derived(Apply(old(ParentLinks(categories)), DeleteParent(cat, parent)))
      ensures Consistent(categories)
      ensures noted == modified + Changed(old(categories), categories)
    {
      hide Derived, Changed, Dag, Above;
      noted := modified;
      ghost var before := categories;
      ghost var g := ParentLinks(categories);
      UnchangedNothing(before);
      if cat == parent || cat !in categories || parent !in categories {
        NothingToUnlink(g, cat, parent);
        UnlinkedLinks(before, categories, cat, parent);
        return;
      }
      ApplyDag(g, DeleteParent(cat, parent));
      DerivedLinks(WithoutLink(g, cat, parent));
      noted := Put(parent, categories[parent].RemoveChild(cat), noted, before);
      noted := Put(cat, categories[cat].RemoveParent(parent), noted, before);
      noted := RecalcUnlinked(cat, parent, noted, before, g);
      UnlinkedLinks(before, categories, cat, parent);
    }

    /** The recalculations of `remove_parent`. */
    method RecalcUnlinked(cat: Name, parent: Name, modified: set<Name>, ghost before: CategoryMap, ghost g: Graph)
      returns (noted: set<Name>)
      requires Dag(g) && before == Derived(g) && cat in g && parent in g && cat != parent
      requires categories == Unlinked(before, cat, parent)
      requires Changed(before, categories) <= modified
      modifies this
      ensures categories == Derived(WithoutLink(g, cat, parent))
      ensures noted == modified + Changed(before, categories)
      ensures Changed(before, old(categories)) <= Changed(before, categories)
    {
      hide Derived, Changed, Dag, Above, Recalculated, Reach, ReachedBy, WithoutLink;
      ghost var c := categories;
      UnlinkedStored(g, cat, parent);
      UnlinkedRanges(g, cat, parent);
      RecalculatedLinks(c, {}, {});
      noted := RecalcAncestors(cat, modified, before, c, {}, {});
      ghost var lows, highs := {} + {cat}, {} + {parent};
      noted := RecalcDescendants(parent, noted, before, c, lows, {});
      RecalculatedKeeps(c, lows, highs, cat);
      ghost var below := categories[cat].descendants;
      assert below == ReachedBy(g, cat);
      noted := RecalcAllAncestors(categories[cat].descendants, noted, before, c, lows, highs);
      lows := lows + below;
      assert lows == {cat} + ReachedBy(g, cat) && highs == {parent};
      ghost var above := categories[parent].ancestors;
      noted := RecalcAllDescendants(categories[parent].ancestors, noted, before, c, lows, highs);
      UnlinkedIsDerived(g, cat, parent);
    }

    method Remove(cat: Name, modified: set<Name>) returns (noted: set<Name>)
      requires Consistent(categories)
      modifies this
      ensures categories.Keys == old(categories).Keys - {cat}
      ensures forall x :: x in categories ==> categories[x].parents == old(categories)[x].parents - {cat}
      ensures categories == Derived(Apply(old(ParentLinks(categories)), DeleteCategory(cat)))
      ensures Consistent(categories)
      ensures noted == modified + Changed(old(categories), categories)
    {
      hide Derived, Dag, Above, Recalculated, Dropped, Reach, ReachedBy, Reverse, Changed;
      noted := modified;
      ghost var before := categories;
      ghost var g := ParentLinks(categories);
      UnchangedNothing(before);
      if cat !in categories {
        NothingToRemove(g, cat);
        RemovedLinks(before, categories, cat);
        return;
      }
      ApplyDag(g, DeleteCategory(cat));
      DerivedLinks(Without(g, cat));
      noted := Detach(cat, noted, before, g);
      noted := RecalcDetached(cat, noted, before, g);
      RemovedIsDerived(g, cat);
      ForgottenChanges(before, categories, cat);
      categories := categories - {cat};
      noted := noted + {cat};
      RemovedLinks(before, categories, cat);
    }

    /** The loops of `remove` that make the neighbours of `cat` forget it. */
    method Detach(cat: Name, modified: set<Name>, ghost before: CategoryMap, ghost g: Graph)
      returns (noted: set<Name>)
      requires Dag(g) && cat in g && before == Derived(g) && categories == before
      modifies this
      ensures categories == Dropped(before, cat, g[cat], Reverse(g)[cat])
      ensures noted == modified + Changed(before, categories)
    {
      hide Derived, Dag, Dropped, Reverse, Changed;
      DerivedAt(g, cat);
      DroppedStored(g, cat);
      noted := DetachFromParents(categories[cat].parents, cat, modified, before, g);
      DroppedAt(before, cat, g[cat], {}, cat);
      noted := DetachFromChildren(categories[cat].children, cat, modified, noted, before, g);
    }

    method DetachFromParents(parents: set<Name>, cat: Name, modified: set<Name>, ghost before: CategoryMap,
                             ghost g: Graph)
      returns (noted: set<Name>)
      requires Dag(g) && cat in g && before == Derived(g) && categories == before && parents == g[cat]
      modifies this
      ensures categories == Dropped(before, cat, g[cat], {})
      ensures noted == modified + Changed(before, categories)
    {
      hide Derived, Dag, Dropped, Reverse, Changed;
      DerivedAt(g, cat);
      DroppedStored(g, cat);
      DroppedNothing(before, cat);
      UnchangedNothing(before);
      noted := modified;
      var todo := parents;
      ghost var did := {};
      while todo != {}
        invariant todo !! did && did + todo == g[cat]
        invariant categories == Dropped(before, cat, did, {})
        invariant noted == modified + Changed(before, categories)
      {
        var x :| x in todo;
        DropChild(before, cat, did, {}, x);
        noted := Put(x, categories[x].RemoveChild(cat), noted, before);
        todo, did := todo - {x}, did + {x};
      }
      assert did == g[cat];
    }

    method DetachFromChildren(children: set<Name>, cat: Name, modified: set<Name>, noting: set<Name>,
                              ghost before: CategoryMap, ghost g: Graph)
      returns (noted: set<Name>)
      requires Dag(g) && cat in g && before == Derived(g) && children == Reverse(g)[cat]
      requires categories == Dropped(before, cat, g[cat], {}) && noting == modified + Changed(before, categories)
      modifies this
      ensures categories == Dropped(before, cat, g[cat], Reverse(g)[cat])
      ensures noted == modified + Changed(before, categories)
    {
      hide Derived, Dag, Dropped, Reverse, Changed;
      DerivedAt(g, cat);
      DroppedStored(g, cat);
      noted := noting;
      var todo := children;
      ghost var did := {};
      while todo != {}
        invariant todo !! did && did + todo == Reverse(g)[cat]
        invariant categories == Dropped(before, cat, g[cat], did)
        invariant noted == modified + Changed(before, categories)
      {
        var x :| x in todo;
        DropParent(before, cat, g[cat], did, x);
        noted := Put(x, categories[x].RemoveParent(cat), noted, before);
        todo, did := todo - {x}, did + {x};
      }
      assert did == Reverse(g)[cat];
    }

    /** The recalculations of `remove`. */
    method RecalcDetached(cat: Name, modified: set<Name>, ghost before: CategoryMap, ghost g: Graph)
      returns (noted: set<Name>)
      requires Dag(g) && cat in g && before == Derived(g)
      requires categories == Dropped(before, cat, g[cat], Reverse(g)[cat])
      requires Changed(before, categories) <= modified
      modifies this
      ensures categories == Recalculated(old(categories), ReachedBy(g, cat), Reach(g, cat))
      ensures noted == modified + Changed(before, categories)
      ensures Changed(before, old(categories)) <= Changed(before, categories)
    {
      hide Derived, Dag, Dropped, Reverse, Changed, Recalculated, Reach, ReachedBy;
      ghost var c := categories;
      DerivedAt(g, cat);
      DroppedStored(g, cat);
      DroppedRanges(g, cat);
      RecalculatedLinks(c, {}, {});
      noted := RecalcAllDescendants(categories[cat].ancestors, modified, before, c, {}, {});
      assert {} + Reach(g, cat) == Reach(g, cat);
      RecalculatedKeeps(c, {}, Reach(g, cat), cat);
      noted := RecalcAllAncestors(categories[cat].descendants, noted, before, c, {}, Reach(g, cat));
      assert {} + ReachedBy(g, cat) == ReachedBy(g, cat);
    }

    /** One edit of the taxonomy; only a refused parent link is not ok. */
    method Perform(e: Edit, modified: set<Name>) returns (ok: bool, noted: set<Name>)
      requires Consistent(categories)
      modifies this
      ensures e.PutCategory? ==> ok && categories.Keys == old(categories).Keys + {e.cat}
      ensures e.PutCategory? ==> forall x :: x in old(categories) ==> categories[x] == old(categories)[x]
      ensures e.DeleteCategory? ==> ok && categories.Keys == old(categories).Keys - {e.cat}
      ensures e.DeleteCategory? ==>
                forall x :: x in categories ==> categories[x].parents == old(categories)[x].parents - {e.cat}
      ensures e.PutParent? ==>
                (ok <==> e.cat != e.parent
                         && !(e.parent in old(categories) && e.cat in old(categories)[e.parent].ancestors))
      ensures e.PutParent? && ok ==> categories.Keys == old(categories).Keys + {e.cat, e.parent}
      ensures e.PutParent? && ok ==> forall x :: x in categories ==>
                categories[x].parents == (if x in old(categories) then old(categories)[x].parents else {})
                                         + if x == e.cat then {e.parent} else {}
      ensures e.DeleteParent? ==> ok && categories.Keys == old(categories).Keys
      ensures e.DeleteParent? ==> forall x :: x in categories ==>
                categories[x].parents == old(categories)[x].parents - if x == e.cat then {e.parent} else {}
      ensures ok <==> Accepts(old(ParentLinks(categories)), e)
      ensures categories == Derived(Apply(old(ParentLinks(categories)), e)) && Consistent(categories)
      ensures !ok ==> categories == old(categories)
      ensures forall x :: x in noted <==>
                || x in modified
                || (x in old(categories) && x !in categories)
                || (x in categories && (x in old(categories) ==> categories[x] != old(categories)[x]))
      ensures noted == modified + Changed(old(categories), categories)
    {
      hide Derived, Changed, Apply, Accepts, ParentLinks, Consistent;
      AcceptsAlways(ParentLinks(categories), e);
      ok := true;
      match e {
        case PutCategory(cat) => noted := Add(cat, modified);
        case DeleteCategory(cat) => noted := Remove(cat, modified);
        case PutParent(cat, parent) => ok, noted := AddParent(cat, parent, modified);
        case DeleteParent(cat, parent) => noted := RemoveParent(cat, parent, modified);
      }
      ChangedAre(old(categories), categories);
    }

    /** Any run of edits keeps every stored relation exact. */
    method PerformAll(edits: seq<Edit>)
      requires Consistent(categories)
      modifies this
      ensures Consistent(categories)
      ensures categories == Derived(ApplyAll(old(ParentLinks(categories)), edits))
    {
      ghost var g := ParentLinks(categories);
      DerivedLinks(g);
      for i := 0 to |edits|
        invariant Consistent(categories)
        invariant ApplyAll(g, edits) == ApplyAll(ParentLinks(categories), edits[i..])
      {
        ghost var h := ParentLinks(categories);
        var ok, noted := Perform(edits[i], {});
        DerivedLinks(Apply(h, edits[i]));
        assert edits[i..][1..] == edits[i + 1..];
      }
      assert edits[|edits|..] == [];
    }
  }
}
