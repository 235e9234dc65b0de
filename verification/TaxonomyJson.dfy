/**
 Writing a taxonomy out as JSON and reading it back.  Only the parent links are
 written; reading rebuilds everything else, one link at a time, in whatever order
 the links are listed.
 */
module TaxonomyJson {
  import opened Options
  import opened JsonValues
  import opened ParentGraph
  import opened TaxonomySpec
  import opened Taxonomies

  // --------------------------------------------------- reading, on graphs

  /** Reads the listed parents of `cat` into `g`; none if one is refused or no string. */
  ghost function ReadParents(g: Graph, cat: Name, parents: seq<Json>): Option<Graph>
    decreases |parents|
  {
    if parents == [] then Some(g)
    else if parents[0].Str? && Accepts(g, PutParent(cat, parents[0].s)) then
      ReadParents(WithLink(g, cat, parents[0].s), cat, parents[1..])
    else None
  }

  ghost function ReadMember(g: Graph, m: Member): Option<Graph> {
    if m.value.IsArray() then ReadParents(WithNode(g, m.name), m.name, m.value.Items()) else None
  }

  ghost function ReadMembers(g: Graph, members: seq<Member>): Option<Graph>
    decreases |members|
  {
    if members == [] then Some(g)
    else
      match ReadMember(g, members[0])
      case None => None
      case Some(h) => ReadMembers(h, members[1..])
  }

  ghost function Read(value: Json): Option<Graph> {
    if value.IsObject() then ReadMembers(map[], value.Members()) else None
  }

  // ------------------------------------------------------- what is written

  /** An array with each of the names once, in any order. */
  ghost predicate ListsNames(value: Json, names: set<Name>) {
    && value.Arr?
    && (forall i, j :: 0 <= i < j < |value.items| ==> value.items[i] != value.items[j])
    && (forall i :: 0 <= i < |value.items| ==> value.items[i].Str? && value.items[i].s in names)
    && (forall p :: p in names ==> Str(p) in value.items)
  }

  ghost predicate Mentions(members: seq<Member>, x: Name) {
    exists i :: 0 <= i < |members| && members[i].name == x
  }

  /** An object with one member for each category, listing its parents, in any order. */
  ghost predicate ListsGraph(value: Json, g: Graph) {
    && value.Obj?
    && (forall i :: 0 <= i < |value.members| ==>
          value.members[i].name in g && ListsNames(value.members[i].value, g[value.members[i].name]))
    && (forall x :: x in g ==> Mentions(value.members, x))
    && (forall i, j :: 0 <= i < j < |value.members| ==> value.members[i].name != value.members[j].name)
  }

  // ------------------------------------------------------------ round trip

  /** Every link and category of `h` belongs to `g`. */
  ghost predicate PartOf(h: Graph, g: Graph) {
    forall x :: x in h ==> x in g && h[x] <= g[x]
  }

  /** No link of a DAG is ever refused, whatever part of the DAG is there already. */
  lemma {:induction false} ReadParentsOfDag(h: Graph, g: Graph, cat: Name, parents: seq<Json>)
    requires Dag(g) && PartOf(h, g) && Closed(h) && cat in h
    requires forall i :: 0 <= i < |parents| ==> parents[i].Str? && parents[i].s in g[cat]
    ensures var r := ReadParents(h, cat, parents);
      && r.Some? && PartOf(r.value, g) && PartOf(h, r.value) && Closed(r.value)
      && forall p :: Str(p) in parents ==> p in r.value[cat]
    decreases |parents|
  {
    if parents != [] {
      var p := parents[0].s;
      AboveLink(g, cat, p);
      if Above(h, p, cat) {
        AboveMonotone(h, g, p, cat);
        AboveTransitive(g, cat, p, cat);
      }
      assert Accepts(h, PutParent(cat, p));
      ReadParentsOfDag(WithLink(h, cat, p), g, cat, parents[1..]);
      forall q | Str(q) in parents
        ensures q in ReadParents(h, cat, parents).value[cat]
      {
        if Str(q) != parents[0] {
          assert Str(q) in parents[1..];
        }
      }
    }
  }

  lemma {:induction false} ReadMembersOfDag(h: Graph, g: Graph, members: seq<Member>)
    requires Dag(g) && PartOf(h, g) && Closed(h)
    requires forall i :: 0 <= i < |members| ==>
               members[i].name in g && ListsNames(members[i].value, g[members[i].name])
    ensures var r := ReadMembers(h, members);
      && r.Some? && PartOf(r.value, g) && PartOf(h, r.value) && Closed(r.value)
      && forall i :: 0 <= i < |members| ==>
           members[i].name in r.value && g[members[i].name] <= r.value[members[i].name]
    decreases |members|
  {
    hide Dag, PartOf, Closed, ListsNames, ReadMember;
    if members == [] {
      PartOfItself(h);
    } else {
      ReadMemberOfDag(h, g, members[0]);
      var h1 := ReadMember(h, members[0]).value;
      ReadMembersOfDag(h1, g, members[1..]);
      var r := ReadMembers(h1, members[1..]).value;
      PartOfTransitive(h, h1, r);
      LargerMember(h1, r, members[0].name, g[members[0].name]);
      forall i | 0 < i < |members|
        ensures members[i].name in r && g[members[i].name] <= r[members[i].name]
      {
        assert members[1..][i - 1] == members[i];
      }
    }
  }

  lemma PartOfItself(h: Graph)
    ensures PartOf(h, h)
  {
  }

  lemma PartOfTransitive(a: Graph, b: Graph, c: Graph)
    requires PartOf(a, b) && PartOf(b, c)
    ensures PartOf(a, c)
  {
  }

  lemma LargerMember(a: Graph, b: Graph, x: Name, links: set<Name>)
    requires PartOf(a, b) && x in a && links <= a[x]
    ensures x in b && links <= b[x]
  {
  }

  lemma ReadMemberOfDag(h: Graph, g: Graph, m: Member)
    requires Dag(g) && PartOf(h, g) && Closed(h) && m.name in g && ListsNames(m.value, g[m.name])
    ensures var r := ReadMember(h, m);
      && r.Some? && PartOf(r.value, g) && PartOf(h, r.value) && Closed(r.value)
      && m.name in r.value && g[m.name] <= r.value[m.name]
  {
    hide Dag;
    var h0 := WithNode(h, m.name);
    ReadParentsOfDag(h0, g, m.name, m.value.items);
    PartOfTransitive(h, h0, ReadMember(h, m).value);
  }

  /** Whatever order the categories and their parents are listed in, reading them
      back gives the same graph, and no link is refused on the way. */
  lemma ReadBack(value: Json, g: Graph)
    requires Dag(g) && ListsGraph(value, g)
    ensures Read(value) == Some(g)
  {
    hide ReadMembers, Dag, ListsNames;
    ReadMembersOfDag(map[], g, value.members);
    var r := Read(value).value;
    forall x | x in g
      ensures x in r && r[x] == g[x]
    {
      assert Mentions(value.members, x);
    }
    SameMap(r, g);
  }

  // ------------------------------------------- what can be read, and as what

  /** Some member of that name lists the parent. */
  ghost predicate Lists(members: seq<Member>, x: Name, p: Name) {
    exists i :: 0 <= i < |members| && members[i].name == x && members[i].value.Arr? && Str(p) in members[i].value.items
  }

  /** The member lists names, or nothing. */
  ghost predicate WellTyped(m: Member) {
    m.value.Null? || (m.value.Arr? && forall i :: 0 <= i < |m.value.items| ==> m.value.items[i].Str?)
  }

  /** The graph has the categories and links of `h`, and those of the members. */
  ghost predicate Extends(h: Graph, members: seq<Member>, g: Graph) {
    && (forall i :: 0 <= i < |members| ==> WellTyped(members[i]))
    && (forall x :: x in g <==> x in h || Mentions(members, x) || exists y :: Lists(members, y, x))
    && (forall x, p :: x in g ==> (p in g[x] <==> (x in h && p in h[x]) || Lists(members, x, p)))
  }

  /** The categories that the object has as members or lists, with the parents it lists. */
  ghost predicate Describes(value: Json, g: Graph) {
    (value.Obj? || value.Null?) && Extends(map[], if value.Obj? then value.members else [], g)
  }

  lemma {:induction false} ReadParentsDag(h: Graph, cat: Name, parents: seq<Json>)
    requires Dag(h) && ReadParents(h, cat, parents).Some?
    ensures Dag(ReadParents(h, cat, parents).value) && forall i :: 0 <= i < |parents| ==> parents[i].Str?
    decreases |parents|
  {
    if parents != [] {
      hide Dag, WithLink;
      ApplyDag(h, PutParent(cat, parents[0].s));
      ReadParentsDag(WithLink(h, cat, parents[0].s), cat, parents[1..]);
    }
  }

  lemma {:induction false} ReadParentsAt(h: Graph, cat: Name, parents: seq<Json>, x: Name, p: Name)
    requires cat in h && ReadParents(h, cat, parents).Some?
    ensures var r := ReadParents(h, cat, parents).value;
      && (x in r <==> x in h || Str(x) in parents)
      && (x in r ==> (p in r[x] <==> (x in h && p in h[x]) || (x == cat && Str(p) in parents)))
    decreases |parents|
  {
    if parents != [] {
      hide Accepts, WithLink;
      var next := WithLink(h, cat, parents[0].s);
      LinkAt(h, cat, parents[0].s, x, p);
      LinkAt(h, cat, parents[0].s, cat, p);
      ReadParentsAt(next, cat, parents[1..], x, p);
      assert parents == [parents[0]] + parents[1..];
    }
  }

  lemma LinkAt(h: Graph, cat: Name, parent: Name, x: Name, p: Name)
    requires cat in h
    ensures var next := WithLink(h, cat, parent);
      && (x in next <==> x in h || x == parent)
      && (x in next ==> (p in next[x] <==> (x in h && p in h[x]) || (x == cat && p == parent)))
  {
  }

  lemma ReadMemberAt(h: Graph, m: Member, x: Name, p: Name)
    requires ReadMember(h, m).Some?
    ensures var r := ReadMember(h, m).value;
      && (x in r <==> x in h || Mentions([m], x) || Lists([m], m.name, x))
      && (x in r ==> (p in r[x] <==> (x in h && p in h[x]) || Lists([m], x, p)))
      && (Lists([m], x, p) ==> x == m.name)
  {
    hide ReadParents, Lists, Mentions;
    OneMember(m, x, p);
    OneMember(m, m.name, x);
    ReadParentsAt(WithNode(h, m.name), m.name, m.value.Items(), x, p);
  }

  lemma ReadMemberIs(h: Graph, m: Member)
    requires Dag(h) && ReadMember(h, m).Some?
    ensures Dag(ReadMember(h, m).value) && Extends(h, [m], ReadMember(h, m).value)
  {
    ApplyDag(h, PutCategory(m.name));
    ReadParentsDag(WithNode(h, m.name), m.name, m.value.Items());
    hide Dag, ReadParents, WithNode, Lists, Mentions;
    assert WellTyped([m][0]);
    hide ReadMember, WellTyped;
    var r := ReadMember(h, m).value;
    forall x
      ensures x in r <==> x in h || Mentions([m], x) || exists y :: Lists([m], y, x)
    {
      ReadMemberAt(h, m, x, x);
      if y :| Lists([m], y, x) {
        ReadMemberAt(h, m, y, x);
      }
    }
    forall x, p | x in r
      ensures p in r[x] <==> (x in h && p in h[x]) || Lists([m], x, p)
    {
      ReadMemberAt(h, m, x, p);
    }
  }

  lemma OneMember(m: Member, x: Name, p: Name)
    ensures Lists([m], x, p) <==> x == m.name && m.value.Arr? && Str(p) in m.value.items
    ensures Mentions([m], x) <==> x == m.name
  {
    assert [m][0] == m;
  }

  lemma ExtendsMore(h: Graph, m: Member, g: Graph, rest: seq<Member>, r: Graph)
    requires Extends(h, [m], g) && Extends(g, rest, r)
    ensures Extends(h, [m] + rest, r)
  {
    var all := [m] + rest;
    forall x, p
      ensures Lists(all, x, p) <==> Lists([m], x, p) || Lists(rest, x, p)
    {
      ListsMore(m, rest, x, p);
    }
    forall x
      ensures Mentions(all, x) <==> Mentions([m], x) || Mentions(rest, x)
    {
      MentionsMore(m, rest, x);
    }
    assert [m][0] == m;
    hide Lists, Mentions, WellTyped;
  }

  lemma ListsMore(m: Member, rest: seq<Member>, x: Name, p: Name)
    ensures Lists([m] + rest, x, p) <==> Lists([m], x, p) || Lists(rest, x, p)
  {
    var all := [m] + rest;
    assert all[0] == m && [m][0] == m;
    assert forall i :: 0 <= i < |rest| ==> all[i + 1] == rest[i];
  }

  lemma MentionsMore(m: Member, rest: seq<Member>, x: Name)
    ensures Mentions([m] + rest, x) <==> Mentions([m], x) || Mentions(rest, x)
  {
    var all := [m] + rest;
    assert all[0] == m && [m][0] == m;
    assert forall i :: 0 <= i < |rest| ==> all[i + 1] == rest[i];
  }

  lemma {:induction false} ReadMembersAre(h: Graph, members: seq<Member>)
    requires Dag(h) && ReadMembers(h, members).Some?
    ensures Dag(ReadMembers(h, members).value) && Extends(h, members, ReadMembers(h, members).value)
    decreases |members|
  {
    if members != [] {
      hide Dag, Extends, ReadMember;
      ReadMemberIs(h, members[0]);
      var g := ReadMember(h, members[0]).value;
      ReadMembersAre(g, members[1..]);
      ExtendsMore(h, members[0], g, members[1..], ReadMembers(g, members[1..]).value);
      assert members == [members[0]] + members[1..];
    }
  }

  /** Nothing that describes a part of a DAG is refused. */
  lemma {:induction false} ReadMembersWithin(h: Graph, g: Graph, members: seq<Member>)
    requires Dag(g) && PartOf(h, g) && Closed(h)
    requires forall i :: 0 <= i < |members| ==> WellTyped(members[i]) && members[i].name in g
    requires forall x, p :: Lists(members, x, p) ==> x in g && p in g[x]
    ensures ReadMembers(h, members).Some?
    decreases |members|
  {
    hide Dag, PartOf, Closed, WellTyped, ReadMember;
    if members != [] {
      forall p | members[0].value.Arr? && Str(p) in members[0].value.items
        ensures p in g[members[0].name]
      {
        assert Lists(members, members[0].name, p);
      }
      ReadMemberWithin(h, g, members[0]);
      forall x, p | Lists(members[1..], x, p)
        ensures x in g && p in g[x]
      {
        ListsMore(members[0], members[1..], x, p);
        assert members == [members[0]] + members[1..];
      }
      ReadMembersWithin(ReadMember(h, members[0]).value, g, members[1..]);
    }
  }

  lemma ReadMemberWithin(h: Graph, g: Graph, m: Member)
    requires Dag(g) && PartOf(h, g) && Closed(h) && m.name in g && WellTyped(m)
    requires m.value.Arr? ==> forall p :: Str(p) in m.value.items ==> p in g[m.name]
    ensures var r := ReadMember(h, m); r.Some? && PartOf(r.value, g) && Closed(r.value)
  {
    hide Dag;
    var items := m.value.Items();
    forall i | 0 <= i < |items|
      ensures items[i].Str? && items[i].s in g[m.name]
    {
      assert items[i] == Str(items[i].s) && items[i] in items;
    }
    ReadParentsOfDag(WithNode(h, m.name), g, m.name, items);
  }

  /** A value is read as a graph exactly if it describes it and the graph has no loop, in whatever order
      it lists the categories and their parents. */
  lemma ReadExact(value: Json, g: Graph)
    ensures Read(value) == Some(g) <==> Describes(value, g) && Dag(g)
  {
    EmptyConsistent();
    if value.IsObject() {
      var members := value.Members();
      if Read(value).Some? {
        ReadMembersAre(map[], members);
      }
      if Describes(value, g) && Dag(g) {
        forall i | 0 <= i < |members|
          ensures members[i].name in g
        {
          assert Mentions(members, members[i].name);
        }
        ReadMembersWithin(map[], g, members);
        DescribedOnce(members, g, Read(value).value);
      }
    }
  }

  lemma DescribedOnce(members: seq<Member>, g: Graph, r: Graph)
    requires Extends(map[], members, g) && Extends(map[], members, r)
    ensures g == r
  {
    hide Lists, Mentions;
    forall x | x in g
      ensures x in r && r[x] == g[x]
    {
      assert forall p :: p in g[x] <==> p in r[x];
    }
    SameMap(r, g);
  }

  // ----------------------------------------------------------- the methods

  method NamesToJson(names: set<Name>) returns (value: Json)
    ensures ListsNames(value, names)
  {
    var items: seq<Json> := [];
    var todo := names;
    while todo != {}
      invariant todo <= names
      invariant forall i :: 0 <= i < |items| ==> items[i].Str? && items[i].s in names
      invariant forall p :: p in names - todo ==> Str(p) in items
      invariant forall p :: p in todo ==> Str(p) !in items
      invariant forall i, j :: 0 <= i < j < |items| ==> items[i] != items[j]
    {
      var p :| p in todo;
      items := items + [Str(p)];
      todo := todo - {p};
    }
    value := Arr(items);
  }

  method ToJson(t: Taxonomy) returns (value: Json)
    requires Consistent(t.categories)
    ensures ListsGraph(value, ParentLinks(t.categories))
  {
    var members: seq<Member> := [];
    var todo := t.categories.Keys;
    ghost var g := ParentLinks(t.categories);
    while todo != {}
      invariant todo <= g.Keys
      invariant forall i :: 0 <= i < |members| ==>
                  members[i].name in g && ListsNames(members[i].value, g[members[i].name])
      invariant forall x :: x in g.Keys - todo ==> Mentions(members, x)
      invariant forall i :: 0 <= i < |members| ==> members[i].name !in todo
      invariant forall i, j :: 0 <= i < j < |members| ==> members[i].name != members[j].name
    {
      var x :| x in todo;
      var parents := NamesToJson(t.categories[x].parents);
      ghost var listed := members;
      members := members + [Member(x, parents)];
      todo := todo - {x};
      forall y | y in g.Keys - todo
        ensures Mentions(members, y)
      {
        if y == x {
          assert members[|members| - 1].name == y;
        } else {
          assert Mentions(listed, y);
          var i :| 0 <= i < |listed| && listed[i].name == y;
          assert members[i].name == y;
        }
      }
    }
    value := Obj(members);
  }

  /** Replaces the taxonomy by the one described; not ok where the source throws. */
  method FromJson(t: Taxonomy, value: Json) returns (ok: bool)
    modifies t
    ensures Consistent(t.categories)
    ensures ok ==> Describes(value, ParentLinks(t.categories))
    ensures !ok ==> forall g :: Describes(value, g) ==> !Dag(g)
    ensures ok <==> Read(value).Some?
    ensures ok ==> t.categories == Derived(Read(value).value)
  {
    forall g
      ensures Read(value) == Some(g) <==> Describes(value, g) && Dag(g)
    {
      ReadExact(value, g);
    }
    hide Describes;
    t.categories := map[];
    EmptyConsistent();
    if !value.IsObject() {
      return false;
    }
    var members := value.Members();
    for k := 0 to |members|
      invariant Consistent(t.categories)
      invariant Read(value) == ReadMembers(ParentLinks(t.categories), members[k..])
    {
      ghost var g := ParentLinks(t.categories);
      assert members[k..][0] == members[k] && members[k..][1..] == members[k + 1..];
      var read := FromMember(t, members[k]);
      if !read {
        return false;
      }
    }
    assert members[|members|..] == [];
    return true;
  }

  method FromMember(t: Taxonomy, m: Member) returns (ok: bool)
    requires Consistent(t.categories)
    modifies t
    ensures Consistent(t.categories)
    ensures ok <==> ReadMember(old(ParentLinks(t.categories)), m).Some?
    ensures ok ==> ParentLinks(t.categories) == ReadMember(old(ParentLinks(t.categories)), m).value
  {
    ghost var g := ParentLinks(t.categories);
    var noted := t.Add(m.name, {});
    DerivedLinks(WithNode(g, m.name));
    if !m.value.IsArray() {
      return false;
    }
    var parents := m.value.Items();
    for k := 0 to |parents|
      invariant Consistent(t.categories)
      invariant ReadMember(g, m) == ReadParents(ParentLinks(t.categories), m.name, parents[k..])
    {
      ghost var h := ParentLinks(t.categories);
      assert parents[k..][0] == parents[k] && parents[k..][1..] == parents[k + 1..];
      if !parents[k].Str? {
        return false;
      }
      var added;
      added, noted := t.AddParent(m.name, parents[k].s, noted);
      if !added {
        return false;
      }
      DerivedLinks(WithLink(h, m.name, parents[k].s));
    }
    assert parents[|parents|..] == [];
    return true;
  }

  /** The copy that cloning a configuration makes of a taxonomy, by way of JSON. */
  method Clone(t: Taxonomy) returns (copy: Taxonomy)
    requires Consistent(t.categories)
    ensures fresh(copy) && copy.categories == t.categories
  {
    var value := ToJson(t);
    ReadBack(value, ParentLinks(t.categories));
    copy := new Taxonomy();
    var ok := FromJson(copy, value);
  }
}
