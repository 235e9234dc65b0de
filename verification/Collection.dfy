/**
 A collection: its documents, its taxonomies, and the repair of stored ancestor
 terms after each category edit by a merge of posting lists.
 */
module Collections {
  import opened Options
  import opened ParentGraph
  import opened TaxonomySpec
  import opened Taxonomies
  import opened StringOrder
  import opened Documents
  import opened Indexing

  /** Document ids start at 1; 0 stands for none. */
  type DocId = nat
  type Store = map<DocId, Doc>

  // -------------------------------------------------------- posting lists

  ghost predicate Ascending(s: seq<DocId>) {
    forall i, j :: 0 <= i < j < |s| ==> s[i] < s[j]
  }

  ghost function Ids(s: seq<DocId>): set<DocId> {
    set i | 0 <= i < |s| :: s[i]
  }

  /** All ids still to come on any of the lists. */
  ghost function AllIds(iters: seq<seq<DocId>>): set<DocId> {
    set k, i | 0 <= k < |iters| && 0 <= i < |iters[k]| :: iters[k][i]
  }

  method LeastId(s: set<DocId>) returns (m: DocId)
    requires s != {}
    ensures m in s && forall d :: d in s ==> m <= d
  {
    m :| m in s;
    var todo := s - {m};
    while todo != {}
      invariant todo <= s && m in s
      invariant forall d :: d in s && d !in todo ==> m <= d
    {
      var d :| d in todo;
      todo := todo - {d};
      if d < m {
        m := d;
      }
    }
  }

  /** The ids of the documents with a term, in increasing order. */
  method PostingList(db: Store, t: Term) returns (ids: seq<DocId>)
    ensures Ascending(ids)
    ensures forall d :: d in ids <==> d in db && t in db[d]
  {
    ids := [];
    var todo := set d | d in db && t in db[d];
    while todo != {}
      invariant todo <= db.Keys && Ascending(ids)
      invariant forall d :: d in ids || d in todo <==> d in db && t in db[d]
      invariant forall i, d :: 0 <= i < |ids| && d in todo ==> ids[i] < d
    {
      var m := LeastId(todo);
      ids := ids + [m];
      todo := todo - {m};
    }
  }

  /** Drops the lists that have ended, and finds the least id at the front of any other. */
  method NextId(iters: seq<seq<DocId>>) returns (live: seq<seq<DocId>>, nextid: nat)
    requires forall k :: 0 <= k < |iters| ==> 0 !in iters[k]
    ensures forall k :: 0 <= k < |live| ==> live[k] != [] && live[k] in iters
    ensures forall k :: 0 <= k < |iters| && iters[k] != [] ==> iters[k] in live
    ensures nextid == 0 <==> live == []
    ensures nextid != 0 ==> exists k :: 0 <= k < |live| && live[k][0] == nextid
    ensures nextid != 0 ==> forall k :: 0 <= k < |live| ==> nextid <= live[k][0]
  {
    live, nextid := iters, 0;
    var k := 0;
    ghost var at := 0;
    while k < |live|
      invariant 0 <= k <= |live|
      invariant forall j :: 0 <= j < k ==> live[j] != []
      invariant forall j :: 0 <= j < |live| ==> live[j] in iters
      invariant forall j :: 0 <= j < |iters| && iters[j] != [] ==> iters[j] in live
      invariant nextid == 0 <==> k == 0
      invariant nextid != 0 ==> 0 <= at < k && live[at][0] == nextid
      invariant nextid != 0 ==> forall j :: 0 <= j < k ==> nextid <= live[j][0]
      decreases |live| - k
    {
      if live[k] == [] {
        ghost var was := live;
        live := live[..k] + live[k + 1..];
        forall t | t in was && t != []
          ensures t in live
        {
          var j :| 0 <= j < |was| && was[j] == t;
          assert live[if j < k then j else j - 1] == t;
        }
      } else {
        var thisid := live[k][0];
        assert thisid in live[k];
        if nextid == 0 || nextid > thisid {
          nextid, at := thisid, k;
        }
        k := k + 1;
      }
    }
  }

  /** Steps past `id` on every list that stands at it. */
  method Advance(live: seq<seq<DocId>>, id: DocId) returns (iters: seq<seq<DocId>>)
    requires forall k :: 0 <= k < |live| ==> live[k] != []
    ensures |iters| == |live|
    ensures forall k :: 0 <= k < |live| ==>
              iters[k] == if live[k][0] == id then live[k][1..] else live[k]
  {
    iters := [];
    for k := 0 to |live|
      invariant |iters| == k
      invariant forall j :: 0 <= j < k ==>
                  iters[j] == if live[j][0] == id then live[j][1..] else live[j]
    {
      iters := iters + [if live[k][0] == id then live[k][1..] else live[k]];
    }
  }

  ghost predicate AllAscending(iters: seq<seq<DocId>>) {
    forall k :: 0 <= k < |iters| ==> Ascending(iters[k]) && 0 !in iters[k]
  }

  lemma EndedListsHoldNothing(iters: seq<seq<DocId>>, live: seq<seq<DocId>>)
    requires AllAscending(iters)
    requires forall k :: 0 <= k < |live| ==> live[k] in iters
    requires forall k :: 0 <= k < |iters| && iters[k] != [] ==> iters[k] in live
    ensures AllAscending(live) && AllIds(live) == AllIds(iters)
  {
    forall d | d in AllIds(iters)
      ensures d in AllIds(live)
    {
      var k, i :| 0 <= k < |iters| && 0 <= i < |iters[k]| && iters[k][i] == d;
      var j :| 0 <= j < |live| && live[j] == iters[k];
      assert live[j][i] == d;
    }
    forall d | d in AllIds(live)
      ensures d in AllIds(iters)
    {
      var k, i :| 0 <= k < |live| && 0 <= i < |live[k]| && live[k][i] == d;
      var j :| 0 <= j < |iters| && iters[j] == live[k];
      assert iters[j][i] == d;
    }
  }

  /** One round of the merge takes the least id off all the lists, and no other. */
  lemma MergeRound(live: seq<seq<DocId>>, next: seq<seq<DocId>>, id: DocId)
    requires AllAscending(live) && forall k :: 0 <= k < |live| ==> live[k] != [] && id <= live[k][0]
    requires exists k :: 0 <= k < |live| && live[k][0] == id
    requires |next| == |live|
    requires forall k :: 0 <= k < |live| ==> next[k] == if live[k][0] == id then live[k][1..] else live[k]
    ensures AllAscending(next)
    ensures id in AllIds(live) && AllIds(next) == AllIds(live) - {id}
    ensures forall d :: d in AllIds(next) ==> id < d
  {
    hide Ascending;
    forall k | 0 <= k < |live|
      ensures Ascending(next[k]) && forall d :: d in next[k] <==> d in live[k] && d != id
      ensures forall d :: d in next[k] ==> id < d
    {
      MergeOne(live[k], next[k], id);
    }
    forall d | d in AllIds(live) && d != id
      ensures d in AllIds(next)
    {
      var k, i :| 0 <= k < |live| && 0 <= i < |live[k]| && live[k][i] == d;
      assert d in next[k];
      var j :| 0 <= j < |next[k]| && next[k][j] == d;
    }
    forall d | d in AllIds(next)
      ensures d in AllIds(live) && id < d
    {
      var k, i :| 0 <= k < |next| && 0 <= i < |next[k]| && next[k][i] == d;
      assert d in live[k];
      var j :| 0 <= j < |live[k]| && live[k][j] == d;
    }
    var k :| 0 <= k < |live| && live[k][0] == id;
  }

  lemma MergeOne(list: seq<DocId>, next: seq<DocId>, id: DocId)
    requires Ascending(list) && list != [] && id <= list[0]
    requires next == if list[0] == id then list[1..] else list
    ensures Ascending(next) && forall d :: d in next <==> d in list && d != id
    ensures forall d :: d in next ==> id < d
  {
    forall d | d in list && d != id
      ensures d in next
    {
      var i :| 0 <= i < |list| && list[i] == d;
      assert d == next[if list[0] == id then i - 1 else i];
    }
  }

  // ------------------------------------------------------ stored documents

  /** The document is known by the id term `id`, and by no other. */
  ghost predicate HasId(doc: Doc, id: Term) {
    IsIdTerm(id) && id in doc && forall t :: t in doc && IsIdTerm(t) ==> t == id
  }

  ghost predicate Identified(doc: Doc) {
    exists id :: HasId(doc, id)
  }

  /** Every document has an id term, which no other document has. */
  ghost predicate ValidStore(docs: Store, last: nat) {
    && (forall d :: d in docs ==> 1 <= d <= last && Identified(docs[d]))
    && (forall d, e, id :: d in docs && e in docs && HasId(docs[d], id) && HasId(docs[e], id) ==> d == e)
  }

  ghost predicate Unknown(docs: Store, id: Term) {
    forall d :: d in docs ==> id !in docs[d]
  }

  lemma PutDocValid(docs: Store, last: nat, at: DocId, doc: Doc, id: Term)
    requires ValidStore(docs, last) && HasId(doc, id)
    requires (at in docs && HasId(docs[at], id)) || (at == last + 1 && Unknown(docs, id))
    ensures ValidStore(docs[at := doc], if at > last then at else last)
  {
    var after := docs[at := doc];
    forall d, e, x | d in after && e in after && HasId(after[d], x) && HasId(after[e], x)
      ensures d == e
    {
      if d == at || e == at {
        assert x == id;
      }
    }
  }

  ghost function RepairedDoc(doc: Doc, g: string, c: CategoryMap): Doc {
    WithAncestors(doc, g, AncestorsOf(c, CatsOf(doc, g)))
  }

  ghost function RepairedAt(docs: Store, ids: set<DocId>, g: string, c: CategoryMap): Store {
    map d | d in docs :: if d in ids then RepairedDoc(docs[d], g, c) else docs[d]
  }

  /** The documents in any of the given categories. */
  ghost function Affected(docs: Store, g: string, modified: set<Name>): (ids: set<DocId>)
    ensures ids <= docs.Keys
  {
    set d | d in docs && CatsOf(docs[d], g) * modified != {}
  }

  lemma RepairedHasId(doc: Doc, g: string, c: CategoryMap, id: Term)
    requires ValidGroup(g)
    ensures HasId(RepairedDoc(doc, g, c), id) <==> HasId(doc, id)
  {
    WithAncestorsTerms(doc, g, AncestorsOf(c, CatsOf(doc, g)));
  }

  lemma NoneVisited(docs: Store, g: string, c: CategoryMap)
    ensures Ids([]) == {} && RepairedAt(docs, Ids([]), g, c) == docs
  {
  }

  lemma NoIdsLeft()
    ensures AllIds([]) == {}
  {
  }

  lemma RepairedStep(docs: Store, done: set<DocId>, id: DocId, g: string, c: CategoryMap)
    requires id in docs && id !in done
    ensures var r := RepairedAt(docs, done, g, c);
      && id in r && r[id] == docs[id]
      && RepairedAt(docs, done + {id}, g, c) == r[id := RepairedDoc(docs[id], g, c)]
  {
    hide RepairedDoc;
    var r := RepairedAt(docs, done, g, c);
    SameMap(RepairedAt(docs, done + {id}, g, c), r[id := RepairedDoc(docs[id], g, c)]);
  }

  lemma IdsMore(s: seq<DocId>, d: DocId)
    ensures Ids(s + [d]) == Ids(s) + {d}
    ensures Ascending(s) && (forall v :: v in Ids(s) ==> v < d) ==> Ascending(s + [d])
  {
    var m := s + [d];
    assert m[|s|] == d && forall i :: 0 <= i < |s| ==> m[i] == s[i] && s[i] in Ids(s);
    forall x | x in Ids(s)
      ensures x in Ids(m)
    {
      var i :| 0 <= i < |s| && s[i] == x;
      assert m[i] == x;
    }
  }

  /** The id term is the first term from a tab on, if that begins with a tab. */
  method FindId(doc: Doc) returns (id: Option<Term>)
    ensures id.None? <==> forall t :: t in doc ==> t == "" || t[0] != '\t'
    ensures id.Some? ==> id.value in doc && id.value != "" && id.value[0] == '\t'
    ensures id.Some? ==> forall t :: t in doc && t != "" && t[0] == '\t' ==> t == id.value || Before(id.value, t)
    ensures forall t :: HasId(doc, t) ==> id == Some(t)
  {
    var ts := Listed(doc);
    var found := Scan(ts, "\t");
    assert forall t :: t in found <==> t in doc && IsIdTerm(t);
    if found == [] {
      return None;
    }
    assert found[0] in found;
    return Some(found[0]);
  }

  /** The posting lists of the given categories. */
  method Postings(db: Store, g: string, modified: set<Name>) returns (iters: seq<seq<DocId>>)
    requires 0 !in db
    ensures AllAscending(iters)
    ensures AllIds(iters) == Affected(db, g, modified)
  {
    iters := [];
    var todo := modified;
    while todo != {}
      invariant todo <= modified
      invariant AllAscending(iters)
      invariant AllIds(iters) == Affected(db, g, modified - todo)
    {
      var m :| m in todo;
      var ids := PostingList(db, CatPrefix(g) + m);
      AffectedMore(db, g, modified - todo, m, iters, ids);
      iters := iters + [ids];
      assert modified - (todo - {m}) == modified - todo + {m};
      todo := todo - {m};
    }
    assert modified - todo == modified;
  }

  lemma AffectedMore(db: Store, g: string, s: set<Name>, m: Name, iters: seq<seq<DocId>>, ids: seq<DocId>)
    requires AllIds(iters) == Affected(db, g, s)
    requires forall d :: d in ids <==> d in db && CatPrefix(g) + m in db[d]
    ensures AllIds(iters + [ids]) == Affected(db, g, s + {m})
  {
    var more := iters + [ids];
    forall d
      ensures d in AllIds(more) <==> d in AllIds(iters) || d in ids
    {
      if k, i :| 0 <= k < |iters| && 0 <= i < |iters[k]| && iters[k][i] == d {
        assert more[k][i] == d;
      }
      if i :| 0 <= i < |ids| && ids[i] == d {
        assert more[|iters|][i] == d;
      }
    }
    forall d
      ensures d in Affected(db, g, s + {m}) <==> d in Affected(db, g, s) || d in ids
    {
      if d in db {
        CatsAnd(db[d], g, m);
        var cats := CatsOf(db[d], g);
        assert cats * (s + {m}) == cats * s + cats * {m};
        assert m in cats * {m} <==> m in cats;
        assert m !in cats ==> cats * {m} == {};
      }
    }
  }

  // -------------------------------------- incremental and complete indexing

  /** All documents, with their ancestor terms for the groups `gs` worked out afresh. */
  ghost function ReindexedStore(docs: Store, gs: set<string>, groups: Groups, taxes: TaxonomyMap): (r: Store)
    requires gs <= groups.Keys
    ensures r.Keys == docs.Keys
  {
    map d | d in docs :: Reindexed(docs[d], gs, groups, taxes)
  }

  lemma ReindexedNothing(docs: Store, groups: Groups, taxes: TaxonomyMap)
    ensures ReindexedStore(docs, {}, groups, taxes) == docs
  {
    forall d | d in docs
      ensures Reindexed(docs[d], {}, groups, taxes) == docs[d]
    {
      assert forall t :: t in Reindexed(docs[d], {}, groups, taxes) <==> t in docs[d];
    }
  }

  lemma SameAncestorTerms(doc: Doc, g: string)
    ensures WithAncestors(doc, g, AncsOf(doc, g)) == doc
  {
    forall t
      ensures t in WithAncestors(doc, g, AncsOf(doc, g)) <==> t in doc
    {
      if AncPrefix(g) <= t {
        var a := t[|AncPrefix(g)|..];
        assert t == AncPrefix(g) + a;
        CatsAnd(doc, g, a);
      }
      forall a | a in AncsOf(doc, g)
        ensures AncPrefix(g) + a in doc
      {
        CatsAnd(doc, g, a);
      }
    }
  }

  /** Ancestors can only differ for categories that are reported as changed. */
  lemma UnchangedAncestors(before: CategoryMap, after: CategoryMap, cats: set<Name>)
    requires cats * Changed(before, after) == {}
    ensures AncestorsOf(before, cats) == AncestorsOf(after, cats)
  {
    forall x | x in cats
      ensures x in before <==> x in after
      ensures x in before ==> before[x] == after[x]
    {
      assert x !in cats * Changed(before, after);
    }
  }

  lemma UpdateDocIsReindex(doc: Doc, cur: Doc, gs: set<string>, g: string, groups: Groups,
                           before: TaxonomyMap, taxes: TaxonomyMap)
    requires ValidGroups(groups) && gs <= groups.Keys && g in groups && g !in gs
    requires UpToDate(doc, groups, before) && cur == Reindexed(doc, gs, groups, taxes)
    ensures CatsOf(cur, g) == CatsOf(doc, g)
    ensures RepairedDoc(cur, g, GroupTaxonomy(taxes, groups, g)) == Reindexed(doc, gs + {g}, groups, taxes)
    ensures CatsOf(cur, g) * Changed(GroupTaxonomy(before, groups, g), GroupTaxonomy(taxes, groups, g)) == {} ==>
              cur == Reindexed(doc, gs + {g}, groups, taxes)
  {
    hide Reindexed, CatsOf, AncsOf, AncestorsOf, WithAncestors, Changed;
    ReindexedKeeps(doc, gs, groups, taxes, g);
    ReindexedMore(doc, gs, groups, taxes, g);
    if CatsOf(cur, g) * Changed(GroupTaxonomy(before, groups, g), GroupTaxonomy(taxes, groups, g)) == {} {
      UnchangedAncestors(GroupTaxonomy(before, groups, g), GroupTaxonomy(taxes, groups, g), CatsOf(doc, g));
      SameAncestorTerms(cur, g);
    }
  }

  /** Repairing only the documents in changed categories repairs them all. */
  lemma UpdateIsReindex(docs: Store, gs: set<string>, g: string, groups: Groups,
                        before: TaxonomyMap, taxes: TaxonomyMap, modified: set<Name>)
    requires ValidGroups(groups) && gs <= groups.Keys && g in groups && g !in gs
    requires forall d :: d in docs ==> UpToDate(docs[d], groups, before)
    requires modified == Changed(GroupTaxonomy(before, groups, g), GroupTaxonomy(taxes, groups, g))
    ensures var cur := ReindexedStore(docs, gs, groups, taxes);
      RepairedAt(cur, Affected(cur, g, modified), g, GroupTaxonomy(taxes, groups, g))
      == ReindexedStore(docs, gs + {g}, groups, taxes)
  {
    hide Reindexed, UpToDate, Changed, CatsOf, RepairedDoc;
    var cur := ReindexedStore(docs, gs, groups, taxes);
    forall d | d in docs
      ensures RepairedAt(cur, Affected(cur, g, modified), g, GroupTaxonomy(taxes, groups, g))[d]
              == Reindexed(docs[d], gs + {g}, groups, taxes)
    {
      UpdateDocIsReindex(docs[d], cur[d], gs, g, groups, before, taxes);
    }
    SameMap(RepairedAt(cur, Affected(cur, g, modified), g, GroupTaxonomy(taxes, groups, g)),
            ReindexedStore(docs, gs + {g}, groups, taxes));
  }

  /** The groups of taxonomies that did not change need no work. */
  lemma ReindexedEnough(docs: Store, gs: set<string>, groups: Groups, before: TaxonomyMap, taxes: TaxonomyMap)
    requires ValidGroups(groups) && gs <= groups.Keys
    requires forall d :: d in docs ==> UpToDate(docs[d], groups, before)
    requires forall g :: g in groups && g !in gs ==> GroupTaxonomy(before, groups, g) == GroupTaxonomy(taxes, groups, g)
    ensures ReindexedStore(docs, gs, groups, taxes) == ReindexedStore(docs, groups.Keys, groups, taxes)
  {
    forall d | d in docs
      ensures Reindexed(docs[d], gs, groups, taxes) == Reindexed(docs[d], groups.Keys, groups, taxes)
    {
      ReindexedDocEnough(docs[d], gs, groups, taxes);
    }
  }

  lemma ReindexedDocEnough(doc: Doc, gs: set<string>, groups: Groups, taxes: TaxonomyMap)
    requires ValidGroups(groups) && gs <= groups.Keys
    requires forall g :: g in groups && g !in gs ==> AncsOf(doc, g) == DueAncestors(doc, g, groups, taxes)
    ensures Reindexed(doc, gs, groups, taxes) == Reindexed(doc, groups.Keys, groups, taxes)
  {
    hide DueAncestors, AncsOf;
    var r, s := Reindexed(doc, gs, groups, taxes), Reindexed(doc, groups.Keys, groups, taxes);
    forall t
      ensures t in r <==> t in s
    {
      if h :| h in groups && h !in gs && AncPrefix(h) <= t {
        var a := t[|AncPrefix(h)|..];
        assert t == AncPrefix(h) + a;
        CatsAnd(doc, h, a);
        CatsAnd(s, h, a);
        ReindexedAncestors(doc, groups.Keys, groups, taxes, h);
        CatsAnd(r, h, a);
        ReindexedKeeps(doc, gs, groups, taxes, h);
      }
    }
  }

  ghost function EditedTaxonomies(taxes: TaxonomyMap, name: string, e: Edit): TaxonomyMap {
    taxes[name := Derived(Apply(ParentLinks(TaxonomyOf(taxes, name)), e))]
  }

  /** The edit has its effect on the one taxonomy, which is created if need be, and on no other. */
  lemma EditedTaxonomiesAre(taxes: TaxonomyMap, name: string, e: Edit)
    requires forall n :: n in taxes ==> Consistent(taxes[n])
    ensures var edited := EditedTaxonomies(taxes, name, e);
            && edited.Keys == taxes.Keys + {name}
            && (forall n :: n in taxes && n != name ==> edited[n] == taxes[n])
            && EditEffect(if name in taxes then taxes[name] else map[], edited[name], e)
  {
    hide Consistent, Derived, Apply, ParentLinks, EditEffect;
    EmptyConsistent();
    EditEffectOf(TaxonomyOf(taxes, name), e);
  }

  /** Reindexing keeps all documents, and all their terms but the ancestor terms of the groups. */
  lemma ReindexedStoreKeeps(docs: Store, groups: Groups, taxes: TaxonomyMap)
    ensures forall d, t :: d in docs && (forall g :: g in groups ==> !(g + "\tA" <= t)) ==>
              (t in ReindexedStore(docs, groups.Keys, groups, taxes)[d] <==> t in docs[d])
  {
    forall d, t | d in docs && forall g :: g in groups ==> !(g + "\tA" <= t)
      ensures t in ReindexedStore(docs, groups.Keys, groups, taxes)[d] <==> t in docs[d]
    {
      assert forall g :: g in groups ==> !(AncPrefix(g) <= t);
      ReindexedElsewhere(docs[d], groups.Keys, groups, taxes, t);
    }
  }

  lemma ReindexedKeys(docs: Store, groups: Groups, taxes: TaxonomyMap)
    ensures ReindexedStore(docs, groups.Keys, groups, taxes).Keys == docs.Keys
  {
  }

  lemma EditedConsistent(taxes: TaxonomyMap, name: string, e: Edit)
    requires forall n :: n in taxes ==> Consistent(taxes[n])
    ensures forall n :: n in EditedTaxonomies(taxes, name, e) ==> Consistent(EditedTaxonomies(taxes, name, e)[n])
  {
    EmptyConsistent();
    var g := ParentLinks(TaxonomyOf(taxes, name));
    ApplyDag(g, e);
    DerivedLinks(Apply(g, e));
  }

  lemma NoNewAncestors(g: Graph, e: Edit, cats: set<Name>)
    requires Dag(g) && (e.PutCategory? || !Accepts(g, e))
    ensures AncestorsOf(Derived(Apply(g, e)), cats) == AncestorsOf(Derived(g), cats)
  {
    if e.PutCategory? && e.cat !in g {
      AddIsDerived(g, e.cat);
      hide Derived, Reach, ReachedBy;
      var c, d := Derived(g), Derived(Apply(g, e));
      forall a | a in AncestorsOf(d, cats)
        ensures a in AncestorsOf(c, cats)
      {
        var x :| x in cats && x in d && a in d[x].ancestors;
        assert x != e.cat && d[x] == c[x];
      }
      forall a | a in AncestorsOf(c, cats)
        ensures a in AncestorsOf(d, cats)
      {
        var x :| x in cats && x in c && a in c[x].ancestors;
        assert x != e.cat && d[x] == c[x];
      }
    }
  }

  /** A refused edit, or a category without any links, alters no document's ancestors. */
  lemma NoRepairNeeded(docs: Store, groups: Groups, before: TaxonomyMap, name: string, e: Edit)
    requires ValidGroups(groups) && Consistent(TaxonomyOf(before, name))
    requires forall d :: d in docs ==> UpToDate(docs[d], groups, before)
    requires e.PutCategory? || !Accepts(ParentLinks(TaxonomyOf(before, name)), e)
    ensures ReindexedStore(docs, groups.Keys, groups, EditedTaxonomies(before, name, e)) == docs
  {
    var taxes := EditedTaxonomies(before, name, e);
    var c, g := TaxonomyOf(before, name), ParentLinks(TaxonomyOf(before, name));
    forall cats
      ensures AncestorsOf(taxes[name], cats) == AncestorsOf(c, cats)
    {
      NoNewAncestors(g, e, cats);
    }
    hide AncestorsOf, Derived;
    forall d | d in docs
      ensures Reindexed(docs[d], groups.Keys, groups, taxes) == docs[d]
    {
      assert UpToDate(docs[d], groups, taxes);
      UpToDateIsFixpoint(docs[d], groups, taxes);
    }
    hide Reindexed;
    SameMap(ReindexedStore(docs, groups.Keys, groups, taxes), docs);
  }

  lemma ReindexedUpToDate(docs: Store, groups: Groups, taxes: TaxonomyMap)
    requires ValidGroups(groups)
    ensures forall d :: d in docs ==> UpToDate(ReindexedStore(docs, groups.Keys, groups, taxes)[d], groups, taxes)
  {
    hide Reindexed, CatsOf, AncsOf, AncestorsOf;
    forall d | d in docs
      ensures UpToDate(Reindexed(docs[d], groups.Keys, groups, taxes), groups, taxes)
    {
      ReindexedTerms(docs[d], groups.Keys, groups, taxes);
    }
  }

  class Collection {
    const groups: Groups
    var taxonomies: TaxonomyMap
    var docs: Store
    var last: nat

    ghost predicate Valid()
      reads this
    {
      && ValidGroups(groups)
      && (forall n :: n in taxonomies ==> Consistent(taxonomies[n]))
      && ValidStore(docs, last)
    }

    /** Every stored document has exactly the ancestor terms it should. */
    ghost predicate Current()
      reads this
    {
      forall d :: d in docs ==> UpToDate(docs[d], groups, taxonomies)
    }

    constructor (groups: Groups)
      requires ValidGroups(groups)
      ensures Valid() && Current() && this.groups == groups && taxonomies == map[] && docs == map[]
    {
      this.groups := groups;
      taxonomies, docs, last := map[], map[], 0;
    }

    /** Replaces the document with this id term, or adds one if there is none. */
    method RawUpdateDoc(doc: Doc, id: Term) returns (at: DocId)
      requires ValidStore(docs, last) && HasId(doc, id)
      modifies this`docs, this`last
      ensures ValidStore(docs, last) && docs == old(docs)[at := doc]
      ensures at in old(docs) ==> HasId(old(docs)[at], id) && last == old(last)
      ensures at !in old(docs) ==> Unknown(old(docs), id) && at == last == old(last) + 1
    {
      if d :| d in docs && id in docs[d] {
        at := d;
      } else {
        at := last + 1;
      }
      PutDocValid(docs, last, at, doc, id);
      docs := docs[at := doc];
      last := if at > last then at else last;
    }

    method RawDeleteDoc(id: Term)
      requires ValidStore(docs, last)
      modifies this`docs
      ensures ValidStore(docs, last)
      ensures docs == map d | d in old(docs) && !(IsIdTerm(id) && id in old(docs)[d]) :: old(docs)[d]
    {
      if d :| d in docs && IsIdTerm(id) && id in docs[d] {
        docs := docs - {d};
      }
    }

    /**
     Repairs the ancestor terms of every document in a modified category, visiting
     the documents through a merge of the posting lists of those categories.
     */
    method UpdateModifiedCategoriesGroup(g: string, c: CategoryMap, modified: set<Name>)
      returns (ok: bool, ghost visited: seq<DocId>)
      requires ValidStore(docs, last) && ValidGroup(g)
      modifies this`docs, this`last
      ensures ok && ValidStore(docs, last) && last == old(last)
      ensures docs == RepairedAt(old(docs), Affected(old(docs), g, modified), g, c)
      ensures Ascending(visited) && Ids(visited) == Affected(old(docs), g, modified)
    {
      hide RepairedAt, Affected, AllIds, HasId;
      var db := docs;
      var iters := Postings(db, g, modified);
      visited := [];
      NoneVisited(db, g, c);
      while iters != []
        invariant AllAscending(iters) && Ascending(visited)
        invariant Ids(visited) + AllIds(iters) == Affected(db, g, modified)
        invariant forall v, d :: v in Ids(visited) && d in AllIds(iters) ==> v < d
        invariant docs == RepairedAt(db, Ids(visited), g, c) && ValidStore(docs, last) && last == old(last)
        decreases AllIds(iters)
      {
        var live, nextid := NextId(iters);
        EndedListsHoldNothing(iters, live);
        if nextid == 0 {
          iters := live;
          break;
        }
        var next := Advance(live, nextid);
        MergeRound(live, next, nextid);

        var repaired := RepairOne(db, nextid, g, c, Ids(visited));
        if !repaired {
          return false, visited;
        }
        IdsMore(visited, nextid);
        visited := visited + [nextid];
        iters := next;
      }
      NoIdsLeft();
      return true, visited;
    }

    method RepairOne(db: Store, id: DocId, g: string, c: CategoryMap, ghost done: set<DocId>)
      returns (ok: bool)
      requires ValidStore(docs, last) && ValidStore(db, last) && ValidGroup(g)
      requires docs == RepairedAt(db, done, g, c) && id in db && id !in done
      modifies this`docs, this`last
      ensures ok && last == old(last) && ValidStore(docs, last)
      ensures docs == RepairedAt(db, done + {id}, g, c)
    {
      hide RepairedAt;
      RepairedStep(db, done, id, g, c);
      var ancestors := GatherAncestors(db[id], g, c);
      var idterm := FindId(db[id]);
      assert Identified(db[id]);
      if idterm.None? {
        return false;
      }
      var doc := Repair(db[id], g, ancestors);
      ghost var t :| HasId(db[id], t);
      RepairedHasId(db[id], g, c, t);
      hide CatsOf, AncestorsOf, WithAncestors, HasId, IsIdTerm;
      assert HasId(docs[id], t);
      var at := RawUpdateDoc(doc, idterm.value);
      assert at == id;
      return true;
    }

    method UpdateModifiedCategories(name: string, modified: set<Name>, ghost before: TaxonomyMap)
      returns (ok: bool)
      requires ValidGroups(groups) && ValidStore(docs, last) && name in taxonomies
      requires forall d :: d in docs ==> UpToDate(docs[d], groups, before)
      requires modified == Changed(TaxonomyOf(before, name), taxonomies[name])
      requires forall n :: n != name ==> TaxonomyOf(before, n) == TaxonomyOf(taxonomies, n)
      modifies this`docs, this`last
      ensures ok && ValidStore(docs, last) && last == old(last)
      ensures docs == ReindexedStore(old(docs), groups.Keys, groups, taxonomies)
    {
      hide UpToDate, Changed, RepairedAt, Affected, ReindexedStore, ValidStore;
      ghost var start := docs;
      ghost var using := set g | g in groups && groups[g] == name;
      var todo := set g | g in groups && groups[g] == name;
      ReindexedNothing(docs, groups, taxonomies);
      assert using - todo == {};
      while todo != {}
        invariant todo <= using && ValidStore(docs, last) && last == old(last)
        invariant docs == ReindexedStore(start, using - todo, groups, taxonomies)
      {
        var g :| g in todo;
        ghost var visited;
        UpdateIsReindex(start, using - todo, g, groups, before, taxonomies, modified);
        assert using - (todo - {g}) == using - todo + {g};
        ok, visited := UpdateModifiedCategoriesGroup(g, taxonomies[name], modified);
        if !ok {
          return;
        }
        todo := todo - {g};
      }
      assert using - todo == using;
      ReindexedEnough(start, using, groups, before, taxonomies);
      ok := true;
    }

    /**
     A category edit on the collection.  The taxonomy is created if need be, even
     for an edit that is then refused.  Adding a category repairs no documents.
     */
    method CategoryEdit(name: string, e: Edit) returns (ok: bool)
      requires Valid() && Current()
      modifies this
      ensures Valid() && Current() && last == old(last)
      ensures taxonomies.Keys == old(taxonomies).Keys + {name}
      ensures forall n :: n in old(taxonomies) && n != name ==> taxonomies[n] == old(taxonomies)[n]
      ensures EditEffect(if name in old(taxonomies) then old(taxonomies)[name] else map[], taxonomies[name], e)
      ensures docs.Keys == old(docs).Keys
      ensures forall d, t :: d in docs && (forall g :: g in groups ==> !(g + "\tA" <= t)) ==>
                (t in docs[d] <==> t in old(docs)[d])
      ensures ok <==> Accepts(ParentLinks(TaxonomyOf(old(taxonomies), name)), e)
      ensures taxonomies == EditedTaxonomies(old(taxonomies), name, e)
      ensures docs == ReindexedStore(old(docs), groups.Keys, groups, taxonomies)
    {
      hide UpToDate, Consistent, ReindexedStore, ValidStore, EditedTaxonomies, EditEffect, Accepts, ParentLinks;
      EditedTaxonomiesAre(taxonomies, name, e);
      ok := EditAndRepair(name, e);
      ReindexedStoreKeeps(old(docs), groups, taxonomies);
      ReindexedKeys(old(docs), groups, taxonomies);
    }

    method EditAndRepair(name: string, e: Edit) returns (ok: bool)
      requires Valid() && Current()
      modifies this
      ensures Valid() && Current() && last == old(last)
      ensures ok <==> Accepts(ParentLinks(TaxonomyOf(old(taxonomies), name)), e)
      ensures taxonomies == EditedTaxonomies(old(taxonomies), name, e)
      ensures docs == ReindexedStore(old(docs), groups.Keys, groups, taxonomies)
    {
      hide UpToDate, Changed, ReindexedStore, ValidStore, Derived, Dag;
      EmptyConsistent();
      ghost var before, start := taxonomies, docs;
      var t := new Taxonomy.Load(TaxonomyOf(taxonomies, name));
      var modified;
      ok, modified := t.Perform(e, {});
      taxonomies := taxonomies[name := t.categories];
      EditedConsistent(before, name, e);
      if !ok || e.PutCategory? {
        NoRepairNeeded(docs, groups, before, name, e);
      } else {
        var repaired := UpdateModifiedCategories(name, modified, before);
      }
      ReindexedUpToDate(start, groups, taxonomies);
    }
  }
}
