/**
 Documents as sets of index terms.  A category field with group `g` puts a term
 "g TAB C name" in a document for each of its categories, and a term
 "g TAB A name" for each ancestor of one of them.
 */
module Documents {
  import opened Lexicographic
  import opened StringOrder
  import opened ParentGraph
  import opened TaxonomySpec

  type Term = string
  type Doc = set<Term>

  // ------------------------------------------------------- scanning terms

  /**
   Skips to a prefix and reads on for as long as terms begin with it.  Because the
   list is sorted that finds all of them.
   */
  method Scan(ts: seq<Term>, p: Term) returns (found: seq<Term>)
    requires Sorted(ts)
    ensures forall t :: t in found <==> t in ts && p <= t
    ensures Sorted(found) && forall i :: 0 <= i < |found| ==> p <= found[i]
  {
    hide Before;
    var i := 0;
    while i < |ts| && Before(ts[i], p)
      invariant 0 <= i <= |ts|
      invariant forall j :: 0 <= j < i ==> !(p <= ts[j])
    {
      PrefixNotAfter(p, ts[i]);
      i := i + 1;
    }
    var start := i;
    while i < |ts| && p <= ts[i]
      invariant start <= i <= |ts|
      invariant forall j :: start <= j < i ==> p <= ts[j]
    {
      i := i + 1;
    }
    found := ts[start..i];
    RunIsAll(ts, p, start, i);
  }

  lemma PrefixNotAfter(p: Term, t: Term)
    ensures p <= t ==> !Before(t, p)
  {
    CodesPrefix(p, t);
    if p <= t {
      PrefixNotBelow(Codes(p), Codes(t));
    }
  }

  /** The run of terms with a prefix, found from where the prefix would stand, holds all of them. */
  lemma RunIsAll(ts: seq<Term>, p: Term, start: nat, end: nat)
    requires Sorted(ts) && start <= end <= |ts|
    requires forall j :: 0 <= j < start ==> !(p <= ts[j])
    requires start < |ts| ==> !Before(ts[start], p)
    requires forall j :: start <= j < end ==> p <= ts[j]
    requires end < |ts| ==> !(p <= ts[end])
    ensures forall t :: t in ts[start..end] <==> t in ts && p <= t
  {
    hide Before;
    forall t | t in ts && p <= t
      ensures t in ts[start..end]
    {
      var j :| 0 <= j < |ts| && ts[j] == t;
      if end <= j {
        AfterPrefixRun(ts, p, start, end, j);
      }
      assert ts[start..end][j - start] == t;
    }
  }

  /** Past the end of a run of terms with a prefix there are no more of them. */
  lemma AfterPrefixRun(ts: seq<Term>, p: Term, start: nat, i: nat, j: nat)
    requires Sorted(ts) && start <= i <= j < |ts|
    requires start < |ts| && !Before(ts[start], p)
    requires p <= ts[j]
    ensures p <= ts[i]
  {
    assert !Before(ts[i], p) by {
      if Before(ts[i], p) && start < i {
        BeforeTransitive(ts[start], ts[i], p);
      }
    }
    CodesPrefix(p, ts[i]);
    CodesPrefix(p, ts[j]);
    PrefixRun(Codes(p), Codes(ts[i]), Codes(ts[j]));
  }

  // ------------------------------------------------------- category terms

  /** Group names are checked to be so when a field is configured. */
  predicate ValidGroup(g: string) {
    g != "" && '\t' !in g
  }

  predicate IsIdTerm(t: Term) {
    t != "" && t[0] == '\t'
  }

  function CatPrefix(g: string): Term {
    g + "\tC"
  }

  function AncPrefix(g: string): Term {
    g + "\tA"
  }

  ghost function CatsOf(doc: Doc, g: string): set<Name> {
    set t | t in doc && CatPrefix(g) <= t :: t[|CatPrefix(g)|..]
  }

  ghost function AncsOf(doc: Doc, g: string): set<Name> {
    set t | t in doc && AncPrefix(g) <= t :: t[|AncPrefix(g)|..]
  }

  /** The ancestors, according to the taxonomy, of any of a set of categories. */
  ghost function AncestorsOf(c: CategoryMap, cats: set<Name>): set<Name> {
    set x, a | x in cats && x in c && a in c[x].ancestors :: a
  }

  /** The ancestor terms are exactly those of the document's categories. */
  ghost predicate Indexed(doc: Doc, g: string, c: CategoryMap) {
    AncsOf(doc, g) == AncestorsOf(c, CatsOf(doc, g))
  }

  lemma TermsDisjoint(g: string, h: string, t: Term)
    requires ValidGroup(g) && ValidGroup(h)
    ensures CatPrefix(g) <= t && CatPrefix(h) <= t ==> g == h
    ensures AncPrefix(g) <= t && AncPrefix(h) <= t ==> g == h
    ensures !(CatPrefix(g) <= t && AncPrefix(h) <= t)
    ensures IsIdTerm(t) ==> !(CatPrefix(g) <= t) && !(AncPrefix(g) <= t)
  {
    if g + "\t" <= t && h + "\t" <= t {
      FirstTab(g, t);
      FirstTab(h, t);
      assert g == t[..|g|] && h == t[..|h|];
    }
    assert CatPrefix(g) == g + "\t" + "C" && CatPrefix(h) == h + "\t" + "C";
    assert AncPrefix(g) == g + "\t" + "A" && AncPrefix(h) == h + "\t" + "A";
    assert CatPrefix(g)[|g| + 1] == 'C' && AncPrefix(h)[|h| + 1] == 'A';
    assert g[0] in g;
  }

  /** A group name ends at the first tab of its terms. */
  lemma FirstTab(g: string, t: Term)
    requires ValidGroup(g) && g + "\t" <= t
    ensures |g| < |t| && t[|g|] == '\t' && forall i :: 0 <= i < |g| ==> t[i] != '\t'
  {
    assert (g + "\t")[|g|] == '\t';
    forall i | 0 <= i < |g|
      ensures t[i] != '\t'
    {
      assert (g + "\t")[i] == g[i];
    }
  }

  lemma PrefixedTerm(p: Term, x: Name)
    ensures p <= p + x && (p + x)[|p|..] == x
  {
  }

  lemma CatsAnd(doc: Doc, g: string, x: Name)
    ensures x in CatsOf(doc, g) <==> CatPrefix(g) + x in doc
    ensures x in AncsOf(doc, g) <==> AncPrefix(g) + x in doc
  {
    PrefixedTerm(CatPrefix(g), x);
    PrefixedTerm(AncPrefix(g), x);
    if x in CatsOf(doc, g) {
      var t :| t in doc && CatPrefix(g) <= t && t[|CatPrefix(g)|..] == x;
      assert t == CatPrefix(g) + x;
    }
    if x in AncsOf(doc, g) {
      var t :| t in doc && AncPrefix(g) <= t && t[|AncPrefix(g)|..] == x;
      assert t == AncPrefix(g) + x;
    }
  }

  // ------------------------------------------------------ repairing terms

  /** The document with its ancestor terms for `g` replaced. */
  ghost function WithAncestors(doc: Doc, g: string, ancestors: set<Name>): Doc {
    (set t | t in doc && !(AncPrefix(g) <= t)) + (set a | a in ancestors :: AncPrefix(g) + a)
  }

  /** Replacing ancestor terms affects nothing else. */
  lemma WithAncestorsTerms(doc: Doc, g: string, ancestors: set<Name>)
    requires ValidGroup(g)
    ensures var d := WithAncestors(doc, g, ancestors);
      && CatsOf(d, g) == CatsOf(doc, g) && AncsOf(d, g) == ancestors
      && (forall h :: ValidGroup(h) && h != g ==> CatsOf(d, h) == CatsOf(doc, h) && AncsOf(d, h) == AncsOf(doc, h))
      && (forall t :: IsIdTerm(t) ==> (t in d <==> t in doc))
  {
    var d := WithAncestors(doc, g, ancestors);
    forall x
      ensures CatPrefix(g) + x in d <==> CatPrefix(g) + x in doc
      ensures AncPrefix(g) + x in d <==> x in ancestors
      ensures x in CatsOf(d, g) <==> x in CatsOf(doc, g)
      ensures x in AncsOf(d, g) <==> x in ancestors
    {
      CatsAnd(d, g, x);
      CatsAnd(doc, g, x);
      PrefixedTerm(CatPrefix(g), x);
      PrefixedTerm(AncPrefix(g), x);
      TermsDisjoint(g, g, CatPrefix(g) + x);
    }
    forall h, t | ValidGroup(h) && h != g && (CatPrefix(h) <= t || AncPrefix(h) <= t || IsIdTerm(t))
      ensures !(AncPrefix(g) <= t)
    {
      TermsDisjoint(h, g, t);
      TermsDisjoint(g, h, t);
    }
    forall a | a in ancestors
      ensures AncPrefix(g) <= AncPrefix(g) + a
    {
      PrefixedTerm(AncPrefix(g), a);
    }
    forall t | IsIdTerm(t)
      ensures t in d <==> t in doc
    {
      TermsDisjoint(g, g, t);
    }
  }

  /** Term by term: ancestor terms of the group are those given, and all others stay. */
  lemma WithAncestorsAt(doc: Doc, g: string, ancestors: set<Name>)
    ensures forall t :: t in WithAncestors(doc, g, ancestors) <==>
              if g + "\tA" <= t then t[|g| + 2..] in ancestors else t in doc
  {
    forall t
      ensures t in WithAncestors(doc, g, ancestors) <==>
                if g + "\tA" <= t then t[|g| + 2..] in ancestors else t in doc
    {
      forall a | t == AncPrefix(g) + a
        ensures AncPrefix(g) <= t && a == t[|g| + 2..]
      {
        PrefixedTerm(AncPrefix(g), a);
      }
      if AncPrefix(g) <= t {
        assert t == AncPrefix(g) + t[|g| + 2..];
      }
    }
  }

  /** The ancestors of the categories a document has a term for. */
  lemma GatheredAre(doc: Doc, g: string, c: CategoryMap)
    ensures forall a :: a in AncestorsOf(c, CatsOf(doc, g)) <==>
              exists x :: g + "\tC" + x in doc && x in c && a in c[x].ancestors
  {
    forall a
      ensures a in AncestorsOf(c, CatsOf(doc, g)) <==>
              exists x :: g + "\tC" + x in doc && x in c && a in c[x].ancestors
    {
      if a in AncestorsOf(c, CatsOf(doc, g)) {
        var x :| x in CatsOf(doc, g) && x in c && a in c[x].ancestors;
        CatsAnd(doc, g, x);
        assert g + "\tC" + x in doc;
      }
      if x :| g + "\tC" + x in doc && x in c && a in c[x].ancestors {
        CatsAnd(doc, g, x);
      }
    }
  }

  /** What it means that a document is indexed: it has an ancestor term for each ancestor of a
      category it has a term for, and no other. */
  lemma IndexedMeans(doc: Doc, g: string, c: CategoryMap)
    ensures Indexed(doc, g, c) <==>
            forall a :: g + "\tA" + a in doc <==> exists x :: g + "\tC" + x in doc && x in c && a in c[x].ancestors
  {
    forall a
      ensures a in AncsOf(doc, g) <==> g + "\tA" + a in doc
    {
      CatsAnd(doc, g, a);
    }
    GatheredAre(doc, g, c);
    hide CatsOf, AncsOf, AncestorsOf;
    assert Indexed(doc, g, c) <==> forall a :: a in AncsOf(doc, g) <==> a in AncestorsOf(c, CatsOf(doc, g));
  }

  /**
   Terms that another field put in a document survive its repair exactly if those among
   them that look like ancestor terms of the group name ancestors that are due.
   */
  lemma SharedGroupKeeps(doc: Doc, others: set<Term>, g: string, ancestors: set<Name>)
    requires others <= doc
    ensures others <= WithAncestors(doc, g, ancestors) <==>
            forall t :: t in others && AncPrefix(g) <= t ==> t[|AncPrefix(g)|..] in ancestors
  {
    forall t | AncPrefix(g) <= t
      ensures t in WithAncestors(doc, g, ancestors) <==> t[|AncPrefix(g)|..] in ancestors
    {
      assert t == AncPrefix(g) + t[|AncPrefix(g)|..];
      forall a | t == AncPrefix(g) + a
        ensures a == t[|AncPrefix(g)|..]
      {
        PrefixedTerm(AncPrefix(g), a);
      }
    }
  }

  /** Repaired for one taxonomy, a document is up to date for another one of the same group exactly if
      both give its categories the same ancestors. */
  lemma SharedTaxonomiesKeep(doc: Doc, g: string, first: CategoryMap, second: CategoryMap)
    requires ValidGroup(g)
    ensures Indexed(WithAncestors(doc, g, AncestorsOf(first, CatsOf(doc, g))), g, second) <==>
            AncestorsOf(first, CatsOf(doc, g)) == AncestorsOf(second, CatsOf(doc, g))
  {
    hide CatsOf, AncsOf, AncestorsOf, WithAncestors;
    WithAncestorsTerms(doc, g, AncestorsOf(first, CatsOf(doc, g)));
  }

  /** For example, a category the first does not know, with an ancestor in the second. */
  lemma SharedTaxonomiesLose(second: CategoryMap)
    requires "red" in second && second["red"].ancestors == {"colour"}
    ensures var doc: Doc := {"\tdoc\t1", "fruit\tCred", "fruit\tAcolour"};
            && "colour" in AncestorsOf(second, CatsOf(doc, "fruit"))
            && "fruit\tAcolour" !in WithAncestors(doc, "fruit", AncestorsOf(map[], CatsOf(doc, "fruit")))
  {
    var doc: Doc := {"\tdoc\t1", "fruit\tCred", "fruit\tAcolour"};
    assert CatPrefix("fruit") + "red" == "fruit\tCred";
    CatsAnd(doc, "fruit", "red");
    var cats := CatsOf(doc, "fruit");
    assert "red" in cats && "colour" in second["red"].ancestors;
    assert AncestorsOf(map[], cats) == {};
    SharedGroupKeeps(doc, {"fruit\tAcolour"}, "fruit", {});
    assert AncPrefix("fruit") <= "fruit\tAcolour";
  }

  /** For example, the term of the value "Apple" of an exact field in the group of a category field. */
  lemma SharedGroupLoses()
    ensures "fruit\tApple" !in WithAncestors({"\tdoc\t1", "fruit\tCred", "fruit\tApple"}, "fruit", {})
  {
    var doc: Doc := {"\tdoc\t1", "fruit\tCred", "fruit\tApple"};
    SharedGroupKeeps(doc, {"fruit\tApple"}, "fruit", {});
    assert AncPrefix("fruit") <= "fruit\tApple";
  }

  /** Brings the ancestor terms of a document for one group in line. */
  method Repair(doc: Doc, g: string, ancestors: set<Name>) returns (d: Doc)
    ensures forall t :: t in d <==> if g + "\tA" <= t then t[|g| + 2..] in ancestors else t in doc
    ensures d == WithAncestors(doc, g, ancestors)
  {
    WithAncestorsAt(doc, g, ancestors);
    d := doc;
    var ts := Listed(doc);
    var found := Scan(ts, AncPrefix(g));
    var wanted := ancestors;
    for i := 0 to |found|
      invariant forall a :: a in wanted <==> a in ancestors && AncPrefix(g) + a !in found[..i]
      invariant forall t :: t in d <==>
                  (t in doc && !(t in found[..i] && AncPrefix(g) <= t && t[|AncPrefix(g)|..] !in ancestors))
    {
      var t := found[i];
      var cat := t[|AncPrefix(g)|..];
      assert t == AncPrefix(g) + cat;
      assert found[..i + 1] == found[..i] + [t];
      assert t !in found[..i] by {
        BeforeTotal(t, t);
      }
      if cat in wanted {
        wanted := wanted - {cat};
      } else {
        d := d - {t};
      }
    }
    assert found[..|found|] == found;
    assert forall a :: a in wanted <==> a in ancestors && AncPrefix(g) + a !in doc;
    ghost var kept := d;
    var todo := wanted;
    while todo != {}
      invariant todo <= wanted
      invariant forall t :: t in d <==> t in kept || exists a :: a in wanted - todo && t == AncPrefix(g) + a
    {
      var a :| a in todo;
      d := d + {AncPrefix(g) + a};
      todo := todo - {a};
    }
    forall t
      ensures t in d <==> t in WithAncestors(doc, g, ancestors)
    {
      if AncPrefix(g) <= t {
        assert t == AncPrefix(g) + t[|AncPrefix(g)|..];
      }
    }
  }

  /** Reads the categories of a document and gathers their ancestors. */
  method GatherAncestors(doc: Doc, g: string, c: CategoryMap) returns (ancestors: set<Name>)
    ensures forall a :: a in ancestors <==> exists x :: g + "\tC" + x in doc && x in c && a in c[x].ancestors
    ensures ancestors == AncestorsOf(c, CatsOf(doc, g))
  {
    GatheredAre(doc, g, c);
    var ts := Listed(doc);
    var found := Scan(ts, CatPrefix(g));
    ancestors := {};
    ghost var cats: set<Name> := {};
    for i := 0 to |found|
      invariant forall x :: x in cats <==> CatPrefix(g) + x in found[..i]
      invariant ancestors == AncestorsOf(c, cats)
    {
      var cat := found[i][|CatPrefix(g)|..];
      assert found[i] == CatPrefix(g) + cat && found[..i + 1] == found[..i] + [found[i]];
      cats := cats + {cat};
      if cat in c {
        ancestors := ancestors + c[cat].ancestors;
      }
    }
    assert found[..|found|] == found;
    forall x
      ensures x in cats <==> x in CatsOf(doc, g)
    {
      CatsAnd(doc, g, x);
      PrefixedTerm(CatPrefix(g), x);
    }
  }
}
