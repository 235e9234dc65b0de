/**
 Indexing category fields, and what a document's ancestor terms ought to be: those
 found by working them out afresh from its category terms.
 */
module Indexing {
  import opened Options
  import opened JsonValues
  import opened Numerals
  import opened ParentGraph
  import opened TaxonomySpec
  import opened Documents

  /** Which taxonomy each group of category terms belongs to. */
  type Groups = map<string, string>

  type TaxonomyMap = map<string, CategoryMap>

  ghost predicate ValidGroups(groups: Groups) {
    forall g :: g in groups ==> ValidGroup(g)
  }

  /** A taxonomy that has not been created has no categories. */
  function TaxonomyOf(taxes: TaxonomyMap, name: string): CategoryMap {
    if name in taxes then taxes[name] else map[]
  }

  function GroupTaxonomy(taxes: TaxonomyMap, groups: Groups, g: string): CategoryMap
    requires g in groups
  {
    TaxonomyOf(taxes, groups[g])
  }

  // ------------------------------------------------------ reference indexing

  ghost function DueAncestors(doc: Doc, g: string, groups: Groups, taxes: TaxonomyMap): set<Name>
    requires g in groups
  {
    AncestorsOf(GroupTaxonomy(taxes, groups, g), CatsOf(doc, g))
  }

  /** The document with its ancestor terms for the groups `gs` worked out afresh. */
  ghost function Reindexed(doc: Doc, gs: set<string>, groups: Groups, taxes: TaxonomyMap): Doc
    requires gs <= groups.Keys
  {
    (set t | t in doc && forall g :: g in gs ==> !(AncPrefix(g) <= t)) +
    (set g, a | g in gs && a in DueAncestors(doc, g, groups, taxes) :: AncPrefix(g) + a)
  }

  ghost predicate UpToDate(doc: Doc, groups: Groups, taxes: TaxonomyMap) {
    forall g :: g in groups ==> Indexed(doc, g, GroupTaxonomy(taxes, groups, g))
  }

  /** Up to date means that indexing afresh would change nothing. */
  lemma UpToDateIsFixpoint(doc: Doc, groups: Groups, taxes: TaxonomyMap)
    requires ValidGroups(groups)
    ensures UpToDate(doc, groups, taxes) <==> doc == Reindexed(doc, groups.Keys, groups, taxes)
  {
    var r := Reindexed(doc, groups.Keys, groups, taxes);
    ReindexedTerms(doc, groups.Keys, groups, taxes);
    if UpToDate(doc, groups, taxes) {
      forall t
        ensures t in doc <==> t in r
      {
        if g :| g in groups && AncPrefix(g) <= t {
          var a := t[|AncPrefix(g)|..];
          assert t == AncPrefix(g) + a;
          CatsAnd(doc, g, a);
          CatsAnd(r, g, a);
        }
      }
    }
  }

  lemma ReindexedTerms(doc: Doc, gs: set<string>, groups: Groups, taxes: TaxonomyMap)
    requires ValidGroups(groups) && gs <= groups.Keys
    ensures var r := Reindexed(doc, gs, groups, taxes);
      && (forall g :: g in groups ==> CatsOf(r, g) == CatsOf(doc, g))
      && (forall g :: g in gs ==> AncsOf(r, g) == DueAncestors(doc, g, groups, taxes))
      && (forall g :: g in groups && g !in gs ==> AncsOf(r, g) == AncsOf(doc, g))
      && (forall t :: IsIdTerm(t) ==> (t in r <==> t in doc))
  {
    hide Reindexed, CatsOf, AncsOf, DueAncestors;
    forall g | g in groups
      ensures var r := Reindexed(doc, gs, groups, taxes);
        && CatsOf(r, g) == CatsOf(doc, g)
        && (g !in gs ==> AncsOf(r, g) == AncsOf(doc, g))
        && (g in gs ==> AncsOf(r, g) == DueAncestors(doc, g, groups, taxes))
    {
      ReindexedKeeps(doc, gs, groups, taxes, g);
      if g in gs {
        ReindexedAncestors(doc, gs, groups, taxes, g);
      }
    }
    forall t | IsIdTerm(t)
      ensures t in Reindexed(doc, gs, groups, taxes) <==> t in doc
    {
      forall g | g in gs
        ensures !(AncPrefix(g) <= t)
      {
        TermsDisjoint(g, g, t);
      }
      ReindexedElsewhere(doc, gs, groups, taxes, t);
    }
  }

  /** Terms that are no ancestor terms of the groups are left alone. */
  lemma ReindexedElsewhere(doc: Doc, gs: set<string>, groups: Groups, taxes: TaxonomyMap, t: Term)
    requires gs <= groups.Keys
    requires forall g :: g in gs ==> !(AncPrefix(g) <= t)
    ensures t in Reindexed(doc, gs, groups, taxes) <==> t in doc
  {
    forall g, a | g in gs && t == AncPrefix(g) + a
      ensures false
    {
      PrefixedTerm(AncPrefix(g), a);
    }
  }

  lemma ReindexedKeeps(doc: Doc, gs: set<string>, groups: Groups, taxes: TaxonomyMap, h: string)
    requires ValidGroups(groups) && gs <= groups.Keys && h in groups
    ensures var r := Reindexed(doc, gs, groups, taxes);
      && CatsOf(r, h) == CatsOf(doc, h)
      && (h !in gs ==> AncsOf(r, h) == AncsOf(doc, h))
  {
    hide Reindexed;
    var r := Reindexed(doc, gs, groups, taxes);
    forall t | CatPrefix(h) <= t || (h !in gs && AncPrefix(h) <= t)
      ensures t in r <==> t in doc
    {
      forall g | g in gs
        ensures !(AncPrefix(g) <= t)
      {
        TermsDisjoint(h, g, t);
        TermsDisjoint(g, h, t);
      }
      ReindexedElsewhere(doc, gs, groups, taxes, t);
    }
    assert forall t :: t in r && CatPrefix(h) <= t <==> t in doc && CatPrefix(h) <= t;
    assert CatsOf(r, h) == CatsOf(doc, h);
  }

  lemma ReindexedAncestors(doc: Doc, gs: set<string>, groups: Groups, taxes: TaxonomyMap, g: string)
    requires ValidGroups(groups) && gs <= groups.Keys && g in gs
    ensures AncsOf(Reindexed(doc, gs, groups, taxes), g) == DueAncestors(doc, g, groups, taxes)
  {
    var r := Reindexed(doc, gs, groups, taxes);
    forall a
      ensures a in AncsOf(r, g) <==> a in DueAncestors(doc, g, groups, taxes)
    {
      var t := AncPrefix(g) + a;
      CatsAnd(r, g, a);
      PrefixedTerm(AncPrefix(g), a);
      if t in r {
        var h, b :| h in gs && b in DueAncestors(doc, h, groups, taxes) && t == AncPrefix(h) + b;
        PrefixedTerm(AncPrefix(h), b);
        TermsDisjoint(g, h, t);
      }
    }
  }

  /** One more group. */
  lemma ReindexedMore(doc: Doc, gs: set<string>, groups: Groups, taxes: TaxonomyMap, g: string)
    requires ValidGroups(groups) && gs <= groups.Keys && g in groups && g !in gs
    ensures WithAncestors(Reindexed(doc, gs, groups, taxes), g, DueAncestors(doc, g, groups, taxes))
            == Reindexed(doc, gs + {g}, groups, taxes)
  {
    var r := Reindexed(doc, gs, groups, taxes);
    var w, s := WithAncestors(r, g, DueAncestors(doc, g, groups, taxes)), Reindexed(doc, gs + {g}, groups, taxes);
    forall t
      ensures t in w <==> t in s
    {
      if AncPrefix(g) <= t {
        forall h, a | h in gs && t == AncPrefix(h) + a
          ensures false
        {
          PrefixedTerm(AncPrefix(h), a);
          TermsDisjoint(g, h, t);
        }
      }
      forall a | t == AncPrefix(g) + a
        ensures AncPrefix(g) <= t
      {
        PrefixedTerm(AncPrefix(g), a);
      }
    }
  }

  // --------------------------------------------------------- category fields

  datatype TooLong = Fail | Hash | Truncate

  /** A value of a field, once read as a string. */
  datatype FieldValue = Bad | Empty | Value(s: string)

  const MAX_UINT64 := 0xffff_ffff_ffff_ffff

  /** Strings stand for themselves, whole numbers from zero on for their digits, null for nothing. */
  function IdStyle(v: Json): FieldValue {
    match v
    case Null => Empty
    case Str(s) => if s == "" then Empty else Value(s)
    case Number(n) => if 0 <= n <= MAX_UINT64 then Value(Decimal(n)) else Bad
    case _ => Bad
  }

  datatype CategoryField = CategoryField(group: string, maxLength: nat, tooLong: TooLong)

  /** The category a value stands for; none if it is too long and that is an error. */
  function Shorten(f: CategoryField, hash: (string, nat) -> string, s: string): Option<Name> {
    if |s| <= f.maxLength then Some(s)
    else
      match f.tooLong
      case Fail => None
      case Hash => Some(hash(s, f.maxLength))
      case Truncate => Some(s[..f.maxLength])
  }

  /** The categories that a list of values puts in a document. */
  ghost function Named(f: CategoryField, hash: (string, nat) -> string, values: seq<Json>): set<Name> {
    set i | 0 <= i < |values| && Chosen(f, hash, values[i]).Some? :: Chosen(f, hash, values[i]).value
  }

  /** The category that a value puts in a document. */
  function Chosen(f: CategoryField, hash: (string, nat) -> string, v: Json): Option<Name> {
    match IdStyle(v)
    case Value(s) => Shorten(f, hash, s)
    case _ => None
  }

  /** A value that is neither empty nor usable is an error. */
  predicate Usable(f: CategoryField, hash: (string, nat) -> string, v: Json) {
    IdStyle(v) == Empty || Chosen(f, hash, v).Some?
  }

  ghost function WithCategories(doc: Doc, g: string, cats: set<Name>, c: CategoryMap): Doc {
    doc + (set x | x in cats :: CatPrefix(g) + x) + (set a | a in AncestorsOf(c, cats) :: AncPrefix(g) + a)
  }

  /** The value is read as this string: a string as it is, a whole number as its digits. */
  ghost predicate Reads(v: Json, s: string) {
    || (v == Str(s) && s != "")
    || exists n: int :: v == Number(n) && 0 <= n <= 0xffff_ffff_ffff_ffff && s == Decimal(n)
  }

  /** The string goes into a document as this category. */
  ghost predicate StoredAs(f: CategoryField, hash: (string, nat) -> string, s: string, x: Name) {
    || (|s| <= f.maxLength && x == s)
    || (|s| > f.maxLength && f.tooLong == Truncate && x == s[..f.maxLength])
    || (|s| > f.maxLength && f.tooLong == Hash && x == hash(s, f.maxLength))
  }

  /** The value puts this term in a document: its category, or an ancestor of it. */
  ghost predicate Adds(f: CategoryField, hash: (string, nat) -> string, v: Json, c: CategoryMap, t: Term) {
    exists s, x :: Reads(v, s) && StoredAs(f, hash, s, x)
      && (t == f.group + "\tC" + x || (x in c && exists a :: a in c[x].ancestors && t == f.group + "\tA" + a))
  }

  lemma ReadsIs(v: Json, s: string)
    ensures Reads(v, s) <==> IdStyle(v) == Value(s)
  {
    if v.Number? && Reads(v, s) {
      DecimalReads(v.n);
    }
  }

  lemma StoredAsIs(f: CategoryField, hash: (string, nat) -> string, s: string, x: Name)
    ensures StoredAs(f, hash, s, x) <==> Shorten(f, hash, s) == Some(x)
  {
  }

  /** The categories named are those that some value is read and stored as. */
  lemma NamedAre(f: CategoryField, hash: (string, nat) -> string, values: seq<Json>)
    ensures forall x :: x in Named(f, hash, values) <==>
              exists i, s :: 0 <= i < |values| && Reads(values[i], s) && StoredAs(f, hash, s, x)
  {
    hide Reads, StoredAs, IdStyle, Shorten;
    forall x
      ensures x in Named(f, hash, values) <==>
              exists i, s :: 0 <= i < |values| && Reads(values[i], s) && StoredAs(f, hash, s, x)
    {
      if x in Named(f, hash, values) {
        var i :| 0 <= i < |values| && Chosen(f, hash, values[i]) == Some(x);
        var s := IdStyle(values[i]).s;
        ReadsIs(values[i], s);
        StoredAsIs(f, hash, s, x);
      }
      if i, s :| 0 <= i < |values| && Reads(values[i], s) && StoredAs(f, hash, s, x) {
        ReadsIs(values[i], s);
        StoredAsIs(f, hash, s, x);
        assert Chosen(f, hash, values[i]) == Some(x);
      }
    }
  }

  /** An error is a value that is neither empty nor read as a string, or one that is too long where that is one. */
  ghost predicate Faulty(f: CategoryField, v: Json) {
    && v != Null && v != Str("")
    && forall s :: Reads(v, s) ==> |s| > f.maxLength && f.tooLong == Fail
  }

  lemma FaultyIs(f: CategoryField, hash: (string, nat) -> string, v: Json)
    ensures Faulty(f, v) <==> !Usable(f, hash, v)
  {
    hide Reads;
    forall s
      ensures Reads(v, s) <==> IdStyle(v) == Value(s)
    {
      ReadsIs(v, s);
    }
  }

  /** The terms that a field adds, one by one. */
  lemma WithCategoriesAt(doc: Doc, g: string, cats: set<Name>, c: CategoryMap)
    ensures forall t :: t in WithCategories(doc, g, cats, c) <==>
              || t in doc
              || (exists x :: x in cats && t == g + "\tC" + x)
              || (exists x, a :: x in cats && x in c && a in c[x].ancestors && t == g + "\tA" + a)
  {
    forall t
      ensures t in WithCategories(doc, g, cats, c) <==>
                || t in doc
                || (exists x :: x in cats && t == g + "\tC" + x)
                || (exists x, a :: x in cats && x in c && a in c[x].ancestors && t == g + "\tA" + a)
    {
      if a :| a in AncestorsOf(c, cats) && t == AncPrefix(g) + a {
        var x :| x in cats && x in c && a in c[x].ancestors;
      }
      if x, a :| x in cats && x in c && a in c[x].ancestors && t == g + "\tA" + a {
        assert a in AncestorsOf(c, cats);
      }
    }
  }

  /** Adds the terms for one category field to a document; counts values in error. */
  method IndexField(doc: Doc, f: CategoryField, hash: (string, nat) -> string,
                    values: seq<Json>, c: CategoryMap)
    returns (d: Doc, errors: nat)
    ensures forall x :: Str(x) in values && x != "" && |x| <= f.maxLength ==> f.group + "\tC" + x in d
    ensures forall t :: t in d <==> t in doc || exists i :: 0 <= i < |values| && Adds(f, hash, values[i], c, t)
    ensures errors == |set i | 0 <= i < |values| && Faulty(f, values[i])|
    ensures d == WithCategories(doc, f.group, Named(f, hash, values), c)
  {
    hide Chosen, Adds, Faulty, Usable, CatPrefix, AncPrefix;
    d, errors := doc, 0;
    ghost var cats: set<Name> := {};
    assert d == WithCategories(doc, f.group, cats, c);
    for k := 0 to |values|
      invariant cats == Named(f, hash, values[..k])
      invariant d == WithCategories(doc, f.group, cats, c)
      invariant errors == |set i | 0 <= i < k && Faulty(f, values[i])|
    {
      NamedMore(f, hash, values, k);
      FaultyMore(f, hash, values, k);
      hide WithCategories, Named;
      d, errors, cats := IndexValue(doc, d, f, hash, values[k], c, cats, errors);
    }
    assert values[..|values|] == values;
    FieldTerms(doc, f, hash, values, c);
  }

  /** One turn of the loop over the values. */
  method IndexValue(ghost doc: Doc, before: Doc, f: CategoryField, hash: (string, nat) -> string, v: Json,
                    c: CategoryMap, ghost cats: set<Name>, errors: nat)
    returns (d: Doc, more: nat, ghost named: set<Name>)
    requires before == WithCategories(doc, f.group, cats, c)
    ensures named == cats + if Chosen(f, hash, v).Some? then {Chosen(f, hash, v).value} else {}
    ensures d == WithCategories(doc, f.group, named, c)
    ensures more == errors + if Usable(f, hash, v) then 0 else 1
  {
    d, more, named := before, errors, cats;
    match IdStyle(v)
    case Bad => more := errors + 1;
    case Empty =>
    case Value(s) =>
      match Shorten(f, hash, s)
      case None => more := errors + 1;
      case Some(cat) =>
        d := d + {CatPrefix(f.group) + cat};
        if cat in c {
          d := AddAncestorTerms(d, f.group, c[cat].ancestors);
        }
        WithCategoriesMore(doc, f.group, cats, c, cat);
        named := cats + {cat};
  }

  lemma FaultyMore(f: CategoryField, hash: (string, nat) -> string, values: seq<Json>, k: nat)
    requires k < |values|
    ensures |set i | 0 <= i < k + 1 && Faulty(f, values[i])|
         == |set i | 0 <= i < k && Faulty(f, values[i])| + if Usable(f, hash, values[k]) then 0 else 1
  {
    FaultyIs(f, hash, values[k]);
    hide Faulty, Usable;
    var n, m := set i | 0 <= i < k && Faulty(f, values[i]), set i | 0 <= i < k + 1 && Faulty(f, values[i]);
    assert m == if Faulty(f, values[k]) then n + {k} else n;
  }

  lemma FieldTerms(doc: Doc, f: CategoryField, hash: (string, nat) -> string, values: seq<Json>, c: CategoryMap)
    ensures var d := WithCategories(doc, f.group, Named(f, hash, values), c);
            && (forall t :: t in d <==> t in doc || exists i :: 0 <= i < |values| && Adds(f, hash, values[i], c, t))
            && forall x :: Str(x) in values && x != "" && |x| <= f.maxLength ==> f.group + "\tC" + x in d
  {
    hide Reads, StoredAs, Named, WithCategories;
    var cats := Named(f, hash, values);
    NamedAre(f, hash, values);
    WithCategoriesAt(doc, f.group, cats, c);
    var d := WithCategories(doc, f.group, cats, c);
    forall t
      ensures t in d <==> t in doc || exists i :: 0 <= i < |values| && Adds(f, hash, values[i], c, t)
    {
      if x :| x in cats && t == f.group + "\tC" + x {
        var i, s :| 0 <= i < |values| && Reads(values[i], s) && StoredAs(f, hash, s, x);
        assert Adds(f, hash, values[i], c, t);
      }
      if x, a :| x in cats && x in c && a in c[x].ancestors && t == f.group + "\tA" + a {
        var i, s :| 0 <= i < |values| && Reads(values[i], s) && StoredAs(f, hash, s, x);
        assert Adds(f, hash, values[i], c, t);
      }
    }
    forall x | Str(x) in values && x != "" && |x| <= f.maxLength
      ensures x in cats
    {
      ShortString(f, hash, x);
      var i :| 0 <= i < |values| && values[i] == Str(x);
    }
  }

  lemma ShortString(f: CategoryField, hash: (string, nat) -> string, x: Name)
    requires x != "" && |x| <= f.maxLength
    ensures Reads(Str(x), x) && StoredAs(f, hash, x, x)
  {
  }

  method AddAncestorTerms(doc: Doc, g: string, ancestors: set<Name>) returns (d: Doc)
    ensures d == doc + set a | a in ancestors :: AncPrefix(g) + a
  {
    d := doc;
    var todo := ancestors;
    while todo != {}
      invariant todo <= ancestors
      invariant d == doc + set a | a in ancestors - todo :: AncPrefix(g) + a
    {
      var a :| a in todo;
      d := d + {AncPrefix(g) + a};
      todo := todo - {a};
    }
    assert ancestors - todo == ancestors;
  }

  lemma NamedMore(f: CategoryField, hash: (string, nat) -> string, values: seq<Json>, k: nat)
    requires k < |values|
    ensures Named(f, hash, values[..k + 1]) == Named(f, hash, values[..k]) +
              if Chosen(f, hash, values[k]).Some? then {Chosen(f, hash, values[k]).value} else {}
  {
    hide Chosen;
    var m, n := values[..k + 1], values[..k];
    assert m == n + [values[k]];
    forall i | 0 <= i < k
      ensures m[i] == n[i]
    {
    }
    forall x | x in Named(f, hash, n)
      ensures x in Named(f, hash, m)
    {
      var i :| 0 <= i < |n| && Chosen(f, hash, n[i]) == Some(x);
      assert m[i] == n[i];
    }
    assert m[k] == values[k];
  }

  lemma WithCategoriesMore(doc: Doc, g: string, cats: set<Name>, c: CategoryMap, cat: Name)
    ensures WithCategories(doc, g, cats + {cat}, c) ==
            WithCategories(doc, g, cats, c) + {CatPrefix(g) + cat} +
            (if cat in c then set a | a in c[cat].ancestors :: AncPrefix(g) + a else {})
  {
    assert AncestorsOf(c, cats + {cat}) == AncestorsOf(c, cats) + if cat in c then c[cat].ancestors else {};
  }

  /** Indexing a field leaves an up-to-date document up to date. */
  lemma WithCategoriesUpToDate(doc: Doc, g: string, cats: set<Name>, groups: Groups, taxes: TaxonomyMap)
    requires ValidGroups(groups) && g in groups && UpToDate(doc, groups, taxes)
    ensures var d := WithCategories(doc, g, cats, GroupTaxonomy(taxes, groups, g));
      && UpToDate(d, groups, taxes)
      && CatsOf(d, g) == CatsOf(doc, g) + cats
      && (forall h :: h in groups && h != g ==> CatsOf(d, h) == CatsOf(doc, h))
      && (forall t :: IsIdTerm(t) ==> (t in d <==> t in doc))
  {
    hide WithCategories, CatsOf, AncsOf, AncestorsOf;
    var c := GroupTaxonomy(taxes, groups, g);
    var d := WithCategories(doc, g, cats, c);
    CategoriesAdded(doc, g, cats, c);
    AncestorsOfUnion(c, CatsOf(doc, g), cats);
    forall h | h in groups && h != g
      ensures CatsOf(d, h) == CatsOf(doc, h) && AncsOf(d, h) == AncsOf(doc, h)
    {
      CategoriesElsewhere(doc, g, cats, c, h);
    }
    forall t | IsIdTerm(t)
      ensures t in d <==> t in doc
    {
      TermsDisjoint(g, g, t);
      AddedTerms(doc, g, cats, c, t);
    }
  }

  lemma AncestorsOfUnion(c: CategoryMap, s: set<Name>, t: set<Name>)
    ensures AncestorsOf(c, s + t) == AncestorsOf(c, s) + AncestorsOf(c, t)
  {
  }

  lemma CategoriesAdded(doc: Doc, g: string, cats: set<Name>, c: CategoryMap)
    requires ValidGroup(g)
    ensures var d := WithCategories(doc, g, cats, c);
      && CatsOf(d, g) == CatsOf(doc, g) + cats
      && AncsOf(d, g) == AncsOf(doc, g) + AncestorsOf(c, cats)
  {
    hide CatsOf, AncsOf, AncestorsOf;
    var d := WithCategories(doc, g, cats, c);
    forall x
      ensures x in CatsOf(d, g) <==> x in CatsOf(doc, g) || x in cats
      ensures x in AncsOf(d, g) <==> x in AncsOf(doc, g) || x in AncestorsOf(c, cats)
    {
      CatsAnd(d, g, x);
      CatsAnd(doc, g, x);
      PrefixedTerm(CatPrefix(g), x);
      PrefixedTerm(AncPrefix(g), x);
      TermsDisjoint(g, g, CatPrefix(g) + x);
      TermsDisjoint(g, g, AncPrefix(g) + x);
      AddedTerms(doc, g, cats, c, CatPrefix(g) + x);
      AddedTerms(doc, g, cats, c, AncPrefix(g) + x);
    }
  }

  lemma CategoriesElsewhere(doc: Doc, g: string, cats: set<Name>, c: CategoryMap, h: string)
    requires ValidGroup(g) && ValidGroup(h) && g != h
    ensures var d := WithCategories(doc, g, cats, c);
      CatsOf(d, h) == CatsOf(doc, h) && AncsOf(d, h) == AncsOf(doc, h)
  {
    hide WithCategories;
    var d := WithCategories(doc, g, cats, c);
    forall t | CatPrefix(h) <= t || AncPrefix(h) <= t
      ensures t in d <==> t in doc
    {
      AddedTerms(doc, g, cats, c, t);
      TermsDisjoint(g, h, t);
      TermsDisjoint(h, g, t);
    }
    assert CatsOf(d, h) == CatsOf(doc, h);
    assert AncsOf(d, h) == AncsOf(doc, h);
  }

  lemma AddedTerms(doc: Doc, g: string, cats: set<Name>, c: CategoryMap, t: Term)
    ensures t in doc ==> t in WithCategories(doc, g, cats, c)
    ensures t in WithCategories(doc, g, cats, c) ==>
              || t in doc
              || (CatPrefix(g) <= t && t[|CatPrefix(g)|..] in cats)
              || (AncPrefix(g) <= t && t[|AncPrefix(g)|..] in AncestorsOf(c, cats))
  {
    if t in WithCategories(doc, g, cats, c) && t !in doc {
      if x :| x in cats && t == CatPrefix(g) + x {
        PrefixedTerm(CatPrefix(g), x);
      } else {
        var a :| a in AncestorsOf(c, cats) && t == AncPrefix(g) + a;
        PrefixedTerm(AncPrefix(g), a);
      }
    }
  }

  // --------------------------------------------------------- whole documents

  datatype FieldInput = FieldInput(field: CategoryField, values: seq<Json>)

  ghost predicate NoCategoryTerms(doc: Doc, groups: Groups) {
    forall g, t :: g in groups && t in doc ==> !(CatPrefix(g) <= t) && !(AncPrefix(g) <= t)
  }

  /** The categories that a list of fields puts in a group. */
  ghost function FieldCategories(fields: seq<FieldInput>, hash: (string, nat) -> string, g: string): set<Name> {
    set i, x | 0 <= i < |fields| && fields[i].field.group == g
               && x in Named(fields[i].field, hash, fields[i].values) :: x
  }

  /** The document that indexing its category fields, one by one, leads to. */
  ghost function Processed(others: Doc, fields: seq<FieldInput>, hash: (string, nat) -> string,
                           groups: Groups, taxes: TaxonomyMap): Doc
    requires forall i :: 0 <= i < |fields| ==> fields[i].field.group in groups
    decreases |fields|
  {
    if fields == [] then others
    else
      var f := fields[|fields| - 1];
      WithCategories(Processed(others, fields[..|fields| - 1], hash, groups, taxes), f.field.group,
                     Named(f.field, hash, f.values), GroupTaxonomy(taxes, groups, f.field.group))
  }

  /** A processed document is up to date, with the categories its fields name. */
  lemma {:induction false} ProcessedUpToDate(others: Doc, fields: seq<FieldInput>, hash: (string, nat) -> string,
                                             groups: Groups, taxes: TaxonomyMap)
    requires ValidGroups(groups) && NoCategoryTerms(others, groups)
    requires forall i :: 0 <= i < |fields| ==> fields[i].field.group in groups
    ensures var doc := Processed(others, fields, hash, groups, taxes);
      && UpToDate(doc, groups, taxes)
      && (forall g :: g in groups ==> CatsOf(doc, g) == FieldCategories(fields, hash, g))
      && (forall t :: IsIdTerm(t) ==> (t in doc <==> t in others))
    decreases |fields|
  {
    if fields == [] {
      assert forall g :: g in groups ==> CatsOf(others, g) == {} && AncsOf(others, g) == {};
    } else {
      hide UpToDate, CatsOf, FieldCategories, Named, WithCategories;
      var k := |fields| - 1;
      var f := fields[k];
      ProcessedUpToDate(others, fields[..k], hash, groups, taxes);
      WithCategoriesUpToDate(Processed(others, fields[..k], hash, groups, taxes), f.field.group,
                             Named(f.field, hash, f.values), groups, taxes);
      assert fields[..k + 1] == fields;
      forall g | g in groups
        ensures CatsOf(Processed(others, fields, hash, groups, taxes), g) == FieldCategories(fields, hash, g)
      {
        FieldCategoriesMore(fields, hash, k, g);
      }
    }
  }

  ghost predicate FaultFree(f: FieldInput) {
    forall k :: 0 <= k < |f.values| ==> !Faulty(f.field, f.values[k])
  }

  lemma NoFaults(f: FieldInput)
    ensures |set i | 0 <= i < |f.values| && Faulty(f.field, f.values[i])| == 0 <==> FaultFree(f)
  {
    hide Faulty;
    var s := set i | 0 <= i < |f.values| && Faulty(f.field, f.values[i]);
    if FaultFree(f) {
      assert s == {};
    } else {
      var k :| 0 <= k < |f.values| && Faulty(f.field, f.values[k]);
      assert k in s;
    }
  }

  /** The term is put in a document by some value of the field. */
  ghost predicate FieldAdds(f: FieldInput, hash: (string, nat) -> string, groups: Groups, taxes: TaxonomyMap, t: Term)
    requires f.field.group in groups
  {
    var name := groups[f.field.group];
    exists k :: 0 <= k < |f.values|
      && Adds(f.field, hash, f.values[k], if name in taxes then taxes[name] else map[], t)
  }

  lemma FieldAdded(before: Doc, f: FieldInput, hash: (string, nat) -> string, groups: Groups, taxes: TaxonomyMap)
    requires f.field.group in groups
    ensures var c := GroupTaxonomy(taxes, groups, f.field.group);
            forall t :: t in WithCategories(before, f.field.group, Named(f.field, hash, f.values), c) <==>
                          t in before || FieldAdds(f, hash, groups, taxes, t)
  {
    hide WithCategories, Named, Adds;
    FieldTerms(before, f.field, hash, f.values, GroupTaxonomy(taxes, groups, f.field.group));
  }

  lemma NothingProcessed(others: Doc, hash: (string, nat) -> string, groups: Groups, taxes: TaxonomyMap)
    ensures Processed(others, [], hash, groups, taxes) == others
  {
  }

  lemma ProcessedMore(others: Doc, fields: seq<FieldInput>, k: nat, hash: (string, nat) -> string,
                      groups: Groups, taxes: TaxonomyMap)
    requires k < |fields| && forall i :: 0 <= i < |fields| ==> fields[i].field.group in groups
    ensures Processed(others, fields[..k + 1], hash, groups, taxes)
         == var f := fields[k];
            WithCategories(Processed(others, fields[..k], hash, groups, taxes), f.field.group,
                           Named(f.field, hash, f.values), GroupTaxonomy(taxes, groups, f.field.group))
  {
    assert fields[..k + 1][..k] == fields[..k];
  }

  /** The terms of a processed document, one by one. */
  lemma {:induction false} ProcessedTerms(others: Doc, fields: seq<FieldInput>, k: nat,
                                          hash: (string, nat) -> string, groups: Groups, taxes: TaxonomyMap)
    requires k <= |fields| && forall i :: 0 <= i < |fields| ==> fields[i].field.group in groups
    ensures forall t :: t in Processed(others, fields[..k], hash, groups, taxes) <==>
              t in others || exists i :: 0 <= i < k && FieldAdds(fields[i], hash, groups, taxes, t)
  {
    hide WithCategories, Named, FieldAdds;
    if k == 0 {
      NothingProcessed(others, hash, groups, taxes);
    } else {
      hide Processed;
      ProcessedTerms(others, fields, k - 1, hash, groups, taxes);
      ProcessedMore(others, fields, k - 1, hash, groups, taxes);
      FieldAdded(Processed(others, fields[..k - 1], hash, groups, taxes), fields[k - 1], hash, groups, taxes);
    }
  }

  /** Indexes the category fields of a document to which `others` has added its other terms. */
  method ProcessDocument(others: Doc, fields: seq<FieldInput>, hash: (string, nat) -> string,
                         groups: Groups, taxes: TaxonomyMap)
    returns (doc: Doc, errors: nat)
    requires forall i :: 0 <= i < |fields| ==> fields[i].field.group in groups
    ensures forall t :: t in doc <==>
              t in others || exists i :: 0 <= i < |fields| && FieldAdds(fields[i], hash, groups, taxes, t)
    ensures doc == Processed(others, fields, hash, groups, taxes)
    ensures errors == 0 <==> forall i :: 0 <= i < |fields| ==> FaultFree(fields[i])
  {
    hide Processed, Faulty, FaultFree, Adds, FieldAdds, Reads, StoredAs, WithCategories, Named;
    NothingProcessed(others, hash, groups, taxes);
    doc, errors := others, 0;
    for k := 0 to |fields|
      invariant errors == 0 <==> forall i :: 0 <= i < k ==> FaultFree(fields[i])
      invariant doc == Processed(others, fields[..k], hash, groups, taxes)
    {
      var f := fields[k];
      var bad;
      ProcessedMore(others, fields, k, hash, groups, taxes);
      doc, bad := IndexField(doc, f.field, hash, f.values, GroupTaxonomy(taxes, groups, f.field.group));
      NoFaults(f);
      errors := errors + bad;
    }
    ProcessedTerms(others, fields, |fields|, hash, groups, taxes);
    assert fields[..|fields|] == fields;
  }

  lemma FieldCategoriesMore(fields: seq<FieldInput>, hash: (string, nat) -> string, k: nat, g: string)
    requires k < |fields|
    ensures FieldCategories(fields[..k + 1], hash, g) == FieldCategories(fields[..k], hash, g) +
              if fields[k].field.group == g then Named(fields[k].field, hash, fields[k].values) else {}
  {
    hide Named;
    var m, n := fields[..k + 1], fields[..k];
    assert forall i :: 0 <= i < k ==> m[i] == n[i];
    assert m[k] == fields[k];
    forall x
      ensures x in FieldCategories(m, hash, g) <==>
                (|| x in FieldCategories(n, hash, g)
                 || (m[k].field.group == g && x in Named(m[k].field, hash, m[k].values)))
    {
      if i :| 0 <= i < k && n[i].field.group == g && x in Named(n[i].field, hash, n[i].values) {
        assert m[i] == n[i];
      }
    }
  }
}
