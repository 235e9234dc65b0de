/** Queries on category fields, and what they find. */
module CategoryQueries {
  import opened Options
  import opened JsonValues
  import opened ParentGraph
  import opened TaxonomySpec
  import opened Documents
  import opened Indexing
  import opened Numerals

  datatype QueryType = Is | IsDescendant | IsOrIsDescendant

  function ParseQueryType(s: string): Option<QueryType> {
    if s == "is" then Some(Is)
    else if s == "is_descendant" then Some(IsDescendant)
    else if s == "is_or_is_descendant" then Some(IsOrIsDescendant)
    else None
  }

  /** The prefixes under which a kind of query looks its values up. */
  function Prefixes(g: string, q: QueryType): seq<Term> {
    match q
    case Is => [CatPrefix(g)]
    case IsDescendant => [AncPrefix(g)]
    case IsOrIsDescendant => [CatPrefix(g), AncPrefix(g)]
  }

  /** A query is the disjunction of its terms. */
  ghost predicate Matches(doc: Doc, terms: seq<Term>) {
    exists t :: t in terms && t in doc
  }

  /** The value asked for, as a string: a string, or a whole number from zero on. */
  function QueryValue(v: Json): Option<Name> {
    match v
    case Str(s) => Some(s)
    case Number(n) => if 0 <= n <= MAX_UINT64 then Some(Decimal(n)) else None
    case _ => None
  }

  /** A single value is a list of one; null is an empty list. */
  function QueryList(value: Json): seq<Json> {
    if value.IsArray() then value.Items() else [value]
  }

  /** The values of a query, unless one of them is of a wrong type or out of range. */
  function QueryValues(vs: seq<Json>): Option<seq<Name>> {
    if vs == [] then Some([])
    else
      match QueryValue(vs[0])
      case None => None
      case Some(v) =>
        match QueryValues(vs[1..])
        case None => None
        case Some(rest) => Some([v] + rest)
  }

  /** A value that can be asked for is the one that indexing it stores. */
  lemma QueryValueIsIndexed(v: Json)
    ensures IdStyle(v).Value? ==> QueryValue(v) == Some(IdStyle(v).s)
    ensures QueryValue(v).Some? ==> v == Str("") || IdStyle(v) == Value(QueryValue(v).value)
  {
  }

  ghost predicate AreTerms(terms: seq<Term>, g: string, q: QueryType, values: seq<Name>) {
    forall t :: t in terms <==> exists p, v :: p in Prefixes(g, q) && v in values && t == p + v
  }

  /** A value of the query, given alone or in a list; null is an empty list. */
  ghost predicate Given(value: Json, v: Json) {
    if value.Arr? then v in value.items else value != Null && v == value
  }

  /** The value asks for this category. */
  ghost predicate Names(v: Json, x: Name) {
    || v == Str(x)
    || exists n: int :: v == Number(n) && 0 <= n <= 0xffff_ffff_ffff_ffff && x == Decimal(n)
  }

  lemma NamesIs(v: Json)
    ensures forall x :: Names(v, x) <==> QueryValue(v) == Some(x)
  {
  }

  /** The values of a query are the categories that the values given ask for. */
  lemma {:induction false} QueryValuesAre(vs: seq<Json>)
    ensures QueryValues(vs).Some? <==> forall v :: v in vs ==> exists x :: Names(v, x)
    ensures QueryValues(vs).Some? ==>
              forall x :: x in QueryValues(vs).value <==> exists v :: v in vs && Names(v, x)
  {
    if vs != [] {
      hide Names;
      NamesIs(vs[0]);
      QueryValuesAre(vs[1..]);
      assert vs == [vs[0]] + vs[1..];
      assert vs[0] in vs && forall v :: v in vs <==> v == vs[0] || v in vs[1..];
      assert QueryValue(vs[0]).Some? ==> Names(vs[0], QueryValue(vs[0]).value);
      assert QueryValue(vs[0]).Some? <==> exists x :: Names(vs[0], x);
    }
  }

  /** Each kind of query looks its values up as categories, as ancestors, or as both. */
  lemma TermsAre(g: string, qtype: string, values: seq<Name>, terms: seq<Term>)
    requires ParseQueryType(qtype).Some? && AreTerms(terms, g, ParseQueryType(qtype).value, values)
    ensures forall t :: t in terms <==>
              exists x :: x in values
                && ((qtype != "is_descendant" && t == g + "\tC" + x) || (qtype != "is" && t == g + "\tA" + x))
  {
    var ps := Prefixes(g, ParseQueryType(qtype).value);
    assert qtype != "is_descendant" ==> ps[0] == g + "\tC";
    assert qtype != "is" ==> ps[|ps| - 1] == g + "\tA";
  }

  /** The terms of a query; none where the source throws. */
  method QueryTerms(g: string, qtype: string, value: Json) returns (terms: Option<seq<Term>>)
    ensures terms.Some? <==>
              && qtype in {"is", "is_descendant", "is_or_is_descendant"}
              && forall v :: Given(value, v) ==> exists x :: Names(v, x)
    ensures terms.Some? ==>
              forall t :: t in terms.value <==>
                exists v, x :: Given(value, v) && Names(v, x)
                  && ((qtype != "is_descendant" && t == g + "\tC" + x) || (qtype != "is" && t == g + "\tA" + x))
    ensures terms.Some? <==> ParseQueryType(qtype).Some? && QueryValues(QueryList(value)).Some?
    ensures terms.Some? ==>
              AreTerms(terms.value, g, ParseQueryType(qtype).value, QueryValues(QueryList(value)).value)
  {
    hide Names;
    var vs := QueryList(value);
    QueryValuesAre(vs);
    assert forall v :: Given(value, v) <==> v in vs;
    terms := TermsOf(g, qtype, vs);
    if terms.Some? {
      TermsAre(g, qtype, QueryValues(vs).value, terms.value);
      hide QueryValues, QueryList, AreTerms, ParseQueryType, Given;
      assert forall x :: x in QueryValues(vs).value <==> exists v :: Given(value, v) && Names(v, x);
    }
  }

  /** Goes through the values of a query. */
  method TermsOf(g: string, qtype: string, vs: seq<Json>) returns (terms: Option<seq<Term>>)
    ensures terms.Some? <==> ParseQueryType(qtype).Some? && QueryValues(vs).Some?
    ensures terms.Some? ==> AreTerms(terms.value, g, ParseQueryType(qtype).value, QueryValues(vs).value)
  {
    var q := ParseQueryType(qtype);
    if q.None? {
      return None;
    }
    var done: seq<Term> := [];
    ghost var values: seq<Name> := [];
    assert vs[0..] == vs;
    assert QueryValues(vs).Some? ==> [] + QueryValues(vs).value == QueryValues(vs).value;
    for i := 0 to |vs|
      invariant AreTerms(done, g, q.value, values)
      invariant match QueryValues(vs[i..])
                case None => QueryValues(vs).None?
                case Some(rest) => QueryValues(vs) == Some(values + rest)
    {
      hide AreTerms;
      assert vs[i..][1..] == vs[i + 1..];
      var v := QueryValue(vs[i]);
      if v.None? {
        return None;
      }
      assert QueryValues(vs[i + 1..]).Some? ==>
               var rest := QueryValues(vs[i + 1..]).value; values + ([v.value] + rest) == (values + [v.value]) + rest;
      done := AddTerms(done, g, q.value, v.value, values);
      values := values + [v.value];
    }
    assert values + [] == values;
    return Some(done);
  }

  /** The terms for one more value. */
  method AddTerms(terms: seq<Term>, g: string, q: QueryType, v: Name, ghost values: seq<Name>) returns (more: seq<Term>)
    requires AreTerms(terms, g, q, values)
    ensures AreTerms(more, g, q, values + [v])
  {
    more := terms;
    var prefixes := Prefixes(g, q);
    for j := 0 to |prefixes|
      invariant forall t :: t in more <==> t in terms || exists k :: 0 <= k < j && t == prefixes[k] + v
    {
      more := more + [prefixes[j] + v];
    }
    forall t
      ensures t in more <==> exists p, w :: p in prefixes && w in values + [v] && t == p + w
    {
      if p, w :| p in prefixes && w in values + [v] && t == p + w {
        if w == v {
          var k :| 0 <= k < |prefixes| && prefixes[k] == p;
          assert t == prefixes[k] + v;
        }
      }
    }
  }

  /** What each kind of query asks of a category of a document. */
  ghost predicate AsksFor(q: QueryType, g: Graph, x: Name, v: Name) {
    match q
    case Is => x == v
    case IsDescendant => Above(g, x, v)
    case IsOrIsDescendant => AboveOrSelf(g, x, v)
  }

  lemma TermMeaning(doc: Doc, group: string, c: CategoryMap, v: Name)
    requires ValidGroup(group) && Consistent(c) && Indexed(doc, group, c)
    ensures CatPrefix(group) + v in doc <==> v in CatsOf(doc, group)
    ensures AncPrefix(group) + v in doc <==> exists x :: x in CatsOf(doc, group) && Above(ParentLinks(c), x, v)
  {
    CatsAnd(doc, group, v);
    hide Above, CatsOf, AncsOf;
    forall x | Above(ParentLinks(c), x, v)
      ensures x in c && v in c[x].ancestors
    {
      AboveStaysInside(ParentLinks(c), x, v);
    }
  }

  /** A value is found under its prefixes exactly in documents with a category it asks for. */
  lemma ValueMeaning(doc: Doc, group: string, c: CategoryMap, q: QueryType, v: Name)
    requires ValidGroup(group) && Consistent(c) && Indexed(doc, group, c)
    ensures (exists p :: p in Prefixes(group, q) && p + v in doc) <==>
            exists x :: x in CatsOf(doc, group) && AsksFor(q, ParentLinks(c), x, v)
  {
    TermMeaning(doc, group, c, v);
    hide Above, CatsOf, Consistent, Indexed, CatPrefix, AncPrefix;
    assert Prefixes(group, q)[0] in Prefixes(group, q);
    assert q == IsOrIsDescendant ==> Prefixes(group, q)[1] in Prefixes(group, q);
  }

  /** On an up-to-date document, a query matches exactly if some category of the
      document is, or is a descendant of, some value asked for. */
  lemma QueryExact(doc: Doc, group: string, c: CategoryMap, q: QueryType, values: seq<Name>, terms: seq<Term>)
    requires ValidGroup(group) && Consistent(c) && Indexed(doc, group, c)
    requires AreTerms(terms, group, q, values)
    ensures Matches(doc, terms) <==>
            exists v, x :: v in values && x in CatsOf(doc, group) && AsksFor(q, ParentLinks(c), x, v)
  {
    hide Above, CatsOf, Indexed, Consistent, Prefixes, AsksFor;
    if v, x :| v in values && x in CatsOf(doc, group) && AsksFor(q, ParentLinks(c), x, v) {
      ValueMeaning(doc, group, c, q, v);
      var p :| p in Prefixes(group, q) && p + v in doc;
      assert p + v in terms;
    }
    if Matches(doc, terms) {
      var t :| t in terms && t in doc;
      var p, v :| p in Prefixes(group, q) && v in values && t == p + v;
      assert p in Prefixes(group, q) && p + v in doc;
      ValueMeaning(doc, group, c, q, v);
    }
  }

  /** Asks an "is" query for one category: it finds a document just indexed exactly if
      some value of one of its fields in the group was stored as that category. */
  method AskForCategory(others: Doc, fields: seq<FieldInput>, hash: (string, nat) -> string,
                        groups: Groups, taxes: TaxonomyMap, g: string, x: Name)
    returns (doc: Doc, terms: seq<Term>)
    requires ValidGroups(groups) && NoCategoryTerms(others, groups) && g in groups
    requires forall i :: 0 <= i < |fields| ==> fields[i].field.group in groups
    ensures doc == Processed(others, fields, hash, groups, taxes)
    ensures forall t :: t in terms <==> t == g + "\tC" + x
    ensures Matches(doc, terms) <==>
              exists i, k, s :: 0 <= i < |fields| && fields[i].field.group == g && 0 <= k < |fields[i].values|
                && Reads(fields[i].values[k], s) && StoredAs(fields[i].field, hash, s, x)
  {
    hide Processed, FieldCategories, CatsOf, Reads, StoredAs, UpToDate, FieldAdds, FaultFree, NoCategoryTerms, IsIdTerm;
    var bad;
    doc, bad := ProcessDocument(others, fields, hash, groups, taxes);
    ProcessedUpToDate(others, fields, hash, groups, taxes);
    CatsAnd(doc, g, x);
    StoredIn(fields, hash, g, x);
    assert Names(Str(x), x) && forall y :: Names(Str(x), y) ==> y == x;
    var asked := QueryTerms(g, "is", Str(x));
    terms := asked.value;
  }

  /** The categories that fields put in a group, by the values they come from. */
  lemma StoredIn(fields: seq<FieldInput>, hash: (string, nat) -> string, g: string, x: Name)
    ensures x in FieldCategories(fields, hash, g) <==>
              exists i, k, s :: 0 <= i < |fields| && fields[i].field.group == g && 0 <= k < |fields[i].values|
                && Reads(fields[i].values[k], s) && StoredAs(fields[i].field, hash, s, x)
  {
    hide Named, Reads, StoredAs;
    forall i | 0 <= i < |fields|
      ensures x in Named(fields[i].field, hash, fields[i].values) <==>
                exists k, s :: 0 <= k < |fields[i].values|
                  && Reads(fields[i].values[k], s) && StoredAs(fields[i].field, hash, s, x)
    {
      NamedAre(fields[i].field, hash, fields[i].values);
    }
  }
}
