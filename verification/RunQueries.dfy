/** Category queries in the states of a run. */
module RunQueries {
  import opened TaxonomySpec
  import opened Documents
  import opened Indexing
  import opened Collections
  import opened CategoryQueries
  import opened Pipeline

  /** In every state of every run, a category query finds exactly the stored documents it should. */
  lemma EveryQuery(setup: Setup, run: seq<State>, events: seq<Event>, k: nat, d: DocId, g: string, q: QueryType,
                   values: seq<string>, terms: seq<Term>)
    requires ValidGroups(setup.groups) && IsRun(setup, run, events) && k < |run|
    requires d in run[k].docs && g in setup.groups && AreTerms(terms, g, q, values)
    ensures var c := GroupTaxonomy(run[k].taxes, setup.groups, g);
            Matches(run[k].docs[d], terms) <==>
            exists v, x :: v in values && x in CatsOf(run[k].docs[d], g) && AsksFor(q, ParentLinks(c), x, v)
  {
    hide Consistent, CatsOf, AreTerms, Matches, AsksFor, IsRun, Replay;
    EveryRun(setup, run, events, k);
    EmptyConsistent();
    QueryExact(run[k].docs[d], g, GroupTaxonomy(run[k].taxes, setup.groups, g), q, values, terms);
  }
}
