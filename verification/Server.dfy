/**
 The tasks of the two stages as code, each shown to take the steps of the pipeline
 that it stands for.
 */
module Server {
  import opened Options
  import opened TaxonomySpec
  import opened Taxonomies
  import opened Documents
  import opened Indexing
  import opened Collections
  import opened Pipeline
  import TaxonomyJson

  /** A clone of a configuration: each taxonomy goes out to JSON and back. */
  method CloneTaxonomies(taxes: TaxonomyMap) returns (copy: TaxonomyMap)
    requires AllConsistent(taxes)
    ensures copy == taxes
  {
    copy := map[];
    var todo := taxes.Keys;
    while todo != {}
      invariant todo <= taxes.Keys
      invariant copy.Keys == taxes.Keys - todo
      invariant forall n :: n in copy ==> copy[n] == taxes[n]
    {
      var n :| n in todo;
      var t := new Taxonomy.Load(taxes[n]);
      var u := TaxonomyJson.Clone(t);
      copy := copy[n := u.categories];
      todo := todo - {n};
    }
    SameMap(copy, taxes);
  }

  /** What performing a task does to the taxonomies and the documents of a collection. */
  ghost predicate Performed(task: Task, groups: Groups, taxes: TaxonomyMap, docs: Store, last: nat,
                            taxes': TaxonomyMap, docs': Store)
  {
    match task
    case EditTask(name, e) =>
      && taxes'.Keys == taxes.Keys + {name} && docs'.Keys == docs.Keys
      && (forall n :: n in taxes && n != name ==> taxes'[n] == taxes[n])
      && EditEffect(if name in taxes then taxes[name] else map[], taxes'[name], e)
      && (forall d, t :: d in docs && (forall g :: g in groups ==> !(g + "\tA" <= t)) ==>
            (t in docs'[d] <==> t in docs[d]))
    case UpdateTask(doc, id) =>
      && taxes' == taxes
      && exists at: nat :: docs' == docs[at := doc]
           && if at in docs then id in docs[at] else at == last + 1 && forall d :: d in docs ==> id !in docs[d]
    case DeleteTask(id) =>
      && taxes' == taxes
      && (forall d :: d in docs' <==> d in docs && !(IsIdTerm(id) && id in docs[d]))
      && (forall d :: d in docs' ==> docs'[d] == docs[d])
    case ConfigTask(t) => taxes' == t && docs' == docs
  }

  class TaskManager {
    const setup: Setup
    var proc: TaxonomyMap
    var queue: seq<Task>
    const coll: Collection

    ghost function View(): State
      reads this, coll
    {
      State(proc, None, [], queue, coll.taxonomies, coll.docs, coll.last)
    }

    ghost predicate Valid()
      reads this, coll
    {
      coll.groups == setup.groups && Invariant(setup, View())
    }

    constructor (setup: Setup)
      requires ValidGroups(setup.groups)
      ensures Valid() && Initial(setup, View()) && fresh(coll)
    {
      this.setup := setup;
      proc, queue := map[], [];
      coll := new Collection(setup.groups);
    }

    /** A category task of the processing stage: returns false where the source throws. */
    method PerformEdit(name: string, e: Edit) returns (ok: bool)
      requires Valid()
      modifies this
      ensures Valid()
      ensures ok <==>
                !e.PutParent? || (e.cat != e.parent && !(name in old(proc) && e.parent in old(proc)[name]
                                                         && e.cat in old(proc)[name][e.parent].ancestors))
      ensures queue == if ok then old(queue) + [EditTask(name, e)] else old(queue)
      ensures !ok ==> proc == old(proc)
      ensures ok ==> proc.Keys == old(proc).Keys + {name}
      ensures ok ==> forall n :: n in old(proc) && n != name ==> proc[n] == old(proc)[n]
      ensures ok ==> EditEffect(if name in old(proc) then old(proc)[name] else map[], proc[name], e)
      ensures ok <==> AcceptsIn(old(proc), name, e)
      ensures !ok ==> View() == old(View())
      ensures ok ==> var started := Step(setup, old(View()), StartEdit(name, e));
                     Enabled(setup, started, QueueEdit) && View() == Step(setup, started, QueueEdit)
    {
      hide Invariant, EditEffect, AcceptsIn, Step, Enabled;
      EditMeans(setup, View(), name, e);
      ok := TakeEdit(name, e);
    }

    method TakeEdit(name: string, e: Edit) returns (ok: bool)
      requires Valid()
      modifies this
      ensures Valid()
      ensures ok <==> AcceptsIn(old(proc), name, e)
      ensures !ok ==> View() == old(View())
      ensures ok ==> var started := Step(setup, old(View()), StartEdit(name, e));
                     Enabled(setup, started, QueueEdit) && View() == Step(setup, started, QueueEdit)
    {
      hide Invariant, Consistent, Derived, Accepts;
      ghost var s := View();
      InvariantConsistent(setup, s);
      var config := CloneTaxonomies(proc);
      EmptyConsistent();
      var t := new Taxonomy.Load(TaxonomyOf(config, name));
      var modified;
      ok, modified := t.Perform(e, {});
      ProcessingKeepsInvariant(setup, s, StartEdit(name, e));
      if ok {
        proc := config[name := t.categories];
        ProcessingKeepsInvariant(setup, Step(setup, s, StartEdit(name, e)), QueueEdit);
        queue := queue + [EditTask(name, e)];
      }
    }

    /** A document task of the processing stage; `changed` if it has added to the schema, and so to its copy
        of the configuration, which then goes to the collection and back to the processing stage. */
    method PerformDocument(others: Doc, fields: seq<FieldInput>, id: Term, changed: bool)
      requires Valid()
      requires NoCategoryTerms(others, setup.groups) && HasId(others, id)
      requires forall k :: 0 <= k < |fields| ==> fields[k].field.group in setup.groups
      modifies this
      ensures Valid() && proc == old(proc)
      ensures |queue| > |old(queue)| && queue[..|old(queue)|] == old(queue)
      ensures queue[|old(queue)| + 1..] == if changed then [ConfigTask(proc)] else []
      ensures var task := queue[|old(queue)|];
              && task.UpdateTask? && task.id == id
              && forall t :: t in task.doc <==>
                   t in others || exists i :: 0 <= i < |fields|
                                    && FieldAdds(fields[i], setup.hash, setup.groups, old(proc), t)
      ensures var s1 := Step(setup, old(View()), StartDoc);
              var s2 := Step(setup, s1, QueueDoc(0, others, fields, id));
              var s3 := if changed then Step(setup, Step(setup, s2, QueueConfig(0)), StoreConfig(0)) else s2;
              View() == Step(setup, s3, EndDoc(0))
    {
      hide Invariant, Processed, FieldAdds;
      ghost var s := View();
      InvariantConsistent(setup, s);
      var config := CloneTaxonomies(proc);
      var doc, errors := ProcessDocument(others, fields, setup.hash, setup.groups, config);
      ghost var s1 := Step(setup, s, StartDoc);
      ProcessingKeepsInvariant(setup, s, StartDoc);
      ghost var s2 := Step(setup, s1, QueueDoc(0, others, fields, id));
      ProcessingKeepsInvariant(setup, s1, QueueDoc(0, others, fields, id));
      queue := queue + [UpdateTask(doc, id)];
      ghost var s3 := s2;
      if changed {
        ghost var s' := Step(setup, s2, QueueConfig(0));
        ProcessingKeepsInvariant(setup, s2, QueueConfig(0));
        ProcessingKeepsInvariant(setup, s', StoreConfig(0));
        s3 := Step(setup, s', StoreConfig(0));
        queue, proc := queue + [ConfigTask(config)], config;
      }
      ProcessingKeepsInvariant(setup, s3, EndDoc(0));
      assert s3.running[..0] + s3.running[1..] == [];
      assert View() == Step(setup, s3, EndDoc(0));
    }

    /** The indexing thread takes the next task and performs it; it never fails. */
    method IndexOne() returns (ok: bool)
      requires Valid() && queue != []
      modifies this, coll
      ensures Valid() && ok && proc == old(proc) && queue == old(queue)[1..]
      ensures Performed(old(queue)[0], setup.groups, old(coll.taxonomies), old(coll.docs), old(coll.last),
                        coll.taxonomies, coll.docs)
      ensures View() == Step(setup, old(View()), IndexNext)
    {
      hide Invariant, Performed, Step, Index;
      IndexMeans(setup, View());
      ok := TakeTask();
    }

    method TakeTask() returns (ok: bool)
      requires Valid() && queue != []
      modifies this, coll
      ensures Valid() && ok
      ensures View() == Step(setup, old(View()), IndexNext)
    {
      hide Invariant, UpToDate, ReindexedStore, Consistent, HasId;
      ghost var s := View();
      InvariantCollection(setup, s);
      IndexKeepsInvariant(setup, s);
      var task := queue[0];
      queue := queue[1..];
      ok := true;
      match task {
        case EditTask(name, e) =>
          ok := coll.CategoryEdit(name, e);
        case UpdateTask(doc, id) =>
          var at := coll.RawUpdateDoc(doc, id);
          PlaceIsAt(s.docs, s.last, id, at);
        case DeleteTask(id) =>
          coll.RawDeleteDoc(id);
        case ConfigTask(taxes) =>
          InvariantConsistent(setup, s);
          var copy := CloneTaxonomies(taxes);
          coll.taxonomies := copy;
      }
      assert View() == Step(setup, s, IndexNext);
    }
  }

  /** What the two steps of an edit come to. */
  lemma EditMeans(setup: Setup, s: State, name: string, e: Edit)
    requires Invariant(setup, s) && s.pending.None? && s.running == []
    ensures Enabled(setup, s, StartEdit(name, e))
    ensures AcceptsIn(s.proc, name, e) <==>
              !e.PutParent? || (e.cat != e.parent && !(name in s.proc && e.parent in s.proc[name]
                                                       && e.cat in s.proc[name][e.parent].ancestors))
    ensures var started := Step(setup, s, StartEdit(name, e));
            AcceptsIn(s.proc, name, e) ==>
              && Enabled(setup, started, QueueEdit)
              && var queued := Step(setup, started, QueueEdit);
                 && queued.queue == s.queue + [EditTask(name, e)]
                 && queued.proc.Keys == s.proc.Keys + {name}
                 && (forall n :: n in s.proc && n != name ==> queued.proc[n] == s.proc[n])
                 && EditEffect(if name in s.proc then s.proc[name] else map[], queued.proc[name], e)
  {
    InvariantConsistent(setup, s);
    EditedTaxonomiesAre(s.proc, name, e);
    EmptyConsistent();
    hide Invariant, EditEffect, EditedTaxonomies, Consistent;
    if e.PutParent? {
      AcceptsMeans(TaxonomyOf(s.proc, name), e.cat, e.parent);
    } else {
      AcceptsAlways(ParentLinks(TaxonomyOf(s.proc, name)), e);
    }
  }

  /** What performing the next task comes to. */
  lemma IndexMeans(setup: Setup, s: State)
    requires Invariant(setup, s) && s.queue != []
    ensures var after := Step(setup, s, IndexNext);
            && after.proc == s.proc && after.queue == s.queue[1..]
            && Performed(s.queue[0], setup.groups, s.taxes, s.docs, s.last, after.taxes, after.docs)
  {
    hide Invariant, UpToDate, ReindexedStore, Consistent, EditEffect, EditedTaxonomies, ValidStore, PlaceFor, HasId;
    InvariantCollection(setup, s);
    match s.queue[0]
    case EditTask(name, e) => EditIndexed(setup, s, name, e);
    case UpdateTask(doc, id) => PlaceMeans(s.docs, s.last, doc, id);
    case DeleteTask(id) =>
    case ConfigTask(taxes) =>
  }

  lemma EditIndexed(setup: Setup, s: State, name: string, e: Edit)
    requires AllConsistent(s.taxes)
    ensures var after := Index(setup, s, EditTask(name, e));
            Performed(EditTask(name, e), setup.groups, s.taxes, s.docs, s.last, after.taxes, after.docs)
  {
    hide UpToDate, ReindexedStore, Consistent, EditEffect, EditedTaxonomies;
    var taxes := EditedTaxonomies(s.taxes, name, e);
    EditedTaxonomiesAre(s.taxes, name, e);
    ReindexedStoreKeeps(s.docs, setup.groups, taxes);
    ReindexedKeys(s.docs, setup.groups, taxes);
  }

  lemma PlaceMeans(docs: Store, last: nat, doc: Doc, id: Term)
    requires ValidStore(docs, last) && HasId(doc, id)
    ensures var at := PlaceFor(docs, last, id);
            if at in docs then id in docs[at] else at == last + 1 && forall d :: d in docs ==> id !in docs[d]
  {
    hide PlaceFor;
    PlaceForFits(docs, last, id);
    forall d | d in docs && !HasId(docs[d], id)
      ensures id !in docs[d]
    {
      assert Identified(docs[d]);
    }
  }

  lemma InvariantConsistent(setup: Setup, s: State)
    requires Invariant(setup, s)
    ensures AllConsistent(s.proc) && AllConsistent(s.taxes)
    ensures s.queue != [] ==> Suits(setup, s.taxes, s.queue[0])
  {
  }

  lemma InvariantCollection(setup: Setup, s: State)
    requires Invariant(setup, s)
    ensures ValidGroups(setup.groups) && ValidStore(s.docs, s.last) && AllConsistent(s.taxes)
    ensures forall d :: d in s.docs ==> UpToDate(s.docs[d], setup.groups, s.taxes)
    ensures s.queue != [] ==> Suits(setup, s.taxes, s.queue[0])
  {
  }

  lemma PlaceIsAt(docs: Store, last: nat, id: Term, at: DocId)
    requires ValidStore(docs, last)
    requires if at in docs then HasId(docs[at], id) else at == last + 1 && Unknown(docs, id)
    ensures PlaceFor(docs, last, id) == at
  {
  }
}
