/**
 The two stages that every change to a collection goes through.  Processing tasks
 work on a copy of the configuration and queue indexing tasks; an indexing thread
 takes those from a first-in first-out queue and performs them on the collection.

 Document tasks run in parallel with each other.  A category edit starts only when
 no processing task is in progress, and none starts until it is over.  The two
 stages interleave freely.
 */
module Pipeline {
  import opened Options
  import opened TaxonomySpec
  import opened Documents
  import opened Indexing
  import opened Collections

  /** What can be on the indexing queue. */
  datatype Task =
    | EditTask(name: string, e: Edit)
    | UpdateTask(doc: Doc, id: Term)
    | DeleteTask(id: Term)
    | ConfigTask(taxes: TaxonomyMap)

  datatype Pending = Pending(name: string, e: Edit)

  /** `proc` is the configuration of the processing stage; `running` holds the copies
      taken of it by the document tasks in progress; `pending` is an edit that has
      been made on `proc` but not yet queued. */
  datatype State = State(
    proc: TaxonomyMap,
    pending: Option<Pending>,
    running: seq<TaxonomyMap>,
    queue: seq<Task>,
    taxes: TaxonomyMap,
    docs: Store,
    last: nat)

  datatype Event =
    | StartEdit(name: string, e: Edit)
    | QueueEdit
    | StartDoc
    | QueueDoc(i: nat, others: Doc, fields: seq<FieldInput>, id: Term)
    | QueueConfig(i: nat)
    | StoreConfig(i: nat)
    | EndDoc(i: nat)
    | QueueDelete(id: Term)
    | IndexNext

  /** What stays fixed: the groups of category terms, and the hash for long values. */
  datatype Setup = Setup(groups: Groups, hash: (string, nat) -> string)

  ghost predicate AcceptsIn(taxes: TaxonomyMap, name: string, e: Edit) {
    Accepts(ParentLinks(TaxonomyOf(taxes, name)), e)
  }

  ghost function PlaceFor(docs: Store, last: nat, id: Term): DocId {
    if d :| d in docs && HasId(docs[d], id) then d else last + 1
  }

  ghost predicate AllConsistent(taxes: TaxonomyMap) {
    forall n :: n in taxes ==> Consistent(taxes[n])
  }

  // --------------------------------------------------------------- the steps

  /** An indexing task performed on the collection. */
  ghost function Index(setup: Setup, s: State, task: Task): State {
    match task
    case EditTask(name, e) =>
      var taxes := EditedTaxonomies(s.taxes, name, e);
      s.(taxes := taxes, docs := ReindexedStore(s.docs, setup.groups.Keys, setup.groups, taxes))
    case UpdateTask(doc, id) =>
      var at := PlaceFor(s.docs, s.last, id);
      s.(docs := s.docs[at := doc], last := if at > s.last then at else s.last)
    case DeleteTask(id) =>
      s.(docs := map d | d in s.docs && !(IsIdTerm(id) && id in s.docs[d]) :: s.docs[d])
    case ConfigTask(taxes) =>
      s.(taxes := taxes)
  }

  ghost predicate Enabled(setup: Setup, s: State, ev: Event) {
    match ev
    case StartEdit(name, e) => s.running == [] && s.pending.None?
    case QueueEdit => s.pending.Some?
    case StartDoc => s.pending.None?
    case QueueDoc(i, others, fields, id) =>
      && i < |s.running| && NoCategoryTerms(others, setup.groups) && HasId(others, id)
      && forall k :: 0 <= k < |fields| ==> fields[k].field.group in setup.groups
    case QueueConfig(i) => i < |s.running|
    case StoreConfig(i) => i < |s.running|
    case EndDoc(i) => i < |s.running|
    case QueueDelete(id) => true
    case IndexNext => s.queue != []
  }

  /** One step of either stage.  A refused edit leaves no trace. */
  ghost function Step(setup: Setup, s: State, ev: Event): State
    requires Enabled(setup, s, ev)
  {
    match ev
    case StartEdit(name, e) =>
      if AcceptsIn(s.proc, name, e) then
        s.(proc := EditedTaxonomies(s.proc, name, e), pending := Some(Pending(name, e)))
      else s
    case QueueEdit =>
      s.(queue := s.queue + [EditTask(s.pending.value.name, s.pending.value.e)], pending := None)
    case StartDoc =>
      s.(running := s.running + [s.proc])
    case QueueDoc(i, others, fields, id) =>
      s.(queue := s.queue + [UpdateTask(Processed(others, fields, setup.hash, setup.groups, s.running[i]), id)])
    case QueueConfig(i) =>
      s.(queue := s.queue + [ConfigTask(s.running[i])])
    case StoreConfig(i) =>
      s.(proc := s.running[i])
    case EndDoc(i) =>
      s.(running := s.running[..i] + s.running[i + 1..])
    case QueueDelete(id) =>
      s.(queue := s.queue + [DeleteTask(id)])
    case IndexNext =>
      Index(setup, s.(queue := s.queue[1..]), s.queue[0])
  }

  /** Nothing in progress, nothing queued, and a collection in good order: a new one, for instance. */
  ghost predicate Initial(setup: Setup, s: State) {
    && s.pending.None? && s.running == [] && s.queue == [] && s.proc == s.taxes
    && AllConsistent(s.taxes) && ValidStore(s.docs, s.last)
    && forall d :: d in s.docs ==> UpToDate(s.docs[d], setup.groups, s.taxes)
  }

  /** `run` is a sequence of states that starts initially and takes one step at a time. */
  ghost predicate IsRun(setup: Setup, run: seq<State>, events: seq<Event>) {
    && |run| == |events| + 1 && Initial(setup, run[0])
    && forall k :: 0 <= k < |events| ==>
         Enabled(setup, run[k], events[k]) && run[k + 1] == Step(setup, run[k], events[k])
  }

  // ------------------------------------------------------------ the invariant

  ghost function TaxesAfter(taxes: TaxonomyMap, task: Task): TaxonomyMap {
    match task
    case EditTask(name, e) => EditedTaxonomies(taxes, name, e)
    case ConfigTask(t) => t
    case _ => taxes
  }

  /** The collection's taxonomies once all queued tasks have been performed. */
  ghost function Replay(taxes: TaxonomyMap, queue: seq<Task>): TaxonomyMap
    decreases |queue|
  {
    if queue == [] then taxes else Replay(TaxesAfter(taxes, queue[0]), queue[1..])
  }

  /** A task suits the taxonomies it will find: an edit will be accepted, a document
      has the ancestor terms they call for, a configuration brings nothing new. */
  ghost predicate Suits(setup: Setup, taxes: TaxonomyMap, task: Task) {
    match task
    case EditTask(name, e) => AcceptsIn(taxes, name, e)
    case UpdateTask(doc, id) => UpToDate(doc, setup.groups, taxes) && HasId(doc, id)
    case DeleteTask(id) => true
    case ConfigTask(t) => t == taxes
  }

  ghost predicate QueueSuits(setup: Setup, taxes: TaxonomyMap, queue: seq<Task>)
    decreases |queue|
  {
    queue == [] ||
    (Suits(setup, taxes, queue[0]) && QueueSuits(setup, TaxesAfter(taxes, queue[0]), queue[1..]))
  }

  /** The processing side has made all queued edits, and the one not yet queued, which is alone. */
  ghost predicate Ahead(s: State) {
    match s.pending
    case None => s.proc == Replay(s.taxes, s.queue)
    case Some(p) =>
      && s.running == []
      && AcceptsIn(Replay(s.taxes, s.queue), p.name, p.e)
      && s.proc == EditedTaxonomies(Replay(s.taxes, s.queue), p.name, p.e)
  }

  ghost predicate Invariant(setup: Setup, s: State) {
    && ValidGroups(setup.groups)
    && AllConsistent(s.taxes) && AllConsistent(s.proc)
    && ValidStore(s.docs, s.last)
    && (forall d :: d in s.docs ==> UpToDate(s.docs[d], setup.groups, s.taxes))
    && QueueSuits(setup, s.taxes, s.queue)
    && (forall i :: 0 <= i < |s.running| ==> s.running[i] == s.proc)
    && Ahead(s)
  }

  lemma {:induction false} ReplayMore(taxes: TaxonomyMap, queue: seq<Task>, task: Task)
    ensures Replay(taxes, queue + [task]) == TaxesAfter(Replay(taxes, queue), task)
    decreases |queue|
  {
    if queue != [] {
      assert (queue + [task])[1..] == queue[1..] + [task];
      ReplayMore(TaxesAfter(taxes, queue[0]), queue[1..], task);
    } else {
      assert (queue + [task])[1..] == [];
    }
  }

  lemma {:induction false} QueueSuitsMore(setup: Setup, taxes: TaxonomyMap, queue: seq<Task>, task: Task)
    requires QueueSuits(setup, taxes, queue) && Suits(setup, Replay(taxes, queue), task)
    ensures QueueSuits(setup, taxes, queue + [task])
    decreases |queue|
  {
    if queue != [] {
      assert (queue + [task])[1..] == queue[1..] + [task];
      QueueSuitsMore(setup, TaxesAfter(taxes, queue[0]), queue[1..], task);
    } else {
      assert (queue + [task])[1..] == [];
    }
  }

  /** Position by position: each queued task suits the taxonomies it will find. */
  lemma {:induction false} QueueSuitsAt(setup: Setup, taxes: TaxonomyMap, queue: seq<Task>, k: nat)
    requires QueueSuits(setup, taxes, queue) && k < |queue|
    ensures Suits(setup, Replay(taxes, queue[..k]), queue[k])
    decreases k
  {
    if k > 0 {
      QueueSuitsAt(setup, TaxesAfter(taxes, queue[0]), queue[1..], k - 1);
      assert queue[..k][0] == queue[0] && queue[..k][1..] == queue[1..][..k - 1];
    }
  }

  lemma PlaceForFits(docs: Store, last: nat, id: Term)
    requires ValidStore(docs, last)
    ensures var at := PlaceFor(docs, last, id);
      (at in docs && HasId(docs[at], id)) || (at == last + 1 && forall d :: d in docs ==> !HasId(docs[d], id))
  {
  }

  lemma IndexKeepsInvariant(setup: Setup, s: State)
    requires Invariant(setup, s) && s.queue != []
    ensures Invariant(setup, Step(setup, s, IndexNext))
  {
    hide UpToDate, Consistent, HasId, EditedTaxonomies, ReindexedStore, ValidStore, PlaceFor;
    var after := Step(setup, s, IndexNext);
    match s.queue[0]
    case EditTask(name, e) =>
      EditedConsistent(s.taxes, name, e);
      ReindexedUpToDate(s.docs, setup.groups, after.taxes);
      ReindexedValid(s.docs, s.last, setup.groups, after.taxes);
    case UpdateTask(doc, id) =>
      StoredValid(s.docs, s.last, doc, id);
    case DeleteTask(id) =>
      FewerValid(s.docs, after.docs, s.last);
    case ConfigTask(taxes) =>
  }

  lemma FewerValid(docs: Store, left: Store, last: nat)
    requires ValidStore(docs, last) && forall d :: d in left ==> d in docs && left[d] == docs[d]
    ensures ValidStore(left, last)
  {
  }

  lemma StoredValid(docs: Store, last: nat, doc: Doc, id: Term)
    requires ValidStore(docs, last) && HasId(doc, id)
    ensures var at := PlaceFor(docs, last, id);
      ValidStore(docs[at := doc], if at > last then at else last)
  {
    var at := PlaceFor(docs, last, id);
    PlaceForFits(docs, last, id);
    if at == last + 1 {
      forall d | d in docs
        ensures id !in docs[d]
      {
        assert Identified(docs[d]);
      }
    }
    PutDocValid(docs, last, at, doc, id);
  }

  lemma ReindexedValid(docs: Store, last: nat, groups: Groups, taxes: TaxonomyMap)
    requires ValidStore(docs, last) && ValidGroups(groups)
    ensures ValidStore(ReindexedStore(docs, groups.Keys, groups, taxes), last)
  {
    var r := ReindexedStore(docs, groups.Keys, groups, taxes);
    forall d, id | d in docs
      ensures HasId(r[d], id) <==> HasId(docs[d], id)
    {
      ReindexedTerms(docs[d], groups.Keys, groups, taxes);
    }
    hide HasId, Reindexed;
    forall d | d in docs
      ensures Identified(r[d])
    {
      assert Identified(docs[d]);
      var id :| HasId(docs[d], id);
      assert HasId(r[d], id);
    }
  }

  lemma ProcessingKeepsInvariant(setup: Setup, s: State, ev: Event)
    requires Invariant(setup, s) && Enabled(setup, s, ev) && !ev.IndexNext?
    ensures Invariant(setup, Step(setup, s, ev))
  {
    hide UpToDate, Consistent, HasId, EditedTaxonomies, ValidStore;
    match ev
    case StartEdit(name, e) =>
      EditedConsistent(s.proc, name, e);
    case QueueEdit =>
      var task := EditTask(s.pending.value.name, s.pending.value.e);
      ReplayMore(s.taxes, s.queue, task);
      QueueSuitsMore(setup, s.taxes, s.queue, task);
    case StartDoc =>
    case QueueDoc(i, others, fields, id) =>
      var doc := Processed(others, fields, setup.hash, setup.groups, s.running[i]);
      ProcessedHasId(others, fields, setup, s.running[i], id);
      ReplayMore(s.taxes, s.queue, UpdateTask(doc, id));
      QueueSuitsMore(setup, s.taxes, s.queue, UpdateTask(doc, id));
    case QueueConfig(i) =>
      ReplayMore(s.taxes, s.queue, ConfigTask(s.running[i]));
      QueueSuitsMore(setup, s.taxes, s.queue, ConfigTask(s.running[i]));
    case StoreConfig(i) =>
    case EndDoc(i) =>
    case QueueDelete(id) =>
      ReplayMore(s.taxes, s.queue, DeleteTask(id));
      QueueSuitsMore(setup, s.taxes, s.queue, DeleteTask(id));
  }

  lemma ProcessedHasId(others: Doc, fields: seq<FieldInput>, setup: Setup, taxes: TaxonomyMap, id: Term)
    requires ValidGroups(setup.groups) && NoCategoryTerms(others, setup.groups) && HasId(others, id)
    requires forall k :: 0 <= k < |fields| ==> fields[k].field.group in setup.groups
    ensures var doc := Processed(others, fields, setup.hash, setup.groups, taxes);
      HasId(doc, id) && UpToDate(doc, setup.groups, taxes)
  {
    ProcessedUpToDate(others, fields, setup.hash, setup.groups, taxes);
  }

  /** The invariant holds in every state of every run. */
  lemma {:induction false} RunInvariant(setup: Setup, run: seq<State>, events: seq<Event>, k: nat)
    requires ValidGroups(setup.groups) && IsRun(setup, run, events) && k < |run|
    ensures Invariant(setup, run[k])
    decreases k
  {
    if k > 0 {
      RunInvariant(setup, run, events, k - 1);
      assert Enabled(setup, run[k - 1], events[k - 1]) && run[k] == Step(setup, run[k - 1], events[k - 1]);
      if events[k - 1].IndexNext? {
        IndexKeepsInvariant(setup, run[k - 1]);
      } else {
        ProcessingKeepsInvariant(setup, run[k - 1], events[k - 1]);
      }
    }
  }

  /**
   In every state of every run: the processing side is the collection with all queued
   edits made, and the one not yet queued if there is one, which is alone; each queued
   document carries the ancestor terms of the taxonomies at its place in the queue; no
   queued edit will be refused; and every stored document has exactly the ancestor terms
   of its categories.
   */
  lemma EveryRun(setup: Setup, run: seq<State>, events: seq<Event>, k: nat)
    requires ValidGroups(setup.groups) && IsRun(setup, run, events) && k < |run|
    ensures var s := run[k];
      && Ahead(s)
      && (forall i :: 0 <= i < |s.queue| && s.queue[i].EditTask? ==>
            AcceptsIn(Replay(s.taxes, s.queue[..i]), s.queue[i].name, s.queue[i].e))
      && (forall i :: 0 <= i < |s.queue| && s.queue[i].UpdateTask? ==>
            UpToDate(s.queue[i].doc, setup.groups, Replay(s.taxes, s.queue[..i])))
      && (forall d :: d in s.docs ==> UpToDate(s.docs[d], setup.groups, s.taxes))
      && AllConsistent(s.taxes)
  {
    RunInvariant(setup, run, events, k);
    var s := run[k];
    forall i | 0 <= i < |s.queue|
      ensures Suits(setup, Replay(s.taxes, s.queue[..i]), s.queue[i])
    {
      QueueSuitsAt(setup, s.taxes, s.queue, i);
    }
  }
}
