/** What every run of the pipeline leads to, however its two stages interleave. */
module Interleavings {
  import opened Options
  import opened Documents
  import opened Indexing
  import opened Collections
  import opened Pipeline

  /** The state once the indexing thread has performed all tasks that are queued. */
  ghost function Drained(setup: Setup, s: State): State
    decreases |s.queue|
  {
    if s.queue == [] then s
    else
      IndexApart(setup, s.(queue := s.queue[1..]), s.queue[0], s, []);
      Drained(setup, Index(setup, s.(queue := s.queue[1..]), s.queue[0]))
  }

  lemma {:induction false} DrainedKeeps(setup: Setup, s: State)
    ensures var d := Drained(setup, s);
            d.queue == [] && d.proc == s.proc && d.pending == s.pending && d.running == s.running
    decreases |s.queue|
  {
    hide Index;
    if s.queue != [] {
      var rest := s.(queue := s.queue[1..]);
      IndexApart(setup, rest, s.queue[0], s, []);
      assert WithFront(rest, s) == rest;
      DrainedKeeps(setup, Index(setup, rest, s.queue[0]));
    }
  }

  ghost function WithFront(s: State, front: State): State {
    s.(proc := front.proc, pending := front.pending, running := front.running)
  }

  /** Indexing does not look at the processing stage. */
  lemma {:induction false} DrainedFront(setup: Setup, s: State, front: State)
    ensures Drained(setup, WithFront(s, front)) == WithFront(Drained(setup, s), front)
    decreases |s.queue|
  {
    hide Index;
    if s.queue != [] {
      var rest := s.(queue := s.queue[1..]);
      IndexApart(setup, rest, s.queue[0], front, []);
      DrainedFront(setup, Index(setup, rest, s.queue[0]), front);
      assert WithFront(s, front).(queue := s.queue[1..]) == WithFront(rest, front);
    }
  }

  /** A task queued last is performed last. */
  lemma {:induction false} DrainedMore(setup: Setup, s: State, task: Task)
    ensures Drained(setup, s.(queue := s.queue + [task])) == Index(setup, Drained(setup, s), task)
    decreases |s.queue|
  {
    hide Index;
    var more := s.(queue := s.queue + [task]);
    if s.queue == [] {
      assert more.queue[1..] == [];
      assert more.(queue := []) == s;
      IndexApart(setup, s, task, s, []);
    } else {
      var rest := s.(queue := s.queue[1..]);
      IndexApart(setup, rest, s.queue[0], s, rest.queue + [task]);
      DrainedMore(setup, Index(setup, rest, s.queue[0]), task);
      assert more.queue[1..] == rest.queue + [task];
    }
  }

  /** Performing a task neither looks at nor changes the processing stage and the rest of the queue. */
  lemma IndexApart(setup: Setup, s: State, task: Task, front: State, queue: seq<Task>)
    ensures Index(setup, s, task).queue == s.queue
    ensures Index(setup, WithFront(s, front), task) == WithFront(Index(setup, s, task), front)
    ensures Index(setup, s.(queue := queue), task) == Index(setup, s, task).(queue := queue)
  {
    hide EditedTaxonomies, ReindexedStore, PlaceFor, IsIdTerm;
  }

  /** A step of the processing stage does the same whether the queue has been worked off or not. */
  lemma DrainedStep(setup: Setup, s: State, ev: Event)
    requires Enabled(setup, s, ev) && !ev.IndexNext?
    ensures Enabled(setup, Drained(setup, s), ev)
    ensures Drained(setup, Step(setup, s, ev)) == Drained(setup, Step(setup, Drained(setup, s), ev))
  {
    hide Drained, EditedTaxonomies, Processed, AcceptsIn, NoCategoryTerms, HasId, Index;
    DrainedKeeps(setup, s);
    var d := Drained(setup, s);
    var after, afterD := Step(setup, s, ev), Step(setup, d, ev);
    DrainedFront(setup, s, after);
    DrainedFront(setup, d, after);
    DrainedTwice(setup, s);
    var front, frontD := WithFront(s, after), WithFront(d, after);
    if after.queue == s.queue {
      assert after == front && afterD == frontD;
    } else {
      var task := after.queue[|s.queue|];
      assert after == front.(queue := front.queue + [task]);
      assert afterD == frontD.(queue := frontD.queue + [task]);
      DrainedMore(setup, front, task);
      DrainedMore(setup, frontD, task);
    }
  }

  lemma DrainedTwice(setup: Setup, s: State)
    ensures Drained(setup, Drained(setup, s)) == Drained(setup, s)
  {
    DrainedKeeps(setup, s);
  }

  /** The events of the processing stage alone. */
  function Processing(events: seq<Event>): seq<Event> {
    if events == [] then []
    else
      var before, e := Processing(events[..|events| - 1]), events[|events| - 1];
      if e.IndexNext? then before else before + [e]
  }

  /** The processing events one after the other, the queue being worked off after each. */
  ghost function InTurn(setup: Setup, s: State, events: seq<Event>): State {
    if events == [] then Drained(setup, s)
    else
      var before, e := InTurn(setup, s, events[..|events| - 1]), events[|events| - 1];
      if Enabled(setup, before, e) then Drained(setup, Step(setup, before, e)) else before
  }

  /** However the stages interleave, what a run leads to is what taking turns leads to. */
  lemma {:induction false} EveryRunInTurn(setup: Setup, run: seq<State>, events: seq<Event>, k: nat)
    requires IsRun(setup, run, events) && k < |run|
    ensures Drained(setup, run[k]) == InTurn(setup, run[0], Processing(events[..k]))
    decreases k
  {
    hide Drained, Step, Enabled, Initial;
    if k > 0 {
      EveryRunInTurn(setup, run, events, k - 1);
      var e := events[k - 1];
      assert Enabled(setup, run[k - 1], e) && run[k] == Step(setup, run[k - 1], e);
      assert events[..k][..k - 1] == events[..k - 1];
      if e.IndexNext? {
        IndexingDrains(setup, run[k - 1]);
      } else {
        DrainedStep(setup, run[k - 1], e);
        var before := Processing(events[..k - 1]);
        assert (before + [e])[..|before|] == before;
      }
    }
  }

  lemma IndexingDrains(setup: Setup, s: State)
    requires Enabled(setup, s, IndexNext)
    ensures Drained(setup, Step(setup, s, IndexNext)) == Drained(setup, s)
  {
  }

  /** Two runs with the same processing events that work off their queues end in the same state. */
  lemma SameOutcome(setup: Setup, run: seq<State>, events: seq<Event>, run2: seq<State>, events2: seq<Event>)
    requires IsRun(setup, run, events) && IsRun(setup, run2, events2) && run[0] == run2[0]
    requires Processing(events) == Processing(events2)
    requires run[|events|].queue == [] && run2[|events2|].queue == []
    ensures run[|events|] == run2[|events2|]
  {
    EveryRunInTurn(setup, run, events, |events|);
    EveryRunInTurn(setup, run2, events2, |events2|);
    assert events[..|events|] == events && events2[..|events2|] == events2;
  }

  /** A document queued is stored once the queue is worked off, with the terms of its fields in the
      taxonomies that its task started from. */
  lemma DocumentArrives(setup: Setup, run: seq<State>, events: seq<Event>, k: nat)
    requires ValidGroups(setup.groups) && IsRun(setup, run, events) && k < |events| && events[k].QueueDoc?
    ensures Enabled(setup, run[k], events[k])
    ensures var e, docs := events[k], Drained(setup, run[k + 1]).docs;
            exists at :: at in docs && e.id in docs[at]
              && forall t :: t in docs[at] <==>
                   t in e.others || exists i :: 0 <= i < |e.fields|
                                      && FieldAdds(e.fields[i], setup.hash, setup.groups, run[k].running[e.i], t)
  {
    hide Drained, Processed, FieldAdds, NoCategoryTerms, Initial;
    var e, s := events[k], run[k];
    assert Enabled(setup, s, e) && run[k + 1] == Step(setup, s, e);
    var doc := Processed(e.others, e.fields, setup.hash, setup.groups, s.running[e.i]);
    DrainedMore(setup, s, UpdateTask(doc, e.id));
    ProcessedHasId(e.others, e.fields, setup, s.running[e.i], e.id);
    ProcessedTerms(e.others, e.fields, |e.fields|, setup.hash, setup.groups, s.running[e.i]);
    assert e.fields[..|e.fields|] == e.fields;
    var at := PlaceFor(Drained(setup, s).docs, Drained(setup, s).last, e.id);
    assert Drained(setup, run[k + 1]).docs[at] == doc;
  }

  /** A deletion queued leaves no document with that id term once the queue is worked off, and all others. */
  lemma DeletionArrives(setup: Setup, run: seq<State>, events: seq<Event>, k: nat)
    requires IsRun(setup, run, events) && k < |events| && events[k].QueueDelete? && IsIdTerm(events[k].id)
    ensures var id, before, docs := events[k].id, Drained(setup, run[k]).docs, Drained(setup, run[k + 1]).docs;
            && (forall d :: d in docs <==> d in before && id !in before[d])
            && (forall d :: d in docs ==> docs[d] == before[d])
  {
    hide Drained, Initial;
    var s := run[k];
    assert Enabled(setup, s, events[k]) && run[k + 1] == Step(setup, s, events[k]);
    DrainedMore(setup, s, DeleteTask(events[k].id));
  }

  /** Any number of documents can be in progress at a time, each with its own copy of the configuration. */
  lemma {:induction false} DocumentsInParallel(setup: Setup, s: State, n: nat)
    requires Initial(setup, s)
    ensures exists run: seq<State>, events: seq<Event> :: IsRun(setup, run, events) && run[0] == s && |events| == n
              && run[n].running == seq(n, _ => s.proc)
              && (forall i: nat, others, fields: seq<FieldInput>, id :: i < n ==>
                    (Enabled(setup, run[n], QueueDoc(i, others, fields, id)) <==>
                     && NoCategoryTerms(others, setup.groups) && HasId(others, id)
                     && forall k :: 0 <= k < |fields| ==> fields[k].field.group in setup.groups))
              && forall i: nat :: i < n ==>
                   && Enabled(setup, run[n], EndDoc(i))
                   && Step(setup, run[n], EndDoc(i)) == run[n].(running := seq(n - 1, _ => s.proc))
  {
    hide Initial, NoCategoryTerms, HasId;
    var run: seq<State>, events: seq<Event> := [s], [];
    StartsIdle(setup, s);
    for m := 0 to n
      invariant IsRun(setup, run, events) && run[0] == s && |events| == m
      invariant run[m].running == seq(m, _ => s.proc) && run[m].pending.None? && run[m].proc == s.proc
    {
      run, events := run + [Step(setup, run[m], StartDoc)], events + [StartDoc];
      assert run[m + 1].running == seq(m + 1, _ => s.proc);
    }
    forall i: nat | i < n
      ensures Step(setup, run[n], EndDoc(i)) == run[n].(running := seq(n - 1, _ => s.proc))
    {
      var some := run[n].running;
      assert some[..i] + some[i + 1..] == seq(n - 1, _ => s.proc);
    }
    assert IsRun(setup, run, events);
  }

  lemma StartsIdle(setup: Setup, s: State)
    requires Initial(setup, s)
    ensures s.running == [] && s.pending.None?
  {
  }
}
