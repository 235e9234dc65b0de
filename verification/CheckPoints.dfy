/** Checkpoints, and the account they give of indexing errors. */
module CheckPoints {
  import opened Options
  import opened StringOrder

  datatype IndexingError = IndexingError(msg: string, docType: string, docId: string)

  /** The first errors in detail, and the number of all. */
  datatype ErrorLog = ErrorLog(errors: seq<IndexingError>, total: nat)

  /** The log of these errors, when at most `max` are kept in detail. */
  ghost function LogOf(errors: seq<IndexingError>, max: nat): ErrorLog {
    ErrorLog(if |errors| <= max then errors else errors[..max], |errors|)
  }

  datatype CheckPoint = CheckPoint(errors: Option<ErrorLog>, touched: real, reached: bool)

  type Points = map<string, CheckPoint>

  /** What a client is told: nothing, not reached, or reached with these errors. */
  datatype Report = Unknown | Pending | Reached(errors: seq<IndexingError>, total: nat)

  /** The checkpoints touched in the last `age` seconds. */
  ghost function Fresh(points: Points, now: real, age: real): Points {
    map id | id in points && now - points[id].touched < age :: points[id]
  }

  /** Drops the others, one at a time. */
  method Expire(points: Points, now: real, age: real) returns (left: Points)
    ensures left == Fresh(points, now, age)
  {
    left := points;
    var todo := points.Keys;
    while todo != {}
      invariant todo <= points.Keys
      invariant forall id :: id in left <==> id in points && (id in todo || now - points[id].touched < age)
      invariant forall id :: id in left ==> left[id] == points[id]
    {
      var id :| id in todo;
      todo := todo - {id};
      if now - points[id].touched >= age {
        left := left - {id};
      }
    }
  }

  // ----------------------------------------------------------------- the history

  datatype Event =
    | Append(coll: string, error: IndexingError)
    | Publish(coll: string, id: string, at: real)
    | Reach(coll: string, id: string, at: real)
    | Query(coll: string, id: string, at: real)
    | List(coll: string, at: real)

  predicate Reaches(e: Event, coll: string, id: string) {
    e.Reach? && e.coll == coll && e.id == id
  }

  /** The errors appended to a collection. */
  ghost function AllErrors(es: seq<Event>, coll: string): seq<IndexingError> {
    if es == [] then []
    else
      var before, e := AllErrors(es[..|es| - 1], coll), es[|es| - 1];
      if e.Append? && e.coll == coll then before + [e.error] else before
  }

  /** Those appended since a checkpoint of the collection was last reached. */
  ghost function Since(es: seq<Event>, coll: string): seq<IndexingError> {
    if es == [] then []
    else
      var before, e := Since(es[..|es| - 1], coll), es[|es| - 1];
      if e.coll != coll then before
      else if e.Append? then before + [e.error]
      else if e.Reach? then []
      else before
  }

  /** Those appended between a checkpoint being reached and the reach before that. */
  ghost function Attributed(es: seq<Event>, coll: string, id: string): Option<seq<IndexingError>> {
    if es == [] then None
    else
      var before, e := es[..|es| - 1], es[|es| - 1];
      if Reaches(e, coll, id) then Some(Since(before, coll)) else Attributed(before, coll, id)
  }

  /** What each reach of the collection was given, one after the other. */
  ghost function Handed(es: seq<Event>, coll: string): seq<IndexingError> {
    if es == [] then []
    else
      var before, e := es[..|es| - 1], es[|es| - 1];
      if e.Reach? && e.coll == coll then Handed(before, coll) + Since(before, coll) else Handed(before, coll)
  }

  /** Every error is given to one reach, or is still waiting for one: none is lost, none counted twice. */
  lemma {:induction false} ErrorsConserved(es: seq<Event>, coll: string)
    ensures AllErrors(es, coll) == Handed(es, coll) + Since(es, coll)
  {
    if es != [] {
      ErrorsConserved(es[..|es| - 1], coll);
    }
  }

  ghost predicate NoReach(es: seq<Event>, from: nat, coll: string) {
    forall i :: from <= i < |es| ==> !(es[i].Reach? && es[i].coll == coll)
  }

  /** That is: the errors appended after the last reach of the collection. */
  lemma {:induction false} SinceLastReach(es: seq<Event>, k: nat, coll: string)
    requires k < |es| && es[k].Reach? && es[k].coll == coll && NoReach(es, k + 1, coll)
    ensures Since(es, coll) == AllErrors(es[k + 1..], coll)
  {
    var n := |es| - 1;
    if k < n {
      SinceLastReach(es[..n], k, coll);
      assert es[k + 1..][..n - k - 1] == es[..n][k + 1..];
    }
  }

  /** A checkpoint reached once is given what was waiting then. */
  lemma {:induction false} ReachedOnce(es: seq<Event>, i: nat, coll: string, id: string)
    requires i < |es| && Reaches(es[i], coll, id) && forall j :: i < j < |es| ==> !Reaches(es[j], coll, id)
    ensures Attributed(es, coll, id) == Some(Since(es[..i], coll))
  {
    var n := |es| - 1;
    if i < n {
      ReachedOnce(es[..n], i, coll, id);
      assert es[..n][..i] == es[..i];
    }
  }

  // ---------------------------------------------------------------- what is kept true

  /** The waiting errors of a collection are logged. */
  ghost predicate LogsSince(recent: map<string, ErrorLog>, es: seq<Event>, max: nat) {
    && (forall coll :: coll in recent <==> Since(es, coll) != [])
    && (forall coll :: coll in recent ==> recent[coll] == LogOf(Since(es, coll), max))
  }

  /** A checkpoint that is reached has the errors attributed to it. */
  ghost predicate Accounts(coll: string, id: string, point: CheckPoint, es: seq<Event>, max: nat) {
    point.reached ==>
      && Attributed(es, coll, id).Some?
      && var errors := Attributed(es, coll, id).value;
         if errors == [] then point.errors.None? else point.errors == Some(LogOf(errors, max))
  }

  ghost predicate PointsAccount(points: map<string, Points>, es: seq<Event>, max: nat) {
    forall coll, id :: coll in points && id in points[coll] ==> Accounts(coll, id, points[coll][id], es, max)
  }

  lemma AppendLog(errors: seq<IndexingError>, error: IndexingError, max: nat)
    ensures LogOf(errors + [error], max)
         == var kept := LogOf(errors, max).errors;
            ErrorLog(if |kept| < max then kept + [error] else kept, |errors| + 1)
  {
  }

  lemma SinceStep(es: seq<Event>, e: Event, coll: string)
    ensures Since(es + [e], coll)
         == if e.coll != coll then Since(es, coll) else if e.Append? then Since(es, coll) + [e.error]
            else if e.Reach? then [] else Since(es, coll)
  {
    assert (es + [e])[..|es|] == es;
  }

  lemma AttributedStep(es: seq<Event>, e: Event, coll: string, id: string)
    ensures Attributed(es + [e], coll, id)
         == if Reaches(e, coll, id) then Some(Since(es, coll)) else Attributed(es, coll, id)
  {
    assert (es + [e])[..|es|] == es;
  }

  lemma WaitingLog(recent: map<string, ErrorLog>, es: seq<Event>, coll: string, max: nat)
    requires LogsSince(recent, es, max)
    ensures if Since(es, coll) == [] then coll !in recent
            else coll in recent && recent[coll] == LogOf(Since(es, coll), max)
  {
  }

  lemma ReachLogs(recent: map<string, ErrorLog>, es: seq<Event>, coll: string, id: string, now: real, max: nat)
    requires LogsSince(recent, es, max)
    ensures LogsSince(recent - {coll}, es + [Reach(coll, id, now)], max)
  {
    forall c
      ensures Since(es + [Reach(coll, id, now)], c) == if c == coll then [] else Since(es, c)
    {
      SinceStep(es, Reach(coll, id, now), c);
    }
  }

  lemma AppendLogs(recent: map<string, ErrorLog>, es: seq<Event>, coll: string, error: IndexingError, max: nat)
    requires LogsSince(recent, es, max)
    ensures LogsSince(recent[coll := LogOf(Since(es, coll) + [error], max)], es + [Append(coll, error)], max)
  {
    hide Since, LogOf;
    forall c
      ensures Since(es + [Append(coll, error)], c) == if c == coll then Since(es, c) + [error] else Since(es, c)
    {
      SinceStep(es, Append(coll, error), c);
    }
  }

  lemma OtherLogs(recent: map<string, ErrorLog>, es: seq<Event>, e: Event, max: nat)
    requires LogsSince(recent, es, max) && !e.Append? && !e.Reach?
    ensures LogsSince(recent, es + [e], max)
  {
    forall coll
      ensures Since(es + [e], coll) == Since(es, coll)
    {
      SinceStep(es, e, coll);
    }
  }

  lemma OtherPoints(points: map<string, Points>, es: seq<Event>, e: Event, max: nat)
    requires PointsAccount(points, es, max) && !e.Reach?
    ensures PointsAccount(points, es + [e], max)
  {
    forall coll, id | coll in points && id in points[coll]
      ensures Accounts(coll, id, points[coll][id], es + [e], max)
    {
      AttributedStep(es, e, coll, id);
    }
  }

  ghost function PointsAt(points: map<string, Points>, coll: string): Points {
    if coll in points then points[coll] else map[]
  }

  /** Points that account for themselves, dropped, kept or touched. */
  lemma ChangedPoints(points: map<string, Points>, coll: string, now: Points, es: seq<Event>, max: nat)
    requires PointsAccount(points, es, max)
    requires forall id :: id in now ==> Accounts(coll, id, now[id], es, max)
    ensures PointsAccount(points[coll := now], es, max)
  {
  }

  lemma PointAccounts(points: map<string, Points>, coll: string, id: string, es: seq<Event>, max: nat)
    requires PointsAccount(points, es, max) && id in PointsAt(points, coll)
    ensures Accounts(coll, id, PointsAt(points, coll)[id], es, max)
  {
  }

  /** After a reach, the other checkpoints still account for themselves, and so does the one reached. */
  lemma ReachAccounts(points: map<string, Points>, coll: string, id: string, log: Option<ErrorLog>, now: real,
                      left: Points, es: seq<Event>, max: nat)
    requires PointsAccount(points, es, max)
    requires forall i :: i in left ==> i in PointsAt(points, coll) && left[i] == PointsAt(points, coll)[i]
    requires log == if Since(es, coll) == [] then None else Some(LogOf(Since(es, coll), max))
    ensures PointsAccount(points[coll := left[id := CheckPoint(log, now, true)]], es + [Reach(coll, id, now)], max)
  {
    var after := points[coll := left[id := CheckPoint(log, now, true)]];
    forall c, i | c in after && i in after[c]
      ensures Accounts(c, i, after[c][i], es + [Reach(coll, id, now)], max)
    {
      AttributedStep(es, Reach(coll, id, now), c, i);
      if c != coll || i != id {
        PointAccounts(points, c, i, es, max);
      }
    }
  }

  // -------------------------------------------------------- how long it is kept

  /** Event `k` reaches the checkpoint, and no later call on the collection comes `age` seconds after it. */
  ghost predicate Lasting(es: seq<Event>, k: nat, coll: string, id: string, age: real) {
    && k < |es| && Reaches(es[k], coll, id)
    && forall j :: k < j < |es| && es[j].coll == coll && !es[j].Append? ==> es[k].at <= es[j].at < es[k].at + age
  }

  /** Until then, the checkpoint is there, and reached. */
  ghost predicate ReachesKept(points: map<string, Points>, es: seq<Event>, age: real) {
    forall k: nat, coll, id :: Lasting(es, k, coll, id, age) ==>
      && id in PointsAt(points, coll)
      && PointsAt(points, coll)[id].reached && PointsAt(points, coll)[id].touched >= es[k].at
  }

  /** What each call does to the checkpoints that are fresh and reached. */
  ghost predicate Keeps(points: map<string, Points>, after: map<string, Points>, e: Event, age: real) {
    && (forall c :: c != e.coll || e.Append? ==> PointsAt(after, c) == PointsAt(points, c))
    && (!e.Append? ==>
          var now := PointsAt(after, e.coll);
          forall i :: i in Fresh(PointsAt(points, e.coll), e.at, age) && PointsAt(points, e.coll)[i].reached ==>
            i in now && now[i].reached && now[i].touched in {PointsAt(points, e.coll)[i].touched, e.at})
    && (e.Reach? ==>
          && e.id in PointsAt(after, e.coll)
          && PointsAt(after, e.coll)[e.id].reached && PointsAt(after, e.coll)[e.id].touched == e.at)
  }

  lemma QueryKeeps(points: map<string, Points>, after: map<string, Points>, e: Event, age: real)
    requires e.Query? && forall c :: c != e.coll ==> PointsAt(after, c) == PointsAt(points, c)
    requires var left := Fresh(PointsAt(points, e.coll), e.at, age);
             PointsAt(after, e.coll) == if e.id in left then left[e.id := left[e.id].(touched := e.at)] else left
    ensures Keeps(points, after, e, age)
  {
  }

  lemma ListKeeps(points: map<string, Points>, after: map<string, Points>, e: Event, age: real)
    requires e.List? && forall c :: c != e.coll ==> PointsAt(after, c) == PointsAt(points, c)
    requires PointsAt(after, e.coll) == Fresh(PointsAt(points, e.coll), e.at, age)
    ensures Keeps(points, after, e, age)
  {
  }

  lemma PublishKeeps(points: map<string, Points>, e: Event, age: real, point: CheckPoint)
    requires e.Publish?
    ensures var left := Fresh(PointsAt(points, e.coll), e.at, age);
            Keeps(points, points[e.coll := if e.id in left then left else left[e.id := point]], e, age)
  {
  }

  lemma ReachKeeps(points: map<string, Points>, e: Event, age: real, log: Option<ErrorLog>)
    requires e.Reach?
    ensures var left := Fresh(PointsAt(points, e.coll), e.at, age);
            Keeps(points, points[e.coll := left[e.id := CheckPoint(log, e.at, true)]], e, age)
  {
  }

  lemma LastingBefore(es: seq<Event>, e: Event, k: nat, coll: string, id: string, age: real)
    requires Lasting(es + [e], k, coll, id, age) && k < |es|
    ensures Lasting(es, k, coll, id, age)
    ensures e.coll == coll && !e.Append? ==> es[k].at <= e.at < es[k].at + age
  {
    assert forall j :: 0 <= j < |es| ==> (es + [e])[j] == es[j];
    assert (es + [e])[|es|] == e;
  }

  lemma KeptAfter(points: map<string, Points>, after: map<string, Points>, es: seq<Event>, e: Event, age: real)
    requires ReachesKept(points, es, age) && Keeps(points, after, e, age)
    ensures ReachesKept(after, es + [e], age)
  {
    forall k: nat, coll, id | Lasting(es + [e], k, coll, id, age)
      ensures && id in PointsAt(after, coll)
              && PointsAt(after, coll)[id].reached && PointsAt(after, coll)[id].touched >= (es + [e])[k].at
    {
      if k < |es| {
        LastingBefore(es, e, k, coll, id, age);
        hide Lasting;
        assert id in PointsAt(points, coll) && PointsAt(points, coll)[id].touched >= es[k].at;
      }
    }
  }

  /** A checkpoint asked for within its time is among those left. */
  lemma LastingIsFresh(points: map<string, Points>, es: seq<Event>, e: Event, age: real)
    requires ReachesKept(points, es, age) && e.Query?
    ensures forall k: nat :: Lasting(es + [e], k, e.coll, e.id, age) ==>
              var left := Fresh(PointsAt(points, e.coll), e.at, age);
              e.id in left && left[e.id].reached
  {
    forall k: nat | Lasting(es + [e], k, e.coll, e.id, age)
      ensures var left := Fresh(PointsAt(points, e.coll), e.at, age);
              e.id in left && left[e.id].reached
    {
      LastingBefore(es, e, k, e.coll, e.id, age);
      assert PointsAt(points, e.coll)[e.id].touched >= es[k].at;
    }
  }

  // ------------------------------------------------------------------- the manager

  class CheckPointManager {
    const maxRecentErrors: nat
    const expiryTime: real
    var recentErrors: map<string, ErrorLog>
    var checkpoints: map<string, Points>
    // The calls made since the start.
    ghost var history: seq<Event>

    ghost predicate Valid()
      reads this
    {
      && LogsSince(recentErrors, history, maxRecentErrors)
      && PointsAccount(checkpoints, history, maxRecentErrors)
      && ReachesKept(checkpoints, history, expiryTime)
    }

    constructor (max: nat, expiry: real)
      ensures Valid() && maxRecentErrors == max && expiryTime == expiry && history == []
      ensures recentErrors == map[] && checkpoints == map[]
    {
      maxRecentErrors, expiryTime := max, expiry;
      recentErrors, checkpoints, history := map[], map[], [];
    }

    method AppendError(coll: string, error: IndexingError)
      requires Valid()
      modifies this
      ensures Valid() && history == old(history) + [Append(coll, error)] && checkpoints == old(checkpoints)
      ensures var was := if coll in old(recentErrors) then old(recentErrors)[coll] else ErrorLog([], 0);
              var kept := if |was.errors| < maxRecentErrors then was.errors + [error] else was.errors;
              recentErrors == old(recentErrors)[coll := ErrorLog(kept, was.total + 1)]
    {
      hide LogsSince, PointsAccount, ReachesKept;
      var log := if coll in recentErrors then recentErrors[coll] else ErrorLog([], 0);
      WaitingLog(recentErrors, history, coll, maxRecentErrors);
      AppendLog(Since(history, coll), error, maxRecentErrors);
      AppendLogs(recentErrors, history, coll, error, maxRecentErrors);
      OtherPoints(checkpoints, history, Append(coll, error), maxRecentErrors);
      log := ErrorLog(if |log.errors| < maxRecentErrors then log.errors + [error] else log.errors, log.total + 1);
      recentErrors := recentErrors[coll := log];
      KeptAfter(checkpoints, checkpoints, history, Append(coll, error), expiryTime);
      history := history + [Append(coll, error)];
    }

    /** The checkpoints of the collection that have not expired. */
    method Unexpired(coll: string, now: real) returns (left: Points)
      ensures left == Fresh(PointsAt(checkpoints, coll), now, expiryTime)
    {
      left := map[];
      if coll in checkpoints {
        left := Expire(checkpoints[coll], now, expiryTime);
      }
    }

    /** Makes a checkpoint visible; one that is there already, reached or not, stays as it is. */
    method PublishCheckpoint(coll: string, id: string, now: real)
      requires Valid()
      modifies this
      ensures Valid() && history == old(history) + [Publish(coll, id, now)] && recentErrors == old(recentErrors)
      ensures var left := Fresh(PointsAt(old(checkpoints), coll), now, expiryTime);
              var published := if id in left then left else left[id := CheckPoint(None, now, false)];
              checkpoints == old(checkpoints)[coll := published]
    {
      hide LogsSince, PointsAccount, ReachesKept, Keeps, Lasting;
      var left := Unexpired(coll, now);
      forall i | i in left
        ensures Accounts(coll, i, left[i], history, maxRecentErrors)
      {
        PointAccounts(checkpoints, coll, i, history, maxRecentErrors);
      }
      if id !in left {
        left := left[id := CheckPoint(None, now, false)];
      }
      ChangedPoints(checkpoints, coll, left, history, maxRecentErrors);
      checkpoints := checkpoints[coll := left];
      OtherLogs(recentErrors, history, Publish(coll, id, now), maxRecentErrors);
      OtherPoints(checkpoints, history, Publish(coll, id, now), maxRecentErrors);
      PublishKeeps(old(checkpoints), Publish(coll, id, now), expiryTime, CheckPoint(None, now, false));
      KeptAfter(old(checkpoints), checkpoints, history, Publish(coll, id, now), expiryTime);
      history := history + [Publish(coll, id, now)];
    }

    /** Hands the waiting errors to the checkpoint, which from now on reports them. */
    method SetReached(coll: string, id: string, now: real)
      requires Valid()
      modifies this
      ensures Valid() && history == old(history) + [Reach(coll, id, now)] && recentErrors == old(recentErrors) - {coll}
      ensures var left := Fresh(PointsAt(old(checkpoints), coll), now, expiryTime);
              var log := if coll in old(recentErrors) then Some(old(recentErrors)[coll]) else None;
              checkpoints == old(checkpoints)[coll := left[id := CheckPoint(log, now, true)]]
    {
      hide LogsSince, PointsAccount, ReachesKept, Keeps, Lasting;
      var left := Unexpired(coll, now);
      var log: Option<ErrorLog> := None;
      if coll in recentErrors {
        log := Some(recentErrors[coll]);
      }
      WaitingLog(recentErrors, history, coll, maxRecentErrors);
      ReachAccounts(checkpoints, coll, id, log, now, left, history, maxRecentErrors);
      ReachLogs(recentErrors, history, coll, id, now, maxRecentErrors);
      recentErrors := recentErrors - {coll};
      checkpoints := checkpoints[coll := left[id := CheckPoint(log, now, true)]];
      ReachKeeps(old(checkpoints), Reach(coll, id, now), expiryTime, log);
      KeptAfter(old(checkpoints), checkpoints, history, Reach(coll, id, now), expiryTime);
      history := history + [Reach(coll, id, now)];
    }

    /**
     What the checkpoint reports: once reached, the number of the errors attributed to it
     in the whole history, and as many of the first of them as are kept.
     */
    method GetState(coll: string, id: string, now: real) returns (report: Report)
      requires Valid()
      modifies this
      ensures Valid() && history == old(history) + [Query(coll, id, now)] && recentErrors == old(recentErrors)
      ensures var left := Fresh(PointsAt(old(checkpoints), coll), now, expiryTime);
              && (report.Unknown? <==> id !in left)
              && (report.Pending? <==> id in left && !left[id].reached)
              && (report.Reached? <==> id in left && left[id].reached)
              && PointsAt(checkpoints, coll) == if id in left then left[id := left[id].(touched := now)] else left
      ensures forall c :: c != coll ==> PointsAt(checkpoints, c) == PointsAt(old(checkpoints), c)
      ensures report.Reached? ==>
                && Attributed(history, coll, id).Some?
                && var errors := Attributed(history, coll, id).value;
                   && report.total == |errors|
                   && report.errors == if |errors| <= maxRecentErrors then errors else errors[..maxRecentErrors]
      ensures (exists k: nat :: Lasting(history, k, coll, id, expiryTime)) ==> report.Reached?
    {
      hide LogsSince, PointsAccount, ReachesKept, Keeps, Lasting;
      ghost var e := Query(coll, id, now);
      ghost var before := history;
      OtherLogs(recentErrors, history, e, maxRecentErrors);
      OtherPoints(checkpoints, history, e, maxRecentErrors);
      history := history + [e];
      var left := Unexpired(coll, now);
      report := Unknown;
      if id in left {
        PointAccounts(checkpoints, coll, id, history, maxRecentErrors);
        report := Pending;
        if left[id].reached {
          report := Reached([], 0);
          if left[id].errors.Some? {
            report := Reached(left[id].errors.value.errors, left[id].errors.value.total);
          }
        }
      }
      LastingIsFresh(checkpoints, before, e, expiryTime);
      forall i | i in left
        ensures Accounts(coll, i, left[i], history, maxRecentErrors)
      {
        PointAccounts(checkpoints, coll, i, history, maxRecentErrors);
      }
      if coll in checkpoints {
        if id in left {
          left := left[id := left[id].(touched := now)];
        }
        ChangedPoints(checkpoints, coll, left, history, maxRecentErrors);
        checkpoints := checkpoints[coll := left];
      }
      QueryKeeps(old(checkpoints), checkpoints, e, expiryTime);
      KeptAfter(old(checkpoints), checkpoints, before, e, expiryTime);
    }

    /** The identifiers of the checkpoints that have not expired, in order. */
    method ListIds(coll: string, now: real) returns (ids: seq<string>)
      requires Valid()
      modifies this
      ensures Valid() && history == old(history) + [List(coll, now)] && recentErrors == old(recentErrors)
      ensures var left := Fresh(PointsAt(old(checkpoints), coll), now, expiryTime);
              PointsAt(checkpoints, coll) == left && Sorted(ids) && forall id :: id in ids <==> id in left
      ensures forall c :: c != coll ==> PointsAt(checkpoints, c) == PointsAt(old(checkpoints), c)
    {
      hide LogsSince, PointsAccount, ReachesKept, Keeps, Accounts, Sorted;
      ghost var e := List(coll, now);
      ghost var before := history;
      OtherLogs(recentErrors, history, e, maxRecentErrors);
      OtherPoints(checkpoints, history, e, maxRecentErrors);
      history := history + [e];
      var left := Unexpired(coll, now);
      ids := Listed(left.Keys);
      forall i | i in left
        ensures Accounts(coll, i, left[i], history, maxRecentErrors)
      {
        PointAccounts(checkpoints, coll, i, history, maxRecentErrors);
      }
      if coll in checkpoints {
        ChangedPoints(checkpoints, coll, left, history, maxRecentErrors);
        checkpoints := checkpoints[coll := left];
      }
      ListKeeps(old(checkpoints), checkpoints, e, expiryTime);
      KeptAfter(old(checkpoints), checkpoints, before, e, expiryTime);
    }
  }
}
