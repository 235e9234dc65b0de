/** The pool of open collections: who owns each handle, and which may be handed out again. */
module CollectionPools {
  import opened Options

  /** An open collection; `serial` tells objects apart. */
  datatype Handle = Handle(serial: nat, name: string, writable: bool)

  // ---------------------------------------------------------------- lists of readers

  type Lists = map<string, seq<Handle>>

  function ListOf(lists: Lists, name: string): seq<Handle> {
    if name in lists then lists[name] else []
  }

  predicate Listed(lists: Lists, h: Handle) {
    h in ListOf(lists, h.name)
  }

  /** The lists hold the readers in `s`, each under its own name and only once. */
  ghost predicate Hold(lists: Lists, s: set<Handle>) {
    && (forall name, h :: name in lists && h in lists[name] ==> h.name == name && !h.writable)
    && (forall name, i, j :: name in lists && 0 <= i < j < |lists[name]| ==> lists[name][i] != lists[name][j])
    && (forall h :: h in s <==> Listed(lists, h))
  }

  ghost predicate AtMost(lists: Lists, max: nat) {
    forall name :: name in lists ==> |lists[name]| <= max
  }

  lemma ListedIsHeld(lists: Lists, s: set<Handle>, h: Handle)
    requires Hold(lists, s)
    ensures Listed(lists, h) <==> h in s
    ensures h in s ==> !h.writable
  {
  }

  lemma TakeLast(lists: Lists, s: set<Handle>, name: string, max: nat)
    requires Hold(lists, s) && AtMost(lists, max) && name in lists && lists[name] != []
    ensures var hs := lists[name];
            var h, rest := hs[|hs| - 1], lists[name := hs[..|hs| - 1]];
            Hold(rest, s - {h}) && AtMost(rest, max) && h in s && h.name == name && !h.writable
  {
    var hs := lists[name];
    var h, rest := hs[|hs| - 1], lists[name := hs[..|hs| - 1]];
    assert h in hs;
    forall x
      ensures Listed(rest, x) <==> Listed(lists, x) && x != h
    {
    }
  }

  lemma TakeOne(lists: Lists, s: set<Handle>, name: string, i: nat)
    requires Hold(lists, s) && name in lists && i < |lists[name]|
    ensures var hs := lists[name]; Hold(lists[name := hs[..i] + hs[i + 1..]], s - {hs[i]})
  {
    var hs := lists[name];
    var rest := lists[name := hs[..i] + hs[i + 1..]];
    forall x
      ensures Listed(rest, x) <==> Listed(lists, x) && x != hs[i]
    {
    }
  }

  lemma AddLast(lists: Lists, s: set<Handle>, h: Handle)
    requires Hold(lists, s) && h !in s && !h.writable
    ensures Hold(lists[h.name := ListOf(lists, h.name) + [h]], s + {h})
  {
    var more := lists[h.name := ListOf(lists, h.name) + [h]];
    forall x
      ensures Listed(more, x) <==> Listed(lists, x) || x == h
    {
    }
  }

  lemma AddWithin(lists: Lists, h: Handle, max: nat)
    requires AtMost(lists, max) && |ListOf(lists, h.name)| < max
    ensures AtMost(lists[h.name := ListOf(lists, h.name) + [h]], max)
  {
  }

  ghost function OfOthers(s: set<Handle>, name: string): set<Handle> {
    set h | h in s && h.name != name
  }

  lemma Drop(lists: Lists, s: set<Handle>, name: string)
    requires Hold(lists, s)
    ensures Hold(lists - {name}, OfOthers(s, name))
    ensures forall max :: AtMost(lists, max) ==> AtMost(lists - {name}, max)
  {
    forall x
      ensures Listed(lists - {name}, x) <==> Listed(lists, x) && x.name != name
    {
    }
  }

  // ------------------------------------------------------------------ cached writers

  type Writers = map<string, Option<Handle>>

  function WriterOf(writers: Writers, name: string): Option<Handle> {
    if name in writers then writers[name] else None
  }

  /** `s` are the writers kept, at most one for a name. */
  ghost predicate Keep(writers: Writers, s: set<Handle>) {
    && (forall name :: WriterOf(writers, name).Some? ==>
          WriterOf(writers, name).value.name == name && WriterOf(writers, name).value.writable)
    && (forall h :: h in s <==> WriterOf(writers, h.name) == Some(h))
  }

  lemma KeptWriter(writers: Writers, s: set<Handle>, name: string)
    requires Keep(writers, s)
    ensures WriterOf(writers, name).Some? ==>
              var h := WriterOf(writers, name).value; h in s && h.name == name && h.writable
    ensures forall h :: h in s ==> h.writable && WriterOf(writers, h.name) == Some(h)
  {
  }

  lemma TakeWriter(writers: Writers, s: set<Handle>, name: string)
    requires Keep(writers, s) && WriterOf(writers, name).Some?
    ensures Keep(writers[name := None], s - {WriterOf(writers, name).value})
  {
    var after := writers[name := None];
    forall n
      ensures WriterOf(after, n) == if n == name then None else WriterOf(writers, n)
    {
    }
    forall h
      ensures h in s - {WriterOf(writers, name).value} <==> WriterOf(after, h.name) == Some(h)
    {
      assert h in s <==> WriterOf(writers, h.name) == Some(h);
    }
  }

  lemma PutWriter(writers: Writers, s: set<Handle>, h: Handle)
    requires Keep(writers, s) && WriterOf(writers, h.name).None? && h.writable
    ensures Keep(writers[h.name := Some(h)], s + {h})
  {
    var after := writers[h.name := Some(h)];
    forall n
      ensures WriterOf(after, n) == if n == h.name then Some(h) else WriterOf(writers, n)
    {
    }
    forall x
      ensures x in s + {h} <==> WriterOf(after, x.name) == Some(x)
    {
      assert x in s <==> WriterOf(writers, x.name) == Some(x);
    }
  }

  lemma DropWriter(writers: Writers, s: set<Handle>, name: string)
    requires Keep(writers, s)
    ensures Keep(writers - {name}, OfOthers(s, name))
  {
    forall n
      ensures WriterOf(writers - {name}, n) == if n == name then None else WriterOf(writers, n)
    {
    }
  }

  // ----------------------------------------------------------------- who owns a handle

  /**
   Where the handles are: in the cached lists, in the lists of readers in use, kept as
   writers; those not deleted; those with clients; those given out since the start; and
   those given out before their collection was deleted, but for writers still out then.
   */
  datatype Owners = Owners(readers: set<Handle>, inUse: set<Handle>, writers: set<Handle>, live: set<Handle>,
                           held: set<Handle>, given: set<Handle>, retired: set<Handle>, made: nat)

  /** A live handle has one owner, and a retired one is never in reach of the pool. */
  ghost predicate SoundAt(o: Owners, h: Handle) {
    && (h in o.live <==> h in o.held || h in o.readers || h in o.writers)
    && !(h in o.held && h in o.readers) && !(h in o.held && h in o.writers)
    && (h in o.readers || h in o.inUse ==> !h.writable) && (h in o.writers ==> h.writable)
    && (h in o.inUse ==> h in o.held) && (h in o.held || h in o.retired ==> h in o.given)
    && (h in o.retired ==> h !in o.inUse && h !in o.readers && h !in o.writers)
    && (h in o.held && h.writable ==> h !in o.retired)
    && (h in o.live || h in o.given ==> h.serial < o.made)
  }

  ghost predicate Sound(o: Owners) {
    forall h :: SoundAt(o, h)
  }

  ghost function HandOut(o: Owners, h: Handle): Owners {
    o.(readers := o.readers - {h}, writers := o.writers - {h}, inUse := if h.writable then o.inUse else o.inUse + {h},
       live := o.live + {h}, held := o.held + {h}, given := o.given + {h},
       made := if h.serial < o.made then o.made else h.serial + 1)
  }

  /** Handing out a new handle or a cached one. */
  lemma HandOutSound(o: Owners, h: Handle)
    requires Sound(o) && (h.serial == o.made || h in o.readers || h in o.writers)
    ensures Sound(HandOut(o, h)) && h !in o.held && h !in o.retired && h !in o.inUse
    ensures h.serial == o.made ==> h !in o.live && h !in o.readers && h !in o.writers
  {
    assert SoundAt(o, h);
    forall x
      ensures SoundAt(HandOut(o, h), x)
    {
      assert SoundAt(o, x);
    }
  }

  ghost function TakeBack(o: Owners, h: Handle, cached: bool): Owners {
    o.(held := o.held - {h}, inUse := o.inUse - {h},
       readers := if cached && !h.writable then o.readers + {h} else o.readers,
       writers := if cached && h.writable then o.writers + {h} else o.writers,
       live := if cached then o.live else o.live - {h})
  }

  lemma TakeBackSound(o: Owners, h: Handle, cached: bool)
    requires Sound(o) && h in o.held && (cached ==> h in o.inUse || h.writable)
    ensures Sound(TakeBack(o, h, cached)) && h in o.live && h !in o.readers && h !in o.writers
  {
    assert SoundAt(o, h);
    forall x
      ensures SoundAt(TakeBack(o, h, cached), x)
    {
      assert SoundAt(o, x);
    }
  }

  /** A collection is deleted: what is cached of it goes, and what is out becomes no one's but the client's. */
  ghost function Forget(o: Owners, name: string): Owners {
    o.(readers := OfOthers(o.readers, name), writers := OfOthers(o.writers, name), inUse := OfOthers(o.inUse, name),
       live := (set h | h in o.live && (h in o.held || h.name != name)),
       retired := o.retired + (set h | h in o.given && h.name == name && !(h.writable && h in o.held)))
  }

  lemma ForgetSound(o: Owners, name: string)
    requires Sound(o)
    ensures Sound(Forget(o, name))
  {
    forall x
      ensures SoundAt(Forget(o, name), x)
    {
      assert SoundAt(o, x);
    }
  }

  // --------------------------------------------------------------------- whole runs

  datatype Event = HandedOut(h: Handle) | TakenBack(h: Handle, cached: bool) | Deleted(name: string)

  /** What the pool may do: hand out a new or cached handle, take back one that is out, delete. */
  ghost predicate Possible(o: Owners, e: Event) {
    match e
    case HandedOut(h) => h.serial == o.made || h in o.readers || h in o.writers
    case TakenBack(h, cached) => h in o.held && (cached ==> h in o.inUse || h.writable)
    case Deleted(_) => true
  }

  ghost function Next(o: Owners, e: Event): Owners {
    match e
    case HandedOut(h) => HandOut(o, h)
    case TakenBack(h, cached) => TakeBack(o, h, cached)
    case Deleted(name) => Forget(o, name)
  }

  const START := Owners({}, {}, {}, {}, {}, {}, {}, 0)

  ghost function OwnersAfter(es: seq<Event>): Owners {
    if es == [] then START else Next(OwnersAfter(es[..|es| - 1]), es[|es| - 1])
  }

  ghost predicate IsRun(es: seq<Event>) {
    forall i :: 0 <= i < |es| ==> Possible(OwnersAfter(es[..i]), es[i])
  }

  lemma RunPrefix(es: seq<Event>, n: nat)
    requires IsRun(es) && n <= |es|
    ensures IsRun(es[..n])
  {
    forall i | 0 <= i < n
      ensures Possible(OwnersAfter(es[..n][..i]), es[..n][i])
    {
      assert es[..n][..i] == es[..i];
    }
  }

  lemma AfterOneMore(es: seq<Event>, n: nat)
    requires n < |es|
    ensures OwnersAfter(es[..n + 1]) == Next(OwnersAfter(es[..n]), es[n])
  {
    assert es[..n + 1][..n] == es[..n];
  }

  /** In every run, each live handle has one owner. */
  lemma {:induction false} EveryRunSound(es: seq<Event>)
    requires IsRun(es)
    ensures Sound(OwnersAfter(es))
  {
    hide Sound, HandOut, TakeBack, Forget, Possible;
    if es == [] {
      StartSound();
    } else {
      var n := |es| - 1;
      RunPrefix(es, n);
      EveryRunSound(es[..n]);
      StepSound(OwnersAfter(es[..n]), es[n]);
    }
  }

  lemma StartSound()
    ensures Sound(START)
  {
  }

  lemma StepSound(o: Owners, e: Event)
    requires Sound(o) && Possible(o, e)
    ensures Sound(Next(o, e))
  {
    hide Sound, HandOut, TakeBack, Forget;
    match e
    case HandedOut(h) => HandOutSound(o, h);
    case TakenBack(h, cached) => TakeBackSound(o, h, cached);
    case Deleted(name) => ForgetSound(o, name);
  }

  lemma {:induction false} NeverForgotten(es: seq<Event>, m: nat, n: nat)
    requires m <= n <= |es|
    ensures OwnersAfter(es[..m]).given <= OwnersAfter(es[..n]).given
    ensures OwnersAfter(es[..m]).retired <= OwnersAfter(es[..n]).retired
    decreases n
  {
    if m < n {
      NeverForgotten(es, m, n - 1);
      AfterOneMore(es, n - 1);
    }
  }

  /**
   A handle given out before its collection was deleted is never given out again. Of
   readers this holds always; of writers, if they were back by then.
   */
  lemma NeverAgain(es: seq<Event>, i: nat, j: nat, k: nat, h: Handle)
    requires IsRun(es) && i < j < k < |es|
    requires es[i] == HandedOut(h) && es[j] == Deleted(h.name)
    requires h.writable ==> h !in OwnersAfter(es[..j]).held
    ensures es[k] != HandedOut(h)
  {
    AfterOneMore(es, i);
    NeverForgotten(es, i + 1, j);
    AfterOneMore(es, j);
    NeverForgotten(es, j + 1, k);
    hide Sound, OwnersAfter;
    RunPrefix(es, k);
    EveryRunSound(es[..k]);
    if es[k] == HandedOut(h) {
      assert Possible(OwnersAfter(es[..k]), es[k]);
      HandOutSound(OwnersAfter(es[..k]), h);
    }
  }

  /** Some continuation of the run gives the handle out. */
  ghost predicate MayReturn(es: seq<Event>, h: Handle) {
    exists more :: IsRun(es + more) && HandedOut(h) in more
  }

  lemma RunMore(es: seq<Event>, e: Event)
    requires IsRun(es) && Possible(OwnersAfter(es), e)
    ensures IsRun(es + [e]) && OwnersAfter(es + [e]) == Next(OwnersAfter(es), e)
  {
    hide OwnersAfter, Possible;
    var all := es + [e];
    AfterOneMore(all, |es|);
    assert all[..|es|] == es && all[..|all|] == all;
    forall i | 0 <= i < |all|
      ensures Possible(OwnersAfter(all[..i]), all[i])
    {
      assert i < |es| ==> all[..i] == es[..i];
    }
  }

  /**
   A handle given out before its collection was deleted may be given out again exactly
   if it is a writer that was still out at that time.
   */
  lemma ReturnsExactly(es: seq<Event>, i: nat, h: Handle)
    requires IsRun(es) && i < |es| && es[i] == HandedOut(h)
    ensures MayReturn(es + [Deleted(h.name)], h) <==> h.writable && h in OwnersAfter(es).held
  {
    hide Sound, OwnersAfter, IsRun, Forget, HandOut;
    var gone := es + [Deleted(h.name)];
    RunMore(es, Deleted(h.name));
    if h.writable && h in OwnersAfter(es).held {
      ForgetKeepsHeld(OwnersAfter(es), h);
      RunMore(gone, TakenBack(h, true));
      var back := gone + [TakenBack(h, true)];
      RunMore(back, HandedOut(h));
      assert back + [HandedOut(h)] == gone + [TakenBack(h, true), HandedOut(h)];
      assert HandedOut(h) in [TakenBack(h, true), HandedOut(h)];
    } else {
      forall more | IsRun(gone + more) && HandedOut(h) in more
        ensures false
      {
        var k :| 0 <= k < |more| && more[k] == HandedOut(h);
        var all := gone + more;
        assert all[..|es|] == es && all[i] == HandedOut(h) && all[|es|] == Deleted(h.name);
        assert all[|gone| + k] == HandedOut(h);
        NeverAgain(all, i, |es|, |gone| + k, h);
      }
    }
  }

  lemma ForgetKeepsHeld(o: Owners, h: Handle)
    ensures Forget(o, h.name).held == o.held
  {
  }

  // ------------------------------------------------------------------------ the pool

  class CollectionPool {
    const maxCachedReaders: nat
    var readonly: Lists
    var readonlyInUse: Lists
    var writable: Writers
    var made: nat
    ghost var owners: Owners

    ghost predicate Valid()
      reads this
    {
      && Hold(readonly, owners.readers) && AtMost(readonly, maxCachedReaders)
      && Hold(readonlyInUse, owners.inUse) && Keep(writable, owners.writers)
      && Sound(owners) && made == owners.made
    }

    constructor (max: nat)
      ensures Valid() && maxCachedReaders == max && owners == START
    {
      maxCachedReaders := max;
      readonly, readonlyInUse, writable, made := map[], map[], map[], 0;
      owners := START;
    }

    /** A reader that no one else has, and that was not given out before its collection was deleted. */
    method GetReadonly(name: string) returns (h: Handle)
      requires Valid()
      modifies this
      ensures Valid() && h.name == name && !h.writable
      ensures if name in old(readonly) && old(readonly)[name] != []
              then h == old(readonly)[name][|old(readonly)[name]| - 1]
                   && readonly == old(readonly)[name := old(readonly)[name][..|old(readonly)[name]| - 1]]
              else h.serial == old(made) && readonly == old(readonly)
      ensures writable == old(writable)
      ensures owners.held == old(owners.held) + {h} && owners.given == old(owners.given) + {h}
      ensures Possible(old(owners), HandedOut(h)) && owners == Next(old(owners), HandedOut(h))
      ensures h !in old(owners.held) && h !in old(owners.retired)
    {
      hide Hold, Keep, AtMost, Sound;
      if name !in readonly || readonly[name] == [] {
        h := Handle(made, name, false);
        HandOutSound(owners, h);
        made := made + 1;
        assert owners.readers - {h} == owners.readers;
      } else {
        var hs := readonly[name];
        TakeLast(readonly, owners.readers, name, maxCachedReaders);
        h := hs[|hs| - 1];
        HandOutSound(owners, h);
        CachedSerial(owners, h);
        readonly := readonly[name := hs[..|hs| - 1]];
      }
      NoReader(writable, owners.writers, h);
      AddLast(readonlyInUse, owners.inUse, h);
      readonlyInUse := readonlyInUse[name := ListOf(readonlyInUse, name) + [h]];
      owners := HandOut(owners, h);
    }

    method GetWritable(name: string) returns (h: Handle)
      requires Valid()
      modifies this
      ensures Valid() && h.name == name && h.writable
      ensures if name in old(writable) && old(writable)[name].Some?
              then h == old(writable)[name].value && writable == old(writable)[name := None]
              else h.serial == old(made) && writable == old(writable)
      ensures readonly == old(readonly) && readonlyInUse == old(readonlyInUse)
      ensures owners.held == old(owners.held) + {h} && owners.given == old(owners.given) + {h}
      ensures Possible(old(owners), HandedOut(h)) && owners == Next(old(owners), HandedOut(h))
      ensures h !in old(owners.held) && h !in old(owners.retired)
    {
      hide Hold, Keep, AtMost, Sound;
      KeptWriter(writable, owners.writers, name);
      if name !in writable || writable[name].None? {
        h := Handle(made, name, true);
        HandOutSound(owners, h);
        made := made + 1;
        assert owners.writers - {h} == owners.writers;
      } else {
        h := writable[name].value;
        HandOutSound(owners, h);
        CachedSerial(owners, h);
        TakeWriter(writable, owners.writers, name);
        writable := writable[name := None];
      }
      ListedIsHeld(readonly, owners.readers, h);
      assert owners.readers - {h} == owners.readers;
      owners := HandOut(owners, h);
    }

    /** Takes a handle back: it is cached, or deleted when there is no place for it. */
    method Release(h: Handle) returns (ghost cached: bool)
      requires Valid() && h in owners.held
      modifies this
      ensures Valid()
      ensures Possible(old(owners), TakenBack(h, cached)) && owners == Next(old(owners), TakenBack(h, cached))
      ensures cached <==> if h.writable then old(WriterOf(writable, h.name)).None?
                          else h in old(owners.inUse) && |ListOf(old(readonly), h.name)| < maxCachedReaders
      ensures cached && h.writable ==> WriterOf(writable, h.name) == Some(h)
      ensures cached && !h.writable ==> h.name in readonly && h in readonly[h.name]
      ensures owners.held == old(owners.held) - {h} && (cached <==> h in owners.live)
    {
      hide Hold, Keep, AtMost, Sound;
      TakeBackSound(owners, h, false);
      ListedIsHeld(readonlyInUse, owners.inUse, h);
      cached := false;
      if h.writable {
        assert owners.inUse - {h} == owners.inUse;
        if h.name !in writable || writable[h.name].None? {
          PutWriter(writable, owners.writers, h);
          writable := writable[h.name := Some(h)];
          cached := true;
        }
      } else {
        cached := ReleaseReader(h);
      }
      TakeBackSound(owners, h, cached);
      owners := TakeBack(owners, h, cached);
    }

    /** The lists no longer have the reader in use, and have it cached if there is room. */
    method ReleaseReader(h: Handle) returns (ghost cached: bool)
      requires Valid() && h in owners.held && !h.writable && h !in owners.readers
      modifies `readonly, `readonlyInUse
      ensures Hold(readonlyInUse, owners.inUse - {h}) && AtMost(readonly, maxCachedReaders)
      ensures Hold(readonly, if cached then owners.readers + {h} else owners.readers)
      ensures cached ==> h.name in readonly && h in readonly[h.name]
      ensures cached <==> h in owners.inUse && |ListOf(old(readonly), h.name)| < maxCachedReaders
    {
      hide Hold, Keep, AtMost, Sound;
      cached := false;
      ListedIsHeld(readonlyInUse, owners.inUse, h);
      var users := ListOf(readonlyInUse, h.name);
      var at := IndexOf(users, h);
      if at.None? {
        assert owners.inUse - {h} == owners.inUse;
        return;
      }
      TakeOne(readonlyInUse, owners.inUse, h.name, at.value);
      readonlyInUse := readonlyInUse[h.name := users[..at.value] + users[at.value + 1..]];
      if |ListOf(readonly, h.name)| < maxCachedReaders {
        AddLast(readonly, owners.readers, h);
        AddWithin(readonly, h, maxCachedReaders);
        readonly := readonly[h.name := ListOf(readonly, h.name) + [h]];
        cached := true;
      }
    }

    static method IndexOf(hs: seq<Handle>, h: Handle) returns (at: Option<nat>)
      ensures at.None? ==> h !in hs
      ensures at.Some? ==> at.value < |hs| && hs[at.value] == h
    {
      for i := 0 to |hs|
        invariant h !in hs[..i]
      {
        if hs[i] == h {
          return Some(i);
        }
      }
      return None;
    }

    /** Deletes what the cache has of a collection, and forgets the readers still out. */
    method Del(name: string)
      requires Valid()
      modifies this
      ensures Valid() && owners == Next(old(owners), Deleted(name))
      ensures readonly == old(readonly) - {name} && readonlyInUse == old(readonlyInUse) - {name}
      ensures writable == old(writable) - {name} && owners.held == old(owners.held)
      ensures forall h :: h in owners.live <==> h in old(owners.live) && (h in old(owners.held) || h.name != name)
    {
      hide Hold, Keep, AtMost, Sound;
      Drop(readonly, owners.readers, name);
      Drop(readonlyInUse, owners.inUse, name);
      DropWriter(writable, owners.writers, name);
      ForgetSound(owners, name);
      readonly, readonlyInUse, writable := readonly - {name}, readonlyInUse - {name}, writable - {name};
      owners := Forget(owners, name);
    }
  }

  lemma CachedSerial(o: Owners, h: Handle)
    requires Sound(o) && (h in o.readers || h in o.writers)
    ensures h.serial < o.made
  {
    assert SoundAt(o, h);
  }

  lemma NoReader(writers: Writers, s: set<Handle>, h: Handle)
    requires Keep(writers, s) && !h.writable
    ensures s - {h} == s
  {
    KeptWriter(writers, s, h.name);
  }

  /** Every writer still out when its collection is deleted can come back: release it and ask again. */
  method LateWriter(pool: CollectionPool, late: Handle) returns (again: Handle)
    requires pool.Valid() && late in pool.owners.held && late.writable
    modifies pool
    ensures pool.Valid() && again == late
  {
    hide Hold, Keep, AtMost, Sound;
    pool.Del(late.name);
    var cached := pool.Release(late);
    again := pool.GetWritable(late.name);
  }
}
