/** A document store spread over database fragments that are filled one after the other. */
module Fragments {
  import opened Numerals
  import opened Options

  type Doc = string

  /** What is stored under a fragment's name: documents by id term, and those without one. */
  datatype Data = Data(named: map<string, Doc>, unnamed: seq<Doc>)

  type Disk = map<string, Data>

  function DocCount(d: Data): nat {
    |d.named| + |d.unnamed|
  }

  // ------------------------------------------------------------- fragment names

  function FragmentName(n: nat): string {
    "frag" + Decimal(n)
  }

  lemma FragmentNameInjective(m: nat, n: nat)
    requires FragmentName(m) == FragmentName(n)
    ensures m == n
  {
    assert FragmentName(m)[4..] == Decimal(m);
    assert FragmentName(n)[4..] == Decimal(n);
    DecimalInjective(m, n);
  }

  // ------------------------------------------------------------ what is kept true

  /** The names are distinct, made from numbers below `next`, and each has its data. */
  ghost predicate Named(frags: seq<string>, next: nat, disk: Disk) {
    && (forall i, j :: 0 <= i < j < |frags| ==> frags[i] != frags[j])
    && (forall i :: 0 <= i < |frags| ==> frags[i] in disk)
    && (forall name :: name in disk ==> exists n: nat :: n < next && name == FragmentName(n))
  }

  /** No id term is in two fragments, and none is empty. */
  ghost predicate SingleHome(frags: seq<string>, disk: Disk)
    requires forall i :: 0 <= i < |frags| ==> frags[i] in disk
  {
    && (forall i, j, t :: 0 <= i < j < |frags| ==> !(t in disk[frags[i]].named && t in disk[frags[j]].named))
    && (forall i :: 0 <= i < |frags| ==> "" !in disk[frags[i]].named)
  }

  ghost predicate Bounded(frags: seq<string>, disk: Disk, max: nat)
    requires forall i :: 0 <= i < |frags| ==> frags[i] in disk
  {
    forall i :: 0 <= i < |frags| ==> DocCount(disk[frags[i]]) <= if max == 0 then 1 else max
  }

  /** The store as one map. */
  ghost function Contents(frags: seq<string>, disk: Disk): map<string, Doc>
    requires forall i :: 0 <= i < |frags| ==> frags[i] in disk
  {
    if frags == [] then map[]
    else
      var n := |frags| - 1;
      Contents(frags[..n], disk) + disk[frags[n]].named
  }

  ghost function Unnamed(frags: seq<string>, disk: Disk): multiset<Doc>
    requires forall i :: 0 <= i < |frags| ==> frags[i] in disk
  {
    if frags == [] then multiset{}
    else
      var n := |frags| - 1;
      Unnamed(frags[..n], disk) + multiset(disk[frags[n]].unnamed)
  }

  /** The map holds what the fragments hold. */
  lemma {:induction false} ContentsAt(frags: seq<string>, disk: Disk, i: nat, t: string)
    requires (forall j :: 0 <= j < |frags| ==> frags[j] in disk) && SingleHome(frags, disk)
    requires i < |frags| && t in disk[frags[i]].named
    ensures t in Contents(frags, disk) && Contents(frags, disk)[t] == disk[frags[i]].named[t]
  {
    var n := |frags| - 1;
    if i < n {
      ContentsAt(frags[..n], disk, i, t);
      assert t !in disk[frags[n]].named;
    }
  }

  lemma {:induction false} ContentsNowhere(frags: seq<string>, disk: Disk, t: string)
    requires forall j :: 0 <= j < |frags| ==> frags[j] in disk
    ensures t in Contents(frags, disk) ==> exists i :: 0 <= i < |frags| && t in disk[frags[i]].named
  {
    if frags != [] {
      var n := |frags| - 1;
      ContentsNowhere(frags[..n], disk, t);
      if t in Contents(frags[..n], disk) {
        var i :| 0 <= i < |frags[..n]| && t in disk[frags[..n][i]].named;
        assert t in disk[frags[i]].named;
      } else if t in disk[frags[n]].named {
        assert 0 <= n < |frags|;
      }
    }
  }

  // -------------------------------------------------------- changing one fragment

  /** Data under other names does not matter. */
  lemma {:induction false} Elsewhere(frags: seq<string>, disk: Disk, name: string, d: Data)
    requires (forall i :: 0 <= i < |frags| ==> frags[i] in disk) && name !in frags
    ensures Contents(frags, disk[name := d]) == Contents(frags, disk)
    ensures Unnamed(frags, disk[name := d]) == Unnamed(frags, disk)
  {
    if frags != [] {
      var n := |frags| - 1;
      Elsewhere(frags[..n], disk, name, d);
      assert frags[n] in frags && frags[n] != name;
    }
  }

  lemma {:induction false} SameUnnamed(frags: seq<string>, disk: Disk, after: Disk)
    requires forall j :: 0 <= j < |frags| ==> frags[j] in disk && frags[j] in after
    requires forall j :: 0 <= j < |frags| ==> after[frags[j]].unnamed == disk[frags[j]].unnamed
    ensures Unnamed(frags, after) == Unnamed(frags, disk)
  {
    if frags != [] {
      SameUnnamed(frags[..|frags| - 1], disk, after);
    }
  }

  /** How to see that the fragments make up a given map, when one entry of one fragment changed. */
  lemma SameContents(frags: seq<string>, disk: Disk, after: Disk, m: map<string, Doc>, i: nat, t: string)
    requires (forall j :: 0 <= j < |frags| ==> frags[j] in disk) && SingleHome(frags, disk) && i < |frags|
    requires (forall j :: 0 <= j < |frags| ==> frags[j] in after) && SingleHome(frags, after)
    requires forall j :: 0 <= j < |frags| && j != i ==> after[frags[j]] == disk[frags[j]] && t !in disk[frags[j]].named
    requires forall u :: u != t ==> (u in after[frags[i]].named <==> u in disk[frags[i]].named)
    requires forall u :: u != t && u in disk[frags[i]].named ==> after[frags[i]].named[u] == disk[frags[i]].named[u]
    requires forall u :: u != t ==> (u in m <==> u in Contents(frags, disk))
    requires forall u :: u != t && u in m ==> m[u] == Contents(frags, disk)[u]
    requires t in m <==> t in after[frags[i]].named
    requires t in m ==> m[t] == after[frags[i]].named[t]
    ensures Contents(frags, after) == m
  {
    forall u
      ensures u in Contents(frags, after) <==> u in m
      ensures u in m ==> Contents(frags, after)[u] == m[u]
    {
      ContentsNowhere(frags, after, u);
      ContentsNowhere(frags, disk, u);
      if u in Contents(frags, after) {
        var j :| 0 <= j < |frags| && u in after[frags[j]].named;
        ContentsAt(frags, after, j, u);
        if u != t {
          ContentsAt(frags, disk, j, u);
        }
      }
      if u in m {
        if u == t {
          ContentsAt(frags, after, i, t);
        } else {
          var j :| 0 <= j < |frags| && u in disk[frags[j]].named;
          ContentsAt(frags, disk, j, u);
          ContentsAt(frags, after, j, u);
        }
      }
    }
  }

  lemma SameNames(frags: seq<string>, next: nat, disk: Disk, after: Disk)
    requires Named(frags, next, disk) && after.Keys == disk.Keys
    ensures Named(frags, next, after)
  {
  }

  lemma NamesOnDisk(frags: seq<string>, next: nat, disk: Disk)
    requires Named(frags, next, disk)
    ensures forall i :: 0 <= i < |frags| ==> frags[i] in disk
    ensures forall i, j :: 0 <= i < j < |frags| ==> frags[i] != frags[j]
  {
  }

  /** A document stored under an id term that no other fragment has. */
  lemma PutChanges(frags: seq<string>, next: nat, disk: Disk, i: nat, t: string, doc: Doc)
    requires Named(frags, next, disk) && SingleHome(frags, disk) && i < |frags| && t != ""
    requires forall j :: 0 <= j < |frags| && j != i ==> t !in disk[frags[j]].named
    ensures var after := disk[frags[i] := disk[frags[i]].(named := disk[frags[i]].named[t := doc])];
            && Named(frags, next, after) && SingleHome(frags, after)
            && Contents(frags, after) == Contents(frags, disk)[t := doc]
            && Unnamed(frags, after) == Unnamed(frags, disk)
  {
    hide Contents, Unnamed, Named;
    NamesOnDisk(frags, next, disk);
    var after := disk[frags[i] := disk[frags[i]].(named := disk[frags[i]].named[t := doc])];
    SameNames(frags, next, disk, after);
    SameUnnamed(frags, disk, after);
    SameContents(frags, disk, after, Contents(frags, disk)[t := doc], i, t);
  }

  lemma DeleteChanges(frags: seq<string>, next: nat, disk: Disk, i: nat, t: string)
    requires Named(frags, next, disk) && SingleHome(frags, disk) && i < |frags|
    requires t in disk[frags[i]].named
    ensures var after := disk[frags[i] := disk[frags[i]].(named := disk[frags[i]].named - {t})];
            && Named(frags, next, after) && SingleHome(frags, after)
            && Contents(frags, after) == Contents(frags, disk) - {t}
            && Unnamed(frags, after) == Unnamed(frags, disk)
  {
    hide Contents, Unnamed, Named;
    NamesOnDisk(frags, next, disk);
    var after := disk[frags[i] := disk[frags[i]].(named := disk[frags[i]].named - {t})];
    SameNames(frags, next, disk, after);
    SameUnnamed(frags, disk, after);
    SameContents(frags, disk, after, Contents(frags, disk) - {t}, i, t);
  }

  /** The named documents of each fragment are as before. */
  lemma {:induction false} SameNamed(frags: seq<string>, disk: Disk, after: Disk)
    requires forall j :: 0 <= j < |frags| ==> frags[j] in disk && frags[j] in after
    requires forall j :: 0 <= j < |frags| ==> after[frags[j]].named == disk[frags[j]].named
    ensures Contents(frags, after) == Contents(frags, disk)
    ensures SingleHome(frags, disk) ==> SingleHome(frags, after)
  {
    if frags != [] {
      SameNamed(frags[..|frags| - 1], disk, after);
    }
  }

  /** A document without an id term, stored in the last fragment. */
  lemma AppendChanges(frags: seq<string>, next: nat, disk: Disk, doc: Doc)
    requires Named(frags, next, disk) && SingleHome(frags, disk) && frags != []
    ensures var last := frags[|frags| - 1];
            var after := disk[last := disk[last].(unnamed := disk[last].unnamed + [doc])];
            && Named(frags, next, after) && SingleHome(frags, after)
            && Contents(frags, after) == Contents(frags, disk)
            && Unnamed(frags, after) == Unnamed(frags, disk) + multiset{doc}
  {
    hide SingleHome, Named;
    NamesOnDisk(frags, next, disk);
    var last, before := frags[|frags| - 1], frags[..|frags| - 1];
    var d := disk[last].(unnamed := disk[last].unnamed + [doc]);
    SameNames(frags, next, disk, disk[last := d]);
    SameNamed(frags, disk, disk[last := d]);
    Elsewhere(before, disk, last, d);
  }

  /** A new fragment, under a name not used before. */
  lemma AddFragChanges(frags: seq<string>, next: nat, disk: Disk)
    requires Named(frags, next, disk) && SingleHome(frags, disk)
    ensures var name := FragmentName(next);
            && name !in disk
            && Named(frags + [name], next + 1, disk[name := Data(map[], [])])
            && SingleHome(frags + [name], disk[name := Data(map[], [])])
            && Contents(frags + [name], disk[name := Data(map[], [])]) == Contents(frags, disk)
            && Unnamed(frags + [name], disk[name := Data(map[], [])]) == Unnamed(frags, disk)
  {
    hide FragmentName, Named, SingleHome;
    NamesOnDisk(frags, next, disk);
    var name, empty := FragmentName(next), Data(map[], []);
    FreshName(frags, next, disk);
    EmptyHome(frags, disk, name);
    Elsewhere(frags, disk, name, empty);
    assert (frags + [name])[..|frags|] == frags;
    NamedMore(frags, next, disk, empty);
  }

  lemma EmptyHome(frags: seq<string>, disk: Disk, name: string)
    requires (forall i :: 0 <= i < |frags| ==> frags[i] in disk) && SingleHome(frags, disk) && name !in disk
    ensures SingleHome(frags + [name], disk[name := Data(map[], [])])
  {
    assert forall i :: 0 <= i < |frags| ==> frags[i] != name;
  }

  lemma NamedMore(frags: seq<string>, next: nat, disk: Disk, d: Data)
    requires Named(frags, next, disk) && FragmentName(next) !in disk
    ensures Named(frags + [FragmentName(next)], next + 1, disk[FragmentName(next) := d])
  {
    hide FragmentName;
    forall name | name in disk
      ensures exists n: nat :: n < next + 1 && name == FragmentName(n)
    {
      var n: nat :| n < next && name == FragmentName(n);
      assert n < next + 1;
    }
  }

  lemma FreshName(frags: seq<string>, next: nat, disk: Disk)
    requires Named(frags, next, disk)
    ensures FragmentName(next) !in disk
  {
    hide FragmentName;
    if FragmentName(next) in disk {
      var n: nat :| n < next && FragmentName(next) == FragmentName(n);
      FragmentNameInjective(next, n);
    }
  }

  /** No fragment, except possibly the `i`th, has the id term. */
  ghost predicate OnlyIn(frags: seq<string>, disk: Disk, i: int, t: string)
    requires forall i :: 0 <= i < |frags| ==> frags[i] in disk
  {
    forall j :: 0 <= j < |frags| && j != i ==> t !in disk[frags[j]].named
  }

  /** An id term is in the contents exactly if some fragment has it. */
  lemma InContents(frags: seq<string>, next: nat, disk: Disk, home: Option<nat>, t: string)
    requires Named(frags, next, disk) && SingleHome(frags, disk)
    requires home.None? ==> OnlyIn(frags, disk, -1, t)
    requires home.Some? ==> home.value < |frags| && t in disk[frags[home.value]].named
    ensures t in Contents(frags, disk) <==> home.Some?
  {
    if home.Some? {
      ContentsAt(frags, disk, home.value, t);
    } else {
      ContentsNowhere(frags, disk, t);
    }
  }

  // -------------------------------------------------------------------- the group

  /** What a client sees: the documents by id term, the others, whether it may write, and whether
      the group was ever opened so. */
  datatype View = View(named: map<string, Doc>, unnamed: multiset<Doc>, writable: bool, created: bool)

  datatype Operation = AddDoc(doc: Doc, idterm: string) | DeleteDoc(idterm: string) | OpenToWrite | OpenToRead | Close

  predicate Refused(v: View, op: Operation) {
    match op
    case AddDoc(_, _) => !v.writable
    case DeleteDoc(idterm) => !v.writable || idterm == ""
    case OpenToRead => !v.created
    case _ => false
  }

  /** One map: a document replaces the one with its id term, wherever that was stored. */
  function Apply(v: View, op: Operation): View {
    if Refused(v, op) then v
    else
      match op
      case AddDoc(doc, idterm) =>
        if idterm == "" then v.(unnamed := v.unnamed + multiset{doc}) else v.(named := v.named[idterm := doc])
      case DeleteDoc(idterm) => v.(named := v.named - {idterm})
      case OpenToWrite => v.(writable := true, created := true)
      case OpenToRead => v.(writable := false)
      case Close => v.(writable := false)
  }

  function ApplyAll(v: View, ops: seq<Operation>): View {
    if ops == [] then v else Apply(ApplyAll(v, ops[..|ops| - 1]), ops[|ops| - 1])
  }

  class DbGroup {
    const maxNewdbDocs: nat
    var frags: seq<string>
    var nextFragnum: nat
    var writable: bool
    var lastFraglist: Option<seq<string>>
    // The control database and the fragments' databases, as they are on disk.
    var fraglist: Option<seq<string>>
    var fragnum: nat
    var disk: Disk
    var created: bool

    ghost predicate Valid()
      reads this
    {
      && Named(frags, nextFragnum, disk) && SingleHome(frags, disk) && Bounded(frags, disk, maxNewdbDocs)
      && (if fraglist.None? then frags == [] && nextFragnum == 0 else fraglist.value == frags && fragnum == nextFragnum)
      && (writable ==> created)
    }

    ghost function Seen(): View
      requires Valid()
      reads this
    {
      View(Contents(frags, disk), Unnamed(frags, disk), writable, created)
    }

    constructor (max: nat)
      ensures Valid() && maxNewdbDocs == max && Seen() == View(map[], multiset{}, false, false)
    {
      maxNewdbDocs := max;
      frags, nextFragnum, writable, lastFraglist := [], 0, false, None;
      fraglist, fragnum, disk, created := None, 0, map[], false;
    }

    /** Takes the fragments from the stored list, unless that is the one last read. */
    method InitFrags()
      requires Valid()
      modifies this
      ensures Valid() && Seen() == old(Seen()) && writable == old(writable) && created == old(created)
    {
      hide Contents, Unnamed, Named, SingleHome, Bounded;
      if fraglist == lastFraglist {
        return;
      } else if fraglist.None? {
        frags, lastFraglist, nextFragnum := [], None, 0;
        return;
      }
      frags, lastFraglist, nextFragnum := fraglist.value, fraglist, fragnum;
    }

    method OpenWritable()
      requires Valid()
      modifies this
      ensures Valid() && writable && created
      ensures Seen().named == old(Seen()).named && Seen().unnamed == old(Seen()).unnamed
      ensures Seen() == Apply(old(Seen()), OpenToWrite)
    {
      hide Contents, Unnamed, Named, SingleHome, Bounded;
      if writable {
        return;
      }
      created := true;
      InitFrags();
      writable := true;
    }

    method Shut()
      requires Valid()
      modifies this
      ensures Valid() && !writable && created == old(created)
      ensures Seen().named == old(Seen()).named && Seen().unnamed == old(Seen()).unnamed
      ensures Seen() == Apply(old(Seen()), Close)
    {
      lastFraglist, writable := None, false;
    }

    /** Fails when there is no control database to open. */
    method OpenReadonly() returns (ok: bool)
      requires Valid()
      modifies this
      ensures Valid() && created == old(created) && (ok <==> created) && (ok ==> !writable)
      ensures Seen().named == old(Seen()).named && Seen().unnamed == old(Seen()).unnamed
      ensures Seen() == Apply(old(Seen()), OpenToRead)
      ensures ok == !Refused(old(Seen()), OpenToRead)
    {
      hide Contents, Unnamed, Named, SingleHome, Bounded;
      writable := false;
      if !created {
        return false;
      }
      InitFrags();
      return true;
    }

    /** Starts a new, empty fragment and stores the list that has it. */
    method AddFrag()
      requires Valid()
      modifies this
      ensures Valid() && Seen() == old(Seen())
      ensures frags == old(frags) + ["frag" + Decimal(old(nextFragnum))] && nextFragnum == old(nextFragnum) + 1
      ensures disk[frags[|frags| - 1]] == Data(map[], [])
      ensures writable == old(writable)
      ensures forall t :: OnlyIn(old(frags), old(disk), -1, t) ==> OnlyIn(frags, disk, -1, t)
    {
      hide Contents, Unnamed;
      var name := FragmentName(nextFragnum);
      AddFragChanges(frags, nextFragnum, disk);
      frags, nextFragnum, disk := frags + [name], nextFragnum + 1, disk[name := Data(map[], [])];
      fraglist, fragnum := Some(frags), nextFragnum;
    }

    /** The fragment that has the id term, looking at the last one first. */
    method FindHome(idterm: string) returns (home: Option<nat>)
      requires Valid()
      ensures home.None? ==> OnlyIn(frags, disk, -1, idterm)
      ensures home.Some? ==> home.value < |frags| && idterm in disk[frags[home.value]].named
      ensures home.Some? ==> OnlyIn(frags, disk, home.value, idterm)
    {
      var i := |frags|;
      while i > 0
        invariant 0 <= i <= |frags| && forall j :: i <= j < |frags| ==> idterm !in disk[frags[j]].named
      {
        i := i - 1;
        if idterm in disk[frags[i]].named {
          return Some(i);
        }
      }
      return None;
    }

    /** Stores a document in a fragment, in place of the one with its id term. */
    method PutInto(i: nat, doc: Doc, idterm: string)
      requires Valid() && i < |frags| && writable && idterm != ""
      requires OnlyIn(frags, disk, i, idterm)
      requires || idterm in disk[frags[i]].named
               || DocCount(disk[frags[i]]) < if maxNewdbDocs == 0 then 1 else maxNewdbDocs
      modifies `disk
      ensures Valid() && Seen() == Apply(old(Seen()), AddDoc(doc, idterm))
    {
      hide Contents, Unnamed;
      PutChanges(frags, nextFragnum, disk, i, idterm, doc);
      var d := disk[frags[i]];
      PutCount(d, idterm, doc);
      disk := disk[frags[i] := d.(named := d.named[idterm := doc])];
    }

    method AddDocument(doc: Doc, idterm: string) returns (ok: bool)
      requires Valid()
      modifies this
      ensures Valid() && writable == old(writable) && created == old(created) && (ok <==> writable)
      ensures Seen().named == if ok && idterm != "" then old(Seen()).named[idterm := doc] else old(Seen()).named
      ensures Seen().unnamed == if ok && idterm == "" then old(Seen()).unnamed + multiset{doc} else old(Seen()).unnamed
      ensures Seen() == Apply(old(Seen()), AddDoc(doc, idterm))
      ensures ok == !Refused(old(Seen()), AddDoc(doc, idterm))
      ensures ok && old(frags) != [] ==>
                var isNew := idterm == "" || idterm !in old(Seen()).named;
                var last := old(disk)[old(frags)[|old(frags)| - 1]];
                frags == if isNew && |last.named| + |last.unnamed| >= maxNewdbDocs
                         then old(frags) + ["frag" + Decimal(old(nextFragnum))] else old(frags)
    {
      hide Contents, Unnamed, Named, SingleHome, Bounded;
      if !writable {
        return false;
      }
      if frags == [] {
        AddFrag();
      }
      ok := true;
      if idterm != "" {
        var home := FindHome(idterm);
        InContents(frags, nextFragnum, disk, home, idterm);
        if home.Some? {
          PutInto(home.value, doc, idterm);
          return;
        }
      }
      AddNew(doc, idterm);
    }

    /** A document whose id term is not in the group goes to the last fragment, or to a new one. */
    method AddNew(doc: Doc, idterm: string)
      requires Valid() && writable && frags != [] && (idterm != "" ==> OnlyIn(frags, disk, -1, idterm))
      modifies this
      ensures Valid() && Seen() == Apply(old(Seen()), AddDoc(doc, idterm))
      ensures var last := old(disk)[old(frags)[|old(frags)| - 1]];
              frags == if |last.named| + |last.unnamed| >= maxNewdbDocs
                       then old(frags) + ["frag" + Decimal(old(nextFragnum))] else old(frags)
    {
      hide Contents, Unnamed, SingleHome, Bounded;
      var docs := DocCount(disk[frags[|frags| - 1]]);
      if docs >= maxNewdbDocs {
        AddFrag();
      }
      if idterm != "" {
        PutInto(|frags| - 1, doc, idterm);
      } else {
        AppendToLast(doc);
      }
    }

    method AppendToLast(doc: Doc)
      requires Valid() && frags != [] && writable
      requires DocCount(disk[frags[|frags| - 1]]) < if maxNewdbDocs == 0 then 1 else maxNewdbDocs
      modifies `disk
      ensures Valid() && Seen() == Apply(old(Seen()), AddDoc(doc, ""))
    {
      hide Contents, Unnamed, SingleHome, Named;
      AppendChanges(frags, nextFragnum, disk, doc);
      NamesOnDisk(frags, nextFragnum, disk);
      var last := frags[|frags| - 1];
      disk := disk[last := disk[last].(unnamed := disk[last].unnamed + [doc])];
    }

    /** Deletes from the first fragment found to have the id term, and looks no further. */
    method DeleteDocument(idterm: string) returns (ok: bool)
      requires Valid()
      modifies this
      ensures Valid() && writable == old(writable) && created == old(created)
      ensures ok <==> writable && idterm != ""
      ensures forall t :: t in Seen().named <==> t in old(Seen()).named && !(ok && t == idterm)
      ensures forall t :: t in Seen().named ==> Seen().named[t] == old(Seen()).named[t]
      ensures Seen().unnamed == old(Seen()).unnamed && frags == old(frags)
      ensures Seen() == Apply(old(Seen()), DeleteDoc(idterm))
      ensures ok == !Refused(old(Seen()), DeleteDoc(idterm))
    {
      hide Contents, Unnamed, SingleHome, Named, Bounded;
      ok := writable && idterm != "";
      if ok {
        RemoveFrom(idterm);
      }
    }

    method RemoveFrom(idterm: string)
      requires Valid()
      modifies `disk
      ensures Valid() && Contents(frags, disk) == old(Contents(frags, disk)) - {idterm}
      ensures Unnamed(frags, disk) == old(Unnamed(frags, disk))
    {
      hide Contents, Unnamed, SingleHome, Named;
      NamesOnDisk(frags, nextFragnum, disk);
      var home := FindHome(idterm);
      if home.Some? {
        DeleteChanges(frags, nextFragnum, disk, home.value, idterm);
        var d := disk[frags[home.value]];
        RemoveCount(d, idterm);
        disk := disk[frags[home.value] := d.(named := d.named - {idterm})];
      } else {
        ContentsNowhere(frags, disk, idterm);
        assert Contents(frags, disk) - {idterm} == Contents(frags, disk);
      }
    }

    method Perform(op: Operation) returns (ok: bool)
      requires Valid()
      modifies this
      ensures Valid() && Seen() == Apply(old(Seen()), op) && ok == !Refused(old(Seen()), op)
    {
      hide Contents, Unnamed, Named, SingleHome, Bounded;
      ok := true;
      match op
      case AddDoc(doc, idterm) => ok := AddDocument(doc, idterm);
      case DeleteDoc(idterm) => ok := DeleteDocument(idterm);
      case OpenToWrite => OpenWritable();
      case OpenToRead => ok := OpenReadonly();
      case Close => Shut();
    }

    /** Whatever the run, the group behaves as one map. */
    method PerformAll(ops: seq<Operation>)
      requires Valid()
      modifies this
      ensures Valid() && Seen() == ApplyAll(old(Seen()), ops)
    {
      hide Contents, Unnamed, Named, SingleHome, Bounded, Apply;
      for i := 0 to |ops|
        invariant Valid() && Seen() == ApplyAll(old(Seen()), ops[..i])
      {
        var _ := Perform(ops[i]);
        assert ops[..i + 1][..i] == ops[..i];
      }
      assert ops[..|ops|] == ops;
    }
  }

  lemma RemoveCount(d: Data, t: string)
    ensures DocCount(d.(named := d.named - {t})) <= DocCount(d)
  {
    assert (d.named - {t}).Keys == d.named.Keys - {t};
    assert |d.named - {t}| == |(d.named - {t}).Keys| && |d.named| == |d.named.Keys|;
  }

  lemma PutCount(d: Data, t: string, doc: Doc)
    ensures DocCount(d.(named := d.named[t := doc])) == DocCount(d) + if t in d.named then 0 else 1
  {
    if t in d.named {
      assert d.named[t := doc].Keys == d.named.Keys;
    } else {
      assert d.named[t := doc].Keys == d.named.Keys + {t};
    }
    assert |d.named[t := doc]| == |d.named[t := doc].Keys| && |d.named| == |d.named.Keys|;
  }
}
