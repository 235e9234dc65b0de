/**
 Mappings of JSON documents: map entries held in a trie, applied to a document by a
 single walk with an explicit stack of trie nodes.
 */
module Mappings {
  import opened Options
  import opened JsonValues
  import opened JsonWalk

  type Path = seq<Component>

  datatype Target = Target(field: string, categoriser: string)

  /** A map entry, in the order of registration. */
  datatype Entry = Entry(from: Path, target: Target)

  /** A node of the trie. */
  datatype Actions = Actions(children: map<Component, Actions>, targets: seq<Target>)

  const NOTHING := Actions(map[], [])

  // ------------------------------------------------------------- the trie

  /** Finds the node for a path, creating it if need be, and adds a target to it. */
  function Insert(a: Actions, path: Path, t: Target): Actions
    requires path != []
    decreases |path|
  {
    var c := path[0];
    var child := if c in a.children then a.children[c] else NOTHING;
    var grown := if |path| == 1 then child.(targets := child.targets + [t]) else Insert(child, path[1..], t);
    a.(children := a.children[c := grown])
  }

  function Sub(node: Option<Actions>, c: Component): Option<Actions> {
    if node.Some? && c in node.value.children then Some(node.value.children[c]) else None
  }

  function TargetsAt(node: Option<Actions>): seq<Target> {
    if node.Some? then node.value.targets else []
  }

  ghost function NodeAt(node: Option<Actions>, path: Path): Option<Actions>
    decreases |path|
  {
    if path == [] then node else NodeAt(Sub(node, path[0]), path[1..])
  }

  /** The targets registered for a path, in order of registration. */
  ghost function TargetsFor(entries: seq<Entry>, path: Path): seq<Target>
    decreases |entries|
  {
    if entries == [] then []
    else
      var last := entries[|entries| - 1];
      TargetsFor(entries[..|entries| - 1], path) + if last.from == path then [last.target] else []
  }

  ghost predicate Holds(a: Actions, entries: seq<Entry>) {
    forall path :: TargetsAt(NodeAt(Some(a), path)) == TargetsFor(entries, path)
  }

  lemma {:induction false} NodeAtNothing(path: Path)
    ensures TargetsAt(NodeAt(None, path)) == [] && TargetsAt(NodeAt(Some(NOTHING), path)) == []
    decreases |path|
  {
    if path != [] {
      NodeAtNothing(path[1..]);
    }
  }

  lemma {:induction false} InsertAt(a: Actions, path: Path, t: Target, q: Path)
    requires path != []
    ensures TargetsAt(NodeAt(Some(Insert(a, path, t)), q)) ==
            TargetsAt(NodeAt(Some(a), q)) + if q == path then [t] else []
    decreases |path|
  {
    if q != [] && q[0] == path[0] {
      var child := if path[0] in a.children then a.children[path[0]] else NOTHING;
      NodeAtNothing(q[1..]);
      if |path| == 1 {
        assert q[1..] == [] <==> q == path;
        if q[1..] != [] {
          assert NodeAt(Some(child.(targets := child.targets + [t])), q[1..]) == NodeAt(Some(child), q[1..]);
        }
      } else {
        InsertAt(child, path[1..], t, q[1..]);
        assert q == path <==> q[1..] == path[1..];
      }
    }
  }

  // -------------------------------------------- what a mapping should produce

  /** The categorisers of a collection; none where the source throws. */
  type Categorise = (string, string) -> Option<Json>

  /** A value due to be appended to a field; none if its categoriser does not exist. */
  datatype Append = Append(field: string, value: Option<Json>)

  ghost function Text(items: seq<Json>): string
    decreases |items|
  {
    if items == [] then ""
    else Text(items[..|items| - 1]) + if items[|items| - 1].Str? then items[|items| - 1].s + " " else ""
  }

  /** The text handed to a categoriser: a string, or all strings of an array. */
  ghost function TextOf(v: Json): string {
    match v
    case Arr(items) => Text(items)
    case Str(s) => s
    case _ => ""
  }

  method CategoriserText(v: Json) returns (text: string)
    ensures text == TextOf(v)
  {
    text := "";
    if v.Arr? {
      for i := 0 to |v.items|
        invariant text == Text(v.items[..i])
      {
        assert v.items[..i + 1][..i] == v.items[..i];
        if v.items[i].Str? {
          text := text + v.items[i].s + " ";
        }
      }
      assert v.items[..|v.items|] == v.items;
    } else if v.Str? {
      text := v.s;
    }
  }

  ghost function TargetAppend(cat: Categorise, t: Target, v: Json): Append {
    if t.categoriser == "" then Append(t.field, Some(v))
    else Append(t.field, if TextOf(v) == "" then Some(Str("")) else cat(t.categoriser, TextOf(v)))
  }

  method ValueFor(cat: Categorise, t: Target, v: Json) returns (a: Append)
    ensures a == TargetAppend(cat, t, v)
  {
    if t.categoriser == "" {
      return Append(t.field, Some(v));
    }
    var text := CategoriserText(v);
    if text == "" {
      return Append(t.field, Some(Str("")));
    }
    return Append(t.field, cat(t.categoriser, text));
  }

  ghost function TargetAppends(cat: Categorise, ts: seq<Target>, v: Json): seq<Append> {
    seq(|ts|, i requires 0 <= i < |ts| => TargetAppend(cat, ts[i], v))
  }

  /** Everything mapped at or below the node reached by `path`, in pre-order. */
  ghost function Mapped(cat: Categorise, entries: seq<Entry>, path: Path, v: Json): seq<Append>
    decreases v, Count(v) + 1
  {
    TargetAppends(cat, TargetsFor(entries, path), v) + MappedFrom(cat, entries, path, v, 0)
  }

  ghost function MappedFrom(cat: Categorise, entries: seq<Entry>, path: Path, v: Json, i: nat): seq<Append>
    requires i <= Count(v)
    decreases v, Count(v) - i
  {
    if i == Count(v) then []
    else
      Mapped(cat, entries, path + [ChildComponent(v, i)], ChildValue(v, i))
      + MappedFrom(cat, entries, path, v, i + 1)
  }

  /** The appends due to one member of the document: what is mapped inside it, or else
      the member itself if unmapped members are preserved. */
  ghost function TopAppends(cat: Categorise, entries: seq<Entry>, preserve: bool, m: Member): seq<Append> {
    var mapped := Mapped(cat, entries, [Key(m.name)], m.value);
    if mapped == [] && preserve then [Append(m.name, Some(m.value))] else mapped
  }

  ghost function AllAppends(cat: Categorise, entries: seq<Entry>, preserve: bool, members: seq<Member>): seq<Append>
    decreases |members|
  {
    if members == [] then []
    else TopAppends(cat, entries, preserve, members[0]) + AllAppends(cat, entries, preserve, members[1..])
  }

  /** The fields of the output; each is an array. */
  type Output = map<string, seq<Json>>

  /** Appends a value, or all items of an array; an empty array empties the field. */
  ghost function AppendField(output: Output, key: string, value: Json): Output {
    var was := if key in output then output[key] else [];
    if !value.IsArray() then output[key := was + [value]]
    else if value.Items() == [] then output[key := []]
    else output[key := was + value.Items()]
  }

  method AppendTo(output: Output, key: string, value: Json) returns (out: Output)
    ensures out == AppendField(output, key, value)
  {
    var list := if key in output then output[key] else [];
    if value.Arr? && value.items != [] {
      ghost var was := list;
      for i := 0 to |value.items|
        invariant list == was + value.items[..i]
      {
        list := list + [value.items[i]];
      }
      assert value.items[..|value.items|] == value.items;
    } else if value.Arr? || value.Null? {
      list := [];
    } else {
      list := list + [value];
    }
    out := output[key := list];
  }

  ghost function AppendAll(output: Output, appends: seq<Append>): Option<Output>
    decreases |appends|
  {
    if appends == [] then Some(output)
    else if appends[0].value.None? then None
    else AppendAll(AppendField(output, appends[0].field, appends[0].value.value), appends[1..])
  }

  lemma {:induction false} AppendAllConcat(output: Output, a: seq<Append>, b: seq<Append>)
    ensures AppendAll(output, a + b) ==
            match AppendAll(output, a) case None => None case Some(o) => AppendAll(o, b)
    decreases |a|
  {
    if a == [] {
      assert a + b == b;
    } else {
      assert (a + b)[1..] == a[1..] + b;
      if a[0].value.Some? {
        AppendAllConcat(AppendField(output, a[0].field, a[0].value.value), a[1..], b);
      }
    }
  }

  // ------------------------------------------------- the fields of the output

  /** An array appends its items, null nothing, any other value itself. */
  ghost function Contribution(v: Json): seq<Json> {
    match v
    case Null => []
    case Arr(items) => items
    case _ => [v]
  }

  /** What the appends to a field contribute, in order. */
  ghost function Joined(field: string, appends: seq<Append>): seq<Json>
    decreases |appends|
  {
    if appends == [] then []
    else
      (if appends[0].field == field && appends[0].value.Some? then Contribution(appends[0].value.value) else [])
      + Joined(field, appends[1..])
  }

  /** An empty array, or null, appended to a field empties it. */
  ghost predicate Empties(a: Append, field: string) {
    a.field == field && (a.value == Some(Arr([])) || a.value == Some(Null))
  }

  /** Number `k` is the first append after the last one that emptied the field. */
  ghost predicate StartsAt(appends: seq<Append>, field: string, k: nat) {
    && k <= |appends|
    && (k > 0 ==> Empties(appends[k - 1], field))
    && forall i :: k <= i < |appends| ==> !Empties(appends[i], field)
  }

  ghost predicate FieldIs(appends: seq<Append>, output: Output, field: string) {
    && (field in output <==> exists i :: 0 <= i < |appends| && appends[i].field == field)
    && exists k: nat :: StartsAt(appends, field, k)
         && (if field in output then output[field] else []) == Joined(field, appends[k..])
  }

  lemma {:induction false} JoinedMore(field: string, appends: seq<Append>, a: Append)
    ensures Joined(field, appends + [a]) == Joined(field, appends) +
              if a.field == field && a.value.Some? then Contribution(a.value.value) else []
    decreases |appends|
  {
    if appends == [] {
      assert (appends + [a])[1..] == [];
    } else {
      hide Contribution;
      assert (appends + [a])[1..] == appends[1..] + [a];
      JoinedMore(field, appends[1..], a);
    }
  }

  lemma AppendFieldAt(output: Output, a: Append, field: string)
    requires a.value.Some?
    ensures var now := AppendField(output, a.field, a.value.value);
            && (field in now <==> field in output || field == a.field)
            && (if field in now then now[field] else []) ==
                 if Empties(a, field) then []
                 else (if field in output then output[field] else []) +
                      if a.field == field then Contribution(a.value.value) else []
  {
  }

  lemma StartsMore(appends: seq<Append>, a: Append, field: string, k: nat)
    requires StartsAt(appends, field, k) && !Empties(a, field)
    ensures StartsAt(appends + [a], field, k) && (appends + [a])[k..] == appends[k..] + [a]
  {
    hide Empties;
    assert forall i :: 0 <= i < |appends| ==> (appends + [a])[i] == appends[i];
  }

  lemma FieldAfter(appends: seq<Append>, output: Output, a: Append, field: string)
    requires FieldIs(appends, output, field) && a.value.Some?
    ensures FieldIs(appends + [a], AppendField(output, a.field, a.value.value), field)
  {
    hide AppendField, Contribution, Empties, Joined;
    AppendFieldAt(output, a, field);
    var more := appends + [a];
    assert more[|appends|] == a && forall i :: 0 <= i < |appends| ==> more[i] == appends[i];
    if Empties(a, field) {
      assert StartsAt(more, field, |more|) && more[|more|..] == [];
      JoinedNone(field);
    } else {
      var k: nat :| StartsAt(appends, field, k)
                    && (if field in output then output[field] else []) == Joined(field, appends[k..]);
      StartsMore(appends, a, field, k);
      hide StartsAt;
      JoinedMore(field, appends[k..], a);
    }
  }

  lemma NothingAppended(field: string)
    ensures FieldIs([], map[], field)
  {
    assert StartsAt([], field, 0);
    assert Joined(field, [][0..]) == [];
  }

  lemma JoinedNone(field: string)
    ensures Joined(field, []) == []
  {
  }

  /** Each field holds what the appends to it contribute since it was last emptied. */
  lemma {:induction false} AppendAllFields(appends: seq<Append>)
    ensures AppendAll(map[], appends).Some? <==> forall i :: 0 <= i < |appends| ==> appends[i].value.Some?
    ensures AppendAll(map[], appends).Some? ==>
              forall field :: FieldIs(appends, AppendAll(map[], appends).value, field)
    decreases |appends|
  {
    if appends == [] {
      forall field
        ensures FieldIs(appends, map[], field)
      {
        NothingAppended(field);
      }
    } else {
      var before, a := appends[..|appends| - 1], appends[|appends| - 1];
      assert appends == before + [a];
      AppendAllFields(before);
      AppendAllConcat(map[], before, [a]);
      AppendOne(a);
      hide AppendAll, AppendField, FieldIs;
      assert forall i :: 0 <= i < |before| ==> appends[i] == before[i];
      if AppendAll(map[], appends).Some? {
        forall field
          ensures FieldIs(appends, AppendAll(map[], appends).value, field)
        {
          FieldAfter(before, AppendAll(map[], before).value, a, field);
        }
      }
    }
  }

  lemma AppendOne(a: Append)
    ensures forall o :: AppendAll(o, [a]) ==
              if a.value.None? then None else Some(AppendField(o, a.field, a.value.value))
  {
    assert [a][1..] == [];
  }

  // --------------------------------------------------------- which appends are due

  /** The path leads from the one value to the other. */
  ghost predicate Leads(v: Json, path: Path, w: Json)
    decreases |path|
  {
    if path == [] then v == w
    else
      match path[0]
      case Key(k) => v.Obj? && exists m :: m in v.members && m.name == k && Leads(m.value, path[1..], w)
      case Index(n) => v.Arr? && n < |v.items| && Leads(v.items[n], path[1..], w)
  }

  ghost predicate Due(cat: Categorise, entries: seq<Entry>, path: Path, v: Json, a: Append) {
    exists e, q, w :: e in entries && e.from == path + q && Leads(v, q, w) && a == TargetAppend(cat, e.target, w)
  }

  ghost predicate DueFrom(cat: Categorise, entries: seq<Entry>, path: Path, v: Json, i: nat, a: Append) {
    exists j :: i <= j < Count(v) && Due(cat, entries, path + [ChildComponent(v, j)], ChildValue(v, j), a)
  }

  lemma {:induction false} TargetsForAre(entries: seq<Entry>, path: Path)
    ensures forall t :: t in TargetsFor(entries, path) <==> Entry(path, t) in entries
    decreases |entries|
  {
    if entries != [] {
      var before, last := entries[..|entries| - 1], entries[|entries| - 1];
      TargetsForAre(before, path);
      assert entries == before + [last];
    }
  }

  lemma LeadsOn(v: Json, c: Component, q: Path, w: Json)
    ensures Leads(v, [c] + q, w) <==>
              exists j :: 0 <= j < Count(v) && ChildComponent(v, j) == c && Leads(ChildValue(v, j), q, w)
  {
    assert ([c] + q)[0] == c && ([c] + q)[1..] == q;
    if Leads(v, [c] + q, w) {
      var j: nat;
      if c.Key? {
        var m :| m in v.members && m.name == c.key && Leads(m.value, q, w);
        j :| j < |v.members| && v.members[j] == m;
      } else {
        j := c.index;
      }
      assert ChildComponent(v, j) == c && Leads(ChildValue(v, j), q, w);
    }
    if j :| 0 <= j < Count(v) && ChildComponent(v, j) == c && Leads(ChildValue(v, j), q, w) {
      assert v.Obj? ==> v.members[j] in v.members;
    }
  }

  lemma DueHere(cat: Categorise, entries: seq<Entry>, path: Path, v: Json, e: Entry)
    requires e in entries && e.from == path
    ensures Due(cat, entries, path, v, TargetAppend(cat, e.target, v))
  {
    assert e.from == path + [] && Leads(v, [], v);
  }

  lemma DueBelow(cat: Categorise, entries: seq<Entry>, path: Path, v: Json, j: nat, a: Append)
    requires j < Count(v) && Due(cat, entries, path + [ChildComponent(v, j)], ChildValue(v, j), a)
    ensures Due(cat, entries, path, v, a)
  {
    hide TargetAppend, Count, ChildComponent, ChildValue;
    var c := ChildComponent(v, j);
    var e, q, w :| e in entries && e.from == path + [c] + q
                   && Leads(ChildValue(v, j), q, w) && a == TargetAppend(cat, e.target, w);
    LeadsOn(v, c, q, w);
    assert path + [c] + q == path + ([c] + q);
  }

  lemma DueDown(cat: Categorise, entries: seq<Entry>, path: Path, v: Json, e: Entry, q: Path, w: Json)
    requires e in entries && e.from == path + q && q != [] && Leads(v, q, w)
    ensures DueFrom(cat, entries, path, v, 0, TargetAppend(cat, e.target, w))
  {
    hide TargetAppend, Count, ChildComponent, ChildValue;
    assert q == [q[0]] + q[1..];
    LeadsOn(v, q[0], q[1..], w);
    var j: nat :| j < Count(v) && ChildComponent(v, j) == q[0] && Leads(ChildValue(v, j), q[1..], w);
    assert path + q == path + [ChildComponent(v, j)] + q[1..];
    assert Due(cat, entries, path + [ChildComponent(v, j)], ChildValue(v, j), TargetAppend(cat, e.target, w));
  }

  /** Due at the node itself, or below one of its children. */
  lemma DueSplit(cat: Categorise, entries: seq<Entry>, path: Path, v: Json, a: Append)
    ensures Due(cat, entries, path, v, a) <==>
              || (exists e :: e in entries && e.from == path && a == TargetAppend(cat, e.target, v))
              || DueFrom(cat, entries, path, v, 0, a)
  {
    hide TargetAppend, Count, ChildComponent, ChildValue;
    if Due(cat, entries, path, v, a) {
      var e, q, w :| e in entries && e.from == path + q && Leads(v, q, w) && a == TargetAppend(cat, e.target, w);
      if q == [] {
        assert e.from == path;
      } else {
        DueDown(cat, entries, path, v, e, q, w);
      }
    }
    hide Due;
    if e :| e in entries && e.from == path && a == TargetAppend(cat, e.target, v) {
      DueHere(cat, entries, path, v, e);
    }
    if DueFrom(cat, entries, path, v, 0, a) {
      var j: nat :| j < Count(v) && Due(cat, entries, path + [ChildComponent(v, j)], ChildValue(v, j), a);
      DueBelow(cat, entries, path, v, j, a);
    }
  }

  lemma TargetAppendsAre(cat: Categorise, entries: seq<Entry>, path: Path, v: Json, a: Append)
    ensures a in TargetAppends(cat, TargetsFor(entries, path), v) <==>
              exists e :: e in entries && e.from == path && a == TargetAppend(cat, e.target, v)
  {
    hide TargetAppend, TargetsFor;
    TargetsForAre(entries, path);
    var ts := TargetsFor(entries, path);
    var got := TargetAppends(cat, ts, v);
    if a in got {
      var i :| 0 <= i < |got| && got[i] == a;
      assert ts[i] in ts;
    }
    if e :| e in entries && e.from == path && a == TargetAppend(cat, e.target, v) {
      assert e == Entry(path, e.target);
      var i :| 0 <= i < |ts| && ts[i] == e.target;
      assert got[i] == a;
    }
  }

  /** What is mapped at or below a node is what some entry, leading there, calls for. */
  lemma {:induction false} MappedIsDue(cat: Categorise, entries: seq<Entry>, path: Path, v: Json, a: Append)
    ensures a in Mapped(cat, entries, path, v) <==> Due(cat, entries, path, v, a)
    decreases v, Count(v) + 1
  {
    MappedFromIsDue(cat, entries, path, v, 0, a);
    DueSplit(cat, entries, path, v, a);
    TargetAppendsAre(cat, entries, path, v, a);
  }

  lemma {:induction false} MappedFromIsDue(cat: Categorise, entries: seq<Entry>, path: Path, v: Json, i: nat,
                                           a: Append)
    requires i <= Count(v)
    ensures a in MappedFrom(cat, entries, path, v, i) <==> DueFrom(cat, entries, path, v, i, a)
    decreases v, Count(v) - i
  {
    hide Mapped, Due, ChildComponent, ChildValue;
    if i < Count(v) {
      MappedIsDue(cat, entries, path + [ChildComponent(v, i)], ChildValue(v, i), a);
      MappedFromIsDue(cat, entries, path, v, i + 1, a);
    }
  }

  /** No entry leads to the member or into it. */
  ghost predicate Unmapped(entries: seq<Entry>, m: Member) {
    forall e, q, w :: e in entries && e.from == [Key(m.name)] + q ==> !Leads(m.value, q, w)
  }

  lemma TopAppendsAre(cat: Categorise, entries: seq<Entry>, preserve: bool, m: Member, a: Append)
    ensures a in TopAppends(cat, entries, preserve, m) <==>
              || Due(cat, entries, [Key(m.name)], m.value, a)
              || (preserve && Unmapped(entries, m) && a == Append(m.name, Some(m.value)))
  {
    hide Mapped, Leads, TargetAppend;
    var mapped := Mapped(cat, entries, [Key(m.name)], m.value);
    forall b
      ensures b in mapped <==> Due(cat, entries, [Key(m.name)], m.value, b)
    {
      MappedIsDue(cat, entries, [Key(m.name)], m.value, b);
    }
    if mapped == [] {
      forall e, q, w | e in entries && e.from == [Key(m.name)] + q
        ensures !Leads(m.value, q, w)
      {
        assert TargetAppend(cat, e.target, w) !in mapped;
      }
    } else {
      assert mapped[0] in mapped;
    }
  }

  /** The appends due are exactly those that the entries call for, at the values their
      paths lead to, and the members into which no entry leads. */
  lemma {:induction false} AppendsExact(cat: Categorise, entries: seq<Entry>, preserve: bool, members: seq<Member>,
                                        a: Append)
    ensures a in AllAppends(cat, entries, preserve, members) <==>
              || (exists e, m, q, w :: e in entries && m in members && e.from == [Key(m.name)] + q
                    && Leads(m.value, q, w) && a == TargetAppend(cat, e.target, w))
              || (preserve && exists m :: m in members && Unmapped(entries, m) && a == Append(m.name, Some(m.value)))
    decreases |members|
  {
    hide TopAppends, TargetAppend, Leads, Unmapped;
    if members != [] {
      TopAppendsAre(cat, entries, preserve, members[0], a);
      AppendsExact(cat, entries, preserve, members[1..], a);
      assert members == [members[0]] + members[1..];
      assert forall m :: m in members <==> m == members[0] || m in members[1..];
    }
  }

  // ---------------------------------------------- the same, along the trie

  ghost function TrieMapped(cat: Categorise, node: Option<Actions>, v: Json): seq<Append>
    decreases v, Count(v) + 1
  {
    TargetAppends(cat, TargetsAt(node), v) + TrieMappedFrom(cat, node, v, 0)
  }

  ghost function TrieMappedFrom(cat: Categorise, node: Option<Actions>, v: Json, i: nat): seq<Append>
    requires i <= Count(v)
    decreases v, Count(v) - i
  {
    if i == Count(v) then []
    else TrieMapped(cat, Sub(node, ChildComponent(v, i)), ChildValue(v, i)) + TrieMappedFrom(cat, node, v, i + 1)
  }

  lemma {:induction false} NodeAtMore(node: Option<Actions>, path: Path, c: Component)
    ensures NodeAt(node, path + [c]) == Sub(NodeAt(node, path), c)
    decreases |path|
  {
    if path == [] {
      assert (path + [c])[1..] == [];
    } else {
      assert (path + [c])[1..] == path[1..] + [c];
      NodeAtMore(Sub(node, path[0]), path[1..], c);
    }
  }

  lemma {:induction false} TrieMappedIsMapped(cat: Categorise, a: Actions, entries: seq<Entry>, path: Path, v: Json)
    requires Holds(a, entries)
    ensures TrieMapped(cat, NodeAt(Some(a), path), v) == Mapped(cat, entries, path, v)
    decreases v, Count(v) + 1
  {
    TrieMappedFromIsMapped(cat, a, entries, path, v, 0);
  }

  lemma {:induction false} TrieMappedFromIsMapped(cat: Categorise, a: Actions, entries: seq<Entry>, path: Path,
                                                  v: Json, i: nat)
    requires Holds(a, entries) && i <= Count(v)
    ensures TrieMappedFrom(cat, NodeAt(Some(a), path), v, i) == MappedFrom(cat, entries, path, v, i)
    decreases v, Count(v) - i
  {
    if i < Count(v) {
      NodeAtMore(Some(a), path, ChildComponent(v, i));
      TrieMappedIsMapped(cat, a, entries, path + [ChildComponent(v, i)], ChildValue(v, i));
      TrieMappedFromIsMapped(cat, a, entries, path, v, i + 1);
    }
  }

  // -------------------------------------------- the walk, as a state machine

  /** The stack of trie nodes, whether the current member has been handled, and all
      appends so far. */
  datatype Walk = Walk(stack: seq<Option<Actions>>, handled: bool, appends: seq<Append>)

  ghost function Handled(cat: Categorise, w: Walk, e: Event): seq<Append> {
    if w.stack == [] then []
    else TargetAppends(cat, TargetsAt(Sub(w.stack[|w.stack| - 1], e.component)), e.value)
  }

  ghost function Default(preserve: bool, stack: seq<Option<Actions>>, e: Event): seq<Append> {
    if preserve && |stack| == 1 && e.component.Key? then [Append(e.component.key, Some(e.value))] else []
  }

  ghost function WalkEvent(cat: Categorise, a: Actions, preserve: bool, w: Walk, e: Event): Walk {
    match e.kind
    case Start =>
      var got := Handled(cat, w, e);
      Walk(w.stack + [if w.stack == [] then Some(a) else Sub(w.stack[|w.stack| - 1], e.component)],
           (w.handled && |w.stack| != 1) || got != [], w.appends + got)
    case Leaf =>
      var got := Handled(cat, w, e);
      var handled := (w.handled && |w.stack| != 1) || got != [];
      Walk(w.stack, handled, w.appends + got + if handled then [] else Default(preserve, w.stack, e))
    case End =>
      var stack := if w.stack == [] then [] else w.stack[..|w.stack| - 1];
      Walk(stack, w.handled, w.appends + if w.handled then [] else Default(preserve, stack, e))
  }

  ghost function WalkAll(cat: Categorise, a: Actions, preserve: bool, w: Walk, events: seq<Event>): Walk
    decreases |events|
  {
    if events == [] then w
    else WalkAll(cat, a, preserve, WalkEvent(cat, a, preserve, w, events[0]), events[1..])
  }

  lemma {:induction false} WalkConcat(cat: Categorise, a: Actions, preserve: bool, w: Walk, es: seq<Event>,
                                      fs: seq<Event>)
    ensures WalkAll(cat, a, preserve, w, es + fs) == WalkAll(cat, a, preserve, WalkAll(cat, a, preserve, w, es), fs)
    decreases |es|
  {
    if es == [] {
      assert es + fs == fs;
    } else {
      assert (es + fs)[1..] == es[1..] + fs;
      WalkConcat(cat, a, preserve, WalkEvent(cat, a, preserve, w, es[0]), es[1..], fs);
    }
  }

  ghost function Top(w: Walk): Option<Actions>
    requires w.stack != []
  {
    w.stack[|w.stack| - 1]
  }

  /** Below the top level, a node adds what is mapped at or below it and marks the
      member as handled if that is anything. */
  lemma {:induction false} WalkNested(cat: Categorise, a: Actions, preserve: bool, w: Walk, c: Component, v: Json)
    requires |w.stack| >= 2
    ensures var m := TrieMapped(cat, Sub(Top(w), c), v);
      WalkAll(cat, a, preserve, w, Events(c, v)) == Walk(w.stack, w.handled || m != [], w.appends + m)
    decreases v, Count(v) + 1
  {
    var node := Sub(Top(w), c);
    var got := TargetAppends(cat, TargetsAt(node), v);
    if IsContainer(v) {
      hide *;
      var w1 := Walk(w.stack + [node], w.handled || got != [], w.appends + got);
      StartNested(cat, a, preserve, w, c, v);
      WalkContainer(cat, a, preserve, w, c, v);
      WalkNestedFrom(cat, a, preserve, w1, v, 0);
      var rest := TrieMappedFrom(cat, node, v, 0);
      var w2 := Walk(w1.stack, w1.handled || rest != [], w1.appends + rest);
      EndNested(cat, a, preserve, w2, c, v);
      Regroup(w.stack, node, w.appends, got, rest);
    } else {
      hide WalkAll, WalkEvent, TargetAppends;
      LeafNested(cat, a, preserve, w, c, v);
      NothingBelow(cat, node, v);
      assert got + [] == got;
    }
  }

  lemma Regroup(stack: seq<Option<Actions>>, node: Option<Actions>, a: seq<Append>, b: seq<Append>, c: seq<Append>)
    ensures (stack + [node])[..|stack + [node]| - 1] == stack
    ensures a + b + c == a + (b + c)
    ensures b + c != [] <==> b != [] || c != []
  {
    assert b + c == [] ==> |b| + |c| == 0;
  }

  lemma StartNested(cat: Categorise, a: Actions, preserve: bool, w: Walk, c: Component, v: Json)
    requires |w.stack| >= 2
    ensures var node := Sub(Top(w), c); var got := TargetAppends(cat, TargetsAt(node), v);
            var w1 := Walk(w.stack + [node], w.handled || got != [], w.appends + got);
      && WalkEvent(cat, a, preserve, w, Event(Start, c, v)) == w1
      && Top(w1) == node
      && TrieMapped(cat, node, v) == got + TrieMappedFrom(cat, node, v, 0)
  {
    hide TargetAppends, TrieMappedFrom;
  }

  lemma EndNested(cat: Categorise, a: Actions, preserve: bool, w: Walk, c: Component, v: Json)
    requires |w.stack| >= 3
    ensures WalkEvent(cat, a, preserve, w, Event(End, c, v)) ==
            Walk(w.stack[..|w.stack| - 1], w.handled, w.appends)
  {
    assert w.appends + [] == w.appends;
  }

  lemma LeafNested(cat: Categorise, a: Actions, preserve: bool, w: Walk, c: Component, v: Json)
    requires |w.stack| >= 2 && !IsContainer(v)
    ensures var got := TargetAppends(cat, TargetsAt(Sub(Top(w), c)), v);
      WalkAll(cat, a, preserve, w, Events(c, v)) == Walk(w.stack, w.handled || got != [], w.appends + got)
  {
    hide TargetAppends;
    var got := TargetAppends(cat, TargetsAt(Sub(Top(w), c)), v);
    WalkOne(cat, a, preserve, w, Event(Leaf, c, v));
    assert w.appends + got + [] == w.appends + got;
  }

  lemma NothingBelow(cat: Categorise, node: Option<Actions>, v: Json)
    requires !IsContainer(v)
    ensures TrieMappedFrom(cat, node, v, 0) == []
  {
  }

  /** A container is its start, its children and its end. */
  lemma WalkContainer(cat: Categorise, a: Actions, preserve: bool, w: Walk, c: Component, v: Json)
    requires IsContainer(v)
    ensures var w1 := WalkEvent(cat, a, preserve, w, Event(Start, c, v));
            var w2 := WalkAll(cat, a, preserve, w1, EventsFrom(v, 0));
      WalkAll(cat, a, preserve, w, Events(c, v)) == WalkEvent(cat, a, preserve, w2, Event(End, c, v))
  {
    hide WalkAll, WalkEvent, EventsFrom;
    var s, e := Event(Start, c, v), Event(End, c, v);
    WalkConcat(cat, a, preserve, w, [s] + EventsFrom(v, 0), [e]);
    WalkConcat(cat, a, preserve, w, [s], EventsFrom(v, 0));
    WalkOne(cat, a, preserve, w, s);
    WalkOne(cat, a, preserve, WalkAll(cat, a, preserve, w, [s] + EventsFrom(v, 0)), e);
  }

  lemma {:induction false} WalkNestedFrom(cat: Categorise, a: Actions, preserve: bool, w: Walk, v: Json, i: nat)
    requires |w.stack| >= 2 && i <= Count(v)
    ensures var m := TrieMappedFrom(cat, Top(w), v, i);
      WalkAll(cat, a, preserve, w, EventsFrom(v, i)) == Walk(w.stack, w.handled || m != [], w.appends + m)
    decreases v, Count(v) - i
  {
    hide *;
    if i == Count(v) {
      FromEnd(cat, a, preserve, w, Top(w), v);
    } else {
      var c, u := ChildComponent(v, i), ChildValue(v, i);
      var m, rest := TrieMapped(cat, Sub(Top(w), c), u), TrieMappedFrom(cat, Top(w), v, i + 1);
      var w1 := Walk(w.stack, w.handled || m != [], w.appends + m);
      FromStep(cat, Top(w), v, i);
      WalkConcat(cat, a, preserve, w, Events(c, u), EventsFrom(v, i + 1));
      WalkNested(cat, a, preserve, w, c, u);
      SameTop(w, w1);
      WalkNestedFrom(cat, a, preserve, w1, v, i + 1);
      Regroup(w.stack, None, w.appends, m, rest);
    }
  }

  lemma SameTop(w: Walk, x: Walk)
    requires w.stack != [] && w.stack == x.stack
    ensures Top(w) == Top(x)
  {
  }

  lemma FromEnd(cat: Categorise, a: Actions, preserve: bool, w: Walk, node: Option<Actions>, v: Json)
    ensures TrieMappedFrom(cat, node, v, Count(v)) == []
    ensures WalkAll(cat, a, preserve, w, EventsFrom(v, Count(v))) == w
    ensures w.appends + [] == w.appends
  {
  }

  lemma FromStep(cat: Categorise, node: Option<Actions>, v: Json, i: nat)
    requires i < Count(v)
    ensures var c, u := ChildComponent(v, i), ChildValue(v, i);
      && EventsFrom(v, i) == Events(c, u) + EventsFrom(v, i + 1)
      && TrieMappedFrom(cat, node, v, i) == TrieMapped(cat, Sub(node, c), u) + TrieMappedFrom(cat, node, v, i + 1)
  {
  }

  lemma WalkOne(cat: Categorise, a: Actions, preserve: bool, w: Walk, e: Event)
    ensures WalkAll(cat, a, preserve, w, [e]) == WalkEvent(cat, a, preserve, w, e)
  {
    assert [e][1..] == [];
  }

  // ------------------------------------------------------------ top level

  ghost function TrieTop(cat: Categorise, a: Actions, preserve: bool, m: Member): seq<Append> {
    var mapped := TrieMapped(cat, Sub(Some(a), Key(m.name)), m.value);
    if mapped == [] && preserve then [Append(m.name, Some(m.value))] else mapped
  }

  /** A member of the document adds what is mapped inside it or, failing that, itself. */
  lemma WalkMember(cat: Categorise, a: Actions, preserve: bool, w: Walk, m: Member)
    requires w.stack == [Some(a)]
    ensures var w' := WalkAll(cat, a, preserve, w, Events(Key(m.name), m.value));
      w'.stack == w.stack && w'.appends == w.appends + TrieTop(cat, a, preserve, m)
  {
    hide *;
    var c, v := Key(m.name), m.value;
    var node := Sub(Some(a), c);
    var got := TargetAppends(cat, TargetsAt(node), v);
    if IsContainer(v) {
      StartMember(cat, a, preserve, w, m);
      WalkContainer(cat, a, preserve, w, c, v);
      var w1 := Walk(w.stack + [node], got != [], w.appends + got);
      WalkNestedFrom(cat, a, preserve, w1, v, 0);
      var rest := TrieMappedFrom(cat, node, v, 0);
      EndMember(cat, a, preserve, w, Walk(w1.stack, w1.handled || rest != [], w1.appends + rest), m, got, rest);
    } else {
      LeafMember(cat, a, preserve, w, m);
    }
  }

  lemma StartMember(cat: Categorise, a: Actions, preserve: bool, w: Walk, m: Member)
    requires w.stack == [Some(a)]
    ensures var node := Sub(Some(a), Key(m.name)); var got := TargetAppends(cat, TargetsAt(node), m.value);
            var w1 := Walk(w.stack + [node], got != [], w.appends + got);
      && WalkEvent(cat, a, preserve, w, Event(Start, Key(m.name), m.value)) == w1
      && Top(w1) == node
      && TrieMapped(cat, node, m.value) == got + TrieMappedFrom(cat, node, m.value, 0)
  {
    hide TargetAppends, TrieMappedFrom;
  }

  lemma EndMember(cat: Categorise, a: Actions, preserve: bool, w: Walk, w2: Walk, m: Member,
                  got: seq<Append>, rest: seq<Append>)
    requires w.stack == [Some(a)] && |w2.stack| == 2 && w2.stack[0] == Some(a)
    requires w2.handled <==> got != [] || rest != []
    requires w2.appends == w.appends + got + rest
    requires TrieMapped(cat, Sub(Some(a), Key(m.name)), m.value) == got + rest
    ensures var w' := WalkEvent(cat, a, preserve, w2, Event(End, Key(m.name), m.value));
      w'.stack == w.stack && w'.appends == w.appends + TrieTop(cat, a, preserve, m)
  {
    hide TrieMapped;
    Regroup([], None, w.appends, got, rest);
    assert w.appends + got + rest + [] == w.appends + (got + rest);
  }

  lemma LeafMember(cat: Categorise, a: Actions, preserve: bool, w: Walk, m: Member)
    requires w.stack == [Some(a)] && !IsContainer(m.value)
    ensures var w' := WalkAll(cat, a, preserve, w, Events(Key(m.name), m.value));
      w'.stack == w.stack && w'.appends == w.appends + TrieTop(cat, a, preserve, m)
  {
    hide TargetAppends;
    var node := Sub(Some(a), Key(m.name));
    var got := TargetAppends(cat, TargetsAt(node), m.value);
    WalkOne(cat, a, preserve, w, Event(Leaf, Key(m.name), m.value));
    NothingBelow(cat, node, m.value);
    assert got + [] == got && w.appends + got + [] == w.appends + got;
  }

  ghost function TrieAppends(cat: Categorise, a: Actions, preserve: bool, members: seq<Member>): seq<Append>
    decreases |members|
  {
    if members == [] then []
    else TrieTop(cat, a, preserve, members[0]) + TrieAppends(cat, a, preserve, members[1..])
  }

  lemma {:induction false} WalkMembers(cat: Categorise, a: Actions, preserve: bool, w: Walk, v: Json, i: nat)
    requires w.stack == [Some(a)] && v.Obj? && i <= |v.members|
    ensures var w' := WalkAll(cat, a, preserve, w, EventsFrom(v, i));
      w'.stack == w.stack && w'.appends == w.appends + TrieAppends(cat, a, preserve, v.members[i..])
    decreases |v.members| - i
  {
    if i < |v.members| {
      hide Events, WalkAll, TrieTop, WalkEvent;
      var m := v.members[i];
      WalkConcat(cat, a, preserve, w, Events(Key(m.name), m.value), EventsFrom(v, i + 1));
      WalkMember(cat, a, preserve, w, m);
      var w1 := WalkAll(cat, a, preserve, w, Events(Key(m.name), m.value));
      WalkMembers(cat, a, preserve, w1, v, i + 1);
      assert v.members[i..][1..] == v.members[i + 1..];
      Regroup([], None, w.appends, TrieTop(cat, a, preserve, m), TrieAppends(cat, a, preserve, v.members[i + 1..]));
    }
  }

  const BEFORE_WALK := Walk([], false, [])

  /** The whole walk: the root itself adds nothing. */
  lemma WalkRoot(cat: Categorise, a: Actions, preserve: bool, v: Json)
    requires v.IsObject()
    ensures WalkAll(cat, a, preserve, BEFORE_WALK, RootEvents(v)).appends == TrieAppends(cat, a, preserve, v.Members())
  {
    var s, e := Event(Start, Index(0), v), Event(End, Index(0), v);
    var w1 := Walk([Some(a)], false, []);
    WalkOne(cat, a, preserve, BEFORE_WALK, s);
    assert WalkEvent(cat, a, preserve, BEFORE_WALK, s) == w1;
    var w2 := WalkAll(cat, a, preserve, w1, EventsFrom(v, 0));
    WalkConcat(cat, a, preserve, BEFORE_WALK, [s] + EventsFrom(v, 0), [e]);
    WalkConcat(cat, a, preserve, BEFORE_WALK, [s], EventsFrom(v, 0));
    WalkOne(cat, a, preserve, w2, e);
    if v.Obj? {
      WalkMembers(cat, a, preserve, w1, v, 0);
      assert v.members[0..] == v.members;
    }
  }

  /** Along the trie or from the list of entries, the same appends are due. */
  lemma {:induction false} TrieAppendsAreAll(cat: Categorise, a: Actions, entries: seq<Entry>, preserve: bool,
                                             members: seq<Member>)
    requires Holds(a, entries)
    ensures TrieAppends(cat, a, preserve, members) == AllAppends(cat, entries, preserve, members)
    decreases |members|
  {
    if members != [] {
      var c := Key(members[0].name);
      assert NodeAt(Some(a), [c]) == Sub(Some(a), c) by {
        assert [c][1..] == [];
      }
      TrieMappedIsMapped(cat, a, entries, [c], members[0].value);
      TrieAppendsAreAll(cat, a, entries, preserve, members[1..]);
    }
  }

  lemma {:induction false} WalkGrows(cat: Categorise, a: Actions, preserve: bool, w: Walk, events: seq<Event>)
    ensures w.appends <= WalkAll(cat, a, preserve, w, events).appends
    decreases |events|
  {
    if events != [] {
      var w1 := WalkEvent(cat, a, preserve, w, events[0]);
      assert w.appends <= w1.appends;
      WalkGrows(cat, a, preserve, w1, events[1..]);
    }
  }

  lemma AppendAllFails(output: Output, a: seq<Append>, b: seq<Append>)
    requires a <= b && AppendAll(output, a).None?
    ensures AppendAll(output, b).None?
  {
    assert b == a + b[|a|..];
    AppendAllConcat(output, a, b[|a|..]);
  }

  // ----------------------------------------------- reading a configuration

  function Lookup(members: seq<Member>, name: string): Json
    decreases |members|
  {
    if members == [] then Null
    else if members[0].name == name then members[0].value
    else Lookup(members[1..], name)
  }

  /** Indices are 32-bit unsigned integers. */
  function ParseComponent(j: Json): Option<Component> {
    match j
    case Str(s) => Some(Key(s))
    case Number(n) => if 0 <= n < 0x1_0000_0000 then Some(Index(n)) else None
    case _ => None
  }

  function ParseComponents(items: seq<Json>): Option<Path>
    decreases |items|
  {
    if items == [] then Some([])
    else
      match (ParseComponent(items[0]), ParseComponents(items[1..]))
      case (Some(c), Some(rest)) => Some([c] + rest)
      case _ => None
  }

  /** A path is a single component or a non-empty array of them. */
  function ParsePath(j: Json): (p: Option<Path>)
    ensures p.Some? ==> p.value != []
  {
    if j.IsArray() then (if j.Items() == [] then None else ParseComponents(j.Items()))
    else ParseComponents([j])
  }

  function ParseEntry(j: Json): (e: Option<Entry>)
    ensures e.Some? ==> e.value.from != []
  {
    if !j.IsObject() then None
    else
      var path, to := ParsePath(Lookup(j.Members(), "from")), Lookup(j.Members(), "to");
      var cat := Lookup(j.Members(), "categoriser");
      if path.Some? && to.Str? && (cat.Null? || cat.Str?)
      then Some(Entry(path.value, Target(to.s, if cat.Str? then cat.s else "")))
      else None
  }

  function ParseEntries(items: seq<Json>): Option<seq<Entry>>
    decreases |items|
  {
    if items == [] then Some([])
    else
      match (ParseEntries(items[..|items| - 1]), ParseEntry(items[|items| - 1]))
      case (Some(rest), Some(e)) => Some(rest + [e])
      case _ => None
  }

  /** Whether unmapped members are preserved. */
  function ParseDefault(j: Json): Option<bool> {
    if j == Null || j == Str("preserve_top") then Some(true)
    else if j == Str("discard") then Some(false)
    else None
  }

  // --------------------------------------------- what a configuration says

  /** The value of the first member of that name; null if there is none. */
  ghost predicate IsMember(members: seq<Member>, name: string, v: Json) {
    || (v == Null && forall m :: m in members ==> m.name != name)
    || exists i :: 0 <= i < |members| && members[i] == Member(name, v)
         && forall k :: 0 <= k < i ==> members[k].name != name
  }

  lemma {:induction false} LookupIs(members: seq<Member>, name: string)
    ensures IsMember(members, name, Lookup(members, name))
    decreases |members|
  {
    if members != [] {
      if members[0].name == name {
        assert members[0] == Member(name, members[0].value);
      } else {
        var rest := members[1..];
        LookupIs(rest, name);
        if i :| 0 <= i < |rest| && rest[i] == Member(name, Lookup(rest, name))
                && forall k :: 0 <= k < i ==> rest[k].name != name {
          assert members[i + 1] == rest[i];
          assert forall k :: 0 < k < i + 1 ==> members[k] == rest[k - 1];
        } else {
          assert forall m :: m in members ==> m == members[0] || m in rest;
        }
      }
    }
  }

  ghost predicate IsComponent(j: Json, c: Component) {
    match c
    case Key(s) => j == Str(s)
    case Index(n) => j == Number(n) && n <= 0xffff_ffff
  }

  ghost predicate IsPath(j: Json, p: Path) {
    match j
    case Arr(items) => items != [] && |p| == |items| && forall k :: 0 <= k < |p| ==> IsComponent(items[k], p[k])
    case _ => |p| == 1 && IsComponent(j, p[0])
  }

  /** The definition of an entry: where from, where to and by which categoriser, if any. */
  ghost predicate IsEntry(j: Json, e: Entry) {
    && (j.Obj? || j.Null?)
    && (exists from :: IsMember(j.Members(), "from", from) && IsPath(from, e.from))
    && IsMember(j.Members(), "to", Str(e.target.field))
    && (|| IsMember(j.Members(), "categoriser", Str(e.target.categoriser))
        || (e.target.categoriser == "" && IsMember(j.Members(), "categoriser", Null)))
  }

  lemma MemberUnique(members: seq<Member>, name: string, v: Json)
    ensures IsMember(members, name, v) <==> v == Lookup(members, name)
  {
    LookupIs(members, name);
  }

  lemma ComponentIs(j: Json, c: Component)
    ensures IsComponent(j, c) <==> ParseComponent(j) == Some(c)
  {
  }

  lemma {:induction false} ComponentsAre(items: seq<Json>, p: Path)
    ensures ParseComponents(items) == Some(p) <==>
              |p| == |items| && forall k :: 0 <= k < |p| ==> IsComponent(items[k], p[k])
    decreases |items|
  {
    if items == [] {
      assert |p| == 0 ==> p == [];
    } else {
      hide IsComponent, ParseComponent;
      if p != [] {
        ComponentIs(items[0], p[0]);
        ComponentsAre(items[1..], p[1..]);
        assert p == [p[0]] + p[1..];
        assert forall k :: 1 <= k < |p| && k < |items| ==> items[k] == items[1..][k - 1] && p[k] == p[1..][k - 1];
      }
    }
  }

  lemma PathIs(j: Json, p: Path)
    ensures IsPath(j, p) <==> ParsePath(j) == Some(p)
  {
    hide IsComponent, ParseComponents;
    if j.Arr? {
      ComponentsAre(j.items, p);
    } else {
      ComponentsAre([j], p);
    }
    if j == Null && p != [] {
      ComponentIs(j, p[0]);
    }
  }

  /** Reading a definition gives the entry it defines, if it defines one. */
  lemma EntryIs(j: Json, e: Entry)
    ensures IsEntry(j, e) <==> ParseEntry(j) == Some(e)
  {
    hide IsMember, IsPath, Lookup, ParsePath;
    if j.Obj? || j.Null? {
      var ms := j.Members();
      MemberUnique(ms, "to", Str(e.target.field));
      MemberUnique(ms, "categoriser", Str(e.target.categoriser));
      MemberUnique(ms, "categoriser", Null);
      forall from
        ensures IsMember(ms, "from", from) <==> from == Lookup(ms, "from")
      {
        MemberUnique(ms, "from", from);
      }
      PathIs(Lookup(ms, "from"), e.from);
    }
  }

  lemma {:induction false} EntriesAre(items: seq<Json>, es: seq<Entry>)
    ensures ParseEntries(items) == Some(es) <==>
              |es| == |items| && forall i :: 0 <= i < |es| ==> IsEntry(items[i], es[i])
    decreases |items|
  {
    hide IsEntry, ParseEntry;
    if items == [] {
      assert |es| == 0 ==> es == [];
    } else if es != [] {
      var k, n := |items| - 1, |es| - 1;
      EntriesAre(items[..k], es[..n]);
      EntryIs(items[k], es[n]);
      assert es == es[..n] + [es[n]];
      assert forall i :: 0 <= i < k && i < n ==> items[..k][i] == items[i] && es[..n][i] == es[i];
    }
  }

  /** The configuration lists these entries, and says whether unmapped members are preserved. */
  ghost predicate Describes(value: Json, es: seq<Entry>, preserve: bool) {
    && (value.Obj? || value.Null?)
    && (exists listed :: IsMember(value.Members(), "map", listed) && Lists(listed, es))
    && if preserve
       then IsMember(value.Members(), "default", Null) || IsMember(value.Members(), "default", Str("preserve_top"))
       else IsMember(value.Members(), "default", Str("discard"))
  }

  ghost predicate Lists(listed: Json, es: seq<Entry>) {
    match listed
    case Null => es == []
    case Arr(items) => |es| == |items| && forall i :: 0 <= i < |es| ==> IsEntry(items[i], es[i])
    case _ => false
  }

  lemma DescribesIs(value: Json, es: seq<Entry>, preserve: bool)
    ensures Describes(value, es, preserve) <==>
              && value.IsObject()
              && Lookup(value.Members(), "map").IsArray()
              && ParseEntries(Lookup(value.Members(), "map").Items()) == Some(es)
              && ParseDefault(Lookup(value.Members(), "default")) == Some(preserve)
  {
    hide IsMember, IsEntry, Lookup, ParseEntries;
    if value.Obj? || value.Null? {
      var ms := value.Members();
      forall name, v
        ensures IsMember(ms, name, v) <==> v == Lookup(ms, name)
      {
        MemberUnique(ms, name, v);
      }
      var listed := Lookup(ms, "map");
      assert IsMember(ms, "map", listed);
      assert (exists l :: IsMember(ms, "map", l) && Lists(l, es)) <==> Lists(listed, es);
      if listed.Arr? || listed.Null? {
        EntriesAre(listed.Items(), es);
      }
    }
  }

  datatype Result = Failed | NotApplied | Produced(output: Output)

  class Mapping {
    var mappings: Actions
    var preserve: bool
    const when: Json -> bool
    ghost var entries: seq<Entry>

    ghost predicate Valid()
      reads this
    {
      Holds(mappings, entries)
    }

    constructor (when: Json -> bool)
      ensures Valid() && entries == [] && preserve && this.when == when
    {
      mappings, preserve, entries := NOTHING, true, [];
      this.when := when;
      new;
      NothingHolds();
    }

    /** Reads the map entries and the default action; not ok where the source throws. */
    method FromJson(value: Json) returns (ok: bool)
      modifies this
      ensures Valid()
      ensures ok ==> Describes(value, entries, preserve)
      ensures !ok ==> forall es, p :: !Describes(value, es, p)
      ensures ok <==>
        && value.IsObject()
        && Lookup(value.Members(), "map").IsArray()
        && ParseEntries(Lookup(value.Members(), "map").Items()).Some?
        && ParseDefault(Lookup(value.Members(), "default")).Some?
      ensures ok ==>
        && Some(entries) == ParseEntries(Lookup(value.Members(), "map").Items())
        && Some(preserve) == ParseDefault(Lookup(value.Members(), "default"))
    {
      hide Describes;
      forall es, p
        ensures Describes(value, es, p) <==>
                  && value.IsObject()
                  && Lookup(value.Members(), "map").IsArray()
                  && ParseEntries(Lookup(value.Members(), "map").Items()) == Some(es)
                  && ParseDefault(Lookup(value.Members(), "default")) == Some(p)
      {
        DescribesIs(value, es, p);
      }
      mappings, entries := NOTHING, [];
      NothingHolds();
      if !value.IsObject() {
        return false;
      }
      var mapval := Lookup(value.Members(), "map");
      if !mapval.IsArray() {
        return false;
      }
      var items := mapval.Items();
      for i := 0 to |items|
        invariant Valid() && ParseEntries(items[..i]) == Some(entries)
      {
        assert items[..i + 1][..i] == items[..i];
        var e := ParseEntry(items[i]);
        if e.None? {
          ParseEntriesFails(items, i);
          return false;
        }
        HoldsMore(mappings, entries, e.value);
        mappings := Insert(mappings, e.value.from, e.value.target);
        entries := entries + [e.value];
      }
      assert items[..|items|] == items;
      match ParseDefault(Lookup(value.Members(), "default"))
      case None => return false;
      case Some(p) =>
        preserve := p;
        return true;
    }

    /** Appends what the map entries for the node of an event call for. */
    method Handle(cat: Categorise, stack: seq<Option<Actions>>, event: Event, output: Output)
      returns (ok: bool, handled: bool, out: Output)
      ensures var got := Handled(cat, Walk(stack, false, []), event);
        && (handled <==> got != []) && AppendAll(output, got) == if ok then Some(out) else None
    {
      ok, handled, out := true, false, output;
      if stack == [] {
        return;
      }
      var targets := TargetsAt(Sub(stack[|stack| - 1], event.component));
      ghost var got := TargetAppends(cat, targets, event.value);
      for i := 0 to |targets|
        invariant ok && (handled <==> i > 0) && AppendAll(output, got[..i]) == Some(out)
      {
        var append := ValueFor(cat, targets[i], event.value);
        assert got[i] == append && got[..i + 1] == got[..i] + [append];
        AppendAllConcat(output, got[..i], [append]);
        handled := true;
        if append.value.None? {
          assert got == got[..i + 1] + got[i + 1..];
          AppendAllConcat(output, got[..i + 1], got[i + 1..]);
          ok := false;
          return;
        }
        out := AppendTo(out, append.field, append.value.value);
        assert AppendAll(output, got[..i + 1]) == Some(out) by {
          assert [append][1..] == [];
        }
      }
      assert got[..|targets|] == got;
    }

    method HandleDefault(stack: seq<Option<Actions>>, event: Event, output: Output) returns (out: Output)
      ensures AppendAll(output, Default(preserve, stack, event)) == Some(out)
    {
      out := output;
      if preserve && |stack| == 1 && event.component.Key? {
        out := AppendTo(output, event.component.key, event.value);
        assert [Append(event.component.key, Some(event.value))][1..] == [];
      }
    }

    /** Applies the mapping in one walk over the document. */
    method Apply(cat: Categorise, input: Json) returns (r: Result)
      requires Valid()
      ensures r.NotApplied? <==> (input.Obj? || input.Null?) && !when(input)
      ensures r.Produced? <==>
                && (input.Obj? || input.Null?) && when(input)
                && forall a :: a in AllAppends(cat, entries, preserve, input.Members()) ==> a.value.Some?
      ensures r.Produced? ==>
                forall field :: FieldIs(AllAppends(cat, entries, preserve, input.Members()), r.output, field)
      ensures r == Expected(cat, when, entries, preserve, input)
    {
      hide Expected, AllAppends, FieldIs;
      ExpectedMeans(cat, when, entries, preserve, input);
      r := Run(cat, input);
    }

    method Run(cat: Categorise, input: Json) returns (r: Result)
      requires Valid()
      ensures r == Expected(cat, when, entries, preserve, input)
    {
      if !input.Obj? && !input.Null? {
        return Failed;
      }
      if !when(input) {
        return NotApplied;
      }
      hide WalkAll, WalkEvent, AppendAll, AllAppends, Holds, RootEvents, Handled, Default;
      TrieAppendsAreAll(cat, mappings, entries, preserve, input.Members());
      WalkRoot(cat, mappings, preserve, input);
      ghost var whole := WalkAll(cat, mappings, preserve, BEFORE_WALK, RootEvents(input));
      ghost var w := BEFORE_WALK;
      var output: Output := map[];
      AppendNothing(output);
      var walker := new JSONWalker(input);
      var stack: seq<Option<Actions>> := [];
      var handledTop := false;
      var more, event := walker.Next();
      while more
        invariant walker.Valid()
        invariant w.stack == stack && w.handled == handledTop && AppendAll(map[], w.appends) == Some(output)
        invariant whole == WalkAll(cat, mappings, preserve, w, (if more then [event] else []) + walker.Remaining())
        invariant !more ==> walker.Remaining() == []
        decreases |walker.Remaining()|, more
      {
        ghost var next := WalkEvent(cat, mappings, preserve, w, event);
        WalkNext(cat, mappings, preserve, w, event, walker.Remaining());
        WalkGrows(cat, mappings, preserve, next, walker.Remaining());
        var ok;
        ok, stack, handledTop, output := ApplyEvent(cat, stack, handledTop, event, output, w);
        if !ok {
          AppendAllFails(map[], next.appends, whole.appends);
          return Failed;
        }
        w := next;
        more, event := walker.Next();
      }
      WalkNone(cat, mappings, preserve, w);
      return Produced(output);
    }

    /** One turn of the loop. */
    method ApplyEvent(cat: Categorise, stack: seq<Option<Actions>>, handledTop: bool, event: Event, output: Output,
                      ghost w: Walk)
      returns (ok: bool, stack': seq<Option<Actions>>, handled: bool, out: Output)
      requires w.stack == stack && w.handled == handledTop && AppendAll(map[], w.appends) == Some(output)
      ensures var next := WalkEvent(cat, mappings, preserve, w, event);
        && (ok ==> next.stack == stack' && next.handled == handled && AppendAll(map[], next.appends) == Some(out))
        && (!ok ==> AppendAll(map[], next.appends).None?)
    {
      ok, stack', handled, out := true, stack, handledTop, output;
      ghost var got := Handled(cat, Walk(stack, false, []), event);
      assert got == Handled(cat, w, event);
      hide AppendAll, Handled, Default;
      match event.kind
      case Start =>
        if |stack| == 1 {
          handled := false;
        }
        var now;
        ok, now, out := Handle(cat, stack, event, output);
        AppendAllConcat(map[], w.appends, got);
        if now {
          handled := true;
        }
        if stack == [] {
          stack' := stack + [Some(mappings)];
        } else {
          stack' := stack + [Sub(stack[|stack| - 1], event.component)];
        }
      case Leaf =>
        if |stack| == 1 {
          handled := false;
        }
        var now;
        ok, now, out := Handle(cat, stack, event, output);
        AppendAllConcat(map[], w.appends, got);
        if now {
          handled := true;
        }
        if ok && !handled {
          out := HandleDefault(stack, event, out);
        }
        AppendAllConcat(map[], w.appends + got, if handled then [] else Default(preserve, stack, event));
        assert w.appends + got + [] == w.appends + got;
      case End =>
        stack' := if stack == [] then [] else stack[..|stack| - 1];
        if !handled {
          out := HandleDefault(stack', event, out);
        }
        AppendAllConcat(map[], w.appends, if handled then [] else Default(preserve, stack', event));
        assert w.appends + [] == w.appends;
    }
  }

  lemma AppendNothing(output: Output)
    ensures AppendAll(output, []) == Some(output)
  {
  }

  lemma WalkNone(cat: Categorise, a: Actions, preserve: bool, w: Walk)
    ensures WalkAll(cat, a, preserve, w, [] + []) == w
  {
  }

  lemma WalkNext(cat: Categorise, a: Actions, preserve: bool, w: Walk, e: Event, rest: seq<Event>)
    ensures WalkAll(cat, a, preserve, w, [e] + rest)
         == WalkAll(cat, a, preserve, WalkEvent(cat, a, preserve, w, e), rest)
  {
    assert ([e] + rest)[1..] == rest;
  }

  /** The result that the entries, applied node by node, call for. */
  ghost function Expected(cat: Categorise, when: Json -> bool, entries: seq<Entry>, preserve: bool,
                          input: Json): Result
  {
    if !input.IsObject() then Failed
    else if !when(input) then NotApplied
    else
      match AppendAll(map[], AllAppends(cat, entries, preserve, input.Members()))
      case None => Failed
      case Some(output) => Produced(output)
  }

  lemma ExpectedMeans(cat: Categorise, when: Json -> bool, entries: seq<Entry>, preserve: bool, input: Json)
    ensures var r := Expected(cat, when, entries, preserve, input);
      && (r.NotApplied? <==> (input.Obj? || input.Null?) && !when(input))
      && (r.Produced? <==>
            && (input.Obj? || input.Null?) && when(input)
            && forall a :: a in AllAppends(cat, entries, preserve, input.Members()) ==> a.value.Some?)
      && (r.Produced? ==>
            forall field :: FieldIs(AllAppends(cat, entries, preserve, input.Members()), r.output, field))
  {
    if input.Obj? || input.Null? {
      hide AllAppends, AppendAll, FieldIs;
      AppendAllFields(AllAppends(cat, entries, preserve, input.Members()));
    }
  }

  lemma NothingHolds()
    ensures Holds(NOTHING, [])
  {
    forall path
      ensures TargetsAt(NodeAt(Some(NOTHING), path)) == TargetsFor([], path)
    {
      NodeAtNothing(path);
    }
  }

  lemma HoldsMore(a: Actions, entries: seq<Entry>, e: Entry)
    requires Holds(a, entries) && e.from != []
    ensures Holds(Insert(a, e.from, e.target), entries + [e])
  {
    forall path
      ensures TargetsAt(NodeAt(Some(Insert(a, e.from, e.target)), path)) == TargetsFor(entries + [e], path)
    {
      InsertAt(a, e.from, e.target, path);
      assert (entries + [e])[..|entries|] == entries;
    }
  }

  lemma {:induction false} ParseEntriesFails(items: seq<Json>, i: nat)
    requires i < |items| && ParseEntry(items[i]).None?
    ensures ParseEntries(items).None?
    decreases |items|
  {
    if i < |items| - 1 {
      ParseEntriesFails(items[..|items| - 1], i);
    }
  }
}
