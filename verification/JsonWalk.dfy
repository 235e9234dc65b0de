/**
 Walking over a JSON value: the stack of levels that delivers one event at a time,
 and the recursive description of the events it delivers.
 */
module JsonWalk {
  import opened JsonValues

  /** A component of the path to a node. */
  datatype Component = Key(key: string) | Index(index: nat)

  datatype EventType = Start | Leaf | End

  datatype Event = Event(kind: EventType, component: Component, value: Json)

  ghost predicate IsContainer(v: Json) {
    v.Obj? || v.Arr?
  }

  ghost function Count(v: Json): nat {
    match v
    case Obj(members) => |members|
    case Arr(items) => |items|
    case _ => 0
  }

  ghost function ChildValue(v: Json, i: nat): (c: Json)
    requires i < Count(v)
    ensures c < v
  {
    if v.Obj? then assert v.members[i] < v; v.members[i].value else v.items[i]
  }

  ghost function ChildComponent(v: Json, i: nat): Component
    requires i < Count(v)
  {
    if v.Obj? then Key(v.members[i].name) else Index(i)
  }

  // --------------------------------------------------- recursive description

  /** The events for a node reached through `c`. */
  ghost function Events(c: Component, v: Json): seq<Event>
    decreases v, Count(v) + 1
  {
    if IsContainer(v) then [Event(Start, c, v)] + EventsFrom(v, 0) + [Event(End, c, v)]
    else [Event(Leaf, c, v)]
  }

  /** The events for the children of a node, from number `i` on. */
  ghost function EventsFrom(v: Json, i: nat): seq<Event>
    requires i <= Count(v)
    decreases v, Count(v) - i
  {
    if i == Count(v) then []
    else Events(ChildComponent(v, i), ChildValue(v, i)) + EventsFrom(v, i + 1)
  }

  /** The value walked over is started and ended even if it is null. */
  ghost function RootEvents(v: Json): seq<Event> {
    [Event(Start, Index(0), v)] + EventsFrom(v, 0) + [Event(End, Index(0), v)]
  }

  // ---------------------------------------------------------------- the walker

  datatype Level = Level(value: Json, component: Component, pos: nat, started: bool)

  ghost predicate ValidLevel(l: Level) {
    l.pos <= Count(l.value) && (!l.started ==> l.pos == 0)
  }

  ghost function LevelEvents(l: Level): seq<Event>
    requires ValidLevel(l)
  {
    (if l.started then [] else [Event(Start, l.component, l.value)]) +
    EventsFrom(l.value, l.pos) + [Event(End, l.component, l.value)]
  }

  /** The events that a stack of levels, innermost last, still has to deliver. */
  ghost function StackEvents(stack: seq<Level>): seq<Event>
    requires forall k :: 0 <= k < |stack| ==> ValidLevel(stack[k])
    decreases |stack|
  {
    if stack == [] then []
    else LevelEvents(stack[|stack| - 1]) + StackEvents(stack[..|stack| - 1])
  }

  lemma PushedEvents(stack: seq<Level>, l: Level)
    requires forall k :: 0 <= k < |stack| ==> ValidLevel(stack[k])
    requires ValidLevel(l)
    ensures StackEvents(stack + [l]) == LevelEvents(l) + StackEvents(stack)
  {
    assert (stack + [l])[..|stack|] == stack;
  }

  lemma EmptyStack()
    ensures StackEvents([]) == []
  {
  }

  lemma NeverEmpty(l: Level)
    requires ValidLevel(l)
    ensures LevelEvents(l) != [] && l.pos <= Count(l.value)
  {
  }

  lemma LevelStarts(l: Level)
    requires ValidLevel(l) && !l.started
    ensures ValidLevel(l.(started := true))
    ensures LevelEvents(l) == [Event(Start, l.component, l.value)] + LevelEvents(l.(started := true))
  {
  }

  lemma LevelEnds(l: Level)
    requires ValidLevel(l) && l.started && l.pos == Count(l.value)
    ensures LevelEvents(l) == [Event(End, l.component, l.value)]
  {
  }

  lemma LevelMoves(l: Level)
    requires ValidLevel(l) && l.started && l.pos < Count(l.value)
    ensures var c, v := ChildComponent(l.value, l.pos), ChildValue(l.value, l.pos);
      && LevelEvents(l) == Events(c, v) + LevelEvents(l.(pos := l.pos + 1))
      && ValidLevel(l.(pos := l.pos + 1)) && (IsContainer(v) ==> ValidLevel(Level(v, c, 0, true)))
      && (!IsContainer(v) ==> Events(c, v) == [Event(Leaf, c, v)])
      && (IsContainer(v) ==> Events(c, v) == [Event(Start, c, v)] + LevelEvents(Level(v, c, 0, true)))
  {
    var c, v := ChildComponent(l.value, l.pos), ChildValue(l.value, l.pos);
    assert EventsFrom(l.value, l.pos) == Events(c, v) + EventsFrom(l.value, l.pos + 1);
  }

  class JSONWalker {
    var stack: seq<Level>

    ghost predicate Valid()
      reads this
    {
      forall k :: 0 <= k < |stack| ==> ValidLevel(stack[k])
    }

    ghost function Remaining(): seq<Event>
      requires Valid()
      reads this
    {
      StackEvents(stack)
    }

    constructor (value: Json)
      requires value.IsObject() || value.IsArray()
      ensures Valid() && Remaining() == RootEvents(value)
    {
      stack := [Level(value, Index(0), 0, false)];
      new;
      PushedEvents([], stack[0]);
      assert [] + stack == stack;
    }

    /** Delivers the next event, if there is one. */
    method Next() returns (more: bool, event: Event)
      requires Valid()
      modifies this
      ensures Valid()
      ensures more <==> old(Remaining()) != []
      ensures more ==> old(Remaining()) == [event] + Remaining()
      ensures !more ==> Remaining() == []
    {
      hide LevelEvents, EventsFrom, StackEvents, ValidLevel, Events;
      EmptyStack();
      if stack == [] {
        return false, Event(End, Index(0), Null);
      }
      more := true;
      ghost var was := Remaining();
      var top, rest := stack[|stack| - 1], stack[..|stack| - 1];
      assert stack == rest + [top];
      PushedEvents(rest, top);
      NeverEmpty(top);
      if !top.started {
        LevelStarts(top);
        event := Event(Start, top.component, top.value);
        stack := rest + [top.(started := true)];
        PushedEvents(rest, top.(started := true));
      } else if (top.value.Obj? && top.pos < |top.value.members|) || (top.value.Arr? && top.pos < |top.value.items|) {
        var c, v;
        if top.value.Obj? {
          c, v := Key(top.value.members[top.pos].name), top.value.members[top.pos].value;
        } else {
          c, v := Index(top.pos), top.value.items[top.pos];
        }
        var moved := top.(pos := top.pos + 1);
        LevelMoves(top);
        stack := rest + [moved];
        PushedEvents(rest, moved);
        if v.Obj? || v.Arr? {
          var inner := Level(v, c, 0, true);
          PushedEvents(stack, inner);
          stack := stack + [inner];
          event := Event(Start, c, v);
        } else {
          event := Event(Leaf, c, v);
        }
      } else {
        LevelEnds(top);
        event := Event(End, top.component, top.value);
        stack := rest;
      }
      assert was == [event] + Remaining();
    }
  }
}
