/**
 Sort keys for several fields: byte strings whose plain comparison is the comparison
 of the tuples of field values.
 */
module SortKeys {
  import opened Options
  import opened Lexicographic

  /** The first value of a field in a document, if it has one. */
  type FieldValue = Option<Bytes>

  // ------------------------------------------------------------- encodings

  /** Bytes subtracted from 255; a zero byte becomes 255 0. */
  function Inverted(v: Bytes): Bytes
    decreases |v|
  {
    if v == [] then []
    else [255 - v[0]] + (if v[0] == 0 then [0] else []) + Inverted(v[1..])
  }

  function Reversed(v: Bytes): Bytes {
    Inverted(v) + [255, 255]
  }

  /** What the forward encoding of a value without zero bytes is. */
  function Forward(v: Bytes): Bytes {
    v + [0, 0]
  }

  /** Present values begin with 0 and missing ones with 1. */
  function EncodeField(reverse: bool, v: FieldValue): Bytes {
    match v
    case None => [1]
    case Some(b) => [0] + if reverse then Reversed(b) else Forward(b)
  }

  function Key(reverse: seq<bool>, values: seq<FieldValue>): Bytes
    requires |reverse| == |values|
    decreases |values|
  {
    if values == [] then []
    else EncodeField(reverse[0], values[0]) + Key(reverse[1..], values[1..])
  }

  // ---------------------------------------------------------------- orders

  /** How single fields compare: missing values last, whatever the direction. */
  predicate FieldBefore(reverse: bool, v: FieldValue, w: FieldValue) {
    match (v, w)
    case (Some(a), Some(b)) => if reverse then Precedes(b, a) else Precedes(a, b)
    case (Some(_), None) => true
    case (None, _) => false
  }

  /** How tuples of fields compare: by the first field that differs. */
  predicate TupleBefore(reverse: seq<bool>, v: seq<FieldValue>, w: seq<FieldValue>)
    requires |reverse| == |v| == |w|
    decreases |v|
  {
    v != [] &&
    (FieldBefore(reverse[0], v[0], w[0]) ||
     (v[0] == w[0] && TupleBefore(reverse[1..], v[1..], w[1..])))
  }

  /** Fields sorted forwards are to have no zero bytes. */
  ghost predicate Sortable(reverse: seq<bool>, v: seq<FieldValue>)
    requires |reverse| == |v|
  {
    forall i :: 0 <= i < |v| && !reverse[i] && v[i].Some? ==> 0 !in v[i].value
  }

  // -------------------------------------------------------------- one field

  ghost predicate Decided(a: Bytes, b: Bytes) {
    !StartsWith(a, b) && !StartsWith(b, a)
  }

  lemma DecidedFirst(x: Bytes, a: Bytes, b: Bytes)
    requires Decided(a, b)
    ensures Decided(x + a, x + b)
  {
    assert |b| <= |a| ==> (x + a)[..|x + b|][|x|..] == a[..|b|];
    assert |a| <= |b| ==> (x + b)[..|x + a|][|x|..] == b[..|a|];
    assert (x + a)[|x|..] == a && (x + b)[|x|..] == b;
  }

  lemma DifferAt(a: Bytes, b: Bytes)
    requires a != [] && b != [] && a[0] != b[0]
    ensures Decided(a, b) && (Precedes(a, b) <==> a[0] < b[0])
  {
    assert |b| <= |a| ==> a[..|b|][0] == a[0];
    assert |a| <= |b| ==> b[..|a|][0] == b[0];
  }

  /** What a byte turns into. */
  function Lead(b: byte): (x: Bytes)
    ensures x != [] && x[0] == 255 - b
  {
    [255 - b] + if b == 0 then [0] else []
  }

  lemma ReversedHead(a: Bytes)
    requires a != []
    ensures Reversed(a) == Lead(a[0]) + Reversed(a[1..])
  {
  }

  lemma {:induction false} ReversedOrder(a: Bytes, b: Bytes)
    requires a != b
    ensures Decided(Reversed(a), Reversed(b))
    ensures Precedes(Reversed(a), Reversed(b)) <==> Precedes(b, a)
    decreases |a|
  {
    hide Reversed, Decided, Lead;
    if a == [] {
      EmptyReversedLast(b);
    } else if b == [] {
      EmptyReversedLast(a);
    } else {
      ReversedHead(a);
      ReversedHead(b);
      if a[0] == b[0] {
        assert a == [a[0]] + a[1..] && b == [b[0]] + b[1..];
        ReversedOrder(a[1..], b[1..]);
        DecidedFirst(Lead(a[0]), Reversed(a[1..]), Reversed(b[1..]));
        PrecedesAfterPrefix(Lead(a[0]), Reversed(a[1..]), Reversed(b[1..]));
      } else {
        DifferAt(Reversed(a), Reversed(b));
      }
    }
  }

  /** A value that is a prefix of another sorts after it in reverse. */
  lemma EmptyReversedLast(b: Bytes)
    requires b != []
    ensures Decided(Reversed([]), Reversed(b)) && Decided(Reversed(b), Reversed([]))
    ensures Precedes(Reversed(b), Reversed([])) && !Precedes(Reversed([]), Reversed(b))
  {
    var e, r := Reversed([]), Reversed(b);
    assert e == [255, 255] && r[0] == 255 - b[0];
    if b[0] == 0 {
      assert r[1] == 0;
      assert r == [255] + r[1..] && e == [255] + [255];
      DifferAt(r[1..], [255]);
      DecidedFirst([255], r[1..], [255]);
      PrecedesAfterPrefix([255], r[1..], [255]);
      PrecedesAfterPrefix([255], [255], r[1..]);
    } else {
      DifferAt(e, r);
    }
  }

  lemma {:induction false} ForwardOrder(a: Bytes, b: Bytes)
    requires a != b && 0 !in a && 0 !in b
    ensures Decided(Forward(a), Forward(b))
    ensures Precedes(Forward(a), Forward(b)) <==> Precedes(a, b)
    decreases |a|
  {
    if a == [] || b == [] {
      assert b != [] ==> b[0] in b;
      assert a != [] ==> a[0] in a;
      DifferAt(Forward(a), Forward(b));
    } else {
      assert Forward(a) == [a[0]] + Forward(a[1..]) && Forward(b) == [b[0]] + Forward(b[1..]);
      if a[0] == b[0] {
        assert a == [a[0]] + a[1..] && b == [b[0]] + b[1..];
        ForwardOrder(a[1..], b[1..]);
        DecidedFirst([a[0]], Forward(a[1..]), Forward(b[1..]));
        PrecedesAfterPrefix([a[0]], Forward(a[1..]), Forward(b[1..]));
      } else {
        DifferAt(Forward(a), Forward(b));
      }
    }
  }

  /** Different values of a field have encodings that are decided among themselves,
      in the right order: neither is a prefix of the other. */
  lemma FieldOrder(reverse: bool, v: FieldValue, w: FieldValue)
    requires v != w
    requires !reverse && v.Some? ==> 0 !in v.value
    requires !reverse && w.Some? ==> 0 !in w.value
    ensures Decided(EncodeField(reverse, v), EncodeField(reverse, w))
    ensures Precedes(EncodeField(reverse, v), EncodeField(reverse, w)) <==> FieldBefore(reverse, v, w)
  {
    if v.None? || w.None? {
      DifferAt(EncodeField(reverse, v), EncodeField(reverse, w));
    } else {
      var a, b := v.value, w.value;
      var x, y := if reverse then Reversed(a) else Forward(a), if reverse then Reversed(b) else Forward(b);
      if reverse {
        ReversedOrder(a, b);
      } else {
        ForwardOrder(a, b);
      }
      DecidedFirst([0], x, y);
      PrecedesAfterPrefix([0], x, y);
    }
  }

  // ------------------------------------------------------------ whole keys

  /** Comparing keys byte by byte is comparing tuples field by field. */
  lemma {:induction false} KeyOrder(reverse: seq<bool>, v: seq<FieldValue>, w: seq<FieldValue>)
    requires |reverse| == |v| == |w| && Sortable(reverse, v) && Sortable(reverse, w)
    ensures Precedes(Key(reverse, v), Key(reverse, w)) <==> TupleBefore(reverse, v, w)
    ensures Key(reverse, v) == Key(reverse, w) <==> v == w
    decreases |v|
  {
    if v != [] {
      hide EncodeField, FieldBefore, Precedes;
      var x, y := EncodeField(reverse[0], v[0]), EncodeField(reverse[0], w[0]);
      var p, q := Key(reverse[1..], v[1..]), Key(reverse[1..], w[1..]);
      assert v == [v[0]] + v[1..] && w == [w[0]] + w[1..];
      if v[0] == w[0] {
        KeyOrder(reverse[1..], v[1..], w[1..]);
        PrecedesAfterPrefix(x, p, q);
        NotBefore(reverse[0], v[0]);
        assert (x + p)[|x|..] == p && (x + q)[|x|..] == q;
      } else {
        FieldOrder(reverse[0], v[0], w[0]);
        PrecedesDecided(x, y, p, q);
        assert (x + p)[..|x|] == x && (y + q)[..|y|] == y;
        assert |x| <= |y| ==> (y + q)[..|x|] == y[..|x|];
        assert |y| <= |x| ==> (x + p)[..|y|] == x[..|y|];
      }
    }
  }

  lemma NotBefore(reverse: bool, v: FieldValue)
    ensures !FieldBefore(reverse, v, v)
  {
    if v.Some? {
      PrecedesIrreflexive(v.value);
    }
  }

  // ------------------------------------------------- the loops that make keys

  /** The reverse loop, byte by byte. */
  method AppendReversed(result: Bytes, v: Bytes) returns (r: Bytes)
    ensures r == result + Reversed(v)
  {
    r := result;
    var i := 0;
    while i < |v|
      invariant 0 <= i <= |v|
      invariant r + Inverted(v[i..]) == result + Inverted(v)
    {
      ghost var was := r;
      r := r + [255 - v[i]];
      if v[i] == 0 {
        r := r + [0];
      }
      assert v[i..][1..] == v[i + 1..];
      assert r + Inverted(v[i + 1..]) == was + Inverted(v[i..]);
      i := i + 1;
    }
    assert v[i..] == [] && r + [] == r;
    assert result + Inverted(v) + [255, 255] == result + Reversed(v);
    r := r + [255, 255];
  }

  /** The state of the forward loop: what is left to read, and what has been written. */
  datatype Loop = Loop(begin: nat, len: nat, result: Bytes, done: bool)

  /** The first zero byte at or after a position. */
  function FindZero(v: Bytes, from: nat): (z: Option<nat>)
    requires from <= |v|
    ensures z.None? ==> forall i :: from <= i < |v| ==> v[i] != 0
    ensures z.Some? ==> from <= z.value < |v| && v[z.value] == 0 && forall i :: from <= i < z.value ==> v[i] != 0
    decreases |v| - from
  {
    if from == |v| then None
    else if v[from] == 0 then Some(from)
    else FindZero(v, from + 1)
  }

  /** One turn of the forward loop.  The length is reduced by the distance from a
      position to itself, and the zero byte is written but not stepped past. */
  function LoopStep(v: Bytes, l: Loop): Loop
    requires l.begin <= |v|
  {
    if l.done || l.len == 0 then l.(done := true)
    else
      match FindZero(v, l.begin)
      case None => l.(result := l.result + v[l.begin..], done := true)
      case Some(zero) =>
        l.(begin := zero, result := l.result + v[l.begin..zero] + [0])
  }

  ghost function LoopAfter(v: Bytes, n: nat): (l: Loop)
    ensures l.begin <= |v|
  {
    if n == 0 then Loop(0, |v|, [], false) else LoopStep(v, LoopAfter(v, n - 1))
  }

  lemma {:induction false} LoopStuck(v: Bytes, n: nat)
    requires 0 in v
    ensures var l := LoopAfter(v, n); !l.done && l.len == |v| && (n > 0 ==> l.begin < |v| && v[l.begin] == 0)
    decreases n
  {
    if n > 0 {
      LoopStuck(v, n - 1);
    }
  }

  /** The forward loop ends exactly for values without zero bytes, and then it has
      copied the value. */
  lemma ForwardLoopEnds(v: Bytes)
    ensures (exists n :: LoopAfter(v, n).done) <==> 0 !in v
    ensures forall n :: LoopAfter(v, n).done ==> LoopAfter(v, n).result == v
  {
    if 0 in v {
      forall n: nat
        ensures !LoopAfter(v, n).done
      {
        LoopStuck(v, n);
      }
    } else {
      assert v[0..] == v;
      assert LoopAfter(v, 0) == Loop(0, |v|, [], false);
      assert LoopAfter(v, 1).done;
      forall n: nat | LoopAfter(v, n).done
        ensures LoopAfter(v, n).result == v
      {
        LoopSettled(v, n);
      }
    }
  }

  lemma {:induction false} LoopSettled(v: Bytes, n: nat)
    requires 0 !in v
    ensures n > 0 ==> LoopAfter(v, n).done && LoopAfter(v, n).result == v
    decreases n
  {
    if n == 1 {
      assert LoopAfter(v, 0) == Loop(0, |v|, [], false);
      assert v[0..] == v;
    } else if n > 1 {
      LoopSettled(v, n - 1);
    }
  }

  /** The key of a document; the forward loop ends for the values it is given. */
  method MakeKey(reverse: seq<bool>, values: seq<FieldValue>) returns (result: Bytes)
    requires |reverse| == |values| && Sortable(reverse, values)
    ensures result == Key(reverse, values)
  {
    hide EncodeField, Sortable;
    result := [];
    for i := 0 to |values|
      invariant result + Key(reverse[i..], values[i..]) == Key(reverse, values)
    {
      ghost var was := result;
      SortableAt(reverse, values, i);
      result := AppendField(result, reverse[i], values[i]);
      assert values[i..][1..] == values[i + 1..] && reverse[i..][1..] == reverse[i + 1..];
      assert was + Key(reverse[i..], values[i..]) == result + Key(reverse[i + 1..], values[i + 1..]);
    }
  }

  lemma SortableAt(reverse: seq<bool>, values: seq<FieldValue>, i: nat)
    requires |reverse| == |values| && Sortable(reverse, values) && i < |values|
    ensures !reverse[i] && values[i].Some? ==> 0 !in values[i].value
  {
  }

  method AppendField(before: Bytes, reverse: bool, value: FieldValue) returns (result: Bytes)
    requires !reverse && value.Some? ==> 0 !in value.value
    ensures result == before + EncodeField(reverse, value)
  {
    hide Reversed;
    match value
    case None =>
      result := before + [1];
    case Some(v) =>
      result := before + [0];
      if reverse {
        result := AppendReversed(result, v);
      } else {
        var copied := AppendForward(v);
        result := result + copied + [0, 0];
      }
  }

  method AppendForward(v: Bytes) returns (r: Bytes)
    requires 0 !in v
    ensures r == v
  {
    var l, n := Loop(0, |v|, [], false), 0;
    while !l.done
      invariant l == LoopAfter(v, n) && n <= 1
      decreases 1 - n
    {
      LoopSettled(v, n + 1);
      l := LoopStep(v, l);
      n := n + 1;
    }
    LoopSettled(v, n);
    r := l.result;
  }
}
