/** Field maps and value sets stored as strings that carry their own lengths. */
module Containers {
  import opened Lexicographic
  import opened Lengths

  /** What was read before the end, or before the exception if not `ok`. */
  datatype Reading<+T> = Reading(items: seq<T>, ok: bool)

  // -------------------------------------------------------------- value sets

  function ValuesCode(vs: seq<Bytes>): (s: Bytes)
    ensures vs != [] ==> s != []
  {
    if vs == [] then [] else Chunk(vs[0]) + ValuesCode(vs[1..])
  }

  function ReadValues(s: Bytes): Reading<Bytes> {
    if s == [] then Reading([], true)
    else
      match ReadChunk(s)
      case Bad => Reading([], false)
      case Decoded(v, used) => var rest := ReadValues(s[used..]); Reading([v] + rest.items, rest.ok)
  }

  predicate AllFit(vs: seq<Bytes>) {
    forall i :: 0 <= i < |vs| ==> Fits(vs[i])
  }

  /** Values read back are those written, unless one is too long, and then that shows. */
  lemma {:induction false} ValuesRoundTrip(vs: seq<Bytes>)
    ensures AllFit(vs) ==> ReadValues(ValuesCode(vs)) == Reading(vs, true)
    ensures !AllFit(vs) ==> !ReadValues(ValuesCode(vs)).ok
    ensures ReadValues(ValuesCode(vs)).items <= vs
  {
    hide Chunk, ReadChunk, Fits;
    if vs != [] {
      ChunkRoundTrip(vs[0], ValuesCode(vs[1..]));
      ValuesRoundTrip(vs[1..]);
      var s := ValuesCode(vs);
      assert s[|Chunk(vs[0])|..] == ValuesCode(vs[1..]);
      assert vs == [vs[0]] + vs[1..];
      assert AllFit(vs) <==> Fits(vs[0]) && AllFit(vs[1..]);
    }
  }

  lemma {:induction false} ValuesCodeMore(vs: seq<Bytes>, v: Bytes)
    ensures ValuesCode(vs + [v]) == ValuesCode(vs) + Chunk(v)
  {
    hide Chunk;
    if vs == [] {
      assert [v][1..] == [];
    } else {
      ValuesCodeMore(vs[1..], v);
      assert (vs + [v])[1..] == vs[1..] + [v];
    }
  }

  /** `order` runs through the elements of `s`, each once. */
  ghost predicate RunsThrough(order: seq<Bytes>, s: set<Bytes>) {
    && (forall v :: v in order <==> v in s)
    && (forall i, j :: 0 <= i < j < |order| ==> order[i] != order[j])
  }

  /** A value set is written one value after the other, whatever the order. */
  method SerialiseValues(values: set<Bytes>) returns (result: Bytes, ghost order: seq<Bytes>)
    ensures RunsThrough(order, values) && result == ValuesCode(order)
  {
    result, order := [], [];
    var todo := values;
    while todo != {}
      invariant todo <= values && RunsThrough(order, values - todo) && result == ValuesCode(order)
    {
      var v :| v in todo;
      todo := todo - {v};
      var length := EncodeLength(|v|);
      ValuesCodeMore(order, v);
      result, order := result + length + v, order + [v];
    }
    assert values - todo == values;
  }

  class SlotDecoder {
    var value: Bytes
    var pos: nat

    ghost predicate Valid()
      reads this
    {
      pos <= |value|
    }

    /** What the calls to come will give. */
    ghost function Ahead(): Reading<Bytes>
      requires Valid()
      reads this
    {
      ReadValues(value[pos..])
    }

    constructor (text: Bytes)
      ensures Valid() && value == text && Ahead() == ReadValues(text)
    {
      value, pos := text, 0;
      new;
      assert value[0..] == text;
    }

    /** The next value; `Bad` both at the end and, with `failed`, for the exception. */
    method Next() returns (failed: bool, r: Decoded<Bytes>)
      requires Valid()
      modifies `pos
      ensures Valid()
      ensures r.Bad? ==> pos == old(pos) && old(Ahead()) == Reading([], !failed)
      ensures r.Decoded? ==> !failed && old(Ahead()) == Reading([r.value] + Ahead().items, Ahead().ok)
      ensures r.Decoded? ==> |r.value| <= pos && r.value == value[pos - |r.value|..pos]
    {
      if pos == |value| {
        return false, Bad;
      }
      r := DecodeChunk(value, pos);
      failed := r.Bad?;
      if r.Decoded? {
        assert value[pos..][r.used..] == value[pos + r.used..];
        assert r.value == value[pos..][r.used - |r.value|..r.used];
        pos := pos + r.used;
      }
    }
  }

  // ------------------------------------------------------------ range checking

  /** From the one end to the other, both included. */
  ghost predicate InRange(v: Bytes, start: Bytes, end: Bytes) {
    (v == start || Precedes(start, v)) && (v == end || Precedes(v, end))
  }

  lemma InRangeIs(v: Bytes, start: Bytes, end: Bytes)
    ensures InRange(v, start, end) <==> !Precedes(v, start) && !Precedes(end, v)
  {
    PrecedesTotal(v, start);
    PrecedesTotal(v, end);
    PrecedesIrreflexive(v);
    if Precedes(start, v) {
      PrecedesAsymmetric(start, v);
    }
    if Precedes(v, end) {
      PrecedesAsymmetric(v, end);
    }
  }

  /** Some value read from `value` is in the range; `failed` is the exception. */
  method CheckRange(value: Bytes, start: Bytes, end: Bytes) returns (failed: bool, found: bool)
    ensures found <==> exists v :: v in ReadValues(value).items && InRange(v, start, end)
    ensures failed <==> !found && !ReadValues(value).ok
  {
    hide ReadChunk, InRange;
    var pos := 0;
    ghost var seen: seq<Bytes> := [];
    assert value[0..] == value;
    while pos != |value|
      invariant pos <= |value| && (forall v :: v in seen ==> !InRange(v, start, end))
      invariant var ahead := ReadValues(value[pos..]); ReadValues(value) == Reading(seen + ahead.items, ahead.ok)
      decreases |value| - pos
    {
      var r := DecodeChunk(value, pos);
      if r.Bad? {
        return true, false;
      }
      assert value[pos..][r.used..] == value[pos + r.used..];
      InRangeIs(r.value, start, end);
      if !Precedes(r.value, start) && !Precedes(end, r.value) {
        assert r.value in ReadValues(value).items;
        return false, true;
      }
      ghost var ahead := ReadValues(value[pos + r.used..]);
      assert seen + ([r.value] + ahead.items) == (seen + [r.value]) + ahead.items;
      seen := seen + [r.value];
      pos := pos + r.used;
    }
    return false, false;
  }

  /** On a serialised value set the check is true exactly when a member is in the range. */
  method CheckStoredRange(values: set<Bytes>, start: Bytes, end: Bytes) returns (failed: bool, found: bool)
    ensures found ==> exists v :: v in values && InRange(v, start, end)
    ensures (forall v :: v in values ==> Fits(v)) ==>
              !failed && (found <==> exists v :: v in values && InRange(v, start, end))
    ensures failed ==> !found && exists v :: v in values && !Fits(v)
  {
    var text, order := SerialiseValues(values);
    ValuesRoundTrip(order);
    failed, found := CheckRange(text, start, end);
  }

  // ---------------------------------------------------------------- field maps

  type Field = (Bytes, Bytes)

  function FieldCode(f: Field): (s: Bytes)
    ensures s != []
  {
    Chunk(f.0) + Chunk(f.1)
  }

  function ReadField(s: Bytes): (r: Decoded<Field>)
    ensures r.Decoded? ==> 0 < r.used <= |s|
  {
    match ReadChunk(s)
    case Bad => Bad
    case Decoded(name, used) =>
      match ReadChunk(s[used..])
      case Bad => Bad
      case Decoded(value, more) => Decoded((name, value), used + more)
  }

  function FieldsCode(fs: seq<Field>): (s: Bytes)
    ensures fs != [] ==> s != []
  {
    if fs == [] then [] else FieldCode(fs[0]) + FieldsCode(fs[1..])
  }

  function ReadFields(s: Bytes): Reading<Field> {
    if s == [] then Reading([], true)
    else
      match ReadField(s)
      case Bad => Reading([], false)
      case Decoded(f, used) => var rest := ReadFields(s[used..]); Reading([f] + rest.items, rest.ok)
  }

  predicate FieldFits(f: Field) {
    Fits(f.0) && Fits(f.1)
  }

  predicate FieldsFit(fs: seq<Field>) {
    forall i :: 0 <= i < |fs| ==> FieldFits(fs[i])
  }

  lemma FieldRoundTrip(f: Field, suffix: Bytes)
    ensures ReadField(FieldCode(f) + suffix) == if FieldFits(f) then Decoded(f, |FieldCode(f)|) else Bad
  {
    hide Chunk, ReadChunk, Fits;
    var s := FieldCode(f) + suffix;
    assert s == Chunk(f.0) + (Chunk(f.1) + suffix);
    ChunkRoundTrip(f.0, Chunk(f.1) + suffix);
    ChunkRoundTrip(f.1, suffix);
    assert s[|Chunk(f.0)|..] == Chunk(f.1) + suffix;
  }

  lemma {:induction false} FieldsRoundTrip(fs: seq<Field>)
    ensures FieldsFit(fs) ==> ReadFields(FieldsCode(fs)) == Reading(fs, true)
    ensures !FieldsFit(fs) ==> !ReadFields(FieldsCode(fs)).ok
  {
    hide FieldCode, ReadField, FieldFits;
    if fs != [] {
      FieldRoundTrip(fs[0], FieldsCode(fs[1..]));
      FieldsRoundTrip(fs[1..]);
      assert FieldsCode(fs)[|FieldCode(fs[0])|..] == FieldsCode(fs[1..]);
      assert fs == [fs[0]] + fs[1..];
      assert FieldsFit(fs) <==> FieldFits(fs[0]) && FieldsFit(fs[1..]);
    }
  }

  lemma {:induction false} FieldsCodeMore(fs: seq<Field>, f: Field)
    ensures FieldsCode(fs + [f]) == FieldsCode(fs) + FieldCode(f)
  {
    hide FieldCode;
    if fs == [] {
      assert [f][1..] == [];
    } else {
      FieldsCodeMore(fs[1..], f);
      assert (fs + [f])[1..] == fs[1..] + [f];
    }
  }

  method DecodeField(s: Bytes, pos: nat) returns (r: Decoded<Field>)
    requires pos <= |s|
    ensures r == ReadField(s[pos..])
  {
    var name := DecodeChunk(s, pos);
    if name.Bad? {
      return Bad;
    }
    assert s[pos..][name.used..] == s[pos + name.used..];
    var value := DecodeChunk(s, pos + name.used);
    if value.Bad? {
      return Bad;
    }
    r := Decoded((name.value, value.value), name.used + value.used);
  }

  /** The map filled by storing the fields one after the other. */
  function FieldMap(fs: seq<Field>): map<Bytes, Bytes> {
    if fs == [] then map[]
    else
      var n := |fs| - 1;
      FieldMap(fs[..n])[fs[n].0 := fs[n].1]
  }

  lemma FieldMapEmpty()
    ensures FieldMap([]) == map[]
  {
  }

  lemma FieldMapMore(fs: seq<Field>, f: Field)
    ensures FieldMap(fs + [f]) == FieldMap(fs)[f.0 := f.1]
  {
    assert (fs + [f])[..|fs|] == fs;
  }

  function FieldsIn(order: seq<Bytes>, fields: map<Bytes, Bytes>): (fs: seq<Field>)
    requires forall i :: 0 <= i < |order| ==> order[i] in fields
    ensures |fs| == |order| && forall i :: 0 <= i < |fs| ==> fs[i] == (order[i], fields[order[i]])
  {
    seq(|order|, i requires 0 <= i < |order| => (order[i], fields[order[i]]))
  }

  lemma {:induction false} FieldMapOf(order: seq<Bytes>, fields: map<Bytes, Bytes>)
    requires forall i :: 0 <= i < |order| ==> order[i] in fields
    ensures var m := FieldMap(FieldsIn(order, fields));
            && (forall t :: t in m <==> t in order) && forall t :: t in m ==> m[t] == fields[t]
  {
    if order != [] {
      var n := |order| - 1;
      FieldMapOf(order[..n], fields);
      assert FieldsIn(order, fields)[..n] == FieldsIn(order[..n], fields);
      assert order == order[..n] + [order[n]];
    }
  }

  class DocumentData {
    var fields: map<Bytes, Bytes>

    constructor ()
      ensures fields == map[]
    {
      fields := map[];
    }

    method Serialise() returns (result: Bytes, ghost order: seq<Bytes>)
      ensures RunsThrough(order, fields.Keys) && result == FieldsCode(FieldsIn(order, fields))
    {
      hide LengthCode, FieldsIn;
      result, order := [], [];
      var todo := fields.Keys;
      while todo != {}
        invariant todo <= fields.Keys && RunsThrough(order, fields.Keys - todo)
        invariant (forall i :: 0 <= i < |order| ==> order[i] in fields) && result == FieldsCode(FieldsIn(order, fields))
      {
        var t :| t in todo;
        todo := todo - {t};
        var nameLength := EncodeLength(|t|);
        var valueLength := EncodeLength(|fields[t]|);
        FieldsCodeMore(FieldsIn(order, fields), (t, fields[t]));
        assert FieldsIn(order + [t], fields) == FieldsIn(order, fields) + [(t, fields[t])];
        result, order := result + nameLength + t + valueLength + fields[t], order + [t];
      }
      assert fields.Keys - todo == fields.Keys;
    }

    /** Replaces the fields by those read; when it fails, by those read before that. */
    method Unserialise(s: Bytes) returns (ok: bool)
      modifies this
      ensures var read := ReadFields(s); ok == read.ok && fields == FieldMap(read.items)
    {
      hide ReadField, FieldMap;
      FieldMapEmpty();
      fields := map[];
      var pos := 0;
      ghost var seen: seq<Field> := [];
      assert s[0..] == s;
      while pos != |s|
        invariant pos <= |s| && fields == FieldMap(seen)
        invariant var ahead := ReadFields(s[pos..]); ReadFields(s) == Reading(seen + ahead.items, ahead.ok)
        decreases |s| - pos
      {
        var r := DecodeField(s, pos);
        if r.Bad? {
          assert seen + [] == seen;
          return false;
        }
        var next := pos + r.used;
        assert s[pos..][r.used..] == s[next..];
        ghost var ahead := ReadFields(s[next..]);
        assert seen + ([r.value] + ahead.items) == (seen + [r.value]) + ahead.items;
        FieldMapMore(seen, r.value);
        seen := seen + [r.value];
        fields := fields[r.value.0 := r.value.1];
        pos := next;
      }
      assert seen + [] == seen;
      return true;
    }

    /** Fields read back are those written, if and only if none is too long. */
    method StoreAndRead() returns (ok: bool)
      modifies this
      ensures ok <==> old(forall t :: t in fields ==> Fits(t) && Fits(fields[t]))
      ensures ok ==> fields == old(fields)
    {
      hide FieldsCode, ReadFields, FieldMap, FieldsIn, Fits;
      ghost var before := fields;
      var text, order := Serialise();
      FieldsRoundTrip(FieldsIn(order, before));
      ok := Unserialise(text);
      FieldMapOf(order, before);
    }
  }
}
