/** Lists of coordinates, stored one code after the other. */
module Coordinates {
  import opened Lexicographic
  import opened Geo

  datatype Coord = Coord(lat: real, lon: real)

  predicate InRange(c: Coord) {
    -90.0 <= c.lat <= 90.0
  }

  function PointCoord(p: Point): Coord {
    Coord(Latitude(p.lat), Longitude(p.lon))
  }

  /** What a coordinate is stored as; one whose latitude is out of range is passed over. */
  function Stored(c: Coord): (s: Bytes)
    ensures |s| == if InRange(c) then 6 else 0
  {
    if InRange(c) then PointCode(Nearest(c.lat, c.lon)) else []
  }

  function CountInRange(cs: seq<Coord>): nat {
    if cs == [] then 0 else (if InRange(cs[0]) then 1 else 0) + CountInRange(cs[1..])
  }

  function CoordsCode(cs: seq<Coord>): (s: Bytes)
    ensures |s| == 6 * CountInRange(cs)
  {
    if cs == [] then [] else Stored(cs[0]) + CoordsCode(cs[1..])
  }

  lemma {:induction false} CoordsCodeMore(cs: seq<Coord>, c: Coord)
    ensures CoordsCode(cs + [c]) == CoordsCode(cs) + Stored(c)
  {
    hide Stored;
    if cs == [] {
      assert [c][1..] == [];
    } else {
      CoordsCodeMore(cs[1..], c);
      assert (cs + [c])[1..] == cs[1..] + [c];
    }
  }

  method SerialiseCoords(cs: seq<Coord>) returns (result: Bytes)
    ensures result == CoordsCode(cs)
  {
    hide Nearest, PointCode;
    result := [];
    for i := 0 to |cs|
      invariant result == CoordsCode(cs[..i])
    {
      CoordsCodeMore(cs[..i], cs[i]);
      assert cs[..i + 1] == cs[..i] + [cs[i]];
      var _, next := Encode(cs[i].lat, cs[i].lon, result);
      result := next;
    }
    assert cs[..|cs|] == cs;
  }

  // --------------------------------------------------------------- reading back

  /** Where the reader stands after one coordinate read at `pos` of `n` bytes. */
  function NextPos(n: nat, pos: nat): (next: nat)
    requires pos <= n
    ensures pos <= next <= n
  {
    if n - pos < 2 then pos else if n - pos < 6 then n else pos + 6
  }

  /** One coordinate: from six bytes, or from fewer at the end, or nothing from one. */
  method UnserialiseCoord(s: Bytes, pos: nat) returns (c: Coord, next: nat)
    requires pos <= |s|
    ensures next == NextPos(|s|, pos)
    ensures c == if |s| - pos < 2 then Coord(0.0, 0.0) else PointCoord(DecodedPoint(s[pos..]))
  {
    var len := |s| - pos;
    if len < 2 {
      return Coord(0.0, 0.0), pos;
    }
    var lat, lon := Decode(s[pos..]);
    c := Coord(lat, lon);
    next := if len < 6 then |s| else pos + 6;
  }

  /** Where the list reader stands after `k` rounds of its loop. */
  function PosAfter(n: nat, k: nat): (pos: nat)
    ensures pos <= n
  {
    if k == 0 then 0 else NextPos(n, PosAfter(n, k - 1))
  }

  lemma {:induction false} PosAfterIs(n: nat, k: nat)
    ensures 6 * k <= n ==> PosAfter(n, k) == 6 * k
    ensures n % 6 == 1 && 6 * k >= n ==> PosAfter(n, k) == n - 1
  {
    if k > 0 {
      PosAfterIs(n, k - 1);
    }
  }

  /** The loop comes to its end exactly when the bytes are not one over a multiple of six. */
  lemma ListLoopEnds(n: nat)
    ensures (exists k :: PosAfter(n, k) == n) <==> Ends(n)
  {
    if n % 6 == 1 {
      forall k: nat
        ensures PosAfter(n, k) != n
      {
        PosAfterIs(n, k);
      }
    } else {
      var k := n / 6;
      PosAfterIs(n, k);
      assert PosAfter(n, k + 1) == NextPos(n, PosAfter(n, k));
      assert PosAfter(n, if n % 6 == 0 then k else k + 1) == n;
    }
  }

  /** Reading a list of this length comes to an end. */
  predicate Ends(n: int) {
    n % 6 != 1
  }

  /** The coordinates in a list; a single byte at its end, where the loop hangs, gives none. */
  function ReadCoords(s: Bytes): seq<Coord> {
    if |s| < 2 then []
    else [PointCoord(DecodedPoint(s))] + if |s| < 6 then [] else ReadCoords(s[6..])
  }

  method UnserialiseCoords(s: Bytes) returns (cs: seq<Coord>)
    requires Ends(|s|)
    ensures cs == ReadCoords(s)
  {
    hide DecodedPoint, Ends, NextPos;
    cs := [];
    var pos := 0;
    assert s[0..] == s;
    while pos != |s|
      invariant pos <= |s| && Ends(|s| - pos) && cs + ReadCoords(s[pos..]) == ReadCoords(s)
      decreases |s| - pos
    {
      hide ReadCoords;
      var c, next := UnserialiseCoord(s, pos);
      ReadOne(s, pos);
      assert cs + ([c] + ReadCoords(s[next..])) == (cs + [c]) + ReadCoords(s[next..]);
      cs, pos := cs + [c], next;
    }
    assert cs + [] == cs;
  }

  /** One round of the reader takes one coordinate off the list. */
  lemma ReadOne(s: Bytes, pos: nat)
    requires pos < |s| && Ends(|s| - pos)
    ensures var next := NextPos(|s|, pos);
            && |s| - pos >= 2 && pos < next && Ends(|s| - next)
            && ReadCoords(s[pos..]) == [PointCoord(DecodedPoint(s[pos..]))] + ReadCoords(s[next..])
  {
    hide DecodedPoint;
    assert |s| - pos >= 6 ==> s[pos..][6..] == s[pos + 6..];
    assert s[|s|..] == [];
  }

  // ------------------------------------------------------------------ round trip

  /** The coordinates kept, each moved to the grid. */
  function Rounded(cs: seq<Coord>): seq<Coord> {
    if cs == [] then []
    else
      (if InRange(cs[0]) then [PointCoord(Nearest(cs[0].lat, cs[0].lon))] else []) + Rounded(cs[1..])
  }

  lemma WrittenListEnds(cs: seq<Coord>)
    ensures Ends(|CoordsCode(cs)|)
  {
    hide CoordsCode, CountInRange;
  }

  /** A list reads back as its coordinates in range, each moved to the grid. */
  lemma {:induction false} CoordsRoundTrip(cs: seq<Coord>)
    ensures ReadCoords(CoordsCode(cs)) == Rounded(cs)
  {
    hide PointCode, Nearest, PointCoord, ReadCoords;
    EmptyList();
    if cs != [] {
      CoordsRoundTrip(cs[1..]);
      var rest := CoordsCode(cs[1..]);
      if InRange(cs[0]) {
        OneMore(Nearest(cs[0].lat, cs[0].lon), rest, CoordsCode(cs));
      } else {
        assert [] + rest == rest;
      }
    }
  }

  lemma EmptyList()
    ensures ReadCoords([]) == []
  {
  }

  lemma OneMore(p: Point, rest: Bytes, s: Bytes)
    requires OnGrid(p) && s == PointCode(p) + rest
    ensures ReadCoords(s) == [PointCoord(p)] + ReadCoords(rest)
  {
    hide PointCode, DecodedPoint;
    GeoRoundTrip(p, rest);
    assert s[6..] == rest;
  }

  predicate IsWhole(x: real) {
    x == x.Floor as real
  }

  /** Both angles are whole sixteenths of a second, in range, and a pole has longitude zero. */
  predicate GridCoord(c: Coord) {
    && InRange(c) && 0.0 <= c.lon < 360.0
    && IsWhole((c.lat + 90.0) * 57600.0) && IsWhole(c.lon * 57600.0)
    && (c.lat == -90.0 || c.lat == 90.0 ==> c.lon == 0.0)
  }

  lemma PointOf(c: Coord)
    requires GridCoord(c)
    ensures exists p :: OnGrid(p) && c == PointCoord(p)
  {
    var a, o := ((c.lat + 90.0) * 57600.0).Floor, (c.lon * 57600.0).Floor;
    assert 0 <= a <= LAT_TOP && 0 <= o < LON_TOP;
    var p := Point(a, o);
    assert OnGrid(p) && c == PointCoord(p);
  }

  lemma IntegerIsWhole(x: real, n: int)
    requires x == n as real
    ensures IsWhole(x)
  {
  }

  lemma CoordOf(p: Point)
    requires OnGrid(p)
    ensures GridCoord(PointCoord(p))
  {
    hide IsWhole;
    var c := PointCoord(p);
    IntegerIsWhole((c.lat + 90.0) * 57600.0, p.lat);
    IntegerIsWhole(c.lon * 57600.0, p.lon);
  }

  /** Those are the coordinates of the points of the grid. */
  lemma GridCoordIsPoint(c: Coord)
    ensures GridCoord(c) <==> exists p :: OnGrid(p) && c == PointCoord(p)
  {
    hide GridCoord, OnGrid, PointCoord;
    if GridCoord(c) {
      PointOf(c);
    }
    if p :| OnGrid(p) && c == PointCoord(p) {
      CoordOf(p);
    }
  }

  /** And those are the ones that storing does not move. */
  lemma GridCoordStays(c: Coord)
    ensures GridCoord(c) <==> InRange(c) && PointCoord(Nearest(c.lat, c.lon)) == c
  {
    hide GridCoord, Nearest;
    GridCoordIsPoint(c);
    if p :| OnGrid(p) && c == PointCoord(p) {
      NearestOfGrid(p);
    }
  }

  lemma {:induction false} RoundedSame(cs: seq<Coord>)
    ensures |Rounded(cs)| <= |cs|
    ensures Rounded(cs) == cs <==> forall i :: 0 <= i < |cs| ==> GridCoord(cs[i])
  {
    hide Nearest, PointCoord, InRange, GridCoord;
    if cs != [] {
      RoundedSame(cs[1..]);
      GridCoordStays(cs[0]);
      assert cs == [cs[0]] + cs[1..];
      assert (forall i :: 0 <= i < |cs| ==> GridCoord(cs[i])) <==>
             GridCoord(cs[0]) && forall i :: 0 <= i < |cs[1..]| ==> GridCoord(cs[1..][i]);
      if Rounded(cs) == cs {
        assert InRange(cs[0]);
        assert Rounded(cs)[1..] == Rounded(cs[1..]);
      }
    }
  }

  /** A list reads back as itself exactly when all its coordinates are on the grid. */
  lemma GridCoordsRoundTrip(cs: seq<Coord>)
    ensures ReadCoords(CoordsCode(cs)) == cs <==> forall i :: 0 <= i < |cs| ==> GridCoord(cs[i])
  {
    hide ReadCoords, Rounded, CoordsCode, GridCoord;
    CoordsRoundTrip(cs);
    RoundedSame(cs);
  }
}
