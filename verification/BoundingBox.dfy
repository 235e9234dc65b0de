/** Decoding only the coordinates inside a bounding box, with a test on their first byte. */
module BoundingBox {
  import opened Lexicographic
  import opened Geo
  import opened Options

  /** South, west, north and east edge, as given. */
  datatype Edges = Edges(south: real, west: real, north: real, east: real)

  /** Latitudes, of any size for which the source's integers are defined. */
  predicate Measurable(e: Edges) {
    -37000.0 <= e.south <= 37000.0 && -37000.0 <= e.north <= 37000.0
  }

  datatype Decoder = Decoder(lon1: real, lon2: real, minLat: real, maxLat: real, start1: nat, start2: nat,
                             includePoles: bool, discontinuous: bool)

  /** Rounding halves away from zero. */
  function RoundAway(x: real): int {
    if x >= 0.0 then Round(x) else -Round(-x)
  }

  function Lat16ths(lat: real): int {
    RoundAway((lat + 90.0) * 57600.0)
  }

  function Lon16ths(lon: real): (o: nat)
    requires 0.0 <= lon < 360.0
    ensures o < LON_TOP
  {
    var o := Round(lon * 57600.0);
    if o == LON_TOP then 0 else o
  }

  /** Whole degrees, rounded towards zero. */
  function Degrees(angle: int): int {
    if angle >= 0 then angle / DEGREE else -(-angle / DEGREE)
  }

  /** The number that combines the degrees of both angles; it may leave sixteen bits for odd latitudes. */
  function Combined(lat: int, lon: nat): int {
    Degrees(lat) + lon / DEGREE * 181
  }

  /** The high byte of such a number, as unsigned arithmetic gives it. */
  function HighByte(dd: int): (b: nat)
    ensures b < 256
  {
    dd / 256 % 256
  }

  /** The first byte of the code of a point with these degrees. */
  function ByteAt(lat: nat, lon: nat): nat {
    (lat + lon * 181) / 256
  }

  /** The first byte of the code of a point with these angles. */
  function Start(lat: nat, lon: nat): nat {
    ByteAt(lat / DEGREE, lon / DEGREE)
  }

  function SouthWest(e: Edges): int {
    Combined(Lat16ths(e.south), Lon16ths(Wrap(e.west)))
  }

  function NorthEast(e: Edges): int {
    Combined(Lat16ths(e.north), Lon16ths(Wrap(e.east)))
  }

  predicate AtPole(lat16ths: int) {
    lat16ths == 0 || lat16ths == LAT_TOP
  }

  function MakeDecoder(e: Edges): Decoder {
    Decoder(Wrap(e.west), Wrap(e.east), e.south, e.north, HighByte(SouthWest(e)), HighByte(NorthEast(e)),
            AtPole(Lat16ths(e.south)) || AtPole(Lat16ths(e.north)), Wrap(e.west) > Wrap(e.east))
  }

  /** The first byte alone does not exclude the coordinate. */
  predicate Passes(d: Decoder, start: nat) {
    || (if d.discontinuous then !(d.start2 < start < d.start1) else d.start1 <= start <= d.start2)
    || (d.includePoles && start == 0)
  }

  function DecodeInside(d: Decoder, value: Bytes): Option<(real, real)>
    requires |value| >= 2
  {
    if !Passes(d, value[0]) then None
    else
      var p := DecodedPoint(value);
      var lat, lon := Latitude(p.lat), Longitude(p.lon);
      if lat < d.minLat || lat > d.maxLat then None
      else if lat == -90.0 || lat == 90.0 then Some((lat, 0.0))
      else if d.discontinuous then if d.lon2 < lon < d.lon1 then None else Some((lat, lon))
      else if lon < d.lon1 || d.lon2 < lon then None
      else Some((lat, lon))
  }

  // ------------------------------------------------------------- the full test

  /** The point is inside the edges; going east, the box may cross the meridian of zero. */
  predicate Inside(e: Edges, p: Point) {
    LatitudeInside(e, p.lat) && (Pole(p.lat) || LongitudeInside(e, p.lon))
  }

  predicate LatitudeInside(e: Edges, lat: nat) {
    e.south <= Latitude(lat) <= e.north
  }

  predicate LongitudeInside(e: Edges, lon: nat) {
    var west, east := Wrap(e.west), Wrap(e.east);
    if west <= east then west <= Longitude(lon) <= east
    else Longitude(lon) >= west || Longitude(lon) <= east
  }

  /** What decoding in full and then testing gives. */
  function FullTest(e: Edges, p: Point): Option<(real, real)> {
    if Inside(e, p) then Some((Latitude(p.lat), Longitude(p.lon))) else None
  }

  lemma StartOfCode(p: Point)
    requires OnGrid(p)
    ensures PointCode(p)[0] == Start(p.lat, p.lon)
  {
    hide DigitsCode, DigitsOf;
    assert Split(p.lat).degrees == p.lat / DEGREE && Split(p.lon).degrees == p.lon / DEGREE;
  }

  /** What passes the first byte is decided as by decoding in full and testing. */
  lemma DecodeOfCode(e: Edges, p: Point)
    requires OnGrid(p)
    ensures DecodeInside(MakeDecoder(e), PointCode(p))
         == if Passes(MakeDecoder(e), Start(p.lat, p.lon)) then FullTest(e, p) else None
  {
    hide Wrap, PointCode, DecodedPoint, Start, Passes, SouthWest, NorthEast, AtPole, Lat16ths;
    StartOfCode(p);
    GeoRoundTrip(p, []);
    assert PointCode(p) + [] == PointCode(p);
  }

  /** The decoder gives what decoding in full and then testing gives. */
  ghost predicate Faithful(e: Edges) {
    forall p :: OnGrid(p) ==> DecodeInside(MakeDecoder(e), PointCode(p)) == FullTest(e, p)
  }

  /** That is: the first byte excludes no point inside. */
  ghost predicate AllPass(e: Edges) {
    forall p :: OnGrid(p) && Inside(e, p) ==> Passes(MakeDecoder(e), Start(p.lat, p.lon))
  }

  lemma FaithfulIsAllPass(e: Edges)
    ensures Faithful(e) <==> AllPass(e)
  {
    hide Inside, PointCode, DecodeInside, MakeDecoder, Passes, Start, OnGrid;
    forall p | OnGrid(p)
      ensures DecodeInside(MakeDecoder(e), PointCode(p)) == FullTest(e, p) <==>
              (Inside(e, p) ==> Passes(MakeDecoder(e), Start(p.lat, p.lon)))
    {
      DecodeOfCode(e, p);
    }
  }

  // ------------------------------------------------ the points of the grid inside

  function Ceiling(x: real): int {
    if x == x.Floor as real then x.Floor else x.Floor + 1
  }

  /** The least latitude of the grid that is not south of `lat` and not a pole. */
  function FirstInner(lat: real): (a: nat)
    ensures a > 0
  {
    var up := Ceiling((lat + 90.0) * 57600.0);
    if up < 1 then 1 else up
  }

  /** The greatest latitude of the grid that is not north of `lat` and not a pole. */
  function LastInner(lat: real): (a: int)
    ensures a < LAT_TOP
  {
    var down := ((lat + 90.0) * 57600.0).Floor;
    if down >= LAT_TOP then LAT_TOP - 1 else down
  }

  lemma InnerLatitudes(e: Edges, a: nat)
    ensures 0 < a < LAT_TOP ==> (LatitudeInside(e, a) <==> FirstInner(e.south) <= a <= LastInner(e.north))
  {
    assert (Latitude(a) + 90.0) * 57600.0 == a as real;
  }

  /** The longitudes from `west` to `east` are those between these two. */
  lemma StripLongitudes(west: real, east: real, o: nat)
    requires 0.0 <= west && o < LON_TOP
    ensures west <= Longitude(o) <==> Ceiling(west * 57600.0) <= o
    ensures Longitude(o) <= east <==> o <= (east * 57600.0).Floor
  {
    assert Longitude(o) * 57600.0 == o as real;
  }

  // ---------------------------------------------------- the first bytes of a block

  lemma StartOrder(lat1: nat, lon1: nat, lat2: nat, lon2: nat)
    requires lat1 <= lat2 && lon1 <= lon2
    ensures Start(lat1, lon1) <= Start(lat2, lon2)
  {
    DivisionOrder(lat1, lat2, DEGREE);
    DivisionOrder(lon1, lon2, DEGREE);
    DivisionOrder(lat1 / DEGREE + lon1 / DEGREE * 181, lat2 / DEGREE + lon2 / DEGREE * 181, 256);
  }

  lemma DivisionOrder(a: int, b: int, unit: nat)
    requires a <= b && unit > 0
    ensures a / unit <= b / unit
  {
    var q, r := a / unit, b / unit;
    assert a == q * unit + a % unit && b == r * unit + b % unit;
    assert (q - r) * unit < unit;
    Multiple(q - r, unit);
  }

  /** Going east a degree at a time skips no first byte. */
  lemma {:induction false} DegreesReach(lat1: nat, lat2: nat, lon1: nat, lon2: nat, s: nat)
    requires lat1 <= lat2 && lon1 <= lon2 && ByteAt(lat1, lon1) <= s <= ByteAt(lat2, lon2)
    ensures exists lat: nat, lon: nat :: lat1 <= lat <= lat2 && lon1 <= lon <= lon2 && ByteAt(lat, lon) == s
    decreases lon2 - lon1
  {
    if ByteAt(lat1, lon1) != s {
      if lon1 < lon2 {
        assert ByteAt(lat1, lon1 + 1) <= ByteAt(lat1, lon1) + 1;
        DegreesReach(lat1, lat2, lon1 + 1, lon2, s);
      } else {
        var lat := 256 * s - lon1 * 181;
        assert lat1 <= lat <= lat2;
        assert ByteAt(lat, lon1) == s;
      }
    }
  }

  /** Between two angles there is one with any number of degrees between theirs. */
  lemma AngleWith(from: nat, to: nat, degrees: nat)
    requires from <= to && from / DEGREE <= degrees <= to / DEGREE
    ensures exists a: nat :: from <= a <= to && a / DEGREE == degrees
  {
    var a := if degrees == from / DEGREE then from else degrees * DEGREE;
    assert from <= a <= to && a / DEGREE == degrees;
  }

  /** Every first byte between those of the corners of a block is that of a point in it. */
  lemma StartReached(lat1: nat, lat2: nat, lon1: nat, lon2: nat, s: nat)
    requires lat1 <= lat2 && lon1 <= lon2 && Start(lat1, lon1) <= s <= Start(lat2, lon2)
    ensures exists a: nat, o: nat :: lat1 <= a <= lat2 && lon1 <= o <= lon2 && Start(a, o) == s
  {
    DivisionOrder(lat1, lat2, DEGREE);
    DivisionOrder(lon1, lon2, DEGREE);
    DegreesReach(lat1 / DEGREE, lat2 / DEGREE, lon1 / DEGREE, lon2 / DEGREE, s);
    var lat: nat, lon: nat :| lat1 / DEGREE <= lat <= lat2 / DEGREE && lon1 / DEGREE <= lon <= lon2 / DEGREE
                              && ByteAt(lat, lon) == s;
    AngleWith(lat1, lat2, lat);
    AngleWith(lon1, lon2, lon);
    var a: nat :| lat1 <= a <= lat2 && a / DEGREE == lat;
    var o: nat :| lon1 <= o <= lon2 && o / DEGREE == lon;
    assert Start(a, o) == s;
  }

  /** All first bytes from that of the south-western to that of the north-eastern corner pass. */
  predicate BlockPasses(d: Decoder, lat1: nat, lat2: int, lon1: nat, lon2: int) {
    lat1 <= lat2 && lon1 <= lon2 ==>
      forall s :: Start(lat1, lon1) <= s <= Start(lat2, lon2) ==> Passes(d, s)
  }

  /** That is so exactly if all points of the block pass. */
  lemma BlockExact(d: Decoder, lat1: nat, lat2: int, lon1: nat, lon2: int)
    ensures BlockPasses(d, lat1, lat2, lon1, lon2) <==>
            forall a: nat, o: nat :: lat1 <= a <= lat2 && lon1 <= o <= lon2 ==> Passes(d, Start(a, o))
  {
    hide Start, Passes;
    if lat1 <= lat2 && lon1 <= lon2 {
      if BlockPasses(d, lat1, lat2, lon1, lon2) {
        forall a: nat, o: nat | lat1 <= a <= lat2 && lon1 <= o <= lon2
          ensures Passes(d, Start(a, o))
        {
          StartOrder(lat1, lon1, a, o);
          StartOrder(a, o, lat2, lon2);
        }
      }
      if forall a: nat, o: nat :: lat1 <= a <= lat2 && lon1 <= o <= lon2 ==> Passes(d, Start(a, o)) {
        forall s | Start(lat1, lon1) <= s <= Start(lat2, lon2)
          ensures Passes(d, s)
        {
          StartReached(lat1, lat2, lon1, lon2, s);
        }
      }
    }
  }

  // --------------------------------------------------------- the exact condition

  predicate PoleBetween(e: Edges) {
    e.south <= -90.0 <= e.north || e.south <= 90.0 <= e.north
  }

  /**
   What a caller can compute from the edges: a pole between them passes, and so does every
   first byte between those of the corners of the box or, if it crosses the meridian of
   zero, of its two halves.
   */
  predicate BytesPass(e: Edges) {
    var d, lat1, lat2 := MakeDecoder(e), FirstInner(e.south), LastInner(e.north);
    var west, east := Ceiling(d.lon1 * 57600.0), (d.lon2 * 57600.0).Floor;
    && (PoleBetween(e) ==> Passes(d, 0))
    && (if d.discontinuous then BlockPasses(d, lat1, lat2, west, LON_TOP - 1) && BlockPasses(d, lat1, lat2, 0, east)
        else BlockPasses(d, lat1, lat2, west, east))
  }

  /** A point of the grid inside is a pole between the edges or in one of those blocks. */
  lemma InsideIsBlocks(e: Edges, p: Point)
    requires OnGrid(p)
    ensures var lat1, lat2 := FirstInner(e.south), LastInner(e.north);
            var west, east := Ceiling(Wrap(e.west) * 57600.0), (Wrap(e.east) * 57600.0).Floor;
            && (Pole(p.lat) ==> Start(p.lat, p.lon) == 0 && (Inside(e, p) ==> PoleBetween(e)))
            && (!Pole(p.lat) ==>
                  (Inside(e, p) <==>
                   && lat1 <= p.lat <= lat2
                   && (if Wrap(e.west) <= Wrap(e.east) then west <= p.lon <= east else west <= p.lon || p.lon <= east)))
  {
    hide Wrap, FirstInner, LastInner, Ceiling;
    InnerLatitudes(e, p.lat);
    StripLongitudes(Wrap(e.west), Wrap(e.east), p.lon);
  }

  lemma PolesInside(e: Edges)
    requires PoleBetween(e)
    ensures Inside(e, Point(0, 0)) || Inside(e, Point(LAT_TOP, 0))
    ensures Start(0, 0) == 0 && Start(LAT_TOP, 0) == 0 && OnGrid(Point(0, 0)) && OnGrid(Point(LAT_TOP, 0))
  {
    hide Wrap;
  }

  lemma BytesSuffice(e: Edges, p: Point)
    requires BytesPass(e) && OnGrid(p) && Inside(e, p)
    ensures Passes(MakeDecoder(e), Start(p.lat, p.lon))
  {
    hide Wrap, FirstInner, LastInner, Ceiling, Inside, Start, Passes, SouthWest, NorthEast, BlockPasses, PoleBetween;
    InsideIsBlocks(e, p);
    var d, lat1, lat2 := MakeDecoder(e), FirstInner(e.south), LastInner(e.north);
    var west, east := Ceiling(d.lon1 * 57600.0), (d.lon2 * 57600.0).Floor;
    CeilingNotNegative(d.lon1);
    BlockExact(d, lat1, lat2, west, LON_TOP - 1);
    BlockExact(d, lat1, lat2, 0, east);
    BlockExact(d, lat1, lat2, west, east);
  }

  lemma CeilingNotNegative(lon: real)
    requires 0.0 <= lon < 360.0
    ensures 0 <= Ceiling(lon * 57600.0) && (lon * 57600.0).Floor < LON_TOP
  {
  }

  lemma BytesNeeded(e: Edges)
    requires AllPass(e)
    ensures BytesPass(e)
  {
    hide Wrap, FirstInner, LastInner, Ceiling, Inside, Start, Passes, SouthWest, NorthEast, BlockPasses, PoleBetween;
    var d, lat1, lat2 := MakeDecoder(e), FirstInner(e.south), LastInner(e.north);
    var west, east := Ceiling(d.lon1 * 57600.0), (d.lon2 * 57600.0).Floor;
    CeilingNotNegative(d.lon1);
    CeilingNotNegative(d.lon2);
    forall a: nat, o: nat | lat1 <= a <= lat2 && o < LON_TOP
      ensures (if Wrap(e.west) <= Wrap(e.east) then west <= o <= east else west <= o || o <= east) ==>
                Passes(d, Start(a, o))
    {
      var p := Point(a, o);
      assert OnGrid(p);
      InsideIsBlocks(e, p);
    }
    BlockExact(d, lat1, lat2, west, LON_TOP - 1);
    BlockExact(d, lat1, lat2, 0, east);
    BlockExact(d, lat1, lat2, west, east);
    if PoleBetween(e) {
      PolesInside(e);
    }
  }

  /** For any edges: the decoder agrees with the full test on every encoded point exactly if those bytes pass. */
  lemma BoundingBoxExact(e: Edges)
    ensures Faithful(e) <==> BytesPass(e)
  {
    hide Faithful, BytesPass, Inside, Passes, MakeDecoder, Start, OnGrid;
    FaithfulIsAllPass(e);
    if AllPass(e) {
      BytesNeeded(e);
    }
    if BytesPass(e) {
      forall p | OnGrid(p) && Inside(e, p)
        ensures Passes(MakeDecoder(e), Start(p.lat, p.lon))
      {
        BytesSuffice(e, p);
      }
    }
  }

  // ------------------------------------------- boxes whose corners fit sixteen bits

  /** Both corners combine to a number of sixteen bits; all latitudes there are do, and many that are not. */
  predicate Regular(e: Edges) {
    Measurable(e) && 0 <= SouthWest(e) < 65536 && 0 <= NorthEast(e) < 65536
  }

  /**
   The box does not cross the meridian of zero, its eastern edge is so close to it that
   it is rounded there, and there is a point inside, off the poles, to lose.
   */
  predicate EastEdgeLost(e: Edges) {
    var west, east := Wrap(e.west), Wrap(e.east);
    && west <= east && Round(east * 57600.0) == LON_TOP
    && west * 57600.0 <= (LON_TOP - 1) as real
    && FirstInner(e.south) <= LastInner(e.north)
  }

  /** A pole is between the edges, neither of which is at one, and the box begins too far east for its first byte. */
  predicate PoleLost(e: Edges) {
    var d := MakeDecoder(e);
    PoleBetween(e) && !d.discontinuous && d.start1 > 0 && !d.includePoles
  }

  lemma RoundOrder(a: nat, x: real)
    ensures x <= a as real ==> RoundAway(x) <= a
    ensures a as real <= x ==> a <= RoundAway(x)
  {
  }

  lemma DegreesOrder(lat: int, a: nat)
    ensures lat <= a ==> Degrees(lat) <= a / DEGREE
    ensures a <= lat ==> a / DEGREE <= Degrees(lat)
  {
    if lat >= 0 {
      if lat <= a {
        DivisionOrder(lat, a, DEGREE);
      } else {
        DivisionOrder(a, lat, DEGREE);
      }
    }
  }

  lemma LatitudeOrder(lat: real, a: nat)
    ensures lat <= Latitude(a) ==> Degrees(Lat16ths(lat)) <= a / DEGREE
    ensures Latitude(a) <= lat ==> a / DEGREE <= Degrees(Lat16ths(lat))
  {
    hide RoundAway, Degrees;
    assert (Latitude(a) + 90.0) * 57600.0 == a as real;
    RoundOrder(a, (lat + 90.0) * 57600.0);
    DegreesOrder(Lat16ths(lat), a);
  }

  lemma LongitudeOrder(lon: real, o: nat)
    requires 0.0 <= lon < 360.0
    ensures lon <= Longitude(o) ==> Lon16ths(lon) / DEGREE <= o / DEGREE
    ensures Longitude(o) <= lon && Round(lon * 57600.0) != LON_TOP ==> o / DEGREE <= Lon16ths(lon) / DEGREE
  {
    assert Longitude(o) * 57600.0 == o as real;
    RoundOrder(o, lon * 57600.0);
    var r := Lon16ths(lon);
    if r <= o {
      DivisionOrder(r, o, DEGREE);
    } else {
      DivisionOrder(o, r, DEGREE);
    }
  }

  lemma StartAfter(e: Edges, p: Point)
    requires Regular(e) && LatitudeInside(e, p.lat) && Wrap(e.west) <= Longitude(p.lon)
    ensures Start(p.lat, p.lon) >= MakeDecoder(e).start1
  {
    hide Wrap, Degrees, Lat16ths, Lon16ths, NorthEast, AtPole;
    LatitudeOrder(e.south, p.lat);
    LongitudeOrder(Wrap(e.west), p.lon);
    DivisionOrder(SouthWest(e), p.lat / DEGREE + p.lon / DEGREE * 181, 256);
  }

  lemma StartBefore(e: Edges, p: Point)
    requires Regular(e) && LatitudeInside(e, p.lat)
    requires Longitude(p.lon) <= Wrap(e.east) && Round(Wrap(e.east) * 57600.0) != LON_TOP
    ensures Start(p.lat, p.lon) <= MakeDecoder(e).start2
  {
    hide Wrap, Degrees, Lat16ths, Lon16ths, SouthWest, AtPole;
    LatitudeOrder(e.north, p.lat);
    LongitudeOrder(Wrap(e.east), p.lon);
    DivisionOrder(p.lat / DEGREE + p.lon / DEGREE * 181, NorthEast(e), 256);
  }

  /** A western edge rounded to the meridian of zero gives the least first byte of all. */
  lemma WestRoundedAway(e: Edges, a: nat)
    requires Regular(e) && LatitudeInside(e, a) && a <= LAT_TOP && Round(Wrap(e.west) * 57600.0) == LON_TOP
    ensures MakeDecoder(e).start1 == 0
  {
    hide Wrap, Degrees, Lat16ths, NorthEast, AtPole;
    LatitudeOrder(e.south, a);
    DivisionOrder(a, LAT_TOP, DEGREE);
  }

  /** A point inside, off the poles, is one to lose. */
  lemma PointToLose(e: Edges, p: Point)
    requires OnGrid(p) && Inside(e, p) && !Pole(p.lat) && Wrap(e.west) <= Wrap(e.east)
    ensures EastEdgeLost(e) <==> Round(Wrap(e.east) * 57600.0) == LON_TOP
  {
    hide Wrap, FirstInner, LastInner;
    InnerLatitudes(e, p.lat);
    assert Longitude(p.lon) * 57600.0 == p.lon as real;
  }

  /** The first byte excludes no point inside, unless the eastern edge or a pole is lost. */
  lemma InsidePasses(e: Edges, p: Point)
    requires Regular(e) && OnGrid(p) && Inside(e, p) && !EastEdgeLost(e) && !PoleLost(e)
    ensures Passes(MakeDecoder(e), Start(p.lat, p.lon))
  {
    hide Wrap, Start, EastEdgeLost, FirstInner, LastInner, SouthWest, NorthEast, AtPole, Lat16ths;
    var west, east := Wrap(e.west), Wrap(e.east);
    if Pole(p.lat) {
      InsideIsBlocks(e, p);
    } else if west <= east {
      PointToLose(e, p);
      StartAfter(e, p);
      StartBefore(e, p);
    } else if west <= Longitude(p.lon) {
      StartAfter(e, p);
    } else if Round(east * 57600.0) != LON_TOP {
      StartBefore(e, p);
    } else {
      assert Round(west * 57600.0) == LON_TOP;
      WestRoundedAway(e, p.lat);
    }
  }

  /** With the eastern edge lost, this point inside the box is not found. */
  lemma LostPoint(e: Edges)
    requires Measurable(e) && EastEdgeLost(e)
    ensures var p := Point(FirstInner(e.south), LON_TOP - 1);
            && OnGrid(p) && Inside(e, p) && !Passes(MakeDecoder(e), Start(p.lat, p.lon))
  {
    hide Wrap, FirstInner, LastInner, SouthWest, AtPole;
    var p := Point(FirstInner(e.south), LON_TOP - 1);
    InnerLatitudes(e, p.lat);
    assert Longitude(p.lon) * 57600.0 == p.lon as real;
    LatitudeOrder(e.north, p.lat);
    FarNorth(e.north);
    assert NorthEast(e) == Degrees(Lat16ths(e.north));
    assert Start(p.lat, p.lon) > 250;
  }

  lemma FarNorth(lat: real)
    requires -37000.0 <= lat <= 37000.0
    ensures Degrees(Lat16ths(lat)) <= 37090
  {
  }

  /** The decoder agrees with the full test exactly if neither the eastern edge nor a pole is lost. */
  lemma RegularExact(e: Edges)
    requires Regular(e)
    ensures Faithful(e) <==> !EastEdgeLost(e) && !PoleLost(e)
  {
    hide Faithful, EastEdgeLost, Inside, Passes, MakeDecoder, Start, OnGrid, SouthWest, NorthEast;
    FaithfulIsAllPass(e);
    if EastEdgeLost(e) {
      LostPoint(e);
    } else if PoleLost(e) {
      PoleNotFound(e);
    } else {
      forall p | OnGrid(p) && Inside(e, p)
        ensures Passes(MakeDecoder(e), Start(p.lat, p.lon))
      {
        InsidePasses(e, p);
      }
    }
  }

  lemma PoleNotFound(e: Edges)
    requires PoleLost(e)
    ensures exists p :: OnGrid(p) && Inside(e, p) && !Passes(MakeDecoder(e), Start(p.lat, p.lon))
  {
    hide Inside, Start, SouthWest, NorthEast, AtPole;
    PolesInside(e);
  }

  /** For the latitudes there are, the eastern edge is all there is to lose. */
  lemma LatitudesExact(e: Edges)
    requires -90.0 <= e.south <= 90.0 && -90.0 <= e.north <= 90.0
    ensures Regular(e) && !PoleLost(e) && (Faithful(e) <==> !EastEdgeLost(e))
  {
    hide Wrap, Faithful, EastEdgeLost;
    assert 0 <= Lat16ths(e.south) <= LAT_TOP && 0 <= Lat16ths(e.north) <= LAT_TOP;
    RegularExact(e);
  }

  // ------------------------------------------------------------------- examples

  /** A box from the meridian of zero nearly all the way round. */
  lemma EastEdgeExample()
    ensures !Faithful(Edges(0.0, 0.0, 10.0, 359.999995))
  {
    var e := Edges(0.0, 0.0, 10.0, 359.999995);
    assert EastEdgeLost(e);
    LatitudesExact(e);
  }

  /** A northern edge half a degree past the pole: the pole is inside and is not found. */
  lemma PoleExample()
    ensures !Faithful(Edges(0.0, 10.0, 90.5, 20.0))
  {
    var e := Edges(0.0, 10.0, 90.5, 20.0);
    assert Wrap(10.0) == 10.0 && Wrap(20.0) == 20.0;
    assert Lat16ths(0.0) == 90 * DEGREE && Lat16ths(90.5) == LAT_TOP + DEGREE / 2;
    assert Lon16ths(10.0) == 10 * DEGREE && Lon16ths(20.0) == 20 * DEGREE;
    assert SouthWest(e) == 1900 && NorthEast(e) == 3800;
    assert PoleLost(e);
    RegularExact(e);
  }

  lemma SouthDecoder()
    ensures var d := MakeDecoder(Edges(-91.0, 0.0, 10.0, 20.0));
            d.start1 == 255 && !d.discontinuous && !d.includePoles
  {
    var e := Edges(-91.0, 0.0, 10.0, 20.0);
    assert Wrap(0.0) == 0.0 && Wrap(20.0) == 20.0;
    assert Lat16ths(-91.0) == -DEGREE && Lat16ths(10.0) == 100 * DEGREE;
    assert SouthWest(e) == -1;
  }

  lemma StartBelow(p: Point)
    requires OnGrid(p)
    ensures Start(p.lat, p.lon) < 255
  {
    StartOrder(p.lat, p.lon, LAT_TOP, LON_TOP - 1);
  }

  /** A southern edge a degree past the pole, in the west: nothing inside is found at all. */
  lemma SouthExample(p: Point)
    requires OnGrid(p)
    ensures DecodeInside(MakeDecoder(Edges(-91.0, 0.0, 10.0, 20.0)), PointCode(p)) == None
    ensures !Faithful(Edges(-91.0, 0.0, 10.0, 20.0))
  {
    hide MakeDecoder, Start, Inside, PointCode, DecodeInside, OnGrid, Faithful;
    var e := Edges(-91.0, 0.0, 10.0, 20.0);
    SouthDecoder();
    DecodeOfCode(e, p);
    StartBelow(p);
    FaithfulIsAllPass(e);
    PolesInside(e);
  }
}
