/** Coordinates stored in six bytes, to the sixteenth of a second. */
module Geo {
  import opened Lexicographic

  // -------------------------------------------------------------------- angles

  /** Sixteenths of a second in a degree. */
  const DEGREE := 57600
  const LAT_TOP := 180 * DEGREE
  const LON_TOP := 360 * DEGREE

  datatype DegreesMinutesSeconds = DMS(degrees: nat, minutes: nat, seconds: nat, sec16ths: nat)

  function Split(angle: nat): (dms: DegreesMinutesSeconds)
    ensures angle == dms.degrees * DEGREE + dms.minutes * 960 + dms.seconds * 16 + dms.sec16ths
    ensures dms.minutes < 60 && dms.seconds < 60 && dms.sec16ths < 16
  {
    var degrees, below := angle / DEGREE, angle % DEGREE;
    var minutes, rest := below / 960, below % 960;
    DMS(degrees, minutes, rest / 16, rest % 16)
  }

  function Round(x: real): int {
    (x + 0.5).Floor
  }

  /** The longitude brought into [0, 360). */
  function Wrap(lon: real): (w: real)
    ensures 0.0 <= w < 360.0
    ensures exists n: int :: IsWrap(lon, w, n)
  {
    var n := (lon / 360.0).Floor;
    var w := lon - 360.0 * n as real;
    assert IsWrap(lon, w, n);
    w
  }

  predicate IsWrap(lon: real, w: real, n: int) {
    w == lon - 360.0 * n as real
  }

  // ---------------------------------------------------------------- grid points

  /** A point of the grid; at a pole the longitude is zero. */
  datatype Point = Point(lat: nat, lon: nat)

  predicate Pole(lat: nat) {
    lat == 0 || lat == LAT_TOP
  }

  predicate OnGrid(p: Point) {
    p.lat <= LAT_TOP && p.lon < LON_TOP && (Pole(p.lat) ==> p.lon == 0)
  }

  function Latitude(lat: nat): real {
    lat as real / 57600.0 - 90.0
  }

  function Longitude(lon: nat): real {
    lon as real / 57600.0
  }

  /** The grid point a coordinate is rounded to. */
  function Nearest(lat: real, lon: real): (p: Point)
    requires -90.0 <= lat <= 90.0
    ensures OnGrid(p)
  {
    var a := Round((lat + 90.0) * 57600.0);
    if a == 0 || a == LAT_TOP then Point(a, 0)
    else
      var o := Round(Wrap(lon) * 57600.0);
      Point(a, if o == LON_TOP then 0 else o)
  }

  /** A grid point is its own nearest one. */
  lemma NearestOfGrid(p: Point)
    requires OnGrid(p)
    ensures -90.0 <= Latitude(p.lat) <= 90.0
    ensures Nearest(Latitude(p.lat), Longitude(p.lon)) == p
  {
    var lon := Longitude(p.lon);
    assert (lon / 360.0).Floor == 0;
    assert (Latitude(p.lat) + 90.0) * 57600.0 == p.lat as real;
    assert Wrap(lon) * 57600.0 == p.lon as real;
  }

  // --------------------------------------------------------------- the encoding

  /** The part of an angle below the degree, as it is spread over four bytes. */
  datatype Digits = Digits(quarter: nat, minute: nat, quadrant: nat, second: nat, sixteenth: nat)

  function DigitsOf(dms: DegreesMinutesSeconds): Digits {
    Digits(dms.minutes / 4, dms.minutes % 4, dms.seconds / 15, dms.seconds % 15, dms.sec16ths)
  }

  function Below(g: Digits): nat {
    g.quarter * 3840 + g.minute * 960 + g.quadrant * 240 + g.second * 16 + g.sixteenth
  }

  predicate Small(g: Digits) {
    g.quarter < 15 && g.minute < 4 && g.quadrant < 4 && g.second < 15 && g.sixteenth < 16
  }

  lemma AngleDigits(angle: nat)
    ensures Small(DigitsOf(Split(angle)))
    ensures angle == Split(angle).degrees * DEGREE + Below(DigitsOf(Split(angle)))
  {
    hide Split;
  }

  function Nibbles(high: nat, low: nat): (b: byte)
    requires high < 16 && low < 16
  {
    high * 16 + low
  }

  function Quads(a: nat, b: nat, c: nat, d: nat): (x: byte)
    requires a < 4 && b < 4 && c < 4 && d < 4
  {
    a * 64 + b * 16 + c * 4 + d
  }

  function DigitsCode(lat: Digits, lon: Digits): (s: Bytes)
    requires Small(lat) && Small(lon)
    ensures |s| == 4
  {
    [Nibbles(lat.quarter, lon.quarter), Quads(lat.minute, lon.minute, lat.quadrant, lon.quadrant),
     Nibbles(lat.second, lon.second), Nibbles(lat.sixteenth, lon.sixteenth)]
  }

  function DegreesCode(lat: nat, lon: nat): (s: Bytes)
    requires lat <= 180 && lon < 360
    ensures |s| == 2
  {
    var dd := lat + lon * 181;
    [dd / 256, dd % 256]
  }

  function PointCode(p: Point): (s: Bytes)
    requires OnGrid(p)
    ensures |s| == 6
  {
    AngleDigits(p.lat);
    AngleDigits(p.lon);
    var lat, lon := Split(p.lat), Split(p.lon);
    DegreesCode(lat.degrees, lon.degrees) + DigitsCode(DigitsOf(lat), DigitsOf(lon))
  }

  method Encode(lat: real, lon: real, before: Bytes) returns (ok: bool, result: Bytes)
    ensures ok <==> -90.0 <= lat <= 90.0
    ensures result == if ok then before + PointCode(Nearest(lat, lon)) else before
  {
    hide Wrap, PointCode;
    if lat < -90.0 || lat > 90.0 {
      return false, before;
    }
    var east := Wrap(lon);
    var lat16ths := Round((lat + 90.0) * 57600.0);
    var lon16ths := 0;
    if !(lat16ths == 0 || lat16ths == LAT_TOP) {
      lon16ths := Round(east * 57600.0);
      if lon16ths == LON_TOP {
        lon16ths := 0;
      }
    }
    ok := true;
    result := before + PointCode(Point(lat16ths, lon16ths));
  }

  /** The nearest point is within half a sixteenth of a second, but for the longitude of a pole. */
  lemma NearestIsClose(lat: real, lon: real)
    requires -90.0 <= lat <= 90.0
    ensures var p := Nearest(lat, lon);
            && -0.5 < (Latitude(p.lat) - lat) * 57600.0 <= 0.5
            && (Pole(p.lat) || exists n: int :: Near(Longitude(p.lon), lon, n))
  {
    var p := Nearest(lat, lon);
    assert (Latitude(p.lat) - lat) * 57600.0 == p.lat as real - (lat + 90.0) * 57600.0;
    if !Pole(p.lat) {
      var w := Wrap(lon);
      var n: int :| IsWrap(lon, w, n);
      assert Near(Longitude(p.lon), lon, if Round(w * 57600.0) == LON_TOP then n + 1 else n);
    }
  }

  /** `east` is within half a sixteenth of a second of `lon`, `n` turns apart. */
  predicate Near(east: real, lon: real, n: int) {
    -0.5 < (east + 360.0 * n as real - lon) * 57600.0 <= 0.5
  }

  // --------------------------------------------------------------- the decoding

  function At(s: Bytes, i: nat): nat {
    if i < |s| then s[i] else 0
  }

  function High(b: nat): nat {
    b / 16
  }

  function Low(b: nat): nat {
    b % 16
  }

  /** Two bits of a byte, the top ones first. */
  function Quad(b: nat, i: nat): nat
    requires i < 4
  {
    if i == 0 then b / 64 % 4 else if i == 1 then b / 16 % 4 else if i == 2 then b / 4 % 4 else b % 4
  }

  function LatDigits(s: Bytes): Digits {
    Digits(High(At(s, 2)), Quad(At(s, 3), 0), Quad(At(s, 3), 2), High(At(s, 4)), High(At(s, 5)))
  }

  function LonDigits(s: Bytes): Digits {
    Digits(Low(At(s, 2)), Quad(At(s, 3), 1), Quad(At(s, 3), 3), Low(At(s, 4)), Low(At(s, 5)))
  }

  /** The point the bytes stand for; those left out count as zero. */
  function DecodedPoint(s: Bytes): Point
    requires |s| >= 2
  {
    var dd := At(s, 0) * 256 + At(s, 1);
    Point(dd % 181 * DEGREE + Below(LatDigits(s)), dd / 181 * DEGREE + Below(LonDigits(s)))
  }

  lemma ZeroBits()
    ensures High(0) == 0 && Low(0) == 0 && forall i :: 0 <= i < 4 ==> Quad(0, i) == 0
  {
  }

  /** The seconds of both angles, from the fourth byte on. */
  method DecodeSeconds(value: Bytes) returns (lat: real, lon: real)
    requires |value| > 3
    ensures var g := LatDigits(value); lat * 16.0 == (g.quadrant * 240 + g.second * 16 + g.sixteenth) as real
    ensures var g := LonDigits(value); lon * 16.0 == (g.quadrant * 240 + g.second * 16 + g.sixteenth) as real
  {
    hide High, Low, Quad;
    ZeroBits();
    var tmp: nat := value[3];
    lat, lon := (Quad(tmp, 2) * 15) as real, (Quad(tmp, 3) * 15) as real;
    if |value| > 4 {
      tmp := value[4];
      lat, lon := lat + High(tmp) as real, lon + Low(tmp) as real;
      if |value| > 5 {
        tmp := value[5];
        lat, lon := lat + High(tmp) as real / 16.0, lon + Low(tmp) as real / 16.0;
      }
    }
  }

  /** The minutes of both angles, from the third byte on. */
  method DecodeMinutes(value: Bytes) returns (lat: real, lon: real)
    requires |value| > 2
    ensures lat * 960.0 == Below(LatDigits(value)) as real && lon * 960.0 == Below(LonDigits(value)) as real
  {
    hide High, Low, Quad;
    ZeroBits();
    var tmp: nat := value[2];
    lat, lon := (High(tmp) * 4) as real, (Low(tmp) * 4) as real;
    if |value| > 3 {
      tmp := value[3];
      lat, lon := lat + Quad(tmp, 0) as real, lon + Quad(tmp, 1) as real;
      var latS, lonS := DecodeSeconds(value);
      lat, lon := lat + latS / 60.0, lon + lonS / 60.0;
    }
  }

  method Decode(value: Bytes) returns (lat: real, lon: real)
    requires |value| >= 2
    ensures lat == Latitude(DecodedPoint(value).lat) && lon == Longitude(DecodedPoint(value).lon)
  {
    hide High, Low, Quad, Below;
    var tmp: nat := value[0] as int * 256 + value[1] as int;
    var latDegrees, lonDegrees := tmp % 181, tmp / 181;
    lat, lon := latDegrees as real, lonDegrees as real;
    if |value| > 2 {
      var latM, lonM := DecodeMinutes(value);
      lat, lon := lat + latM / 60.0, lon + lonM / 60.0;
    } else {
      NothingBelow(value);
    }
    lat := lat - 90.0;
  }

  lemma NothingBelow(s: Bytes)
    requires |s| == 2
    ensures Below(LatDigits(s)) == 0 && Below(LonDigits(s)) == 0
  {
    hide High, Low, Quad;
    ZeroBits();
  }

  /** What the bytes up to the `k`th can tell apart, in sixteenths of a second. */
  function Unit(k: nat): (u: nat)
    requires 2 <= k <= 6
    ensures u > 0
  {
    if k == 2 then DEGREE else if k == 3 then 3840 else if k == 4 then 240 else if k == 5 then 16 else 1
  }

  function Down(a: nat, unit: nat): (r: nat)
    requires unit > 0
    ensures r <= a < r + unit
  {
    a - a % unit
  }

  /** The digits that `k` bytes hold. */
  function Cut(g: Digits, k: nat): Digits {
    Digits(if k > 2 then g.quarter else 0, if k > 3 then g.minute else 0, if k > 3 then g.quadrant else 0,
           if k > 4 then g.second else 0, if k > 5 then g.sixteenth else 0)
  }

  lemma Multiple(k: int, unit: nat)
    ensures k >= 1 ==> k * unit >= unit
    ensures k <= -1 ==> k * unit + unit <= 0
  {
  }

  lemma DivisionIs(a: nat, n: nat, r: nat, unit: nat)
    requires r < unit && a == n * unit + r
    ensures a / unit == n && a % unit == r
  {
    var q, s := a / unit, a % unit;
    assert a == q * unit + s;
    assert (q - n) * unit == r - s;
    Multiple(q - n, unit);
  }

  lemma DownParts(cut: nat, n: nat, r: nat, unit: nat)
    requires r < unit && cut == n * unit
    ensures Down(cut + r, unit) == cut
  {
    DivisionIs(cut + r, n, r, unit);
  }

  lemma BelowNothing()
    ensures Below(Digits(0, 0, 0, 0, 0)) == 0
  {
  }

  lemma BelowDegree(g: Digits)
    requires Small(g)
    ensures Below(g) < DEGREE
  {
  }

  lemma CutTwo(degrees: nat, g: Digits)
    requires Small(g)
    ensures degrees * DEGREE + Below(Cut(g, 2)) == Down(degrees * DEGREE + Below(g), DEGREE)
  {
    hide Down, Below, Small;
    BelowNothing();
    BelowDegree(g);
    DownParts(degrees * DEGREE, degrees, Below(g), DEGREE);
  }

  lemma CutThree(degrees: nat, g: Digits)
    requires Small(g)
    ensures degrees * DEGREE + Below(Cut(g, 3)) == Down(degrees * DEGREE + Below(g), 3840)
  {
    hide Down;
    var n, r := degrees * 15 + g.quarter, g.minute * 960 + g.quadrant * 240 + g.second * 16 + g.sixteenth;
    DownParts(n * 3840, n, r, 3840);
  }

  lemma CutFour(degrees: nat, g: Digits)
    requires Small(g)
    ensures degrees * DEGREE + Below(Cut(g, 4)) == Down(degrees * DEGREE + Below(g), 240)
  {
    hide Down;
    var n, r := degrees * 240 + g.quarter * 16 + g.minute * 4 + g.quadrant, g.second * 16 + g.sixteenth;
    DownParts(n * 240, n, r, 240);
  }

  lemma CutFive(degrees: nat, g: Digits)
    requires Small(g)
    ensures degrees * DEGREE + Below(Cut(g, 5)) == Down(degrees * DEGREE + Below(g), 16)
  {
    hide Down;
    var n := degrees * 3600 + g.quarter * 240 + g.minute * 60 + g.quadrant * 15 + g.second;
    DownParts(n * 16, n, g.sixteenth, 16);
  }

  lemma CutSix(degrees: nat, g: Digits)
    ensures degrees * DEGREE + Below(Cut(g, 6)) == Down(degrees * DEGREE + Below(g), 1)
  {
    hide Below;
    assert Cut(g, 6) == g;
  }

  lemma CutIsDown(degrees: nat, g: Digits, k: nat)
    requires 2 <= k <= 6 && Small(g)
    ensures degrees * DEGREE + Below(Cut(g, k)) == Down(degrees * DEGREE + Below(g), Unit(k))
  {
    hide Down, Below, Cut, Small;
    if k == 2 {
      CutTwo(degrees, g);
    } else if k == 3 {
      CutThree(degrees, g);
    } else if k == 4 {
      CutFour(degrees, g);
    } else if k == 5 {
      CutFive(degrees, g);
    } else {
      CutSix(degrees, g);
    }
  }

  lemma NibblesBack(high: nat, low: nat)
    requires high < 16 && low < 16
    ensures High(Nibbles(high, low)) == high && Low(Nibbles(high, low)) == low
  {
  }

  lemma QuadsBack(a: nat, b: nat, c: nat, d: nat)
    requires a < 4 && b < 4 && c < 4 && d < 4
    ensures var x := Quads(a, b, c, d); Quad(x, 0) == a && Quad(x, 1) == b && Quad(x, 2) == c && Quad(x, 3) == d
  {
    var x := Quads(a, b, c, d);
    DivisionIs(x, a, b * 16 + c * 4 + d, 64);
    DivisionIs(x, a * 4 + b, c * 4 + d, 16);
    DivisionIs(a * 4 + b, a, b, 4);
    DivisionIs(x, a * 16 + b * 4 + c, d, 4);
    DivisionIs(a * 16 + b * 4 + c, a * 4 + b, c, 4);
  }

  lemma DegreesBack(lat: nat, lon: nat)
    requires lat <= 180 && lon < 360
    ensures var s := DegreesCode(lat, lon);
            var dd := s[0] as int * 256 + s[1] as int; dd % 181 == lat && dd / 181 == lon
  {
  }

  lemma CodeHolds(p: Point, k: nat)
    requires OnGrid(p) && 2 <= k <= 6
    ensures var s := PointCode(p)[..k];
            && DecodedPoint(s) == Point(Split(p.lat).degrees * DEGREE + Below(Cut(DigitsOf(Split(p.lat)), k)),
                                        Split(p.lon).degrees * DEGREE + Below(Cut(DigitsOf(Split(p.lon)), k)))
  {
    hide High, Low, Quad, Nibbles, Quads, DegreesCode, Split, DigitsOf, Below;
    AngleDigits(p.lat);
    AngleDigits(p.lon);
    ZeroBits();
    var lat, lon := DigitsOf(Split(p.lat)), DigitsOf(Split(p.lon));
    DegreesBack(Split(p.lat).degrees, Split(p.lon).degrees);
    NibblesBack(lat.quarter, lon.quarter);
    QuadsBack(lat.minute, lon.minute, lat.quadrant, lon.quadrant);
    NibblesBack(lat.second, lon.second);
    NibblesBack(lat.sixteenth, lon.sixteenth);
    var s := PointCode(p)[..k];
    assert LatDigits(s) == Cut(lat, k);
    assert LonDigits(s) == Cut(lon, k);
  }

  /**
   The first `k` bytes of a point's code decode to the point rounded down: by less than a
   degree, four minutes, fifteen seconds, a second, or not at all for all six.
   */
  lemma PrefixRoundsDown(p: Point, k: nat)
    requires OnGrid(p) && 2 <= k <= 6
    ensures DecodedPoint(PointCode(p)[..k]) == Point(Down(p.lat, Unit(k)), Down(p.lon, Unit(k)))
  {
    hide Split, DecodedPoint, PointCode, Cut, Below, DigitsOf, Down;
    CodeHolds(p, k);
    AngleDigits(p.lat);
    AngleDigits(p.lon);
    CutIsDown(Split(p.lat).degrees, DigitsOf(Split(p.lat)), k);
    CutIsDown(Split(p.lon).degrees, DigitsOf(Split(p.lon)), k);
  }

  lemma GeoRoundTrip(p: Point, suffix: Bytes)
    requires OnGrid(p)
    ensures DecodedPoint(PointCode(p) + suffix) == p
  {
    hide PointCode, High, Low, Quad;
    var s := PointCode(p);
    assert s[..6] == s;
    PrefixRoundsDown(p, 6);
    hide DecodedPoint;
    FirstSix(s, suffix);
  }

  /** Only the first six bytes count. */
  lemma FirstSix(s: Bytes, suffix: Bytes)
    requires |s| == 6
    ensures DecodedPoint(s + suffix) == DecodedPoint(s)
  {
    hide High, Low, Quad, Below;
    var t := s + suffix;
    assert At(t, 0) == At(s, 0) && At(t, 1) == At(s, 1) && At(t, 2) == At(s, 2);
    assert At(t, 3) == At(s, 3) && At(t, 4) == At(s, 4) && At(t, 5) == At(s, 5);
    assert LatDigits(t) == LatDigits(s) && LonDigits(t) == LonDigits(s);
  }
}
