/** Earth-centred and local coordinates. Distances are real numbers; the sine and cosine of an
    angle are any pair on the unit circle, and a square root is a positive number with the right
    square. */
module EarthModel {

  const A: real := 6378137.0          // equatorial radius, metres
  const B: real := 6356752.3142       // polar radius
  const F: real := (A - B) / A
  const E2: real := F * (2.0 - F)     // squared eccentricity

  datatype Vec = Vec(x: real, y: real, z: real)

  /** A latitude, a longitude and a height, with the root that the prime vertical radius needs. */
  datatype Site = Site(sinLat: real, cosLat: real, sinLon: real, cosLon: real, height: real, root: real)

  ghost predicate UnitPair(s: real, c: real) {
    s * s + c * c == 1.0
  }

  /** Heights may be any number; the two angles only have to be angles. */
  ghost predicate OnEarth(p: Site) {
    && UnitPair(p.sinLat, p.cosLat)
    && UnitPair(p.sinLon, p.cosLon)
    && p.root > 0.0 && p.root * p.root == 1.0 - E2 * p.sinLat * p.sinLat
  }

  function Minus(p: Vec, q: Vec): Vec {
    Vec(p.x - q.x, p.y - q.y, p.z - q.z)
  }

  function Plus(p: Vec, q: Vec): Vec {
    Vec(p.x + q.x, p.y + q.y, p.z + q.z)
  }

  function SquaredLength(p: Vec): real {
    p.x * p.x + p.y * p.y + p.z * p.z
  }

  function SquaredDistance(p: Vec, q: Vec): real {
    SquaredLength(Minus(p, q))
  }

  // ---------------------------------------------------------------- the transforms

  function LlaToEcef(p: Site): Vec
    requires p.root > 0.0
  {
    var n := A / p.root;
    Vec((p.height + n) * p.cosLat * p.cosLon,
        (p.height + n) * p.cosLat * p.sinLon,
        (p.height + (1.0 - E2) * n) * p.sinLat)
  }

  /** An offset in Earth axes, seen from the reference. */
  function Turn(d: Vec, r: Site): Vec {
    var t := -r.cosLon * d.x - r.sinLon * d.y;
    Vec(-r.sinLon * d.x + r.cosLon * d.y,
        t * r.sinLat + r.cosLat * d.z,
        r.cosLat * r.cosLon * d.x + r.cosLat * r.sinLon * d.y + r.sinLat * d.z)
  }

  /** An offset seen from the reference, in Earth axes. */
  function TurnBack(v: Vec, r: Site): Vec {
    var t := r.cosLat * v.z - r.sinLat * v.y;
    Vec(r.cosLon * t - r.sinLon * v.x,
        r.sinLon * t + r.cosLon * v.x,
        r.sinLat * v.z + r.cosLat * v.y)
  }

  function EcefToEnu(p: Vec, r: Site): Vec
    requires r.root > 0.0
  {
    Turn(Minus(p, LlaToEcef(r)), r)
  }

  function EnuToEcef(v: Vec, r: Site): Vec
    requires r.root > 0.0
  {
    Plus(TurnBack(v, r), LlaToEcef(r))
  }

  function LlaToEnu(p: Site, r: Site): Vec
    requires p.root > 0.0 && r.root > 0.0
  {
    EcefToEnu(LlaToEcef(p), r)
  }

  function LlaToNed(p: Site, r: Site): Vec
    requires p.root > 0.0 && r.root > 0.0
  {
    var v := LlaToEnu(p, r);
    Vec(v.y, v.x, -v.z)
  }

  // ---------------------------------------------------------------- plane rotations

  /** The first coordinate of (a, b) after turning the axes by the angle of (s, c). */
  function Along(s: real, c: real, a: real, b: real): real {
    c * a + s * b
  }

  /** And the second. */
  function Across(s: real, c: real, a: real, b: real): real {
    c * b - s * a
  }

  /** c (c a + s b) - s (c b - s a) == a */
  lemma BackFirst(s: real, c: real, a: real, b: real)
    requires UnitPair(s, c)
    ensures c * Along(s, c, a, b) - s * Across(s, c, a, b) == a
  {
  }

  /** s (c a + s b) + c (c b - s a) == b */
  lemma BackSecond(s: real, c: real, a: real, b: real)
    requires UnitPair(s, c)
    ensures s * Along(s, c, a, b) + c * Across(s, c, a, b) == b
  {
  }

  /** A rotation keeps squared lengths. */
  lemma KeepsLength(s: real, c: real, a: real, b: real)
    requires UnitPair(s, c)
    ensures var u, v := Along(s, c, a, b), Across(s, c, a, b); u * u + v * v == a * a + b * b
  {
  }

  // ---------------------------------------------------------------- the two turns

  /** Turning is a rotation about the Earth's axis by the longitude, then one about the local
      east axis by the latitude. */
  lemma TurnIsTwoRotations(d: Vec, r: Site)
    ensures var q := Along(r.sinLon, r.cosLon, d.x, d.y);
            Turn(d, r) == Vec(Across(r.sinLon, r.cosLon, d.x, d.y),
                              Across(r.sinLat, r.cosLat, q, d.z),
                              Along(r.sinLat, r.cosLat, q, d.z))
  {
  }

  lemma TurnBackTurns(d: Vec, r: Site)
    requires UnitPair(r.sinLat, r.cosLat) && UnitPair(r.sinLon, r.cosLon)
    ensures TurnBack(Turn(d, r), r) == d
  {
    hide Turn, Along, Across, UnitPair;
    var q := Along(r.sinLon, r.cosLon, d.x, d.y);
    TurnIsTwoRotations(d, r);
    BackFirst(r.sinLat, r.cosLat, q, d.z);
    BackSecond(r.sinLat, r.cosLat, q, d.z);
    BackFirst(r.sinLon, r.cosLon, d.x, d.y);
    BackSecond(r.sinLon, r.cosLon, d.x, d.y);
  }

  lemma TurnKeepsLength(d: Vec, r: Site)
    requires UnitPair(r.sinLat, r.cosLat) && UnitPair(r.sinLon, r.cosLon)
    ensures SquaredLength(Turn(d, r)) == SquaredLength(d)
  {
    var q := Along(r.sinLon, r.cosLon, d.x, d.y);
    TurnIsTwoRotations(d, r);
    KeepsLength(r.sinLat, r.cosLat, q, d.z);
    KeepsLength(r.sinLon, r.cosLon, d.x, d.y);
  }

  lemma BackIsTwoRotations(v: Vec, r: Site)
    ensures var q := Along(-r.sinLat, r.cosLat, v.z, v.y);
            TurnBack(v, r) == Vec(Along(-r.sinLon, r.cosLon, q, v.x),
                                  Across(-r.sinLon, r.cosLon, q, v.x),
                                  Across(-r.sinLat, r.cosLat, v.z, v.y))
  {
  }

  lemma TurnTurnsBack(v: Vec, r: Site)
    requires UnitPair(r.sinLat, r.cosLat) && UnitPair(r.sinLon, r.cosLon)
    ensures Turn(TurnBack(v, r), r) == v
  {
    hide Turn, TurnBack, Along, Across, UnitPair;
    var q := Along(-r.sinLat, r.cosLat, v.z, v.y);
    BackIsTwoRotations(v, r);
    TurnIsTwoRotations(TurnBack(v, r), r);
    Unturned(r.sinLon, r.cosLon, q, v.x);
    Unturned(r.sinLat, r.cosLat, v.z, v.y);
  }

  /** Turning by an angle undoes turning by its negative. */
  lemma Unturned(s: real, c: real, a: real, b: real)
    requires UnitPair(s, c)
    ensures var u, v := Along(-s, c, a, b), Across(-s, c, a, b);
            Along(s, c, u, v) == a && Across(s, c, u, v) == b
  {
  }

  // ---------------------------------------------------------------- main results

  /** With one reference, the two transforms are inverses of each other. */
  lemma MutualInverses(p: Vec, r: Site)
    requires OnEarth(r)
    ensures EnuToEcef(EcefToEnu(p, r), r) == p
    ensures EcefToEnu(EnuToEcef(p, r), r) == p
  {
    TurnBackTurns(Minus(p, LlaToEcef(r)), r);
    TurnTurnsBack(p, r);
    assert Minus(EnuToEcef(p, r), LlaToEcef(r)) == TurnBack(p, r);
  }

  lemma TurnIsLinear(d: Vec, e: Vec, r: Site)
    ensures Turn(Minus(d, e), r) == Minus(Turn(d, r), Turn(e, r))
  {
    hide Turn, Along, Across;
    var q, qd, qe := Along(r.sinLon, r.cosLon, d.x - e.x, d.y - e.y),
      Along(r.sinLon, r.cosLon, d.x, d.y), Along(r.sinLon, r.cosLon, e.x, e.y);
    TurnIsTwoRotations(Minus(d, e), r);
    TurnIsTwoRotations(d, r);
    TurnIsTwoRotations(e, r);
    LinearPair(r.sinLon, r.cosLon, d.x, d.y, e.x, e.y);
    LinearPair(r.sinLat, r.cosLat, qd, d.z, qe, e.z);
  }

  lemma LinearPair(s: real, c: real, a: real, b: real, a': real, b': real)
    ensures Along(s, c, a - a', b - b') == Along(s, c, a, b) - Along(s, c, a', b')
    ensures Across(s, c, a - a', b - b') == Across(s, c, a, b) - Across(s, c, a', b')
  {
  }

  /** Local coordinates keep every distance, and so do the Earth-centred ones made from them. */
  lemma DistancesPreserved(p: Vec, q: Vec, r: Site)
    requires OnEarth(r)
    ensures SquaredDistance(EcefToEnu(p, r), EcefToEnu(q, r)) == SquaredDistance(p, q)
    ensures SquaredDistance(EnuToEcef(p, r), EnuToEcef(q, r)) == SquaredDistance(p, q)
  {
    EnuKeepsDistance(p, q, r);
    MutualInverses(p, r);
    MutualInverses(q, r);
    EnuKeepsDistance(EnuToEcef(p, r), EnuToEcef(q, r), r);
  }

  lemma EnuKeepsDistance(p: Vec, q: Vec, r: Site)
    requires OnEarth(r)
    ensures SquaredDistance(EcefToEnu(p, r), EcefToEnu(q, r)) == SquaredDistance(p, q)
  {
    var o := LlaToEcef(r);
    TurnIsLinear(Minus(p, o), Minus(q, o), r);
    assert Minus(Minus(p, o), Minus(q, o)) == Minus(p, q);
    TurnKeepsLength(Minus(p, q), r);
  }

  /** North-east-down offsets measure the true distance, whichever end is the reference, and in
      any common reference. */
  lemma NedMeasuresDistance(p: Site, q: Site, r: Site)
    requires OnEarth(p) && OnEarth(q) && OnEarth(r)
    ensures SquaredDistance(LlaToNed(p, r), LlaToNed(q, r))
            == SquaredDistance(LlaToEcef(p), LlaToEcef(q))
    ensures SquaredLength(LlaToNed(p, q)) == SquaredLength(LlaToNed(q, p))
            == SquaredDistance(LlaToEcef(p), LlaToEcef(q))
  {
    EnuKeepsDistance(LlaToEcef(p), LlaToEcef(q), r);
    NedLength(LlaToEnu(p, r), LlaToEnu(q, r));
    NedFromOneEnd(p, q);
    NedFromOneEnd(q, p);
    Mirror(LlaToEcef(p), LlaToEcef(q));
  }

  lemma NedLength(v: Vec, w: Vec)
    ensures SquaredDistance(Vec(v.y, v.x, -v.z), Vec(w.y, w.x, -w.z)) == SquaredDistance(v, w)
  {
  }

  lemma Negated(a: real)
    ensures (-a) * (-a) == a * a
  {
  }

  lemma Mirror(p: Vec, q: Vec)
    ensures SquaredDistance(p, q) == SquaredDistance(q, p)
  {
  }

  lemma NedFromOneEnd(p: Site, r: Site)
    requires OnEarth(p) && OnEarth(r)
    ensures SquaredLength(LlaToNed(p, r)) == SquaredDistance(LlaToEcef(p), LlaToEcef(r))
  {
    TurnKeepsLength(Minus(LlaToEcef(p), LlaToEcef(r)), r);
    Negated(LlaToEnu(p, r).z);
  }

  /** Over one spot of the ground the offset is straight down, by the difference in height; a
      site seen from itself is therefore the zero vector. */
  lemma StraightDown(p: Site, height: real)
    requires OnEarth(p)
    ensures LlaToNed(p.(height := height), p) == Vec(0.0, 0.0, p.height - height)
    ensures LlaToNed(p, p) == Vec(0.0, 0.0, 0.0)
  {
    UpwardOffset(p, height);
    UpwardOffset(p, p.height);
  }

  lemma TurnBackUp(p: Site, up: real)
    ensures TurnBack(Vec(0.0, 0.0, up), p)
            == Vec(p.cosLon * (p.cosLat * up), p.sinLon * (p.cosLat * up), p.sinLat * up)
  {
  }

  lemma UpwardOffset(p: Site, height: real)
    requires OnEarth(p)
    ensures LlaToEnu(p.(height := height), p) == Vec(0.0, 0.0, height - p.height)
  {
    hide Turn, TurnBack, LlaToEcef, Minus, UnitPair;
    HeightOffset(p, height);
    TurnTurnsBack(Vec(0.0, 0.0, height - p.height), p);
  }

  /** Height is added along the local vertical. */
  lemma HeightOffset(p: Site, height: real)
    requires p.root > 0.0
    ensures Minus(LlaToEcef(p.(height := height)), LlaToEcef(p))
            == TurnBack(Vec(0.0, 0.0, height - p.height), p)
  {
    hide TurnBack;
    var n := A / p.root;
    TurnBackUp(p, height - p.height);
    HeightTerm(height, p.height, n, p.cosLat, p.cosLon);
    HeightTerm(height, p.height, n, p.cosLat, p.sinLon);
    HeightTerm(height, p.height, (1.0 - E2) * n, p.sinLat, 1.0);
  }

  lemma HeightTerm(h: real, k: real, n: real, a: real, b: real)
    ensures (h + n) * a * b - (k + n) * a * b == b * (a * (h - k))
  {
  }

  /** A site of height zero lies on the ellipsoid with semi-axes A, A and B. */
  lemma SeaLevelIsTheEllipsoid(p: Site)
    requires OnEarth(p) && p.height == 0.0
    ensures var e, a, b := LlaToEcef(p), 6378137.0, 6356752.3142;
            (e.x * e.x + e.y * e.y) * (b * b) + (e.z * e.z) * (a * a) == (a * a) * (b * b)
  {
  }

  // ---------------------------------------------------------------- the local axes

  function Dot(p: Vec, q: Vec): real {
    p.x * q.x + p.y * q.y + p.z * q.z
  }

  /** Unit vectors at a site, in Earth axes: along the parallel, along the meridian towards the
      pole, and along the vertical. */
  function East(r: Site): Vec {
    Vec(-r.sinLon, r.cosLon, 0.0)
  }

  function North(r: Site): Vec {
    Vec(-(r.sinLat * r.cosLon), -(r.sinLat * r.sinLon), r.cosLat)
  }

  function Up(r: Site): Vec {
    Vec(r.cosLat * r.cosLon, r.cosLat * r.sinLon, r.sinLat)
  }

  /** The first coordinate is the part to the north, the second the part to the east, the third
      the part downwards. North rises towards the pole by the cosine of the latitude, east runs
      along the parallel, level with the equator. */
  lemma NedAxes(p: Site, r: Site)
    requires p.root > 0.0 && r.root > 0.0
    ensures North(r).z == r.cosLat && East(r).z == 0.0 && Dot(East(r), Vec(r.cosLon, r.sinLon, 0.0)) == 0.0
    ensures var d := Minus(LlaToEcef(p), LlaToEcef(r));
            LlaToNed(p, r) == Vec(Dot(North(r), d), Dot(East(r), d), -Dot(Up(r), d))
  {
    hide LlaToEcef;
    TurnAxes(Minus(LlaToEcef(p), LlaToEcef(r)), r);
  }

  lemma TurnAxes(d: Vec, r: Site)
    ensures Turn(d, r) == Vec(Dot(East(r), d), Dot(North(r), d), Dot(Up(r), d))
  {
  }
}
