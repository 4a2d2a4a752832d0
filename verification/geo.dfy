/** The distance and optimal-centre engine of geo_utils.py. */
module Geo {
  import opened Wrappers
  import opened Records
  import opened Numbers

  /** The only method string that selects the city-block metric. */
  const ManhattanMethod: string := "manhattan"
  const HaversineMethod: string := "haversine"
  const EarthRadiusKm: real := 6371.0

  /** The floating-point trigonometry the distances rely on, supplied by the caller:
      `centralAngle(lat1, lon1, lat2, lon2)` is the `c = 2 * atan2(sqrt(a), sqrt(1 - a))`
      of the haversine formula in radians, and `cosDeg(x)` is `cos(radians(x))`. */
  datatype Trig = Trig(centralAngle: (real, real, real, real) -> real, cosDeg: real -> real)

  /** The laws of the trigonometry that the engine's properties rest on. */
  ghost predicate Lawful(t: Trig) {
    && (forall lat, lng :: t.centralAngle(lat, lng, lat, lng) == 0.0)
    && (forall a, b, c, d :: t.centralAngle(a, b, c, d) == t.centralAngle(c, d, a, b))
    && (forall a, b, c, d :: t.centralAngle(a, b, c, d) >= 0.0)
    && (forall x :: -90.0 <= x <= 90.0 ==> t.cosDeg(x) >= 0.0)
  }

  predicate InRange(p: Point) {
    -90.0 <= p.lat <= 90.0 && -180.0 <= p.lng <= 180.0
  }

  /** calculate_haversine_distance: great-circle distance on a sphere of radius 6371 km. */
  function Haversine(p: Point, q: Point, t: Trig): (r: real)
    ensures Lawful(t) ==> r >= 0.0
    ensures Lawful(t) && p == q ==> r == 0.0
  {
    EarthRadiusKm * t.centralAngle(p.lat, p.lng, q.lat, q.lng)
  }

  /** calculate_manhattan_distance: 111 km per degree of latitude plus 111 km per degree of
      longitude scaled by the cosine of the mean latitude. A point is at distance 0 from
      itself whatever the cosine returns; with a non-negative cosine the distance is at
      least the latitude leg. */
  function Manhattan(p: Point, q: Point, t: Trig): (r: real)
    ensures p == q ==> r == 0.0
    ensures t.cosDeg((p.lat + q.lat) / 2.0) >= 0.0 ==> r >= Abs(p.lat - q.lat) * 111.0 >= 0.0
  {
    var latLeg := Abs(p.lat - q.lat) * 111.0;
    var lngLeg := Abs(p.lng - q.lng) * 111.0;
    var c := t.cosDeg((p.lat + q.lat) / 2.0);
    assert c >= 0.0 ==> lngLeg * c >= 0.0;
    latLeg + lngLeg * c
  }

  /** calculate_distance: the dispatcher. Under either metric a point is at distance 0 from
      itself, and points with valid latitudes are never at a negative distance. */
  function Distance(p: Point, q: Point, metric: string, t: Trig): (r: real)
    ensures Lawful(t) && p == q ==> r == 0.0
    ensures Lawful(t) && InRange(p) && InRange(q) ==> r >= 0.0
  {
    assert InRange(p) && InRange(q) ==> -90.0 <= (p.lat + q.lat) / 2.0 <= 90.0;
    if metric == ManhattanMethod then Manhattan(p, q, t) else Haversine(p, q, t)
  }

  /** Swapping the points changes neither the absolute differences nor the mean latitude. */
  lemma ManhattanSymmetric(p: Point, q: Point, t: Trig)
    ensures Manhattan(p, q, t) == Manhattan(q, p, t)
  {
    assert (p.lat + q.lat) / 2.0 == (q.lat + p.lat) / 2.0;
  }

  /** Only the exact string "manhattan" selects the city-block metric; every other string,
      a capitalised spelling or an unknown name included, falls back to Haversine. */
  lemma MethodSelection(p: Point, q: Point, metric: string, t: Trig)
    ensures metric == ManhattanMethod ==> Distance(p, q, metric, t) == Manhattan(p, q, t)
    ensures metric != ManhattanMethod ==> Distance(p, q, metric, t) == Haversine(p, q, t)
    ensures Distance(p, q, "Manhattan", t) == Haversine(p, q, t)
  {
  }

  /** Distance is symmetric in its two points under either metric. */
  lemma DistanceSymmetric(p: Point, q: Point, metric: string, t: Trig)
    requires Lawful(t)
    ensures Distance(p, q, metric, t) == Distance(q, p, metric, t)
  {
    ManhattanSymmetric(p, q, t);
    assert t.centralAngle(p.lat, p.lng, q.lat, q.lng) == t.centralAngle(q.lat, q.lng, p.lat, p.lng);
  }

  /** The centre calculate_optimal_location picks: the coordinate-wise median for
      "manhattan", the coordinate-wise mean for every other metric. None stands for the NaN
      that pandas' median and mean return on an empty frame. */
  function CenterOf(rows: seq<School>, metric: string): (c: Option<Point>)
    ensures c.None? <==> rows == []
  {
    if rows == [] then None
    else if metric == ManhattanMethod then Some(Point(Median(Lats(rows)), Median(Lngs(rows))))
    else Some(Point(Mean(Lats(rows)), Mean(Lngs(rows))))
  }

  /** Under either rule the centre lies in the bounding box of the schools. */
  lemma CenterInBoundingBox(rows: seq<School>, metric: string)
    requires rows != []
    ensures Min(Lats(rows)) <= CenterOf(rows, metric).value.lat <= Max(Lats(rows))
    ensures Min(Lngs(rows)) <= CenterOf(rows, metric).value.lng <= Max(Lngs(rows))
  {
  }

  function SchoolAt(id: int, lat: real, lng: real): School {
    School(id, Point(lat, lng), "", map[])
  }

  /** The median of three clustered values and one outlier. */
  lemma OutlierMedian()
    ensures Median([0.0, 1.0, 2.0, 100.0]) == 1.5
  {
    var v := [0.0, 1.0, 2.0, 100.0];
    assert SortAsc(v) == v by {
      assert v[0] <= v[1] <= v[2] <= v[3];
      SortedOfAdjacent(v);
      SortAscOfSorted(v);
    }
    assert Middle(v) == (1.0 + 2.0) / 2.0;
  }

  /** The mean of three clustered values and one outlier. */
  lemma OutlierMean()
    ensures Mean([0.0, 1.0, 2.0, 100.0]) == 25.75
  {
    assert [0.0][..0] == [];
    assert Sum([0.0]) == 0.0;
    assert [0.0, 1.0][..1] == [0.0];
    assert Sum([0.0, 1.0]) == 1.0;
    assert [0.0, 1.0, 2.0][..2] == [0.0, 1.0];
    assert Sum([0.0, 1.0, 2.0]) == 3.0;
    assert [0.0, 1.0, 2.0, 100.0][..3] == [0.0, 1.0, 2.0];
  }

  /** Three clustered schools and one far outlier: the median centre of "manhattan" stays
      with the cluster, the mean centre of every other metric is pulled towards the outlier. */
  lemma CenterOfClusterAndOutlier()
    ensures var rows := [SchoolAt(0, 0.0, 0.0), SchoolAt(1, 1.0, 1.0), SchoolAt(2, 2.0, 2.0), SchoolAt(3, 100.0, 100.0)];
            && CenterOf(rows, ManhattanMethod) == Some(Point(1.5, 1.5))
            && CenterOf(rows, HaversineMethod) == Some(Point(25.75, 25.75))
  {
    var rows := [SchoolAt(0, 0.0, 0.0), SchoolAt(1, 1.0, 1.0), SchoolAt(2, 2.0, 2.0), SchoolAt(3, 100.0, 100.0)];
    var v := [0.0, 1.0, 2.0, 100.0];
    assert Lats(rows) == v && Lngs(rows) == v;
    OutlierMedian();
    OutlierMean();
  }

  /** The distance from c to every school, in row order. */
  function DistancesFrom(c: Point, rows: seq<School>, metric: string, t: Trig): (d: seq<real>)
    ensures |d| == |rows|
    ensures forall k :: 0 <= k < |rows| ==> d[k] == Distance(c, rows[k].at, metric, t)
  {
    seq(|rows|, k requires 0 <= k < |rows| => Distance(c, rows[k].at, metric, t))
  }

  /** The city-block total from c when every longitude leg is weighted by one cosine w
      instead of the cosine of each pair's mean latitude: 111 km per degree of latitude
      deviation plus 111 * w km per degree of longitude deviation. */
  function FixedWeightTotal(rows: seq<School>, c: Point, w: real): real {
    Weighted(SumAbsDev(Lats(rows), c.lat), SumAbsDev(Lngs(rows), c.lng), w)
  }

  /** 111 km per degree of latitude plus 111 * w km per degree of longitude. */
  function Weighted(lat: real, lng: real, w: real): real {
    111.0 * Affine(lat, w, lng)
  }

  /** When the cosine takes the same value w at every latitude, the Manhattan total that
      calculate_optimal_location accumulates from c is the fixed-weight total. */
  lemma ConstantCosineTotal(rows: seq<School>, c: Point, t: Trig, w: real)
    requires forall x :: t.cosDeg(x) == w
    ensures Sum(DistancesFrom(c, rows, ManhattanMethod, t)) == FixedWeightTotal(rows, c, w)
  {
    var lats, lngs := Devs(Lats(rows), c.lat), Devs(Lngs(rows), c.lng);
    var d := DistancesFrom(c, rows, ManhattanMethod, t);
    var e := Combine(lats, lngs, w);
    forall k | 0 <= k < |rows|
      ensures d[k] == 111.0 * e[k]
    {
      ConstantCosineDistance(c, rows[k].at, t, w);
    }
    SumScaled(d, e, 111.0);
    SumOfCombine(lats, lngs, w);
    SumOfDevs(Lats(rows), c.lat);
    SumOfDevs(Lngs(rows), c.lng);
    WeightedOfSums(Sum(d), Sum(e), Sum(lats), Sum(lngs), SumAbsDev(Lats(rows), c.lat), SumAbsDev(Lngs(rows), c.lng), w);
  }

  lemma WeightedOfSums(total: real, combined: real, lats: real, lngs: real, lat: real, lng: real, w: real)
    requires total == 111.0 * combined && combined == Affine(lats, w, lngs)
    requires lats == lat && lngs == lng
    ensures total == Weighted(lat, lng, w)
  {
  }

  /** Under a constant cosine w, one Manhattan distance is its weighted coordinate deviations. */
  lemma ConstantCosineDistance(c: Point, s: Point, t: Trig, w: real)
    requires forall x :: t.cosDeg(x) == w
    ensures Distance(c, s, ManhattanMethod, t) == Weighted(Abs(s.lat - c.lat), Abs(s.lng - c.lng), w)
  {
    assert Abs(c.lat - s.lat) == Abs(s.lat - c.lat) && Abs(c.lng - s.lng) == Abs(s.lng - c.lng);
  }

  /** The docstring's claim, for the metric it holds for: when the cosine is one non-negative
      value w at every latitude, the coordinate-wise median centre has a Manhattan total no
      larger than that of any other point c. */
  lemma MedianCenterOptimal(rows: seq<School>, c: Point, t: Trig, w: real)
    requires rows != [] && w >= 0.0
    requires forall x :: t.cosDeg(x) == w
    ensures Sum(DistancesFrom(CenterOf(rows, ManhattanMethod).value, rows, ManhattanMethod, t))
            <= Sum(DistancesFrom(c, rows, ManhattanMethod, t))
  {
    var m := CenterOf(rows, ManhattanMethod).value;
    ConstantCosineTotal(rows, m, t, w);
    ConstantCosineTotal(rows, c, t, w);
    FixedWeightOptimal(rows, c, w);
  }

  /** Latitudes and longitudes separate in the fixed-weight total, and in each the median
      minimises the sum of absolute deviations, so the median centre minimises the total. */
  lemma FixedWeightOptimal(rows: seq<School>, c: Point, w: real)
    requires rows != [] && w >= 0.0
    ensures FixedWeightTotal(rows, CenterOf(rows, ManhattanMethod).value, w) <= FixedWeightTotal(rows, c, w)
  {
    var m := CenterOf(rows, ManhattanMethod).value;
    assert m.lat == Median(Lats(rows)) && m.lng == Median(Lngs(rows));
    MedianMinimisesDeviation(Lats(rows), c.lat);
    MedianMinimisesDeviation(Lngs(rows), c.lng);
    FixedWeightOrder(rows, m, c, w);
  }

  /** A point no farther than c from the schools in total latitude deviation and in total
      longitude deviation has no larger fixed-weight total. */
  lemma FixedWeightOrder(rows: seq<School>, m: Point, c: Point, w: real)
    requires w >= 0.0
    requires SumAbsDev(Lats(rows), m.lat) <= SumAbsDev(Lats(rows), c.lat)
    requires SumAbsDev(Lngs(rows), m.lng) <= SumAbsDev(Lngs(rows), c.lng)
    ensures FixedWeightTotal(rows, m, w) <= FixedWeightTotal(rows, c, w)
  {
    WeightedOrder(SumAbsDev(Lats(rows), m.lat), SumAbsDev(Lats(rows), c.lat),
                  SumAbsDev(Lngs(rows), m.lng), SumAbsDev(Lngs(rows), c.lng), w);
  }

  /** Weighting the longitude ordering by a non-negative w keeps the sum ordered. */
  lemma WeightedOrder(lat: real, latC: real, lng: real, lngC: real, w: real)
    requires lat <= latC && lng <= lngC && w >= 0.0
    ensures Weighted(lat, lng, w) <= Weighted(latC, lngC, w)
  {
    ScaleKeepsOrder(lng, lngC, w);
  }

  /** With the cosine of each pair's mean latitude, as calculate_manhattan_distance computes
      it, the median centre is not always optimal: for schools at (20, 30) and (80, 130) the
      median centre is (50, 80), with total 6660 + 5550 * (cos 35 + cos 65) km, while the point
      (80, 80) has total 6660 + 5550 * (cos 50 + cos 80) km, which is smaller whenever
      cos 50 + cos 80 < cos 35 + cos 65, as the true cosines satisfy (0.82 < 1.24). */
  lemma MedianCenterNotOptimal(t: Trig)
    requires t.cosDeg(50.0) + t.cosDeg(80.0) < t.cosDeg(35.0) + t.cosDeg(65.0)
    ensures var rows := [SchoolAt(0, 20.0, 30.0), SchoolAt(1, 80.0, 130.0)];
            && CenterOf(rows, ManhattanMethod) == Some(Point(50.0, 80.0))
            && Sum(DistancesFrom(Point(80.0, 80.0), rows, ManhattanMethod, t))
               < Sum(DistancesFrom(Point(50.0, 80.0), rows, ManhattanMethod, t))
  {
    var rows := [SchoolAt(0, 20.0, 30.0), SchoolAt(1, 80.0, 130.0)];
    assert Lats(rows) == [20.0, 80.0] && Lngs(rows) == [30.0, 130.0];
    TwoValueMedian(20.0, 80.0);
    TwoValueMedian(30.0, 130.0);
    var m := Point(50.0, 80.0);
    var alt := Point(80.0, 80.0);
    TwoSchoolTotal(m, rows, t);
    TwoSchoolTotal(alt, rows, t);
    ManhattanOf(m, rows[0].at, t, 30.0, 50.0, 35.0);
    ManhattanOf(m, rows[1].at, t, 30.0, 50.0, 65.0);
    ManhattanOf(alt, rows[0].at, t, 60.0, 50.0, 50.0);
    ManhattanOf(alt, rows[1].at, t, 0.0, 50.0, 80.0);
  }

  /** Manhattan from the absolute differences and the mean latitude. */
  lemma ManhattanOf(p: Point, q: Point, t: Trig, dLat: real, dLng: real, mid: real)
    requires Abs(p.lat - q.lat) == dLat && Abs(p.lng - q.lng) == dLng && (p.lat + q.lat) / 2.0 == mid
    ensures Manhattan(p, q, t) == dLat * 111.0 + dLng * 111.0 * t.cosDeg(mid)
  {
  }

  /** The median of two ordered values is their midpoint. */
  lemma TwoValueMedian(a: real, b: real)
    requires a <= b
    ensures Median([a, b]) == (a + b) / 2.0
  {
    var v := [a, b];
    assert SortAsc(v) == v by {
      SortedOfAdjacent(v);
      SortAscOfSorted(v);
    }
    assert Middle(v) == (a + b) / 2.0;
  }

  /** The Manhattan total over two schools is the sum of their two distances. */
  lemma TwoSchoolTotal(c: Point, rows: seq<School>, t: Trig)
    requires |rows| == 2
    ensures Sum(DistancesFrom(c, rows, ManhattanMethod, t)) == Manhattan(c, rows[0].at, t) + Manhattan(c, rows[1].at, t)
  {
    var d := DistancesFrom(c, rows, ManhattanMethod, t);
    assert d[..1][..0] == [];
    assert Sum(d[..1]) == d[0];
    assert d[0] == Manhattan(c, rows[0].at, t) && d[1] == Manhattan(c, rows[1].at, t);
  }

  /** A running minimum that starts at float('inf'). */
  datatype Extended = Finite(value: real) | Infinity

  /** `x < e` where e may be infinite. */
  predicate Below(x: real, e: Extended) {
    e.Infinity? || x < e.value
  }

  /** The name, index label and coordinates reported for a closest or farthest school. */
  datatype Pick = Pick(name: Label, id: int, coords: Point)

  function PickOf(s: School): Pick {
    Pick(LabelOf(s), s.id, s.at)
  }

  /** The result dictionary of calculate_optimal_location; `metric` is the echoed
      distance_method (absent from the older routine's result). */
  datatype CenterResult = CenterResult(
    center: Option<Point>,
    total: real,
    average: real,
    minDistance: Extended,
    maxDistance: real,
    closest: Option<Pick>,
    farthest: Option<Pick>,
    metric: Option<string>)

  /** What calculate_optimal_location returns, stated without its loops: the closest school
      is the first one at minimum distance; the farthest is the first one at maximum distance
      if that maximum is positive, and absent (with maximum 0) otherwise. */
  function OptimalSpec(rows: seq<School>, metric: string, t: Trig): (r: CenterResult)
    ensures r.center == CenterOf(rows, metric) && r.metric == Some(metric)
    ensures r.closest.None? <==> rows == []
    ensures r.minDistance.Finite? <==> rows != []
    ensures r.maxDistance >= 0.0
    ensures r.farthest.Some? <==> r.maxDistance > 0.0
  {
    match CenterOf(rows, metric)
    case None => CenterResult(None, 0.0, 0.0, Infinity, 0.0, None, None, Some(metric))
    case Some(c) =>
      var d := DistancesFrom(c, rows, metric, t);
      var near := FirstMin(d);
      var far := FirstMax(d);
      CenterResult(
        Some(c), Sum(d), Sum(d) / (|d| as real),
        Finite(d[near]), if d[far] > 0.0 then d[far] else 0.0,
        Some(PickOf(rows[near])), if d[far] > 0.0 then Some(PickOf(rows[far])) else None,
        Some(metric))
  }

  /** The minimum and maximum bracket every school's distance and the average. */
  lemma OptimalBounds(rows: seq<School>, metric: string, t: Trig)
    requires rows != []
    ensures var r := OptimalSpec(rows, metric, t);
            var d := DistancesFrom(r.center.value, rows, metric, t);
            && r.minDistance.Finite?
            && (forall k :: 0 <= k < |rows| ==> r.minDistance.value <= d[k] <= r.maxDistance)
            && r.minDistance.value <= r.average <= r.maxDistance
            && r.total == Sum(d)
            && r.average == r.total / (|rows| as real)
  {
    var r := OptimalSpec(rows, metric, t);
    var d := DistancesFrom(r.center.value, rows, metric, t);
    assert r.average == Mean(d);
    assert Min(d) == d[FirstMin(d)];
    assert Max(d) == d[FirstMax(d)];
  }

  /** Ties for the minimum go to the first school in row order. */
  lemma ClosestIsFirstNearest(rows: seq<School>, metric: string, t: Trig, k: nat)
    requires k < |rows|
    requires var d := DistancesFrom(CenterOf(rows, metric).value, rows, metric, t);
             (forall j :: 0 <= j < |rows| ==> d[k] <= d[j]) && (forall j :: 0 <= j < k ==> d[j] > d[k])
    ensures OptimalSpec(rows, metric, t).closest == Some(PickOf(rows[k]))
  {
    FirstMinUnique(DistancesFrom(CenterOf(rows, metric).value, rows, metric, t), k);
  }

  /** Ties for a positive maximum go to the first school in row order. */
  lemma FarthestIsFirstFarthest(rows: seq<School>, metric: string, t: Trig, k: nat)
    requires k < |rows|
    requires var d := DistancesFrom(CenterOf(rows, metric).value, rows, metric, t);
             d[k] > 0.0 && (forall j :: 0 <= j < |rows| ==> d[j] <= d[k]) && (forall j :: 0 <= j < k ==> d[j] < d[k])
    ensures OptimalSpec(rows, metric, t).farthest == Some(PickOf(rows[k]))
  {
    FirstMaxUnique(DistancesFrom(CenterOf(rows, metric).value, rows, metric, t), k);
  }

  /** The farthest school is absent exactly when no school is at a positive distance. */
  lemma FarthestAbsentIffNoPositive(rows: seq<School>, metric: string, t: Trig)
    requires rows != []
    ensures var d := DistancesFrom(CenterOf(rows, metric).value, rows, metric, t);
            OptimalSpec(rows, metric, t).farthest.None? <==> forall k :: 0 <= k < |rows| ==> d[k] <= 0.0
  {
  }

  /** Both the mean and the median of a single school are the school itself. */
  lemma SingletonCenter(s: School, metric: string)
    ensures CenterOf([s], metric) == Some(s.at)
  {
    var rows := [s];
    assert Lats(rows) == [s.at.lat] && Lngs(rows) == [s.at.lng];
    if metric == ManhattanMethod {
      assert SortAsc([s.at.lat]) == [s.at.lat];
      assert SortAsc([s.at.lng]) == [s.at.lng];
      assert Median([s.at.lat]) == s.at.lat && Median([s.at.lng]) == s.at.lng;
    } else {
      MeanBetween([s.at.lat], s.at.lat, s.at.lat);
      MeanBetween([s.at.lng], s.at.lng, s.at.lng);
    }
  }

  /** One school is its own centre: distance 0, it is the closest, and there is no farthest. */
  lemma SingleSchoolResult(s: School, metric: string, t: Trig)
    requires Lawful(t)
    ensures var r := OptimalSpec([s], metric, t);
            && r.center == Some(s.at)
            && r.closest == Some(PickOf(s)) && r.minDistance == Finite(0.0)
            && r.farthest == None && r.maxDistance == 0.0
            && r.total == 0.0 && r.average == 0.0
  {
    var rows := [s];
    SingletonCenter(s, metric);
    assert Distance(s.at, s.at, metric, t) == 0.0;
    var d := DistancesFrom(s.at, rows, metric, t);
    assert d == [0.0];
    assert Sum(d) == 0.0;
  }

  /** An empty frame yields no centre, no picks, total and average 0 and the starting extremes. */
  lemma EmptyFrameResult(metric: string, t: Trig)
    ensures OptimalSpec([], metric, t) == CenterResult(None, 0.0, 0.0, Infinity, 0.0, None, None, Some(metric))
  {
  }

  /** The first loop of calculate_optimal_location: one pass over the schools keeping the
      closest under `distance < min_distance` (from infinity) and the farthest under
      `distance > max_distance` (from 0), so ties go to the earliest school and the farthest
      stays unset while no distance is positive. */
  method ScanExtremes(c: Point, rows: seq<School>, metric: string, t: Trig)
    returns (minDistance: Extended, maxDistance: real, closest: Option<Pick>, farthest: Option<Pick>)
    requires rows != []
    ensures var d := DistancesFrom(c, rows, metric, t);
            minDistance == Finite(d[FirstMin(d)]) && closest == Some(PickOf(rows[FirstMin(d)]))
    ensures var d := DistancesFrom(c, rows, metric, t);
            if d[FirstMax(d)] > 0.0 then maxDistance == d[FirstMax(d)] && farthest == Some(PickOf(rows[FirstMax(d)]))
            else maxDistance == 0.0 && farthest == None
  {
    ghost var d := DistancesFrom(c, rows, metric, t);
    minDistance := Infinity;
    maxDistance := 0.0;
    closest := None;
    farthest := None;
    ghost var near: nat := 0;
    ghost var far: nat := 0;
    for i := 0 to |rows|
      invariant i == 0 ==> minDistance == Infinity && closest == None
      invariant i > 0 ==> near < i && minDistance == Finite(d[near]) && closest == Some(PickOf(rows[near]))
      invariant i > 0 ==> (forall j :: 0 <= j < i ==> d[near] <= d[j]) && (forall j :: 0 <= j < near ==> d[j] > d[near])
      invariant farthest.None? ==> maxDistance == 0.0 && forall j :: 0 <= j < i ==> d[j] <= 0.0
      invariant farthest.Some? ==> far < i && maxDistance == d[far] > 0.0 && farthest == Some(PickOf(rows[far]))
      invariant farthest.Some? ==> (forall j :: 0 <= j < i ==> d[j] <= d[far]) && (forall j :: 0 <= j < far ==> d[j] < d[far])
    {
      var dist := Distance(c, rows[i].at, metric, t);
      if Below(dist, minDistance) {
        minDistance := Finite(dist);
        closest := Some(PickOf(rows[i]));
        near := i;
      }
      if dist > maxDistance {
        maxDistance := dist;
        farthest := Some(PickOf(rows[i]));
        far := i;
      }
    }
    FirstMinUnique(d, near);
    if farthest.Some? {
      FirstMaxUnique(d, far);
    } else {
      assert d[FirstMax(d)] <= 0.0;
    }
  }

  /** The second loop of calculate_optimal_location: the distances summed again. */
  method TotalDistance(c: Point, rows: seq<School>, metric: string, t: Trig) returns (total: real)
    ensures total == Sum(DistancesFrom(c, rows, metric, t))
  {
    ghost var d := DistancesFrom(c, rows, metric, t);
    total := 0.0;
    for i := 0 to |rows|
      invariant total == Sum(d[..i])
    {
      assert d[..i + 1][..i] == d[..i];
      total := total + Distance(c, rows[i].at, metric, t);
    }
    assert d[..|rows|] == d;
  }

  /** calculate_optimal_location: the centre, then a scan keeping the closest and farthest
      school under strict comparisons, then a second pass accumulating the total. */
  method OptimalLocation(rows: seq<School>, metric: string, t: Trig) returns (r: CenterResult)
    ensures r == OptimalSpec(rows, metric, t)
  {
    var center := CenterOf(rows, metric);
    if center.None? {
      return CenterResult(None, 0.0, 0.0, Infinity, 0.0, None, None, Some(metric));
    }
    var c := center.value;
    var minDistance, maxDistance, closest, farthest := ScanExtremes(c, rows, metric, t);
    var total := TotalDistance(c, rows, metric, t);
    var average := if |rows| > 0 then total / (|rows| as real) else 0.0;
    r := CenterResult(Some(c), total, average, minDistance, maxDistance, closest, farthest, Some(metric));
  }
}
