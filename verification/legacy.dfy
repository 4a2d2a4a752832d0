/** The older copies of the engine kept in main.py: Haversine only, the mean centre only,
    no method tags, and an optimal-location routine whose result reads local names that
    only a positive distance ever binds. */
module Legacy {
  import opened Wrappers
  import opened Records
  import opened Numbers
  import opened Geo
  import opened Offices
  import opened Analysis
  import opened MapUtils

  /** Python's UnboundLocalError, naming the local read before any assignment. */
  datatype LegacyError = Unbound(name: string)

  /** The older calculate_optimal_location, stated without its loops: on an empty frame the
      return reads the never-bound `closest_school_idx`; when no school is at a positive
      distance it reads the never-bound `farthest_school_idx`; otherwise it is the current
      routine's result under "haversine", without the echoed method. */
  function LegacyOptimalSpec(rows: seq<School>, t: Trig): (r: Result<CenterResult, LegacyError>)
    ensures r.Failure? && rows == [] ==> r.error == Unbound("closest_school_idx")
    ensures r.Failure? && rows != [] ==> r.error == Unbound("farthest_school_idx")
    ensures r.Success? ==> && r.value.closest.Some? && r.value.farthest.Some?
                           && r.value.maxDistance > 0.0 && r.value.metric.None?
  {
    if rows == [] then Failure(Unbound("closest_school_idx"))
    else
      var r := OptimalSpec(rows, HaversineMethod, t);
      if r.farthest.None? then Failure(Unbound("farthest_school_idx"))
      else Success(r.(metric := None))
  }

  /** For a non-empty frame the older routine fails exactly when no school is at a positive
      distance from the mean centre. */
  lemma LegacyFailsIffNoPositive(rows: seq<School>, t: Trig)
    requires rows != []
    ensures var d := DistancesFrom(CenterOf(rows, HaversineMethod).value, rows, HaversineMethod, t);
            LegacyOptimalSpec(rows, t).Failure? <==> forall k :: 0 <= k < |rows| ==> d[k] <= 0.0
  {
    FarthestAbsentIffNoPositive(rows, HaversineMethod, t);
  }

  /** An office with a single school makes the older routine fail. */
  lemma SingleSchoolFails(s: School, t: Trig)
    requires Lawful(t)
    ensures LegacyOptimalSpec([s], t) == Failure(Unbound("farthest_school_idx"))
  {
    SingleSchoolResult(s, HaversineMethod, t);
  }

  /** So does an office whose schools all stand at one spot. */
  lemma CoincidentSchoolsFail(rows: seq<School>, p: Point, t: Trig)
    requires Lawful(t) && rows != []
    requires forall k :: 0 <= k < |rows| ==> rows[k].at == p
    ensures LegacyOptimalSpec(rows, t) == Failure(Unbound("farthest_school_idx"))
  {
    CoincidentMean(rows, p);
    var d := DistancesFrom(p, rows, HaversineMethod, t);
    assert Distance(p, p, HaversineMethod, t) == 0.0;
    assert forall k :: 0 <= k < |rows| ==> d[k] <= 0.0;
    LegacyFailsIffNoPositive(rows, t);
  }

  /** The mean centre of schools that all stand at p is p itself. */
  lemma CoincidentMean(rows: seq<School>, p: Point)
    requires rows != []
    requires forall k :: 0 <= k < |rows| ==> rows[k].at == p
    ensures CenterOf(rows, HaversineMethod) == Some(p)
  {
    MeanBetween(Lats(rows), p.lat, p.lat);
    MeanBetween(Lngs(rows), p.lng, p.lng);
  }

  /** main.py's calculate_optimal_location: the mean centre, the same scan with strict
      comparisons and the same total under Haversine; the index locals start unbound (None
      here) and the return fails on the first one still unbound. */
  method LegacyOptimalLocation(rows: seq<School>, t: Trig) returns (r: Result<CenterResult, LegacyError>)
    ensures r == LegacyOptimalSpec(rows, t)
  {
    var center := CenterOf(rows, HaversineMethod);
    if center.None? {
      return Failure(Unbound("closest_school_idx"));
    }
    var c := center.value;
    var minDistance, maxDistance, closest, farthest := ScanExtremes(c, rows, HaversineMethod, t);
    var total := TotalDistance(c, rows, HaversineMethod, t);
    var average := if |rows| > 0 then total / (|rows| as real) else 0.0;
    if farthest.None? {
      return Failure(Unbound("farthest_school_idx"));
    }
    r := Success(CenterResult(Some(c), total, average, minDistance, maxDistance, closest, farthest, None));
  }

  /** main.py's generate_distance_matrix: as the current one, with Haversine and without
      the method attribute. */
  method LegacyDistanceMatrix(rows: seq<School>, selected: Option<seq<int>>, t: Trig)
    returns (r: Result<Option<DistanceFrame>, int>)
    ensures selected.None? || |selected.value| < 2 ==> r == Success(None)
    ensures selected.Some? && |selected.value| >= 2 && Select(rows, selected.value).Failure? ==>
              r == Failure(Select(rows, selected.value).error)
    ensures selected.Some? && |selected.value| >= 2 && Select(rows, selected.value).Success? ==>
              var sel := Select(rows, selected.value).value;
              && r.Success? && r.value.Some?
              && IsMatrixOf(r.value.value.values, Points(sel), HaversineMethod, t)
              && r.value.value.labels == Labels(sel)
              && r.value.value.metric == None
  {
    if selected.None? || |selected.value| < 2 {
      return Success(None);
    }
    match Select(rows, selected.value)
    case Failure(id) =>
      r := Failure(id);
    case Success(sel) =>
      var m := FillMatrix(Points(sel), HaversineMethod, t);
      r := Success(Some(DistanceFrame(m, Labels(sel), None)));
  }

  /** main.py's calculate_schools_to_office_distances: the same guard, Haversine for every
      school, no rounding. */
  method LegacySchoolsToOfficeDistances(frame: Frame, offices: OfficeTable, t: Trig) returns (r: Option<seq<Option<real>>>)
    ensures r.None? <==> offices.entries == map[] || !frame.hasOffice
    ensures r.Some? ==> r.value == OfficeColumn(frame.rows, offices.entries, HaversineMethod, t)
  {
    if offices.entries == map[] || !frame.hasOffice {
      return None;
    }
    var col := FillOfficeColumn(frame.rows, offices.entries, HaversineMethod, t);
    r := Some(col);
  }

  /** One office of main.py's create_map loop: the older optimal location, then the inline
      display-radius block (the same rule as _calculate_display_radius), then the entry,
      without a method key. A failing optimal location propagates and nothing is stored. */
  method LegacyProcessOffice(office: string, rows: seq<School>, offices: OfficeTable, t: Trig)
    returns (r: Result<(), LegacyError>)
    requires rows != [] && offices.Valid()
    modifies offices
    ensures offices.Valid()
    ensures LegacyOptimalSpec(rows, t).Failure? ==>
              r == Failure(LegacyOptimalSpec(rows, t).error)
              && offices.entries == old(offices.entries) && offices.order == old(offices.order)
    ensures LegacyOptimalSpec(rows, t).Success? ==>
              && r.Success?
              && offices.entries == old(offices.entries)[office := OfficeEntry(rows, HaversineMethod, t).(metric := None)]
              && offices.order == if office in old(offices.entries) then old(offices.order) else old(offices.order) + [office]
  {
    var result := LegacyOptimalLocation(rows, t);
    if result.Failure? {
      return Failure(result.error);
    }
    var res := result.value;
    var c := res.center.value;
    var radius := DisplayRadius(rows, c, res.maxDistance, HaversineMethod, t);
    var farthest := if res.farthest.Some? then Some(res.farthest.value.name) else None;
    offices.Put(office, OfficeInfo(c, res.total, res.average, res.maxDistance, radius, farthest, |rows|, None));
    r := Success(());
  }

  /** The four figures main.py shows for a distance matrix. */
  datatype Summary = Summary(minDistance: real, maxDistance: real, avgDistance: real, totalDistance: real)

  /** main.py's inline statistics block: the strict upper triangle in row-major order, and
      min, max, average and total only when it is not empty; the figures are those of
      extract_distance_statistics. */
  method LegacyDistanceStatistics(m: array2<real>) returns (r: Option<Summary>)
    requires m.Length0 <= m.Length1
    ensures r.None? <==> m.Length0 < 2
    ensures r.Some? ==>
              StatsOf(UpperTriangle(m), None).Some? &&
              var s := StatsOf(UpperTriangle(m), None).value;
              r.value == Summary(s.minDistance, s.maxDistance, s.avgDistance, s.totalDistance)
  {
    var distances := CollectUpperTriangle(m);
    UpperTriangleSize(m);
    if distances == [] {
      return None;
    }
    r := Some(Summary(Min(distances), Max(distances), Sum(distances) / (|distances| as real), Sum(distances)));
  }
}
