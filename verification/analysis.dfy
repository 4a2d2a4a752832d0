/** Pairwise distance matrices between selected schools, the statistics over their strict
    upper triangle, and the per-school distance to its own office's centre. */
module Analysis {
  import opened Wrappers
  import opened Records
  import opened Numbers
  import opened Geo
  import opened Offices

  /** The first position holding index label id. */
  function FindId(rows: seq<School>, id: int): (r: Option<nat>)
    ensures r.Some? ==> r.value < |rows| && rows[r.value].id == id
    ensures r.Some? ==> forall j :: 0 <= j < r.value ==> rows[j].id != id
    ensures r.None? <==> forall j :: 0 <= j < |rows| ==> rows[j].id != id
  {
    if rows == [] then None
    else if rows[0].id == id then Some(0)
    else match FindId(rows[1..], id)
      case None => None
      case Some(k) => Some(k + 1)
  }

  /** `df.loc[ids]` on a frame whose index labels are unique: the rows with those labels,
      in the order the labels are given; a label the frame lacks raises KeyError, modelled
      as Failure carrying the first such label. */
  function Select(rows: seq<School>, ids: seq<int>): (r: Result<seq<School>, int>)
    ensures r.Success? ==> |r.value| == |ids|
    ensures r.Success? ==> forall k :: 0 <= k < |ids| ==> FindId(rows, ids[k]).Some? && r.value[k] == rows[FindId(rows, ids[k]).value]
    ensures r.Failure? <==> exists k :: 0 <= k < |ids| && FindId(rows, ids[k]).None?
    ensures r.Failure? ==> r.error in ids && forall j :: 0 <= j < |rows| ==> rows[j].id != r.error
  {
    if ids == [] then Success([])
    else match FindId(rows, ids[0])
      case None => Failure(ids[0])
      case Some(k) =>
        match Select(rows, ids[1..])
        case Failure(e) =>
          assert forall j :: 1 <= j < |ids| ==> ids[j] == ids[1..][j - 1];
          Failure(e)
        case Success(rest) =>
          assert forall j :: 1 <= j < |ids| ==> ids[j] == ids[1..][j - 1];
          Success([rows[k]] + rest)
  }

  /** A generated matrix: the numpy array, the row and column labels (school names, or
      "School #<idx>"), and the `distance_method` attribute when one was set. */
  datatype DistanceFrame = DistanceFrame(values: array2<real>, labels: seq<Label>, metric: Option<string>)

  /** Cell (i, j): exactly 0 on the diagonal, without consulting the distance function;
      the distance from point i to point j elsewhere. */
  function Entry(ps: seq<Point>, i: nat, j: nat, metric: string, t: Trig): real
    requires i < |ps| && j < |ps|
  {
    if i == j then 0.0 else Distance(ps[i], ps[j], metric, t)
  }

  /** For a lawful distance the diagonal shortcut agrees with the distance itself. */
  lemma EntryIsDistance(ps: seq<Point>, i: nat, j: nat, metric: string, t: Trig)
    requires Lawful(t) && i < |ps| && j < |ps|
    ensures Entry(ps, i, j, metric, t) == Distance(ps[i], ps[j], metric, t)
  {
    if i == j {
      assert Distance(ps[i], ps[i], metric, t) == 0.0;
    }
  }

  /** The matrix is symmetric whenever the distance is. */
  lemma EntrySymmetric(ps: seq<Point>, i: nat, j: nat, metric: string, t: Trig)
    requires Lawful(t) && i < |ps| && j < |ps|
    ensures Entry(ps, i, j, metric, t) == Entry(ps, j, i, metric, t)
  {
    DistanceSymmetric(ps[i], ps[j], metric, t);
  }

  /** Every cell is non-negative for valid coordinates. */
  lemma EntryNonNegative(ps: seq<Point>, i: nat, j: nat, metric: string, t: Trig)
    requires Lawful(t) && i < |ps| && j < |ps|
    requires forall k :: 0 <= k < |ps| ==> InRange(ps[k])
    ensures Entry(ps, i, j, metric, t) >= 0.0
  {
    if i != j {
      assert InRange(ps[i]) && InRange(ps[j]);
    }
  }

  /** m is the n x n matrix of Entry over ps. */
  ghost predicate IsMatrixOf(m: array2<real>, ps: seq<Point>, metric: string, t: Trig)
    reads m
  {
    && m.Length0 == |ps| && m.Length1 == |ps|
    && forall i, j :: 0 <= i < |ps| && 0 <= j < |ps| ==> m[i, j] == Entry(ps, i, j, metric, t)
  }

  /** `np.zeros((n, n))` filled by the nested i/j loops. */
  method FillMatrix(ps: seq<Point>, metric: string, t: Trig) returns (m: array2<real>)
    ensures fresh(m)
    ensures IsMatrixOf(m, ps, metric, t)
    ensures forall i :: 0 <= i < |ps| ==> m[i, i] == 0.0
  {
    var n := |ps|;
    m := new real[n, n]((i, j) => 0.0);
    for i := 0 to n
      invariant forall a, b :: 0 <= a < i && 0 <= b < n ==> m[a, b] == Entry(ps, a, b, metric, t)
    {
      for j := 0 to n
        invariant forall a, b :: 0 <= a < i && 0 <= b < n ==> m[a, b] == Entry(ps, a, b, metric, t)
        invariant forall b :: 0 <= b < j ==> m[i, b] == Entry(ps, i, b, metric, t)
      {
        var distance := if i == j then 0.0 else Distance(ps[i], ps[j], metric, t);
        m[i, j] := distance;
      }
    }
  }

  function Labels(rows: seq<School>): (ls: seq<Label>)
    ensures |ls| == |rows|
    ensures forall k :: 0 <= k < |rows| ==> ls[k] == LabelOf(rows[k])
  {
    seq(|rows|, k requires 0 <= k < |rows| => LabelOf(rows[k]))
  }

  /** generate_distance_matrix: Success(None) when no selection or fewer than two labels are
      given, Failure(label) when a selected label is not in the frame, otherwise the matrix
      over the selected schools tagged with the metric. */
  method GenerateDistanceMatrix(rows: seq<School>, selected: Option<seq<int>>, metric: string, t: Trig)
    returns (r: Result<Option<DistanceFrame>, int>)
    ensures selected.None? || |selected.value| < 2 ==> r == Success(None)
    ensures selected.Some? && |selected.value| >= 2 && Select(rows, selected.value).Failure? ==>
              r == Failure(Select(rows, selected.value).error)
    ensures selected.Some? && |selected.value| >= 2 && Select(rows, selected.value).Success? ==>
              var sel := Select(rows, selected.value).value;
              && r.Success? && r.value.Some?
              && IsMatrixOf(r.value.value.values, Points(sel), metric, t)
              && r.value.value.labels == Labels(sel)
              && r.value.value.metric == Some(metric)
  {
    if selected.None? || |selected.value| < 2 {
      return Success(None);
    }
    match Select(rows, selected.value)
    case Failure(id) =>
      r := Failure(id);
    case Success(sel) =>
      var m := FillMatrix(Points(sel), metric, t);
      r := Success(Some(DistanceFrame(m, Labels(sel), Some(metric))));
  }

  /** Row i's part of the strict upper triangle: cells (i, i+1) .. (i, n-1). */
  function RowSpan(m: array2<real>, i: nat): (r: seq<real>)
    requires i < m.Length0 <= m.Length1
    reads m
    ensures |r| == m.Length0 - i - 1
    ensures forall k :: 0 <= k < |r| ==> r[k] == m[i, i + 1 + k]
  {
    seq(m.Length0 - i - 1, k requires 0 <= k < m.Length0 - i - 1 reads m => m[i, i + 1 + k])
  }

  /** The strict upper triangle of the first k rows, row by row. */
  function UpperRows(m: array2<real>, k: nat): seq<real>
    requires k <= m.Length0 <= m.Length1
    reads m
  {
    if k == 0 then [] else UpperRows(m, k - 1) + RowSpan(m, k - 1)
  }

  /** Every cell (i, j) with i < j, in row-major order. */
  function UpperTriangle(m: array2<real>): seq<real>
    requires m.Length0 <= m.Length1
    reads m
  {
    UpperRows(m, m.Length0)
  }

  /** The first k rows contribute k(2n - k - 1)/2 cells. */
  lemma {:induction false} UpperRowsSize(m: array2<real>, k: nat)
    requires k <= m.Length0 <= m.Length1
    ensures 2 * |UpperRows(m, k)| == k * (2 * m.Length0 - k - 1)
  {
    if k > 0 {
      UpperRowsSize(m, k - 1);
    }
  }

  /** The triangle has n(n-1)/2 cells; so it is empty exactly when n < 2. */
  lemma UpperTriangleSize(m: array2<real>)
    requires m.Length0 <= m.Length1
    ensures 2 * |UpperTriangle(m)| == m.Length0 * (m.Length0 - 1)
    ensures UpperTriangle(m) == [] <==> m.Length0 < 2
  {
    UpperRowsSize(m, m.Length0);
  }

  /** Cell (i, j), i < j, sits at position |UpperRows(m, i)| + (j - i - 1): row-major order. */
  lemma {:induction false} UpperRowsPosition(m: array2<real>, k: nat, i: nat, j: nat)
    requires k <= m.Length0 <= m.Length1
    requires i < j < m.Length0 && i < k
    ensures |UpperRows(m, i)| + (j - i - 1) < |UpperRows(m, k)|
    ensures UpperRows(m, k)[|UpperRows(m, i)| + (j - i - 1)] == m[i, j]
  {
    if k == i + 1 {
      assert UpperRows(m, k) == UpperRows(m, i) + RowSpan(m, i);
    } else {
      UpperRowsPosition(m, k - 1, i, j);
      assert UpperRows(m, k) == UpperRows(m, k - 1) + RowSpan(m, k - 1);
    }
  }

  /** Every value collected is some cell strictly above the diagonal. */
  lemma {:induction false} UpperRowsSound(m: array2<real>, k: nat, p: nat)
    requires k <= m.Length0 <= m.Length1
    requires p < |UpperRows(m, k)|
    ensures exists i, j :: 0 <= i < j < m.Length0 && UpperRows(m, k)[p] == m[i, j]
  {
    var prefix := UpperRows(m, k - 1);
    if p < |prefix| {
      UpperRowsSound(m, k - 1, p);
    } else {
      var i := k - 1;
      var j := i + 1 + (p - |prefix|);
      assert UpperRows(m, k)[p] == m[i, j];
    }
  }

  /** The nested `for i` / `for j in range(i+1, n)` loops appending distance_df.iloc[i, j]. */
  method CollectUpperTriangle(m: array2<real>) returns (ds: seq<real>)
    requires m.Length0 <= m.Length1
    ensures ds == UpperTriangle(m)
  {
    var n := m.Length0;
    ds := [];
    for i := 0 to n
      invariant ds == UpperRows(m, i)
    {
      ghost var before := ds;
      for j := i + 1 to n
        invariant ds == before + RowSpan(m, i)[..j - i - 1]
      {
        assert RowSpan(m, i)[..j - i] == RowSpan(m, i)[..j - i - 1] + [m[i, j]];
        ds := ds + [m[i, j]];
      }
      assert RowSpan(m, i)[..n - i - 1] == RowSpan(m, i);
    }
  }

  /** The statistics dictionary of extract_distance_statistics. */
  datatype Stats = Stats(
    minDistance: real,
    maxDistance: real,
    avgDistance: real,
    totalDistance: real,
    distances: seq<real>,
    metric: string)

  /** The statistics of a list of pairwise distances: None when it is empty; the tag
      defaults to "Unknown". */
  function StatsOf(ds: seq<real>, tag: Option<string>): Option<Stats> {
    if ds == [] then None
    else Some(Stats(Min(ds), Max(ds), Sum(ds) / (|ds| as real), Sum(ds), ds, tag.GetOr("Unknown")))
  }

  /** The statistics are consistent: min and max bracket every pairwise distance and the
      average, the total is their sum, the list is returned unchanged. */
  lemma StatsConsistent(ds: seq<real>, tag: Option<string>)
    ensures StatsOf(ds, tag).None? <==> ds == []
    ensures StatsOf(ds, tag).Some? ==>
              var s := StatsOf(ds, tag).value;
              && (forall k :: 0 <= k < |ds| ==> s.minDistance <= ds[k] <= s.maxDistance)
              && s.minDistance <= s.avgDistance <= s.maxDistance
              && s.totalDistance == Sum(ds)
              && s.distances == ds
              && s.metric == tag.GetOr("Unknown")
  {
    if ds != [] {
      var s := StatsOf(ds, tag).value;
      assert s.minDistance == Min(ds) && s.maxDistance == Max(ds);
      assert s.avgDistance == Mean(ds);
    }
  }

  /** extract_distance_statistics over a matrix with at least as many columns as rows. */
  method ExtractDistanceStatistics(f: DistanceFrame) returns (r: Option<Stats>)
    requires f.values.Length0 <= f.values.Length1
    ensures r == StatsOf(UpperTriangle(f.values), f.metric)
    ensures r.None? <==> f.values.Length0 < 2
  {
    var distances := CollectUpperTriangle(f.values);
    UpperTriangleSize(f.values);
    if distances == [] {
      return None;
    }
    var total := Sum(distances);
    r := Some(Stats(Min(distances), Max(distances), total / (|distances| as real), total,
                    distances, f.metric.GetOr("Unknown")));
  }

  /** The "distance to office" column: for each school, the distance from it to its own
      office's centre under the given method, or None when its office has no entry. */
  function OfficeColumn(rows: seq<School>, entries: map<string, OfficeInfo>, metric: string, t: Trig)
    : (col: seq<Option<real>>)
    ensures |col| == |rows|
    ensures forall k :: 0 <= k < |rows| ==> (col[k].Some? <==> rows[k].office in entries)
    ensures forall k :: 0 <= k < |rows| && rows[k].office in entries ==>
              col[k] == Some(Distance(rows[k].at, entries[rows[k].office].at, metric, t))
  {
    seq(|rows|, k requires 0 <= k < |rows| =>
      if rows[k].office in entries then Some(Distance(rows[k].at, entries[rows[k].office].at, metric, t))
      else None)
  }

  /** The loop writing `Distance to Office (km)` cell by cell into a column of None. */
  method FillOfficeColumn(rows: seq<School>, entries: map<string, OfficeInfo>, metric: string, t: Trig)
    returns (col: seq<Option<real>>)
    ensures col == OfficeColumn(rows, entries, metric, t)
  {
    var a := new Option<real>[|rows|](_ => None);
    for k := 0 to |rows|
      invariant forall j :: 0 <= j < k ==> a[j] == OfficeColumn(rows, entries, metric, t)[j]
      invariant forall j :: k <= j < |rows| ==> a[j] == None
    {
      var office := rows[k].office;
      if office in entries {
        var loc := entries[office];
        a[k] := Some(Distance(rows[k].at, loc.at, metric, t));
      }
    }
    col := a[..];
  }

  /** calculate_schools_to_office_distances: None when the frame comes back unchanged (no
      office entries, or no `standardized_office` column); otherwise the column added to
      the copy, computed with the first entry's method ("manhattan" if it has none). */
  method SchoolsToOfficeDistances(frame: Frame, offices: OfficeTable, t: Trig) returns (r: Option<seq<Option<real>>>)
    requires offices.Valid()
    ensures r.None? <==> offices.entries == map[] || !frame.hasOffice
    ensures r.Some? ==>
              r.value == OfficeColumn(frame.rows, offices.entries, offices.First().value.metric.GetOr(ManhattanMethod), t)
  {
    if offices.entries == map[] || !frame.hasOffice {
      return None;
    }
    var first := offices.First();
    var metric := first.value.metric.GetOr(ManhattanMethod);
    var col := FillOfficeColumn(frame.rows, offices.entries, metric, t);
    r := Some(col);
  }
}
