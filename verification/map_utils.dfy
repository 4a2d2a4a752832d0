/** The deterministic parts of the map builder: the capped display radius of an office's
    coverage circle, the office colour table, the marker colour decision table, the entry
    written into `office_locations` for each office, and the grouping and guards of
    create_map. Drawing (markers, circles, lines, layers) is not modelled. */
module MapUtils {
  import opened Wrappers
  import opened Records
  import opened Numbers
  import opened Sequences
  import opened Geo
  import opened Offices
  import opened Analysis

  /** No coverage circle is drawn wider than this, in km. */
  const RadiusCapKm: real := 150.0

  /** The position the radius is read from in the sorted distances: int(n * 0.95) from 20
      distances on, int(n * 0.8) for 2 to 19; None for at most one distance, when no
      element is read at all. */
  function PercentileIndex(n: nat): (k: Option<nat>)
    ensures k.None? <==> n <= 1
    ensures k.Some? ==> k.value < n
  {
    if n >= 20 then Some((95 * n) / 100)
    else if n > 1 then Some((8 * n) / 10)
    else None
  }

  /** The radius before the cap: the element at PercentileIndex of the ascending sort,
      or max_dist when there are too few distances. */
  function PreCapRadius(d: seq<real>, maxDist: real): (r: real)
    ensures |d| <= 1 ==> r == maxDist
    ensures |d| > 1 ==> r in d
  {
    match PercentileIndex(|d|)
    case None => maxDist
    case Some(k) => SortedPick(d, k); SortAsc(d)[k]
  }

  /** _calculate_display_radius on the distances d: `min(radius_95, 150)`. */
  function DisplayRadiusOf(d: seq<real>, maxDist: real): (r: real)
    ensures r <= RadiusCapKm
    ensures r == PreCapRadius(d, maxDist) || r == RadiusCapKm
  {
    var pre := PreCapRadius(d, maxDist);
    if RadiusCapKm < pre then RadiusCapKm else pre
  }

  /** With two or more distances the pre-cap radius is one of them, and it is a percentile
      of the sorted list: no smaller than the entries before its index, no larger than
      those after. */
  lemma PreCapIsPercentile(d: seq<real>, maxDist: real)
    requires |d| > 1
    ensures var k := PercentileIndex(|d|).value;
            && PreCapRadius(d, maxDist) == SortAsc(d)[k]
            && PreCapRadius(d, maxDist) in d
            && (forall j :: 0 <= j <= k ==> SortAsc(d)[j] <= PreCapRadius(d, maxDist))
            && (forall j :: k <= j < |d| ==> PreCapRadius(d, maxDist) <= SortAsc(d)[j])
  {
    var k := PercentileIndex(|d|).value;
    SortedPick(d, k);
  }

  /** With at most one distance nothing is indexed: the radius is max_dist, capped. */
  lemma FewDistancesUseMax(d: seq<real>, maxDist: real)
    requires |d| <= 1
    ensures DisplayRadiusOf(d, maxDist) == if maxDist <= RadiusCapKm then maxDist else RadiusCapKm
  {
  }

  /** The radius never exceeds a bound that max_dist and every distance respect. */
  lemma RadiusWithin(d: seq<real>, maxDist: real, hi: real)
    requires maxDist <= hi
    requires forall k :: 0 <= k < |d| ==> d[k] <= hi
    ensures DisplayRadiusOf(d, maxDist) <= hi
  {
    if |d| > 1 {
      PreCapIsPercentile(d, maxDist);
    }
  }

  /** _calculate_display_radius: the distances from the centre appended in row order,
      sorted, then read at the percentile index and capped. */
  method DisplayRadius(rows: seq<School>, c: Point, maxDist: real, metric: string, t: Trig) returns (r: real)
    ensures r == DisplayRadiusOf(DistancesFrom(c, rows, metric, t), maxDist)
  {
    ghost var d := DistancesFrom(c, rows, metric, t);
    var distances: seq<real> := [];
    for k := 0 to |rows|
      invariant distances == d[..k]
    {
      assert d[..k + 1] == d[..k] + [d[k]];
      distances := distances + [Distance(c, rows[k].at, metric, t)];
    }
    assert distances == d;
    distances := SortAsc(distances);
    var n := |distances|;
    var radius95: real;
    if n >= 20 {
      radius95 := distances[(95 * n) / 100];
    } else if n > 1 {
      radius95 := distances[(8 * n) / 10];
    } else {
      radius95 := maxDist;
    }
    r := if RadiusCapKm < radius95 then RadiusCapKm else radius95;
  }

  /** The marker colours of the map. */
  datatype Color = Blue | Red | Green | Purple | Orange | DarkRed | LightRed | DarkBlue | DarkGreen
                 | CadetBlue | DarkPurple | LightBlue | LightGreen

  /** The colours offices are given, round-robin, in this order. */
  const Palette: seq<Color> := [Blue, Red, Green, Purple, Orange, DarkRed, LightRed,
                                DarkBlue, DarkGreen, CadetBlue, DarkPurple, LightBlue, LightGreen]

  /** _get_office_colors: the i-th distinct office, in order of first appearance, gets
      Palette[i mod 13]. */
  function ColorTable(offices: seq<string>): (m: map<string, Color>)
    ensures forall o :: o in m <==> o in offices
  {
    var u := Unique(offices);
    map i | 0 <= i < |u| :: u[i] := Palette[i % |Palette|]
  }

  /** The round robin: the office at position i of the first-appearance order gets
      Palette[i mod 13]. */
  lemma ColorsRoundRobin(offices: seq<string>)
    ensures var u := Unique(offices);
            forall i :: 0 <= i < |u| ==> ColorTable(offices)[u[i]] == Palette[i % |Palette|]
  {
    var u := Unique(offices);
    var m := ColorTable(offices);
    forall i | 0 <= i < |u|
      ensures m[u[i]] == Palette[i % |Palette|]
    {
      assert u[i] in m;
      var i' :| 0 <= i' < |u| && u[i'] == u[i] && m[u[i]] == Palette[i' % |Palette|];
    }
  }

  /** The first thirteen offices get thirteen different colours, and the fourteenth
      repeats the first one's. */
  lemma ColorsRepeatAfterPalette(offices: seq<string>)
    ensures var u := Unique(offices);
            forall i, j :: 0 <= i < j < |u| && j < |Palette| ==> ColorTable(offices)[u[i]] != ColorTable(offices)[u[j]]
    ensures var u := Unique(offices);
            |u| > |Palette| ==> ColorTable(offices)[u[|Palette|]] == ColorTable(offices)[u[0]]
  {
    ColorsRoundRobin(offices);
    RoundRobinRepeats(Unique(offices), ColorTable(offices));
  }

  /** Any assignment of Palette[i mod 13] to the i-th key repeats exactly after thirteen. */
  lemma RoundRobinRepeats(u: seq<string>, m: map<string, Color>)
    requires forall i :: 0 <= i < |u| ==> u[i] in m && m[u[i]] == Palette[i % |Palette|]
    ensures forall i, j :: 0 <= i < j < |u| && j < |Palette| ==> m[u[i]] != m[u[j]]
    ensures |u| > |Palette| ==> m[u[|Palette|]] == m[u[0]]
  {
    PaletteDistinct();
    forall i, j | 0 <= i < j < |u| && j < |Palette|
      ensures m[u[i]] != m[u[j]]
    {
      assert i % 13 == i && j % 13 == j;
    }
    if |u| > |Palette| {
      assert 13 % 13 == 0 && 0 % 13 == 0;
    }
  }

  /** The thirteen palette colours are different. */
  lemma PaletteDistinct()
    ensures Distinct(Palette)
  {
  }

  /** The loop of _get_office_colors over `unique()`. */
  method OfficeColors(offices: seq<string>) returns (colors: map<string, Color>)
    ensures colors == ColorTable(offices)
  {
    var u := Unique(offices);
    colors := map[];
    for i := 0 to |u|
      invariant forall o :: o in colors <==> o in u[..i]
      invariant forall j :: 0 <= j < i ==> colors[u[j]] == Palette[j % |Palette|]
    {
      assert u[..i + 1] == u[..i] + [u[i]];
      assert u[i] !in u[..i];
      colors := colors[u[i] := Palette[i % |Palette|]];
    }
    assert u[..|u|] == u;
    ColorLoopDone(offices, colors);
  }

  /** A map holding exactly the distinct offices, the i-th of them coloured
      Palette[i mod 13], is the colour table. */
  lemma ColorLoopDone(offices: seq<string>, colors: map<string, Color>)
    requires forall o :: o in colors <==> o in Unique(offices)
    requires forall j :: 0 <= j < |Unique(offices)| ==> colors[Unique(offices)[j]] == Palette[j % |Palette|]
    ensures colors == ColorTable(offices)
  {
    var u := Unique(offices);
    var m := ColorTable(offices);
    ColorsRoundRobin(offices);
    forall o | o in colors
      ensures o in m && colors[o] == m[o]
    {
      var j :| 0 <= j < |u| && u[j] == o;
    }
  }

  /** The columns the level, gender and type colourings read. */
  const LevelColumn: string := "المرحلة"
  const GenderColumn: string := "الجنس"
  const TypeColumn: string := "نوع التعليم"

  const LevelColors: map<string, Color> := map[
    "رياض الأطفال" := Blue, "المرحلة الإبتدائية" := Green, "المرحلة المتوسطة" := Orange,
    "المرحلة الثانوية" := Red, "التعليم المستمر" := Purple, "معهد" := DarkRed,
    "تربية خاصة" := DarkPurple]
  const GenderColors: map<string, Color> := map["بنين" := Blue, "بنات" := Red]
  const TypeColors: map<string, Color> := map[
    "تعليم عام" := Blue, "تحفيظ قران" := Green, "تعليم كبيرات" := Purple, "معهد" := Red,
    "تربية خاصة" := Orange]

  /** `table.get(cell, 'blue')`; a missing cell is NaN, which no table holds. */
  function Lookup(table: map<string, Color>, cell: Cell): Color {
    if cell.Some? && cell.value in table then table[cell.value] else Blue
  }

  /** _get_marker_color: the decision table over the colouring mode. */
  function MarkerColor(cells: map<string, Cell>, colorBy: string, office: string, officeColors: map<string, Color>)
    : (c: Color)
    ensures c == Blue
            || (colorBy == "office" && c in officeColors.Values)
            || (colorBy == "level" && c in LevelColors.Values)
            || (colorBy == "gender" && c in GenderColors.Values)
            || (colorBy == "type" && c in TypeColors.Values)
  {
    if colorBy == "office" then (if office in officeColors then officeColors[office] else Blue)
    else if colorBy == "level" && LevelColumn in cells then Lookup(LevelColors, cells[LevelColumn])
    else if colorBy == "gender" && GenderColumn in cells then Lookup(GenderColors, cells[GenderColumn])
    else if colorBy == "type" && TypeColumn in cells then Lookup(TypeColors, cells[TypeColumn])
    else Blue
  }

  /** Blue is the fallback: an unknown mode, or a mode whose column the row lacks, gives
      blue, and so does an office the colour table does not know. */
  lemma MarkerColorFallback(cells: map<string, Cell>, colorBy: string, office: string, officeColors: map<string, Color>)
    ensures colorBy !in {"office", "level", "gender", "type"} ==> MarkerColor(cells, colorBy, office, officeColors) == Blue
    ensures colorBy == "level" && LevelColumn !in cells ==> MarkerColor(cells, colorBy, office, officeColors) == Blue
    ensures colorBy == "gender" && GenderColumn !in cells ==> MarkerColor(cells, colorBy, office, officeColors) == Blue
    ensures colorBy == "type" && TypeColumn !in cells ==> MarkerColor(cells, colorBy, office, officeColors) == Blue
    ensures colorBy == "office" && office !in officeColors ==> MarkerColor(cells, colorBy, office, officeColors) == Blue
  {
  }

  /** Colouring by office gives every school of an office the office's table colour. */
  lemma OfficeColoringFollowsTable(rows: seq<School>, k: nat)
    requires k < |rows|
    ensures MarkerColor(rows[k].cells, "office", rows[k].office, ColorTable(OfficeNames(rows))) == ColorTable(OfficeNames(rows))[rows[k].office]
  {
    assert OfficeNames(rows)[k] == rows[k].office;
  }

  /** The entry _process_office_location stores for an office with the schools rows. */
  function OfficeEntry(rows: seq<School>, metric: string, t: Trig): (e: OfficeInfo)
    requires rows != []
    ensures e.schoolCount == |rows| && e.metric == Some(metric)
    ensures e.displayRadius <= RadiusCapKm
  {
    var r := OptimalSpec(rows, metric, t);
    var c := CenterOf(rows, metric).value;
    OfficeInfo(c, r.total, r.average, r.maxDistance, DisplayRadiusOf(DistancesFrom(c, rows, metric, t), r.maxDistance),
               if r.farthest.Some? then Some(r.farthest.value.name) else None, |rows|, Some(metric))
  }

  /** The coverage circle never reaches beyond the farthest school, and the average lies
      within it. */
  lemma EntryRadiusWithinFarthest(rows: seq<School>, metric: string, t: Trig)
    requires rows != []
    ensures var e := OfficeEntry(rows, metric, t);
            0.0 <= e.maxDistance && e.displayRadius <= e.maxDistance && e.average <= e.maxDistance
  {
    var r := OptimalSpec(rows, metric, t);
    var c := CenterOf(rows, metric).value;
    var d := DistancesFrom(c, rows, metric, t);
    OptimalBounds(rows, metric, t);
    RadiusWithin(d, r.maxDistance, r.maxDistance);
  }

  /** _process_office_location: the optimal location and the display radius, stored under
      the key `office`; the other keys keep their entries and their order. */
  method ProcessOfficeLocation(office: string, rows: seq<School>, offices: OfficeTable, metric: string, t: Trig)
    requires rows != [] && offices.Valid()
    modifies offices
    ensures offices.Valid()
    ensures offices.entries == old(offices.entries)[office := OfficeEntry(rows, metric, t)]
    ensures offices.order == if office in old(offices.entries) then old(offices.order) else old(offices.order) + [office]
  {
    var result := OptimalLocation(rows, metric, t);
    var c := result.center.value;
    var radius := DisplayRadius(rows, c, result.maxDistance, metric, t);
    var farthest := if result.farthest.Some? then Some(result.farthest.value.name) else None;
    offices.Put(office, OfficeInfo(c, result.total, result.average, result.maxDistance, radius, farthest,
                                   |rows|, Some(metric)));
  }

  /** The list `office_schools[o]`: the index labels of the rows of office o, in row order. */
  function IdsWith(rows: seq<School>, o: string): seq<int> {
    if rows == [] then []
    else IdsWith(rows[..|rows| - 1], o) + (if rows[|rows| - 1].office == o then [rows[|rows| - 1].id] else [])
  }

  /** Scanning one more row appends its label to its own office's list only. */
  lemma IdsWithStep(rows: seq<School>, k: nat, o: string)
    requires k < |rows|
    ensures IdsWith(rows[..k + 1], o) == IdsWith(rows[..k], o) + (if rows[k].office == o then [rows[k].id] else [])
  {
    assert rows[..k + 1][..k] == rows[..k];
  }

  /** The list of office o holds the labels of the rows at the positions whose office is o,
      in the same order; with IndicesOfExact, it holds the label of every row of o once, in
      row order, and nothing else. */
  lemma {:induction false} IdsWithAtIndices(rows: seq<School>, o: string)
    ensures var ix := IndicesOf(OfficeNames(rows), o);
            |IdsWith(rows, o)| == |ix| && forall j :: 0 <= j < |ix| ==> ix[j] < |rows| && IdsWith(rows, o)[j] == rows[ix[j]].id
  {
    if rows != [] {
      var n := |rows| - 1;
      var p := rows[..n];
      IdsWithAtIndices(p, o);
      assert OfficeNames(rows)[..n] == OfficeNames(p);
      IndicesOfExact(OfficeNames(p), o);
    }
  }

  /** After scanning the first k rows, `office_schools` has the offices of those rows as
      keys, in order of first appearance, each with the labels of its rows. */
  ghost predicate GroupedUpTo(rows: seq<School>, k: nat, order: seq<string>, groups: map<string, seq<int>>)
    requires k <= |rows|
  {
    && order == Unique(OfficeNames(rows)[..k])
    && (forall o :: o in groups <==> o in order)
    && (forall o :: o in groups ==> groups[o] == IdsWith(rows[..k], o))
    && (forall o :: o !in groups ==> IdsWith(rows[..k], o) == [])
  }

  /** One step of the grouping loop: a new office becomes the last key, and the row's
      label is appended to its office's list. */
  lemma GroupStep(rows: seq<School>, k: nat, order: seq<string>, groups: map<string, seq<int>>,
                  order': seq<string>, groups': map<string, seq<int>>)
    requires k < |rows| && GroupedUpTo(rows, k, order, groups)
    requires order' == if rows[k].office in groups then order else order + [rows[k].office]
    requires groups' == groups[rows[k].office := (if rows[k].office in groups then groups[rows[k].office] else []) + [rows[k].id]]
    ensures GroupedUpTo(rows, k + 1, order', groups')
  {
    var names := OfficeNames(rows);
    var office := rows[k].office;
    assert order' == Unique(names[..k + 1]) by {
      assert names[k] == office;
      UniqueStep(names, k);
    }
    forall o
      ensures o in groups' <==> o in order'
      ensures o in groups' ==> groups'[o] == IdsWith(rows[..k + 1], o)
      ensures o !in groups' ==> IdsWith(rows[..k + 1], o) == []
    {
      IdsWithStep(rows, k, o);
    }
  }

  /** Once every row is scanned, the groups are those of the whole frame. */
  lemma GroupedAll(rows: seq<School>, order: seq<string>, groups: map<string, seq<int>>)
    requires GroupedUpTo(rows, |rows|, order, groups)
    ensures order == Unique(OfficeNames(rows))
    ensures forall o :: o in groups <==> o in order
    ensures forall o :: o in groups ==> groups[o] == IdsWith(rows, o)
  {
    assert rows[..|rows|] == rows;
    assert OfficeNames(rows)[..|rows|] == OfficeNames(rows);
  }

  /** The rows of office o, in row order. */
  function RowsWith(rows: seq<School>, o: string): seq<School> {
    if rows == [] then []
    else RowsWith(rows[..|rows| - 1], o) + (if rows[|rows| - 1].office == o then [rows[|rows| - 1]] else [])
  }

  /** The ids listed for o are those of exactly the rows of office o, in the same order. */
  lemma {:induction false} GroupExact(rows: seq<School>, o: string)
    ensures |IdsWith(rows, o)| == |RowsWith(rows, o)|
    ensures forall i :: 0 <= i < |RowsWith(rows, o)| ==>
              IdsWith(rows, o)[i] == RowsWith(rows, o)[i].id && RowsWith(rows, o)[i] in rows && RowsWith(rows, o)[i].office == o
  {
    if rows != [] {
      var init := rows[..|rows| - 1];
      GroupExact(init, o);
      assert forall x :: x in init ==> x in rows;
    }
  }

  /** Every row of office o is among the rows of office o. */
  lemma {:induction false} GroupComplete(rows: seq<School>, o: string)
    ensures forall k :: 0 <= k < |rows| && rows[k].office == o ==> rows[k] in RowsWith(rows, o)
  {
    if rows != [] {
      var init := rows[..|rows| - 1];
      GroupComplete(init, o);
      assert forall k :: 0 <= k < |init| ==> rows[k] == init[k];
    }
  }

  /** With unique labels, every row's label is listed under its own office and under no
      other: the lists partition the rows. */
  lemma GroupsPartition(rows: seq<School>, k: nat, o: string)
    requires DistinctIds(rows) && k < |rows|
    ensures rows[k].id in IdsWith(rows, o) <==> rows[k].office == o
  {
    GroupExact(rows, o);
    GroupComplete(rows, o);
    var ids := IdsWith(rows, o);
    var rs := RowsWith(rows, o);
    if rows[k].office == o {
      var i :| 0 <= i < |rs| && rs[i] == rows[k];
      assert ids[i] == rows[k].id;
    }
    if rows[k].id in ids {
      var i :| 0 <= i < |ids| && ids[i] == rows[k].id;
      var j :| 0 <= j < |rows| && rows[j] == rs[i];
      assert rows[j].id == rows[k].id;
    }
  }

  /** With unique labels, `df.loc[office_schools[o]]` is the rows of office o. */
  lemma SelectGroup(rows: seq<School>, o: string)
    requires DistinctIds(rows)
    ensures Select(rows, IdsWith(rows, o)) == Success(RowsWith(rows, o))
  {
    GroupExact(rows, o);
    var ids := IdsWith(rows, o);
    var rs := RowsWith(rows, o);
    forall i | 0 <= i < |ids|
      ensures FindId(rows, ids[i]).Some? && rows[FindId(rows, ids[i]).value] == rs[i]
    {
      var j :| 0 <= j < |rows| && rows[j] == rs[i];
      assert FindId(rows, ids[i]).Some?;
      var f := FindId(rows, ids[i]).value;
      assert rows[f].id == rows[j].id;
    }
    var sel := Select(rows, ids);
    assert sel.Success?;
    assert sel.value == rs;
  }

  /** `df[df['standardized_office'].isin(education_offices)]`: the rows of the selected
      offices, in row order. */
  function OfficeFilter(rows: seq<School>, eo: seq<string>): (r: seq<School>)
    ensures forall x :: x in r <==> x in rows && x.office in eo
    ensures DistinctIds(rows) ==> DistinctIds(r)
  {
    if rows == [] then []
    else
      var init := rows[..|rows| - 1];
      var last := rows[|rows| - 1];
      var r := OfficeFilter(init, eo) + (if last.office in eo then [last] else []);
      assert forall x :: x in rows <==> x in init || x == last by {
        assert rows == init + [last];
      }
      assert DistinctIds(rows) ==> DistinctIds(r) by {
        if DistinctIds(rows) {
          assert DistinctIds(init);
          assert forall x :: x in init ==> x.id != last.id;
          if last.office in eo {
            DistinctIdsSnoc(OfficeFilter(init, eo), last);
          }
        }
      }
      r
  }

  /** One more row whose label no earlier row carries keeps the labels distinct. */
  lemma DistinctIdsSnoc(rs: seq<School>, last: School)
    requires DistinctIds(rs) && forall x :: x in rs ==> x.id != last.id
    ensures DistinctIds(rs + [last])
  {
    var t := rs + [last];
    forall i, j | 0 <= i < j < |t|
      ensures t[i].id != t[j].id
    {
      assert t[i] == rs[i];
      if j < |rs| {
        assert t[j] == rs[j];
      } else {
        assert rs[i] in rs;
      }
    }
  }

  /** The rows create_map works on: all of them when no office is selected, otherwise the
      rows of the selected offices. */
  function Shown(rows: seq<School>, eo: seq<string>): seq<School> {
    if eo == [] then rows else OfficeFilter(rows, eo)
  }

  /** The marker colour of every row. */
  function MarkerColors(rows: seq<School>, colorBy: string, officeColors: map<string, Color>): (cs: seq<Color>)
    ensures |cs| == |rows|
    ensures forall k :: 0 <= k < |rows| ==> cs[k] == MarkerColor(rows[k].cells, colorBy, rows[k].office, officeColors)
  {
    seq(|rows|, k requires 0 <= k < |rows| => MarkerColor(rows[k].cells, colorBy, rows[k].office, officeColors))
  }

  /** The marker colours of one more row extend those of the rows before it. */
  lemma MarkersStep(rows: seq<School>, k: nat, colorBy: string, officeColors: map<string, Color>)
    requires k < |rows|
    ensures MarkerColors(rows[..k + 1], colorBy, officeColors)
            == MarkerColors(rows[..k], colorBy, officeColors) + [MarkerColor(rows[k].cells, colorBy, rows[k].office, officeColors)]
  {
    assert rows[..k + 1][..k] == rows[..k];
  }

  /** Before the loop the dictionary is empty, as the groups of no rows are. */
  lemma GroupedNone(rows: seq<School>)
    ensures GroupedUpTo(rows, 0, [], map[])
  {
    assert OfficeNames(rows)[..0] == [];
  }

  /** The body of the grouping loop for row k: `office_schools[office] = []` for a new
      office, then `office_schools[office].append(idx)`. */
  method AddToGroup(rows: seq<School>, k: nat, order: seq<string>, groups: map<string, seq<int>>)
    returns (order': seq<string>, groups': map<string, seq<int>>)
    requires k < |rows| && GroupedUpTo(rows, k, order, groups)
    ensures GroupedUpTo(rows, k + 1, order', groups')
  {
    var office := rows[k].office;
    order', groups' := order, groups;
    if office !in groups' {
      order' := order' + [office];
      groups' := groups'[office := []];
    }
    groups' := groups'[office := groups'[office] + [rows[k].id]];
    GroupStep(rows, k, order, groups, order', groups');
  }

  /** The marker loop of create_map: each row's label appended to its office's list (a new
      office becomes the last key), and each row's marker colour. */
  method GroupAndColor(rows: seq<School>, colorBy: string, officeColors: map<string, Color>)
    returns (order: seq<string>, groups: map<string, seq<int>>, markers: seq<Color>)
    ensures order == Unique(OfficeNames(rows))
    ensures forall o :: o in groups <==> o in order
    ensures forall o :: o in groups ==> groups[o] == IdsWith(rows, o)
    ensures markers == MarkerColors(rows, colorBy, officeColors)
  {
    order := [];
    groups := map[];
    markers := [];
    GroupedNone(rows);
    for k := 0 to |rows|
      invariant GroupedUpTo(rows, k, order, groups)
      invariant markers == MarkerColors(rows[..k], colorBy, officeColors)
    {
      order, groups := AddToGroup(rows, k, order, groups);
      var color := MarkerColor(rows[k].cells, colorBy, rows[k].office, officeColors);
      MarkersStep(rows, k, colorBy, officeColors);
      markers := markers + [color];
    }
    assert rows[..|rows|] == rows;
    GroupedAll(rows, order, groups);
  }

  /** What create_map draws besides the map itself: the office colours, the marker
      colours, and the `office_locations` dictionary it returns. */
  datatype Drawing = Drawing(officeColors: map<string, Color>, markerColors: seq<Color>, offices: OfficeTable)

  /** The column whose absence makes create_map raise KeyError. */
  const OfficeKey: string := "standardized_office"

  /** An office listed among the shown rows is one of the selected offices. */
  lemma ShownOfficesSelected(rows: seq<School>, eo: seq<string>, o: string)
    requires eo != [] && o in OfficeNames(Shown(rows, eo))
    ensures o in eo
  {
    var s := Shown(rows, eo);
    var k :| 0 <= k < |s| && OfficeNames(s)[k] == o;
    assert s[k] in s;
  }

  /** An office listed among the rows has at least one row. */
  lemma ListedOfficeHasRows(rows: seq<School>, o: string)
    requires o in OfficeNames(rows)
    ensures RowsWith(rows, o) != []
  {
    var k :| 0 <= k < |rows| && OfficeNames(rows)[k] == o;
    GroupComplete(rows, o);
    assert rows[k] in RowsWith(rows, o);
  }

  /** The offices the optimal-location loop does not skip: all of them when no office is
      selected, otherwise the selected ones, in the same order. */
  function Kept(order: seq<string>, eo: seq<string>): (r: seq<string>)
    ensures forall o :: o in r <==> o in order && (eo == [] || o in eo)
  {
    if order == [] then []
    else Kept(order[..|order| - 1], eo) + (if eo == [] || order[|order| - 1] in eo then [order[|order| - 1]] else [])
  }

  /** Every office of the shown rows is kept: the skip inside create_map's loop never fires. */
  lemma KeptAll(order: seq<string>, eo: seq<string>, rows: seq<School>)
    requires order == Unique(OfficeNames(Shown(rows, eo)))
    ensures Kept(order, eo) == order
  {
    if eo != [] {
      forall o | o in order
        ensures o in eo
      {
        ShownOfficesSelected(rows, eo, o);
      }
    }
    KeptPrefix(order, eo, order);
  }

  /** A prefix of a list whose elements all pass the filter passes unchanged. */
  lemma {:induction false} KeptPrefix(p: seq<string>, eo: seq<string>, whole: seq<string>)
    requires forall o :: o in p ==> o in whole
    requires eo != [] ==> forall o :: o in whole ==> o in eo
    ensures Kept(p, eo) == p
  {
    if p != [] {
      var init := p[..|p| - 1];
      var last := p[|p| - 1];
      assert p == init + [last];
      assert forall o :: o in init ==> o in p;
      KeptPrefix(init, eo, whole);
      assert last in p;
      assert Kept(p, eo) == Kept(init, eo) + [last];
    }
  }

  /** One more office of a list without repeats: it is kept or skipped, and it is not
      among those kept before. */
  lemma KeptStep(order: seq<string>, eo: seq<string>, i: nat)
    requires Distinct(order) && i < |order|
    ensures Kept(order[..i + 1], eo) == Kept(order[..i], eo) + (if eo == [] || order[i] in eo then [order[i]] else [])
    ensures order[i] !in Kept(order[..i], eo)
  {
    assert order[..i + 1][..i] == order[..i];
    assert forall j :: 0 <= j < i ==> order[..i][j] == order[j];
  }

  /** The optimal-location loop of create_map: for each office in key order that is not
      skipped, `df_filtered.loc[office_schools[office]]` is handed to
      _process_office_location. */
  method OfficeLocations(rows: seq<School>, eo: seq<string>, order: seq<string>, groups: map<string, seq<int>>,
                         metric: string, t: Trig) returns (offices: OfficeTable)
    requires DistinctIds(rows)
    requires order == Unique(OfficeNames(rows))
    requires forall o :: o in groups <==> o in order
    requires forall o :: o in groups ==> groups[o] == IdsWith(rows, o)
    ensures fresh(offices) && offices.Valid()
    ensures offices.order == Kept(order, eo)
    ensures forall o :: o in offices.entries ==>
              RowsWith(rows, o) != [] && offices.entries[o] == OfficeEntry(RowsWith(rows, o), metric, t)
  {
    offices := new OfficeTable();
    for i := 0 to |order|
      invariant offices.Valid()
      invariant offices.order == Kept(order[..i], eo)
      invariant forall o :: o in offices.entries ==>
                  RowsWith(rows, o) != [] && offices.entries[o] == OfficeEntry(RowsWith(rows, o), metric, t)
    {
      var office := order[i];
      KeptStep(order, eo, i);
      if eo != [] && office !in eo {
        continue;
      }
      SelectGroup(rows, office);
      var officeRows := Select(rows, groups[office]).value;
      assert officeRows == RowsWith(rows, office);
      ListedOfficeHasRows(rows, office);
      if |officeRows| > 0 {
        ghost var before := offices.entries;
        ProcessOfficeLocation(office, officeRows, offices, metric, t);
        forall o | o in offices.entries
          ensures RowsWith(rows, o) != [] && offices.entries[o] == OfficeEntry(RowsWith(rows, o), metric, t)
        {
          if o != office {
            assert o in before;
          }
        }
      }
    }
    assert order[..|order|] == order;
  }

  /** create_map without its drawing. Success(None) is the `(None, None)` return for an
      empty frame or an empty office filter; Failure(key) is the KeyError raised when the
      frame has no standardized_office column. Otherwise the colours, and one entry per
      office of the shown rows (all of them: the skip of unselected offices never fires,
      since the rows were filtered on the same list) when optimal offices are asked for. */
  method CreateMap(frame: Frame, eo: seq<string>, showOptimal: bool, colorBy: string, metric: string, t: Trig)
    returns (r: Result<Option<Drawing>, string>)
    requires DistinctIds(frame.rows)
    ensures frame.rows == [] ==> r == Success(None)
    ensures frame.rows != [] && !frame.hasOffice ==> r == Failure(OfficeKey)
    ensures frame.rows != [] && frame.hasOffice ==> r.Success? && (r.value.None? <==> Shown(frame.rows, eo) == [])
    ensures r.Success? && r.value.Some? ==>
              var rows := Shown(frame.rows, eo);
              var d := r.value.value;
              && fresh(d.offices) && d.offices.Valid()
              && d.officeColors == ColorTable(OfficeNames(rows))
              && d.markerColors == MarkerColors(rows, colorBy, d.officeColors)
              && d.offices.order == (if showOptimal then Unique(OfficeNames(rows)) else [])
              && forall o :: o in d.offices.entries ==>
                   RowsWith(rows, o) != [] && d.offices.entries[o] == OfficeEntry(RowsWith(rows, o), metric, t)
  {
    if frame.rows == [] {
      return Success(None);
    }
    var rows := frame.rows;
    if eo != [] {
      if !frame.hasOffice {
        return Failure(OfficeKey);
      }
      rows := OfficeFilter(frame.rows, eo);
      if rows == [] {
        return Success(None);
      }
    }
    if !frame.hasOffice {
      return Failure(OfficeKey);
    }
    var colors := OfficeColors(OfficeNames(rows));
    var order, groups, markers := GroupAndColor(rows, colorBy, colors);
    var offices: OfficeTable;
    if showOptimal && |order| > 0 {
      offices := OfficeLocations(rows, eo, order, groups, metric, t);
      KeptAll(order, eo, frame.rows);
    } else {
      offices := new OfficeTable();
    }
    r := Success(Some(Drawing(colors, markers, offices)));
  }
}
