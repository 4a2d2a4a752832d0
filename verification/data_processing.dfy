/** Input normalisation: the office-name standardiser, the detection of the coordinate
    columns, and the cleaning and filtering that turn an uploaded table into school rows. */
module DataProcessing {
  import opened Wrappers
  import opened Records
  import opened Sequences
  import opened Text

  const BoysSuffix: string := "بنين"
  const GirlsSuffix: string := "بنات"

  /** A suffix the pattern `-\s*<suffix>$` is built from: a non-empty word without whitespace. */
  predicate Word(w: string) {
    |w| > 0 && forall k :: 0 <= k < |w| ==> !IsSpace(w[k])
  }

  /** Both gender suffixes are words. */
  lemma SuffixesAreWords()
    ensures Word(BoysSuffix) && Word(GirlsSuffix)
  {
    assert forall k :: 0 <= k < 4 ==> !IsSpace(BoysSuffix[k]) && !IsSpace(GirlsSuffix[k]);
  }

  /** Where `$` lets a match end: just before a final newline, otherwise at the very end. */
  function MatchEnd(s: string): (e: nat)
    ensures e <= |s|
    ensures e == |s| || (e == |s| - 1 && s[e] == '\n')
  {
    if |s| > 0 && s[|s| - 1] == '\n' then |s| - 1 else |s|
  }

  /** The start of the longest run of whitespace that ends at position j. */
  function SpaceRunStart(s: string, j: nat): (w: nat)
    requires j <= |s|
    ensures w <= j
    ensures AllSpace(s[w..j])
    ensures w == 0 || !IsSpace(s[w - 1])
  {
    if j > 0 && IsSpace(s[j - 1]) then
      var w := SpaceRunStart(s, j - 1);
      assert forall k :: w <= k < j - 1 ==> IsSpace(s[k]) by {
        assert forall k :: w <= k < j - 1 ==> s[k] == s[w..j - 1][k - w];
      }
      w
    else j
  }

  /** `re.sub(r'-\s*<suffix>$', '', s)`: the dash, the whitespace after it and the suffix
      are removed when they end where `$` matches; a final newline is kept. */
  function DropGenderSuffix(s: string, suffix: string): (r: string)
    requires Word(suffix)
    ensures r != s ==> var e := MatchEnd(s);
                       && |s| <= |r| + e && MatchesAt(s, suffix, |r| + e - |s|, e)
                       && r == s[..|r| + e - |s|] + s[e..]
  {
    var e := MatchEnd(s);
    if |suffix| <= e && s[e - |suffix|..e] == suffix then
      var w := SpaceRunStart(s, e - |suffix|);
      if w >= 1 && s[w - 1] == '-' then
        MatchAtRunStart(s, suffix, e, w);
        s[..w - 1] + s[e..]
      else s
    else s
  }

  /** s[i..e] matches `-\s*<suffix>` and `$` holds at e. */
  predicate MatchesAt(s: string, suffix: string, i: nat, e: nat) {
    && i + 1 + |suffix| <= e <= |s|
    && (e == |s| || (e == |s| - 1 && s[e] == '\n'))
    && s[i] == '-'
    && AllSpace(s[i + 1..e - |suffix|])
    && s[e - |suffix|..e] == suffix
  }

  /** Any match of the pattern is exactly what DropGenderSuffix cuts out (there is at most one). */
  lemma MatchIsRemoved(s: string, suffix: string, i: nat, e: nat)
    requires Word(suffix) && MatchesAt(s, suffix, i, e)
    ensures DropGenderSuffix(s, suffix) == s[..i] + s[e..]
  {
    var j := e - |suffix|;
    assert MatchEnd(s) == e by {
      if e == |s| {
        assert s[e - 1] == s[j..e][|suffix| - 1];
        assert !IsSpace(suffix[|suffix| - 1]);
      }
    }
    assert SpaceRunStart(s, j) == i + 1 by {
      SpaceRunStartIs(s, j, i + 1);
    }
    DropAt(s, suffix, e, i + 1);
  }

  /** The removal once `$`, the suffix and the dash before the whitespace run are located. */
  lemma DropAt(s: string, suffix: string, e: nat, w: nat)
    requires Word(suffix) && MatchEnd(s) == e && |suffix| <= e
    requires s[e - |suffix|..e] == suffix
    requires SpaceRunStart(s, e - |suffix|) == w && w >= 1 && s[w - 1] == '-'
    ensures DropGenderSuffix(s, suffix) == s[..w - 1] + s[e..]
  {
  }

  /** A whitespace run that is not preceded by whitespace is the longest one. */
  lemma {:induction false} SpaceRunStartIs(s: string, j: nat, w: nat)
    requires w <= j <= |s|
    requires AllSpace(s[w..j])
    requires w == 0 || !IsSpace(s[w - 1])
    ensures SpaceRunStart(s, j) == w
  {
    if j > w {
      assert IsSpace(s[w..j][j - 1 - w]);
      assert s[w..j - 1] == s[w..j][..j - 1 - w];
      SpaceRunStartIs(s, j - 1, w);
    }
  }

  /** When nothing matches, the name is unchanged. */
  lemma NoMatchUnchanged(s: string, suffix: string)
    requires Word(suffix)
    requires forall i: nat, e: nat :: !MatchesAt(s, suffix, i, e)
    ensures DropGenderSuffix(s, suffix) == s
  {
    var e := MatchEnd(s);
    if |suffix| <= e && s[e - |suffix|..e] == suffix {
      var w := SpaceRunStart(s, e - |suffix|);
      if w >= 1 && s[w - 1] == '-' {
        MatchAtRunStart(s, suffix, e, w);
        assert false;
      }
    }
  }

  /** The dash before the whitespace run that precedes the suffix starts a match. */
  lemma MatchAtRunStart(s: string, suffix: string, e: nat, w: nat)
    requires Word(suffix) && MatchEnd(s) == e && |suffix| <= e
    requires s[e - |suffix|..e] == suffix
    requires SpaceRunStart(s, e - |suffix|) == w && w >= 1 && s[w - 1] == '-'
    ensures MatchesAt(s, suffix, w - 1, e)
  {
  }

  /** "<b>-<whitespace><suffix>" loses the dash, the whitespace and the suffix, also before a
      final newline. */
  lemma SuffixRemoved(b: string, ws: string, suffix: string)
    requires Word(suffix) && AllSpace(ws)
    ensures DropGenderSuffix(b + "-" + ws + suffix, suffix) == b
    ensures DropGenderSuffix(b + "-" + ws + suffix + "\n", suffix) == b + "\n"
  {
    var s := b + "-" + ws + suffix;
    assert s[|b| + 1..|s| - |suffix|] == ws;
    assert s[|s| - |suffix|..|s|] == suffix;
    MatchIsRemoved(s, suffix, |b|, |s|);
    assert s[..|b|] == b;
    var t := s + "\n";
    assert t[|b| + 1..|s| - |suffix|] == ws;
    assert t[|s| - |suffix|..|s|] == suffix;
    MatchIsRemoved(t, suffix, |b|, |s|);
    assert t[..|b|] == b && t[|s|..] == "\n";
  }

  /** Whitespace after the suffix prevents the removal: `$` does not skip it. */
  lemma TrailingSpaceBlocksRemoval(b: string, suffix: string, c: char)
    requires Word(suffix) && IsSpace(c) && c != '\n'
    ensures DropGenderSuffix(b + "-" + suffix + [c], suffix) == b + "-" + suffix + [c]
  {
    var s := b + "-" + suffix + [c];
    assert s[|s| - 1] == c;
  }

  /** The five substring rewrites, in the order they are applied. */
  const Rewrites: seq<(string, string)> :=
    [("بال", "ال"), ("التعليم", "تعليم"), ("بر", "ر"), ("بأ", "أ"), ("بخ", "خ")]

  predicate Patterns(rs: seq<(string, string)>) {
    forall k :: 0 <= k < |rs| ==> |rs[k].0| > 0
  }

  /** Apply each `name.replace(pat, rep)` of rs in turn, each to the previous one's output. */
  function ApplyRewrites(s: string, rs: seq<(string, string)>): (r: string)
    requires Patterns(rs)
    ensures (forall k :: 0 <= k < |rs| ==> |rs[k].1| <= |rs[k].0|) ==> |r| <= |s|
    decreases rs
  {
    if rs == [] then s else ApplyRewrites(ReplaceAll(s, rs[0].0, rs[0].1), rs[1..])
  }

  /** A name containing none of the patterns passes the rewrites unchanged. */
  lemma {:induction false} RewritesOfAbsentPatterns(s: string, rs: seq<(string, string)>)
    requires Patterns(rs)
    requires forall k :: 0 <= k < |rs| ==> !Contains(s, rs[k].0)
    ensures ApplyRewrites(s, rs) == s
  {
    if rs != [] {
      ReplaceAbsent(s, rs[0].0, rs[0].1);
      RewritesOfAbsentPatterns(s, rs[1..]);
    }
  }

  /** standardize_office_name: a missing name becomes "Unknown"; otherwise the boys' and
      then the girls' suffix is dropped, the rewrites run in order, and the result is
      stripped, so it has no leading or trailing whitespace. */
  function StandardizeOfficeName(name: Cell): (r: string)
    ensures name.None? ==> r == "Unknown"
    ensures r == [] || (!IsSpace(r[0]) && !IsSpace(r[|r| - 1]))
  {
    match name
    case None => "Unknown"
    case Some(s) => Strip(ApplyRewrites(DropGenderSuffix(DropGenderSuffix(s, BoysSuffix), GirlsSuffix), Rewrites))
  }

  /** The boys' and girls' variants of an office standardise to the same name. */
  lemma GenderVariantsAgree(b: string, ws: string)
    requires AllSpace(ws)
    requires DropGenderSuffix(b, GirlsSuffix) == b
    ensures StandardizeOfficeName(Some(b + "-" + ws + BoysSuffix)) == StandardizeOfficeName(Some(b + "-" + ws + GirlsSuffix))
  {
    SuffixesAreWords();
    SuffixRemoved(b, ws, BoysSuffix);
    SuffixRemoved(b, ws, GirlsSuffix);
    var g := b + "-" + ws + GirlsSuffix;
    assert g[|g| - 1] != BoysSuffix[|BoysSuffix| - 1];
    assert DropGenderSuffix(g, BoysSuffix) == g;
  }

  /** A girls' suffix followed by a boys' suffix are both removed, boys' first. */
  lemma BothSuffixesRemoved(b: string, ws1: string, ws2: string)
    requires AllSpace(ws1) && AllSpace(ws2)
    ensures DropGenderSuffix(DropGenderSuffix(b + "-" + ws1 + GirlsSuffix + "-" + ws2 + BoysSuffix, BoysSuffix), GirlsSuffix) == b
  {
    SuffixesAreWords();
    SuffixRemoved(b + "-" + ws1 + GirlsSuffix, ws2, BoysSuffix);
    SuffixRemoved(b, ws1, GirlsSuffix);
  }

  /** The column whose values are standardised into `standardized_office`. */
  const OfficeSourceColumn: string := "مكتب التعليم"

  /** A latitude column: lower-cased name contains "lat", or the name contains "خط العرض". */
  predicate IsLatColumn(col: string) {
    Contains(Lower(col), "lat") || Contains(col, "خط العرض")
  }

  /** A longitude column: "lon" or "lng" in the lower-cased name, or "خط الطول" in the name. */
  predicate IsLngColumn(col: string) {
    Contains(Lower(col), "lon") || Contains(Lower(col), "lng") || Contains(col, "خط الطول")
  }

  /** Considered for longitude only when it is not taken for latitude (the `elif`). */
  predicate IsLngOnlyColumn(col: string) {
    !IsLatColumn(col) && IsLngColumn(col)
  }

  function ColumnAt(columns: seq<string>, k: Option<nat>): Option<string>
    requires k.Some? ==> k.value < |columns|
  {
    match k
    case None => None
    case Some(i) => Some(columns[i])
  }

  /** The loop over the columns: the last latitude column wins, and the last column that is
      a longitude column but not a latitude column wins. */
  method DetectCoordinateColumns(columns: seq<string>) returns (lat: Option<string>, lng: Option<string>)
    ensures lat == ColumnAt(columns, LastIndexWhere(columns, IsLatColumn))
    ensures lng == ColumnAt(columns, LastIndexWhere(columns, IsLngOnlyColumn))
  {
    lat := None;
    lng := None;
    ghost var latAt: Option<nat> := None;
    ghost var lngAt: Option<nat> := None;
    for k := 0 to |columns|
      invariant latAt == LastIndexWhere(columns[..k], IsLatColumn) && lat == ColumnAt(columns, latAt)
      invariant lngAt == LastIndexWhere(columns[..k], IsLngOnlyColumn) && lng == ColumnAt(columns, lngAt)
    {
      assert columns[..k + 1][..k] == columns[..k];
      var col := columns[k];
      if IsLatColumn(col) {
        lat := Some(col);
        latAt := Some(k);
      } else if IsLngColumn(col) {
        lng := Some(col);
        lngAt := Some(k);
      }
    }
    assert columns[..|columns|] == columns;
  }

  /** The uploaded table: its column names and, for each row, its cells by column name. */
  datatype Table = Table(columns: seq<string>, rows: seq<map<string, Cell>>)

  /** A cell of a row; a column a short row lacks reads as missing. */
  function CellOf(row: map<string, Cell>, col: string): Cell {
    if col in row then row[col] else None
  }

  /** The row as the data frame holds it: one cell for every column of the table, NaN where
      the row is short, and nothing for a key that is not a column. */
  function CellsOf(table: Table, row: map<string, Cell>): (cells: map<string, Cell>)
    ensures forall c :: c in cells <==> c in table.columns
    ensures forall c :: c in table.columns ==> cells[c] == (if c in row then row[c] else None)
  {
    map c | c in table.columns :: CellOf(row, c)
  }

  /** Removing the quotes and stripping leaves no quote and adds no character. */
  lemma UnquotedStripped(s: string)
    ensures var t := Strip(ReplaceAll(s, "\"", ""));
            '"' !in t && forall c :: c in t ==> c in s
  {
    var unquoted := ReplaceAll(s, "\"", "");
    ReplaceCharByNothing(s, '"');
    StripKeeps(unquoted);
  }

  /** Every comma becomes a dot and nothing else changes. */
  lemma CommasToDots(t: string)
    ensures var r := ReplaceAll(t, ",", ".");
            && |r| == |t| && ',' !in r
            && forall k :: 0 <= k < |t| ==> r[k] == (if t[k] == ',' then '.' else t[k])
  {
    ReplaceCharPointwise(t, ',', '.');
  }

  /** Turning commas into dots keeps what the unquoting and stripping established. */
  lemma DotsKeepCleanliness(s: string, t: string, r: string)
    requires '"' !in t && forall c :: c in t ==> c in s
    requires t == [] || (!IsSpace(t[0]) && !IsSpace(t[|t| - 1]))
    requires |r| == |t| && forall k :: 0 <= k < |t| ==> r[k] == (if t[k] == ',' then '.' else t[k])
    ensures '"' !in r
    ensures r == [] || (!IsSpace(r[0]) && !IsSpace(r[|r| - 1]))
    ensures forall c :: c in r && c != '.' ==> c in s
  {
    forall c | c in r
      ensures c != '"' && (c != '.' ==> c in s)
    {
      var k :| 0 <= k < |r| && r[k] == c;
      assert t[k] in t;
    }
  }

  /** The text cleaning before numeric parsing: every '"' removed, whitespace stripped,
      every ',' turned into '.'. */
  function CleanCoordinate(s: string): (r: string)
    ensures '"' !in r && ',' !in r
    ensures r == [] || (!IsSpace(r[0]) && !IsSpace(r[|r| - 1]))
    ensures forall c :: c in r && c != '.' ==> c in s
  {
    var t := Strip(ReplaceAll(s, "\"", ""));
    UnquotedStripped(s);
    CommasToDots(t);
    DotsKeepCleanliness(s, t, ReplaceAll(t, ",", "."));
    ReplaceAll(t, ",", ".")
  }

  /** The cleaned coordinate as a number: the parser is `pd.to_numeric(errors='coerce')`,
      passed in, with None for NaN; a missing cell stays missing. */
  function ParseCell(cell: Cell, parse: string -> Option<real>): Option<real> {
    match cell
    case None => None
    case Some(s) => parse(CleanCoordinate(s))
  }

  /** A cleaned column (`df[new_name]` after `pd.to_numeric`): one value per row, None for NaN. */
  function CleanColumn(table: Table, col: string, parse: string -> Option<real>): (v: seq<Option<real>>)
    ensures |v| == |table.rows|
    ensures forall k :: 0 <= k < |table.rows| ==> v[k] == ParseCell(CellOf(table.rows[k], col), parse)
  {
    seq(|table.rows|, k requires 0 <= k < |table.rows| => ParseCell(CellOf(table.rows[k], col), parse))
  }

  /** The `standardized_office` value of a row ("" stands for the absent column). */
  function OfficeOf(table: Table, row: map<string, Cell>): string {
    if OfficeSourceColumn in table.columns then StandardizeOfficeName(CellOf(row, OfficeSourceColumn)) else ""
  }

  /** Two cleaned columns that fit the table. */
  predicate Fits(table: Table, lats: seq<Option<real>>, lngs: seq<Option<real>>) {
    |lats| == |table.rows| && |lngs| == |table.rows|
  }

  /** Row k after cleaning, or None when `dropna` (a NaN coordinate) or the zero filter
      (a coordinate equal to 0) removes it. */
  function RowAt(table: Table, lats: seq<Option<real>>, lngs: seq<Option<real>>, k: nat): (r: Option<School>)
    requires Fits(table, lats, lngs) && k < |table.rows|
    ensures r.Some? <==> lats[k].Some? && lngs[k].Some? && lats[k].value != 0.0 && lngs[k].value != 0.0
    ensures r.Some? ==> r.value == School(k, Point(lats[k].value, lngs[k].value), OfficeOf(table, table.rows[k]),
                                          CellsOf(table, table.rows[k]))
  {
    match (lats[k], lngs[k])
    case (Some(a), Some(b)) =>
      if a != 0.0 && b != 0.0 then Some(School(k, Point(a, b), OfficeOf(table, table.rows[k]), CellsOf(table, table.rows[k])))
      else None
    case _ => None
  }

  /** The rows among the first n that survive, in table order, each labelled with its row number. */
  function Survivors(table: Table, lats: seq<Option<real>>, lngs: seq<Option<real>>, n: nat): (rs: seq<School>)
    requires Fits(table, lats, lngs) && n <= |table.rows|
    ensures forall k :: 0 <= k < |rs| ==> 0 <= rs[k].id < n && RowAt(table, lats, lngs, rs[k].id) == Some(rs[k])
    ensures forall a, b :: 0 <= a < b < |rs| ==> rs[a].id < rs[b].id
  {
    if n == 0 then []
    else
      var before := Survivors(table, lats, lngs, n - 1);
      match RowAt(table, lats, lngs, n - 1)
      case None => before
      case Some(s) => before + [s]
  }

  /** Every surviving school has both coordinates present and non-zero. */
  lemma SurvivorsValid(table: Table, lats: seq<Option<real>>, lngs: seq<Option<real>>)
    requires Fits(table, lats, lngs)
    ensures var rs := Survivors(table, lats, lngs, |table.rows|);
            forall k :: 0 <= k < |rs| ==>
              && lats[rs[k].id] == Some(rs[k].at.lat) && lngs[rs[k].id] == Some(rs[k].at.lng)
              && rs[k].at.lat != 0.0 && rs[k].at.lng != 0.0
  {
  }

  /** No row with both coordinates present and non-zero is dropped. */
  lemma {:induction false} SurvivorsComplete(table: Table, lats: seq<Option<real>>, lngs: seq<Option<real>>, n: nat, k: nat)
    requires Fits(table, lats, lngs) && k < n <= |table.rows|
    requires RowAt(table, lats, lngs, k).Some?
    ensures RowAt(table, lats, lngs, k).value in Survivors(table, lats, lngs, n)
  {
    if k < n - 1 {
      SurvivorsComplete(table, lats, lngs, n - 1, k);
    }
  }

  /** A surviving school is named by its name cell exactly when the table has the name
      column, NaN when its row is short; otherwise it is "School #<row number>". */
  lemma SurvivorLabel(table: Table, lats: seq<Option<real>>, lngs: seq<Option<real>>, s: School)
    requires Fits(table, lats, lngs) && s in Survivors(table, lats, lngs, |table.rows|)
    ensures 0 <= s.id < |table.rows|
    ensures NameColumn in table.columns ==> LabelOf(s) == Named(CellOf(table.rows[s.id], NameColumn))
    ensures NameColumn !in table.columns ==> LabelOf(s) == Numbered(s.id)
  {
    var rs := Survivors(table, lats, lngs, |table.rows|);
    var k :| 0 <= k < |rs| && rs[k] == s;
    assert RowAt(table, lats, lngs, s.id) == Some(s);
  }

  /** The columns used: both detected ones if both were found, otherwise both manual picks. */
  function ChosenColumns(columns: seq<string>, manualLat: Option<string>, manualLng: Option<string>)
    : (r: (Option<string>, Option<string>))
    ensures (exists c :: c in columns && IsLatColumn(c)) && (exists c :: c in columns && IsLngOnlyColumn(c)) ==>
              && r.0.Some? && r.0.value in columns && IsLatColumn(r.0.value)
              && r.1.Some? && r.1.value in columns && IsLngOnlyColumn(r.1.value)
    ensures !((exists c :: c in columns && IsLatColumn(c)) && (exists c :: c in columns && IsLngOnlyColumn(c))) ==>
              r == (manualLat, manualLng)
  {
    var lat := ColumnAt(columns, LastIndexWhere(columns, IsLatColumn));
    var lng := ColumnAt(columns, LastIndexWhere(columns, IsLngOnlyColumn));
    if lat.Some? && lng.Some? then (lat, lng) else (manualLat, manualLng)
  }

  /** load_and_process_data after `read_csv`: None is the exception path (a chosen column
      missing from the table); otherwise the surviving rows, with `standardized_office`
      present exactly when the table has the office column. The manual picks stand for the
      two select boxes, None when they offer nothing. */
  method LoadAndProcessData(table: Table, manualLat: Option<string>, manualLng: Option<string>,
                            parse: string -> Option<real>) returns (r: Option<Frame>)
    ensures var (lat, lng) := ChosenColumns(table.columns, manualLat, manualLng);
            r.None? <==> lat.None? || lng.None? || lat.value !in table.columns || lng.value !in table.columns
    ensures var (lat, lng) := ChosenColumns(table.columns, manualLat, manualLng);
            r.Some? ==> r.value == Frame(Survivors(table, CleanColumn(table, lat.value, parse),
                                                   CleanColumn(table, lng.value, parse), |table.rows|),
                                         OfficeSourceColumn in table.columns)
    ensures r.Some? ==> DistinctIds(r.value.rows)
  {
    var lat, lng := DetectCoordinateColumns(table.columns);
    if lat.None? || lng.None? {
      lat, lng := manualLat, manualLng;
    }
    if lat.None? || lng.None? || lat.value !in table.columns || lng.value !in table.columns {
      return None;
    }
    var lats := CleanColumn(table, lat.value, parse);
    var lngs := CleanColumn(table, lng.value, parse);
    var rows := Survivors(table, lats, lngs, |table.rows|);
    r := Some(Frame(rows, OfficeSourceColumn in table.columns));
  }
}
