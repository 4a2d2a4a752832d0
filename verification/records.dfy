/** The rows the engine works on: schools read from the uploaded table. */
module Records {
  import opened Wrappers

  /** Decimal degrees. */
  datatype Point = Point(lat: real, lng: real)

  /** A cell of the uploaded table; None is a missing value (NaN). */
  type Cell = Option<string>

  /** The column holding a school's name. */
  const NameColumn: string := "اسم المدرسة"

  /** One school row after cleaning: its index label in the uploaded table, its cleaned
      coordinates, its standardized office name and all of its original cells. */
  datatype School = School(id: int, at: Point, office: string, cells: map<string, Cell>)

  /** A cleaned table; `hasOffice` says whether the `standardized_office` column exists. */
  datatype Frame = Frame(rows: seq<School>, hasOffice: bool)

  /** No two rows share an index label. */
  predicate DistinctIds(rows: seq<School>) {
    forall i, j :: 0 <= i < j < |rows| ==> rows[i].id != rows[j].id
  }

  /** How a school is named in results: its name cell when that column exists,
      otherwise the synthesized "School #<idx>". */
  datatype Label = Named(name: Cell) | Numbered(id: int)

  /** The label a school is shown by: its name when the frame has a name column, else its
      index label. */
  function LabelOf(s: School): (l: Label)
    ensures l.Numbered? <==> NameColumn !in s.cells
    ensures l.Named? ==> l.name == s.cells[NameColumn]
    ensures l.Numbered? ==> l.id == s.id
  {
    if NameColumn in s.cells then Named(s.cells[NameColumn]) else Numbered(s.id)
  }

  function Points(rows: seq<School>): (ps: seq<Point>)
    ensures |ps| == |rows|
    ensures forall k :: 0 <= k < |rows| ==> ps[k] == rows[k].at
  {
    seq(|rows|, k requires 0 <= k < |rows| => rows[k].at)
  }

  function Lats(rows: seq<School>): (s: seq<real>)
    ensures |s| == |rows|
    ensures forall k :: 0 <= k < |rows| ==> s[k] == rows[k].at.lat
  {
    seq(|rows|, k requires 0 <= k < |rows| => rows[k].at.lat)
  }

  function Lngs(rows: seq<School>): (s: seq<real>)
    ensures |s| == |rows|
    ensures forall k :: 0 <= k < |rows| ==> s[k] == rows[k].at.lng
  {
    seq(|rows|, k requires 0 <= k < |rows| => rows[k].at.lng)
  }

  function OfficeNames(rows: seq<School>): (s: seq<string>)
    ensures |s| == |rows|
    ensures forall k :: 0 <= k < |rows| ==> s[k] == rows[k].office
  {
    seq(|rows|, k requires 0 <= k < |rows| => rows[k].office)
  }
}
