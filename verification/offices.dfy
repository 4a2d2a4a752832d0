/** The `office_locations` dictionary the map builder fills, one entry per education office,
    and reads back when it computes each school's distance to its office. */
module Offices {
  import opened Wrappers
  import opened Records
  import opened Sequences

  /** One office's entry: the computed centre, the distance summary of its schools, the
      capped display radius, the farthest school's label, the school count and the distance
      method it was computed with (absent in the older routine's entries). */
  datatype OfficeInfo = OfficeInfo(
    at: Point,
    total: real,
    average: real,
    maxDistance: real,
    displayRadius: real,
    farthest: Option<Label>,
    schoolCount: nat,
    metric: Option<string>)

  /** A Python dict from office name to OfficeInfo, keeping insertion order. */
  class OfficeTable {
    /** The keys in insertion order (what iterating the dict yields). */
    var order: seq<string>
    var entries: map<string, OfficeInfo>

    ghost predicate Valid()
      reads this
    {
      Distinct(order) && forall o :: o in entries <==> o in order
    }

    /** `office_locations = {}`. */
    constructor()
      ensures Valid()
      ensures order == [] && entries == map[]
    {
      order := [];
      entries := map[];
    }

    /** `office_locations[office] = info`: sets that one key; a new key goes to the end of
        the iteration order, an existing key keeps its place. */
    method Put(office: string, info: OfficeInfo)
      requires Valid()
      modifies this
      ensures Valid()
      ensures entries == old(entries)[office := info]
      ensures order == if office in old(entries) then old(order) else old(order) + [office]
    {
      if office !in entries {
        order := order + [office];
      }
      entries := entries[office := info];
    }

    /** `next(iter(office_locations.values()))`, or None for an empty dict. */
    function First(): (r: Option<OfficeInfo>)
      requires Valid()
      reads this
      ensures r.None? <==> entries == map[]
      ensures r.Some? ==> |order| > 0 && r.value == entries[order[0]]
    {
      if order == [] then None
      else
        assert order[0] in entries;
        Some(entries[order[0]])
    }
  }
}
