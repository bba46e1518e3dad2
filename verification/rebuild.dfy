/**
 * Filling the grid: runs of add_element calls, each at its own cell index,
 * the way one insert per particle fills it.
 */
module Rebuild {
  import opened BoundedInts
  import opened CellIndexing
  import BucketTable

  /** One add_element raises a count by at most one and lowers none. */
  lemma AddElementCounts(n: CellCount, t: BucketTable.Table, member: uint16, id: CellIndex)
    requires t.Valid(n)
    ensures var r := BucketTable.AddElement(n, t, member, id);
      forall c :: 0 <= c < |t.sizes| ==> t.sizes[c] <= r.sizes[c] <= t.sizes[c] + 1
  {
  }

  /** One add_element call: the member to store and the cell index it is stored at. */
  datatype Insert = Insert(member: uint16, id: CellIndex)

  /**
   * The table after add_element was called for each insert in turn, each at
   * its own cell index.
   */
  function AddAll(n: CellCount, t: BucketTable.Table, inserts: seq<Insert>): (r: BucketTable.Table)
    requires t.Valid(n)
    ensures r.Valid(n)
    ensures forall c :: 0 <= c < |t.sizes| ==> t.sizes[c] <= r.sizes[c]
    decreases |inserts|
  {
    if inserts == [] then
      t
    else
      AddElementCounts(n, t, inserts[0].member, inserts[0].id);
      AddAll(n, BucketTable.AddElement(n, t, inserts[0].member, inserts[0].id), inserts[1..])
  }
}
