/**
 * The grid's bucket table as a value: the member slots of every cell, laid out
 * as one arena where slot k of cell c is at c * Capacity + k, and the count of
 * slots each cell uses. Reset and AddElement give the table after the
 * operations of the same name; the class in UniformGrid is proved against them.
 */
module BucketTable {
  import opened BoundedInts
  import opened CellIndexing

  /** Member slots per cell (GridCell<32>). */
  const Capacity: nat := 32

  datatype Table = Table(members: seq<uint32>, sizes: seq<uint8>) {
    /** The shape of an n-by-n grid, whatever the counts hold. */
    ghost predicate Shaped(n: CellCount) {
      |sizes| == n * n && |members| == |sizes| * Capacity
    }

    /** The shape of an n-by-n grid, and no cell using more slots than it has. */
    ghost predicate Valid(n: CellCount) {
      && Shaped(n)
      && forall c :: 0 <= c < |sizes| ==> sizes[c] as int <= Capacity
    }

    /** The members cell c currently holds, in the order they were added. */
    function Members(c: nat): (r: seq<uint32>)
      requires c < |sizes| && |members| == |sizes| * Capacity
      requires sizes[c] as int <= Capacity
      ensures |r| == sizes[c] as int
    {
      members[c * Capacity .. c * Capacity + sizes[c] as int]
    }
  }

  /** Every occupancy count zeroed; the member slots keep their old contents. */
  function Reset(t: Table): (r: Table)
    ensures r.members == t.members
    ensures |r.sizes| == |t.sizes|
    ensures forall c :: 0 <= c < |r.sizes| ==> r.sizes[c] == 0
  {
    Table(t.members, seq(|t.sizes|, _ => 0))
  }

  /**
   * add_element: when the cell id is below n * n and that cell is not full,
   * the member goes into the cell's first unused slot and the cell's count
   * grows by one; otherwise the table is left as it was.
   */
  function AddElement(n: CellCount, t: Table, member: uint16, id: CellIndex): (r: Table)
    requires t.Valid(n)
    ensures r.Valid(n)
    ensures forall c :: 0 <= c < |t.sizes| && c != CellId(n, id) as int ==> r.sizes[c] == t.sizes[c]
  {
    var cell := CellId(n, id) as int;
    if cell < n * n then
      var size := t.sizes[cell];
      if size as int != Capacity then
        Table(t.members[cell * Capacity + size as int := member as uint32], t.sizes[cell := size + 1])
      else
        t
    else
      t
  }

  /** Every member of ms widened to a 32-bit slot value. */
  function Widen(ms: seq<uint16>): (r: seq<uint32>)
    ensures |r| == |ms|
    ensures forall i :: 0 <= i < |ms| ==> r[i] as int == ms[i] as int
  {
    seq(|ms|, i requires 0 <= i < |ms| => ms[i] as uint32)
  }

  /** The table after add_element was called with each of ms in turn, all for the index id. */
  function AddEach(n: CellCount, t: Table, ms: seq<uint16>, id: CellIndex): (r: Table)
    requires t.Valid(n)
    ensures r.Valid(n)
    decreases |ms|
  {
    if ms == [] then t else AddEach(n, AddElement(n, t, ms[0], id), ms[1..], id)
  }

  function Min(a: int, b: int): int {
    if a <= b then a else b
  }

  /**
   * Whatever the counts held before, even values above the capacity, after a
   * reset the table is valid and every cell is empty; resetting again
   * changes nothing.
   */
  lemma ResetEmptiesAll(n: CellCount, t: Table)
    requires t.Shaped(n)
    ensures Reset(t).Valid(n)
    ensures forall c :: 0 <= c < n * n ==> Reset(t).Members(c) == []
    ensures Reset(Reset(t)) == Reset(t)
  {
    assert Reset(Reset(t)).sizes == Reset(t).sizes;
  }

  /**
   * A cell that accepts the member: the member lands in slot size of the
   * cell, the count grows by exactly one, and the cell's earlier members
   * stay in place.
   */
  lemma AddElementAppends(n: CellCount, t: Table, member: uint16, id: CellIndex)
    requires t.Valid(n)
    requires GetCell(n, id) < n * n && t.sizes[GetCell(n, id)] as int < Capacity
    ensures var c, r := GetCell(n, id), AddElement(n, t, member, id);
      && r.sizes == t.sizes[c := t.sizes[c] + 1]
      && r.members == t.members[c * Capacity + t.sizes[c] as int := member as uint32]
      && r.Members(c) == t.Members(c) + [member as uint32]
  {
  }

  /** A full cell, or a cell id at or beyond n * n, leaves the table unchanged. */
  lemma AddElementDrops(n: CellCount, t: Table, member: uint16, id: CellIndex)
    requires t.Valid(n)
    requires GetCell(n, id) >= n * n || t.sizes[GetCell(n, id)] as int == Capacity
    ensures AddElement(n, t, member, id) == t
  {
  }

  /** No cell other than the target cell changes, neither its count nor its members. */
  lemma AddElementFrame(n: CellCount, t: Table, member: uint16, id: CellIndex, c: nat)
    requires t.Valid(n)
    requires c < n * n && c != GetCell(n, id)
    ensures var r := AddElement(n, t, member, id);
      r.sizes[c] == t.sizes[c] && r.Members(c) == t.Members(c)
  {
  }

  /** The row one past the last is never stored: the index is silently dropped. */
  lemma BottomEdgeDropped(n: CellCount, t: Table, member: uint16, id: CellIndex)
    requires t.Valid(n)
    requires ClampCellIndex(n, id).y as int == n
    ensures AddElement(n, t, member, id) == t
  {
    BottomEdgeBeyond(n, id);
  }

  /**
   * Adding ms one by one into a cell of the table keeps as many of them, in
   * order, as the cell has free slots; the rest are dropped.
   */
  lemma {:induction false} AddEachFills(n: CellCount, t: Table, ms: seq<uint16>, id: CellIndex)
    requires t.Valid(n) && GetCell(n, id) < n * n
    ensures var c, r := GetCell(n, id), AddEach(n, t, ms, id);
      var kept := Min(|ms|, Capacity - t.sizes[c] as int);
      && r.sizes[c] as int == t.sizes[c] as int + kept
      && r.Members(c) == t.Members(c) + Widen(ms[..kept])
    decreases |ms|
  {
    var c := GetCell(n, id);
    if ms != [] {
      var t' := AddElement(n, t, ms[0], id);
      var r := AddEach(n, t', ms[1..], id);
      assert r == AddEach(n, t, ms, id);
      AddEachFills(n, t', ms[1..], id);
      if t.sizes[c] as int < Capacity {
        AddElementAppends(n, t, ms[0], id);
        var kept := Min(|ms|, Capacity - t.sizes[c] as int);
        assert kept - 1 == Min(|ms[1..]|, Capacity - t'.sizes[c] as int);
        WidenFirst(ms, kept);
        assert r.Members(c) == t.Members(c) + [ms[0] as uint32] + Widen(ms[1..][..kept - 1]);
      } else {
        AddElementDrops(n, t, ms[0], id);
      }
    }
  }

  /** Widening the first k members is widening the first, then the k-1 after it. */
  lemma WidenFirst(ms: seq<uint16>, k: nat)
    requires 0 < k <= |ms|
    ensures Widen(ms[..k]) == [ms[0] as uint32] + Widen(ms[1..][..k - 1])
  {
    assert ms[..k] == [ms[0]] + ms[1..][..k - 1];
  }

  /**
   * Thirty-three distinct members added to one empty cell: the count stops at
   * 32 and the thirty-third member is not in the cell.
   */
  lemma ThirtyThirdDropped(n: CellCount, t: Table, ms: seq<uint16>, id: CellIndex)
    requires t.Valid(n) && GetCell(n, id) < n * n && t.sizes[GetCell(n, id)] == 0
    requires |ms| == 33 && ms[32] !in ms[..32]
    ensures var c, r := GetCell(n, id), AddEach(n, t, ms, id);
      r.sizes[c] as int == Capacity && ms[32] as uint32 !in r.Members(c)
  {
    var c := GetCell(n, id);
    AddEachFills(n, t, ms, id);
    var r := AddEach(n, t, ms, id);
    assert r.Members(c) == Widen(ms[..32]);
  }
}
