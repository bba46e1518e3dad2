/**
 * The grid object: a fixed n-by-n lattice of cells whose member slots and
 * occupancy counts are updated in place. Its methods are proved to leave the
 * table BucketTable.Reset and BucketTable.AddElement describe.
 */
module UniformGrid {
  import opened BoundedInts
  import opened CellIndexing
  import BucketTable

  class Grid {
    /** Cells per axis (the template argument NumCells). */
    const numCells: CellCount
    /** The member slots of all cells: slot k of cell c is members[c * Capacity + k]. */
    const members: array<uint32>
    /** How many slots of each cell are in use. */
    const sizes: array<uint8>

    /** The grid's contents as a table value. */
    ghost function State(): BucketTable.Table
      reads members, sizes
    {
      BucketTable.Table(members[..], sizes[..])
    }

    /** The arrays have the size of an n-by-n grid; the counts may hold anything. */
    ghost predicate Shaped()
      reads members, sizes
    {
      State().Shaped(numCells)
    }

    ghost predicate Valid()
      reads members, sizes
    {
      State().Valid(numCells)
    }

    /**
     * A grid with every cell empty. The source declares no constructor, so its
     * counts mean something only after reset(); this one starts reset.
     */
    constructor (n: CellCount)
      ensures numCells == n && fresh(members) && fresh(sizes)
      ensures Valid()
      ensures forall c :: 0 <= c < n * n ==> State().Members(c) == []
    {
      numCells := n;
      members := new uint32[n * n * BucketTable.Capacity];
      sizes := new uint8[n * n](_ => 0);
    }

    /** The resolution: the grid has GetNumCells() squared cells. */
    function GetNumCells(): (r: int)
      requires Shaped()
      reads members, sizes
      ensures 1 <= r <= 255
      ensures r * r == sizes.Length
    {
      numCells
    }

    /** Zeroes every occupancy count in place, whatever it held before. */
    method Reset()
      requires Shaped()
      modifies sizes
      ensures Valid()
      ensures State() == BucketTable.Reset(old(State()))
    {
      for i := 0 to sizes.Length
        invariant forall j :: 0 <= j < i ==> sizes[j] == 0
      {
        sizes[i] := 0;
      }
      assert sizes[..] == BucketTable.Reset(old(State())).sizes;
    }

    /**
     * Stores member in the cell of id when that cell is inside the table and
     * not full; otherwise does nothing.
     */
    method AddElement(member: uint16, id: CellIndex)
      requires Valid()
      modifies members, sizes
      ensures Valid()
      ensures State() == BucketTable.AddElement(numCells, old(State()), member, id)
    {
      var cellId := CellId(numCells, id);
      if (cellId as int) < numCells * numCells {
        var size := sizes[cellId];
        if size as int != BucketTable.Capacity {
          members[cellId as int * BucketTable.Capacity + size as int] := member as uint32;
          sizes[cellId] := size + 1;
        }
      }
    }
  }
}
