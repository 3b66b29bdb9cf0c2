/**
  The node table every rasteriser variant keeps: `nodes[32][32]` holds up to
  32 x-crossings for each of the 32 sub-sample rows of a tile, and
  `node_counts[32]` says how many of each row are in use. The ghost field
  `rows` is the abstract content: row `y` is `nodes[y][0 .. node_counts[y]]`.
*/
module NodeRows {
  import opened ScanMath

  /** Sub-sample rows per tile (`node_buffer_size`, `tile_size`). */
  const RowCount := 32
  /** Node slots per row. */
  const Capacity := 32

  class NodeTable {
    const nodes: array2<int>
    const counts: array<int>
    ghost var rows: seq<seq<int>>

    ghost predicate Valid()
      reads this, nodes, counts
    {
      nodes.Length0 == RowCount && nodes.Length1 == Capacity && counts.Length == RowCount
      && |rows| == RowCount
      && (forall y :: 0 <= y < RowCount ==> counts[y] == |rows[y]| <= Capacity)
      && (forall y, i :: 0 <= y < RowCount && 0 <= i < |rows[y]| ==> nodes[y, i] == rows[y][i])
    }

    /** The zero-initialised static arrays. */
    constructor ()
      ensures Valid() && fresh(nodes) && fresh(counts)
      ensures forall y :: 0 <= y < RowCount ==> rows[y] == []
    {
      nodes := new int[RowCount, Capacity];
      counts := new int[RowCount](_ => 0);
      rows := seq(RowCount, _ => []);
    }

    /** `memset(node_counts, 0, sizeof(node_counts))`: every row becomes empty. */
    method Clear()
      requires Valid()
      modifies this, counts
      ensures Valid()
      ensures forall y :: 0 <= y < RowCount ==> rows[y] == []
    {
      forall y | 0 <= y < RowCount {
        counts[y] := 0;
      }
      rows := seq(RowCount, _ => []);
    }

    /** `nodes[y][node_counts[y]++] = v`: appends `v` to row `y` and changes no other row. */
    method Append(y: int, v: int)
      requires Valid() && 0 <= y < RowCount && |rows[y]| < Capacity
      modifies this, nodes, counts
      ensures Valid()
      ensures rows == old(rows)[y := old(rows[y]) + [v]]
    {
      nodes[y, counts[y]] := v;
      counts[y] := counts[y] + 1;
      rows := rows[y := rows[y] + [v]];
    }

    /** The in-place ascending sort of row `y` (`qsort` / `std::sort`), by its
        contract: the row becomes sorted and is a permutation of what it held. */
    method SortRow(y: int)
      requires Valid() && 0 <= y < RowCount
      modifies this, nodes
      ensures Valid()
      ensures rows == old(rows)[y := SortSeq(old(rows[y]))]
    {
      var n := counts[y];
      var row := seq(n, i requires 0 <= i < n reads nodes => nodes[y, i]);
      assert row == rows[y];
      var sorted := SortSeq(row);
      var i := 0;
      while i < n
        modifies nodes
        invariant 0 <= i <= n
        invariant forall k :: 0 <= k < i ==> nodes[y, k] == sorted[k]
        invariant forall z, k :: 0 <= z < RowCount && z != y && 0 <= k < Capacity ==> nodes[z, k] == old(nodes[z, k])
      {
        nodes[y, i] := sorted[i];
        i := i + 1;
      }
      rows := rows[y := sorted];
    }
  }
}
