/**
 * The blocked route planner (src/netmirage-core/routeplanner.c):
 * Floyd-Warshall over 16 x 16 blocks of cells, stored block by block, with
 * chunks of blocks split into work units of eight blocks.
 */
module RoutePlanner {
  import opened Base
  import opened RouteCells
  import opened RouteChunks
  import opened RouteSchedule

  /** ThreadedThresholdNodes: from this node count on, chunks go to the thread pool. */
  const THREADED_THRESHOLD_NODES: nat := 1024

  /**
   * rpNewPlanner's rounding as written: `nodeCount + BlockSize - 1` is a
   * 32-bit sum, so a node count within 15 of 2^32 wraps to a small one.
   */
  function RoundedNodeCountAsWritten(n: u32): u32 {
    ((n + 15) % U32_LIMIT / 16) * 16
  }

  /** With 2^32 - 1 nodes the planner is built for zero nodes instead of being refused. */
  lemma RoundingWraps()
    ensures RoundedNodeCountAsWritten(0xFFFF_FFFF) == 0
  {
  }

  /** The node count rounded up to whole blocks, without the wrap. */
  function RoundedNodeCount(n: nat): nat {
    (n + 15) / 16 * 16
  }

  /** The rounded count is a multiple of 16, at least n and less than n + 16. */
  lemma RoundedNodeCountBounds(n: nat)
    ensures RoundedNodeCount(n) % 16 == 0
    ensures n <= RoundedNodeCount(n) < n + 16
  {
  }

  /** A table with 2^16 or more nodes a side has 2^32 or more cells. */
  lemma WideTableOverflows(n: nat)
    requires n >= 0x1_0000
    ensures n * n >= U32_LIMIT
  {
    MulLe(0x1_0000, n, n);
    MulLe(0x1_0000, n, 0x1_0000);
  }

  /** The two agree whenever the sum does not wrap, in particular for every table that fits in 2^32 cells. */
  lemma RoundingAgrees(n: u32)
    requires n + 15 < U32_LIMIT
    ensures RoundedNodeCountAsWritten(n) == RoundedNodeCount(n)
  {
  }

  /**
   * rpEdgePtr: the block row, then the block within it, then the row and the
   * column within the block.  For the node counts a planner accepts none of
   * the 32-bit terms wraps.
   */
  function EdgeIndex(n: nat, from: nat, to: nat): nat {
    (from / 16) * (n * 16) + (to / 16) * 256 + (from % 16) * 16 + to % 16
  }

  /** The row (source node) of a cell position: the inverse of EdgeIndex. */
  function RowOf(n: nat, p: nat): nat
    requires n > 0 && n % 16 == 0
  {
    (p / 256 / (n / 16)) * 16 + p % 256 / 16
  }

  /** The column (destination node) of a cell position: the inverse of EdgeIndex. */
  function ColOf(n: nat, p: nat): nat
    requires n > 0 && n % 16 == 0
  {
    (p / 256 % (n / 16)) * 16 + p % 16
  }

  /** The position of a cell as block number, then offset within the block. */
  lemma EdgeIndexForm(n: nat, from: nat, to: nat)
    requires n % 16 == 0
    ensures EdgeIndex(n, from, to) == ((from / 16) * (n / 16) + to / 16) * 256 + ((from % 16) * 16 + to % 16)
  {
    var fb := from / 16;
    var b := n / 16;
    assert n * 16 == b * 256;
    assert fb * (n * 16) == fb * (b * 256) == (fb * b) * 256;
  }

  /** A block number q = fb * blocks + tb splits back into fb and tb. */
  lemma BlockNumber(blocks: nat, fb: nat, tb: nat)
    requires fb < blocks && tb < blocks
    ensures fb * blocks + tb < blocks * blocks
    ensures (fb * blocks + tb) / blocks == fb && (fb * blocks + tb) % blocks == tb
  {
    MulLe(fb + 1, blocks, blocks);
    ModUnique(fb * blocks + tb, blocks, fb, tb);
  }

  /** A position q * 256 + r * 16 + c splits back into q, r and c. */
  lemma InBlock(q: nat, r: nat, c: nat)
    requires r < 16 && c < 16
    ensures (q * 256 + (r * 16 + c)) / 256 == q && (q * 256 + (r * 16 + c)) % 256 == r * 16 + c
    ensures (r * 16 + c) / 16 == r && (q * 256 + (r * 16 + c)) % 16 == c
  {
    ModUnique(q * 256 + (r * 16 + c), 256, q, r * 16 + c);
    ModUnique(r * 16 + c, 16, r, c);
    ModUnique(q * 256 + (r * 16 + c), 16, q * 16 + r, c);
  }

  /** Distinct pairs have distinct positions inside the table, and RowOf and ColOf recover the pair. */
  lemma EdgeIndexInverse(n: nat, from: nat, to: nat)
    requires n % 16 == 0 && from < n && to < n
    ensures EdgeIndex(n, from, to) < n * n
    ensures RowOf(n, EdgeIndex(n, from, to)) == from && ColOf(n, EdgeIndex(n, from, to)) == to
  {
    var blocks := n / 16;
    var q := (from / 16) * blocks + to / 16;
    EdgeIndexForm(n, from, to);
    BlockNumber(blocks, from / 16, to / 16);
    InBlock(q, from % 16, to % 16);
    TableSize(n, q);
  }

  /** Block numbers below blocks^2 are exactly the positions below n^2. */
  lemma TableSize(n: nat, q: nat)
    requires n % 16 == 0
    ensures q < (n / 16) * (n / 16) <==> q * 256 + 256 <= n * n
  {
    var b := n / 16;
    assert n * n == (b * b) * 256;
  }

  /** Every position names a destination node of the table. */
  lemma ColOfBound(n: nat, p: nat)
    requires n > 0 && n % 16 == 0
    ensures ColOf(n, p) < n
  {
  }

  /** Cell (16 br + row, 16 bc + col) sits where the block-order fill loops of rpNewPlanner reach it. */
  lemma CellPosition(n: nat, br: nat, bc: nat, row: nat, col: nat)
    requires row < 16 && col < 16
    ensures EdgeIndex(n, 16 * br + row, 16 * bc + col) == Offset(n * 16, br) + Offset(256, bc) + Offset(16, row) + col
  {
    ModUnique(16 * br + row, 16, br, row);
    ModUnique(16 * bc + col, 16, bc, col);
    OffsetMul(n * 16, br);
    OffsetMul(256, bc);
    OffsetMul(16, row);
  }

  /** The initial content of table position p: no path, and the position's column as next hop. */
  function Blank(n: NodeId, p: nat): Edge
    requires n > 0 && n % 16 == 0
  {
    ColOfBound(n, p);
    Edge(Infinity, ColOf(n, p))
  }

  /** The cell the fill loops reach at (br, bc, row, col) is in the table and stands in column 16 bc + col. */
  lemma BlankPosition(n: NodeId, br: nat, bc: nat, row: nat, col: nat)
    requires n % 16 == 0 && row < 16 && col < 16 && 16 * br + row < n && 16 * bc + col < n
    ensures Offset(n * 16, br) + Offset(256, bc) + Offset(16, row) + col < n * n
    ensures Blank(n, Offset(n * 16, br) + Offset(256, bc) + Offset(16, row) + col) == Edge(Infinity, 16 * bc + col)
  {
    CellPosition(n, br, bc, row, col);
    EdgeIndexInverse(n, 16 * br + row, 16 * bc + col);
  }

  /**
   * The innermost loop of rpNewPlanner's initialisation: the 16 cells of
   * row `row` of block (blockRow, blockCol), which follow `edge` in the
   * table, get no path and their column as next hop.
   */
  method BlankRow(table: array<Edge>, n: NodeId, blockRow: nat, blockCol: nat, colOffset: NodeId, row: nat, edge: nat)
    requires n % 16 == 0 && table.Length == n * n && row < 16 && 16 * blockRow + row < n && 16 * blockCol < n
    requires colOffset == 16 * blockCol && edge == Offset(n * 16, blockRow) + Offset(256, blockCol) + Offset(16, row)
    requires edge <= table.Length && forall q | 0 <= q < edge :: table[q] == Blank(n, q)
    modifies table
    ensures edge + 16 <= table.Length
    ensures forall q | 0 <= q < edge + 16 :: table[q] == Blank(n, q)
  {
    var col: NodeId := 0;
    while col < 16
      invariant col <= 16 && edge + col <= table.Length
      invariant forall q | 0 <= q < edge + col :: table[q] == Blank(n, q)
    {
      BlankPosition(n, blockRow, blockCol, row, col);
      table[edge + col] := Edge(Infinity, colOffset + col);
      col := col + 1;
    }
  }

  /** The 16 rows of block (blockRow, blockCol), which follow `edge` in the table. */
  method BlankBlock(table: array<Edge>, n: NodeId, blockRow: nat, blockCol: nat, colOffset: NodeId, edge: nat)
    requires n % 16 == 0 && table.Length == n * n && 16 * blockRow < n && 16 * blockCol < n
    requires colOffset == 16 * blockCol && edge == Offset(n * 16, blockRow) + Offset(256, blockCol)
    requires edge <= table.Length && forall q | 0 <= q < edge :: table[q] == Blank(n, q)
    modifies table
    ensures edge + 256 <= table.Length
    ensures forall q | 0 <= q < edge + 256 :: table[q] == Blank(n, q)
  {
    var row: NodeId := 0;
    while row < 16
      invariant row <= 16 && edge + Offset(16, row) <= table.Length
      invariant forall q | 0 <= q < edge + Offset(16, row) :: table[q] == Blank(n, q)
    {
      BlankRow(table, n, blockRow, blockCol, colOffset, row, edge + Offset(16, row));
      row := row + 1;
    }
    OffsetMul(16, 16);
  }

  /**
   * The nested loops of rpNewPlanner: they walk the table in array order,
   * block row by block row and block by block, and give each cell no path
   * and the column it stands in as next hop.
   */
  method BlankTable(blocks: NodeId, n: NodeId) returns (table: array<Edge>)
    requires n == blocks * 16
    ensures fresh(table) && table.Length == n * n
    ensures n > 0 ==> forall p | 0 <= p < table.Length :: table[p] == Blank(n, p)
  {
    table := new Edge[n * n];
    var edge: nat := 0;
    var blockRow: NodeId := 0;
    while blockRow < blocks
      invariant blockRow <= blocks && edge == Offset(n * 16, blockRow) && edge <= table.Length
      invariant edge == 0 || n > 0
      invariant forall q | 0 <= q < edge :: table[q] == Blank(n, q)
    {
      var colOffset: NodeId := 0;
      var blockCol: NodeId := 0;
      while blockCol < blocks
        invariant blockCol <= blocks && colOffset == 16 * blockCol && n > 0
        invariant edge == Offset(n * 16, blockRow) + Offset(256, blockCol) && edge <= table.Length
        invariant forall q | 0 <= q < edge :: table[q] == Blank(n, q)
      {
        BlankBlock(table, n, blockRow, blockCol, colOffset, edge);
        edge := edge + 256;
        colOffset := colOffset + 16;
        blockCol := blockCol + 1;
      }
      OffsetMul(256, blocks);
      blockRow := blockRow + 1;
    }
    OffsetMul(n * 16, blocks);
  }

  class Planner {
    var edges: array<Edge>
    /** The node count, rounded up to whole blocks. */
    var nodeCount: NodeId
    /** The route of the last successful rpGetRoute. */
    var pathBuffer: seq<NodeId>

    ghost predicate Valid()
      reads this`nodeCount, this`edges, edges
    {
      && nodeCount % 16 == 0
      && nodeCount * nodeCount < U32_LIMIT
      && edges.Length == nodeCount * nodeCount
      && forall p | 0 <= p < edges.Length :: edges[p].next < nodeCount
    }

    /** The cell for (from, to). */
    function Cell(from: NodeId, to: NodeId): (c: Edge)
      reads this`nodeCount, this`edges, edges
      requires Valid() && from < nodeCount && to < nodeCount
      ensures c.next < nodeCount
    {
      EdgeIndexInverse(nodeCount, from, to);
      edges[EdgeIndex(nodeCount, from, to)]
    }

    /**
     * rpNewPlanner: the node count is rounded up to whole blocks and every
     * pair starts with no path and its own destination as next hop.  The
     * cell count must fit in 32 bits: emul32 aborts otherwise.
     */
    constructor (count: NodeId)
      requires RoundedNodeCount(count) * RoundedNodeCount(count) < U32_LIMIT
      ensures Valid() && nodeCount == RoundedNodeCount(count) && pathBuffer == []
      ensures forall i, j | 0 <= i < nodeCount && 0 <= j < nodeCount :: Cell(i, j) == Edge(Infinity, j)
    {
      if count >= 0x1_0000 {
        RoundedNodeCountBounds(count);
        WideTableOverflows(RoundedNodeCount(count));
        assert false;
      }
      var blocks: NodeId := (count + 15) / 16;
      var n: NodeId := blocks * 16;
      var table := BlankTable(blocks, n);
      nodeCount := n;
      edges := table;
      pathBuffer := [];
      new;
      forall p | 0 <= p < edges.Length
        ensures edges[p].next < nodeCount
      {
        ColOfBound(n, p);
      }
      forall i, j | 0 <= i < n && 0 <= j < n
        ensures Cell(i, j) == Edge(Infinity, j)
      {
        EdgeIndexInverse(n, i, j);
      }
    }

    /** rpSetWeight: sets the weight of one cell and nothing else. */
    method SetWeight(from: NodeId, to: NodeId, weight: Weight)
      requires Valid() && from < nodeCount && to < nodeCount
      modifies edges
      ensures Valid()
      ensures Cell(from, to) == old(Cell(from, to)).(weight := weight)
      ensures forall p | 0 <= p < edges.Length && p != EdgeIndex(nodeCount, from, to) :: edges[p] == old(edges[p])
    {
      EdgeIndexInverse(nodeCount, from, to);
      var p := EdgeIndex(nodeCount, from, to);
      edges[p] := edges[p].(weight := weight);
    }

    /**
     * rpPlanRoutes: the blocked Floyd-Warshall, one round per block row,
     * each round's chunks going to the thread pool from
     * ThreadedThresholdNodes nodes on and to the calling thread below that.
     * `poolError` is the outcome of creating the thread pool (its error
     * code when creation fails); a failure returns that code with the table
     * untouched.
     */
    method PlanRoutes(poolError: Option<int>) returns (code: int)
      requires Valid()
      modifies edges
      ensures Valid()
      ensures nodeCount >= THREADED_THRESHOLD_NODES && poolError.Some? ==> code == poolError.value && edges[..] == old(edges[..])
      ensures nodeCount < THREADED_THRESHOLD_NODES || poolError.None? ==> code == 0 && edges[..] == PlanRelaxed(old(edges[..]), nodeCount)
    {
      var singleThreaded := nodeCount < THREADED_THRESHOLD_NODES as NodeId;
      if !singleThreaded && poolError.Some? {
        return poolError.value;
      }
      PlanRounds(edges, nodeCount, !singleThreaded);
      PlanImproves(old(edges[..]), nodeCount, nodeCount);
      return 0;
    }

    /** The next hop from `from` towards `to`. */
    function Hop(from: NodeId, to: NodeId): (h: NodeId)
      reads this`nodeCount, this`edges, edges
      requires Valid() && from < nodeCount && to < nodeCount
      ensures h < nodeCount
    {
      Cell(from, to).next
    }

    /** Where `steps` hops towards `to` lead from `from`. */
    function Walk(steps: nat, from: NodeId, to: NodeId): (w: NodeId)
      reads this`nodeCount, this`edges, edges
      requires Valid() && from < nodeCount && to < nodeCount
      ensures w < nodeCount
    {
      if steps == 0 then from else Walk(steps - 1, Hop(from, to), to)
    }

    /** One more hop extends a walk at its end. */
    lemma {:induction false} WalkExtend(steps: nat, from: NodeId, to: NodeId)
      requires Valid() && from < nodeCount && to < nodeCount
      ensures Walk(steps + 1, from, to) == Hop(Walk(steps, from, to), to)
    {
      if steps > 0 {
        WalkExtend(steps - 1, Hop(from, to), to);
      }
    }

    /**
     * `route` is the walk from `start` towards `end`, hop by hop, and has not
     * met `end` before its last node.
     */
    ghost predicate WalkPrefix(route: seq<NodeId>, start: NodeId, end: NodeId)
      reads this`nodeCount, this`edges, edges
      requires Valid() && start < nodeCount && end < nodeCount
    {
      && (forall m | 0 <= m < |route| :: route[m] == Walk(m, start, end))
      && (forall m | 0 <= m < |route| - 1 :: route[m] != end)
    }

    /** A walk prefix that has not met `end` goes on with the next hop. */
    lemma WalkPrefixExtend(route: seq<NodeId>, start: NodeId, end: NodeId)
      requires Valid() && start < nodeCount && end < nodeCount
      requires WalkPrefix(route, start, end) && |route| >= 1 && route[|route| - 1] != end
      ensures WalkPrefix(route + [Hop(route[|route| - 1], end)], start, end)
    {
      WalkExtend(|route| - 1, start, end);
    }

    /** Following next hops from `from` gets to `to`, as a planned table guarantees. */
    ghost predicate Reaches(from: NodeId, to: NodeId)
      reads this`nodeCount, this`edges, edges
      requires Valid() && from < nodeCount && to < nodeCount
    {
      exists steps: nat :: Walk(steps, from, to) == to
    }

    /**
     * rpGetRoute: no route while the weight is infinite; otherwise the path
     * from `start` to `end` along the next hops, refused when it is longer
     * than MAX_NODE_ID.  The C loop does not end unless the hops lead to
     * `end`, which the caller's planned table provides.
     */
    method GetRoute(start: NodeId, end: NodeId) returns (ok: bool, path: seq<NodeId>, steps: NodeId)
      requires Valid() && start < nodeCount && end < nodeCount
      requires Cell(start, end).weight != Infinity ==> Reaches(start, end)
      modifies this`pathBuffer
      ensures Cell(start, end).weight == Infinity ==> !ok && pathBuffer == old(pathBuffer)
      ensures Cell(start, end).weight != Infinity ==>
        && |pathBuffer| >= 1 && pathBuffer[|pathBuffer| - 1] == end
        && WalkPrefix(pathBuffer, start, end)
        && (ok <==> |pathBuffer| <= MAX_NODE_ID)
      ensures ok ==> path == pathBuffer && steps == |path|
      ensures !ok ==> path == [] && steps == 0
    {
      path, steps := [], 0;
      if Cell(start, end).weight == Infinity {
        return false, path, steps;
      }
      ghost var remaining :| Walk(remaining, start, end) == end;
      var route := [start];
      var next: NodeId := start;
      while next != end
        invariant next < nodeCount && Walk(remaining, next, end) == end
        invariant |route| >= 1 && route[|route| - 1] == next
        invariant WalkPrefix(route, start, end)
        decreases remaining
      {
        WalkPrefixExtend(route, start, end);
        next := Hop(next, end);
        route := route + [next];
        remaining := remaining - 1;
      }
      pathBuffer := route;
      if |pathBuffer| > MAX_NODE_ID {
        return false, path, steps;
      }
      return true, pathBuffer, |pathBuffer|;
    }
  }
}
