/**
 * The older route planner (src/routeplanner.c): Floyd-Warshall over an
 * n x n table stored row by row, and reconstruction of a route from the
 * next-hop entries.
 */
module RouteFinder {
  import opened Base
  import opened RouteCells

  /**
   * rfEdgePtr as written: `from * nodeCount + to` is computed in 32-bit
   * nodeId arithmetic, so it wraps once the table has more than 2^32 cells.
   */
  function EdgeIndexAsWritten(n: NodeId, from: NodeId, to: NodeId): (r: u32) {
    (from * n % U32_LIMIT + to) % U32_LIMIT
  }

  /** With 65537 nodes, cell (65536, 0) and cell (0, 65536) share one slot. */
  lemma EdgeIndexCollision()
    ensures EdgeIndexAsWritten(65537, 65536, 0) == EdgeIndexAsWritten(65537, 0, 65536)
  {
    assert 65536 * 65537 == U32_LIMIT + 65536;
  }

  /** The intended row-major index, in size_t arithmetic, which the rest of this model uses. */
  function EdgeIndex(n: nat, from: nat, to: nat): nat {
    from * n + to
  }

  /** Cells of distinct pairs are distinct and inside the n * n table. */
  lemma EdgeIndexDistinct(n: nat, from: nat, to: nat)
    requires from < n && to < n
    ensures EdgeIndex(n, from, to) < n * n
    ensures EdgeIndex(n, from, to) / n == from && EdgeIndex(n, from, to) % n == to
  {
    MulLe(from + 1, n, n);
    ModUnique(EdgeIndex(n, from, to), n, from, to);
  }

  /** Both indices agree while the table fits in 2^32 cells. */
  lemma EdgeIndexAgrees(n: NodeId, from: NodeId, to: NodeId)
    requires from < n && to < n && n * n <= U32_LIMIT
    ensures EdgeIndexAsWritten(n, from, to) == EdgeIndex(n, from, to)
  {
    EdgeIndexDistinct(n, from, to);
    MulLe(from, n, n);
  }

  class Finder {
    var edges: array<Edge>
    var nodeCount: NodeId
    /** The route of the last successful rfGetRoute. */
    var pathBuffer: seq<NodeId>

    ghost predicate Valid()
      reads this`nodeCount, this`edges, edges
    {
      edges.Length == nodeCount * nodeCount && forall p | 0 <= p < edges.Length :: edges[p].next < nodeCount
    }

    /** The cell for (from, to). */
    function Cell(from: NodeId, to: NodeId): (c: Edge)
      reads this`nodeCount, this`edges, edges
      requires Valid() && from < nodeCount && to < nodeCount
      ensures c.next < nodeCount
    {
      EdgeIndexDistinct(nodeCount, from, to);
      edges[EdgeIndex(nodeCount, from, to)]
    }

    /** The initial content of table slot p: no path, and the slot's column as next hop. */
    static function Blank(n: NodeId, p: nat): Edge
      requires n > 0
    {
      Edge(Infinity, p % n)
    }

    /** rfNewPlanner: every pair starts with no path and its own destination as next hop. */
    constructor (n: NodeId)
      ensures Valid() && nodeCount == n && pathBuffer == []
      ensures forall i, j | 0 <= i < n && 0 <= j < n :: Cell(i, j) == Edge(Infinity, j)
    {
      nodeCount := n;
      pathBuffer := [];
      var table := BlankTable(n);
      edges := table;
      new;
      forall i, j | 0 <= i < n && 0 <= j < n
        ensures Cell(i, j) == Edge(Infinity, j)
      {
        EdgeIndexDistinct(n, i, j);
      }
    }

    /** The nested loops of rfNewPlanner, filling the table cell (i, j) by cell (i, j). */
    static method BlankTable(n: NodeId) returns (table: array<Edge>)
      ensures fresh(table) && table.Length == n * n
      ensures forall p | 0 <= p < table.Length :: table[p] == Blank(n, p)
    {
      table := new Edge[n * n];
      ghost var filled := 0;
      var i: NodeId := 0;
      while i < n
        invariant 0 <= i <= n && filled == i * n && filled <= table.Length
        invariant forall p | 0 <= p < filled :: table[p] == Blank(n, p)
      {
        var j: NodeId := 0;
        MulLe(i + 1, n, n);
        while j < n
          invariant 0 <= j <= n && filled == i * n + j && filled + (n - j) <= table.Length
          invariant forall p | 0 <= p < filled :: table[p] == Blank(n, p)
        {
          EdgeIndexDistinct(n, i, j);
          table[EdgeIndex(n, i, j)] := Edge(Infinity, j);
          filled := filled + 1;
          j := j + 1;
        }
        i := i + 1;
      }
    }

    /** rfSetWeight: sets the weight of one cell and nothing else. */
    method SetWeight(from: NodeId, to: NodeId, weight: Weight)
      requires Valid() && from < nodeCount && to < nodeCount
      modifies edges
      ensures Valid()
      ensures Cell(from, to) == old(Cell(from, to)).(weight := weight)
      ensures forall p | 0 <= p < edges.Length && p != EdgeIndex(nodeCount, from, to) :: edges[p] == old(edges[p])
    {
      EdgeIndexDistinct(nodeCount, from, to);
      var p := EdgeIndex(nodeCount, from, to);
      edges[p] := edges[p].(weight := weight);
    }

    /** The row-major table seen as one tile: cell (i, j) at i * n + j. */
    static function Whole(n: nat): Tile {
      Tile(0, 0, 0, n)
    }

    /** One pass of the innermost loop of rfPlanRoutes: the detour i -> k -> j against the direct cell (i, j). */
    method Relax(k: NodeId, i: NodeId, j: NodeId)
      requires Valid() && i < nodeCount && j < nodeCount && k < nodeCount
      modifies edges
      ensures Valid()
      ensures edges[..] == RelaxAt(old(edges[..]), TileStep(Whole(nodeCount), k, i, j))
    {
      EdgeIndexDistinct(nodeCount, i, k);
      EdgeIndexDistinct(nodeCount, k, j);
      EdgeIndexDistinct(nodeCount, i, j);
      OffsetMul(nodeCount, i);
      OffsetMul(nodeCount, k);
      assert TileStep(Whole(nodeCount), k, i, j) ==
        Step(EdgeIndex(nodeCount, i, j), EdgeIndex(nodeCount, i, k), EdgeIndex(nodeCount, k, j));
      var edge1 := edges[EdgeIndex(nodeCount, i, k)];
      var edge2 := edges[EdgeIndex(nodeCount, k, j)];
      var direct := EdgeIndex(nodeCount, i, j);
      var detourWeight := Add(edge1.weight, edge2.weight);
      if Less(detourWeight, edges[direct].weight) {
        edges[direct] := Edge(detourWeight, edge1.next);
      }
    }

    /**
     * rfPlanRoutes: Floyd-Warshall in place, the relaxations in k-i-j
     * order over the whole table (TileEvolves: no weight ever grows, and a
     * cell changes only to a strictly lighter detour).
     */
    method PlanRoutes()
      requires Valid()
      modifies edges
      ensures Valid()
      ensures edges[..] == TileRelaxed(old(edges[..]), Whole(nodeCount), nodeCount)
    {
      ghost var start := edges[..];
      var k: NodeId := 0;
      while k < nodeCount
        invariant Valid() && k <= nodeCount && edges[..] == NestRelaxed(start, Whole(nodeCount), k, 0, 0, nodeCount)
      {
        RelaxRound(k, start);
        k := k + 1;
      }
    }

    /** The two inner loops of rfPlanRoutes: round k over every row, continuing the walk of the loop nest from s. */
    method RelaxRound(k: NodeId, ghost s: seq<Edge>)
      requires Valid() && k < nodeCount
      requires edges[..] == NestRelaxed(s, Whole(nodeCount), k, 0, 0, nodeCount)
      modifies edges
      ensures Valid()
      ensures edges[..] == NestRelaxed(s, Whole(nodeCount), k + 1, 0, 0, nodeCount)
    {
      var i: NodeId := 0;
      while i < nodeCount
        invariant Valid() && i <= nodeCount && edges[..] == NestRelaxed(s, Whole(nodeCount), k, i, 0, nodeCount)
      {
        RelaxRow(k, i, s);
        i := i + 1;
      }
    }

    /** The innermost loop of rfPlanRoutes: row i of round k. */
    method RelaxRow(k: NodeId, i: NodeId, ghost s: seq<Edge>)
      requires Valid() && k < nodeCount && i < nodeCount
      requires edges[..] == NestRelaxed(s, Whole(nodeCount), k, i, 0, nodeCount)
      modifies edges
      ensures Valid()
      ensures edges[..] == NestRelaxed(s, Whole(nodeCount), k, i, nodeCount, nodeCount)
    {
      var j: NodeId := 0;
      while j < nodeCount
        invariant Valid() && j <= nodeCount && edges[..] == NestRelaxed(s, Whole(nodeCount), k, i, j, nodeCount)
      {
        Relax(k, i, j);
        j := j + 1;
      }
    }

    /** The next hop from `from` towards `to`. */
    function Hop(from: NodeId, to: NodeId): (h: NodeId)
      reads this`nodeCount, this`edges, edges
      requires Valid() && from < nodeCount && to < nodeCount
      ensures h < nodeCount
    {
      Cell(from, to).next
    }

    /** Where `steps` hops towards `to` lead from `from`. */
    function Walk(steps: nat, from: NodeId, to: NodeId): (w: NodeId)
      reads this`nodeCount, this`edges, edges
      requires Valid() && from < nodeCount && to < nodeCount
      ensures w < nodeCount
    {
      if steps == 0 then from else Walk(steps - 1, Hop(from, to), to)
    }

    /** One more hop extends a walk at its end. */
    lemma {:induction false} WalkExtend(steps: nat, from: NodeId, to: NodeId)
      requires Valid() && from < nodeCount && to < nodeCount
      ensures Walk(steps + 1, from, to) == Hop(Walk(steps, from, to), to)
    {
      if steps > 0 {
        WalkExtend(steps - 1, Hop(from, to), to);
      }
    }

    /**
     * `route` is the walk from `start` towards `end`, hop by hop, and has not
     * met `end` before its last node.
     */
    ghost predicate WalkPrefix(route: seq<NodeId>, start: NodeId, end: NodeId)
      reads this`nodeCount, this`edges, edges
      requires Valid() && start < nodeCount && end < nodeCount
    {
      && (forall m | 0 <= m < |route| :: route[m] == Walk(m, start, end))
      && (forall m | 0 <= m < |route| - 1 :: route[m] != end)
    }

    /** A walk prefix that has not met `end` goes on with the next hop. */
    lemma WalkPrefixExtend(route: seq<NodeId>, start: NodeId, end: NodeId)
      requires Valid() && start < nodeCount && end < nodeCount
      requires WalkPrefix(route, start, end) && |route| >= 1 && route[|route| - 1] != end
      ensures WalkPrefix(route + [Hop(route[|route| - 1], end)], start, end)
    {
      WalkExtend(|route| - 1, start, end);
    }

    /** Following next hops from `from` gets to `to`, as a planned table guarantees. */
    ghost predicate Reaches(from: NodeId, to: NodeId)
      reads this`nodeCount, this`edges, edges
      requires Valid() && from < nodeCount && to < nodeCount
    {
      exists steps: nat :: Walk(steps, from, to) == to
    }

    /**
     * rfGetRoute: no route while the weight is infinite; otherwise the path
     * from `start` to `end` along the next hops, refused when it is longer
     * than MAX_NODE_ID.  The C loop does not end unless the hops lead to
     * `end`, which the caller's planned table provides.
     */
    method GetRoute(start: NodeId, end: NodeId) returns (ok: bool, path: seq<NodeId>, steps: NodeId)
      requires Valid() && start < nodeCount && end < nodeCount
      requires Cell(start, end).weight != Infinity ==> Reaches(start, end)
      modifies this`pathBuffer
      ensures Cell(start, end).weight == Infinity ==> !ok && pathBuffer == old(pathBuffer)
      ensures Cell(start, end).weight != Infinity ==>
        && |pathBuffer| >= 1 && pathBuffer[|pathBuffer| - 1] == end
        && WalkPrefix(pathBuffer, start, end)
        && (ok <==> |pathBuffer| <= MAX_NODE_ID)
      ensures ok ==> path == pathBuffer && steps == |path|
      ensures !ok ==> path == [] && steps == 0
    {
      path, steps := [], 0;
      if Cell(start, end).weight == Infinity {
        return false, path, steps;
      }
      ghost var remaining :| Walk(remaining, start, end) == end;
      var route := [start];
      var next: NodeId := start;
      while next != end
        invariant next < nodeCount && Walk(remaining, next, end) == end
        invariant |route| >= 1 && route[|route| - 1] == next
        invariant WalkPrefix(route, start, end)
        decreases remaining
      {
        WalkPrefixExtend(route, start, end);
        next := Hop(next, end);
        route := route + [next];
        remaining := remaining - 1;
      }
      pathBuffer := route;
      if |pathBuffer| > MAX_NODE_ID {
        return false, path, steps;
      }
      return true, pathBuffer, |pathBuffer|;
    }
  }
}
