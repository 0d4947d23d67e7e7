/**
 * The cells of a route planner's all-pairs table (edgeInfo in both
 * src/routeplanner.c and src/netmirage-core/routeplanner.c): a path weight
 * and the next hop on the best known path.
 *
 * Weights are whole numbers with an infinite element standing for "no
 * path" (INFINITY in the C code).
 */
module RouteCells {
  import opened Base

  /** A node identifier (nodeId). */
  type NodeId = u32

  /** MAX_NODE_ID: the largest node identifier. */
  const MAX_NODE_ID: nat := U32_LIMIT - 2

  datatype Weight = Finite(w: int) | Infinity

  /** Float addition on the weights: infinity absorbs. */
  function Add(a: Weight, b: Weight): Weight {
    if a.Infinity? || b.Infinity? then Infinity else Finite(a.w + b.w)
  }

  /** Float `<` on the weights: no weight is below infinity's peers, every finite one is below infinity. */
  predicate Less(a: Weight, b: Weight) {
    match (a, b)
    case (Finite(x), Finite(y)) => x < y
    case (Finite(_), Infinity) => true
    case (Infinity, _) => false
  }

  datatype Edge = Edge(weight: Weight, next: NodeId)

  /** A cell that kept its value or got a strictly smaller weight. */
  predicate Improved(now: Edge, before: Edge) {
    now == before || Less(now.weight, before.weight)
  }

  /** Improvement accumulates over steps. */
  lemma ImprovedTrans(a: Edge, b: Edge, c: Edge)
    requires Improved(a, b) && Improved(b, c)
    ensures Improved(a, c)
  {
  }

  /** Relaxation: the detour through k replaces the cell only when it is strictly lighter. */
  function Relaxed(direct: Edge, toK: Edge, fromK: Edge): (e: Edge)
    ensures Improved(e, direct)
    ensures e != direct ==> e.weight == Add(toK.weight, fromK.weight) && e.next == toK.next
  {
    var detour := Add(toK.weight, fromK.weight);
    if Less(detour, direct.weight) then Edge(detour, toK.next) else direct
  }

  /**
   * One relaxation: the cell at `ij` against the detour through the cells
   * at `ik` and `kj`, all three positions in a table.
   */
  datatype Step = Step(ij: nat, ik: nat, kj: nat)

  /** The table after one relaxation; a step outside the table changes nothing. */
  function RelaxAt(s: seq<Edge>, st: Step): (r: seq<Edge>)
    ensures |r| == |s|
  {
    if st.ij < |s| && st.ik < |s| && st.kj < |s| then s[st.ij := Relaxed(s[st.ij], s[st.ik], s[st.kj])] else s
  }

  /**
   * A square tile of a table for the k-i-j loop nest of Floyd-Warshall:
   * cell (i, j) of the tile is at ij + i * stride + j, and likewise for the
   * tiles holding the (i, k) and (k, j) cells.
   */
  datatype Tile = Tile(ij: nat, ik: nat, kj: nat, stride: nat)

  /** i rows of `stride` cells: i * stride, written as repeated addition. */
  function Offset(stride: nat, i: nat): nat {
    if i == 0 then 0 else Offset(stride, i - 1) + stride
  }

  lemma {:induction false} OffsetMul(stride: nat, i: nat)
    ensures Offset(stride, i) == i * stride
  {
    if i > 0 {
      OffsetMul(stride, i - 1);
    }
  }

  lemma {:induction false} OffsetMono(stride: nat, i: nat, size: nat)
    requires i <= size
    ensures Offset(stride, i) <= Offset(stride, size)
    decreases size - i
  {
    if i < size {
      OffsetMono(stride, i + 1, size);
    }
  }

  /** The relaxation of cell (i, j) through k. */
  function TileStep(t: Tile, k: nat, i: nat, j: nat): Step {
    Step(t.ij + Offset(t.stride, i) + j, t.ik + Offset(t.stride, i) + k, t.kj + Offset(t.stride, k) + j)
  }

  /**
   * The k-i-j loop nest of Floyd-Warshall over a size x size tile, walked
   * from table s: the table after every round before k, every row before i
   * of round k and the first j cells of row i. The tile is part of the
   * termination measure only so that the verifier does not unroll the
   * walk when the bounds are literals.
   */
  function NestRelaxed(s: seq<Edge>, t: Tile, k: nat, i: nat, j: nat, size: nat): (r: seq<Edge>)
    ensures |r| == |s|
    decreases k, i, j, t
  {
    if j > 0 then RelaxAt(NestRelaxed(s, t, k, i, j - 1, size), TileStep(t, k, i, j - 1))
    else if i > 0 then NestRelaxed(s, t, k, i - 1, size, size)
    else if k > 0 then NestRelaxed(s, t, k - 1, size, 0, size)
    else s
  }

  /** Floyd-Warshall on a size x size tile: rounds k, rows i, columns j, in that nesting. */
  function TileRelaxed(s: seq<Edge>, t: Tile, size: nat): (r: seq<Edge>)
    ensures |r| == |s|
  {
    NestRelaxed(s, t, size, 0, 0, size)
  }

  /**
   * `r` comes from `s` by relaxations that target cells in [lo, hi) only:
   * every cell kept its value or got strictly lighter, and the cells outside
   * [lo, hi) kept their value.
   */
  ghost predicate Evolved(r: seq<Edge>, s: seq<Edge>, lo: nat, hi: nat) {
    && |r| == |s|
    && forall p | 0 <= p < |s| :: Improved(r[p], s[p]) && (p < lo || hi <= p ==> r[p] == s[p])
  }

  /** Every cell of `r` is the cell of `s` or a strictly lighter one. */
  ghost predicate Lighter(r: seq<Edge>, s: seq<Edge>) {
    |r| == |s| && forall p | 0 <= p < |s| :: Improved(r[p], s[p])
  }

  /** Every next hop of the table is below `bound`. */
  ghost predicate NextsBelow(s: seq<Edge>, bound: nat) {
    forall p | 0 <= p < |s| :: s[p].next < bound
  }

  lemma EvolvedTrans(a: seq<Edge>, b: seq<Edge>, c: seq<Edge>, lo: nat, hi: nat)
    requires Evolved(a, b, lo, hi) && Evolved(b, c, lo, hi)
    ensures Evolved(a, c, lo, hi)
  {
    forall p | 0 <= p < |c|
      ensures Improved(a[p], c[p])
    {
      ImprovedTrans(a[p], b[p], c[p]);
    }
  }

  lemma LighterTrans(a: seq<Edge>, b: seq<Edge>, c: seq<Edge>)
    requires Lighter(a, b) && Lighter(b, c)
    ensures Lighter(a, c)
  {
    forall p | 0 <= p < |c|
      ensures Improved(a[p], c[p])
    {
      ImprovedTrans(a[p], b[p], c[p]);
    }
  }

  lemma EvolvedLighter(r: seq<Edge>, s: seq<Edge>, lo: nat, hi: nat)
    requires Evolved(r, s, lo, hi)
    ensures Lighter(r, s)
  {
  }

  /** Relaxations confined to [lo, hi) are confined to any range around it. */
  lemma EvolvedWiden(r: seq<Edge>, s: seq<Edge>, lo: nat, hi: nat, lo2: nat, hi2: nat)
    requires Evolved(r, s, lo, hi) && lo2 <= lo && hi <= hi2
    ensures Evolved(r, s, lo2, hi2)
  {
  }

  /**
   * One relaxation targeting a cell in [lo, hi) changes only that cell, never
   * raises its weight, and copies its next hop from the table.
   */
  lemma RelaxAtEvolves(s: seq<Edge>, st: Step, lo: nat, hi: nat, bound: nat)
    requires lo <= st.ij < hi
    ensures Evolved(RelaxAt(s, st), s, lo, hi)
    ensures NextsBelow(s, bound) ==> NextsBelow(RelaxAt(s, st), bound)
  {
  }

  /** Every prefix of the loop nest relaxes only cells of the tile's (i, j) rows and keeps next hops in the table. */
  lemma {:induction false} NestEvolves(s: seq<Edge>, t: Tile, k: nat, i: nat, j: nat, size: nat, bound: nat)
    requires i <= size && j <= size && (j > 0 ==> i < size) && size <= t.stride
    ensures Evolved(NestRelaxed(s, t, k, i, j, size), s, t.ij, t.ij + Offset(t.stride, size))
    ensures NextsBelow(s, bound) ==> NextsBelow(NestRelaxed(s, t, k, i, j, size), bound)
    decreases k, i, j
  {
    var hi := t.ij + Offset(t.stride, size);
    if j > 0 {
      var prev := NestRelaxed(s, t, k, i, j - 1, size);
      var st := TileStep(t, k, i, j - 1);
      assert NestRelaxed(s, t, k, i, j, size) == RelaxAt(prev, st);
      NestEvolves(s, t, k, i, j - 1, size, bound);
      OffsetMono(t.stride, i + 1, size);
      StepEvolves(s, prev, st, t.ij, hi, bound);
    } else if i > 0 {
      assert NestRelaxed(s, t, k, i, j, size) == NestRelaxed(s, t, k, i - 1, size, size);
      NestEvolves(s, t, k, i - 1, size, size, bound);
    } else if k > 0 {
      assert NestRelaxed(s, t, k, i, j, size) == NestRelaxed(s, t, k - 1, size, 0, size);
      NestEvolves(s, t, k - 1, size, 0, size, bound);
    } else {
      assert Evolved(s, s, t.ij, hi);
    }
  }

  /** One more relaxation inside the region keeps a table evolved from `s`. */
  lemma StepEvolves(s: seq<Edge>, prev: seq<Edge>, st: Step, lo: nat, hi: nat, bound: nat)
    requires Evolved(prev, s, lo, hi) && lo <= st.ij < hi
    requires NextsBelow(s, bound) ==> NextsBelow(prev, bound)
    ensures Evolved(RelaxAt(prev, st), s, lo, hi)
    ensures NextsBelow(s, bound) ==> NextsBelow(RelaxAt(prev, st), bound)
  {
    RelaxAtEvolves(prev, st, lo, hi, bound);
    EvolvedTrans(RelaxAt(prev, st), prev, s, lo, hi);
  }

  /**
   * Floyd-Warshall over a tile changes only the cells of the tile's own
   * (i, j) rows, never raises a weight, changes a cell only to a strictly
   * lighter detour, and keeps every next hop one that was in the table.
   */
  lemma TileEvolves(s: seq<Edge>, t: Tile, size: nat, bound: nat)
    requires size <= t.stride
    ensures Evolved(TileRelaxed(s, t, size), s, t.ij, t.ij + Offset(t.stride, size))
    ensures NextsBelow(s, bound) ==> NextsBelow(TileRelaxed(s, t, size), bound)
  {
    NestEvolves(s, t, size, 0, 0, size, bound);
  }

  /**
   * The body of the innermost loop of both planners: the detour through
   * the cells at `ik` and `kj` replaces the cell at `ij` when it is
   * strictly lighter.
   */
  method RelaxCell(edges: array<Edge>, st: Step)
    requires st.ij < edges.Length && st.ik < edges.Length && st.kj < edges.Length
    modifies edges
    ensures edges[..] == RelaxAt(old(edges[..]), st)
  {
    var detourWeight := Add(edges[st.ik].weight, edges[st.kj].weight);
    if Less(detourWeight, edges[st.ij].weight) {
      edges[st.ij] := Edge(detourWeight, edges[st.ik].next);
    }
  }
}
