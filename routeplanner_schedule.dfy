/**
 * The phase schedule of rpPlanRoutes (src/netmirage-core/routeplanner.c),
 * the blocked Floyd-Warshall of Venkataraman et al.: round `round` first
 * processes the self-dependent block (round, round), then the other blocks
 * of its block row and block column, then every remaining block, as nine
 * rectangular chunks of blocks.
 */
module RouteSchedule {
  import opened Base
  import opened RouteCells
  import opened RouteChunks

  /** A rectangle of blocks: block rows r0 to r0 + rows - 1 and block columns c0 to c0 + cols - 1. */
  datatype Region = Region(r0: nat, rows: nat, c0: nat, cols: nat)

  predicate InRegion(g: Region, br: nat, bc: nat) {
    g.r0 <= br < g.r0 + g.rows && g.c0 <= bc < g.c0 + g.cols
  }

  /**
   * Chunk i of the nine chunks of round `round` in a table of blocks x
   * blocks blocks, numbered in the order rpPlanRoutes hands them to
   * processRange: the self-dependent block (0); above (1), left (2), right
   * (3) and below (4) it; above left (5), above right (6), below left (7)
   * and below right (8) of it.
   */
  function PhaseRegion(blocks: nat, round: nat, i: nat): Region
    requires round < blocks && i < 9
  {
    var rest := blocks - round - 1;
    if i == 0 then Region(round, 1, round, 1)
    else if i == 1 then Region(0, round, round, 1)
    else if i == 2 then Region(round, 1, 0, round)
    else if i == 3 then Region(round, 1, round + 1, rest)
    else if i == 4 then Region(round + 1, rest, round, 1)
    else if i == 5 then Region(0, round, 0, round)
    else if i == 6 then Region(0, round, round + 1, rest)
    else if i == 7 then Region(round + 1, rest, 0, round)
    else Region(round + 1, rest, round + 1, rest)
  }

  /**
   * Which of the nine chunks block (br, bc) belongs to, by where it lies
   * against the self-dependent block: 0 for the block itself, 1 to 4 for
   * the rest of its block column and block row, 5 to 8 for the others.
   */
  function RegionIndex(round: nat, br: nat, bc: nat): (i: nat)
    ensures i < 9
  {
    if br == round && bc == round then 0
    else if bc == round then (if br < round then 1 else 4)
    else if br == round then (if bc < round then 2 else 3)
    else if br < round then (if bc < round then 5 else 6)
    else (if bc < round then 7 else 8)
  }

  /**
   * Every round processes every block of the table exactly once: block
   * (br, bc) is in the chunk RegionIndex names and in no other, and every
   * chunk lies inside the table.
   */
  lemma RoundPartition(blocks: nat, round: nat, br: nat, bc: nat)
    requires round < blocks
    ensures br < blocks && bc < blocks ==>
      forall i | 0 <= i < 9 :: InRegion(PhaseRegion(blocks, round, i), br, bc) <==> i == RegionIndex(round, br, bc)
    ensures forall i | 0 <= i < 9 :: InRegion(PhaseRegion(blocks, round, i), br, bc) ==> br < blocks && bc < blocks
  {
  }

  /** Every chunk of a round lies inside the table. */
  lemma PhaseRegionInside(blocks: nat, round: nat, i: nat)
    requires round < blocks && i < 9
    ensures PhaseRegion(blocks, round, i).r0 + PhaseRegion(blocks, round, i).rows <= blocks
    ensures PhaseRegion(blocks, round, i).c0 + PhaseRegion(blocks, round, i).cols <= blocks
  {
  }

  /** The first cell of block (br, bc) of a table of n x n cells stored block by block. */
  function BlockStart(n: nat, br: nat, bc: nat): nat {
    Offset(n * BLOCK_SIZE, br) + Offset(BLOCK_AREA, bc)
  }

  /**
   * The processRange arguments for a region in round `round`: the (i, j)
   * blocks are the region's, the (i, k) blocks those of block column
   * `round` and the (k, j) blocks those of block row `round`.
   */
  function PhaseChunk(n: nat, round: nat, g: Region): Chunk {
    Chunk(n * BLOCK_SIZE, g.rows, g.cols, BlockStart(n, g.r0, g.c0), BlockStart(n, g.r0, round), BlockStart(n, round, g.c0))
  }

  lemma {:induction false} OffsetAdd(stride: nat, a: nat, b: nat)
    ensures Offset(stride, a) + Offset(stride, b) == Offset(stride, a + b)
    decreases b
  {
    if b > 0 {
      OffsetAdd(stride, a, b - 1);
    }
  }

  /**
   * Cell p of the chunk of region g is block (g.r0 + p.row, g.c0 + p.col),
   * relaxed through the blocks of block column and block row `round`.
   */
  lemma PhaseBlock(n: nat, round: nat, g: Region, p: Pos)
    ensures BlockAt(PhaseChunk(n, round, g), p)
         == Tile(BlockStart(n, g.r0 + p.row, g.c0 + p.col), BlockStart(n, g.r0 + p.row, round), BlockStart(n, round, g.c0 + p.col), BLOCK_SIZE)
  {
    OffsetAdd(n * BLOCK_SIZE, g.r0, p.row);
    OffsetAdd(BLOCK_AREA, g.c0, p.col);
  }

  /** Every block of an n x n table, n a multiple of 16, lies inside the table. */
  lemma BlockStartInside(n: nat, br: nat, bc: nat)
    requires n % BLOCK_SIZE == 0 && br < n / BLOCK_SIZE && bc < n / BLOCK_SIZE
    ensures BlockStart(n, br, bc) + BLOCK_AREA <= n * n
  {
    var b := n / BLOCK_SIZE;
    OffsetMul(n * BLOCK_SIZE, br);
    OffsetMul(BLOCK_AREA, bc);
    ScaledRows(n, b, br);
    BlockNumberBound(b, br, bc);
  }

  /** With n = 16 b, br rows of 16 n cells hold br b blocks of 256 cells, and the table b b blocks. */
  lemma ScaledRows(n: nat, b: nat, br: nat)
    requires n == 16 * b
    ensures br * (n * 16) == (br * b) * 256 && n * n == (b * b) * 256
  {
    assert n * 16 == 256 * b;
    assert br * (256 * b) == (br * b) * 256;
    assert n * n == (16 * b) * (16 * b) == (b * b) * 256;
  }

  /** Block number br b + bc of a b x b grid of blocks is below b b. */
  lemma BlockNumberBound(b: nat, br: nat, bc: nat)
    requires br < b && bc < b
    ensures br * b + bc + 1 <= b * b
  {
    MulLe(br + 1, b, b);
    assert (br + 1) * b == br * b + b;
  }

  /** The chunk of a region inside the table has all its blocks inside the table. */
  lemma PhaseInside(n: nat, round: nat, g: Region)
    requires n % BLOCK_SIZE == 0 && round < n / BLOCK_SIZE
    requires g.r0 + g.rows <= n / BLOCK_SIZE && g.c0 + g.cols <= n / BLOCK_SIZE
    ensures ChunkInside(PhaseChunk(n, round, g), n * n)
  {
    forall p: Pos | p.row < g.rows && p.col < g.cols
      ensures CellInside(PhaseChunk(n, round, g), p, n * n)
    {
      PhaseBlock(n, round, g, p);
      BlockStartInside(n, g.r0 + p.row, g.c0 + p.col);
      BlockStartInside(n, g.r0 + p.row, round);
      BlockStartInside(n, round, g.c0 + p.col);
    }
  }

  /**
   * The table after the first i chunks of round `round`, one after
   * another. The round is part of the termination measure only so that
   * the verifier does not unroll the chunks when i is a literal.
   */
  function PhasesRelaxed(s: seq<Edge>, n: nat, round: nat, i: nat): (r: seq<Edge>)
    requires round < n / BLOCK_SIZE && i <= 9
    ensures |r| == |s|
    decreases i, round
  {
    if i == 0 then s else ChunkRelaxed(PhasesRelaxed(s, n, round, i - 1), PhaseChunk(n, round, PhaseRegion(n / BLOCK_SIZE, round, i - 1)))
  }

  /** One round of the blocked Floyd-Warshall on an n x n table. */
  function RoundRelaxed(s: seq<Edge>, n: nat, round: nat): (r: seq<Edge>)
    requires round < n / BLOCK_SIZE
    ensures |r| == |s|
  {
    PhasesRelaxed(s, n, round, 9)
  }

  /** The first `rounds` rounds. */
  function RoundsRelaxed(s: seq<Edge>, n: nat, rounds: nat): (r: seq<Edge>)
    requires rounds <= n / BLOCK_SIZE
    ensures |r| == |s|
  {
    if rounds == 0 then s else RoundRelaxed(RoundsRelaxed(s, n, rounds - 1), n, rounds - 1)
  }

  /** rpPlanRoutes: one round per block row of the table. */
  function PlanRelaxed(s: seq<Edge>, n: nat): (r: seq<Edge>)
    ensures |r| == |s|
  {
    RoundsRelaxed(s, n, n / BLOCK_SIZE)
  }

  lemma {:induction false} PhasesImprove(s: seq<Edge>, n: nat, round: nat, i: nat, bound: nat)
    requires round < n / BLOCK_SIZE && i <= 9
    ensures Lighter(PhasesRelaxed(s, n, round, i), s)
    ensures NextsBelow(s, bound) ==> NextsBelow(PhasesRelaxed(s, n, round, i), bound)
  {
    if i > 0 {
      var before := PhasesRelaxed(s, n, round, i - 1);
      var c := PhaseChunk(n, round, PhaseRegion(n / BLOCK_SIZE, round, i - 1));
      PhasesImprove(s, n, round, i - 1, bound);
      BlocksImprove(before, c, Pos(0, 0), Area(c), bound);
      LighterTrans(PhasesRelaxed(s, n, round, i), before, s);
    } else {
      assert Lighter(s, s);
    }
  }

  lemma {:induction false} RoundsImprove(s: seq<Edge>, n: nat, rounds: nat, bound: nat)
    requires rounds <= n / BLOCK_SIZE
    ensures Lighter(RoundsRelaxed(s, n, rounds), s)
    ensures NextsBelow(s, bound) ==> NextsBelow(RoundsRelaxed(s, n, rounds), bound)
  {
    if rounds > 0 {
      var before := RoundsRelaxed(s, n, rounds - 1);
      RoundsImprove(s, n, rounds - 1, bound);
      PhasesImprove(before, n, rounds - 1, 9, bound);
      LighterTrans(RoundsRelaxed(s, n, rounds), before, s);
    } else {
      assert Lighter(s, s);
    }
  }

  /**
   * Planning never raises a weight, changes a cell only to a strictly
   * lighter detour, and keeps every next hop one that was in the table.
   */
  lemma PlanImproves(s: seq<Edge>, n: nat, bound: nat)
    ensures Lighter(PlanRelaxed(s, n), s)
    ensures NextsBelow(s, bound) ==> NextsBelow(PlanRelaxed(s, n), bound)
  {
    RoundsImprove(s, n, n / BLOCK_SIZE, bound);
  }

  /** Call i of the nine processRange calls of round `round`. */
  method ProcessPhase(edges: array<Edge>, n: nat, round: nat, ghost i: nat, c: Chunk, threaded: bool, ghost s: seq<Edge>)
    requires n % BLOCK_SIZE == 0 && round < n / BLOCK_SIZE && i < 9 && edges.Length == n * n
    requires c == PhaseChunk(n, round, PhaseRegion(n / BLOCK_SIZE, round, i)) && edges[..] == PhasesRelaxed(s, n, round, i)
    modifies edges
    ensures edges[..] == PhasesRelaxed(s, n, round, i + 1)
  {
    PhaseRegionInside(n / BLOCK_SIZE, round, i);
    PhaseInside(n, round, PhaseRegion(n / BLOCK_SIZE, round, i));
    ProcessRange(edges, c, threaded);
  }

  /**
   * The offsets rpPlanRoutes keeps during round `round` (see ProcessRound)
   * give exactly the chunks of the round's nine regions.
   */
  lemma RoundChunks(n: nat, round: nat, blockRowStart: nat, nextBlockRow: nat, blockColStart: nat, nextBlockCol: nat,
                    sdbStart: nat, rightBlock: nat, downBlock: nat, remainingRounds: nat)
    requires round < n / BLOCK_SIZE
    requires blockRowStart == Offset(n * BLOCK_SIZE, round) && nextBlockRow == blockRowStart + n * BLOCK_SIZE
    requires blockColStart == Offset(BLOCK_AREA, round) && nextBlockCol == blockColStart + BLOCK_AREA
    requires sdbStart == blockRowStart + blockColStart && rightBlock == sdbStart + BLOCK_AREA && downBlock == sdbStart + n * BLOCK_SIZE
    requires remainingRounds == n / BLOCK_SIZE - round - 1
    ensures var b, rs := n / BLOCK_SIZE, n * BLOCK_SIZE;
      && Chunk(rs, 1, 1, sdbStart, sdbStart, sdbStart) == PhaseChunk(n, round, PhaseRegion(b, round, 0))
      && Chunk(rs, round, 1, blockColStart, blockColStart, sdbStart) == PhaseChunk(n, round, PhaseRegion(b, round, 1))
      && Chunk(rs, 1, round, blockRowStart, sdbStart, blockRowStart) == PhaseChunk(n, round, PhaseRegion(b, round, 2))
      && Chunk(rs, 1, remainingRounds, rightBlock, sdbStart, rightBlock) == PhaseChunk(n, round, PhaseRegion(b, round, 3))
      && Chunk(rs, remainingRounds, 1, downBlock, downBlock, sdbStart) == PhaseChunk(n, round, PhaseRegion(b, round, 4))
      && Chunk(rs, round, round, 0, blockColStart, blockRowStart) == PhaseChunk(n, round, PhaseRegion(b, round, 5))
      && Chunk(rs, round, remainingRounds, nextBlockCol, blockColStart, rightBlock) == PhaseChunk(n, round, PhaseRegion(b, round, 6))
      && Chunk(rs, remainingRounds, round, nextBlockRow, downBlock, blockRowStart) == PhaseChunk(n, round, PhaseRegion(b, round, 7))
      && Chunk(rs, remainingRounds, remainingRounds, nextBlockRow + nextBlockCol, downBlock, rightBlock) == PhaseChunk(n, round, PhaseRegion(b, round, 8))
  {
    assert Offset(n * BLOCK_SIZE, 0) == 0 && Offset(BLOCK_AREA, 0) == 0;
    assert Offset(n * BLOCK_SIZE, round + 1) == nextBlockRow && Offset(BLOCK_AREA, round + 1) == nextBlockCol;
  }

  /**
   * The body of the round loop of rpPlanRoutes: the nine processRange calls
   * of round `round`, with the block offsets the loop keeps: block rows
   * round and round + 1 start at blockRowStart and nextBlockRow, block
   * columns round and round + 1 at blockColStart and nextBlockCol, and the
   * self-dependent block and its right and lower neighbours at sdbStart,
   * rightBlock and downBlock.
   */
  method ProcessRound(edges: array<Edge>, n: nat, round: nat, threaded: bool,
                      blockRowStart: nat, nextBlockRow: nat, blockColStart: nat, nextBlockCol: nat,
                      sdbStart: nat, rightBlock: nat, downBlock: nat, remainingRounds: nat)
    requires n % BLOCK_SIZE == 0 && round < n / BLOCK_SIZE && edges.Length == n * n
    requires blockRowStart == Offset(n * BLOCK_SIZE, round) && nextBlockRow == blockRowStart + n * BLOCK_SIZE
    requires blockColStart == Offset(BLOCK_AREA, round) && nextBlockCol == blockColStart + BLOCK_AREA
    requires sdbStart == blockRowStart + blockColStart && rightBlock == sdbStart + BLOCK_AREA && downBlock == sdbStart + n * BLOCK_SIZE
    requires remainingRounds == n / BLOCK_SIZE - round - 1
    modifies edges
    ensures edges[..] == RoundRelaxed(old(edges[..]), n, round)
  {
    var blockRowSize := n * BLOCK_SIZE;
    RoundChunks(n, round, blockRowStart, nextBlockRow, blockColStart, nextBlockCol, sdbStart, rightBlock, downBlock, remainingRounds);
    ghost var s := edges[..];
    // Phase 1: the self-dependent block
    ProcessPhase(edges, n, round, 0, Chunk(blockRowSize, 1, 1, sdbStart, sdbStart, sdbStart), threaded, s);
    // Phase 2: above, left, right, below
    ProcessPhase(edges, n, round, 1, Chunk(blockRowSize, round, 1, blockColStart, blockColStart, sdbStart), threaded, s);
    ProcessPhase(edges, n, round, 2, Chunk(blockRowSize, 1, round, blockRowStart, sdbStart, blockRowStart), threaded, s);
    ProcessPhase(edges, n, round, 3, Chunk(blockRowSize, 1, remainingRounds, rightBlock, sdbStart, rightBlock), threaded, s);
    ProcessPhase(edges, n, round, 4, Chunk(blockRowSize, remainingRounds, 1, downBlock, downBlock, sdbStart), threaded, s);
    // Phase 3: above left, above right, below left, below right
    ProcessPhase(edges, n, round, 5, Chunk(blockRowSize, round, round, 0, blockColStart, blockRowStart), threaded, s);
    ProcessPhase(edges, n, round, 6, Chunk(blockRowSize, round, remainingRounds, nextBlockCol, blockColStart, rightBlock), threaded, s);
    ProcessPhase(edges, n, round, 7, Chunk(blockRowSize, remainingRounds, round, nextBlockRow, downBlock, blockRowStart), threaded, s);
    ProcessPhase(edges, n, round, 8, Chunk(blockRowSize, remainingRounds, remainingRounds, nextBlockRow + nextBlockCol, downBlock, rightBlock), threaded, s);
  }

  /**
   * The round loop of rpPlanRoutes on an n x n table: one round per block
   * row, with the block offsets advanced from round to round.
   */
  method PlanRounds(edges: array<Edge>, n: nat, threaded: bool)
    requires n % BLOCK_SIZE == 0 && edges.Length == n * n
    modifies edges
    ensures edges[..] == PlanRelaxed(old(edges[..]), n)
  {
    var blocks := n / BLOCK_SIZE;
    var blockRowSize := n * BLOCK_SIZE;
    var blockDiagonalSize := blockRowSize + BLOCK_AREA;
    var blockRowStart, nextBlockRow := 0, 0;
    var blockColStart, nextBlockCol := 0, 0;
    var sdbStart, rightBlock, downBlock := 0, BLOCK_AREA, blockRowSize;
    var remainingRounds: int := blocks - 1;
    var round := 0;
    while round < blocks
      invariant round <= blocks && remainingRounds == blocks - round - 1
      invariant nextBlockRow == Offset(blockRowSize, round) && nextBlockCol == Offset(BLOCK_AREA, round)
      invariant sdbStart == nextBlockRow + nextBlockCol && rightBlock == sdbStart + BLOCK_AREA && downBlock == sdbStart + blockRowSize
      invariant edges[..] == RoundsRelaxed(old(edges[..]), n, round)
    {
      blockRowStart := nextBlockRow;
      nextBlockRow := nextBlockRow + blockRowSize;
      blockColStart := nextBlockCol;
      nextBlockCol := nextBlockCol + BLOCK_AREA;
      ProcessRound(edges, n, round, threaded, blockRowStart, nextBlockRow, blockColStart, nextBlockCol,
                   sdbStart, rightBlock, downBlock, remainingRounds);
      sdbStart := sdbStart + blockDiagonalSize;
      rightBlock := rightBlock + blockDiagonalSize;
      downBlock := downBlock + blockDiagonalSize;
      remainingRounds := remainingRounds - 1;
      round := round + 1;
    }
  }
}
