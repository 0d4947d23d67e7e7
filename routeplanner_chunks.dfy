/**
 * The blocked Floyd-Warshall kernel of src/netmirage-core/routeplanner.c:
 * the table is cut into 16 x 16 blocks, rpProcessBlock runs the k-i-j loop
 * nest on one block, and a chunk is a rectangle of blocks that one call of
 * the planning loop hands to rpProcessChunkLocal (one thread) or to
 * rpProcessChunkThreaded (a thread pool, in work units of 8 blocks).
 *
 * Positions are cell indices into the table; the C code keeps them in
 * nodeId variables, which do not wrap because the whole table fits in 32
 * bits.
 */
module RouteChunks {
  import opened Base
  import opened RouteCells

  /** BlockSize: the side of a block. */
  const BLOCK_SIZE: nat := 16
  /** BlockArea: the cells of one block. */
  const BLOCK_AREA: nat := 256
  /** ThreadWorkSize: the blocks of one work unit of the thread pool. */
  const THREAD_WORK_SIZE: nat := 8

  /** A 16 x 16 block whose three corner positions leave room for the whole block in a table of `len` cells. */
  predicate BlockInside(t: Tile, len: nat) {
    t.stride == BLOCK_SIZE && t.ij + BLOCK_AREA <= len && t.ik + BLOCK_AREA <= len && t.kj + BLOCK_AREA <= len
  }

  /** The innermost loop of rpProcessBlock: row i of round k, column by column, continuing the walk of the loop nest from s. */
  method BlockRow(edges: array<Edge>, t: Tile, k: nat, i: nat, ghost s: seq<Edge>)
    requires BlockInside(t, edges.Length) && k < BLOCK_SIZE && i < BLOCK_SIZE
    requires edges[..] == NestRelaxed(s, t, k, i, 0, BLOCK_SIZE)
    modifies edges
    ensures edges[..] == NestRelaxed(s, t, k, i, BLOCK_SIZE, BLOCK_SIZE)
  {
    OffsetMul(BLOCK_SIZE, i);
    OffsetMul(BLOCK_SIZE, k);
    var j := 0;
    while j < BLOCK_SIZE
      invariant j <= BLOCK_SIZE && edges[..] == NestRelaxed(s, t, k, i, j, BLOCK_SIZE)
    {
      RelaxCell(edges, TileStep(t, k, i, j));
      j := j + 1;
    }
  }

  /** The middle loop of rpProcessBlock: round k, row by row. */
  method BlockRound(edges: array<Edge>, t: Tile, k: nat, ghost s: seq<Edge>)
    requires BlockInside(t, edges.Length) && k < BLOCK_SIZE
    requires edges[..] == NestRelaxed(s, t, k, 0, 0, BLOCK_SIZE)
    modifies edges
    ensures edges[..] == NestRelaxed(s, t, k + 1, 0, 0, BLOCK_SIZE)
  {
    var i := 0;
    while i < BLOCK_SIZE
      invariant i <= BLOCK_SIZE && edges[..] == NestRelaxed(s, t, k, i, 0, BLOCK_SIZE)
    {
      BlockRow(edges, t, k, i, s);
      i := i + 1;
    }
  }

  /**
   * rpProcessBlock: Floyd-Warshall over one block, relaxing the cell (i, j)
   * of the block at ijStart through the cells (i, k) of the block at
   * ikStart and (k, j) of the block at kjStart, for k, i and j in that
   * nesting.
   */
  method ProcessBlock(edges: array<Edge>, ijStart: nat, ikStart: nat, kjStart: nat)
    requires BlockInside(Tile(ijStart, ikStart, kjStart, BLOCK_SIZE), edges.Length)
    modifies edges
    ensures edges[..] == TileRelaxed(old(edges[..]), Tile(ijStart, ikStart, kjStart, BLOCK_SIZE), BLOCK_SIZE)
  {
    var t := Tile(ijStart, ikStart, kjStart, BLOCK_SIZE);
    var k := 0;
    while k < BLOCK_SIZE
      invariant k <= BLOCK_SIZE && edges[..] == NestRelaxed(old(edges[..]), t, k, 0, 0, BLOCK_SIZE)
    {
      BlockRound(edges, t, k, old(edges[..]));
      k := k + 1;
    }
  }

  /**
   * The arguments of a chunk function (rpWorkRange without its
   * synchronisation): `rows` x `cols` blocks; the (i, j) block of chunk cell
   * (row, col) is at ij + row * blockRowSize + col * BLOCK_AREA, the (i, k)
   * block of its row at ik + row * blockRowSize, and the (k, j) block of its
   * column at kj + col * BLOCK_AREA.
   */
  datatype Chunk = Chunk(blockRowSize: nat, rows: nat, cols: nat, ij: nat, ik: nat, kj: nat)

  /** A cell of a chunk, by block row and block column within the chunk. */
  datatype Pos = Pos(row: nat, col: nat)

  /** The number of blocks of a chunk (spaceSize). */
  function Area(c: Chunk): nat {
    c.rows * c.cols
  }

  /** The three blocks of chunk cell p. */
  function BlockAt(c: Chunk, p: Pos): Tile {
    Tile(c.ij + Offset(c.blockRowSize, p.row) + Offset(BLOCK_AREA, p.col), c.ik + Offset(c.blockRowSize, p.row),
         c.kj + Offset(BLOCK_AREA, p.col), BLOCK_SIZE)
  }

  /** The blocks of chunk cell p lie inside a table of `len` cells. */
  predicate CellInside(c: Chunk, p: Pos, len: nat) {
    BlockInside(BlockAt(c, p), len)
  }

  /** Every block of the chunk lies inside a table of `len` cells. */
  ghost predicate ChunkInside(c: Chunk, len: nat) {
    forall p: Pos | p.row < c.rows && p.col < c.cols :: CellInside(c, p, len)
  }

  /** The cell after p when the chunk is walked row by row. */
  function Next(c: Chunk, p: Pos): Pos {
    if p.col + 1 < c.cols then Pos(p.row, p.col + 1) else Pos(p.row + 1, 0)
  }

  /** The cell n steps of the row-by-row walk after p. */
  function Nth(c: Chunk, p: Pos, n: nat): Pos
    decreases n
  {
    if n == 0 then p else Nth(c, Next(c, p), n - 1)
  }

  /** The table after processing the `n` blocks of the walk from p, one after another: the block at p first. */
  function BlocksRelaxed(s: seq<Edge>, c: Chunk, p: Pos, n: nat): (r: seq<Edge>)
    ensures |r| == |s|
    decreases n
  {
    if n == 0 then s else BlocksRelaxed(TileRelaxed(s, BlockAt(c, p), BLOCK_SIZE), c, Next(c, p), n - 1)
  }

  /** The table after processing every block of a chunk, row by row. */
  function ChunkRelaxed(s: seq<Edge>, c: Chunk): (r: seq<Edge>)
    ensures |r| == |s|
  {
    BlocksRelaxed(s, c, Pos(0, 0), Area(c))
  }

  /**
   * Processing blocks of a chunk never raises a weight, changes a cell only
   * to a strictly lighter detour, and keeps every next hop one that was in
   * the table.
   */
  lemma {:induction false} BlocksImprove(s: seq<Edge>, c: Chunk, p: Pos, n: nat, bound: nat)
    ensures Lighter(BlocksRelaxed(s, c, p, n), s)
    ensures NextsBelow(s, bound) ==> NextsBelow(BlocksRelaxed(s, c, p, n), bound)
    decreases n
  {
    if n > 0 {
      var t := TileRelaxed(s, BlockAt(c, p), BLOCK_SIZE);
      TileEvolves(s, BlockAt(c, p), BLOCK_SIZE, bound);
      EvolvedLighter(t, s, BlockAt(c, p).ij, BlockAt(c, p).ij + Offset(BLOCK_SIZE, BLOCK_SIZE));
      BlocksImprove(t, c, Next(c, p), n - 1, bound);
      LighterTrans(BlocksRelaxed(s, c, p, n), t, s);
    } else {
      assert Lighter(s, s);
    }
  }

  /** Walking a then b steps is walking a + b steps. */
  lemma {:induction false} NthAdd(c: Chunk, p: Pos, a: nat, b: nat)
    ensures Nth(c, Nth(c, p, a), b) == Nth(c, p, a + b)
    decreases a
  {
    if a > 0 {
      NthAdd(c, Next(c, p), a - 1, b);
    }
  }

  /** Processing a + b blocks of the walk is processing a blocks and then the b that follow. */
  lemma {:induction false} BlocksSplit(s: seq<Edge>, c: Chunk, p: Pos, a: nat, b: nat)
    ensures BlocksRelaxed(s, c, p, a + b) == BlocksRelaxed(BlocksRelaxed(s, c, p, a), c, Nth(c, p, a), b)
    decreases a
  {
    if a > 0 {
      BlocksSplit(TileRelaxed(s, BlockAt(c, p), BLOCK_SIZE), c, Next(c, p), a - 1, b);
    }
  }

  /** The first block of a walk, then the rest of it from the next cell. */
  lemma BlocksFirst(s: seq<Edge>, c: Chunk, p: Pos, n: nat)
    requires n > 0
    ensures BlocksRelaxed(s, c, p, n) == BlocksRelaxed(TileRelaxed(s, BlockAt(c, p), BLOCK_SIZE), c, Next(c, p), n - 1)
  {
  }

  /** After the block at column `col` of a chunk row, the walk of that row resumes at the next column. */
  lemma ColumnResumes(s: seq<Edge>, r: seq<Edge>, start: seq<Edge>, c: Chunk, row: nat, col: nat)
    requires col < c.cols && r == TileRelaxed(s, BlockAt(c, Pos(row, col)), BLOCK_SIZE)
    requires BlocksRelaxed(s, c, Pos(row, col), c.cols - col) == start
    ensures BlocksRelaxed(r, c, Pos(row, col + 1), c.cols - (col + 1)) == start
  {
    if col + 1 == c.cols {
      assert BlocksRelaxed(r, c, Pos(row, col + 1), 0) == r;
    }
  }

  /** A part of the walk from the chunk's first cell, once processed, leaves the walk from where it ended. */
  lemma BlocksResume(s: seq<Edge>, r: seq<Edge>, c: Chunk, a: nat, l: nat, rest: nat)
    requires r == BlocksRelaxed(s, c, Nth(c, Pos(0, 0), a), l)
    ensures BlocksRelaxed(r, c, Nth(c, Pos(0, 0), a + l), rest) == BlocksRelaxed(s, c, Nth(c, Pos(0, 0), a), l + rest)
  {
    BlocksSplit(s, c, Nth(c, Pos(0, 0), a), l, rest);
    NthAdd(c, Pos(0, 0), a, l);
  }

  /** Within a row the walk moves one column per step, and leaves the row for the start of the next. */
  lemma {:induction false} NthAlongRow(c: Chunk, row: nat, col: nat, j: nat)
    requires col + j <= c.cols
    ensures col + j < c.cols ==> Nth(c, Pos(row, col), j) == Pos(row, col + j)
    ensures 0 < j && col + j == c.cols ==> Nth(c, Pos(row, col), j) == Pos(row + 1, 0)
    decreases j
  {
    if j > 0 {
      NthAlongRow(c, row, col + 1, j - 1);
    }
  }

  /** Whole rows of the walk from the chunk's first cell end at the start of a row. */
  lemma {:induction false} NthRows(c: Chunk, rows: nat)
    requires c.cols > 0
    ensures Nth(c, Pos(0, 0), Offset(c.cols, rows)) == Pos(rows, 0)
  {
    if rows > 0 {
      NthRows(c, rows - 1);
      NthAdd(c, Pos(0, 0), Offset(c.cols, rows - 1), c.cols);
      NthAlongRow(c, rows - 1, 0, c.cols);
    }
  }

  /** After q whole rows and r more steps the walk from the chunk's first cell is at (q, r). */
  lemma {:induction false} NthPos(c: Chunk, q: nat, r: nat)
    requires r < c.cols
    ensures Nth(c, Pos(0, 0), Offset(c.cols, q) + r) == Pos(q, r)
  {
    NthRows(c, q);
    NthAdd(c, Pos(0, 0), Offset(c.cols, q), r);
    NthAlongRow(c, q, 0, r);
  }

  /** The blocks from the start of chunk row `row` on are that row's blocks and then those from the start of the next row. */
  lemma {:induction false} RowOfBlocks(s: seq<Edge>, c: Chunk, row: nat, rest: nat)
    requires c.cols > 0 || rest == 0
    ensures BlocksRelaxed(s, c, Pos(row, 0), c.cols + rest)
         == BlocksRelaxed(BlocksRelaxed(s, c, Pos(row, 0), c.cols), c, Pos(row + 1, 0), rest)
  {
    BlocksSplit(s, c, Pos(row, 0), c.cols, rest);
    if c.cols > 0 {
      NthAlongRow(c, row, 0, c.cols);
    }
  }

  /** After chunk row `row`, the walk resumes at the start of the next row with the blocks of the rows after it. */
  lemma {:induction false} RowResumes(s: seq<Edge>, r: seq<Edge>, start: seq<Edge>, c: Chunk, row: nat)
    requires row < c.rows && Offset(c.cols, row) <= Area(c)
    requires r == BlocksRelaxed(s, c, Pos(row, 0), c.cols)
    requires BlocksRelaxed(s, c, Pos(row, 0), Area(c) - Offset(c.cols, row)) == BlocksRelaxed(start, c, Pos(0, 0), Area(c))
    ensures Offset(c.cols, row + 1) <= Area(c)
    ensures BlocksRelaxed(r, c, Pos(row + 1, 0), Area(c) - Offset(c.cols, row + 1)) == BlocksRelaxed(start, c, Pos(0, 0), Area(c))
  {
    OffsetMono(c.cols, row + 1, c.rows);
    OffsetMul(c.cols, c.rows);
    RowOfBlocks(s, c, row, Area(c) - Offset(c.cols, row + 1));
  }

  /**
   * The inner loop of rpProcessChunkLocal: the blocks of chunk row `row`,
   * column by column.
   */
  method ChunkRow(edges: array<Edge>, c: Chunk, row: nat, ijBlock: nat, ikBlock: nat)
    requires ChunkInside(c, edges.Length) && row < c.rows
    requires ijBlock == c.ij + Offset(c.blockRowSize, row) && ikBlock == c.ik + Offset(c.blockRowSize, row)
    modifies edges
    ensures edges[..] == BlocksRelaxed(old(edges[..]), c, Pos(row, 0), c.cols)
  {
    var ij, kj := ijBlock, c.kj;
    var col := 0;
    while col < c.cols
      invariant col <= c.cols && ij == ijBlock + Offset(BLOCK_AREA, col) && kj == c.kj + Offset(BLOCK_AREA, col)
      invariant BlocksRelaxed(edges[..], c, Pos(row, col), c.cols - col) == BlocksRelaxed(old(edges[..]), c, Pos(row, 0), c.cols)
    {
      assert CellInside(c, Pos(row, col), edges.Length);
      assert Tile(ij, ikBlock, kj, BLOCK_SIZE) == BlockAt(c, Pos(row, col));
      ghost var before := edges[..];
      ProcessBlock(edges, ij, ikBlock, kj);
      ColumnResumes(before, edges[..], BlocksRelaxed(old(edges[..]), c, Pos(row, 0), c.cols), c, row, col);
      ij := ij + BLOCK_AREA;
      kj := kj + BLOCK_AREA;
      col := col + 1;
    }
  }

  /** rpProcessChunkLocal: every block of the chunk, row by row, in the current thread. */
  method ProcessChunkLocal(edges: array<Edge>, c: Chunk)
    requires ChunkInside(c, edges.Length)
    modifies edges
    ensures edges[..] == ChunkRelaxed(old(edges[..]), c)
  {
    var ijBlock, ikBlock := c.ij, c.ik;
    var row := 0;
    while row < c.rows
      invariant row <= c.rows && ijBlock == c.ij + Offset(c.blockRowSize, row) && ikBlock == c.ik + Offset(c.blockRowSize, row)
      invariant Offset(c.cols, row) <= Area(c)
      invariant BlocksRelaxed(edges[..], c, Pos(row, 0), Area(c) - Offset(c.cols, row)) == BlocksRelaxed(old(edges[..]), c, Pos(0, 0), Area(c))
    {
      ghost var before := edges[..];
      ChunkRow(edges, c, row, ijBlock, ikBlock);
      RowResumes(before, edges[..], old(edges[..]), c, row);
      ijBlock := ijBlock + c.blockRowSize;
      ikBlock := ikBlock + c.blockRowSize;
      row := row + 1;
    }
    OffsetMul(c.cols, c.rows);
  }

  /** The blocks one work unit starting at startIndex processes: ThreadWorkSize, or what is left of the chunk. */
  function UnitLength(c: Chunk, startIndex: nat): nat
    requires startIndex <= Area(c)
  {
    if Area(c) - startIndex < THREAD_WORK_SIZE then Area(c) - startIndex else THREAD_WORK_SIZE
  }

  /** The pointers of a chunk function aimed at chunk cell (row, col): its row of blocks and its block. */
  predicate Aimed(c: Chunk, row: nat, col: nat, ijBlock: nat, ikBlock: nat, ij: nat, kj: nat) {
    && ijBlock == c.ij + Offset(c.blockRowSize, row) && ikBlock == c.ik + Offset(c.blockRowSize, row)
    && ij == ijBlock + Offset(BLOCK_AREA, col) && kj == c.kj + Offset(BLOCK_AREA, col)
  }

  /** n is q whole rows of d and r more, with q = n / d and r = n % d. */
  lemma DivSplit(n: nat, d: nat)
    requires d > 0
    ensures Offset(d, n / d) + n % d == n && n % d < d
  {
    OffsetMul(d, n / d);
  }

  /**
   * A work unit whose walk has done `done` blocks and reached (row, col)
   * still has that block to do; its length is ThreadWorkSize when it gets
   * that far, and done + 1 when (row, col) is the chunk's last cell.
   */
  lemma {:induction false} UnitCount(c: Chunk, startIndex: nat, row: nat, col: nat, done: nat)
    requires row < c.rows && col < c.cols && Offset(c.cols, row) + col == startIndex + done && done <= THREAD_WORK_SIZE
    ensures startIndex + done < Area(c)
    ensures done == THREAD_WORK_SIZE ==> UnitLength(c, startIndex) == THREAD_WORK_SIZE
    ensures row + 1 == c.rows && col + 1 == c.cols && done < THREAD_WORK_SIZE ==> UnitLength(c, startIndex) == done + 1
  {
    OffsetMono(c.cols, row + 1, c.rows);
    OffsetMul(c.cols, c.rows);
  }

  /**
   * The start of rpProcessPartialChunk: the walk's cell number startIndex,
   * at row startIndex / cols and column startIndex % cols, and the pointers
   * skipped ahead to it by whole rows and columns of blocks.
   */
  method UnitStart(c: Chunk, startIndex: nat) returns (row: nat, col: nat, ijBlock: nat, ikBlock: nat, ij: nat, kj: nat)
    requires c.cols > 0 && startIndex < Area(c)
    ensures row < c.rows && col < c.cols && Offset(c.cols, row) + col == startIndex
    ensures Nth(c, Pos(0, 0), startIndex) == Pos(row, col)
    ensures Aimed(c, row, col, ijBlock, ikBlock, ij, kj)
  {
    row := startIndex / c.cols;
    col := startIndex % c.cols;
    DivSplit(startIndex, c.cols);
    NthPos(c, row, col);
    OffsetMul(c.cols, c.rows);
    if row >= c.rows {
      OffsetMono(c.cols, c.rows, row);
    }
    OffsetMul(c.blockRowSize, row);
    OffsetMul(BLOCK_AREA, col);
    var rowSkip := c.blockRowSize * row;
    var colSkip := BLOCK_AREA * col;
    ijBlock := c.ij + rowSkip;
    ikBlock := c.ik + rowSkip;
    ij := ijBlock + colSkip;
    kj := c.kj + colSkip;
  }

  /**
   * One pass of the loop of rpProcessPartialChunk: the block at chunk cell
   * (row, col), then the pointers moved to the next cell of the walk,
   * wrapping to the start of the next row of blocks after the last column.
   */
  method UnitStep(edges: array<Edge>, c: Chunk, row: nat, col: nat, ijBlock: nat, ikBlock: nat, ij: nat, kj: nat)
    returns (row': nat, col': nat, ijBlock': nat, ikBlock': nat, ij': nat, kj': nat)
    requires ChunkInside(c, edges.Length) && row < c.rows && col < c.cols && Aimed(c, row, col, ijBlock, ikBlock, ij, kj)
    modifies edges
    ensures edges[..] == TileRelaxed(old(edges[..]), BlockAt(c, Pos(row, col)), BLOCK_SIZE)
    ensures Pos(row', col') == Next(c, Pos(row, col)) && Aimed(c, row', col', ijBlock', ikBlock', ij', kj')
    ensures Offset(c.cols, row') + col' == Offset(c.cols, row) + col + 1
  {
    assert CellInside(c, Pos(row, col), edges.Length);
    ProcessBlock(edges, ij, ikBlock, kj);
    row', col', ijBlock', ikBlock' := row, col + 1, ijBlock, ikBlock;
    ij', kj' := ij + BLOCK_AREA, kj + BLOCK_AREA;
    if col' >= c.cols {
      col' := 0;
      ijBlock' := ijBlock' + c.blockRowSize;
      ikBlock' := ikBlock' + c.blockRowSize;
      ij' := ijBlock';
      kj' := c.kj;
      row' := row' + 1;
    }
  }

  /**
   * rpProcessPartialChunk: the blocks of the row-by-row walk from block
   * number startIndex on, ThreadWorkSize of them or up to the end of the
   * chunk, whichever comes first.
   */
  method ProcessPartialChunk(edges: array<Edge>, c: Chunk, startIndex: nat)
    requires ChunkInside(c, edges.Length) && c.cols > 0 && startIndex < Area(c)
    modifies edges
    ensures edges[..] == BlocksRelaxed(old(edges[..]), c, Nth(c, Pos(0, 0), startIndex), UnitLength(c, startIndex))
  {
    var row: nat, col: nat, ijBlock: nat, ikBlock: nat, ij: nat, kj: nat := UnitStart(c, startIndex);
    ghost var length := UnitLength(c, startIndex);
    var i: nat := 0;
    while i < THREAD_WORK_SIZE
      invariant i <= THREAD_WORK_SIZE && row < c.rows && col < c.cols
      invariant Offset(c.cols, row) + col == startIndex + i && Aimed(c, row, col, ijBlock, ikBlock, ij, kj)
      invariant i <= length && BlocksRelaxed(edges[..], c, Pos(row, col), length - i) == BlocksRelaxed(old(edges[..]), c, Nth(c, Pos(0, 0), startIndex), length)
    {
      UnitCount(c, startIndex, row, col, i);
      BlocksFirst(edges[..], c, Pos(row, col), length - i);
      row, col, ijBlock, ikBlock, ij, kj := UnitStep(edges, c, row, col, ijBlock, ikBlock, ij, kj);
      if row >= c.rows {
        return;
      }
      i := i + 1;
    }
    UnitCount(c, startIndex, row, col, i);
  }

  /** The blocks of the walk that the first u work units of a chunk cover. */
  function UnitsDone(c: Chunk, u: nat): nat {
    if THREAD_WORK_SIZE * u < Area(c) then THREAD_WORK_SIZE * u else Area(c)
  }

  /** Work unit u of n starts inside the chunk, where the units before it end, and ends where the first u + 1 units end. */
  lemma {:induction false} UnitsAdvance(c: Chunk, u: nat, n: nat)
    requires u < n && THREAD_WORK_SIZE * (n - 1) < Area(c)
    ensures UnitsDone(c, u) == THREAD_WORK_SIZE * u < Area(c)
    ensures THREAD_WORK_SIZE * u + UnitLength(c, THREAD_WORK_SIZE * u) == UnitsDone(c, u + 1)
  {
  }

  /** After work unit u, the walk resumes where the first u + 1 units end. */
  lemma UnitResumes(s: seq<Edge>, r: seq<Edge>, start: seq<Edge>, c: Chunk, u: nat, n: nat)
    requires u < n && THREAD_WORK_SIZE * (n - 1) < Area(c) && THREAD_WORK_SIZE * u < Area(c)
    requires r == BlocksRelaxed(s, c, Nth(c, Pos(0, 0), THREAD_WORK_SIZE * u), UnitLength(c, THREAD_WORK_SIZE * u))
    requires BlocksRelaxed(s, c, Nth(c, Pos(0, 0), UnitsDone(c, u)), Area(c) - UnitsDone(c, u)) == BlocksRelaxed(start, c, Pos(0, 0), Area(c))
    ensures UnitsDone(c, u + 1) <= Area(c)
    ensures BlocksRelaxed(r, c, Nth(c, Pos(0, 0), UnitsDone(c, u + 1)), Area(c) - UnitsDone(c, u + 1)) == BlocksRelaxed(start, c, Pos(0, 0), Area(c))
  {
    UnitsAdvance(c, u, n);
    BlocksResume(s, r, c, THREAD_WORK_SIZE * u, UnitLength(c, THREAD_WORK_SIZE * u), Area(c) - UnitsDone(c, u + 1));
  }

  /** The work units of a chunk of spaceSize blocks cover it: the last one starts inside it and together they reach its end. */
  lemma {:induction false} UnitsCover(spaceSize: nat, tasks: nat)
    requires spaceSize > 0 && tasks == (spaceSize + THREAD_WORK_SIZE - 1) / THREAD_WORK_SIZE
    ensures tasks > 0 && THREAD_WORK_SIZE * (tasks - 1) < spaceSize <= THREAD_WORK_SIZE * tasks
  {
  }

  /** The queueing loop of rpProcessChunkThreaded: work unit u starts at block number u * ThreadWorkSize. */
  method QueueUnits(tasks: nat) returns (units: seq<nat>)
    ensures |units| == tasks && forall u | 0 <= u < tasks :: units[u] == THREAD_WORK_SIZE * u
  {
    units := [];
    var loopIdx := 0;
    var i := 0;
    while i < tasks
      invariant i <= tasks && loopIdx == THREAD_WORK_SIZE * i && |units| == i
      invariant forall u | 0 <= u < i :: units[u] == THREAD_WORK_SIZE * u
    {
      units := units + [loopIdx];
      i := i + 1;
      loopIdx := loopIdx + THREAD_WORK_SIZE;
    }
  }

  /**
   * The thread pool working through the queued units (rpPoolCallback on
   * each), here one unit after another in queue order; the wait for the
   * last unit to finish is the end of the loop.
   */
  method RunUnits(edges: array<Edge>, c: Chunk, units: seq<nat>)
    requires ChunkInside(c, edges.Length) && c.cols > 0 && |units| > 0
    requires THREAD_WORK_SIZE * (|units| - 1) < Area(c) <= THREAD_WORK_SIZE * |units|
    requires forall u | 0 <= u < |units| :: units[u] == THREAD_WORK_SIZE * u
    modifies edges
    ensures edges[..] == ChunkRelaxed(old(edges[..]), c)
  {
    var u := 0;
    while u < |units|
      invariant u <= |units| && UnitsDone(c, u) <= Area(c)
      invariant BlocksRelaxed(edges[..], c, Nth(c, Pos(0, 0), UnitsDone(c, u)), Area(c) - UnitsDone(c, u)) == BlocksRelaxed(old(edges[..]), c, Pos(0, 0), Area(c))
    {
      UnitsAdvance(c, u, |units|);
      ghost var before := edges[..];
      ProcessPartialChunk(edges, c, units[u]);
      UnitResumes(before, edges[..], old(edges[..]), c, u, |units|);
      u := u + 1;
    }
  }

  /**
   * rpProcessChunkThreaded: a chunk of more than ThreadWorkSize blocks is
   * cut into work units of ThreadWorkSize blocks of the row-by-row walk and
   * the units are queued on the thread pool; a smaller chunk is processed
   * in the calling thread.
   */
  method ProcessChunkThreaded(edges: array<Edge>, c: Chunk)
    requires ChunkInside(c, edges.Length)
    modifies edges
    ensures edges[..] == ChunkRelaxed(old(edges[..]), c)
  {
    var spaceSize := c.rows * c.cols;
    if spaceSize <= THREAD_WORK_SIZE {
      if spaceSize > 0 {
        ProcessChunkLocal(edges, c);
      }
      return;
    }
    var tasks := (spaceSize + THREAD_WORK_SIZE - 1) / THREAD_WORK_SIZE;
    UnitsCover(spaceSize, tasks);
    var units := QueueUnits(tasks);
    RunUnits(edges, c, units);
  }

  /**
   * The processRange pointer of rpPlanRoutes: a chunk goes to
   * rpProcessChunkThreaded when the planner is multi-threaded and to
   * rpProcessChunkLocal otherwise; either way the table ends the same.
   */
  method ProcessRange(edges: array<Edge>, c: Chunk, threaded: bool)
    requires ChunkInside(c, edges.Length)
    modifies edges
    ensures edges[..] == ChunkRelaxed(old(edges[..]), c)
  {
    if threaded {
      ProcessChunkThreaded(edges, c);
    } else {
      ProcessChunkLocal(edges, c);
    }
  }
}
