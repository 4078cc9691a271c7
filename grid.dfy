/**
 * The grid structure of the solver (include/grid.h, src/grid.c).
 *
 * A grid of side `size` keeps three things: the values of the cells (`board`,
 * 0 for an empty cell), the block number of each cell (`blockBoard`, 1-based)
 * and one record per block listing its cells, its goal and its operator. Both
 * boards are flat arrays indexed row by row.
 */
module GridModel {
  import opened ErrCodes

  /** location_t: `x` is the row and `y` the column, as the cell searches use them. */
  datatype Location = Location(x: int, y: int)

  /** The location returned when a search finds nothing. */
  const NO_SQUARE: Location := Location(-1, -1)

  /**
   * block_t. The number of squares of the C record is the length of
   * `squares`.
   */
  datatype Block = Block(squares: seq<Location>, goal: int, opr: char)

  /** A block as initialize_blocks_array leaves it: zeroed by calloc. */
  const EMPTY_BLOCK: Block := Block([], 0, '\0')

  predicate InGrid(loc: Location, size: int)
  {
    0 <= loc.x < size && 0 <= loc.y < size
  }

  /** Every listed square of every block is a cell of the grid. */
  predicate SquaresInGrid(squares: seq<Location>, size: int)
  {
    forall i :: 0 <= i < |squares| ==> InGrid(squares[i], size)
  }

  lemma SquaresInGridPrefix(squares: seq<Location>, size: int, i: int)
    requires SquaresInGrid(squares, size) && 0 <= i <= |squares|
    ensures SquaresInGrid(squares[..i], size)
  {
    assert forall k :: 0 <= k < i ==> squares[..i][k] == squares[k];
  }

  // ---- flat indexing

  lemma MulMono(a: int, b: int, s: int)
    requires a <= b && 0 <= s
    ensures a * s <= b * s
  {
  }

  lemma MulBetween(d: int, s: int)
    requires 0 < s && -s < d * s < s
    ensures d == 0
  {
    if d > 0 {
      MulMono(1, d, s);
    } else if d < 0 {
      MulMono(d, -1, s);
    }
  }

  /**
   * INDEX(i, j, size): the flat position of cell (i, j). Inside the grid it is
   * a valid position, and division by the side recovers row and column.
   */
  function Index(i: int, j: int, size: int): (k: int)
    requires 0 <= i < size && 0 <= j < size
    ensures 0 <= k < size * size
    ensures k / size == i && k % size == j
  {
    MulMono(i, size - 1, size);
    MulBetween((i * size + j) / size - i, size);
    i * size + j
  }

  lemma PositiveSide(k: int, size: int)
    requires 0 <= size && 0 <= k < size * size
    ensures 0 < size
  {
  }

  lemma DivisionBounds(k: int, size: int)
    requires 0 < size && 0 <= k < size * size
    ensures 0 <= k / size < size && 0 <= k % size < size
    ensures (k / size) * size + k % size == k
  {
  }

  /** Every flat position is the index of its row and column. */
  lemma IndexOfPosition(k: int, size: int)
    requires 0 <= size && 0 <= k < size * size
    ensures 0 < size && 0 <= k / size < size && 0 <= k % size < size
    ensures Index(k / size, k % size, size) == k
  {
    PositiveSide(k, size);
    DivisionBounds(k, size);
  }

  /** The location of flat position k. */
  function LocationOf(k: int, size: int): (loc: Location)
    requires 0 <= size && 0 <= k < size * size
    ensures InGrid(loc, size) && Index(loc.x, loc.y, size) == k
  {
    IndexOfPosition(k, size);
    Location(k / size, k % size)
  }

  /** A row-major scan step: cell (i, j) is flat position i * size + j. */
  /** The cells of rows 0 .. i end inside the grid. */
  lemma RowEnd(i: int, done: int, size: int)
    requires 0 <= i < size && done == i * size
    ensures done + size <= size * size
  {
    MulMono(i + 1, size, size);
  }

  lemma RowStep(i: int, j: int, done: int, size: int)
    requires 0 <= i < size && 0 <= j < size && done == i * size
    ensures Index(i, j, size) == done + j && LocationOf(done + j, size) == Location(i, j)
  {
  }

  // ---- the Latin-square check, on board contents

  /** No cell of row `row` holds num. */
  predicate RowFree(b: seq<int>, size: int, row: int, num: int)
    requires |b| == size * size && 0 <= row < size
  {
    forall col :: 0 <= col < size ==> b[Index(row, col, size)] != num
  }

  /** No cell of column `col` holds num. */
  predicate ColFree(b: seq<int>, size: int, col: int, num: int)
    requires |b| == size * size && 0 <= col < size
  {
    forall row :: 0 <= row < size ==> b[Index(row, col, size)] != num
  }

  /** num appears nowhere in the row and nowhere in the column of (row, col). */
  predicate LatinFree(b: seq<int>, size: int, num: int, row: int, col: int)
    requires |b| == size * size && 0 <= row < size && 0 <= col < size
  {
    RowFree(b, size, row, num) && ColFree(b, size, col, num)
  }

  /**
   * Writing a value the Latin-square check accepted leaves it exactly once in
   * its row and exactly once in its column.
   */
  lemma LatinFreeWrite(b: seq<int>, size: int, num: int, row: int, col: int)
    requires |b| == size * size && 0 <= row < size && 0 <= col < size
    requires LatinFree(b, size, num, row, col)
    ensures var b' := b[Index(row, col, size) := num];
      b'[Index(row, col, size)] == num
      && (forall c :: 0 <= c < size && c != col ==> b'[Index(row, c, size)] != num)
      && (forall r :: 0 <= r < size && r != row ==> b'[Index(r, col, size)] != num)
  {
    var b' := b[Index(row, col, size) := num];
    forall c | 0 <= c < size && c != col
      ensures b'[Index(row, c, size)] != num
    {
      assert Index(row, c, size) % size != Index(row, col, size) % size;
    }
    forall r | 0 <= r < size && r != row
      ensures b'[Index(r, col, size)] != num
    {
      assert Index(r, col, size) / size != Index(row, col, size) / size;
    }
  }

  // ---- the searches, on board contents

  /** The first position at or after k holding 0, or |b| when there is none. */
  function FirstZeroFrom(b: seq<int>, k: nat): (r: nat)
    requires k <= |b|
    ensures k <= r <= |b|
    ensures r < |b| ==> b[r] == 0
    ensures forall i :: k <= i < r ==> b[i] != 0
    decreases |b| - k
  {
    if k == |b| then k
    else if b[k] == 0 then k
    else FirstZeroFrom(b, k + 1)
  }

  /** A position whose predecessors all hold values is the first zero when it holds 0 or ends b. */
  lemma FirstZeroAt(b: seq<int>, k: nat)
    requires k <= |b| && (k < |b| ==> b[k] == 0)
    requires forall i :: 0 <= i < k ==> b[i] != 0
    ensures FirstZeroFrom(b, 0) == k
  {
  }

  /**
   * The first empty cell in row-major order, or NO_SQUARE when every cell
   * holds a value.
   */
  function FirstEmpty(b: seq<int>, size: int): (loc: Location)
    requires 0 <= size && |b| == size * size
    ensures loc == NO_SQUARE <==> forall k :: 0 <= k < |b| ==> b[k] != 0
    ensures loc != NO_SQUARE ==>
      InGrid(loc, size) && b[Index(loc.x, loc.y, size)] == 0
      && forall k :: 0 <= k < Index(loc.x, loc.y, size) ==> b[k] != 0
  {
    var k := FirstZeroFrom(b, 0);
    if k == |b| then NO_SQUARE else LocationOf(k, size)
  }

  /** The first square, at or after position k of the list, whose cell is empty. */
  function FirstEmptyFrom(b: seq<int>, size: int, squares: seq<Location>, k: nat): (r: nat)
    requires |b| == size * size && SquaresInGrid(squares, size) && k <= |squares|
    ensures k <= r <= |squares|
    ensures r < |squares| ==> b[Index(squares[r].x, squares[r].y, size)] == 0
    ensures forall i :: k <= i < r ==> b[Index(squares[i].x, squares[i].y, size)] != 0
    decreases |squares| - k
  {
    if k == |squares| then k
    else if b[Index(squares[k].x, squares[k].y, size)] == 0 then k
    else FirstEmptyFrom(b, size, squares, k + 1)
  }

  /**
   * The first empty cell of a block in the order of its list, or NO_SQUARE
   * when all its cells hold a value.
   */
  function FirstEmptyInBlock(b: seq<int>, size: int, squares: seq<Location>): (loc: Location)
    requires |b| == size * size && SquaresInGrid(squares, size)
    ensures loc == NO_SQUARE <==>
      forall i :: 0 <= i < |squares| ==> b[Index(squares[i].x, squares[i].y, size)] != 0
    ensures loc != NO_SQUARE ==> InGrid(loc, size) && b[Index(loc.x, loc.y, size)] == 0
  {
    var i := FirstEmptyFrom(b, size, squares, 0);
    if i == |squares| then NO_SQUARE else squares[i]
  }

  // ---- the cell lists built from the block board

  /** The cells among flat positions 0 .. k-1 whose block number is id, in order. */
  function CellsUpTo(bb: seq<int>, size: int, id: int, k: nat): seq<Location>
    requires 0 <= size && |bb| == size * size && k <= |bb|
  {
    if k == 0 then []
    else CellsUpTo(bb, size, id, k - 1)
         + (if bb[k - 1] == id then [LocationOf(k - 1, size)] else [])
  }

  /** The cells of block id, in row-major order. */
  function CellsOf(bb: seq<int>, size: int, id: int): seq<Location>
    requires 0 <= size && |bb| == size * size
  {
    CellsUpTo(bb, size, id, |bb|)
  }

  /**
   * The cell list always has the number of positions holding id among the
   * first k, lists exactly those cells, and lists them in increasing position.
   */
  lemma {:induction false} CellsUpToFacts(bb: seq<int>, size: int, id: int, k: nat)
    requires 0 <= size && |bb| == size * size && k <= |bb|
    ensures var cells := CellsUpTo(bb, size, id, k);
      |cells| == multiset(bb[..k])[id]
      && (forall i :: 0 <= i < |cells| ==>
            InGrid(cells[i], size) && Index(cells[i].x, cells[i].y, size) < k
            && bb[Index(cells[i].x, cells[i].y, size)] == id)
      && (forall i, j :: 0 <= i < j < |cells| ==>
            Index(cells[i].x, cells[i].y, size) < Index(cells[j].x, cells[j].y, size))
      && (forall p :: 0 <= p < k && bb[p] == id ==> LocationOf(p, size) in cells)
  {
    if k > 0 {
      CellsUpToFacts(bb, size, id, k - 1);
      assert bb[..k] == bb[..k - 1] + [bb[k - 1]];
    }
  }

  /**
   * The cells of block id are exactly the cells of the grid whose block number
   * is id; there are as many as occurrences of id, listed row by row.
   */
  lemma CellsOfFacts(bb: seq<int>, size: int, id: int)
    requires 0 <= size && |bb| == size * size
    ensures var cells := CellsOf(bb, size, id);
      |cells| == multiset(bb)[id]
      && (forall loc :: loc in cells <==> InGrid(loc, size) && bb[Index(loc.x, loc.y, size)] == id)
      && (forall i, j :: 0 <= i < j < |cells| ==>
            Index(cells[i].x, cells[i].y, size) < Index(cells[j].x, cells[j].y, size))
  {
    CellsUpToFacts(bb, size, id, |bb|);
    assert bb[..|bb|] == bb;
    var cells := CellsOf(bb, size, id);
    forall loc | InGrid(loc, size) && bb[Index(loc.x, loc.y, size)] == id
      ensures loc in cells
    {
      var p := Index(loc.x, loc.y, size);
      assert LocationOf(p, size) == loc;
    }
  }

  // ---- the grid object

  class Grid {
    var size: int
    var board: array<int>
    var blockBoard: array<int>
    var blocks: seq<Block>
    var nbBlocks: int

    /** Both boards have size * size cells and are distinct; nb_blocks counts the blocks. */
    predicate Valid()
      reads this
    {
      0 <= size && board.Length == size * size && blockBoard.Length == size * size
      && board != blockBoard && nbBlocks == |blocks|
    }

    /** initialize_grid: both boards are size * size zeros. */
    constructor (n: nat)
      ensures Valid() && size == n && blocks == [] && nbBlocks == 0
      ensures fresh(board) && fresh(blockBoard)
      ensures forall k :: 0 <= k < n * n ==> board[k] == 0 && blockBoard[k] == 0
    {
      size := n;
      board := new int[n * n](_ => 0);
      blockBoard := new int[n * n](_ => 0);
      blocks := [];
      nbBlocks := 0;
    }

    /** initialize_blocks_array: nb blocks without squares, goal or operator. */
    method InitializeBlocksArray(nb: nat) returns (status: ErrCode)
      requires Valid()
      modifies this`blocks, this`nbBlocks
      ensures Valid() && status == Success && nbBlocks == nb && |blocks| == nb
      ensures forall i :: 0 <= i < nb ==> blocks[i] == EMPTY_BLOCK
    {
      nbBlocks := nb;
      blocks := [];
      var i := 0;
      while i < nb
        invariant 0 <= i <= nb && |blocks| == i && nbBlocks == nb
        invariant forall k :: 0 <= k < i ==> blocks[k] == EMPTY_BLOCK
      {
        blocks := blocks + [EMPTY_BLOCK];
        i := i + 1;
      }
      status := Success;
    }

    /**
     * fill_square: appends (x, y) to the block its block number names, or
     * reports ERRCODE_OUT_OF_BOUNDS and changes nothing when that number is
     * not in 1 .. nb_blocks.
     */
    method FillSquare(x: int, y: int) returns (status: ErrCode)
      requires Valid() && 0 <= x < size && 0 <= y < size
      modifies this`blocks
      ensures Valid()
      ensures var b := blockBoard[Index(x, y, size)] - 1;
        if 0 <= b < nbBlocks then
          status == Success
          && blocks == old(blocks)[b := old(blocks)[b].(squares := old(blocks)[b].squares + [Location(x, y)])]
        else
          status == OutOfBounds && blocks == old(blocks)
    {
      var blockNum := blockBoard[Index(x, y, size)] - 1;
      if blockNum < 0 || blockNum >= nbBlocks {
        return OutOfBounds;
      }
      var block := blocks[blockNum];
      blocks := blocks[blockNum := block.(squares := block.squares + [Location(x, y)])];
      status := Success;
    }

    /**
     * fill_squares_array: once every block number of the board names a block
     * and every block is still empty, each block lists exactly its cells, in
     * row-major order.
     */
    method FillSquaresArray() returns (status: ErrCode)
      requires Valid()
      requires forall k :: 0 <= k < blockBoard.Length ==> 1 <= blockBoard[k] <= nbBlocks
      requires forall b :: 0 <= b < |blocks| ==> blocks[b].squares == []
      modifies this`blocks
      ensures Valid() && status == Success && |blocks| == old(|blocks|)
      ensures forall b :: 0 <= b < |blocks| ==>
        blocks[b] == old(blocks[b]).(squares := CellsOf(blockBoard[..], size, b + 1))
    {
      ghost var bb := blockBoard[..];
      ghost var done := 0;
      var i := 0;
      while i < size
        invariant 0 <= i <= size && done == i * size && done <= |bb|
        invariant Valid() && |blocks| == old(|blocks|) && bb == blockBoard[..]
        invariant forall b :: 0 <= b < |blocks| ==>
          blocks[b] == old(blocks[b]).(squares := CellsUpTo(bb, size, b + 1, done))
      {
        MulMono(i + 1, size, size);
        FillRow(bb, old(blocks), done, i);
        i := i + 1;
        done := done + size;
      }
      status := Success;
    }

    /** One turn of the outer loop of fill_squares_array: the cells of row i join their blocks' lists. */
    method FillRow(ghost bb: seq<int>, ghost orig: seq<Block>, ghost done: int, i: int)
      requires Valid() && bb == blockBoard[..] && |blocks| == |orig|
      requires 0 <= i < size && done == i * size && done + size <= |bb|
      requires forall k :: 0 <= k < |bb| ==> 1 <= bb[k] <= nbBlocks
      requires forall b :: 0 <= b < |blocks| ==>
        blocks[b] == orig[b].(squares := CellsUpTo(bb, size, b + 1, done))
      modifies this`blocks
      ensures Valid() && |blocks| == |orig|
      ensures forall b :: 0 <= b < |blocks| ==>
        blocks[b] == orig[b].(squares := CellsUpTo(bb, size, b + 1, done + size))
    {
      var j := 0;
      while j < size
        invariant 0 <= j <= size
        invariant Valid() && |blocks| == |orig|
        invariant forall b :: 0 <= b < |blocks| ==>
          blocks[b] == orig[b].(squares := CellsUpTo(bb, size, b + 1, done + j))
      {
        FillCell(bb, orig, done, i, j);
        j := j + 1;
      }
    }

    /** One turn of the inner loop of fill_squares_array: cell (i, j) joins its block's list. */
    method FillCell(ghost bb: seq<int>, ghost orig: seq<Block>, ghost done: int, i: int, j: int)
      requires Valid() && bb == blockBoard[..] && |blocks| == |orig|
      requires 0 <= i < size && 0 <= j < size && done == i * size && done + j < |bb|
      requires forall k :: 0 <= k < |bb| ==> 1 <= bb[k] <= nbBlocks
      requires forall b :: 0 <= b < |blocks| ==>
        blocks[b] == orig[b].(squares := CellsUpTo(bb, size, b + 1, done + j))
      modifies this`blocks
      ensures Valid() && |blocks| == |orig|
      ensures forall b :: 0 <= b < |blocks| ==>
        blocks[b] == orig[b].(squares := CellsUpTo(bb, size, b + 1, done + j + 1))
    {
      RowStep(i, j, done, size);
      assert 1 <= bb[done + j] <= nbBlocks;
      var _ := FillSquare(i, j);
    }

    /** check_row: num appears in no cell of the row. */
    method CheckRow(row: int, num: int) returns (ok: bool)
      requires Valid() && 0 <= row < size
      ensures ok == RowFree(board[..], size, row, num)
    {
      var col := 0;
      while col < size
        invariant 0 <= col <= size
        invariant forall c :: 0 <= c < col ==> board[Index(row, c, size)] != num
      {
        if board[Index(row, col, size)] == num {
          return false;
        }
        col := col + 1;
      }
      return true;
    }

    /** check_col: num appears in no cell of the column. */
    method CheckCol(col: int, num: int) returns (ok: bool)
      requires Valid() && 0 <= col < size
      ensures ok == ColFree(board[..], size, col, num)
    {
      var row := 0;
      while row < size
        invariant 0 <= row <= size
        invariant forall r :: 0 <= r < row ==> board[Index(r, col, size)] != num
      {
        if board[Index(row, col, size)] == num {
          return false;
        }
        row := row + 1;
      }
      return true;
    }

    /**
     * check_latin_squares_rule: num appears neither in the row nor in the
     * column; the target cell itself is part of both scans.
     */
    method CheckLatinSquaresRule(num: int, row: int, col: int) returns (ok: bool)
      requires Valid() && 0 <= row < size && 0 <= col < size
      ensures ok == LatinFree(board[..], size, num, row, col)
    {
      ok := CheckRow(row, num);
      if ok {
        ok := CheckCol(col, num);
      }
    }

    /** reset_grid: every cell of the board becomes 0; nothing else changes. */
    method ResetGrid()
      requires Valid()
      modifies board
      ensures forall k :: 0 <= k < board.Length ==> board[k] == 0
    {
      var i := 0;
      while i < size * size
        invariant 0 <= i <= size * size
        invariant forall k :: 0 <= k < i ==> board[k] == 0
      {
        board[i] := 0;
        i := i + 1;
      }
    }

    /** find_empty_square_in_block: the first empty cell in the block's list order. */
    method FindEmptySquareInBlock(block: Block) returns (loc: Location)
      requires Valid() && SquaresInGrid(block.squares, size)
      ensures loc == FirstEmptyInBlock(board[..], size, block.squares)
    {
      var i := 0;
      while i < |block.squares|
        invariant 0 <= i <= |block.squares|
        invariant FirstEmptyFrom(board[..], size, block.squares, 0)
                  == FirstEmptyFrom(board[..], size, block.squares, i)
      {
        var sq := block.squares[i];
        if board[Index(sq.x, sq.y, size)] == 0 {
          return sq;
        }
        i := i + 1;
      }
      return NO_SQUARE;
    }

    /** find_empty_square_in_grid: the first empty cell in row-major order. */
    method FindEmptySquareInGrid() returns (loc: Location)
      requires Valid()
      ensures loc == FirstEmpty(board[..], size)
    {
      ghost var done := 0;
      var i := 0;
      while i < size
        invariant 0 <= i <= size && done == i * size
        invariant forall k :: 0 <= k < done ==> board[k] != 0
      {
        MulMono(i + 1, size, size);
        var j := 0;
        while j < size
          invariant 0 <= j <= size && done + j <= board.Length
          invariant forall k :: 0 <= k < done + j ==> board[k] != 0
        {
          RowStep(i, j, done, size);
          if board[Index(i, j, size)] == 0 {
            FirstZeroAt(board[..], done + j);
            return Location(i, j);
          }
          j := j + 1;
        }
        i := i + 1;
        done := done + size;
      }
      FirstZeroAt(board[..], board.Length);
      return NO_SQUARE;
    }

    /**
     * copy_grid: this grid takes the side, both boards and every block (its
     * squares, goal and operator) of src; src does not change.
     */
    method CopyGrid(src: Grid)
      requires Valid() && src.Valid() && src != this
      requires src.size == size && src.nbBlocks == nbBlocks
      requires board != src.board && board != src.blockBoard
      requires blockBoard != src.board && blockBoard != src.blockBoard
      modifies this`size, this`nbBlocks, this`blocks, board, blockBoard
      ensures Valid() && size == src.size && nbBlocks == src.nbBlocks
      ensures board[..] == src.board[..] && blockBoard[..] == src.blockBoard[..]
      ensures blocks == src.blocks
      ensures src.board[..] == old(src.board[..]) && src.blockBoard[..] == old(src.blockBoard[..])
    {
      size := src.size;
      nbBlocks := src.nbBlocks;
      var k := 0;
      while k < size * size
        invariant Valid() && size == src.size && nbBlocks == src.nbBlocks
        invariant 0 <= k <= size * size
        invariant forall p :: 0 <= p < k ==> board[p] == src.board[p] && blockBoard[p] == src.blockBoard[p]
      {
        board[k] := src.board[k];
        blockBoard[k] := src.blockBoard[k];
        k := k + 1;
      }
      var i := 0;
      while i < src.nbBlocks
        invariant Valid() && size == src.size && nbBlocks == src.nbBlocks
        invariant board[..] == src.board[..] && blockBoard[..] == src.blockBoard[..]
        invariant 0 <= i <= src.nbBlocks
        invariant forall b :: 0 <= b < i ==> blocks[b] == src.blocks[b]
      {
        var from := src.blocks[i];
        var squares: seq<Location> := [];
        var j := 0;
        while j < |from.squares|
          invariant 0 <= j <= |from.squares| && squares == from.squares[..j]
        {
          squares := squares + [from.squares[j]];
          j := j + 1;
        }
        blocks := blocks[i := Block(squares, from.goal, from.opr)];
        i := i + 1;
      }
    }
  }

  /**
   * create_and_copy_grid: a fresh grid equal to src; allocation failures
   * (ERRCODE_ALLOC) are not part of the model.
   */
  method CreateAndCopyGrid(src: Grid) returns (status: ErrCode, dest: Grid)
    requires src.Valid()
    ensures status == Success && fresh(dest) && fresh(dest.board) && fresh(dest.blockBoard)
    ensures dest.Valid() && dest.size == src.size && dest.nbBlocks == src.nbBlocks
    ensures dest.board[..] == src.board[..] && dest.blockBoard[..] == src.blockBoard[..]
    ensures dest.blocks == src.blocks
  {
    dest := new Grid(src.size);
    status := dest.InitializeBlocksArray(src.nbBlocks);
    dest.CopyGrid(src);
  }
}
