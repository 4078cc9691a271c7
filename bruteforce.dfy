/**
 * The backtracking solvers (src/bruteforce_solver.c): plain and pruned
 * row-major backtracking, and backtracking block by block in order of block
 * size. Each writes a value into an empty cell, recurses, and undoes the
 * write when the recursion fails.
 */
module Bruteforce {
  import opened GridModel
  import opened Solver

  // ---- what the solvers need of a puzzle

  /**
   * A puzzle as the parser builds it: every cell names a block, each block
   * lists exactly its cells, and the two-cell operators have (at least) the
   * two cells check_grid reads.
   */
  predicate WellFormed(size: int, bb: seq<int>, blocks: seq<Block>)
  {
    0 <= size && |bb| == size * size
    && (forall k :: 0 <= k < |bb| ==> 1 <= bb[k] <= |blocks|)
    && (forall b :: 0 <= b < |blocks| ==> blocks[b].squares == CellsOf(bb, size, b + 1))
    && (forall b :: 0 <= b < |blocks| && blocks[b].opr == '-' ==> |blocks[b].squares| >= 2)
    && (forall b :: 0 <= b < |blocks| && blocks[b].opr == '/' ==> |blocks[b].squares| == 2)
  }

  /** Every cell of the board is empty or holds a value in 1 .. size. */
  predicate InRange(b: seq<int>, size: int)
  {
    forall k :: 0 <= k < |b| ==> 0 <= b[k] <= size
  }

  predicate Puzzle(g: Grid)
    reads g, g.blockBoard
  {
    g.Valid() && WellFormed(g.size, g.blockBoard[..], g.blocks)
  }

  /** The cells of every block, all in the grid. */
  lemma BlocksInGrid(size: int, bb: seq<int>, blocks: seq<Block>)
    requires WellFormed(size, bb, blocks)
    ensures forall b :: 0 <= b < |blocks| ==> SquaresInGrid(blocks[b].squares, size)
  {
    forall b | 0 <= b < |blocks|
      ensures SquaresInGrid(blocks[b].squares, size)
    {
      BlockInGrid(size, bb, blocks, b);
    }
  }

  /** The cells of a block, all in the grid. */
  lemma BlockInGrid(size: int, bb: seq<int>, blocks: seq<Block>, b: int)
    requires WellFormed(size, bb, blocks) && 0 <= b < |blocks|
    ensures SquaresInGrid(blocks[b].squares, size)
  {
    CellsOfFacts(bb, size, b + 1);
    var sq := blocks[b].squares;
    assert forall i :: 0 <= i < |sq| ==> sq[i] in CellsOf(bb, size, b + 1);
  }

  /** A cell lies in the block its block number names. */
  lemma CellInBlock(size: int, bb: seq<int>, blocks: seq<Block>, loc: Location)
    requires WellFormed(size, bb, blocks) && InGrid(loc, size)
    ensures loc in blocks[bb[Index(loc.x, loc.y, size)] - 1].squares
  {
    CellsOfFacts(bb, size, bb[Index(loc.x, loc.y, size)]);
  }

  /** check_grid may be asked about any cell of a well-formed puzzle. */
  lemma CheckableAt(b: seq<int>, size: int, bb: seq<int>, blocks: seq<Block>, loc: Location, val: int)
    requires WellFormed(size, bb, blocks) && |b| == size * size && NonNegative(b)
    requires InGrid(loc, size) && val >= 1
    ensures Checkable(b, size, blocks[bb[Index(loc.x, loc.y, size)] - 1], val, loc)
  {
    var id := bb[Index(loc.x, loc.y, size)] - 1;
    BlockInGrid(size, bb, blocks, id);
    CellInBlock(size, bb, blocks, loc);
    var sq := blocks[id].squares;
    if blocks[id].opr == '/' {
      assert sq == [sq[0], sq[1]];
    }
  }

  /** check_grid on the block that loc belongs to accepts val at loc. */
  predicate BlockAccepts(b: seq<int>, size: int, bb: seq<int>, blocks: seq<Block>, optimized: bool, loc: Location, val: int)
    requires WellFormed(size, bb, blocks) && |b| == size * size && NonNegative(b)
    requires InGrid(loc, size) && val >= 1
  {
    CheckableAt(b, size, bb, blocks, loc, val);
    GridAccepts(b, size, blocks[bb[Index(loc.x, loc.y, size)] - 1], optimized, val, loc)
  }

  /** is_valid: the block of loc and the Latin-square rule both accept val at loc. */
  predicate ValidChoice(b: seq<int>, size: int, bb: seq<int>, blocks: seq<Block>, optimized: bool, loc: Location, val: int)
    requires WellFormed(size, bb, blocks) && |b| == size * size && NonNegative(b)
    requires InGrid(loc, size) && val >= 1
  {
    BlockAccepts(b, size, bb, blocks, optimized, loc, val) && LatinFree(b, size, val, loc.x, loc.y)
  }

  /** is_valid, proved against ValidChoice. */
  method IsValid(g: Grid, optimized: bool, loc: Location, val: int) returns (ok: bool)
    requires Puzzle(g) && NonNegative(g.board[..]) && InGrid(loc, g.size) && val >= 1
    ensures ok == ValidChoice(g.board[..], g.size, g.blockBoard[..], g.blocks, optimized, loc, val)
    ensures ok ==> LatinFree(g.board[..], g.size, val, loc.x, loc.y)
  {
    CheckableAt(g.board[..], g.size, g.blockBoard[..], g.blocks, loc, val);
    var blockNum := g.blockBoard[Index(loc.x, loc.y, g.size)] - 1;
    ok := CheckGrid(g, optimized, val, loc, blockNum);
    if ok {
      ok := g.CheckLatinSquaresRule(val, loc.x, loc.y);
    }
  }

  // ---- what a successful search guarantees

  /** The number of empty cells. */
  function Zeros(b: seq<int>): nat
  {
    multiset(b)[0]
  }

  lemma ZerosWrite(b: seq<int>, p: int, v: int)
    requires 0 <= p < |b| && b[p] == 0 && v != 0
    ensures Zeros(b[p := v]) == Zeros(b) - 1
  {
  }

  /** Writing a value into an empty cell and then 0 again gives the board back. */
  lemma UndoWrite(b: seq<int>, p: int, v: int)
    requires 0 <= p < |b| && b[p] == 0
    ensures b[p := v][p := 0] == b
  {
  }

  lemma ZerosNone(b: seq<int>)
    requires forall k :: 0 <= k < |b| ==> b[k] != 0
    ensures Zeros(b) == 0
  {
  }

  /**
   * The value at (row, col) is in 1 .. size and occurs nowhere else in its
   * row or its column.
   */
  predicate Placed(b: seq<int>, size: int, row: int, col: int)
    requires |b| == size * size && 0 <= row < size && 0 <= col < size
  {
    var v := b[Index(row, col, size)];
    1 <= v <= size
    && (forall c {:trigger b[Index(row, c, size)]} :: 0 <= c < size && c != col ==> b[Index(row, c, size)] != v)
    && (forall r {:trigger b[Index(r, col, size)]} :: 0 <= r < size && r != row ==> b[Index(r, col, size)] != v)
  }

  /** b' keeps every value of b, and every cell empty in b and filled in b' is Placed in b'. */
  predicate Extends(b: seq<int>, b': seq<int>, size: int)
    requires |b| == size * size && |b'| == size * size
  {
    (forall k :: 0 <= k < |b| && b[k] != 0 ==> b'[k] == b[k])
    && (forall row, col ::
          0 <= row < size && 0 <= col < size && b[Index(row, col, size)] == 0 && b'[Index(row, col, size)] != 0
          ==> Placed(b', size, row, col))
  }

  /**
   * A value the Latin-square rule accepted at (x, y), followed by a
   * completion of the resulting board, is itself placed in that completion.
   */
  lemma ExtendsWrite(b: seq<int>, b1: seq<int>, b2: seq<int>, size: int, x: int, y: int, v: int)
    requires |b| == size * size && |b2| == size * size
    requires 0 <= x < size && 0 <= y < size && b[Index(x, y, size)] == 0 && 1 <= v <= size
    requires LatinFree(b, size, v, x, y)
    requires b1 == b[Index(x, y, size) := v] && Extends(b1, b2, size)
    ensures Extends(b, b2, size)
  {
    var p := Index(x, y, size);
    assert b2[p] == v;
    forall c | 0 <= c < size && c != y
      ensures b2[Index(x, c, size)] != v
    {
      var q := Index(x, c, size);
      assert q % size != p % size;
      if b1[q] == 0 && b2[q] != 0 {
        assert Placed(b2, size, x, c);
      }
    }
    forall r | 0 <= r < size && r != x
      ensures b2[Index(r, y, size)] != v
    {
      var q := Index(r, y, size);
      assert q / size != p / size;
      if b1[q] == 0 && b2[q] != 0 {
        assert Placed(b2, size, r, y);
      }
    }
    assert Placed(b2, size, x, y);
    forall row, col | 0 <= row < size && 0 <= col < size && b[Index(row, col, size)] == 0
                      && b2[Index(row, col, size)] != 0
      ensures Placed(b2, size, row, col)
    {
      if Index(row, col, size) != p {
        assert b1[Index(row, col, size)] == 0;
      } else {
        assert row == Index(row, col, size) / size == x;
        assert col == Index(row, col, size) % size == y;
      }
    }
  }

  // ---- plain and pruned row-major backtracking

  /**
   * solve_using_bruteforce: fills the first empty cell in row-major order
   * with each value from 1 to size that is_valid accepts, and recurses. On
   * success the board is full and every cell that was empty holds a value
   * that the Latin-square rule kept unique in its row and column; on failure
   * the board is as it was. With vrb set, every write counts in nbSet and
   * every undo in nbUnset, so they differ by the cells filled.
   */
  method SolveUsingBruteforce(g: Grid, optimized: bool, nbSet: int, nbUnset: int, vrb: bool)
      returns (solved: bool, nbSet': int, nbUnset': int)
    requires Puzzle(g) && InRange(g.board[..], g.size)
    modifies g.board
    decreases Zeros(g.board[..])
    ensures InRange(g.board[..], g.size)
    ensures solved ==> forall k :: 0 <= k < g.board.Length ==> g.board[k] != 0
    ensures solved ==> Extends(old(g.board[..]), g.board[..], g.size)
    ensures !solved ==> g.board[..] == old(g.board[..])
    ensures forall k :: 0 <= k < g.board.Length && old(g.board[k]) != 0 ==> g.board[k] == old(g.board[k])
    ensures !vrb ==> nbSet' == nbSet && nbUnset' == nbUnset
    ensures nbSet' >= nbSet && nbUnset' >= nbUnset
    ensures vrb && !solved ==> nbSet' - nbSet == nbUnset' - nbUnset
    ensures vrb && solved ==> (nbSet' - nbSet) - (nbUnset' - nbUnset) == Zeros(old(g.board[..]))
  {
    ghost var b0 := g.board[..];
    nbSet', nbUnset' := nbSet, nbUnset;
    var empty := g.FindEmptySquareInGrid();
    if empty.x != -1 && empty.y != -1 {
      var p := Index(empty.x, empty.y, g.size);
      var i := 1;
      while i <= g.size
        invariant 1 <= i <= g.size + 1
        invariant g.board[..] == b0
        invariant !vrb ==> nbSet' == nbSet && nbUnset' == nbUnset
        invariant nbSet' >= nbSet && nbUnset' >= nbUnset
        invariant nbSet' - nbSet == nbUnset' - nbUnset
      {
        var ok := IsValid(g, optimized, empty, i);
        if ok {
          if vrb { nbSet' := nbSet' + 1; }
          g.board[p] := i;
          ghost var b1 := g.board[..];
          assert b1 == b0[p := i];
          ZerosWrite(b0, p, i);
          var sub;
          sub, nbSet', nbUnset' := SolveUsingBruteforce(g, optimized, nbSet', nbUnset', vrb);
          if sub {
            ExtendsWrite(b0, b1, g.board[..], g.size, empty.x, empty.y, i);
            return true, nbSet', nbUnset';
          }
          if vrb { nbUnset' := nbUnset' + 1; }
          g.board[p] := 0;
          UndoWrite(b0, p, i);
        }
        i := i + 1;
      }
      return false, nbSet', nbUnset';
    } else {
      ZerosNone(b0);
      return true, nbSet', nbUnset';
    }
  }

  // ---- the order of blocks by size

  /** Block a comes before block c: it has fewer cells, or as many and a lower index. */
  predicate Before(blocks: seq<Block>, a: int, c: int)
    requires 0 <= a < |blocks| && 0 <= c < |blocks|
  {
    |blocks[a].squares| < |blocks[c].squares|
    || (|blocks[a].squares| == |blocks[c].squares| && a < c)
  }

  /** A sequence of falses has as many falses as elements. */
  lemma {:induction false} AllFalse(s: seq<bool>)
    requires forall k :: 0 <= k < |s| ==> !s[k]
    ensures multiset(s)[false] == |s|
  {
    if s != [] {
      AllFalse(s[1..]);
      assert s == [s[0]] + s[1..];
    }
  }

  /** A block of a well-formed puzzle has at most size * size cells. */
  lemma BlockSizeBound(size: int, bb: seq<int>, blocks: seq<Block>)
    requires WellFormed(size, bb, blocks)
    ensures forall b :: 0 <= b < |blocks| ==> |blocks[b].squares| <= size * size
  {
    forall b | 0 <= b < |blocks|
      ensures |blocks[b].squares| <= size * size
    {
      CellsOfFacts(bb, size, b + 1);
      assert multiset(bb)[b + 1] <= |multiset(bb)|;
    }
  }

  /**
   * The state of the selection after the blocks of order were taken: c marks
   * exactly those, each taken once, in order, and each before every block
   * still unmarked.
   */
  predicate Selection(blocks: seq<Block>, c: seq<bool>, order: seq<int>)
  {
    |c| == |blocks|
    && (forall k :: 0 <= k < |order| ==> 0 <= order[k] < |c|)
    && (forall k, l :: 0 <= k < l < |order| ==> order[k] != order[l])
    && (forall j :: 0 <= j < |c| ==> (c[j] <==> j in order))
    && multiset(c)[false] == |c| - |order|
    && (forall k, l :: 0 <= k < l < |order| ==> Before(blocks, order[k], order[l]))
    && (forall k, j :: 0 <= k < |order| && 0 <= j < |c| && !c[j] ==> Before(blocks, order[k], j))
  }

  /** index is the first unmarked block of least size. */
  predicate FirstSmallest(blocks: seq<Block>, c: seq<bool>, index: int)
    requires |c| == |blocks|
  {
    0 <= index < |c| && !c[index]
    && forall j :: 0 <= j < |c| && !c[j] ==> j == index || Before(blocks, index, j)
  }

  /** Taking the first smallest unmarked block extends the selection. */
  lemma SelectStep(blocks: seq<Block>, c: seq<bool>, order: seq<int>, index: int)
    requires Selection(blocks, c, order) && FirstSmallest(blocks, c, index)
    ensures Selection(blocks, c[index := true], order + [index])
  {
    var c', order' := c[index := true], order + [index];
    forall j | 0 <= j < |c'|
      ensures c'[j] <==> j in order'
    {
      assert j in order' <==> j in order || j == index;
    }
  }

  /** When every block is taken, every block is in the order. */
  lemma SelectionDone(blocks: seq<Block>, c: seq<bool>, order: seq<int>)
    requires Selection(blocks, c, order) && |order| == |c|
    ensures forall b :: 0 <= b < |c| ==> b in order
  {
    assert false !in multiset(c);
    forall b | 0 <= b < |c|
      ensures b in order
    {
      assert c[b] in multiset(c);
    }
  }

  /**
   * The inner scan of make_blocks_priority_list: the first unmarked block of
   * least size, where minSize starts above every block size.
   */
  method SmallestUnchecked(blocks: seq<Block>, checked: seq<bool>, limit: int, index0: int) returns (index: int)
    requires |checked| == |blocks| && false in checked
    requires forall b :: 0 <= b < |blocks| ==> |blocks[b].squares| < limit
    ensures FirstSmallest(blocks, checked, index)
  {
    var nb := |blocks|;
    var minSize := limit;
    index := index0;
    ghost var found := false;
    var j := 0;
    while j < nb
      invariant 0 <= j <= nb
      invariant found <==> exists j' :: 0 <= j' < j && !checked[j']
      invariant !found ==> minSize == limit
      invariant found ==> 0 <= index < j && !checked[index] && minSize == |blocks[index].squares|
      invariant found ==> forall j' :: 0 <= j' < j && !checked[j'] ==> j' == index || Before(blocks, index, j')
    {
      if !checked[j] && |blocks[j].squares| < minSize {
        minSize := |blocks[j].squares|;
        index := j;
      }
      found := found || !checked[j];
      j := j + 1;
    }
    ghost var some :| 0 <= some < nb && !checked[some];
    assert found by {
      assert !checked[some];
    }
  }

  /**
   * make_blocks_priority_list, with the selection's starting bound raised
   * above every block size (see the Findings of README.md): the blocks as a
   * permutation ordered by block size, lower index first among equals.
   */
  method MakeBlocksPriorityList(g: Grid) returns (list: seq<Block>, ghost order: seq<int>)
    requires g.Valid() && forall b :: 0 <= b < |g.blocks| ==> |g.blocks[b].squares| <= g.size * g.size
    ensures |list| == |order| == g.nbBlocks
    ensures forall i :: 0 <= i < |order| ==> 0 <= order[i] < g.nbBlocks && list[i] == g.blocks[order[i]]
    ensures forall i, j :: 0 <= i < j < |order| ==> order[i] != order[j]
    ensures forall b :: 0 <= b < g.nbBlocks ==> b in order
    ensures forall i, j :: 0 <= i < j < |order| ==> Before(g.blocks, order[i], order[j])
    ensures forall i, j :: 0 <= i < j < |list| ==> |list[i].squares| <= |list[j].squares|
    ensures forall b :: 0 <= b < g.nbBlocks ==> g.blocks[b] in list
    ensures OrderBySize(g.blocks, order)
  {
    var blocks := g.blocks;
    var nb := g.nbBlocks;
    var limit := g.size * g.size + 1;
    var index := -1;
    var checked: seq<bool> := [];
    var i := 0;
    while i < nb
      invariant 0 <= i <= nb && |checked| == i
      invariant forall j :: 0 <= j < i ==> !checked[j]
    {
      checked := checked + [false];
      i := i + 1;
    }
    AllFalse(checked);
    list, order := [], [];
    i := 0;
    while i < nb
      invariant 0 <= i <= nb && |list| == |order| == i
      invariant Selection(blocks, checked, order)
      invariant forall k :: 0 <= k < i ==> list[k] == blocks[order[k]]
    {
      assert false in multiset(checked);
      index := SmallestUnchecked(blocks, checked, limit, index);
      SelectStep(blocks, checked, order, index);
      list := list + [blocks[index]];
      order := order + [index];
      checked := checked[index := true];
      i := i + 1;
    }
    SelectionDone(blocks, checked, order);
    ListOfOrder(blocks, list, order);
  }

  /** A list that takes the blocks in an order by size holds every block and is sorted by size. */
  lemma ListOfOrder(blocks: seq<Block>, list: seq<Block>, order: seq<int>)
    requires |list| == |order|
    requires forall i :: 0 <= i < |order| ==> 0 <= order[i] < |blocks| && list[i] == blocks[order[i]]
    requires forall b :: 0 <= b < |blocks| ==> b in order
    requires forall i, j :: 0 <= i < j < |order| ==> Before(blocks, order[i], order[j])
    ensures forall i, j :: 0 <= i < j < |list| ==> |list[i].squares| <= |list[j].squares|
    ensures forall b :: 0 <= b < |blocks| ==> blocks[b] in list
  {
    forall b | 0 <= b < |blocks|
      ensures blocks[b] in list
    {
      assert b in order;
      var k :| 0 <= k < |order| && order[k] == b;
      assert list[k] == blocks[b];
    }
  }

  // ---- make_blocks_priority_list as written

  /**
   * The inner scan of make_blocks_priority_list as written, over the block
   * sizes: index keeps its value from the previous selection (initially -1)
   * unless an unmarked block smaller than minSize comes along.
   */
  function ScanAsWritten(sizes: seq<int>, checked: seq<bool>, j: nat, minSize: int, index: int): (r: int)
    requires |checked| == |sizes| && j <= |sizes|
    ensures r == index || (j <= r < |sizes| && !checked[r] && sizes[r] < minSize)
    decreases |sizes| - j
  {
    if j == |sizes| then index
    else if !checked[j] && sizes[j] < minSize then ScanAsWritten(sizes, checked, j + 1, sizes[j], j)
    else ScanAsWritten(sizes, checked, j + 1, minSize, index)
  }

  /** The outer loop of make_blocks_priority_list as written: min_size restarts at the grid size. */
  function PriorityAsWritten(sizes: seq<int>, size: int, checked: seq<bool>, i: nat, index: int): (r: seq<int>)
    requires |checked| == |sizes| && i <= |sizes|
    ensures |r| == |sizes| - i
    decreases |sizes| - i
  {
    if i == |sizes| then []
    else
      var idx := ScanAsWritten(sizes, checked, 0, size, index);
      [idx] + PriorityAsWritten(sizes, size, if 0 <= idx < |checked| then checked[idx := true] else checked,
                                i + 1, idx)
  }

  /**
   * As written, every listed index is the stale starting index or a block
   * with fewer than size cells: a block of size or more cells is never
   * listed, whatever the other blocks.
   */
  lemma {:induction false} PriorityAsWrittenSkipsLarge(sizes: seq<int>, size: int, checked: seq<bool>, i: nat, index: int)
    requires |checked| == |sizes| && i <= |sizes|
    ensures forall k :: 0 <= k < |PriorityAsWritten(sizes, size, checked, i, index)| ==>
      var r := PriorityAsWritten(sizes, size, checked, i, index)[k];
      r == index || (0 <= r < |sizes| && sizes[r] < size)
    decreases |sizes| - i
  {
    if i < |sizes| {
      var idx := ScanAsWritten(sizes, checked, 0, size, index);
      var c' := if 0 <= idx < |checked| then checked[idx := true] else checked;
      PriorityAsWrittenSkipsLarge(sizes, size, c', i + 1, idx);
    }
  }

  /**
   * A 2 x 2 grid with a block of one cell and a block of three: the list as
   * written names the small block twice and never the large one.
   */
  lemma PriorityAsWrittenExample()
    ensures PriorityAsWritten([1, 3], 2, [false, false], 0, -1) == [0, 0]
  {
    assert ScanAsWritten([1, 3], [false, false], 0, 2, -1) == 0;
    assert ScanAsWritten([1, 3], [true, false], 0, 2, 0) == 0;
  }

  // ---- when every block is small, the list as written is the intended one

  /** order lists every block once, ordered by size, lower index first among equals. */
  predicate OrderBySize(blocks: seq<Block>, order: seq<int>)
  {
    |order| == |blocks|
    && (forall i :: 0 <= i < |order| ==> 0 <= order[i] < |blocks|)
    && (forall i, j :: 0 <= i < j < |order| ==> order[i] != order[j])
    && (forall b :: 0 <= b < |blocks| ==> b in order)
    && (forall i, j :: 0 <= i < j < |order| ==> Before(blocks, order[i], order[j]))
  }

  /** Past a common prefix, the next block of o2 is the next block of o1 or comes after it. */
  lemma NextInOrder(blocks: seq<Block>, o1: seq<int>, o2: seq<int>, k: nat)
    requires OrderBySize(blocks, o1) && OrderBySize(blocks, o2) && 0 < k <= |o1| && o1[..k - 1] == o2[..k - 1]
    ensures o2[k - 1] == o1[k - 1] || Before(blocks, o1[k - 1], o2[k - 1])
  {
    var y := o2[k - 1];
    assert y in o1;
    var l :| 0 <= l < |o1| && o1[l] == y;
    assert forall m :: 0 <= m < k - 1 ==> o1[m] == o1[..k - 1][m] == o2[m] != y;
    assert l >= k - 1;
  }

  /** Two orders of the blocks by size agree on every prefix. */
  lemma {:induction false} OrderBySizePrefix(blocks: seq<Block>, o1: seq<int>, o2: seq<int>, k: nat)
    requires OrderBySize(blocks, o1) && OrderBySize(blocks, o2) && k <= |o1|
    ensures o1[..k] == o2[..k]
  {
    if k > 0 {
      OrderBySizePrefix(blocks, o1, o2, k - 1);
      NextInOrder(blocks, o1, o2, k);
      NextInOrder(blocks, o2, o1, k);
      assert o1[k - 1] == o2[k - 1];
      assert o1[..k] == o1[..k - 1] + [o1[k - 1]] && o2[..k] == o2[..k - 1] + [o2[k - 1]];
    }
  }

  /** There is only one order of the blocks by size. */
  lemma OrderBySizeUnique(blocks: seq<Block>, o1: seq<int>, o2: seq<int>)
    requires OrderBySize(blocks, o1) && OrderBySize(blocks, o2)
    ensures o1 == o2
  {
    OrderBySizePrefix(blocks, o1, o2, |o1|);
    assert o1 == o1[..|o1|] && o2 == o2[..|o2|];
  }

  /** The state of ScanAsWritten at coordinate j, when every block is smaller than the starting bound. */
  predicate ScanSoFar(blocks: seq<Block>, checked: seq<bool>, j: nat, minSize: int, index: int, size: int)
    requires |checked| == |blocks| && j <= |blocks|
  {
    (minSize == size && forall j' :: 0 <= j' < j ==> checked[j'])
    || (0 <= index < j && !checked[index] && minSize == |blocks[index].squares|
        && forall j' :: 0 <= j' < j && !checked[j'] ==> j' == index || Before(blocks, index, j'))
  }

  /** With every block smaller than the bound, the scan as written finds the first smallest unmarked block. */
  lemma {:induction false} ScanAsWrittenFinds(blocks: seq<Block>, sizes: seq<int>, checked: seq<bool>, j: nat,
      minSize: int, index: int, size: int)
    requires |sizes| == |checked| == |blocks| && j <= |sizes|
    requires forall b :: 0 <= b < |blocks| ==> sizes[b] == |blocks[b].squares| < size
    requires false in checked && ScanSoFar(blocks, checked, j, minSize, index, size)
    ensures FirstSmallest(blocks, checked, ScanAsWritten(sizes, checked, j, minSize, index))
    decreases |sizes| - j
  {
    if j == |sizes| {
      var f :| 0 <= f < |checked| && checked[f] == false;
    } else if !checked[j] && sizes[j] < minSize {
      assert ScanSoFar(blocks, checked, j + 1, sizes[j], j, size);
      ScanAsWrittenFinds(blocks, sizes, checked, j + 1, sizes[j], j, size);
    } else {
      assert ScanSoFar(blocks, checked, j + 1, minSize, index, size);
      ScanAsWrittenFinds(blocks, sizes, checked, j + 1, minSize, index, size);
    }
  }

  lemma AppendCons(a: seq<int>, x: int, r: seq<int>)
    ensures a + ([x] + r) == (a + [x]) + r
  {
  }

  /** From a selection of i blocks, the rest of the list as written completes an order by size. */
  lemma {:induction false} PriorityAsWrittenSelects(blocks: seq<Block>, sizes: seq<int>, size: int, checked: seq<bool>,
      order: seq<int>, i: nat, index: int)
    requires |sizes| == |blocks| && forall b :: 0 <= b < |blocks| ==> sizes[b] == |blocks[b].squares| < size
    requires Selection(blocks, checked, order) && |order| == i <= |blocks|
    ensures OrderBySize(blocks, order + PriorityAsWritten(sizes, size, checked, i, index))
    decreases |sizes| - i
  {
    if i == |sizes| {
      SelectionDone(blocks, checked, order);
      assert order + [] == order;
    } else {
      assert false in multiset(checked);
      var idx := ScanAsWritten(sizes, checked, 0, size, index);
      ScanAsWrittenFinds(blocks, sizes, checked, 0, size, index, size);
      SelectStep(blocks, checked, order, idx);
      var rest := PriorityAsWritten(sizes, size, checked[idx := true], i + 1, idx);
      PriorityAsWrittenSelects(blocks, sizes, size, checked[idx := true], order + [idx], i + 1, idx);
      assert PriorityAsWritten(sizes, size, checked, i, index) == [idx] + rest;
      AppendCons(order, idx, rest);
    }
  }

  /**
   * When every block has fewer than size cells, the list as written is the
   * order by size: the one MakeBlocksPriorityList builds.
   */
  lemma PriorityAsWrittenWhenSmall(blocks: seq<Block>, sizes: seq<int>, size: int, order: seq<int>)
    requires |sizes| == |blocks| && forall b :: 0 <= b < |blocks| ==> sizes[b] == |blocks[b].squares| < size
    requires OrderBySize(blocks, order)
    ensures PriorityAsWritten(sizes, size, seq(|blocks|, _ => false), 0, -1) == order
  {
    var c := seq(|blocks|, _ => false);
    AllFalse(c);
    assert Selection(blocks, c, []);
    PriorityAsWrittenSelects(blocks, sizes, size, c, [], 0, -1);
    assert [] + PriorityAsWritten(sizes, size, c, 0, -1) == PriorityAsWritten(sizes, size, c, 0, -1);
    OrderBySizeUnique(blocks, PriorityAsWritten(sizes, size, c, 0, -1), order);
  }

  // ---- backtracking block by block

  /** Every cell of every listed block holds a value. */
  predicate ListFilled(b: seq<int>, size: int, list: seq<Block>)
    requires |b| == size * size && forall i :: 0 <= i < |list| ==> SquaresInGrid(list[i].squares, size)
  {
    forall i :: 0 <= i < |list| ==> FirstEmptyInBlock(b, size, list[i].squares) == NO_SQUARE
  }

  /**
   * solve_using_blocksize_sort_sub: fills the first empty cell of the first
   * listed block that has one, trying each value from 1 to size that is_valid
   * accepts in pruning mode, and recurses. On success every listed block is
   * full; on failure the board is as it was; cells holding a value are never
   * overwritten.
   */
  method SolveUsingBlocksizeSortSub(g: Grid, list: seq<Block>, nbSet: int, nbUnset: int, vrb: bool)
      returns (solved: bool, nbSet': int, nbUnset': int)
    requires Puzzle(g) && InRange(g.board[..], g.size)
    requires forall i :: 0 <= i < |list| ==> SquaresInGrid(list[i].squares, g.size)
    modifies g.board
    decreases Zeros(g.board[..]), 1
    ensures InRange(g.board[..], g.size)
    ensures solved ==> ListFilled(g.board[..], g.size, list)
    ensures solved ==> Extends(old(g.board[..]), g.board[..], g.size)
    ensures !solved ==> g.board[..] == old(g.board[..])
    ensures forall k :: 0 <= k < g.board.Length && old(g.board[k]) != 0 ==> g.board[k] == old(g.board[k])
    ensures !vrb ==> nbSet' == nbSet && nbUnset' == nbUnset
    ensures nbSet' >= nbSet && nbUnset' >= nbUnset
    ensures vrb && !solved ==> nbSet' - nbSet == nbUnset' - nbUnset
  {
    ghost var b0 := g.board[..];
    var i := 0;
    while i < |list|
      invariant 0 <= i <= |list| && g.board[..] == b0
      invariant forall i' :: 0 <= i' < i ==> FirstEmptyInBlock(b0, g.size, list[i'].squares) == NO_SQUARE
    {
      var empty := g.FindEmptySquareInBlock(list[i]);
      if empty.x != -1 && empty.y != -1 {
        solved, nbSet', nbUnset' := TryValues(g, list, empty, nbSet, nbUnset, vrb);
        return;
      }
      i := i + 1;
    }
    return true, nbSet, nbUnset;
  }

  /**
   * The value loop of solve_using_blocksize_sort_sub at the empty cell it
   * found: each value from 1 to size that is_valid accepts in pruning mode is
   * written, the search recurses, and the write is undone if it fails.
   */
  method TryValues(g: Grid, list: seq<Block>, empty: Location, nbSet: int, nbUnset: int, vrb: bool)
      returns (solved: bool, nbSet': int, nbUnset': int)
    requires Puzzle(g) && InRange(g.board[..], g.size)
    requires forall i :: 0 <= i < |list| ==> SquaresInGrid(list[i].squares, g.size)
    requires InGrid(empty, g.size) && g.board[Index(empty.x, empty.y, g.size)] == 0
    modifies g.board
    decreases Zeros(g.board[..]), 0
    ensures InRange(g.board[..], g.size)
    ensures solved ==> ListFilled(g.board[..], g.size, list)
    ensures solved ==> Extends(old(g.board[..]), g.board[..], g.size)
    ensures !solved ==> g.board[..] == old(g.board[..])
    ensures forall k :: 0 <= k < g.board.Length && old(g.board[k]) != 0 ==> g.board[k] == old(g.board[k])
    ensures !vrb ==> nbSet' == nbSet && nbUnset' == nbUnset
    ensures nbSet' >= nbSet && nbUnset' >= nbUnset
    ensures vrb && !solved ==> nbSet' - nbSet == nbUnset' - nbUnset
  {
    ghost var b0 := g.board[..];
    nbSet', nbUnset' := nbSet, nbUnset;
    var p := Index(empty.x, empty.y, g.size);
    var val := 1;
    while val <= g.size
      invariant 1 <= val <= g.size + 1
      invariant g.board[..] == b0
      invariant !vrb ==> nbSet' == nbSet && nbUnset' == nbUnset
      invariant nbSet' >= nbSet && nbUnset' >= nbUnset
      invariant nbSet' - nbSet == nbUnset' - nbUnset
    {
      var ok := IsValid(g, true, empty, val);
      if ok {
        if vrb { nbSet' := nbSet' + 1; }
        g.board[p] := val;
        ghost var b1 := g.board[..];
        assert b1 == b0[p := val];
        ZerosWrite(b0, p, val);
        var sub;
        sub, nbSet', nbUnset' := SolveUsingBlocksizeSortSub(g, list, nbSet', nbUnset', vrb);
        if sub {
          ExtendsWrite(b0, b1, g.board[..], g.size, empty.x, empty.y, val);
          return true, nbSet', nbUnset';
        }
        if vrb { nbUnset' := nbUnset' + 1; }
        g.board[p] := 0;
        UndoWrite(b0, p, val);
      }
      val := val + 1;
    }
    return false, nbSet', nbUnset';
  }

  /** Every cell of a well-formed puzzle lies in the block its number names. */
  lemma CellsCovered(size: int, bb: seq<int>, blocks: seq<Block>)
    requires WellFormed(size, bb, blocks)
    ensures forall k :: 0 <= k < |bb| ==>
      0 <= bb[k] - 1 < |blocks| && LocationOf(k, size) in blocks[bb[k] - 1].squares
  {
    forall k | 0 <= k < |bb|
      ensures LocationOf(k, size) in blocks[bb[k] - 1].squares
    {
      CellInBlock(size, bb, blocks, LocationOf(k, size));
    }
  }

  /** A list naming every block, all of them full, leaves no cell empty. */
  lemma ListCoversBoard(b: seq<int>, size: int, bb: seq<int>, blocks: seq<Block>, list: seq<Block>, order: seq<int>)
    requires 0 <= size && |b| == size * size && |bb| == size * size
    requires forall k :: 0 <= k < |bb| ==>
      0 <= bb[k] - 1 < |blocks| && LocationOf(k, size) in blocks[bb[k] - 1].squares
    requires |list| == |order| && forall i :: 0 <= i < |order| ==> 0 <= order[i] < |blocks| && list[i] == blocks[order[i]]
    requires forall id :: 0 <= id < |blocks| ==> id in order
    requires forall i :: 0 <= i < |list| ==> SquaresInGrid(list[i].squares, size)
    requires ListFilled(b, size, list)
    ensures forall k :: 0 <= k < |b| ==> b[k] != 0
  {
    forall k | 0 <= k < |b|
      ensures b[k] != 0
    {
      var loc := LocationOf(k, size);
      var id := bb[k] - 1;
      assert id in order;
      var i :| 0 <= i < |order| && order[i] == id;
      var m :| 0 <= m < |list[i].squares| && list[i].squares[m] == loc;
      assert FirstEmptyInBlock(b, size, list[i].squares) == NO_SQUARE;
    }
  }

  /**
   * solve_using_blocksize_sort: builds the priority list and runs the block
   * by block search in pruning mode. On success no cell is empty.
   */
  method SolveUsingBlocksizeSort(g: Grid, nbSet: int, nbUnset: int, vrb: bool)
      returns (solved: bool, nbSet': int, nbUnset': int)
    requires Puzzle(g) && InRange(g.board[..], g.size)
    modifies g.board
    ensures InRange(g.board[..], g.size)
    ensures solved ==> forall k :: 0 <= k < g.board.Length ==> g.board[k] != 0
    ensures solved ==> Extends(old(g.board[..]), g.board[..], g.size)
    ensures !solved ==> g.board[..] == old(g.board[..])
    ensures forall k :: 0 <= k < g.board.Length && old(g.board[k]) != 0 ==> g.board[k] == old(g.board[k])
    ensures !vrb ==> nbSet' == nbSet && nbUnset' == nbUnset
    ensures nbSet' >= nbSet && nbUnset' >= nbUnset
    ensures vrb && !solved ==> nbSet' - nbSet == nbUnset' - nbUnset
  {
    BlockSizeBound(g.size, g.blockBoard[..], g.blocks);
    var list;
    ghost var order;
    list, order := MakeBlocksPriorityList(g);
    forall i | 0 <= i < |list|
      ensures SquaresInGrid(list[i].squares, g.size)
    {
      BlockInGrid(g.size, g.blockBoard[..], g.blocks, order[i]);
    }
    solved, nbSet', nbUnset' := SolveUsingBlocksizeSortSub(g, list, nbSet, nbUnset, vrb);
    if solved {
      CellsCovered(g.size, g.blockBoard[..], g.blocks);
      ListCoversBoard(g.board[..], g.size, g.blockBoard[..], g.blocks, list, order);
    }
  }
}
