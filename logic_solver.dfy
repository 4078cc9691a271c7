/**
 * The logic solver (src/logic_solver.c). Each cell carries a bitmap of the
 * values still possible for it (bit v-1 for value v). Block bounds, the
 * Latin-square rule and the naked-pair rule clear bits; the recursive step
 * places a value, prunes a private copy of the bitmaps, and goes on with a
 * cell that has one candidate left, or tries the candidates of the first cell
 * that has any.
 */
module LogicSolver {
  import opened Bitmaps
  import opened GridModel
  import opened Solver
  import opened Bruteforce

  // ---- the full masks

  /** make_possib_grid: every cell may take every value 1 .. size. */
  method MakePossibGrid(g: Grid, possib: array<Bitmap>)
    requires g.Valid() && g.size <= WIDTH && possib.Length == g.size * g.size
    modifies possib
    ensures forall k :: 0 <= k < possib.Length ==> possib[k] == LowMask(g.size)
  {
    ghost var done := 0;
    var i := 0;
    while i < g.size
      invariant 0 <= i <= g.size && done == i * g.size
      invariant forall k :: 0 <= k < done ==> possib[k] == LowMask(g.size)
    {
      RowEnd(i, done, g.size);
      var j := 0;
      while j < g.size
        invariant 0 <= j <= g.size
        invariant forall k :: 0 <= k < done + j ==> possib[k] == LowMask(g.size)
      {
        RowStep(i, j, done, g.size);
        var idx := Index(i, j, g.size);
        possib[idx] := 0;
        var k := 0;
        while k < g.size
          invariant 0 <= k <= g.size && possib[idx] == LowMask(k)
          invariant forall k' :: 0 <= k' < done + j ==> possib[k'] == LowMask(g.size)
        {
          possib[idx] := SetBit(possib[idx], k);
          k := k + 1;
        }
        j := j + 1;
      }
      i := i + 1;
      done := done + g.size;
    }
  }

  /** Every full mask has exactly the bits of the values 1 .. size, and size of them. */
  lemma FullMaskMeaning(size: nat)
    requires size <= WIDTH
    ensures forall q :: 0 <= q < WIDTH ==> (IsSet(LowMask(size), q) <==> q < size)
    ensures PopCount(LowMask(size)) == size
  {
    forall q | 0 <= q < WIDTH
      ensures IsSet(LowMask(size), q) <==> q < size
    {
      LowMaskBit(size, q);
    }
    PopCountLowMask(size);
  }

  // ---- the searches

  /**
   * find_next_possibility_pos: the first position in row-major order whose
   * mask is not empty, with its lowest candidate value; -1, and val left as
   * it was, when every mask is empty.
   */
  method FindNextPossibilityPos(g: Grid, possib: array<Bitmap>, val0: int) returns (pos: int, val: int)
    requires g.Valid() && possib.Length == g.size * g.size
    ensures pos == -1 <==> forall k :: 0 <= k < possib.Length ==> PopCount(possib[k]) == 0
    ensures pos != -1 ==> 0 <= pos < possib.Length && PopCount(possib[pos]) != 0
                          && (forall k :: 0 <= k < pos ==> PopCount(possib[k]) == 0)
                          && val == RightmostSetBit(possib[pos])
    ensures pos == -1 ==> val == val0
  {
    ghost var done := 0;
    var i := 0;
    while i < g.size
      invariant 0 <= i <= g.size && done == i * g.size
      invariant forall k :: 0 <= k < done ==> PopCount(possib[k]) == 0
    {
      MulMono(i + 1, g.size, g.size);
      var j := 0;
      while j < g.size
        invariant 0 <= j <= g.size && done + j <= possib.Length
        invariant forall k :: 0 <= k < done + j ==> PopCount(possib[k]) == 0
      {
        RowStep(i, j, done, g.size);
        var count := GetSetBitsNumber(possib[Index(i, j, g.size)]);
        if count != 0 {
          return Index(i, j, g.size), RightmostSetBit(possib[Index(i, j, g.size)]);
        }
        j := j + 1;
      }
      i := i + 1;
      done := done + g.size;
    }
    return -1, val0;
  }

  /**
   * find_single_possibility_pos: the first position in row-major order whose
   * mask has exactly one candidate, with that candidate; -1, and val left as
   * it was, when there is none.
   */
  method FindSinglePossibilityPos(g: Grid, possib: array<Bitmap>, val0: int) returns (pos: int, val: int)
    requires g.Valid() && possib.Length == g.size * g.size
    ensures pos == -1 <==> forall k :: 0 <= k < possib.Length ==> PopCount(possib[k]) != 1
    ensures pos != -1 ==> 0 <= pos < possib.Length && PopCount(possib[pos]) == 1
                          && (forall k :: 0 <= k < pos ==> PopCount(possib[k]) != 1)
                          && val == RightmostSetBit(possib[pos])
    ensures pos == -1 ==> val == val0
  {
    ghost var done := 0;
    var i := 0;
    while i < g.size
      invariant 0 <= i <= g.size && done == i * g.size
      invariant forall k :: 0 <= k < done ==> PopCount(possib[k]) != 1
    {
      MulMono(i + 1, g.size, g.size);
      var j := 0;
      while j < g.size
        invariant 0 <= j <= g.size && done + j <= possib.Length
        invariant forall k :: 0 <= k < done + j ==> PopCount(possib[k]) != 1
      {
        RowStep(i, j, done, g.size);
        var count := GetSetBitsNumber(possib[Index(i, j, g.size)]);
        if count == 1 {
          return Index(i, j, g.size), RightmostSetBit(possib[Index(i, j, g.size)]);
        }
        j := j + 1;
      }
      i := i + 1;
      done := done + g.size;
    }
    return -1, val0;
  }

  // ---- the Latin-square rule

  /** Positions k and p share a row or a column. */
  predicate SameLine(k: int, p: int, size: int)
    requires 0 < size
  {
    k / size == p / size || k % size == p % size
  }

  /**
   * The masks after apply_latin_squares_rule at p with value v: p has no
   * candidate left, and v is no longer a candidate anywhere in its row or
   * column.
   */
  function LatinRuleResult(m: seq<Bitmap>, size: int, p: int, v: int): (r: seq<Bitmap>)
    requires 0 < size && |m| == size * size && 0 <= p < |m| && 1 <= v <= WIDTH
    ensures |r| == |m|
  {
    seq(|m|, k requires 0 <= k < |m| =>
      if k == p then 0 else if SameLine(k, p, size) then UnsetBit(m[k], v - 1) else m[k])
  }

  /**
   * apply_latin_squares_rule: clears the mask at position, then clears the
   * bit of the value written there from every cell of its row and column.
   */
  method ApplyLatinSquaresRule(g: Grid, possib: array<Bitmap>, position: int)
    requires g.Valid() && possib.Length == g.size * g.size && 0 <= position < possib.Length
    requires 1 <= g.board[position] <= g.size <= WIDTH
    modifies possib
    ensures possib[..] == LatinRuleResult(old(possib[..]), g.size, position, g.board[position])
  {
    PositiveSide(position, g.size);
    DivisionBounds(position, g.size);
    ghost var m0 := possib[..];
    var x := position / g.size;
    var y := position % g.size;
    var val := g.board[position];
    possib[position] := AndNot(possib[position], possib[position]);
    AndNotSelf(m0[position]);
    IndexOfPosition(position, g.size);
    var i := 0;
    while i < g.size
      invariant 0 <= i <= g.size
      invariant LatinPartial(m0, possib[..], g.size, x, y, val, i)
    {
      ClearLineBits(possib, m0, g.size, x, y, val, i);
      i := i + 1;
    }
    IndexOfPosition(position, g.size);
    LatinRuleFromLines(m0, possib[..], g.size, x, y, val);
  }

  /** One turn of the loop of apply_latin_squares_rule: cell i of row x and cell i of column y lose bit val-1. */
  method ClearLineBits(possib: array<Bitmap>, ghost m0: seq<Bitmap>, size: int, x: int, y: int, val: int, i: int)
    requires 0 <= x < size && 0 <= y < size && possib.Length == size * size && |m0| == size * size
    requires 1 <= val <= WIDTH && 0 <= i < size
    requires LatinPartial(m0, possib[..], size, x, y, val, i)
    modifies possib
    ensures LatinPartial(m0, possib[..], size, x, y, val, i + 1)
  {
    ghost var s := possib[..];
    LatinStep(m0, s, size, x, y, val, i);
    var r := Index(x, i, size);
    possib[r] := UnsetBit(possib[r], val - 1);
    var c := Index(i, y, size);
    possib[c] := UnsetBit(possib[c], val - 1);
    assert possib[..] == s[r := UnsetBit(s[r], val - 1)][c := UnsetBit(s[r := UnsetBit(s[r], val - 1)][c], val - 1)];
  }

  /**
   * The state of apply_latin_squares_rule after i rounds of its loop: the
   * cell (x, y) is cleared, the first i cells of row x and of column y have
   * lost bit v-1, and every other cell is as it was.
   */
  ghost predicate LatinPartial(m0: seq<Bitmap>, m1: seq<Bitmap>, size: int, x: int, y: int, v: int, i: int)
    requires 0 <= x < size && 0 <= y < size && |m0| == |m1| == size * size && 1 <= v <= WIDTH
  {
    (forall c :: 0 <= c < size ==>
      m1[Index(x, c, size)] == (if c == y then 0 else if c < i then UnsetBit(m0[Index(x, c, size)], v - 1) else m0[Index(x, c, size)]))
    && (forall r :: 0 <= r < size ==>
      m1[Index(r, y, size)] == (if r == x then 0 else if r < i then UnsetBit(m0[Index(r, y, size)], v - 1) else m0[Index(r, y, size)]))
    && (forall k :: 0 <= k < |m0| && k / size != x && k % size != y ==> m1[k] == m0[k])
  }

  lemma LatinStep(m0: seq<Bitmap>, m1: seq<Bitmap>, size: int, x: int, y: int, v: int, i: int)
    requires 0 <= x < size && 0 <= y < size && |m0| == |m1| == size * size && 1 <= v <= WIDTH
    requires 0 <= i < size && LatinPartial(m0, m1, size, x, y, v, i)
    ensures var r := Index(x, i, size);
      var m2 := m1[r := UnsetBit(m1[r], v - 1)];
      var c := Index(i, y, size);
      LatinPartial(m0, m2[c := UnsetBit(m2[c], v - 1)], size, x, y, v, i + 1)
  {
    UnsetZero(v - 1);
    var r := Index(x, i, size);
    var m2 := m1[r := UnsetBit(m1[r], v - 1)];
    var c := Index(i, y, size);
    var m3 := m2[c := UnsetBit(m2[c], v - 1)];
    forall col | 0 <= col < size
      ensures m3[Index(x, col, size)] == (if col == y then 0 else if col < i + 1 then UnsetBit(m0[Index(x, col, size)], v - 1) else m0[Index(x, col, size)])
    {
      var k := Index(x, col, size);
      assert k == r <==> col == i;
      assert k == c <==> (x == i && col == y);
    }
    forall row | 0 <= row < size
      ensures m3[Index(row, y, size)] == (if row == x then 0 else if row < i + 1 then UnsetBit(m0[Index(row, y, size)], v - 1) else m0[Index(row, y, size)])
    {
      var k := Index(row, y, size);
      assert k == c <==> row == i;
      assert k == r <==> (row == x && i == y);
    }
    forall k | 0 <= k < |m0| && k / size != x && k % size != y
      ensures m3[k] == m0[k]
    {
      assert k != r && k != c;
    }
  }

  /** Reassembles the row, the column and the rest into LatinRuleResult. */
  lemma LatinRuleFromLines(m0: seq<Bitmap>, m1: seq<Bitmap>, size: int, x: int, y: int, v: int)
    requires 0 <= x < size && 0 <= y < size && |m0| == |m1| == size * size && 1 <= v <= WIDTH
    requires forall c :: 0 <= c < size ==>
      m1[Index(x, c, size)] == (if c == y then 0 else UnsetBit(m0[Index(x, c, size)], v - 1))
    requires forall r :: 0 <= r < size ==>
      m1[Index(r, y, size)] == (if r == x then 0 else UnsetBit(m0[Index(r, y, size)], v - 1))
    requires forall k :: 0 <= k < |m0| && k / size != x && k % size != y ==> m1[k] == m0[k]
    ensures m1 == LatinRuleResult(m0, size, Index(x, y, size), v)
  {
    var p := Index(x, y, size);
    var r := LatinRuleResult(m0, size, p, v);
    forall k | 0 <= k < |m0|
      ensures m1[k] == r[k]
    {
      IndexOfPosition(k, size);
      if k / size == x {
        assert m1[Index(x, k % size, size)] == m1[k];
      } else if k % size == y {
        assert m1[Index(k / size, y, size)] == m1[k];
      }
    }
  }

  lemma AndNotSelf(a: Bitmap)
    ensures AndNot(a, a) == 0
  {
    AndNotSubMask(a, a);
    forall q | 0 <= q < WIDTH
      ensures IsSet(AndNot(a, a), q) == IsSet(0, q)
    {
      IsSetAndNot(a, a, q);
      IsSetZero(q);
    }
    SameBits(AndNot(a, a), 0);
  }

  lemma UnsetZero(p: nat)
    requires p < WIDTH
    ensures UnsetBit(0, p) == 0
  {
  }

  /**
   * The Latin-square rule at p: p has no candidate left, bit v-1 is clear in
   * every cell of p's row and column, and every other bit of every cell is as
   * it was.
   */
  lemma LatinRuleBits(m: seq<Bitmap>, size: int, p: int, v: int, k: int, q: nat)
    requires 0 < size && |m| == size * size && 0 <= p < |m| && 1 <= v <= WIDTH
    requires 0 <= k < |m| && q < WIDTH
    ensures var r := LatinRuleResult(m, size, p, v);
      IsSet(r[k], q) == (k != p && IsSet(m[k], q) && !(q == v - 1 && SameLine(k, p, size)))
  {
    var r := LatinRuleResult(m, size, p, v);
    if k == p {
      IsSetZero(q);
    } else if SameLine(k, p, size) {
      if q != v - 1 {
        UnsetBitOther(m[k], v - 1, q);
      }
    }
  }

  // ---- the block bounds

  /**
   * The block-level reasons remove_impossible_possibilities has to drop num
   * from a cell of bl: for '+', num alone exceeds the goal, or even the
   * largest values in the other cells cannot reach it, or the smallest ones
   * overshoot it; for 'x', num does not divide the goal; for '-' and '/',
   * num is at most (below) the goal, so it is the smaller operand, and the
   * larger one would exceed size. Any other operator drops nothing.
   */
  predicate Impossible(bl: Block, num: int, size: int)
    requires num >= 1
  {
    match bl.opr
    case '+' => num > bl.goal || num + (|bl.squares| - 1) * size < bl.goal || num + |bl.squares| - 1 > bl.goal
    case 'x' => CRem(bl.goal, num) != 0
    case '-' => num <= bl.goal && num + bl.goal > size
    case '/' => num < bl.goal && num * bl.goal > size
    case _ => false
  }

  /** A mask after the num loop of one cell of bl has run for num = 1 .. n. */
  function StrikeNums(m: Bitmap, bl: Block, size: int, n: nat): Bitmap
    requires n <= WIDTH
  {
    if n == 0 then m
    else
      var m' := StrikeNums(m, bl, size, n - 1);
      if Impossible(bl, n, size) then UnsetBit(m', n - 1) else m'
  }

  /** The first j squares of bl are processed. */
  function StrikeSquares(p: seq<Bitmap>, bl: Block, size: int, j: nat): (r: seq<Bitmap>)
    requires 0 <= size <= WIDTH && |p| == size * size
    requires SquaresInGrid(bl.squares, size) && j <= |bl.squares|
    ensures |r| == |p|
  {
    if j == 0 then p
    else
      var p' := StrikeSquares(p, bl, size, j - 1);
      var idx := Index(bl.squares[j - 1].x, bl.squares[j - 1].y, size);
      p'[idx := StrikeNums(p'[idx], bl, size, size)]
  }

  /** The first i blocks are processed. */
  function StrikeBlocks(p: seq<Bitmap>, blocks: seq<Block>, size: int, i: nat): (r: seq<Bitmap>)
    requires 0 <= size <= WIDTH && |p| == size * size && i <= |blocks|
    requires forall b :: 0 <= b < |blocks| ==> SquaresInGrid(blocks[b].squares, size)
    ensures |r| == |p|
  {
    if i == 0 then p
    else StrikeSquares(StrikeBlocks(p, blocks, size, i - 1), blocks[i - 1], size, |blocks[i - 1].squares|)
  }

  /** Number of squares over all the blocks. */
  function SquareCount(blocks: seq<Block>): nat
  {
    if blocks == [] then 0 else SquareCount(blocks[..|blocks| - 1]) + |blocks[|blocks| - 1].squares|
  }

  /** One of the first j squares is the cell at position k. */
  predicate CoversUpTo(squares: seq<Location>, size: int, k: int, j: int)
    requires 0 <= j <= |squares|
  {
    exists j' :: 0 <= j' < j && InGrid(squares[j'], size) && Index(squares[j'].x, squares[j'].y, size) == k
  }

  /** One of the first i blocks covers position k and rules num out. */
  predicate Struck(blocks: seq<Block>, size: int, k: int, num: int, i: int)
    requires 0 <= i <= |blocks| && num >= 1
  {
    exists b :: 0 <= b < i && CoversUpTo(blocks[b].squares, size, k, |blocks[b].squares|) && Impossible(blocks[b], num, size)
  }

  /**
   * remove_impossible_possibilities: for every square of every block, clears
   * the bit of each value 1 .. size the block's bounds rule out; the counter
   * goes up by size per square when vrb.
   */
  method RemoveImpossiblePossibilities(g: Grid, possib: array<Bitmap>, nbRmPossib: int, vrb: bool) returns (nb: int)
    requires g.Valid() && g.size <= WIDTH && possib.Length == g.size * g.size
    requires forall b :: 0 <= b < |g.blocks| ==> SquaresInGrid(g.blocks[b].squares, g.size)
    modifies possib
    ensures possib[..] == StrikeBlocks(old(possib[..]), g.blocks, g.size, |g.blocks|)
    ensures nb == (if vrb then nbRmPossib + g.size * SquareCount(g.blocks) else nbRmPossib)
  {
    ghost var m0 := possib[..];
    nb := nbRmPossib;
    var i := 0;
    while i < g.nbBlocks
      invariant 0 <= i <= |g.blocks|
      invariant possib[..] == StrikeBlocks(m0, g.blocks, g.size, i)
      invariant nb == (if vrb then nbRmPossib + g.size * SquareCount(g.blocks[..i]) else nbRmPossib)
    {
      nb := StrikeBlock(g, possib, g.blocks[i], nb, vrb);
      SquareCountStep(g.blocks, i, g.size);
      i := i + 1;
    }
    assert g.blocks[..i] == g.blocks;
  }

  /** The squares loop of remove_impossible_possibilities, for one block. */
  method StrikeBlock(g: Grid, possib: array<Bitmap>, block: Block, nb0: int, vrb: bool) returns (nb: int)
    requires g.Valid() && g.size <= WIDTH && possib.Length == g.size * g.size
    requires SquaresInGrid(block.squares, g.size)
    modifies possib
    ensures possib[..] == StrikeSquares(old(possib[..]), block, g.size, |block.squares|)
    ensures nb == (if vrb then nb0 + g.size * |block.squares| else nb0)
  {
    ghost var base := possib[..];
    nb := nb0;
    var j := 0;
    while j < |block.squares|
      invariant 0 <= j <= |block.squares|
      invariant possib[..] == StrikeSquares(base, block, g.size, j)
      invariant nb == (if vrb then nb0 + g.size * j else nb0)
    {
      var idx := Index(block.squares[j].x, block.squares[j].y, g.size);
      ghost var cell := possib[..];
      var num := 1;
      while num <= g.size
        invariant 1 <= num <= g.size + 1
        invariant possib[..] == cell[idx := StrikeNums(cell[idx], block, g.size, num - 1)]
        invariant nb == (if vrb then nb0 + g.size * j + (num - 1) else nb0)
      {
        if Impossible(block, num, g.size) {
          possib[idx] := UnsetBit(possib[idx], num - 1);
        }
        if vrb {
          nb := nb + 1;
        }
        num := num + 1;
      }
      assert g.size * (j + 1) == g.size * j + g.size;
      assert possib[..] == StrikeSquares(base, block, g.size, j + 1);
      j := j + 1;
    }
  }

  lemma SquareCountStep(blocks: seq<Block>, i: int, size: int)
    requires 0 <= i < |blocks|
    ensures size * SquareCount(blocks[..i + 1]) == size * SquareCount(blocks[..i]) + size * |blocks[i].squares|
  {
    assert blocks[..i + 1][..i] == blocks[..i];
    var a := SquareCount(blocks[..i]);
    assert SquareCount(blocks[..i + 1]) == a + |blocks[i].squares|;
    assert size * (a + |blocks[i].squares|) == size * a + size * |blocks[i].squares|;
  }

  lemma StrikeNumsBits(m: Bitmap, bl: Block, size: int, n: nat, q: nat)
    requires n <= WIDTH && q < WIDTH
    ensures IsSet(StrikeNums(m, bl, size, n), q) == (IsSet(m, q) && !(q < n && Impossible(bl, q + 1, size)))
  {
    if n > 0 {
      StrikeNumsBits(m, bl, size, n - 1, q);
      var m' := StrikeNums(m, bl, size, n - 1);
      if Impossible(bl, n, size) && q != n - 1 {
        UnsetBitOther(m', n - 1, q);
      }
    }
  }

  lemma {:induction false} StrikeSquaresBits(p: seq<Bitmap>, bl: Block, size: int, j: nat, k: int, q: nat)
    requires 0 <= size <= WIDTH && |p| == size * size
    requires SquaresInGrid(bl.squares, size) && j <= |bl.squares|
    requires 0 <= k < |p| && q < WIDTH
    ensures IsSet(StrikeSquares(p, bl, size, j)[k], q)
         == (IsSet(p[k], q) && !(q < size && CoversUpTo(bl.squares, size, k, j) && Impossible(bl, q + 1, size)))
  {
    if j > 0 {
      StrikeSquaresBits(p, bl, size, j - 1, k, q);
      var p' := StrikeSquares(p, bl, size, j - 1);
      var idx := Index(bl.squares[j - 1].x, bl.squares[j - 1].y, size);
      if k == idx {
        StrikeNumsBits(p'[idx], bl, size, size, q);
        assert CoversUpTo(bl.squares, size, k, j);
      } else {
        assert CoversUpTo(bl.squares, size, k, j) == CoversUpTo(bl.squares, size, k, j - 1);
      }
    }
  }

  lemma {:induction false} StrikeBlocksBits(p: seq<Bitmap>, blocks: seq<Block>, size: int, i: nat, k: int, q: nat)
    requires 0 <= size <= WIDTH && |p| == size * size && i <= |blocks|
    requires forall b :: 0 <= b < |blocks| ==> SquaresInGrid(blocks[b].squares, size)
    requires 0 <= k < |p| && q < WIDTH
    ensures IsSet(StrikeBlocks(p, blocks, size, i)[k], q)
         == (IsSet(p[k], q) && !(q < size && Struck(blocks, size, k, q + 1, i)))
  {
    if i > 0 {
      StrikeBlocksBits(p, blocks, size, i - 1, k, q);
      var bl := blocks[i - 1];
      StrikeSquaresBits(StrikeBlocks(p, blocks, size, i - 1), bl, size, |bl.squares|, k, q);
      if q < size {
        assert Struck(blocks, size, k, q + 1, i)
          <==> Struck(blocks, size, k, q + 1, i - 1)
               || (CoversUpTo(bl.squares, size, k, |bl.squares|) && Impossible(bl, q + 1, size));
      }
    }
  }

  /**
   * remove_impossible_possibilities only ever clears bits: a value stays a
   * candidate of cell k exactly when it was one and no block covering k
   * rules it out.
   */
  lemma RemoveImpossibleMeaning(p: seq<Bitmap>, blocks: seq<Block>, size: int, k: int, q: nat)
    requires 0 <= size <= WIDTH && |p| == size * size
    requires forall b :: 0 <= b < |blocks| ==> SquaresInGrid(blocks[b].squares, size)
    requires 0 <= k < |p| && q < WIDTH
    ensures var r := StrikeBlocks(p, blocks, size, |blocks|);
      IsSet(r[k], q) == (IsSet(p[k], q) && !(q < size && Struck(blocks, size, k, q + 1, |blocks|)))
  {
    StrikeBlocksBits(p, blocks, size, |blocks|, k, q);
  }

  // ---- the naked-subset rule

  /**
   * One clearing sweep of apply_naked_subset_rule: along row `line` (isRow)
   * or column `line`, every cell except the two at coordinates keepA and
   * keepB along the line loses the bits of mask.
   */
  datatype Sweep = Sweep(isRow: bool, line: int, keepA: int, keepB: int, mask: Bitmap)

  /** What every recorded sweep satisfies: a pair of distinct cells of one line, with subsetSize candidates. */
  predicate SweepOk(s: Sweep, size: int, subsetSize: int)
  {
    0 <= s.line < size && 0 <= s.keepA < s.keepB < size && PopCount(s.mask) == subsetSize
  }

  /** The position of the cell at coordinate j along the sweep's line. */
  function CellOf(s: Sweep, size: int, j: int): (k: int)
    requires 0 <= s.line < size && 0 <= j < size
    ensures 0 <= k < size * size
  {
    LineCell(s.isRow, s.line, j, size)
  }

  /** The masks after the sweep has visited coordinates 0 .. j-1 of its line. */
  function SweepUpTo(m: seq<Bitmap>, s: Sweep, size: int, j: nat): (r: seq<Bitmap>)
    requires |m| == size * size && 0 <= s.line < size && j <= size
    ensures |r| == |m|
  {
    if j == 0 then m
    else
      var r := SweepUpTo(m, s, size, j - 1);
      if j - 1 == s.keepA || j - 1 == s.keepB then r
      else r[CellOf(s, size, j - 1) := AndNot(r[CellOf(s, size, j - 1)], s.mask)]
  }

  /** Every sweep of the log runs along a line of the grid. */
  predicate LinesOk(log: seq<Sweep>, size: int)
  {
    forall t :: 0 <= t < |log| ==> 0 <= log[t].line < size
  }

  /** The masks after a whole log of sweeps, in order. */
  function ApplySweeps(m: seq<Bitmap>, log: seq<Sweep>, size: int): (r: seq<Bitmap>)
    requires |m| == size * size && LinesOk(log, size)
    ensures |r| == |m|
  {
    if log == [] then m
    else SweepUpTo(ApplySweeps(m, log[..|log| - 1], size), log[|log| - 1], size, size)
  }

  /** The sweep s, by the time it reaches coordinate j, has cleared cell k. */
  predicate SweptUpTo(s: Sweep, size: int, k: int, j: int)
    requires 0 <= s.line < size && j <= size
  {
    exists j' :: 0 <= j' < j && j' != s.keepA && j' != s.keepB && CellOf(s, size, j') == k
  }

  /** The inner j loop of apply_naked_subset_rule: one sweep along a row or a column. */
  method SweepLine(g: Grid, possib: array<Bitmap>, s: Sweep)
    requires g.Valid() && possib.Length == g.size * g.size && 0 <= s.line < g.size
    modifies possib
    ensures possib[..] == SweepUpTo(old(possib[..]), s, g.size, g.size)
  {
    ghost var m0 := possib[..];
    var j := 0;
    while j < g.size
      invariant 0 <= j <= g.size
      invariant possib[..] == SweepUpTo(m0, s, g.size, j)
    {
      if j != s.keepA && j != s.keepB {
        var idx := CellOf(s, g.size, j);
        possib[idx] := AndNot(possib[idx], s.mask);
      }
      j := j + 1;
    }
  }

  /** The position of the cell at coordinate i along row `line` (isRow) or column `line`. */
  function LineCell(isRow: bool, line: int, i: int, size: int): (k: int)
    requires 0 <= line < size && 0 <= i < size
    ensures 0 <= k < size * size
  {
    var (r, c) := if isRow then (line, i) else (i, line);
    MulMono(r, size - 1, size);
    r * size + c
  }

  /** LineCell is the index of the cell, and division by the side recovers its coordinates. */
  lemma LineCellCoords(isRow: bool, line: int, i: int, size: int)
    requires 0 <= line < size && 0 <= i < size
    ensures isRow ==> LineCell(isRow, line, i, size) == Index(line, i, size)
    ensures !isRow ==> LineCell(isRow, line, i, size) == Index(i, line, size)
    ensures isRow ==> LineCell(isRow, line, i, size) / size == line && LineCell(isRow, line, i, size) % size == i
    ensures !isRow ==> LineCell(isRow, line, i, size) / size == i && LineCell(isRow, line, i, size) % size == line
  {
  }

  /** Distinct coordinates along a line are distinct cells. */
  lemma LineCellInjective(isRow: bool, line: int, i: int, j: int, size: int)
    requires 0 <= line < size && 0 <= i < size && 0 <= j < size && i != j
    ensures LineCell(isRow, line, i, size) != LineCell(isRow, line, j, size)
  {
    if !isRow && i * size == j * size {
      assert (i - j) * size == i * size - j * size;
      MulBetween(i - j, size);
    }
  }

  /**
   * The counting loop of apply_naked_subset_rule along one line, from
   * coordinate i on, cnt cells counted so far: a cell holding the mask ns is
   * counted, and the one that brings the count to subsetSize triggers a sweep
   * of the line keeping that cell and the cell at keep.
   */
  function PairScan(m: seq<Bitmap>, size: int, isRow: bool, line: int, keep: int, ns: Bitmap,
      subsetSize: int, i: int, cnt: int): (r: seq<Bitmap>)
    requires |m| == size * size && 0 <= line < size && 0 <= keep < i
    ensures |r| == |m|
    decreases size - i
  {
    if i >= size then m
    else
      var same := ns == m[LineCell(isRow, line, i, size)];
      var cnt' := if same then cnt + 1 else cnt;
      var m' := if same && cnt' == subsetSize then SweepUpTo(m, Sweep(isRow, line, keep, i, ns), size, size) else m;
      PairScan(m', size, isRow, line, keep, ns, subsetSize, i + 1, cnt')
  }

  /** Every sweep of the log names two distinct cells of a line and a mask of subsetSize values. */
  predicate AllOk(log: seq<Sweep>, size: int, subsetSize: int)
  {
    LinesOk(log, size) && forall t :: 0 <= t < |log| ==> SweepOk(log[t], size, subsetSize)
  }

  /** Each sweep, performed after the ones before it, finds both cells it keeps holding its mask. */
  ghost predicate GenuineSteps(m: seq<Bitmap>, log: seq<Sweep>, size: int, subsetSize: int)
    requires |m| == size * size
    decreases |log|
  {
    log == [] ||
    (SweepOk(log[0], size, subsetSize)
     && m[CellOf(log[0], size, log[0].keepA)] == log[0].mask
     && m[CellOf(log[0], size, log[0].keepB)] == log[0].mask
     && GenuineSteps(SweepUpTo(m, log[0], size, size), log[1..], size, subsetSize))
  }

  /**
   * Every sweep of the log is a genuine naked subset of subsetSize values:
   * when it happens, the two cells it keeps both hold exactly its mask.
   */
  ghost predicate Genuine(m: seq<Bitmap>, log: seq<Sweep>, size: int, subsetSize: int)
    requires |m| == size * size
  {
    AllOk(log, size, subsetSize) && GenuineSteps(m, log, size, subsetSize)
  }

  /** The genuine log of sweeps takes the masks m to the masks r. */
  ghost predicate Performs(m: seq<Bitmap>, log: seq<Sweep>, r: seq<Bitmap>, size: int, subsetSize: int)
    requires |m| == size * size
  {
    Genuine(m, log, size, subsetSize) && r == ApplySweeps(m, log, size)
  }

  /** The body of apply_naked_subset_rule for the cell (row, col): the scan of its row, then of its column. */
  function NakedAt(m: seq<Bitmap>, size: int, row: int, col: int, subsetSize: int): (r: seq<Bitmap>)
    requires |m| == size * size && 0 <= row < size && 0 <= col < size
    ensures |r| == |m|
  {
    var ns := m[Index(row, col, size)];
    if PopCount(ns) == subsetSize then
      PairScan(PairScan(m, size, true, row, col, ns, subsetSize, col + 1, 1), size, false, col, row, ns, subsetSize, row + 1, 1)
    else m
  }

  /** The inner loop of apply_naked_subset_rule over the cells (row, 0) .. (row, c-1). */
  function NakedCols(m: seq<Bitmap>, size: int, subsetSize: int, row: int, c: nat): (r: seq<Bitmap>)
    requires |m| == size * size && 0 <= row < size && c <= size
    ensures |r| == |m|
  {
    if c == 0 then m else NakedAt(NakedCols(m, size, subsetSize, row, c - 1), size, row, c - 1, subsetSize)
  }

  /** The outer loop of apply_naked_subset_rule over the rows 0 .. r-1. */
  function NakedRows(m: seq<Bitmap>, size: int, subsetSize: int, r: nat): (res: seq<Bitmap>)
    requires |m| == size * size && r <= size
    ensures |res| == |m|
  {
    if r == 0 then m else NakedCols(NakedRows(m, size, subsetSize, r - 1), size, subsetSize, r - 1, size)
  }

  /**
   * One counting loop of apply_naked_subset_rule: walking the line from
   * coordinate keep + 1 on, each cell holding the same mask as the cell at
   * keep is counted, and when the count reaches subsetSize the line is swept
   * keeping those two cells.
   */
  method PairSweeps(g: Grid, possib: array<Bitmap>, isRow: bool, line: int, keep: int, nakedSubset: Bitmap,
      subsetSize: int)
    requires g.Valid() && possib.Length == g.size * g.size && 0 <= line < g.size && 0 <= keep < g.size
    modifies possib
    ensures possib[..] == PairScan(old(possib[..]), g.size, isRow, line, keep, nakedSubset, subsetSize, keep + 1, 1)
  {
    ghost var goal := PairScan(possib[..], g.size, isRow, line, keep, nakedSubset, subsetSize, keep + 1, 1);
    var cnt := 1;
    var i := keep + 1;
    while i < g.size
      invariant keep + 1 <= i <= g.size
      invariant PairScan(possib[..], g.size, isRow, line, keep, nakedSubset, subsetSize, i, cnt) == goal
    {
      ghost var before := possib[..];
      var idx := LineCell(isRow, line, i, g.size);
      if nakedSubset == possib[idx] {
        cnt := cnt + 1;
        if cnt == subsetSize {
          SweepLine(g, possib, Sweep(isRow, line, keep, i, nakedSubset));
        }
      }
      assert PairScan(possib[..], g.size, isRow, line, keep, nakedSubset, subsetSize, i + 1, cnt) == goal;
      i := i + 1;
    }
  }

  /**
   * The body of apply_naked_subset_rule for the cell (row, col): when its
   * mask has subsetSize candidates, every later cell of the row (then of the
   * column) holding the same mask is counted, and when the count reaches
   * subsetSize the rest of the line loses those candidates.
   */
  method NakedSubsetAt(g: Grid, possib: array<Bitmap>, row: int, col: int, subsetSize: int)
    requires g.Valid() && possib.Length == g.size * g.size && 0 <= row < g.size && 0 <= col < g.size
    modifies possib
    ensures possib[..] == NakedAt(old(possib[..]), g.size, row, col, subsetSize)
  {
    var nakedSubset := possib[Index(row, col, g.size)];
    var count := GetSetBitsNumber(nakedSubset);
    if count == subsetSize {
      PairSweeps(g, possib, true, row, col, nakedSubset, subsetSize);
      PairSweeps(g, possib, false, col, row, nakedSubset, subsetSize);
    }
  }

  /** apply_naked_subset_rule: NakedSubsetAt for every cell in row-major order. */
  method ApplyNakedSubsetRule(g: Grid, possib: array<Bitmap>, subsetSize: int)
    requires g.Valid() && possib.Length == g.size * g.size
    modifies possib
    ensures possib[..] == NakedRows(old(possib[..]), g.size, subsetSize, g.size)
  {
    ghost var m0 := possib[..];
    var row := 0;
    while row < g.size
      invariant 0 <= row <= g.size
      invariant possib[..] == NakedRows(m0, g.size, subsetSize, row)
    {
      ghost var start := possib[..];
      var col := 0;
      while col < g.size
        invariant 0 <= col <= g.size
        invariant possib[..] == NakedCols(start, g.size, subsetSize, row, col)
      {
        NakedSubsetAt(g, possib, row, col, subsetSize);
        col := col + 1;
      }
      row := row + 1;
    }
  }

  /** Performing one sweep first and then the log is performing the longer log. */
  lemma ApplySweepsCons(m: seq<Bitmap>, s: Sweep, log: seq<Sweep>, size: int)
    requires |m| == size * size && 0 <= s.line < size
    requires LinesOk(log, size)
    ensures ApplySweeps(m, [s] + log, size) == ApplySweeps(SweepUpTo(m, s, size, size), log, size)
  {
    ApplySweepsAppend(m, [s], log, size);
    assert [s][..0] == [];
  }

  lemma {:induction false} GenuineStepsAppend(m: seq<Bitmap>, a: seq<Sweep>, b: seq<Sweep>, size: int, subsetSize: int)
    requires |m| == size * size && AllOk(a, size, subsetSize) && GenuineSteps(m, a, size, subsetSize)
      && GenuineSteps(ApplySweeps(m, a, size), b, size, subsetSize)
    ensures GenuineSteps(m, a + b, size, subsetSize)
    decreases |a|
  {
    if a == [] {
      assert a + b == b;
    } else {
      var m' := SweepUpTo(m, a[0], size, size);
      SplitHead(a, b);
      assert AllOk(a[1..], size, subsetSize);
      ApplySweepsCons(m, a[0], a[1..], size);
      GenuineStepsAppend(m', a[1..], b, size, subsetSize);
    }
  }

  lemma SplitHead(a: seq<Sweep>, b: seq<Sweep>)
    requires a != []
    ensures [a[0]] + a[1..] == a
    ensures a + b != [] && (a + b)[0] == a[0] && (a + b)[1..] == a[1..] + b
    ensures forall t :: 0 <= t < |a| - 1 ==> a[1..][t] == a[t + 1]
  {
  }

  lemma ConsParts(s: Sweep, rest: seq<Sweep>)
    ensures ([s] + rest)[0] == s && ([s] + rest)[1..] == rest
    ensures forall t :: 0 < t <= |rest| ==> ([s] + rest)[t] == rest[t - 1]
  {
  }

  lemma PrefixParts(log: seq<Sweep>, t: int)
    requires 0 < t <= |log|
    ensures log[..t] == [log[0]] + log[1..][..t - 1]
  {
  }

  /** Two genuine logs performed one after the other make one genuine log with the combined effect. */
  lemma GenuineAppend(m: seq<Bitmap>, a: seq<Sweep>, b: seq<Sweep>, size: int, subsetSize: int)
    requires |m| == size * size && Genuine(m, a, size, subsetSize) && Genuine(ApplySweeps(m, a, size), b, size, subsetSize)
    ensures Genuine(m, a + b, size, subsetSize) && ApplySweeps(m, a + b, size) == ApplySweeps(ApplySweeps(m, a, size), b, size)
  {
    ApplySweepsAppend(m, a, b, size);
    GenuineStepsAppend(m, a, b, size, subsetSize);
    var ab := a + b;
    forall t | 0 <= t < |ab|
      ensures SweepOk(ab[t], size, subsetSize)
    {
      if t < |a| {
        assert ab[t] == a[t];
      } else {
        assert ab[t] == b[t - |a|];
      }
    }
  }

  /** A genuine log from m to m1 followed by one from m1 to m2 is a genuine log from m to m2. */
  lemma GenuineChain(m: seq<Bitmap>, a: seq<Sweep>, m1: seq<Bitmap>, b: seq<Sweep>, m2: seq<Bitmap>, size: int, subsetSize: int)
    requires |m| == size * size && |m1| == |m|
    ensures Performs(m, a, m1, size, subsetSize) && Performs(m1, b, m2, size, subsetSize) ==> Performs(m, a + b, m2, size, subsetSize)
  {
    if Performs(m, a, m1, size, subsetSize) && Performs(m1, b, m2, size, subsetSize) {
      GenuineAppend(m, a, b, size, subsetSize);
    }
  }

  /**
   * The per-sweep reading of Genuine: for each t, in the masks left by the
   * sweeps before it, both cells that sweep t keeps hold its mask.
   */
  lemma {:induction false} GenuineEntries(m: seq<Bitmap>, log: seq<Sweep>, size: int, subsetSize: int)
    requires |m| == size * size && Genuine(m, log, size, subsetSize)
    ensures AllOk(log, size, subsetSize) && forall t :: 0 <= t < |log| ==>
      ApplySweeps(m, log[..t], size)[CellOf(log[t], size, log[t].keepA)] == log[t].mask
      && ApplySweeps(m, log[..t], size)[CellOf(log[t], size, log[t].keepB)] == log[t].mask
    decreases |log|
  {
    if log != [] {
      var m' := SweepUpTo(m, log[0], size, size);
      var rest := log[1..];
      SplitHead(log, []);
      assert AllOk(rest, size, subsetSize);
      GenuineEntries(m', rest, size, subsetSize);
      forall t | 0 <= t < |log|
        ensures ApplySweeps(m, log[..t], size)[CellOf(log[t], size, log[t].keepA)] == log[t].mask
        ensures ApplySweeps(m, log[..t], size)[CellOf(log[t], size, log[t].keepB)] == log[t].mask
      {
        if t == 0 {
          assert log[..0] == [];
        } else {
          PrefixParts(log, t);
          assert log[t] == rest[t - 1];
          ApplySweepsCons(m, log[0], rest[..t - 1], size);
        }
      }
    }
  }

  /** A sweep leaves the two cells it keeps as they were. */
  lemma {:induction false} SweepKeeps(m: seq<Bitmap>, s: Sweep, size: int, j: nat)
    requires |m| == size * size && 0 <= s.line < size && j <= size
    requires 0 <= s.keepA < size && 0 <= s.keepB < size
    ensures SweepUpTo(m, s, size, j)[CellOf(s, size, s.keepA)] == m[CellOf(s, size, s.keepA)]
    ensures SweepUpTo(m, s, size, j)[CellOf(s, size, s.keepB)] == m[CellOf(s, size, s.keepB)]
  {
    if j > 0 {
      SweepKeeps(m, s, size, j - 1);
      if j - 1 != s.keepA && j - 1 != s.keepB {
        LineCellInjective(s.isRow, s.line, j - 1, s.keepA, size);
        LineCellInjective(s.isRow, s.line, j - 1, s.keepB, size);
      }
    }
  }

  /** A line scan leaves the cell at keep as it was. */
  lemma {:induction false} PairScanKeeps(m: seq<Bitmap>, size: int, isRow: bool, line: int, keep: int, ns: Bitmap,
      subsetSize: int, i: int, cnt: int)
    requires |m| == size * size && 0 <= line < size && 0 <= keep < i && keep < size
    ensures PairScan(m, size, isRow, line, keep, ns, subsetSize, i, cnt)[LineCell(isRow, line, keep, size)]
      == m[LineCell(isRow, line, keep, size)]
    decreases size - i
  {
    if i < size {
      var same := ns == m[LineCell(isRow, line, i, size)];
      var cnt' := if same then cnt + 1 else cnt;
      if same && cnt' == subsetSize {
        var s := Sweep(isRow, line, keep, i, ns);
        SweepKeeps(m, s, size, size);
        PairScanKeeps(SweepUpTo(m, s, size, size), size, isRow, line, keep, ns, subsetSize, i + 1, cnt');
      } else {
        PairScanKeeps(m, size, isRow, line, keep, ns, subsetSize, i + 1, cnt');
      }
    }
  }

  /**
   * A line scan started at a cell holding ns, a mask of subsetSize values,
   * performs a log of sweeps, and every one of them is a genuine naked subset.
   */
  lemma {:induction false} PairScanSweeps(m: seq<Bitmap>, size: int, isRow: bool, line: int, keep: int, ns: Bitmap,
      subsetSize: int, i: int, cnt: int) returns (log: seq<Sweep>)
    requires |m| == size * size && 0 <= line < size && 0 <= keep < i && keep < size
    requires m[LineCell(isRow, line, keep, size)] == ns && PopCount(ns) == subsetSize
    ensures Performs(m, log, PairScan(m, size, isRow, line, keep, ns, subsetSize, i, cnt), size, subsetSize)
    decreases size - i
  {
    if i < size {
      var same := ns == m[LineCell(isRow, line, i, size)];
      var cnt' := if same then cnt + 1 else cnt;
      if same && cnt' == subsetSize {
        var s := Sweep(isRow, line, keep, i, ns);
        var m' := SweepUpTo(m, s, size, size);
        SweepKeeps(m, s, size, size);
        var rest := PairScanSweeps(m', size, isRow, line, keep, ns, subsetSize, i + 1, cnt');
        ApplySweepsCons(m, s, rest, size);
        log := [s] + rest;
        ConsParts(s, rest);
      } else {
        log := PairScanSweeps(m, size, isRow, line, keep, ns, subsetSize, i + 1, cnt');
      }
    } else {
      log := [];
    }
  }

  /** The body of apply_naked_subset_rule for one cell performs a log of genuine sweeps. */
  lemma NakedAtSweeps(m: seq<Bitmap>, size: int, row: int, col: int, subsetSize: int) returns (log: seq<Sweep>)
    requires |m| == size * size && 0 <= row < size && 0 <= col < size
    ensures Performs(m, log, NakedAt(m, size, row, col, subsetSize), size, subsetSize)
  {
    var ns := m[Index(row, col, size)];
    if PopCount(ns) == subsetSize {
      var m1 := PairScan(m, size, true, row, col, ns, subsetSize, col + 1, 1);
      LineCellCoords(true, row, col, size);
      LineCellCoords(false, col, row, size);
      var a := PairScanSweeps(m, size, true, row, col, ns, subsetSize, col + 1, 1);
      PairScanKeeps(m, size, true, row, col, ns, subsetSize, col + 1, 1);
      var b := PairScanSweeps(m1, size, false, col, row, ns, subsetSize, row + 1, 1);
      GenuineChain(m, a, m1, b, PairScan(m1, size, false, col, row, ns, subsetSize, row + 1, 1), size, subsetSize);
      log := a + b;
    } else {
      log := [];
    }
  }

  lemma {:induction false} NakedColsSweeps(m: seq<Bitmap>, size: int, subsetSize: int, row: int, c: nat)
    returns (log: seq<Sweep>)
    requires |m| == size * size && 0 <= row < size && c <= size
    ensures Performs(m, log, NakedCols(m, size, subsetSize, row, c), size, subsetSize)
  {
    if c > 0 {
      var m1 := NakedCols(m, size, subsetSize, row, c - 1);
      var a := NakedColsSweeps(m, size, subsetSize, row, c - 1);
      var b := NakedAtSweeps(m1, size, row, c - 1, subsetSize);
      var m2 := NakedAt(m1, size, row, c - 1, subsetSize);
      assert NakedCols(m, size, subsetSize, row, c) == m2;
      GenuineChain(m, a, m1, b, m2, size, subsetSize);
      log := a + b;
    } else {
      log := [];
    }
  }

  /**
   * The whole pass of apply_naked_subset_rule over the first r rows performs
   * a log of sweeps, each a genuine naked subset of subsetSize values at the
   * moment it happens.
   */
  lemma {:induction false} NakedRowsSweeps(m: seq<Bitmap>, size: int, subsetSize: int, r: nat) returns (log: seq<Sweep>)
    requires |m| == size * size && r <= size
    ensures Performs(m, log, NakedRows(m, size, subsetSize, r), size, subsetSize)
  {
    if r > 0 {
      var m1 := NakedRows(m, size, subsetSize, r - 1);
      var a := NakedRowsSweeps(m, size, subsetSize, r - 1);
      var b := NakedColsSweeps(m1, size, subsetSize, r - 1, size);
      var m2 := NakedCols(m1, size, subsetSize, r - 1, size);
      assert NakedRows(m, size, subsetSize, r) == m2;
      GenuineChain(m, a, m1, b, m2, size, subsetSize);
      log := a + b;
    } else {
      log := [];
    }
  }

  /**
   * apply_naked_subset_rule as a whole performs a log of sweeps, in order.
   * Each sweep is along one line, keeps two distinct cells of that line, and
   * has a mask of exactly subsetSize values. In the masks the earlier sweeps
   * left, both of its kept cells hold that mask.
   */
  lemma NakedRuleSweeps(m: seq<Bitmap>, size: int, subsetSize: int) returns (log: seq<Sweep>)
    requires 0 <= size && |m| == size * size
    ensures AllOk(log, size, subsetSize) && NakedRows(m, size, subsetSize, size) == ApplySweeps(m, log, size)
    ensures AllOk(log, size, subsetSize) && forall t :: 0 <= t < |log| ==>
      ApplySweeps(m, log[..t], size)[CellOf(log[t], size, log[t].keepA)] == log[t].mask
      && ApplySweeps(m, log[..t], size)[CellOf(log[t], size, log[t].keepB)] == log[t].mask
  {
    log := NakedRowsSweeps(m, size, subsetSize, size);
    GenuineEntries(m, log, size, subsetSize);
  }

  lemma {:induction false} ApplySweepsAppend(m: seq<Bitmap>, a: seq<Sweep>, b: seq<Sweep>, size: int)
    requires |m| == size * size
    requires LinesOk(a, size)
    requires LinesOk(b, size)
    ensures ApplySweeps(m, a + b, size) == ApplySweeps(ApplySweeps(m, a, size), b, size)
  {
    if b == [] {
      assert a + b == a;
    } else {
      var b' := b[..|b| - 1];
      ApplySweepsAppend(m, a, b', size);
      assert (a + b)[..|a + b| - 1] == a + b';
    }
  }

  lemma {:induction false} SweepUpToBits(m: seq<Bitmap>, s: Sweep, size: int, j: nat, k: int, q: nat)
    requires |m| == size * size && 0 <= s.line < size && j <= size
    requires 0 <= k < |m| && q < WIDTH
    ensures IsSet(SweepUpTo(m, s, size, j)[k], q) == (IsSet(m[k], q) && !(SweptUpTo(s, size, k, j) && IsSet(s.mask, q)))
  {
    if j > 0 {
      SweepUpToBits(m, s, size, j - 1, k, q);
      var r := SweepUpTo(m, s, size, j - 1);
      if j - 1 == s.keepA || j - 1 == s.keepB {
        assert SweptUpTo(s, size, k, j) == SweptUpTo(s, size, k, j - 1);
      } else if k == CellOf(s, size, j - 1) {
        IsSetAndNot(r[k], s.mask, q);
        assert SweptUpTo(s, size, k, j);
      } else {
        assert SweptUpTo(s, size, k, j) == SweptUpTo(s, size, k, j - 1);
      }
    }
  }

  /** Some sweep of the log cleared cell k and had bit q in its mask. */
  predicate ClearedBy(log: seq<Sweep>, size: int, k: int, q: nat)
    requires LinesOk(log, size)
  {
    exists t :: 0 <= t < |log| && SweptUpTo(log[t], size, k, size) && IsSet(log[t].mask, q)
  }

  /**
   * The naked-subset rule only ever clears bits: a value stays a candidate of
   * cell k exactly when it was one and no sweep that reached k had it in its
   * pair's mask.
   */
  lemma {:induction false} NakedSubsetMeaning(m: seq<Bitmap>, log: seq<Sweep>, size: int, k: int, q: nat)
    requires |m| == size * size && LinesOk(log, size)
    requires 0 <= k < |m| && q < WIDTH
    ensures IsSet(ApplySweeps(m, log, size)[k], q) == (IsSet(m[k], q) && !ClearedBy(log, size, k, q))
  {
    if log != [] {
      var log' := log[..|log| - 1];
      var s := log[|log| - 1];
      NakedSubsetMeaning(m, log', size, k, q);
      SweepUpToBits(ApplySweeps(m, log', size), s, size, size, k, q);
      assert ClearedBy(log, size, k, q) <==> ClearedBy(log', size, k, q) || (SweptUpTo(s, size, k, size) && IsSet(s.mask, q)) by {
        if ClearedBy(log, size, k, q) {
          var t :| 0 <= t < |log| && SweptUpTo(log[t], size, k, size) && IsSet(log[t].mask, q);
          if t < |log'| {
            assert log'[t] == log[t];
          }
        }
        if ClearedBy(log', size, k, q) {
          var t :| 0 <= t < |log'| && SweptUpTo(log'[t], size, k, size) && IsSet(log'[t].mask, q);
          assert log[t] == log'[t];
        }
      }
    }
  }

  /**
   * A sweep reaches only the cells of its own line, and never the two cells
   * of the pair that triggered it.
   */
  lemma SweptCells(s: Sweep, size: int, k: int)
    requires 0 <= s.line < size && SweptUpTo(s, size, k, size)
    ensures 0 <= k < size * size
    ensures s.isRow ==> k / size == s.line && k % size != s.keepA && k % size != s.keepB
    ensures !s.isRow ==> k % size == s.line && k / size != s.keepA && k / size != s.keepB
  {
    var j :| 0 <= j < size && j != s.keepA && j != s.keepB && CellOf(s, size, j) == k;
    LineCellCoords(s.isRow, s.line, j, size);
  }

  // ---- the invariant the recursive step keeps

  /** Every candidate of every cell is a value missing from that cell's row and column on board b. */
  ghost predicate Consistent(b: seq<int>, m: seq<Bitmap>, size: int)
    requires 0 <= size && |b| == size * size && |m| == size * size
  {
    forall k, q :: 0 <= k < |m| && 0 <= q < size && IsSet(m[k], q) ==>
      LatinFree(b, size, q + 1, LocationOf(k, size).x, LocationOf(k, size).y)
  }

  /** Every cell that still has a candidate is empty on board b. */
  predicate Tracks(b: seq<int>, m: seq<Bitmap>)
    requires |b| == |m|
  {
    forall k :: 0 <= k < |m| && m[k] != 0 ==> b[k] == 0
  }

  /** Every candidate is a value 1 .. size. */
  predicate Bounded(m: seq<Bitmap>, size: int)
    requires 0 <= size <= WIDTH
  {
    forall k :: 0 <= k < |m| ==> SubMask(m[k], LowMask(size))
  }

  /** The three together: the masks m describe the candidates of board b. */
  ghost predicate Candidates(b: seq<int>, m: seq<Bitmap>, size: int)
  {
    0 <= size <= WIDTH && |b| == size * size && |m| == size * size
    && Consistent(b, m, size) && Tracks(b, m) && Bounded(m, size)
  }

  /** Every mask of m' is a sub-mask of the same cell's mask in m. */
  predicate Shrinks(m': seq<Bitmap>, m: seq<Bitmap>)
    requires |m'| == |m|
  {
    forall k :: 0 <= k < |m| ==> SubMask(m'[k], m[k])
  }

  /** A mask of an empty board that has values 1 .. size everywhere describes its candidates. */
  lemma FullMasksOfEmptyBoard(b: seq<int>, m: seq<Bitmap>, size: int)
    requires 0 <= size <= WIDTH && |b| == size * size && |m| == size * size
    requires forall k :: 0 <= k < |b| ==> b[k] == 0
    requires forall k :: 0 <= k < |m| ==> m[k] == LowMask(size)
    ensures Candidates(b, m, size)
  {
    forall k, q | 0 <= k < |m| && 0 <= q < size && IsSet(m[k], q)
      ensures LatinFree(b, size, q + 1, LocationOf(k, size).x, LocationOf(k, size).y)
    {
    }
    forall k | 0 <= k < |m|
      ensures SubMask(m[k], LowMask(size))
    {
    }
  }

  /** Clearing bits keeps the description valid. */
  lemma ShrinkKeeps(b: seq<int>, m: seq<Bitmap>, m': seq<Bitmap>, size: int)
    requires Candidates(b, m, size) && |m'| == |m| && Shrinks(m', m)
    ensures Candidates(b, m', size)
  {
    forall k | 0 <= k < |m| && m'[k] != 0
      ensures b[k] == 0
    {
      if m[k] == 0 {
        SubMaskOfZero(m'[k]);
      }
    }
    forall k, q | 0 <= k < |m| && 0 <= q < size && IsSet(m'[k], q)
      ensures LatinFree(b, size, q + 1, LocationOf(k, size).x, LocationOf(k, size).y)
    {
      assert IsSet(m[k], q);
    }
  }

  /** A candidate of cell p may be written at p without breaking the Latin-square rule. */
  lemma CandidateIsFree(b: seq<int>, m: seq<Bitmap>, size: int, p: int, v: int)
    requires Candidates(b, m, size) && 0 <= p < |m| && 1 <= v && IsSet(m[p], v - 1)
    ensures v <= size && b[p] == 0
    ensures LatinFree(b, size, v, LocationOf(p, size).x, LocationOf(p, size).y)
  {
    var q := v - 1;
    if q >= WIDTH {
      Pow2Width();
      HighBitsClear(m[p], WIDTH, q);
      assert false;
    }
    assert Bounded(m, size) && Tracks(b, m) && Consistent(b, m, size);
    assert SubMask(m[p], LowMask(size));
    SubMaskOfLow(m[p], size, q);
    IsSetZero(q);
    assert m[p] != 0;
  }

  lemma LatinRuleShrinks(m: seq<Bitmap>, size: int, p: int, v: int)
    requires 0 < size && |m| == size * size && 0 <= p < |m| && 1 <= v <= WIDTH
    ensures Shrinks(LatinRuleResult(m, size, p, v), m)
  {
    var r := LatinRuleResult(m, size, p, v);
    forall k, q | 0 <= k < |m| && 0 <= q < WIDTH && IsSet(r[k], q)
      ensures IsSet(m[k], q)
    {
      LatinRuleBits(m, size, p, v, k, q);
    }
  }

  lemma NakedSubsetShrinks(m: seq<Bitmap>, log: seq<Sweep>, size: int)
    requires |m| == size * size && LinesOk(log, size)
    ensures Shrinks(ApplySweeps(m, log, size), m)
  {
    var r := ApplySweeps(m, log, size);
    forall k, q | 0 <= k < |m| && 0 <= q < WIDTH && IsSet(r[k], q)
      ensures IsSet(m[k], q)
    {
      NakedSubsetMeaning(m, log, size, k, q);
    }
  }

  /** apply_naked_subset_rule only ever clears candidates. */
  lemma NakedRowsShrinks(m: seq<Bitmap>, size: int, subsetSize: int)
    requires 0 <= size && |m| == size * size
    ensures Shrinks(NakedRows(m, size, subsetSize, size), m)
  {
    var log := NakedRowsSweeps(m, size, subsetSize, size);
    NakedSubsetShrinks(m, log, size);
  }

  /**
   * Writing v at p and then applying the Latin-square rule keeps the
   * description valid for the new board.
   */
  lemma PlacementKeeps(b: seq<int>, m: seq<Bitmap>, size: int, p: int, v: int)
    requires Candidates(b, m, size) && 0 <= p < |m| && 1 <= v <= size
    ensures Candidates(b[p := v], LatinRuleResult(m, size, p, v), size)
  {
    var b1 := b[p := v];
    var m1 := LatinRuleResult(m, size, p, v);
    LatinRuleShrinks(m, size, p, v);
    ShrinkKeeps(b, m, m1, size);
    forall k | 0 <= k < |m1| && m1[k] != 0
      ensures b1[k] == 0
    {
    }
    forall k, q | 0 <= k < |m1| && 0 <= q < size && IsSet(m1[k], q)
      ensures LatinFree(b1, size, q + 1, LocationOf(k, size).x, LocationOf(k, size).y)
    {
      LatinRuleBits(m, size, p, v, k, q);
      PlacementKeepsCell(b, m1, size, p, v, k, q);
    }
  }

  lemma PlacementKeepsCell(b: seq<int>, m1: seq<Bitmap>, size: int, p: int, v: int, k: int, q: int)
    requires 0 < size && |b| == size * size && 0 <= p < |b| && 0 <= k < |b| && 0 <= q < size
    requires LatinFree(b, size, q + 1, LocationOf(k, size).x, LocationOf(k, size).y)
    requires k != p && !(q == v - 1 && SameLine(k, p, size))
    ensures LatinFree(b[p := v], size, q + 1, LocationOf(k, size).x, LocationOf(k, size).y)
  {
    var x := LocationOf(k, size).x;
    var y := LocationOf(k, size).y;
    forall c | 0 <= c < size
      ensures b[p := v][Index(x, c, size)] != q + 1
    {
      if Index(x, c, size) == p {
        assert p / size == x == k / size;
      }
    }
    forall r | 0 <= r < size
      ensures b[p := v][Index(r, y, size)] != q + 1
    {
      if Index(r, y, size) == p {
        assert p % size == y == k % size;
      }
    }
  }

  // ---- the recursive step

  /**
   * solve_using_possibilities_sub: check_grid must accept value at position,
   * or the board is left alone. Otherwise value is written there, a private
   * copy of the masks is pruned by the Latin-square and naked-pair rules,
   * and the search goes on with the first cell that has a single candidate,
   * or, when there is none, with each candidate of the first cell that has
   * any. A board with no candidates and no empty cell is solved. On success
   * the board is full and each value written is unique in its row and
   * column; on failure the board is the old one with value at position (the
   * caller clears that cell). The masks passed in are never changed.
   */
  method SolveUsingPossibilitiesSub(g: Grid, possib: array<Bitmap>, position: int, value: int,
      nbHypo: int, nbSet: int, nbUnset: int, vrb: bool)
      returns (solved: bool, nbHypo': int, nbSet': int, nbUnset': int)
    requires Puzzle(g) && InRange(g.board[..], g.size)
    requires Candidates(g.board[..], possib[..], g.size)
    requires 0 <= position < possib.Length && 1 <= value && IsSet(possib[position], value - 1)
    requires possib as object != g.board
    modifies g.board
    decreases Zeros(g.board[..]), 1
    ensures InRange(g.board[..], g.size)
    ensures possib[..] == old(possib[..])
    ensures var loc := LocationOf(position, g.size);
      !BlockAccepts(old(g.board[..]), g.size, g.blockBoard[..], g.blocks, true, loc, value)
      ==> !solved && g.board[..] == old(g.board[..])
    ensures var loc := LocationOf(position, g.size);
      BlockAccepts(old(g.board[..]), g.size, g.blockBoard[..], g.blocks, true, loc, value) && !solved
      ==> g.board[..] == old(g.board[..])[position := value]
    ensures solved ==> forall k :: 0 <= k < g.board.Length ==> g.board[k] != 0
    ensures solved ==> Extends(old(g.board[..]), g.board[..], g.size)
    ensures !vrb ==> nbHypo' == nbHypo && nbSet' == nbSet && nbUnset' == nbUnset
    ensures nbHypo' >= nbHypo && nbSet' >= nbSet && nbUnset' >= nbUnset
  {
    var ok := CheckCandidate(g, possib, position, value);
    if !ok {
      return false, nbHypo, nbSet, nbUnset;
    }
    solved, nbHypo', nbSet', nbUnset' := PlaceAndSearch(g, possib, position, value, nbHypo, nbSet, nbUnset, vrb);
  }

  /** The check_grid call of solve_using_possibilities_sub, in optimized mode, on a candidate. */
  method CheckCandidate(g: Grid, possib: array<Bitmap>, position: int, value: int) returns (ok: bool)
    requires Puzzle(g) && InRange(g.board[..], g.size)
    requires Candidates(g.board[..], possib[..], g.size)
    requires 0 <= position < possib.Length && 1 <= value && IsSet(possib[position], value - 1)
    ensures ok == BlockAccepts(g.board[..], g.size, g.blockBoard[..], g.blocks, true, LocationOf(position, g.size), value)
  {
    CandidateCheckable(g.board[..], possib[..], g.size, g.blockBoard[..], g.blocks, position, value);
    var blockNum := g.blockBoard[position] - 1;
    ok := CheckGrid(g, true, value, LocationOf(position, g.size), blockNum);
  }

  /** A candidate value at position can be handed to check_grid on the block of that cell. */
  lemma CandidateCheckable(b: seq<int>, m: seq<Bitmap>, size: int, bb: seq<int>, blocks: seq<Block>,
      position: int, value: int)
    requires WellFormed(size, bb, blocks) && InRange(b, size) && Candidates(b, m, size)
    requires 0 <= position < |m| && 1 <= value && IsSet(m[position], value - 1)
    ensures 0 <= bb[position] - 1 < |blocks| && InGrid(LocationOf(position, size), size)
    ensures Checkable(b, size, blocks[bb[position] - 1], value, LocationOf(position, size))
    ensures BlockAccepts(b, size, bb, blocks, true, LocationOf(position, size), value)
      == GridAccepts(b, size, blocks[bb[position] - 1], true, value, LocationOf(position, size))
  {
    var loc := LocationOf(position, size);
    assert NonNegative(b);
    CheckableAt(b, size, bb, blocks, loc, value);
  }

  /**
   * solve_using_possibilities_sub once check_grid has accepted value at
   * position: write it, prune a copy of the masks, and search on.
   */
  method PlaceAndSearch(g: Grid, possib: array<Bitmap>, position: int, value: int,
      nbHypo: int, nbSet: int, nbUnset: int, vrb: bool)
      returns (solved: bool, nbHypo': int, nbSet': int, nbUnset': int)
    requires Puzzle(g) && InRange(g.board[..], g.size)
    requires Candidates(g.board[..], possib[..], g.size)
    requires 0 <= position < possib.Length && 1 <= value && IsSet(possib[position], value - 1)
    requires possib as object != g.board
    modifies g.board
    decreases Zeros(g.board[..]), 0
    ensures InRange(g.board[..], g.size)
    ensures !solved ==> g.board[..] == old(g.board[..])[position := value]
    ensures solved ==> forall k :: 0 <= k < g.board.Length ==> g.board[k] != 0
    ensures solved ==> Extends(old(g.board[..]), g.board[..], g.size)
    ensures !vrb ==> nbHypo' == nbHypo && nbSet' == nbSet && nbUnset' == nbUnset
    ensures nbHypo' >= nbHypo && nbSet' >= nbSet && nbUnset' >= nbUnset
  {
    ghost var b0 := g.board[..];
    CandidateIsFree(b0, possib[..], g.size, position, value);
    var valSquare := LocationOf(position, g.size);
    nbHypo', nbSet', nbUnset' := nbHypo, nbSet, nbUnset;
    var copy := CopyPossibilities(g, possib);
    if vrb { nbSet' := nbSet' + 1; }
    g.board[position] := value;
    ZerosWrite(b0, position, value);
    PlacementKeeps(b0, copy[..], g.size, position, value);
    ApplyRules(g, copy, position);
    ghost var b1 := g.board[..];
    solved, nbHypo', nbSet', nbUnset' := SearchFrom(g, copy, nbHypo', nbSet', nbUnset', vrb);
    if solved {
      ExtendsWrite(b0, b1, g.board[..], g.size, valSquare.x, valSquare.y, value);
    }
  }

  /** The possib_copy array of solve_using_possibilities_sub. */
  method CopyPossibilities(g: Grid, possib: array<Bitmap>) returns (copy: array<Bitmap>)
    requires g.Valid() && possib.Length == g.size * g.size
    ensures fresh(copy) && copy[..] == possib[..]
  {
    copy := new Bitmap[g.size * g.size];
    var i := 0;
    while i < g.size * g.size
      invariant 0 <= i <= g.size * g.size
      invariant copy[..i] == possib[..i]
    {
      copy[i] := possib[i];
      i := i + 1;
    }
    assert copy[..] == copy[..i];
  }

  /**
   * The Latin-square rule at position, then the naked-pair rule, on the
   * copy: the masks still describe the candidates of the board.
   */
  method ApplyRules(g: Grid, copy: array<Bitmap>, position: int)
    requires g.Valid() && copy.Length == g.size * g.size && 0 <= position < copy.Length
    requires 1 <= g.board[position] <= g.size <= WIDTH
    requires Candidates(g.board[..], LatinRuleResult(copy[..], g.size, position, g.board[position]), g.size)
    modifies copy
    ensures Candidates(g.board[..], copy[..], g.size)
  {
    ApplyLatinSquaresRule(g, copy, position);
    ghost var m1 := copy[..];
    ApplyNakedSubsetRule(g, copy, 2);
    NakedRowsShrinks(m1, g.size, 2);
    ShrinkKeeps(g.board[..], m1, copy[..], g.size);
  }

  /**
   * The rest of solve_using_possibilities_sub once the copy is pruned: a
   * cell with a single candidate is filled next; otherwise, with no
   * candidate anywhere, the board is solved exactly when it has no empty
   * cell; otherwise every candidate of the first cell that has one is
   * tried. On failure the cell tried is cleared again, so the board is as it
   * was.
   */
  method SearchFrom(g: Grid, copy: array<Bitmap>, nbHypo: int, nbSet: int, nbUnset: int, vrb: bool)
      returns (solved: bool, nbHypo': int, nbSet': int, nbUnset': int)
    requires Puzzle(g) && InRange(g.board[..], g.size)
    requires Candidates(g.board[..], copy[..], g.size) && copy as object != g.board
    modifies g.board, copy
    decreases Zeros(g.board[..]), 4
    ensures InRange(g.board[..], g.size)
    ensures !solved ==> g.board[..] == old(g.board[..])
    ensures solved ==> forall k :: 0 <= k < g.board.Length ==> g.board[k] != 0
    ensures solved ==> Extends(old(g.board[..]), g.board[..], g.size)
    ensures !vrb ==> nbHypo' == nbHypo && nbSet' == nbSet && nbUnset' == nbUnset
    ensures nbHypo' >= nbHypo && nbSet' >= nbSet && nbUnset' >= nbUnset
  {
    ghost var b1 := g.board[..];
    nbHypo', nbSet', nbUnset' := nbHypo, nbSet, nbUnset;
    var currPos, currVal := FindSinglePossibilityPos(g, copy, 0);
    if currPos != -1 {
      PopCountZero(copy[currPos]);
      CandidateIsFree(b1, copy[..], g.size, currPos, currVal);
      var sub;
      sub, nbHypo', nbSet', nbUnset' := SolveUsingPossibilitiesSub(g, copy, currPos, currVal, nbHypo', nbSet', nbUnset', vrb);
      if sub {
        return true, nbHypo', nbSet', nbUnset';
      }
      ResetRestores(b1, g.board[..], currPos, currVal);
    } else {
      currPos, currVal := FindNextPossibilityPos(g, copy, currVal);
      if currPos == -1 {
        var emptySquare := g.FindEmptySquareInGrid();
        if emptySquare.x == -1 && emptySquare.y == -1 {
          return true, nbHypo', nbSet', nbUnset';
        }
      } else {
        PopCountZero(copy[currPos]);
        assert b1[currPos] == 0;
        var sub;
        sub, nbHypo', nbSet', nbUnset' := TryCandidates(g, copy, currPos, nbHypo', nbSet', nbUnset', vrb);
        if sub {
          return true, nbHypo', nbSet', nbUnset';
        }
        ResetRestores(b1, g.board[..], currPos, 0);
      }
    }
    // solve_using_possibilities_sub writes board[curr_pos] here even when curr_pos is -1.
    if currPos != -1 {
      if vrb { nbUnset' := nbUnset' + 1; }
      g.board[currPos] := 0;
    }
    return false, nbHypo', nbSet', nbUnset';
  }

  /** Clearing a cell that was empty in b1 gives b1 back, whether or not it was written since. */
  lemma ResetRestores(b1: seq<int>, cur: seq<int>, p: int, v: int)
    requires 0 <= p < |b1| && b1[p] == 0 && (cur == b1 || cur == b1[p := v])
    ensures cur[p := 0] == b1
  {
  }

  /**
   * The hypothesis loop of solve_using_possibilities_sub: each candidate of
   * the cell at pos, lowest first, is tried in turn, then dropped from the
   * copy and its cell cleared. On failure the board is as it was.
   */
  method TryCandidates(g: Grid, copy: array<Bitmap>, pos: int, nbHypo: int, nbSet: int, nbUnset: int, vrb: bool)
      returns (solved: bool, nbHypo': int, nbSet': int, nbUnset': int)
    requires Puzzle(g) && InRange(g.board[..], g.size)
    requires Candidates(g.board[..], copy[..], g.size)
    requires 0 <= pos < copy.Length && copy as object != g.board
    modifies g.board, copy
    decreases Zeros(g.board[..]), 3
    ensures InRange(g.board[..], g.size)
    ensures !solved ==> g.board[..] == old(g.board[..])
    ensures !solved ==> copy[pos] == 0
    ensures solved ==> forall k :: 0 <= k < g.board.Length ==> g.board[k] != 0
    ensures solved ==> Extends(old(g.board[..]), g.board[..], g.size)
    ensures !vrb ==> nbHypo' == nbHypo && nbSet' == nbSet && nbUnset' == nbUnset
    ensures nbHypo' >= nbHypo && nbSet' >= nbSet && nbUnset' >= nbUnset
  {
    ghost var b1 := g.board[..];
    nbHypo', nbSet', nbUnset' := nbHypo, nbSet, nbUnset;
    var currVal := RightmostSetBit(copy[pos]);
    while currVal != 0
      invariant g.board[..] == b1
      invariant Candidates(b1, copy[..], g.size)
      invariant currVal == RightmostSetBit(copy[pos])
      invariant !vrb ==> nbHypo' == nbHypo && nbSet' == nbSet && nbUnset' == nbUnset
      invariant nbHypo' >= nbHypo && nbSet' >= nbSet && nbUnset' >= nbUnset
      decreases PopCount(copy[pos])
    {
      ghost var count := PopCount(copy[pos]);
      if vrb { nbHypo' := nbHypo' + 1; }
      var sub;
      sub, nbHypo', nbSet', nbUnset' := TryCandidate(g, copy, pos, currVal, nbHypo', nbSet', nbUnset', vrb);
      if sub {
        return true, nbHypo', nbSet', nbUnset';
      }
      DropCandidate(b1, g.size, copy, pos, currVal);
      currVal := RightmostSetBit(copy[pos]);
    }
    return false, nbHypo', nbSet', nbUnset';
  }

  /** The end of a round of the hypothesis loop: candidate currVal is dropped from the mask at pos. */
  method DropCandidate(ghost b: seq<int>, ghost size: int, copy: array<Bitmap>, pos: int, currVal: int)
    requires Candidates(b, copy[..], size) && 0 <= pos < copy.Length
    requires copy[pos] != 0 && currVal == RightmostSetBit(copy[pos])
    modifies copy
    ensures currVal <= WIDTH && copy[..] == old(copy[..])[pos := UnsetBit(old(copy[pos]), currVal - 1)]
    ensures PopCount(copy[pos]) == PopCount(old(copy[pos])) - 1
    ensures Candidates(b, copy[..], size)
  {
    ghost var before := copy[..];
    PopCountUnsetRightmost(copy[pos]);
    UnsetBitSubMask(copy[pos], currVal - 1);
    copy[pos] := UnsetBit(copy[pos], currVal - 1);
    ShrinkKeeps(b, before, copy[..], size);
  }

  /**
   * One round of the hypothesis loop: try value v at pos, and on failure
   * clear the cell again (the candidate itself is dropped by the caller).
   */
  method TryCandidate(g: Grid, copy: array<Bitmap>, pos: int, v: int, nbHypo: int, nbSet: int, nbUnset: int, vrb: bool)
      returns (solved: bool, nbHypo': int, nbSet': int, nbUnset': int)
    requires Puzzle(g) && InRange(g.board[..], g.size)
    requires Candidates(g.board[..], copy[..], g.size)
    requires 0 <= pos < copy.Length && 1 <= v && IsSet(copy[pos], v - 1) && copy as object != g.board
    modifies g.board
    decreases Zeros(g.board[..]), 2
    ensures InRange(g.board[..], g.size)
    ensures !solved ==> g.board[..] == old(g.board[..])
    ensures solved ==> forall k :: 0 <= k < g.board.Length ==> g.board[k] != 0
    ensures solved ==> Extends(old(g.board[..]), g.board[..], g.size)
    ensures !vrb ==> nbHypo' == nbHypo && nbSet' == nbSet && nbUnset' == nbUnset
    ensures nbHypo' >= nbHypo && nbSet' >= nbSet && nbUnset' >= nbUnset
  {
    ghost var b1 := g.board[..];
    CandidateIsFree(b1, copy[..], g.size, pos, v);
    solved, nbHypo', nbSet', nbUnset' := SolveUsingPossibilitiesSub(g, copy, pos, v, nbHypo, nbSet, nbUnset, vrb);
    if !solved {
      ResetRestores(b1, g.board[..], pos, v);
      if vrb { nbUnset' := nbUnset' + 1; }
      g.board[pos] := 0;
    }
  }

  // ---- the clearing step at the end of solve_using_possibilities_sub, as written

  /** The first position at or after k whose mask is not empty, or -1 when there is none. */
  function FirstNonEmpty(m: seq<Bitmap>, k: nat): (pos: int)
    requires k <= |m|
    decreases |m| - k
    ensures pos == -1 <==> forall j :: k <= j < |m| ==> m[j] == 0
    ensures pos != -1 ==> k <= pos < |m| && m[pos] != 0 && forall j :: k <= j < pos ==> m[j] == 0
  {
    if k == |m| then -1 else if m[k] != 0 then k else FirstNonEmpty(m, k + 1)
  }

  /** What the last statement of solve_using_possibilities_sub does to the board. */
  datatype Reset = Cleared(board: seq<int>) | OutsideBoard(index: int)

  /**
   * The end of solve_using_possibilities_sub as written, on the path where
   * no cell had a single candidate: curr_pos is what
   * find_next_possibility_pos returned, and board[curr_pos] is set to 0
   * whatever curr_pos is.
   */
  function TailAsWritten(b: seq<int>, m: seq<Bitmap>): (r: Reset)
    requires |b| == |m|
    ensures r.OutsideBoard? <==> forall k :: 0 <= k < |m| ==> m[k] == 0
    ensures r.OutsideBoard? ==> r.index == -1
    ensures r.Cleared? ==> |r.board| == |b| && exists p :: 0 <= p < |b| && m[p] != 0 && r.board == b[p := 0]
  {
    var p := FirstNonEmpty(m, 0);
    if p == -1 then OutsideBoard(p) else Cleared(b[p := 0])
  }

  /**
   * On an empty 2 x 2 board whose cells (0,0) and (0,1) have value 1 as
   * their only candidate, placing 1 at (0,0) leaves no candidate anywhere,
   * whatever the naked-pair rule does, while cells are still empty: the
   * source then clears board[-1].
   */
  lemma ResetOutsideBoardExample(b: seq<int>, m: seq<Bitmap>, b1: seq<int>, z: seq<Bitmap>)
    requires b == [0, 0, 0, 0] && m == [1, 1, 0, 0] && b1 == b[0 := 1] && z == [0, 0, 0, 0]
    ensures Candidates(b, m, 2) && IsSet(m[0], 0)
    ensures LatinRuleResult(m, 2, 0, 1) == z
    ensures forall log: seq<Sweep> :: LinesOk(log, 2) ==>
      ApplySweeps(z, log, 2) == z
    ensures FirstEmpty(b1, 2) != NO_SQUARE
    ensures TailAsWritten(b1, z) == OutsideBoard(-1)
  {
    ExampleCandidates(b, m);
    ExampleLatinRule(m);
    forall log: seq<Sweep> | LinesOk(log, 2)
      ensures ApplySweeps(z, log, 2) == z
    {
      ExampleSweeps(z, log);
    }
    assert b1[1] == 0;
  }

  /** Placing 1 at (0,0) takes the last candidate of both masks. */
  lemma ExampleLatinRule(m: seq<Bitmap>)
    requires m == [1, 1, 0, 0]
    ensures LatinRuleResult(m, 2, 0, 1) == [0, 0, 0, 0]
  {
    var m1 := LatinRuleResult(m, 2, 0, 1);
    assert m1[1] == UnsetBit(1, 0) && m1[2] == UnsetBit(0, 0);
  }

  /** The naked-pair sweeps leave empty masks empty. */
  lemma ExampleSweeps(z: seq<Bitmap>, log: seq<Sweep>)
    requires z == [0, 0, 0, 0] && LinesOk(log, 2)
    ensures ApplySweeps(z, log, 2) == z
  {
    var r := ApplySweeps(z, log, 2);
    NakedSubsetShrinks(z, log, 2);
    forall k | 0 <= k < 4
      ensures r[k] == 0
    {
      assert SubMask(r[k], z[k]);
      SubMaskOfZero(r[k]);
    }
  }

  /** The starting masks of the example describe the candidates of the empty board. */
  lemma ExampleCandidates(b: seq<int>, m: seq<Bitmap>)
    requires b == [0, 0, 0, 0] && m == [1, 1, 0, 0]
    ensures Candidates(b, m, 2)
  {
    var full := [LowMask(2), LowMask(2), LowMask(2), LowMask(2)];
    FullMasksOfEmptyBoard(b, full, 2);
    ExampleMasksShrink(m, full);
    ShrinkKeeps(b, full, m, 2);
  }

  lemma ExampleMasksShrink(m: seq<Bitmap>, full: seq<Bitmap>)
    requires m == [1, 1, 0, 0] && full == [LowMask(2), LowMask(2), LowMask(2), LowMask(2)]
    ensures Shrinks(m, full)
  {
    forall k | 0 <= k < |m|
      ensures SubMask(m[k], full[k])
    {
      LowBitsInLowMask(m[k]);
    }
  }

  /** Masks 0 and 1 hold only candidates of a 2 x 2 grid. */
  lemma LowBitsInLowMask(v: Bitmap)
    requires v <= 1
    ensures SubMask(v, LowMask(2))
  {
    forall q | 0 <= q < WIDTH && IsSet(v, q)
      ensures IsSet(LowMask(2), q)
    {
      if q > 0 {
        IsSetZero(q - 1);
      } else {
        LowMaskBit(2, q);
      }
    }
  }

  // ---- the driver, on an empty board

  /**
   * What solve_using_possibilities comes to: Finished when the source
   * returns, Unfollowed when it goes on into rounds of its hypothesis loop
   * that this model does not follow.
   */
  datatype Outcome = Finished(solved: bool) | Unfollowed

  /** Bits the block bounds leave were already there. */
  lemma RemoveImpossibleShrinks(p: seq<Bitmap>, blocks: seq<Block>, size: int)
    requires 0 <= size <= WIDTH && |p| == size * size
    requires forall b :: 0 <= b < |blocks| ==> SquaresInGrid(blocks[b].squares, size)
    ensures Shrinks(StrikeBlocks(p, blocks, size, |blocks|), p)
  {
    var r := StrikeBlocks(p, blocks, size, |blocks|);
    forall k, q | 0 <= k < |p| && 0 <= q < WIDTH && IsSet(r[k], q)
      ensures IsSet(p[k], q)
    {
      RemoveImpossibleMeaning(p, blocks, size, k, q);
    }
  }

  /**
   * The first steps of solve_using_possibilities: full masks, the block
   * bounds and one naked-pair pass, in a fresh array. On an empty board the
   * masks describe its candidates.
   */
  method PreparePossibilities(g: Grid, nbRmPossib: int, vrb: bool) returns (possib: array<Bitmap>, nb: int)
    requires Puzzle(g) && g.size <= WIDTH
    requires forall k :: 0 <= k < g.board.Length ==> g.board[k] == 0
    ensures fresh(possib) && possib.Length == g.size * g.size
    ensures Candidates(g.board[..], possib[..], g.size)
    ensures nb == (if vrb then nbRmPossib + g.size * SquareCount(g.blocks) else nbRmPossib)
    ensures nb >= nbRmPossib
  {
    ghost var b0 := g.board[..];
    possib := new Bitmap[g.size * g.size];
    MakePossibGrid(g, possib);
    FullMasksOfEmptyBoard(b0, possib[..], g.size);
    BlocksInGrid(g.size, g.blockBoard[..], g.blocks);
    nb := StrikeAndKeep(g, possib, b0, nbRmPossib, vrb);
    PairsAndKeep(g, possib, b0);
  }

  /** remove_impossible_possibilities keeps the masks describing candidates of the board. */
  method StrikeAndKeep(g: Grid, possib: array<Bitmap>, ghost b0: seq<int>, nbRmPossib: int, vrb: bool) returns (nb: int)
    requires g.Valid() && g.size <= WIDTH && possib.Length == g.size * g.size
    requires forall b :: 0 <= b < |g.blocks| ==> SquaresInGrid(g.blocks[b].squares, g.size)
    requires Candidates(b0, possib[..], g.size)
    modifies possib
    ensures Candidates(b0, possib[..], g.size)
    ensures nb == (if vrb then nbRmPossib + g.size * SquareCount(g.blocks) else nbRmPossib)
    ensures nb >= nbRmPossib
  {
    MulMono(0, SquareCount(g.blocks), g.size);
    ghost var m0 := possib[..];
    nb := RemoveImpossiblePossibilities(g, possib, nbRmPossib, vrb);
    RemoveImpossibleShrinks(m0, g.blocks, g.size);
    ShrinkKeeps(b0, m0, possib[..], g.size);
  }

  /** One pass of the naked-pair rule keeps the masks describing candidates of the board. */
  method PairsAndKeep(g: Grid, possib: array<Bitmap>, ghost b0: seq<int>)
    requires g.Valid() && possib.Length == g.size * g.size
    requires Candidates(b0, possib[..], g.size)
    modifies possib
    ensures Candidates(b0, possib[..], g.size)
  {
    ghost var m1 := possib[..];
    ApplyNakedSubsetRule(g, possib, 2);
    NakedRowsShrinks(m1, g.size, 2);
    ShrinkKeeps(b0, m1, possib[..], g.size);
  }

  /**
   * solve_using_possibilities on an empty board of at most WIDTH rows: full
   * masks, the block bounds and one naked-pair pass, then the recursive step
   * on the first cell with a single candidate. Without one, the source tries
   * the lowest candidate of the first cell that has any and, when that
   * fails, loops on with the board left as the recursive step left it; the
   * model follows that first round only. A solved board is full and every
   * value is unique in its row and column; an unsolved one holds at most the
   * one value the recursive step wrote.
   */
  method SolveUsingPossibilities(g: Grid, nbRmPossib: int, nbHypo: int, nbSet: int, nbUnset: int, vrb: bool)
      returns (outcome: Outcome, nbRmPossib': int, nbHypo': int, nbSet': int, nbUnset': int)
    requires Puzzle(g) && g.size <= WIDTH
    requires forall k :: 0 <= k < g.board.Length ==> g.board[k] == 0
    modifies g.board
    ensures outcome == Finished(true) ==> forall k :: 0 <= k < g.board.Length ==> g.board[k] != 0
    ensures outcome == Finished(true) ==>
      forall row, col :: 0 <= row < g.size && 0 <= col < g.size ==> Placed(g.board[..], g.size, row, col)
    ensures outcome == Finished(false) ==>
      forall k, j :: 0 <= k < j < g.board.Length ==> g.board[k] == 0 || g.board[j] == 0
    ensures !vrb ==> nbRmPossib' == nbRmPossib && nbHypo' == nbHypo && nbSet' == nbSet && nbUnset' == nbUnset
    ensures nbRmPossib' >= nbRmPossib && nbHypo' >= nbHypo && nbSet' >= nbSet && nbUnset' >= nbUnset
  {
    var possib;
    possib, nbRmPossib' := PreparePossibilities(g, nbRmPossib, vrb);
    nbHypo', nbSet', nbUnset' := nbHypo, nbSet, nbUnset;
    var position, value, single;
    position, value, single, nbHypo' := FirstHypothesis(g, possib, nbHypo, vrb);
    if position == -1 {
      // the source calls the recursive step with position -1 here
      return Unfollowed, nbRmPossib', nbHypo', nbSet', nbUnset';
    }
    outcome, nbHypo', nbSet', nbUnset' := FollowHypothesis(g, possib, position, value, single, nbHypo', nbSet', nbUnset', vrb);
  }

  /**
   * The first call of the recursive step from solve_using_possibilities, on
   * an empty board, and what the round then reports.
   */
  method FollowHypothesis(g: Grid, possib: array<Bitmap>, position: int, value: int, single: bool,
      nbHypo: int, nbSet: int, nbUnset: int, vrb: bool)
      returns (outcome: Outcome, nbHypo': int, nbSet': int, nbUnset': int)
    requires Puzzle(g) && forall k :: 0 <= k < g.board.Length ==> g.board[k] == 0
    requires Candidates(g.board[..], possib[..], g.size)
    requires 0 <= position < possib.Length && 1 <= value && IsSet(possib[position], value - 1)
    requires possib as object != g.board
    modifies g.board
    ensures outcome == Finished(true) ==> forall k :: 0 <= k < g.board.Length ==> g.board[k] != 0
    ensures outcome == Finished(true) ==>
      forall row, col :: 0 <= row < g.size && 0 <= col < g.size ==> Placed(g.board[..], g.size, row, col)
    ensures outcome == Finished(false) ==>
      forall k, j :: 0 <= k < j < g.board.Length ==> g.board[k] == 0 || g.board[j] == 0
    ensures !vrb ==> nbHypo' == nbHypo && nbSet' == nbSet && nbUnset' == nbUnset
    ensures nbHypo' >= nbHypo && nbSet' >= nbSet && nbUnset' >= nbUnset
  {
    ghost var b0 := g.board[..];
    var solved;
    solved, nbHypo', nbSet', nbUnset' := SolveUsingPossibilitiesSub(g, possib, position, value, nbHypo, nbSet, nbUnset, vrb);
    if solved {
      FilledFromEmpty(b0, g.board[..], g.size);
      return Finished(true), nbHypo', nbSet', nbUnset';
    }
    if !single {
      // the source clears the candidate in possib and starts another round
      return Unfollowed, nbHypo', nbSet', nbUnset';
    }
    AtMostOneWritten(b0, g.board[..], position, value);
    return Finished(false), nbHypo', nbSet', nbUnset';
  }

  /**
   * The cell and value solve_using_possibilities hands to the recursive
   * step first: the first cell with a single candidate, or else the first
   * cell with any, with its lowest candidate; -1 when no cell has one. The
   * hypothesis counter goes up when the loop is entered.
   */
  method FirstHypothesis(g: Grid, possib: array<Bitmap>, nbHypo: int, vrb: bool)
      returns (position: int, value: int, single: bool, nbHypo': int)
    requires g.Valid() && possib.Length == g.size * g.size
    ensures single <==> exists k :: 0 <= k < possib.Length && PopCount(possib[k]) == 1
    ensures single ==> 0 <= position < possib.Length && PopCount(possib[position]) == 1
    ensures position == -1 <==> forall k :: 0 <= k < possib.Length ==> possib[k] == 0
    ensures position != -1 ==>
      0 <= position < possib.Length && 1 <= value && IsSet(possib[position], value - 1)
      && value == RightmostSetBit(possib[position])
    ensures !single && position != -1 ==> forall k :: 0 <= k < position ==> possib[k] == 0
    ensures nbHypo' == (if vrb && !single && position != -1 then nbHypo + 1 else nbHypo)
  {
    nbHypo' := nbHypo;
    value := -1;
    position, value := FindSinglePossibilityPos(g, possib, value);
    single := position != -1;
    if single {
      PopCountZero(possib[position]);
      return;
    }
    position, value := FindNextPossibilityPos(g, possib, value);
    forall k | 0 <= k < possib.Length
      ensures possib[k] == 0 <==> PopCount(possib[k]) == 0
    {
      PopCountZero(possib[k]);
    }
    if position == -1 {
      return;
    }
    if vrb { nbHypo' := nbHypo' + 1; }
    // the loop calls find_next_possibility_pos again, for value only
    var again;
    again, value := FindNextPossibilityPos(g, possib, value);
    assert again == position;
  }

  /** A full board that extends the empty one has every value unique in its row and column. */
  lemma FilledFromEmpty(b0: seq<int>, b: seq<int>, size: int)
    requires 0 <= size && |b0| == size * size && |b| == size * size
    requires forall k :: 0 <= k < |b0| ==> b0[k] == 0
    requires forall k :: 0 <= k < |b| ==> b[k] != 0
    requires Extends(b0, b, size)
    ensures forall row, col :: 0 <= row < size && 0 <= col < size ==> Placed(b, size, row, col)
  {
    forall row, col | 0 <= row < size && 0 <= col < size
      ensures Placed(b, size, row, col)
    {
      var k := Index(row, col, size);
      assert b0[k] == 0 && b[k] != 0;
    }
  }

  /** The empty board with at most one cell written has no two nonzero cells. */
  lemma AtMostOneWritten(b0: seq<int>, b: seq<int>, p: int, v: int)
    requires forall k :: 0 <= k < |b0| ==> b0[k] == 0
    requires 0 <= p < |b0| && (b == b0 || b == b0[p := v])
    ensures forall k, j :: 0 <= k < j < |b| ==> b[k] == 0 || b[j] == 0
  {
  }
}
