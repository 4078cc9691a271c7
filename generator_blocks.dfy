/**
 * The second half of the grid generator (src/generator.c): carving the
 * block board, computing each block's goal, choosing its operator, and the
 * generate entry point that chains everything behind fill_values.
 */
module GeneratorBlocks {
  import opened ErrCodes
  import opened GridModel
  import opened Solver
  import opened Bruteforce
  import opened Generator

  // ---- calculate_goal

  /** One step of the loop of calculate_goal: the goal so far combined with the next value. */
  function Combine(op: Operator, goal: int, num: int): (r: int)
    requires op == Divide ==> goal >= 1 && num >= 1
    ensures op == Divide ==> r >= 1 && r * Min(goal, num) <= Max(goal, num)
  {
    match op
    case Plus => goal + num
    case Minus => Abs(num - goal)
    case Multiply => goal * num
    case Divide => if goal > num then goal / num else num / goal
  }

  /** What the operator needs of the values for every division to be defined. */
  predicate GoalDefined(op: Operator, vs: seq<int>)
  {
    |vs| >= 1 && (op == Divide ==> Positive(vs))
  }

  /**
   * The goal of a block with values vs under op: the first value, then each
   * further value folded in, in list order.
   */
  function Goal(op: Operator, vs: seq<int>): (r: int)
    requires GoalDefined(op, vs)
    ensures op == Divide ==> r >= 1
    decreases |vs|
  {
    if |vs| == 1 then vs[0]
    else
      var init := vs[..|vs| - 1];
      assert GoalDefined(op, init) by {
        if op == Divide {
          assert forall i :: 0 <= i < |init| ==> init[i] == vs[i];
        }
      }
      Combine(op, Goal(op, init), vs[|vs| - 1])
  }

  /** Under '+' the goal is the sum of the values. */
  lemma {:induction false} GoalPlusIsSum(vs: seq<int>)
    requires |vs| >= 1
    ensures Goal(Plus, vs) == Sum(vs)
    decreases |vs|
  {
    var init := vs[..|vs| - 1];
    if |vs| == 1 {
      assert init == [];
    } else {
      GoalPlusIsSum(init);
    }
  }

  /** Under 'x' the goal is the product of the values. */
  lemma {:induction false} GoalMultiplyIsProd(vs: seq<int>)
    requires |vs| >= 1
    ensures Goal(Multiply, vs) == Prod(vs)
    decreases |vs|
  {
    var init := vs[..|vs| - 1];
    if |vs| == 1 {
      assert init == [];
    } else {
      GoalMultiplyIsProd(init);
    }
  }

  /** Under '-' the goal of two values is their distance. */
  lemma GoalMinusPair(a: int, b: int)
    ensures Goal(Minus, [a, b]) == Abs(b - a) == Max(a, b) - Min(a, b)
  {
    assert [a, b][..1] == [a];
  }

  /** Under '/' the goal of two positive values is the larger divided by the smaller. */
  lemma GoalDividePair(a: int, b: int)
    requires a >= 1 && b >= 1
    ensures Goal(Divide, [a, b]) == Max(a, b) / Min(a, b)
  {
    assert [a, b][..1] == [a];
  }

  /**
   * The goal the loop of calculate_goal computes for block numBlock of the
   * grid: the fold of the values of its cells, in the order they are listed.
   */
  method CalculateGoal(op: Operator, g: Grid, numBlock: int) returns (goal: int)
    requires g.Valid() && 0 <= numBlock < |g.blocks|
    requires SquaresInGrid(g.blocks[numBlock].squares, g.size)
    requires GoalDefined(op, BlockValues(g.board[..], g.size, g.blocks[numBlock].squares))
    ensures goal == Goal(op, BlockValues(g.board[..], g.size, g.blocks[numBlock].squares))
  {
    var b := g.board[..];
    var squares := g.blocks[numBlock].squares;
    ghost var vs := BlockValues(b, g.size, squares);
    var nbSquares := |squares|;
    BlockValuesAt(b, g.size, squares, 0);
    BlockValuesPrefix(b, g.size, squares, 1);
    var x := squares[0].x;
    var y := squares[0].y;
    goal := g.board[Index(x, y, g.size)];
    assert vs[..1] == [goal];
    var i := 1;
    while i < nbSquares
      invariant 1 <= i <= nbSquares
      invariant GoalDefined(op, vs[..i]) && goal == Goal(op, vs[..i])
    {
      x := squares[i].x;
      y := squares[i].y;
      var num := g.board[Index(x, y, g.size)];
      BlockValuesAt(b, g.size, squares, i);
      assert vs[..i + 1][..i] == vs[..i];
      goal := Combine(op, goal, num);
      i := i + 1;
    }
    assert vs[..i] == vs;
  }

  // ---- is_divide_possible

  /** is_divide_possible on the values a, b of the block's first two cells. */
  function DividePossible(a: int, b: int): (r: bool)
    requires a >= 1 && b >= 1
  {
    if a > b then a % b == 0 else b % a == 0
  }

  /**
   * Division is possible exactly when the '/' goal of the pair is an exact
   * quotient: the goal times the smaller value gives back the larger.
   */
  lemma DividePossibleExact(a: int, b: int)
    requires a >= 1 && b >= 1
    ensures DividePossible(a, b) <==> Goal(Divide, [a, b]) * Min(a, b) == Max(a, b)
  {
    GoalDividePair(a, b);
    var q := Max(a, b) / Min(a, b);
    var m := Max(a, b) % Min(a, b);
    assert Max(a, b) == q * Min(a, b) + m;
    if q * Min(a, b) == Max(a, b) {
      assert m == 0;
    }
  }

  // ---- try_to_put_block and fill_block_board

  /**
   * try_to_put_block: writes numBlock into cell (row, col) when that cell is
   * inside the grid and still free, and reports whether it did; otherwise
   * nothing changes. Callers only pass non-negative coordinates.
   */
  method TryToPutBlock(g: Grid, row: int, col: int, numBlock: int) returns (ok: bool)
    requires g.Valid() && 0 <= row && 0 <= col
    modifies g.blockBoard
    ensures ok <==> row < g.size && col < g.size && old(g.blockBoard[Index(row, col, g.size)]) == 0
    ensures ok ==> g.blockBoard[..] == old(g.blockBoard[..])[Index(row, col, g.size) := numBlock]
    ensures !ok ==> g.blockBoard[..] == old(g.blockBoard[..])
  {
    var size := g.size;
    if row < size && col < size && g.blockBoard[Index(row, col, size)] == 0 {
      g.blockBoard[Index(row, col, size)] := numBlock;
    } else {
      return false;
    }
    return true;
  }

  /**
   * The block board between two blocks of fill_block_board: the cells before
   * index are taken, every entry is 0 or a block number below numBlock, block
   * j + 1 has a cell at anchors[j], and no block has more than MAX_BLOCK_SIZE
   * cells.
   */
  predicate Carved(bb: seq<int>, index: int, numBlock: int, anchors: seq<int>)
  {
    0 <= index <= |bb| && numBlock >= 1 && |anchors| == numBlock - 1
    && (forall k :: 0 <= k < index ==> bb[k] != 0)
    && (forall k :: 0 <= k < |bb| ==> 0 <= bb[k] < numBlock)
    && (forall j :: 0 <= j < |anchors| ==> 0 <= anchors[j] < |bb| && bb[anchors[j]] == j + 1)
    && (forall j :: 1 <= j < numBlock ==> multiset(bb)[j] <= MAX_BLOCK_SIZE)
  }

  /**
   * The block board while block numBlock grows from its first cell at index:
   * as Carved, with numBlock allowed and holding count cells.
   */
  predicate Growing(bb: seq<int>, index: int, numBlock: int, anchors: seq<int>, count: int)
  {
    0 <= index < |bb| && numBlock >= 1 && |anchors| == numBlock - 1
    && bb[index] == numBlock
    && (forall k :: 0 <= k < index ==> bb[k] != 0)
    && (forall k :: 0 <= k < |bb| ==> 0 <= bb[k] <= numBlock)
    && (forall j :: 0 <= j < |anchors| ==> 0 <= anchors[j] < |bb| && bb[anchors[j]] == j + 1)
    && (forall j :: 1 <= j < numBlock ==> multiset(bb)[j] <= MAX_BLOCK_SIZE)
    && multiset(bb)[numBlock] == count
  }

  /** Writing the first cell of a new block at the first free position starts it with one cell. */
  lemma StartGrowing(bb: seq<int>, index: int, numBlock: int, anchors: seq<int>)
    requires Carved(bb, index, numBlock, anchors) && index < |bb| && bb[index] == 0
    ensures Growing(bb[index := numBlock], index, numBlock, anchors, 1)
  {
    assert numBlock !in bb;
    var bb' := bb[index := numBlock];
    forall j | 1 <= j < numBlock
      ensures multiset(bb')[j] <= MAX_BLOCK_SIZE
    {
      assert multiset(bb')[j] == multiset(bb)[j];
    }
  }

  /** Writing numBlock into a free cell adds one cell to the growing block and nothing else. */
  lemma PutGrows(bb: seq<int>, index: int, numBlock: int, anchors: seq<int>, count: int, p: int)
    requires Growing(bb, index, numBlock, anchors, count) && 0 <= p < |bb| && bb[p] == 0
    ensures Growing(bb[p := numBlock], index, numBlock, anchors, count + 1)
  {
    var bb' := bb[p := numBlock];
    forall j | 1 <= j < numBlock
      ensures multiset(bb')[j] <= MAX_BLOCK_SIZE
    {
      assert multiset(bb')[j] == multiset(bb)[j];
    }
  }

  /** A block of at most MAX_BLOCK_SIZE cells closes: the next block starts after index. */
  lemma StopGrowing(bb: seq<int>, index: int, numBlock: int, anchors: seq<int>, count: int)
    requires Growing(bb, index, numBlock, anchors, count) && count <= MAX_BLOCK_SIZE
    ensures Carved(bb, index + 1, numBlock + 1, anchors + [index])
  {
  }

  /** The cell one step down (choice 0) or one step right (choice 1) of (row, col). */
  function Step(row: int, col: int, choice: int): (r: (int, int))
    requires choice == 0 || choice == 1
    ensures r.0 + r.1 == row + col + 1
  {
    (row + 1 - choice, col + choice)
  }

  /**
   * The two tries of one step of fill_block_board: the cell in the direction
   * choice, and failing that the cell in the other direction. When neither is
   * free, the board is unchanged.
   */
  method PutNext(g: Grid, row: int, col: int, choice: int, index: int, numBlock: int,
                 ghost anchors: seq<int>, ghost count: int)
    returns (ok: bool, row': int, col': int)
    requires g.Valid() && 0 <= row < g.size && 0 <= col < g.size && (choice == 0 || choice == 1)
    requires Growing(g.blockBoard[..], index, numBlock, anchors, count)
    modifies g.blockBoard
    ensures ok ==> 0 <= row' < g.size && 0 <= col' < g.size
    ensures ok ==> Growing(g.blockBoard[..], index, numBlock, anchors, count + 1)
    ensures !ok ==> g.blockBoard[..] == old(g.blockBoard[..])
  {
    var next := Step(row, col, choice);
    ghost var bb := g.blockBoard[..];
    ok := TryToPutBlock(g, next.0, next.1, numBlock);
    if !ok {
      next := Step(row, col, 1 - choice);
      ok := TryToPutBlock(g, next.0, next.1, numBlock);
      if !ok {
        return false, row, col;
      }
    }
    PutGrows(bb, index, numBlock, anchors, count, Index(next.0, next.1, g.size));
    row', col' := next.0, next.1;
  }

  /**
   * The loop of fill_block_board from `nb_squares = 1` to the end of the inner
   * walk: block numBlock takes the free cell at index, then grows by steps
   * down or right, each a fresh cell of the grid, for at most tmp_max cells.
   */
  method GrowBlock(g: Grid, difficulty: int, rng: RandomSource, index: int, numBlock: int,
                   ghost anchors: seq<int>)
    requires g.Valid() && rng.Valid() && g.size >= 1
    requires Carved(g.blockBoard[..], index, numBlock, anchors)
    requires index < g.blockBoard.Length && g.blockBoard[index] == 0
    modifies g.blockBoard, rng`next
    ensures Carved(g.blockBoard[..], index + 1, numBlock + 1, anchors + [index])
  {
    var size := g.size;
    var nbSquares := 1;
    StartGrowing(g.blockBoard[..], index, numBlock, anchors);
    g.blockBoard[index] := numBlock;
    DivisionBounds(index, size);
    var row := index / size;
    var col := index % size;
    var r := rng.Rand();
    var tmpMax := r % MAX_BLOCK_SIZE + 1;
    while true
      invariant 0 <= row < size && 0 <= col < size && 1 <= nbSquares <= tmpMax <= MAX_BLOCK_SIZE
      invariant Growing(g.blockBoard[..], index, numBlock, anchors, nbSquares)
      decreases tmpMax - nbSquares
    {
      var more := nbSquares < tmpMax;
      nbSquares := nbSquares + 1;
      if !more {
        break;
      }
      if nbSquares == 3 {
        var r1 := rng.Rand();
        if r1 % 100 <= 50 - 5 * difficulty {
          break;
        }
      }
      var r2 := rng.Rand();
      if r2 % 100 >= difficulty * 15 {
        break;
      }
      var r3 := rng.Rand();
      var ok;
      ok, row, col := PutNext(g, row, col, r3 % 2, index, numBlock, anchors, nbSquares - 1);
      if !ok {
        break;
      }
    }
    StopGrowing(g.blockBoard[..], index, numBlock, anchors, nbSquares - 1);
  }

  /**
   * fill_block_board, from an all-zero block board: every cell ends in one of
   * the blocks 1 .. nb, every one of those blocks has a cell, and none has
   * more than MAX_BLOCK_SIZE cells. nb is num_block - 1.
   */
  method FillBlockBoard(g: Grid, difficulty: int, rng: RandomSource) returns (nb: int)
    requires g.Valid() && rng.Valid() && g.size >= 1
    requires forall k :: 0 <= k < g.blockBoard.Length ==> g.blockBoard[k] == 0
    modifies g.blockBoard, rng`next
    ensures nb >= 1
    ensures forall k :: 0 <= k < g.blockBoard.Length ==> 1 <= g.blockBoard[k] <= nb
    ensures forall j :: 1 <= j <= nb ==> j in g.blockBoard[..]
    ensures forall j :: 1 <= j <= nb ==> multiset(g.blockBoard[..])[j] <= MAX_BLOCK_SIZE
  {
    var size := g.size;
    var numBlock := 1;
    var index := 0;
    var isFull := false;
    ghost var anchors: seq<int> := [];
    MulMono(1, size, size);
    while !isFull
      invariant Carved(g.blockBoard[..], index, numBlock, anchors)
      invariant isFull <==> index == size * size
      invariant index > 0 ==> numBlock > 1
      decreases size * size - index
    {
      if g.blockBoard[index] != 0 {
        index := index + 1;
        isFull := index == size * size;
        continue;
      }
      GrowBlock(g, difficulty, rng, index, numBlock, anchors);
      anchors := anchors + [index];
      numBlock := numBlock + 1;
      index := index + 1;
      isFull := index == size * size;
    }
    nb := numBlock - 1;
    forall j | 1 <= j <= nb
      ensures j in g.blockBoard[..]
    {
      assert g.blockBoard[..][anchors[j - 1]] == j;
    }
  }

  // ---- the operators of generate

  /** The character generate stores for each operator. */
  function Symbol(op: Operator): char
  {
    match op
    case Plus => '+'
    case Minus => '-'
    case Multiply => 'x'
    case Divide => '/'
  }

  /** The operator a stored character stands for; anything unknown reads as '+'. */
  function OperatorOf(c: char): (op: Operator)
    ensures c == Symbol(op) || (op == Plus && c != '-' && c != 'x' && c != '/')
  {
    if c == '-' then Minus else if c == 'x' then Multiply else if c == '/' then Divide else Plus
  }

  /** The position of each operator in enum operators (and in opr_stats). */
  function OperatorNumber(op: Operator): (n: int)
    ensures 0 <= n < 4
  {
    match op
    case Plus => 0
    case Minus => 1
    case Multiply => 2
    case Divide => 3
  }

  /** The operator generate draws for a block, and the number of calls of rand() it takes. */
  datatype Choice = Choice(op: Operator, draws: nat)

  /**
   * The draw of generate for a block of nbSquares cells, from call t of
   * rand(): a single cell gets '+' without a draw; two cells get '-' or '/'
   * with probability 70 percent; otherwise 'x' or '+'.
   */
  function ChosenOperator(nbSquares: int, values: seq<int>, t: nat): (c: Choice)
    requires |values| > 0
    ensures nbSquares == 1 ==> c == Choice(Plus, 0)
    ensures nbSquares != 1 ==> 1 <= c.draws <= 2 && (nbSquares != 2 ==> c.draws == 1)
    ensures c.op == Minus || c.op == Divide ==> nbSquares == 2
  {
    if nbSquares == 1 then Choice(Plus, 0)
    else if nbSquares == 2 && Draw(values, t) % 100 >= MINUS_DIVIDE_PROBA then
      Choice(if Draw(values, t + 1) % 2 != 0 then Minus else Divide, 2)
    else
      var u := if nbSquares == 2 then t + 1 else t;
      Choice(if Draw(values, u) % 100 <= MULTIPLY_DEFAULT_PROBA then Multiply else Plus, u - t + 1)
  }

  /**
   * The switch of generate: a drawn '/' falls back to '+' when the block is
   * larger than two cells or its two values do not divide each other.
   */
  function FinalOperator(op: Operator, vs: seq<int>): (r: Operator)
    requires op == Divide ==> |vs| >= 2 && Positive(vs)
    ensures r != op ==> op == Divide && r == Plus
    ensures r == Divide ==> op == Divide && |vs| == 2 && DividePossible(vs[0], vs[1])
    ensures op == Divide && |vs| == 2 && DividePossible(vs[0], vs[1]) ==> r == Divide
  {
    if op == Divide && (|vs| > 2 || !DividePossible(vs[0], vs[1])) then Plus else op
  }

  /**
   * What generate promises of every block it produces: one to MAX_BLOCK_SIZE
   * cells of the grid holding positive values, one of the four operator
   * characters, '+' on single cells, '-' and '/' only on pairs, '/' only on
   * pairs that divide, and the goal its own values give under its operator.
   */
  predicate Constrained(b: seq<int>, size: int, bl: Block)
    requires |b| == size * size
  {
    1 <= |bl.squares| <= MAX_BLOCK_SIZE && SquaresInGrid(bl.squares, size)
    && var vs := BlockValues(b, size, bl.squares);
    var op := OperatorOf(bl.opr);
    Positive(vs) && bl.opr == Symbol(op)
    && (|vs| == 1 ==> op == Plus)
    && (op == Minus || op == Divide ==> |vs| == 2)
    && (op == Divide ==> DividePossible(vs[0], vs[1]))
    && bl.goal == Goal(op, vs)
  }

  /**
   * A constrained block is satisfied by the board it was generated from: its
   * goal is the sum, the product, the distance of the pair, or the exact
   * quotient of the pair, as its operator says.
   */
  lemma ConstrainedSatisfied(b: seq<int>, size: int, bl: Block)
    requires |b| == size * size && Constrained(b, size, bl)
    ensures var vs := BlockValues(b, size, bl.squares);
      && (bl.opr == '+' ==> bl.goal == Sum(vs))
      && (bl.opr == 'x' ==> bl.goal == Prod(vs))
      && (bl.opr == '-' ==> |vs| == 2 && bl.goal == Abs(vs[1] - vs[0]))
      && (bl.opr == '/' ==> |vs| == 2 && bl.goal * Min(vs[0], vs[1]) == Max(vs[0], vs[1]))
  {
    var vs := BlockValues(b, size, bl.squares);
    if bl.opr == '+' {
      GoalPlusIsSum(vs);
    } else if bl.opr == 'x' {
      GoalMultiplyIsProd(vs);
    } else if bl.opr == '-' {
      assert vs == [vs[0], vs[1]];
      GoalMinusPair(vs[0], vs[1]);
    } else if bl.opr == '/' {
      assert vs == [vs[0], vs[1]];
      DividePossibleExact(vs[0], vs[1]);
    }
  }

  /**
   * Whatever rand() hands out, the operator and goal generate gives a block of
   * one to MAX_BLOCK_SIZE cells with positive values make it Constrained.
   */
  lemma ChoiceConstrained(b: seq<int>, size: int, bl: Block, values: seq<int>, t: nat)
    requires |b| == size * size && |values| > 0
    requires 1 <= |bl.squares| <= MAX_BLOCK_SIZE && SquaresInGrid(bl.squares, size)
    requires Positive(BlockValues(b, size, bl.squares))
    ensures var vs := BlockValues(b, size, bl.squares);
      var op := FinalOperator(ChosenOperator(|vs|, values, t).op, vs);
      Constrained(b, size, bl.(opr := Symbol(op), goal := Goal(op, vs)))
  {
  }

  /** The values of a Latin square are positive, so every block of it has positive values. */
  lemma LatinValuesPositive(b: seq<int>, size: int, squares: seq<Location>)
    requires 0 <= size && |b| == size * size && IsLatin(b, size) && SquaresInGrid(squares, size)
    ensures Positive(BlockValues(b, size, squares))
  {
    var vs := BlockValues(b, size, squares);
    forall k | 0 <= k < |vs|
      ensures vs[k] >= 1
    {
      BlockValuesAt(b, size, squares, k);
      assert Placed(b, size, squares[k].x, squares[k].y);
    }
  }

  /**
   * What the constraint loop of generate needs of the blocks fill_squares_array
   * built: one to MAX_BLOCK_SIZE cells each, inside the grid, with positive values.
   */
  predicate BlocksReady(b: seq<int>, size: int, blocks: seq<Block>)
    requires |b| == size * size
  {
    forall k {:trigger Ready(b, size, blocks[k])} :: 0 <= k < |blocks| ==> Ready(b, size, blocks[k])
  }

  /** One block as fill_squares_array leaves it, ready for its constraint. */
  predicate Ready(b: seq<int>, size: int, bl: Block)
    requires |b| == size * size
  {
    1 <= |bl.squares| <= MAX_BLOCK_SIZE && SquaresInGrid(bl.squares, size)
    && Positive(BlockValues(b, size, bl.squares))
  }

  /**
   * The draws of generate for a block of more than one cell: with two cells,
   * first whether it gets '-' or '/', then which; otherwise 'x' or '+'.
   */
  method DrawOperator(nbSquares: int, rng: RandomSource) returns (op: Operator)
    requires rng.Valid() && nbSquares != 1
    modifies rng`next
    ensures var c := ChosenOperator(nbSquares, rng.values, old(rng.next));
      op == c.op && rng.next == old(rng.next) + c.draws
  {
    var pair := false;
    if nbSquares == 2 {
      var r := rng.Rand();
      pair := r % 100 >= MINUS_DIVIDE_PROBA;
    }
    if pair {
      var r := rng.Rand();
      op := if r % 2 != 0 then Minus else Divide;
    } else {
      var r := rng.Rand();
      op := if r % 100 <= MULTIPLY_DEFAULT_PROBA then Multiply else Plus;
    }
  }

  /**
   * One turn of the constraint loop of generate: draw the operator of block
   * i, apply the '/' fallback, store its character and the goal
   * calculate_goal gives.
   */
  method AllocateConstraint(g: Grid, i: int, rng: RandomSource)
    requires g.Valid() && rng.Valid() && 0 <= i < |g.blocks| && Ready(g.board[..], g.size, g.blocks[i])
    modifies g`blocks, rng`next
    ensures g.Valid()
    ensures var vs := BlockValues(g.board[..], g.size, old(g.blocks[i].squares));
      var c := ChosenOperator(|vs|, rng.values, old(rng.next));
      var op := FinalOperator(c.op, vs);
      rng.next == old(rng.next) + c.draws
      && g.blocks == old(g.blocks)[i := old(g.blocks[i]).(opr := Symbol(op), goal := Goal(op, vs))]
    ensures Constrained(g.board[..], g.size, g.blocks[i])
  {
    ghost var t := rng.next;
    var squares := g.blocks[i].squares;
    ghost var vs := BlockValues(g.board[..], g.size, squares);
    var nbSquares := |squares|;
    var op := Plus;
    var c := '+';
    if nbSquares != 1 {
      op := DrawOperator(nbSquares, rng);
      c := Symbol(op);
      if op == Divide {
        BlockValuesAt(g.board[..], g.size, squares, 0);
        BlockValuesAt(g.board[..], g.size, squares, 1);
        if nbSquares > 2 || !DividePossible(g.board[Index(squares[0].x, squares[0].y, g.size)],
                                            g.board[Index(squares[1].x, squares[1].y, g.size)]) {
          c, op := '+', Plus;
        }
      }
    }
    assert op == FinalOperator(ChosenOperator(nbSquares, rng.values, t).op, vs);
    ChoiceConstrained(g.board[..], g.size, g.blocks[i], rng.values, t);
    SetConstraint(g, i, op);
  }

  /** The assignments of generate that store the operator character and the goal of block i. */
  method SetConstraint(g: Grid, i: int, op: Operator)
    requires g.Valid() && 0 <= i < |g.blocks| && SquaresInGrid(g.blocks[i].squares, g.size)
    requires GoalDefined(op, BlockValues(g.board[..], g.size, g.blocks[i].squares))
    modifies g`blocks
    ensures g.Valid()
    ensures g.blocks == old(g.blocks)[i := old(g.blocks[i]).(opr := Symbol(op),
      goal := Goal(op, BlockValues(g.board[..], g.size, old(g.blocks[i].squares))))]
  {
    g.blocks := g.blocks[i := g.blocks[i].(opr := Symbol(op))];
    var goal := CalculateGoal(op, g, i);
    g.blocks := g.blocks[i := g.blocks[i].(goal := goal)];
  }

  // ---- the verbose counters of generate

  /** The number of blocks of s with n cells. */
  function CountOfSize(s: seq<Block>, n: int): (c: nat)
    ensures c <= |s|
  {
    if s == [] then 0
    else CountOfSize(s[..|s| - 1], n) + (if |s[|s| - 1].squares| == n then 1 else 0)
  }

  /** The number of blocks of s whose operator character is c. */
  function CountOfOperator(s: seq<Block>, c: char): (k: nat)
    ensures k <= |s|
  {
    if s == [] then 0
    else CountOfOperator(s[..|s| - 1], c) + (if s[|s| - 1].opr == c then 1 else 0)
  }

  /**
   * Blocks with one to MAX_BLOCK_SIZE cells are counted once each by size:
   * the entries of size_stats add up to the number of blocks.
   */
  lemma {:induction false} SizeCountsAddUp(s: seq<Block>)
    requires forall k :: 0 <= k < |s| ==> 1 <= |s[k].squares| <= MAX_BLOCK_SIZE
    ensures CountOfSize(s, 1) + CountOfSize(s, 2) + CountOfSize(s, 3)
            + CountOfSize(s, 4) + CountOfSize(s, 5) == |s|
  {
    if s != [] {
      SizeCountsAddUp(s[..|s| - 1]);
    }
  }

  /**
   * Blocks carrying one of the four operator characters are counted once
   * each by operator: the entries of opr_stats add up to the number of blocks.
   */
  lemma {:induction false} OperatorCountsAddUp(s: seq<Block>)
    requires forall k :: 0 <= k < |s| ==> s[k].opr == Symbol(OperatorOf(s[k].opr))
    ensures CountOfOperator(s, '+') + CountOfOperator(s, '-') + CountOfOperator(s, 'x')
            + CountOfOperator(s, '/') == |s|
  {
    if s != [] {
      OperatorCountsAddUp(s[..|s| - 1]);
      var last := s[|s| - 1];
      assert last.opr == Symbol(OperatorOf(last.opr));
    }
  }

  /** The counters of generate for the blocks s: size_stats, then opr_stats in enum order. */
  function Statistics(s: seq<Block>): (st: (seq<int>, seq<int>))
    ensures |st.0| == MAX_BLOCK_SIZE && |st.1| == 4
  {
    ([CountOfSize(s, 1), CountOfSize(s, 2), CountOfSize(s, 3), CountOfSize(s, 4), CountOfSize(s, 5)],
     [CountOfOperator(s, '+'), CountOfOperator(s, '-'), CountOfOperator(s, 'x'), CountOfOperator(s, '/')])
  }

  /** Counting one more block adds one to its size entry and to its operator entry. */
  lemma StatisticsStep(s: seq<Block>, bl: Block, op: Operator)
    requires 1 <= |bl.squares| <= MAX_BLOCK_SIZE && bl.opr == Symbol(op)
    ensures var st := Statistics(s);
      var n := |bl.squares| - 1;
      var o := OperatorNumber(op);
      Statistics(s + [bl]) == (st.0[n := st.0[n] + 1], st.1[o := st.1[o] + 1])
  {
    var s' := s + [bl];
    assert s'[..|s|] == s;
    var st, st' := Statistics(s), Statistics(s');
    var n := |bl.squares| - 1;
    var o := OperatorNumber(op);
    forall k | 0 <= k < MAX_BLOCK_SIZE
      ensures st'.0[k] == st.0[n := st.0[n] + 1][k]
    {
      assert st'.0[k] == CountOfSize(s', k + 1) == CountOfSize(s, k + 1) + (if n == k then 1 else 0);
    }
    forall k | 0 <= k < 4
      ensures st'.1[k] == st.1[o := st.1[o] + 1][k]
    {
      var c := ['+', '-', 'x', '/'][k];
      assert st'.1[k] == CountOfOperator(s', c) == CountOfOperator(s, c) + (if o == k then 1 else 0);
    }
    assert st'.0 == st.0[n := st.0[n] + 1];
    assert st'.1 == st.1[o := st.1[o] + 1];
  }

  /**
   * What the constraint loop of generate has established once blocks
   * 0 .. i-1 are done: the cells of the blocks are those of blocks0, the done
   * blocks are Constrained, and the counters count them in verbose mode.
   */
  predicate ConstraintsUpTo(b: seq<int>, size: int, blocks: seq<Block>, blocks0: seq<Block>, i: int,
                            vrb: bool, sizeStats: seq<int>, oprStats: seq<int>)
    requires |b| == size * size
  {
    0 <= i <= |blocks| == |blocks0|
    && (forall k :: 0 <= k < |blocks| ==> blocks[k].squares == blocks0[k].squares)
    && (forall k {:trigger Constrained(b, size, blocks[k])} :: 0 <= k < i ==> Constrained(b, size, blocks[k]))
    && (sizeStats, oprStats) == if vrb then Statistics(blocks[..i]) else Statistics([])
  }

  /** Storing a Constrained block at i and counting it extends ConstraintsUpTo to i + 1. */
  lemma ConstraintsStep(b: seq<int>, size: int, blocks: seq<Block>, blocks0: seq<Block>, i: int,
                        vrb: bool, sizeStats: seq<int>, oprStats: seq<int>, bl: Block, op: Operator,
                        sizeStats': seq<int>, oprStats': seq<int>)
    requires |b| == size * size && ConstraintsUpTo(b, size, blocks, blocks0, i, vrb, sizeStats, oprStats)
    requires i < |blocks| && bl.squares == blocks[i].squares && Constrained(b, size, bl) && bl.opr == Symbol(op)
    requires var n, o := |bl.squares| - 1, OperatorNumber(op);
      sizeStats' == (if vrb then sizeStats[n := sizeStats[n] + 1] else sizeStats)
      && oprStats' == (if vrb then oprStats[o := oprStats[o] + 1] else oprStats)
    ensures ConstraintsUpTo(b, size, blocks[i := bl], blocks0, i + 1, vrb, sizeStats', oprStats')
  {
    var blocks' := blocks[i := bl];
    assert blocks'[..i + 1] == blocks[..i] + [bl];
    StatsStep(blocks[..i], vrb, sizeStats, oprStats, bl, op, sizeStats', oprStats');
    ConstrainedStep(b, size, blocks, i, bl);
  }

  /** The counters after one more block, as Statistics of the longer prefix. */
  lemma StatsStep(s: seq<Block>, vrb: bool, sizeStats: seq<int>, oprStats: seq<int>, bl: Block, op: Operator,
                  sizeStats': seq<int>, oprStats': seq<int>)
    requires 1 <= |bl.squares| <= MAX_BLOCK_SIZE && bl.opr == Symbol(op)
    requires (sizeStats, oprStats) == if vrb then Statistics(s) else Statistics([])
    requires var n, o := |bl.squares| - 1, OperatorNumber(op);
      sizeStats' == (if vrb then sizeStats[n := sizeStats[n] + 1] else sizeStats)
      && oprStats' == (if vrb then oprStats[o := oprStats[o] + 1] else oprStats)
    ensures (sizeStats', oprStats') == if vrb then Statistics(s + [bl]) else Statistics([])
  {
    StatisticsStep(s, bl, op);
  }

  /** Storing a Constrained block at i keeps blocks 0 .. i-1 and makes 0 .. i Constrained. */
  lemma ConstrainedStep(b: seq<int>, size: int, blocks: seq<Block>, i: int, bl: Block)
    requires |b| == size * size && 0 <= i < |blocks| && Constrained(b, size, bl)
    requires forall k {:trigger Constrained(b, size, blocks[k])} :: 0 <= k < i ==> Constrained(b, size, blocks[k])
    ensures forall k {:trigger Constrained(b, size, blocks[i := bl][k])} :: 0 <= k < i + 1 ==>
      Constrained(b, size, blocks[i := bl][k])
  {
    var bs := blocks[i := bl];
    forall k | 0 <= k < i + 1
      ensures Constrained(b, size, bs[k])
    {
      if k < i {
        assert bs[k] == blocks[k];
      }
    }
  }

  /** One turn of the constraint loop of generate, counters included. */
  method ConstrainNext(g: Grid, rng: RandomSource, vrb: bool, i: int, sizeStats: seq<int>, oprStats: seq<int>,
                       ghost blocks0: seq<Block>)
    returns (sizeStats': seq<int>, oprStats': seq<int>)
    requires g.Valid() && rng.Valid() && i < |g.blocks| && BlocksReady(g.board[..], g.size, blocks0)
    requires ConstraintsUpTo(g.board[..], g.size, g.blocks, blocks0, i, vrb, sizeStats, oprStats)
    modifies g`blocks, rng`next
    ensures g.Valid()
    ensures ConstraintsUpTo(g.board[..], g.size, g.blocks, blocks0, i + 1, vrb, sizeStats', oprStats')
  {
    ghost var b := g.board[..];
    assert g.blocks[i].squares == blocks0[i].squares && Ready(b, g.size, blocks0[i]);
    ghost var before := g.blocks;
    AllocateConstraint(g, i, rng);
    ghost var bl := g.blocks[i];
    assert g.blocks == before[i := bl] && bl.squares == before[i].squares;
    var n := |g.blocks[i].squares| - 1;
    var o := OperatorNumber(OperatorOf(g.blocks[i].opr));
    sizeStats', oprStats' := sizeStats, oprStats;
    if vrb {
      sizeStats' := sizeStats[n := sizeStats[n] + 1];
      oprStats' := oprStats[o := oprStats[o] + 1];
    }
    ConstraintsStep(b, g.size, before, blocks0, i, vrb, sizeStats, oprStats, bl, OperatorOf(bl.opr),
                    sizeStats', oprStats');
  }

  /**
   * The constraint loop of generate over blocks 0 .. nb_blocks-1, with the
   * counters it keeps in verbose mode. Every block ends Constrained; the cells
   * of the blocks do not change.
   */
  method AllocateConstraints(g: Grid, rng: RandomSource, vrb: bool)
    returns (sizeStats: seq<int>, oprStats: seq<int>)
    requires g.Valid() && rng.Valid() && BlocksReady(g.board[..], g.size, g.blocks)
    modifies g`blocks, rng`next
    ensures g.Valid() && |g.blocks| == old(|g.blocks|)
    ensures forall k :: 0 <= k < |g.blocks| ==> g.blocks[k].squares == old(g.blocks[k].squares)
    ensures forall k :: 0 <= k < |g.blocks| ==> Constrained(g.board[..], g.size, g.blocks[k])
    ensures (sizeStats, oprStats) == if vrb then Statistics(g.blocks) else Statistics([])
  {
    ghost var blocks0 := g.blocks;
    sizeStats := [0, 0, 0, 0, 0];
    oprStats := [0, 0, 0, 0];
    var i := 0;
    while i < g.nbBlocks
      invariant 0 <= i <= g.nbBlocks && g.Valid()
      invariant ConstraintsUpTo(g.board[..], g.size, g.blocks, blocks0, i, vrb, sizeStats, oprStats)
    {
      sizeStats, oprStats := ConstrainNext(g, rng, vrb, i, sizeStats, oprStats, blocks0);
      i := i + 1;
    }
    assert g.blocks[..i] == g.blocks;
  }

  // ---- generate

  /**
   * The block fill_squares_array builds for a number id of a carved block
   * board over a Latin board has one to MAX_BLOCK_SIZE cells, inside the
   * grid, with positive values.
   */
  lemma CellsReady(bb: seq<int>, b: seq<int>, size: int, id: int, bl: Block)
    requires 0 <= size && |bb| == size * size && |b| == size * size && IsLatin(b, size)
    requires id in bb && multiset(bb)[id] <= MAX_BLOCK_SIZE && bl.squares == CellsOf(bb, size, id)
    ensures Ready(b, size, bl)
  {
    CellsOfFacts(bb, size, id);
    forall k | 0 <= k < |bl.squares|
      ensures InGrid(bl.squares[k], size)
    {
      assert bl.squares[k] in bl.squares;
    }
    LatinValuesPositive(b, size, bl.squares);
  }

  /**
   * generate: a Latin board from fill_values, a block board from
   * fill_block_board, the blocks fill_squares_array lists, and a Constrained
   * operator and goal for every block, with the counters of verbose mode.
   */
  method Generate(size: int, difficulty: int, vrb: bool, rng: RandomSource)
    returns (status: ErrCode, g: Grid, sizeStats: seq<int>, oprStats: seq<int>)
    requires rng.Valid() && size >= 1
    modifies rng`next
    ensures status == Success && fresh(g) && g.Valid() && g.size == size
    ensures IsLatin(g.board[..], size)
    ensures g.nbBlocks >= 1
    ensures forall k :: 0 <= k < g.blockBoard.Length ==> 1 <= g.blockBoard[k] <= g.nbBlocks
    ensures forall i :: 0 <= i < g.nbBlocks ==> g.blocks[i].squares == CellsOf(g.blockBoard[..], size, i + 1)
    ensures forall i :: 0 <= i < g.nbBlocks ==> Constrained(g.board[..], size, g.blocks[i])
    ensures (sizeStats, oprStats) == if vrb then Statistics(g.blocks) else Statistics([])
  {
    g := new Grid(size);
    FillValues(g, rng);
    var nb := FillBlockBoard(g, difficulty, rng);
    status := g.InitializeBlocksArray(nb);
    status := g.FillSquaresArray();
    ghost var bb := g.blockBoard[..];
    forall k | 0 <= k < |g.blocks|
      ensures Ready(g.board[..], size, g.blocks[k])
    {
      CellsReady(bb, g.board[..], size, k + 1, g.blocks[k]);
    }
    sizeStats, oprStats := AllocateConstraints(g, rng, vrb);
  }
}
