/**
 * The block arithmetic checker (src/solver.c): whether a value may be placed
 * in a cell as far as its block's operator and goal are concerned, in strict
 * or in "optimized" (pruning) mode.
 *
 * Each case is specified on the contents of the board; the looping cases are
 * methods over the grid proved equal to that specification.
 */
module Solver {
  import opened GridModel

  // ---- C arithmetic

  function Abs(a: int): int { if a < 0 then -a else a }
  function Max(a: int, b: int): int { if a >= b then a else b }
  function Min(a: int, b: int): int { if a <= b then a else b }

  /** Euclidean division is determined by quotient and remainder. */
  lemma DivModUnique(x: int, q: int, r: int, b: int)
    requires 0 < b && 0 <= r < b && x == q * b + r
    ensures x / b == q && x % b == r
  {
    MulBetween(x / b - q, b);
  }

  /** For a positive divisor, an exact quotient by lo equal to goal means hi is goal times lo. */
  lemma ExactQuotient(hi: int, lo: int, goal: int)
    ensures lo >= 1 ==> ((hi % lo == 0 && hi / lo == goal) <==> goal * lo == hi)
  {
    if lo >= 1 && goal * lo == hi {
      DivModUnique(hi, goal, 0, lo);
    }
  }

  /** b divides -a exactly when it divides a. */
  lemma DividesNeg(a: int, b: int)
    requires 0 < b
    ensures (-a) % b == 0 <==> a % b == 0
  {
    if a % b == 0 {
      DivModUnique(-a, -(a / b), 0, b);
    }
    if (-a) % b == 0 {
      DivModUnique(a, -((-a) / b), 0, b);
    }
  }

  /**
   * C's `%` for a positive divisor, which truncates toward zero: the
   * remainder takes the sign of the dividend. It is zero exactly when b
   * divides a, and agrees with the Euclidean remainder for a >= 0.
   */
  function CRem(a: int, b: int): (r: int)
    requires b > 0
    ensures r == 0 <==> a % b == 0
    ensures a >= 0 ==> r == a % b
    ensures -b < r < b
  {
    DividesNeg(a, b);
    if a >= 0 then a % b else -((-a) % b)
  }

  // ---- sums and products of cell values

  /** The sum of s, accumulated from the left. */
  function Sum(s: seq<int>): int
  {
    if s == [] then 0 else Sum(s[..|s| - 1]) + s[|s| - 1]
  }

  /** The product of s, accumulated from the left. */
  function Prod(s: seq<int>): int
  {
    if s == [] then 1 else Prod(s[..|s| - 1]) * s[|s| - 1]
  }

  predicate NonNegative(s: seq<int>)
  {
    forall i :: 0 <= i < |s| ==> s[i] >= 0
  }

  predicate Positive(s: seq<int>)
  {
    forall i :: 0 <= i < |s| ==> s[i] >= 1
  }

  lemma SumAppend(s: seq<int>, v: int)
    ensures Sum(s + [v]) == Sum(s) + v
  {
    assert (s + [v])[..|s|] == s;
  }

  lemma ProdStep(s: seq<int>, i: int)
    requires 0 <= i < |s|
    ensures Prod(s[..i + 1]) == Prod(s[..i]) * s[i]
  {
    assert s[..i + 1][..i] == s[..i];
  }

  /** Appending v multiplies the product by v and moves the first zero only if there was none. */
  lemma AppendFacts(s: seq<int>, v: int)
    ensures Prod(s + [v]) == Prod(s) * v
    ensures var z := FirstZeroFrom(s, 0);
      FirstZeroFrom(s + [v], 0) == (if z < |s| then z else if v == 0 then |s| else |s| + 1)
    ensures forall k :: 0 <= k <= |s| ==> (s + [v])[..k] == s[..k]
  {
    assert (s + [v])[..|s|] == s;
    var z := FirstZeroFrom(s, 0);
    FirstZeroAt(s + [v], if z < |s| then z else if v == 0 then |s| else |s| + 1);
  }

  lemma ScaleMono(v: int, a: int, b: int)
    requires 0 <= v && a <= b
    ensures v * a <= v * b
  {
    MulMono(a, b, v);
  }

  /** A prefix of a sequence of non-negative numbers sums to no more than the whole. */
  lemma {:induction false} SumPrefix(s: seq<int>, i: int)
    requires NonNegative(s) && 0 <= i <= |s|
    ensures Sum(s[..i]) <= Sum(s)
  {
    if i < |s| {
      assert NonNegative(s[..|s| - 1]);
      assert s[..|s| - 1][..i] == s[..i];
      SumPrefix(s[..|s| - 1], i);
    } else {
      assert s[..i] == s;
    }
  }

  /** Products of positive numbers are positive and grow with the prefix. */
  lemma {:induction false} ProdPrefix(s: seq<int>, i: int)
    requires Positive(s) && 0 <= i <= |s|
    ensures 1 <= Prod(s[..i]) <= Prod(s)
  {
    if i < |s| {
      assert Positive(s[..|s| - 1]);
      assert s[..|s| - 1][..i] == s[..i];
      ProdPrefix(s[..|s| - 1], i);
      MulMono(1, s[|s| - 1], Prod(s[..|s| - 1]));
    } else {
      assert s[..i] == s;
      if s != [] {
        assert Positive(s[..|s| - 1]);
        ProdPrefix(s[..|s| - 1], |s| - 1);
        assert s[..|s| - 1][..|s| - 1] == s[..|s| - 1];
        MulMono(1, s[|s| - 1], Prod(s[..|s| - 1]));
      }
    }
  }

  /** The values of the listed cells, in list order. */
  function BlockValues(b: seq<int>, size: int, squares: seq<Location>): (vs: seq<int>)
    requires |b| == size * size && SquaresInGrid(squares, size)
    ensures |vs| == |squares|
  {
    if squares == [] then []
    else
      var last := squares[|squares| - 1];
      BlockValues(b, size, squares[..|squares| - 1]) + [b[Index(last.x, last.y, size)]]
  }

  lemma BlockValuesStep(b: seq<int>, size: int, squares: seq<Location>, i: int)
    requires |b| == size * size && SquaresInGrid(squares, size) && 0 <= i < |squares|
    ensures BlockValues(b, size, squares[..i + 1])
      == BlockValues(b, size, squares[..i]) + [b[Index(squares[i].x, squares[i].y, size)]]
  {
    assert squares[..i + 1][..i] == squares[..i];
  }

  /** Each value is the one on the board at the corresponding cell. */
  lemma {:induction false} BlockValuesAt(b: seq<int>, size: int, squares: seq<Location>, k: int)
    requires |b| == size * size && SquaresInGrid(squares, size) && 0 <= k < |squares|
    ensures BlockValues(b, size, squares)[k] == b[Index(squares[k].x, squares[k].y, size)]
  {
    if k < |squares| - 1 {
      BlockValuesAt(b, size, squares[..|squares| - 1], k);
    }
  }

  lemma {:induction false} BlockValuesPrefix(b: seq<int>, size: int, squares: seq<Location>, i: int)
    requires |b| == size * size && SquaresInGrid(squares, size) && 0 <= i <= |squares|
    ensures BlockValues(b, size, squares[..i]) == BlockValues(b, size, squares)[..i]
  {
    if i < |squares| {
      var init := squares[..|squares| - 1];
      assert init[..i] == squares[..i];
      BlockValuesPrefix(b, size, init, i);
    } else {
      assert squares[..i] == squares;
    }
  }

  lemma {:induction false} BlockValuesNonNegative(b: seq<int>, size: int, squares: seq<Location>)
    requires |b| == size * size && SquaresInGrid(squares, size) && NonNegative(b)
    ensures NonNegative(BlockValues(b, size, squares))
  {
    if squares != [] {
      BlockValuesNonNegative(b, size, squares[..|squares| - 1]);
    }
  }

  /** The values of the listed cells other than target, in list order. */
  function Others(b: seq<int>, size: int, squares: seq<Location>, target: Location): seq<int>
    requires |b| == size * size && SquaresInGrid(squares, size)
  {
    if squares == [] then []
    else
      var last := squares[|squares| - 1];
      Others(b, size, squares[..|squares| - 1], target)
      + (if last != target then [b[Index(last.x, last.y, size)]] else [])
  }

  lemma {:induction false} OthersNonNegative(b: seq<int>, size: int, squares: seq<Location>, target: Location)
    requires |b| == size * size && SquaresInGrid(squares, size) && NonNegative(b)
    ensures NonNegative(Others(b, size, squares, target))
  {
    if squares != [] {
      OthersNonNegative(b, size, squares[..|squares| - 1], target);
    }
  }

  /** Every listed cell other than target holds a value. */
  predicate OthersFilled(b: seq<int>, size: int, squares: seq<Location>, target: Location)
    requires |b| == size * size && SquaresInGrid(squares, size)
  {
    forall i :: 0 <= i < |squares| && squares[i] != target ==> b[Index(squares[i].x, squares[i].y, size)] != 0
  }

  // ---- the four cases, on board contents

  /** The early rejection of check_plus_case in optimized mode. */
  predicate PlusPruned(size: int, bl: Block, val: int)
  {
    val + (|bl.squares| - 1) * size < bl.goal || val > bl.goal
  }

  /**
   * check_plus_case: val plus the values already on the block's cells stays
   * within the goal, and reaches it exactly once every other cell is filled.
   */
  predicate PlusAccepts(b: seq<int>, size: int, bl: Block, optimized: bool, val: int, target: Location)
    requires |b| == size * size && SquaresInGrid(bl.squares, size)
  {
    var total := val + Sum(BlockValues(b, size, bl.squares));
    !(optimized && PlusPruned(size, bl, val))
    && total <= bl.goal
    && (OthersFilled(b, size, bl.squares, target) ==> total == bl.goal)
  }

  /**
   * check_multiply_case. With every other cell filled, val times their product
   * is the goal. Otherwise the running product is checked against the goal up
   * to the first empty other cell, which turns it to 0 for the rest of the
   * block; when that cell comes first, val itself is never compared.
   */
  predicate MulAccepts(b: seq<int>, size: int, bl: Block, optimized: bool, val: int, target: Location)
    requires |b| == size * size && SquaresInGrid(bl.squares, size) && val >= 1
  {
    !(optimized && CRem(bl.goal, val) != 0)
    && MulBound(Others(b, size, bl.squares, target), val, bl.goal)
  }

  /** The goal test of check_multiply_case on the values o of the other cells. */
  predicate MulBound(o: seq<int>, val: int, goal: int)
  {
    var z := FirstZeroFrom(o, 0);
    if z == |o| then val * Prod(o) == goal
    else if z == 0 then 0 <= goal
    else val * Prod(o[..z]) <= goal
  }

  /**
   * check_minus_case. The value of the second cell is never read from the
   * board: it stays 0, so placing into the first cell is accepted whenever
   * the optimized rule lets it through.
   */
  function MinusAccepts(b: seq<int>, size: int, bl: Block, optimized: bool, val: int, target: Location): (r: bool)
    requires |b| == size * size && SquaresInGrid(bl.squares, size) && |bl.squares| >= 2
    ensures optimized && val <= bl.goal && val + bl.goal > size ==> !r
    ensures !optimized && target == bl.squares[0] ==> r
    ensures target != bl.squares[0] && target == bl.squares[1]
            && b[Index(bl.squares[0].x, bl.squares[0].y, size)] != 0
            && !(optimized && val <= bl.goal && val + bl.goal > size)
            ==> (r <==> Abs(val - b[Index(bl.squares[0].x, bl.squares[0].y, size)]) == bl.goal)
  {
    var loc1 := bl.squares[0];
    var val1 := b[Index(loc1.x, loc1.y, size)];
    var val2 := 0;
    if optimized && val <= bl.goal && val + bl.goal > size then false
    else if target == loc1 then val2 == 0 || Max(val, val2) - Min(val, val2) == bl.goal
    else if target == bl.squares[1] then val1 == 0 || Max(val, val1) - Min(val, val1) == bl.goal
    else 0 == bl.goal
  }

  /**
   * check_divide_case: accepted while the partner cell is empty; otherwise the
   * larger value must be an exact multiple of the smaller, by the goal.
   */
  function DivideAccepts(b: seq<int>, size: int, bl: Block, optimized: bool, val: int, target: Location): (r: bool)
    requires |b| == size * size && SquaresInGrid(bl.squares, size) && |bl.squares| >= 2
    requires target == bl.squares[0] || target == bl.squares[1]
    requires NonNegative(b) && val >= 1
    ensures optimized && val < bl.goal && val * bl.goal > size ==> !r
    ensures var partner := b[if target == bl.squares[0] then Index(bl.squares[1].x, bl.squares[1].y, size)
                            else Index(bl.squares[0].x, bl.squares[0].y, size)];
      !(optimized && val < bl.goal && val * bl.goal > size) ==>
        (partner == 0 ==> r) && (partner != 0 ==> (r <==> bl.goal * Min(val, partner) == Max(val, partner)))
  {
    var loc1, loc2 := bl.squares[0], bl.squares[1];
    var val1 := b[Index(loc1.x, loc1.y, size)];
    var val2 := b[Index(loc2.x, loc2.y, size)];
    var partner := if target == loc1 then val2 else val1;
    ExactQuotient(Max(val, partner), Min(val, partner), bl.goal);
    if optimized && val < bl.goal && val * bl.goal > size then false
    else partner == 0 || (Max(val, partner) % Min(val, partner) == 0
                          && Max(val, partner) / Min(val, partner) == bl.goal)
  }

  /** What check_grid needs of its arguments for its reads and divisions to be defined. */
  predicate Checkable(b: seq<int>, size: int, bl: Block, val: int, target: Location)
  {
    |b| == size * size && SquaresInGrid(bl.squares, size) && NonNegative(b) && val >= 1
    && (bl.opr == '-' || bl.opr == '/' ==> |bl.squares| >= 2)
    && (bl.opr == '/' ==> target == bl.squares[0] || target == bl.squares[1])
  }

  /** check_grid: dispatch on the block's operator; any other operator rejects. */
  function GridAccepts(b: seq<int>, size: int, bl: Block, optimized: bool, val: int, target: Location): (r: bool)
    requires Checkable(b, size, bl, val, target)
    ensures bl.opr != '+' && bl.opr != 'x' && bl.opr != '-' && bl.opr != '/' ==> !r
  {
    if bl.opr == '+' then PlusAccepts(b, size, bl, optimized, val, target)
    else if bl.opr == 'x' then MulAccepts(b, size, bl, optimized, val, target)
    else if bl.opr == '-' then MinusAccepts(b, size, bl, optimized, val, target)
    else if bl.opr == '/' then DivideAccepts(b, size, bl, optimized, val, target)
    else false
  }

  /** Whatever optimized mode accepts, strict mode accepts too. */
  lemma OptimizedImpliesStrict(b: seq<int>, size: int, bl: Block, val: int, target: Location)
    requires Checkable(b, size, bl, val, target)
    ensures GridAccepts(b, size, bl, true, val, target) ==> GridAccepts(b, size, bl, false, val, target)
  {
  }

  // ---- the checks, on the grid

  lemma OthersFilledStep(b: seq<int>, size: int, squares: seq<Location>, target: Location, i: int)
    requires |b| == size * size && SquaresInGrid(squares, size) && 0 <= i < |squares|
    ensures OthersFilled(b, size, squares[..i + 1], target)
      <==> OthersFilled(b, size, squares[..i], target)
           && (squares[i] == target || b[Index(squares[i].x, squares[i].y, size)] != 0)
  {
    var p := squares[..i + 1];
    assert forall k :: 0 <= k < i ==> p[k] == squares[..i][k];
  }

  /** A running total over a prefix of the block already above the goal stays above it. */
  lemma PlusRejectAt(b: seq<int>, size: int, squares: seq<Location>, i: int, partial: int)
    requires |b| == size * size && SquaresInGrid(squares, size) && NonNegative(b) && 0 <= i < |squares|
    ensures partial - Sum(BlockValues(b, size, squares[..i + 1])) + Sum(BlockValues(b, size, squares)) >= partial
  {
    BlockValuesPrefix(b, size, squares, i + 1);
    BlockValuesNonNegative(b, size, squares);
    SumPrefix(BlockValues(b, size, squares), i + 1);
  }

  /**
   * One turn of the loop of check_plus_case: cell i of the block adds its
   * value to the total, unless that takes the total over the goal.
   */
  method AddPlusCell(g: Grid, squares: seq<Location>, ghost b: seq<int>, val: int, goal: int, target: Location,
                     i: int, total: int, isFull: bool) returns (total': int, isFull': bool, over: bool)
    requires g.Valid() && b == g.board[..] && NonNegative(b) && SquaresInGrid(squares, g.size) && 0 <= i < |squares|
    requires total == val + Sum(BlockValues(b, g.size, squares[..i]))
    requires isFull <==> OthersFilled(b, g.size, squares[..i], target)
    ensures over ==> val + Sum(BlockValues(b, g.size, squares)) > goal
    ensures !over ==> total' == val + Sum(BlockValues(b, g.size, squares[..i + 1])) && total' <= goal
    ensures !over ==> (isFull' <==> OthersFilled(b, g.size, squares[..i + 1], target))
  {
    var loc := squares[i];
    var v := g.board[Index(loc.x, loc.y, g.size)];
    assert v == b[Index(loc.x, loc.y, g.size)];
    SquaresInGridPrefix(squares, g.size, i + 1);
    BlockValuesStep(b, g.size, squares, i);
    SumAppend(BlockValues(b, g.size, squares[..i]), v);
    OthersFilledStep(b, g.size, squares, target, i);
    total', isFull', over := total, isFull, false;
    if v + total <= goal {
      total' := total + v;
    } else {
      PlusRejectAt(b, g.size, squares, i, val + Sum(BlockValues(b, g.size, squares[..i + 1])));
      return total', isFull', true;
    }
    if v == 0 && loc != target {
      isFull' := false;
    }
  }

  /** check_plus_case, proved against PlusAccepts. */
  method CheckPlusCase(g: Grid, optimized: bool, val: int, target: Location, blockNum: int) returns (ok: bool)
    requires g.Valid() && 0 <= blockNum < |g.blocks|
    requires SquaresInGrid(g.blocks[blockNum].squares, g.size) && NonNegative(g.board[..])
    ensures ok == PlusAccepts(g.board[..], g.size, g.blocks[blockNum], optimized, val, target)
  {
    var block := g.blocks[blockNum];
    var total := val;
    var isFull := true;
    var goal := block.goal;
    if optimized && (val + (|block.squares| - 1) * g.size < goal || val > goal) {
      return false;
    }
    ghost var b := g.board[..];
    var i := 0;
    while i < |block.squares|
      invariant 0 <= i <= |block.squares|
      invariant total == val + Sum(BlockValues(b, g.size, block.squares[..i]))
      invariant i > 0 ==> total <= goal
      invariant isFull <==> OthersFilled(b, g.size, block.squares[..i], target)
    {
      var over;
      total, isFull, over := AddPlusCell(g, block.squares, b, val, goal, target, i, total, isFull);
      if over {
        return false;
      }
      i := i + 1;
    }
    assert block.squares[..i] == block.squares;
    if total != goal && isFull {
      return false;
    }
    if total <= goal {
      return true;
    }
    return false;
  }

  /** Others over a prefix of the list is a prefix of Others over the list. */
  lemma {:induction false} OthersPrefix(b: seq<int>, size: int, squares: seq<Location>, target: Location, i: int)
    requires |b| == size * size && SquaresInGrid(squares, size) && 0 <= i <= |squares|
    ensures var o := Others(b, size, squares, target);
      var p := Others(b, size, squares[..i], target);
      |p| <= |o| && p == o[..|p|]
  {
    if i < |squares| {
      var init := squares[..|squares| - 1];
      assert init[..i] == squares[..i];
      OthersPrefix(b, size, init, target, i);
    } else {
      assert squares[..i] == squares;
    }
  }

  /** One more cell of the list adds its value to Others unless it is target. */
  lemma OthersStep(b: seq<int>, size: int, squares: seq<Location>, target: Location, i: int)
    requires |b| == size * size && SquaresInGrid(squares, size) && 0 <= i < |squares|
    ensures Others(b, size, squares[..i + 1], target)
      == Others(b, size, squares[..i], target)
         + (if squares[i] != target then [b[Index(squares[i].x, squares[i].y, size)]] else [])
  {
    assert squares[..i + 1][..i] == squares[..i];
  }

  /**
   * When the running product val * Prod(p) of a positive prefix p of o
   * already exceeds the goal, so does the running product at the first zero
   * of o (or at its end).
   */
  lemma MulOverflowRejects(o: seq<int>, p: seq<int>, val: int, goal: int)
    requires NonNegative(o) && 1 <= |p| <= |o| && p == o[..|p|] && Positive(p) && val >= 1
    requires val * Prod(p) > goal
    ensures |p| <= FirstZeroFrom(o, 0)
    ensures val * Prod(o[..FirstZeroFrom(o, 0)]) > goal
  {
    var z := FirstZeroFrom(o, 0);
    assert forall i :: 0 <= i < |p| ==> o[i] == p[i];
    var q := o[..z];
    assert Positive(q);
    assert q[..|p|] == p;
    ProdPrefix(q, |p|);
    ScaleMono(val, Prod(p), Prod(q));
  }

  /**
   * The state of check_multiply_case after the other cells with values seen:
   * before the first empty other cell, total is val times their product and
   * within the goal; from there on it is 0.
   */
  predicate MulState(seen: seq<int>, val: int, total: int, goal: int, isFull: bool)
  {
    var z := FirstZeroFrom(seen, 0);
    NonNegative(seen)
    && (isFull <==> z == |seen|)
    && (isFull ==> total == val * Prod(seen) && (|seen| > 0 ==> total <= goal))
    && (!isFull ==> total == 0 && 0 <= goal && (z > 0 ==> val * Prod(seen[..z]) <= goal))
  }

  lemma MulAssoc(v: int, val: int, p: int)
    ensures v * (val * p) == val * (p * v)
  {
  }

  /** A step of check_multiply_case that passes its test keeps MulState. */
  lemma MulStateStep(seen: seq<int>, v: int, val: int, total: int, goal: int, isFull: bool)
    requires MulState(seen, val, total, goal, isFull) && v >= 0 && v * total <= goal
    ensures MulState(seen + [v], val, v * total, goal, isFull && v != 0)
  {
    AppendFacts(seen, v);
    var s' := seen + [v];
    if isFull {
      MulAssoc(v, val, Prod(seen));
      if v == 0 {
        assert s'[..|seen|] == seen;
      }
    } else {
      assert v * total == 0;
    }
  }

  /** At the end of the block, the final tests of check_multiply_case compute MulBound. */
  lemma MulStateFinal(o: seq<int>, val: int, total: int, goal: int, isFull: bool)
    requires MulState(o, val, total, goal, isFull)
    ensures (!(total != goal && isFull) && total <= goal) == MulBound(o, val, goal)
  {
  }

  /** check_multiply_case, proved against MulAccepts. */
  method CheckMultiplyCase(g: Grid, optimized: bool, val: int, target: Location, blockNum: int) returns (ok: bool)
    requires g.Valid() && 0 <= blockNum < |g.blocks| && val >= 1
    requires SquaresInGrid(g.blocks[blockNum].squares, g.size) && NonNegative(g.board[..])
    ensures ok == MulAccepts(g.board[..], g.size, g.blocks[blockNum], optimized, val, target)
  {
    var block := g.blocks[blockNum];
    var total := val;
    var isFull := true;
    var goal := block.goal;
    if optimized && CRem(goal, val) != 0 {
      return false;
    }
    ghost var b := g.board[..];
    ghost var o := Others(b, g.size, block.squares, target);
    ghost var seen: seq<int> := [];
    var i := 0;
    while i < |block.squares|
      invariant 0 <= i <= |block.squares|
      invariant SquaresInGrid(block.squares[..i], g.size)
      invariant seen == Others(b, g.size, block.squares[..i], target)
      invariant MulState(seen, val, total, goal, isFull)
    {
      var loc := block.squares[i];
      var v := g.board[Index(loc.x, loc.y, g.size)];
      assert v == b[Index(loc.x, loc.y, g.size)];
      SquaresInGridPrefix(block.squares, g.size, i + 1);
      OthersStep(b, g.size, block.squares, target, i);
      if loc != target {
        if v * total <= goal {
          MulStateStep(seen, v, val, total, goal, isFull);
          total := v * total;
        } else {
          MulRejectStep(b, g.size, block.squares, target, i, v, val, total, goal, isFull);
          return false;
        }
        seen := seen + [v];
      }
      if v == 0 && loc != target {
        isFull := false;
      }
      i := i + 1;
    }
    assert block.squares[..i] == block.squares;
    MulStateFinal(o, val, total, goal, isFull);
    if total != goal && isFull {
      return false;
    }
    if total <= goal {
      return true;
    }
    return false;
  }

  /** Values of a positive prefix p of o whose product times val exceeds the goal fail MulBound. */
  lemma MulOverflowBound(o: seq<int>, p: seq<int>, val: int, goal: int)
    requires NonNegative(o) && 1 <= |p| <= |o| && p == o[..|p|] && Positive(p) && val >= 1
    requires val * Prod(p) > goal
    ensures !MulBound(o, val, goal)
  {
    MulOverflowRejects(o, p, val, goal);
    if FirstZeroFrom(o, 0) == |o| {
      assert o[..|o|] == o;
    }
  }

  /** A zero met while the running product is already negative-goal: MulBound fails. */
  lemma MulZeroBound(o: seq<int>, seen: seq<int>, val: int, goal: int)
    requires NonNegative(o) && |seen| < |o| && seen == o[..|seen|] && Positive(seen)
    requires o[|seen|] == 0 && goal < 0 && val >= 1
    ensures !MulBound(o, val, goal)
  {
    FirstZeroAt(o, |seen|);
    if |seen| > 0 {
      assert o[..|seen|] == seen;
      ProdPrefix(seen, |seen|);
      assert seen[..|seen|] == seen;
      ScaleMono(val, 1, Prod(seen));
    }
  }

  /** The step of check_multiply_case that returns false. */
  lemma MulRejectAt(o: seq<int>, seen: seq<int>, v: int, val: int, total: int, goal: int, isFull: bool)
    requires val >= 1 && NonNegative(o) && v >= 0
    requires |seen| + 1 <= |o| && seen + [v] == o[..|seen| + 1]
    requires MulState(seen, val, total, goal, isFull)
    requires v * total > goal
    ensures !MulBound(o, val, goal)
  {
    var p := seen + [v];
    assert o[..|seen|] == seen by {
      assert p[..|seen|] == seen;
      assert o[..|seen| + 1][..|seen|] == o[..|seen|];
    }
    if isFull {
      assert Positive(seen);
      if v == 0 {
        assert v * total == 0;
        MulZeroBound(o, seen, val, goal);
      } else {
        assert Positive(p);
        AppendFacts(seen, v);
        MulAssoc(v, val, Prod(seen));
        MulOverflowBound(o, p, val, goal);
      }
    }
  }

  /** The step of check_multiply_case that returns false, on the block's cells. */
  lemma MulRejectStep(b: seq<int>, size: int, squares: seq<Location>, target: Location, i: int,
                      v: int, val: int, total: int, goal: int, isFull: bool)
    requires |b| == size * size && SquaresInGrid(squares, size) && NonNegative(b) && 0 <= i < |squares|
    requires squares[i] != target && v == b[Index(squares[i].x, squares[i].y, size)] && val >= 1
    requires MulState(Others(b, size, squares[..i], target), val, total, goal, isFull)
    requires v * total > goal
    ensures !MulBound(Others(b, size, squares, target), val, goal)
  {
    var seen := Others(b, size, squares[..i], target);
    OthersStep(b, size, squares, target, i);
    OthersPrefix(b, size, squares, target, i + 1);
    OthersNonNegative(b, size, squares, target);
    MulRejectAt(Others(b, size, squares, target), seen, v, val, total, goal, isFull);
  }

  /** check_grid, proved against GridAccepts. */
  method CheckGrid(g: Grid, optimized: bool, val: int, target: Location, blockNum: int) returns (ok: bool)
    requires g.Valid() && 0 <= blockNum < |g.blocks|
    requires Checkable(g.board[..], g.size, g.blocks[blockNum], val, target)
    ensures ok == GridAccepts(g.board[..], g.size, g.blocks[blockNum], optimized, val, target)
  {
    var opr := g.blocks[blockNum].opr;
    if opr == '+' {
      ok := CheckPlusCase(g, optimized, val, target, blockNum);
    } else if opr == 'x' {
      ok := CheckMultiplyCase(g, optimized, val, target, blockNum);
    } else if opr == '-' {
      ok := MinusAccepts(g.board[..], g.size, g.blocks[blockNum], optimized, val, target);
    } else if opr == '/' {
      ok := DivideAccepts(g.board[..], g.size, g.blocks[blockNum], optimized, val, target);
    } else {
      ok := false;
    }
  }
}
