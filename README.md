# KenKen solver and generator, modelled in Dafny

This project models the core of a C program that solves and generates
KenKen puzzles. A puzzle is a size x size grid split into blocks ("rooms").
Each block has a goal and one of the operators `+`, `-`, `x` and `/`. A
solution fills the grid with 1 .. size so that no value repeats in a row or
a column, and the values of every block reach its goal under its operator.

The model follows the C sources file by file, one module per file:

- `Bitmaps` (bitmap.dfy): the 64-bit candidate masks of the logic solver,
  with bits as arithmetic on naturals below 2^64. Covers `set_bit`,
  `unset_bit`, `get_set_bits_number` and `get_rightmost_set_bit`.
- `GridModel` (grid.dfy): the grid as a `class Grid`. Its board and block
  board are `array<int>` fields and its blocks a `seq<Block>` field. The
  methods insert cells into blocks, check rows and columns, reset the board,
  find empty cells and copy grids.
- `Solver` (solver.dfy): the block checks of `check_grid` in strict and
  optimized mode, each proved against sums, products and quotients of the
  block's values.
- `Bruteforce` (bruteforce.dfy): the backtracking solvers. They work cell by
  cell, or block by block in increasing block size.
- `LogicSolver` (logic_solver.dfy): candidate masks, the pruning rules (the
  block rule, the Latin-square rule and the naked-subset rule), and the
  hypothesis search over masks.
- `Generator` and `GeneratorBlocks` (generator.dfy, generator_blocks.dfy):
  - the random Latin square, built from a cyclic square through row and
    column shuffles;
  - the carving of the block board;
  - the choice of operator and goal for every block.
- `Parser` and `Decimal` (parser.dfy, decimal.dfy): the token level of the
  grid-file parser, with `strtol` and `sprintf("%d")` written out.
- `Output` (output.dfy): the printing functions as text builders, with
  proofs that each printed row and constraint line reads back through the
  `strtok`/`strtol` word split, and that the file's line layout is the one
  `skip_useless_lines` expects.
- `ErrCodes` (errcode.dfy): the error codes of `include/errcode.h`.

`rand()` is a `RandomSource` object over an explicit sequence of values in
0 .. RAND_MAX, so every property holds whatever values it returns. A printed
stream is the `seq<char>` written so far.

## Model

| member | source | states |
|---|---|---|
| Bitmaps.SetBit | src/bitmap.c:6-9 | set_bit yields a word of 64 bits with bit p set |
| Bitmaps.UnsetBit | src/bitmap.c:11-14 | unset_bit yields a word with bit p clear and no larger than n |
| Bitmaps.AndNot | src/logic_solver.c:150-162 | the `&= ~` of the naked-subset rule never grows a mask |
| Bitmaps.SetBitOther | src/bitmap.c:6-9 | set_bit leaves every bit other than p as it was |
| Bitmaps.UnsetBitOther | src/bitmap.c:11-14 | unset_bit leaves every bit other than p as it was |
| Bitmaps.IsSetAndNot | src/logic_solver.c:157-160 | bit q of a & ~b is set iff it is set in a and clear in b |
| Bitmaps.IsSetOr | src/bitmap.c:8 | bit q of a \| b is set iff it is set in a or in b |
| Bitmaps.IsSetAnd | src/bitmap.c:13 | bit q of a & b is set iff it is set in both |
| Bitmaps.IsSetComplement | src/bitmap.c:13 | bit q of ~a (w bits) is set iff q < w and bit q of a is clear |
| Bitmaps.IsSetPow2 | src/bitmap.c:7 | 1 << p has bit p set and no other bit |
| Bitmaps.SameBits | include/bitmap.h:17 | two 64-bit words with the same bits are equal |
| Bitmaps.SetUnsetLaws | src/bitmap.c:6-14 | set_bit and unset_bit are idempotent, each undoes the other at p, and each is the identity when bit p already has its target value |
| Bitmaps.UnsetBitSubMask | src/bitmap.c:11-14 | unset_bit only clears bits: the result is a sub-mask of n |
| Bitmaps.AndNotSubMask | src/logic_solver.c:157-160 | a & ~b only clears bits: the result is a sub-mask of a |
| Bitmaps.SubMaskOfZero | src/logic_solver.c:222-228 | a sub-mask of the empty mask is empty |
| Bitmaps.GetSetBitsNumber | src/bitmap.c:28-42 | the portable loop of get_set_bits_number (add the low bit, shift right until zero) returns the population count; its loop terminates on the shrinking word |
| Bitmaps.PopCountShift | src/bitmap.c:34-37 | the population count of m is its low bit plus the population count of m >> 1 |
| Bitmaps.PopCountZero | src/bitmap.c:28-42 | the population count is 0 iff the word is 0 |
| Bitmaps.PopCountBound | src/bitmap.c:28-42 | a 64-bit word has at most 64 set bits |
| Bitmaps.PopCountSetBit | src/bitmap.c:6-9 | set_bit on a clear bit adds exactly one to the population count |
| Bitmaps.PopCountUnsetBit | src/bitmap.c:11-14 | unset_bit on a set bit removes exactly one from the population count |
| Bitmaps.PopCountSubMask | src/bitmap.c:28-42 | a sub-mask has no more set bits than the mask above it |
| Bitmaps.RightmostSetBit | include/bitmap.h:41-48 | get_rightmost_set_bit is 0 iff n is 0; otherwise bit r - 1 is set and every lower bit is clear |
| Bitmaps.RightmostInWord | src/bitmap.c:16-26 | the rightmost set bit of a 64-bit word is at most 64 |
| Bitmaps.PopCountUnsetRightmost | src/logic_solver.c:222-228 | clearing bit get_rightmost_set_bit(n) - 1 of a nonzero mask lowers its population count by one, so the hypothesis loop terminates |
| Bitmaps.LowMaskBit | src/logic_solver.c:14-17 | the mask built by set_bit on 0 .. k-1 has bit q set iff q < k |
| Bitmaps.PopCountLowMask | src/logic_solver.c:14-17 | that mask has exactly k set bits |
| Bitmaps.SubMaskOfLow | src/logic_solver.c:222-228 | a set bit of a sub-mask of the full mask of k values lies below k |
| Bitmaps.RightmostInRange | src/logic_solver.c:44-46 | the value read from the rightmost bit of a nonzero sub-mask of the full mask of k values lies in 1..k |
| GridModel.Index | include/grid.h:8 | INDEX(i, j, size) of a cell inside the grid is a valid flat position, and division and remainder by the side give back i and j |
| GridModel.IndexOfPosition | src/logic_solver.c:119-120 | every flat position is INDEX of its quotient and remainder by the side |
| GridModel.LocationOf | src/logic_solver.c:176-177 | the location (position / size, position % size) is inside the grid and indexes back to the position |
| GridModel.RowStep | src/grid.c:149-151 | during a row-major scan, cell (i, j) is flat position i * size + j |
| GridModel.LatinFreeWrite | src/grid.c:161-163 | writing a value the Latin-square check accepted leaves it once in its row and once in its column |
| GridModel.FirstZeroFrom | src/grid.c:146-159 | the first position at or after k holding 0 (or the end), with every position before it filled |
| GridModel.FirstZeroAt | src/grid.c:146-159 | a position whose predecessors are all filled, and which is 0 or the end, is the first zero |
| GridModel.FirstEmpty | src/grid.c:146-159 | the first empty cell in row-major order; it is (-1, -1) iff no cell holds 0 |
| GridModel.FirstEmptyFrom | src/grid.c:134-142 | the first block square at or after k whose cell is empty, all earlier ones being filled |
| GridModel.FirstEmptyInBlock | src/grid.c:130-144 | the first empty cell in the block's list order; it is (-1, -1) iff every listed cell holds a value |
| GridModel.CellsUpToFacts | src/grid.c:62-74 | the cells with block number id among the first k positions: as many as occurrences of id, exactly those cells, in increasing position |
| GridModel.CellsOfFacts | src/grid.c:58-77 | the cell list of block id holds exactly the grid cells whose block number is id, one per occurrence, row by row |
| GridModel.Grid.constructor | src/grid.c:36-44 | initialize_grid: board and block_board are fresh arrays of size * size zeros |
| GridModel.Grid.InitializeBlocksArray | src/grid.c:46-56 | initialize_blocks_array: nb_blocks blocks, each with no squares; boards unchanged |
| GridModel.Grid.FillSquare | src/grid.c:6-16 | fill_square: out-of-range block number gives ERRCODE_OUT_OF_BOUNDS and no change; otherwise (x, y) is appended to that block only |
| GridModel.Grid.FillSquaresArray | src/grid.c:58-77 | fill_squares_array: every block lists exactly its cells in row-major order, so its square count is the number of its cells |
| GridModel.Grid.FillRow | src/grid.c:71-74 | one outer-loop pass: the lists become the cells of each block among the first (i + 1) * size positions |
| GridModel.Grid.FillCell | src/grid.c:72-73 | one inner-loop pass: cell (i, j) joins the list of its block, the other lists stay as they were |
| GridModel.Grid.CheckRow | src/grid.c:18-25 | check_row returns true iff num is in no cell of the row |
| GridModel.Grid.CheckCol | src/grid.c:27-34 | check_col returns true iff num is in no cell of the column |
| GridModel.Grid.CheckLatinSquaresRule | src/grid.c:161-163 | check_latin_squares_rule is true iff num is in neither the row nor the column, the target cell included |
| GridModel.Grid.ResetGrid | src/grid.c:124-128 | reset_grid zeroes every board cell; block_board and blocks stay the same |
| GridModel.Grid.FindEmptySquareInBlock | src/grid.c:130-144 | find_empty_square_in_block returns the first empty cell in list order, or (-1, -1) |
| GridModel.Grid.FindEmptySquareInGrid | src/grid.c:146-159 | find_empty_square_in_grid returns the first empty cell in row-major order, or (-1, -1) |
| GridModel.Grid.CopyGrid | src/grid.c:100-122 | copy_grid: the side, both boards and every block's squares, goal and operator equal the source's; the source is unchanged |
| GridModel.CreateAndCopyGrid | src/grid.c:88-98 | create_and_copy_grid: a fresh grid, distinct boards, equal to the source |
| Solver.CRem | src/solver.c:51 | C's `goal % val` for a positive divisor: zero iff val divides goal, equal to the Euclidean remainder for goal >= 0, and strictly inside (-val, val) |
| Solver.BlockValues | src/solver.c:20-24 | the board values of the block's cells, one per listed square |
| Solver.BlockValuesAt | src/solver.c:21-24 | value k of the list is the board value at square k |
| Solver.BlockValuesPrefix | src/solver.c:20-24 | the values of a prefix of the squares are the prefix of the values |
| Solver.SumPrefix | src/solver.c:23-24 | a prefix of non-negative cell values sums to at most their total |
| Solver.ProdPrefix | src/solver.c:57-59 | products of positive prefixes are positive and grow with the prefix |
| Solver.MinusAccepts | src/solver.c:75-109 | check_minus_case: optimized mode rejects val <= goal with val + goal > size; strict mode always accepts at squares[0] because val2 stays 0; at squares[1] with squares[0] holding v1 != 0 it accepts iff \|val - v1\| == goal |
| Solver.DivideAccepts | src/solver.c:111-146 | check_divide_case: optimized mode rejects val < goal with val * goal > size; otherwise an empty partner cell accepts, and a filled partner p accepts iff goal * min(val, p) == max(val, p) |
| Solver.ExactQuotient | src/solver.c:140-144 | for min >= 1, `max % min == 0` and `max / min == goal` together hold iff goal * min == max |
| Solver.GridAccepts | src/solver.c:148-165 | check_grid rejects every operator other than + x - / |
| Solver.OptimizedImpliesStrict | src/solver.c:16-18 | whatever optimized mode accepts, strict mode accepts too, for all four operators |
| Solver.AddPlusCell | src/solver.c:21-33 | one turn of the check_plus_case loop: a cell that takes the total over the goal means the whole block sum does too; otherwise the total and is_full follow the prefix |
| Solver.CheckPlusCase | src/solver.c:6-40 | check_plus_case accepts iff (optimized mode: not val + (n - 1) * size < goal nor val > goal) val plus the block's board values is at most goal, and equals goal when every other cell is filled |
| Solver.OthersPrefix | src/solver.c:56-59 | the other-cell values of a prefix of the squares are a prefix of the other-cell values |
| Solver.MulOverflowRejects | src/solver.c:57-61 | once val times a positive prefix of the other values exceeds the goal, so does the running product at the first empty other cell |
| Solver.MulStateStep | src/solver.c:56-66 | a loop step of check_multiply_case that passes its test keeps the running product and is_full in step with the cells seen |
| Solver.MulStateFinal | src/solver.c:69-72 | at the end of the loop the two final tests of check_multiply_case decide exactly the reference goal test |
| Solver.CheckMultiplyCase | src/solver.c:42-73 | check_multiply_case accepts iff (optimized: goal % val == 0) and, with every other cell filled, val times their product is goal; otherwise val times the filled cells before the first empty other cell is at most goal, the empty cell turning the product to 0 |
| Solver.MulOverflowBound | src/solver.c:57-61 | values whose running product already exceeds the goal fail the reference test |
| Solver.MulZeroBound | src/solver.c:57-61 | an empty other cell met with a negative goal fails the reference test (0 * total <= goal is false) |
| Solver.MulRejectAt | src/solver.c:60-61 | the `return false` inside the loop happens only when the reference test fails |
| Solver.MulRejectStep | src/solver.c:54-62 | the same on the block's cells: the early rejection agrees with MulAccepts |
| Solver.CheckGrid | src/solver.c:148-165 | check_grid returns what the reference case of the block's operator decides, and false for any other operator |
| Bruteforce.BlocksInGrid | src/grid.c:58-77 | in a well-formed puzzle every listed square of every block is a cell of the grid |
| Bruteforce.CellInBlock | src/bruteforce_solver.c:10-11 | a cell is listed in the block its block_board entry names |
| Bruteforce.CheckableAt | src/bruteforce_solver.c:10-11 | check_grid's reads and divisions are defined for any cell of a well-formed puzzle and any positive value |
| Bruteforce.IsValid | src/bruteforce_solver.c:6-13 | is_valid is true iff check_grid on the cell's own block and check_latin_squares_rule both accept val |
| Bruteforce.ZerosWrite | src/bruteforce_solver.c:84 | writing a value into an empty cell leaves one fewer empty cell, so the recursion terminates |
| Bruteforce.UndoWrite | src/bruteforce_solver.c:84-89 | writing a value and then 0 into an empty cell gives the board back |
| Bruteforce.ExtendsWrite | src/bruteforce_solver.c:82-85 | a value the Latin-square rule accepted, followed by a completion of the new board, stays unique in its row and column in that completion |
| Bruteforce.SolveUsingBruteforce | src/bruteforce_solver.c:77-98 | solve_using_bruteforce: on true no cell is 0 and every originally empty cell holds a value in 1..size unique in its row and column; on false the board is as on entry; prefilled cells never change; the counters only grow, and only with vrb, by one per write or undo |
| Bruteforce.AllFalse | src/bruteforce_solver.c:22-23 | the freshly cleared checked_blocks array has every block unmarked |
| Bruteforce.BlockSizeBound | src/grid.c:58-77 | a block of a well-formed puzzle has at most size * size cells |
| Bruteforce.SelectStep | src/bruteforce_solver.c:33-34 | taking the first unmarked block of least size keeps the selection ordered, distinct and marked exactly as listed |
| Bruteforce.SelectionDone | src/bruteforce_solver.c:25-36 | once nb_blocks blocks are taken, every block is in the list |
| Bruteforce.SmallestUnchecked | src/bruteforce_solver.c:26-31 | the inner scan, its bound above every block size, finds the first unmarked block of least size |
| Bruteforce.MakeBlocksPriorityList | src/bruteforce_solver.c:17-37 | the corrected priority list: every block exactly once, in nondecreasing size, lower index first among equals (OrderBySize) |
| Bruteforce.ListOfOrder | src/bruteforce_solver.c:17-37 | a list taken through such an order holds every block and is sorted by block size |
| Bruteforce.ScanAsWritten | src/bruteforce_solver.c:26-31 | the inner scan as written returns the stale index or an unmarked block smaller than min_size |
| Bruteforce.PriorityAsWrittenSkipsLarge | src/bruteforce_solver.c:18-35 | as written, every listed index is the stale start index or a block with fewer than size cells |
| Bruteforce.PriorityAsWrittenExample | src/bruteforce_solver.c:17-37 | as written, blocks of 1 and 3 cells in a 2 x 2 grid give the list [block 0, block 0] |
| Bruteforce.PriorityAsWritten | src/bruteforce_solver.c:17-37 | make_blocks_priority_list as written: one list entry per block still to place |
| Bruteforce.NextInOrder | src/bruteforce_solver.c:25-36 | two orders by size that share a prefix: the next entry of one is the other's or comes before it |
| Bruteforce.OrderBySizePrefix | src/bruteforce_solver.c:25-36 | two orders of the blocks by size agree on every prefix |
| Bruteforce.OrderBySizeUnique | src/bruteforce_solver.c:25-36 | there is exactly one order of the blocks by size, lower index first among equals |
| Bruteforce.ScanAsWrittenFinds | src/bruteforce_solver.c:26-31 | when every block has fewer than size cells, the inner scan as written finds the first unmarked block of least size |
| Bruteforce.PriorityAsWrittenSelects | src/bruteforce_solver.c:25-36 | when every block is small, the list as written, after any valid selection, completes it to the order by size |
| Bruteforce.PriorityAsWrittenWhenSmall | src/bruteforce_solver.c:17-37 | when every block has fewer than size cells, the list as written is exactly the order MakeBlocksPriorityList builds |
| Bruteforce.SolveUsingBlocksizeSortSub | src/bruteforce_solver.c:40-65 | solve_using_blocksize_sort_sub: on true every listed block is full and filled cells are unique in row and column; on false the board is restored; prefilled cells never change; counters as in the plain search |
| Bruteforce.TryValues | src/bruteforce_solver.c:46-60 | the value loop at the empty cell found: values 1..size that pruning-mode is_valid accepts, each undone on failure; same outcome guarantees |
| Bruteforce.CellsCovered | src/grid.c:58-77 | every cell lies in the block its number names |
| Bruteforce.ListCoversBoard | src/bruteforce_solver.c:63-64 | a priority list that names every block, all full, leaves no cell empty |
| Bruteforce.SolveUsingBlocksizeSort | src/bruteforce_solver.c:67-75 | solve_using_blocksize_sort, run over the corrected priority list of Findings row 1: on true no cell is 0; on false the board is restored; prefilled cells never change. The program as written does not keep the first promise: blocks of 1 and 3 cells on a 2 x 2 grid give the list [0, 0], so it can return true with block 1's cells still 0 |
| LogicSolver.MakePossibGrid | src/logic_solver.c:10-20 | make_possib_grid: every cell's mask is the mask of values 1..size |
| LogicSolver.FullMaskMeaning | src/logic_solver.c:13-17 | that mask has bit q set iff q < size, and exactly size set bits |
| LogicSolver.FindNextPossibilityPos | src/logic_solver.c:24-35 | find_next_possibility_pos: the first row-major position whose popcount is nonzero, with val its rightmost set bit; -1 iff every mask is empty, val then untouched |
| LogicSolver.FindSinglePossibilityPos | src/logic_solver.c:39-50 | find_single_possibility_pos: the first row-major position whose popcount is exactly 1, with val its rightmost set bit; -1 iff there is none, val then untouched |
| LogicSolver.LatinRuleResult | src/logic_solver.c:117-129 | the masks after the Latin-square rule at p with value v: mask p is 0, the other cells of p's row and column lose bit v - 1, every other cell is kept |
| LogicSolver.ApplyLatinSquaresRule | src/logic_solver.c:117-129 | apply_latin_squares_rule yields exactly those masks, with v read from board[position] |
| LogicSolver.ClearLineBits | src/logic_solver.c:124-127 | one turn of its loop: cell i of the row and cell i of the column lose bit val - 1, nothing else changes |
| LogicSolver.LatinStep | src/logic_solver.c:123-128 | a loop turn extends the partial state from the first i cells of the row and column to the first i + 1 |
| LogicSolver.LatinRuleFromLines | src/logic_solver.c:122-128 | the row, the column and the untouched rest reassemble into the result of the rule |
| LogicSolver.AndNotSelf | src/logic_solver.c:122 | `m &= ~m` leaves 0 |
| LogicSolver.UnsetZero | src/logic_solver.c:124-127 | unset_bit on the cleared mask leaves it 0, so the cell at position stays empty when the loop reaches it |
| LogicSolver.LatinRuleBits | src/logic_solver.c:117-129 | bit by bit: no bit is left at p, bit v - 1 is cleared in p's row and column, and every other bit of every cell is kept |
| LogicSolver.StrikeSquares | src/logic_solver.c:57-110 | the masks after the squares loop of one block keep their length |
| LogicSolver.StrikeBlocks | src/logic_solver.c:56-111 | the masks after the blocks loop keep their length |
| LogicSolver.RemoveImpossiblePossibilities | src/logic_solver.c:53-112 | remove_impossible_possibilities yields the masks of the reference block-by-block strike, and the counter goes up by size per square when vrb |
| LogicSolver.StrikeBlock | src/logic_solver.c:57-110 | the squares loop for one block yields the reference strike of its squares, the counter up by size per square when vrb |
| LogicSolver.SquareCountStep | src/logic_solver.c:56-57 | size times the square count grows by size times the next block's size |
| LogicSolver.StrikeNumsBits | src/logic_solver.c:61-107 | after the num loop on a cell, bit q is set iff it was set and num = q + 1 is not ruled out by the block's operator rule (+: num > goal, or num + (n - 1) * size < goal, or num + n - 1 > goal; x: goal % num != 0; -: num <= goal and num + goal > size; /: num < goal and num * goal > size) |
| LogicSolver.StrikeSquaresBits | src/logic_solver.c:57-110 | after the squares loop of one block, a bit of cell k survives iff it was set and no processed square at k rules it out |
| LogicSolver.StrikeBlocksBits | src/logic_solver.c:56-111 | after i blocks, a bit of cell k survives iff it was set and none of the first i blocks covering k rules it out |
| LogicSolver.RemoveImpossibleMeaning | src/logic_solver.c:53-112 | remove_impossible_possibilities only clears bits, only in cells of the blocks, exactly those some covering block rules out |
| LogicSolver.CellOf | src/logic_solver.c:148-162 | the cell at coordinate j of a sweep's row or column lies in the grid |
| LogicSolver.SweepUpTo | src/logic_solver.c:148-151 | a partial sweep keeps the number of masks |
| LogicSolver.ApplySweeps | src/logic_solver.c:133-169 | a log of sweeps keeps the number of masks |
| LogicSolver.SweepLine | src/logic_solver.c:148-151 | the clearing loop along a row or column: every cell except the pair loses the pair's bits |
| LogicSolver.PairSweeps | src/logic_solver.c:142-153 | one counting loop (cnt reset to 1, i from keep + 1; a cell whose mask equals the kept mask bumps cnt, and the bump that reaches subset_size sweeps the line keeping keep and i) leaves exactly the masks of the reference scan PairScan |
| LogicSolver.NakedSubsetAt | src/logic_solver.c:139-166 | the body of apply_naked_subset_rule for one cell leaves exactly the masks of NakedAt: nothing when the cell's popcount is not subset_size, otherwise the row scan from col + 1, then the column scan from row + 1, both with the mask read before either |
| LogicSolver.ApplyNakedSubsetRule | src/logic_solver.c:133-169 | apply_naked_subset_rule leaves exactly the masks of NakedRows: NakedAt for every cell, row by row, in row-major order |
| LogicSolver.LineCell | src/logic_solver.c:144 | the cell at coordinate i of row or column `line` lies in the grid |
| LogicSolver.LineCellCoords | src/logic_solver.c:144-162 | LineCell is INDEX(line, i) on a row and INDEX(i, line) on a column, and division by the side gives back its row and column |
| LogicSolver.LineCellInjective | src/logic_solver.c:148-162 | distinct coordinates along one line are distinct cells |
| LogicSolver.PairScan | src/logic_solver.c:142-153 | a line scan keeps the number of masks |
| LogicSolver.NakedAt | src/logic_solver.c:139-166 | the body for one cell keeps the number of masks |
| LogicSolver.NakedCols | src/logic_solver.c:138-167 | the column loop keeps the number of masks |
| LogicSolver.NakedRows | src/logic_solver.c:137-168 | the row loop keeps the number of masks |
| LogicSolver.SweepKeeps | src/logic_solver.c:148-151 | a sweep leaves the two cells it keeps unchanged |
| LogicSolver.PairScanKeeps | src/logic_solver.c:143-153 | a line scan leaves the cell at keep unchanged, so the column scan starts from the row scan's kept mask |
| LogicSolver.GenuineAppend | src/logic_solver.c:133-169 | a genuine log followed by a genuine log from where it ends is one genuine log, whose effect is the two effects in turn |
| LogicSolver.GenuineChain | src/logic_solver.c:133-169 | a genuine log from m to m1 followed by one from m1 to m2 is a genuine log from m to m2 |
| LogicSolver.GenuineEntries | src/logic_solver.c:141-162 | in a genuine log, every sweep t is on a grid line, keeps two distinct cells, has subset_size bits, and in the masks left by sweeps 0 .. t-1 both kept cells hold its mask |
| LogicSolver.PairScanSweeps | src/logic_solver.c:141-153 | a line scan started at a cell holding a mask of subset_size bits is a log of genuine sweeps: each sweep happens only when the scanned cell equals the kept one |
| LogicSolver.NakedAtSweeps | src/logic_solver.c:139-166 | the body for one cell is a log of genuine sweeps |
| LogicSolver.NakedColsSweeps | src/logic_solver.c:138-167 | the column loop is a log of genuine sweeps |
| LogicSolver.NakedRowsSweeps | src/logic_solver.c:137-168 | the row loop is a log of genuine sweeps |
| LogicSolver.NakedRuleSweeps | src/logic_solver.c:133-169 | apply_naked_subset_rule is a log of sweeps, and for every t: sweep t keeps two distinct cells of one line, its mask has subset_size bits, and both kept cells hold that mask in the masks left by sweeps 0 .. t-1 |
| LogicSolver.NakedRowsShrinks | src/logic_solver.c:133-169 | apply_naked_subset_rule only clears candidates |
| LogicSolver.ApplySweepsAppend | src/logic_solver.c:133-169 | applying two logs in turn equals applying their concatenation |
| LogicSolver.SweepUpToBits | src/logic_solver.c:148-151 | after a partial sweep, bit q of cell k is set iff it was and the sweep did not reach k with q in its mask |
| LogicSolver.NakedSubsetMeaning | src/logic_solver.c:133-169 | the naked-subset rule only clears bits: bit q of cell k survives iff it was set and no sweep reaching k had q in its pair's mask |
| LogicSolver.SweptCells | src/logic_solver.c:148-163 | a sweep reaches only cells of its own line and never the two cells of its pair |
| LogicSolver.FullMasksOfEmptyBoard | src/logic_solver.c:245-246 | full masks describe the candidates of an empty board |
| LogicSolver.ShrinkKeeps | src/logic_solver.c:248-249 | clearing bits keeps the masks describing candidates |
| LogicSolver.CandidateIsFree | src/logic_solver.c:184-193 | a candidate value is in 1..size, its cell is empty, and the Latin-square rule allows it there |
| LogicSolver.LatinRuleShrinks | src/logic_solver.c:117-129 | the Latin-square rule only clears bits |
| LogicSolver.NakedSubsetShrinks | src/logic_solver.c:133-169 | any log of sweeps only clears bits |
| LogicSolver.PlacementKeeps | src/logic_solver.c:193-196 | writing v at p and applying the Latin-square rule keeps the masks describing the candidates of the new board |
| LogicSolver.PlacementKeepsCell | src/logic_solver.c:193-196 | a candidate of another cell outside p's lines (or of another value) stays allowed by the Latin-square rule after the write |
| LogicSolver.SolveUsingPossibilitiesSub | src/logic_solver.c:172-240 | solve_using_possibilities_sub never changes the masks it is passed; when pruning-mode check_grid rejects it returns false with the board untouched; otherwise a false result leaves only value written at position; true means no cell is 0 and every filled cell is unique in its row and column; counters only grow |
| LogicSolver.CheckCandidate | src/logic_solver.c:184-187 | the check_grid call on a candidate returns what pruning-mode check_grid on the cell's block decides |
| LogicSolver.CandidateCheckable | src/logic_solver.c:184-187 | a candidate value is free in its cell and fits the preconditions of check_grid on that cell's block |
| LogicSolver.PlaceAndSearch | src/logic_solver.c:189-239 | after the check: on false the board is the old one with value at position; on true it is full |
| LogicSolver.CopyPossibilities | src/logic_solver.c:189-191 | possib_copy is a fresh array equal to the masks |
| LogicSolver.ApplyRules | src/logic_solver.c:196-199 | the Latin-square rule then the naked-pair pass on the copy keep it describing the candidates of the board |
| LogicSolver.SearchFrom | src/logic_solver.c:203-239 | the search after pruning: a single-candidate cell is followed, no candidate and no empty cell is solved, otherwise every candidate of the first cell is tried; on false the board is as before |
| LogicSolver.ResetRestores | src/logic_solver.c:231 | clearing a cell that was empty gives the board back whether or not it was written since |
| LogicSolver.TryCandidates | src/logic_solver.c:221-233 | the hypothesis loop: on false the board is as before and the cell's mask is empty |
| LogicSolver.DropCandidate | src/logic_solver.c:228 | dropping the rightmost candidate lowers the popcount of that mask by one and keeps the masks describing candidates |
| LogicSolver.TryCandidate | src/logic_solver.c:223-231 | one round: try the candidate and clear the cell again on failure |
| LogicSolver.FirstNonEmpty | src/logic_solver.c:24-35 | the first non-empty mask at or after k, -1 iff none |
| LogicSolver.TailAsWritten | src/logic_solver.c:213-238 | the final reset as written writes outside the board exactly when no mask has a candidate, at index -1 |
| LogicSolver.ResetOutsideBoardExample | src/logic_solver.c:213-238 | on an empty 2 x 2 board with masks [1, 1, 0, 0], placing 1 at (0, 0) leaves no candidate while cells are still empty, and the source then clears board[-1] |
| LogicSolver.ExampleLatinRule | src/logic_solver.c:117-129 | in that example the Latin-square rule empties every mask |
| LogicSolver.ExampleSweeps | src/logic_solver.c:133-169 | naked-pair sweeps leave empty masks empty |
| LogicSolver.ExampleCandidates | src/logic_solver.c:184-193 | the example's masks describe candidates of the empty board |
| LogicSolver.RemoveImpossibleShrinks | src/logic_solver.c:53-112 | the block bounds only clear bits |
| LogicSolver.PreparePossibilities | src/logic_solver.c:245-249 | full masks, then block bounds, then one naked-pair pass on a fresh array: they describe the candidates of the empty board; the counter grows by size per square when vrb |
| LogicSolver.StrikeAndKeep | src/logic_solver.c:248 | remove_impossible_possibilities keeps the masks describing candidates |
| LogicSolver.PairsAndKeep | src/logic_solver.c:249 | one naked-pair pass keeps the masks describing candidates |
| LogicSolver.SolveUsingPossibilities | src/logic_solver.c:242-276 | on an empty board of at most 64 rows: a solved board is full with every value unique in its row and column; an unsolved one holds at most one value; counters only grow, and only with vrb |
| LogicSolver.FollowHypothesis | src/logic_solver.c:261-274 | the first call of the recursive step and what the round then reports |
| LogicSolver.FirstHypothesis | src/logic_solver.c:251-263 | the first cell with a single candidate, else the first with any, with its rightmost candidate; -1 iff every mask is empty; nb_hypo goes up on entering the loop |
| LogicSolver.FilledFromEmpty | src/logic_solver.c:264-266 | a full board that extends the empty one has every value unique in its row and column |
| Generator.Draws | src/generator.c:27 | count successive rand() results, from call number start on |
| Generator.RandomSource.constructor | src/generator.c:241 | the random stream starts at its first value |
| Generator.RandomSource.Rand | src/generator.c:27 | rand() returns the next value of the stream, in 0 .. RAND_MAX, and advances it by one |
| Generator.DrawsInRange | src/generator.c:27 | every drawn value lies in 0 .. RAND_MAX |
| Generator.Pick | src/generator.c:27 | j = i + rand() / (RAND_MAX / (n - i) + 1) always lies in i .. n-1 |
| Generator.PickInRange | src/generator.c:27 | the quotient rand() / (RAND_MAX / (n - i) + 1) lies in 0 .. n-i-1 for every rand() value |
| Generator.Swap | src/generator.c:28-30 | the three assignments exchange elements i and j and leave the rest |
| Generator.SwapPermutes | src/generator.c:28-30 | a swap only rearranges the array |
| Generator.ShuffledPermutes | src/generator.c:24-33 | whatever the rand() values, shuffle yields a permutation of its input |
| Generator.SwapKeepsPermutation | src/generator.c:28-30 | a swap keeps a permutation of 0 .. n-1 a permutation |
| Generator.ShuffledKeepsPermutation | src/generator.c:24-33 | shuffle keeps a permutation of 0 .. n-1 a permutation |
| Generator.ShuffleOfKeepsPermutation | src/generator.c:24-33 | the full shuffle keeps the multiset and the index permutation |
| Generator.Shuffle | src/generator.c:24-33 | shuffle draws n - 1 values (none when n <= 1) and leaves the array equal to the reference shuffle of its old contents |
| Generator.ShuffleStep | src/generator.c:26-31 | one loop turn swaps element i with the picked element |
| Generator.ShuffledPrefix | src/generator.c:26 | the first k steps use only the first k draws |
| Generator.ShuffledRange | src/generator.c:26 | two draw sequences that agree on the first k values give the same first k steps |
| Generator.SameByCells | include/grid.h:8 | two boards equal at every (row, col) are equal |
| Generator.MultisetKeepsRange | src/generator.c:46 | a rearranged array of row numbers still holds row numbers |
| Generator.RowsPermuted | src/generator.c:49-53 | row r of the result is row p[r] of the board |
| Generator.ColumnsPermuted | src/generator.c:63-68 | column c of the result is column p[c] of the copy |
| Generator.Iota | src/generator.c:77-78 | array[k] = k for every k |
| Generator.IotaPermutation | src/generator.c:77-78 | 0 .. n-1 is a permutation of 0 .. n-1 |
| Generator.SwapRows | src/generator.c:50-52 | the board with two rows exchanged |
| Generator.RowsPermutedLatin | src/generator.c:49-53 | permuting the rows of a Latin square by a permutation gives a Latin square |
| Generator.ColumnsPermutedLatin | src/generator.c:63-68 | permuting the columns of a Latin square by a permutation gives a Latin square |
| Generator.SwapRowsLatin | src/generator.c:50-52 | exchanging two rows keeps a Latin square Latin |
| Generator.RowSwapsLatin | src/generator.c:49-53 | the whole row phase keeps a Latin square Latin, whatever the indices |
| Generator.Cyclic | src/generator.c:82-90 | the board before shuffling: cell (i, j) holds ((i + j) mod size) + 1 |
| Generator.CyclicDistinct | src/generator.c:84 | two cells of one row or one column of that board differ |
| Generator.CyclicLatin | src/generator.c:77-90 | that board is a Latin square |
| Generator.ShuffleOfRange | src/generator.c:46 | shuffling keeps every index inside the grid |
| Generator.ShuffledIndices | src/generator.c:46 | the shuffled indices stay row numbers |
| Generator.ShuffleGridResult | src/generator.c:41-69 | one shuffle_grid round keeps a board of size * size cells and size indices in range |
| Generator.RoundStart | src/generator.c:96-97 | the stream never goes backwards across rounds |
| Generator.Rounds | src/generator.c:96-97 | the SEED rounds keep the layout well-formed |
| Generator.RoundIndicesPermute | src/generator.c:46 | both shuffles of a round keep the indices a permutation |
| Generator.RoundBoardLatin | src/generator.c:49-68 | the row phase then the column phase keep a Latin board Latin |
| Generator.ShuffleGridLatin | src/generator.c:41-69 | shuffle_grid keeps the board Latin and the indices a permutation |
| Generator.RoundsStep | src/generator.c:96-97 | one more round keeps the board Latin |
| Generator.RoundsLatin | src/generator.c:96-97 | however many rounds, the board stays Latin |
| Generator.CopyInto | src/generator.c:35-39 | the destination with n cells of the source copied in, the rest kept |
| Generator.CopyLine | src/generator.c:35-39 | copy_line writes exactly those cells |
| Generator.RowsApart | src/generator.c:50-52 | the cells of two different rows do not overlap |
| Generator.ThreeCopiesTo | src/generator.c:51 | the destination row receives the source row |
| Generator.ThreeCopiesFrom | src/generator.c:50-52 | the source row receives the saved destination row |
| Generator.ThreeCopiesElse | src/generator.c:50-52 | cells outside both rows are untouched |
| Generator.AfterCopiesCell | src/generator.c:50-52 | cell by cell, the three copies move row swap(i, p)[row] to row |
| Generator.CopiesSwapRows | src/generator.c:50-52 | the three copy_line calls exchange rows i and indices[i] |
| Generator.SwapRowsInPlace | src/generator.c:50-52 | the three copies on the board exchange rows i and p |
| Generator.SwapAllRows | src/generator.c:49-53 | the row loop performs every exchange in turn, indices unchanged |
| Generator.PermuteColumns | src/generator.c:63-68 | the column loop takes column indices[i] of tmp_grid as column i |
| Generator.ShuffleGrid | src/generator.c:41-69 | shuffle_grid draws 2 * Steps(size) values and leaves board and indices as the reference round gives them |
| Generator.RowPhase | src/generator.c:46-53 | the first shuffle and the row exchanges |
| Generator.ColumnPhase | src/generator.c:55-68 | the board copy, the second shuffle and the column permutation |
| Generator.CopyBoard | src/generator.c:55-58 | tmp_grid becomes a copy of the board and the board is unchanged |
| Generator.ShuffleGridResultIs | src/generator.c:41-69 | the two phases compose to the reference round |
| Generator.PosStep | src/generator.c:84-87 | pos goes up by one and back to 0 when it reaches size, as (pos + 1) mod size |
| Generator.FillCyclic | src/generator.c:82-90 | the nested loops fill cell (i, j) with ((i + j) mod size) + 1 |
| Generator.ShuffleRounds | src/generator.c:96-97 | the SEED rounds of shuffle_grid give the reference result |
| Generator.ShuffleRound | src/generator.c:97 | one loop turn performs round t + 1 |
| Generator.RoundsSucc | src/generator.c:96-97 | round n + 1 is shuffle_grid applied to the result of round n |
| Generator.FillValues | src/generator.c:71-98 | fill_values leaves the board that SEED rounds make of the cyclic square and 0 .. size-1, and that board is a Latin square |
| GeneratorBlocks.Combine | src/generator.c:113-132 | one step of the fold; under '/' the larger of goal and value divided by the smaller stays at least 1 and times the smaller does not exceed the larger |
| GeneratorBlocks.Goal | src/generator.c:100-136 | the fold of calculate_goal over the block's values, from the first value on; under '/' it stays positive |
| GeneratorBlocks.GoalPlusIsSum | src/generator.c:114-116 | under '+' the goal is the sum of the block's values |
| GeneratorBlocks.GoalMultiplyIsProd | src/generator.c:122-124 | under 'x' the goal is the product of the block's values |
| GeneratorBlocks.GoalMinusPair | src/generator.c:118-120 | under '-' the goal of a pair is the larger value minus the smaller |
| GeneratorBlocks.GoalDividePair | src/generator.c:126-131 | under '/' the goal of a pair is the larger value divided by the smaller |
| GeneratorBlocks.CalculateGoal | src/generator.c:100-136 | calculate_goal returns the fold of the values of the block's cells, in list order |
| GeneratorBlocks.DividePossibleExact | src/generator.c:210-226 | is_divide_possible holds exactly when the '/' goal times the smaller value gives back the larger |
| GeneratorBlocks.TryToPutBlock | src/generator.c:138-150 | returns true exactly when the cell is inside the grid and free, and then only that cell changes to num_block; otherwise nothing changes |
| GeneratorBlocks.StartGrowing | src/generator.c:166-167 | writing num_block into the first free cell starts a block of one cell |
| GeneratorBlocks.PutGrows | src/generator.c:187-194 | writing num_block into a free cell adds one cell to the growing block |
| GeneratorBlocks.StopGrowing | src/generator.c:195-203 | a block of at most MAX_BLOCK_SIZE (5) cells is closed and the next one starts after index |
| GeneratorBlocks.Step | src/generator.c:187-192 | the step goes one cell down or one cell right |
| GeneratorBlocks.PutNext | src/generator.c:185-194 | try the chosen direction, then the other; on success one more fresh cell joins the block, on failure nothing changes |
| GeneratorBlocks.GrowBlock | src/generator.c:166-201 | one block of fill_block_board: a new block numbered num_block with at most MAX_BLOCK_SIZE cells has its first cell at index |
| GeneratorBlocks.FillBlockBoard | src/generator.c:152-208 | from an empty block board every cell ends in a block 1 .. nb_blocks, every such block has a cell, and none has more than MAX_BLOCK_SIZE cells |
| GeneratorBlocks.OperatorOf | src/generator.c:280-302 | the operator of a stored character; every other character reads as '+' |
| GeneratorBlocks.OperatorNumber | src/generator.c:21 | the position of the operator in enum operators is 0 .. 3 |
| GeneratorBlocks.ChosenOperator | src/generator.c:260-279 | a single cell gets '+' without a draw; '-' and '/' only on two-cell blocks; two draws at most, one on blocks of more than two cells |
| GeneratorBlocks.FinalOperator | src/generator.c:293-300 | only a drawn '/' changes, and only to '+'; '/' is kept exactly on a pair for which is_divide_possible holds |
| GeneratorBlocks.ConstrainedSatisfied | src/generator.c:258-310 | every generated block is satisfied by the board it came from: the sum, the product, the distance or the exact quotient of its values equals its goal |
| GeneratorBlocks.ChoiceConstrained | src/generator.c:258-306 | whatever rand() returns, the operator and goal chosen make the block Constrained |
| GeneratorBlocks.LatinValuesPositive | src/generator.c:82-90 | the values of a Latin square are 1 .. size, so every block's values are positive |
| GeneratorBlocks.DrawOperator | src/generator.c:265-279 | the draws of generate for a block of several cells give the operator of ChosenOperator and consume its draws |
| GeneratorBlocks.AllocateConstraint | src/generator.c:260-306 | one turn of the constraint loop leaves block i with the final operator's character and its goal, Constrained |
| GeneratorBlocks.SetConstraint | src/generator.c:282-306 | stores the operator character and the calculate_goal value into block i and changes no other block |
| GeneratorBlocks.CountOfSize | src/generator.c:259 | the number of blocks of a given size, at most the number of blocks |
| GeneratorBlocks.CountOfOperator | src/generator.c:305 | the number of blocks with a given operator, at most the number of blocks |
| GeneratorBlocks.SizeCountsAddUp | src/generator.c:319-322 | the size_stats entries add up to the number of blocks |
| GeneratorBlocks.OperatorCountsAddUp | src/generator.c:324-340 | the opr_stats entries add up to the number of blocks |
| GeneratorBlocks.Statistics | src/generator.c:236-237 | the counters have MAX_BLOCK_SIZE and NB_OPERATORS (4) entries |
| GeneratorBlocks.StatisticsStep | src/generator.c:259-305 | counting one more block adds one to its size entry and one to its operator entry |
| GeneratorBlocks.ConstraintsStep | src/generator.c:258-310 | one constrained block more extends the loop invariant to the next index |
| GeneratorBlocks.StatsStep | src/generator.c:259-305 | the updated counters are the counters of the longer prefix, or stay zero outside verbose mode |
| GeneratorBlocks.ConstrainedStep | src/generator.c:306 | storing a constrained block keeps the earlier blocks constrained |
| GeneratorBlocks.ConstrainNext | src/generator.c:258-310 | one turn of the loop, counters included, keeps the loop invariant |
| GeneratorBlocks.AllocateConstraints | src/generator.c:258-310 | every block ends Constrained with its cells unchanged, and the counters are the Statistics of the blocks in verbose mode and zero otherwise |
| GeneratorBlocks.CellsReady | src/grid.c:58-77 | a block built from a carved block board over a Latin square has 1 .. MAX_BLOCK_SIZE cells inside the grid with positive values |
| GeneratorBlocks.Generate | src/generator.c:228-344 | generate gives a Latin board, a block board whose every cell is in a block 1 .. nb_blocks, the blocks listing the cells of each number, and each block Constrained, with the verbose counters |
| Parser.CheckAdmittedChar | src/parser.c:9-15 | SUCCESS exactly for '#', '+', '-', 'x', the characters '/' through ':', space, tab and newline; every other character gives UNADMIT_CHAR |
| Parser.ConvertWordToValue | src/parser.c:19-27 | SUCCESS exactly when strtol reports no range error and a positive value; that value is then stored, cut to int through the int out-parameter; on error nothing is stored |
| Parser.ConvertDec | src/parser.c:19-27 | the decimal text of a positive long converts back to that long, and to that int when it fits; a non-positive one gives UNBOUND_VAL |
| Parser.SaveConstraint | src/parser.c:30-39 | converts the word minus its last character into the goal of block block_num - 1 and stores the operator; only that block changes, its cells never; a failed conversion changes nothing |
| Parser.TreatConstraintWord | src/parser.c:43-64 | a word ending in ':' sets the block number, one ending in an operator saves a constraint, any other ending gives UNADMIT_CHAR; an error changes nothing |
| Parser.WordLength | src/parser.c:94 | the first word of the text runs up to the first space or newline |
| Parser.Tokens | src/parser.c:94-146 | strtok(line, " \n") yields non-empty words without delimiters |
| Parser.WordLengthOf | src/parser.c:94 | a word followed by a delimiter or the end is read whole |
| Parser.TokensOfWord | src/parser.c:94-146 | a leading word and delimiter come first, then the words of the rest |
| Parser.WordLengthPrefix | src/parser.c:94 | a word that ends inside the text is not changed by what follows |
| Parser.TokensAppend | src/parser.c:94-146 | text ending in a delimiter splits into its own words, then those of what follows |
| Parser.CheckCommentary | src/parser.c:67-75 | the position of the first '#' of the word, or its length when it has none |
| Parser.GetWordBeforeCommentary | src/parser.c:78-83 | out receives the first commentary_position characters of the word, the rest of out unchanged |
| Parser.GetNbBlocks | src/parser.c:188-196 | the largest block id of the block board, or 0 when no id is positive |
| Parser.CheckGettedValues | src/parser.c:199-215 | SUCCESS exactly when every id 1 .. nb_blocks names a cell of the block board, MISSING_VAL otherwise |
| Output.Width | src/output.c:12-19 | a printed cell is at least two characters wide: the digits of max_value and a space |
| Output.Chunk | src/output.c:7-20 | the cell get_string_value appends is exactly as wide as the digits of max_value plus one |
| Output.ChunkFacts | src/output.c:15-19 | the cell is padding spaces, then the decimal text of the value ending one character before the end, then a space, and holds only spaces, minus signs and digits |
| Output.GetStringValue | src/output.c:7-20 | the padding loop and the two strcat calls append exactly that cell |
| Output.ChunkWidth | src/output.c:15 | a value from 0 to max_value fits, and its cell is as wide as the digits of max_value plus one |
| Output.RowOf | src/output.c:61-63 | the values of one board row, in column order |
| Output.RowOfFits | src/output.c:62-63 | the values of a row fit the field when the board's do |
| Output.RowLines | src/output.c:60-68 | one printed line per row |
| Output.CellsStep | src/output.c:61-65 | writing the next cell extends the row by that cell |
| Output.WriteRow | src/output.c:60-68 | the inner loop appends the cells of the row from a cleared buffer, then a newline |
| Output.WriteBoard | src/output.c:60-68 | the outer loop appends one printed line per row, in row order |
| Output.PrintSolution | src/output.c:51-70 | writes "Grid unsolved." when not solved, otherwise "Grid solved:" and the board with every value right-aligned to the width of size |
| Output.SolutionUnsolvedIff | src/output.c:52-58 | the text is the unsolved message exactly when the grid is not solved; a solved grid starts with "Grid solved:" |
| Output.ConstraintLines | src/output.c:91-94 | one "i: goal operator" line per block |
| Output.WriteConstraints | src/output.c:91-94 | the constraint loop appends the line of each block, in block order |
| Output.GeneratedTextParts | src/output.c:72-95 | the generated file is the two header lines, the block board, the blank line and constraints title, then the constraint lines |
| Output.PrintGeneratedGrid | src/output.c:72-95 | print_generated_grid appends exactly that text, ids right-aligned to the width of nb_blocks |
| Output.CellsLength | src/output.c:61-65 | a row of n cells is n cell widths long |
| Output.CellsEnd | src/output.c:19 | a row of at least one cell ends with a space |
| Output.CellsChars | src/output.c:12-19 | a row holds only spaces, minus signs and digits |
| Output.CellsPrefix | src/output.c:61-65 | the first m cells of a row are a prefix of its first n cells |
| Output.ColumnsAligned | src/output.c:15-19 | column j of a printed row occupies characters j * w to (j + 1) * w, its own cell, so columns line up |
| Output.TokensOfSpaces | src/parser.c:94 | leading spaces add no word |
| Output.DecWord | src/output.c:12 | the decimal text of a value holds no space or newline |
| Output.ChunkTokens | src/parser.c:94-146 | strtok finds one word in a printed cell, the value's decimal text |
| Output.WordsAt | src/output.c:12 | word j of a row is the decimal text of value j |
| Output.CellsTokens | src/parser.c:94-146 | strtok splits a row of n cells into the decimal texts of those n values |
| Output.TokensSnocWord | src/parser.c:94-146 | text ending in a delimiter followed by one word splits into its words and that word |
| Output.RowLineReadBack | src/parser.c:131-136 | a printed row read back: strtok finds exactly size words, and word j converts back to the value of column j |
| Output.RowTextTokens | src/parser.c:94-146 | strtok splits a printed row into the decimal texts of its values; the newline adds no word |
| Output.WordsConvert | src/parser.c:19-27 | the decimal text of every value from 1 to INT_MAX converts back to that value |
| Output.ConstraintLineReadBack | src/parser.c:43-64 | a printed constraint line splits into "i:" and goal-then-operator; the first selects block i, the second stores goal and operator into block i and changes no other block |
| Output.ConstraintLineTokens | src/output.c:92 | the constraint line splits into the "id:" word and the goal-then-operator word |
| Output.IdWordReadBack | src/parser.c:47-51 | the "id:" word selects block id and leaves the blocks unchanged |
| Output.GoalWordReadBack | src/parser.c:52-59 | the goal-then-operator word stores goal and operator in the selected block |
| Output.RowTextShape | src/parser.c:156-168 | a printed row is one line of data that skip_useless_lines stops at |
| Output.ConstraintLineShape | src/parser.c:156-168 | a constraint line is one line of data that skip_useless_lines stops at |
| Output.TitleLinesShape | src/parser.c:161 | the header lines, the blank line and the constraints title are all lines skip_useless_lines skips |
| Output.RowLinesKept | src/output.c:79-87 | every printed row is a kept data line |
| Output.RowLinesAt | src/output.c:79-87 | line i of the printed rows is the text of row i |
| Output.ConstraintLinesKept | src/output.c:91-94 | every constraint line is a kept data line |
| Output.FourGroupsShape | src/parser.c:156-168 | in comment, data, comment, data groups a line is skipped exactly when it is in a comment group, and data lines hold data only |
| Output.LineOfFour | src/output.c:72-95 | line k of four groups lies in the group its index selects |
| Output.GeneratedLineShape | src/output.c:72-95 | line k of the generated file is skipped exactly when it is a header, the blank line or the title; otherwise it is a data line |
| Output.GeneratedLinesShape | src/output.c:72-95 | the generated file has size + nb_blocks + 4 lines; exactly lines 0, 1, size + 2 and size + 3 are skipped, and all the rest are data lines |
| Decimal.ToInt | src/parser.c:24 | storing a long into an int gives a value in the int range, unchanged when it already fits |
| Decimal.DigitChar | src/output.c:12 | the digit character of 0 .. 9 |
| Decimal.Digits | src/output.c:12 | sprintf's digits of a non-negative number: at least one, all digits |
| Decimal.Dec | src/output.c:12 | sprintf "%d": a minus sign first exactly for negative numbers, then digits |
| Decimal.DigitsMonotone | src/output.c:15 | a larger number has at least as many digits, so the padding count of get_string_value is never negative |
| Decimal.DigitsValueOfDigits | src/parser.c:20 | reading back the digits of n gives n |
| Decimal.DigitRun | src/parser.c:20 | the longest run of digits from a position |
| Decimal.SpaceRun | src/parser.c:20 | the leading white space strtol skips |
| Decimal.Strtol | src/parser.c:20 | strtol's result lies in the long range, a range error comes only with a value clamped to LONG_MIN or LONG_MAX, and EINVAL never occurs |
| Decimal.DigitRunOf | src/parser.c:20 | a digit string followed by a non-digit is a run of exactly its length |
| Decimal.DecRoundTrip | src/parser.c:20 | strtol reads back, without error, any long sprintf wrote, followed by any non-digit |
| Decimal.NegativeRoundTrip | src/parser.c:20 | the same for negative numbers |
| Decimal.NonNegativeRoundTrip | src/parser.c:20 | the same for non-negative numbers |
| Decimal.StrtolOfText | src/parser.c:20 | strtol on an optional sign, digits of value m, then a non-digit gives the signed m |

## Left out

- The command-line front end in src/kenken.c: option handling, file opening, timing and help text. Two of its caller-side rules appear as preconditions instead: a solved grid returns early, and the logic solver is only used on grids of at most 64 rows.
- Error reporting in src/errcode.c, which only prints messages and exits. The codes themselves are modelled.
- Memory management: `calloc` failures, `free`, `clear_grid` and the ERRCODE_ALLOC paths. All allocations are assumed to succeed.
- The parser's file plumbing: `parse`, `skip_useless_lines`, `get_grid_size` and `treat_line`. These go through `fgets`, `fseek` and `strtok` on a FILE. The model keeps the decisions they make, as lemmas in Output: the skip test (`Parser.SkippedLine`), the word split (`Parser.Tokens`), and the number of words on a row.
- Debug printing: `print_board` and `print_block_board` write the same rows as `Output.WriteRow` and are not modelled separately.
- Verbose output: the `printf` calls of the VRB macros and the statistics printing of `generate`. The counters they print (nb_set, nb_unset, nb_hypo, nb_rm_possib, size_stats, opr_stats) are modelled.
- Randomness: `srand(time(NULL) + getpid())`. `rand()` becomes the explicit `RandomSource` stream.
- Floating point: `log2` in `get_rightmost_set_bit`, and `fmax`/`fmin` in src/solver.c. These are the integer lowest set bit (`Bitmaps.RightmostSetBit`) and integer `Solver.Max`/`Solver.Min`.
- Parallel regions compiled under OpenMP, and the test programs under test/.
- Decimal.Strtol: errno is modelled as reset before each call. The C code reads a stale errno left by an earlier call, and glibc never sets EINVAL for base 10, so ERRCODE_CONVERSION_FAIL cannot occur in the model.
- Decimal.ToInt: storing a long into an int is modelled as the conversion modulo 2^32 that GCC defines.
- Output.GetStringValue: requires the value to print no wider than max_value. Otherwise the `size_t` subtraction in the loop bound wraps around and the loop overflows the buffer.
- Output.RowLineReadBack: stated on the rows as `RowOf` lists them, not on the whole `parse` loop.
- Parser.CheckGettedValues: requires every block id to lie in 1 .. nb_blocks. The C code writes `array[id - 1]` out of bounds for other ids. `get_nb_blocks` bounds them from above, but a cell of a row the file lacks keeps id 0.
- Parser.SaveConstraint: requires the current block number to lie in 1 .. nb_blocks. The C code indexes `blocks[*block_num - 1]` without a check, so a file whose first constraint word has no "id:" writes `blocks[-1]`.
- GeneratorBlocks.TryToPutBlock: requires non-negative coordinates. fill_block_board only ever moves down or right from a cell of the grid.
- GeneratorBlocks.FillBlockBoard: returns nb_blocks instead of storing it. Generate stores it into the grid.
- GeneratorBlocks.Goal: unbounded integers. A `long` goal that overflows under 'x' on very large blocks is not modelled; blocks have at most MAX_BLOCK_SIZE (5) cells of at most size each.
- GeneratorBlocks.Generate: assumes `initialize_grid`, `initialize_blocks_array` and `fill_squares_array` succeed. It gets cells in 1 .. nb_blocks from fill_block_board and sufficient memory, as stated above.
- Bruteforce.ExtendsWrite: keeps only the Latin-square half of "every written value passed is_valid". That the value also passed `check_grid` on the board at the moment of writing is proved per call in `Bruteforce.IsValid`, not carried into the final board.
- Bruteforce.SolveUsingBruteforce: on true, states only the Latin-square half of the write promise (src/bruteforce_solver.c:81-84): every newly filled cell holds a value in 1 .. size, unique in its row and column (`Extends`). That each written value also passed `check_grid` on its block, against the board at the moment of writing, is proved per write in `Bruteforce.IsValid` but not carried into the final board.
- Bruteforce.TryValues: the same gap for the pruning-mode `is_valid` at src/bruteforce_solver.c:47. Its `check_grid` half is not carried into the final board.
- Bruteforce.SolveUsingBlocksizeSortSub: the same gap as Bruteforce.TryValues, which makes its writes.
- Bruteforce.SolveUsingBlocksizeSort: the same gap as Bruteforce.TryValues, which makes its writes.
- LogicSolver.SolveUsingPossibilities: modelled on an empty board, for the first round of its loop. It returns `Unfollowed` where the C code either calls `solve_using_possibilities_sub` with position -1 (no candidate left) or goes on into the next round of its endless loop.
- Solver.CheckGrid: goals are unbounded integers. A block's goal is a C `long` (include/grid.h:37) that src/solver.c:11, 47, 82 and 119 store into an `int`, truncating it; the model keeps the whole goal.
- Solver.CheckPlusCase: the running `int` total at src/solver.c:23-24 cannot overflow in the model; it is the exact sum.
- Solver.CheckMultiplyCase: does not model `int` overflow of `board * total` and `total *=` at src/solver.c:57-59. A wrapped product can pass the `<= goal` test in C where the exact product fails it.
- Solver.DivideAccepts: does not model `int` overflow of `val * goal` at src/solver.c:121. With goal 2^30, val 4 and an empty partner cell, C wraps the product to 0 and accepts; the model rejects. It also requires two cells with the target among them: a one-cell '/' block reads `squares[1]` past the end (src/solver.c:116), and a block of three or more cells whose target is neither of the first two reaches `max % min` with min 0 (src/solver.c:140).
- Solver.MinusAccepts: does not model `int` overflow of `val + goal` at src/solver.c:84, and requires two cells: a one-cell '-' block reads `squares[1]` past the end (src/solver.c:80).
- Solver.Checkable: states the arity conditions above as a precondition of check_grid. The parser never checks how many cells a '-' or '/' block has, so a hand-written file can break them; such files are outside the model.
- Bruteforce.WellFormed: requires at least two cells for '-' blocks and exactly two for '/' blocks, for the same reason; the generator only makes such blocks.

## Findings

| source | as written | input that shows it | evidently intended | confidence | as-written member | corrected member |
|---|---|---|---|---|---|---|
| src/bruteforce_solver.c:17-37 | make_blocks_priority_list starts its running minimum at the grid size and compares with `<`, so a block of size or more cells is never selected; the stale index of the previous pick is stored again | a 2x2 grid with blocks of 1 and 3 cells gives the list [0, 0]; block 1 is never tried and block 0 twice | every block listed once, in increasing order of size | high, not executed | Bruteforce.PriorityAsWrittenExample, Bruteforce.PriorityAsWrittenSkipsLarge | Bruteforce.MakeBlocksPriorityList |
| src/logic_solver.c:213-238 | when no cell has a candidate left but cells are still empty, find_next_possibility_pos (src/logic_solver.c:213-214) returns -1, the hypothesis loop at src/logic_solver.c:221-233 is skipped, and the final reset writes `board[-1]` | masks [1, 1, 0, 0] on an empty 2x2 board, after placing 1 at position 0 | return false without writing outside the board | high, not executed | LogicSolver.TailAsWritten, LogicSolver.ResetOutsideBoardExample | LogicSolver.SearchFrom |
