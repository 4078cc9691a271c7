/**
 * The text the program writes (src/output.c): right-aligned cells, the
 * solution and the generated grid. A stream is the text written so far; a
 * print operation returns it with its own text appended. The lemmas show that
 * the generated grid is a file the parser reads back: its comment lines are
 * the ones skip_useless_lines skips, a row splits into the block ids of that
 * row, and a constraint line decodes to its block's goal and operator.
 */
module Output {
  import opened ErrCodes
  import opened GridModel
  import opened Decimal
  import opened Parser

  // ---- get_string_value

  function Spaces(n: nat): (s: seq<char>)
    ensures |s| == n && forall i :: 0 <= i < n ==> s[i] == ' '
  {
    if n == 0 then [] else [' '] + Spaces(n - 1)
  }

  /** value is printed no wider than max_value, so the padding count does not wrap below zero. */
  predicate Fits(max: int, v: int)
  {
    |Dec(v)| <= |Dec(max)|
  }

  predicate AllFit(b: seq<int>, max: int)
  {
    forall k {:trigger Fits(max, b[k])} :: 0 <= k < |b| ==> Fits(max, b[k])
  }

  /** The characters sprintf("%d") and the padding use: spaces, minus signs and digits. */
  predicate CellChar(c: char)
  {
    c == ' ' || c == '-' || IsDigit(c)
  }

  /** The width of one printed cell when the largest value is max. */
  function Width(max: int): (w: nat)
    ensures w >= 2
  {
    |Dec(max)| + 1
  }

  /**
   * The text get_string_value appends for value: the decimal digits of value
   * right-aligned in a field as wide as those of max, then one space.
   */
  function Chunk(max: int, v: int): (s: seq<char>)
    requires Fits(max, v)
    ensures |s| == Width(max)
  {
    Spaces(|Dec(max)| - |Dec(v)|) + Dec(v) + [' ']
  }

  /**
   * A cell is padding spaces, then the digits of its value ending one
   * character before the end, then a space; it holds only cell characters.
   */
  lemma ChunkFacts(max: int, v: int)
    requires Fits(max, v)
    ensures var s := Chunk(max, v);
      s[|s| - 1] == ' ' && s[|s| - 1 - |Dec(v)|..|s| - 1] == Dec(v)
      && (forall i :: 0 <= i < |s| - 1 - |Dec(v)| ==> s[i] == ' ')
      && (forall i :: 0 <= i < |s| ==> CellChar(s[i]))
  {
    var p := Spaces(|Dec(max)| - |Dec(v)|);
    var s := Chunk(max, v);
    assert s == p + Dec(v) + [' '];
    assert s[|s| - 1 - |Dec(v)|..|s| - 1] == Dec(v);
  }

  /** get_string_value: appends the padding spaces one by one, then the value and a space. */
  method GetStringValue(valstring: seq<char>, max: int, value: int) returns (r: seq<char>)
    requires Fits(max, value)
    ensures r == valstring + Chunk(max, value)
  {
    var valueText := Dec(value);
    var maxText := Dec(max);
    r := valstring;
    var i := 0;
    while i < |maxText| - |valueText|
      invariant 0 <= i <= |maxText| - |valueText|
      invariant r == valstring + Spaces(i)
    {
      assert Spaces(i + 1) == Spaces(i) + [' '];
      r := r + [' '];
      i := i + 1;
    }
    r := r + valueText;
    r := r + [' '];
  }

  /** A value from 0 to max has no more digits than max: every cell has the same width. */
  lemma ChunkWidth(max: int, v: int)
    requires 0 <= v <= max
    ensures Fits(max, v) && |Chunk(max, v)| == |Dec(max)| + 1
  {
    DigitsMonotone(v, max);
  }

  // ---- rows and boards

  /** The values of row `row` of a flat board, in column order. */
  function RowOf(b: seq<int>, size: int, row: int): (vs: seq<int>)
    requires 0 <= row < size && |b| == size * size
    ensures |vs| == size && forall j :: 0 <= j < size ==> vs[j] == b[Index(row, j, size)]
  {
    seq(size, j requires 0 <= j < size => b[Index(row, j, size)])
  }

  lemma RowOfFits(b: seq<int>, size: int, max: int, row: int)
    requires 0 <= row < size && |b| == size * size && AllFit(b, max)
    ensures AllFit(RowOf(b, size, row), max)
  {
    var vs := RowOf(b, size, row);
    forall k | 0 <= k < |vs|
      ensures Fits(max, vs[k])
    {
      assert vs[k] == b[Index(row, k, size)];
    }
  }

  /** The cells of values vs[0 .. n - 1], side by side. */
  function Cells(vs: seq<int>, max: int, n: nat): seq<char>
    requires n <= |vs| && AllFit(vs, max)
  {
    if n == 0 then [] else Cells(vs, max, n - 1) + Chunk(max, vs[n - 1])
  }

  /** One printed row: its cells, then a newline. */
  function RowText(b: seq<int>, size: int, max: int, row: int): seq<char>
    requires 0 <= row < size && |b| == size * size && AllFit(b, max)
  {
    RowOfFits(b, size, max, row);
    Cells(RowOf(b, size, row), max, size) + ['\n']
  }

  /** The printed rows 0 .. n - 1. */
  function RowLines(b: seq<int>, size: int, max: int, n: nat): (ls: seq<seq<char>>)
    requires n <= size && |b| == size * size && AllFit(b, max)
    ensures |ls| == n
  {
    if n == 0 then [] else RowLines(b, size, max, n - 1) + [RowText(b, size, max, n - 1)]
  }

  /** Lines written one after the other. */
  function Concat(ls: seq<seq<char>>): seq<char>
  {
    if ls == [] then [] else Concat(ls[..|ls| - 1]) + ls[|ls| - 1]
  }

  lemma ConcatSnoc(ls: seq<seq<char>>, l: seq<char>)
    ensures Concat(ls + [l]) == Concat(ls) + l
  {
    assert (ls + [l])[..|ls|] == ls;
  }

  lemma {:induction false} ConcatAppend(a: seq<seq<char>>, b: seq<seq<char>>)
    ensures Concat(a + b) == Concat(a) + Concat(b)
    decreases |b|
  {
    if b == [] {
      assert a + b == a;
    } else {
      var c := b[..|b| - 1];
      assert a + b == (a + c) + [b[|b| - 1]];
      ConcatSnoc(a + c, b[|b| - 1]);
      ConcatAppend(a, c);
      ConcatSnoc(c, b[|b| - 1]);
      assert c + [b[|b| - 1]] == b;
    }
  }

  lemma AppendAssoc(a: seq<char>, b: seq<char>, c: seq<char>)
    ensures a + b + c == a + (b + c)
  {
  }

  lemma AppendAssoc4(s: seq<char>, a: seq<char>, b: seq<char>, c: seq<char>, d: seq<char>)
    ensures s + a + b + c + d == s + (a + b + c + d)
  {
  }

  /** The printed board: its first n rows. */
  function BoardText(b: seq<int>, size: int, max: int, n: nat): seq<char>
    requires n <= size && |b| == size * size && AllFit(b, max)
  {
    Concat(RowLines(b, size, max, n))
  }

  /** The row loop of the print functions: get_string_value for each cell from a cleared buffer, then a newline. */
  method WriteRow(out: seq<char>, b: array<int>, size: int, max: int, row: int) returns (r: seq<char>)
    requires 0 <= row < size && b.Length == size * size && AllFit(b[..], max)
    ensures r == out + RowText(b[..], size, max, row)
  {
    ghost var vs := RowOf(b[..], size, row);
    RowOfFits(b[..], size, max, row);
    r := out;
    var j := 0;
    while j < size
      invariant 0 <= j <= size
      invariant r == out + Cells(vs, max, j)
    {
      var k := Index(row, j, size);
      var valstring := GetStringValue([], max, b[k]);
      CellsStep(out, vs, max, j, r, valstring);
      r := r + valstring;
      j := j + 1;
    }
    AppendAssoc(out, Cells(vs, max, size), ['\n']);
    r := r + ['\n'];
  }

  /** Appending the cell of vs[j] to a stream holding cells 0 .. j - 1 gives cells 0 .. j. */
  lemma CellsStep(out: seq<char>, vs: seq<int>, max: int, j: nat, r: seq<char>, valstring: seq<char>)
    requires j < |vs| && AllFit(vs, max)
    requires r == out + Cells(vs, max, j) && valstring == [] + Chunk(max, vs[j])
    ensures r + valstring == out + Cells(vs, max, j + 1)
  {
    var p, c := Cells(vs, max, j), Chunk(max, vs[j]);
    assert valstring == c;
    assert Cells(vs, max, j + 1) == p + c;
    AppendAssoc(out, p, c);
  }

  // ---- print_solution

  const UNSOLVED_LINE := "Grid unsolved.\n"
  const SOLVED_LINE := "Grid solved:\n"

  /** The text print_solution writes. */
  function SolutionText(solved: bool, b: seq<int>, size: int): seq<char>
    requires 0 <= size && |b| == size * size && (solved ==> AllFit(b, size))
  {
    if !solved then UNSOLVED_LINE else SOLVED_LINE + BoardText(b, size, size, size)
  }

  /**
   * print_solution: "Grid unsolved." when the grid is not solved; otherwise
   * "Grid solved:" and the board, each value right-aligned to the width of
   * the grid size.
   */
  method PrintSolution(stream: seq<char>, isSolved: bool, g: Grid) returns (out: seq<char>)
    requires g.Valid() && (isSolved ==> AllFit(g.board[..], g.size))
    ensures out == stream + SolutionText(isSolved, g.board[..], g.size)
  {
    if !isSolved {
      out := stream + UNSOLVED_LINE;
    } else {
      out := stream + SOLVED_LINE;
      out := WriteBoard(out, g.board, g.size, g.size);
    }
  }

  /** The unsolved message is written exactly when the grid is not solved. */
  lemma SolutionUnsolvedIff(solved: bool, b: seq<int>, size: int)
    requires 0 <= size && |b| == size * size && (solved ==> AllFit(b, size))
    ensures SolutionText(solved, b, size) == UNSOLVED_LINE <==> !solved
    ensures solved ==> SolutionText(solved, b, size)[..|SOLVED_LINE|] == SOLVED_LINE
  {
    if solved {
      var s := SolutionText(solved, b, size);
      assert s[5] == 's';
      assert s[..|SOLVED_LINE|] == SOLVED_LINE;
    }
  }

  // ---- print_generated_grid

  /** The fprintf line "%d: %ld%c\n" of block i. */
  function ConstraintLine(i: int, goal: int, opr: char): seq<char>
  {
    Dec(i) + ": " + Dec(goal) + [opr] + "\n"
  }

  /** The constraint lines of blocks 1 .. n. */
  function ConstraintLines(blocks: seq<Block>, n: nat): (ls: seq<seq<char>>)
    requires n <= |blocks|
    ensures |ls| == n
  {
    if n == 0 then []
    else ConstraintLines(blocks, n - 1) + [ConstraintLine(n, blocks[n - 1].goal, blocks[n - 1].opr)]
  }

  const TITLE_LINE := "#Grid generated:\n"
  const ROOMS_LINE := "# Rooms\n"
  const BLANK_LINE := "\n"
  const CONSTRAINTS_LINE := "# Constraints\n"
  const HEADER: seq<seq<char>> := [TITLE_LINE, ROOMS_LINE]
  const MIDDLE: seq<seq<char>> := [BLANK_LINE, CONSTRAINTS_LINE]

  /** The lines print_generated_grid writes, in order. */
  function GeneratedLines(bb: seq<int>, size: int, blocks: seq<Block>): seq<seq<char>>
    requires 0 <= size && |bb| == size * size && AllFit(bb, |blocks|)
  {
    HEADER + RowLines(bb, size, |blocks|, size) + MIDDLE + ConstraintLines(blocks, |blocks|)
  }

  function GeneratedText(bb: seq<int>, size: int, blocks: seq<Block>): seq<char>
    requires 0 <= size && |bb| == size * size && AllFit(bb, |blocks|)
  {
    Concat(GeneratedLines(bb, size, blocks))
  }

  /** The text of two lines. */
  lemma ConcatPair(a: seq<char>, b: seq<char>)
    ensures Concat([a, b]) == a + b
  {
    ConcatSnoc([a], b);
    ConcatSnoc([], a);
    assert [] + [a] == [a];
    assert [a] + [b] == [a, b];
  }

  /** The text of four groups of lines is the texts of the groups, one after the other. */
  lemma ConcatFour(a: seq<seq<char>>, b: seq<seq<char>>, c: seq<seq<char>>, d: seq<seq<char>>)
    ensures Concat(a + b + c + d) == Concat(a) + Concat(b) + Concat(c) + Concat(d)
  {
    ConcatAppend(a + b + c, d);
    ConcatAppend(a + b, c);
    ConcatAppend(a, b);
  }

  /** The generated text is the header, the board, the constraints title and the constraint lines. */
  lemma GeneratedTextParts(bb: seq<int>, size: int, blocks: seq<Block>)
    requires 0 <= size && |bb| == size * size && AllFit(bb, |blocks|)
    ensures GeneratedText(bb, size, blocks) ==
      (TITLE_LINE + ROOMS_LINE) + BoardText(bb, size, |blocks|, size)
      + (BLANK_LINE + CONSTRAINTS_LINE) + Concat(ConstraintLines(blocks, |blocks|))
  {
    ConcatFour(HEADER, RowLines(bb, size, |blocks|, size), MIDDLE, ConstraintLines(blocks, |blocks|));
    ConcatPair(TITLE_LINE, ROOMS_LINE);
    ConcatPair(BLANK_LINE, CONSTRAINTS_LINE);
  }

  /**
   * print_generated_grid: the header, the block board with each id
   * right-aligned to the width of nb_blocks, the constraints title, then one
   * "i: goal operator" line per block in block order.
   */
  method PrintGeneratedGrid(stream: seq<char>, g: Grid) returns (out: seq<char>)
    requires g.Valid() && AllFit(g.blockBoard[..], g.nbBlocks)
    ensures out == stream + GeneratedText(g.blockBoard[..], g.size, g.blocks)
  {
    out := stream + (TITLE_LINE + ROOMS_LINE);
    out := WriteBoard(out, g.blockBoard, g.size, g.nbBlocks);
    out := out + (BLANK_LINE + CONSTRAINTS_LINE);
    out := WriteConstraints(out, g.blocks);
    GeneratedTextParts(g.blockBoard[..], g.size, g.blocks);
    AppendAssoc4(stream, TITLE_LINE + ROOMS_LINE, BoardText(g.blockBoard[..], g.size, g.nbBlocks, g.size),
      BLANK_LINE + CONSTRAINTS_LINE, Concat(ConstraintLines(g.blocks, |g.blocks|)));
  }

  /** The board loop of the print functions: one printed row per grid row. */
  method WriteBoard(out: seq<char>, b: array<int>, size: int, max: int) returns (r: seq<char>)
    requires 0 <= size && b.Length == size * size && AllFit(b[..], max)
    ensures r == out + BoardText(b[..], size, max, size)
  {
    r := out;
    var i := 0;
    while i < size
      invariant 0 <= i <= size
      invariant r == out + BoardText(b[..], size, max, i)
    {
      r := WriteRow(r, b, size, max, i);
      ConcatSnoc(RowLines(b[..], size, max, i), RowText(b[..], size, max, i));
      AppendAssoc(out, BoardText(b[..], size, max, i), RowText(b[..], size, max, i));
      i := i + 1;
    }
  }

  /** The constraint loop of print_generated_grid: the line of each block in block order. */
  method WriteConstraints(out: seq<char>, blocks: seq<Block>) returns (r: seq<char>)
    ensures r == out + Concat(ConstraintLines(blocks, |blocks|))
  {
    r := out;
    var i := 0;
    while i < |blocks|
      invariant 0 <= i <= |blocks|
      invariant r == out + Concat(ConstraintLines(blocks, i))
    {
      var line := ConstraintLine(i + 1, blocks[i].goal, blocks[i].opr);
      ConcatSnoc(ConstraintLines(blocks, i), line);
      AppendAssoc(out, Concat(ConstraintLines(blocks, i)), line);
      r := r + line;
      i := i + 1;
    }
  }

  // ---- the printed rows line up and read back

  /** A row of n cells is n cell widths long. */
  lemma {:induction false} CellsLength(vs: seq<int>, max: int, n: nat)
    requires n <= |vs| && AllFit(vs, max)
    ensures |Cells(vs, max, n)| == n * Width(max)
    decreases n
  {
    if n >= 1 {
      CellsLength(vs, max, n - 1);
      assert |Cells(vs, max, n)| == |Cells(vs, max, n - 1)| + Width(max);
      MulStep(n, Width(max));
    }
  }

  lemma MulStep(n: int, w: int)
    ensures (n - 1) * w + w == n * w
  {
  }

  /** A row of at least one cell ends with a space. */
  lemma CellsEnd(vs: seq<int>, max: int, n: nat)
    requires 1 <= n <= |vs| && AllFit(vs, max)
    ensures var s := Cells(vs, max, n); |s| >= 1 && s[|s| - 1] == ' '
  {
    var v := vs[n - 1];
    var c := Chunk(max, v);
    assert Cells(vs, max, n) == Cells(vs, max, n - 1) + c;
    assert c == Spaces(|Dec(max)| - |Dec(v)|) + Dec(v) + [' '];
  }

  /** A row holds only cell characters. */
  lemma {:induction false} CellsChars(vs: seq<int>, max: int, n: nat)
    requires n <= |vs| && AllFit(vs, max)
    ensures forall k :: 0 <= k < |Cells(vs, max, n)| ==> CellChar(Cells(vs, max, n)[k])
    decreases n
  {
    if n >= 1 {
      CellsChars(vs, max, n - 1);
      ChunkFacts(max, vs[n - 1]);
      var p := Cells(vs, max, n - 1);
      var c := Chunk(max, vs[n - 1]);
      assert Cells(vs, max, n) == p + c;
      forall k | 0 <= k < |p + c|
        ensures CellChar((p + c)[k])
      {
        if k >= |p| {
          assert (p + c)[k] == c[k - |p|];
        } else {
          assert (p + c)[k] == p[k];
        }
      }
    }
  }

  /** The first m cells of a row are a prefix of its first n cells. */
  lemma {:induction false} CellsPrefix(vs: seq<int>, max: int, m: nat, n: nat)
    requires m <= n <= |vs| && AllFit(vs, max)
    ensures |Cells(vs, max, m)| <= |Cells(vs, max, n)|
    ensures Cells(vs, max, n)[..|Cells(vs, max, m)|] == Cells(vs, max, m)
    decreases n
  {
    if m < n {
      var q, c := Cells(vs, max, n - 1), Chunk(max, vs[n - 1]);
      assert Cells(vs, max, n) == q + c;
      CellsPrefix(vs, max, m, n - 1);
      PrefixOfSnoc(q, c, Cells(vs, max, m));
    }
  }

  /** A prefix of q is a prefix of q followed by anything. */
  lemma PrefixOfSnoc(q: seq<char>, c: seq<char>, p: seq<char>)
    requires |p| <= |q| && q[..|p|] == p
    ensures |p| <= |q + c| && (q + c)[..|p|] == p
  {
    assert (q + c)[..|p|] == q[..|p|];
  }

  /** Column j of a printed row takes the characters from j * w to (j + 1) * w, w the cell width. */
  lemma ColumnsAligned(vs: seq<int>, max: int, n: nat, j: int)
    requires 0 <= j < n <= |vs| && AllFit(vs, max)
    ensures var s := Cells(vs, max, n); var w := Width(max);
      0 <= j * w && (j + 1) * w <= |s| && s[j * w..(j + 1) * w] == Chunk(max, vs[j])
  {
    var w := Width(max);
    CellsPrefix(vs, max, j + 1, n);
    CellsLength(vs, max, j);
    var s := Cells(vs, max, n);
    var t := Cells(vs, max, j + 1);
    var p := Cells(vs, max, j);
    var c := Chunk(max, vs[j]);
    assert t == p + c;
    assert |p| == j * w && |t| == (j + 1) * w;
    SliceOfSuffix(p, c);
    assert s[|p|..|t|] == t[|p|..|t|];
  }

  lemma SliceOfPrefix(p: seq<char>, c: seq<char>, lo: int, hi: int)
    requires 0 <= lo <= hi <= |p|
    ensures (p + c)[lo..hi] == p[lo..hi]
  {
    assert forall k :: lo <= k < hi ==> (p + c)[k] == p[k];
  }

  lemma SliceOfSuffix(p: seq<char>, c: seq<char>)
    ensures (p + c)[|p|..|p| + |c|] == c
  {
    assert forall k :: 0 <= k < |c| ==> (p + c)[|p| + k] == c[k];
  }

  lemma {:induction false} TokensOfSpaces(n: nat, r: seq<char>)
    ensures Tokens(Spaces(n) + r) == Tokens(r)
    decreases n
  {
    if n > 0 {
      var x := Spaces(n) + r;
      assert x[0] == ' ';
      assert x[1..] == Spaces(n - 1) + r;
      assert Tokens(x) == Tokens(x[1..]);
      TokensOfSpaces(n - 1, r);
    } else {
      assert Spaces(n) + r == r;
    }
  }

  /** The decimal text of a value holds no word delimiter. */
  lemma DecWord(v: int)
    ensures |Dec(v)| >= 1 && NoDelimiter(Dec(v))
  {
    var d := Dec(v);
    assert forall i :: 0 <= i < |d| ==> d[i] == '-' || IsDigit(d[i]);
  }

  /** strtok finds one word in a printed cell: the value's decimal text. */
  lemma ChunkTokens(max: int, v: int)
    requires Fits(max, v)
    ensures Tokens(Chunk(max, v)) == [Dec(v)]
  {
    var p := Spaces(|Dec(max)| - |Dec(v)|);
    DecWord(v);
    assert Chunk(max, v) == p + (Dec(v) + [' '] + []);
    TokensOfSpaces(|Dec(max)| - |Dec(v)|, Dec(v) + [' '] + []);
    TokensOfWord(Dec(v), ' ', []);
  }

  /** The decimal texts of vs[0 .. n - 1], in order. */
  function Words(vs: seq<int>, n: nat): seq<seq<char>>
    requires n <= |vs|
  {
    if n == 0 then [] else Words(vs, n - 1) + [Dec(vs[n - 1])]
  }

  /** There is one word per value, and word j is the decimal text of vs[j]. */
  lemma {:induction false} WordsAt(vs: seq<int>, n: nat)
    requires n <= |vs|
    ensures var ws := Words(vs, n); |ws| == n && forall j :: 0 <= j < n ==> ws[j] == Dec(vs[j])
    decreases n
  {
    if n >= 1 {
      WordsAt(vs, n - 1);
      var ws0 := Words(vs, n - 1);
      var ws := Words(vs, n);
      forall j | 0 <= j < n
        ensures ws[j] == Dec(vs[j])
      {
        if j < n - 1 {
          assert ws[j] == ws0[j];
        }
      }
    }
  }

  /** strtok splits a row of n cells into the decimal texts of those n values. */
  lemma {:induction false} CellsTokens(vs: seq<int>, max: int, n: nat)
    requires n <= |vs| && AllFit(vs, max)
    ensures Tokens(Cells(vs, max, n)) == Words(vs, n)
    decreases n
  {
    if n >= 1 {
      var p := Cells(vs, max, n - 1);
      var c := Chunk(max, vs[n - 1]);
      if n >= 2 {
        CellsEnd(vs, max, n - 1);
      } else {
        assert p == [];
      }
      CellsTokens(vs, max, n - 1);
      ChunkTokens(max, vs[n - 1]);
      TokensSnocWord(p, c, Words(vs, n - 1), Dec(vs[n - 1]));
      assert Cells(vs, max, n) == p + c;
    } else {
      assert Cells(vs, max, n) == [];
    }
  }

  /** Text ending at a delimiter, then text holding one word: the words of the first, then that word. */
  lemma TokensSnocWord(p: seq<char>, c: seq<char>, ws: seq<seq<char>>, w: seq<char>)
    requires (p == [] || IsDelimiter(p[|p| - 1])) && Tokens(p) == ws && Tokens(c) == [w]
    ensures Tokens(p + c) == ws + [w]
  {
    TokensAppend(p, c);
  }

  /**
   * A printed row read back: strtok finds exactly size words on it, as
   * treat_line requires of a row, and word j converts back to the value of
   * column j.
   */
  lemma RowLineReadBack(b: seq<int>, size: int, max: int, row: int)
    requires 0 <= row < size && |b| == size * size && AllFit(b, max)
    requires forall k :: 0 <= k < |b| ==> 1 <= b[k] <= INT_MAX
    ensures var ts := Tokens(RowText(b, size, max, row));
      |ts| == size && forall j :: 0 <= j < size ==>
        ts[j] == Dec(b[Index(row, j, size)])
        && ConvertWordToValue(ts[j], IntOut) == (Success, IntValue(b[Index(row, j, size)]))
  {
    var vs := RowOf(b, size, row);
    RowTextTokens(b, size, max, row);
    WordsAt(vs, size);
    WordsConvert(vs);
  }

  /** strtok splits a printed row into the decimal texts of its values; the final newline adds no word. */
  lemma RowTextTokens(b: seq<int>, size: int, max: int, row: int)
    requires 0 <= row < size && |b| == size * size && AllFit(b, max)
    ensures Tokens(RowText(b, size, max, row)) == Words(RowOf(b, size, row), size)
  {
    var vs := RowOf(b, size, row);
    RowOfFits(b, size, max, row);
    var cells := Cells(vs, max, size);
    CellsEnd(vs, max, size);
    TokensAppend(cells, ['\n']);
    assert Tokens(['\n']) == Tokens([]);
    CellsTokens(vs, max, size);
  }

  /** The decimal text of each value from 1 to INT_MAX converts back to it. */
  lemma WordsConvert(vs: seq<int>)
    requires forall j :: 0 <= j < |vs| ==> 1 <= vs[j] <= INT_MAX
    ensures forall j :: 0 <= j < |vs| ==> ConvertWordToValue(Dec(vs[j]), IntOut) == (Success, IntValue(vs[j]))
  {
    forall j | 0 <= j < |vs|
      ensures ConvertWordToValue(Dec(vs[j]), IntOut) == (Success, IntValue(vs[j]))
    {
      ConvertDec(vs[j], []);
      assert Dec(vs[j]) + [] == Dec(vs[j]);
    }
  }

  /**
   * A constraint line read back: strtok splits it into "i:" and the goal
   * followed by the operator; treat_constraint_word makes the first the
   * current block number and stores goal and operator into block i from the
   * second, leaving every other block as it was.
   */
  lemma ConstraintLineReadBack(blocks: seq<Block>, i: int, goal: int, opr: char, blockNum: int)
    requires 1 <= i <= |blocks| && i <= INT_MAX && 1 <= goal <= LONG_MAX && IsOperatorChar(opr)
    ensures Tokens(ConstraintLine(i, goal, opr)) == [Dec(i) + [':'], Dec(goal) + [opr]]
    ensures TreatConstraintWord(blocks, Dec(i) + [':'], blockNum) == Treated(Success, blocks, i)
    ensures TreatConstraintWord(blocks, Dec(goal) + [opr], i)
      == Treated(Success, blocks[i - 1 := blocks[i - 1].(goal := goal, opr := opr)], i)
  {
    ConstraintLineTokens(i, goal, opr);
    IdWordReadBack(blocks, i, blockNum);
    GoalWordReadBack(blocks, i, goal, opr);
  }

  /** The constraint line splits into the "id:" word and the "goal operator" word. */
  lemma ConstraintLineTokens(i: int, goal: int, opr: char)
    requires 1 <= i && 1 <= goal && IsOperatorChar(opr)
    ensures Tokens(ConstraintLine(i, goal, opr)) == [Dec(i) + [':'], Dec(goal) + [opr]]
  {
    var w1 := Dec(i) + [':'];
    var w2 := Dec(goal) + [opr];
    DecWord(i);
    DecWord(goal);
    assert NoDelimiter(w1) by {
      assert forall k :: 0 <= k < |Dec(i)| ==> w1[k] == Dec(i)[k];
    }
    assert NoDelimiter(w2) by {
      assert forall k :: 0 <= k < |Dec(goal)| ==> w2[k] == Dec(goal)[k];
    }
    assert ConstraintLine(i, goal, opr) == w1 + [' '] + (w2 + ['\n'] + []);
    TokensOfWord(w1, ' ', w2 + ['\n'] + []);
    TokensOfWord(w2, '\n', []);
  }

  /** The "id:" word selects block id and changes nothing. */
  lemma IdWordReadBack(blocks: seq<Block>, i: int, blockNum: int)
    requires 1 <= i <= |blocks| && i <= INT_MAX
    ensures TreatConstraintWord(blocks, Dec(i) + [':'], blockNum) == Treated(Success, blocks, i)
  {
    var w1 := Dec(i) + [':'];
    assert w1[..|w1| - 1] == Dec(i) + [];
    ConvertDec(i, []);
  }

  /** The "goal operator" word stores goal and operator in the selected block. */
  lemma GoalWordReadBack(blocks: seq<Block>, i: int, goal: int, opr: char)
    requires 1 <= i <= |blocks| && 1 <= goal <= LONG_MAX && IsOperatorChar(opr)
    ensures TreatConstraintWord(blocks, Dec(goal) + [opr], i)
      == Treated(Success, blocks[i - 1 := blocks[i - 1].(goal := goal, opr := opr)], i)
  {
    var w2 := Dec(goal) + [opr];
    assert w2[..|w2| - 1] == Dec(goal) + [];
    ConvertDec(goal, []);
  }

  // ---- the generated file is what the parser expects

  /** Character k of a line is not its end. */
  predicate InLine(l: seq<char>, k: int)
    requires 0 <= k < |l|
  {
    l[k] != '\n'
  }

  /** A line as fgets reads it: one newline, at its end. */
  predicate IsLine(l: seq<char>)
  {
    |l| >= 1 && l[|l| - 1] == '\n' && forall k {:trigger InLine(l, k)} :: 0 <= k < |l| - 1 ==> InLine(l, k)
  }

  /** Character k of a line passes check_admitted_char and does not start a comment. */
  predicate DataChar(l: seq<char>, k: int)
    requires 0 <= k < |l|
  {
    CheckAdmittedChar(l[k]) == Success && l[k] != '#'
  }

  /** A line of data: only admitted characters and no '#', so no word of it holds a comment. */
  predicate DataLine(l: seq<char>)
  {
    forall k {:trigger DataChar(l, k)} :: 0 <= k < |l| ==> DataChar(l, k)
  }

  /** A line skip_useless_lines passes over. */
  predicate CommentLine(l: seq<char>)
  {
    IsLine(l) && SkippedLine(l)
  }

  /** A line skip_useless_lines stops at, holding data only. */
  predicate KeptDataLine(l: seq<char>)
  {
    IsLine(l) && !SkippedLine(l) && DataLine(l)
  }

  predicate AllComments(ls: seq<seq<char>>)
  {
    forall i :: 0 <= i < |ls| ==> CommentLine(ls[i])
  }

  predicate AllKeptData(ls: seq<seq<char>>)
  {
    forall i :: 0 <= i < |ls| ==> KeptDataLine(ls[i])
  }

  /** A printed row is one line of data that skip_useless_lines does not skip. */
  lemma RowTextShape(b: seq<int>, size: int, max: int, row: int)
    requires 0 <= row < size && |b| == size * size && AllFit(b, max)
    ensures KeptDataLine(RowText(b, size, max, row))
  {
    var vs := RowOf(b, size, row);
    RowOfFits(b, size, max, row);
    CellsEnd(vs, max, size);
    CellsChars(vs, max, size);
    var l := RowText(b, size, max, row);
    var cells := Cells(vs, max, size);
    assert forall k :: 0 <= k < |cells| ==> l[k] == cells[k];
  }

  /** A constraint line is one line of data that skip_useless_lines does not skip. */
  lemma ConstraintLineShape(i: int, goal: int, opr: char)
    requires i >= 1 && IsOperatorChar(opr)
    ensures KeptDataLine(ConstraintLine(i, goal, opr))
  {
    var l := ConstraintLine(i, goal, opr);
    var a := Dec(i);
    var g := Dec(goal);
    assert forall k :: 0 <= k < |a| ==> a[k] == '-' || IsDigit(a[k]);
    assert forall k :: 0 <= k < |g| ==> g[k] == '-' || IsDigit(g[k]);
    assert l == a + [':', ' '] + g + [opr, '\n'];
    forall k | 0 <= k < |l|
      ensures l[k] == '-' || IsDigit(l[k]) || l[k] == ':' || l[k] == ' ' || IsOperatorChar(l[k])
        || (k == |l| - 1 && l[k] == '\n')
    {
      if k < |a| {
        assert l[k] == a[k];
      } else if |a| + 2 <= k < |a| + 2 + |g| {
        assert l[k] == g[k - |a| - 2];
      }
    }
  }

  /** The header lines, the blank line and the constraints title are lines skip_useless_lines skips. */
  lemma TitleLinesShape()
    ensures AllComments(HEADER) && AllComments(MIDDLE)
  {
    assert CommentLine(TITLE_LINE) && CommentLine(ROOMS_LINE);
    assert CommentLine(BLANK_LINE) && CommentLine(CONSTRAINTS_LINE);
  }

  lemma KeptDataSnoc(ls: seq<seq<char>>, l: seq<char>)
    requires AllKeptData(ls) && KeptDataLine(l)
    ensures AllKeptData(ls + [l])
  {
    forall i | 0 <= i < |ls| + 1
      ensures KeptDataLine((ls + [l])[i])
    {
      if i < |ls| {
        assert (ls + [l])[i] == ls[i];
      }
    }
  }

  /** Every printed row is a kept data line. */
  lemma RowLinesKept(b: seq<int>, size: int, max: int, n: nat)
    requires n <= size && |b| == size * size && AllFit(b, max)
    ensures AllKeptData(RowLines(b, size, max, n))
  {
    var ls := RowLines(b, size, max, n);
    forall i | 0 <= i < n
      ensures KeptDataLine(ls[i])
    {
      RowLinesAt(b, size, max, n, i);
      RowTextShape(b, size, max, i);
    }
  }

  /** Line i of the printed rows is the text of row i. */
  lemma {:induction false} RowLinesAt(b: seq<int>, size: int, max: int, n: nat, i: int)
    requires 0 <= i < n <= size && |b| == size * size && AllFit(b, max)
    ensures RowLines(b, size, max, n)[i] == RowText(b, size, max, i)
    decreases n
  {
    var ls, l := RowLines(b, size, max, n - 1), RowText(b, size, max, n - 1);
    assert RowLines(b, size, max, n) == ls + [l];
    if i < n - 1 {
      RowLinesAt(b, size, max, n - 1, i);
    }
  }

  /** Every constraint line is a kept data line. */
  lemma {:induction false} ConstraintLinesKept(blocks: seq<Block>, n: nat)
    requires n <= |blocks| && forall b :: 0 <= b < |blocks| ==> IsOperatorChar(blocks[b].opr)
    ensures AllKeptData(ConstraintLines(blocks, n))
    decreases n
  {
    if n >= 1 {
      ConstraintLinesKept(blocks, n - 1);
      ConstraintLineShape(n, blocks[n - 1].goal, blocks[n - 1].opr);
      KeptDataSnoc(ConstraintLines(blocks, n - 1), ConstraintLine(n, blocks[n - 1].goal, blocks[n - 1].opr));
    }
  }

  /** Four groups of lines, comments then data then comments then data: line k is skipped exactly within a comment group. */
  lemma FourGroupsShape(a: seq<seq<char>>, b: seq<seq<char>>, c: seq<seq<char>>, d: seq<seq<char>>, k: int)
    requires AllComments(a) && AllKeptData(b) && AllComments(c) && AllKeptData(d)
    requires 0 <= k < |a| + |b| + |c| + |d|
    ensures var ls := a + b + c + d;
      IsLine(ls[k])
      && (SkippedLine(ls[k]) <==> k < |a| || |a| + |b| <= k < |a| + |b| + |c|)
      && (|a| <= k < |a| + |b| || |a| + |b| + |c| <= k ==> DataLine(ls[k]))
  {
    LineOfFour(a, b, c, d, k);
  }

  /** Indexing into four groups of lines, one after the other. */
  lemma LineOfFour(a: seq<seq<char>>, b: seq<seq<char>>, c: seq<seq<char>>, d: seq<seq<char>>, k: int)
    requires 0 <= k < |a| + |b| + |c| + |d|
    ensures var ls := a + b + c + d;
      ls[k] == if k < |a| then a[k]
               else if k < |a| + |b| then b[k - |a|]
               else if k < |a| + |b| + |c| then c[k - |a| - |b|]
               else d[k - |a| - |b| - |c|]
  {
  }

  /** Line k of the generated file, by the part of the file it belongs to. */
  lemma GeneratedLineShape(bb: seq<int>, size: int, blocks: seq<Block>, k: int)
    requires 0 <= size && |bb| == size * size && AllFit(bb, |blocks|)
    requires forall b :: 0 <= b < |blocks| ==> IsOperatorChar(blocks[b].opr)
    requires 0 <= k < size + |blocks| + 4
    ensures var ls := GeneratedLines(bb, size, blocks);
      |ls| == size + |blocks| + 4 && IsLine(ls[k])
      && (SkippedLine(ls[k]) <==> k < 2 || k == size + 2 || k == size + 3)
      && (2 <= k < size + 2 || size + 4 <= k ==> DataLine(ls[k]))
  {
    RowLinesKept(bb, size, |blocks|, size);
    ConstraintLinesKept(blocks, |blocks|);
    TitleLinesShape();
    FourGroupsShape(HEADER, RowLines(bb, size, |blocks|, size), MIDDLE, ConstraintLines(blocks, |blocks|), k);
  }

  /**
   * The generated file, line by line: size + nb_blocks + 4 lines; the two
   * header lines, the blank line and the constraints title are exactly the
   * lines skip_useless_lines skips; the rows and the constraint lines are
   * data lines.
   */
  lemma GeneratedLinesShape(bb: seq<int>, size: int, blocks: seq<Block>)
    requires 0 <= size && |bb| == size * size && AllFit(bb, |blocks|)
    requires forall b :: 0 <= b < |blocks| ==> IsOperatorChar(blocks[b].opr)
    ensures var ls := GeneratedLines(bb, size, blocks);
      |ls| == size + |blocks| + 4
      && (forall k :: 0 <= k < |ls| ==>
            IsLine(ls[k]) && (SkippedLine(ls[k]) <==> k < 2 || k == size + 2 || k == size + 3))
      && (forall k :: 0 <= k < |ls| && (2 <= k < size + 2 || size + 4 <= k) ==> DataLine(ls[k]))
  {
    forall k | 0 <= k < size + |blocks| + 4 {
      GeneratedLineShape(bb, size, blocks, k);
    }
  }
}
