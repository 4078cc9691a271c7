/**
 * The grid generator (src/generator.c). A cyclic Latin square is shuffled
 * by rows and columns, the grid is carved into blocks by walking right or
 * down from the first free cell, and every block gets an operator and the
 * goal its own values produce.
 *
 * rand() is replaced by a RandomSource: a fixed, non-empty sequence of
 * values in 0 .. RAND_MAX handed out in turn (cyclically).
 */
module Generator {
  import opened ErrCodes
  import opened GridModel
  import opened Solver
  import opened Bruteforce

  /** RAND_MAX of the GNU C library. */
  const RAND_MAX: int := 0x7fff_ffff

  const MINUS_DIVIDE_PROBA: int := 30
  const MULTIPLY_DEFAULT_PROBA: int := 60
  const MAX_BLOCK_SIZE: int := 5
  /** Number of shuffle_grid rounds fill_values runs. */
  const SEED: nat := 4

  /** enum operators. */
  datatype Operator = Plus | Minus | Multiply | Divide

  // ---- the random source

  /** The value the t-th call of rand() returns. */
  function Draw(values: seq<int>, t: nat): int
    requires |values| > 0
  {
    values[t % |values|]
  }

  /** The values of count calls of rand(), starting with call number start. */
  function Draws(values: seq<int>, start: nat, count: nat): (d: seq<int>)
    requires |values| > 0
    ensures |d| == count
  {
    seq(count, t requires 0 <= t < count => Draw(values, start + t))
  }

  predicate InRandRange(values: seq<int>)
  {
    forall k :: 0 <= k < |values| ==> 0 <= values[k] <= RAND_MAX
  }

  /** The hidden state of rand(): the values it hands out and how many it has handed out. */
  class RandomSource {
    const values: seq<int>
    var next: nat

    predicate Valid()
    {
      |values| > 0 && InRandRange(values)
    }

    constructor (vs: seq<int>)
      requires |vs| > 0 && InRandRange(vs)
      ensures Valid() && values == vs && next == 0
    {
      values := vs;
      next := 0;
    }

    /** rand(): the next value, in 0 .. RAND_MAX. */
    method Rand() returns (r: int)
      requires Valid()
      modifies this`next
      ensures next == old(next) + 1 && r == Draw(values, old(next))
      ensures 0 <= r <= RAND_MAX
    {
      r := Draw(values, next);
      next := next + 1;
    }
  }

  lemma DrawsInRange(values: seq<int>, start: nat, count: nat)
    requires |values| > 0 && InRandRange(values)
    ensures InRandRange(Draws(values, start, count))
  {
    var d := Draws(values, start, count);
    forall t | 0 <= t < count
      ensures 0 <= d[t] <= RAND_MAX
    {
      assert d[t] == values[(start + t) % |values|];
    }
  }

  // ---- shuffle

  /** The number of swaps shuffle makes on an array of n elements. */
  function Steps(n: int): nat
  {
    if n > 1 then n - 1 else 0
  }

  /**
   * The partner index of step i of shuffle for the drawn value r: it always
   * lies in i .. n-1, whatever r in 0 .. RAND_MAX is.
   */
  function Pick(i: int, n: int, r: int): (j: int)
    requires 0 <= i < n && 0 <= r <= RAND_MAX
    ensures i <= j < n
  {
    PickInRange(i, n, r);
    i + r / (RAND_MAX / (n - i) + 1)
  }

  lemma PickInRange(i: int, n: int, r: int)
    requires 0 <= i < n && 0 <= r <= RAND_MAX
    ensures 0 <= r / (RAND_MAX / (n - i) + 1) < n - i
  {
    var m := n - i;
    var d := RAND_MAX / m + 1;
    assert d * m > RAND_MAX by {
      assert RAND_MAX == (RAND_MAX / m) * m + RAND_MAX % m;
      assert d * m == (RAND_MAX / m) * m + m;
    }
    var q := r / d;
    assert r == q * d + r % d && 0 <= r % d;
    if q >= m {
      MulMono(m, q, d);
      assert false;
    }
  }

  function Swap(s: seq<int>, i: int, j: int): (r: seq<int>)
    requires 0 <= i < |s| && 0 <= j < |s|
    ensures |r| == |s| && r[i] == s[j] && r[j] == s[i]
    ensures forall k :: 0 <= k < |s| && k != i && k != j ==> r[k] == s[k]
  {
    s[i := s[j]][j := s[i]]
  }

  /** The array after the first k steps of shuffle, with the drawn values d. */
  function Shuffled(s: seq<int>, d: seq<int>, k: nat): (r: seq<int>)
    requires k <= Steps(|s|) && k <= |d| && InRandRange(d)
    ensures |r| == |s|
  {
    if k == 0 then s
    else Swap(Shuffled(s, d, k - 1), k - 1, Pick(k - 1, |s|, d[k - 1]))
  }

  /** shuffle run to the end, drawing from values from call number start on. */
  function ShuffleOf(s: seq<int>, values: seq<int>, start: nat): (r: seq<int>)
    requires |values| > 0 && InRandRange(values)
    ensures |r| == |s|
  {
    var d := Draws(values, start, Steps(|s|));
    DrawsInRange(values, start, Steps(|s|));
    Shuffled(s, d, Steps(|s|))
  }

  lemma SwapPermutes(s: seq<int>, i: int, j: int)
    requires 0 <= i < |s| && 0 <= j < |s|
    ensures multiset(Swap(s, i, j)) == multiset(s)
  {
    var t := s[i := s[j]];
    assert multiset(t) == multiset(s) - multiset{s[i]} + multiset{s[j]};
    assert t[j] == s[j] || i == j;
  }

  /** Whatever the drawn values, shuffle only rearranges the array. */
  lemma {:induction false} ShuffledPermutes(s: seq<int>, d: seq<int>, k: nat)
    requires k <= Steps(|s|) && k <= |d| && InRandRange(d)
    ensures multiset(Shuffled(s, d, k)) == multiset(s)
  {
    if k > 0 {
      var prev := Shuffled(s, d, k - 1);
      var j := Pick(k - 1, |s|, d[k - 1]);
      ShuffledPermutes(s, d, k - 1);
      SwapPermutes(prev, k - 1, j);
    }
  }

  /** s holds each of 0 .. n-1 exactly once. */
  predicate IsIndexPermutation(s: seq<int>, n: int)
  {
    |s| == n
    && (forall k :: 0 <= k < n ==> 0 <= s[k] < n)
    && (forall k, k' :: 0 <= k < k' < n ==> s[k] != s[k'])
  }

  lemma SwapKeepsPermutation(s: seq<int>, n: int, i: int, j: int)
    requires IsIndexPermutation(s, n) && 0 <= i < n && 0 <= j < n
    ensures IsIndexPermutation(Swap(s, i, j), n)
  {
    var r := Swap(s, i, j);
    forall k, k' | 0 <= k < k' < n
      ensures r[k] != r[k']
    {
      var a := if k == j then i else if k == i then j else k;
      var a' := if k' == j then i else if k' == i then j else k';
      assert r[k] == s[a] && r[k'] == s[a'] && a != a';
    }
  }

  /** shuffle keeps a permutation of 0 .. n-1 a permutation of 0 .. n-1. */
  lemma {:induction false} ShuffledKeepsPermutation(s: seq<int>, d: seq<int>, k: nat)
    requires k <= Steps(|s|) && k <= |d| && InRandRange(d)
    requires IsIndexPermutation(s, |s|)
    ensures IsIndexPermutation(Shuffled(s, d, k), |s|)
  {
    if k > 0 {
      ShuffledKeepsPermutation(s, d, k - 1);
      SwapKeepsPermutation(Shuffled(s, d, k - 1), |s|, k - 1, Pick(k - 1, |s|, d[k - 1]));
    }
  }

  lemma ShuffleOfKeepsPermutation(s: seq<int>, values: seq<int>, start: nat)
    requires |values| > 0 && InRandRange(values) && IsIndexPermutation(s, |s|)
    ensures IsIndexPermutation(ShuffleOf(s, values, start), |s|)
    ensures multiset(ShuffleOf(s, values, start)) == multiset(s)
  {
    var d := Draws(values, start, Steps(|s|));
    DrawsInRange(values, start, Steps(|s|));
    ShuffledKeepsPermutation(s, d, Steps(|s|));
    ShuffledPermutes(s, d, Steps(|s|));
  }

  /**
   * shuffle: for i = 0 .. n-2, swap element i with an element at or after
   * it that the next rand() value picks.
   */
  method Shuffle(a: array<int>, rng: RandomSource)
    requires rng.Valid()
    modifies a, rng`next
    ensures rng.next == old(rng.next) + Steps(a.Length)
    ensures a[..] == ShuffleOf(old(a[..]), rng.values, old(rng.next))
  {
    ghost var a0 := a[..];
    ghost var d := Draws(rng.values, rng.next, Steps(a.Length));
    DrawsInRange(rng.values, rng.next, Steps(a.Length));
    ghost var next0 := rng.next;
    var n := a.Length;
    if n > 1 {
      var i := 0;
      while i < n - 1
        invariant 0 <= i <= n - 1 && rng.next == next0 + i
        invariant InRandRange(d[..i])
        invariant a[..] == Shuffled(a0, d[..i], i)
      {
        ghost var before := a[..];
        var r := rng.Rand();
        var j := i + r / (RAND_MAX / (n - i) + 1);
        ShuffleStep(a0, d, i);
        assert d[i] == r && j == Pick(i, n, r);
        var t := a[j];
        a[j] := a[i];
        a[i] := t;
        assert a[..] == Swap(before, i, j);
        i := i + 1;
      }
      ShuffledPrefix(a0, d, i);
      assert d[..i] == d;
    }
  }

  /** One more step of shuffle, on the drawn values so far. */
  lemma ShuffleStep(s: seq<int>, d: seq<int>, i: nat)
    requires i < Steps(|s|) && i < |d| && InRandRange(d)
    ensures InRandRange(d[..i]) && InRandRange(d[..i + 1])
    ensures Shuffled(s, d[..i + 1], i + 1) == Swap(Shuffled(s, d[..i], i), i, Pick(i, |s|, d[i]))
  {
    ShuffledPrefix(s, d[..i + 1], i);
    assert d[..i + 1][..i] == d[..i];
    assert d[..i + 1][i] == d[i];
  }

  /** Shuffled only looks at the first k drawn values. */
  lemma ShuffledPrefix(s: seq<int>, d: seq<int>, k: nat)
    requires k <= Steps(|s|) && k <= |d| && InRandRange(d)
    ensures InRandRange(d[..k]) && Shuffled(s, d, k) == Shuffled(s, d[..k], k)
  {
    assert InRandRange(d[..k]) by {
      forall t | 0 <= t < k
        ensures 0 <= d[..k][t] <= RAND_MAX
      {
        assert d[..k][t] == d[t];
      }
    }
    ShuffledRange(s, d, d[..k], k);
  }

  lemma {:induction false} ShuffledRange(s: seq<int>, d: seq<int>, e: seq<int>, k: nat)
    requires k <= Steps(|s|) && k <= |d| && k <= |e| && InRandRange(d) && InRandRange(e)
    requires forall t :: 0 <= t < k ==> d[t] == e[t]
    ensures Shuffled(s, d, k) == Shuffled(s, e, k)
  {
    if k > 0 {
      ShuffledRange(s, d, e, k - 1);
    }
  }

  // ---- boards as rows and columns

  /** Two boards that agree cell by cell are equal. */
  lemma SameByCells(x: seq<int>, y: seq<int>, size: int)
    requires 0 <= size && |x| == size * size && |y| == size * size
    requires forall row, col {:trigger x[Index(row, col, size)]} :: 0 <= row < size && 0 <= col < size ==> x[Index(row, col, size)] == y[Index(row, col, size)]
    ensures x == y
  {
    forall k | 0 <= k < |x|
      ensures x[k] == y[k]
    {
      IndexOfPosition(k, size);
    }
  }

  /** Every entry of s is a row or column number of a grid of side n. */
  predicate InIndexRange(s: seq<int>, n: int)
  {
    forall k :: 0 <= k < |s| ==> 0 <= s[k] < n
  }

  lemma MultisetKeepsRange(s: seq<int>, s': seq<int>, n: int)
    requires InIndexRange(s, n) && multiset(s') == multiset(s)
    ensures InIndexRange(s', n)
  {
    forall k | 0 <= k < |s'|
      ensures 0 <= s'[k] < n
    {
      assert s'[k] in multiset(s');
      assert s'[k] in s;
    }
  }

  /** Row row of the result is row p[row] of b. */
  function RowsPermuted(b: seq<int>, p: seq<int>, size: int): (r: seq<int>)
    requires 0 <= size && |b| == size * size && |p| == size && InIndexRange(p, size)
    ensures |r| == |b|
    ensures forall row, col {:trigger r[Index(row, col, size)]} :: 0 <= row < size && 0 <= col < size ==>
      r[Index(row, col, size)] == b[Index(p[row], col, size)]
  {
    seq(size * size, k requires 0 <= k < size * size =>
      var l := LocationOf(k, size); b[Index(p[l.x], l.y, size)])
  }

  /** Column col of the result is column p[col] of b. */
  function ColumnsPermuted(b: seq<int>, p: seq<int>, size: int): (r: seq<int>)
    requires 0 <= size && |b| == size * size && |p| == size && InIndexRange(p, size)
    ensures |r| == |b|
    ensures forall row, col {:trigger r[Index(row, col, size)]} :: 0 <= row < size && 0 <= col < size ==>
      r[Index(row, col, size)] == b[Index(row, p[col], size)]
  {
    seq(size * size, k requires 0 <= k < size * size =>
      var l := LocationOf(k, size); b[Index(l.x, p[l.y], size)])
  }

  /** 0, 1, .. n-1: the indices array as fill_values sets it up. */
  function Iota(n: nat): (s: seq<int>)
    ensures |s| == n && forall k :: 0 <= k < n ==> s[k] == k
  {
    seq(n, k => k)
  }

  lemma IotaPermutation(n: nat)
    ensures IsIndexPermutation(Iota(n), n)
  {
  }

  /** b with rows r1 and r2 exchanged. */
  function SwapRows(b: seq<int>, size: int, r1: int, r2: int): (r: seq<int>)
    requires 0 <= size && |b| == size * size && 0 <= r1 < size && 0 <= r2 < size
    ensures |r| == |b|
  {
    RowsPermuted(b, Swap(Iota(size), r1, r2), size)
  }

  /** The row phase of shuffle_grid: for i = 0 .. n-1, rows i and ind[i] are exchanged. */
  function RowSwaps(b: seq<int>, ind: seq<int>, size: int, n: nat): (r: seq<int>)
    requires 0 <= size && |b| == size * size && |ind| == size && InIndexRange(ind, size) && n <= size
    ensures |r| == |b|
  {
    if n == 0 then b else SwapRows(RowSwaps(b, ind, size, n - 1), size, n - 1, ind[n - 1])
  }

  // ---- Latin squares

  /** Every cell holds a value 1 .. size found nowhere else in its row or its column. */
  predicate IsLatin(b: seq<int>, size: int)
    requires 0 <= size && |b| == size * size
  {
    forall row, col :: 0 <= row < size && 0 <= col < size ==> Placed(b, size, row, col)
  }

  /** Permuting the rows of a Latin square gives a Latin square. */
  lemma RowsPermutedLatin(b: seq<int>, p: seq<int>, size: int)
    requires 0 <= size && |b| == size * size && IsIndexPermutation(p, size) && IsLatin(b, size)
    ensures IsLatin(RowsPermuted(b, p, size), size)
  {
    var r := RowsPermuted(b, p, size);
    forall row, col | 0 <= row < size && 0 <= col < size
      ensures Placed(r, size, row, col)
    {
      assert Placed(b, size, p[row], col);
      forall c | 0 <= c < size && c != col
        ensures r[Index(row, c, size)] != r[Index(row, col, size)]
      {
      }
      forall row' | 0 <= row' < size && row' != row
        ensures r[Index(row', col, size)] != r[Index(row, col, size)]
      {
        assert p[row'] != p[row];
      }
    }
  }

  /** Permuting the columns of a Latin square gives a Latin square. */
  lemma ColumnsPermutedLatin(b: seq<int>, p: seq<int>, size: int)
    requires 0 <= size && |b| == size * size && IsIndexPermutation(p, size) && IsLatin(b, size)
    ensures IsLatin(ColumnsPermuted(b, p, size), size)
  {
    var r := ColumnsPermuted(b, p, size);
    forall row, col | 0 <= row < size && 0 <= col < size
      ensures Placed(r, size, row, col)
    {
      assert Placed(b, size, row, p[col]);
      forall c | 0 <= c < size && c != col
        ensures r[Index(row, c, size)] != r[Index(row, col, size)]
      {
        assert p[c] != p[col];
      }
      forall row' | 0 <= row' < size && row' != row
        ensures r[Index(row', col, size)] != r[Index(row, col, size)]
      {
      }
    }
  }

  lemma SwapRowsLatin(b: seq<int>, size: int, r1: int, r2: int)
    requires 0 <= size && |b| == size * size && 0 <= r1 < size && 0 <= r2 < size && IsLatin(b, size)
    ensures IsLatin(SwapRows(b, size, r1, r2), size)
  {
    IotaPermutation(size);
    SwapKeepsPermutation(Iota(size), size, r1, r2);
    RowsPermutedLatin(b, Swap(Iota(size), r1, r2), size);
  }

  /** The row phase of shuffle_grid keeps a Latin square Latin, whatever the indices. */
  lemma {:induction false} RowSwapsLatin(b: seq<int>, ind: seq<int>, size: int, n: nat)
    requires 0 <= size && |b| == size * size && |ind| == size && InIndexRange(ind, size) && n <= size
    requires IsLatin(b, size)
    ensures IsLatin(RowSwaps(b, ind, size, n), size)
  {
    if n > 0 {
      var prev := RowSwaps(b, ind, size, n - 1);
      assert RowSwaps(b, ind, size, n) == SwapRows(prev, size, n - 1, ind[n - 1]);
      RowSwapsLatin(b, ind, size, n - 1);
      SwapRowsLatin(prev, size, n - 1, ind[n - 1]);
    }
  }

  /** The board fill_values writes before shuffling: ((row + col) mod size) + 1. */
  function Cyclic(size: nat): (b: seq<int>)
    ensures |b| == size * size
    ensures forall row, col {:trigger b[Index(row, col, size)]} :: 0 <= row < size && 0 <= col < size ==>
      b[Index(row, col, size)] == (row + col) % size + 1
  {
    seq(size * size, k requires 0 <= k < size * size =>
      var l := LocationOf(k, size); (l.x + l.y) % size + 1)
  }

  /** Two cells of one row, or of one column, of the cyclic square differ. */
  lemma CyclicDistinct(a: int, c: int, c': int, size: int)
    requires 0 <= a < size && 0 <= c < size && 0 <= c' < size && c != c'
    ensures (a + c) % size != (a + c') % size
  {
    var q := (a + c) / size;
    var q' := (a + c') / size;
    if (a + c) % size == (a + c') % size {
      assert c - c' == (q - q') * size;
      MulBetween(q - q', size);
      assert false;
    }
  }

  lemma CyclicLatin(size: nat)
    ensures IsLatin(Cyclic(size), size)
  {
    var b := Cyclic(size);
    forall row, col | 0 <= row < size && 0 <= col < size
      ensures Placed(b, size, row, col)
    {
      forall c | 0 <= c < size && c != col
        ensures b[Index(row, c, size)] != b[Index(row, col, size)]
      {
        CyclicDistinct(row, c, col, size);
      }
      forall row' | 0 <= row' < size && row' != row
        ensures b[Index(row', col, size)] != b[Index(row, col, size)]
      {
        CyclicDistinct(col, row', row, size);
      }
    }
  }

  // ---- shuffle_grid

  /** Shuffling keeps every index inside the grid. */
  lemma ShuffleOfRange(s: seq<int>, values: seq<int>, start: nat, n: int)
    requires |values| > 0 && InRandRange(values) && InIndexRange(s, n)
    ensures InIndexRange(ShuffleOf(s, values, start), n)
  {
    DrawsInRange(values, start, Steps(|s|));
    ShuffledPermutes(s, Draws(values, start, Steps(|s|)), Steps(|s|));
    MultisetKeepsRange(s, ShuffleOf(s, values, start), n);
  }

  /** The board and the indices array, the state shuffle_grid works on. */
  datatype Layout = Layout(board: seq<int>, indices: seq<int>)

  predicate LayoutOk(l: Layout, size: int)
  {
    0 <= size && |l.board| == size * size && |l.indices| == size && InIndexRange(l.indices, size)
  }

  /**
   * One call of shuffle_grid: shuffle the indices and exchange row i with
   * row indices[i] in turn, then shuffle them again and take column
   * indices[i] of the result as column i.
   */
  function ShuffleGridResult(l: Layout, size: int, values: seq<int>, start: nat): (r: Layout)
    requires LayoutOk(l, size) && |values| > 0 && InRandRange(values)
    ensures LayoutOk(r, size)
  {
    var ind1 := ShuffledIndices(l.indices, values, start, size);
    var ind2 := ShuffledIndices(ind1, values, start + Steps(size), size);
    Layout(ColumnsPermuted(RowSwaps(l.board, ind1, size, size), ind2, size), ind2)
  }

  /** The indices shuffled with the draws from start on, still inside the grid. */
  function ShuffledIndices(s: seq<int>, values: seq<int>, start: nat, n: int): (r: seq<int>)
    requires |values| > 0 && InRandRange(values) && InIndexRange(s, n)
    ensures r == ShuffleOf(s, values, start) && InIndexRange(r, n)
  {
    ShuffleOfRange(s, values, start, n);
    ShuffleOf(s, values, start)
  }

  /** The position of the random stream at which round k of fill_values starts. */
  function RoundStart(start: nat, size: int, k: nat): (t: nat)
    ensures t >= start
  {
    if k == 0 then start else RoundStart(start, size, k - 1) + 2 * Steps(size)
  }

  /** The calls shuffle_grid(grid, array) that fill_values makes, n of them. */
  function Rounds(l: Layout, size: int, values: seq<int>, start: nat, n: nat): (r: Layout)
    requires LayoutOk(l, size) && |values| > 0 && InRandRange(values)
    ensures LayoutOk(r, size)
  {
    if n == 0 then l
    else ShuffleGridResult(Rounds(l, size, values, start, n - 1), size, values, RoundStart(start, size, n - 1))
  }

  /** A Latin board, and indices that are a permutation of its rows. */
  predicate LatinLayout(l: Layout, size: int)
  {
    LayoutOk(l, size) && IsLatin(l.board, size) && IsIndexPermutation(l.indices, size)
  }

  /** The two shuffles of a round give permutations again. */
  lemma RoundIndicesPermute(ind: seq<int>, size: int, values: seq<int>, start: nat)
    requires IsIndexPermutation(ind, size) && |values| > 0 && InRandRange(values)
    ensures IsIndexPermutation(ShuffleOf(ind, values, start), size)
    ensures IsIndexPermutation(ShuffleOf(ShuffleOf(ind, values, start), values, start + Steps(size)), size)
  {
    var ind1 := ShuffleOf(ind, values, start);
    ShuffleOfKeepsPermutation(ind, values, start);
    ShuffleOfKeepsPermutation(ind1, values, start + Steps(size));
  }

  /** The board moves of a round keep a Latin board Latin. */
  lemma RoundBoardLatin(b: seq<int>, ind1: seq<int>, ind2: seq<int>, size: int)
    requires 0 <= size && |b| == size * size && IsLatin(b, size)
    requires IsIndexPermutation(ind1, size) && IsIndexPermutation(ind2, size)
    ensures IsLatin(ColumnsPermuted(RowSwaps(b, ind1, size, size), ind2, size), size)
  {
    RowSwapsLatin(b, ind1, size, size);
    ColumnsPermutedLatin(RowSwaps(b, ind1, size, size), ind2, size);
  }

  /** A round keeps a Latin board Latin and a permutation a permutation. */
  lemma ShuffleGridLatin(l: Layout, size: int, values: seq<int>, start: nat)
    requires LatinLayout(l, size) && |values| > 0 && InRandRange(values)
    ensures LatinLayout(ShuffleGridResult(l, size, values, start), size)
  {
    RoundIndicesPermute(l.indices, size, values, start);
    var ind1 := ShuffleOf(l.indices, values, start);
    RoundBoardLatin(l.board, ind1, ShuffleOf(ind1, values, start + Steps(size)), size);
  }

  lemma RoundsStep(l: Layout, size: int, values: seq<int>, start: nat, n: nat)
    requires LayoutOk(l, size) && |values| > 0 && InRandRange(values) && n > 0
    requires LatinLayout(Rounds(l, size, values, start, n - 1), size)
    ensures LatinLayout(Rounds(l, size, values, start, n), size)
  {
    ShuffleGridLatin(Rounds(l, size, values, start, n - 1), size, values, RoundStart(start, size, n - 1));
  }

  /** However many rounds fill_values makes, the board stays Latin. */
  lemma {:induction false} RoundsLatin(l: Layout, size: int, values: seq<int>, start: nat, n: nat)
    requires LatinLayout(l, size) && |values| > 0 && InRandRange(values)
    ensures LatinLayout(Rounds(l, size, values, start, n), size)
  {
    if n > 0 {
      var m := n - 1;
      RoundsLatin(l, size, values, start, m);
      RoundsStep(l, size, values, start, n);
    }
  }

  /** Row i of a board of side size lies at i * size .. i * size + size - 1. */
  predicate RowInBoardFacts(i: int, size: int)
  {
    0 <= i * size && i * size + size <= size * size
  }

  lemma RowInBoard(i: int, size: int)
    requires 0 <= i < size
    ensures RowInBoardFacts(i, size)
  {
    MulMono(0, i, size);
    MulMono(i + 1, size, size);
  }

  /** d with n cells of s, from position from on, written at position to on. */
  function CopyInto(d: seq<int>, to: int, s: seq<int>, from: int, n: int): (r: seq<int>)
    requires 0 <= n && 0 <= from && from + n <= |s| && 0 <= to && to + n <= |d|
    ensures |r| == |d|
    ensures forall k :: 0 <= k < |d| ==> r[k] == if to <= k < to + n then s[k - to + from] else d[k]
  {
    seq(|d|, k requires 0 <= k < |d| => if to <= k < to + n then s[k - to + from] else d[k])
  }

  /**
   * copy_line: copy n consecutive cells of src, from position from on, to
   * dest from position to on. The stretches are equal or do not overlap.
   */
  method CopyLine(src: array<int>, from: int, dest: array<int>, to: int, n: int)
    requires 0 <= n && 0 <= from && from + n <= src.Length && 0 <= to && to + n <= dest.Length
    requires src == dest ==> from == to || Apart(from, to, n)
    modifies dest
    ensures dest[..] == CopyInto(old(dest[..]), to, old(src[..]), from, n)
  {
    var i := 0;
    while i < n
      invariant 0 <= i <= n
      invariant forall k :: to <= k < to + i ==> dest[k] == old(src[k - to + from])
      invariant forall k :: from + i <= k < from + n ==> src[k] == old(src[k])
      invariant forall k :: 0 <= k < dest.Length && !(to <= k < to + i) ==> dest[k] == old(dest[k])
    {
      dest[to + i] := src[from + i];
      i := i + 1;
    }
  }

  /** The stretches of n cells at from and at to do not overlap. */
  predicate Apart(from: int, to: int, n: int)
  {
    from + n <= to || to + n <= from
  }

  /** The stretches of two different rows do not overlap. */
  lemma RowsApart(i: int, p: int, size: int)
    requires 0 <= i < size && 0 <= p < size && i != p
    ensures Apart(i * size, p * size, size)
  {
    if i < p {
      MulMono(i + 1, p, size);
    } else {
      MulMono(p + 1, i, size);
    }
  }

  /** The board after the three copies, and the temporary row after the first. */
  function AfterCopies(b: seq<int>, tmp: seq<int>, size: int, i: int, p: int): (r: seq<int>)
    requires 0 <= i < size && 0 <= p < size && |b| == size * size && |tmp| == size
    ensures |r| == |b|
  {
    RowInBoard(i, size);
    RowInBoard(p, size);
    ThreeCopies(b, tmp, i * size, p * size, size)
  }

  /**
   * The three copies on plain offsets: the stretch at from goes to the
   * temporary row, the stretch at to is copied over it, and the temporary
   * row goes to the stretch at to.
   */
  function ThreeCopies(b: seq<int>, tmp: seq<int>, from: int, to: int, n: int): (r: seq<int>)
    requires 0 <= n && |tmp| == n && 0 <= from && from + n <= |b| && 0 <= to && to + n <= |b|
    ensures |r| == |b|
  {
    CopyInto(CopyInto(b, from, b, to, n), to, CopyInto(tmp, 0, b, from, n), 0, n)
  }

  lemma ThreeCopiesTo(b: seq<int>, tmp: seq<int>, from: int, to: int, n: int, c: int)
    requires 0 <= n && |tmp| == n && 0 <= from && from + n <= |b| && 0 <= to && to + n <= |b|
    requires 0 <= c < n
    ensures ThreeCopies(b, tmp, from, to, n)[to + c] == b[from + c]
  {
    assert CopyInto(tmp, 0, b, from, n)[c] == b[from + c];
  }

  lemma ThreeCopiesFrom(b: seq<int>, tmp: seq<int>, from: int, to: int, n: int, c: int)
    requires 0 <= n && |tmp| == n && 0 <= from && from + n <= |b| && 0 <= to && to + n <= |b|
    requires 0 <= c < n && Apart(from, to, n)
    ensures ThreeCopies(b, tmp, from, to, n)[from + c] == b[to + c]
  {
    assert CopyInto(b, from, b, to, n)[from + c] == b[to + c];
  }

  lemma ThreeCopiesElse(b: seq<int>, tmp: seq<int>, from: int, to: int, n: int, k: int)
    requires 0 <= n && |tmp| == n && 0 <= from && from + n <= |b| && 0 <= to && to + n <= |b|
    requires 0 <= k < |b| && !(from <= k < from + n) && !(to <= k < to + n)
    ensures ThreeCopies(b, tmp, from, to, n)[k] == b[k]
  {
    assert CopyInto(b, from, b, to, n)[k] == b[k];
  }

  /** Row p ends up holding what the temporary row took from row i. */
  lemma AfterCopiesRowP(b: seq<int>, tmp: seq<int>, size: int, i: int, p: int, col: int)
    requires 0 <= i < size && 0 <= p < size && |b| == size * size && |tmp| == size && 0 <= col < size
    ensures AfterCopies(b, tmp, size, i, p)[Index(p, col, size)] == b[Index(i, col, size)]
  {
    RowInBoard(i, size);
    RowInBoard(p, size);
    ThreeCopiesTo(b, tmp, i * size, p * size, size, col);
    assert AfterCopies(b, tmp, size, i, p) == ThreeCopies(b, tmp, i * size, p * size, size);
    assert Index(i, col, size) == i * size + col && Index(p, col, size) == p * size + col;
  }

  /** Row i, when it is not row p, ends up holding row p. */
  lemma AfterCopiesRowI(b: seq<int>, tmp: seq<int>, size: int, i: int, p: int, col: int)
    requires 0 <= i < size && 0 <= p < size && |b| == size * size && |tmp| == size && 0 <= col < size
    requires i != p
    ensures AfterCopies(b, tmp, size, i, p)[Index(i, col, size)] == b[Index(p, col, size)]
  {
    RowInBoard(i, size);
    RowInBoard(p, size);
    AfterCopiesFromRow(b, tmp, size, i, p, col);
    assert Index(i, col, size) == i * size + col && Index(p, col, size) == p * size + col;
  }

  lemma AfterCopiesFromRow(b: seq<int>, tmp: seq<int>, size: int, i: int, p: int, col: int)
    requires 0 <= i < size && 0 <= p < size && |b| == size * size && |tmp| == size && 0 <= col < size
    requires i != p && RowInBoardFacts(i, size) && RowInBoardFacts(p, size)
    ensures AfterCopies(b, tmp, size, i, p)[i * size + col] == b[p * size + col]
  {
    RowsApart(i, p, size);
    ThreeCopiesFrom(b, tmp, i * size, p * size, size, col);
    assert AfterCopies(b, tmp, size, i, p) == ThreeCopies(b, tmp, i * size, p * size, size);
  }

  /** Every other row is left alone. */
  lemma AfterCopiesOther(b: seq<int>, tmp: seq<int>, size: int, i: int, p: int, row: int, col: int)
    requires 0 <= i < size && 0 <= p < size && |b| == size * size && |tmp| == size
    requires 0 <= row < size && 0 <= col < size && row != i && row != p
    ensures AfterCopies(b, tmp, size, i, p)[Index(row, col, size)] == b[Index(row, col, size)]
  {
    RowInBoard(i, size);
    RowInBoard(p, size);
    RowInBoard(row, size);
    RowsApart(row, i, size);
    RowsApart(row, p, size);
    ThreeCopiesElse(b, tmp, i * size, p * size, size, row * size + col);
    assert AfterCopies(b, tmp, size, i, p) == ThreeCopies(b, tmp, i * size, p * size, size);
  }

  /** Cell by cell, the three copies move row sw[row] of b to row row. */
  lemma AfterCopiesCell(b: seq<int>, tmp: seq<int>, size: int, i: int, p: int, row: int, col: int)
    requires 0 <= i < size && 0 <= p < size && |b| == size * size && |tmp| == size
    requires 0 <= row < size && 0 <= col < size
    ensures 0 <= Swap(Iota(size), i, p)[row] < size
    ensures AfterCopies(b, tmp, size, i, p)[Index(row, col, size)] == b[Index(Swap(Iota(size), i, p)[row], col, size)]
  {
    var sw := Swap(Iota(size), i, p);
    if row == p {
      AfterCopiesRowP(b, tmp, size, i, p, col);
      assert sw[row] == i;
    } else if row == i {
      AfterCopiesRowI(b, tmp, size, i, p, col);
      assert sw[row] == p;
    } else {
      AfterCopiesOther(b, tmp, size, i, p, row, col);
      assert sw[row] == row;
    }
  }

  /** The three copies through the temporary row exchange rows i and p. */
  lemma CopiesSwapRows(b: seq<int>, tmp: seq<int>, size: int, i: int, p: int)
    requires 0 <= i < size && 0 <= p < size && |b| == size * size && |tmp| == size
    ensures AfterCopies(b, tmp, size, i, p) == SwapRows(b, size, i, p)
  {
    forall row, col | 0 <= row < size && 0 <= col < size
      ensures AfterCopies(b, tmp, size, i, p)[Index(row, col, size)] == SwapRows(b, size, i, p)[Index(row, col, size)]
    {
      AfterCopiesCell(b, tmp, size, i, p, row, col);
    }
    SameByCells(AfterCopies(b, tmp, size, i, p), SwapRows(b, size, i, p), size);
  }

  /** The three copy_line calls that exchange rows i and p of the board. */
  method SwapRowsInPlace(g: Grid, tmpRow: array<int>, i: int, p: int)
    requires g.Valid() && tmpRow.Length == g.size && tmpRow != g.board
    requires 0 <= i < g.size && 0 <= p < g.size
    modifies g.board, tmpRow
    ensures g.board[..] == SwapRows(old(g.board[..]), g.size, i, p)
  {
    var size := g.size;
    CopiesSwapRows(g.board[..], tmpRow[..], size, i, p);
    RowInBoard(i, size);
    RowInBoard(p, size);
    if p != i {
      RowsApart(i, p, size);
    }
    CopyLine(g.board, i * size, tmpRow, 0, size);
    CopyLine(g.board, p * size, g.board, i * size, size);
    CopyLine(tmpRow, 0, g.board, p * size, size);
  }

  /** The row phase of shuffle_grid: rows i and indices[i] are exchanged for i = 0 .. size-1. */
  method SwapAllRows(g: Grid, indices: array<int>, tmpRow: array<int>)
    requires g.Valid() && indices.Length == g.size && tmpRow.Length == g.size
    requires indices != g.board && tmpRow != g.board && tmpRow != indices
    requires InIndexRange(indices[..], g.size)
    modifies g.board, tmpRow
    ensures indices[..] == old(indices[..])
    ensures g.board[..] == RowSwaps(old(g.board[..]), indices[..], g.size, g.size)
  {
    ghost var b0 := g.board[..];
    var i := 0;
    while i < g.size
      invariant 0 <= i <= g.size
      invariant g.board[..] == RowSwaps(b0, indices[..], g.size, i)
    {
      SwapRowsInPlace(g, tmpRow, i, indices[i]);
      i := i + 1;
    }
  }

  /** The column phase of shuffle_grid: column i becomes column indices[i] of the copy. */
  method PermuteColumns(g: Grid, tmpGrid: array<int>, indices: array<int>)
    requires g.Valid() && tmpGrid.Length == g.size * g.size && indices.Length == g.size
    requires tmpGrid != g.board && indices != g.board
    requires InIndexRange(indices[..], g.size)
    modifies g.board
    ensures indices[..] == old(indices[..]) && tmpGrid[..] == old(tmpGrid[..])
    ensures g.board[..] == ColumnsPermuted(tmpGrid[..], indices[..], g.size)
  {
    var size := g.size;
    var i := 0;
    while i < size
      invariant 0 <= i <= size
      invariant forall row, col {:trigger g.board[Index(row, col, size)]} :: 0 <= row < size && 0 <= col < i ==>
        g.board[Index(row, col, size)] == tmpGrid[Index(row, indices[col], size)]
    {
      var j := 0;
      while j < size
        invariant 0 <= j <= size
        invariant forall row, col {:trigger g.board[Index(row, col, size)]} :: 0 <= row < size && 0 <= col < i ==>
          g.board[Index(row, col, size)] == tmpGrid[Index(row, indices[col], size)]
        invariant forall row {:trigger g.board[Index(row, i, size)]} :: 0 <= row < j ==>
          g.board[Index(row, i, size)] == tmpGrid[Index(row, indices[i], size)]
      {
        g.board[Index(j, i, size)] := tmpGrid[Index(j, indices[i], size)];
        j := j + 1;
      }
      i := i + 1;
    }
    SameByCells(g.board[..], ColumnsPermuted(tmpGrid[..], indices[..], size), size);
  }

  /**
   * shuffle_grid: shuffle the indices, exchange the rows as they say, copy
   * the board, shuffle the indices again and permute the columns of the copy.
   */
  method ShuffleGrid(g: Grid, indices: array<int>, rng: RandomSource)
    requires g.Valid() && rng.Valid() && indices.Length == g.size && indices != g.board
    requires InIndexRange(indices[..], g.size)
    modifies g.board, indices, rng`next
    ensures rng.next == old(rng.next) + 2 * Steps(g.size)
    ensures Layout(g.board[..], indices[..])
      == ShuffleGridResult(Layout(old(g.board[..]), old(indices[..])), g.size, rng.values, old(rng.next))
  {
    var size := g.size;
    var tmpRow := new int[size];
    var tmpGrid := new int[size * size];
    ghost var start := rng.next;
    ghost var l := Layout(g.board[..], indices[..]);
    RowPhase(g, indices, tmpRow, rng);
    ghost var ind1 := indices[..];
    ghost var rows := g.board[..];
    ColumnPhase(g, indices, tmpGrid, rng);
    ShuffleGridResultIs(l, size, rng.values, start, ind1, rows, indices[..], g.board[..]);
  }

  /** The first half of shuffle_grid: shuffle the indices, then exchange row i with row indices[i] in turn. */
  method RowPhase(g: Grid, indices: array<int>, tmpRow: array<int>, rng: RandomSource)
    requires g.Valid() && rng.Valid() && indices.Length == g.size && tmpRow.Length == g.size
    requires indices != g.board && tmpRow != g.board && tmpRow != indices
    requires InIndexRange(indices[..], g.size)
    modifies g.board, indices, tmpRow, rng`next
    ensures rng.next == old(rng.next) + Steps(g.size)
    ensures indices[..] == ShuffledIndices(old(indices[..]), rng.values, old(rng.next), g.size)
    ensures g.board[..] == RowSwaps(old(g.board[..]), indices[..], g.size, g.size)
  {
    ghost var ind0 := indices[..];
    Shuffle(indices, rng);
    ShuffleOfRange(ind0, rng.values, old(rng.next), g.size);
    SwapAllRows(g, indices, tmpRow);
  }

  /** The second half of shuffle_grid: copy the board, shuffle the indices, take column indices[i] as column i. */
  method ColumnPhase(g: Grid, indices: array<int>, tmpGrid: array<int>, rng: RandomSource)
    requires g.Valid() && rng.Valid() && indices.Length == g.size && tmpGrid.Length == g.size * g.size
    requires indices != g.board && tmpGrid != g.board && tmpGrid != indices
    requires InIndexRange(indices[..], g.size)
    modifies g.board, indices, tmpGrid, rng`next
    ensures rng.next == old(rng.next) + Steps(g.size)
    ensures indices[..] == ShuffledIndices(old(indices[..]), rng.values, old(rng.next), g.size)
    ensures g.board[..] == ColumnsPermuted(old(g.board[..]), indices[..], g.size)
  {
    ghost var ind0 := indices[..];
    CopyBoard(g, tmpGrid);
    Shuffle(indices, rng);
    ShuffleOfRange(ind0, rng.values, old(rng.next), g.size);
    PermuteColumns(g, tmpGrid, indices);
  }

  /** The copy of the board into tmp_grid in shuffle_grid. */
  method CopyBoard(g: Grid, tmpGrid: array<int>)
    requires g.Valid() && tmpGrid.Length == g.size * g.size && tmpGrid != g.board
    modifies tmpGrid
    ensures g.board[..] == old(g.board[..])
    ensures tmpGrid[..] == g.board[..]
  {
    var k := 0;
    while k < tmpGrid.Length
      invariant 0 <= k <= tmpGrid.Length
      invariant forall t :: 0 <= t < k ==> tmpGrid[t] == g.board[t]
    {
      tmpGrid[k] := g.board[k];
      k := k + 1;
    }
  }

  /** The stages of shuffle_grid compose to one round. */
  lemma ShuffleGridResultIs(l: Layout, size: int, values: seq<int>, start: nat,
                            ind1: seq<int>, rows: seq<int>, ind2: seq<int>, board: seq<int>)
    requires LayoutOk(l, size) && |values| > 0 && InRandRange(values)
    requires ind1 == ShuffleOf(l.indices, values, start) && InIndexRange(ind1, size)
    requires rows == RowSwaps(l.board, ind1, size, size)
    requires ind2 == ShuffleOf(ind1, values, start + Steps(size)) && InIndexRange(ind2, size)
    requires board == ColumnsPermuted(rows, ind2, size)
    ensures Layout(board, ind2) == ShuffleGridResult(l, size, values, start)
  {
    var i1 := ShuffledIndices(l.indices, values, start, size);
    var i2 := ShuffledIndices(i1, values, start + Steps(size), size);
    assert i1 == ind1 && i2 == ind2;
    assert ShuffleGridResult(l, size, values, start) == Layout(ColumnsPermuted(RowSwaps(l.board, i1, size, size), i2, size), i2);
  }

  /** Division with remainder has one answer. */
  lemma ModUnique(x: int, q: int, r: int, size: int)
    requires 0 < size && 0 <= r < size && x == q * size + r
    ensures x % size == r
  {
    var q' := x / size;
    assert x == q' * size + x % size;
    assert (q' - q) * size == r - x % size;
    MulBetween(q' - q, size);
  }

  /** The stepping of pos in fill_values: one up, back to 0 when it reaches size. */
  lemma PosStep(x: int, size: int)
    requires 0 < size && 0 <= x
    ensures (x + 1) % size == if x % size + 1 == size then 0 else x % size + 1
  {
    var q := x / size;
    assert x == q * size + x % size;
    if x % size + 1 == size {
      ModUnique(x + 1, q + 1, 0, size);
    } else {
      ModUnique(x + 1, q, x % size + 1, size);
    }
  }

  /**
   * The two nested loops of fill_values: cell (i, j) gets ((i + j) mod size) + 1,
   * through a position pos that steps through arr and wraps around.
   */
  method FillCyclic(g: Grid, arr: array<int>)
    requires g.Valid() && arr.Length == g.size && arr != g.board
    requires forall k :: 0 <= k < arr.Length ==> arr[k] == k
    modifies g.board
    ensures g.board[..] == Cyclic(g.size)
  {
    var size := g.size;
    var pos := 0;
    var i := 0;
    while i < size
      invariant 0 <= i <= size && pos == i
      invariant forall row, col {:trigger g.board[Index(row, col, size)]} :: 0 <= row < i && 0 <= col < size ==>
        g.board[Index(row, col, size)] == (row + col) % size + 1
    {
      var j := 0;
      ModUnique(i, 0, i, size);
      while j < size
        invariant 0 <= j <= size && 0 <= pos < size && pos == (i + j) % size
        invariant forall row, col {:trigger g.board[Index(row, col, size)]} :: 0 <= row < i && 0 <= col < size ==>
          g.board[Index(row, col, size)] == (row + col) % size + 1
        invariant forall col {:trigger g.board[Index(i, col, size)]} :: 0 <= col < j ==>
          g.board[Index(i, col, size)] == (i + col) % size + 1
      {
        g.board[Index(i, j, size)] := arr[pos] + 1;
        PosStep(i + j, size);
        pos := pos + 1;
        if pos == size {
          pos := 0;
        }
        j := j + 1;
      }
      ModUnique(i + size, 1, i, size);
      pos := pos + 1;
      i := i + 1;
    }
    SameByCells(g.board[..], Cyclic(size), size);
  }

  /** The objects shuffle_grid works on: a grid, an indices array as long as a row, a random stream. */
  predicate ShuffleFrame(g: Grid, arr: array<int>, rng: RandomSource)
    reads g
  {
    g.Valid() && rng.Valid() && arr.Length == g.size && arr != g.board
  }

  /** The SEED calls shuffle_grid(grid, array) that close fill_values. */
  method ShuffleRounds(g: Grid, arr: array<int>, rng: RandomSource)
    requires g.Valid() && rng.Valid() && arr.Length == g.size && arr != g.board
    requires InIndexRange(arr[..], g.size)
    modifies g.board, arr, rng`next
    ensures rng.next == RoundStart(old(rng.next), g.size, SEED)
    ensures Layout(g.board[..], arr[..])
      == Rounds(Layout(old(g.board[..]), old(arr[..])), g.size, rng.values, old(rng.next), SEED)
  {
    ghost var start := rng.next;
    ghost var board, size, values := g.board, g.size, rng.values;
    ghost var l0 := Layout(board[..], arr[..]);
    assert LayoutOk(l0, size);
    assert ShuffleFrame(g, arr, rng);
    var t := 0;
    while t < SEED
      invariant 0 <= t <= SEED && ShuffleFrame(g, arr, rng)
      invariant rng.next == RoundStart(start, size, t)
      invariant Layout(board[..], arr[..]) == Rounds(l0, size, values, start, t)
    {
      ShuffleRound(g, arr, rng, l0, start, t);
      t := t + 1;
    }
  }

  /** One turn of the loop of fill_values: round t + 1 follows round t. */
  method ShuffleRound(g: Grid, arr: array<int>, rng: RandomSource, ghost l0: Layout, ghost start: nat, ghost t: nat)
    requires ShuffleFrame(g, arr, rng) && LayoutOk(l0, g.size)
    requires rng.next == RoundStart(start, g.size, t)
    requires Layout(g.board[..], arr[..]) == Rounds(l0, g.size, rng.values, start, t)
    modifies g.board, arr, rng`next
    ensures rng.next == RoundStart(start, g.size, t + 1)
    ensures Layout(g.board[..], arr[..]) == Rounds(l0, g.size, rng.values, start, t + 1)
  {
    RoundsSucc(l0, g.size, rng.values, start, t);
    ShuffleGrid(g, arr, rng);
  }

  lemma RoundsSucc(l: Layout, size: int, values: seq<int>, start: nat, n: nat)
    requires LayoutOk(l, size) && |values| > 0 && InRandRange(values)
    ensures Rounds(l, size, values, start, n + 1)
      == ShuffleGridResult(Rounds(l, size, values, start, n), size, values, RoundStart(start, size, n))
  {
  }

  /**
   * fill_values: the cyclic Latin square, then SEED calls of shuffle_grid
   * with the indices 0 .. size-1. The board that comes out is Latin.
   */
  method FillValues(g: Grid, rng: RandomSource)
    requires g.Valid() && rng.Valid()
    modifies g.board, rng`next
    ensures rng.next == RoundStart(old(rng.next), g.size, SEED)
    ensures g.board[..] == Rounds(Layout(Cyclic(g.size), Iota(g.size)), g.size, rng.values, old(rng.next), SEED).board
    ensures IsLatin(g.board[..], g.size)
  {
    var size := g.size;
    var arr := new int[size];
    var k := 0;
    while k < size
      invariant 0 <= k <= size && rng.next == old(rng.next)
      invariant forall t :: 0 <= t < k ==> arr[t] == t
    {
      arr[k] := k;
      k := k + 1;
    }
    FillCyclic(g, arr);
    assert arr[..] == Iota(size);
    ghost var start := rng.next;
    ShuffleRounds(g, arr, rng);
    CyclicLatin(size);
    IotaPermutation(size);
    RoundsLatin(Layout(Cyclic(size), Iota(size)), size, rng.values, start, SEED);
  }
}
