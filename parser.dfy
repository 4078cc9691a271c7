/**
 * The token helpers of the grid-file parser (src/parser.c): which characters
 * a file may hold, where a comment starts in a word, the decoding of numbers
 * and of constraint words, the block count and the check that every block
 * id is used. Words are what strtok(line, " \n") yields; Tokens models that
 * split.
 */
module Parser {
  import opened ErrCodes
  import opened GridModel
  import opened Decimal

  // ---- check_admitted_char

  /** check_admitted_char: UNADMIT_CHAR unless c is one of the characters a grid file may hold. */
  function CheckAdmittedChar(c: char): (status: ErrCode)
    ensures status == Success || status == UnadmitChar
    ensures status == Success <==>
      c == '#' || c == '+' || c == '-' || c == 'x' || c == '/' || c == ':' || IsDigit(c)
      || c == ' ' || c == '\t' || c == '\n'
  {
    if c != '#' && c != '+' && c != '-' && (c < '/' || c > ':') && c != 'x'
       && c != ' ' && c != '\t' && c != '\n'
    then UnadmitChar
    else Success
  }

  // ---- convert_word_to_value

  /** Which of the two out-parameters of convert_word_to_value is given. */
  datatype Target = LongOut | IntOut

  /** What convert_word_to_value wrote through its out-parameters. */
  datatype Written = Nothing | LongValue(v: int) | IntValue(v: int)

  /**
   * convert_word_to_value: strtol the word; a range error or a value that is
   * not positive gives UNBOUND_VAL and writes nothing; otherwise the value is
   * stored, truncated to int when the int out-parameter is the given one.
   */
  function ConvertWordToValue(word: seq<char>, target: Target): (r: (ErrCode, Written))
    ensures r.0 == Success || r.0 == UnboundVal
    ensures r.0 == Success <==> Strtol(word).errno == NoError && Strtol(word).value >= 1
    ensures r.0 != Success ==> r.1 == Nothing
    ensures r.0 == Success && target == LongOut ==> r.1 == LongValue(Strtol(word).value)
    ensures r.0 == Success && target == IntOut ==> r.1 == IntValue(ToInt(Strtol(word).value))
  {
    var res := Strtol(word);
    if res.errno == Erange then (UnboundVal, Nothing)
    else if res.errno == Einval then (ConversionFail, Nothing)
    else if res.value <= 0 then (UnboundVal, Nothing)
    else if target == IntOut then (Success, IntValue(ToInt(res.value)))
    else (Success, LongValue(res.value))
  }

  /**
   * The decimal text of a long, followed by anything that does not start
   * with a digit, converts to that long exactly when it is positive.
   */
  lemma ConvertDec(n: int, rest: seq<char>)
    requires LONG_MIN <= n <= LONG_MAX && (rest == [] || !IsDigit(rest[0]))
    ensures n >= 1 ==> ConvertWordToValue(Dec(n) + rest, LongOut) == (Success, LongValue(n))
    ensures n >= 1 && n <= INT_MAX ==> ConvertWordToValue(Dec(n) + rest, IntOut) == (Success, IntValue(n))
    ensures n <= 0 ==> ConvertWordToValue(Dec(n) + rest, LongOut).0 == UnboundVal
  {
    DecRoundTrip(n, rest);
  }

  // ---- save_constraint and treat_constraint_word

  /** The four operator characters a constraint word may end with. */
  predicate IsOperatorChar(c: char)
  {
    c == '+' || c == '-' || c == 'x' || c == '/'
  }

  /** The state treat_constraint_word leaves: its status, the blocks and *block_num. */
  datatype Treated = Treated(status: ErrCode, blocks: seq<Block>, blockNum: int)

  /**
   * save_constraint: the word without its last character is the goal of
   * blocks[block_num - 1] and opr its operator; a word that does not convert
   * leaves the blocks as they were.
   */
  function SaveConstraint(blocks: seq<Block>, word: seq<char>, blockNum: int, opr: char): (r: (ErrCode, seq<Block>))
    requires |word| >= 1 && 1 <= blockNum <= |blocks|
    ensures |r.1| == |blocks|
    ensures r.0 == Success <==> ConvertWordToValue(word[..|word| - 1], LongOut).0 == Success
    ensures r.0 != Success ==> r.1 == blocks
    ensures r.0 == Success ==> r.1[blockNum - 1].goal == Strtol(word[..|word| - 1]).value
    ensures r.0 == Success ==> r.1[blockNum - 1].opr == opr
    ensures r.1[blockNum - 1].squares == blocks[blockNum - 1].squares
    ensures forall k :: 0 <= k < |blocks| && k != blockNum - 1 ==> r.1[k] == blocks[k]
  {
    var conv := ConvertWordToValue(word[..|word| - 1], LongOut);
    if conv.0 != Success then (conv.0, blocks)
    else
      var goal := conv.1.v;
      (Success, blocks[blockNum - 1 := blocks[blockNum - 1].(goal := goal, opr := opr)])
  }

  /**
   * treat_constraint_word, by the last character of the word: ':' makes the
   * rest the block number; an operator character saves the rest as the goal
   * of the current block with that operator; anything else is UNADMIT_CHAR.
   */
  function TreatConstraintWord(blocks: seq<Block>, word: seq<char>, blockNum: int): (r: Treated)
    requires |word| >= 1
    requires IsOperatorChar(word[|word| - 1]) ==> 1 <= blockNum <= |blocks|
    ensures |r.blocks| == |blocks|
    ensures r.status != Success ==> r.blocks == blocks && r.blockNum == blockNum
    ensures r.status == Success ==> word[|word| - 1] == ':' || IsOperatorChar(word[|word| - 1])
    ensures word[|word| - 1] == ':' ==> r.blocks == blocks
    ensures word[|word| - 1] == ':' ==>
      (r.status == Success <==> ConvertWordToValue(word[..|word| - 1], IntOut).0 == Success)
    ensures word[|word| - 1] == ':' && r.status == Success ==>
      r.blockNum == ToInt(Strtol(word[..|word| - 1]).value)
    ensures IsOperatorChar(word[|word| - 1]) ==> r.blockNum == blockNum
    ensures IsOperatorChar(word[|word| - 1]) ==>
      (r.status, r.blocks) == SaveConstraint(blocks, word, blockNum, word[|word| - 1])
    ensures word[|word| - 1] != ':' && !IsOperatorChar(word[|word| - 1]) ==> r.status == UnadmitChar
  {
    var last := word[|word| - 1];
    if last == ':' then
      var conv := ConvertWordToValue(word[..|word| - 1], IntOut);
      if conv.0 != Success then Treated(conv.0, blocks, blockNum)
      else Treated(Success, blocks, conv.1.v)
    else if last == '+' || last == '-' || last == 'x' || last == '/' then
      var saved := SaveConstraint(blocks, word, blockNum, last);
      Treated(saved.0, saved.1, blockNum)
    else Treated(UnadmitChar, blocks, blockNum)
  }

  /** The test of skip_useless_lines: a line that starts with '#' or is empty is skipped. */
  predicate SkippedLine(line: seq<char>)
    requires |line| >= 1
  {
    line[0] == '#' || line[0] == '\n'
  }

  // ---- strtok(line, " \n")

  predicate IsDelimiter(c: char)
  {
    c == ' ' || c == '\n'
  }

  predicate NoDelimiter(s: seq<char>)
  {
    forall i :: 0 <= i < |s| ==> !IsDelimiter(s[i])
  }

  /** The length of the word s starts with: its characters up to the first delimiter. */
  function WordLength(s: seq<char>): (n: nat)
    ensures n <= |s| && NoDelimiter(s[..n]) && (n < |s| ==> IsDelimiter(s[n]))
  {
    if s == [] || IsDelimiter(s[0]) then 0
    else
      var n := 1 + WordLength(s[1..]);
      assert s[..n] == [s[0]] + s[1..][..n - 1];
      n
  }

  /** The words strtok returns, in order: the maximal runs of non-delimiters. */
  function Tokens(s: seq<char>): (ts: seq<seq<char>>)
    ensures forall k :: 0 <= k < |ts| ==> |ts[k]| >= 1 && NoDelimiter(ts[k])
    decreases |s|
  {
    if s == [] then []
    else if IsDelimiter(s[0]) then Tokens(s[1..])
    else
      var n := WordLength(s);
      [s[..n]] + Tokens(s[n..])
  }

  /** A word followed by a delimiter or by the end of the text is read whole. */
  lemma {:induction false} WordLengthOf(w: seq<char>, rest: seq<char>)
    requires NoDelimiter(w) && (rest == [] || IsDelimiter(rest[0]))
    ensures WordLength(w + rest) == |w|
    decreases |w|
  {
    if w != [] {
      assert (w + rest)[1..] == w[1..] + rest;
      WordLengthOf(w[1..], rest);
    } else if rest != [] {
      assert (w + rest)[0] == rest[0];
    }
  }

  /** strtok returns a word and a delimiter that start the text, then the words of the rest. */
  lemma TokensOfWord(w: seq<char>, d: char, rest: seq<char>)
    requires |w| >= 1 && NoDelimiter(w) && IsDelimiter(d)
    ensures Tokens(w + [d] + rest) == [w] + Tokens(rest)
  {
    var s := w + [d] + rest;
    assert s == w + ([d] + rest);
    WordLengthOf(w, [d] + rest);
    assert s[..|w|] == w;
    assert s[|w|..] == [d] + rest;
    assert ([d] + rest)[1..] == rest;
  }

  /** A word that ends before the end of the text is not lengthened by what follows the text. */
  lemma {:induction false} WordLengthPrefix(a: seq<char>, b: seq<char>)
    requires WordLength(a) < |a|
    ensures WordLength(a + b) == WordLength(a)
    decreases |a|
  {
    if !IsDelimiter(a[0]) {
      assert (a + b)[1..] == a[1..] + b;
      WordLengthPrefix(a[1..], b);
    }
  }

  /** Text that ends with a delimiter splits into its own words, then the words of what follows. */
  lemma {:induction false} TokensAppend(a: seq<char>, b: seq<char>)
    requires a == [] || IsDelimiter(a[|a| - 1])
    ensures Tokens(a + b) == Tokens(a) + Tokens(b)
    decreases |a|
  {
    if a == [] {
      assert a + b == b;
    } else if IsDelimiter(a[0]) {
      assert (a + b)[1..] == a[1..] + b;
      TokensAppend(a[1..], b);
    } else {
      var n := WordLength(a);
      WordLengthPrefix(a, b);
      assert (a + b)[..n] == a[..n];
      assert (a + b)[n..] == a[n..] + b;
      TokensAppend(a[n..], b);
    }
  }

  // ---- check_commentary and get_word_before_commentary

  /** check_commentary: the position of the first '#' of the word, or its length when it has none. */
  method CheckCommentary(word: seq<char>) returns (pos: int)
    ensures 0 <= pos <= |word|
    ensures pos < |word| ==> word[pos] == '#'
    ensures forall k :: 0 <= k < pos ==> word[k] != '#'
  {
    var i := 0;
    while i < |word|
      invariant 0 <= i <= |word|
      invariant forall k :: 0 <= k < i ==> word[k] != '#'
    {
      if word[i] == '#' {
        return i;
      }
      i := i + 1;
    }
    return i;
  }

  /** get_word_before_commentary: copies the first pos characters of the word into out. */
  method GetWordBeforeCommentary(word: seq<char>, out: array<char>, pos: int)
    requires 0 <= pos <= |word| && pos <= out.Length
    modifies out
    ensures out[..pos] == word[..pos]
    ensures out[pos..] == old(out[pos..])
  {
    var i := 0;
    while i < pos
      invariant 0 <= i <= pos
      invariant out[..i] == word[..i]
      invariant out[pos..] == old(out[pos..])
    {
      out[i] := word[i];
      i := i + 1;
    }
  }

  // ---- get_nb_blocks and check_getted_values

  /** get_nb_blocks: the largest block id of the block board, or 0 when none is positive. */
  method GetNbBlocks(g: Grid) returns (m: int)
    requires g.Valid()
    ensures m >= 0
    ensures forall k :: 0 <= k < g.blockBoard.Length ==> g.blockBoard[k] <= m
    ensures m == 0 || m in g.blockBoard[..]
  {
    m := 0;
    var i := 0;
    while i < g.size * g.size
      invariant 0 <= i <= g.size * g.size
      invariant m >= 0
      invariant forall k :: 0 <= k < i ==> g.blockBoard[k] <= m
      invariant m == 0 || m in g.blockBoard[..i]
    {
      if m < g.blockBoard[i] {
        m := g.blockBoard[i];
      }
      assert g.blockBoard[..i + 1] == g.blockBoard[..i] + [g.blockBoard[i]];
      i := i + 1;
    }
    assert g.blockBoard[..i] == g.blockBoard[..];
  }

  /**
   * check_getted_values: SUCCESS when every id from 1 to nb_blocks names at
   * least one cell of the block board, MISSING_VAL otherwise.
   */
  method CheckGettedValues(g: Grid) returns (status: ErrCode)
    requires g.Valid()
    requires forall k :: 0 <= k < g.blockBoard.Length ==> 1 <= g.blockBoard[k] <= g.nbBlocks
    ensures status == Success || status == MissingVal
    ensures status == Success <==> forall id :: 1 <= id <= g.nbBlocks ==> id in g.blockBoard[..]
  {
    var present := new bool[g.nbBlocks](_ => false);
    var i := 0;
    while i < g.size * g.size
      invariant 0 <= i <= g.size * g.size
      invariant forall j :: 0 <= j < present.Length ==> (present[j] <==> j + 1 in g.blockBoard[..i])
    {
      assert g.blockBoard[..i + 1] == g.blockBoard[..i] + [g.blockBoard[i]];
      present[g.blockBoard[i] - 1] := true;
      i := i + 1;
    }
    assert g.blockBoard[..i] == g.blockBoard[..];
    i := 0;
    while i < g.nbBlocks
      invariant 0 <= i <= g.nbBlocks
      invariant forall j :: 0 <= j < i ==> present[j]
    {
      if !present[i] {
        return MissingVal;
      }
      i := i + 1;
    }
    forall id | 1 <= id <= g.nbBlocks
      ensures id in g.blockBoard[..]
    {
      assert present[id - 1];
    }
    return Success;
  }
}
