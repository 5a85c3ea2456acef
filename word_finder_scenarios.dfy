/**
 * Worked searches. They pin down what the engine reports on small grids,
 * including the two places where it does more than a row-aware search
 * would: a Right match may run on into the next row, and an index past
 * the grid anchors a one-letter diagonal match. They also show a search
 * that fails on a buffer shorter than the grid, and one that does not.
 */
module WordFinderScenarios {
  import opened Wrappers
  import opened WordFinderHelper
  import opened WordFinder

  /** "at" in the one-row grid "xatx" is found once, to the right from index 1. */
  lemma OneRowGrid()
    ensures SearchResults(["at"], "xatx", 4, 1, true) == Success([FindResult(1, Right, "at")])
  {
    assert "xatx"[0..2][0] == 'x';
    assert "xatx"[1..3] == "at";
    assert StraightResults(["at"], "xatx") == [FindResult(1, Right, "at")];
  }

  /** "cdg" is spelled in no direction the engine searches in the 3-by-3 grid "abcdefghi". */
  lemma NoMatchInSquareGrid()
    ensures SearchResults(["cdg"], "abcdefghi", 3, 3, true) == Success([])
  {
    var chars, word := "abcdefghi", "cdg";
    forall p | 0 <= p ensures !OccursAt(chars, word, p) {
      if 0 <= p && p + 3 <= |chars| {
        assert chars[p..p + 3][0] == chars[p];
        assert chars[p..p + 3][1] == chars[p + 1];
        assert chars[p..p + 3][2] == chars[p + 2];
      }
    }
    assert FirstDiagonal(word, chars, 3, 3, 3) == Success([]);
    assert IndexToPos(2, 3) == (2, 0);
    assert CheckDownLeft(chars, 3, 3, 1, 1, 1, word) == Success(false);
    assert CheckDownLeft(chars, 3, 3, 2, 0, 0, word) == Success(false);
    assert CheckDownRight(chars, 3, 3, 2, 0, 0, word) == Success(false);
    assert FirstDiagonal(word, chars, 3, 3, 2) == Success([]);
    assert FirstDiagonal(word, chars, 3, 3, 0) == Success([]);
    assert StraightResults([word], chars) == [];
    var ws := [word];
    assert ws[..|ws| - 1] == [];
    assert DiagonalResults(ws[..|ws| - 1], chars, 3, 3) == Success([]);
    assert FirstDiagonal(ws[|ws| - 1], chars, 3, 3, 0) == FirstDiagonal(word, chars, 3, 3, 0);
    assert DiagonalResults(ws, chars, 3, 3).Success?;
    assert DiagonalResults(ws, chars, 3, 3).value == [] + [];
    assert DiagonalResults(ws, chars, 3, 3).value == [];
    assert DiagonalResults(ws, chars, 3, 3) == Success([]);
  }

  /** Nothing is wrapped: "tc" is not found in "cat", though reading on from the end would give it. */
  lemma NoWrapAround()
    ensures SearchResults(["tc"], "cat", 3, 1, true) == Success([])
  {
    var chars, word := "cat", "tc";
    forall p | 0 <= p ensures !OccursAt(chars, word, p) {
      if 0 <= p && p + 2 <= |chars| {
        assert chars[p..p + 2][0] == chars[p];
      }
    }
  }

  /** In the 2-by-2 grid "abcd", "bc" is found to the right from index 1 although b ends the first row. */
  lemma RightMatchRunsIntoNextRow()
    ensures SearchResults(["bc"], "abcd", 2, 2, false) == Success([FindResult(1, Right, "bc")])
  {
    assert "abcd"[0..2][0] == 'a';
    assert "abcd"[1..3] == "bc";
    assert StraightResults(["bc"], "abcd") == [FindResult(1, Right, "bc")];
  }

  /** Found twice: "a" at index 4 of "bbbba" with a 2-by-2 grid, to the right and as a DownLeft match past the grid. */
  lemma OneLetterPastTheGrid()
    ensures SearchResults(["a"], "bbbba", 2, 2, true) == Success([FindResult(4, Right, "a"), FindResult(4, DownLeft, "a")])
  {
    var chars, word := "bbbba", "a";
    forall p | 0 <= p < 4 ensures !OccursAt(chars, word, p) {
      assert chars[p..p + 1][0] == chars[p];
    }
    assert chars[4..5] == word;
    ChecksPastGrid(chars, 2, 2, 0, 2, word);
    assert FirstDiagonal(word, chars, 2, 2, 4) == Success([FindResult(4, DownLeft, "a")]);
    assert FirstDiagonal(word, chars, 2, 2, 0) == Success([FindResult(4, DownLeft, "a")]);
    assert StraightResults([word], chars) == [FindResult(4, Right, "a")];
    var ws := [word];
    assert ws[..|ws| - 1] == [];
    assert DiagonalResults(ws[..|ws| - 1], chars, 2, 2) == Success([]);
    assert FirstDiagonal(ws[|ws| - 1], chars, 2, 2, 0) == FirstDiagonal(word, chars, 2, 2, 0);
    assert DiagonalResults(ws, chars, 2, 2).Success?;
    assert DiagonalResults(ws, chars, 2, 2).value == [] + [FindResult(4, DownLeft, "a")];
    assert DiagonalResults(ws, chars, 2, 2).value == [FindResult(4, DownLeft, "a")];
    assert DiagonalResults(ws, chars, 2, 2) == Success([FindResult(4, DownLeft, "a")]);
    assert SearchResults(ws, chars, 2, 2, true).Success?;
    assert SearchResults(ws, chars, 2, 2, true).value == [FindResult(4, Right, "a")] + [FindResult(4, DownLeft, "a")];
    assert [FindResult(4, Right, "a")] + [FindResult(4, DownLeft, "a")] == [FindResult(4, Right, "a"), FindResult(4, DownLeft, "a")];
  }

  /** A buffer shorter than the grid is searched without failure while no walk reaches its end: "zz" in "ab" as a 2-by-2 grid. */
  lemma ShortBufferWithoutFailure()
    ensures SearchResults(["zz"], "ab", 2, 2, true) == Success([])
  {
    var chars, word := "ab", "zz";
    forall p | 0 <= p ensures !OccursAt(chars, word, p) {
      if 0 <= p && p + 2 <= |chars| {
        assert chars[p..p + 2][0] == chars[p];
      }
    }
    assert StraightResults([word], chars) == [];
    assert FirstDiagonal(word, chars, 2, 2, 0) == Success([]);
    var ws := [word];
    assert ws[..|ws| - 1] == [];
    assert DiagonalResults(ws[..|ws| - 1], chars, 2, 2) == Success([]);
    assert FirstDiagonal(ws[|ws| - 1], chars, 2, 2, 0) == FirstDiagonal(word, chars, 2, 2, 0);
    assert DiagonalResults(ws, chars, 2, 2).Success?;
    assert DiagonalResults(ws, chars, 2, 2).value == [] + [];
    assert DiagonalResults(ws, chars, 2, 2).value == [];
    assert DiagonalResults(ws, chars, 2, 2) == Success([]);
  }

  /**
   * The same grid fails for "ac": the DownLeft walk from index 0 leaves
   * the grid, and the DownRight walk steps to (1, 1), index 3, past the
   * end of the buffer.
   */
  lemma ShortBufferFailure()
    ensures SearchResults(["ac"], "ab", 2, 2, true) == Failure(IndexOutOfRange)
  {
    var chars, word := "ab", "ac";
    assert IndexToPos(0, 2) == (0, 0);
    assert CheckDownLeft(chars, 2, 2, 0, 0, 0, word) == Success(false);
    assert CheckDownRight(chars, 2, 2, 1, 1, 1, word) == Failure(IndexOutOfRange);
    assert FirstDiagonal(word, chars, 2, 2, 0) == Failure(IndexOutOfRange);
  }

  /** A lone carriage return ends a word just as a line feed does: "a\rb" is the two words "a" and "b". */
  lemma CarriageReturnSeparates()
    ensures Parse("a\rb") == Success(["a", "b"])
  {
    assert "a\rb" == JoinRuns(["a", "b"], ["", "\r", ""]);
    SplitJoinRuns(["a", "b"], ["", "\r", ""]);
    assert ToLowerInvariant("a\rb") == "a\rb";
  }
}
