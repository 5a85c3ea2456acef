/**
 * The search engine: it turns the text of a word file into a set of
 * words, then looks for those words in a grid of characters stored as
 * one row-major buffer.
 */
module WordFinder {
  import opened Wrappers
  import opened WordFinderHelper

  /** The eight compass directions a match can be reported with. */
  datatype Direction = Right | Left | Up | Down | DownLeft | DownRight | UpLeft | UpRight

  /** A match: the index of its first character, its direction and the word. */
  datatype FindResult = FindResult(pos: int, direction: Direction, word: string)

  /** Why a word file was refused. */
  datatype ParseError = EmptyWordFile

  /** The exception a read past the end of the buffer throws. */
  datatype SearchError = IndexOutOfRange

  // ---------------------------------------------------------------------
  // Reading the word file
  // ---------------------------------------------------------------------

  /** The two characters the text is split on. */
  predicate IsSeparator(c: char)
  {
    c == '\n' || c == '\r'
  }

  predicate NoSeparator(w: string)
  {
    forall i :: 0 <= i < |w| ==> !IsSeparator(w[i])
  }

  predicate IsUpperAscii(c: char)
  {
    'A' <= c <= 'Z'
  }

  predicate NoUpper(w: string)
  {
    forall i :: 0 <= i < |w| ==> !IsUpperAscii(w[i])
  }

  /** Lower-casing of one character (ASCII letters only). */
  function ToLowerChar(c: char): char
  {
    if IsUpperAscii(c) then (c as int + 32) as char else c
  }

  /** `ToLowerInvariant`: lower-cases every character, keeping the length. */
  function ToLowerInvariant(s: string): string
  {
    seq(|s|, i requires 0 <= i < |s| => ToLowerChar(s[i]))
  }

  /** Length of the run of non-separator characters that starts s. */
  function WordLength(s: string): (n: nat)
    ensures n <= |s|
    ensures forall i :: 0 <= i < n ==> !IsSeparator(s[i])
    ensures n < |s| ==> IsSeparator(s[n])
    decreases |s|
  {
    if s == [] || IsSeparator(s[0]) then 0 else 1 + WordLength(s[1..])
  }

  /**
   * `Split(new[] { '\n', '\r' }, StringSplitOptions.RemoveEmptyEntries)`:
   * the maximal runs of non-separator characters, in order.
   */
  function SplitLines(s: string): (pieces: seq<string>)
    ensures forall w :: w in pieces ==> w != [] && NoSeparator(w)
    ensures forall w, c :: w in pieces && c in w ==> c in s
    decreases |s|
  {
    if s == [] then []
    else if IsSeparator(s[0]) then SplitLines(s[1..])
    else
      var n := WordLength(s);
      [s[..n]] + SplitLines(s[n..])
  }

  /**
   * `Parse` on the text already read from the word file: lower-case it,
   * refuse it when empty, split it into lines.
   */
  function Parse(text: string): (r: Result<seq<string>, ParseError>)
    ensures r.Failure? <==> text == []
    ensures r.Failure? ==> r.error == EmptyWordFile
    ensures r.Success? ==> forall w :: w in r.value ==> w != [] && NoSeparator(w) && NoUpper(w)
  {
    var words := ToLowerInvariant(text);
    if |words| == 0 then Failure(EmptyWordFile)
    else
      var pieces := SplitLines(words);
      assert forall w, i :: w in pieces && 0 <= i < |w| ==> w[i] in words;
      Success(pieces)
  }

  /** All pieces one after the other. */
  function Concat(ws: seq<string>): string
    decreases |ws|
  {
    if ws == [] then [] else ws[0] + Concat(ws[1..])
  }

  /** The text with its separators taken out. */
  function RemoveSeparators(s: string): string
    decreases |s|
  {
    if s == [] then [] else (if IsSeparator(s[0]) then [] else [s[0]]) + RemoveSeparators(s[1..])
  }

  /** Lines written out with a line feed between them. */
  function JoinLines(ws: seq<string>): string
    decreases |ws|
  {
    if ws == [] then []
    else if |ws| == 1 then ws[0]
    else ws[0] + "\n" + JoinLines(ws[1..])
  }

  lemma {:induction false} RemoveSeparatorsConcat(a: string, b: string)
    ensures RemoveSeparators(a + b) == RemoveSeparators(a) + RemoveSeparators(b)
    decreases |a|
  {
    if a == [] {
      assert a + b == b;
    } else {
      var head := if IsSeparator(a[0]) then [] else [a[0]];
      assert (a + b)[0] == a[0];
      assert (a + b)[1..] == a[1..] + b;
      RemoveSeparatorsConcat(a[1..], b);
      assert head + (RemoveSeparators(a[1..]) + RemoveSeparators(b))
          == (head + RemoveSeparators(a[1..])) + RemoveSeparators(b);
    }
  }

  lemma {:induction false} RemoveSeparatorsKeeps(w: string)
    requires NoSeparator(w)
    ensures RemoveSeparators(w) == w
    decreases |w|
  {
    if w != [] {
      RemoveSeparatorsKeeps(w[1..]);
      assert w == [w[0]] + w[1..];
    }
  }

  /** Splitting loses the separators and nothing else. */
  lemma {:induction false} SplitLinesLosesOnlySeparators(s: string)
    ensures Concat(SplitLines(s)) == RemoveSeparators(s)
    decreases |s|
  {
    if s != [] {
      if IsSeparator(s[0]) {
        SplitLinesLosesOnlySeparators(s[1..]);
      } else {
        var n := WordLength(s);
        assert s == s[..n] + s[n..];
        SplitLinesLosesOnlySeparators(s[n..]);
        RemoveSeparatorsConcat(s[..n], s[n..]);
        RemoveSeparatorsKeeps(s[..n]);
        assert ([s[..n]] + SplitLines(s[n..]))[1..] == SplitLines(s[n..]);
      }
    }
  }

  /** A run that is followed by a separator, or by nothing, is read as one piece. */
  lemma {:induction false} WordLengthOfLine(w: string, rest: string)
    requires NoSeparator(w)
    requires rest == [] || IsSeparator(rest[0])
    ensures WordLength(w + rest) == |w|
    decreases |w|
  {
    if w != [] {
      assert (w + rest)[1..] == w[1..] + rest;
      WordLengthOfLine(w[1..], rest);
    } else {
      assert w + rest == rest;
    }
  }

  /** Every line is non-empty and holds no separator. */
  predicate Lines(ws: seq<string>)
  {
    forall i :: 0 <= i < |ws| ==> ws[i] != [] && NoSeparator(ws[i])
  }

  /** Splitting lines joined with line feeds gives the lines back. */
  lemma {:induction false} SplitJoinLines(ws: seq<string>)
    requires Lines(ws)
    ensures SplitLines(JoinLines(ws)) == ws
    decreases |ws|
  {
    if |ws| == 1 {
      var w := ws[0];
      WordLengthOfLine(w, []);
      assert w + [] == w;
      assert w[|w|..] == [];
      assert [w] == ws;
    } else if |ws| > 1 {
      var w, tail := ws[0], JoinLines(ws[1..]);
      var s := w + "\n" + tail;
      assert s == w + ("\n" + tail);
      WordLengthOfLine(w, "\n" + tail);
      assert s[..|w|] == w;
      assert s[|w|..] == "\n" + tail;
      assert s[|w|..][1..] == tail;
      SplitJoinLines(ws[1..]);
      assert [w] + ws[1..] == ws;
    }
  }

  /** Nothing but separators. */
  predicate Separators(s: string)
  {
    forall i :: 0 <= i < |s| ==> IsSeparator(s[i])
  }

  /** Separators in front of a text add no piece. */
  lemma {:induction false} SplitSkipsSeparators(sep: string, s: string)
    requires Separators(sep)
    ensures SplitLines(sep + s) == SplitLines(s)
    decreases |sep|
  {
    if sep == [] {
      assert sep + s == s;
    } else {
      assert (sep + s)[0] == sep[0];
      assert (sep + s)[1..] == sep[1..] + s;
      SplitSkipsSeparators(sep[1..], s);
    }
  }

  /** A line ended by a separator, either of the two, or by the end of the text is one piece. */
  lemma SplitFirstLine(w: string, rest: string)
    requires w != [] && NoSeparator(w)
    requires rest == [] || IsSeparator(rest[0])
    ensures SplitLines(w + rest) == [w] + SplitLines(rest)
  {
    var s := w + rest;
    WordLengthOfLine(w, rest);
    assert s[0] == w[0];
    assert s[..|w|] == w;
    assert s[|w|..] == rest;
  }

  /** Lines with a run of separators before each one and after the last: seps[i] precedes ws[i]. */
  function JoinRuns(ws: seq<string>, seps: seq<string>): string
    requires |seps| == |ws| + 1
    decreases |ws|
  {
    if ws == [] then seps[0] else seps[0] + ws[0] + JoinRuns(ws[1..], seps[1..])
  }

  /** Every run is made of separators, and a run between two lines is not empty. */
  predicate SeparatorRuns(seps: seq<string>)
  {
    (forall i :: 0 <= i < |seps| ==> Separators(seps[i]))
    && (forall i :: 0 < i < |seps| - 1 ==> seps[i] != [])
  }

  lemma JoinRunsStart(ws: seq<string>, seps: seq<string>)
    requires |seps| == |ws| + 1 && Separators(seps[0]) && (ws != [] ==> seps[0] != [])
    ensures JoinRuns(ws, seps) == [] || IsSeparator(JoinRuns(ws, seps)[0])
  {
    if ws != [] {
      assert JoinRuns(ws, seps)[0] == seps[0][0];
    }
  }

  /**
   * Either separator ends a piece: lines joined by any non-empty runs of
   * '\n' and '\r' (a "\r\n", a lone '\r', blank lines), with any run
   * before the first and after the last, split back into those lines.
   */
  lemma {:induction false} SplitJoinRuns(ws: seq<string>, seps: seq<string>)
    requires Lines(ws) && |seps| == |ws| + 1 && SeparatorRuns(seps)
    ensures SplitLines(JoinRuns(ws, seps)) == ws
    decreases |ws|
  {
    if ws == [] {
      SplitSkipsSeparators(seps[0], []);
      assert seps[0] + [] == seps[0];
    } else {
      var tail := JoinRuns(ws[1..], seps[1..]);
      assert seps[0] + ws[0] + tail == seps[0] + (ws[0] + tail);
      SplitSkipsSeparators(seps[0], ws[0] + tail);
      assert |ws| > 1 ==> seps[1] != [];
      JoinRunsStart(ws[1..], seps[1..]);
      SplitFirstLine(ws[0], tail);
      assert forall i :: 0 < i < |seps[1..]| - 1 ==> seps[1..][i] == seps[i + 1];
      SplitJoinRuns(ws[1..], seps[1..]);
      assert [ws[0]] + ws[1..] == ws;
    }
  }

  lemma NoUpperConcat(a: string, b: string)
    requires NoUpper(a) && NoUpper(b)
    ensures NoUpper(a + b)
  {
    assert forall i :: |a| <= i < |a + b| ==> (a + b)[i] == b[i - |a|];
  }

  lemma {:induction false} JoinLinesNoUpper(ws: seq<string>)
    requires forall i :: 0 <= i < |ws| ==> NoUpper(ws[i])
    ensures NoUpper(JoinLines(ws))
    decreases |ws|
  {
    if |ws| > 1 {
      JoinLinesNoUpper(ws[1..]);
      NoUpperConcat(ws[0], "\n");
      NoUpperConcat(ws[0] + "\n", JoinLines(ws[1..]));
    }
  }

  /** Parsing lower-case lines joined with line feeds gives the lines back. */
  lemma ParseJoinLines(ws: seq<string>)
    requires ws != [] && Lines(ws)
    requires forall i :: 0 <= i < |ws| ==> NoUpper(ws[i])
    ensures Parse(JoinLines(ws)) == Success(ws)
  {
    var text := JoinLines(ws);
    JoinLinesNoUpper(ws);
    assert ToLowerInvariant(text) == text;
    SplitJoinLines(ws);
    if |ws| > 1 {
      assert |text| >= |ws[0]| > 0;
    }
  }

  // ---------------------------------------------------------------------
  // The word set
  // ---------------------------------------------------------------------

  /** `char.IsWhiteSpace`: the Unicode space separators, line and paragraph separators, U+0009..U+000D and U+0085. */
  predicate IsWhiteSpace(c: char)
  {
    var n := c as int;
    (0x09 <= n <= 0x0D) || n == 0x20 || n == 0x85 || n == 0xA0 || n == 0x1680
    || (0x2000 <= n <= 0x200A) || n == 0x2028 || n == 0x2029 || n == 0x202F
    || n == 0x205F || n == 0x3000
  }

  /** `string.IsNullOrWhiteSpace` on a string that is not null. */
  predicate IsNullOrWhiteSpace(w: string)
  {
    forall i :: 0 <= i < |w| ==> IsWhiteSpace(w[i])
  }

  /** A piece of the word file that is kept as a word. */
  predicate Keeps(w: string, minLetter: int)
  {
    !IsNullOrWhiteSpace(w) && |w| >= minLetter
  }

  predicate NoDuplicates(ws: seq<string>)
  {
    forall i, j :: 0 <= i < j < |ws| ==> ws[i] != ws[j]
  }

  /** No stored word is empty. */
  predicate NonEmptyWords(ws: seq<string>)
  {
    forall i :: 0 <= i < |ws| ==> ws[i] != []
  }

  /** No two results are for the same word. */
  predicate DistinctWords(rs: seq<FindResult>)
  {
    forall i, j :: 0 <= i < j < |rs| ==> rs[i].word != rs[j].word
  }

  // ---------------------------------------------------------------------
  // The straight search
  // ---------------------------------------------------------------------

  /** word occurs in chars starting at index p. */
  predicate OccursAt(chars: string, word: string, p: int)
  {
    0 <= p && p + |word| <= |chars| && chars[p..p + |word|] == word
  }

  /** First occurrence of word at or after start, or -1. */
  function IndexFrom(chars: string, word: string, start: nat): (r: int)
    ensures r == -1 || (start <= r && OccursAt(chars, word, r))
    ensures r == -1 ==> forall p :: start <= p ==> !OccursAt(chars, word, p)
    ensures r != -1 ==> forall p :: start <= p < r ==> !OccursAt(chars, word, p)
    decreases |chars| - start
  {
    if start + |word| > |chars| then -1
    else if chars[start..start + |word|] == word then start
    else IndexFrom(chars, word, start + 1)
  }

  /** The ordinal `IndexOf` of a span in a span: the least index at which word occurs, or -1. */
  function IndexOf(chars: string, word: string): (r: int)
    ensures r == -1 <==> forall p :: !OccursAt(chars, word, p)
    ensures r != -1 ==> OccursAt(chars, word, r)
    ensures r != -1 ==> forall p :: 0 <= p < r ==> !OccursAt(chars, word, p)
  {
    IndexFrom(chars, word, 0)
  }

  /** What `FindStraight` returns for the words ws: one Right result per word that occurs. */
  function StraightResults(ws: seq<string>, chars: string): seq<FindResult>
    decreases |ws|
  {
    if ws == [] then []
    else
      var rest := StraightResults(ws[..|ws| - 1], chars);
      var word := ws[|ws| - 1];
      var index := IndexOf(chars, word);
      if index == -1 then rest else rest + [FindResult(index, Right, word)]
  }

  /**
   * Every straight result is a Right match at the first occurrence of its
   * word; a word gets a result exactly when it occurs somewhere in the
   * buffer; distinct words give results for distinct words.
   */
  lemma {:induction false} StraightResultsMeaning(ws: seq<string>, chars: string)
    ensures forall r :: r in StraightResults(ws, chars) ==>
      r.direction == Right && r.word in ws && OccursAt(chars, r.word, r.pos)
      && forall p :: 0 <= p < r.pos ==> !OccursAt(chars, r.word, p)
    ensures forall w :: w in ws ==>
      ((exists r :: r in StraightResults(ws, chars) && r.word == w) <==> exists p :: OccursAt(chars, w, p))
    ensures |StraightResults(ws, chars)| <= |ws|
    ensures NoDuplicates(ws) ==> DistinctWords(StraightResults(ws, chars))
    decreases |ws|
  {
    if ws != [] {
      var init, word := ws[..|ws| - 1], ws[|ws| - 1];
      assert ws == init + [word];
      StraightResultsMeaning(init, chars);
      var index := IndexOf(chars, word);
      if index != -1 {
        assert OccursAt(chars, word, index);
      }
      forall w | w in ws
        ensures (exists r :: r in StraightResults(ws, chars) && r.word == w) <==> exists p :: OccursAt(chars, w, p)
      {
        if w != word {
          assert w in init;
        } else if index != -1 {
          assert FindResult(index, Right, word) in StraightResults(ws, chars);
        }
      }
      if NoDuplicates(ws) {
        assert forall i :: 0 <= i < |init| ==> init[i] != word;
      }
    }
  }

  // ---------------------------------------------------------------------
  // The diagonal search
  // ---------------------------------------------------------------------

  /** The cell (x, y) is on the grid, inside the buffer, and holds c. */
  predicate CellIs(chars: string, dimX: int, dimY: int, x: int, y: int, c: char)
  {
    PosInbound(x, y, dimX, dimY) && 0 <= PosToIndex(dimX, x, y) < |chars| && chars[PosToIndex(dimX, x, y)] == c
  }

  /** Walking from (x, y) in steps of (dx, dy) stays on the grid for |word| cells and spells word. */
  ghost predicate MatchesAlong(chars: string, dimX: int, dimY: int, x: int, y: int, dx: int, dy: int, word: string)
  {
    forall k :: 0 <= k < |word| ==> CellIs(chars, dimX, dimY, x + k * dx, y + k * dy, word[k])
  }

  /**
   * `CheckDownLeft`: the rest of word, from its i-th character on, reads
   * down and to the left from (x, y). It fails, as the span's indexer
   * throws, when the walk reaches a cell of the grid past the end of the
   * buffer.
   */
  function CheckDownLeft(chars: string, dimX: int, dimY: int, x: int, y: int, i: nat, word: string): Result<bool, SearchError>
    requires i < |word| ==> PosInbound(x, y, dimX, dimY) || 0 <= PosToIndex(dimX, x, y) < |chars|
    decreases |word| - i
  {
    if i >= |word| then Success(true)
    else
      InboundIndex(x, y, dimX, dimY);
      var index := PosToIndex(dimX, x, y);
      if index >= |chars| then Failure(IndexOutOfRange)
      else if chars[index] != word[i] then Success(false)
      else
        var x', y', i' := x - 1, y + 1, i + 1;
        if !PosInbound(x', y', dimX, dimY) then Success(i' >= |word|)
        else CheckDownLeft(chars, dimX, dimY, x', y', i', word)
  }

  /** `CheckDownRight`: the same walk, down and to the right. */
  function CheckDownRight(chars: string, dimX: int, dimY: int, x: int, y: int, i: nat, word: string): Result<bool, SearchError>
    requires i < |word| ==> PosInbound(x, y, dimX, dimY) || 0 <= PosToIndex(dimX, x, y) < |chars|
    decreases |word| - i
  {
    if i >= |word| then Success(true)
    else
      InboundIndex(x, y, dimX, dimY);
      var index := PosToIndex(dimX, x, y);
      if index >= |chars| then Failure(IndexOutOfRange)
      else if chars[index] != word[i] then Success(false)
      else
        var x', y', i' := x + 1, y + 1, i + 1;
        if !PosInbound(x', y', dimX, dimY) then Success(i' >= |word|)
        else CheckDownRight(chars, dimX, dimY, x', y', i', word)
  }

  /**
   * A walk that does not fail succeeds exactly when every remaining
   * character sits on the grid at its place on the down-left diagonal;
   * leaving the grid right after the last character is no failure. A
   * buffer that holds the whole grid never makes it fail.
   */
  lemma {:induction false} CheckDownLeftMeaning(chars: string, dimX: int, dimY: int, x: int, y: int, i: nat, word: string)
    requires i < |word| ==> PosInbound(x, y, dimX, dimY)
    ensures dimX * dimY <= |chars| ==> CheckDownLeft(chars, dimX, dimY, x, y, i, word).Success?
    ensures CheckDownLeft(chars, dimX, dimY, x, y, i, word).Success? ==>
      (CheckDownLeft(chars, dimX, dimY, x, y, i, word).value <==>
       forall k :: i <= k < |word| ==> CellIs(chars, dimX, dimY, x - (k - i), y + (k - i), word[k]))
    decreases |word| - i
  {
    if i < |word| {
      InboundIndex(x, y, dimX, dimY);
      if PosToIndex(dimX, x, y) < |chars| {
        assert CellIs(chars, dimX, dimY, x, y, word[i]) <==> chars[PosToIndex(dimX, x, y)] == word[i];
        if PosInbound(x - 1, y + 1, dimX, dimY) {
          CheckDownLeftMeaning(chars, dimX, dimY, x - 1, y + 1, i + 1, word);
        } else if i + 1 < |word| {
          assert !CellIs(chars, dimX, dimY, x - (i + 1 - i), y + (i + 1 - i), word[i + 1]);
        }
      }
    }
  }

  /** The same characterisation for the down-right walk. */
  lemma {:induction false} CheckDownRightMeaning(chars: string, dimX: int, dimY: int, x: int, y: int, i: nat, word: string)
    requires i < |word| ==> PosInbound(x, y, dimX, dimY)
    ensures dimX * dimY <= |chars| ==> CheckDownRight(chars, dimX, dimY, x, y, i, word).Success?
    ensures CheckDownRight(chars, dimX, dimY, x, y, i, word).Success? ==>
      (CheckDownRight(chars, dimX, dimY, x, y, i, word).value <==>
       forall k :: i <= k < |word| ==> CellIs(chars, dimX, dimY, x + (k - i), y + (k - i), word[k]))
    decreases |word| - i
  {
    if i < |word| {
      InboundIndex(x, y, dimX, dimY);
      if PosToIndex(dimX, x, y) < |chars| {
        assert CellIs(chars, dimX, dimY, x, y, word[i]) <==> chars[PosToIndex(dimX, x, y)] == word[i];
        if PosInbound(x + 1, y + 1, dimX, dimY) {
          CheckDownRightMeaning(chars, dimX, dimY, x + 1, y + 1, i + 1, word);
        } else if i + 1 < |word| {
          assert !CellIs(chars, dimX, dimY, x + (i + 1 - i), y + (i + 1 - i), word[i + 1]);
        }
      }
    }
  }

  /**
   * Walking from (x, y) in steps of (dx, dy), the characters of word from
   * i up to k are on the grid and inside the buffer as word has them, and
   * the cell for character k is on the grid but past the end of the buffer.
   */
  ghost predicate StopsPastBuffer(chars: string, dimX: int, dimY: int, x: int, y: int, dx: int, dy: int, word: string, i: nat, k: int)
  {
    i <= k < |word| && PosInbound(x + (k - i) * dx, y + (k - i) * dy, dimX, dimY)
    && PosToIndex(dimX, x + (k - i) * dx, y + (k - i) * dy) >= |chars|
    && forall j :: i <= j < k ==> CellIs(chars, dimX, dimY, x + (j - i) * dx, y + (j - i) * dy, word[j])
  }

  /** A walk that stops past the buffer starts on the grid, and with a match when it stops later. */
  lemma StopsStart(chars: string, dimX: int, dimY: int, x: int, y: int, dx: int, dy: int, word: string, i: nat, k: int)
    requires StopsPastBuffer(chars, dimX, dimY, x, y, dx, dy, word, i, k)
    ensures PosInbound(x, y, dimX, dimY)
    ensures k > i ==> CellIs(chars, dimX, dimY, x, y, word[i])
  {
    if k > i {
      assert CellIs(chars, dimX, dimY, x + (i - i) * dx, y + (i - i) * dy, word[i]);
    }
  }

  /** Stopping past the buffer after the first step is matching the first cell and stopping from the next one. */
  lemma StopsShift(chars: string, dimX: int, dimY: int, x: int, y: int, dx: int, dy: int, word: string, i: nat, k: int)
    requires (dx == -1 || dx == 1) && dy == 1 && i < k < |word|
    ensures StopsPastBuffer(chars, dimX, dimY, x, y, dx, dy, word, i, k) <==>
      CellIs(chars, dimX, dimY, x, y, word[i]) && StopsPastBuffer(chars, dimX, dimY, x + dx, y + dy, dx, dy, word, i + 1, k)
  {
    if StopsPastBuffer(chars, dimX, dimY, x, y, dx, dy, word, i, k) {
      StopsStart(chars, dimX, dimY, x, y, dx, dy, word, i, k);
      assert x + dx + (k - (i + 1)) * dx == x + (k - i) * dx;
      forall j | i + 1 <= j < k
        ensures CellIs(chars, dimX, dimY, x + dx + (j - (i + 1)) * dx, y + dy + (j - (i + 1)) * dy, word[j])
      {
        assert x + dx + (j - (i + 1)) * dx == x + (j - i) * dx;
      }
    }
    if CellIs(chars, dimX, dimY, x, y, word[i]) && StopsPastBuffer(chars, dimX, dimY, x + dx, y + dy, dx, dy, word, i + 1, k) {
      assert x + dx + (k - (i + 1)) * dx == x + (k - i) * dx;
      forall j | i <= j < k
        ensures CellIs(chars, dimX, dimY, x + (j - i) * dx, y + (j - i) * dy, word[j])
      {
        if j > i {
          assert x + dx + (j - (i + 1)) * dx == x + (j - i) * dx;
          assert CellIs(chars, dimX, dimY, x + dx + (j - (i + 1)) * dx, y + dy + (j - (i + 1)) * dy, word[j]);
        }
      }
    }
  }

  /**
   * From a cell of the grid inside the buffer, a walk stops past the
   * buffer exactly when the cell matches, the next one is on the grid and
   * the walk stops past the buffer from there.
   */
  lemma StopsStep(chars: string, dimX: int, dimY: int, x: int, y: int, dx: int, word: string, i: nat, x': int, y': int, i': nat)
    requires (dx == -1 || dx == 1) && i < |word| && x' == x + dx && y' == y + 1 && i' == i + 1
    requires PosInbound(x, y, dimX, dimY) && PosToIndex(dimX, x, y) < |chars|
    ensures (exists k :: StopsPastBuffer(chars, dimX, dimY, x, y, dx, 1, word, i, k)) <==>
      chars[PosToIndex(dimX, x, y)] == word[i] && PosInbound(x', y', dimX, dimY)
      && exists k :: StopsPastBuffer(chars, dimX, dimY, x', y', dx, 1, word, i', k)
  {
    forall k | StopsPastBuffer(chars, dimX, dimY, x, y, dx, 1, word, i, k)
      ensures k > i && CellIs(chars, dimX, dimY, x, y, word[i])
      ensures StopsPastBuffer(chars, dimX, dimY, x', y', dx, 1, word, i', k)
      ensures PosInbound(x', y', dimX, dimY)
    {
      StopsShift(chars, dimX, dimY, x, y, dx, 1, word, i, k);
      StopsStart(chars, dimX, dimY, x', y', dx, 1, word, i', k);
    }
    forall k | StopsPastBuffer(chars, dimX, dimY, x', y', dx, 1, word, i', k) && CellIs(chars, dimX, dimY, x, y, word[i])
      ensures StopsPastBuffer(chars, dimX, dimY, x, y, dx, 1, word, i, k)
    {
      StopsShift(chars, dimX, dimY, x, y, dx, 1, word, i, k);
    }
  }

  /** The down-left walk fails exactly when it reaches a cell past the buffer before any mismatch. */
  lemma {:induction false} CheckDownLeftFails(chars: string, dimX: int, dimY: int, x: int, y: int, i: nat, word: string)
    requires i < |word| ==> PosInbound(x, y, dimX, dimY)
    ensures CheckDownLeft(chars, dimX, dimY, x, y, i, word).Failure? <==>
      exists k :: StopsPastBuffer(chars, dimX, dimY, x, y, -1, 1, word, i, k)
    decreases |word| - i
  {
    if i < |word| {
      InboundIndex(x, y, dimX, dimY);
      if PosToIndex(dimX, x, y) >= |chars| {
        assert StopsPastBuffer(chars, dimX, dimY, x, y, -1, 1, word, i, i);
      } else {
        StopsStep(chars, dimX, dimY, x, y, -1, word, i, x - 1, y + 1, i + 1);
        if chars[PosToIndex(dimX, x, y)] == word[i] && PosInbound(x - 1, y + 1, dimX, dimY) {
          assert CheckDownLeft(chars, dimX, dimY, x, y, i, word) == CheckDownLeft(chars, dimX, dimY, x - 1, y + 1, i + 1, word);
          CheckDownLeftFails(chars, dimX, dimY, x - 1, y + 1, i + 1, word);
        }
      }
    }
  }

  /** The same characterisation of failure for the down-right walk. */
  lemma {:induction false} CheckDownRightFails(chars: string, dimX: int, dimY: int, x: int, y: int, i: nat, word: string)
    requires i < |word| ==> PosInbound(x, y, dimX, dimY)
    ensures CheckDownRight(chars, dimX, dimY, x, y, i, word).Failure? <==>
      exists k :: StopsPastBuffer(chars, dimX, dimY, x, y, 1, 1, word, i, k)
    decreases |word| - i
  {
    if i < |word| {
      InboundIndex(x, y, dimX, dimY);
      if PosToIndex(dimX, x, y) >= |chars| {
        assert StopsPastBuffer(chars, dimX, dimY, x, y, 1, 1, word, i, i);
      } else {
        StopsStep(chars, dimX, dimY, x, y, 1, word, i, x + 1, y + 1, i + 1);
        if chars[PosToIndex(dimX, x, y)] == word[i] && PosInbound(x + 1, y + 1, dimX, dimY) {
          assert CheckDownRight(chars, dimX, dimY, x, y, i, word) == CheckDownRight(chars, dimX, dimY, x + 1, y + 1, i + 1, word);
          CheckDownRightFails(chars, dimX, dimY, x + 1, y + 1, i + 1, word);
        }
      }
    }
  }

  /**
   * Index p lies past the last row of the grid, and word is the one
   * character found there: a walk started there reads that character and
   * stops, as its next step leaves the grid.
   */
  predicate PastGridMatch(chars: string, dimX: int, dimY: int, word: string, p: int)
  {
    0 <= p && dimX * dimY <= p < |chars| && |word| == 1 && chars[p] == word[0]
  }

  /** word reads down and to the left from index p, or is the one character at p past the grid. */
  ghost predicate DownLeftAt(chars: string, dimX: int, dimY: int, word: string, p: int)
    requires dimX > 0 && p >= 0
  {
    MatchesAlong(chars, dimX, dimY, IndexToPos(p, dimX).0, IndexToPos(p, dimX).1, -1, 1, word)
    || PastGridMatch(chars, dimX, dimY, word, p)
  }

  /** word reads down and to the right from index p, or is the one character at p past the grid. */
  ghost predicate DownRightAt(chars: string, dimX: int, dimY: int, word: string, p: int)
    requires dimX > 0 && p >= 0
  {
    MatchesAlong(chars, dimX, dimY, IndexToPos(p, dimX).0, IndexToPos(p, dimX).1, 1, 1, word)
    || PastGridMatch(chars, dimX, dimY, word, p)
  }

  /** Index p anchors a diagonal occurrence of word. */
  ghost predicate DiagonalAt(chars: string, dimX: int, dimY: int, word: string, p: int)
    requires dimX > 0 && p >= 0
  {
    DownLeftAt(chars, dimX, dimY, word, p) || DownRightAt(chars, dimX, dimY, word, p)
  }

  /** Started below the last row, either walk reads only its first character. */
  lemma ChecksPastGrid(chars: string, dimX: int, dimY: int, x: int, y: int, word: string)
    requires y >= dimY && 0 <= PosToIndex(dimX, x, y) < |chars| && word != []
    ensures CheckDownLeft(chars, dimX, dimY, x, y, 0, word) == Success(|word| == 1 && chars[PosToIndex(dimX, x, y)] == word[0])
    ensures CheckDownRight(chars, dimX, dimY, x, y, 0, word) == Success(|word| == 1 && chars[PosToIndex(dimX, x, y)] == word[0])
  {
  }

  /**
   * Both walks, started at an index of the buffer and not failing, are the
   * diagonal matches there; neither fails when the buffer holds the grid.
   */
  lemma ChecksMeaning(chars: string, dimX: int, dimY: int, word: string, p: int)
    requires dimX > 0 && 0 <= p < |chars|
    ensures dimX * dimY <= |chars| ==>
      CheckDownLeft(chars, dimX, dimY, IndexToPos(p, dimX).0, IndexToPos(p, dimX).1, 0, word).Success?
      && CheckDownRight(chars, dimX, dimY, IndexToPos(p, dimX).0, IndexToPos(p, dimX).1, 0, word).Success?
    ensures CheckDownLeft(chars, dimX, dimY, IndexToPos(p, dimX).0, IndexToPos(p, dimX).1, 0, word).Success? ==>
      (CheckDownLeft(chars, dimX, dimY, IndexToPos(p, dimX).0, IndexToPos(p, dimX).1, 0, word).value
       <==> DownLeftAt(chars, dimX, dimY, word, p))
    ensures CheckDownRight(chars, dimX, dimY, IndexToPos(p, dimX).0, IndexToPos(p, dimX).1, 0, word).Success? ==>
      (CheckDownRight(chars, dimX, dimY, IndexToPos(p, dimX).0, IndexToPos(p, dimX).1, 0, word).value
       <==> DownRightAt(chars, dimX, dimY, word, p))
  {
    IndexInbound(p, dimX, dimY);
    var (x, y) := IndexToPos(p, dimX);
    if p < dimX * dimY {
      CheckDownLeftMeaning(chars, dimX, dimY, x, y, 0, word);
      CheckDownRightMeaning(chars, dimX, dimY, x, y, 0, word);
    } else if word != [] {
      ChecksPastGrid(chars, dimX, dimY, x, y, word);
      assert !CellIs(chars, dimX, dimY, x + 0 * -1, y + 0 * 1, word[0]);
      assert !CellIs(chars, dimX, dimY, x + 0 * 1, y + 0 * 1, word[0]);
    }
  }

  /**
   * Started at an index of the buffer, each walk fails exactly when it
   * reaches a cell of the grid past the end of the buffer before any
   * mismatch.
   */
  lemma ChecksFail(chars: string, dimX: int, dimY: int, word: string, p: int)
    requires dimX > 0 && 0 <= p < |chars|
    ensures CheckDownLeft(chars, dimX, dimY, IndexToPos(p, dimX).0, IndexToPos(p, dimX).1, 0, word).Failure? <==>
      exists k :: StopsPastBuffer(chars, dimX, dimY, IndexToPos(p, dimX).0, IndexToPos(p, dimX).1, -1, 1, word, 0, k)
    ensures CheckDownRight(chars, dimX, dimY, IndexToPos(p, dimX).0, IndexToPos(p, dimX).1, 0, word).Failure? <==>
      exists k :: StopsPastBuffer(chars, dimX, dimY, IndexToPos(p, dimX).0, IndexToPos(p, dimX).1, 1, 1, word, 0, k)
  {
    IndexInbound(p, dimX, dimY);
    var x, y := IndexToPos(p, dimX).0, IndexToPos(p, dimX).1;
    if p < dimX * dimY {
      CheckDownLeftFails(chars, dimX, dimY, x, y, 0, word);
      CheckDownRightFails(chars, dimX, dimY, x, y, 0, word);
    } else if word != [] {
      ChecksPastGrid(chars, dimX, dimY, x, y, word);
      assert forall k :: !StopsPastBuffer(chars, dimX, dimY, x, y, -1, 1, word, 0, k);
      assert forall k :: !StopsPastBuffer(chars, dimX, dimY, x, y, 1, 1, word, 0, k);
    }
  }

  /** A diagonal occurrence starts with the anchor's own character, so the first-letter test loses nothing. */
  lemma DiagonalStartsWithAnchor(chars: string, dimX: int, dimY: int, word: string, p: int)
    requires dimX > 0 && 0 <= p && word != []
    ensures DiagonalAt(chars, dimX, dimY, word, p) ==> p < |chars| && chars[p] == word[0]
  {
    var x, y := IndexToPos(p, dimX).0, IndexToPos(p, dimX).1;
    if MatchesAlong(chars, dimX, dimY, x, y, -1, 1, word) {
      assert CellIs(chars, dimX, dimY, x + 0 * -1, y + 0 * 1, word[0]);
    }
    if MatchesAlong(chars, dimX, dimY, x, y, 1, 1, word) {
      assert CellIs(chars, dimX, dimY, x + 0 * 1, y + 0 * 1, word[0]);
    }
  }

  /**
   * The inner loop of `FindDiagonal` from index i on: its first diagonal
   * match, DownLeft before DownRight, or the failure of the first walk
   * that reads past the buffer.
   */
  function FirstDiagonal(word: string, chars: string, dimX: int, dimY: int, i: nat): Result<seq<FindResult>, SearchError>
    requires word != [] && dimX > 0 && i <= |chars|
    decreases |chars| - i
  {
    if i == |chars| then Success([])
    else if chars[i] != word[0] then FirstDiagonal(word, chars, dimX, dimY, i + 1)
    else
      var (x, y) := IndexToPos(i, dimX);
      var left := CheckDownLeft(chars, dimX, dimY, x, y, 0, word);
      if left.Failure? then Failure(left.error)
      else if left.value then Success([FindResult(i, DownLeft, word)])
      else
        var right := CheckDownRight(chars, dimX, dimY, x, y, 0, word);
        if right.Failure? then Failure(right.error)
        else if right.value then Success([FindResult(i, DownRight, word)])
        else FirstDiagonal(word, chars, dimX, dimY, i + 1)
  }

  /**
   * When the scan does not fail, it reports nothing exactly when no index
   * from i on anchors a diagonal occurrence; otherwise it reports the
   * least such anchor, with DownLeft when that direction matches there and
   * DownRight otherwise. It does not fail when the buffer holds the grid.
   */
  lemma {:induction false} FirstDiagonalMeaning(word: string, chars: string, dimX: int, dimY: int, i: nat)
    requires word != [] && dimX > 0 && i <= |chars|
    ensures dimX * dimY <= |chars| ==> FirstDiagonal(word, chars, dimX, dimY, i).Success?
    ensures FirstDiagonal(word, chars, dimX, dimY, i).Success? ==>
      (FirstDiagonal(word, chars, dimX, dimY, i).value == [] <==>
       forall p :: i <= p < |chars| ==> !DiagonalAt(chars, dimX, dimY, word, p))
    ensures FirstDiagonal(word, chars, dimX, dimY, i).Success? && FirstDiagonal(word, chars, dimX, dimY, i).value != [] ==>
      var r := FirstDiagonal(word, chars, dimX, dimY, i).value;
      |r| == 1 && r[0].word == word && i <= r[0].pos < |chars|
      && DiagonalAt(chars, dimX, dimY, word, r[0].pos)
      && r[0].direction == (if DownLeftAt(chars, dimX, dimY, word, r[0].pos) then DownLeft else DownRight)
      && forall p :: i <= p < r[0].pos ==> !DiagonalAt(chars, dimX, dimY, word, p)
    decreases |chars| - i
  {
    if i < |chars| {
      FirstDiagonalMeaning(word, chars, dimX, dimY, i + 1);
      if chars[i] != word[0] {
        DiagonalStartsWithAnchor(chars, dimX, dimY, word, i);
        assert !DiagonalAt(chars, dimX, dimY, word, i);
      } else {
        ChecksMeaning(chars, dimX, dimY, word, i);
        assert DiagonalAt(chars, dimX, dimY, word, i) <==>
          DownLeftAt(chars, dimX, dimY, word, i) || DownRightAt(chars, dimX, dimY, word, i);
      }
    }
  }

  /** What `FindDiagonal` returns for the words ws: the first failure, or one result list for all of them. */
  function DiagonalResults(ws: seq<string>, chars: string, dimX: int, dimY: int): Result<seq<FindResult>, SearchError>
    requires NonEmptyWords(ws)
    requires dimX > 0
    decreases |ws|
  {
    if ws == [] then Success([])
    else
      var init := DiagonalResults(ws[..|ws| - 1], chars, dimX, dimY);
      var found := FirstDiagonal(ws[|ws| - 1], chars, dimX, dimY, 0);
      if init.Failure? then init
      else if found.Failure? then found
      else Success(init.value + found.value)
  }

  /** The search over the words fails exactly when the scan for one of them does. */
  lemma {:induction false} DiagonalResultsFailure(ws: seq<string>, chars: string, dimX: int, dimY: int)
    requires NonEmptyWords(ws)
    requires dimX > 0
    ensures DiagonalResults(ws, chars, dimX, dimY).Failure? <==>
      exists w :: w in ws && FirstDiagonal(w, chars, dimX, dimY, 0).Failure?
    decreases |ws|
  {
    if ws != [] {
      var init, word := ws[..|ws| - 1], ws[|ws| - 1];
      assert ws == init + [word];
      DiagonalResultsFailure(init, chars, dimX, dimY);
      assert forall w :: w in init ==> w in ws;
      assert word in ws;
      assert forall w :: w in ws ==> w in init || w == word;
    }
  }

  /**
   * When the search does not fail, every diagonal result is for one of
   * the words and sits at the least anchor of a diagonal occurrence of
   * its word, with DownLeft when that direction matches there and
   * DownRight otherwise. It does not fail when the buffer holds the grid.
   */
  lemma {:induction false} DiagonalResultsSound(ws: seq<string>, chars: string, dimX: int, dimY: int)
    requires NonEmptyWords(ws)
    requires dimX > 0
    ensures dimX * dimY <= |chars| ==> DiagonalResults(ws, chars, dimX, dimY).Success?
    ensures DiagonalResults(ws, chars, dimX, dimY).Success? ==>
      (forall r :: r in DiagonalResults(ws, chars, dimX, dimY).value ==>
         r.word in ws && 0 <= r.pos < |chars| && DiagonalAt(chars, dimX, dimY, r.word, r.pos)
         && r.direction == (if DownLeftAt(chars, dimX, dimY, r.word, r.pos) then DownLeft else DownRight)
         && forall p :: 0 <= p < r.pos ==> !DiagonalAt(chars, dimX, dimY, r.word, p))
      && |DiagonalResults(ws, chars, dimX, dimY).value| <= |ws|
    decreases |ws|
  {
    if ws != [] {
      var init, word := ws[..|ws| - 1], ws[|ws| - 1];
      assert ws == init + [word];
      DiagonalResultsSound(init, chars, dimX, dimY);
      FirstDiagonalMeaning(word, chars, dimX, dimY, 0);
    }
  }

  /** When the search does not fail, a word gets a diagonal result exactly when some index anchors a diagonal occurrence of it. */
  lemma {:induction false} DiagonalResultsComplete(ws: seq<string>, chars: string, dimX: int, dimY: int, w: string)
    requires NonEmptyWords(ws)
    requires dimX > 0
    requires w in ws
    ensures DiagonalResults(ws, chars, dimX, dimY).Success? ==>
      ((exists r :: r in DiagonalResults(ws, chars, dimX, dimY).value && r.word == w) <==>
       exists p :: 0 <= p < |chars| && DiagonalAt(chars, dimX, dimY, w, p))
    decreases |ws|
  {
    var init, word := ws[..|ws| - 1], ws[|ws| - 1];
    assert ws == init + [word];
    var all := DiagonalResults(ws, chars, dimX, dimY);
    var found := FirstDiagonal(word, chars, dimX, dimY, 0);
    if all.Success? {
      assert all.value == DiagonalResults(init, chars, dimX, dimY).value + found.value;
      FirstDiagonalMeaning(word, chars, dimX, dimY, 0);
      if w == word {
        if found.value != [] {
          assert found.value[0] in all.value;
        } else {
          DiagonalResultsSound(init, chars, dimX, dimY);
        }
      } else {
        assert w in init;
        DiagonalResultsComplete(init, chars, dimX, dimY, w);
      }
    }
  }

  /** With distinct words, no word gets two diagonal results. */
  lemma {:induction false} DiagonalResultsDistinct(ws: seq<string>, chars: string, dimX: int, dimY: int)
    requires NonEmptyWords(ws) && NoDuplicates(ws)
    requires dimX > 0
    ensures DiagonalResults(ws, chars, dimX, dimY).Success? ==> DistinctWords(DiagonalResults(ws, chars, dimX, dimY).value)
    decreases |ws|
  {
    if ws != [] {
      var init, word := ws[..|ws| - 1], ws[|ws| - 1];
      assert ws == init + [word];
      DiagonalResultsDistinct(init, chars, dimX, dimY);
      DiagonalResultsSound(init, chars, dimX, dimY);
      FirstDiagonalMeaning(word, chars, dimX, dimY, 0);
      assert forall i :: 0 <= i < |init| ==> init[i] != word;
    }
  }

  /** Once the search fails on a prefix of the words, it fails on all of them. */
  lemma {:induction false} DiagonalResultsFailurePersists(ws: seq<string>, chars: string, dimX: int, dimY: int, n: nat)
    requires NonEmptyWords(ws)
    requires dimX > 0 && n <= |ws|
    requires DiagonalResults(ws[..n], chars, dimX, dimY).Failure?
    ensures DiagonalResults(ws, chars, dimX, dimY).Failure?
    decreases |ws|
  {
    if n < |ws| {
      var init := ws[..|ws| - 1];
      assert init[..n] == ws[..n];
      DiagonalResultsFailurePersists(init, chars, dimX, dimY, n);
    } else {
      assert ws[..n] == ws;
    }
  }

  // ---------------------------------------------------------------------
  // The whole search
  // ---------------------------------------------------------------------

  /**
   * What `FindAll` returns: the straight results, then the diagonal ones
   * when those are searched; a failing diagonal search discards both.
   */
  function SearchResults(ws: seq<string>, chars: string, x: int, y: int, diagonal: bool): Result<seq<FindResult>, SearchError>
    requires NonEmptyWords(ws)
  {
    if x <= 1 || y <= 1 || !diagonal then Success(StraightResults(ws, chars))
    else
      var found := DiagonalResults(ws, chars, x, y);
      if found.Failure? then Failure(found.error)
      else Success(StraightResults(ws, chars) + found.value)
  }

  /** r is a real occurrence of its word along its direction. */
  ghost predicate Spells(chars: string, dimX: int, dimY: int, r: FindResult)
  {
    match r.direction
    case Right => OccursAt(chars, r.word, r.pos)
    case DownLeft => dimX > 0 && r.pos >= 0 && DownLeftAt(chars, dimX, dimY, r.word, r.pos)
    case DownRight => dimX > 0 && r.pos >= 0 && DownRightAt(chars, dimX, dimY, r.word, r.pos)
    case _ => false
  }

  /**
   * Every result of a search that does not fail is for a stored word, is
   * anchored inside the buffer and spells its word along its direction:
   * across the flat buffer for Right, on the grid for the diagonals. The
   * search fails only when it is diagonal and the buffer is shorter than
   * the grid.
   */
  lemma SearchResultsSound(ws: seq<string>, chars: string, x: int, y: int, diagonal: bool)
    requires NonEmptyWords(ws)
    ensures SearchResults(ws, chars, x, y, diagonal).Success? ==>
      forall r :: r in SearchResults(ws, chars, x, y, diagonal).value ==>
        r.word in ws && 0 <= r.pos < |chars| && Spells(chars, x, y, r)
    ensures SearchResults(ws, chars, x, y, diagonal).Failure? ==>
      diagonal && x > 1 && y > 1 && |chars| < x * y
  {
    StraightResultsMeaning(ws, chars);
    if !(x <= 1 || y <= 1 || !diagonal) {
      DiagonalResultsSound(ws, chars, x, y);
    }
  }

  // ---------------------------------------------------------------------
  // The engine object
  // ---------------------------------------------------------------------

  /** The search engine; it owns the normalised word list `_words`. */
  class WordFinder {
    var words: seq<string>

    /** The stored words are distinct and none is empty or blank. */
    ghost predicate Valid()
      reads this
    {
      NoDuplicates(words) && forall i :: 0 <= i < |words| ==> !IsNullOrWhiteSpace(words[i])
    }

    /** The engine built from the pieces of a parsed word file. */
    constructor (pieces: seq<string>, minLetter: int)
      ensures Valid()
      ensures forall w :: w in words ==> w in pieces && Keeps(w, minLetter)
      ensures forall p :: p in pieces && Keeps(p, minLetter) ==> p in words
    {
      words := [];
      new;
      VerifyAndSet(pieces, minLetter);
    }

    /** The constructor on the text of the word file, failing on an empty file as the program throws. */
    static method Create(text: string, minLetter: int) returns (r: Result<WordFinder, ParseError>)
      ensures r.Failure? <==> text == []
      ensures r.Failure? ==> r.error == EmptyWordFile
      ensures r.Success? ==> fresh(r.value) && r.value.Valid()
      ensures r.Success? ==> Parse(text).Success?
      ensures r.Success? ==> forall w :: w in r.value.words ==> w in Parse(text).value && Keeps(w, minLetter)
      ensures r.Success? ==> forall p :: p in Parse(text).value && Keeps(p, minLetter) ==> p in r.value.words
    {
      var parsed := Parse(text);
      if parsed.Failure? {
        return Failure(parsed.error);
      }
      var finder := new WordFinder(parsed.value, minLetter);
      return Success(finder);
    }

    /**
     * Keeps the pieces that are not blank and have at least minLetter
     * characters, each once; the order of the stored words is left open,
     * as the order of a hash set is.
     */
    method VerifyAndSet(pieces: seq<string>, minLetter: int)
      modifies this
      ensures Valid()
      ensures forall w :: w in words ==> w in pieces && Keeps(w, minLetter)
      ensures forall p :: p in pieces && Keeps(p, minLetter) ==> p in words
    {
      var tmp: seq<string> := [];
      for n := 0 to |pieces|
        invariant NoDuplicates(tmp)
        invariant forall w :: w in tmp ==> w in pieces[..n] && Keeps(w, minLetter)
        invariant forall p :: p in pieces[..n] && Keeps(p, minLetter) ==> p in tmp
      {
        var word := pieces[n];
        assert pieces[..n + 1] == pieces[..n] + [word];
        if IsNullOrWhiteSpace(word) {
          continue;
        }
        if |word| < minLetter {
          continue;
        }
        if word !in tmp {
          tmp := tmp + [word];
        }
      }
      assert pieces[..|pieces|] == pieces;
      assert forall i :: 0 <= i < |tmp| ==> tmp[i] in tmp;
      words := tmp;
    }

    /** One Right result per word, at the word's first occurrence in the flat buffer. */
    method FindStraight(chars: string) returns (results: seq<FindResult>)
      ensures results == StraightResults(words, chars)
    {
      results := [];
      for n := 0 to |words|
        invariant results == StraightResults(words[..n], chars)
      {
        var word := words[n];
        assert words[..n + 1][..n] == words[..n];
        var index := IndexOf(chars, word);
        if index == -1 {
          continue;
        }
        results := results + [FindResult(index, Right, word)];
      }
      assert words[..|words|] == words;
    }

    /**
     * One result per word at its first diagonal anchor, trying DownLeft
     * before DownRight; a walk that reads past the buffer ends the search
     * with a failure, as its exception does.
     */
    method FindDiagonal(chars: string, dimX: int, dimY: int) returns (r: Result<seq<FindResult>, SearchError>)
      requires Valid()
      requires dimX > 0
      ensures r == DiagonalResults(words, chars, dimX, dimY)
    {
      var results := [];
      for n := 0 to |words|
        invariant DiagonalResults(words[..n], chars, dimX, dimY) == Success(results)
      {
        var word := words[n];
        assert words[..n + 1][..n] == words[..n];
        ghost var before := results;
        assert before + [] == before;
        var firstChar := word[0];
        for i := 0 to |chars|
          invariant results == before
          invariant FirstDiagonal(word, chars, dimX, dimY, i) == FirstDiagonal(word, chars, dimX, dimY, 0)
        {
          var c := chars[i];
          if c != firstChar {
            continue;
          }
          var (x, y) := IndexToPos(i, dimX);
          var left := CheckDownLeft(chars, dimX, dimY, x, y, 0, word);
          if left.Failure? {
            assert FirstDiagonal(word, chars, dimX, dimY, i).Failure?;
            assert words[..n + 1][n] == word;
            DiagonalResultsFailurePersists(words, chars, dimX, dimY, n + 1);
            assert left.error == DiagonalResults(words, chars, dimX, dimY).error;
            return Failure(left.error);
          }
          if left.value {
            assert FirstDiagonal(word, chars, dimX, dimY, i) == Success([FindResult(i, DownLeft, word)]);
            results := results + [FindResult(i, DownLeft, word)];
            assert DiagonalResults(words[..n + 1], chars, dimX, dimY) == Success(results);
            break;
          }
          var right := CheckDownRight(chars, dimX, dimY, x, y, 0, word);
          if right.Failure? {
            assert FirstDiagonal(word, chars, dimX, dimY, i).Failure?;
            assert words[..n + 1][n] == word;
            DiagonalResultsFailurePersists(words, chars, dimX, dimY, n + 1);
            assert right.error == DiagonalResults(words, chars, dimX, dimY).error;
            return Failure(right.error);
          }
          if !right.value {
            continue;
          }
          assert FirstDiagonal(word, chars, dimX, dimY, i) == Success([FindResult(i, DownRight, word)]);
          results := results + [FindResult(i, DownRight, word)];
          assert DiagonalResults(words[..n + 1], chars, dimX, dimY) == Success(results);
          break;
        }
      }
      assert words[..|words|] == words;
      return Success(results);
    }

    /**
     * The straight search, followed by the diagonal one on a grid of at
     * least 2 by 2 when it is asked for; a failing diagonal search fails
     * the whole call.
     */
    method FindAll(chars: string, x: int, y: int, diagonal: bool) returns (r: Result<seq<FindResult>, SearchError>)
      requires Valid()
      ensures r == SearchResults(words, chars, x, y, diagonal)
    {
      if x <= 1 || y <= 1 || !diagonal {
        var straight := FindStraight(chars);
        return Success(straight);
      }
      var straight := FindStraight(chars);
      var diagonals := FindDiagonal(chars, x, y);
      if diagonals.Failure? {
        return Failure(diagonals.error);
      }
      return Success(straight + diagonals.value);
    }
  }
}
