# WordFinder search engine in Dafny

WordFinder is a command-line word-search solver. It reads a word file and asks for a string of
characters, which it treats as a row-major grid of a given width and height. It then reports where
each word occurs, draws the characters as a heat map coloured by how many matches cover each one,
and lists the matches. This project models the parts of the program that compute these results:

- **Normalising the word file** (module `WordFinder`).
  - `Parse` lower-cases the text, refuses an empty file and splits the text on `\n` and `\r`,
    dropping empty pieces.
  - The `WordFinder` class keeps the pieces that are not blank and have at least `minLetter`
    characters, each once, in its `words` field (`_words` in the program).
- **The search** (module `WordFinder`).
  - `FindStraight` reports each word at its first occurrence in the flat buffer, always with
    direction `Right`.
  - `FindDiagonal` runs only on a grid at least 2 by 2 with the diagonal flag set. For each word it
    scans the anchors that hold the word's first letter, then walks down-left and down-right with
    `CheckDownLeft` / `CheckDownRight`.
    - It stops at the first anchor where a walk succeeds, and prefers DownLeft.
    - A walk succeeds when the word's last character lands on the grid, even if the next step would
      leave it.
    - A walk that reaches a grid cell past the end of the buffer reads out of range. The program
      throws there; the model returns `Failure(IndexOutOfRange)`, and the whole search fails.
  - `FindAll` returns the straight results, followed by the diagonal ones when those are searched,
    or the diagonal search's failure.
- **Grid coordinates** (module `WordFinderHelper`): `PosInbound`, `PosToIndex` and `IndexToPos`.
- **The heat map and its colours** (module `WordFinderApp`).
  - `BuildCharHeatmap` fills an `int` array as long as the characters. For each match it adds one
    to every cell the match covers, or only to its first cell in minimal mode.
  - It finds the covered cells with a table from direction to step.
  - `GetColorForHeatmapLevel` buckets a count into one of seven colours.
- **Small helpers**:
  - the `ExcludeDirection` flag constants, as 32-bit bit-vectors (module `ExcludeDirection`);
  - their bit test `HasFlagFast` (module `EnumExtension`);
  - the string test `IsAsciiLetter` (module `StringExtension`).
- **Worked searches** (module `WordFinderScenarios`): small grids whose exact results are proved.

The program's documentation describes more than this code does:
- a search in all eight directions;
- horizontal wrap-around;
- a set of excluded directions;
- a search that never lets a horizontal match cross a row.

The code has none of these, and the model follows the code:
- Only Right, DownLeft and DownRight are ever reported.
- A Right match is a substring of the flat buffer, so it may run on into the next row.
  `WordFinderScenarios.RightMatchRunsIntoNextRow` shows one.
- Nothing wraps. `WordFinderScenarios.NoWrapAround` shows this.
- The exclusion flags are declared, but the search never consults them.

Other behaviour the code has that the documentation does not describe:
- The program does not check that the buffer holds exactly width × height characters, and the
  model takes a buffer of any length.
- On a buffer at least that long no walk fails. There an anchor past the last row matches a
  one-letter word as DownLeft, because the walk stops after its first character.
  `WordFinderScenarios.OneLetterPastTheGrid` shows this.
- On a shorter buffer a diagonal walk fails exactly when it reaches a grid cell past the buffer's
  end before any mismatch. `WordFinderScenarios.ShortBufferFailure` shows one failure, and
  `WordFinderScenarios.ShortBufferWithoutFailure` a search on a short buffer that does not fail.
- A lone `\r` separates words as `\n` does. `WordFinderScenarios.CarriageReturnSeparates` shows
  this.

The loops stay loops:
- `VerifyAndSet`, `FindStraight`, `FindDiagonal` and `IsAsciiLetter` are methods with loop
  invariants.
- `BuildCharHeatmap` updates its array in place. Its inner loop is the method `IncrementWalk`.
- `VerifyAndSet` is specified directly: afterwards a word is stored exactly when it is a kept input
  piece, and the stored words are distinct.
- Each of the other methods is proved equal to a function that specifies it, and the properties are
  proved about those functions:
  - `StraightResults` for the straight search;
  - `FirstDiagonal` and `DiagonalResults` for the diagonal search;
  - `SearchResults` for `FindAll`;
  - `Walk`, `Visits` and `Apply` for the heat map;
  - `AllAsciiLetters` for the letter test.

## Model

| member | source | states |
|---|---|---|
| WordFinderHelper.IndexToPos | src/WordFinder/WordFinderHelper.cs:15-18 | for index ≥ 0 and width > 0 the column lies in [0, width) and the row is ≥ 0, and converting back with `PosToIndex` gives the index again |
| WordFinderHelper.PosToIndexRoundTrip | src/WordFinder/WordFinderHelper.cs:10-18 | for 0 ≤ x < width and y ≥ 0, `IndexToPos(PosToIndex(width, x, y), width) == (x, y)` |
| WordFinderHelper.DivModUnique | src/WordFinder/WordFinderHelper.cs:17 | the quotient and remainder are the only pair that rebuilds the index with a remainder in [0, width) |
| WordFinderHelper.InboundIndex | src/WordFinder/WordFinderHelper.cs:5-13 | a cell for which `PosInbound` holds has an index in [0, dimX·dimY) |
| WordFinderHelper.IndexInbound | src/WordFinder/WordFinderHelper.cs:5-18 | a non-negative index converts to a cell inside the grid exactly when it is below dimX·dimY |
| ExcludeDirection.MembersArePowersOfTwo | src/WordFinder/ExcludeDirection.cs:6-13 | there are eight members and each is a single power of two |
| ExcludeDirection.MembersDisjoint | src/WordFinder/ExcludeDirection.cs:6-13 | two different members share no bit |
| ExcludeDirection.BitTwoUnused | src/WordFinder/ExcludeDirection.cs:6-7 | Right is 1 and Left is 4, and no member has the bit of value 2 |
| ExcludeDirection.AllMembers | src/WordFinder/ExcludeDirection.cs:6-13 | the OR of all eight members is 509, below 512 |
| EnumExtension.EmptyHasNoFlag | src/WordFinder/EnumExtension.cs:5-8 | `HasFlagFast(0, d)` is false for every d |
| EnumExtension.HasFlagFastSymmetric | src/WordFinder/EnumExtension.cs:7 | `HasFlagFast(e, d) == HasFlagFast(d, e)` |
| EnumExtension.HasAddedFlag | src/WordFinder/EnumExtension.cs:7 | for a nonzero d, `HasFlagFast(e \| d, d)` holds |
| EnumExtension.DistinctMembersExclusive | src/WordFinder/EnumExtension.cs:5-8 | two different `ExcludeDirection` members never test positive for each other |
| EnumExtension.OrMeets | src/WordFinder/EnumExtension.cs:7 | a flag meets `a \| b` exactly when it meets a or meets b |
| EnumExtension.CombineDecodes | src/WordFinder/ExcludeDirection.cs:3-13 | an OR of chosen members tests positive for a member exactly when that member was chosen |
| EnumExtension.CombineSkipsBitTwo | src/WordFinder/ExcludeDirection.cs:6-7 | no OR of members has the bit of value 2 |
| EnumExtension.CombineInjective | src/WordFinder/ExcludeDirection.cs:3-13 | two different choices of members give different values, so a combination decodes uniquely |
| StringExtension.AllAsciiLettersMeaning | src/WordFinder/StringExtension.cs:5-12 | the reference definition holds exactly when every character is in 'A'..'Z' or 'a'..'z' |
| StringExtension.EmptyIsAsciiLetters | src/WordFinder/StringExtension.cs:7-11 | the empty string passes |
| StringExtension.ConcatIsAsciiLetters | src/WordFinder/StringExtension.cs:7-11 | s + t passes exactly when s and t both pass |
| StringExtension.IsAsciiLetter | src/WordFinder/StringExtension.cs:5-12 | returns the reference definition. It stops at the first non-letter: everything before the stop position is a letter, the character at it is not, and it reaches the end only when the result is true |
| WordFinder.WordLength | src/WordFinder/WordFinder.cs:30 | the length of the longest separator-free prefix: no separator before it, and a separator right after it unless the text ends |
| WordFinder.SplitLines | src/WordFinder/WordFinder.cs:30 | every piece is non-empty, holds no `\n` or `\r`, and is made of characters of the text |
| WordFinder.SplitLinesLosesOnlySeparators | src/WordFinder/WordFinder.cs:30 | the pieces put back together are the text with its separators removed |
| WordFinder.SplitJoinLines | src/WordFinder/WordFinder.cs:30 | splitting non-empty separator-free lines joined with `\n` gives the lines back |
| WordFinder.SplitSkipsSeparators | src/WordFinder/WordFinder.cs:30 | separators in front of a text add no piece: `SplitLines(sep + s) == SplitLines(s)` |
| WordFinder.SplitFirstLine | src/WordFinder/WordFinder.cs:30 | a non-empty separator-free line followed by the end or by either separator, `\n` or `\r`, is the first piece |
| WordFinder.SplitJoinRuns | src/WordFinder/WordFinder.cs:30 | lines joined by any non-empty runs of `\n` and `\r` (a `\r\n`, a lone `\r`, blank lines), with any run before the first and after the last, split back into exactly those lines |
| WordFinder.Parse | src/WordFinder/WordFinder.cs:22-31 | fails, with `EmptyWordFile`, exactly when the text is empty; otherwise every piece is non-empty, has no separator and no upper-case letter |
| WordFinder.ParseJoinLines | src/WordFinder/WordFinder.cs:25-30 | parsing lower-case lines joined with `\n` gives exactly those lines |
| WordFinder.IndexFrom | src/WordFinder/WordFinder.cs:72 | -1 when the word occurs nowhere from start on, otherwise the least such occurrence |
| WordFinder.IndexOf | src/WordFinder/WordFinder.cs:72 | -1 exactly when the word occurs nowhere in the buffer; otherwise an occurrence with none before it |
| WordFinder.StraightResultsMeaning | src/WordFinder/WordFinder.cs:66-80 | each result is Right, for one of the words, at that word's first occurrence. A word gets a result exactly when it occurs. There are at most as many results as words, and distinct words give results for distinct words |
| WordFinder.CheckDownLeftMeaning | src/WordFinder/WordFinder.cs:114-131 | started on the grid, the walk does not fail when the buffer holds the grid. When it does not fail, it succeeds exactly when the remaining characters are on the grid along the down-left diagonal, so leaving the grid just after the last one still succeeds |
| WordFinder.CheckDownRightMeaning | src/WordFinder/WordFinder.cs:133-150 | the same along the down-right diagonal |
| WordFinder.CheckDownLeftFails | src/WordFinder/WordFinder.cs:114-131 | started on the grid, the walk fails with `IndexOutOfRange` exactly when it reaches a grid cell past the end of the buffer while every character before it matched |
| WordFinder.CheckDownRightFails | src/WordFinder/WordFinder.cs:133-150 | the same failure condition along the down-right diagonal |
| WordFinder.ChecksPastGrid | src/WordFinder/WordFinder.cs:114-150 | started below the last row at an index of the buffer, neither walk fails, and each succeeds exactly when the word is the one character at the start |
| WordFinder.ChecksMeaning | src/WordFinder/WordFinder.cs:95-106 | from every index of the buffer neither walk fails when the buffer holds the grid. When they do not fail, the two walks accept exactly the DownLeft and the DownRight occurrences anchored there |
| WordFinder.ChecksFail | src/WordFinder/WordFinder.cs:95-106 | from every index of the buffer, each walk fails exactly when it reaches a grid cell past the buffer's end before any mismatch, so anchors past the last row never fail |
| WordFinder.DiagonalStartsWithAnchor | src/WordFinder/WordFinder.cs:88-93 | a diagonal occurrence starts with the anchor's own character, so skipping other first letters loses nothing |
| WordFinder.FirstDiagonalMeaning | src/WordFinder/WordFinder.cs:89-108 | the scan does not fail when the buffer holds the grid. When it does not fail, it reports nothing exactly when no anchor has a diagonal occurrence; otherwise it reports one result, at the least anchor that has one, DownLeft when that matches there and DownRight otherwise |
| WordFinder.DiagonalResultsSound | src/WordFinder/WordFinder.cs:82-112 | the search does not fail when the buffer holds the grid. When it does not fail, each diagonal result is for one of the words and sits inside the buffer, at the least anchor of a diagonal occurrence, with the preferred direction, and there are at most as many results as words |
| WordFinder.DiagonalResultsComplete | src/WordFinder/WordFinder.cs:82-112 | when the search does not fail, a word gets a diagonal result exactly when some index anchors a diagonal occurrence of it |
| WordFinder.DiagonalResultsDistinct | src/WordFinder/WordFinder.cs:86-108 | when the search does not fail and the words are distinct, no word gets two diagonal results |
| WordFinder.DiagonalResultsFailure | src/WordFinder/WordFinder.cs:82-112 | the search over the words fails exactly when the scan for one of the words fails |
| WordFinder.DiagonalResultsFailurePersists | src/WordFinder/WordFinder.cs:82-112 | a failure on the first n words is a failure of the whole search, as the exception ends the loop |
| WordFinder.SearchResultsSound | src/WordFinder/WordFinder.cs:58-64 | every result of a search that does not fail is for a stored word, is anchored inside the buffer and spells its word in its direction. The search fails only when it is diagonal, on a grid at least 2 by 2, with a buffer shorter than the grid |
| WordFinder.WordFinder.constructor | src/WordFinder/WordFinder.cs:9-18 | the stored words are distinct and not blank. They are exactly the pieces that are not blank and have at least `minLetter` characters |
| WordFinder.WordFinder.Create | src/WordFinder/WordFinder.cs:9-31 | fails with `EmptyWordFile` exactly when the text is empty; otherwise the stored words are exactly the kept pieces of the parsed text |
| WordFinder.WordFinder.VerifyAndSet | src/WordFinder/WordFinder.cs:33-56 | afterwards the words are distinct and not blank. A word is stored exactly when it is an input piece that is not blank and has at least `minLetter` characters |
| WordFinder.WordFinder.FindStraight | src/WordFinder/WordFinder.cs:66-80 | returns the straight results of the stored words |
| WordFinder.WordFinder.FindDiagonal | src/WordFinder/WordFinder.cs:82-112 | returns the diagonal results of the stored words, or `Failure(IndexOutOfRange)` as soon as a walk reads past the buffer |
| WordFinder.WordFinder.FindAll | src/WordFinder/WordFinder.cs:58-64 | returns the straight results when x ≤ 1, y ≤ 1 or the flag is off; otherwise the straight results followed by the diagonal ones, or the diagonal search's failure |
| WordFinderScenarios.OneRowGrid | src/WordFinder/WordFinder.cs:58-80 | in the one-row grid "xatx", "at" is found only to the right from index 1 |
| WordFinderScenarios.NoMatchInSquareGrid | src/WordFinder/WordFinder.cs:58-150 | in the 3-by-3 grid "abcdefghi", "cdg" is not found |
| WordFinderScenarios.NoWrapAround | src/WordFinder/WordFinder.cs:58-150 | in "cat", "tc" is not found |
| WordFinderScenarios.RightMatchRunsIntoNextRow | src/WordFinder/WordFinder.cs:66-80 | in the 2-by-2 grid "abcd", "bc" is found to the right from index 1, across the row end |
| WordFinderScenarios.OneLetterPastTheGrid | src/WordFinder/WordFinder.cs:82-131 | with a 2-by-2 grid over "bbbba", "a" is found at index 4 both to the right and as DownLeft |
| WordFinderScenarios.ShortBufferWithoutFailure | src/WordFinder/WordFinder.cs:58-150 | with a 2-by-2 grid over the two characters "ab", "zz" is searched without failure and not found |
| WordFinderScenarios.ShortBufferFailure | src/WordFinder/WordFinder.cs:58-150 | with the same grid, the search for "ac" fails with `IndexOutOfRange`: its DownRight walk steps to index 3, past the buffer |
| WordFinderScenarios.CarriageReturnSeparates | src/WordFinder/WordFinder.cs:22-31 | the word file "a\rb" parses to the two words "a" and "b" |
| WordFinderApp.GetColorForHeatmapLevel | src/WordFinder/WordFinderApp.cs:139-154 | a colour exists exactly for the non-negative levels |
| WordFinderApp.ColorMatchesLegend | src/WordFinder/WordFinderApp.cs:139-154 | levels 1 to 5 give Aqua, Blue, Green, Yellow and Red and 6 or more gives Purple, the levels the legend at lines 89-96 lists for them; level 0, which the legend does not list, gives Default |
| WordFinderApp.ColorMonotone | src/WordFinder/WordFinderApp.cs:139-154 | a higher level never gets a colour lower in the legend |
| WordFinderApp.StepIsUnitAndDistinct | src/WordFinder/WordFinderApp.cs:165-176 | each direction's step is a unit step other than (0, 0), and no two directions share one |
| WordFinderApp.Walk | src/WordFinder/WordFinderApp.cs:182-189 | the walk visits exactly `count` cells |
| WordFinderApp.WalkAt | src/WordFinder/WordFinderApp.cs:182-189 | the k-th cell visited is `PosToIndex(dimX, x0 + k·dx, y0 + k·dy)` |
| WordFinderApp.ResultCellsAt | src/WordFinder/WordFinderApp.cs:163-189 | a result covers as many cells as its word has characters, or one in minimal mode. Its k-th cell is its anchor, taken through `IndexToPos`, moved k steps in its direction |
| WordFinderApp.RightCellsAreConsecutive | src/WordFinder/WordFinderApp.cs:163-189 | the k-th cell of a Right result is index pos + k, running on into the next row |
| WordFinderApp.MinimalCoversAnchor | src/WordFinder/WordFinderApp.cs:178-185 | in minimal mode a result covers exactly its anchor |
| WordFinderApp.VisitsLength | src/WordFinder/WordFinderApp.cs:161-190 | the results visit as many cells as their counts add up to |
| WordFinderApp.VisitsConcat | src/WordFinder/WordFinderApp.cs:161-190 | the visits of two lists of results are the visits of the first followed by those of the second |
| WordFinderApp.VisitsMember | src/WordFinder/WordFinderApp.cs:161-190 | every visited index is the k-th cell of one of the results |
| WordFinderApp.TotalCellsMinimal | src/WordFinder/WordFinderApp.cs:178-180 | in minimal mode the results cover one cell each |
| WordFinderApp.Zeros | src/WordFinder/WordFinderApp.cs:159 | a fresh map has the given length and every entry 0 |
| WordFinderApp.Apply | src/WordFinder/WordFinderApp.cs:185 | incrementing entries keeps the map's length |
| WordFinderApp.ApplyConcat | src/WordFinder/WordFinderApp.cs:161-190 | applying the visits of a then b is applying a, then b |
| WordFinderApp.ApplyCounts | src/WordFinder/WordFinderApp.cs:185 | each entry grows by the number of times its index is visited |
| WordFinderApp.ApplySum | src/WordFinder/WordFinderApp.cs:185 | each visit adds exactly one to the total of the map |
| WordFinderApp.HeatmapMeaning | src/WordFinder/WordFinderApp.cs:159-192 | when every visit is inside the map, each entry counts the visits of its index and none is negative, so each has a colour. The entries add up to the cells covered, which is the number of results in minimal mode |
| WordFinderApp.IncrementWalk | src/WordFinder/WordFinderApp.cs:182-189 | the inner loop leaves the map as `Apply` of the old map and the walk's cells: each cell of the walk incremented once |
| WordFinderApp.BuildCharHeatmap | src/WordFinder/WordFinderApp.cs:156-193 | returns a new array equal to the zero map of the characters' length with every cell of every result incremented |
| WordFinderApp.CellsOfSoundResult | src/WordFinder/WordFinderApp.cs:182-189 | a result that spells its word in the buffer covers only indices of the buffer |
| WordFinderApp.SearchHeatmapInBounds | src/WordFinder/WordFinderApp.cs:182-189 | for the results of a `FindAll` that does not fail, the heat map visits only indices of the buffer, whatever the buffer's length against the grid |

## Left out

- Reading the word file (src/WordFinder/WordFinder.cs:24-25): `Parse` and `Create` take the text already read, because file I/O is outside the model.
- The progress bar in the constructor and `VerifyAndSet` (src/WordFinder/WordFinder.cs:11-17, 41, 47, 52) is left out: it is display only and does not affect the words.
- WordFinder.Parse: lower-cases ASCII letters only. `ToLowerInvariant`'s full Unicode case mapping is not modelled.
- WordFinder.WordFinder.VerifyAndSet: does not fix the order of the stored words. The program stores them in a `HashSet`, whose order is unspecified, so no contract fixes one either.
- The exception a walk past the buffer raises (src/WordFinder/WordFinder.cs:120, 139) is modelled as `Failure(IndexOutOfRange)`, returned by `FindDiagonal` and `FindAll`. Its message, and `Execute` catching and printing it (src/WordFinder/WordFinderApp.cs:108-115), are not modelled.
- Characters are Unicode scalar values in the model, while a C# string counts UTF-16 code units. Text outside the Basic Multilingual Plane is therefore measured and indexed differently: the `minLetter` length test (src/WordFinder/WordFinder.cs:45), the positions `IndexOf` returns (line 72), the first character `word[0]` (line 88), the scan over `chars.Length` (line 89) and the heat map's length (src/WordFinder/WordFinderApp.cs:159). For text inside that plane the two agree.
- WordFinderApp.BuildCharHeatmap: requires every covered cell to lie inside the array. The program would throw on a cell outside it. `SearchHeatmapInBounds` shows this cannot happen for the results of a search.
- WordFinderHelper.IndexToPos: takes only a non-negative index and a positive width. There C#'s truncating `%` and `/` agree with Dafny's, and the program only converts indices of the buffer.
- 32-bit overflow: integers are unbounded. The program's `int` could overflow in `y * width + x` (src/WordFinder/WordFinderHelper.cs:12) only on grids far beyond a console's size.
- `WordFinderApp.Execute` (src/WordFinder/WordFinderApp.cs:10-116): console output, prompts, tables and error reporting are not modelled. So are its lower-casing of the characters (line 67) and its default size of one row (lines 69-73).
- `DisplayHeatmap` (src/WordFinder/WordFinderApp.cs:118-137) is left out: it only renders the map.
- Parsing the size argument "WxH" (src/WordFinder/WordFinderApp.cs:26-58) is left out as command-line parsing. As written, line 47 parses the width text again for the height, so the grid searched is always square. On characters laid out wider than tall, a diagonal search then treats a buffer shorter than its grid, which the model covers through the failure path above.
- The sort of results by word before display (src/WordFinder/WordFinderApp.cs:75) is a library sort used only for the listing.
- The settings classes (src/WordFinder/WordFinderApp.cs:195-236 and src/WordFinder/WordFinderConfig.cs) are left out: they are attribute-driven command-line settings. Three settings reach modelled code, as parameters: the diagonal switch (`FindAll`'s `diagonal`), the minimal switch (`BuildCharHeatmap`'s `minimal`) and `MinLetter` (src/WordFinder/WordFinderApp.cs:219-222, passed at line 21), which is the `minLetter` of the constructor and `VerifyAndSet`.
- src/WordFinder/Program.cs, the entry point and Ctrl-C handler, is not part of this model.
- The `Direction` enumeration is not among the source files. It is modelled as an eight-valued datatype with the names the code uses.
- `FindResult` (src/WordFinder/FindResult.cs:5-14) is a plain record, modelled as a datatype.
- StringExtension.IsAsciiLetter: "reads nothing past the first non-letter" is stated through the position the loop stops at, not as a record of the characters read.
- The `Words` property (src/WordFinder/WordFinder.cs:20) is the `words` field itself.
