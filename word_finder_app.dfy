/**
 * What the command does with the matches besides printing them: a heat
 * map counting how many matches cover each character, and the colour
 * each count is shown in.
 */
module WordFinderApp {
  import opened Wrappers
  import opened WordFinderHelper
  import opened WordFinder

  // ---------------------------------------------------------------------
  // Colours
  // ---------------------------------------------------------------------

  /** The console colours of the heat map. */
  datatype Color = Default | Aqua | Blue | Green | Yellow | Red | Purple

  /**
   * `GetColorForHeatmapLevel`: six or more is Purple, 0 to 5 have a colour
   * each, and a negative level is the unreachable case (None).
   */
  function GetColorForHeatmapLevel(level: int): (c: Option<Color>)
    ensures c.None? <==> level < 0
  {
    if level >= 6 then Some(Purple)
    else match level
      case 0 => Some(Default)
      case 1 => Some(Aqua)
      case 2 => Some(Blue)
      case 3 => Some(Green)
      case 4 => Some(Yellow)
      case 5 => Some(Red)
      case _ => None
  }

  /** The legend printed under the heat map: the least level shown in each colour. */
  function LegendLevel(c: Color): nat
  {
    match c
    case Default => 0
    case Aqua => 1
    case Blue => 2
    case Green => 3
    case Yellow => 4
    case Red => 5
    case Purple => 6
  }

  /** Every colour is used, and for exactly the levels the legend gives it. */
  lemma ColorMatchesLegend(c: Color, level: int)
    ensures GetColorForHeatmapLevel(LegendLevel(c)) == Some(c)
    ensures GetColorForHeatmapLevel(level) == Some(c) <==>
      (if c == Purple then level >= 6 else level == LegendLevel(c))
  {
  }

  /** More coverage never gives a colour lower in the legend. */
  lemma ColorMonotone(a: int, b: int)
    requires 0 <= a <= b
    ensures LegendLevel(GetColorForHeatmapLevel(a).value) <= LegendLevel(GetColorForHeatmapLevel(b).value)
  {
  }

  // ---------------------------------------------------------------------
  // Cells covered by a match
  // ---------------------------------------------------------------------

  /** The step the heat map takes for each direction, as (dx, dy) with y growing downwards. */
  function Step(d: Direction): (int, int)
  {
    match d
    case Right => (1, 0)
    case Left => (-1, 0)
    case Up => (0, -1)
    case Down => (0, 1)
    case DownLeft => (-1, 1)
    case DownRight => (1, 1)
    case UpLeft => (-1, -1)
    case UpRight => (1, -1)
  }

  /** The table gives each direction its own unit step, never (0, 0). */
  lemma StepIsUnitAndDistinct(a: Direction, b: Direction)
    ensures -1 <= Step(a).0 <= 1 && -1 <= Step(a).1 <= 1 && Step(a) != (0, 0)
    ensures Step(a) == Step(b) ==> a == b
  {
  }

  /** Indices the inner loop increments: count cells from (x, y) in steps of (dx, dy). */
  function Walk(dimX: int, x: int, y: int, dx: int, dy: int, count: nat): (cells: seq<int>)
    ensures |cells| == count
    decreases count
  {
    if count == 0 then []
    else [PosToIndex(dimX, x, y)] + Walk(dimX, x + dx, y + dy, dx, dy, count - 1)
  }

  /** The k-th cell of a walk is the start moved k steps. */
  lemma {:induction false} WalkAt(dimX: int, x: int, y: int, dx: int, dy: int, count: nat, k: nat)
    requires k < count
    ensures Walk(dimX, x, y, dx, dy, count)[k] == PosToIndex(dimX, x + k * dx, y + k * dy)
    decreases count
  {
    if k > 0 {
      WalkAt(dimX, x + dx, y + dy, dx, dy, count - 1, k - 1);
      assert x + dx + (k - 1) * dx == x + k * dx;
      assert y + dy + (k - 1) * dy == y + k * dy;
    }
  }

  /** The results have indices IndexToPos accepts. */
  predicate Placeable(results: seq<FindResult>, dimX: int)
  {
    (forall i :: 0 <= i < |results| ==> results[i].pos >= 0) && (results == [] || dimX > 0)
  }

  /** How many cells a result covers: the length of its word, or 1 in minimal mode. */
  function CellCount(r: FindResult, minimal: bool): nat
  {
    if minimal then 1 else |r.word|
  }

  /** The cells the heat map increments for one result. */
  function ResultCells(r: FindResult, dimX: int, minimal: bool): seq<int>
    requires r.pos >= 0 && dimX > 0
  {
    var (x, y) := IndexToPos(r.pos, dimX);
    var (adjX, adjY) := Step(r.direction);
    Walk(dimX, x, y, adjX, adjY, CellCount(r, minimal))
  }

  /** The cells the heat map increments, result by result. */
  function Visits(results: seq<FindResult>, dimX: int, minimal: bool): seq<int>
    requires Placeable(results, dimX)
    decreases |results|
  {
    if results == [] then []
    else ResultCells(results[0], dimX, minimal) + Visits(results[1..], dimX, minimal)
  }

  /** The k-th cell of a result is its anchor moved k steps along its direction. */
  lemma ResultCellsAt(r: FindResult, dimX: int, minimal: bool, k: nat)
    requires r.pos >= 0 && dimX > 0 && k < CellCount(r, minimal)
    ensures |ResultCells(r, dimX, minimal)| == CellCount(r, minimal)
    ensures ResultCells(r, dimX, minimal)[k] ==
      PosToIndex(dimX, IndexToPos(r.pos, dimX).0 + k * Step(r.direction).0,
                       IndexToPos(r.pos, dimX).1 + k * Step(r.direction).1)
  {
    var (x, y) := IndexToPos(r.pos, dimX);
    var (adjX, adjY) := Step(r.direction);
    WalkAt(dimX, x, y, adjX, adjY, CellCount(r, minimal), k);
  }

  /** A Right result covers consecutive indices from its anchor on, running on into the next row. */
  lemma RightCellsAreConsecutive(r: FindResult, dimX: int, minimal: bool, k: nat)
    requires r.direction == Right && r.pos >= 0 && dimX > 0 && k < CellCount(r, minimal)
    ensures ResultCells(r, dimX, minimal)[k] == r.pos + k
  {
    ResultCellsAt(r, dimX, minimal, k);
  }

  /** In minimal mode a result covers exactly its anchor. */
  lemma MinimalCoversAnchor(r: FindResult, dimX: int)
    requires r.pos >= 0 && dimX > 0
    ensures ResultCells(r, dimX, true) == [r.pos]
  {
    ResultCellsAt(r, dimX, true, 0);
  }

  /** Total number of cells the results cover, counted with repetition. */
  function TotalCells(results: seq<FindResult>, minimal: bool): nat
    decreases |results|
  {
    if results == [] then 0 else CellCount(results[0], minimal) + TotalCells(results[1..], minimal)
  }

  lemma {:induction false} VisitsLength(results: seq<FindResult>, dimX: int, minimal: bool)
    requires Placeable(results, dimX)
    ensures |Visits(results, dimX, minimal)| == TotalCells(results, minimal)
    decreases |results|
  {
    if results != [] {
      VisitsLength(results[1..], dimX, minimal);
    }
  }

  lemma {:induction false} VisitsConcat(a: seq<FindResult>, b: seq<FindResult>, dimX: int, minimal: bool)
    requires Placeable(a, dimX) && Placeable(b, dimX)
    ensures Placeable(a + b, dimX)
    ensures Visits(a + b, dimX, minimal) == Visits(a, dimX, minimal) + Visits(b, dimX, minimal)
    decreases |a|
  {
    if a == [] {
      assert a + b == b;
    } else {
      assert (a + b)[0] == a[0];
      assert (a + b)[1..] == a[1..] + b;
      VisitsConcat(a[1..], b, dimX, minimal);
    }
  }

  /** v is the j-th cell a result covers, for some result and some j. */
  lemma {:induction false} VisitsMember(results: seq<FindResult>, dimX: int, minimal: bool, v: int)
    requires Placeable(results, dimX)
    requires v in Visits(results, dimX, minimal)
    ensures exists i, k ::
      0 <= i < |results| && 0 <= k < CellCount(results[i], minimal) && ResultCells(results[i], dimX, minimal)[k] == v
    decreases |results|
  {
    var first := ResultCells(results[0], dimX, minimal);
    if v in first {
      var k :| 0 <= k < |first| && first[k] == v;
      assert 0 < |results| && 0 <= k < CellCount(results[0], minimal);
    } else {
      VisitsMember(results[1..], dimX, minimal, v);
      var i, k :| 0 <= i < |results[1..]| && 0 <= k < CellCount(results[1..][i], minimal)
        && ResultCells(results[1..][i], dimX, minimal)[k] == v;
      assert results[1..][i] == results[i + 1];
    }
  }

  // ---------------------------------------------------------------------
  // The heat map
  // ---------------------------------------------------------------------

  function Zeros(n: nat): (z: seq<int>)
    ensures |z| == n && forall j :: 0 <= j < n ==> z[j] == 0
  {
    seq(n, j => 0)
  }

  predicate InRange(vs: seq<int>, n: int)
  {
    forall i :: 0 <= i < |vs| ==> 0 <= vs[i] < n
  }

  /** The map after `map[index]++` for each index of vs in turn. */
  function Apply(m: seq<int>, vs: seq<int>): (r: seq<int>)
    requires InRange(vs, |m|)
    ensures |r| == |m|
    decreases |vs|
  {
    if vs == [] then m else Apply(m[vs[0] := m[vs[0]] + 1], vs[1..])
  }

  lemma {:induction false} ApplyConcat(m: seq<int>, a: seq<int>, b: seq<int>)
    requires InRange(a, |m|) && InRange(b, |m|)
    ensures InRange(a + b, |m|)
    ensures Apply(m, a + b) == Apply(Apply(m, a), b)
    decreases |a|
  {
    if a == [] {
      assert a + b == b;
    } else {
      assert (a + b)[0] == a[0];
      assert (a + b)[1..] == a[1..] + b;
      ApplyConcat(m[a[0] := m[a[0]] + 1], a[1..], b);
    }
  }

  /** Each entry grows by the number of times its index is visited. */
  lemma {:induction false} ApplyCounts(m: seq<int>, vs: seq<int>, j: int)
    requires InRange(vs, |m|) && 0 <= j < |m|
    ensures Apply(m, vs)[j] == m[j] + multiset(vs)[j]
    decreases |vs|
  {
    if vs != [] {
      ApplyCounts(m[vs[0] := m[vs[0]] + 1], vs[1..], j);
      assert vs == [vs[0]] + vs[1..];
      assert multiset(vs) == multiset{vs[0]} + multiset(vs[1..]);
    }
  }

  function Sum(s: seq<int>): int
    decreases |s|
  {
    if s == [] then 0 else s[0] + Sum(s[1..])
  }

  lemma {:induction false} SumIncrement(s: seq<int>, v: int)
    requires 0 <= v < |s|
    ensures Sum(s[v := s[v] + 1]) == Sum(s) + 1
    decreases |s|
  {
    if v > 0 {
      SumIncrement(s[1..], v - 1);
      assert s[v := s[v] + 1][1..] == s[1..][v - 1 := s[1..][v - 1] + 1];
    }
  }

  lemma {:induction false} SumZeros(n: nat)
    ensures Sum(Zeros(n)) == 0
    decreases n
  {
    if n > 0 {
      SumZeros(n - 1);
      assert Zeros(n)[1..] == Zeros(n - 1);
    }
  }

  /** Each visit adds exactly one to the total of the map. */
  lemma {:induction false} ApplySum(m: seq<int>, vs: seq<int>)
    requires InRange(vs, |m|)
    ensures Sum(Apply(m, vs)) == Sum(m) + |vs|
    decreases |vs|
  {
    if vs != [] {
      SumIncrement(m, vs[0]);
      ApplySum(m[vs[0] := m[vs[0]] + 1], vs[1..]);
    }
  }

  /**
   * When every visited index is inside the map, the map counts the visits
   * of each index, no entry is negative, so every entry has a colour, and
   * the entries add up to the cells covered: one per result in minimal mode,
   * the word's length otherwise.
   */
  lemma HeatmapMeaning(n: nat, results: seq<FindResult>, dimX: int, minimal: bool)
    requires Placeable(results, dimX)
    requires InRange(Visits(results, dimX, minimal), n)
    ensures forall j :: 0 <= j < n ==>
      Apply(Zeros(n), Visits(results, dimX, minimal))[j] == multiset(Visits(results, dimX, minimal))[j]
    ensures forall j :: 0 <= j < n ==> Apply(Zeros(n), Visits(results, dimX, minimal))[j] >= 0
    ensures forall j :: 0 <= j < n ==> GetColorForHeatmapLevel(Apply(Zeros(n), Visits(results, dimX, minimal))[j]).Some?
    ensures Sum(Apply(Zeros(n), Visits(results, dimX, minimal))) == TotalCells(results, minimal)
    ensures minimal ==> TotalCells(results, minimal) == |results|
  {
    var vs := Visits(results, dimX, minimal);
    forall j | 0 <= j < n
      ensures Apply(Zeros(n), vs)[j] == multiset(vs)[j]
    {
      ApplyCounts(Zeros(n), vs, j);
    }
    ApplySum(Zeros(n), vs);
    SumZeros(n);
    VisitsLength(results, dimX, minimal);
    TotalCellsMinimal(results);
  }

  lemma {:induction false} TotalCellsMinimal(results: seq<FindResult>)
    ensures TotalCells(results, true) == |results|
    decreases |results|
  {
    if results != [] {
      TotalCellsMinimal(results[1..]);
    }
  }

  /** Splitting visits that stay inside the map into two parts that do. */
  lemma InRangeSplit(a: seq<int>, b: seq<int>, n: int)
    requires InRange(a + b, n)
    ensures InRange(a, n) && InRange(b, n)
  {
    forall i | 0 <= i < |a|
      ensures 0 <= a[i] < n
    {
      assert a[i] == (a + b)[i];
    }
    forall i | 0 <= i < |b|
      ensures 0 <= b[i] < n
    {
      assert b[i] == (a + b)[|a| + i];
    }
  }

  /** Visiting the first index of `[v] + rest` increments that entry. */
  lemma ApplyStep(m: seq<int>, v: int, rest: seq<int>)
    requires InRange([v] + rest, |m|)
    ensures 0 <= v < |m| && InRange(rest, |m|)
    ensures Apply(m, [v] + rest) == Apply(m[v := m[v] + 1], rest)
  {
    assert ([v] + rest)[0] == v;
    assert ([v] + rest)[1..] == rest;
    forall i | 0 <= i < |rest|
      ensures 0 <= rest[i] < |m|
    {
      assert rest[i] == ([v] + rest)[i + 1];
    }
  }

  /** Taking the first result off the remaining ones. */
  lemma VisitsStep(results: seq<FindResult>, ri: nat, dimX: int, minimal: bool)
    requires ri < |results| && Placeable(results, dimX)
    ensures Placeable(results[ri..], dimX) && Placeable(results[ri + 1..], dimX)
    ensures Visits(results[ri..], dimX, minimal)
         == ResultCells(results[ri], dimX, minimal) + Visits(results[ri + 1..], dimX, minimal)
  {
    assert results[ri..][0] == results[ri];
    assert results[ri..][1..] == results[ri + 1..];
  }

  /** The inner loop of `BuildCharHeatmap`: increments the `count` cells of a walk, one after the other. */
  method IncrementWalk(heatmap: array<int>, dimX: int, x0: int, y0: int, adjX: int, adjY: int, count: nat)
    requires InRange(Walk(dimX, x0, y0, adjX, adjY, count), heatmap.Length)
    modifies heatmap
    ensures heatmap[..] == Apply(old(heatmap[..]), Walk(dimX, x0, y0, adjX, adjY, count))
  {
    ghost var goal := Apply(heatmap[..], Walk(dimX, x0, y0, adjX, adjY, count));
    var x, y := x0, y0;
    for i := 0 to count
      invariant InRange(Walk(dimX, x, y, adjX, adjY, count - i), heatmap.Length)
      invariant Apply(heatmap[..], Walk(dimX, x, y, adjX, adjY, count - i)) == goal
    {
      var index := PosToIndex(dimX, x, y);
      ghost var after := Walk(dimX, x + adjX, y + adjY, adjX, adjY, count - i - 1);
      assert Walk(dimX, x, y, adjX, adjY, count - i) == [index] + after;
      ghost var before := heatmap[..];
      ApplyStep(before, index, after);
      heatmap[index] := heatmap[index] + 1;
      assert heatmap[..] == before[index := before[index] + 1];
      x := x + adjX;
      y := y + adjY;
    }
  }

  /**
   * `BuildCharHeatmap`: a zeroed int array as long as the characters,
   * incremented once for each cell each result covers.
   */
  method BuildCharHeatmap(characters: string, results: seq<FindResult>, dimX: int, minimal: bool)
    returns (heatmap: array<int>)
    requires Placeable(results, dimX)
    requires InRange(Visits(results, dimX, minimal), |characters|)
    ensures fresh(heatmap)
    ensures heatmap[..] == Apply(Zeros(|characters|), Visits(results, dimX, minimal))
  {
    var n := |characters|;
    heatmap := new int[n](_ => 0);
    ghost var goal := Apply(Zeros(n), Visits(results, dimX, minimal));
    assert heatmap[..] == Zeros(n);
    assert results[0..] == results;
    for ri := 0 to |results|
      invariant heatmap.Length == n
      invariant Placeable(results[ri..], dimX)
      invariant InRange(Visits(results[ri..], dimX, minimal), n)
      invariant Apply(heatmap[..], Visits(results[ri..], dimX, minimal)) == goal
    {
      var result := results[ri];
      VisitsStep(results, ri, dimX, minimal);
      ghost var cells, rest := ResultCells(result, dimX, minimal), Visits(results[ri + 1..], dimX, minimal);
      InRangeSplit(cells, rest, n);
      ApplyConcat(heatmap[..], cells, rest);
      var pos := IndexToPos(result.pos, dimX);
      var adjX, adjY := Step(result.direction).0, Step(result.direction).1;
      var count := |result.word|;
      if minimal {
        count := 1;
      }
      assert cells == Walk(dimX, pos.0, pos.1, adjX, adjY, count);
      IncrementWalk(heatmap, dimX, pos.0, pos.1, adjX, adjY, count);
    }
    assert results[|results|..] == [];
  }

  // ---------------------------------------------------------------------
  // The heat map of a search
  // ---------------------------------------------------------------------

  /** One result's cells are inside the buffer when it truly spells its word there. */
  lemma CellsOfSoundResult(chars: string, dimX: int, dimY: int, r: FindResult, minimal: bool)
    requires dimX > 0 && r.word != [] && 0 <= r.pos < |chars|
    requires r.direction == Right ==> OccursAt(chars, r.word, r.pos)
    requires r.direction != Right ==> Spells(chars, dimX, dimY, r)
    ensures InRange(ResultCells(r, dimX, minimal), |chars|)
  {
    var cells := ResultCells(r, dimX, minimal);
    var x, y := IndexToPos(r.pos, dimX).0, IndexToPos(r.pos, dimX).1;
    forall k | 0 <= k < |cells|
      ensures 0 <= cells[k] < |chars|
    {
      ResultCellsAt(r, dimX, minimal, k);
      if r.direction != Right && PastGridMatch(chars, dimX, dimY, r.word, r.pos) {
        assert k == 0;
      } else if r.direction == DownLeft {
        assert CellIs(chars, dimX, dimY, x + k * -1, y + k * 1, r.word[k]);
      } else if r.direction == DownRight {
        assert CellIs(chars, dimX, dimY, x + k * 1, y + k * 1, r.word[k]);
      }
    }
  }

  /**
   * For the results of a search that does not fail the heat map never
   * leaves the buffer, whatever the buffer's length against the grid.
   */
  lemma SearchHeatmapInBounds(ws: seq<string>, chars: string, x: int, y: int, diagonal: bool, minimal: bool)
    requires NonEmptyWords(ws)
    requires x > 0
    requires SearchResults(ws, chars, x, y, diagonal).Success?
    ensures Placeable(SearchResults(ws, chars, x, y, diagonal).value, x)
    ensures InRange(Visits(SearchResults(ws, chars, x, y, diagonal).value, x, minimal), |chars|)
  {
    var results := SearchResults(ws, chars, x, y, diagonal).value;
    SearchResultsSound(ws, chars, x, y, diagonal);
    StraightResultsMeaning(ws, chars);
    var vs := Visits(results, x, minimal);
    forall j | 0 <= j < |vs|
      ensures 0 <= vs[j] < |chars|
    {
      assert vs[j] in vs;
      VisitsMember(results, x, minimal, vs[j]);
      var i, k :| 0 <= i < |results| && 0 <= k < CellCount(results[i], minimal)
        && ResultCells(results[i], x, minimal)[k] == vs[j];
      var r := results[i];
      assert r in results;
      assert r.word in ws;
      CellsOfSoundResult(chars, x, y, r, minimal);
    }
  }
}
