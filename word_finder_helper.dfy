/**
 * Coordinate math of the grid: a dimX-by-dimY grid is stored as one
 * row-major buffer, so cell (x, y) lives at linear index y * dimX + x.
 */
module WordFinderHelper {

  /** (x, y) is a cell of a dimX-by-dimY grid. */
  predicate PosInbound(x: int, y: int, dimX: int, dimY: int)
  {
    x >= 0 && x < dimX && y >= 0 && y < dimY
  }

  /** Linear index of (x, y) in a row-major buffer whose rows are `width` long. */
  function PosToIndex(width: int, x: int, y: int): int
  {
    y * width + x
  }

  /**
   * Column and row of a linear index. The program uses C#'s truncating
   * `%` and `/`; on a non-negative index and a positive width they agree
   * with Dafny's Euclidean operators, which is why the model asks for both.
   */
  function IndexToPos(index: int, width: int): (pos: (int, int))
    requires index >= 0 && width > 0
    ensures 0 <= pos.0 < width && 0 <= pos.1
    ensures PosToIndex(width, pos.0, pos.1) == index
  {
    (index % width, index / width)
  }

  lemma MultipleAtLeast(d: int, w: int)
    requires d >= 1 && w > 0
    ensures d * w >= w
  {
  }

  /** The only multiple of w strictly between -w and w is zero. */
  lemma SmallMultipleIsZero(d: int, w: int)
    requires w > 0 && -w < d * w < w
    ensures d == 0
  {
    if d > 0 {
      MultipleAtLeast(d, w);
    } else if d < 0 {
      MultipleAtLeast(-d, w);
    }
  }

  /** Quotient and remainder are the only pair that rebuilds i with a remainder in [0, w). */
  lemma DivModUnique(i: int, w: int, q: int, r: int)
    requires w > 0 && 0 <= r < w && i == q * w + r
    ensures i / w == q && i % w == r
  {
    var q', r' := i / w, i % w;
    assert (q' - q) * w == r - r';
    SmallMultipleIsZero(q' - q, w);
  }

  /** Converting a cell to its index and back gives the cell again. */
  lemma PosToIndexRoundTrip(width: int, x: int, y: int)
    requires 0 <= x < width && 0 <= y
    ensures IndexToPos(PosToIndex(width, x, y), width) == (x, y)
  {
    DivModUnique(PosToIndex(width, x, y), width, y, x);
  }

  /** A cell inside the grid has an index inside the buffer. */
  lemma InboundIndex(x: int, y: int, dimX: int, dimY: int)
    ensures PosInbound(x, y, dimX, dimY) ==> 0 <= PosToIndex(dimX, x, y) < dimX * dimY
  {
    if PosInbound(x, y, dimX, dimY) {
      assert y * dimX <= (dimY - 1) * dimX;
    }
  }

  /** An index converts to a cell inside the grid exactly when it is inside the first dimX * dimY characters. */
  lemma IndexInbound(index: int, dimX: int, dimY: int)
    requires dimX > 0 && 0 <= index
    ensures PosInbound(IndexToPos(index, dimX).0, IndexToPos(index, dimX).1, dimX, dimY) <==> index < dimX * dimY
  {
    var (x, y) := IndexToPos(index, dimX);
    if PosInbound(x, y, dimX, dimY) {
      InboundIndex(x, y, dimX, dimY);
    }
  }
}
