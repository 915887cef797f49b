/**
 * The two factor buffers of the decomposition and the loops that write
 * them. L is unit lower-triangular: its diagonal is one, the cells above it
 * are zero, and only the cells below it are trained. U is upper-triangular:
 * the cells below its diagonal are zero, and the diagonal and the cells
 * above it are trained. Both live in Size * Size buffers with row stride
 * Size.
 */
module Factors {
  import opened Rings
  import opened Matrix

  /** Which of the two factors a buffer holds. */
  datatype Shape = UnitLower | Upper

  /** The cells of a factor that initialisation draws and training updates. */
  predicate Trainable(shape: Shape, i: int, j: int) {
    match shape
    case UnitLower => j < i
    case Upper => j >= i
  }

  /** The value every other cell of a factor holds: one on the diagonal of L, zero elsewhere. */
  function Fixed<T>(R: Ring<T>, shape: Shape, i: int, j: int): T {
    if shape == UnitLower && i == j then R.one else R.zero
  }

  /** Every cell of w that is not trainable holds its fixed value. */
  ghost predicate Shaped<T>(R: Ring<T>, shape: Shape, w: seq<T>)
    requires IsBuffer(w)
  {
    forall i, j :: 0 <= i < Size && 0 <= j < Size && !Trainable(shape, i, j) ==>
      w[Idx(i, j)] == Fixed(R, shape, i, j)
  }

  /** Number of trainable cells at flat indices below k, in the row-by-row scan order. */
  function Rank(shape: Shape, k: int): nat
    decreases k
  {
    if k <= 0 then 0
    else Rank(shape, k - 1) + if Trainable(shape, Row(k - 1), Col(k - 1)) then 1 else 0
  }

  /**
   * The buffer w0 after the initialisation loop for the given shape: the
   * trainable cells take successive draws from cursor start on, in scan
   * order; the diagonal of L is set to one; every other cell is left as it
   * was.
   */
  function Initialised<T>(R: Ring<T>, shape: Shape, w0: seq<T>, draw: nat -> T, start: nat): (w: seq<T>)
    requires IsBuffer(w0)
    ensures IsBuffer(w)
  {
    seq(Size * Size, k requires 0 <= k < Size * Size =>
      if Trainable(shape, Row(k), Col(k)) then draw(start + Rank(shape, k))
      else if shape == UnitLower && Row(k) == Col(k) then R.one
      else w0[k])
  }

  /**
   * The buffer w0 after one masked update: each trainable cell moves by
   * eta times its gradient times scale; every other cell is left as it was.
   */
  function Updated<T>(R: Ring<T>, shape: Shape, w0: seq<T>, grad: seq<T>, eta: T, scale: T): (w: seq<T>)
    requires IsBuffer(w0) && IsBuffer(grad)
    ensures IsBuffer(w)
  {
    seq(Size * Size, k requires 0 <= k < Size * Size =>
      if Trainable(shape, Row(k), Col(k)) then Sub(R, w0[k], R.mul(R.mul(eta, grad[k]), scale))
      else w0[k])
  }

  /** Cell (i, j) of an initialised buffer. */
  lemma InitialisedAt<T>(R: Ring<T>, shape: Shape, w0: seq<T>, draw: nat -> T, start: nat, i: int, j: int)
    requires IsBuffer(w0) && 0 <= i < Size && 0 <= j < Size
    ensures Initialised(R, shape, w0, draw, start)[Idx(i, j)] ==
            if Trainable(shape, i, j) then draw(start + Rank(shape, Idx(i, j)))
            else if shape == UnitLower && i == j then R.one
            else w0[Idx(i, j)]
  {
    IdxInverse(i, j);
  }

  /** Cell (i, j) of an updated buffer. */
  lemma UpdatedAt<T>(R: Ring<T>, shape: Shape, w0: seq<T>, grad: seq<T>, eta: T, scale: T, i: int, j: int)
    requires IsBuffer(w0) && IsBuffer(grad) && 0 <= i < Size && 0 <= j < Size
    ensures Updated(R, shape, w0, grad, eta, scale)[Idx(i, j)] ==
            if Trainable(shape, i, j) then Sub(R, w0[Idx(i, j)], R.mul(R.mul(eta, grad[Idx(i, j)]), scale))
            else w0[Idx(i, j)]
  {
    IdxInverse(i, j);
  }

  /** Rank counts one more cell exactly when it passes a trainable cell. */
  lemma RankStep(shape: Shape, i: int, j: int)
    requires 0 <= i < Size && 0 <= j < Size
    ensures Rank(shape, Idx(i, j) + 1) == Rank(shape, Idx(i, j)) + if Trainable(shape, i, j) then 1 else 0
  {
    IdxInverse(i, j);
  }

  /** Rank never decreases along the scan. */
  lemma {:induction false} RankMonotone(shape: Shape, k1: int, k2: int)
    requires k1 <= k2
    ensures Rank(shape, k1) <= Rank(shape, k2)
    decreases k2 - k1
  {
    if k1 < k2 {
      RankMonotone(shape, k1, k2 - 1);
    }
  }

  /**
   * Trainable cells take their draws in scan order, each a different one,
   * and all below the cursor left after the whole scan.
   */
  lemma DrawsDistinct(shape: Shape, k1: int, k2: int)
    requires 0 <= k1 < k2 < Size * Size
    requires Trainable(shape, Row(k1), Col(k1)) && Trainable(shape, Row(k2), Col(k2))
    ensures Rank(shape, k1) < Rank(shape, k2) < Rank(shape, Size * Size)
  {
    RankMonotone(shape, k1 + 1, k2);
    RankMonotone(shape, k2 + 1, Size * Size);
  }

  /** Number of cells strictly below the diagonal in the first i rows. */
  function BelowDiagonal(i: int): nat
    decreases i
  {
    if i <= 0 then 0 else BelowDiagonal(i - 1) + (i - 1)
  }

  /** Number of trainable cells in the first i rows of a factor. */
  function RowsRank(shape: Shape, i: int): int {
    match shape
    case UnitLower => BelowDiagonal(i)
    case Upper => i * Size - BelowDiagonal(i)
  }

  /** Number of trainable cells among the first j cells of row i. */
  function InRowRank(shape: Shape, i: int, j: int): int {
    match shape
    case UnitLower => if j <= i then j else i
    case Upper => if j <= i then 0 else j - i
  }

  lemma {:induction false} RankInRow(shape: Shape, i: int, j: int)
    requires 0 <= i < Size && 0 <= j <= Size
    ensures Rank(shape, Idx(i, j)) == Rank(shape, Idx(i, 0)) + InRowRank(shape, i, j)
  {
    if j > 0 {
      RankInRow(shape, i, j - 1);
      RankStep(shape, i, j - 1);
    }
  }

  lemma {:induction false} RankRows(shape: Shape, i: int)
    requires 0 <= i <= Size
    ensures Rank(shape, Idx(i, 0)) == RowsRank(shape, i)
  {
    if i > 0 {
      RankRows(shape, i - 1);
      RankInRow(shape, i - 1, Size);
    }
  }

  /** The scan draws 28 values for L and 36 for U. */
  lemma DrawCounts()
    ensures Rank(UnitLower, Size * Size) == 28
    ensures Rank(Upper, Size * Size) == 36
  {
    RankRows(UnitLower, Size);
    RankRows(Upper, Size);
    assert BelowDiagonal(Size) == 28;
  }

  /** Initialising an all-zero buffer gives a buffer of the wanted shape. */
  lemma InitialisedShaped<T>(R: Ring<T>, shape: Shape, w0: seq<T>, draw: nat -> T, start: nat)
    requires IsBuffer(w0) && forall k :: 0 <= k < Size * Size ==> w0[k] == R.zero
    ensures Shaped(R, shape, Initialised(R, shape, w0, draw, start))
  {
    var w := Initialised(R, shape, w0, draw, start);
    forall i, j | 0 <= i < Size && 0 <= j < Size && !Trainable(shape, i, j)
      ensures w[Idx(i, j)] == Fixed(R, shape, i, j)
    {
      IdxInverse(i, j);
    }
  }

  /** A masked update leaves every cell that is not trainable as it was. */
  lemma UpdatedFreezes<T>(R: Ring<T>, shape: Shape, w0: seq<T>, grad: seq<T>, eta: T, scale: T)
    requires IsBuffer(w0) && IsBuffer(grad)
    ensures forall i, j :: 0 <= i < Size && 0 <= j < Size && !Trainable(shape, i, j) ==>
              Updated(R, shape, w0, grad, eta, scale)[Idx(i, j)] == w0[Idx(i, j)]
  {
    forall i, j | 0 <= i < Size && 0 <= j < Size && !Trainable(shape, i, j)
      ensures Updated(R, shape, w0, grad, eta, scale)[Idx(i, j)] == w0[Idx(i, j)]
    {
      IdxInverse(i, j);
    }
  }

  /** Hence a masked update keeps the shape of a factor. */
  lemma UpdatedKeepsShape<T>(R: Ring<T>, shape: Shape, w0: seq<T>, grad: seq<T>, eta: T, scale: T)
    requires IsBuffer(w0) && IsBuffer(grad) && Shaped(R, shape, w0)
    ensures Shaped(R, shape, Updated(R, shape, w0, grad, eta, scale))
  {
    UpdatedFreezes(R, shape, w0, grad, eta, scale);
  }

  /**
   * Shaped(R, Upper, u) and Matrix.UpperTriangular(R, u, Size) describe the
   * same buffers, one as the mask of U and one as the determinant's
   * hypothesis; this lemma is the bridge from the first to the second.
   */
  lemma UpperShaped<T>(R: Ring<T>, u: seq<T>)
    requires IsBuffer(u) && Shaped(R, Upper, u)
    ensures UpperTriangular(R, u, Size)
  {
  }

  /**
   * The initialisation loop of one factor (for L the diagonal is set to one
   * and the cells below it drawn; for U the diagonal and the cells above it
   * drawn). The draws are taken from draw at cursor start on, and the cursor
   * after the last draw is returned.
   */
  method Init<T>(R: Ring<T>, w: array<T>, shape: Shape, draw: nat -> T, start: nat) returns (next: nat)
    requires w.Length == Size * Size
    modifies w
    ensures w[..] == Initialised(R, shape, old(w[..]), draw, start)
    ensures next == start + Rank(shape, Size * Size)
  {
    ghost var w0 := w[..];
    ghost var target := Initialised(R, shape, w0, draw, start);
    next := start;
    var i := 0;
    while i < Size
      invariant 0 <= i <= Size
      invariant next == start + Rank(shape, Idx(i, 0))
      invariant forall k :: 0 <= k < Idx(i, 0) ==> w[k] == target[k]
      invariant forall k :: Idx(i, 0) <= k < Size * Size ==> w[k] == w0[k]
    {
      var j := 0;
      while j < Size
        invariant 0 <= j <= Size
        invariant next == start + Rank(shape, Idx(i, j))
        invariant forall k :: 0 <= k < Idx(i, j) ==> w[k] == target[k]
        invariant forall k :: Idx(i, j) <= k < Size * Size ==> w[k] == w0[k]
      {
        InitialisedAt(R, shape, w0, draw, start, i, j);
        RankStep(shape, i, j);
        if shape == UnitLower && j == i {
          w[Idx(i, j)] := R.one;
        } else if Trainable(shape, i, j) {
          w[Idx(i, j)] := draw(next);
          next := next + 1;
        }
        j := j + 1;
      }
      i := i + 1;
    }
    assert w[..] == target;
  }

  /**
   * The masked update loop of one factor: every trainable cell moves by
   * eta times its gradient times scale, and no other cell is written.
   */
  method Update<T>(R: Ring<T>, w: array<T>, shape: Shape, grad: seq<T>, eta: T, scale: T)
    requires w.Length == Size * Size && IsBuffer(grad)
    modifies w
    ensures w[..] == Updated(R, shape, old(w[..]), grad, eta, scale)
  {
    ghost var w0 := w[..];
    ghost var target := Updated(R, shape, w0, grad, eta, scale);
    var i := 0;
    while i < Size
      invariant 0 <= i <= Size
      invariant forall k :: 0 <= k < Idx(i, 0) ==> w[k] == target[k]
      invariant forall k :: Idx(i, 0) <= k < Size * Size ==> w[k] == w0[k]
    {
      var j := 0;
      while j < Size
        invariant 0 <= j <= Size
        invariant forall k :: 0 <= k < Idx(i, j) ==> w[k] == target[k]
        invariant forall k :: Idx(i, j) <= k < Size * Size ==> w[k] == w0[k]
      {
        UpdatedAt(R, shape, w0, grad, eta, scale, i, j);
        if Trainable(shape, i, j) {
          w[Idx(i, j)] := Sub(R, w[Idx(i, j)], R.mul(R.mul(eta, grad[Idx(i, j)]), scale));
        }
        j := j + 1;
      }
      i := i + 1;
    }
    assert w[..] == target;
  }
}
