/**
 * The imperative determinant: minor extraction into a scratch buffer with
 * the row stride Size, and cofactor expansion along row 0 that recurses on
 * a freshly allocated scratch buffer. Both are proved against the pure
 * definitions of module Matrix.
 */
module Laplace {
  import opened Rings
  import opened Matrix

  /**
   * Number of minor rows filled once `row` rows of the matrix have been
   * scanned, row p being skipped.
   */
  function RowsPacked(row: int, p: int): int {
    if row <= p then row else row - 1
  }

  /**
   * Number of minor columns filled in the current row once `col` columns of
   * the matrix have been scanned, column q being skipped.
   */
  function ColsPacked(col: int, q: int): int {
    if col <= q then col else col - 1
  }

  /**
   * Cell (a, b) of the (n-1)-by-(n-1) minor has been written once the
   * packing counters stand at row i, column j: it lies in a row above i, or
   * in row i left of column j.
   */
  predicate Written(a: int, b: int, n: int, i: int, j: int) {
    0 <= a < n - 1 && 0 <= b < n - 1 && (a < i || (a == i && b < j))
  }

  /**
   * Every written cell of t holds the entry of m that the minor deleting
   * row p and column q puts there.
   */
  ghost predicate Packed<T>(t: seq<T>, m: seq<T>, p: int, q: int, n: int, i: int, j: int)
    requires IsBuffer(t) && IsBuffer(m) && 0 <= p < n <= Size && 0 <= q < n
  {
    forall a, b {:trigger t[Idx(a, b)]} :: Written(a, b, n, i, j) ==>
      t[Idx(a, b)] == m[Idx(Src(a, p), Src(b, q))]
  }

  /** Every cell of the buffer that has not been written is as in t0. */
  ghost predicate Untouched<T>(t: seq<T>, t0: seq<T>, n: int, i: int, j: int)
    requires IsBuffer(t) && IsBuffer(t0)
  {
    forall a, b :: 0 <= a < Size && 0 <= b < Size && !Written(a, b, n, i, j) ==>
      t[Idx(a, b)] == t0[Idx(a, b)]
  }

  /** The top-left (n-1)-by-(n-1) corner of t is the minor of m deleting row p and column q. */
  ghost predicate HoldsMinor<T>(t: seq<T>, m: seq<T>, p: int, q: int, n: int)
    requires IsBuffer(t) && IsBuffer(m) && 0 <= p < n <= Size && 0 <= q < n
  {
    Packed(t, m, p, q, n, n - 1, 0)
  }

  /** The buffers t and t0 agree outside the top-left (n-1)-by-(n-1) corner. */
  ghost predicate KeepsOutside<T>(t: seq<T>, t0: seq<T>, n: int)
    requires IsBuffer(t) && IsBuffer(t0)
  {
    Untouched(t, t0, n, n - 1, 0)
  }

  /** Writing the next minor entry at the packing position moves the position on by one cell. */
  lemma WriteStep<T>(t: seq<T>, m: seq<T>, t0: seq<T>, p: int, q: int, n: int, i: int, j: int)
    requires IsBuffer(t) && IsBuffer(m) && IsBuffer(t0)
    requires 0 <= p < n <= Size && 0 <= q < n && 0 <= i < n - 1 && 0 <= j < n - 1
    requires Packed(t, m, p, q, n, i, j) && Untouched(t, t0, n, i, j)
    ensures Packed(t[Idx(i, j) := m[Idx(Src(i, p), Src(j, q))]], m, p, q, n, i, j + 1)
    ensures Untouched(t[Idx(i, j) := m[Idx(Src(i, p), Src(j, q))]], t0, n, i, j + 1)
  {
    IdxDistinct(i, j);
  }

  /**
   * Copies the minor of the n-by-n matrix in mat that deletes row p and
   * column q into the top-left (n-1)-by-(n-1) corner of temp, scanning mat
   * row by row and packing the kept entries with the counters i and j.
   * Every other cell of temp, and all of mat, is left as it was.
   */
  method Cofactor<T>(mat: array<T>, temp: array<T>, p: int, q: int, n: int)
    requires mat.Length == Size * Size && temp.Length == Size * Size && mat != temp
    requires 0 <= p < n <= Size && 0 <= q < n
    modifies temp
    ensures HoldsMinor(temp[..], mat[..], p, q, n)
    ensures KeepsOutside(temp[..], old(temp[..]), n)
  {
    var i, j := 0, 0;
    var row := 0;
    while row < n
      invariant 0 <= row <= n
      invariant i == RowsPacked(row, p) && j == 0
      invariant Packed(temp[..], mat[..], p, q, n, i, j)
      invariant Untouched(temp[..], old(temp[..]), n, i, j)
    {
      var col := 0;
      while col < n
        invariant 0 <= col <= n
        invariant row == p ==> i == RowsPacked(row, p) && j == 0
        invariant row != p && ColsPacked(col, q) < n - 1 ==>
                    i == RowsPacked(row, p) && j == ColsPacked(col, q)
        invariant row != p && ColsPacked(col, q) == n - 1 ==>
                    i == RowsPacked(row, p) + 1 && j == 0
        invariant Packed(temp[..], mat[..], p, q, n, i, j)
        invariant Untouched(temp[..], old(temp[..]), n, i, j)
      {
        if row != p && col != q {
          assert Src(i, p) == row && Src(j, q) == col;
          WriteStep(temp[..], mat[..], old(temp[..]), p, q, n, i, j);
          temp[Idx(i, j)] := mat[Idx(row, col)];
          j := j + 1;
          if j == n - 1 {
            j := 0;
            i := i + 1;
          }
        }
        col := col + 1;
      }
      row := row + 1;
    }
  }

  /**
   * Determinant of the top-left n-by-n corner of mat by cofactor expansion
   * along row 0, with the sign flipped after every term. A size of one
   * returns the single entry; a size of zero or less returns zero.
   */
  method Determinant<T>(R: Ring<T>, mat: array<T>, n: int) returns (d: T)
    requires mat.Length == Size * Size && n <= Size
    ensures d == Det(R, mat[..], n)
    decreases n, 1
  {
    if n == 1 {
      return mat[0];
    }
    d := R.zero;
    var temp := new T[Size * Size](_ => R.zero);
    var sign := R.one;
    var f := 0;
    while f < n
      invariant 0 <= f && (n >= 0 ==> f <= n)
      invariant sign == Sign(R, f)
      invariant n <= 0 ==> f == 0 && d == R.zero
      invariant n >= 2 ==> d == Expansion(R, mat[..], n, f)
    {
      var term := SignedTerm(R, mat, temp, sign, f, n);
      d := R.add(d, term);
      sign := R.neg(sign);
      f := f + 1;
    }
  }

  /**
   * One step of the expansion: extracts into temp the minor that deletes
   * row 0 and column f, and multiplies sign, entry f of row 0 and the
   * determinant of that minor. The minor is left in temp; no other cell of
   * temp changes.
   */
  method SignedTerm<T>(R: Ring<T>, mat: array<T>, temp: array<T>, sign: T, f: int, n: int) returns (t: T)
    requires mat.Length == Size * Size && temp.Length == Size * Size && mat != temp
    requires 2 <= n <= Size && 0 <= f < n && sign == Sign(R, f)
    modifies temp
    ensures t == Term(R, mat[..], n, f)
    ensures HoldsMinor(temp[..], mat[..], 0, f, n)
    ensures KeepsOutside(temp[..], old(temp[..]), n)
    decreases n, 0
  {
    Cofactor(mat, temp, 0, f, n);
    ghost var tm := temp[..];
    var sub := Determinant(R, temp, n - 1);
    assert temp[..] == tm;
    HoldsMinorAgrees(mat[..], tm, 0, f, n, R.zero);
    DetRegion(R, tm, Minor(mat[..], 0, f, n, R.zero), n - 1);
    t := R.mul(R.mul(sign, mat[f]), sub);
  }

  /**
   * A buffer that holds the minor deleting row p and column q agrees with
   * Minor on the minor's (n-1)-by-(n-1) corner, whatever Minor's filler.
   */
  lemma HoldsMinorAgrees<T>(m: seq<T>, t: seq<T>, p: int, q: int, n: int, z: T)
    requires IsBuffer(m) && IsBuffer(t) && 0 <= p < n <= Size && 0 <= q < n
    requires HoldsMinor(t, m, p, q, n)
    ensures AgreeOn(t, Minor(m, p, q, n, z), n - 1)
  {
    var minor := Minor(m, p, q, n, z);
    forall a, b | 0 <= a < n - 1 && 0 <= b < n - 1
      ensures t[Idx(a, b)] == minor[Idx(a, b)]
    {
      assert Written(a, b, n, n - 1, 0);
      MinorAt(m, p, q, n, z, a, b);
    }
  }
}
