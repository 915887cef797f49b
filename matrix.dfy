/**
 * Square matrices stored row-major in a flat buffer of Size * Size entries,
 * with the fixed row stride Size. An n-by-n matrix (n <= Size) occupies the
 * top-left n-by-n corner of such a buffer; the entries outside it are
 * ignored by everything defined here.
 *
 * This module holds the pure specification: the minor of a buffer, the
 * determinant by cofactor expansion along the first row, and the product of
 * the diagonal, with the facts proved about them.
 */
module Matrix {
  import opened Rings

  /** Row stride and capacity of every matrix buffer. */
  const Size: int := 8

  /** Flat index of the cell in row r and column c. */
  function Idx(r: int, c: int): int {
    r * Size + c
  }

  /** Row of the flat index k. */
  function Row(k: int): int {
    k / Size
  }

  /** Column of the flat index k. */
  function Col(k: int): int {
    k % Size
  }

  predicate IsBuffer<T>(m: seq<T>) {
    |m| == Size * Size
  }

  lemma IdxInverse(r: int, c: int)
    requires 0 <= r < Size && 0 <= c < Size
    ensures 0 <= Idx(r, c) < Size * Size
    ensures Row(Idx(r, c)) == r && Col(Idx(r, c)) == c
  {
  }

  /** Distinct cells of a buffer have distinct flat indices. */
  lemma IdxDistinct(i: int, j: int)
    requires 0 <= j < Size
    ensures forall a, b :: 0 <= b < Size && (a != i || b != j) ==> Idx(a, b) != Idx(i, j)
  {
    forall a, b | 0 <= b < Size && (a != i || b != j)
      ensures Idx(a, b) != Idx(i, j)
    {
      if a < i {
        assert Idx(a, b) < Idx(a + 1, 0) <= Idx(i, j);
      } else if a > i {
        assert Idx(i, j) < Idx(i + 1, 0) <= Idx(a, b);
      }
    }
  }

  lemma RowColInverse(k: int)
    requires 0 <= k < Size * Size
    ensures 0 <= Row(k) < Size && 0 <= Col(k) < Size
    ensures Idx(Row(k), Col(k)) == k
  {
  }

  /**
   * Row (or column) of the full matrix that row (or column) k of a minor
   * comes from, when row (or column) skip has been deleted.
   */
  function Src(k: int, skip: int): int {
    if k < skip then k else k + 1
  }

  /**
   * The minor of the n-by-n matrix m that deletes row p and column q, as a
   * buffer of the same stride; the cells outside its (n-1)-by-(n-1) corner
   * hold the filler value z.
   */
  function Minor<T>(m: seq<T>, p: int, q: int, n: int, z: T): (r: seq<T>)
    requires IsBuffer(m)
    requires 0 <= p < n <= Size && 0 <= q < n
    ensures IsBuffer(r)
  {
    seq(Size * Size, k requires 0 <= k < Size * Size =>
      if Row(k) < n - 1 && Col(k) < n - 1
      then m[Idx(Src(Row(k), p), Src(Col(k), q))]
      else z)
  }

  /** Cell (i, j) of a minor is cell (Src(i, p), Src(j, q)) of the matrix. */
  lemma MinorAt<T>(m: seq<T>, p: int, q: int, n: int, z: T, i: int, j: int)
    requires IsBuffer(m)
    requires 0 <= p < n <= Size && 0 <= q < n
    requires 0 <= i < Size && 0 <= j < Size
    ensures Minor(m, p, q, n, z)[Idx(i, j)] ==
            if i < n - 1 && j < n - 1 then m[Idx(Src(i, p), Src(j, q))] else z
  {
    IdxInverse(i, j);
  }

  /**
   * The sign of the f-th term of the expansion: one, negated once per
   * earlier term.
   */
  function Sign<T>(R: Ring<T>, f: int): T
    decreases f
  {
    if f <= 0 then R.one else R.neg(Sign(R, f - 1))
  }

  /**
   * Determinant of the top-left n-by-n corner of m by cofactor expansion
   * along row 0. A size of zero or less gives zero, as the loop of the
   * expansion then has no iteration.
   */
  function Det<T>(R: Ring<T>, m: seq<T>, n: int): T
    requires IsBuffer(m) && n <= Size
    decreases n, 1, 0
  {
    if n <= 0 then R.zero
    else if n == 1 then m[0]
    else Expansion(R, m, n, n)
  }

  /** The sum of the first k terms of the expansion of Det(R, m, n) along row 0. */
  function Expansion<T>(R: Ring<T>, m: seq<T>, n: int, k: int): T
    requires IsBuffer(m) && 2 <= n <= Size && 0 <= k <= n
    decreases n, 0, k
  {
    if k == 0 then R.zero
    else R.add(Expansion(R, m, n, k - 1), Term(R, m, n, k - 1))
  }

  /**
   * The f-th term of the expansion of Det(R, m, n) along row 0: its sign
   * times entry f of row 0 times the determinant of the minor that deletes
   * row 0 and column f.
   */
  function Term<T>(R: Ring<T>, m: seq<T>, n: int, f: int): T
    requires IsBuffer(m) && 2 <= n <= Size && 0 <= f < n
    decreases n, 0, f
  {
    R.mul(R.mul(Sign(R, f), m[f]), Det(R, Minor(m, 0, f, n, R.zero), n - 1))
  }

  /** The buffers s and t hold the same top-left n-by-n corner. */
  ghost predicate AgreeOn<T>(s: seq<T>, t: seq<T>, n: int)
    requires IsBuffer(s) && IsBuffer(t)
  {
    forall a, b :: 0 <= a < n && 0 <= b < n && a < Size && b < Size ==> s[Idx(a, b)] == t[Idx(a, b)]
  }

  /** A minor of an n-by-n matrix reads only the matrix's n-by-n corner. */
  lemma MinorRegion<T>(s: seq<T>, t: seq<T>, p: int, q: int, n: int, z: T)
    requires IsBuffer(s) && IsBuffer(t) && AgreeOn(s, t, n)
    requires 0 <= p < n <= Size && 0 <= q < n
    ensures Minor(s, p, q, n, z) == Minor(t, p, q, n, z)
  {
    forall k | 0 <= k < Size * Size
      ensures Minor(s, p, q, n, z)[k] == Minor(t, p, q, n, z)[k]
    {
      RowColInverse(k);
    }
  }

  lemma {:induction false} ExpansionRegion<T>(R: Ring<T>, s: seq<T>, t: seq<T>, n: int, k: int)
    requires IsBuffer(s) && IsBuffer(t) && AgreeOn(s, t, n)
    requires 2 <= n <= Size && 0 <= k <= n
    ensures Expansion(R, s, n, k) == Expansion(R, t, n, k)
  {
    if k > 0 {
      ExpansionRegion(R, s, t, n, k - 1);
      MinorRegion(s, t, 0, k - 1, n, R.zero);
      assert s[k - 1] == t[k - 1] by {
        assert s[Idx(0, k - 1)] == t[Idx(0, k - 1)];
      }
    }
  }

  /**
   * The determinant of an n-by-n matrix depends only on the top-left n-by-n
   * corner of its buffer.
   */
  lemma DetRegion<T>(R: Ring<T>, s: seq<T>, t: seq<T>, n: int)
    requires IsBuffer(s) && IsBuffer(t) && AgreeOn(s, t, n) && n <= Size
    ensures Det(R, s, n) == Det(R, t, n)
  {
    if n == 1 {
      assert s[0] == s[Idx(0, 0)] == t[Idx(0, 0)];
    } else if n >= 2 {
      ExpansionRegion(R, s, t, n, n);
    }
  }

  /** A matrix whose first column is zero has determinant zero. */
  lemma {:induction false} DetZeroFirstColumn<T(!new)>(R: Ring<T>, m: seq<T>, n: int)
    requires ZeroLaws(R) && IsBuffer(m) && 1 <= n <= Size
    requires forall a :: 0 <= a < n ==> m[Idx(a, 0)] == R.zero
    ensures Det(R, m, n) == R.zero
    decreases n, 1, 0
  {
    if n == 1 {
      assert m[0] == m[Idx(0, 0)];
    } else {
      ExpansionZeroFirstColumn(R, m, n, n);
    }
  }

  lemma {:induction false} ExpansionZeroFirstColumn<T(!new)>(R: Ring<T>, m: seq<T>, n: int, k: int)
    requires ZeroLaws(R) && IsBuffer(m) && 2 <= n <= Size && 0 <= k <= n
    requires forall a :: 0 <= a < n ==> m[Idx(a, 0)] == R.zero
    ensures Expansion(R, m, n, k) == R.zero
    decreases n, 0, k
  {
    if k > 0 {
      ExpansionZeroFirstColumn(R, m, n, k - 1);
      var minor := Minor(m, 0, k - 1, n, R.zero);
      var t := Term(R, m, n, k - 1);
      assert t == R.mul(R.mul(Sign(R, k - 1), m[k - 1]), Det(R, minor, n - 1));
      if k - 1 == 0 {
        assert m[0] == m[Idx(0, 0)];
        assert R.mul(Sign(R, 0), m[0]) == R.zero;
      } else {
        forall a | 0 <= a < n - 1
          ensures minor[Idx(a, 0)] == R.zero
        {
          MinorAt(m, 0, k - 1, n, R.zero, a, 0);
        }
        DetZeroFirstColumn(R, minor, n - 1);
      }
      assert t == R.zero;
      assert Expansion(R, m, n, k) == R.add(Expansion(R, m, n, k - 1), t);
    }
  }

  /** Every cell of the n-by-n corner below the diagonal is zero. */
  ghost predicate UpperTriangular<T>(R: Ring<T>, m: seq<T>, n: int)
    requires IsBuffer(m)
  {
    forall a, b :: 0 <= b < a < n && a < Size ==> m[Idx(a, b)] == R.zero
  }

  /**
   * Product of the first n diagonal entries, multiplied in index order onto
   * an initial one.
   */
  function DiagProd<T>(R: Ring<T>, m: seq<T>, n: int): T
    requires IsBuffer(m) && 0 <= n <= Size
  {
    if n == 0 then R.one else R.mul(DiagProd(R, m, n - 1), m[Idx(n - 1, n - 1)])
  }

  /**
   * Product of the diagonal entries i, i + 1, ..., n - 1, nested the way
   * the expansion along row 0 produces them.
   */
  function DiagProdFrom<T>(R: Ring<T>, m: seq<T>, i: int, n: int): T
    requires IsBuffer(m) && 0 <= i <= n <= Size
    decreases n - i
  {
    if i == n then R.one else R.mul(m[Idx(i, i)], DiagProdFrom(R, m, i + 1, n))
  }

  /** Both ways of multiplying out the diagonal agree. */
  lemma {:induction false} DiagProdSplit<T(!new)>(R: Ring<T>, m: seq<T>, i: int, n: int)
    requires IsBuffer(m) && 0 <= i <= n <= Size
    requires UnitLaws(R) && Associative(R)
    ensures R.mul(DiagProd(R, m, i), DiagProdFrom(R, m, i, n)) == DiagProd(R, m, n)
    decreases n - i
  {
    if i < n {
      DiagProdSplit(R, m, i + 1, n);
      var x, y, z := DiagProd(R, m, i), m[Idx(i, i)], DiagProdFrom(R, m, i + 1, n);
      assert DiagProdFrom(R, m, i, n) == R.mul(y, z);
      assert DiagProd(R, m, i + 1) == R.mul(x, y);
      assert R.mul(x, R.mul(y, z)) == R.mul(R.mul(x, y), z);
    }
  }

  /**
   * When the diagonal of t is the diagonal of m shifted by one, the products
   * of their diagonals from i and from i + 1 agree.
   */
  lemma {:induction false} DiagProdShift<T>(R: Ring<T>, m: seq<T>, t: seq<T>, i: int, k: int)
    requires IsBuffer(m) && IsBuffer(t) && 0 <= i <= k < Size
    requires forall j :: 0 <= j < k ==> t[Idx(j, j)] == m[Idx(j + 1, j + 1)]
    ensures DiagProdFrom(R, t, i, k) == DiagProdFrom(R, m, i + 1, k + 1)
    decreases k - i
  {
    if i < k {
      DiagProdShift(R, m, t, i + 1, k);
    }
  }

  lemma {:induction false} ExpansionUpperTriangular<T(!new)>(R: Ring<T>, m: seq<T>, n: int, k: int)
    requires ZeroLaws(R) && UnitLaws(R) && IsBuffer(m) && 2 <= n <= Size && 1 <= k <= n
    requires UpperTriangular(R, m, n)
    ensures Expansion(R, m, n, k) == R.mul(m[0], Det(R, Minor(m, 0, 0, n, R.zero), n - 1))
  {
    if k > 1 {
      ExpansionUpperTriangular(R, m, n, k - 1);
      var minor := Minor(m, 0, k - 1, n, R.zero);
      MinorZeroFirstColumn(R, m, n, k - 1);
      DetZeroFirstColumn(R, minor, n - 1);
      var t := Term(R, m, n, k - 1);
      assert t == R.mul(R.mul(Sign(R, k - 1), m[k - 1]), R.zero);
      assert t == R.zero;
      assert Expansion(R, m, n, k) == R.add(Expansion(R, m, n, k - 1), t);
    }
  }

  /**
   * Deleting row 0 and a column other than 0 of an upper-triangular matrix
   * leaves a minor whose first column is zero.
   */
  lemma MinorZeroFirstColumn<T>(R: Ring<T>, m: seq<T>, n: int, f: int)
    requires IsBuffer(m) && 2 <= n <= Size && 1 <= f < n && UpperTriangular(R, m, n)
    ensures forall a :: 0 <= a < n - 1 ==> Minor(m, 0, f, n, R.zero)[Idx(a, 0)] == R.zero
  {
    forall a | 0 <= a < n - 1
      ensures Minor(m, 0, f, n, R.zero)[Idx(a, 0)] == R.zero
    {
      MinorAt(m, 0, f, n, R.zero, a, 0);
    }
  }

  /**
   * Deleting row 0 and column 0 of an upper-triangular matrix leaves an
   * upper-triangular minor whose diagonal is the rest of the matrix's
   * diagonal.
   */
  lemma MinorUpperTriangular<T>(R: Ring<T>, m: seq<T>, n: int)
    requires IsBuffer(m) && 2 <= n <= Size && UpperTriangular(R, m, n)
    ensures UpperTriangular(R, Minor(m, 0, 0, n, R.zero), n - 1)
    ensures forall j :: 0 <= j < n - 1 ==> Minor(m, 0, 0, n, R.zero)[Idx(j, j)] == m[Idx(j + 1, j + 1)]
  {
    var minor := Minor(m, 0, 0, n, R.zero);
    forall a, b | 0 <= b < a < n - 1
      ensures minor[Idx(a, b)] == R.zero
    {
      MinorAt(m, 0, 0, n, R.zero, a, b);
    }
    forall j | 0 <= j < n - 1
      ensures minor[Idx(j, j)] == m[Idx(j + 1, j + 1)]
    {
      MinorAt(m, 0, 0, n, R.zero, j, j);
    }
  }

  lemma {:induction false} DetUpperTriangularFrom<T(!new)>(R: Ring<T>, m: seq<T>, n: int)
    requires ZeroLaws(R) && UnitLaws(R) && IsBuffer(m) && 1 <= n <= Size
    requires UpperTriangular(R, m, n)
    ensures Det(R, m, n) == DiagProdFrom(R, m, 0, n)
    decreases n
  {
    if n == 1 {
      assert m[0] == m[Idx(0, 0)];
    } else {
      var minor := Minor(m, 0, 0, n, R.zero);
      MinorUpperTriangular(R, m, n);
      DetUpperTriangularFrom(R, minor, n - 1);
      ExpansionUpperTriangular(R, m, n, n);
      DiagProdShift(R, m, minor, 0, n - 1);
      assert m[0] == m[Idx(0, 0)];
    }
  }

  /**
   * The determinant of an upper-triangular matrix is the product of its
   * diagonal.
   */
  lemma DetUpperTriangular<T(!new)>(R: Ring<T>, m: seq<T>, n: int)
    requires Laws(R) && IsBuffer(m) && 1 <= n <= Size
    requires UpperTriangular(R, m, n)
    ensures Det(R, m, n) == DiagProd(R, m, n)
  {
    DetUpperTriangularFrom(R, m, n);
    DiagProdSplit(R, m, 0, n);
  }

  /** The Size-by-Size identity matrix. */
  function Identity<T>(R: Ring<T>): (r: seq<T>)
    ensures IsBuffer(r)
  {
    seq(Size * Size, k => if Row(k) == Col(k) then R.one else R.zero)
  }

  lemma {:induction false} IdentityDiagProd<T(!new)>(R: Ring<T>, n: int)
    requires UnitLaws(R) && 0 <= n <= Size
    ensures DiagProd(R, Identity(R), n) == R.one
  {
    if n > 0 {
      IdentityDiagProd(R, n - 1);
      IdxInverse(n - 1, n - 1);
    }
  }

  /** Every identity matrix has determinant one. */
  lemma DetIdentity<T(!new)>(R: Ring<T>, n: int)
    requires Laws(R) && 1 <= n <= Size
    ensures Det(R, Identity(R), n) == R.one
  {
    forall a, b | 0 <= b < a < n
      ensures Identity(R)[Idx(a, b)] == R.zero
    {
      IdxInverse(a, b);
    }
    DetUpperTriangular(R, Identity(R), n);
    IdentityDiagProd(R, n);
  }
}
