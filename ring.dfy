/**
 * The numbers a matrix holds. The determinant only adds, multiplies and
 * negates its entries, so it is defined over any ring given by its
 * operations; the laws the proofs use are listed in Laws. The source works
 * with complex numbers; every operation here is generic in the ring, and
 * Reals is one lawful instance.
 */
module Rings {

  datatype Ring<!T> = Ring(zero: T, one: T, add: (T, T) -> T, mul: (T, T) -> T, neg: T -> T)

  /** Subtraction, as addition of the negation. */
  function Sub<T>(R: Ring<T>, x: T, y: T): T {
    R.add(x, R.neg(y))
  }

  /** Zero is neutral for addition and absorbing for multiplication. */
  ghost predicate ZeroLaws<T(!new)>(R: Ring<T>) {
    && (forall x :: R.add(x, R.zero) == x)
    && (forall x :: R.add(R.zero, x) == x)
    && (forall x :: R.mul(x, R.zero) == R.zero)
    && (forall x :: R.mul(R.zero, x) == R.zero)
  }

  /** One is neutral for multiplication. */
  ghost predicate UnitLaws<T(!new)>(R: Ring<T>) {
    && (forall x :: R.mul(x, R.one) == x)
    && (forall x :: R.mul(R.one, x) == x)
  }

  /** Multiplication is associative. */
  ghost predicate Associative<T(!new)>(R: Ring<T>) {
    forall x, y, z {:trigger R.mul(x, R.mul(y, z))} :: R.mul(x, R.mul(y, z)) == R.mul(R.mul(x, y), z)
  }

  /** The ring laws the determinant proofs rely on. */
  ghost predicate Laws<T(!new)>(R: Ring<T>) {
    ZeroLaws(R) && UnitLaws(R) && Associative(R)
  }

  /** The reals with their usual operations. */
  function Reals(): Ring<real> {
    Ring(0.0, 1.0, (x, y) => x + y, (x, y) => x * y, x => -x)
  }

  lemma RealsLaws()
    ensures Laws(Reals())
  {
  }
}
