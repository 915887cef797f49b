/**
 * The training driver: the factors L and U are initialised from a stream
 * of draws, then improved by clipped gradient steps, at most MaxIterations
 * of them, until the cost falls below Threshold; finally the product of
 * U's diagonal is compared with U's determinant.
 *
 * The cost graph and its gradients come from an automatic-differentiation
 * engine that is not part of this model: it is the parameter `engine`,
 * which maps the current contents of L and U to an Eval.
 */
module Training {
  import opened Rings
  import opened Matrix
  import opened Factors
  import opened Laplace

  /** Most iterations of the training loop. */
  const MaxIterations: nat := 256 * 1024

  /** Training stops once the absolute value of the cost falls below this. */
  const Threshold: real := 1.0

  /** Draws taken by the fill of the input matrix, before the factors are drawn. */
  const InputDraws: nat := Size * Size

  /** Draws taken by L, one per cell below the diagonal (Factors.DrawCounts). */
  const LowerDraws: nat := 28

  /**
   * One evaluation of the engine: the absolute value of the cost, the
   * gradients of L and U, and the Euclidean norm of both gradients together.
   */
  datatype Eval<T> = Eval(cost: real, dl: seq<T>, du: seq<T>, norm: real)

  /** The engine hands back a gradient for every cell of both buffers. */
  ghost predicate Engine<T(!new)>(engine: (seq<T>, seq<T>) -> Eval<T>) {
    forall l, u :: IsBuffer(engine(l, u).dl) && IsBuffer(engine(l, u).du)
  }

  /**
   * The factor the step is scaled by: 1 while the gradient norm is at most
   * 1, and 1 / norm beyond, so that a scaled step never has norm above 1.
   */
  function ClipScale(norm: real): (s: real)
    ensures 0.0 < s <= 1.0
    ensures s == 1.0 <==> norm <= 1.0
    ensures norm > 1.0 ==> s * norm == 1.0
  {
    if norm > 1.0 then 1.0 / norm else 1.0
  }

  /** The contents of L and U after training, and the cost seen in each iteration. */
  datatype Run<T> = Run(l: seq<T>, u: seq<T>, costs: seq<real>)

  /**
   * The training loop with `budget` iterations left, from L and U holding l
   * and u. Each iteration evaluates the engine, moves the trainable cells
   * of both factors by the clipped step, and then stops if the cost it saw
   * was below Threshold.
   */
  function Trained<T(!new)>(R: Ring<T>, engine: (seq<T>, seq<T>) -> Eval<T>, eta: T, embed: real -> T,
                      l: seq<T>, u: seq<T>, budget: nat): (r: Run<T>)
    requires IsBuffer(l) && IsBuffer(u) && Engine(engine)
    ensures IsBuffer(r.l) && IsBuffer(r.u)
    decreases budget
  {
    if budget == 0 then Run(l, u, [])
    else
      var e := engine(l, u);
      var scale := embed(ClipScale(e.norm));
      var l1 := Updated(R, UnitLower, l, e.dl, eta, scale);
      var u1 := Updated(R, Upper, u, e.du, eta, scale);
      if e.cost < Threshold then Run(l1, u1, [e.cost])
      else
        var r := Trained(R, engine, eta, embed, l1, u1, budget - 1);
        Run(r.l, r.u, [e.cost] + r.costs)
  }

  /**
   * The stop rule: training runs at least one and at most `budget`
   * iterations; every cost but the last is at least Threshold; and it ends
   * early only on a cost below Threshold.
   */
  lemma {:induction false} TrainedStops<T(!new)>(R: Ring<T>, engine: (seq<T>, seq<T>) -> Eval<T>, eta: T,
                                           embed: real -> T, l: seq<T>, u: seq<T>, budget: nat)
    requires IsBuffer(l) && IsBuffer(u) && Engine(engine)
    ensures var c := Trained(R, engine, eta, embed, l, u, budget).costs;
            && |c| <= budget
            && (budget > 0 ==> |c| > 0)
            && (forall k :: 0 <= k < |c| - 1 ==> c[k] >= Threshold)
            && (|c| < budget ==> c[|c| - 1] < Threshold)
    decreases budget
  {
    if budget > 0 {
      var e := engine(l, u);
      var scale := embed(ClipScale(e.norm));
      var l1 := Updated(R, UnitLower, l, e.dl, eta, scale);
      var u1 := Updated(R, Upper, u, e.du, eta, scale);
      if e.cost >= Threshold {
        TrainedStops(R, engine, eta, embed, l1, u1, budget - 1);
        var c := Trained(R, engine, eta, embed, l, u, budget).costs;
        var c1 := Trained(R, engine, eta, embed, l1, u1, budget - 1).costs;
        assert c == [e.cost] + c1;
        forall k | 0 <= k < |c| - 1
          ensures c[k] >= Threshold
        {
          if k > 0 {
            assert c[k] == c1[k - 1];
          }
        }
      }
    }
  }

  /**
   * Training never writes a cell that is not trainable: the diagonal and
   * upper triangle of L and the strict lower triangle of U keep their
   * values however many iterations run.
   */
  lemma {:induction false} TrainedFreezes<T(!new)>(R: Ring<T>, engine: (seq<T>, seq<T>) -> Eval<T>, eta: T,
                                             embed: real -> T, l: seq<T>, u: seq<T>, budget: nat)
    requires IsBuffer(l) && IsBuffer(u) && Engine(engine)
    ensures var r := Trained(R, engine, eta, embed, l, u, budget);
            && (forall i, j :: 0 <= i < Size && 0 <= j < Size && !Trainable(UnitLower, i, j) ==>
                  r.l[Idx(i, j)] == l[Idx(i, j)])
            && (forall i, j :: 0 <= i < Size && 0 <= j < Size && !Trainable(Upper, i, j) ==>
                  r.u[Idx(i, j)] == u[Idx(i, j)])
    decreases budget
  {
    if budget > 0 {
      var e := engine(l, u);
      var scale := embed(ClipScale(e.norm));
      var l1 := Updated(R, UnitLower, l, e.dl, eta, scale);
      var u1 := Updated(R, Upper, u, e.du, eta, scale);
      UpdatedFreezes(R, UnitLower, l, e.dl, eta, scale);
      UpdatedFreezes(R, Upper, u, e.du, eta, scale);
      if e.cost >= Threshold {
        TrainedFreezes(R, engine, eta, embed, l1, u1, budget - 1);
      }
    }
  }

  /** Hence training keeps L unit lower-triangular and U upper-triangular. */
  lemma TrainedKeepsShape<T(!new)>(R: Ring<T>, engine: (seq<T>, seq<T>) -> Eval<T>, eta: T,
                             embed: real -> T, l: seq<T>, u: seq<T>, budget: nat)
    requires IsBuffer(l) && IsBuffer(u) && Engine(engine)
    requires Shaped(R, UnitLower, l) && Shaped(R, Upper, u)
    ensures Shaped(R, UnitLower, Trained(R, engine, eta, embed, l, u, budget).l)
    ensures Shaped(R, Upper, Trained(R, engine, eta, embed, l, u, budget).u)
  {
    TrainedFreezes(R, engine, eta, embed, l, u, budget);
  }

  /**
   * The training loop over the buffers l and u: evaluate, clip, update the
   * trainable cells of both factors, count the iteration, and stop early on
   * a cost below Threshold. Returns the cost seen in each iteration.
   */
  method Train<T(!new)>(R: Ring<T>, l: array<T>, u: array<T>, engine: (seq<T>, seq<T>) -> Eval<T>, eta: T,
                  embed: real -> T, iterations: nat) returns (costs: seq<real>)
    requires l.Length == Size * Size && u.Length == Size * Size && l != u && Engine(engine)
    modifies l, u
    ensures var r := Trained(R, engine, eta, embed, old(l[..]), old(u[..]), iterations);
            l[..] == r.l && u[..] == r.u && costs == r.costs
  {
    ghost var l0, u0 := l[..], u[..];
    costs := [];
    var i := 0;
    while i < iterations
      invariant 0 <= i <= iterations
      invariant var r := Trained(R, engine, eta, embed, l[..], u[..], iterations - i);
                Trained(R, engine, eta, embed, l0, u0, iterations) == Run(r.l, r.u, costs + r.costs)
    {
      ghost var lp, up, cp := l[..], u[..], costs;
      var e := engine(l[..], u[..]);
      var scaling := ClipScale(e.norm);
      Update(R, l, UnitLower, e.dl, eta, embed(scaling));
      Update(R, u, Upper, e.du, eta, embed(scaling));
      costs := costs + [e.cost];
      i := i + 1;
      if e.cost < Threshold {
        assert Trained(R, engine, eta, embed, lp, up, iterations - i + 1) == Run(l[..], u[..], [e.cost]);
        break;
      }
      assert costs + Trained(R, engine, eta, embed, l[..], u[..], iterations - i).costs ==
             cp + Trained(R, engine, eta, embed, lp, up, iterations - i + 1).costs;
    }
    assert costs + [] == costs;
  }

  /**
   * The product of the diagonal of u, multiplied in scan order onto an
   * initial one.
   */
  method DiagonalProduct<T>(R: Ring<T>, u: array<T>) returns (d: T)
    requires u.Length == Size * Size
    ensures d == DiagProd(R, u[..], Size)
  {
    d := R.one;
    var i := 0;
    while i < Size
      invariant 0 <= i <= Size
      invariant d == DiagProd(R, u[..], i)
    {
      var j := 0;
      while j < Size
        invariant 0 <= j <= Size
        invariant d == DiagProd(R, u[..], if j > i then i + 1 else i)
      {
        if i == j {
          d := R.mul(d, u[Idx(i, j)]);
        }
        j := j + 1;
      }
      i := i + 1;
    }
  }

  /** A buffer of zeros, as a freshly allocated factor holds. */
  function Zeros<T>(R: Ring<T>): (z: seq<T>)
    ensures IsBuffer(z) && forall k :: 0 <= k < Size * Size ==> z[k] == R.zero
  {
    seq(Size * Size, _ => R.zero)
  }

  /**
   * The factorisation run: allocate and initialise L and U from the draws
   * that follow the input fill, train them, and compute both the product
   * of U's diagonal and U's determinant. Over any ring the two agree.
   */
  method Factorize<T(!new)>(R: Ring<T>, engine: (seq<T>, seq<T>) -> Eval<T>, eta: T, embed: real -> T, draw: nat -> T)
    returns (l: array<T>, u: array<T>, costs: seq<real>, d: T, det: T)
    requires Engine(engine)
    ensures fresh(l) && fresh(u) && l != u
    ensures l.Length == Size * Size && u.Length == Size * Size
    ensures var r := Trained(R, engine, eta, embed,
                             Initialised(R, UnitLower, Zeros(R), draw, InputDraws),
                             Initialised(R, Upper, Zeros(R), draw, InputDraws + LowerDraws),
                             MaxIterations);
            l[..] == r.l && u[..] == r.u && costs == r.costs
    ensures Shaped(R, UnitLower, l[..]) && Shaped(R, Upper, u[..])
    ensures 0 < |costs| <= MaxIterations
    ensures d == DiagProd(R, u[..], Size) && det == Det(R, u[..], Size)
    ensures Laws(R) ==> d == det
  {
    var next;
    l, next := NewFactor(R, UnitLower, draw, InputDraws);
    DrawCounts();
    u, next := NewFactor(R, Upper, draw, next);
    ghost var l0, u0 := l[..], u[..];
    costs := Train(R, l, u, engine, eta, embed, MaxIterations);
    TrainedKeepsShape(R, engine, eta, embed, l0, u0, MaxIterations);
    TrainedStops(R, engine, eta, embed, l0, u0, MaxIterations);
    ghost var uf := u[..];
    d := DiagonalProduct(R, u);
    det := Determinant(R, u, Size);
    ShapedDet(R, uf);
  }

  /**
   * Allocates a zero-filled factor and initialises it with the given
   * shape from the draws starting at `start`; returns the next draw.
   */
  method NewFactor<T>(R: Ring<T>, shape: Shape, draw: nat -> T, start: nat) returns (w: array<T>, next: nat)
    ensures fresh(w) && w.Length == Size * Size
    ensures w[..] == Initialised(R, shape, Zeros(R), draw, start) && Shaped(R, shape, w[..])
    ensures next == start + Rank(shape, Size * Size)
  {
    w := new T[Size * Size](_ => R.zero);
    assert w[..] == Zeros(R);
    next := Init(R, w, shape, draw, start);
    InitialisedShaped(R, shape, Zeros(R), draw, start);
  }

  /** Over any ring, a buffer of the shape of U has the product of its diagonal as determinant. */
  lemma ShapedDet<T(!new)>(R: Ring<T>, u: seq<T>)
    requires IsBuffer(u) && Shaped(R, Upper, u)
    ensures Laws(R) ==> Det(R, u, Size) == DiagProd(R, u, Size)
  {
    if Laws(R) {
      UpperShaped(R, u);
      DetUpperTriangular(R, u, Size);
    }
  }
}
