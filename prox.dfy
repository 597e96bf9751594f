/** What the closed-form proximal operator of the weighted L2 penalty
    guarantees: the error cases, the identity at step zero, a weight of zero
    passing a coordinate through, and (with identity operators and frame
    bound one) stationarity and minimality for the squared objective that the
    closed form solves. */
module ProxProperties {
  import opened Vectors
  import opened Functions

  /** 1/2 ||x - z||^2 + gamma ||w r||^2: the objective whose minimiser the
      closed form computes, for the residual r = A(z) - y of a candidate z. */
  function Objective(x: Vec, z: Vec, w: Vec, r: Vec, gamma: real): real
    requires |x| == |z| == |w| == |r|
  {
    0.5 * SumSq(Sub(x, z)) + gamma * SumSq(Mul(w, r))
  }

  /** The objective for the parameters of an L2 norm. */
  function ProxObjective(p: NormParams, x: Vec, z: Vec, gamma: real): real
    requires WellFormed(p) && |x| == |z| == Dim(p)
  {
    Objective(x, z, p.w, Residual(p, z), gamma)
  }

  /** The share of a single coordinate in Objective. */
  function CoordinateObjective(x: real, z: real, w: real, r: real, gamma: real): real
  {
    0.5 * Sq(x - z) + gamma * Sq(w * r)
  }

  /** Objective is the sum of its coordinates' shares. */
  lemma {:induction false} ObjectiveSplit(x: Vec, z: Vec, w: Vec, r: Vec, gamma: real)
    requires |x| == |z| == |w| == |r| > 0
    ensures Objective(x, z, w, r, gamma)
         == CoordinateObjective(x[0], z[0], w[0], r[0], gamma) + Objective(x[1..], z[1..], w[1..], r[1..], gamma)
  {
    assert Sub(x, z)[1..] == Sub(x[1..], z[1..]);
    MulTail(w, r);
    Distribute(gamma, Sq(w[0] * r[0]), SumSq(Mul(w[1..], r[1..])));
  }

  /** The gradient of ProxObjective in z when A is the identity:
      (z - x) + 2 gamma w^2 (z - y). */
  function ProxObjectiveGradient(p: NormParams, x: Vec, z: Vec, gamma: real): (r: Vec)
    requires WellFormed(p) && |x| == |z| == Dim(p)
    ensures |r| == |x|
  {
    Add(Sub(z, x), Scale(2.0 * gamma, Mul(Square(p.w), Sub(z, p.y))))
  }

  /** With a non-negative step and frame bound every divisor is at least one. */
  lemma {:induction false} ProxDenominatorAtLeastOne(p: NormParams, gamma: real)
    requires gamma >= 0.0 && p.nu >= 0.0
    ensures forall i :: 0 <= i < Dim(p) ==> ProxDenominator(p, gamma)[i] >= 1.0
  {
    var den := ProxDenominator(p, gamma);
    ProductNonneg(2.0 * gamma, p.nu);
    forall i | 0 <= i < Dim(p)
      ensures den[i] >= 1.0
    {
      SqNonneg(p.w[i]);
      ProductNonneg(2.0 * gamma * p.nu, Sq(p.w[i]));
    }
  }

  /** A tight frame with lamb, T and nu non-negative never hits a zero divisor. */
  lemma {:induction false} ProxTightSucceeds(p: NormParams, x: Vec, T: real)
    requires WellFormed(p) && |x| == Dim(p) && p.tight
    requires p.lamb >= 0.0 && T >= 0.0 && p.nu >= 0.0
    ensures ProxL2(p, x, T).Ok?
  {
    ProductNonneg(p.lamb, T);
    ProxDenominatorAtLeastOne(p, Gamma(p, T));
  }

  /** gamma = lamb * T = 0 makes `prox` return its argument unchanged, for
      any adjoint operator. */
  lemma {:induction false} ProxZeroStepIsIdentity(p: NormParams, x: Vec, T: real)
    requires WellFormed(p) && |x| == Dim(p) && p.tight
    requires p.lamb == 0.0 || T == 0.0
    ensures ProxL2(p, x, T) == Ok(x)
  {
    var gamma := Gamma(p, T);
    assert gamma == 0.0;
    var num := ProxNumerator(p, x, gamma);
    var den := ProxDenominator(p, gamma);
    assert forall i :: 0 <= i < |den| ==> den[i] == 1.0;
    assert Div(num, den) == x by {
      forall i | 0 <= i < |x|
        ensures Div(num, den)[i] == x[i]
      {
        assert num[i] == x[i];
      }
    }
  }

  /** With the identity adjoint, a coordinate of weight zero is returned
      unchanged. */
  lemma {:induction false} ProxZeroWeightPassThrough(p: NormParams, x: Vec, T: real, i: int)
    requires WellFormed(p) && |x| == Dim(p) && p.At == Identity
    requires 0 <= i < |x| && p.w[i] == 0.0
    requires ProxL2(p, x, T).Ok?
    ensures ProxL2(p, x, T).value[i] == x[i]
  {
    var gamma := Gamma(p, T);
    var sol := ProxL2(p, x, T).value;
    assert ProxDenominator(p, gamma)[i] == 1.0;
    assert ProxNumerator(p, x, gamma)[i] == x[i];
    assert sol[i] * ProxDenominator(p, gamma)[i] == ProxNumerator(p, x, gamma)[i];
  }

  /** One coordinate of the closed form is a zero of the gradient. */
  lemma StationaryCoordinate(s: real, x: real, y: real, q: real, g: real)
    requires s * (1.0 + 2.0 * g * q) == x + 2.0 * g * (y * q)
    ensures (s - x) + 2.0 * g * (q * (s - y)) == 0.0
  {
  }

  /** The coordinate i of the gradient at the closed-form solution. */
  lemma {:induction false} StationaryAt(p: NormParams, x: Vec, sol: Vec, gamma: real, i: int)
    requires WellFormed(p) && |x| == |sol| == Dim(p) && p.At == Identity && p.nu == 1.0
    requires IsQuotient(sol, ProxNumerator(p, x, gamma), ProxDenominator(p, gamma))
    requires 0 <= i < |x|
    ensures ProxObjectiveGradient(p, x, sol, gamma)[i] == 0.0
  {
    var num := ProxNumerator(p, x, gamma);
    var den := ProxDenominator(p, gamma);
    var q := Sq(p.w[i]);
    assert num[i] == x[i] + 2.0 * gamma * (p.y[i] * q);
    assert den[i] == 1.0 + 2.0 * gamma * q;
    assert sol[i] * den[i] == num[i];
    StationaryCoordinate(sol[i], x[i], p.y[i], q, gamma);
    assert Mul(Square(p.w), Sub(sol, p.y))[i] == q * (sol[i] - p.y[i]);
  }

  /** With identity operators and nu = 1 the result of `prox` is a
      stationary point of ProxObjective. */
  lemma {:induction false} ProxStationary(p: NormParams, x: Vec, T: real)
    requires WellFormed(p) && |x| == Dim(p) && IdentityOps(p) && p.nu == 1.0
    requires ProxL2(p, x, T).Ok?
    ensures IsZero(ProxObjectiveGradient(p, x, ProxL2(p, x, T).value, Gamma(p, T)))
  {
    var gamma := Gamma(p, T);
    var sol := ProxL2(p, x, T).value;
    forall i | 0 <= i < |x|
      ensures ProxObjectiveGradient(p, x, sol, gamma)[i] == 0.0
    {
      StationaryAt(p, x, sol, gamma, i);
    }
  }

  lemma GapIdentity(x: real, z: real, s: real, w: real, y: real, g: real)
    requires s * (1.0 + 2.0 * g * Sq(w)) == x + 2.0 * g * (y * Sq(w))
    ensures 0.5 * Sq(x - z) + g * Sq(w * (z - y))
         == 0.5 * Sq(x - s) + g * Sq(w * (s - y)) + 0.5 * (1.0 + 2.0 * g * Sq(w)) * Sq(z - s)
  {
  }

  /** One coordinate: the share at z exceeds the share at the closed-form
      solution s by 1/2 (1 + 2 g w^2) (z - s)^2, which is not negative. */
  lemma CoordinateGap(x: real, z: real, s: real, w: real, y: real, g: real)
    requires g >= 0.0
    requires s * (1.0 + 2.0 * g * Sq(w)) == x + 2.0 * g * (y * Sq(w))
    ensures CoordinateObjective(x, z, w, z - y, g) >= CoordinateObjective(x, s, w, s - y, g)
  {
    GapIdentity(x, z, s, w, y, g);
    var c := 0.5 * (1.0 + 2.0 * g * Sq(w));
    SqNonneg(w);
    SqNonneg(z - s);
    ProductNonneg(2.0 * g, Sq(w));
    ProductNonneg(c, Sq(z - s));
  }

  /** Summed over the coordinates: a vector s solving every coordinate's
      equation minimises 1/2 ||x - z||^2 + g ||w (z - y)||^2. */
  lemma {:induction false} SeparableMinimizer(x: Vec, z: Vec, s: Vec, w: Vec, y: Vec, g: real)
    requires |x| == |z| == |s| == |w| == |y| && g >= 0.0
    requires forall i :: 0 <= i < |x| ==> s[i] * (1.0 + 2.0 * g * Sq(w[i])) == x[i] + 2.0 * g * (y[i] * Sq(w[i]))
    ensures Objective(x, s, w, Sub(s, y), g) <= Objective(x, z, w, Sub(z, y), g)
  {
    if |x| > 0 {
      SeparableMinimizer(x[1..], z[1..], s[1..], w[1..], y[1..], g);
      CoordinateGap(x[0], z[0], s[0], w[0], y[0], g);
      ResidualObjectiveSplit(x, s, w, y, g);
      ResidualObjectiveSplit(x, z, w, y, g);
    }
  }

  /** ObjectiveSplit for the residual z - y. */
  lemma {:induction false} ResidualObjectiveSplit(x: Vec, z: Vec, w: Vec, y: Vec, g: real)
    requires |x| == |z| == |w| == |y| > 0
    ensures Objective(x, z, w, Sub(z, y), g)
         == CoordinateObjective(x[0], z[0], w[0], z[0] - y[0], g) + Objective(x[1..], z[1..], w[1..], Sub(z[1..], y[1..]), g)
  {
    ObjectiveSplit(x, z, w, Sub(z, y), g);
    assert Sub(z, y)[1..] == Sub(z[1..], y[1..]);
  }

  /** With identity operators, nu = 1 and gamma >= 0 the result of `prox`
      minimises ProxObjective: no z of the same length does better. */
  lemma {:induction false} ProxMinimizesObjective(p: NormParams, x: Vec, T: real, z: Vec)
    requires WellFormed(p) && |x| == |z| == Dim(p) && IdentityOps(p) && p.nu == 1.0
    requires Gamma(p, T) >= 0.0
    requires ProxL2(p, x, T).Ok?
    ensures ProxObjective(p, x, ProxL2(p, x, T).value, Gamma(p, T)) <= ProxObjective(p, x, z, Gamma(p, T))
  {
    var gamma := Gamma(p, T);
    var sol := ProxL2(p, x, T).value;
    var num := ProxNumerator(p, x, gamma);
    var den := ProxDenominator(p, gamma);
    forall i | 0 <= i < |x|
      ensures sol[i] * (1.0 + 2.0 * gamma * Sq(p.w[i])) == x[i] + 2.0 * gamma * (p.y[i] * Sq(p.w[i]))
    {
      assert sol[i] * den[i] == num[i];
    }
    SeparableMinimizer(x, z, sol, p.w, p.y, gamma);
    assert Residual(p, sol) == Sub(sol, p.y);
    assert Residual(p, z) == Sub(z, p.y);
  }

  /** With identity adjoint, one coordinate of the closed form, shifted by
      the measurement, is x - y divided by the divisor. */
  lemma ShiftedCoordinate(s: real, x: real, y: real, q: real, g: real)
    requires s * (1.0 + 2.0 * g * q) == x + 2.0 * g * (y * q)
    ensures (s - y) * (1.0 + 2.0 * g * q) == x - y
  {
  }

  /** A positive factor can be cancelled from a product that is not negative. */
  lemma SignFromProduct(s: real, d: real, e: real)
    requires d > 0.0 && s * d == e && e >= 0.0
    ensures s >= 0.0
  {
    if s < 0.0 {
      MulPos(-s, d);
    }
  }

  /** A positive factor can be cancelled from an inequality. */
  lemma OrderFromProduct(a: real, b: real, d: real)
    requires d > 0.0 && a * d >= b * d
    ensures a >= b
  {
    if a < b {
      MulPos(b - a, d);
    }
  }

  /** Dividing one value by a larger divisor that is at least one gives a
      result no farther from zero. */
  lemma ShrinkByDivisor(s1: real, s2: real, d1: real, d2: real, e: real)
    requires 1.0 <= d1 <= d2 && s1 * d1 == e && s2 * d2 == e
    ensures Sq(s2) <= Sq(s1)
  {
    if e >= 0.0 {
      SignFromProduct(s1, d1, e);
      SignFromProduct(s2, d2, e);
      ProductNonneg(s1, d2 - d1);
      assert s1 * d2 - s1 * d1 == s1 * (d2 - d1);
      OrderFromProduct(s1, s2, d2);
      if s1 > s2 {
        SqStrictMono(s1, s2);
      }
    } else {
      SignFromProduct(-s1, d1, -e);
      SignFromProduct(-s2, d2, -e);
      ProductNonneg(-s1, d2 - d1);
      assert (-s1) * d2 - (-s1) * d1 == (-s1) * (d2 - d1);
      OrderFromProduct(-s1, -s2, d2);
      if -s1 > -s2 {
        SqStrictMono(-s1, -s2);
      }
      assert Sq(-s1) == Sq(s1) && Sq(-s2) == Sq(s2);
    }
  }

  /** With 0 <= g1 <= g2 the divisors 1 + 2 g q are ordered and at least one. */
  lemma DivisorsOrdered(g1: real, g2: real, q: real)
    requires 0.0 <= g1 <= g2 && q >= 0.0
    ensures 1.0 <= 1.0 + 2.0 * g1 * q <= 1.0 + 2.0 * g2 * q
  {
    ProductNonneg(2.0 * g1, q);
    ProductNonneg(2.0 * (g2 - g1), q);
    assert 2.0 * g2 * q - 2.0 * g1 * q == 2.0 * (g2 - g1) * q;
  }

  /** One coordinate of the closed form at two steps g1 <= g2. */
  lemma MonotoneCoordinate(s1: real, s2: real, x: real, y: real, q: real, g1: real, g2: real)
    requires 0.0 <= g1 <= g2 && q >= 0.0
    requires s1 * (1.0 + 2.0 * g1 * q) == x + 2.0 * g1 * (y * q)
    requires s2 * (1.0 + 2.0 * g2 * q) == x + 2.0 * g2 * (y * q)
    ensures Sq(s2 - y) <= Sq(s1 - y)
  {
    DivisorsOrdered(g1, g2, q);
    ShiftedCoordinate(s1, x, y, q, g1);
    ShiftedCoordinate(s2, x, y, q, g2);
    ShrinkByDivisor(s1 - y, s2 - y, 1.0 + 2.0 * g1 * q, 1.0 + 2.0 * g2 * q, x - y);
  }

  /** Coordinate i of the closed form with identity adjoint and nu = 1. */
  lemma {:induction false} ClosedFormAt(p: NormParams, x: Vec, s: Vec, g: real, i: int)
    requires WellFormed(p) && |x| == |s| == Dim(p) && p.At == Identity && p.nu == 1.0
    requires IsQuotient(s, ProxNumerator(p, x, g), ProxDenominator(p, g))
    requires 0 <= i < |x|
    ensures s[i] * (1.0 + 2.0 * g * Sq(p.w[i])) == x[i] + 2.0 * g * (p.y[i] * Sq(p.w[i]))
  {
    var q := Sq(p.w[i]);
    assert ProxDenominator(p, g)[i] == 1.0 + 2.0 * g * q;
    assert ProxNumerator(p, x, g)[i] == x[i] + 2.0 * g * (p.y[i] * q);
    assert s[i] * ProxDenominator(p, g)[i] == ProxNumerator(p, x, g)[i];
  }

  /** A larger step moves no coordinate of `prox` farther from the
      measurement (identity adjoint, nu = 1, tight, gamma >= 0). */
  lemma {:induction false} ProxMonotoneInStep(p: NormParams, x: Vec, T1: real, T2: real)
    requires WellFormed(p) && |x| == Dim(p) && p.tight && p.At == Identity && p.nu == 1.0
    requires 0.0 <= Gamma(p, T1) <= Gamma(p, T2)
    ensures ProxL2(p, x, T1).Ok? && ProxL2(p, x, T2).Ok?
    ensures forall i :: 0 <= i < |x| ==>
      Sq(ProxL2(p, x, T2).value[i] - p.y[i]) <= Sq(ProxL2(p, x, T1).value[i] - p.y[i])
  {
    var g1 := Gamma(p, T1);
    var g2 := Gamma(p, T2);
    ProxDenominatorAtLeastOne(p, g1);
    ProxDenominatorAtLeastOne(p, g2);
    var s1 := ProxL2(p, x, T1).value;
    var s2 := ProxL2(p, x, T2).value;
    forall i | 0 <= i < |x|
      ensures Sq(s2[i] - p.y[i]) <= Sq(s1[i] - p.y[i])
    {
      ClosedFormAt(p, x, s1, g1, i);
      ClosedFormAt(p, x, s2, g2, i);
      SqNonneg(p.w[i]);
      MonotoneCoordinate(s1[i], s2[i], x[i], p.y[i], Sq(p.w[i]), g1, g2);
    }
  }

  /** Exchanging the two coordinates of a plane vector (any other vector is
      left as it is). */
  function Swap(v: Vec): (r: Vec)
    ensures |r| == |v|
  {
    if |v| == 2 then [v[1], v[0]] else v
  }

  /** Swap is its own inverse and its own adjoint and keeps the norm: a
      tight frame with nu = 1. */
  lemma SwapIsTightFrame(u: Vec, v: Vec)
    requires |u| == |v| == 2
    ensures Swap(Swap(v)) == v
    ensures SumSq(Swap(v)) == SumSq(v)
    ensures Dot(Swap(u), v) == Dot(u, Swap(v))
  {
    assert Swap(v)[1..] == [v[0]];
    assert v[1..] == [v[1]];
    assert Swap(u)[1..] == [u[0]];
    assert u[1..] == [u[1]];
  }

  /** The parameters of the example below: A = At = Swap, w = [1, 0],
      y = [1, 0], lamb = 1, tight, nu = 1. */
  function SwapNorm(): (p: NormParams)
    ensures WellFormed(p) && Dim(p) == 2
    ensures p.A == Swap && p.At == Swap && p.w == [1.0, 0.0] && p.y == [1.0, 0.0]
    ensures p.lamb == 1.0 && p.tight && p.nu == 1.0
  {
    assert KeepsDim(Swap, 2);
    var p := MakeNorm(2, 1.0, w := Array([1.0, 0.0]), y := Array([1.0, 0.0]), A := Some(Swap));
    assert p.w == [1.0, 0.0] && p.y == [1.0, 0.0];
    p
  }

  lemma SumSqPair(a: real, b: real)
    ensures SumSq([a, b]) == Sq(a) + Sq(b)
  {
    assert [a, b][1..] == [b];
    assert [b][1..] == [];
    assert SumSq([b]) == Sq(b);
  }

  lemma SwapProx()
    ensures ProxL2(SwapNorm(), [0.0, 0.0], 1.0) == Ok([0.0, 2.0])
  {
    var p := SwapNorm();
    var num := ProxNumerator(p, [0.0, 0.0], 1.0);
    var den := ProxDenominator(p, 1.0);
    assert Mul(p.y, Square(p.w)) == [1.0, 0.0];
    assert num == [0.0, 2.0];
    assert den == [3.0, 1.0];
    assert Div(num, den) == [0.0, 2.0];
  }

  /** The objective of the example at [0, z1], whose residual is [z1 - 1, 0]. */
  lemma SwapObjective(z1: real, r: real)
    requires r == z1 - 1.0
    ensures ProxObjective(SwapNorm(), [0.0, 0.0], [0.0, z1], 1.0) == 0.5 * Sq(-z1) + Sq(r)
  {
    var p := SwapNorm();
    var z := [0.0, z1];
    assert Residual(p, z) == [r, 0.0];
    assert Mul(p.w, Residual(p, z)) == [r, 0.0];
    SumSqPair(r, 0.0);
    assert Sub([0.0, 0.0], z) == [0.0, -z1];
    SumSqPair(0.0, -z1);
  }

  /** For a tight frame other than the identity and weights that are not
      all equal, `prox` need not minimise ProxObjective: A = At = Swap,
      w = [1, 0], y = [1, 0], x = [0, 0], lamb = T = 1 give [0, 2], whose
      objective is 3, while [0, 2/3] has objective 1/3. */
  lemma ProxNotMinimizerForSwap()
    ensures var p := SwapNorm();
      && ProxL2(p, [0.0, 0.0], 1.0) == Ok([0.0, 2.0])
      && Gamma(p, 1.0) == 1.0
      && ProxObjective(p, [0.0, 0.0], [0.0, 2.0], 1.0) == 3.0
      && ProxObjective(p, [0.0, 0.0], [0.0, 2.0 / 3.0], 1.0) == 1.0 / 3.0
  {
    SwapProx();
    SwapObjective(2.0, 1.0);
    SwapObjective(2.0 / 3.0, -1.0 / 3.0);
  }

  /** The example above at any step T >= 0: `prox` returns [0, 2 T], and its
      weighted residual w (A(z) - y) is [2 T - 1, 0]. */
  lemma SwapProxAt(T: real)
    requires T >= 0.0
    ensures ProxL2(SwapNorm(), [0.0, 0.0], T) == Ok([0.0, 2.0 * T])
    ensures Mul(SwapNorm().w, Residual(SwapNorm(), [0.0, 2.0 * T])) == [2.0 * T - 1.0, 0.0]
  {
    var p := SwapNorm();
    var num := ProxNumerator(p, [0.0, 0.0], T);
    var den := ProxDenominator(p, T);
    assert Mul(p.y, Square(p.w)) == [1.0, 0.0];
    assert num == [0.0, 2.0 * T];
    assert den == [1.0 + 2.0 * T, 1.0];
    assert Div(num, den) == [0.0, 2.0 * T];
    assert Residual(p, [0.0, 2.0 * T]) == [2.0 * T - 1.0, 0.0];
  }

  /** Outside identity At with nu = 1, a larger step can move `prox` away
      from the measurement: in the example above coordinate 1 is 2 T, so
      for 0 <= T1 < T2 it ends strictly farther from y[1] = 0. */
  lemma ProxNotMonotoneForSwap(T1: real, T2: real)
    requires 0.0 <= T1 < T2
    ensures var p := SwapNorm();
      && ProxL2(p, [0.0, 0.0], T1).Ok? && ProxL2(p, [0.0, 0.0], T2).Ok?
      && Gamma(p, T1) < Gamma(p, T2)
      && Sq(ProxL2(p, [0.0, 0.0], T2).value[1] - p.y[1]) > Sq(ProxL2(p, [0.0, 0.0], T1).value[1] - p.y[1])
  {
    SwapProxAt(T1);
    SwapProxAt(T2);
    SqStrictMono(2.0 * T2, 2.0 * T1);
    assert 2.0 * T2 - 0.0 == 2.0 * T2 && 2.0 * T1 - 0.0 == 2.0 * T1;
  }

  /** lamb = 1, identity operators, w = 1, nu = 1, y = [1, 0], x = [0, 0] and
      T = 1 give [2/3, 0]. */
  lemma ProxExample()
    ensures ProxL2(MakeNorm(2, 1.0, y := Array([1.0, 0.0])), [0.0, 0.0], 1.0) == Ok([2.0 / 3.0, 0.0])
  {
    var p := MakeNorm(2, 1.0, y := Array([1.0, 0.0]));
    var x := [0.0, 0.0];
    assert p.w == [1.0, 1.0];
    var num := ProxNumerator(p, x, 1.0);
    var den := ProxDenominator(p, 1.0);
    assert num == [2.0, 0.0];
    assert den == [3.0, 3.0];
    assert Div(num, den) == [2.0 / 3.0, 0.0];
  }

  /** The objective as the docstring of `prox` writes it, with the norm not
      squared: 1/2 ||x - z||^2 + T eval(z), that is gamma ||w (A(z) - y)||. */
  ghost function DocstringObjective(p: NormParams, x: Vec, z: Vec, T: real, norm: Vec -> real): real
    requires WellFormed(p) && |x| == |z| == Dim(p) && IsL2Norm(norm)
  {
    0.5 * SumSq(Sub(x, z)) + T * EvalL2(p, z, norm)
  }

  /** The closed form does not minimise the docstring's objective: in one
      dimension with y = [1], x = [0] and lamb = T = 1 it returns [2/3], where
      that objective is 5/9, while at [1] it is 1/2. */
  lemma {:induction false} ProxMissesDocstringObjective(norm: Vec -> real)
    requires IsL2Norm(norm)
    ensures var p := MakeNorm(1, 1.0, y := Array([1.0]));
      && ProxL2(p, [0.0], 1.0) == Ok([2.0 / 3.0])
      && DocstringObjective(p, [0.0], [1.0], 1.0, norm) < DocstringObjective(p, [0.0], [2.0 / 3.0], 1.0, norm)
  {
    var p := MakeNorm(1, 1.0, y := Array([1.0]));
    var x := [0.0];
    assert p.w == [1.0];
    var num := ProxNumerator(p, x, 1.0);
    var den := ProxDenominator(p, 1.0);
    assert num == [2.0];
    assert den == [3.0];
    assert Div(num, den) == [2.0 / 3.0];

    var near := Mul(p.w, Residual(p, [2.0 / 3.0]));
    assert near == [-1.0 / 3.0];
    assert SumSq(near) == Sq(1.0 / 3.0);
    SqRootUnique(norm(near), 1.0 / 3.0);
    assert EvalL2(p, [2.0 / 3.0], norm) == 1.0 / 3.0;
    assert SumSq(Sub(x, [2.0 / 3.0])) == 4.0 / 9.0;

    var far := Mul(p.w, Residual(p, [1.0]));
    assert far == [0.0];
    SqZero(norm(far));
    assert EvalL2(p, [1.0], norm) == 0.0;
    assert SumSq(Sub(x, [1.0])) == 1.0;
  }
}
