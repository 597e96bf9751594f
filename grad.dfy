/** What `norm_l2.grad`, 2 lamb w At(A(x) - y), guarantees, and how it
    compares with the gradient of the squared penalty lamb ||w (A(x) - y)||^2. */
module GradProperties {
  import opened Vectors
  import opened Functions

  /** lamb = 0 gives the zero gradient, whatever the adjoint. */
  lemma {:induction false} GradZeroWhenLambZero(p: NormParams, x: Vec)
    requires WellFormed(p) && |x| == Dim(p) && p.lamb == 0.0
    ensures GradL2(p, x) == Zeros(|x|)
  {
    var scaled := Scale(2.0 * p.lamb, p.w);
    var back := p.At(Residual(p, x));
    forall i | 0 <= i < |x|
      ensures GradL2(p, x)[i] == 0.0
    {
      assert scaled[i] == (2.0 * p.lamb) * p.w[i];
      assert scaled[i] == 0.0;
      assert GradL2(p, x)[i] == scaled[i] * back[i];
    }
  }

  /** With identity operators, w = 1 and y = 0 the gradient is 2 lamb x. */
  lemma {:induction false} GradUnweighted(p: NormParams, x: Vec)
    requires WellFormed(p) && |x| == Dim(p) && IdentityOps(p)
    requires p.w == Const(|x|, 1.0) && p.y == Zeros(|x|)
    ensures GradL2(p, x) == Scale(2.0 * p.lamb, x)
  {
    assert Residual(p, x) == x;
    var scaled := Scale(2.0 * p.lamb, p.w);
    forall i | 0 <= i < |x|
      ensures GradL2(p, x)[i] == Scale(2.0 * p.lamb, x)[i]
    {
      assert scaled[i] == 2.0 * p.lamb * 1.0;
      assert GradL2(p, x)[i] == scaled[i] * x[i];
    }
  }

  /** The docstring form 2 lamb At(w (A(x) - y)) agrees with the code when
      the adjoint is the identity. */
  lemma {:induction false} GradMatchesDocstringForIdentityAdjoint(p: NormParams, x: Vec)
    requires WellFormed(p) && |x| == Dim(p) && p.At == Identity
    ensures GradL2(p, x) == Scale(2.0 * p.lamb, p.At(Mul(p.w, Residual(p, x))))
  {
    var r := Residual(p, x);
    forall i | 0 <= i < |x|
      ensures GradL2(p, x)[i] == Scale(2.0 * p.lamb, Mul(p.w, r))[i]
    {
      assert GradL2(p, x)[i] == (2.0 * p.lamb * p.w[i]) * r[i];
    }
  }

  /** lamb ||v||^2. */
  function ScaledSquare(lamb: real, v: Vec): real
  {
    lamb * SumSq(v)
  }

  /** lamb ||w (A(x) - y)||^2. */
  function SquaredPenalty(p: NormParams, x: Vec): real
    requires WellFormed(p) && |x| == Dim(p)
  {
    ScaledSquare(p.lamb, Mul(p.w, Residual(p, x)))
  }

  /** 2 lamb At(w^2 (A(x) - y)), the gradient of SquaredPenalty when At is
      the adjoint of A. */
  function SquaredPenaltyGradient(p: NormParams, x: Vec): (r: Vec)
    requires WellFormed(p) && |x| == Dim(p)
    ensures |r| == |x|
  {
    Scale(2.0 * p.lamb, p.At(Mul(Square(p.w), Residual(p, x))))
  }

  lemma {:induction false} ScaledSquareOfAdd(l: real, u: Vec, v: Vec)
    requires |u| == |v|
    ensures ScaledSquare(l, Add(u, v)) == ScaledSquare(l, u) + 2.0 * l * Dot(u, v) + ScaledSquare(l, v)
  {
    SumSqOfAdd(u, v);
    MulCongruence(l, SumSq(Add(u, v)), SumSq(u) + 2.0 * Dot(u, v) + SumSq(v));
    ExpandScaled(l, SumSq(u), Dot(u, v), SumSq(v));
  }

  lemma MulCongruence(l: real, a: real, b: real)
    requires a == b
    ensures l * a == l * b
  {
  }

  lemma ExpandScaled(l: real, a: real, b: real, c: real)
    ensures l * (a + 2.0 * b + c) == l * a + 2.0 * l * b + l * c
  {
  }

  /** With identity A the weighted residual at x + h is u + v, for
      u = w (x - y) and v = w h. */
  lemma {:induction false} WeightedResidualOfSum(p: NormParams, x: Vec, h: Vec)
    requires WellFormed(p) && |x| == |h| == Dim(p) && IdentityOps(p)
    ensures Mul(p.w, Residual(p, Add(x, h))) == Add(Mul(p.w, Residual(p, x)), Mul(p.w, h))
  {
    var r := Residual(p, x);
    assert Residual(p, Add(x, h)) == Add(r, h);
    MulAdd(p.w, r, h);
  }

  /** With the identity adjoint, <2 lamb w^2 (x - y), h> = 2 lamb <w (x - y), w h>. */
  lemma {:induction false} GradientInnerProduct(p: NormParams, x: Vec, h: Vec)
    requires WellFormed(p) && |x| == |h| == Dim(p) && IdentityOps(p)
    ensures Dot(SquaredPenaltyGradient(p, x), h) == 2.0 * p.lamb * Dot(Mul(p.w, Residual(p, x)), Mul(p.w, h))
  {
    var r := Residual(p, x);
    var q := Mul(Square(p.w), r);
    assert SquaredPenaltyGradient(p, x) == Scale(2.0 * p.lamb, q);
    DotScale(2.0 * p.lamb, q, h);
    DotWeighted(p.w, r, h);
  }

  /** With identity operators SquaredPenaltyGradient is the gradient of
      SquaredPenalty: moving from x to x + h changes the penalty by its inner
      product with h plus the quadratic remainder lamb ||w h||^2. */
  lemma {:induction false} SquaredPenaltyExpansion(p: NormParams, x: Vec, h: Vec)
    requires WellFormed(p) && |x| == |h| == Dim(p) && IdentityOps(p)
    ensures SquaredPenalty(p, Add(x, h))
         == SquaredPenalty(p, x) + Dot(SquaredPenaltyGradient(p, x), h) + ScaledSquare(p.lamb, Mul(p.w, h))
  {
    WeightedResidualOfSum(p, x, h);
    GradientInnerProduct(p, x, h);
    ScaledSquareOfAdd(p.lamb, Mul(p.w, Residual(p, x)), Mul(p.w, h));
  }

  /** The code's gradient equals the squared penalty's when every weight is
      0 or 1 (identity operators). */
  lemma {:induction false} GradMatchesSquaredPenaltyGradient(p: NormParams, x: Vec)
    requires WellFormed(p) && |x| == Dim(p) && IdentityOps(p)
    requires forall i :: 0 <= i < |x| ==> p.w[i] == 0.0 || p.w[i] == 1.0
    ensures GradL2(p, x) == SquaredPenaltyGradient(p, x)
  {
    var r := Residual(p, x);
    forall i | 0 <= i < |x|
      ensures GradL2(p, x)[i] == SquaredPenaltyGradient(p, x)[i]
    {
      assert Sq(p.w[i]) == p.w[i];
      assert GradL2(p, x)[i] == (2.0 * p.lamb * p.w[i]) * r[i];
      assert SquaredPenaltyGradient(p, x)[i] == 2.0 * p.lamb * (Sq(p.w[i]) * r[i]);
    }
  }

  /** With the weight 2 they differ: lamb = 1, x = [1], y = [0] give 4 from
      the code and 8 from the squared penalty. */
  lemma GradDiffersForWeightTwo()
    ensures GradL2(MakeNorm(1, 1.0, w := Array([2.0])), [1.0]) == [4.0]
    ensures SquaredPenaltyGradient(MakeNorm(1, 1.0, w := Array([2.0])), [1.0]) == [8.0]
  {
    var p := MakeNorm(1, 1.0, w := Array([2.0]));
    assert p.y == [0.0];
    assert Residual(p, [1.0]) == [1.0];
  }
}
