/** What `norm_l2.eval`, lamb ||w (A(x) - y)||, guarantees. */
module EvalProperties {
  import opened Vectors
  import opened Functions

  /** eval is zero exactly when lamb is zero or the weighted residual
      w (A(x) - y) is the zero vector. */
  lemma {:induction false} EvalZeroIff(p: NormParams, x: Vec, norm: Vec -> real)
    requires WellFormed(p) && |x| == Dim(p) && IsL2Norm(norm)
    ensures EvalL2(p, x, norm) == 0.0 <==> (p.lamb == 0.0 || IsZero(Mul(p.w, Residual(p, x))))
  {
    var v := Mul(p.w, Residual(p, x));
    var n := norm(v);
    assert EvalL2(p, x, norm) == p.lamb * n;
    SumSqZeroIff(v);
    if p.lamb * n == 0.0 {
      ProductZero(p.lamb, n);
    }
    if Sq(n) == 0.0 {
      SqZero(n);
    }
  }

  /** The residual A(x) - y vanishes exactly where the forward operator
      hits the measurements. */
  lemma {:induction false} ResidualZeroIff(p: NormParams, x: Vec)
    requires WellFormed(p) && |x| == Dim(p)
    ensures IsZero(Residual(p, x)) <==> p.A(x) == p.y
  {
    var r := Residual(p, x);
    if IsZero(r) {
      forall i | 0 <= i < |x|
        ensures p.A(x)[i] == p.y[i]
      {
        assert r[i] == p.A(x)[i] - p.y[i];
      }
    }
  }

  /** eval is zero where the forward operator hits the measurements. */
  lemma {:induction false} EvalZeroAtMeasurement(p: NormParams, x: Vec, norm: Vec -> real)
    requires WellFormed(p) && |x| == Dim(p) && IsL2Norm(norm)
    requires p.A(x) == p.y
    ensures EvalL2(p, x, norm) == 0.0
  {
    assert IsZero(Mul(p.w, Residual(p, x)));
    EvalZeroIff(p, x, norm);
  }

  /** With identity A, w = 1 and y = 0, eval is lamb times the norm of x. */
  lemma {:induction false} EvalUnweighted(p: NormParams, x: Vec, norm: Vec -> real)
    requires WellFormed(p) && |x| == Dim(p) && IsL2Norm(norm)
    requires p.A == Identity && p.w == Const(|x|, 1.0) && p.y == Zeros(|x|)
    ensures EvalL2(p, x, norm) == p.lamb * norm(x)
  {
    assert Mul(p.w, Residual(p, x)) == x;
  }

  /** lamb = 1, identity A, w = 1, y = [1, 0]: eval([0, 0]) = 1. */
  lemma {:induction false} EvalExample(norm: Vec -> real)
    requires IsL2Norm(norm)
    ensures EvalL2(MakeNorm(2, 1.0, y := Array([1.0, 0.0])), [0.0, 0.0], norm) == 1.0
  {
    var p := MakeNorm(2, 1.0, y := Array([1.0, 0.0]));
    var v := Mul(p.w, Residual(p, [0.0, 0.0]));
    assert p.w == [1.0, 1.0];
    assert v == [-1.0, 0.0];
    assert v[1..] == [0.0];
    assert v[1..][1..] == [];
    assert SumSq(v[1..]) == Sq(0.0) + SumSq(v[1..][1..]);
    assert SumSq(v) == Sq(-1.0) + SumSq(v[1..]);
    assert SumSq(v) == Sq(1.0);
    SqRootUnique(norm(v), 1.0);
  }
}
