/** Objective functions handed to proximal-splitting solvers (the module
    pyunlocbox/functions.py): the interface class `func`, whose three
    operations fail until a subclass defines them, the parameter-holding
    class `norm`, and the weighted L2 penalty `norm_l2` with its value,
    closed-form proximal operator and gradient. Numbers are exact reals. */
module Functions {
  import opened Vectors

  /** The default operator `lambda x: x`. */
  function Identity(v: Vec): (r: Vec)
    ensures r == v
  {
    v
  }

  /** Forward and adjoint operators are arbitrary callables. The model knows
      of them only that they map inputs of the dimension at hand to outputs of
      that dimension; linearity, adjointness and tightness are stated as
      predicates where a property needs them. */
  type Op = Vec -> Vec

  ghost predicate KeepsDim(f: Op, n: nat)
  {
    forall v :: |v| == n ==> |f(v)| == n
  }

  datatype Option<T> = None | Some(value: T)

  /** Python's NotImplementedError with its message, and the zero divisor
      that numpy would turn into a coordinate that is infinite or NaN. */
  datatype Error = NotImplementedError(message: string) | DivisionByZero

  datatype Result<T> = Ok(value: T) | Err(error: Error)

  /** The message of the three operations of the base class. */
  const UndefinedMethod: string := "Class user should define this method"

  /** The message of `prox` on an operator that is not a tight frame. */
  const NonTightFrame: string := "Not implemented for non tight frame"

  /** A weight or measurement argument as `np.array` turns it into an array:
      a scalar (a 0-d array that broadcasts) or a vector. */
  datatype Arg = Scalar(c: real) | Array(v: Vec)

  /** The argument broadcasts against inputs of length n. */
  predicate Fits(a: Arg, n: nat)
  {
    a.Array? ==> |a.v| == n
  }

  function Broadcast(a: Arg, n: nat): (r: Vec)
    requires Fits(a, n)
    ensures |r| == n
    ensures forall i :: 0 <= i < n ==> r[i] == (if a.Scalar? then a.c else a.v[i])
  {
    match a
    case Scalar(c) => Const(n, c)
    case Array(v) => v
  }

  /** The attributes that `norm.__init__` stores: the regularisation
      parameter, the weights, the measurements, the forward and adjoint
      operators, the tight-frame flag and the frame bound. A datatype value:
      no operation can change them. */
  datatype NormParams = NormParams(lamb: real, w: Vec, y: Vec, A: Op, At: Op, tight: bool, nu: real)

  /** Both operators are the default `lambda x: x`. */
  ghost predicate IdentityOps(p: NormParams)
  {
    p.A == Identity && p.At == Identity
  }

  /** Weights and measurements have the dimension of the inputs, and both
      operators keep it. */
  ghost predicate WellFormed(p: NormParams)
  {
    |p.w| == |p.y| && KeepsDim(p.A, |p.w|) && KeepsDim(p.At, |p.w|)
  }

  function Dim(p: NormParams): nat
  {
    |p.w|
  }

  /** `norm.__init__` for inputs of length n, with the same defaults: w = 1,
      y = 0, A the identity, At the forward operator, tight, nu = 1. A
      missing operator is `None`, the falsy value of `if A:`. */
  function MakeNorm(n: nat, lamb: real, w: Arg := Scalar(1.0), y: Arg := Scalar(0.0),
                    A: Option<Op> := None, At: Option<Op> := None,
                    tight: bool := true, nu: real := 1.0): (p: NormParams)
    requires Fits(w, n) && Fits(y, n)
    requires A.Some? ==> KeepsDim(A.value, n)
    requires At.Some? ==> KeepsDim(At.value, n)
    ensures WellFormed(p) && Dim(p) == n
    ensures p.lamb == lamb && p.tight == tight && p.nu == nu
    ensures p.w == Broadcast(w, n) && p.y == Broadcast(y, n)
    ensures p.A == (if A.Some? then A.value else Identity)
    ensures p.At == (if At.Some? then At.value else p.A)
  {
    var forward := if A.Some? then A.value else Identity;
    var adjoint := if At.Some? then At.value else forward;
    NormParams(lamb, Broadcast(w, n), Broadcast(y, n), forward, adjoint, tight, nu)
  }

  /** With every optional argument omitted: identity operators (the adjoint
      being the forward operator itself), w = 1, y = 0, tight, nu = 1. */
  lemma MakeNormDefaults(n: nat, lamb: real)
    ensures var p := MakeNorm(n, lamb);
      && IdentityOps(p) && p.At == p.A
      && p.w == Const(n, 1.0) && p.y == Zeros(n)
      && p.tight && p.nu == 1.0
  {
  }

  /** The objects a solver may be handed: an instance of the base class,
      an instance of `norm` (which overrides nothing) and an L2 norm. */
  datatype Func = BaseFunc | Norm(params: NormParams) | NormL2(params: NormParams)

  /** `norm` is the Euclidean norm: non-negative, and its square is the sum
      of squares. (The square root itself is not computed.) */
  ghost predicate IsL2Norm(norm: Vec -> real)
  {
    forall v {:trigger norm(v)} :: norm(v) >= 0.0 && Sq(norm(v)) == SumSq(v)
  }

  /** The residual A(x) - y. */
  function Residual(p: NormParams, x: Vec): (r: Vec)
    requires WellFormed(p) && |x| == Dim(p)
    ensures |r| == |x|
  {
    Sub(p.A(x), p.y)
  }

  /** lamb^2 ||v||^2. */
  function ScaledSumSq(lamb: real, v: Vec): real
  {
    Sq(lamb) * SumSq(v)
  }

  /** lamb times the norm of v, stated through its square and its sign,
      which together fix it. */
  function ScaledNorm(lamb: real, v: Vec, norm: Vec -> real): (r: real)
    requires IsL2Norm(norm)
    ensures Sq(r) == ScaledSumSq(lamb, v)
    ensures lamb >= 0.0 ==> r >= 0.0
    ensures lamb <= 0.0 ==> r <= 0.0
  {
    var n := norm(v);
    SqOfProduct(lamb, n);
    if lamb >= 0.0 then ProductNonneg(lamb, n); lamb * n else ProductNonneg(-lamb, n); lamb * n
  }

  /** `norm_l2.eval`: lamb * ||w * (A(x) - y)||. */
  function EvalL2(p: NormParams, x: Vec, norm: Vec -> real): (r: real)
    requires WellFormed(p) && |x| == Dim(p) && IsL2Norm(norm)
    ensures Sq(r) == ScaledSumSq(p.lamb, Mul(p.w, Residual(p, x)))
    ensures p.lamb >= 0.0 ==> r >= 0.0
    ensures p.lamb <= 0.0 ==> r <= 0.0
  {
    ScaledNorm(p.lamb, Mul(p.w, Residual(p, x)), norm)
  }

  /** gamma = lamb * T, the step of the scaled proximal operator. */
  function Gamma(p: NormParams, T: real): (gamma: real)
    ensures p.lamb == 0.0 || T == 0.0 ==> gamma == 0.0
    ensures p.lamb >= 0.0 && T >= 0.0 ==> gamma >= 0.0
  {
    p.lamb * T
  }

  /** x + 2 gamma At(y w^2), the vector that `prox` divides. */
  function ProxNumerator(p: NormParams, x: Vec, gamma: real): (r: Vec)
    requires WellFormed(p) && |x| == Dim(p)
    ensures |r| == |x|
    ensures gamma == 0.0 ==> r == x
    ensures p.At == Identity ==> forall i :: 0 <= i < |x| ==> (p.w[i] == 0.0 ==> r[i] == x[i])
  {
    var r := Add(x, Scale(2.0 * gamma, p.At(Mul(p.y, Square(p.w)))));
    assert gamma == 0.0 ==> r == x by {
      if gamma == 0.0 {
        assert forall i :: 0 <= i < |x| ==> r[i] == x[i];
      }
    }
    r
  }

  /** 1 + 2 gamma nu w^2, the elementwise divisor of `prox`. */
  function ProxDenominator(p: NormParams, gamma: real): (r: Vec)
    ensures |r| == Dim(p)
    ensures gamma == 0.0 ==> r == Const(Dim(p), 1.0)
    ensures forall i :: 0 <= i < Dim(p) ==> (p.w[i] == 0.0 ==> r[i] == 1.0)
  {
    Add(Const(Dim(p), 1.0), Scale(2.0 * gamma * p.nu, Square(p.w)))
  }

  /** `norm_l2.prox`: the closed form for a tight frame, and the
      NotImplementedError otherwise. Each coordinate of a result solves
      sol[i] * (1 + 2 gamma nu w[i]^2) == x[i] + 2 gamma At(y w^2)[i]. */
  function ProxL2(p: NormParams, x: Vec, T: real): (r: Result<Vec>)
    requires WellFormed(p) && |x| == Dim(p)
    ensures !p.tight ==> r == Err(NotImplementedError(NonTightFrame))
    ensures p.tight ==> (r.Ok? <==> NoZero(ProxDenominator(p, Gamma(p, T))))
    ensures p.tight && r.Err? ==> r.error == DivisionByZero
    ensures r.Ok? ==> IsQuotient(r.value, ProxNumerator(p, x, Gamma(p, T)), ProxDenominator(p, Gamma(p, T)))
  {
    var gamma := Gamma(p, T);
    if p.tight then
      var den := ProxDenominator(p, gamma);
      if NoZero(den) then Ok(Div(ProxNumerator(p, x, gamma), den)) else Err(DivisionByZero)
    else
      Err(NotImplementedError(NonTightFrame))
  }

  /** `norm_l2.grad`, as the code computes it: 2 lamb w At(A(x) - y). */
  function GradL2(p: NormParams, x: Vec): (r: Vec)
    requires WellFormed(p) && |x| == Dim(p)
    ensures |r| == |x|
  {
    Mul(Scale(2.0 * p.lamb, p.w), p.At(Residual(p, x)))
  }

  /** The operations as a solver calls them. Every object but an L2 norm
      answers with the base class's NotImplementedError. */
  function Eval(f: Func, x: Vec, norm: Vec -> real): (r: Result<real>)
    requires f.NormL2? ==> WellFormed(f.params) && |x| == Dim(f.params) && IsL2Norm(norm)
    ensures !f.NormL2? ==> r == Err(NotImplementedError(UndefinedMethod))
    ensures f.NormL2? ==> r == Ok(EvalL2(f.params, x, norm))
    ensures f.NormL2? ==> (f.params.lamb >= 0.0 ==> r.value >= 0.0)
  {
    match f
    case NormL2(p) => Ok(EvalL2(p, x, norm))
    case _ => Err(NotImplementedError(UndefinedMethod))
  }

  function Prox(f: Func, x: Vec, T: real): (r: Result<Vec>)
    requires f.NormL2? ==> WellFormed(f.params) && |x| == Dim(f.params)
    ensures !f.NormL2? ==> r == Err(NotImplementedError(UndefinedMethod))
    ensures f.NormL2? ==> r == ProxL2(f.params, x, T)
    ensures f.NormL2? && !f.params.tight ==> r == Err(NotImplementedError(NonTightFrame))
  {
    match f
    case NormL2(p) => ProxL2(p, x, T)
    case _ => Err(NotImplementedError(UndefinedMethod))
  }

  function Grad(f: Func, x: Vec): (r: Result<Vec>)
    requires f.NormL2? ==> WellFormed(f.params) && |x| == Dim(f.params)
    ensures !f.NormL2? ==> r == Err(NotImplementedError(UndefinedMethod))
    ensures f.NormL2? ==> r == Ok(GradL2(f.params, x))
  {
    match f
    case NormL2(p) => Ok(GradL2(p, x))
    case _ => Err(NotImplementedError(UndefinedMethod))
  }

  /** `norm_l2.prox` as the code runs it: build the numerator into an array
      `sol`, then divide it in place by the denominator (`sol /= ...`). */
  method ProxInPlace(p: NormParams, x: Vec, T: real) returns (r: Result<Vec>)
    requires WellFormed(p) && |x| == Dim(p)
    ensures r == ProxL2(p, x, T)
  {
    if p.tight {
      var gamma := Gamma(p, T);
      var num := ProxNumerator(p, x, gamma);
      var den := ProxDenominator(p, gamma);
      var sol := ToArray(num);
      var ok := DivideInPlace(sol, den);
      if ok {
        r := Ok(sol[..]);
      } else {
        r := Err(DivisionByZero);
      }
    } else {
      r := Err(NotImplementedError(NonTightFrame));
    }
  }
}
