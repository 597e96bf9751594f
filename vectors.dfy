/** Real vectors as sequences, with the elementwise arithmetic that numpy
    applies to arrays of one shape, and the sums (squared norm, inner
    product) that the L2 penalty is built from. */
module Vectors {

  type Vec = seq<real>

  /** The constant vector of length n, the broadcast of a scalar. */
  function Const(n: nat, c: real): (r: Vec)
    ensures |r| == n
    ensures forall i :: 0 <= i < n ==> r[i] == c
  {
    seq(n, _ => c)
  }

  function Zeros(n: nat): (r: Vec)
    ensures |r| == n
    ensures forall i :: 0 <= i < n ==> r[i] == 0.0
  {
    Const(n, 0.0)
  }

  function Add(a: Vec, b: Vec): (r: Vec)
    requires |a| == |b|
    ensures |r| == |a|
    ensures forall i :: 0 <= i < |a| ==> r[i] == a[i] + b[i]
  {
    seq(|a|, i requires 0 <= i < |a| => a[i] + b[i])
  }

  function Sub(a: Vec, b: Vec): (r: Vec)
    requires |a| == |b|
    ensures |r| == |a|
    ensures forall i :: 0 <= i < |a| ==> r[i] == a[i] - b[i]
  {
    seq(|a|, i requires 0 <= i < |a| => a[i] - b[i])
  }

  /** Elementwise product, numpy's `a * b` on arrays of one shape. */
  function Mul(a: Vec, b: Vec): (r: Vec)
    requires |a| == |b|
    ensures |r| == |a|
    ensures forall i :: 0 <= i < |a| ==> r[i] == a[i] * b[i]
  {
    seq(|a|, i requires 0 <= i < |a| => a[i] * b[i])
  }

  /** The square of a real. */
  function Sq(c: real): real
  {
    c * c
  }

  /** numpy's `a**2`. */
  function Square(a: Vec): (r: Vec)
    ensures |r| == |a|
    ensures forall i :: 0 <= i < |a| ==> r[i] == Sq(a[i])
  {
    seq(|a|, i requires 0 <= i < |a| => Sq(a[i]))
  }

  /** A scalar times a vector. */
  function Scale(c: real, a: Vec): (r: Vec)
    ensures |r| == |a|
    ensures forall i :: 0 <= i < |a| ==> r[i] == c * a[i]
  {
    seq(|a|, i requires 0 <= i < |a| => c * a[i])
  }

  predicate NoZero(a: Vec)
  {
    forall i :: 0 <= i < |a| ==> a[i] != 0.0
  }

  /** The quotient a / b of two reals. */
  function Quot(a: real, b: real): real
    requires b != 0.0
  {
    a / b
  }

  lemma QuotSolves(a: real, b: real)
    requires b != 0.0
    ensures Quot(a, b) * b == a
  {
  }

  /** Each coordinate of q solves q[i] * b[i] == a[i]. */
  predicate IsQuotient(q: Vec, a: Vec, b: Vec)
  {
    |q| == |a| == |b| && forall i :: 0 <= i < |q| ==> q[i] * b[i] == a[i]
  }

  /** Elementwise quotient. */
  function Div(a: Vec, b: Vec): (r: Vec)
    requires |a| == |b| && NoZero(b)
    ensures |r| == |a|
    ensures forall i :: 0 <= i < |a| ==> r[i] == Quot(a[i], b[i])
    ensures IsQuotient(r, a, b)
  {
    var r := seq(|a|, i requires 0 <= i < |a| => Quot(a[i], b[i]));
    forall i | 0 <= i < |a|
      ensures r[i] * b[i] == a[i]
    {
      QuotSolves(a[i], b[i]);
    }
    r
  }

  /** A fresh array holding v, as numpy allocates the result of an expression. */
  method ToArray(v: Vec) returns (a: array<real>)
    ensures fresh(a)
    ensures a[..] == v
  {
    a := new real[|v|](k requires 0 <= k < |v| => v[k]);
  }

  /** numpy's in-place `a /= b`, coordinate by coordinate over the whole
      array. Where b has a zero coordinate numpy would store an infinity or
      NaN; here that coordinate keeps its old value and `ok` reports it. */
  method DivideInPlace(a: array<real>, b: Vec) returns (ok: bool)
    requires a.Length == |b|
    modifies a
    ensures ok <==> NoZero(b)
    ensures forall k :: 0 <= k < a.Length ==>
      a[k] == (if b[k] != 0.0 then Quot(old(a[k]), b[k]) else old(a[k]))
    ensures ok ==> a[..] == Div(old(a[..]), b)
  {
    ghost var a0 := a[..];
    ok := true;
    var i := 0;
    while i < a.Length
      invariant 0 <= i <= a.Length
      invariant ok <==> forall k :: 0 <= k < i ==> b[k] != 0.0
      invariant forall k :: 0 <= k < i ==> a[k] == (if b[k] != 0.0 then Quot(a0[k], b[k]) else a0[k])
      invariant forall k :: i <= k < a.Length ==> a[k] == a0[k]
    {
      if b[i] == 0.0 {
        ok := false;
      } else {
        a[i] := Quot(a[i], b[i]);
      }
      i := i + 1;
    }
    if ok {
      assert a[..] == Div(a0, b);
    }
  }

  /** The squared Euclidean norm, the sum of the squared coordinates. */
  function SumSq(a: Vec): (r: real)
    ensures r >= 0.0
  {
    if |a| == 0 then 0.0 else Sq(a[0]) + SumSq(a[1..])
  }

  /** The inner product. */
  function Dot(a: Vec, b: Vec): real
    requires |a| == |b|
  {
    if |a| == 0 then 0.0 else a[0] * b[0] + Dot(a[1..], b[1..])
  }

  lemma SqNonneg(c: real)
    ensures Sq(c) >= 0.0
  {
  }

  lemma SqOfProduct(a: real, b: real)
    ensures Sq(a * b) == Sq(a) * Sq(b)
  {
  }

  lemma ProductNonneg(a: real, b: real)
    requires a >= 0.0 && b >= 0.0
    ensures a * b >= 0.0
  {
  }

  lemma MulPos(a: real, b: real)
    requires a > 0.0 && b > 0.0
    ensures a * b > 0.0
  {
  }

  lemma DiffOfSquares(c: real, d: real)
    ensures Sq(c) - Sq(d) == (c - d) * (c + d)
  {
  }

  /** The product of two equal reals vanishes only at zero. */
  lemma EqualProductZero(c: real, d: real)
    requires c == d && c * d == 0.0
    ensures c == 0.0
  {
    ProductZero(c, d);
  }

  /** A product vanishes only when a factor does. */
  lemma ProductZero(a: real, b: real)
    requires a * b == 0.0
    ensures a == 0.0 || b == 0.0
  {
    if a > 0.0 && b > 0.0 {
      MulPos(a, b);
    } else if a < 0.0 && b < 0.0 {
      MulPos(-a, -b);
    } else if a > 0.0 && b < 0.0 {
      MulPos(a, -b);
    } else if a < 0.0 && b > 0.0 {
      MulPos(-a, b);
    }
  }

  /** Only zero squares to zero. */
  lemma SqZero(c: real)
    requires Sq(c) == 0.0
    ensures c == 0.0
  {
    EqualProductZero(c, c);
  }

  lemma SqStrictMono(c: real, d: real)
    requires c > d >= 0.0
    ensures Sq(c) > Sq(d)
  {
    DiffOfSquares(c, d);
    var a := c - d;
    var b := c + d;
    MulPos(a, b);
    assert Sq(c) - Sq(d) == a * b;
  }

  /** A non-negative square root is unique. */
  lemma SqRootUnique(c: real, d: real)
    requires Sq(c) == Sq(d) && c >= 0.0 && d >= 0.0
    ensures c == d
  {
    if c > d {
      SqStrictMono(c, d);
    } else if c < d {
      SqStrictMono(d, c);
    }
  }

  predicate IsZero(a: Vec)
  {
    forall i :: 0 <= i < |a| ==> a[i] == 0.0
  }

  /** The squared norm vanishes exactly on the zero vector. */
  lemma {:induction false} SumSqZeroIff(a: Vec)
    ensures SumSq(a) == 0.0 <==> IsZero(a)
  {
    if |a| > 0 {
      SumSqZeroIff(a[1..]);
      SqNonneg(a[0]);
      if SumSq(a) == 0.0 {
        SqZero(a[0]);
        forall i | 0 <= i < |a|
          ensures a[i] == 0.0
        {
          if i > 0 {
            assert a[i] == a[1..][i - 1];
          }
        }
      }
    }
  }

  lemma {:induction false} MulTail(a: Vec, b: Vec)
    requires |a| == |b| > 0
    ensures Mul(a, b)[1..] == Mul(a[1..], b[1..])
  {
    forall i | 0 <= i < |a| - 1
      ensures Mul(a, b)[1..][i] == Mul(a[1..], b[1..])[i]
    {
      assert Mul(a, b)[1..][i] == a[i + 1] * b[i + 1];
    }
  }

  lemma {:induction false} ScaleTail(c: real, a: Vec)
    requires |a| > 0
    ensures Scale(c, a)[1..] == Scale(c, a[1..])
  {
    forall i | 0 <= i < |a| - 1
      ensures Scale(c, a)[1..][i] == Scale(c, a[1..])[i]
    {
      assert Scale(c, a)[1..][i] == c * a[i + 1];
    }
  }

  /** Elementwise products distribute over sums. */
  lemma {:induction false} MulAdd(w: Vec, a: Vec, b: Vec)
    requires |w| == |a| == |b|
    ensures Mul(w, Add(a, b)) == Add(Mul(w, a), Mul(w, b))
  {
    forall i | 0 <= i < |w|
      ensures Mul(w, Add(a, b))[i] == Add(Mul(w, a), Mul(w, b))[i]
    {
      Distribute(w[i], a[i], b[i]);
    }
  }

  lemma Distribute(g: real, a: real, b: real)
    ensures g * (a + b) == g * a + g * b
  {
  }

  /** Expanding the square of a sum: |u + v|^2 == |u|^2 + 2<u, v> + |v|^2. */
  lemma {:induction false} SumSqOfAdd(u: Vec, v: Vec)
    requires |u| == |v|
    ensures SumSq(Add(u, v)) == SumSq(u) + 2.0 * Dot(u, v) + SumSq(v)
  {
    if |u| > 0 {
      assert Add(u, v)[1..] == Add(u[1..], v[1..]);
      SumSqOfAdd(u[1..], v[1..]);
    }
  }

  /** Two inner products whose termwise products agree are equal. */
  lemma {:induction false} DotTermwise(a: Vec, b: Vec, c: Vec, d: Vec)
    requires |a| == |b| == |c| == |d|
    requires forall i :: 0 <= i < |a| ==> a[i] * b[i] == c[i] * d[i]
    ensures Dot(a, b) == Dot(c, d)
  {
    if |a| > 0 {
      DotTermwise(a[1..], b[1..], c[1..], d[1..]);
    }
  }

  /** A scalar factor moves out of the inner product. */
  lemma {:induction false} DotScale(c: real, a: Vec, b: Vec)
    requires |a| == |b|
    ensures Dot(Scale(c, a), b) == c * Dot(a, b)
  {
    if |a| > 0 {
      ScaleTail(c, a);
      DotScale(c, a[1..], b[1..]);
    }
  }

  /** <w^2 r, h> == <w r, w h>. */
  lemma {:induction false} DotWeighted(w: Vec, r: Vec, h: Vec)
    requires |w| == |r| == |h|
    ensures Dot(Mul(Square(w), r), h) == Dot(Mul(w, r), Mul(w, h))
  {
    var q := Mul(Square(w), r);
    var u := Mul(w, r);
    var v := Mul(w, h);
    forall i | 0 <= i < |w|
      ensures q[i] * h[i] == u[i] * v[i]
    {
      assert q[i] == Sq(w[i]) * r[i];
    }
    DotTermwise(q, h, u, v);
  }
}
