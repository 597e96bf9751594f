# pyunlocbox objective functions, modelled in Dafny

This project models `pyunlocbox/functions.py`. That module defines the objects an
iterative proximal-splitting solver works with. They are:

- `func`, the interface class. Its `eval`, `prox` and `grad` raise
  `NotImplementedError("Class user should define this method")`.
- `norm`, whose constructor stores the parameters: the regularisation weight
  `lamb`, the weights `w`, the measurements `y`, the forward operator `A`, the
  adjoint `At`, the tight-frame flag `tight` and the frame bound `nu`. Each but
  `lamb` has a default.
- `norm_l2`, the penalty `lamb ‖w (A(x) - y)‖`, with:
  - its value;
  - its gradient, `2 lamb w At(A(x) - y)`;
  - the closed-form proximal operator for tight frames, `(x + 2 gamma At(y w^2)) / (1 + 2 gamma nu w^2)` with `gamma = lamb T`.

  For a frame that is not tight, `prox` raises `NotImplementedError('Not implemented for non tight frame')`.

Numbers are exact reals and vectors are `seq<real>`.

- The stored parameters are an immutable datatype `NormParams`, so no operation can change them after construction.
- The three solver-facing operations dispatch on `Func`:
  - an instance of `func` or of `norm` gets the base class's error;
  - a `norm_l2` gets the formulas.
- `prox` exists twice:
  - `ProxL2` is a function and states the result;
  - `ProxInPlace` is a method that builds the numerator into an array and divides it in place, as the code does with `sol /= ...`. It is proved equal to `ProxL2`.

Files:

- `vectors.dfy`: the elementwise arithmetic, the squared norm `SumSq`, the inner product `Dot`, and the in-place division.
- `functions.dfy`: the three classes.
- `prox.dfy`, `eval.dfy`, `grad.dfy`: what `prox`, `eval` and `grad` guarantee.

Where the documentation and the code disagree, the model follows the code:

- **`grad`.** The code computes `2 lamb w At(A(x) - y)`
  (`pyunlocbox/functions.py:115`). The docstring (`:112`) writes
  `2 lamb At(w (A(x) - y))`. For identity operators the gradient of the
  squared penalty `lamb ‖w (A(x) - y)‖^2` is `2 lamb w^2 (A(x) - y)`
  (`SquaredPenaltyExpansion`); for other operators the model states no
  gradient. `GradMatchesDocstringForIdentityAdjoint` shows that the code and
  the docstring agree when `At` is the identity. With identity operators the
  code agrees with the squared-penalty gradient whenever every weight is 0
  or 1 (`GradMatchesSquaredPenaltyGradient`), and it can differ otherwise
  (`GradDiffersForWeightTwo`).
- **`prox`.** The docstring (`:99`) says `prox` minimises `1/2 ‖x - z‖^2 + gamma ‖w (A(z) - y)‖`, with the norm not squared. The closed form is instead built for the squared version `1/2 ‖x - z‖^2 + gamma ‖w (A(z) - y)‖^2`. It minimises that objective when `At(w^2 A(z)) = nu w^2 z` for every `z`, for example with identity operators and `nu = 1`, or a scalar weight and `At A = nu I`, and need not otherwise:
  - `ProxMinimizesObjective` proves minimality for identity operators and `nu = 1`;
  - `ProxNotMinimizerForSwap` shows that a tight frame is not enough: with `A = At` exchanging two coordinates (`SwapIsTightFrame`), `w = [1, 0]`, `y = [1, 0]`, `x = [0, 0]` and `lamb = T = 1`, `prox` returns `[0, 2]` with objective 3, while `[0, 2/3]` has objective 1/3;
  - `ProxMissesDocstringObjective` exhibits a point where the unsquared objective is lower than at the closed-form result.

## Model

| member | source | states |
|---|---|---|
| `Functions.Eval` | pyunlocbox/functions.py:26-31 | `eval` on an instance of `func` or `norm` fails with `NotImplementedError("Class user should define this method")` for every `x`; on a `norm_l2` it succeeds with the value `EvalL2` states, which is non-negative when `lamb >= 0` |
| `Functions.Prox` | pyunlocbox/functions.py:33-39 | `prox` on an instance of `func` or `norm` fails with the base class's message for every `x` and `T`; on a `norm_l2` it answers what `ProxL2` states, so a non-tight one fails with the non-tight-frame message |
| `Functions.Grad` | pyunlocbox/functions.py:41-46 | `grad` on an instance of `func` or `norm` fails with the base class's message for every `x`; on a `norm_l2` it succeeds with `GradL2`'s vector |
| `Functions.Identity` | pyunlocbox/functions.py:74 | returns its argument; the operator `MakeNorm` uses when `A` is omitted |
| `Functions.MakeNorm` | pyunlocbox/functions.py:66-80 | the constructor keeps `lamb`, `tight` and `nu`, broadcasts `w` and `y` to the input length, uses `A` if given and else the identity, and uses `At` if given and else the forward operator itself; the result is well formed for that length |
| `Functions.Broadcast` | pyunlocbox/functions.py:69-70 | a scalar weight or measurement becomes the constant vector, an array is kept coordinate by coordinate |
| `Functions.MakeNormDefaults` | pyunlocbox/functions.py:66-80 | with every optional argument omitted: `A` is the identity, `At` is exactly `A`, `w = 1`, `y = 0`, `tight` holds and `nu = 1` |
| `Functions.ScaledNorm` | pyunlocbox/functions.py:93-94 | `lamb` times the Euclidean norm of a vector squares to `lamb^2` times its sum of squares, is non-negative when `lamb >= 0` and non-positive when `lamb <= 0`, which fixes it for every `lamb` |
| `Functions.EvalL2` | pyunlocbox/functions.py:88-94 | the square of `eval(x)` is `lamb^2 ‖w (A(x) - y)‖^2`; `eval(x) >= 0` when `lamb >= 0` and `eval(x) <= 0` when `lamb <= 0`, so `eval(x) = lamb ‖w (A(x) - y)‖` |
| `Functions.Residual` | pyunlocbox/functions.py:92 | the residual `A(x) - y` has the input's length |
| `EvalProperties.ResidualZeroIff` | pyunlocbox/functions.py:92 | the residual is the zero vector exactly when `A(x) = y` |
| `EvalProperties.EvalZeroIff` | pyunlocbox/functions.py:92-94 | `eval(x) = 0` exactly when `lamb = 0` or `w (A(x) - y)` is the zero vector, in both directions |
| `EvalProperties.EvalZeroAtMeasurement` | pyunlocbox/functions.py:92-94 | `eval(x) = 0` wherever `A(x) = y` |
| `EvalProperties.EvalUnweighted` | pyunlocbox/functions.py:92-94 | with identity `A`, `w = 1` and `y = 0`, `eval(x) = lamb ‖x‖` |
| `EvalProperties.EvalExample` | pyunlocbox/functions.py:88-94 | `lamb = 1`, identity `A`, `w = 1`, `y = [1, 0]`: `eval([0, 0]) = 1` |
| `Functions.ProxL2` | pyunlocbox/functions.py:96-108 | a non-tight frame fails with `NotImplementedError('Not implemented for non tight frame')`; a tight frame succeeds exactly when no divisor `1 + 2 gamma nu w[i]^2` is zero, and each coordinate of the result solves `sol[i] (1 + 2 gamma nu w[i]^2) = x[i] + 2 gamma At(y w^2)[i]` |
| `Functions.Gamma` | pyunlocbox/functions.py:102 | `gamma = lamb T` is zero when `lamb` or `T` is, and non-negative when both are |
| `Functions.ProxNumerator` | pyunlocbox/functions.py:104 | `x + 2 gamma At(y w^2)` has the input's length, is `x` itself when `gamma = 0`, and with identity `At` equals `x` in every coordinate of weight 0 |
| `Functions.ProxDenominator` | pyunlocbox/functions.py:105 | `1 + 2 gamma nu w^2` has the input's length, is the all-ones vector when `gamma = 0`, and is 1 in every coordinate of weight 0 |
| `Functions.ProxInPlace` | pyunlocbox/functions.py:102-108 | building `sol` and dividing it in place returns exactly what `ProxL2` states, error cases included |
| `Vectors.DivideInPlace` | pyunlocbox/functions.py:105 | `sol /= d` divides every coordinate whose divisor is not zero and leaves the others as they were; it reports success exactly when no coordinate of `d` is zero, and then the array holds the elementwise quotient of its old contents |
| `Vectors.ToArray` | pyunlocbox/functions.py:104 | `sol` is a fresh array holding the computed numerator |
| `Vectors.Div` | pyunlocbox/functions.py:105 | the elementwise quotient: each coordinate times the divisor gives back the dividend |
| `ProxProperties.ProxDenominatorAtLeastOne` | pyunlocbox/functions.py:105 | with `gamma >= 0` and `nu >= 0` every divisor is at least 1 |
| `ProxProperties.ProxTightSucceeds` | pyunlocbox/functions.py:102-105 | a tight frame with `lamb, T, nu >= 0` never reaches the zero-divisor case |
| `ProxProperties.ProxZeroStepIsIdentity` | pyunlocbox/functions.py:102-105 | for a tight frame, `lamb = 0` or `T = 0` makes `prox(x, T) = x` exactly, for any adjoint operator |
| `ProxProperties.ProxZeroWeightPassThrough` | pyunlocbox/functions.py:104-105 | with identity `At`, a coordinate whose weight is 0 is returned unchanged |
| `ProxProperties.ProxStationary` | pyunlocbox/functions.py:96-105 | with identity operators and `nu = 1`, the gradient `(z - x) + 2 gamma w^2 (z - y)` of `1/2 ‖x - z‖^2 + gamma ‖w (z - y)‖^2` vanishes at `z = prox(x, T)` |
| `ProxProperties.CoordinateGap` | pyunlocbox/functions.py:104-105 | in one coordinate, the closed-form value has an objective share no larger than any other point's |
| `ProxProperties.SeparableMinimizer` | pyunlocbox/functions.py:104-105 | a vector solving every coordinate's equation `s (1 + 2 g w^2) = x + 2 g y w^2` with `g >= 0` minimises `1/2 ‖x - z‖^2 + g ‖w (z - y)‖^2` over all `z` |
| `ProxProperties.ProxMinimizesObjective` | pyunlocbox/functions.py:96-105 | with identity operators, `nu = 1` and `gamma >= 0`, `prox(x, T)` minimises `1/2 ‖x - z‖^2 + gamma ‖w (A(z) - y)‖^2` over every `z` |
| `ProxProperties.ProxMonotoneInStep` | pyunlocbox/functions.py:102-105 | for a tight frame with identity `At`, `nu = 1` and `0 <= gamma1 <= gamma2`, both steps succeed and every coordinate of `prox` at the larger step is no farther from the measurement `y` than at the smaller one |
| `ProxProperties.SwapIsTightFrame` | pyunlocbox/functions.py:58-63 | exchanging two coordinates is its own inverse and its own adjoint and keeps the norm, so it is a tight frame with `nu = 1` |
| `ProxProperties.ProxNotMinimizerForSwap` | pyunlocbox/functions.py:96-105 | with `A = At` that exchange, `w = [1, 0]`, `y = [1, 0]`, `x = [0, 0]`, `lamb = T = 1`, `prox` returns `[0, 2]` with squared objective 3, while `[0, 2/3]` has 1/3: a tight frame alone does not make the closed form a minimiser |
| `ProxProperties.SwapProxAt` | pyunlocbox/functions.py:102-105 | with `A = At` that exchange, `w = [1, 0]`, `y = [1, 0]`, `x = [0, 0]`, `lamb = 1` and any `T >= 0`, `prox` returns `[0, 2 T]`, whose weighted residual is `[2 T - 1, 0]` |
| `ProxProperties.ProxNotMonotoneForSwap` | pyunlocbox/functions.py:102-105 | in that configuration, for `0 <= T1 < T2` coordinate 1 of `prox` at `T2` is strictly farther from the measurement than at `T1`: the step monotonicity fails for this tight frame |
| `ProxProperties.ProxExample` | pyunlocbox/functions.py:102-108 | `lamb = 1`, identity operators, `w = 1`, `nu = 1`, `y = [1, 0]`, `x = [0, 0]`, `T = 1`: `prox = [2/3, 0]` |
| `ProxProperties.ProxMissesDocstringObjective` | pyunlocbox/functions.py:97-100 | in one dimension with `y = [1]`, `x = [0]`, `lamb = T = 1`, `prox` returns `[2/3]`, yet the docstring's unsquared objective is lower at `[1]` than at `[2/3]` |
| `Functions.GradL2` | pyunlocbox/functions.py:110-115 | the gradient has the input's length |
| `GradProperties.GradZeroWhenLambZero` | pyunlocbox/functions.py:114-115 | `lamb = 0` gives the zero vector, for any adjoint operator |
| `GradProperties.GradUnweighted` | pyunlocbox/functions.py:114-115 | with identity operators, `w = 1` and `y = 0`, `grad(x) = 2 lamb x` |
| `GradProperties.GradMatchesDocstringForIdentityAdjoint` | pyunlocbox/functions.py:110-115 | with identity `At`, the code `2 lamb w At(A(x) - y)` equals the docstring's `2 lamb At(w (A(x) - y))` |
| `GradProperties.SquaredPenaltyExpansion` | pyunlocbox/functions.py:110-115 | with identity operators, `2 lamb At(w^2 (A(x) - y))` is the gradient of `lamb ‖w (A(x) - y)‖^2`: the penalty at `x + h` is the penalty at `x`, plus the inner product of that gradient with `h`, plus `lamb ‖w h‖^2` |
| `GradProperties.GradMatchesSquaredPenaltyGradient` | pyunlocbox/functions.py:114-115 | with identity operators and every weight 0 or 1, the code's gradient is the gradient of the squared penalty |
| `GradProperties.GradDiffersForWeightTwo` | pyunlocbox/functions.py:114-115 | with weight 2, `lamb = 1`, `x = [1]`, `y = [0]`, the code gives `[4]` and the squared penalty's gradient gives `[8]` |
| `Vectors.SumSqZeroIff` | pyunlocbox/functions.py:93 | the squared Euclidean norm is zero exactly on the zero vector |
| `Vectors.SumSqOfAdd` | pyunlocbox/functions.py:93 | `‖u + v‖^2 = ‖u‖^2 + 2 <u, v> + ‖v‖^2` |

## Left out

- Floating point: all arithmetic is exact over reals, so rounding, overflow, infinities and NaN are not modelled. Where numpy would store an infinity or NaN because a divisor `1 + 2 gamma nu w[i]^2` is zero, the model reports `DivisionByZero` instead, and the in-place division leaves that coordinate undivided.
- numpy conversion and broadcasting:
  - `w` and `y` are either scalars, broadcast to the input length, or arrays of exactly that length;
  - a length-1 array broadcast against longer inputs is not covered;
  - neither is an `A` that maps into a space of another dimension than `x`.
- The square root in `np.linalg.norm` is not computed. `eval` takes the norm as a parameter that is non-negative and squares to the sum of squares. Its results are stated through their squares and signs, and pinned down where a lemma needs a value.
- User-supplied `A` and `At` are arbitrary functions. The model assumes only that they keep the input dimension. Linearity, adjointness and the tight-frame property are not assumed. Stationarity and minimality of `prox` are proved only for identity operators with `nu = 1`. For other tight frames they hold only when `At(w^2 A(z)) = nu w^2 z`, and `ProxNotMinimizerForSwap` shows a tight frame where they fail.
- ProxProperties.ProxMonotoneInStep: the property that a larger step moves `prox` toward the measurement is stated only for identity `At` with `nu = 1`, because the code's closed form does not have it for other tight frames: `ProxNotMonotoneForSwap` shows a coordinate moving strictly away from `y` as `T` grows, and `SwapProxAt` shows the weighted residual `[2 T - 1, 0]` falling to zero at `T = 1/2` and growing again after it.
- The iterative proximal operator for non-tight frames does not exist in the source. Only its `NotImplementedError` is modelled.
- `numpy.array(x)` copying its argument, and aliasing between `x` and `sol`: the in-place division acts on a fresh array, as in the source.
- Python's truthiness test `if A:` is modelled as an `Option` being present. A callable that is falsy is not covered.
- Instances modified at run time (replacing `eval` on a `func` object), as the class docstring allows, are not modelled.
- The usage doctest is still a TODO in the source and is not modelled.
- Functions.GradL2: its own contract gives only the length. The lemmas in `GradProperties` state its value when `lamb = 0` (any operators) and compare it with the squared-penalty gradient for identity operators; for a non-identity `At` with `lamb` not zero no lemma states its value.
