# Matrices and a segment tree over abstract algebraic structures

A Dafny model of two generic components of the `mo` library:

- **Dense matrices** (`DynMatrix` and the statically sized `Matrix<T, N, M>`
  in `include/mo/math/matrix.hpp`). They support zero-filled construction,
  `identity`, cell-wise `+`, binary and unary `-`, the product `*` and
  `pow` by repeated squaring. Both classes run the same loops, so one
  model covers both. Their dimension checks, static or by `assert`,
  become preconditions. A matrix is a value
  (`Matrix(values: seq<seq<V>>, n, m)`). `New` fills a fresh matrix with
  zero. `identity`, `+`, `-` and `*` start from such a matrix and overwrite
  its cells in the source's nested loops. `Pow` starts from the identity
  and loops over whole products. Each operator is proved against a
  specification function.
- **The iterative bottom-up segment tree** (`SegmentTree` in
  `include/mo/segtree.hpp`). It is a class with an array `t` of length
  `2n` and a field `n`: leaf `k` is `t[n + k]`, and node `i` should hold
  `op(t[2i], t[2i + 1])`. Its methods are `build(n)`, `build(v)`, `get`,
  `update`, `add`, `query(l, r)` and `query(Interval)`. They run the
  source's loops on the array, and each is proved against functions on
  `t[..]`: `Repaired` (the ancestor repair), `QueryWalk` (the
  two-accumulator query loop) and `Fold` (the left-to-right fold of a
  monoid).

The element structure is one record, `Algebra.Structure`, holding `zero`,
`plus`, `neg`, `one` and `mul`. The laws the library relies on without
checking them are ghost predicates: associativity, identities, inverses,
distributivity and absorption. The library does not assume commutativity.
It is the extra hypothesis under which `update` and `add` as written keep
the tree consistent (the second finding below). Every lemma that needs a law
takes it as a hypothesis, so each fact names the laws it depends on.
`Algebra.IntRingIsRing` shows that the integers meet the ring laws, and
`Algebra.IntRingIsCommutative` shows that their addition and multiplication
are commutative.

The model follows the code where it differs from the evidently intended
behaviour:

- the product overwrites each cell instead of accumulating into it;
- the ancestor repair combines a right child before its left sibling.

Both are listed under "## Findings". Each one has a corrected definition
beside it, with the intended property proved. The operations themselves
keep the code's behaviour.

Modules: `Algebra` (algebra.dfy), `Matrices` (matrices.dfy), `SegTree`
(segtree.dfy) and `Scenarios` (scenarios.dfy). `Scenarios` holds concrete
instances over the integers and over strings under concatenation.

## Model

| member | source | states |
|---|---|---|
| Matrices.New | include/mo/math/matrix.hpp:19-23 | For N, M > 0, an N x M matrix with every cell zero; the static `Matrix()` at lines 119-125 is the same loop |
| Matrices.Identity | include/mo/math/matrix.hpp:25-34 | For n > 0, an n x n matrix with one on the diagonal and zero elsewhere |
| Matrices.Add | include/mo/math/matrix.hpp:36-45 | Needs equal shapes; keeps the shape; cell (i, j) is plus(a[i][j], b[i][j]); the operands are values and stay unchanged |
| Matrices.Subtract | include/mo/math/matrix.hpp:47-59 | Needs equal shapes; cell (i, j) is plus(a[i][j], neg(b[i][j])), with no primitive minus |
| Matrices.Negate | include/mo/math/matrix.hpp:61-71 | Keeps the shape; cell (i, j) is neg(a[i][j]) |
| Matrices.Multiply | include/mo/math/matrix.hpp:73-87 | Needs a.m == b.n; the result is a.n x b.m; each cell is mul(a[i][a.m-1], b[a.m-1][j]), the last overwrite of the inner loop |
| Matrices.Product | include/mo/math/matrix.hpp:73-87 | The value of `*` as written, with a.n x b.m cells; the static product at lines 171-185 is the same loop. Its meaning is stated by ProductAssociative, ProductOfInnerOne and Scenarios.RectangularProduct |
| Matrices.Times | include/mo/math/matrix.hpp:89-103 | The value pow builds: x multiplied on the right by k copies of b, one product at a time; it keeps the shape of x. TimesSplit, TimesEven, TimesOdd and PowAdd state its laws |
| Matrices.Pow | include/mo/math/matrix.hpp:89-103 | Needs a square matrix; for e <= 0 the identity; for e > 0, when mul is associative, the identity multiplied on the right by e copies of a under the product as written |
| Matrices.SumZero | include/mo/math/matrix.hpp:36-45 | If zero is neutral for plus, the zero matrix is a two-sided identity of + |
| Matrices.SumAssociative | include/mo/math/matrix.hpp:36-45 | Matrix + is associative whenever plus is |
| Matrices.SumNegation | include/mo/math/matrix.hpp:61-71 | Under the inverse law, a + (-a) and (-a) + a are the zero matrix |
| Matrices.DifferenceIsSumOfNegation | include/mo/math/matrix.hpp:47-59 | a - b equals a + (-b); under the inverse law a - a is the zero matrix |
| Matrices.ProductAssociative | include/mo/math/matrix.hpp:81-82 | The product as written is associative whenever mul is |
| Matrices.TimesSplit | include/mo/math/matrix.hpp:95-101 | j + k factors of b are j factors followed by k more |
| Matrices.ProductTimes | include/mo/math/matrix.hpp:89-103 | When mul is associative, x times (y followed by k factors of b) is (x times y) followed by k factors of b |
| Matrices.UnitThenProduct | include/mo/math/matrix.hpp:89-103 | When one is neutral for mul, a product on the right by the identity and then by b equals the product by b alone |
| Matrices.PowAdd | include/mo/math/matrix.hpp:89-103 | With associative mul and one neutral, pow(i) * pow(j) = pow(i + j) for every j >= 1 |
| Matrices.TimesEven | include/mo/math/matrix.hpp:95-101 | Squaring the base halves an even number of factors: the invariant step of pow when the bit is 0 |
| Matrices.TimesOdd | include/mo/math/matrix.hpp:95-101 | For an odd count, one factor moves into the result and the rest are squared: the step of pow when the bit is 1 |
| Matrices.Dot | include/mo/math/matrix.hpp:79-83 | Corrected product: the sum from zero, in ascending k, of the first k terms mul(a[i][k], b[k][j]); DotUnitLeft and DotUnitRight state its value against the identity |
| Matrices.SumProduct | include/mo/math/matrix.hpp:79-83 | Corrected product: an a.n x b.m matrix whose cell (i, j) is the full dot product of row i and column j |
| Matrices.SumProductUnit | include/mo/math/matrix.hpp:73-87 | Corrected product: over a semiring, the identity matrix is neutral on both sides of the accumulating product |
| Matrices.DotUnitLeft | include/mo/math/matrix.hpp:79-83 | Corrected product: the first k terms of row i of the identity times a sum to a[i][j] if i < k, and to zero otherwise |
| Matrices.DotUnitRight | include/mo/math/matrix.hpp:79-83 | Corrected product: the first k terms of a times column j of the identity sum to a[i][j] if j < k, and to zero otherwise |
| Matrices.ProductOfInnerOne | include/mo/math/matrix.hpp:79-83 | With inner dimension 1 and zero neutral for plus, the product as written equals the accumulating product |
| Algebra.IntRingIsCommutative | include/mo/segtree.hpp:36-40 | Integer addition and multiplication are commutative, so the hypothesis under which update keeps the identity can be met |
| SegTree.FoldAppend | include/mo/segtree.hpp:55-67 | For a monoid, the fold of a concatenation is op of the two folds |
| SegTree.Repaired | include/mo/segtree.hpp:37-39 | The array the ancestor loop of update leaves, with the length unchanged. RepairedFrame, RepairedPath and RepairedRestoresIdentity state its meaning |
| SegTree.RepairedInOrder | include/mo/segtree.hpp:37-39 | Corrected repair, with the length unchanged: every ancestor receives op(left child, right child) |
| SegTree.RepairedFrame | include/mo/segtree.hpp:37-39 | The repair from node q rewrites only proper ancestors of q |
| SegTree.RepairedPath | include/mo/segtree.hpp:38 | After the repair, every parent on the path holds op(child on the path, its sibling), in that order |
| SegTree.RepairedRestoresIdentity | include/mo/segtree.hpp:36-40 | If the identity held everywhere except at the parent of q, then with a commutative op it holds everywhere after the repair |
| SegTree.RepairedInOrderRestoresIdentity | include/mo/segtree.hpp:38 | Corrected repair (parent := op(left child, right child)): under the same hypothesis it restores the identity for every op |
| SegTree.RepairedInOrderFrame | include/mo/segtree.hpp:37-39 | The corrected repair also rewrites only proper ancestors of q |
| SegTree.NodeIsFold | include/mo/segtree.hpp:31-32 | For a monoid under the identity, every node holds the fold of the leaves below it |
| SegTree.SpansHalve | include/mo/segtree.hpp:58 | An even-aligned run of nodes covers the same leaves as the run of their parents: the `l >>= 1, r >>= 1` step |
| SegTree.SpansStep | include/mo/segtree.hpp:58-65 | One round: the odd left node, then the even-aligned run, then the odd right node, cover the leaves of the round's run |
| SegTree.QueryWalk | include/mo/segtree.hpp:55-66 | The value the two-accumulator loop of query returns from node bounds l, r; QueryWalkStep, QueryWalkFolds and QueryFolds state its meaning |
| SegTree.QueryWalkStep | include/mo/segtree.hpp:58-65 | One loop round keeps the bounds in order, decreases r, and leaves the remaining walk's result unchanged |
| SegTree.QueryWalkFolds | include/mo/segtree.hpp:55-67 | For a monoid under the identity, if accl is the fold of the leaves already taken on the left and accr of those on the right, the walk returns the fold of left ++ run ++ right |
| SegTree.QueryFolds | include/mo/segtree.hpp:55-67 | For l <= r, a monoid and a consistent array, the query walk from n + l to n + r returns the fold of leaves l .. r - 1 |
| SegTree.QueryResult | include/mo/segtree.hpp:66 | The query's returned op(accl, accr) is op(e, e) for r <= l, and the fold of leaves l .. r - 1 for a monoid with the identity |
| SegTree.LeafWrite | include/mo/segtree.hpp:37 | Writing leaf q of a consistent array can break the identity only at the parent of q |
| SegTree.WriteRepaired | include/mo/segtree.hpp:36-40 | After writing leaf p and repairing: leaf p holds the value, no other leaf changes, only ancestors change, and commutativity keeps the identity |
| SegTree.WriteRepairedInOrder | include/mo/segtree.hpp:36-40 | The same for the corrected repair, with the identity kept for every op |
| SegTree.SegmentTree.Walk | include/mo/segtree.hpp:55-67 | The query walk from n + l to n + r with both accumulators e, on the current t |
| SegTree.SegmentTree.Empty | include/mo/segtree.hpp:17 | The default-constructed tree is empty (n = 0) and trivially satisfies the identity |
| SegTree.SegmentTree.constructor | include/mo/segtree.hpp:19-20 | `SegmentTree(N)` sets n = N and t to 2N cells of e; the identity then holds when op(e, e) == e |
| SegTree.SegmentTree.Reset | include/mo/segtree.hpp:22-25 | `build(n)` sets n and a fresh t of 2n cells, every one e |
| SegTree.SegmentTree.Build | include/mo/segtree.hpp:27-34 | `build(v)` sets n = \|v\|, the leaves to v and t[0] to e, and the downward loop establishes the identity for every op |
| SegTree.SegmentTree.Get | include/mo/segtree.hpp:42 | Returns leaf p; changes nothing |
| SegTree.SegmentTree.RepairFrom | include/mo/segtree.hpp:37-39 | The ancestor loop leaves t equal to Repaired of its old contents |
| SegTree.SegmentTree.Update | include/mo/segtree.hpp:36-40 | Leaf p becomes value; the array is Repaired of the written array; no other leaf and no non-ancestor node changes; with a commutative op the identity is kept |
| SegTree.SegmentTree.Add | include/mo/segtree.hpp:44-49 | Leaf p becomes op(old leaf, value), value on the right; the same repair, frame and commutativity caveat as update |
| SegTree.SegmentTree.RepairInOrderFrom | include/mo/segtree.hpp:37-39 | Corrected ancestor loop: leaves t equal to RepairedInOrder of its old contents |
| SegTree.SegmentTree.UpdateInOrder | include/mo/segtree.hpp:36-40 | Corrected update: the same leaves and frame as update, and the identity kept with no commutativity |
| SegTree.SegmentTree.Query | include/mo/segtree.hpp:55-67 | Never writes t and terminates; returns Walk(l, r) for every tree, consistent or not; returns op(e, e) when r <= l; for l <= r, a monoid and the identity, returns the left-to-right fold of leaves l .. r - 1 |
| SegTree.SegmentTree.QueryInterval | include/mo/segtree.hpp:51-53 | The interval is inclusive: the result is Walk(l, r + 1), that of query(l, r + 1), for every tree; op(e, e) when r < l; the fold of leaves l .. r under a monoid and the identity |
| Scenarios.RectangularProduct | include/mo/math/matrix.hpp:73-87 | Over the integers, [[1,2,3],[4,5,6]] times [[7,8],[9,10],[11,12]] is [[33,36],[66,72]] as written and [[58,64],[139,154]] accumulated |
| Scenarios.UnitNotNeutral | include/mo/math/matrix.hpp:73-87 | As written, the identity times [[1,2],[3,4]] is [[0,0],[3,4]]; the accumulating product gives the matrix back |
| Scenarios.ConcatIsMonoid | include/mo/segtree.hpp:11 | String concatenation with "" is a monoid and is not commutative |
| Scenarios.PowSmallCases | include/mo/math/matrix.hpp:89-103 | As written, over the integers, pow(0) * pow(0) of a 2 x 2 matrix is [[0,0],[0,1]] instead of pow(0), and pow(1) of [[1,2],[3,4]] is [[0,0],[3,4]] |
| Scenarios.LettersConsistent | include/mo/segtree.hpp:27-34 | The array ["", "abcd", "ab", "cd", "a", "b", "c", "d"] satisfies the identity and has leaves a, b, c, d |
| Scenarios.LettersDetermined | include/mo/segtree.hpp:27-34 | That array is the only consistent one with these leaves and t[0] = e |
| Scenarios.LettersQueried | include/mo/segtree.hpp:55-67 | build(["a","b","c","d"]) on the class, then query(0, 4) is "abcd" and query(1, 3) is "bc" |
| Scenarios.UpdateAsWritten | include/mo/segtree.hpp:38 | update(1, "X") as written gives node 2 "Xa" and the root "Xacd"; the query walk over [0, 4) returns "Xacd"; the identity is broken |
| Scenarios.LettersUpdated | include/mo/segtree.hpp:36-40 | build then update(1, "X") on a concatenation tree with e = "" leave exactly that broken array, with leaves a, X, c, d |
| Scenarios.LettersUpdatedQueried | include/mo/segtree.hpp:55-67 | On that class instance query(0, 4) returns "Xacd" |
| Scenarios.UpdateInOrder | include/mo/segtree.hpp:38 | The corrected repair after the same write gives node 2 "aX", the root "aXcd", and a consistent array |
| Scenarios.LettersUpdatedInOrder | include/mo/segtree.hpp:36-40 | On the class with the corrected update, the identity holds and query(0, 4) is "aXcd" |

## Left out

- The capability layering (`requires(Group<T>)`, `requires(Semiring<T>)`, `static_assert`) is compile-time machinery over concept headers that are not part of this model. Every operation is available for any `Structure`, and the laws each fact needs are hypotheses.
- The algebraic laws are not assumed as axioms; each lemma that needs one takes it as a precondition.
- The static and dynamic matrices are one model. Their compile-time and `assert` dimension checks are preconditions; an `assert` abort is not modelled.
- Some C++ defects would stop the code from compiling or running. The model gives the intended value semantics instead:
  - `Matrix::identity` calls a two-argument constructor that the static class lacks (include/mo/math/matrix.hpp:129);
  - the `const` member `isSquare` removes the assignment that `pow` uses (include/mo/math/matrix.hpp:97);
  - the cross-dimension product reads another specialisation's private cells (include/mo/math/matrix.hpp:179-180).
- Matrices.Pow: the contract names the value, `Times(Unit, A, e)`. The law `pow(a + b) = pow(a) * pow(b)` is proved only for b >= 1 (Matrices.PowAdd). At b = 0 it fails, because the identity times itself is not the identity under the product as written. `pow(1) = A` fails as well (Scenarios.PowSmallCases).
- The `MaxSegtree`, `MinSegtree` and `PlusSegtree` aliases (include/mo/segtree.hpp:70-77) are not modelled. They only instantiate op and e through helpers in utils.hpp, which is not part of this model.
- The default constructor leaves `n` uninitialised (include/mo/segtree.hpp:17). It is modelled as the empty tree with n = 0.
- Machine integers are unbounded here: overflow of `int` indices and of the `int64_t` exponent is not modelled. The model excludes three kinds of out-of-range segment-tree argument, by preconditions or by typing the size as `nat`:
  - an index at or above `n` falls outside `t`, which is undefined behaviour in the source;
  - a negative index down to `-n` silently addresses an internal node or `t[0]` (include/mo/segtree.hpp:37, 42, 45-46, 58): `get` returns that node, `update` and `add` overwrite it and repair from it, and `query` reads internal nodes and still terminates;
  - a negative size in `SegmentTree(N)` or `build(n)` makes the vector constructor throw (include/mo/segtree.hpp:19, 24).
- `build(n)`, `build(v)` and the constructor allocate a new array instead of resizing the vector in place, which has no other reference.
- SegTree.SegmentTree.Add: modelled as a call of Update with op(leaf p, value). That is the same write followed by the same ancestor loop as the source's own loop over `p`.

## Findings

| source | as written | input that shows it | evidently intended | confidence | as-written member | corrected member |
|---|---|---|---|---|---|---|
| include/mo/math/matrix.hpp:81-82 | The inner loop assigns mul(values[i][k], other.values[k][j]) to the cell for every k, so only the k = m - 1 term remains. The static product at lines 179-180 does the same | [[1,2,3],[4,5,6]] times [[7,8],[9,10],[11,12]] over the integers gives [[33,36],[66,72]]; the identity times [[1,2],[3,4]] gives [[0,0],[3,4]] | Each cell accumulates plus from zero over ascending k: [[58,64],[139,154]], with the identity neutral on both sides | not executed | Scenarios.RectangularProduct | Matrices.SumProductUnit |
| include/mo/segtree.hpp:38 | The parent receives op(t[p], t[p ^ 1]), so for a right child p it combines right before left. `add` at line 47 does the same | Concatenation over ["a","b","c","d"], then update(1, "X"): the root becomes "Xacd" and query(0, 4) returns "Xacd" | The parent receives op(t[2(p/2)], t[2(p/2) + 1]); query(0, 4) returns "aXcd" and the identity holds for any monoid | not executed | Scenarios.UpdateAsWritten | SegTree.RepairedInOrderRestoresIdentity |
