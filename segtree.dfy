/**
 * An iterative bottom-up segment tree over a monoid (op, e).
 *
 * The tree is an array t of length 2n: leaf k of the logical sequence is
 * t[n + k], internal node i (1 <= i < n) should hold op(t[2i], t[2i + 1]),
 * and t[0] is unused. The functions below describe, on the contents of t as
 * a sequence, what each operation writes and reads. The class runs the
 * loops of the source on the array and is proved against them; the lemmas
 * after it connect a leaf write and its repair to the identity.
 *
 * Bit operations of the source on non-negative indices: `x & 1` is x % 2,
 * `x >>= 1` is x / 2, `p ^ 1` is Sibling(p).
 */
module SegTree {
  import opened Algebra

  /** Left-to-right fold seeded with e: op(...op(op(e, s[0]), s[1])..., s[|s| - 1]). */
  function Fold<T>(op: (T, T) -> T, e: T, s: seq<T>): T
    decreases |s|
  {
    if s == [] then e else op(Fold(op, e, s[..|s| - 1]), s[|s| - 1])
  }

  /** Folding a concatenation combines the two folds, for a monoid. */
  lemma {:induction false} FoldAppend<T(!new)>(op: (T, T) -> T, e: T, a: seq<T>, b: seq<T>)
    requires IsMonoid(op, e)
    ensures Fold(op, e, a + b) == op(Fold(op, e, a), Fold(op, e, b))
    decreases |b|
  {
    if b == [] {
      assert a + b == a;
    } else {
      var b', x := b[..|b| - 1], b[|b| - 1];
      assert (a + b)[..|a + b| - 1] == a + b';
      FoldAppend(op, e, a, b');
      calc {
        Fold(op, e, a + b);
        op(Fold(op, e, a + b'), x);
        op(op(Fold(op, e, a), Fold(op, e, b')), x);
        op(Fold(op, e, a), op(Fold(op, e, b'), x));
        op(Fold(op, e, a), Fold(op, e, b));
      }
    }
  }

  /** Node i holds the combination of its two children, left first. */
  ghost predicate Combines<T>(op: (T, T) -> T, s: seq<T>, i: int) {
    0 <= i && 2 * i + 1 < |s| && s[i] == op(s[2 * i], s[2 * i + 1])
  }

  /** The internal-node identity: t[i] = op(t[2i], t[2i + 1]) for every 1 <= i < n. */
  ghost predicate Consistent<T>(op: (T, T) -> T, s: seq<T>, n: int) {
    |s| == 2 * n && forall i :: 1 <= i < n ==> Combines(op, s, i)
  }

  /** `q ^ 1` for q >= 0: the other child of q's parent. */
  function Sibling(q: int): int {
    if q % 2 == 0 then q + 1 else q - 1
  }

  /** a is a proper ancestor of node q: it is reached from q by halving at least once. */
  ghost predicate IsAncestor(a: int, q: int)
    decreases q
  {
    q > 1 && (q / 2 == a || IsAncestor(a, q / 2))
  }

  lemma {:induction false} AncestorBelow(a: int, q: int)
    requires IsAncestor(a, q)
    ensures 1 <= a < q && a <= q / 2
    decreases q
  {
    if q / 2 != a {
      AncestorBelow(a, q / 2);
    }
  }

  /**
   * The ancestor repair of `update` and `add` as written: walking up from q,
   * each parent receives op(t[p], t[p ^ 1]), so a right child is combined
   * before its left sibling.
   */
  function Repaired<T>(op: (T, T) -> T, s: seq<T>, q: int): (r: seq<T>)
    requires 1 <= q < |s| && |s| % 2 == 0
    ensures |r| == |s|
    decreases q
  {
    if q <= 1 then s else Repaired(op, s[q / 2 := op(s[q], s[Sibling(q)])], q / 2)
  }

  /** Only proper ancestors of q are rewritten by the repair. */
  lemma {:induction false} RepairedFrame<T>(op: (T, T) -> T, s: seq<T>, q: int)
    requires 1 <= q < |s| && |s| % 2 == 0
    ensures forall i :: 0 <= i < |s| && !IsAncestor(i, q) ==> Repaired(op, s, q)[i] == s[i]
    decreases q
  {
    if q > 1 {
      var s' := s[q / 2 := op(s[q], s[Sibling(q)])];
      RepairedFrame(op, s', q / 2);
      forall i | 0 <= i < |s| && !IsAncestor(i, q) ensures Repaired(op, s, q)[i] == s[i] {
        assert i != q / 2 && !IsAncestor(i, q / 2);
      }
    }
  }

  /**
   * Along the path from q up to the root, every parent ends up holding
   * op(child on the path, its sibling), in that order.
   */
  lemma {:induction false} RepairedPath<T>(op: (T, T) -> T, s: seq<T>, q: int)
    requires 1 <= q < |s| && |s| % 2 == 0
    ensures var r := Repaired(op, s, q);
            forall c :: 1 < c < |s| && (c == q || IsAncestor(c, q)) ==> r[c / 2] == op(r[c], r[Sibling(c)])
    decreases q
  {
    if q > 1 {
      var s' := s[q / 2 := op(s[q], s[Sibling(q)])];
      var r := Repaired(op, s', q / 2);
      assert r == Repaired(op, s, q);
      RepairedPath(op, s', q / 2);
      RepairedPathFirst(op, s, q);
      forall c | 1 < c < |s| && c != q && IsAncestor(c, q) ensures r[c / 2] == op(r[c], r[Sibling(c)]) {
        assert c == q / 2 || IsAncestor(c, q / 2);
      }
    }
  }

  /** The first step of the repair from q survives the rest of the walk. */
  lemma RepairedPathFirst<T>(op: (T, T) -> T, s: seq<T>, q: int)
    requires 1 < q < |s| && |s| % 2 == 0
    ensures var r := Repaired(op, s, q);
            r[q / 2] == op(r[q], r[Sibling(q)])
  {
    var s' := s[q / 2 := op(s[q], s[Sibling(q)])];
    var p := q / 2;
    RepairedFrame(op, s', p);
    if IsAncestor(p, p) { AncestorBelow(p, p); }
    if IsAncestor(q, p) { AncestorBelow(q, p); }
    if IsAncestor(Sibling(q), p) { AncestorBelow(Sibling(q), p); }
    assert s'[q] == s[q] && s'[Sibling(q)] == s[Sibling(q)];
  }

  /**
   * With a commutative op the repair restores the internal-node identity,
   * provided it held everywhere except at the parent of q.
   */
  lemma {:induction false} RepairedRestoresIdentity<T(!new)>(op: (T, T) -> T, s: seq<T>, n: int, q: int)
    requires Commutative(op)
    requires |s| == 2 * n && 1 <= q < 2 * n
    requires forall i :: 1 <= i < n && i != q / 2 ==> Combines(op, s, i)
    ensures Consistent(op, Repaired(op, s, q), n)
    decreases q
  {
    if q > 1 {
      var p := q / 2;
      var s' := s[p := op(s[q], s[Sibling(q)])];
      assert Combines(op, s', p);
      forall i | 1 <= i < n && i != p / 2 ensures Combines(op, s', i) {
        assert Combines(op, s, i) || i == p;
      }
      RepairedRestoresIdentity(op, s', n, p);
    }
  }

  /**
   * The repair the identity calls for: walking up from q, each parent
   * receives op(left child, right child), whichever child the walk came from.
   */
  function RepairedInOrder<T>(op: (T, T) -> T, s: seq<T>, q: int): (r: seq<T>)
    requires 1 <= q < |s| && |s| % 2 == 0
    ensures |r| == |s|
    decreases q
  {
    if q <= 1 then s
    else
      var p := q / 2;
      RepairedInOrder(op, s[p := op(s[2 * p], s[2 * p + 1])], p)
  }

  /** The in-order repair restores the identity for any op, commutative or not. */
  lemma {:induction false} RepairedInOrderRestoresIdentity<T>(op: (T, T) -> T, s: seq<T>, n: int, q: int)
    requires |s| == 2 * n && 1 <= q < 2 * n
    requires forall i :: 1 <= i < n && i != q / 2 ==> Combines(op, s, i)
    ensures Consistent(op, RepairedInOrder(op, s, q), n)
    decreases q
  {
    if q > 1 {
      var p := q / 2;
      var s' := s[p := op(s[2 * p], s[2 * p + 1])];
      assert Combines(op, s', p);
      forall i | 1 <= i < n && i != p / 2 ensures Combines(op, s', i) {
        assert Combines(op, s, i) || i == p;
      }
      RepairedInOrderRestoresIdentity(op, s', n, p);
    }
  }

  /** The in-order repair, too, rewrites only proper ancestors of q. */
  lemma {:induction false} RepairedInOrderFrame<T>(op: (T, T) -> T, s: seq<T>, q: int)
    requires 1 <= q < |s| && |s| % 2 == 0
    ensures forall i :: 0 <= i < |s| && !IsAncestor(i, q) ==> RepairedInOrder(op, s, q)[i] == s[i]
    decreases q
  {
    if q > 1 {
      var p := q / 2;
      var s' := s[p := op(s[2 * p], s[2 * p + 1])];
      RepairedInOrderFrame(op, s', p);
      forall i | 0 <= i < |s| && !IsAncestor(i, q) ensures RepairedInOrder(op, s, q)[i] == s[i] {
        assert i != p && !IsAncestor(i, p);
      }
    }
  }

  /** The node ranges of the layout: the leaves below node i, left to right. */
  ghost function Span<T>(s: seq<T>, n: int, i: int): seq<T>
    requires |s| == 2 * n && 1 <= i < 2 * n
    decreases 2 * n - i
  {
    if i >= n then [s[i]] else Span(s, n, 2 * i) + Span(s, n, 2 * i + 1)
  }

  /** The leaves below the nodes lo, lo + 1, ..., hi - 1, concatenated. */
  ghost function Spans<T>(s: seq<T>, n: int, lo: int, hi: int): seq<T>
    requires |s| == 2 * n && 1 <= lo <= hi <= 2 * n
    decreases hi - lo
  {
    if lo == hi then [] else Span(s, n, lo) + Spans(s, n, lo + 1, hi)
  }

  /** Under the identity, every node holds the fold of the leaves below it. */
  lemma {:induction false} NodeIsFold<T(!new)>(op: (T, T) -> T, e: T, s: seq<T>, n: int, i: int)
    requires IsMonoid(op, e) && Consistent(op, s, n) && 1 <= i < 2 * n
    ensures s[i] == Fold(op, e, Span(s, n, i))
    decreases 2 * n - i
  {
    if i >= n {
      assert [s[i]][..0] == [];
    } else {
      assert Combines(op, s, i);
      NodeIsFold(op, e, s, n, 2 * i);
      NodeIsFold(op, e, s, n, 2 * i + 1);
      FoldAppend(op, e, Span(s, n, 2 * i), Span(s, n, 2 * i + 1));
    }
  }

  lemma {:induction false} SpansLast<T>(s: seq<T>, n: int, lo: int, hi: int)
    requires |s| == 2 * n && 1 <= lo < hi <= 2 * n
    ensures Spans(s, n, lo, hi) == Spans(s, n, lo, hi - 1) + Span(s, n, hi - 1)
    decreases hi - lo
  {
    if lo + 1 < hi {
      SpansLast(s, n, lo + 1, hi);
    }
  }

  /** An even-aligned run of nodes covers the same leaves as the run of their parents. */
  lemma {:induction false} SpansHalve<T>(s: seq<T>, n: int, lo: int, hi: int)
    requires |s| == 2 * n && 2 <= lo <= hi <= 2 * n && lo % 2 == 0 && hi % 2 == 0
    ensures Spans(s, n, lo, hi) == Spans(s, n, lo / 2, hi / 2)
    decreases hi - lo
  {
    if lo < hi {
      var h := lo / 2;
      assert lo == 2 * h && h + 1 == (lo + 2) / 2 && h < n;
      SpansHalve(s, n, lo + 2, hi);
      var rest := Spans(s, n, lo + 2, hi);
      assert Spans(s, n, lo, hi) == Span(s, n, lo) + (Span(s, n, lo + 1) + rest);
      assert Span(s, n, h) == Span(s, n, lo) + Span(s, n, lo + 1);
      assert Spans(s, n, h, hi / 2) == Span(s, n, h) + rest;
      ConcatAssociative(Span(s, n, lo), Span(s, n, lo + 1), rest);
    }
  }

  /** A run of leaves covers exactly those leaves. */
  lemma {:induction false} SpansOfLeaves<T>(s: seq<T>, n: int, lo: int, hi: int)
    requires |s| == 2 * n && n <= lo && 1 <= lo <= hi <= 2 * n
    ensures Spans(s, n, lo, hi) == s[lo..hi]
    decreases hi - lo
  {
    if lo < hi {
      SpansOfLeaves(s, n, lo + 1, hi);
    }
  }

  /** `if (l & 1) l++`: the left bound after taking an odd node off the left end. */
  function Up(l: int): int {
    if l % 2 == 1 then l + 1 else l
  }

  /** `if (r & 1) --r`: the right bound after taking an odd node off the right end. */
  function Down(r: int): int {
    if r % 2 == 1 then r - 1 else r
  }

  /** The arithmetic of one round: both bounds become even and stay in order, and r halves. */
  lemma StepBounds(l: int, r: int)
    requires 1 <= l < r
    ensures l <= Up(l) <= Down(r) <= r
    ensures 2 <= Up(l) && Up(l) % 2 == 0 && Down(r) % 2 == 0
    ensures 1 <= Up(l) / 2 <= Down(r) / 2 < r && 2 * (Down(r) / 2) == Down(r)
    ensures (l % 2 == 1 ==> Up(l) == l + 1) && (l % 2 != 1 ==> Up(l) == l)
    ensures (r % 2 == 1 ==> Down(r) == r - 1) && (r % 2 != 1 ==> Down(r) == r)
  {
  }

  /**
   * The query loop of the source, one iteration per call: l and r are the
   * current node bounds, accl grows on the right and accr on the left.
   */
  function QueryWalk<T>(op: (T, T) -> T, s: seq<T>, l: int, r: int, accl: T, accr: T): T
    requires 0 <= l && r <= |s| && (l < r ==> 1 <= l)
    decreases r
  {
    if l >= r then op(accl, accr)
    else
      var accl' := if l % 2 == 1 then op(accl, s[l]) else accl;
      var accr' := if r % 2 == 1 then op(s[r - 1], accr) else accr;
      QueryWalk(op, s, Up(l) / 2, Down(r) / 2, accl', accr')
  }

  /**
   * One round of the walk on node bounds [l, r): an odd l is taken off the
   * left end, an odd r - 1 off the right end, and the remaining even-aligned
   * run covers the same leaves as the run of its parents.
   */
  lemma SpansStep<T>(s: seq<T>, n: int, l: int, r: int)
    requires |s| == 2 * n && 1 <= l < r <= 2 * n
    ensures 1 <= Up(l) / 2 <= Down(r) / 2 <= 2 * n
    ensures Spans(s, n, l, r) == (if l % 2 == 1 then Span(s, n, l) else [])
                                 + Spans(s, n, Up(l) / 2, Down(r) / 2)
                                 + (if r % 2 == 1 then Span(s, n, r - 1) else [])
  {
    StepBounds(l, r);
    var u, d := Up(l), Down(r);
    var a: seq<T>, b: seq<T>;
    if l % 2 == 1 {
      a := Span(s, n, l);
    } else {
      a := [];
      EmptyConcat(Spans(s, n, u, r));
    }
    assert Spans(s, n, l, r) == a + Spans(s, n, u, r);
    if r % 2 == 1 {
      b := Span(s, n, r - 1);
      SpansLast(s, n, u, r);
    } else {
      b := [];
      EmptyConcat(Spans(s, n, u, d));
    }
    assert Spans(s, n, u, r) == Spans(s, n, u, d) + b;
    SpansHalve(s, n, u, d);
    ConcatAssociative(a, Spans(s, n, u / 2, d / 2), b);
  }

  lemma EmptyConcat<T>(x: seq<T>)
    ensures [] + x == x && x + [] == x
  {
  }

  lemma ConcatAssociative<T>(a: seq<T>, b: seq<T>, c: seq<T>)
    ensures a + (b + c) == a + b + c
  {
  }

  /** The walk folds the leaves below [l, r) between the two accumulators. */
  lemma {:induction false} QueryWalkFolds<T(!new)>(op: (T, T) -> T, e: T, s: seq<T>, n: int, l: int, r: int,
                                                   left: seq<T>, right: seq<T>, accl: T, accr: T)
    requires IsMonoid(op, e) && Consistent(op, s, n) && 1 <= l <= r <= 2 * n
    requires accl == Fold(op, e, left) && accr == Fold(op, e, right)
    ensures QueryWalk(op, s, l, r, accl, accr) == Fold(op, e, left + Spans(s, n, l, r) + right)
    decreases r
  {
    if l == r {
      assert left + Spans(s, n, l, r) + right == left + right;
      FoldAppend(op, e, left, right);
    } else {
      var a: seq<T> := if l % 2 == 1 then Span(s, n, l) else [];
      var b: seq<T> := if r % 2 == 1 then Span(s, n, r - 1) else [];
      SpansStep(s, n, l, r);
      var mid := Spans(s, n, Up(l) / 2, Down(r) / 2);
      TakeLeft(op, e, s, n, l, left);
      TakeRight(op, e, s, n, r, right);
      var accl' := if l % 2 == 1 then op(accl, s[l]) else accl;
      var accr' := if r % 2 == 1 then op(s[r - 1], accr) else accr;
      QueryWalkStep(op, s, l, r, accl, accr, Up(l) / 2, Down(r) / 2, accl', accr');
      QueryWalkFolds(op, e, s, n, Up(l) / 2, Down(r) / 2, left + a, b + right, accl', accr');
      Regroup(left, a, mid, b, right);
    }
  }

  /** One round of the walk: (l, r, accl, accr) steps to (l', r', accl', accr'). */
  lemma QueryWalkStep<T>(op: (T, T) -> T, s: seq<T>, l: int, r: int, accl: T, accr: T,
                         l': int, r': int, accl': T, accr': T)
    requires 1 <= l < r <= |s|
    requires l' == Up(l) / 2 && r' == Down(r) / 2
    requires accl' == (if l % 2 == 1 then op(accl, s[l]) else accl)
    requires accr' == (if r % 2 == 1 then op(s[r - 1], accr) else accr)
    ensures 1 <= l' <= r' < r && (l' < r' ==> 1 <= l')
    ensures QueryWalk(op, s, l, r, accl, accr) == QueryWalk(op, s, l', r', accl', accr')
  {
  }

  /** An odd left bound moves its node's leaves into the left accumulator. */
  lemma TakeLeft<T(!new)>(op: (T, T) -> T, e: T, s: seq<T>, n: int, l: int, left: seq<T>)
    requires IsMonoid(op, e) && Consistent(op, s, n) && 1 <= l < 2 * n
    ensures (if l % 2 == 1 then op(Fold(op, e, left), s[l]) else Fold(op, e, left))
            == Fold(op, e, left + (if l % 2 == 1 then Span(s, n, l) else []))
  {
    if l % 2 == 1 {
      NodeIsFold(op, e, s, n, l);
      FoldAppend(op, e, left, Span(s, n, l));
    } else {
      assert left + [] == left;
    }
  }

  /** An odd right bound moves the leaves of node r - 1 into the right accumulator. */
  lemma TakeRight<T(!new)>(op: (T, T) -> T, e: T, s: seq<T>, n: int, r: int, right: seq<T>)
    requires IsMonoid(op, e) && Consistent(op, s, n) && 2 <= r <= 2 * n
    ensures (if r % 2 == 1 then op(s[r - 1], Fold(op, e, right)) else Fold(op, e, right))
            == Fold(op, e, (if r % 2 == 1 then Span(s, n, r - 1) else []) + right)
  {
    if r % 2 == 1 {
      NodeIsFold(op, e, s, n, r - 1);
      FoldAppend(op, e, Span(s, n, r - 1), right);
    } else {
      assert [] + right == right;
    }
  }

  lemma Regroup<T>(left: seq<T>, a: seq<T>, mid: seq<T>, b: seq<T>, right: seq<T>)
    ensures left + (a + mid + b) + right == (left + a) + mid + (b + right)
  {
  }

  /** For a consistent tree, query(l, r) is the left-to-right fold of leaves l .. r - 1. */
  lemma QueryFolds<T(!new)>(op: (T, T) -> T, e: T, s: seq<T>, n: int, l: int, r: int)
    requires |s| == 2 * n && 0 <= l <= n && 0 <= r <= n
    ensures l <= r && IsMonoid(op, e) && Consistent(op, s, n) ==>
              QueryWalk(op, s, n + l, n + r, e, e) == Fold(op, e, s[n..][l..r])
  {
    if l <= r && IsMonoid(op, e) && Consistent(op, s, n) {
      LeafSlice(s, n, l, r);
      var leaves := s[n + l..n + r];
      if l == r {
        assert leaves == [];
        assert QueryWalk(op, s, n + l, n + r, e, e) == op(e, e) == e;
      } else {
        var sp := Spans(s, n, n + l, n + r);
        QueryWalkFolds(op, e, s, n, n + l, n + r, [], [], e, e);
        LeavesRun(s, n, n + l, n + r);
        assert [] + sp + [] == leaves;
        assert QueryWalk(op, s, n + l, n + r, e, e) == Fold(op, e, [] + sp + []);
      }
    }
  }

  /** What the query's result means, stated on the leaves: e for an empty range, the fold otherwise. */
  lemma QueryResult<T(!new)>(op: (T, T) -> T, e: T, s: seq<T>, n: int, l: int, r: int, leaves: seq<T>, res: T)
    requires |s| == 2 * n && 0 <= l <= n && 0 <= r <= n && leaves == s[n..]
    requires res == QueryWalk(op, s, n + l, n + r, e, e)
    ensures r <= l ==> res == op(e, e)
    ensures l <= r && IsMonoid(op, e) && Consistent(op, s, n) ==> res == Fold(op, e, leaves[l..r])
  {
    QueryFolds(op, e, s, n, l, r);
  }

  /** The leaves below a run of leaf nodes, with nothing on either side. */
  lemma LeavesRun<T>(s: seq<T>, n: int, lo: int, hi: int)
    requires |s| == 2 * n && n <= lo && 1 <= lo <= hi <= 2 * n
    ensures [] + Spans(s, n, lo, hi) + [] == s[lo..hi]
  {
    SpansOfLeaves(s, n, lo, hi);
    EmptyConcat(Spans(s, n, lo, hi));
  }

  lemma LeafSlice<T>(s: seq<T>, n: int, l: int, r: int)
    requires 0 <= n <= |s| && 0 <= l <= r <= |s| - n
    ensures s[n..][l..r] == s[n + l..n + r]
  {
  }

  /** The inclusive range of `query(Interval)`; the type is defined outside the core. */
  datatype Interval = Interval(l: int, r: int)

  class SegmentTree<T(!new)> {
    const op: (T, T) -> T
    const e: T
    var t: array<T>
    var n: nat

    ghost predicate Valid()
      reads this
    {
      t.Length == 2 * n
    }

    /** The logical sequence: the leaves t[n .. 2n). */
    ghost function Leaves(): seq<T>
      reads this, t
      requires Valid()
    {
      t[n..]
    }

    ghost predicate Identity()
      reads this, t
      requires Valid()
    {
      Consistent(op, t[..], n)
    }

    /** What the query loop returns on the current array, whether or not the identity holds. */
    ghost function Walk(l: int, r: int): T
      reads this, t
      requires Valid() && 0 <= l <= n && 0 <= r <= n
    {
      QueryWalk(op, t[..], n + l, n + r, e, e)
    }

    /** `SegmentTree()`: the empty tree. */
    constructor Empty(op: (T, T) -> T, e: T)
      ensures this.op == op && this.e == e
      ensures Valid() && n == 0 && Leaves() == [] && Identity()
    {
      this.op, this.e := op, e;
      n := 0;
      t := new T[0];
    }

    /** `SegmentTree(N)`: N leaves, every cell e. */
    constructor (op: (T, T) -> T, e: T, N: nat)
      ensures this.op == op && this.e == e
      ensures Valid() && n == N
      ensures forall i :: 0 <= i < t.Length ==> t[i] == e
      ensures op(e, e) == e ==> Identity()
    {
      this.op, this.e := op, e;
      n := N;
      t := new T[2 * N](_ => e);
    }

    /** `build(n)`: resize to N leaves and reset every cell to e. */
    method Reset(N: nat)
      modifies this
      ensures Valid() && n == N && fresh(t)
      ensures forall i :: 0 <= i < t.Length ==> t[i] == e
      ensures op(e, e) == e ==> Identity()
    {
      n := N;
      t := new T[2 * N](_ => e);
    }

    /** `build(v)`: the leaves are v and every internal node is rebuilt bottom-up. */
    method Build(v: seq<T>)
      modifies this
      ensures Valid() && n == |v| && fresh(t)
      ensures Leaves() == v
      ensures Identity()
      ensures n > 0 ==> t[0] == e
    {
      var m := |v|;
      var a := new T[2 * m](_ => e);
      var k := 0;
      while k < m
        invariant 0 <= k <= m
        invariant forall j :: 0 <= j < 2 * m ==> a[j] == if m <= j < m + k then v[j - m] else e
      {
        a[m + k] := v[k];
        k := k + 1;
      }
      var i := m - 1;
      while i > 0
        invariant if m == 0 then i == -1 else 0 <= i < m
        invariant forall j :: m <= j < 2 * m ==> a[j] == v[j - m]
        invariant forall j :: i < j < m ==> Combines(op, a[..], j)
        invariant m > 0 ==> a[0] == e
      {
        ghost var before := a[..];
        a[i] := op(a[2 * i], a[2 * i + 1]);
        forall j | i <= j < m ensures Combines(op, a[..], j) {
          assert j == i || Combines(op, before, j);
        }
        i := i - 1;
      }
      n, t := m, a;
      assert Leaves() == v;
    }

    /** `get(p)`: leaf p; changes nothing. */
    method Get(p: int) returns (x: T)
      requires Valid() && 0 <= p < n
      ensures x == Leaves()[p]
    {
      x := t[p + n];
    }

    /** The shared ancestor loop of `update` and `add`, starting at node q. */
    method RepairFrom(q: int)
      requires Valid() && 1 <= q < 2 * n
      modifies t
      ensures t[..] == Repaired(op, old(t[..]), q)
    {
      var p := q;
      while p > 1
        invariant 1 <= p < 2 * n
        invariant Repaired(op, t[..], p) == Repaired(op, old(t[..]), q)
        decreases p
      {
        t[p / 2] := op(t[p], t[Sibling(p)]);
        p := p / 2;
      }
    }

    /** `update(p, value)`: leaf p becomes value and its ancestors are recomputed. */
    method Update(p: int, value: T)
      requires Valid() && 0 <= p < n
      modifies t
      ensures t[..] == Repaired(op, old(t[..])[n + p := value], n + p)
      ensures Leaves() == old(Leaves())[p := value]
      ensures forall i :: 0 <= i < n && !IsAncestor(i, n + p) ==> t[i] == old(t[i])
      ensures Commutative(op) && old(Identity()) ==> Identity()
    {
      ghost var s := t[..];
      t[p + n] := value;
      ghost var written := t[..];
      assert written == s[n + p := value];
      RepairFrom(n + p);
      WriteRepaired(op, s, n, p, value, written, t[..]);
      forall i | 0 <= i < n && !IsAncestor(i, n + p) ensures t[i] == old(t[i]) {
        assert t[i] == t[..][i] && old(t[i]) == s[i];
      }
    }

    /**
     * `add(p, value)`: leaf p becomes op(leaf p, value), value on the right,
     * and the ancestors are recomputed by the same loop as `update`.
     */
    method Add(p: int, value: T)
      requires Valid() && 0 <= p < n
      modifies t
      ensures t[..] == Repaired(op, old(t[..])[n + p := op(old(t[n + p]), value)], n + p)
      ensures Leaves() == old(Leaves())[p := op(old(Leaves())[p], value)]
      ensures forall i :: 0 <= i < n && !IsAncestor(i, n + p) ==> t[i] == old(t[i])
      ensures Commutative(op) && old(Identity()) ==> Identity()
    {
      var w := op(t[p + n], value);
      Update(p, w);
    }

    /** The ancestor loop with the parent recomputed from its two children in order. */
    method RepairInOrderFrom(q: int)
      requires Valid() && 1 <= q < 2 * n
      modifies t
      ensures t[..] == RepairedInOrder(op, old(t[..]), q)
    {
      var p := q;
      while p > 1
        invariant 1 <= p < 2 * n
        invariant RepairedInOrder(op, t[..], p) == RepairedInOrder(op, old(t[..]), q)
        decreases p
      {
        var parent := p / 2;
        t[parent] := op(t[2 * parent], t[2 * parent + 1]);
        p := parent;
      }
    }

    /** `update(p, value)` with the in-order repair: the identity is kept for every op. */
    method UpdateInOrder(p: int, value: T)
      requires Valid() && 0 <= p < n
      modifies t
      ensures t[..] == RepairedInOrder(op, old(t[..])[n + p := value], n + p)
      ensures Leaves() == old(Leaves())[p := value]
      ensures forall i :: 0 <= i < n && !IsAncestor(i, n + p) ==> t[i] == old(t[i])
      ensures old(Identity()) ==> Identity()
    {
      ghost var s := t[..];
      t[p + n] := value;
      ghost var written := t[..];
      assert written == s[n + p := value];
      RepairInOrderFrom(n + p);
      WriteRepairedInOrder(op, s, n, p, value, written, t[..]);
      forall i | 0 <= i < n && !IsAncestor(i, n + p) ensures t[i] == old(t[i]) {
        assert t[i] == t[..][i] && old(t[i]) == s[i];
      }
    }

    /** `query(l, r)`: combine leaves l .. r - 1 from both ends towards the root. */
    method Query(l: int, r: int) returns (res: T)
      requires Valid() && 0 <= l <= n && 0 <= r <= n
      ensures res == Walk(l, r)
      ensures r <= l ==> res == op(e, e)
      ensures l <= r && IsMonoid(op, e) && Identity() ==> res == Fold(op, e, Leaves()[l..r])
    {
      ghost var s := t[..];
      ghost var goal := Walk(l, r);
      var accl, accr := e, e;
      var lo, hi := l + n, r + n;
      while lo < hi
        invariant 0 <= lo && 0 <= hi <= 2 * n && (lo < hi ==> 1 <= lo)
        invariant QueryWalk(op, s, lo, hi, accl, accr) == goal
        decreases hi
      {
        ghost var lo0, hi0, accl0, accr0 := lo, hi, accl, accr;
        if lo % 2 == 1 {
          accl := op(accl, t[lo]);
          lo := lo + 1;
        }
        if hi % 2 == 1 {
          hi := hi - 1;
          accr := op(t[hi], accr);
        }
        lo, hi := lo / 2, hi / 2;
        QueryWalkStep(op, s, lo0, hi0, accl0, accr0, lo, hi, accl, accr);
      }
      res := op(accl, accr);
      assert res == goal;
      QueryResult(op, e, s, n, l, r, t[n..], res);
    }

    /** `query(Interval{l, r})`: the interval is inclusive, so this is query(l, r + 1). */
    method QueryInterval(iv: Interval) returns (res: T)
      requires Valid() && 0 <= iv.l <= n && 0 <= iv.r + 1 <= n
      ensures res == Walk(iv.l, iv.r + 1)
      ensures iv.r < iv.l ==> res == op(e, e)
      ensures iv.l <= iv.r + 1 && IsMonoid(op, e) && Identity() ==> res == Fold(op, e, Leaves()[iv.l..iv.r + 1])
    {
      res := Query(iv.l, iv.r + 1);
    }
  }

  /** Writing leaf p and repairing in order: the leaves are updated and the identity survives. */
  lemma WriteRepairedInOrder<T>(op: (T, T) -> T, s: seq<T>, n: int, p: int, v: T, s': seq<T>, r: seq<T>)
    requires |s| == 2 * n && 0 <= p < n && s' == s[n + p := v] && r == RepairedInOrder(op, s', n + p)
    ensures && r[n..] == s[n..][p := v]
            && (forall i :: 0 <= i < 2 * n && i != n + p && !IsAncestor(i, n + p) ==> r[i] == s[i])
            && (Consistent(op, s, n) ==> Consistent(op, r, n))
  {
    RepairedInOrderFrame(op, s', n + p);
    forall i | n <= i < 2 * n ensures r[i] == s'[i] {
      if IsAncestor(i, n + p) { AncestorBelow(i, n + p); }
    }
    assert r[n..] == s'[n..];
    assert s'[n..] == s[n..][p := v];
    if Consistent(op, s, n) {
      LeafWrite(op, s, n, n + p, v, s');
      RepairedInOrderRestoresIdentity(op, s', n, n + p);
    }
  }

  /** Changing leaf q of a consistent tree can break the identity only at the parent of q. */
  lemma LeafWrite<T>(op: (T, T) -> T, s: seq<T>, n: int, q: int, v: T, s': seq<T>)
    requires Consistent(op, s, n) && n <= q < 2 * n && s' == s[q := v]
    ensures forall i :: 1 <= i < n && i != q / 2 ==> Combines(op, s', i)
  {
    forall i | 1 <= i < n && i != q / 2 ensures Combines(op, s', i) {
      assert Combines(op, s, i) && 2 * i != q && 2 * i + 1 != q;
    }
  }

  /**
   * Writing leaf p and repairing from it: leaf p holds v, no other leaf
   * changes, every node that changes is an ancestor of leaf p, and with a
   * commutative op the identity survives.
   */
  lemma WriteRepaired<T(!new)>(op: (T, T) -> T, s: seq<T>, n: int, p: int, v: T, s': seq<T>, r: seq<T>)
    requires |s| == 2 * n && 0 <= p < n && s' == s[n + p := v] && r == Repaired(op, s', n + p)
    ensures && r[n..] == s[n..][p := v]
            && (forall i :: 0 <= i < 2 * n && i != n + p && !IsAncestor(i, n + p) ==> r[i] == s[i])
            && (Commutative(op) && Consistent(op, s, n) ==> Consistent(op, r, n))
  {
    RepairedFrame(op, s', n + p);
    forall i | n <= i < 2 * n ensures r[i] == s'[i] {
      if IsAncestor(i, n + p) { AncestorBelow(i, n + p); }
    }
    assert r[n..] == s'[n..];
    assert s'[n..] == s[n..][p := v];
    if Commutative(op) && Consistent(op, s, n) {
      LeafWrite(op, s, n, n + p, v, s');
      RepairedRestoresIdentity(op, s', n, n + p);
    }
  }
}
