/**
 * The algebraic structures the data structures are parameterised over.
 *
 * A structure is an operation table on an element type V. The laws the
 * library relies on without checking them (associativity, identities,
 * inverses, distributivity) are ghost predicates on that table; lemmas that
 * need a law take it as a hypothesis, so every fact proved about the data
 * structures says exactly which laws it depends on.
 */
module Algebra {

  /** The operation table: Monoid = {zero, plus}, Group adds neg, Semiring adds one and mul. */
  datatype Structure<!V> = Structure(
    zero: V,
    plus: (V, V) -> V,
    neg: V -> V,
    one: V,
    mul: (V, V) -> V)

  ghost predicate Associative<V(!new)>(f: (V, V) -> V) {
    forall x, y, z {:trigger f(f(x, y), z)} :: f(f(x, y), z) == f(x, f(y, z))
  }

  /** e is a two-sided identity of f. */
  ghost predicate Neutral<V(!new)>(f: (V, V) -> V, e: V) {
    forall x :: f(e, x) == x && f(x, e) == x
  }

  ghost predicate Commutative<V(!new)>(f: (V, V) -> V) {
    forall x, y :: f(x, y) == f(y, x)
  }

  ghost predicate IsMonoid<V(!new)>(f: (V, V) -> V, e: V) {
    Associative(f) && Neutral(f, e)
  }

  /** plus(x, neg(x)) = zero and symmetrically. */
  ghost predicate Inverse<V(!new)>(s: Structure<V>) {
    forall x :: s.plus(x, s.neg(x)) == s.zero && s.plus(s.neg(x), x) == s.zero
  }

  /** mul distributes over plus on both sides. */
  ghost predicate Distributive<V(!new)>(s: Structure<V>) {
    (forall x, y, z :: s.mul(x, s.plus(y, z)) == s.plus(s.mul(x, y), s.mul(x, z)))
    && (forall x, y, z :: s.mul(s.plus(x, y), z) == s.plus(s.mul(x, z), s.mul(y, z)))
  }

  /** zero absorbs under mul. */
  ghost predicate Absorbing<V(!new)>(s: Structure<V>) {
    forall x :: s.mul(s.zero, x) == s.zero && s.mul(x, s.zero) == s.zero
  }

  ghost predicate IsGroup<V(!new)>(s: Structure<V>) {
    IsMonoid(s.plus, s.zero) && Inverse(s)
  }

  ghost predicate IsSemiring<V(!new)>(s: Structure<V>) {
    IsMonoid(s.plus, s.zero) && IsMonoid(s.mul, s.one) && Distributive(s) && Absorbing(s)
  }

  ghost predicate IsRing<V(!new)>(s: Structure<V>) {
    IsGroup(s) && IsSemiring(s)
  }

  /** The integers under addition and multiplication. */
  function IntRing(): Structure<int> {
    Structure(0, (x: int, y: int) => x + y, (x: int) => -x, 1, (x: int, y: int) => x * y)
  }

  /** The integers under (+, *) form a ring: the ring laws above can be met at once. */
  lemma IntRingIsRing()
    ensures IsRing(IntRing())
  {
  }

  /**
   * Integer addition and multiplication are both commutative, so the
   * commutativity hypothesis of the segment tree's update can be met too.
   */
  lemma IntRingIsCommutative()
    ensures Commutative(IntRing().plus) && Commutative(IntRing().mul)
  {
    var s := IntRing();
    forall x: int, y: int ensures s.mul(x, y) == s.mul(y, x) {
      assert x * y == y * x;
    }
  }
}
