/**
 * Concrete instances of the two structures over the integers and over
 * strings, showing where the code as written and the evidently intended
 * behaviour part ways, and that the corrected definitions close the gap.
 */
module Scenarios {
  import opened Algebra
  import opened Matrices
  import opened SegTree

  // ---------------------------------------------------------------------
  // Matrices over the integers.
  // ---------------------------------------------------------------------

  /** [[1, 2, 3], [4, 5, 6]]. */
  function Left(): (r: Matrix<int>)
    ensures r.Valid() && r.n == 2 && r.m == 3
  {
    Matrix([[1, 2, 3], [4, 5, 6]], 2, 3)
  }

  /** [[7, 8], [9, 10], [11, 12]]. */
  function Right(): (r: Matrix<int>)
    ensures r.Valid() && r.n == 3 && r.m == 2
  {
    Matrix([[7, 8], [9, 10], [11, 12]], 3, 2)
  }

  /**
   * The rectangular product as written keeps only the k = 2 term of each
   * cell, giving [[33, 36], [66, 72]]; the intended accumulating product
   * gives [[58, 64], [139, 154]].
   */
  lemma RectangularProduct()
    ensures Product(IntRing(), Left(), Right()) == Matrix([[33, 36], [66, 72]], 2, 2)
    ensures SumProduct(IntRing(), Left(), Right()) == Matrix([[58, 64], [139, 154]], 2, 2)
  {
    var s, a, b := IntRing(), Left(), Right();
    var p := Product(s, a, b);
    assert p.values[0] == [33, 36] && p.values[1] == [66, 72];
    var q := SumProduct(s, a, b);
    assert Dot(s, a, b, 0, 0, 3) == 58 && Dot(s, a, b, 0, 1, 3) == 64;
    assert Dot(s, a, b, 1, 0, 3) == 139 && Dot(s, a, b, 1, 1, 3) == 154;
    assert q.values[0] == [58, 64] && q.values[1] == [139, 154];
  }

  /**
   * The identity matrix is not neutral for the product as written:
   * I * [[1, 2], [3, 4]] is [[0, 0], [3, 4]], while the accumulating
   * product gives back the matrix.
   */
  lemma UnitNotNeutral()
    ensures Product(IntRing(), Unit(IntRing(), 2), Matrix([[1, 2], [3, 4]], 2, 2)) == Matrix([[0, 0], [3, 4]], 2, 2)
    ensures SumProduct(IntRing(), Unit(IntRing(), 2), Matrix([[1, 2], [3, 4]], 2, 2)) == Matrix([[1, 2], [3, 4]], 2, 2)
  {
    var s, a := IntRing(), Matrix([[1, 2], [3, 4]], 2, 2);
    var u := Unit(s, 2);
    assert u.values[0][1] == 0 && u.values[1][1] == 1;
    var p := Product(s, u, a);
    assert p.values[0] == [0, 0] && p.values[1] == [3, 4];
    IntRingIsRing();
    SumProductUnit(s, a);
  }

  /**
   * The power laws with no factor of a: as written, pow(0) * pow(0) is not
   * pow(0), and pow(1) of [[1, 2], [3, 4]] is not the matrix itself.
   */
  lemma PowSmallCases()
    ensures Product(IntRing(), Unit(IntRing(), 2), Unit(IntRing(), 2)) == Matrix([[0, 0], [0, 1]], 2, 2)
    ensures Times(IntRing(), Unit(IntRing(), 2), Matrix([[1, 2], [3, 4]], 2, 2), 1) == Matrix([[0, 0], [3, 4]], 2, 2)
  {
    var s, a := IntRing(), Matrix([[1, 2], [3, 4]], 2, 2);
    var u := Unit(s, 2);
    assert u.values[0][1] == 0 && u.values[1][1] == 1;
    var p := Product(s, u, u);
    assert p.values[0] == [0, 0] && p.values[1] == [0, 1];
    var q := Product(s, u, a);
    assert q.values[0] == [0, 0] && q.values[1] == [3, 4];
    assert Times(s, u, a, 1) == Times(s, q, a, 0);
  }

  // ---------------------------------------------------------------------
  // A segment tree over strings under concatenation.
  // ---------------------------------------------------------------------

  function Concat(): (string, string) -> string {
    (x: string, y: string) => x + y
  }

  /** Concatenation is a monoid with the empty string, and it is not commutative. */
  lemma ConcatIsMonoid()
    ensures IsMonoid(Concat(), "")
    ensures !Commutative(Concat())
  {
    forall x: string, y: string, z: string ensures Concat()(Concat()(x, y), z) == Concat()(x, Concat()(y, z)) {
      assert (x + y) + z == x + (y + z);
    }
    forall x: string ensures Concat()("", x) == x && Concat()(x, "") == x {
      assert "" + x == x && x + "" == x;
    }
    assert Concat()("a", "b") == "ab" && Concat()("b", "a") == "ba";
  }

  /** The array build(["a", "b", "c", "d"]) leaves, with t[0] = e. */
  function Letters(): seq<string> {
    ["", "abcd", "ab", "cd", "a", "b", "c", "d"]
  }

  lemma LettersConsistent()
    ensures Consistent(Concat(), Letters(), 4) && Letters()[4..] == ["a", "b", "c", "d"]
  {
    var s := Letters();
    assert "a" + "b" == "ab" && "c" + "d" == "cd" && "ab" + "cd" == "abcd";
    assert Combines(Concat(), s, 1) && Combines(Concat(), s, 2) && Combines(Concat(), s, 3);
  }

  /**
   * update(1, "X") as written: node 2 becomes "X" + "a" and the root
   * "Xacd", so the walk of query(0, 4) returns "Xacd" although the leaves
   * read "aXcd", and the tree is no longer consistent.
   */
  lemma UpdateAsWritten()
    ensures Repaired(Concat(), Letters()[5 := "X"], 5) == ["", "Xacd", "Xa", "cd", "a", "X", "c", "d"]
    ensures QueryWalk(Concat(), ["", "Xacd", "Xa", "cd", "a", "X", "c", "d"], 4, 8, "", "") == "Xacd"
    ensures !Consistent(Concat(), ["", "Xacd", "Xa", "cd", "a", "X", "c", "d"], 4)
  {
    var s := Letters()[5 := "X"];
    assert "X" + "a" == "Xa" && "Xa" + "cd" == "Xacd";
    var s2 := s[2 := "Xa"];
    assert Repaired(Concat(), s, 5) == Repaired(Concat(), s2, 2);
    assert Repaired(Concat(), s2, 2) == s2[1 := "Xacd"];
    var r := ["", "Xacd", "Xa", "cd", "a", "X", "c", "d"];
    assert QueryWalk(Concat(), r, 4, 8, "", "") == QueryWalk(Concat(), r, 2, 4, "", "");
    assert QueryWalk(Concat(), r, 2, 4, "", "") == QueryWalk(Concat(), r, 1, 2, "", "");
    assert QueryWalk(Concat(), r, 1, 2, "", "") == QueryWalk(Concat(), r, 1, 1, "Xacd", "");
    assert "a" + "X" == "aX" && "aX" != "Xa";
    assert !Combines(Concat(), r, 2);
  }

  /** A consistent array with leaves a, b, c, d and t[0] = e is the one build leaves. */
  lemma LettersDetermined(s: seq<string>)
    requires Consistent(Concat(), s, 4) && s[4..] == ["a", "b", "c", "d"] && s[0] == ""
    ensures s == Letters()
  {
    assert s[4] == "a" && s[5] == "b" && s[6] == "c" && s[7] == "d";
    assert Combines(Concat(), s, 3) && Combines(Concat(), s, 2);
    assert s[3] == "cd" && s[2] == "ab";
    assert Combines(Concat(), s, 1);
    assert s[1] == "abcd";
  }

  /** Under concatenation the fold of four strings is their concatenation. */
  lemma FoldFour(w: string, x: string, y: string, z: string)
    ensures Fold(Concat(), "", [w, x, y, z]) == w + x + y + z
  {
    var v := [w, x, y, z];
    assert v[..3] == [w, x, y] && v[..3][..2] == [w, x] && v[..3][..2][..1] == [w];
    assert [w][..0] == [];
    assert "" + w == w;
    assert Fold(Concat(), "", [w]) == w;
    assert Fold(Concat(), "", [w, x]) == w + x;
    assert Fold(Concat(), "", [w, x, y]) == w + x + y;
  }

  /** The left fold of the leaves b, c. */
  lemma FoldBC()
    ensures Fold(Concat(), "", ["b", "c"]) == "bc"
  {
  }

  /** After build(["a", "b", "c", "d"]), query(0, 4) is "abcd" and query(1, 3) is "bc". */
  method LettersQueried() returns (all: string, middle: string)
    ensures all == "abcd" && middle == "bc"
  {
    var tree := new SegmentTree.Empty(Concat(), "");
    tree.Build(["a", "b", "c", "d"]);
    ghost var leaves := tree.Leaves();
    assert leaves[0..4] == leaves && leaves[1..3] == ["b", "c"];
    ConcatIsMonoid();
    FoldFour("a", "b", "c", "d");
    assert "a" + "b" + "c" + "d" == "abcd";
    FoldBC();
    all := tree.Query(0, 4);
    middle := tree.Query(1, 3);
  }

  /**
   * The scenario on the class: build(["a", "b", "c", "d"]) and then
   * update(1, "X") leave the as-written array, which breaks the identity.
   */
  method LettersUpdated() returns (tree: SegmentTree<string>)
    ensures fresh(tree) && tree.op == Concat() && tree.e == ""
    ensures tree.Valid() && tree.Leaves() == ["a", "X", "c", "d"]
    ensures tree.t[..] == ["", "Xacd", "Xa", "cd", "a", "X", "c", "d"]
    ensures !tree.Identity()
  {
    tree := new SegmentTree.Empty(Concat(), "");
    tree.Build(["a", "b", "c", "d"]);
    LettersDetermined(tree.t[..]);
    tree.Update(1, "X");
    UpdateAsWritten();
  }

  /** On that tree query(0, 4) returns "Xacd", although the leaves read a, X, c, d. */
  method LettersUpdatedQueried() returns (all: string)
    ensures all == "Xacd"
  {
    var tree := LettersUpdated();
    UpdateAsWritten();
    all := tree.Query(0, 4);
  }

  /** With the in-order update the tree stays consistent and query(0, 4) is "aXcd". */
  method LettersUpdatedInOrder() returns (tree: SegmentTree<string>, all: string)
    ensures tree.op == Concat() && tree.e == ""
    ensures tree.Valid() && tree.Identity() && tree.Leaves() == ["a", "X", "c", "d"]
    ensures all == "aXcd"
  {
    tree := new SegmentTree.Empty(Concat(), "");
    tree.Build(["a", "b", "c", "d"]);
    tree.UpdateInOrder(1, "X");
    ConcatIsMonoid();
    FoldFour("a", "X", "c", "d");
    assert "a" + "X" + "c" + "d" == "aXcd";
    all := tree.Query(0, 4);
    assert tree.Leaves()[0..4] == ["a", "X", "c", "d"];
  }

  /**
   * update(1, "X") with the in-order repair: node 2 becomes "a" + "X" and
   * the tree stays consistent.
   */
  lemma UpdateInOrder()
    ensures RepairedInOrder(Concat(), Letters()[5 := "X"], 5) == ["", "aXcd", "aX", "cd", "a", "X", "c", "d"]
    ensures Consistent(Concat(), ["", "aXcd", "aX", "cd", "a", "X", "c", "d"], 4)
  {
    var s := Letters()[5 := "X"];
    assert "a" + "X" == "aX" && "aX" + "cd" == "aXcd" && "c" + "d" == "cd";
    var s2 := s[2 := "aX"];
    assert RepairedInOrder(Concat(), s, 5) == RepairedInOrder(Concat(), s2, 2);
    assert RepairedInOrder(Concat(), s2, 2) == s2[1 := "aXcd"];
    var r := ["", "aXcd", "aX", "cd", "a", "X", "c", "d"];
    assert Combines(Concat(), r, 1) && Combines(Concat(), r, 2) && Combines(Concat(), r, 3);
  }
}
