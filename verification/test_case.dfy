/**
 * The TestCase record of tests/test_compile/test_case.py (test_case_builder.py carries an
 * identical copy): the assertion node a generated test is built for, the baseline code
 * nodes and the full list of code nodes. Nodes are indices into one `Ast` arena.
 */
module TestCases {
  import opened Ast

  /** `TestCase(assertion, baseline_codes, codes)`: the constructor stores its arguments as given. */
  datatype TestCase = TestCase(assertion: nat, baselineCodes: seq<nat>, codes: seq<nat>)

  /** Every node a list names lies in the arena. */
  predicate AllIn(nodes: seq<NodeRec>, xs: seq<nat>) {
    forall k | 0 <= k < |xs| :: xs[k] < |nodes|
  }

  /** Every node a test case names lies in the arena. */
  predicate CaseIn(nodes: seq<NodeRec>, tc: TestCase) {
    tc.assertion < |nodes| && AllIn(nodes, tc.baselineCodes) && AllIn(nodes, tc.codes)
  }

  /** `a == b` on two nodes: the structural equality of their trees. */
  predicate NodeEq(nodes: seq<NodeRec>, i: nat, j: nat)
    requires TreeShaped(nodes) && i < |nodes| && j < |nodes|
  {
    Equal(ToTree(nodes, i), ToTree(nodes, j))
  }

  /** `xs == ys` on two Python lists of nodes: the same length and equal nodes position by position. */
  predicate ListEq(nodes: seq<NodeRec>, xs: seq<nat>, ys: seq<nat>)
    requires TreeShaped(nodes) && AllIn(nodes, xs) && AllIn(nodes, ys)
  {
    |xs| == |ys| && forall k | 0 <= k < |xs| :: NodeEq(nodes, xs[k], ys[k])
  }

  /** `TestCase.__eq__`: the assertions, the baselines and the code lists are each equal. */
  predicate SameCase(nodes: seq<NodeRec>, a: TestCase, b: TestCase)
    requires TreeShaped(nodes) && CaseIn(nodes, a) && CaseIn(nodes, b)
  {
    NodeEq(nodes, a.assertion, b.assertion) &&
    ListEq(nodes, a.baselineCodes, b.baselineCodes) &&
    ListEq(nodes, a.codes, b.codes)
  }

  /** The trees of a list of nodes with what equality ignores dropped. */
  function Shapes(nodes: seq<NodeRec>, xs: seq<nat>): (r: seq<Tree>)
    requires TreeShaped(nodes) && AllIn(nodes, xs)
    ensures |r| == |xs|
  {
    seq(|xs|, k requires 0 <= k < |xs| => Erase(ToTree(nodes, xs[k])))
  }

  /** List equality is equality of the lists of erased trees. */
  lemma ListEqIffShapes(nodes: seq<NodeRec>, xs: seq<nat>, ys: seq<nat>)
    requires TreeShaped(nodes) && AllIn(nodes, xs) && AllIn(nodes, ys)
    ensures ListEq(nodes, xs, ys) <==> Shapes(nodes, xs) == Shapes(nodes, ys)
  {
    forall k | 0 <= k < |xs| && k < |ys|
      ensures NodeEq(nodes, xs[k], ys[k]) <==> Shapes(nodes, xs)[k] == Shapes(nodes, ys)[k]
    {
      EqualIffErased(ToTree(nodes, xs[k]), ToTree(nodes, ys[k]));
    }
    if Shapes(nodes, xs) == Shapes(nodes, ys) {
      assert |xs| == |ys|;
    }
  }

  /**
   * Two test cases are equal exactly when their assertions and their two code lists have
   * the same erased trees, position by position.
   */
  lemma SameCaseIffShapes(nodes: seq<NodeRec>, a: TestCase, b: TestCase)
    requires TreeShaped(nodes) && CaseIn(nodes, a) && CaseIn(nodes, b)
    ensures SameCase(nodes, a, b) <==>
      Erase(ToTree(nodes, a.assertion)) == Erase(ToTree(nodes, b.assertion)) &&
      Shapes(nodes, a.baselineCodes) == Shapes(nodes, b.baselineCodes) &&
      Shapes(nodes, a.codes) == Shapes(nodes, b.codes)
  {
    EqualIffErased(ToTree(nodes, a.assertion), ToTree(nodes, b.assertion));
    ListEqIffShapes(nodes, a.baselineCodes, b.baselineCodes);
    ListEqIffShapes(nodes, a.codes, b.codes);
  }

  /** Test case equality is reflexive, symmetric and transitive. */
  lemma SameCaseIsEquivalence(nodes: seq<NodeRec>, a: TestCase, b: TestCase, c: TestCase)
    requires TreeShaped(nodes) && CaseIn(nodes, a) && CaseIn(nodes, b) && CaseIn(nodes, c)
    ensures SameCase(nodes, a, a)
    ensures SameCase(nodes, a, b) ==> SameCase(nodes, b, a)
    ensures SameCase(nodes, a, b) && SameCase(nodes, b, c) ==> SameCase(nodes, a, c)
  {
    SameCaseIffShapes(nodes, a, a);
    SameCaseIffShapes(nodes, a, b);
    SameCaseIffShapes(nodes, b, a);
    SameCaseIffShapes(nodes, b, c);
    SameCaseIffShapes(nodes, a, c);
  }

  /**
   * Lists are compared in order: two code nodes on different lines, listed in the two
   * orders, make unequal lists, and so unequal test cases.
   */
  lemma OrderMatters(nodes: seq<NodeRec>, a: nat, x: nat, y: nat, base: seq<nat>)
    requires TreeShaped(nodes) && a < |nodes| && x < |nodes| && y < |nodes| && AllIn(nodes, base)
    requires nodes[x].lineNo != nodes[y].lineNo
    ensures !SameCase(nodes, TestCase(a, base, [x, y]), TestCase(a, base, [y, x]))
  {
    assert !NodeEq(nodes, [x, y][0], [y, x][0]);
  }
}
