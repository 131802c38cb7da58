/**
 * `TestCaseBuilder` of tests/test_compile/test_case_builder.py over an `Ast` arena.
 *
 * For every assertion node of a tree, in pre-order, the builder collects the code nodes a
 * generated test must contain: the baseline (the Code children of every strict ancestor of
 * the assertion) and the full list (the baseline and the assertion's own Code children),
 * each sorted by line number. The tree is read only: it is passed by value here.
 */
module Builder {
  import opened Wrappers
  import opened Ast
  import opened TestCases

  // ---------------------------------------------------------------------------------------
  // Facts about arenas that hold one tree.

  /** A node lists `x` among its children exactly when `x`'s parent link points at it. */
  lemma ChildIffParent(nodes: seq<NodeRec>, p: nat, x: nat)
    requires TreeShaped(nodes) && p < |nodes| && x < |nodes|
    ensures x in nodes[p].children <==> nodes[x].parent == Some(p)
  {
    assert ChildLinked(nodes, p) && ParentLinked(nodes, x);
  }

  /** An ancestor is stored no later than its descendants. */
  lemma {:induction false} AncestorNotAfter(nodes: seq<NodeRec>, a: nat, x: nat)
    requires TreeShaped(nodes) && a < |nodes| && x < |nodes| && IsAncestorOrSelf(nodes, a, x)
    ensures a <= x
    decreases x
  {
    if x != a {
      assert ParentLinked(nodes, x);
      AncestorNotAfter(nodes, a, nodes[x].parent.value);
    }
  }

  /** The ancestor relation is transitive. */
  lemma {:induction false} AncestorTrans(nodes: seq<NodeRec>, a: nat, b: nat, x: nat)
    requires TreeShaped(nodes) && a < |nodes| && b < |nodes| && x < |nodes|
    requires IsAncestorOrSelf(nodes, a, b) && IsAncestorOrSelf(nodes, b, x)
    ensures IsAncestorOrSelf(nodes, a, x)
    decreases x
  {
    if x != b {
      assert ParentLinked(nodes, x);
      AncestorTrans(nodes, a, b, nodes[x].parent.value);
    }
  }

  /** `x` lies at or below the `k`-th child of node `i`. */
  ghost predicate UnderChild(nodes: seq<NodeRec>, i: nat, k: nat, x: nat)
    requires TreeShaped(nodes) && i < |nodes| && k < |nodes[i].children| && x < |nodes|
  {
    assert ChildLinked(nodes, i);
    IsAncestorOrSelf(nodes, nodes[i].children[k], x)
  }

  /** A node lies strictly below `i` exactly when it lies under one of `i`'s children. */
  lemma {:induction false} BelowSomeChild(nodes: seq<NodeRec>, i: nat, x: nat)
    requires TreeShaped(nodes) && i < |nodes| && x < |nodes|
    ensures (IsAncestorOrSelf(nodes, i, x) && x != i) <==>
      exists l | 0 <= l < |nodes[i].children| :: UnderChild(nodes, i, l, x)
    decreases x
  {
    var cs := nodes[i].children;
    assert ChildLinked(nodes, i);
    if IsAncestorOrSelf(nodes, i, x) && x != i {
      assert ParentLinked(nodes, x);
      var p := nodes[x].parent.value;
      if p == i {
        var l :| 0 <= l < |cs| && cs[l] == x;
        assert UnderChild(nodes, i, l, x);
      } else {
        BelowSomeChild(nodes, i, p);
        var l :| 0 <= l < |cs| && UnderChild(nodes, i, l, p);
        assert UnderChild(nodes, i, l, x);
      }
    }
    if exists l | 0 <= l < |cs| :: UnderChild(nodes, i, l, x) {
      var l :| 0 <= l < |cs| && UnderChild(nodes, i, l, x);
      assert ParentLinked(nodes, cs[l]);
      assert IsAncestorOrSelf(nodes, i, cs[l]);
      AncestorTrans(nodes, i, cs[l], x);
      AncestorNotAfter(nodes, cs[l], x);
    }
  }

  // ---------------------------------------------------------------------------------------
  // `_immediateChildCodes`.

  predicate Increasing(xs: seq<nat>) {
    forall a, b | 0 <= a < b < |xs| :: xs[a] < xs[b]
  }

  /** The nodes of `cs` whose class is CodeNode, in the order of `cs`. */
  function CodesAmong(nodes: seq<NodeRec>, cs: seq<nat>): (r: seq<nat>)
    requires AllIn(nodes, cs)
    ensures AllIn(nodes, r) && |r| <= |cs|
    ensures forall x {:trigger x in r} :: x in r <==> x in cs && x < |nodes| && nodes[x].kind.CodeNode?
  {
    if cs == [] then []
    else (if nodes[cs[0]].kind.CodeNode? then [cs[0]] else []) + CodesAmong(nodes, cs[1..])
  }

  /** Filtering keeps the order of the list it filters. */
  lemma {:induction false} CodesAmongIncreasing(nodes: seq<NodeRec>, cs: seq<nat>)
    requires AllIn(nodes, cs) && Increasing(cs)
    ensures Increasing(CodesAmong(nodes, cs))
  {
    if cs != [] {
      var rest := CodesAmong(nodes, cs[1..]);
      CodesAmongIncreasing(nodes, cs[1..]);
      forall x | x in rest
        ensures cs[0] < x
      {
        var j :| 0 <= j < |cs[1..]| && cs[1..][j] == x;
        assert cs[1 + j] == x;
      }
      var head := if nodes[cs[0]].kind.CodeNode? then [cs[0]] else [];
      var r := head + rest;
      forall a, b | 0 <= a < b < |r|
        ensures r[a] < r[b]
      {
        if a < |head| {
          assert r[a] == cs[0] && r[b] == rest[b - |head|];
          assert rest[b - |head|] in rest;
        } else {
          assert r[a] == rest[a - |head|] && r[b] == rest[b - |head|];
        }
      }
    }
  }

  /**
   * `_immediateChildCodes`: the Code children of node `p`, in child order, which in a tree
   * arena is increasing index order.
   */
  function ImmediateChildCodes(nodes: seq<NodeRec>, p: nat): (r: seq<nat>)
    requires TreeShaped(nodes) && p < |nodes|
    ensures AllIn(nodes, r) && Increasing(r)
    ensures forall x {:trigger x in r} | 0 <= x < |nodes| ::
      x in r <==> nodes[x].kind.CodeNode? && nodes[x].parent == Some(p)
  {
    assert ChildLinked(nodes, p);
    CodesAmongIncreasing(nodes, nodes[p].children);
    forall x | 0 <= x < |nodes|
      ensures x in nodes[p].children <==> nodes[x].parent == Some(p)
    {
      ChildIffParent(nodes, p, x);
    }
    CodesAmong(nodes, nodes[p].children)
  }

  // ---------------------------------------------------------------------------------------
  // `_descendantAssertions`.

  /** `_descendantAssertions`: the node itself if it is an assertion, then each child's in turn. */
  function DescendantAssertions(nodes: seq<NodeRec>, i: nat): (r: seq<nat>)
    requires TreeShaped(nodes) && i < |nodes|
    ensures AllIn(nodes, r) && forall k | 0 <= k < |r| :: nodes[r[k]].kind.AssertionNode?
    decreases |nodes| - i, 1, 0
  {
    (if nodes[i].kind.AssertionNode? then [i] else []) + ChildAssertions(nodes, i, 0)
  }

  /** The loop over the children of node `i` from child `k` on. */
  function ChildAssertions(nodes: seq<NodeRec>, i: nat, k: nat): (r: seq<nat>)
    requires TreeShaped(nodes) && i < |nodes| && k <= |nodes[i].children|
    ensures AllIn(nodes, r) && forall m | 0 <= m < |r| :: nodes[r[m]].kind.AssertionNode?
    decreases |nodes| - i, 0, |nodes[i].children| - k
  {
    if k == |nodes[i].children| then []
    else
      assert ChildLinked(nodes, i);
      DescendantAssertions(nodes, nodes[i].children[k]) + ChildAssertions(nodes, i, k + 1)
  }

  /** The collected nodes are exactly the assertion nodes at or below the start node. */
  lemma {:induction false} DescendantAssertionsIff(nodes: seq<NodeRec>, i: nat, x: nat)
    requires TreeShaped(nodes) && i < |nodes| && x < |nodes|
    ensures x in DescendantAssertions(nodes, i) <==>
      nodes[x].kind.AssertionNode? && IsAncestorOrSelf(nodes, i, x)
    decreases |nodes| - i, 1, 0
  {
    ChildAssertionsIff(nodes, i, 0, x);
    BelowSomeChild(nodes, i, x);
  }

  /** The loop from child `k` on collects the assertion nodes under children `k` onwards. */
  lemma {:induction false} ChildAssertionsIff(nodes: seq<NodeRec>, i: nat, k: nat, x: nat)
    requires TreeShaped(nodes) && i < |nodes| && k <= |nodes[i].children| && x < |nodes|
    ensures x in ChildAssertions(nodes, i, k) <==>
      nodes[x].kind.AssertionNode? &&
      exists l | k <= l < |nodes[i].children| :: UnderChild(nodes, i, l, x)
    decreases |nodes| - i, 0, |nodes[i].children| - k
  {
    var cs := nodes[i].children;
    if k < |cs| {
      assert ChildLinked(nodes, i);
      var here := DescendantAssertions(nodes, cs[k]);
      var later := ChildAssertions(nodes, i, k + 1);
      assert ChildAssertions(nodes, i, k) == here + later;
      DescendantAssertionsIff(nodes, cs[k], x);
      ChildAssertionsIff(nodes, i, k + 1, x);
      assert UnderChild(nodes, i, k, x) == IsAncestorOrSelf(nodes, cs[k], x);
      UnderSomeChildFrom(nodes, i, k, x);
    }
  }

  /** Some child from `k` on is above `x` exactly when child `k` is, or some child after it. */
  lemma UnderSomeChildFrom(nodes: seq<NodeRec>, i: nat, k: nat, x: nat)
    requires TreeShaped(nodes) && i < |nodes| && k < |nodes[i].children| && x < |nodes|
    ensures (exists l | k <= l < |nodes[i].children| :: UnderChild(nodes, i, l, x)) <==>
      UnderChild(nodes, i, k, x) || exists l | k + 1 <= l < |nodes[i].children| :: UnderChild(nodes, i, l, x)
  {
    if exists l | k <= l < |nodes[i].children| :: UnderChild(nodes, i, l, x) {
      var l :| k <= l < |nodes[i].children| && UnderChild(nodes, i, l, x);
      assert l == k || k + 1 <= l;
    }
  }

  /** Two ancestors of one node lie on one path: the earlier is an ancestor of the later. */
  lemma {:induction false} AncestorsOnOnePath(nodes: seq<NodeRec>, a: nat, b: nat, x: nat)
    requires TreeShaped(nodes) && a < |nodes| && b < |nodes| && x < |nodes|
    requires IsAncestorOrSelf(nodes, a, x) && IsAncestorOrSelf(nodes, b, x) && a <= b
    ensures IsAncestorOrSelf(nodes, a, b)
    decreases x
  {
    if x != b {
      assert ParentLinked(nodes, x);
      if x == a {
        AncestorNotAfter(nodes, b, x);
      } else {
        AncestorsOnOnePath(nodes, a, b, nodes[x].parent.value);
      }
    }
  }

  /** The subtrees of two different children of a node are disjoint. */
  lemma SiblingSubtreesDisjoint(nodes: seq<NodeRec>, i: nat, k: nat, l: nat, x: nat)
    requires TreeShaped(nodes) && i < |nodes| && k < l < |nodes[i].children| && x < |nodes|
    ensures !(UnderChild(nodes, i, k, x) && UnderChild(nodes, i, l, x))
  {
    assert ChildLinked(nodes, i);
    var c, d := nodes[i].children[k], nodes[i].children[l];
    if UnderChild(nodes, i, k, x) && UnderChild(nodes, i, l, x) {
      AncestorsOnOnePath(nodes, c, d, x);
      assert ParentLinked(nodes, d);
      AncestorNotAfter(nodes, c, i);
      assert false;
    }
  }

  predicate Distinct(xs: seq<nat>) {
    forall p, q | 0 <= p < q < |xs| :: xs[p] != xs[q]
  }

  lemma DistinctConcat(xs: seq<nat>, ys: seq<nat>)
    requires Distinct(xs) && Distinct(ys) && forall x | x in xs :: x !in ys
    ensures Distinct(xs + ys)
  {
    var r := xs + ys;
    forall p, q | 0 <= p < q < |r|
      ensures r[p] != r[q]
    {
      if p < |xs| && q >= |xs| {
        assert r[p] in xs && r[q] == ys[q - |xs|];
      } else if q < |xs| {
        assert r[p] == xs[p] && r[q] == xs[q];
      } else {
        assert r[p] == ys[p - |xs|] && r[q] == ys[q - |xs|];
      }
    }
  }

  /** Every assertion node is collected once: `buildAll` builds one test case for each. */
  lemma {:induction false} DescendantAssertionsDistinct(nodes: seq<NodeRec>, i: nat)
    requires TreeShaped(nodes) && i < |nodes|
    ensures Distinct(DescendantAssertions(nodes, i))
    decreases |nodes| - i, 1, 0
  {
    ChildAssertionsDistinct(nodes, i, 0);
    ChildAssertionsIff(nodes, i, 0, i);
    BelowSomeChild(nodes, i, i);
    DistinctConcat(if nodes[i].kind.AssertionNode? then [i] else [], ChildAssertions(nodes, i, 0));
  }

  lemma {:induction false} ChildAssertionsDistinct(nodes: seq<NodeRec>, i: nat, k: nat)
    requires TreeShaped(nodes) && i < |nodes| && k <= |nodes[i].children|
    ensures Distinct(ChildAssertions(nodes, i, k))
    decreases |nodes| - i, 0, |nodes[i].children| - k
  {
    var cs := nodes[i].children;
    if k < |cs| {
      assert ChildLinked(nodes, i);
      var here := DescendantAssertions(nodes, cs[k]);
      var later := ChildAssertions(nodes, i, k + 1);
      DescendantAssertionsDistinct(nodes, cs[k]);
      ChildAssertionsDistinct(nodes, i, k + 1);
      forall x | x in here
        ensures x !in later
      {
        DescendantAssertionsIff(nodes, cs[k], x);
        ChildAssertionsIff(nodes, i, k + 1, x);
        assert UnderChild(nodes, i, k, x);
        forall l | k + 1 <= l < |cs|
          ensures !UnderChild(nodes, i, l, x)
        {
          SiblingSubtreesDisjoint(nodes, i, k, l, x);
        }
      }
      DistinctConcat(here, later);
    }
  }

  /**
   * `x` comes no later than `y` in pre-order: `x` is `y` or one of its ancestors, or the two
   * lie under different children of one node, `x` under the earlier child.
   */
  ghost predicate PreOrderBefore(nodes: seq<NodeRec>, x: nat, y: nat)
    requires TreeShaped(nodes) && x < |nodes| && y < |nodes|
  {
    IsAncestorOrSelf(nodes, x, y) ||
    exists a: nat, j: nat, l: nat | a < |nodes| && j < l < |nodes[a].children| ::
      UnderChild(nodes, a, j, x) && UnderChild(nodes, a, l, y)
  }

  /** Every node of the list comes before every later one in pre-order. */
  ghost predicate PreOrdered(nodes: seq<NodeRec>, xs: seq<nat>)
    requires TreeShaped(nodes) && AllIn(nodes, xs)
  {
    forall k, m | 0 <= k < m < |xs| :: PreOrderBefore(nodes, xs[k], xs[m])
  }

  lemma PreOrderedConcat(nodes: seq<NodeRec>, xs: seq<nat>, ys: seq<nat>)
    requires TreeShaped(nodes) && AllIn(nodes, xs) && AllIn(nodes, ys)
    requires PreOrdered(nodes, xs) && PreOrdered(nodes, ys)
    requires forall p, q | 0 <= p < |xs| && 0 <= q < |ys| :: PreOrderBefore(nodes, xs[p], ys[q])
    ensures AllIn(nodes, xs + ys) && PreOrdered(nodes, xs + ys)
  {
    var r := xs + ys;
    assert forall k | 0 <= k < |r| :: r[k] == if k < |xs| then xs[k] else ys[k - |xs|];
  }

  /** The child loop from child `k` on returns its assertions in pre-order. */
  lemma {:induction false} ChildAssertionsPreOrder(nodes: seq<NodeRec>, i: nat, k: nat)
    requires TreeShaped(nodes) && i < |nodes| && k <= |nodes[i].children|
    ensures PreOrdered(nodes, ChildAssertions(nodes, i, k))
    decreases |nodes| - i, 0, |nodes[i].children| - k
  {
    var cs := nodes[i].children;
    if k < |cs| {
      assert ChildLinked(nodes, i);
      var here := DescendantAssertions(nodes, cs[k]);
      var later := ChildAssertions(nodes, i, k + 1);
      DescendantAssertionsPreOrder(nodes, cs[k]);
      ChildAssertionsPreOrder(nodes, i, k + 1);
      forall p, q | 0 <= p < |here| && 0 <= q < |later|
        ensures PreOrderBefore(nodes, here[p], later[q])
      {
        var x, y := here[p], later[q];
        assert x in here && y in later;
        DescendantAssertionsIff(nodes, cs[k], x);
        ChildAssertionsIff(nodes, i, k + 1, y);
        var l :| k + 1 <= l < |cs| && UnderChild(nodes, i, l, y);
        assert UnderChild(nodes, i, k, x);
      }
      PreOrderedConcat(nodes, here, later);
      assert ChildAssertions(nodes, i, k) == here + later;
    }
  }

  /**
   * `_descendantAssertions` returns its assertions in pre-order: the start node before the
   * nodes below it, and the subtrees of its children left to right.
   */
  lemma {:induction false} DescendantAssertionsPreOrder(nodes: seq<NodeRec>, i: nat)
    requires TreeShaped(nodes) && i < |nodes|
    ensures PreOrdered(nodes, DescendantAssertions(nodes, i))
    decreases |nodes| - i, 1, 0
  {
    var head := if nodes[i].kind.AssertionNode? then [i] else [];
    var rest := ChildAssertions(nodes, i, 0);
    ChildAssertionsPreOrder(nodes, i, 0);
    forall p, q | 0 <= p < |head| && 0 <= q < |rest|
      ensures PreOrderBefore(nodes, head[p], rest[q])
    {
      var y := rest[q];
      assert y in rest;
      ChildAssertionsIff(nodes, i, 0, y);
      BelowSomeChild(nodes, i, y);
    }
    PreOrderedConcat(nodes, head, rest);
  }

  /**
   * The arena stores each subtree before the subtrees of its later siblings, as a tree laid
   * out in pre-order does.
   */
  ghost predicate PreOrderLayout(nodes: seq<NodeRec>)
    requires TreeShaped(nodes)
  {
    forall a: nat, j: nat, l: nat, x: nat | a < |nodes| && j < l < |nodes[a].children| && x < |nodes| &&
      UnderChild(nodes, a, j, x) :: x < nodes[a].children[l]
  }

  /** In a pre-order layout, coming first in pre-order is coming first in the arena. */
  lemma PreOrderBeforeIsEarlier(nodes: seq<NodeRec>, x: nat, y: nat)
    requires TreeShaped(nodes) && PreOrderLayout(nodes) && x < |nodes| && y < |nodes|
    requires PreOrderBefore(nodes, x, y)
    ensures x <= y
  {
    if IsAncestorOrSelf(nodes, x, y) {
      AncestorNotAfter(nodes, x, y);
    } else {
      var a: nat, j: nat, l: nat :| a < |nodes| && 0 <= j < l < |nodes[a].children| &&
        UnderChild(nodes, a, j, x) && UnderChild(nodes, a, l, y);
      assert ChildLinked(nodes, a);
      AncestorNotAfter(nodes, nodes[a].children[l], y);
    }
  }

  /** In a pre-order layout, the collected assertions are in increasing arena order. */
  lemma DescendantAssertionsIncreasing(nodes: seq<NodeRec>, i: nat)
    requires TreeShaped(nodes) && PreOrderLayout(nodes) && i < |nodes|
    ensures Increasing(DescendantAssertions(nodes, i))
  {
    var r := DescendantAssertions(nodes, i);
    DescendantAssertionsPreOrder(nodes, i);
    DescendantAssertionsDistinct(nodes, i);
    forall k, m | 0 <= k < m < |r|
      ensures r[k] < r[m]
    {
      PreOrderBeforeIsEarlier(nodes, r[k], r[m]);
    }
  }

  // ---------------------------------------------------------------------------------------
  // `_buildTestCase`.

  /**
   * The baseline before sorting: the Code children of `p`, then of its parent, and so on up
   * to the root, as the `while cur_parent` loop extends it.
   */
  function AncestorCodes(nodes: seq<NodeRec>, p: Option<nat>): (r: seq<nat>)
    requires TreeShaped(nodes) && (p.Some? ==> p.value < |nodes|)
    ensures AllIn(nodes, r)
    decreases if p.Some? then p.value + 1 else 0
  {
    match p
    case None => []
    case Some(q) =>
      assert ParentLinked(nodes, q);
      ImmediateChildCodes(nodes, q) + AncestorCodes(nodes, nodes[q].parent)
  }

  /** The walk up from `q` collects exactly the Code nodes whose parent is `q` or above it. */
  lemma {:induction false} AncestorCodesIff(nodes: seq<NodeRec>, q: nat, x: nat)
    requires TreeShaped(nodes) && q < |nodes| && x < |nodes|
    ensures x in AncestorCodes(nodes, Some(q)) <==>
      nodes[x].kind.CodeNode? && nodes[x].parent.Some? && nodes[x].parent.value < |nodes| &&
      IsAncestorOrSelf(nodes, nodes[x].parent.value, q)
    decreases q
  {
    assert ParentLinked(nodes, q) && ParentLinked(nodes, x);
    if q > 0 {
      var pq := nodes[q].parent.value;
      AncestorCodesIff(nodes, pq, x);
    }
  }

  /** `__lt__`-sorted: line numbers never decrease along the list. */
  predicate SortedByLine(nodes: seq<NodeRec>, xs: seq<nat>)
    requires AllIn(nodes, xs)
  {
    forall a, b | 0 <= a < b < |xs| :: nodes[xs[a]].lineNo <= nodes[xs[b]].lineNo
  }

  /** Insert `x` into a list after its leading run of nodes on an earlier or the same line. */
  function InsertByLine(nodes: seq<NodeRec>, x: nat, xs: seq<nat>): (r: seq<nat>)
    requires x < |nodes| && AllIn(nodes, xs)
    ensures AllIn(nodes, r) && multiset(r) == multiset(xs) + multiset{x}
  {
    if xs == [] then [x]
    else if nodes[xs[0]].lineNo <= nodes[x].lineNo then
      assert xs == [xs[0]] + xs[1..];
      [xs[0]] + InsertByLine(nodes, x, xs[1..])
    else [x] + xs
  }

  /** Every node a sorted list follows is on a line no earlier than its head. */
  lemma HeadIsFirst(nodes: seq<NodeRec>, xs: seq<nat>, y: nat)
    requires AllIn(nodes, xs) && SortedByLine(nodes, xs) && xs != [] && y in multiset(xs[1..])
    ensures y < |nodes| && nodes[xs[0]].lineNo <= nodes[y].lineNo
  {
    var j :| 0 <= j < |xs[1..]| && xs[1..][j] == y;
    assert xs[1 + j] == y;
  }

  /** The tail of a sorted list is sorted. */
  lemma SortedTail(nodes: seq<NodeRec>, xs: seq<nat>)
    requires AllIn(nodes, xs) && SortedByLine(nodes, xs) && xs != []
    ensures AllIn(nodes, xs[1..]) && SortedByLine(nodes, xs[1..])
  {
    forall a, b | 0 <= a < b < |xs[1..]|
      ensures nodes[xs[1..][a]].lineNo <= nodes[xs[1..][b]].lineNo
    {
      assert xs[1..][a] == xs[a + 1] && xs[1..][b] == xs[b + 1];
    }
  }

  /** A node on a line no later than any of a sorted list's nodes may go in front of it. */
  lemma ConsSorted(nodes: seq<NodeRec>, h: nat, rest: seq<nat>)
    requires h < |nodes| && AllIn(nodes, rest) && SortedByLine(nodes, rest)
    requires forall y | y in rest :: nodes[h].lineNo <= nodes[y].lineNo
    ensures AllIn(nodes, [h] + rest) && SortedByLine(nodes, [h] + rest)
  {
    var r := [h] + rest;
    forall a, b | 0 <= a < b < |r|
      ensures nodes[r[a]].lineNo <= nodes[r[b]].lineNo
    {
      assert r[b] == rest[b - 1];
      if a > 0 {
        assert r[a] == rest[a - 1];
      }
    }
  }

  /** Inserting into a sorted list keeps it sorted. */
  lemma {:induction false} InsertKeepsSorted(nodes: seq<NodeRec>, x: nat, xs: seq<nat>)
    requires x < |nodes| && AllIn(nodes, xs) && SortedByLine(nodes, xs)
    ensures SortedByLine(nodes, InsertByLine(nodes, x, xs))
  {
    if xs != [] && nodes[xs[0]].lineNo <= nodes[x].lineNo {
      var rest := InsertByLine(nodes, x, xs[1..]);
      SortedTail(nodes, xs);
      InsertKeepsSorted(nodes, x, xs[1..]);
      forall y | y in rest
        ensures nodes[xs[0]].lineNo <= nodes[y].lineNo
      {
        assert y in multiset(rest);
        if y != x {
          HeadIsFirst(nodes, xs, y);
        }
      }
      ConsSorted(nodes, xs[0], rest);
    }
  }

  /**
   * `list.sort()` with `__lt__`: a stable sort by line number (insertion sort, each node
   * placed after those on an earlier or the same line).
   */
  function SortByLine(nodes: seq<NodeRec>, xs: seq<nat>): (r: seq<nat>)
    requires AllIn(nodes, xs)
    ensures AllIn(nodes, r) && SortedByLine(nodes, r) && multiset(r) == multiset(xs)
  {
    if xs == [] then []
    else
      var n := |xs| - 1;
      assert xs == xs[..n] + [xs[n]];
      InsertKeepsSorted(nodes, xs[n], SortByLine(nodes, xs[..n]));
      InsertByLine(nodes, xs[n], SortByLine(nodes, xs[..n]))
  }

  /** The nodes of `xs` on line `line`, in the order of `xs`. */
  function OnLine(nodes: seq<NodeRec>, xs: seq<nat>, line: int): seq<nat>
    requires AllIn(nodes, xs)
  {
    if xs == [] then []
    else (if nodes[xs[0]].lineNo == line then [xs[0]] else []) + OnLine(nodes, xs[1..], line)
  }

  /** Keeping one line's nodes of a list extended by one node. */
  lemma {:induction false} OnLineSnoc(nodes: seq<NodeRec>, xs: seq<nat>, y: nat, line: int)
    requires AllIn(nodes, xs) && y < |nodes|
    ensures AllIn(nodes, xs + [y])
    ensures OnLine(nodes, xs + [y], line) ==
      OnLine(nodes, xs, line) + (if nodes[y].lineNo == line then [y] else [])
  {
    if xs != [] {
      assert (xs + [y])[1..] == xs[1..] + [y];
      OnLineSnoc(nodes, xs[1..], y, line);
    }
  }

  /** A sorted list whose head lies after `line` has no node on that line. */
  lemma {:induction false} OnLineAfter(nodes: seq<NodeRec>, xs: seq<nat>, line: int)
    requires AllIn(nodes, xs) && SortedByLine(nodes, xs) && xs != [] && line < nodes[xs[0]].lineNo
    ensures OnLine(nodes, xs, line) == []
  {
    if |xs| > 1 {
      SortedTail(nodes, xs);
      assert xs[1..][0] == xs[1];
      OnLineAfter(nodes, xs[1..], line);
    }
  }

  /** Keeping one line's nodes of a list with a given head. */
  lemma OnLineCons(nodes: seq<NodeRec>, h: nat, t: seq<nat>, line: int)
    requires h < |nodes| && AllIn(nodes, t)
    ensures AllIn(nodes, [h] + t)
    ensures OnLine(nodes, [h] + t, line) == (if nodes[h].lineNo == line then [h] else []) + OnLine(nodes, t, line)
  {
    assert ([h] + t)[1..] == t;
  }

  lemma Regroup3(a: seq<nat>, b: seq<nat>, c: seq<nat>)
    ensures a + (b + c) == (a + b) + c
  {
  }

  /** Inserting into a sorted list puts the node after every node already on its line. */
  lemma {:induction false} InsertStable(nodes: seq<NodeRec>, x: nat, xs: seq<nat>, line: int)
    requires x < |nodes| && AllIn(nodes, xs) && SortedByLine(nodes, xs)
    ensures OnLine(nodes, InsertByLine(nodes, x, xs), line) ==
      OnLine(nodes, xs, line) + (if nodes[x].lineNo == line then [x] else [])
  {
    var tail := if nodes[x].lineNo == line then [x] else [];
    if xs == [] {
      OnLineCons(nodes, x, [], line);
    } else if nodes[xs[0]].lineNo <= nodes[x].lineNo {
      var h := xs[0];
      var head := if nodes[h].lineNo == line then [h] else [];
      var rest := InsertByLine(nodes, x, xs[1..]);
      assert InsertByLine(nodes, x, xs) == [h] + rest;
      SortedTail(nodes, xs);
      InsertStable(nodes, x, xs[1..], line);
      OnLineCons(nodes, h, rest, line);
      assert OnLine(nodes, xs, line) == head + OnLine(nodes, xs[1..], line);
      Regroup3(head, OnLine(nodes, xs[1..], line), tail);
    } else {
      assert InsertByLine(nodes, x, xs) == [x] + xs;
      OnLineCons(nodes, x, xs, line);
      if nodes[x].lineNo == line {
        OnLineAfter(nodes, xs, line);
      }
    }
  }

  /**
   * The sort is stable: the nodes on any one line keep the order they had before sorting,
   * as `list.sort` promises for nodes `__lt__` does not tell apart.
   */
  lemma {:induction false} SortStable(nodes: seq<NodeRec>, xs: seq<nat>, line: int)
    requires AllIn(nodes, xs)
    ensures OnLine(nodes, SortByLine(nodes, xs), line) == OnLine(nodes, xs, line)
  {
    if xs != [] {
      var n := |xs| - 1;
      assert xs == xs[..n] + [xs[n]];
      SortStable(nodes, xs[..n], line);
      InsertStable(nodes, xs[n], SortByLine(nodes, xs[..n]), line);
      OnLineSnoc(nodes, xs[..n], xs[n], line);
    }
  }

  /** The test case `_buildTestCase` makes for assertion node `a`. */
  function CaseFor(nodes: seq<NodeRec>, a: nat): (tc: TestCase)
    requires TreeShaped(nodes) && a < |nodes|
    ensures CaseIn(nodes, tc) && tc.assertion == a
  {
    assert ParentLinked(nodes, a);
    var base := AncestorCodes(nodes, nodes[a].parent);
    TestCase(a, SortByLine(nodes, base), SortByLine(nodes, base + ImmediateChildCodes(nodes, a)))
  }

  /**
   * Both lists of a test case are sorted by line, and the full list holds the baseline and
   * the assertion's own Code children, no more and no fewer.
   */
  lemma CaseForShape(nodes: seq<NodeRec>, a: nat)
    requires TreeShaped(nodes) && a < |nodes|
    ensures
      var tc := CaseFor(nodes, a);
      SortedByLine(nodes, tc.baselineCodes) && SortedByLine(nodes, tc.codes) &&
      multiset(tc.codes) == multiset(tc.baselineCodes) + multiset(ImmediateChildCodes(nodes, a)) &&
      |tc.codes| == |tc.baselineCodes| + |ImmediateChildCodes(nodes, a)|
  {
    assert ParentLinked(nodes, a);
    var base := AncestorCodes(nodes, nodes[a].parent);
    var codes := base + ImmediateChildCodes(nodes, a);
    var tc := CaseFor(nodes, a);
    assert |multiset(tc.codes)| == |multiset(codes)|;
  }

  /** `x` is a Code node whose parent is a strict ancestor of node `a`. */
  ghost predicate CodeAbove(nodes: seq<NodeRec>, x: nat, a: nat)
    requires TreeShaped(nodes) && x < |nodes| && a < |nodes|
  {
    assert ParentLinked(nodes, x);
    nodes[x].kind.CodeNode? && nodes[x].parent.Some? &&
    nodes[x].parent.value != a && IsAncestorOrSelf(nodes, nodes[x].parent.value, a)
  }

  /** Strictly above a non-root node means at or above its parent. */
  lemma StrictlyAboveIff(nodes: seq<NodeRec>, p: nat, a: nat)
    requires TreeShaped(nodes) && p < |nodes| && a < |nodes|
    ensures a > 0 ==> nodes[a].parent.Some? && nodes[a].parent.value < |nodes|
    ensures a > 0 ==>
      (p != a && IsAncestorOrSelf(nodes, p, a) <==> IsAncestorOrSelf(nodes, p, nodes[a].parent.value))
    ensures a == 0 ==> !(p != a && IsAncestorOrSelf(nodes, p, a))
  {
    assert ParentLinked(nodes, a);
    if a == 0 && IsAncestorOrSelf(nodes, p, a) {
      AncestorNotAfter(nodes, p, a);
    }
    if a > 0 && IsAncestorOrSelf(nodes, p, nodes[a].parent.value) {
      AncestorNotAfter(nodes, p, nodes[a].parent.value);
    }
  }

  /** The baseline holds exactly the Code nodes whose parent is a strict ancestor of the assertion. */
  lemma BaselineIff(nodes: seq<NodeRec>, a: nat, x: nat)
    requires TreeShaped(nodes) && a < |nodes| && x < |nodes|
    ensures x in CaseFor(nodes, a).baselineCodes <==> CodeAbove(nodes, x, a)
  {
    assert ParentLinked(nodes, a) && ParentLinked(nodes, x);
    var base := AncestorCodes(nodes, nodes[a].parent);
    assert CaseFor(nodes, a).baselineCodes == SortByLine(nodes, base);
    assert x in SortByLine(nodes, base) <==> x in multiset(base);
    if nodes[x].parent.Some? {
      StrictlyAboveIff(nodes, nodes[x].parent.value, a);
    }
    if a > 0 {
      AncestorCodesIff(nodes, nodes[a].parent.value, x);
    }
  }

  /**
   * Two assertions under one parent get one baseline, and it holds every Code sibling of
   * theirs, those on later lines included.
   */
  lemma SiblingsShareBaseline(nodes: seq<NodeRec>, a: nat, b: nat, x: nat)
    requires TreeShaped(nodes) && a < |nodes| && b < |nodes| && x < |nodes|
    requires nodes[a].parent == nodes[b].parent
    ensures CaseFor(nodes, a).baselineCodes == CaseFor(nodes, b).baselineCodes
    ensures nodes[x].kind.CodeNode? && nodes[x].parent.Some? && nodes[x].parent == nodes[a].parent ==>
      x in CaseFor(nodes, a).baselineCodes
  {
    if nodes[x].kind.CodeNode? && nodes[x].parent.Some? && nodes[x].parent == nodes[a].parent {
      var p := nodes[a].parent.value;
      assert ParentLinked(nodes, a);
      assert IsAncestorOrSelf(nodes, p, a);
      assert CodeAbove(nodes, x, a);
      BaselineIff(nodes, a, x);
    }
  }

  /** The full list adds exactly the assertion's own Code children to the baseline. */
  lemma CodesIff(nodes: seq<NodeRec>, a: nat, x: nat)
    requires TreeShaped(nodes) && a < |nodes| && x < |nodes|
    ensures x in CaseFor(nodes, a).codes <==>
      x in CaseFor(nodes, a).baselineCodes || (nodes[x].kind.CodeNode? && nodes[x].parent == Some(a))
  {
    var tc := CaseFor(nodes, a);
    CaseForShape(nodes, a);
    assert x in tc.codes <==> x in multiset(tc.codes);
    assert x in tc.baselineCodes <==> x in multiset(tc.baselineCodes);
    assert x in ImmediateChildCodes(nodes, a) <==> x in multiset(ImmediateChildCodes(nodes, a));
  }

  /**
   * The `while cur_parent` loop of `_buildTestCase`: from `start` up to the root, extend the
   * baseline with each node's Code children.
   */
  method CollectBaseline(nodes: seq<NodeRec>, start: Option<nat>) returns (baseline: seq<nat>)
    requires TreeShaped(nodes) && (start.Some? ==> start.value < |nodes|)
    ensures baseline == AncestorCodes(nodes, start)
  {
    baseline := [];
    var cur: Option<nat> := start;
    while cur.Some?
      invariant cur.Some? ==> cur.value < |nodes|
      invariant baseline + AncestorCodes(nodes, cur) == AncestorCodes(nodes, start)
      decreases if cur.Some? then cur.value + 1 else 0
    {
      var q := cur.value;
      assert ParentLinked(nodes, q);
      var here := ImmediateChildCodes(nodes, q);
      ghost var above := AncestorCodes(nodes, nodes[q].parent);
      assert AncestorCodes(nodes, cur) == here + above;
      assert baseline + (here + above) == (baseline + here) + above;
      baseline := baseline + here;
      cur := nodes[q].parent;
    }
    assert AncestorCodes(nodes, cur) == [];
  }

  /** `_buildTestCase`: collect the baseline, extend it with the assertion's own codes, sort both. */
  method BuildTestCase(nodes: seq<NodeRec>, a: nat) returns (tc: TestCase)
    requires TreeShaped(nodes) && a < |nodes| && nodes[a].kind.AssertionNode?
    ensures tc == CaseFor(nodes, a)
  {
    assert ParentLinked(nodes, a);
    var baseline := CollectBaseline(nodes, nodes[a].parent);
    var codes := baseline + ImmediateChildCodes(nodes, a);
    baseline := SortByLine(nodes, baseline);
    codes := SortByLine(nodes, codes);
    tc := TestCase(a, baseline, codes);
  }

  /** `buildAll`: one test case per assertion under the root, in the order they were collected. */
  method BuildAll(nodes: seq<NodeRec>, root: nat) returns (cases: seq<TestCase>)
    requires TreeShaped(nodes) && root < |nodes|
    ensures
      var found := DescendantAssertions(nodes, root);
      |cases| == |found| && forall k | 0 <= k < |found| :: cases[k] == CaseFor(nodes, found[k])
  {
    var found := DescendantAssertions(nodes, root);
    cases := [];
    for k := 0 to |found|
      invariant |cases| == k && forall m | 0 <= m < k :: cases[m] == CaseFor(nodes, found[m])
    {
      var tc := BuildTestCase(nodes, found[k]);
      ghost var prev := cases;
      cases := cases + [tc];
      forall m | 0 <= m < k + 1
        ensures cases[m] == CaseFor(nodes, found[m])
      {
        if m < k {
          assert cases[m] == prev[m];
        }
      }
    }
  }
}
