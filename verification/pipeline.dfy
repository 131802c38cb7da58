/**
 * The parser and the builder together: the parser of tests/test_compile/parser.py lays its
 * tree out in pre-order, so `TestCaseBuilder.buildAll` (tests/test_compile/test_case_builder.py)
 * run on a parsed tree returns its test cases in the order of the assertions' lines.
 *
 * The parser appends every node to the current node, and the current node always lies on
 * the rightmost path of the tree: below the last child of each of its ancestors. So each
 * subtree is complete before a later sibling is started.
 */
module Pipeline {
  import opened Ast
  import Parser
  import Builder

  /** Node `q` lies under the last child of every node it lies under: the rightmost path. */
  ghost predicate OnSpine(nodes: seq<NodeRec>, q: nat)
    requires TreeShaped(nodes) && q < |nodes|
  {
    forall a: nat, j: nat | a < |nodes| && j < |nodes[a].children| && Builder.UnderChild(nodes, a, j, q) ::
      j == |nodes[a].children| - 1
  }

  /** The tree is laid out in pre-order and the current node is on its rightmost path. */
  ghost predicate LaidOut(c: Parser.Config)
    requires TreeShaped(c.nodes) && c.cursor < |c.nodes|
  {
    Builder.PreOrderLayout(c.nodes) && OnSpine(c.nodes, c.cursor)
  }

  // ---------------------------------------------------------------------------------------
  // What appending a child does to the ancestor relation.

  /** Between the old nodes, the ancestor relation is unchanged. */
  lemma {:induction false} OldAncestry(nodes: seq<NodeRec>, p: nat, kind: Kind, lineNo: int, a: nat, x: nat)
    requires TreeShaped(nodes) && p < |nodes| && a < |nodes| && x < |nodes|
    ensures IsAncestorOrSelf(AppendChild(nodes, p, kind, lineNo), a, x) == IsAncestorOrSelf(nodes, a, x)
    decreases x
  {
    var r := AppendChild(nodes, p, kind, lineNo);
    if x != a && x > 0 {
      assert ParentLinked(nodes, x) && ParentLinked(r, x);
      assert r[x].parent == nodes[x].parent;
      OldAncestry(nodes, p, kind, lineNo, a, nodes[x].parent.value);
    }
  }

  /** An old node is above the new one exactly when it is at or above the new node's parent. */
  lemma NewAncestry(nodes: seq<NodeRec>, p: nat, kind: Kind, lineNo: int, a: nat)
    requires TreeShaped(nodes) && p < |nodes| && a < |nodes|
    ensures IsAncestorOrSelf(AppendChild(nodes, p, kind, lineNo), a, |nodes|) == IsAncestorOrSelf(nodes, a, p)
  {
    var r := AppendChild(nodes, p, kind, lineNo);
    assert ParentLinked(r, |nodes|);
    OldAncestry(nodes, p, kind, lineNo, a, p);
  }

  /** The new node is above no old node. */
  lemma NewNotAbove(nodes: seq<NodeRec>, p: nat, kind: Kind, lineNo: int, x: nat)
    requires TreeShaped(nodes) && p < |nodes| && x < |nodes|
    ensures !IsAncestorOrSelf(AppendChild(nodes, p, kind, lineNo), |nodes|, x)
  {
    var r := AppendChild(nodes, p, kind, lineNo);
    if IsAncestorOrSelf(r, |nodes|, x) {
      Builder.AncestorNotAfter(r, |nodes|, x);
    }
  }

  /** A child of `p` is not at or above `p`. */
  lemma ChildNotAbove(nodes: seq<NodeRec>, p: nat, j: nat)
    requires TreeShaped(nodes) && p < |nodes| && j < |nodes[p].children|
    ensures !Builder.UnderChild(nodes, p, j, p)
  {
    assert ChildLinked(nodes, p);
    if Builder.UnderChild(nodes, p, j, p) {
      Builder.AncestorNotAfter(nodes, nodes[p].children[j], p);
    }
  }

  /** The child lists of the old nodes, seen in the grown arena. */
  lemma OldChild(nodes: seq<NodeRec>, p: nat, kind: Kind, lineNo: int, a: nat, j: nat)
    requires TreeShaped(nodes) && p < |nodes| && a < |nodes| && j < |nodes[a].children|
    ensures var r := AppendChild(nodes, p, kind, lineNo);
      j < |r[a].children| && r[a].children[j] == nodes[a].children[j] && nodes[a].children[j] < |nodes|
  {
    assert ChildLinked(nodes, a);
  }

  // ---------------------------------------------------------------------------------------
  // Appending under a node on the rightmost path.

  /** Appending under a node on the rightmost path keeps the pre-order layout. */
  lemma LayoutAfterAppend(nodes: seq<NodeRec>, p: nat, kind: Kind, lineNo: int)
    requires TreeShaped(nodes) && p < |nodes| && Builder.PreOrderLayout(nodes) && OnSpine(nodes, p)
    ensures Builder.PreOrderLayout(AppendChild(nodes, p, kind, lineNo))
  {
    var n := |nodes|;
    var r := AppendChild(nodes, p, kind, lineNo);
    forall a: nat, j: nat, l: nat, x: nat | a < |r| && j < l < |r[a].children| && x < |r| &&
      Builder.UnderChild(r, a, j, x)
      ensures x < r[a].children[l]
    {
      assert a < n;
      OldChild(nodes, p, kind, lineNo, a, j);
      var cj := nodes[a].children[j];
      if x == n {
        NewAncestry(nodes, p, kind, lineNo, cj);
        assert Builder.UnderChild(nodes, a, j, p);
        if a == p {
          ChildNotAbove(nodes, p, j);
        }
        assert false;
      } else {
        OldAncestry(nodes, p, kind, lineNo, cj, x);
        assert Builder.UnderChild(nodes, a, j, x);
        if l < |nodes[a].children| {
          OldChild(nodes, p, kind, lineNo, a, l);
        } else {
          assert a == p && r[a].children[l] == n;
        }
      }
    }
  }

  /** After an Append the current node stays on the rightmost path. */
  lemma SpineAfterAppend(nodes: seq<NodeRec>, p: nat, kind: Kind, lineNo: int)
    requires TreeShaped(nodes) && p < |nodes| && OnSpine(nodes, p)
    ensures OnSpine(AppendChild(nodes, p, kind, lineNo), p)
  {
    var n := |nodes|;
    var r := AppendChild(nodes, p, kind, lineNo);
    forall a: nat, j: nat | a < |r| && j < |r[a].children| && Builder.UnderChild(r, a, j, p)
      ensures j == |r[a].children| - 1
    {
      assert a < n;
      if a == p && j == |nodes[p].children| {
        assert |r[a].children| == j + 1;
      } else {
        OldChild(nodes, p, kind, lineNo, a, j);
        OldAncestry(nodes, p, kind, lineNo, nodes[a].children[j], p);
        assert Builder.UnderChild(nodes, a, j, p);
        if a == p {
          ChildNotAbove(nodes, p, j);
        } else {
          assert r[a] == nodes[a];
        }
      }
    }
  }

  /** After a Push the new current node, the appended one, is on the rightmost path. */
  lemma SpineAfterPush(nodes: seq<NodeRec>, p: nat, kind: Kind, lineNo: int)
    requires TreeShaped(nodes) && p < |nodes| && OnSpine(nodes, p)
    ensures OnSpine(AppendChild(nodes, p, kind, lineNo), |nodes|)
  {
    var n := |nodes|;
    var r := AppendChild(nodes, p, kind, lineNo);
    forall a: nat, j: nat | a < |r| && j < |r[a].children| && Builder.UnderChild(r, a, j, n)
      ensures j == |r[a].children| - 1
    {
      assert a < n;
      if !(a == p && j == |nodes[p].children|) {
        OldChild(nodes, p, kind, lineNo, a, j);
        NewAncestry(nodes, p, kind, lineNo, nodes[a].children[j]);
        assert Builder.UnderChild(nodes, a, j, p);
        if a == p {
          ChildNotAbove(nodes, p, j);
        }
      }
    }
  }

  /** After a Pop the new current node, the old one's parent, is on the rightmost path. */
  lemma SpineAfterPop(nodes: seq<NodeRec>, p: nat, kind: Kind, lineNo: int)
    requires TreeShaped(nodes) && 0 < p < |nodes| && OnSpine(nodes, p)
    ensures nodes[p].parent.Some? && nodes[p].parent.value < |nodes|
    ensures OnSpine(AppendChild(nodes, p, kind, lineNo), nodes[p].parent.value)
  {
    var n := |nodes|;
    var r := AppendChild(nodes, p, kind, lineNo);
    assert ParentLinked(nodes, p);
    var q := nodes[p].parent.value;
    assert IsAncestorOrSelf(nodes, q, p);
    forall a: nat, j: nat | a < |r| && j < |r[a].children| && Builder.UnderChild(r, a, j, q)
      ensures j == |r[a].children| - 1
    {
      assert a < n;
      if a == p && j == |nodes[p].children| {
        NewNotAbove(nodes, p, kind, lineNo, q);
      } else {
        OldChild(nodes, p, kind, lineNo, a, j);
        var cj := nodes[a].children[j];
        OldAncestry(nodes, p, kind, lineNo, cj, q);
        Builder.AncestorTrans(nodes, cj, q, p);
        assert Builder.UnderChild(nodes, a, j, p);
        if a == p {
          ChildNotAbove(nodes, p, j);
        }
      }
    }
  }

  // ---------------------------------------------------------------------------------------
  // Steps and runs.

  /** Every move keeps the tree in pre-order with the current node on the rightmost path. */
  lemma ApplyKeepsLaidOut(c: Parser.Config, m: Parser.Move)
    requires Parser.Wf(c, m) && LaidOut(c)
    ensures LaidOut(Parser.Apply(c, m))
  {
    LayoutAfterAppend(c.nodes, c.cursor, m.kind, c.lineNo + 1);
    match m.op
    case Push => SpineAfterPush(c.nodes, c.cursor, m.kind, c.lineNo + 1);
    case Pop => SpineAfterPop(c.nodes, c.cursor, m.kind, c.lineNo + 1);
    case Append => SpineAfterAppend(c.nodes, c.cursor, m.kind, c.lineNo + 1);
  }

  /** A run from a laid-out configuration ends laid out. */
  lemma {:induction false} RunKeepsLaidOut(input: seq<string>, c: Parser.Config)
    requires Parser.ValidConfig(input, c) && LaidOut(c)
    ensures LaidOut(Parser.RunFrom(input, c))
    decreases Parser.Measure(input, c)
  {
    if !Parser.Final(c.state) {
      var line := Parser.LineAt(input, c.lineNo + 1);
      var move := Parser.Decide(c.state, c.lineNo + 1, line);
      Parser.StepIs(input, c, line, move);
      ApplyKeepsLaidOut(c, move);
      Parser.NextDecreases(input, c);
      RunKeepsLaidOut(input, Parser.Next(input, c));
    }
  }

  /** Every tree `run` returns is laid out in pre-order. */
  lemma ParsedTreeInPreOrder(input: seq<string>)
    ensures Parser.ValidConfig(input, Parser.Initial())
    ensures Builder.PreOrderLayout(Parser.RunFrom(input, Parser.Initial()).nodes)
  {
    Parser.InitialValid(input);
    RunKeepsLaidOut(input, Parser.Initial());
  }

  /**
   * `buildAll` on a tree `run` returns: the assertions come in the order of their lines, so
   * the test cases do too, one per assertion.
   */
  lemma ParsedAssertionsInLineOrder(input: seq<string>)
    ensures Parser.ValidConfig(input, Parser.Initial())
    ensures var f := Parser.RunFrom(input, Parser.Initial());
      var found := Builder.DescendantAssertions(f.nodes, 0);
      forall k, m | 0 <= k < m < |found| :: f.nodes[found[k]].lineNo < f.nodes[found[m]].lineNo
  {
    ParsedTreeInPreOrder(input);
    var f := Parser.RunFrom(input, Parser.Initial());
    Builder.DescendantAssertionsIncreasing(f.nodes, 0);
  }
}
