/**
 * The node model of tests/test_compile/ast.py.
 *
 * A Python node is an object with a line number, a parent reference and a list of children.
 * Here the objects of one tree live in an arena `seq<NodeRec>`: a node is its index, and
 * `parent` and `children` hold indices. Structural comparisons (`__eq__`) ignore parents, so
 * they are stated on the value `Tree` that an arena node unfolds to.
 */
module Ast {
  import opened Wrappers
  import opened Lines

  /** The four subclasses of AssertionNode, in the order `__subclasses__()` lists them. */
  datatype Tag = Expect | ExpectNot | Assert | AssertNot

  const AssertionTags: seq<Tag> := [Expect, ExpectNot, Assert, AssertNot]

  /** The keyword in each assertion pattern `KW\s*{`. */
  function Keyword(t: Tag): string {
    match t
    case Expect => "EXPECT"
    case ExpectNot => "EXPECT_NOT"
    case Assert => "ASSERT"
    case AssertNot => "ASSERT_NOT"
  }

  /**
   * The class of a node together with the attributes its class adds: `end_line` of CodeNode,
   * `name` of TestNode, `line` of ErrorNode. The `cause` of an ErrorNode is the `message`
   * argument its text is built from; the rendered text itself is not modelled.
   */
  datatype Kind =
    | RootNode
    | CodeNode(endLine: int)
    | EndNode
    | TestNode(name: string)
    | AssertionNode(tag: Tag)
    | EofNode
    | ErrorNode(line: string, cause: Option<string>)

  /** `self.__class__ == other.__class__`: the same constructor, and the same subclass of AssertionNode. */
  predicate SameClass(a: Kind, b: Kind) {
    match (a, b)
    case (RootNode, RootNode) => true
    case (CodeNode(_), CodeNode(_)) => true
    case (EndNode, EndNode) => true
    case (TestNode(_), TestNode(_)) => true
    case (AssertionNode(s), AssertionNode(t)) => s == t
    case (EofNode, EofNode) => true
    case (ErrorNode(_, _), ErrorNode(_, _)) => true
    case _ => false
  }

  /** One node object of an arena: its class, `_line_no`, `parent` and `children`. */
  datatype NodeRec = NodeRec(kind: Kind, lineNo: int, parent: Option<nat>, children: seq<nat>)

  /** A node and its descendants, without parent references. */
  datatype Tree = Tree(kind: Kind, lineNo: int, children: seq<Tree>)

  // ---------------------------------------------------------------------------------------
  // Construction.

  /**
   * `Node.__init__`: a new node object with the given parent and children, followed by the
   * loop that sets the `parent` of every given child to the new node. The parent's own
   * `children` list is not touched.
   */
  method NewNode(nodes: seq<NodeRec>, kind: Kind, lineNo: int, parent: Option<nat>, children: seq<nat>)
    returns (r: seq<NodeRec>, id: nat)
    requires forall k | 0 <= k < |children| :: children[k] < |nodes|
    ensures id == |nodes| && |r| == |nodes| + 1
    ensures r[id] == NodeRec(kind, lineNo, parent, children)
    ensures forall k | 0 <= k < |children| :: r[children[k]].parent == Some(id)
    ensures forall j | 0 <= j < |nodes| ::
      r[j].kind == nodes[j].kind && r[j].lineNo == nodes[j].lineNo && r[j].children == nodes[j].children
    ensures forall j | 0 <= j < |nodes| && j !in children :: r[j] == nodes[j]
  {
    id := |nodes|;
    r := nodes + [NodeRec(kind, lineNo, parent, children)];
    for k := 0 to |children|
      invariant |r| == |nodes| + 1 && r[id] == NodeRec(kind, lineNo, parent, children)
      invariant forall m | 0 <= m < k :: r[children[m]].parent == Some(id)
      invariant forall j | 0 <= j < |nodes| ::
        r[j].kind == nodes[j].kind && r[j].lineNo == nodes[j].lineNo && r[j].children == nodes[j].children
      invariant forall j | 0 <= j < |nodes| && j !in children[..k] :: r[j] == nodes[j]
    {
      var c := children[k];
      r := r[c := r[c].(parent := Some(id))];
    }
  }

  /** `RootNode(children)`: line 0, no parent. */
  method NewRoot(nodes: seq<NodeRec>, children: seq<nat>) returns (r: seq<NodeRec>, id: nat)
    requires forall k | 0 <= k < |children| :: children[k] < |nodes|
    ensures id == |nodes| && |r| == |nodes| + 1
    ensures r[id].kind == RootNode && r[id].lineNo == 0 && r[id].parent == None
    ensures r[id].children == children
    ensures forall k | 0 <= k < |children| :: r[children[k]].parent == Some(id)
  {
    r, id := NewNode(nodes, RootNode, 0, None, children);
  }

  /** `CodeNode(line_no, end_line=None)`: the code block ends where given, else one line later. */
  function CodeKind(lineNo: int, endLine: Option<int>): (k: Kind)
    ensures k.CodeNode?
    ensures endLine.None? ==> k.endLine - lineNo == 1
    ensures endLine.Some? ==> k.endLine == endLine.value
  {
    CodeNode(if endLine.None? then lineNo + 1 else endLine.value)
  }

  // ---------------------------------------------------------------------------------------
  // Arenas that hold one tree.

  /** Node `i` lists its children in increasing index order and each of them points back at `i`. */
  predicate ChildLinked(nodes: seq<NodeRec>, i: nat)
    requires i < |nodes|
  {
    var cs := nodes[i].children;
    (forall k | 0 <= k < |cs| :: i < cs[k] < |nodes| && nodes[cs[k]].parent == Some(i)) &&
    (forall k, l | 0 <= k < l < |cs| :: cs[k] < cs[l])
  }

  /** Node 0 has no parent; every other node has an earlier parent that lists it as a child. */
  predicate ParentLinked(nodes: seq<NodeRec>, i: nat)
    requires i < |nodes|
  {
    if i == 0 then nodes[0].parent == None
    else nodes[i].parent.Some? && nodes[i].parent.value < i && i in nodes[nodes[i].parent.value].children
  }

  /**
   * The arena holds one tree rooted at index 0, each node stored after its parent. Every
   * tree can be stored so (in pre-order, for instance), so this fixes a layout, not a shape.
   */
  predicate TreeShaped(nodes: seq<NodeRec>) {
    |nodes| > 0 && forall i | 0 <= i < |nodes| :: ChildLinked(nodes, i) && ParentLinked(nodes, i)
  }

  /**
   * `parent.children.append(node)` for a node created with `parent=parent`: the new node
   * goes last in the arena and last among its parent's children.
   */
  function AppendChild(nodes: seq<NodeRec>, p: nat, kind: Kind, lineNo: int): (r: seq<NodeRec>)
    requires TreeShaped(nodes) && p < |nodes|
    ensures TreeShaped(r)
    ensures |r| == |nodes| + 1 && r[|nodes|] == NodeRec(kind, lineNo, Some(p), [])
    ensures r[p].children == nodes[p].children + [|nodes|]
    ensures r[p].kind == nodes[p].kind && r[p].lineNo == nodes[p].lineNo && r[p].parent == nodes[p].parent
    ensures forall i | 0 <= i < |nodes| && i != p :: r[i] == nodes[i]
  {
    var n := |nodes|;
    var r := nodes[p := nodes[p].(children := nodes[p].children + [n])] + [NodeRec(kind, lineNo, Some(p), [])];
    forall i | 0 <= i < |r|
      ensures ChildLinked(r, i) && ParentLinked(r, i)
    {
      AppendedLinks(nodes, p, r, i);
    }
    r
  }

  /** Each node of the grown arena keeps its links; the parent gains the new node, last. */
  lemma AppendedLinks(nodes: seq<NodeRec>, p: nat, r: seq<NodeRec>, i: nat)
    requires TreeShaped(nodes) && p < |nodes| && |r| == |nodes| + 1 && i < |r|
    requires r[|nodes|].parent == Some(p) && r[|nodes|].children == []
    requires r[p].children == nodes[p].children + [|nodes|] && r[p].parent == nodes[p].parent
    requires forall j | 0 <= j < |nodes| && j != p :: r[j] == nodes[j]
    ensures ChildLinked(r, i) && ParentLinked(r, i)
  {
    var n := |nodes|;
    if i < n {
      assert ChildLinked(nodes, i);
      var cs := nodes[i].children;
      assert forall k | 0 <= k < |cs| :: r[cs[k]].parent == nodes[cs[k]].parent;
      if i == p {
        assert forall k | 0 <= k < |cs| :: cs[k] < n;
      }
      assert ChildLinked(r, i);
      assert ParentLinked(nodes, i);
      if i > 0 {
        assert i in r[nodes[i].parent.value].children;
      }
    } else {
      assert ParentLinked(nodes, p);
    }
  }

  /** The tree of node `i`: its class, line and the trees of its children, in order. */
  function ToTree(nodes: seq<NodeRec>, i: nat): (t: Tree)
    requires TreeShaped(nodes) && i < |nodes|
    ensures t.kind == nodes[i].kind && t.lineNo == nodes[i].lineNo
    ensures |t.children| == |nodes[i].children|
    decreases |nodes| - i
  {
    var cs := nodes[i].children;
    assert ChildLinked(nodes, i);
    Tree(nodes[i].kind, nodes[i].lineNo, seq(|cs|, k requires 0 <= k < |cs| => ToTree(nodes, cs[k])))
  }

  /** `j` is `i` or lies below it: following parent links from `j` reaches `i`. */
  ghost predicate IsAncestorOrSelf(nodes: seq<NodeRec>, i: nat, j: nat)
    requires TreeShaped(nodes) && i < |nodes| && j < |nodes|
    decreases j
  {
    j == i || (j > 0 && (assert ParentLinked(nodes, j); IsAncestorOrSelf(nodes, i, nodes[j].parent.value)))
  }

  // ---------------------------------------------------------------------------------------
  // Ordering and equality.

  /** `__lt__`: one node sorts before another when its line number is smaller. */
  predicate Less(nodes: seq<NodeRec>, i: nat, j: nat)
    requires i < |nodes| && j < |nodes|
  {
    nodes[i].lineNo < nodes[j].lineNo
  }

  /** `__lt__` is a strict weak order: irreflexive, transitive, and nodes on one line are tied. */
  lemma LessIsStrictWeakOrder(nodes: seq<NodeRec>, i: nat, j: nat, k: nat)
    requires i < |nodes| && j < |nodes| && k < |nodes|
    ensures !Less(nodes, i, i)
    ensures Less(nodes, i, j) && Less(nodes, j, k) ==> Less(nodes, i, k)
    ensures !Less(nodes, i, j) && !Less(nodes, j, i) <==> nodes[i].lineNo == nodes[j].lineNo
    ensures !Less(nodes, i, j) && !Less(nodes, j, k) ==> !Less(nodes, i, k)
  {
  }

  /** The attribute each subclass's `__eq__` adds to `Node.__eq__`. */
  predicate SameAttributes(a: Kind, b: Kind) {
    match a
    case CodeNode(e) => b.CodeNode? && b.endLine == e
    case TestNode(n) => b.TestNode? && b.name == n
    case ErrorNode(l, _) => b.ErrorNode? && b.line == l
    case _ => true
  }

  /**
   * Structural equality with the class test done first: the same class, the same added
   * attribute, the same line number, as many children and pairwise equal children. The
   * parent and the ErrorNode message are not compared.
   */
  predicate Equal(a: Tree, b: Tree)
    decreases a
  {
    SameClass(a.kind, b.kind) && SameAttributes(a.kind, b.kind) && a.lineNo == b.lineNo &&
    |a.children| == |b.children| &&
    forall k | 0 <= k < |a.children| :: Equal(a.children[k], b.children[k])
  }

  /** A tree with every ErrorNode's message cause dropped: exactly what equality looks at. */
  function Erase(t: Tree): (r: Tree)
    ensures r.lineNo == t.lineNo && |r.children| == |t.children|
    ensures r.kind.ErrorNode? <==> t.kind.ErrorNode?
    ensures !t.kind.ErrorNode? ==> r.kind == t.kind
    decreases t
  {
    var k := if t.kind.ErrorNode? then ErrorNode(t.kind.line, None) else t.kind;
    Tree(k, t.lineNo, seq(|t.children|, i requires 0 <= i < |t.children| => Erase(t.children[i])))
  }

  /** Equality is exactly equality of the erased trees, so it is an equivalence relation. */
  lemma {:induction false} EqualIffErased(a: Tree, b: Tree)
    ensures Equal(a, b) <==> Erase(a) == Erase(b)
    decreases a
  {
    forall k | 0 <= k < |a.children| && k < |b.children|
      ensures Equal(a.children[k], b.children[k]) <==> Erase(a.children[k]) == Erase(b.children[k])
    {
      EqualIffErased(a.children[k], b.children[k]);
    }
    if Erase(a) == Erase(b) {
      assert |a.children| == |b.children|;
      forall k | 0 <= k < |a.children|
        ensures Erase(a.children[k]) == Erase(b.children[k])
      {
        assert Erase(a).children[k] == Erase(b).children[k];
      }
    }
    if Equal(a, b) {
      assert Erase(a).children == Erase(b).children;
    }
  }

  lemma EqualReflexive(a: Tree)
    ensures Equal(a, a)
  {
    EqualIffErased(a, a);
  }

  lemma EqualSymmetric(a: Tree, b: Tree)
    ensures Equal(a, b) ==> Equal(b, a)
  {
    EqualIffErased(a, b);
    EqualIffErased(b, a);
  }

  lemma EqualTransitive(a: Tree, b: Tree, c: Tree)
    ensures Equal(a, b) && Equal(b, c) ==> Equal(a, c)
  {
    EqualIffErased(a, b);
    EqualIffErased(b, c);
    EqualIffErased(a, c);
  }

  /** The outcome of a Python comparison: a truth value, or an AttributeError. */
  datatype Outcome = Returns(value: bool) | Raises

  /**
   * `a == b` as ast.py evaluates it. CodeNode, TestNode and ErrorNode read `other.end_line`,
   * `other.name` or `other.line` before `Node.__eq__` checks the class, so the comparison
   * raises when `other` is of a class without that attribute. Children are compared with
   * `!=`, that is `not __eq__`, left to right, stopping at the first difference.
   */
  function EqAsWritten(a: Tree, b: Tree): Outcome
    decreases a, 2, 0
  {
    match a.kind
    case CodeNode(e) => if !b.kind.CodeNode? then Raises else if e != b.kind.endLine then Returns(false) else NodeEqAsWritten(a, b)
    case TestNode(n) => if !b.kind.TestNode? then Raises else if n != b.kind.name then Returns(false) else NodeEqAsWritten(a, b)
    case ErrorNode(l, _) => if !b.kind.ErrorNode? then Raises else if l != b.kind.line then Returns(false) else NodeEqAsWritten(a, b)
    case _ => NodeEqAsWritten(a, b)
  }

  /** `Node.__eq__`: class, line number, child count, then the children loop. */
  function NodeEqAsWritten(a: Tree, b: Tree): Outcome
    decreases a, 1, 0
  {
    if !SameClass(a.kind, b.kind) || a.lineNo != b.lineNo || |a.children| != |b.children| then Returns(false)
    else ChildrenEqAsWritten(a, b, 0)
  }

  /** The loop over the children from index `k` on. */
  function ChildrenEqAsWritten(a: Tree, b: Tree, k: nat): Outcome
    requires |a.children| == |b.children|
    decreases a, 0, |a.children| - k
  {
    if k >= |a.children| then Returns(true)
    else
      match EqAsWritten(a.children[k], b.children[k])
      case Raises => Raises
      case Returns(false) => Returns(false)
      case Returns(true) => ChildrenEqAsWritten(a, b, k + 1)
  }

  /**
   * Wherever the comparison as written returns, it returns the corrected equality; it raises
   * only on trees the corrected equality tells apart.
   */
  lemma {:induction false} EqAsWrittenAgrees(a: Tree, b: Tree)
    ensures EqAsWritten(a, b).Returns? ==> EqAsWritten(a, b).value == Equal(a, b)
    ensures EqAsWritten(a, b).Raises? ==> !Equal(a, b)
    decreases a, 2, 0
  {
    NodeEqAgrees(a, b);
  }

  lemma {:induction false} NodeEqAgrees(a: Tree, b: Tree)
    ensures SameAttributes(a.kind, b.kind) && NodeEqAsWritten(a, b).Returns? ==>
      NodeEqAsWritten(a, b).value == Equal(a, b)
    ensures SameAttributes(a.kind, b.kind) && NodeEqAsWritten(a, b).Raises? ==> !Equal(a, b)
    decreases a, 1, 0
  {
    if SameClass(a.kind, b.kind) && a.lineNo == b.lineNo && |a.children| == |b.children| {
      ChildrenEqAgrees(a, b, 0);
    }
  }

  lemma {:induction false} ChildrenEqAgrees(a: Tree, b: Tree, k: nat)
    requires |a.children| == |b.children| && k <= |a.children|
    ensures ChildrenEqAsWritten(a, b, k).Returns? ==>
      (ChildrenEqAsWritten(a, b, k).value <==>
        forall m | k <= m < |a.children| :: Equal(a.children[m], b.children[m]))
    ensures ChildrenEqAsWritten(a, b, k).Raises? ==>
      exists m | k <= m < |a.children| :: !Equal(a.children[m], b.children[m])
    decreases a, 0, |a.children| - k
  {
    if k < |a.children| {
      EqAsWrittenAgrees(a.children[k], b.children[k]);
      ChildrenEqAgrees(a, b, k + 1);
    }
  }

  /** Equal trees compare equal as written, without raising. */
  lemma {:induction false} EqualNeverRaises(a: Tree, b: Tree)
    ensures Equal(a, b) ==> EqAsWritten(a, b) == Returns(true)
    decreases a, 2
  {
    if Equal(a, b) {
      EqualChildrenNeverRaise(a, b, 0);
    }
  }

  lemma {:induction false} EqualChildrenNeverRaise(a: Tree, b: Tree, k: nat)
    requires Equal(a, b) && k <= |a.children|
    ensures ChildrenEqAsWritten(a, b, k) == Returns(true)
    decreases a, 1, |a.children| - k
  {
    if k < |a.children| {
      EqualNeverRaises(a.children[k], b.children[k]);
      EqualChildrenNeverRaise(a, b, k + 1);
    }
  }

  /**
   * `CodeNode(1) == EndNode(1)` raises, and so does comparing two roots whose only children
   * are those two nodes, although the corrected equality simply answers false.
   */
  lemma EqAsWrittenRaises()
    ensures EqAsWritten(Tree(CodeNode(2), 1, []), Tree(EndNode, 1, [])) == Raises
    ensures !Equal(Tree(CodeNode(2), 1, []), Tree(EndNode, 1, []))
    ensures EqAsWritten(Tree(RootNode, 0, [Tree(CodeNode(2), 1, [])]), Tree(RootNode, 0, [Tree(EndNode, 1, [])])) == Raises
  {
    var r1 := Tree(RootNode, 0, [Tree(CodeNode(2), 1, [])]);
    var r2 := Tree(RootNode, 0, [Tree(EndNode, 1, [])]);
    assert ChildrenEqAsWritten(r1, r2, 0) == Raises;
  }

  // ---------------------------------------------------------------------------------------
  // The recognisers of ast.py; `None` stands for a missing line.

  /** `CodeNode.parse`: a present line that `\s*@.*` does not match. */
  predicate IsCode(line: Option<string>) {
    line.Some? && !HasSigil(line.value)
  }

  /** `EndNode.parse` through `Node.parse`: a truthy line matching `^\s*@\s*}\s*$`. */
  predicate IsEnd(line: Option<string>) {
    line.Some? && line.value != "" && MatchEnd(line.value)
  }

  /** `TestNode.parse`: the captured name of a truthy line matching the TEST pattern. */
  function TestOf(line: Option<string>): Option<string> {
    if line.Some? && line.value != "" then MatchTest(line.value) else None
  }

  /** `Node.parse` applied to one subclass of AssertionNode. */
  predicate IsAssertion(t: Tag, line: Option<string>) {
    line.Some? && line.value != "" && MatchKeyword(line.value, Keyword(t))
  }

  /** `AssertionNode.parse`: the first subclass, in declaration order, whose pattern matches. */
  function AssertionOf(line: Option<string>): (r: Option<Tag>)
    ensures r.Some? ==> IsAssertion(r.value, line)
    ensures r.None? ==> forall t :: !IsAssertion(t, line)
  {
    AllTagsListed();
    FirstTag(AssertionTags, line)
  }

  /** AssertionNode has exactly the four subclasses, each listed once. */
  lemma AllTagsListed()
    ensures forall t: Tag :: t in AssertionTags
  {
    forall t: Tag
      ensures t in AssertionTags
    {
      match t
      case Expect => assert AssertionTags[0] == t;
      case ExpectNot => assert AssertionTags[1] == t;
      case Assert => assert AssertionTags[2] == t;
      case AssertNot => assert AssertionTags[3] == t;
    }
  }

  function FirstTag(ts: seq<Tag>, line: Option<string>): (r: Option<Tag>)
    ensures r.Some? ==> r.value in ts && IsAssertion(r.value, line)
    ensures r.None? ==> forall t | t in ts :: !IsAssertion(t, line)
  {
    if ts == [] then None
    else if IsAssertion(ts[0], line) then Some(ts[0])
    else FirstTag(ts[1..], line)
  }

  /** `EofNode.parse`: only the missing line. */
  predicate IsEof(line: Option<string>) {
    line.None?
  }

  /** The Code recogniser rejects exactly the lines laid out as blanks, `@`, anything. */
  lemma CodeIffNoSigil(line: string)
    ensures IsCode(Some(line)) <==> !exists a, rest :: SigilLayout(line, a, rest)
    ensures !IsCode(None)
  {
    SigilIffLayout(line);
  }

  /** The empty line is Code for ast.py. */
  lemma EmptyLineIsCode()
    ensures IsCode(Some(""))
  {
  }

  /** No line any annotation recogniser accepts is Code. */
  lemma AnnotationsAreNotCode(line: Option<string>, t: Tag)
    requires IsEnd(line) || TestOf(line).Some? || IsAssertion(t, line)
    ensures !IsCode(line)
  {
    AnnotationsHaveSigil(line.value, Keyword(t));
  }

  /** A missing or empty line matches no annotation pattern. */
  lemma FalsyLinesMatchNothing(t: Tag)
    ensures !IsEnd(None) && !IsEnd(Some("")) && TestOf(None).None? && TestOf(Some("")).None?
    ensures !IsAssertion(t, None) && !IsAssertion(t, Some(""))
  {
  }

  /** The End recogniser accepts exactly the lines `\s*@\s*}\s*`. */
  lemma EndIff(line: string)
    ensures IsEnd(Some(line)) <==> exists a, b, c :: Layout(line, a, b, "}", c)
  {
    EndIffLayout(line);
    if exists a, b, c :: Layout(line, a, b, "}", c) {
      var a, b, c :| Layout(line, a, b, "}", c);
      assert |line| > 0;
    }
  }

  /** The Test recogniser returns a name exactly for the lines `\s*@\s*TEST\s*NAME\s*{\s*` with NAME a word. */
  lemma TestIff(line: string, name: string)
    ensures TestOf(Some(line)) == Some(name) <==>
      Word(name) && exists a, b, m1, m2, c :: TestLayout(line, a, b, m1, name, m2, c)
  {
    TestIffLayout(line, name);
    if exists a, b, m1, m2, c :: TestLayout(line, a, b, m1, name, m2, c) {
      var a, b, m1, m2, c :| TestLayout(line, a, b, m1, name, m2, c);
      assert |line| > 0;
    }
  }

  /** `@TEST {` names no test. */
  lemma NamelessTestRejected()
    ensures TestOf(Some("@TEST {")).None?
  {
    var line := "@TEST {";
    var body := "TEST {";
    assert line[1..] == body;
    assert Strip(body) == body by {
      assert LeadingBlank(body) == 0 && TrailingBlank(body) == 0;
    }
    assert Annotation(line) == Some(body);
    assert body[4..|body| - 1] == " ";
    assert Strip(" ") == "" by {
      assert LeadingBlank(" ") == 1;
    }
    assert TestName(body) == None;
  }

  /** An assertion recogniser accepts exactly the lines `\s*@\s*KW\s*{\s*` of its keyword. */
  lemma AssertionIff(t: Tag, line: string)
    ensures IsAssertion(t, Some(line)) <==> exists a, b, m, c :: KeywordLayout(line, Keyword(t), a, b, m, c)
  {
    KeywordIffLayout(line, Keyword(t));
    if exists a, b, m, c :: KeywordLayout(line, Keyword(t), a, b, m, c) {
      var a, b, m, c :| KeywordLayout(line, Keyword(t), a, b, m, c);
      assert |line| > 0;
    }
  }

  /** No line matches two of the four assertion patterns. */
  lemma AssertionsExclusive(s: Tag, t: Tag, line: Option<string>)
    requires s != t
    ensures !(IsAssertion(s, line) && IsAssertion(t, line))
  {
    if line.Some? {
      var l := line.value;
      match s
      case Expect =>
        if t == ExpectNot { KeywordExtendedBy(l, "EXPECT", "EXPECT_NOT"); }
        else { KeywordsDifferAt(l, "EXPECT", Keyword(t), 0); }
      case ExpectNot =>
        if t == Expect { KeywordExtendedBy(l, "EXPECT", "EXPECT_NOT"); }
        else { KeywordsDifferAt(l, "EXPECT_NOT", Keyword(t), 0); }
      case Assert =>
        if t == AssertNot { KeywordExtendedBy(l, "ASSERT", "ASSERT_NOT"); }
        else { KeywordsDifferAt(l, "ASSERT", Keyword(t), 0); }
      case AssertNot =>
        if t == Assert { KeywordExtendedBy(l, "ASSERT", "ASSERT_NOT"); }
        else { KeywordsDifferAt(l, "ASSERT_NOT", Keyword(t), 0); }
    }
  }

  /** Since the patterns are exclusive, the first match in declaration order is the only match. */
  lemma AssertionOfIff(line: Option<string>, t: Tag)
    ensures AssertionOf(line) == Some(t) <==> IsAssertion(t, line)
  {
    if IsAssertion(t, line) && AssertionOf(line) != Some(t) {
      AssertionsExclusive(AssertionOf(line).value, t, line);
    }
  }
}
