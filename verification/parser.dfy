/**
 * The line-driven parser of tests/test_compile/parser.py.
 *
 * The parser reads its input one line at a time and drives a small automaton. In each state
 * it tries a fixed list of node recognisers in order; the first that accepts the line gives
 * the node to append to the current node's children and says whether the new node becomes
 * the current one (push), its parent does (pop) or nothing moves (append). A line nothing
 * accepts becomes an ErrorNode, which is appended and made current, and the parser rejects.
 *
 * The input stream is a sequence of lines (each with its line terminator, as `readline`
 * returns them) and a read position; reading past the end yields `""`. The tree is an arena
 * of `Ast.NodeRec` in which node `k` is the node made from line `k` (the root is node 0).
 *
 * A step is split in two: `Decide` is what the recognisers make of the line (a `Move`), and
 * `Apply` is what the move does to the tree and the cursor.
 */
module Parser {
  import opened Wrappers
  import opened Lines
  import opened Ast

  /** `_State`. */
  datatype State = Start | Reject | Accept | Test | Assertion

  /** `_AstOp`. */
  datatype Op = Push | Pop | Append

  /** The node classes named in the transition table. */
  datatype NodeClass = EofClass | TestClass | CodeClass | EndClass | TagClass(tag: Tag)

  datatype Transition = Transition(cls: NodeClass, next: State, op: Op)

  predicate Final(s: State) {
    s == Accept || s == Reject
  }

  /** `Parser._state_trans`: the candidates of each state, in the order they are tried. */
  function Transitions(s: State): seq<Transition> {
    match s
    case Start => [
      Transition(EofClass, Accept, Append),
      Transition(TestClass, Test, Push),
      Transition(CodeClass, Start, Append)]
    case Test => [
      Transition(EndClass, Start, Pop),
      Transition(TagClass(Expect), Assertion, Push),
      Transition(TagClass(ExpectNot), Assertion, Push),
      Transition(TagClass(Assert), Assertion, Push),
      Transition(TagClass(AssertNot), Assertion, Push),
      Transition(CodeClass, Test, Append)]
    case Assertion => [
      Transition(EndClass, Test, Pop),
      Transition(CodeClass, Assertion, Append)]
    case _ => []
  }

  /**
   * The `parse` class methods of parser.py applied to a line `readline` returned. Unlike
   * ast.py, Code accepts every non-empty line (annotations included) and Eof the empty one.
   * parser.py's CodeNode has no `end_line`; its nodes are given the ast.py default here.
   */
  function ParseAs(cls: NodeClass, lineNo: int, line: string): Option<Kind> {
    match cls
    case EofClass => if line == "" then Some(EofNode) else None
    case TestClass =>
      (match MatchTest(line)
       case Some(name) => Some(TestNode(name))
       case None => None)
    case CodeClass => if line != "" then Some(CodeNode(lineNo + 1)) else None
    case EndClass => if MatchEnd(line) then Some(EndNode) else None
    case TagClass(t) => if MatchKeyword(line, Keyword(t)) then Some(AssertionNode(t)) else None
  }

  /** The outcome of a step: the next state, what happens to the cursor, the node appended. */
  datatype Move = Move(next: State, op: Op, kind: Kind)

  /** What a line nothing accepts gives: an ErrorNode holding the line, made current, and Reject. */
  function ErrorMove(line: string): Move {
    Move(Reject, Push, ErrorNode(line, None))
  }

  /**
   * The `for` loop of `_step` from candidate `i` on: the first candidate whose recogniser
   * accepts the line gives the move; when none does, the error move.
   */
  function TryFrom(ts: seq<Transition>, i: nat, lineNo: int, line: string): Move
    requires i <= |ts|
    decreases |ts| - i
  {
    if i == |ts| then ErrorMove(line)
    else
      match ParseAs(ts[i].cls, lineNo, line)
      case Some(kind) => Move(ts[i].next, ts[i].op, kind)
      case None => TryFrom(ts, i + 1, lineNo, line)
  }

  /** The move of state `s` on the line numbered `lineNo`. */
  function Decide(s: State, lineNo: int, line: string): Move {
    TryFrom(Transitions(s), 0, lineNo, line)
  }

  /** A candidate that rejects the line passes it on to the next. */
  lemma Skip(ts: seq<Transition>, i: nat, lineNo: int, line: string)
    requires i < |ts| && ParseAs(ts[i].cls, lineNo, line).None?
    ensures TryFrom(ts, i, lineNo, line) == TryFrom(ts, i + 1, lineNo, line)
  {
  }

  /** A candidate that accepts the line decides the move. */
  lemma Hit(ts: seq<Transition>, i: nat, lineNo: int, line: string, kind: Kind)
    requires i < |ts| && ParseAs(ts[i].cls, lineNo, line) == Some(kind)
    ensures TryFrom(ts, i, lineNo, line) == Move(ts[i].next, ts[i].op, kind)
  {
  }

  /**
   * The moves the transition table allows in each state, with the class of node each
   * candidate produces, and the error move.
   */
  predicate Allowed(s: State, m: Move) {
    (m.next == Reject && m.op == Push && m.kind.ErrorNode?) ||
    match s
    case Start =>
      (m.next == Accept && m.op == Append && m.kind == EofNode) ||
      (m.next == Test && m.op == Push && m.kind.TestNode?) ||
      (m.next == Start && m.op == Append && m.kind.CodeNode?)
    case Test =>
      (m.next == Start && m.op == Pop && m.kind == EndNode) ||
      (m.next == Assertion && m.op == Push && m.kind.AssertionNode?) ||
      (m.next == Test && m.op == Append && m.kind.CodeNode?)
    case Assertion =>
      (m.next == Test && m.op == Pop && m.kind == EndNode) ||
      (m.next == Assertion && m.op == Append && m.kind.CodeNode?)
    case _ => false
  }

  /** Every candidate of `ts` from `i` on yields a node of its own class and an allowed move. */
  lemma {:induction false} TryFromAllowed(s: State, i: nat, lineNo: int, line: string)
    requires !Final(s) && i <= |Transitions(s)|
    ensures Allowed(s, TryFrom(Transitions(s), i, lineNo, line))
    decreases |Transitions(s)| - i
  {
    var ts := Transitions(s);
    if i < |ts| && ParseAs(ts[i].cls, lineNo, line).None? {
      TryFromAllowed(s, i + 1, lineNo, line);
    }
  }

  /** Every decision is an allowed move. */
  lemma DecideAllowed(s: State, lineNo: int, line: string)
    requires !Final(s)
    ensures Allowed(s, Decide(s, lineNo, line))
  {
    TryFromAllowed(s, 0, lineNo, line);
  }

  /** Line `k` of the input, counting from 1; `""` past the end, as `readline` gives it. */
  function LineAt(input: seq<string>, k: nat): string {
    if 1 <= k <= |input| then input[k - 1] else ""
  }

  /** The parser's fields other than the stream: `_state`, the tree, `_node` and `_line_no`. */
  datatype Config = Config(state: State, nodes: seq<NodeRec>, cursor: nat, lineNo: nat)

  /** `_reset`: state Start, a fresh root as the current node, line counter 0. */
  function Initial(): (c: Config)
    ensures TreeShaped(c.nodes) && c.cursor == 0 && c.nodes[0].kind == RootNode
  {
    Config(Start, [NodeRec(RootNode, 0, None, [])], 0, 0)
  }

  /** What a step needs: a tree, a cursor in it, and a cursor below the root for a pop. */
  predicate Wf(c: Config, m: Move) {
    TreeShaped(c.nodes) && c.cursor < |c.nodes| && (m.op == Pop ==> c.cursor > 0)
  }

  /**
   * The rest of `_step` once the line is classified: count the line, append the node to the
   * current node's children, move the cursor (to the new node, to the current node's parent,
   * or nowhere) and enter the next state.
   */
  function Apply(c: Config, m: Move): (d: Config)
    requires Wf(c, m)
    ensures TreeShaped(d.nodes) && d.cursor < |d.nodes|
  {
    var n := |c.nodes|;
    var nodes := AppendChild(c.nodes, c.cursor, m.kind, c.lineNo + 1);
    var cursor :=
      match m.op
      case Push => n
      case Pop => (assert ParentLinked(c.nodes, c.cursor); c.nodes[c.cursor].parent.value)
      case Append => c.cursor;
    Config(m.next, nodes, cursor, c.lineNo + 1)
  }

  // ---------------------------------------------------------------------------------------
  // The invariant of the parser.

  /** Node `i` is a child of the root. */
  predicate AtTop(nodes: seq<NodeRec>, i: nat)
    requires i < |nodes|
  {
    nodes[i].parent == Some(0)
  }

  /** Node `i` is a TestNode child of the root. */
  predicate TopTest(nodes: seq<NodeRec>, i: nat)
    requires i < |nodes|
  {
    nodes[i].kind.TestNode? && AtTop(nodes, i)
  }

  /**
   * The current node matches the state: the root in Start and Accept, a TestNode child of the
   * root in Test, an assertion node inside such a TestNode in Assertion, the ErrorNode in Reject.
   */
  predicate InScope(c: Config)
    requires c.cursor < |c.nodes|
  {
    var cur := c.nodes[c.cursor];
    match c.state
    case Start => c.cursor == 0
    case Accept => c.cursor == 0 && c.nodes[|c.nodes| - 1].kind == EofNode
    case Test => TopTest(c.nodes, c.cursor)
    case Assertion =>
      cur.kind.AssertionNode? && cur.parent.Some? && cur.parent.value < |c.nodes| &&
      TopTest(c.nodes, cur.parent.value)
    case Reject => c.cursor == |c.nodes| - 1 && cur.kind.ErrorNode?
  }

  /** One tree whose root is node 0 and whose node `i` came from line `i`, the cursor in scope. */
  predicate Shaped(c: Config) {
    TreeShaped(c.nodes) && c.nodes[0].kind == RootNode &&
    |c.nodes| == c.lineNo + 1 && c.cursor < |c.nodes| &&
    (forall i | 0 <= i < |c.nodes| :: c.nodes[i].lineNo == i) &&
    InScope(c)
  }

  /** A reachable configuration: shaped, with the line counter within one past the input. */
  predicate ValidConfig(input: seq<string>, c: Config) {
    Shaped(c) && c.lineNo <= |input| + 1 && (!Final(c.state) ==> c.lineNo <= |input|)
  }

  /** An allowed move can be applied to a shaped configuration. */
  lemma ShapedWf(c: Config, m: Move)
    requires Shaped(c) && Allowed(c.state, m)
    ensures Wf(c, m)
  {
    if m.op == Pop {
      assert ParentLinked(c.nodes, 0);
    }
  }

  /**
   * `_step`: nothing in a final state; otherwise read the next line, decide the move and
   * apply it.
   */
  function Next(input: seq<string>, c: Config): (d: Config)
    requires ValidConfig(input, c)
    ensures TreeShaped(d.nodes) && d.cursor < |d.nodes|
  {
    if Final(c.state) then c
    else
      var line := LineAt(input, c.lineNo + 1);
      DecideWf(c, line);
      Apply(c, Decide(c.state, c.lineNo + 1, line))
  }

  /** The move a working configuration decides on can be applied to it. */
  lemma DecideWf(c: Config, line: string)
    requires Shaped(c) && !Final(c.state)
    ensures Wf(c, Decide(c.state, c.lineNo + 1, line))
  {
    DecideAllowed(c.state, c.lineNo + 1, line);
    ShapedWf(c, Decide(c.state, c.lineNo + 1, line));
  }

  lemma InitialValid(input: seq<string>)
    ensures ValidConfig(input, Initial())
  {
  }

  /**
   * The scope invariant read both ways: the current node is the root exactly in Start and
   * Accept, a top-level TestNode exactly in Test, and an assertion node exactly in Assertion.
   */
  lemma ScopeIff(c: Config)
    requires Shaped(c)
    ensures c.cursor == 0 <==> c.state == Start || c.state == Accept
    ensures TopTest(c.nodes, c.cursor) <==> c.state == Test
    ensures c.nodes[c.cursor].kind.AssertionNode? <==> c.state == Assertion
  {
    if c.cursor == 0 {
      assert c.nodes[c.cursor].kind == RootNode;
    }
  }

  /**
   * Applying a move reads one line, counts it, and appends exactly one node, of the move's
   * kind, under the current node; no other node changes. The cursor goes to the new node on
   * a push, to the old cursor's parent on a pop, and stays on an append.
   */
  /**
   * `d` is `c` after move `m`: the line is counted, the new node is the last of the arena and
   * the last child of the current node, no other node changes, and the cursor moves to the
   * new node (push), to the current node's parent (pop) or nowhere (append).
   */
  predicate AppendsOne(c: Config, m: Move, d: Config) {
    var n := |c.nodes|;
    c.cursor < n && |d.nodes| == n + 1 &&
    d.state == m.next && d.lineNo == c.lineNo + 1 &&
    d.nodes[n] == NodeRec(m.kind, c.lineNo + 1, Some(c.cursor), []) &&
    d.nodes[c.cursor].children == c.nodes[c.cursor].children + [n] &&
    d.nodes[c.cursor].kind == c.nodes[c.cursor].kind &&
    d.nodes[c.cursor].parent == c.nodes[c.cursor].parent &&
    (forall i | 0 <= i < n && i != c.cursor :: d.nodes[i] == c.nodes[i]) &&
    (m.op == Push ==> d.cursor == n) &&
    (m.op == Pop ==> Some(d.cursor) == c.nodes[c.cursor].parent) &&
    (m.op == Append ==> d.cursor == c.cursor)
  }

  lemma ApplyAppendsOneNode(c: Config, m: Move)
    requires Wf(c, m)
    ensures AppendsOne(c, m, Apply(c, m))
  {
    if m.op == Pop {
      assert ParentLinked(c.nodes, c.cursor);
    }
  }

  /** In a final state a step does nothing. */
  lemma FinalIsFixed(input: seq<string>, c: Config)
    requires ValidConfig(input, c) && Final(c.state)
    ensures Next(input, c) == c
  {
  }

  lemma {:induction false} ApplyKeepsLines(c: Config, m: Move)
    requires Shaped(c) && Wf(c, m)
    ensures
      var d := Apply(c, m);
      d.nodes[0].kind == RootNode && |d.nodes| == d.lineNo + 1 &&
      forall i | 0 <= i < |d.nodes| :: d.nodes[i].lineNo == i
  {
    ApplyAppendsOneNode(c, m);
    var d := Apply(c, m);
    if c.cursor == 0 {
      assert d.nodes[0].kind == c.nodes[0].kind;
    } else {
      assert d.nodes[0] == c.nodes[0];
    }
    forall i | 0 <= i < |d.nodes|
      ensures d.nodes[i].lineNo == i
    {
      if i < |c.nodes| && i != c.cursor {
        assert d.nodes[i] == c.nodes[i];
      }
    }
  }

  lemma {:induction false} ApplyInScopePush(c: Config, m: Move)
    requires Shaped(c) && Wf(c, m) && Allowed(c.state, m) && m.op == Push
    ensures InScope(Apply(c, m))
  {
    ApplyAppendsOneNode(c, m);
    var d := Apply(c, m);
    if m.next == Assertion {
      assert c.state == Test;
      assert d.nodes[c.cursor].parent == c.nodes[c.cursor].parent;
      assert TopTest(d.nodes, c.cursor);
    }
  }

  lemma {:induction false} ApplyInScopePop(c: Config, m: Move)
    requires Shaped(c) && Wf(c, m) && Allowed(c.state, m) && m.op == Pop
    ensures InScope(Apply(c, m))
  {
    ApplyAppendsOneNode(c, m);
    var d := Apply(c, m);
    if c.state == Assertion {
      var p := c.nodes[c.cursor].parent.value;
      assert d.nodes[p] == c.nodes[p];
    }
  }

  lemma {:induction false} ApplyInScopeAppend(c: Config, m: Move)
    requires Shaped(c) && Wf(c, m) && Allowed(c.state, m) && m.op == Append
    ensures InScope(Apply(c, m))
  {
    ApplyAppendsOneNode(c, m);
    var d := Apply(c, m);
    if c.state == Assertion {
      var p := c.nodes[c.cursor].parent.value;
      assert d.nodes[p] == c.nodes[p];
    } else if c.state == Test {
      assert TopTest(d.nodes, c.cursor);
    }
  }

  /** An allowed move keeps the tree shape, the line numbering and the scope invariant. */
  lemma {:induction false} ApplyKeepsShape(c: Config, m: Move)
    requires Shaped(c) && Wf(c, m) && Allowed(c.state, m)
    ensures Shaped(Apply(c, m))
  {
    ApplyKeepsLines(c, m);
    match m.op
    case Push => ApplyInScopePush(c, m);
    case Pop => ApplyInScopePop(c, m);
    case Append => ApplyInScopeAppend(c, m);
  }

  // ---------------------------------------------------------------------------------------
  // What the recognisers decide.

  /** In Start the candidates are Eof, Test and Code, tried in that order. */
  lemma DecideStart(lineNo: int, line: string)
    ensures Decide(Start, lineNo, line) ==
      if line == "" then Move(Accept, Append, EofNode)
      else if MatchTest(line).Some? then Move(Test, Push, TestNode(MatchTest(line).value))
      else Move(Start, Append, CodeNode(lineNo + 1))
  {
    var ts := Transitions(Start);
    if line == "" {
      Hit(ts, 0, lineNo, line, EofNode);
    } else {
      Skip(ts, 0, lineNo, line);
      if MatchTest(line).Some? {
        Hit(ts, 1, lineNo, line, TestNode(MatchTest(line).value));
      } else {
        Skip(ts, 1, lineNo, line);
        Hit(ts, 2, lineNo, line, CodeNode(lineNo + 1));
      }
    }
  }

  /** Candidates `i` to `k` that all reject the line are passed over. */
  lemma {:induction false} SkipTo(ts: seq<Transition>, i: nat, k: nat, lineNo: int, line: string)
    requires i <= k <= |ts|
    requires forall j | i <= j < k :: ParseAs(ts[j].cls, lineNo, line).None?
    ensures TryFrom(ts, i, lineNo, line) == TryFrom(ts, k, lineNo, line)
    decreases k - i
  {
    if i < k {
      Skip(ts, i, lineNo, line);
      SkipTo(ts, i + 1, k, lineNo, line);
    }
  }

  /** When candidate `k` accepts the line, no candidate from `i <= k` on rejects it. */
  lemma {:induction false} HitLater(ts: seq<Transition>, i: nat, k: nat, lineNo: int, line: string)
    requires i <= k < |ts| && ParseAs(ts[k].cls, lineNo, line).Some?
    requires forall j | 0 <= j < |ts| :: ts[j].next != Reject
    ensures TryFrom(ts, i, lineNo, line).next != Reject
    decreases k - i
  {
    if i < k && ParseAs(ts[i].cls, lineNo, line).None? {
      HitLater(ts, i + 1, k, lineNo, line);
    }
  }

  /** The line each node class's recogniser accepts, for the classes other than Eof and Code. */
  lemma ParseAsAnnotation(cls: NodeClass, lineNo: int, line: string)
    requires cls != EofClass && cls != CodeClass && ParseAs(cls, lineNo, line).Some?
    ensures HasSigil(line)
  {
    match cls
    case TestClass => AnnotationsHaveSigil(line, "");
    case EndClass => AnnotationsHaveSigil(line, "");
    case TagClass(t) => AnnotationsHaveSigil(line, Keyword(t));
  }

  /** In Assertion the candidates are End and Code. */
  lemma DecideAssertion(lineNo: int, line: string)
    ensures Decide(Assertion, lineNo, line) ==
      if MatchEnd(line) then Move(Test, Pop, EndNode)
      else if line != "" then Move(Assertion, Append, CodeNode(lineNo + 1))
      else ErrorMove(line)
  {
    var ts := Transitions(Assertion);
    if MatchEnd(line) {
      Hit(ts, 0, lineNo, line, EndNode);
    } else {
      Skip(ts, 0, lineNo, line);
      if line != "" {
        Hit(ts, 1, lineNo, line, CodeNode(lineNo + 1));
      } else {
        Skip(ts, 1, lineNo, line);
      }
    }
  }

  /** No recogniser but Eof accepts the end of input. */
  lemma NothingMatchesEmpty()
    ensures !MatchEnd("") && MatchTest("").None?
    ensures forall t: Tag :: !MatchKeyword("", Keyword(t))
  {
    assert !HasSigil("");
    forall t: Tag
      ensures !MatchKeyword("", Keyword(t))
    {
      if MatchKeyword("", Keyword(t)) {
        AnnotationsHaveSigil("", Keyword(t));
      }
    }
    if MatchEnd("") || MatchTest("").Some? {
      AnnotationsHaveSigil("", "");
    }
  }

  /** The end of input (`""`): Eof accepts in Start; inside a block nothing matches and the parser rejects. */
  lemma DecideAtEnd(s: State, lineNo: int)
    requires !Final(s)
    ensures s == Start ==> Decide(s, lineNo, "") == Move(Accept, Append, EofNode)
    ensures s != Start ==> Decide(s, lineNo, "") == Move(Reject, Push, ErrorNode("", None))
  {
    var ts := Transitions(s);
    match s
    case Start => DecideStart(lineNo, "");
    case Test =>
      forall j | 0 <= j < |ts|
        ensures ParseAs(ts[j].cls, lineNo, "").None?
      {
        if j < 5 && ParseAs(ts[j].cls, lineNo, "").Some? {
          ParseAsAnnotation(ts[j].cls, lineNo, "");
        }
      }
      SkipTo(ts, 0, |ts|, lineNo, "");
    case Assertion => DecideAssertion(lineNo, "");
  }

  /** Code is the last candidate of every non-final state and accepts every non-empty line. */
  lemma NonEmptyNeverRejects(s: State, lineNo: int, line: string)
    requires !Final(s) && line != ""
    ensures Decide(s, lineNo, line).next != Reject
  {
    var ts := Transitions(s);
    HitLater(ts, 0, |ts| - 1, lineNo, line);
  }

  /** A step rejects exactly when it reads the end of input inside a TEST or assertion block. */
  lemma RejectIffEndInBlock(s: State, lineNo: int, line: string)
    requires !Final(s)
    ensures Decide(s, lineNo, line).next == Reject <==> (s == Test || s == Assertion) && line == ""
  {
    if line == "" {
      DecideAtEnd(s, lineNo);
    } else {
      NonEmptyNeverRejects(s, lineNo, line);
    }
  }

  /** In Start nothing is rejected: the empty line is Eof and any other line is accepted. */
  lemma StartNeverRejects(lineNo: int, line: string)
    ensures Decide(Start, lineNo, line).next != Reject
  {
    DecideStart(lineNo, line);
  }

  /**
   * No coalescing: in every state a non-empty line without the sigil becomes a CodeNode of
   * its own, one line long, and the state stays.
   */
  lemma PlainLineIsCode(s: State, lineNo: int, line: string)
    requires !Final(s) && line != "" && !HasSigil(line)
    ensures Decide(s, lineNo, line) == Move(s, Append, CodeNode(lineNo + 1))
  {
    var ts := Transitions(s);
    var last := |ts| - 1;
    forall j | 0 <= j < last
      ensures ParseAs(ts[j].cls, lineNo, line).None?
    {
      if ts[j].cls != EofClass && ParseAs(ts[j].cls, lineNo, line).Some? {
        ParseAsAnnotation(ts[j].cls, lineNo, line);
      }
    }
    SkipTo(ts, 0, last, lineNo, line);
    Hit(ts, last, lineNo, line, CodeNode(lineNo + 1));
  }

  /** In Start, a TEST line opens a test block named by the captured word. */
  lemma TestLineOpensBlock(lineNo: int, line: string, name: string)
    requires MatchTest(line) == Some(name)
    ensures Decide(Start, lineNo, line) == Move(Test, Push, TestNode(name))
  {
    NothingMatchesEmpty();
    DecideStart(lineNo, line);
  }

  /** `@}` cannot be a keyword line. */
  lemma EndNotKeyword(line: string, kw: string)
    requires MatchKeyword(line, kw)
    ensures !MatchEnd(line)
  {
    if MatchEnd(line) {
      EndExcludesOthers(line, kw);
    }
  }

  /** The place of each assertion keyword among the candidates of Test. */
  function TagIndex(t: Tag): (i: nat)
    ensures 1 <= i < |Transitions(Test)| && Transitions(Test)[i] == Transition(TagClass(t), Assertion, Push)
  {
    match t
    case Expect => 1
    case ExpectNot => 2
    case Assert => 3
    case AssertNot => 4
  }

  /** A keyword line is not an end line. */
  lemma KeywordRejectsEnd(t: Tag, lineNo: int, line: string)
    requires MatchKeyword(line, Keyword(t))
    ensures ParseAs(EndClass, lineNo, line).None?
  {
    EndNotKeyword(line, Keyword(t));
  }

  /** A line with one assertion keyword is rejected by the recognisers of the other three. */
  lemma KeywordRejectsOtherTag(t: Tag, u: Tag, lineNo: int, line: string)
    requires MatchKeyword(line, Keyword(t)) && u != t
    ensures ParseAs(TagClass(u), lineNo, line).None?
  {
    AssertionsExclusive(t, u, Some(line));
  }

  /** An assertion line is rejected by every candidate of Test tried before its own keyword. */
  lemma EarlierCandidatesReject(t: Tag, j: nat, lineNo: int, line: string)
    requires MatchKeyword(line, Keyword(t)) && j < TagIndex(t)
    ensures ParseAs(Transitions(Test)[j].cls, lineNo, line).None?
  {
    if j == 0 {
      KeywordRejectsEnd(t, lineNo, line);
    } else {
      var u := TestTag(j);
      KeywordRejectsOtherTag(t, u, lineNo, line);
    }
  }

  /** The tag of the Test candidate at place `j`, the inverse of `TagIndex`. */
  function TestTag(j: nat): (t: Tag)
    requires 1 <= j <= 4
    ensures TagIndex(t) == j
  {
    if j == 1 then Expect else if j == 2 then ExpectNot else if j == 3 then Assert else AssertNot
  }

  /** Inside a test, an assertion line opens an assertion block of its own tag. */
  lemma AssertionLineOpensBlock(lineNo: int, line: string, t: Tag)
    requires MatchKeyword(line, Keyword(t))
    ensures Decide(Test, lineNo, line) == Move(Assertion, Push, AssertionNode(t))
  {
    SkipEarlier(t, 0, lineNo, line);
    Hit(Transitions(Test), TagIndex(t), lineNo, line, AssertionNode(t));
  }

  /** In Test, an assertion line passes every candidate before its own keyword's. */
  lemma {:induction false} SkipEarlier(t: Tag, j: nat, lineNo: int, line: string)
    requires MatchKeyword(line, Keyword(t)) && j <= TagIndex(t)
    ensures TryFrom(Transitions(Test), j, lineNo, line) == TryFrom(Transitions(Test), TagIndex(t), lineNo, line)
    decreases TagIndex(t) - j
  {
    if j < TagIndex(t) {
      EarlierCandidatesReject(t, j, lineNo, line);
      Skip(Transitions(Test), j, lineNo, line);
      SkipEarlier(t, j + 1, lineNo, line);
    }
  }

  /** Inside a block, the end line closes it: the cursor returns to the enclosing node. */
  lemma EndLineClosesBlock(s: State, lineNo: int, line: string)
    requires (s == Test || s == Assertion) && MatchEnd(line)
    ensures Decide(s, lineNo, line) == Move(if s == Test then Start else Test, Pop, EndNode)
  {
    Hit(Transitions(s), 0, lineNo, line, EndNode);
  }

  /**
   * In Test the candidates are End, the four assertion keywords and Code: the end of input
   * rejects, `@}` closes the test, a keyword line opens its assertion, and every other line,
   * a nested `@TEST` or an unknown annotation included, is code.
   */
  lemma DecideTest(lineNo: int, line: string)
    ensures Decide(Test, lineNo, line) ==
      if line == "" then ErrorMove(line)
      else if MatchEnd(line) then Move(Start, Pop, EndNode)
      else match AssertionOf(Some(line))
        case Some(t) => Move(Assertion, Push, AssertionNode(t))
        case None => Move(Test, Append, CodeNode(lineNo + 1))
  {
    if line == "" {
      DecideAtEnd(Test, lineNo);
    } else if MatchEnd(line) {
      EndLineClosesBlock(Test, lineNo, line);
    } else if AssertionOf(Some(line)).Some? {
      AssertionLineOpensBlock(lineNo, line, AssertionOf(Some(line)).value);
    } else {
      var ts := Transitions(Test);
      forall j | 0 <= j < 5
        ensures ParseAs(ts[j].cls, lineNo, line).None?
      {
        if j > 0 {
          assert !IsAssertion(TestTag(j), Some(line));
        }
      }
      SkipTo(ts, 0, 5, lineNo, line);
      Hit(ts, 5, lineNo, line, CodeNode(lineNo + 1));
    }
  }

  /** Outside any test, a non-empty line that is not a TEST line is code, annotations included. */
  lemma StrayAnnotationIsCode(lineNo: int, line: string)
    requires line != "" && MatchTest(line).None?
    ensures Decide(Start, lineNo, line) == Move(Start, Append, CodeNode(lineNo + 1))
  {
    DecideStart(lineNo, line);
  }

  /** Only the end of input read in Start accepts. */
  lemma OnlyEmptyLineAccepts(s: State, lineNo: int, line: string)
    requires !Final(s)
    ensures Decide(s, lineNo, line).next == Accept <==> s == Start && line == ""
  {
    if s == Start {
      DecideStart(lineNo, line);
    } else {
      DecideAllowed(s, lineNo, line);
    }
  }

  // ---------------------------------------------------------------------------------------
  // Steps and runs.

  /** Every step keeps the invariant. */
  lemma {:induction false} NextPreservesValid(input: seq<string>, c: Config)
    requires ValidConfig(input, c)
    ensures ValidConfig(input, Next(input, c))
  {
    if !Final(c.state) {
      var k := c.lineNo + 1;
      var line := LineAt(input, k);
      DecideAllowed(c.state, k, line);
      ShapedWf(c, Decide(c.state, k, line));
      ApplyKeepsShape(c, Decide(c.state, k, line));
      if k > |input| {
        DecideAtEnd(c.state, k);
      }
    }
  }

  /**
   * A step in a non-final state appends exactly one node under the current node, made by
   * the state's recognisers from the next line.
   */
  lemma StepAppendsOneNode(input: seq<string>, c: Config)
    requires ValidConfig(input, c) && !Final(c.state)
    ensures AppendsOne(c, Decide(c.state, c.lineNo + 1, LineAt(input, c.lineNo + 1)), Next(input, c))
  {
    var line := LineAt(input, c.lineNo + 1);
    var m := Decide(c.state, c.lineNo + 1, line);
    StepIs(input, c, line, m);
    ApplyAppendsOneNode(c, m);
  }

  /** Node `i` was made at step `i`, so children come after their parent and siblings in line order. */
  lemma LinesIncreaseDownward(input: seq<string>, c: Config, i: nat, j: nat, l: nat)
    requires ValidConfig(input, c) && i < |c.nodes| && j < l < |c.nodes[i].children|
    ensures
      var cs := c.nodes[i].children;
      cs[j] < |c.nodes| && cs[l] < |c.nodes| &&
      c.nodes[i].lineNo < c.nodes[cs[j]].lineNo < c.nodes[cs[l]].lineNo
  {
    assert ChildLinked(c.nodes, i);
  }

  /**
   * When no input line is empty (as `readline` guarantees), the step that accepts is the
   * one that reads past the last line: the tree then holds the root, one node per line and
   * the EofNode.
   */
  lemma AcceptOnlyAtEnd(input: seq<string>, c: Config)
    requires ValidConfig(input, c) && !Final(c.state) && Next(input, c).state == Accept
    requires forall i | 0 <= i < |input| :: input[i] != ""
    ensures Next(input, c).lineNo == |input| + 1 && |Next(input, c).nodes| == |input| + 2
  {
    var k := c.lineNo + 1;
    var line := LineAt(input, k);
    DecideAllowed(c.state, k, line);
    ShapedWf(c, Decide(c.state, k, line));
    ApplyAppendsOneNode(c, Decide(c.state, k, line));
    if k <= |input| {
      assert line == input[k - 1];
      OnlyEmptyLineAccepts(c.state, k, line);
    }
  }

  /** The measure a step decreases: the lines left to read, or 0 once final. */
  function Measure(input: seq<string>, c: Config): nat {
    if Final(c.state) || c.lineNo > |input| then 0 else |input| + 1 - c.lineNo
  }

  /** A non-final step strictly decreases the measure. */
  lemma NextDecreases(input: seq<string>, c: Config)
    requires ValidConfig(input, c) && !Final(c.state)
    ensures Measure(input, Next(input, c)) < Measure(input, c)
  {
    NextPreservesValid(input, c);
  }

  /** `run`: steps until Accept or Reject. */
  function RunFrom(input: seq<string>, c: Config): (f: Config)
    requires ValidConfig(input, c)
    ensures ValidConfig(input, f) && Final(f.state)
    decreases Measure(input, c)
  {
    if Final(c.state) then c
    else
      NextPreservesValid(input, c);
      NextDecreases(input, c);
      RunFrom(input, Next(input, c))
  }

  /** The number of working steps `run` takes from `c`. */
  function Steps(input: seq<string>, c: Config): nat
    requires ValidConfig(input, c)
    decreases Measure(input, c)
  {
    if Final(c.state) then 0
    else
      NextPreservesValid(input, c);
      NextDecreases(input, c);
      1 + Steps(input, Next(input, c))
  }

  /** Every working step reads one line, so a run takes at most one step per line plus one. */
  lemma {:induction false} StepsReadOneLineEach(input: seq<string>, c: Config)
    requires ValidConfig(input, c)
    ensures RunFrom(input, c).lineNo == c.lineNo + Steps(input, c)
    ensures Steps(input, c) <= |input| + 1 - c.lineNo
    decreases Measure(input, c)
  {
    if !Final(c.state) {
      NextPreservesValid(input, c);
      NextDecreases(input, c);
      StepsReadOneLineEach(input, Next(input, c));
    }
  }

  /**
   * A run over input without empty lines that ends in Accept has read past the last line,
   * and its tree holds the root, one node per line and the EofNode.
   */
  lemma {:induction false} RunAcceptsAtEnd(input: seq<string>, c: Config)
    requires ValidConfig(input, c) && RunFrom(input, c).state == Accept
    requires c.state != Accept || c.lineNo == |input| + 1
    requires forall i | 0 <= i < |input| :: input[i] != ""
    ensures RunFrom(input, c).lineNo == |input| + 1 && |RunFrom(input, c).nodes| == |input| + 2
    decreases Measure(input, c)
  {
    if !Final(c.state) {
      NextPreservesValid(input, c);
      NextDecreases(input, c);
      if Next(input, c).state == Accept {
        AcceptOnlyAtEnd(input, c);
      }
      RunAcceptsAtEnd(input, Next(input, c));
    }
  }

  // ---------------------------------------------------------------------------------------
  // The parser object.

  function Min(a: nat, b: nat): nat {
    if a < b then a else b
  }

  /**
   * The `for` loop of `_step`: try the candidates of state `s` in order and take the move of
   * the first whose recogniser accepts the line; the error move when none does.
   */
  method Classify(s: State, lineNo: int, line: string) returns (move: Move)
    ensures move == Decide(s, lineNo, line)
  {
    var ts := Transitions(s);
    move := ErrorMove(line);
    var found := false;
    var i := 0;
    while i < |ts| && !found
      invariant 0 <= i <= |ts|
      invariant found ==> move == TryFrom(ts, 0, lineNo, line)
      invariant !found ==> TryFrom(ts, i, lineNo, line) == TryFrom(ts, 0, lineNo, line)
      invariant !found ==> move == ErrorMove(line)
      decreases |ts| - i, !found
    {
      var result := ParseAs(ts[i].cls, lineNo, line);
      if result.Some? {
        Hit(ts, i, lineNo, line, result.value);
        move := Move(ts[i].next, ts[i].op, result.value);
        found := true;
      } else {
        Skip(ts, i, lineNo, line);
        i := i + 1;
      }
    }
  }

  /** A working step applies the move decided on the next line, and keeps the invariant. */
  lemma StepIs(input: seq<string>, c: Config, line: string, move: Move)
    requires ValidConfig(input, c) && !Final(c.state) && line == LineAt(input, c.lineNo + 1)
    requires move == Decide(c.state, c.lineNo + 1, line)
    ensures Wf(c, move) && Next(input, c) == Apply(c, move) && ValidConfig(input, Apply(c, move))
  {
    NextPreservesValid(input, c);
    DecideWf(c, line);
  }

  /** `Parser`: the input stream and the automaton's fields. */
  class Parser {
    const input: seq<string>
    var pos: nat
    var state: State
    var nodes: seq<NodeRec>
    var cursor: nat
    var lineNo: nat

    function Current(): Config
      reads this
    {
      Config(state, nodes, cursor, lineNo)
    }

    /** The automaton invariant, with the stream positioned after the lines counted so far. */
    predicate Valid()
      reads this
    {
      ValidConfig(input, Current()) && pos == Min(lineNo, |input|)
    }

    /** `__init__`: remember the stream and reset. */
    constructor(input: seq<string>)
      ensures this.input == input && Valid() && Current() == Initial() && pos == 0
    {
      this.input := input;
      pos := 0;
      state := Start;
      nodes := [NodeRec(RootNode, 0, None, [])];
      cursor := 0;
      lineNo := 0;
    }

    /** `_reset`: state Start, a fresh root as current node, counter 0, stream rewound. */
    method Reset()
      modifies this
      ensures Valid() && Current() == Initial() && pos == 0
    {
      state := Start;
      nodes := [NodeRec(RootNode, 0, None, [])];
      cursor := 0;
      lineNo := 0;
      pos := 0;
      InitialValid(input);
    }

    /** `readline`: the next line and the position after it, or `""` at the end. */
    method ReadLine() returns (line: string)
      requires pos <= |input|
      modifies this
      ensures line == (if old(pos) < |input| then input[old(pos)] else "")
      ensures pos == Min(old(pos) + 1, |input|)
      ensures state == old(state) && nodes == old(nodes) && cursor == old(cursor) && lineNo == old(lineNo)
    {
      if pos < |input| {
        line := input[pos];
        pos := pos + 1;
      } else {
        line := "";
      }
    }

    /**
     * The body of the `for` loop of `_step` once a candidate accepted the line: count the
     * line, append the node to the current node's children, move the cursor as the move says
     * and enter the next state.
     */
    method Attach(move: Move)
      requires Wf(Current(), move)
      modifies this
      ensures Current() == Apply(old(Current()), move) && pos == old(pos)
    {
      lineNo := lineNo + 1;
      var n := |nodes|;
      var parent := nodes[cursor].parent;
      nodes := AppendChild(nodes, cursor, move.kind, lineNo);
      match move.op {
        case Push => cursor := n;
        case Pop =>
          assert ParentLinked(old(nodes), cursor);
          cursor := parent.value;
        case Append =>
      }
      state := move.next;
    }

    /** `_step`: nothing in a final state; otherwise read a line, classify it and attach it. */
    method Step()
      requires Valid()
      modifies this
      ensures Valid() && Current() == Next(input, old(Current()))
    {
      if state == Accept || state == Reject {
        return;
      }
      ghost var c := Current();
      var line := ReadLine();
      var move := Classify(state, lineNo + 1, line);
      StepIs(input, c, line, move);
      Attach(move);
    }

    /**
     * `run`: step until Accept or Reject, answer whether the input was accepted together
     * with the tree, and reset.
     */
    method Run() returns (succeeded: bool, tree: seq<NodeRec>)
      requires Valid()
      modifies this
      ensures succeeded == (RunFrom(input, old(Current())).state == Accept)
      ensures tree == RunFrom(input, old(Current())).nodes
      ensures Valid() && Current() == Initial() && pos == 0
    {
      while state != Accept && state != Reject
        invariant Valid()
        invariant RunFrom(input, Current()) == RunFrom(input, old(Current()))
        decreases Measure(input, Current())
      {
        ghost var c := Current();
        NextDecreases(input, c);
        Step();
      }
      succeeded := state == Accept;
      tree := nodes;
      Reset();
    }
  }

  /** `run` twice on one parser: the reset makes the second run repeat the first. */
  method RunTwice(input: seq<string>) returns (first: (bool, seq<NodeRec>), second: (bool, seq<NodeRec>))
    ensures first == second
    ensures first.0 == (RunFrom(input, Initial()).state == Accept)
  {
    var p := new Parser(input);
    var ok, tree := p.Run();
    first := (ok, tree);
    ok, tree := p.Run();
    second := (ok, tree);
  }
}
