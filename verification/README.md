# gandalf test compiler and geometry vector, modelled in Dafny

This project models two parts of the gandalf repository.

The first part is the small pipeline under `tests/test_compile/`. It reads a C++ source file line by line and finds `@TEST name {` … `@}` blocks. Those blocks hold `@EXPECT {`, `@EXPECT_NOT {`, `@ASSERT {` and `@ASSERT_NOT {` blocks. The parser (`parser.py`) builds a tree from these lines. The test case builder (`test_case_builder.py`) then works out, for each assertion block, which code lines a generated test must contain. The node classes of `ast.py` and the `TestCase` record of `test_case.py` complete this part.

The second part is the integer view of `geo::Vector` in `src/geo/vector.hpp`. It covers the component getters, `dot` and `makeVector`.

Files:

- `wrappers.dfy`: the `Option` type.
- `lines.dfy`: the annotation patterns `^\s*@\s*SUB\s*$`, written as recognisers over characters.
  - Each recogniser is proved equal to a reference description of the lines it accepts: blanks, `@`, blanks, the body, blanks.
  - `\s` is Python 2's six ASCII whitespace characters and `\w` is `[A-Za-z0-9_]`.
- `ast.dfy`: the node classes of `ast.py` and the tree model.
  - Node kinds are values.
  - A tree is an arena: a sequence of node records linked by parent and child indices.
  - Also here: the `__lt__` order, structural equality (as written and as intended), and the `parse` recognisers of `ast.py`.
- `parser.dfy`: `parser.py`.
  - Its own recognisers and the `_state_trans` table.
  - The `_step` transition as a function on configurations, with its invariants.
  - The `Parser` class, whose `Step` and `Run` methods are proved against that function.
- `test_case.dfy`: the `TestCase` record and its `__eq__`.
- `builder.dfy`: `TestCaseBuilder`.
  - The collection of assertions, and the proof that it is in pre-order.
  - The `while cur_parent` walk that gathers baseline code.
  - The stable sort by line number.
- `pipeline.dfy`: the parser and the builder together.
  - The parser lays its tree out in pre-order.
  - So `buildAll` on a parsed tree gives its test cases in line order.
- `vector.dfy`: `Vector<int, N>` as a class over an array.

How the source maps into the model:

- **Node identity.** A node is its index in the arena. Object identity in the source becomes index identity here.
  - The parser stores node `k` for line `k`, so index, creation step and line number agree.
  - The builder accepts any arena that holds one tree (`Ast.TreeShaped`), which takes four conditions:
    - node 0 is the root and has no parent;
    - every other node's parent comes before it in the arena;
    - parent and child links agree both ways: each child points back at its parent, and each node is in its parent's child list;
    - each child list is strictly increasing.
  - Every Python tree can be laid out this way, for instance in pre-order.
- **Input.** The input stream is a sequence of lines, each as `readline` returns it, trailing newline included. Past the end, `readline` returns `""`.
- **Which node classes the builder uses.**
  - `test_case_builder.py` imports `parser` and tests nodes with `isinstance(…, parser.AssertionNode)` and `isinstance(…, parser.CodeNode)` (tests/test_compile/test_case_builder.py:28, 37, 42).
  - parser.py defines no `AssertionNode`. Its four assertion classes subclass `Node` directly (tests/test_compile/parser.py:118-163).
  - Its `CodeNode` takes no `end_line` (tests/test_compile/parser.py:73-76).
  - The builder's test imports parser.py's classes (`from parser import *`, tests/test_compile/test_case_builder_test.py:2) and calls `CodeNode(1, end_line=3)` (tests/test_compile/test_case_builder_test.py:11).
  - Both `AssertionNode` and `end_line` exist only in ast.py (tests/test_compile/ast.py:85-90, 133-172).
  - The model reads the builder over ast.py's class hierarchy. One node type serves the parser and the builder.
- **The parser's automaton** (tests/test_compile/parser.py:214-233):
  - It has three working states, Start, Test and Assertion, and the two final states Accept and Reject.
  - In the Test state an `@}` line closes the block at once (tests/test_compile/parser.py:222).
  - Every non-empty line that no earlier candidate takes becomes its own Code node. Consecutive code lines are not merged, and an annotation line in the wrong place, such as `@EXPECT {` in Start or `@TEST t {` in Test, becomes Code too.
  - Lines keep their newline, so a blank line is a non-empty string and is Code in every working state.
  - Errors produce one generic ErrorNode that keeps the offending line.

## Model

| member | source | states |
|---|---|---|
| Lines.Annotation | tests/test_compile/parser.py:21-23 | The body read from a `\s*@\s*…\s*` line carries no surrounding whitespace |
| Lines.AnnotationOfStripped | tests/test_compile/parser.py:21-23 | Skipping the leading whitespace one character at a time finds the same body as stripping it first and reading the stripped text after the `@` |
| Lines.AnnotationIffSigil | tests/test_compile/parser.py:21-23 | A line has a body exactly when its first character after optional whitespace is `@` |
| Lines.HasSigil | tests/test_compile/ast.py:83 | Defines "`@` after optional whitespace"; `Lines.SigilIffLayout` proves it is the `\s*@.*` pattern |
| Lines.MatchEnd | tests/test_compile/parser.py:88 | Defines the End pattern as "the annotation body is `}`"; `Lines.EndIffLayout` proves it is `^\s*@\s*}\s*$` |
| Lines.MatchKeyword | tests/test_compile/parser.py:119-155 | Defines a keyword pattern as "the body is KW, blanks, `{`"; `Lines.KeywordIffLayout` proves it is `^\s*@\s*KW\s*{\s*$` |
| Lines.MatchTest | tests/test_compile/parser.py:100 | Defines the TEST pattern and its captured name; `Lines.TestIffLayout` proves it is `^\s*@\s*TEST\s*(\w+)\s*{\s*$` |
| Lines.AnnotationIffLayout | tests/test_compile/parser.py:21-23 | A trimmed body `m` is recognised exactly when the line is blanks, `@`, blanks, `m`, blanks — the `^\s*@\s*{}\s*$` template |
| Lines.SigilIffLayout | tests/test_compile/ast.py:83 | A line has a sigil exactly when it is blanks, `@`, then anything — the `\s*@.*` pattern |
| Lines.EndIffLayout | tests/test_compile/parser.py:88 | The End recogniser accepts exactly the lines `\s*@\s*}\s*` |
| Lines.KeywordIffLayout | tests/test_compile/parser.py:119-155 | The keyword recogniser accepts exactly the lines `\s*@\s*KW\s*{\s*` |
| Lines.TestIffLayout | tests/test_compile/parser.py:100 | The TEST recogniser returns `name` exactly when the line is `\s*@\s*TEST\s*NAME\s*{\s*` with `name` a `\w+` word |
| Lines.KeywordsDifferAt | tests/test_compile/parser.py:119-155 | Two keywords that differ at some position never match the same line |
| Lines.KeywordExtendedBy | tests/test_compile/parser.py:119-131 | A keyword and a longer one extending it by a non-blank, non-brace character (EXPECT and EXPECT_NOT) never match the same line |
| Lines.EndExcludesOthers | tests/test_compile/parser.py:88-100 | A line the End pattern matches matches neither a keyword pattern nor the TEST pattern |
| Lines.TestExcludesKeyword | tests/test_compile/parser.py:100-155 | No line matches both the TEST pattern and a keyword pattern not starting with T |
| Lines.AnnotationsHaveSigil | tests/test_compile/parser.py:21-23 | Every line an annotation pattern accepts has a sigil |
| Ast.NewNode | tests/test_compile/ast.py:9-17 | The new node holds its arguments; every given child now points at it; no other node's class, line or children change, and nodes outside the child list are untouched |
| Ast.NewRoot | tests/test_compile/ast.py:75-78 | A root is line 0, has no parent and adopts its children |
| Ast.CodeKind | tests/test_compile/ast.py:85-90 | A code node's `end_line` is the one given, or one past its line when none is given |
| Ast.AppendChild | tests/test_compile/parser.py:285 | Appending a child keeps the arena a tree, adds the node last with the given parent, extends the parent's child list by it and changes nothing else |
| Ast.Less | tests/test_compile/ast.py:19-20 | Defines `__lt__` as "smaller line number"; `Ast.LessIsStrictWeakOrder` states its order properties |
| Ast.Equal | tests/test_compile/ast.py:48-62 | Defines equality with the class compared first; `__ne__` is its negation. `Ast.EqualIffErased` and the three lemmas after it state its properties |
| Ast.LessIsStrictWeakOrder | tests/test_compile/ast.py:19-20 | `__lt__` is irreflexive and transitive, and its ties (same line) are transitive, so sorting by it is well defined |
| Ast.EqualIffErased | tests/test_compile/ast.py:48-59 | Structural equality holds exactly when the two trees agree after dropping what equality ignores (the ErrorNode message) |
| Ast.EqualReflexive | tests/test_compile/ast.py:48-59 | Every tree equals itself |
| Ast.EqualSymmetric | tests/test_compile/ast.py:48-59 | Equality is symmetric |
| Ast.EqualTransitive | tests/test_compile/ast.py:48-59 | Equality is transitive |
| Ast.EqAsWritten | tests/test_compile/ast.py:92-93 | Defines `__eq__` as written for CodeNode; TestNode (lines 121-122) and ErrorNode (lines 198-199) work the same way. Each reads its own attribute on `other` before the class test, so it can raise. `Ast.EqAsWrittenAgrees` and `Ast.EqAsWrittenRaises` state what it returns |
| Ast.NodeEqAsWritten | tests/test_compile/ast.py:48-59 | Defines `Node.__eq__` as written: class, line, child count, then the child loop. `Ast.NodeEqAgrees` states its result |
| Ast.ChildrenEqAsWritten | tests/test_compile/ast.py:56-59 | Defines the child loop with `!=` that stops at the first difference; `Ast.ChildrenEqAgrees` states its result |
| Ast.EqAsWrittenAgrees | tests/test_compile/ast.py:92-93 | When the as-written `__eq__` returns, its answer is structural equality; when it raises, the trees are unequal |
| Ast.NodeEqAgrees | tests/test_compile/ast.py:48-59 | `Node.__eq__` as written agrees with structural equality on nodes whose added attributes agree |
| Ast.ChildrenEqAgrees | tests/test_compile/ast.py:56-59 | The child loop returns True exactly when all remaining child pairs are equal, and raises only when some pair is unequal |
| Ast.EqualNeverRaises | tests/test_compile/ast.py:92-93 | Comparing equal trees with the as-written `__eq__` returns True and never raises |
| Ast.EqualChildrenNeverRaise | tests/test_compile/ast.py:56-59 | Over the children of equal trees the as-written loop returns True |
| Ast.EqAsWrittenRaises | tests/test_compile/ast.py:92-93 | A CodeNode compared with an EndNode, directly or as children of two roots, raises instead of returning False |
| Ast.IsCode | tests/test_compile/ast.py:99-103 | Defines `CodeNode.parse`: a present line that `\s*@.*` does not match. `Ast.CodeIffNoSigil` states which lines that is |
| Ast.IsEnd | tests/test_compile/ast.py:27-31 | Defines `EndNode.parse` through `Node.parse`: a truthy line matching the End pattern. `Ast.EndIff` states which lines that is |
| Ast.TestOf | tests/test_compile/ast.py:125-127 | Defines `TestNode.parse`: the name captured from a truthy TEST line. `Ast.TestIff` states which lines give which name |
| Ast.IsAssertion | tests/test_compile/ast.py:27-31 | Defines the `Node.parse` call for one assertion subclass, made at line 140: a truthy line matching that subclass's keyword pattern. `Ast.AssertionIff` states which lines that is |
| Ast.IsEof | tests/test_compile/ast.py:181-182 | Defines `EofNode.parse`: it accepts only the missing line `None` |
| Ast.AssertionOf | tests/test_compile/ast.py:137-144 | `AssertionNode.parse` gives a tag only when that tag's pattern matches, and gives none only when no tag's pattern matches |
| Ast.AllTagsListed | tests/test_compile/ast.py:139 | The subclass list tried by `AssertionNode.parse` contains all four tags |
| Ast.FirstTag | tests/test_compile/ast.py:139-142 | The loop returns a listed tag whose pattern matches, or nothing when no listed tag's pattern matches |
| Ast.AssertionOfIff | tests/test_compile/ast.py:137-144 | `AssertionNode.parse` yields tag `t` exactly when `t`'s pattern matches the line |
| Ast.CodeIffNoSigil | tests/test_compile/ast.py:98-103 | `CodeNode.parse` accepts a line exactly when it is not blanks, `@`, anything; it rejects the missing line |
| Ast.EmptyLineIsCode | tests/test_compile/ast.py:100 | The empty string is accepted as code by `ast.py` |
| Ast.AnnotationsAreNotCode | tests/test_compile/ast.py:83-127 | A line accepted as End, TEST or an assertion is never code |
| Ast.FalsyLinesMatchNothing | tests/test_compile/ast.py:30 | The missing line and the empty string match no annotation pattern, because of the `if line` guard |
| Ast.EndIff | tests/test_compile/ast.py:106-108 | `EndNode.parse` accepts exactly the lines `\s*@\s*}\s*` |
| Ast.TestIff | tests/test_compile/ast.py:115-127 | `TestNode.parse` yields `name` exactly for the lines `\s*@\s*TEST\s*NAME\s*{\s*` with a word name |
| Ast.NamelessTestRejected | tests/test_compile/ast.py:115 | `@TEST {` with no name is not a TEST line |
| Ast.AssertionIff | tests/test_compile/ast.py:137-172 | `Node.parse` applied to one subclass `sub`, as `AssertionNode.parse` calls it at line 140, accepts exactly the lines `\s*@\s*KW\s*{\s*` of that subclass's keyword |
| Ast.AssertionsExclusive | tests/test_compile/ast.py:147-172 | No line is accepted by two different assertion subclasses |
| Parser.Transitions | tests/test_compile/parser.py:214-233 | Defines `_state_trans`: each state's candidates in the order they are tried. `Parser.DecideStart`, `Parser.DecideTest` and `Parser.DecideAssertion` state what it decides |
| Parser.ParseAs | tests/test_compile/parser.py:79-174 | Defines the `parse` class methods of parser.py. `Parser.ParseAsAnnotation` and `Parser.NothingMatchesEmpty` state their properties |
| Parser.ErrorMove | tests/test_compile/parser.py:298-301 | Defines the fall-through: an ErrorNode holding the line becomes current, and the state becomes Reject |
| Parser.TryFrom | tests/test_compile/parser.py:281-301 | Defines the candidate loop from a given position on. `Parser.TryFromAllowed` and `Parser.Classify` state its result |
| Parser.Decide | tests/test_compile/parser.py:279-301 | Defines the move of a state on a line: the loop from the first candidate. `Parser.DecideAllowed` states its range |
| Parser.TryFromAllowed | tests/test_compile/parser.py:279-301 | The candidate loop, from any position, yields a move of the state's table or the error move |
| Parser.DecideAllowed | tests/test_compile/parser.py:214-233 | Classifying a line in a working state yields one of that state's table rows, with a node of the row's class, or the error move |
| Parser.Initial | tests/test_compile/parser.py:240-245 | The reset configuration is a one-node tree whose root is current |
| Parser.Apply | tests/test_compile/parser.py:285-295 | Applying a move keeps the arena a tree and the cursor inside it |
| Parser.Next | tests/test_compile/parser.py:272-301 | One `_step` from a reachable configuration keeps the arena a tree and the cursor inside it |
| Parser.InitialValid | tests/test_compile/parser.py:240-245 | The reset configuration is reachable for every input |
| Parser.ScopeIff | tests/test_compile/parser.py:214-233 | In a reachable configuration the state says where the cursor is: at the root exactly in Start or Accept, on a top-level TEST exactly in Test, on an assertion exactly in Assertion |
| Parser.ApplyAppendsOneNode | tests/test_compile/parser.py:285-295 | A move counts the line, appends exactly one node, as the last child of the current node, and moves the cursor to that node (Push), to the current node's parent (Pop) or nowhere (Append) |
| Parser.FinalIsFixed | tests/test_compile/parser.py:274-275 | `_step` in Accept or Reject changes nothing |
| Parser.ApplyKeepsLines | tests/test_compile/parser.py:277-285 | After a move node `i` is the one created on line `i`, and the arena has one node per line read plus the root |
| Parser.ApplyInScopePush | tests/test_compile/parser.py:286-287 | A push keeps the state/cursor correspondence |
| Parser.ApplyInScopePop | tests/test_compile/parser.py:288-289 | A pop keeps the state/cursor correspondence |
| Parser.ApplyInScopeAppend | tests/test_compile/parser.py:290-291 | An append keeps the state/cursor correspondence |
| Parser.ApplyKeepsShape | tests/test_compile/parser.py:285-296 | An allowed move keeps every reachable-configuration invariant |
| Parser.DecideStart | tests/test_compile/parser.py:215-219 | In Start: the empty line accepts, a TEST line opens a test, every other line is code |
| Parser.DecideTest | tests/test_compile/parser.py:221-228 | In Test: the end of input rejects with an error node; `@}` pops back to Start; a keyword line pushes its assertion node. Every other non-empty line is appended as Code, including a nested `@TEST t {` and an unknown `@foo {` |
| Parser.ParseAsAnnotation | tests/test_compile/parser.py:94-163 | Every recogniser other than Eof and Code accepts only lines with a sigil |
| Parser.DecideAssertion | tests/test_compile/parser.py:229-232 | In Assertion: `@}` closes the block, any other non-empty line is code, the empty line rejects |
| Parser.NothingMatchesEmpty | tests/test_compile/parser.py:95-163 | The empty line matches no annotation pattern |
| Parser.DecideAtEnd | tests/test_compile/parser.py:298-301 | At end of input, Start accepts with an Eof node and Test or Assertion rejects with an error node holding `""` |
| Parser.NonEmptyNeverRejects | tests/test_compile/parser.py:218-231 | A non-empty line never leads to Reject, because Code takes any such line last |
| Parser.RejectIffEndInBlock | tests/test_compile/parser.py:298-301 | A step rejects exactly when the input ends inside a TEST or assertion block |
| Parser.StartNeverRejects | tests/test_compile/parser.py:215-219 | Start never rejects |
| Parser.PlainLineIsCode | tests/test_compile/parser.py:79-83 | A non-empty line without a sigil is a code line in every working state, which stays unchanged |
| Parser.TestLineOpensBlock | tests/test_compile/parser.py:217 | In Start a TEST line pushes a TestNode carrying its name |
| Parser.EndNotKeyword | tests/test_compile/parser.py:88-163 | A keyword line is not an End line |
| Parser.TagIndex | tests/test_compile/parser.py:221-228 | Each tag's row in the Test table pushes that tag's node and enters Assertion |
| Parser.KeywordRejectsEnd | tests/test_compile/parser.py:222 | The End candidate rejects a keyword line |
| Parser.KeywordRejectsOtherTag | tests/test_compile/parser.py:223-226 | Another tag's candidate rejects a keyword line |
| Parser.EarlierCandidatesReject | tests/test_compile/parser.py:221-226 | Every candidate tried before a keyword's row rejects that keyword's line |
| Parser.SkipEarlier | tests/test_compile/parser.py:221-226 | Trying the candidates in order from any one before a keyword's row ends at that keyword's row |
| Parser.AssertionLineOpensBlock | tests/test_compile/parser.py:223-226 | In Test a keyword line pushes the matching assertion node and enters Assertion |
| Parser.EndLineClosesBlock | tests/test_compile/parser.py:222-230 | `@}` pops out of Test to Start and out of Assertion to Test |
| Parser.StrayAnnotationIsCode | tests/test_compile/parser.py:215-219 | In Start any non-empty line that is not a TEST line, including a stray `@}` or `@EXPECT {`, is taken as code |
| Parser.OnlyEmptyLineAccepts | tests/test_compile/parser.py:216 | A step accepts exactly when the state is Start and the line is empty |
| Parser.NextPreservesValid | tests/test_compile/parser.py:272-301 | `_step` keeps a configuration reachable |
| Parser.StepAppendsOneNode | tests/test_compile/parser.py:277-301 | A working step counts the line, appends exactly the classified node (or the error node) as the last child of the current node, moves the cursor as the move says and leaves every other node unchanged |
| Parser.LinesIncreaseDownward | tests/test_compile/parser.py:277-285 | Children come after their parent and in increasing line order |
| Parser.AcceptOnlyAtEnd | tests/test_compile/parser.py:216 | When every line read is non-empty (as `readline` gives them), acceptance happens only after the last line, with one node per line plus root and Eof |
| Parser.NextDecreases | tests/test_compile/parser.py:303-305 | Each working step brings the loop closer to its end |
| Parser.RunFrom | tests/test_compile/parser.py:303-305 | The `run` loop ends in Accept or Reject in a reachable configuration |
| Parser.StepsReadOneLineEach | tests/test_compile/parser.py:303-305 | Each step of the `run` loop reads one line, so the run ends after at most one step per input line plus one |
| Parser.RunAcceptsAtEnd | tests/test_compile/parser.py:303-308 | When no line is empty, a run that accepts has read every line and the end of input, and its tree holds the root, one node per line and the EofNode |
| Parser.Parser.constructor | tests/test_compile/parser.py:235-238 | A new parser is at the start of its stream in the reset configuration |
| Parser.Parser.Reset | tests/test_compile/parser.py:240-245 | `_reset` rewinds the stream and restores the reset configuration |
| Parser.Parser.ReadLine | tests/test_compile/parser.py:278 | `readline` returns the next line or `""` at the end, advances by one line at most and touches no automaton field |
| Parser.Classify | tests/test_compile/parser.py:279-301 | The candidate loop of `_step` returns exactly the move `Decide` specifies: the first accepting candidate's, or the error move |
| Parser.StepIs | tests/test_compile/parser.py:277-301 | A working step applies the move decided on the next line, that move can be applied, and the result is reachable |
| Parser.Parser.Attach | tests/test_compile/parser.py:284-295 | Counting the line and attaching the decided node turns the fields into the configuration `Apply` describes, leaving the stream alone |
| Parser.Parser.Step | tests/test_compile/parser.py:272-301 | The imperative `_step` turns the fields into exactly the next configuration of the transition function |
| Parser.Parser.Run | tests/test_compile/parser.py:303-318 | `run` reports success exactly when the run accepts, returns the run's tree and leaves the parser reset |
| Parser.RunTwice | tests/test_compile/parser.py:316-318 | Because `run` resets, running a parser twice gives the same result both times |
| TestCases.NodeEq | tests/test_compile/test_case.py:10 | Defines `==` on two nodes as the intended tree equality `Ast.Equal`. The `==` as written raises when the two trees differ in class at a node whose class adds an attribute; `Ast.EqAsWrittenAgrees` shows the two agree whenever the written one returns |
| TestCases.ListEq | tests/test_compile/test_case.py:11-12 | Defines `==` on two Python lists of nodes: equal lengths and equal nodes position by position. `TestCases.ListEqIffShapes` states it |
| TestCases.SameCase | tests/test_compile/test_case.py:8-13 | Defines `TestCase.__eq__`. `TestCases.SameCaseIffShapes`, `TestCases.SameCaseIsEquivalence` and `TestCases.OrderMatters` state its properties |
| TestCases.ListEqIffShapes | tests/test_compile/test_case.py:8-13 | Two lists of nodes are equal exactly when their erased trees are equal position by position |
| TestCases.SameCaseIffShapes | tests/test_compile/test_case.py:8-13 | Two test cases are equal exactly when their assertions and both code lists have the same erased trees |
| TestCases.SameCaseIsEquivalence | tests/test_compile/test_case.py:8-13 | Test case equality is reflexive, symmetric and transitive |
| TestCases.OrderMatters | tests/test_compile/test_case.py:11-12 | Lists compare in order: two nodes on different lines, in opposite orders, make unequal test cases |
| Builder.CodesAmong | tests/test_compile/test_case_builder.py:36-37 | The filter keeps exactly the Code nodes of the list |
| Builder.CodesAmongIncreasing | tests/test_compile/test_case_builder.py:36-37 | The filter keeps the list's order |
| Builder.ImmediateChildCodes | tests/test_compile/test_case_builder.py:34-37 | `_immediateChildCodes` yields exactly the Code nodes whose parent is the given node, in child order |
| Builder.DescendantAssertions | tests/test_compile/test_case_builder.py:25-32 | Every collected node is an assertion node of the tree. `Builder.DescendantAssertionsIff` states which nodes are collected, and `Builder.DescendantAssertionsPreOrder` states their order |
| Builder.DescendantAssertionsIff | tests/test_compile/test_case_builder.py:25-32 | `_descendantAssertions` collects exactly the assertion nodes at or below the start node. The order is pre-order, stated by `Builder.DescendantAssertionsPreOrder` |
| Builder.ChildAssertionsIff | tests/test_compile/test_case_builder.py:30-31 | The child loop collects exactly the assertions under the remaining children |
| Builder.ChildAssertions | tests/test_compile/test_case_builder.py:30-31 | The child loop collects only assertion nodes of the tree |
| Builder.DescendantAssertionsDistinct | tests/test_compile/test_case_builder.py:25-32 | No assertion is collected twice, so `buildAll` makes one test case per assertion |
| Builder.ChildAssertionsDistinct | tests/test_compile/test_case_builder.py:30-31 | The child loop collects no node twice, because sibling subtrees are disjoint |
| Builder.DescendantAssertionsPreOrder | tests/test_compile/test_case_builder.py:25-32 | `_descendantAssertions` returns its assertions in pre-order. The start node comes before every node below it, and a node under an earlier child comes before a node under a later child |
| Builder.ChildAssertionsPreOrder | tests/test_compile/test_case_builder.py:30-31 | The child loop returns the assertions of the remaining children's subtrees in pre-order, left to right |
| Builder.DescendantAssertionsIncreasing | tests/test_compile/test_case_builder.py:25-32 | In an arena laid out in pre-order, as the parser lays its trees out, the collected assertions are in strictly increasing index order |
| Builder.AncestorCodes | tests/test_compile/test_case_builder.py:44-49 | The unsorted baseline names only nodes of the tree; `Builder.AncestorCodesIff` states exactly which |
| Builder.AncestorCodesIff | tests/test_compile/test_case_builder.py:44-49 | The walk from a node to the root gathers exactly the Code nodes whose parent is that node or one of its ancestors |
| Builder.InsertByLine | tests/test_compile/test_case_builder.py:54-55 | One insertion step adds exactly the inserted node to the list's multiset |
| Builder.InsertKeepsSorted | tests/test_compile/test_case_builder.py:54-55 | Inserting into a list sorted by line keeps it sorted |
| Builder.SortByLine | tests/test_compile/test_case_builder.py:54-55 | `sort()` yields a permutation of the list, sorted by line number |
| Builder.InsertStable | tests/test_compile/test_case_builder.py:54-55 | Inserting into a sorted list puts the node after every node already on its line, and the other lines' nodes keep their order |
| Builder.SortStable | tests/test_compile/test_case_builder.py:54-55 | The sort is stable: on every line, the nodes keep their order from before sorting, as Python's `list.sort` guarantees for nodes `__lt__` ties |
| Builder.CaseFor | tests/test_compile/test_case_builder.py:41-57 | The test case is for the given assertion and names only nodes of the tree |
| Builder.CaseForShape | tests/test_compile/test_case_builder.py:51-57 | Both lists are sorted by line, and the full list is the baseline plus the assertion's own Code children, no node more or less |
| Builder.BaselineIff | tests/test_compile/test_case_builder.py:44-54 | The baseline holds exactly the Code nodes whose parent is a strict ancestor of the assertion |
| Builder.CodesIff | tests/test_compile/test_case_builder.py:51-55 | The full list holds exactly the baseline nodes and the assertion's own Code children |
| Builder.SiblingsShareBaseline | tests/test_compile/test_case_builder.py:44-54 | Two assertions with the same parent get the same baseline. It holds every Code sibling of theirs, whether on an earlier or a later line |
| Builder.CollectBaseline | tests/test_compile/test_case_builder.py:44-49 | The `while cur_parent` loop gathers the Code children of every node from the start node up to the root |
| Builder.BuildTestCase | tests/test_compile/test_case_builder.py:40-57 | `_buildTestCase` returns the test case `CaseFor` describes |
| Builder.BuildAll | tests/test_compile/test_case_builder.py:20-23 | `buildAll` returns one test case per collected assertion, in collection order, which is pre-order (`Builder.DescendantAssertionsPreOrder`) and, on a parsed tree, line order (`Pipeline.ParsedAssertionsInLineOrder`) |
| Pipeline.LayoutAfterAppend | tests/test_compile/parser.py:285 | Appending a child to a node on the rightmost path keeps the arena laid out in pre-order |
| Pipeline.SpineAfterPush | tests/test_compile/parser.py:286-287 | After a Push, the new current node is on the rightmost path |
| Pipeline.SpineAfterPop | tests/test_compile/parser.py:288-289 | After a Pop, the new current node, the old one's parent, is on the rightmost path |
| Pipeline.SpineAfterAppend | tests/test_compile/parser.py:290-291 | After an Append, the current node stays on the rightmost path |
| Pipeline.ApplyKeepsLaidOut | tests/test_compile/parser.py:285-295 | Every move keeps the tree in pre-order layout, with the current node on the rightmost path |
| Pipeline.RunKeepsLaidOut | tests/test_compile/parser.py:303-305 | The `run` loop keeps the pre-order layout and the rightmost-path cursor to the end |
| Pipeline.ParsedTreeInPreOrder | tests/test_compile/parser.py:303-305 | Every tree `run` builds is laid out in pre-order |
| Pipeline.ParsedAssertionsInLineOrder | tests/test_compile/test_case_builder.py:20-32 | On a tree `run` built, `_descendantAssertions` returns the assertions in strictly increasing line order, so `buildAll` returns the test cases in that order too |
| Vectors.DotSpec | src/geo/vector.hpp:45-53 | Defines the sum of the componentwise products, added front to back. `Vectors.DotEmpty`, `Vectors.DotSnoc` and the lemmas after them state its properties |
| Vectors.DotEmpty | src/geo/vector.hpp:47 | Vectors of length zero have dot product zero |
| Vectors.DotSnoc | src/geo/vector.hpp:48-50 | One more component adds one product to the sum |
| Vectors.DotSymmetric | src/geo/vector.hpp:45-53 | `dot(a, b) == dot(b, a)` |
| Vectors.DotSelfNonNegative | src/geo/vector.hpp:45-53 | `dot(a, a) >= 0` |
| Vectors.DotSelfZeroIff | src/geo/vector.hpp:45-53 | `dot(a, a) == 0` exactly when every component is zero |
| Vectors.DotExamples | src/geo/vector_test_unit.cpp:68-69 | The integer test cases: `(4,-2)·(-2,-3) == -2` and `(4,2)·(2,3) == 14` |
| Vectors.Vector.constructor | src/geo/vector.hpp:59-60 | The components are the given values, in order |
| Vectors.Vector.X | src/geo/vector.hpp:13-16 | `x()` needs `N > 0` and reads component 0 |
| Vectors.Vector.Y | src/geo/vector.hpp:21-24 | `y()` needs `N > 1` and reads component 1 |
| Vectors.Vector.Z | src/geo/vector.hpp:29-32 | `z()` needs `N > 2` and reads component 2 |
| Vectors.Vector.W | src/geo/vector.hpp:37-40 | `w()` needs `N > 3` and reads component 3 |
| Vectors.Vector.SetX | src/geo/vector.hpp:13-16 | Writing through `x()` changes component 0 and no other, and `x()` then reads the new value |
| Vectors.Vector.SetY | src/geo/vector.hpp:21-24 | Writing through `y()` changes component 1 and no other |
| Vectors.Vector.SetZ | src/geo/vector.hpp:29-32 | Writing through `z()` changes component 2 and no other |
| Vectors.Vector.SetW | src/geo/vector.hpp:37-40 | Writing through `w()` changes component 3 and no other |
| Vectors.Vector.ConstXAsWritten | src/geo/vector.hpp:17-19 | Defines the const `x()` as written: each call calls itself, and the fuel counts the calls. `Vectors.Vector.ConstXNeverReturns` states that no call depth returns |
| Vectors.Vector.ConstXNeverReturns | src/geo/vector.hpp:17-19 | The const `x()` as written calls itself and returns for no call depth |
| Vectors.Vector.ConstX | src/geo/vector.hpp:17-19 | The const getter as intended reads the same component as `x()` |
| Vectors.MakeVector | src/geo/vector.hpp:57-61 | `makeVector` needs at least one argument, since with none `std::common_type_t<>` names no type. It returns a new vector with as many components as arguments, in argument order |
| Vectors.Dot | src/geo/vector.hpp:45-53 | The loop returns the sum of the componentwise products |
| Vectors.DotTestCases | src/geo/vector_test_unit.cpp:68-69 | `makeVector` followed by `dot` gives -2 and 14 on the two integer test cases |

## Left out

- Stream I/O: the input file object, `tell` and `seek` are modelled as a sequence of lines and a position. The other printing members are not modelled: `__str__`, `tree_string`, `print_tree` and the parser's `__str__`.
- The error report of `run` (tests/test_compile/parser.py:310-311) is not modelled. Printing is I/O. Also, as written, `self._node is ErrorNode` compares an instance with its class, so it is never true and nothing would be printed.
- The text of an ErrorNode's `msg` is not modelled. The node keeps the offending line, and ast.py's `message` argument is kept as an optional cause.
- The builder is modelled over ast.py's class hierarchy, not over parser.py's. The parser.py shown has no `AssertionNode`, and its `CodeNode` takes no `end_line`. Read literally, the `isinstance(…, parser.AssertionNode)` of tests/test_compile/test_case_builder.py:28, 42 raises AttributeError. The test's `CodeNode(1, end_line=3)` (tests/test_compile/test_case_builder_test.py:11) raises TypeError. Either failure comes before anything is built. The model follows the evident intent: the builder reads ast.py's `AssertionNode` and `CodeNode` kinds.
- The parser's code nodes carry an `end_line` although parser.py's CodeNode has none. It is set to ast.py's default of one past the line, so one node type serves both files. The equality of parser.py's own node classes (tests/test_compile/parser.py:44-58) is not modelled separately; `Ast.Equal` models ast.py's.
- Builder.CaseFor: the `assert isinstance(…, AssertionNode)` of `_buildTestCase` is a precondition of `Builder.BuildTestCase`. The failing assertion is not modelled as an exception.
- The expected tree of tests/test_compile/test_case_builder_test.py is not replayed as a concrete example. Its computation is too costly for the verifier. The general lemmas `Builder.BaselineIff`, `Builder.CodesIff` and `Builder.CaseForShape` describe its result.
- The expectations of tests/test_compile/parser_test.py are not replayed, and several of them contradict parser.py. It expects a Reject with an ErrorNode for a test with no assertion (tests/test_compile/parser_test.py:21-37), while parser.py's own self-test expects that input to be accepted (tests/test_compile/parser.py:341-359). It expects an ErrorNode for `@EXPECT {` outside a test (tests/test_compile/parser_test.py:154-169), while parser.py takes that line as Code (`Parser.StrayAnnotationIsCode`). The model follows parser.py.
- `ExpectNode.parse` and the other concrete assertion classes inherit `AssertionNode.parse` (tests/test_compile/ast.py:137-144), which loops over the class's own subclasses. These classes have none, so called directly they return None for every line. Nothing in the modelled files calls them so; `Ast.IsAssertion` models the `Node.parse` call made for each subclass at line 140.
- Vectors.Dot: the accumulator is declared as `T sum();`, which declares a function, not a variable. As written, `sum += …` does not compile. The model uses the evidently intended zero-initialised accumulator.
- Vectors.Dot: the component type is unbounded `int`. Fixed-width overflow of the C++ integer types and all `float`/`double` instantiations are not modelled.
- Vectors.Vector.ConstX: only `x() const` is modelled as written and as intended. `y() const`, `z() const` and `w() const` have the same self-call and are not repeated.
- The `static_assert`s of the getters are compile-time checks. They are modelled as preconditions.
- `V_`, `forEachComponent` and the `Vector_shorthand` namespace are used by src/geo/vector_test_unit.cpp but defined in none of the files modelled. `V_` is read as `makeVector`.

## Findings

| source | as written | input that shows it | evidently intended | confidence | as-written member | corrected member |
|---|---|---|---|---|---|---|
| tests/test_compile/ast.py:92-93 | `CodeNode.__eq__` reads `other.end_line` before `Node.__eq__` checks the class. `TestNode.__eq__` (121-122) and `ErrorNode.__eq__` (198-199) do the same with `name` and `line`, as do parser.py's `TestNode.__eq__` and `ErrorNode.__eq__` (tests/test_compile/parser.py:106-107, 186-187). | `CodeNode(1) == EndNode(1)` raises AttributeError instead of returning False. So does comparing two roots whose first children are such a pair. | Compare the classes first and return False when they differ. | high, not executed | Ast.EqAsWritten, Ast.EqAsWrittenRaises | Ast.Equal, Ast.EqualNeverRaises, Ast.EqAsWrittenAgrees |
| src/geo/vector.hpp:17-19 | `T const &x() const { return x(); }` calls `x()` on a const object. That resolves to itself, so it recurses without end. `y`, `z` and `w` (25-27, 33-35, 41-43) are the same. | Any call of `x()` on a `Vector const &`. | Return component 0, as the non-const overload does. | high, not executed | Vectors.Vector.ConstXAsWritten, Vectors.Vector.ConstXNeverReturns | Vectors.Vector.ConstX |
