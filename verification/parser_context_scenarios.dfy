/** Concrete stacks for the label, loop and function situations the parser meets,
    and what the context answers on each. Node ids are positions, so every stack
    here is free of duplicates. */
module ParserContextScenarios {
  import opened ContextNodes
  import opened ContextScan
  import opened ParserContext
  import opened ParserContextLemmas

  /** A function node: never a label or a jump target. */
  function FunctionOf(id: nat, arrow: bool, coverArrowHead: bool): (n: Node)
    ensures n.isFunction && n.id == id && !n.isLabel && !n.isClass
    ensures forall t: Target :: !IsEvent(n, t)
  {
    Node(id, true, arrow, coverArrowHead, {}, false, false, false, false, false, false, "", false,
         true, ScopeRef(id), [])
  }

  /** A block: a `break` target; a source block also resets a `continue` search. */
  function BlockOf(id: nat, synthetic: bool): (n: Node)
    ensures !n.isFunction && n.id == id && !n.isLabel && !n.isLoop
    ensures IsEvent(n, BreakTarget) && !ResetsCandidate(n, BreakTarget)
    ensures IsEvent(n, ContinueTarget) <==> !synthetic
    ensures ResetsCandidate(n, ContinueTarget) <==> !synthetic
    ensures !n.breakableWithoutLabel
  {
    Node(id, false, false, false, {}, true, synthetic, false, true, false, false, "", false,
         true, ScopeRef(id), [])
  }

  /** A loop: the target of either jump, labelled or not. */
  function LoopOf(id: nat): (n: Node)
    ensures !n.isFunction && n.id == id && !n.isLabel && n.isLoop && n.breakableWithoutLabel
    ensures forall t: Target :: IsEvent(n, t) && !ResetsCandidate(n, t)
  {
    Node(id, false, false, false, {}, false, false, true, true, true, false, "", false,
         false, ScopeRef(id), [])
  }

  /** A label: invisible to everything but findLabel. */
  function LabelOf(id: nat, name: string): (n: Node)
    ensures !n.isFunction && n.id == id && n.isLabel && n.labelName == name && !n.isLoop
    ensures forall t: Target :: !IsEvent(n, t)
    ensures !n.breakableWithoutLabel && !n.isBreakable
  {
    Node(id, false, false, false, {}, false, false, false, false, false, true, name, false,
         false, ScopeRef(id), [])
  }

  /** `L1: L2: for (;;) { continue L1; }` inside a function, parsed up to the
      `continue`. */
  function ChainedLabels(): seq<Node> {
    [FunctionOf(0, false, false), LabelOf(1, "L1"), LabelOf(2, "L2"), LoopOf(3), BlockOf(4, false)]
  }

  /** In each scenario below the outermost node is the only function, so the
      function-bounded scans cover everything above it. */
  lemma OuterFunctionBound(s: seq<Node>)
    requires 0 < |s| && s[0].isFunction && !s[0].isCoverArrowHead
    requires forall k :: 0 < k < |s| ==> !s[k].isFunction && s[k].id == k
    requires s[0].id == 0
    ensures GetCurrentFunction(s) == Some(0)
    ensures FunctionBound(s) == 0
  {
    InnermostUnique(s, -1, |s| - 1, Query(FunctionNode, NotCoverArrowHead), Some(0));
  }

  /** The outer label is found, the inner one not hiding it. */
  lemma OuterLabelIsFound(s: seq<Node>)
    requires s == ChainedLabels()
    ensures FindLabel(s, "L1") == Some(1)
  {
    OuterFunctionBound(s);
    assert "L1" != "L2" by { assert "L1"[1] != "L2"[1]; }
    InnermostUnique(s, 0, 4, Query(LabelNode, Named("L1")), Some(1));
  }

  /** The inner label is found, nearer the loop than the outer one. */
  lemma InnerLabelIsFound(s: seq<Node>)
    requires s == ChainedLabels()
    ensures FindLabel(s, "L2") == Some(2)
  {
    OuterFunctionBound(s);
    InnermostUnique(s, 0, 4, Query(LabelNode, Named("L2")), Some(2));
  }

  /** Above L1 only L2 comes before the loop, and L2 changes no candidate. */
  lemma LoopFollowsLabels(s: seq<Node>)
    requires s == ChainedLabels()
    ensures forall k :: 1 < k < 3 ==> !IsEvent(s[k], ContinueTarget)
    ensures IsEvent(s[3], ContinueTarget) && !ResetsCandidate(s[3], ContinueTarget)
  {
  }

  /** The outer label resolves to the loop through the inner one. */
  lemma OuterLabelReachesLoop(s: seq<Node>)
    requires s == ChainedLabels()
    ensures GetContinueTo(s, Some("L1")) == Some(3)
  {
    OuterLabelIsFound(s);
    LoopFollowsLabels(s);
    LabelledItemFound(s, "L1", ContinueTarget, 3);
  }

  /** The inner label resolves to the loop it wraps. */
  lemma InnerLabelReachesLoop(s: seq<Node>)
    requires s == ChainedLabels()
    ensures GetContinueTo(s, Some("L2")) == Some(3)
  {
    InnerLabelIsFound(s);
    LabelledItemFound(s, "L2", ContinueTarget, 3);
  }

  /** The unlabelled `continue` and `break` also reach the loop. */
  lemma ChainedLabelsUnlabelledJumps()
    ensures GetContinueTo(ChainedLabels(), None) == Some(3)
    ensures GetBreakable(ChainedLabels(), None) == Some(3)
  {
    var s := ChainedLabels();
    OuterFunctionBound(s);
    InnermostUnique(s, 0, 4, Query(LoopNode, Every), Some(3));
    InnermostUnique(s, 0, 4, Query(BreakableNode, UnlabelledBreak), Some(3));
  }

  /** `L: { for (;;) { continue L; } }` parsed up to the `continue`. */
  function LabelledBlock(): seq<Node> {
    [FunctionOf(0, false, false), LabelOf(1, "L"), BlockOf(2, false), LoopOf(3), BlockOf(4, false)]
  }

  /** The label wraps a source block, so the `continue` has no target although a
      loop lies inside; `break L` leaves the block. */
  lemma LabelOnBlockIsNoContinueTarget()
    ensures GetContinueTo(LabelledBlock(), Some("L")) == None
    ensures GetBreakable(LabelledBlock(), Some("L")) == Some(2)
  {
    var s := LabelledBlock();
    OuterFunctionBound(s);
    InnermostUnique(s, 0, 4, Query(LabelNode, Named("L")), Some(1));
    ContinueBlockedBySourceBlock(s, "L", 2);
    LabelledItemFound(s, "L", BreakTarget, 2);
  }

  /** A label wrapping a statement through a synthetic block does not hide the
      loop: `L: for (;;) { continue L; }` with the implicit block. */
  lemma SyntheticBlockIsTransparent()
    ensures var s := [FunctionOf(0, false, false), LabelOf(1, "L"), BlockOf(2, true),
                      LoopOf(3), BlockOf(4, false)];
            GetContinueTo(s, Some("L")) == Some(3)
  {
    var s := [FunctionOf(0, false, false), LabelOf(1, "L"), BlockOf(2, true),
              LoopOf(3), BlockOf(4, false)];
    OuterFunctionBound(s);
    InnermostUnique(s, 0, 4, Query(LabelNode, Named("L")), Some(1));
    LabelledItemFound(s, "L", ContinueTarget, 3);
  }

  /** `function f() { L: while (1) { function g() { continue L; } } }`: inside g the
      label and the loop of f are out of reach. */
  lemma LabelsDoNotCrossFunctions()
    ensures var s := [FunctionOf(0, false, false), LabelOf(1, "L"), LoopOf(2), BlockOf(3, false),
                      FunctionOf(4, false, false), BlockOf(5, false)];
            && FindLabel(s, "L") == None
            && GetContinueTo(s, Some("L")) == None
            && GetContinueTo(s, None) == None
            && GetBreakable(s, None) == None
  {
    var s := [FunctionOf(0, false, false), LabelOf(1, "L"), LoopOf(2), BlockOf(3, false),
              FunctionOf(4, false, false), BlockOf(5, false)];
    assert GetCurrentFunction(s) == Some(4);
    assert FunctionBound(s) == 4;
    LabelledItemLiesInsideLabel(s, "L", ContinueTarget);
  }

  /** While a parenthesised expression is provisionally an arrow head, the current
      function is the one around it, yet a flag set now lands on the arrow head;
      once the head is confirmed it is the current function. */
  lemma CoverArrowHeadIsSkippedButFlagged(flag: FlagWord)
    ensures var s := [FunctionOf(0, false, false), BlockOf(1, false), FunctionOf(2, true, true)];
            && GetCurrentFunction(s) == Some(0)
            && SetCurrentFunctionFlag(s, flag).1 == Some(2)
            && flag <= SetCurrentFunctionFlag(s, flag).0[2].flags
            && SetCurrentFunctionFlag(s, flag).0[0] == s[0]
            && GetCurrentFunction(s[2 := s[2].(isCoverArrowHead := false)]) == Some(2)
            && GetCurrentNonArrowFunction(s) == Some(0)
  {
  }

  /** With one function open, propagating flags changes nothing; with two, the
      enclosing one receives the transferred flags. */
  lemma PropagateScenarios(transfer: (FlagWord, FlagWord) -> FlagWord)
    ensures var one := [FunctionOf(0, false, false), BlockOf(1, false)];
            PropagateFunctionFlags(one, transfer) == one
    ensures var two := [FunctionOf(0, false, false), BlockOf(1, false), FunctionOf(2, false, false)];
            PropagateFunctionFlags(two, transfer) ==
              two[0 := two[0].(flags := transfer(two[2].flags, two[0].flags))]
  {
    var one := [FunctionOf(0, false, false), BlockOf(1, false)];
    PropagateNeedsTwoFunctions(one, transfer);
  }
}
