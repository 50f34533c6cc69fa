/** Properties of the lexical-context stack that relate several operations:
    push/pop round trips, the bounded iterator, the labelled search, and the
    function-flag updates. */
module ParserContextLemmas {
  import opened ContextNodes
  import opened ContextScan
  import opened ParserContext

  // ---------------------------------------------------------------------------
  // Push and pop
  // ---------------------------------------------------------------------------

  /** Popping right after a push hands back the pushed node and the previous
      contents, whatever node is named as the expected one. */
  lemma PushThenPopRestores(a: ArrayStack, node: Node, expected: Node)
    requires Valid(a) && !OnStack(Elements(a), node)
    ensures var b := Push(a, node).0;
            && Pop(b, expected).1 == node
            && Elements(Pop(b, expected).0) == Elements(a)
  {
  }

  /** A pushed node is on the stack and on top; once popped it is gone. */
  lemma ContainsAfterPushNotAfterPop(a: ArrayStack, node: Node, expected: Node)
    requires Valid(a) && !OnStack(Elements(a), node)
    ensures OnStack(Elements(Push(a, node).0), node)
    ensures Peek(Push(a, node).0) == node
    ensures !OnStack(Elements(Pop(Push(a, node).0, expected).0), node)
  {
    var e := Elements(Push(a, node).0);
    assert e[|e| - 1] == node;
  }

  /** The parser pushing each of `ns` in order. */
  function PushAll(a: ArrayStack, ns: seq<Node>): (r: ArrayStack)
    requires Valid(a) && UniqueIds(Elements(a) + ns)
    ensures Valid(r)
    ensures Elements(r) == Elements(a) + ns
    decreases |ns|
  {
    if |ns| == 0 then
      assert Elements(a) + ns == Elements(a);
      a
    else
      var e := Elements(a);
      assert !OnStack(e, ns[0]) by {
        forall i | 0 <= i < |e|
          ensures e[i].id != ns[0].id
        {
          assert (e + ns)[i] == e[i] && (e + ns)[|e|] == ns[0];
        }
      }
      var b := Push(a, ns[0]).0;
      assert Elements(b) == e + [ns[0]];
      assert Elements(b) + ns[1..] == e + ns;
      PushAll(b, ns[1..])
  }

  /** The parser popping `k` times. */
  function PopTimes(a: ArrayStack, k: nat): (r: ArrayStack)
    requires Valid(a) && k <= a.sp
    ensures Valid(r)
    ensures Elements(r) == Elements(a)[..a.sp - k]
    decreases k
  {
    if k == 0 then a
    else
      var b := Pop(a, Peek(a)).0;
      var r := PopTimes(b, k - 1);
      assert Elements(b)[..b.sp - (k - 1)] == Elements(a)[..a.sp - k];
      r
  }

  /** Matched pushes and pops, however many (the array grows past its initial
      depth on the way), give back the contents the stack started with. */
  lemma PushAllThenPopAllRestores(a: ArrayStack, ns: seq<Node>)
    requires Valid(a) && UniqueIds(Elements(a) + ns)
    ensures |Elements(PushAll(a, ns))| == |Elements(a)| + |ns|
    ensures Elements(PopTimes(PushAll(a, ns), |ns|)) == Elements(a)
  {
    var b := PushAll(a, ns);
    assert (Elements(a) + ns)[..|Elements(a)|] == Elements(a);
  }

  /** getLastStatement sees the statements of the node just pushed, and after it is
      popped again it sees what it saw before. */
  lemma LastStatementFollowsPushAndPop(a: ArrayStack, node: Node, expected: Node)
    requires Valid(a) && !OnStack(Elements(a), node)
    ensures GetLastStatement(Elements(Push(a, node).0)) ==
            (if |node.statements| == 0 then None else Some(node.statements[|node.statements| - 1]))
    ensures GetLastStatement(Elements(Pop(Push(a, node).0, expected).0)) == GetLastStatement(Elements(a))
  {
    PushThenPopRestores(a, node, expected);
  }

  /** An appended statement is the last one; a prepended statement is the last one
      only when the list was empty. */
  lemma LastStatementAfterAppendAndPrepend(s: seq<Node>, st: Statement)
    requires |s| > 0
    ensures GetLastStatement(AppendStatement(s, st)) == Some(st)
    ensures GetLastStatement(PrependStatement(s, st)) ==
            if GetLastStatement(s).None? then Some(st) else GetLastStatement(s)
  {
    var before := s[|s| - 1].statements;
    var pre := PrependStatement(s, st)[|s| - 1].statements;
    if |before| > 0 {
      assert pre[|pre| - 1] == pre[1..][|before| - 1];
    }
  }

  /** Statements recorded while a construct is open travel with it: the node that
      `pop` hands back carries them, and the constructs below are as before. */
  lemma StatementsReachPoppedNode(a: ArrayStack, node: Node, st: Statement, expected: Node)
    requires Valid(a) && !OnStack(Elements(a), node)
    ensures var b := Push(a, node).0;
            var appended := Pop(WithElements(b, AppendStatement(Elements(b), st)), expected);
            && appended.1 == node.(statements := node.statements + [st])
            && Elements(appended.0) == Elements(a)
    ensures var b := Push(a, node).0;
            var prepended := Pop(WithElements(b, PrependStatement(Elements(b), st)), expected);
            && prepended.1 == node.(statements := [st] + node.statements)
            && Elements(prepended.0) == Elements(a)
  {
  }

  /** A flag set while a function is innermost lands on that function, and the
      node `pop` hands back when the function closes carries it. */
  lemma FlagReachesPoppedFunction(a: ArrayStack, f: Node, flag: FlagWord, expected: Node)
    requires Valid(a) && !OnStack(Elements(a), f) && f.isFunction
    ensures var b := Push(a, f).0;
            var flagged := SetCurrentFunctionFlag(Elements(b), flag);
            var popped := Pop(WithElements(b, flagged.0), expected);
            && flagged.1 == Some(|Elements(a)|)
            && DiffersOnlyInFlags(popped.1, f)
            && IsUnionOf(popped.1.flags, f.flags, flag)
            && Elements(popped.0) == Elements(a)
  {
  }

  /** The capability tests never look at a node's statements. */
  lemma MatchesIgnoresStatements(n: Node, body: seq<Statement>, q: Query)
    ensures Matches(n.(statements := body), q) == Matches(n, q)
  {
    var m := n.(statements := body);
    assert IsA(m, q.cls) == IsA(n, q.cls);
    assert Passes(m, q.filter) == Passes(n, q.filter);
  }

  /** Two stacks whose nodes differ at most in their statement lists answer every
      top-down and bottom-up scan alike. */
  lemma ScansIgnoreStatements(s: seq<Node>, r: seq<Node>, lo: int, hi: int, q: Query)
    requires |r| == |s| && -1 <= lo && -1 <= hi < |s|
    requires forall k :: 0 <= k < |s| ==> r[k] == s[k].(statements := r[k].statements)
    ensures Innermost(r, lo, hi, q) == Innermost(s, lo, hi, q)
    ensures Outermost(r, lo, hi, q) == Outermost(s, lo, hi, q)
  {
    forall k | 0 <= k < |s|
      ensures Matches(r[k], q) == Matches(s[k], q)
    {
      MatchesIgnoresStatements(s[k], r[k].statements, q);
    }
    InnermostUnique(r, lo, hi, q, Innermost(s, lo, hi, q));
    OutermostUnique(r, lo, hi, q, Outermost(s, lo, hi, q));
  }

  /** Recording a statement changes no node's capabilities, so every scan answers as
      before. */
  lemma StatementsLeaveScansAlone(s: seq<Node>, st: Statement, lo: int, hi: int, q: Query)
    requires |s| > 0 && -1 <= lo && -1 <= hi < |s|
    ensures Innermost(AppendStatement(s, st), lo, hi, q) == Innermost(s, lo, hi, q)
    ensures Innermost(PrependStatement(s, st), lo, hi, q) == Innermost(s, lo, hi, q)
    ensures Outermost(AppendStatement(s, st), lo, hi, q) == Outermost(s, lo, hi, q)
    ensures Outermost(PrependStatement(s, st), lo, hi, q) == Outermost(s, lo, hi, q)
  {
    var app := AppendStatement(s, st);
    var pre := PrependStatement(s, st);
    forall k | 0 <= k < |s|
      ensures app[k] == s[k].(statements := app[k].statements)
      ensures pre[k] == s[k].(statements := pre[k].statements)
    {
      if k < |s| - 1 {
        assert app[k] == app[..|s| - 1][k];
        assert pre[k] == pre[..|s| - 1][k];
      }
    }
    ScansIgnoreStatements(s, app, lo, hi, q);
    ScansIgnoreStatements(s, pre, lo, hi, q);
  }

  // ---------------------------------------------------------------------------
  // The bounded iterator
  // ---------------------------------------------------------------------------

  /** The iterator never yields the boundary node, never passes it, and without a
      boundary it covers the stack down to the bottom. */
  lemma FindNextStopsAtBoundary(s: seq<Node>, from: int, c: NodeClass, until: Option<Node>)
    requires -1 <= from < |s|
    ensures var r := FindNext(s, from, c, until);
            && (r.Some? ==> forall k :: r.value <= k <= from ==> !IsUntil(s[k], until))
            && (until.None? ==> r == Innermost(s, -1, from, Query(c, Every)))
  {
  }

  /** On a stack without duplicates, everything a function-bounded query finds lies
      strictly above the current function. */
  lemma BoundedQueriesStayAboveFunction(s: seq<Node>, name: string, t: Target)
    requires UniqueIds(s)
    ensures GetCurrentLoop(s).Some? ==> FunctionFloor(s) < GetCurrentLoop(s).value
    ensures UnlabelledBreakable(s).Some? ==> FunctionFloor(s) < UnlabelledBreakable(s).value
    ensures FindLabel(s, name).Some? ==> FunctionFloor(s) < FindLabel(s, name).value
    ensures FindLabelledItem(s, name, t).Some? ==> FunctionFloor(s) < FindLabelledItem(s, name, t).value
  {
    LabelledItemLiesInsideLabel(s, name, t);
  }

  // ---------------------------------------------------------------------------
  // The labelled search
  // ---------------------------------------------------------------------------

  /** A node met between a label and its target that would change the candidate. */
  predicate IsEvent(n: Node, t: Target) {
    Matches(n, Query(AnyNode, LabelledEvent(t)))
  }

  /** `j` is the first node above position `l` that would change the candidate. */
  ghost predicate FirstEventAbove(s: seq<Node>, l: nat, j: nat, t: Target) {
    && l < j < |s|
    && IsEvent(s[j], t)
    && forall k :: l < k < j ==> !IsEvent(s[k], t)
  }

  /** No node above position `l` would change the candidate. */
  ghost predicate NoEventAbove(s: seq<Node>, l: nat, t: Target) {
    forall k :: l < k < |s| ==> !IsEvent(s[k], t)
  }

  /** findLabel and findLabelledItem are the reference's two stages over the window
      above the current function. */
  lemma LabelledSearchWindow(s: seq<Node>, name: string, t: Target)
    ensures FindLabel(s, name) == Innermost(s, FunctionBound(s), |s| - 1, Query(LabelNode, Named(name)))
    ensures FindLabelledItem(s, name, t) == LabelledReference(s, FunctionBound(s), |s| - 1, name, t, None)
  {
    InnermostUnique(s, FunctionBound(s), |s| - 1, Query(LabelNode, Named(name)), FindLabel(s, name));
  }

  /** The window form of LabelledItemLiesInsideLabel. */
  lemma ReferenceInsideLabel(s: seq<Node>, lo: int, hi: int, name: string, t: Target)
    requires -1 <= lo && -1 <= hi < |s|
    ensures var r := LabelledReference(s, lo, hi, name, t, None);
            var l := Innermost(s, lo, hi, Query(LabelNode, Named(name)));
            && (l.None? ==> r.None?)
            && (r.Some? ==>
                  && l.Some? && r.value <= hi
                  && FirstEventAbove(s, l.value, r.value, t)
                  && IsA(s[r.value], TargetClass(t))
                  && !ResetsCandidate(s[r.value], t))
  {
    match Innermost(s, lo, hi, Query(LabelNode, Named(name)))
    case None =>
    case Some(l) =>
      var o := Outermost(s, l, hi, Query(AnyNode, LabelledEvent(t)));
      assert IsOutermost(s, l, hi, Query(AnyNode, LabelledEvent(t)), o);
  }

  /** The window form of LabelledItemFound and ContinueBlockedBySourceBlock: the
      first event above the label decides. */
  lemma ReferenceFirstEvent(s: seq<Node>, lo: int, hi: int, name: string, t: Target, l: nat, j: nat)
    requires -1 <= lo && hi == |s| - 1
    requires Innermost(s, lo, hi, Query(LabelNode, Named(name))) == Some(l)
    requires FirstEventAbove(s, l, j, t)
    ensures LabelledReference(s, lo, hi, name, t, None) ==
              if ResetsCandidate(s[j], t) then None else Some(j)
  {
    OutermostUnique(s, l, hi, Query(AnyNode, LabelledEvent(t)), Some(j));
  }

  /** The window form of LabelledItemMissingTarget. */
  lemma ReferenceNoEvent(s: seq<Node>, lo: int, hi: int, name: string, t: Target, l: nat)
    requires -1 <= lo && hi == |s| - 1
    requires Innermost(s, lo, hi, Query(LabelNode, Named(name))) == Some(l)
    requires NoEventAbove(s, l, t)
    ensures LabelledReference(s, lo, hi, name, t, None) == None
  {
    OutermostUnique(s, l, hi, Query(AnyNode, LabelledEvent(t)), None);
  }

  /** Whatever a labelled jump resolves to lies strictly inside the innermost label of
      that name found by findLabel, is of the target's class, and is the first node
      above the label that could change the candidate. With no such label there is
      no target. */
  lemma LabelledItemLiesInsideLabel(s: seq<Node>, name: string, t: Target)
    ensures var r := FindLabelledItem(s, name, t);
            var l := FindLabel(s, name);
            && (l.None? ==> r.None?)
            && (r.Some? ==>
                  && l.Some?
                  && FirstEventAbove(s, l.value, r.value, t)
                  && IsA(s[r.value], TargetClass(t))
                  && !ResetsCandidate(s[r.value], t))
  {
    LabelledSearchWindow(s, name, t);
    ReferenceInsideLabel(s, FunctionBound(s), |s| - 1, name, t);
  }

  /** Conversely, when the first candidate-changing node above the label is a target,
      the labelled jump resolves to it. */
  lemma LabelledItemFound(s: seq<Node>, name: string, t: Target, j: nat)
    requires FindLabel(s, name).Some?
    requires FirstEventAbove(s, FindLabel(s, name).value, j, t)
    requires !ResetsCandidate(s[j], t)
    ensures FindLabelledItem(s, name, t) == Some(j)
  {
    LabelledSearchWindow(s, name, t);
    ReferenceFirstEvent(s, FunctionBound(s), |s| - 1, name, t, FindLabel(s, name).value, j);
  }

  /** When the first candidate-changing node above the label is a source block, a
      `continue` to that label has no target, whatever loops lie further in. */
  lemma ContinueBlockedBySourceBlock(s: seq<Node>, name: string, j: nat)
    requires FindLabel(s, name).Some?
    requires FirstEventAbove(s, FindLabel(s, name).value, j, ContinueTarget)
    requires ResetsCandidate(s[j], ContinueTarget)
    ensures FindLabelledItem(s, name, ContinueTarget) == None
  {
    LabelledSearchWindow(s, name, ContinueTarget);
    ReferenceFirstEvent(s, FunctionBound(s), |s| - 1, name, ContinueTarget, FindLabel(s, name).value, j);
  }

  /** With nothing above the label that could change the candidate, there is no
      target. */
  lemma LabelledItemMissingTarget(s: seq<Node>, name: string, t: Target)
    requires FindLabel(s, name).Some?
    requires NoEventAbove(s, FindLabel(s, name).value, t)
    ensures FindLabelledItem(s, name, t) == None
  {
    LabelledSearchWindow(s, name, t);
    ReferenceNoEvent(s, FunctionBound(s), |s| - 1, name, t, FindLabel(s, name).value);
  }

  // ---------------------------------------------------------------------------
  // Function flags
  // ---------------------------------------------------------------------------

  /** Which function a flag lands on: the current function exactly when the
      innermost function node is not a provisional cover-arrow head. */
  lemma FlagTargetVersusCurrentFunction(s: seq<Node>, flag: FlagWord)
    ensures var r := SetCurrentFunctionFlag(s, flag).1;
            r == GetCurrentFunction(s) <==> (r.None? || !s[r.value].isCoverArrowHead)
  {
    var r := SetCurrentFunctionFlag(s, flag).1;
    if r.Some? && !s[r.value].isCoverArrowHead {
      InnermostUnique(s, -1, |s| - 1, Query(FunctionNode, NotCoverArrowHead), r);
    }
  }

  /** Setting the same flag twice is the same as setting it once. */
  lemma SetFlagIdempotent(s: seq<Node>, flag: FlagWord)
    ensures var once := SetCurrentFunctionFlag(s, flag);
            SetCurrentFunctionFlag(once.0, flag) == once
  {
    var once := SetCurrentFunctionFlag(s, flag);
    var q := Query(FunctionNode, Every);
    assert forall k :: 0 <= k < |s| ==> (Matches(once.0[k], q) <==> Matches(s[k], q)) by {
      forall k | 0 <= k < |s|
        ensures Matches(once.0[k], q) <==> Matches(s[k], q)
      {
        if once.1.Some? && k == once.1.value {
          assert once.0[k].(flags := {}) == s[k].(flags := {});
          assert once.0[k].isFunction == once.0[k].(flags := {}).isFunction;
        }
      }
    }
    InnermostUnique(once.0, -1, |s| - 1, q, once.1);
    if once.1.Some? {
      var i := once.1.value;
      var twice := SetCurrentFunctionFlag(once.0, flag);
      assert twice.0[i].flags == once.0[i].flags;
      assert twice.0[i].(flags := {}) == once.0[i].(flags := {});
      assert twice.0[i] == once.0[i];
      assert twice.0 == once.0;
    }
  }

  /** No two function nodes are open. */
  ghost predicate AtMostOneFunction(s: seq<Node>) {
    forall i, j :: 0 <= i < j < |s| && s[i].isFunction ==> !s[j].isFunction
  }

  /** propagateFunctionFlags changes nothing with fewer than two functions open. */
  lemma PropagateNeedsTwoFunctions(s: seq<Node>, transfer: (FlagWord, FlagWord) -> FlagWord)
    requires AtMostOneFunction(s)
    ensures PropagateFunctionFlags(s, transfer) == s
  {
    var q := Query(FunctionNode, Every);
    match Innermost(s, -1, |s| - 1, q)
    case None =>
    case Some(c) =>
      match Innermost(s, -1, c - 1, q)
      case None =>
      case Some(p) =>
        assert false;
  }

  /** The only node propagateFunctionFlags may change is a function with exactly one
      function above it (the innermost one), and only its flag word. */
  lemma PropagateTouchesOnlyParent(s: seq<Node>, transfer: (FlagWord, FlagWord) -> FlagWord, k: nat)
    requires k < |s|
    requires PropagateFunctionFlags(s, transfer)[k] != s[k]
    ensures s[k].isFunction
    ensures DiffersOnlyInFlags(PropagateFunctionFlags(s, transfer)[k], s[k])
    ensures exists c :: k < c < |s| && s[c].isFunction
                        && forall m :: k < m < |s| && m != c ==> !s[m].isFunction
  {
    var q := Query(FunctionNode, Every);
    var c := Innermost(s, -1, |s| - 1, q).value;
    var p := Innermost(s, -1, c - 1, q).value;
    assert k == p;
    assert forall m :: k < m < |s| && m != c ==> !Matches(s[m], q);
  }
}
