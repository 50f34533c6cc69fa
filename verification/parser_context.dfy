/** The parser's lexical-context stack (ParserContext): an array-backed LIFO stack
    of open constructs and the innermost-first queries the parser asks of it.

    Stack mechanics work on the array representation; queries and flag updates
    work on its contents `Elements(a)`, outermost first. A query answers with the
    position of the node it finds, so the node returned by the parser is `s[r.value]`. */
module ParserContext {
  import opened ContextNodes
  import opened ContextScan

  const INITIAL_DEPTH: nat := 16

  // ---------------------------------------------------------------------------
  // Stack mechanics
  // ---------------------------------------------------------------------------

  /** The backing array (`null` slots are None) and the stack pointer. */
  datatype ArrayStack = ArrayStack(slots: seq<Option<Node>>, sp: nat)

  /** Slots below the stack pointer hold nodes, slots above it are cleared, and the
      array is never empty (so doubling always makes room). */
  ghost predicate Valid(a: ArrayStack) {
    && 0 < |a.slots|
    && a.sp <= |a.slots|
    && (forall i :: 0 <= i < a.sp ==> a.slots[i].Some?)
    && (forall i :: a.sp <= i < |a.slots| ==> a.slots[i].None?)
  }

  /** The open nodes, outermost first. */
  function Elements(a: ArrayStack): (s: seq<Node>)
    requires Valid(a)
    ensures |s| == a.sp
    ensures forall i :: 0 <= i < a.sp ==> a.slots[i] == Some(s[i])
  {
    seq(a.sp, i requires 0 <= i < a.sp && Valid(a) => a.slots[i].value)
  }

  /** A fresh context: an empty stack over an array of the initial depth. */
  function NewContext(): (a: ArrayStack)
    ensures Valid(a)
    ensures Elements(a) == []
    ensures |a.slots| == INITIAL_DEPTH
  {
    ArrayStack(seq(INITIAL_DEPTH, _ => None), 0)
  }

  /** push: makes `node` the innermost open construct and returns it. A full array
      is first copied into one twice as long. */
  function Push(a: ArrayStack, node: Node): (r: (ArrayStack, Node))
    requires Valid(a)
    requires !OnStack(Elements(a), node)
    ensures Valid(r.0)
    ensures r.1 == node
    ensures |Elements(r.0)| == |Elements(a)| + 1
    ensures Elements(r.0)[..|Elements(a)|] == Elements(a)
    ensures Elements(r.0)[|Elements(a)|] == node
    ensures UniqueIds(Elements(a)) ==> UniqueIds(Elements(r.0))
    ensures |r.0.slots| == if a.sp == |a.slots| then 2 * |a.slots| else |a.slots|
  {
    var slots := if a.sp == |a.slots| then a.slots[..a.sp] + seq(a.sp, _ => None) else a.slots;
    var b := ArrayStack(slots[a.sp := Some(node)], a.sp + 1);
    assert Elements(b)[..|Elements(a)|] == Elements(a);
    (b, node)
  }

  /** peek: the innermost open construct. */
  function Peek(a: ArrayStack): (n: Node)
    requires Valid(a) && a.sp > 0
    ensures n == Elements(a)[|Elements(a)| - 1]
  {
    a.slots[a.sp - 1].value
  }

  /** pop: removes and returns the innermost construct and clears its slot.
      `expected` plays no part: the top is removed whatever node is passed. */
  function Pop(a: ArrayStack, expected: Node): (r: (ArrayStack, Node))
    requires Valid(a) && a.sp > 0
    ensures Valid(r.0)
    ensures r.1 == Peek(a)
    ensures Elements(r.0) == Elements(a)[..|Elements(a)| - 1]
    ensures |r.0.slots| == |a.slots|
  {
    (ArrayStack(a.slots[a.sp - 1 := None], a.sp - 1), a.slots[a.sp - 1].value)
  }

  /** The array after nodes still open were changed in place. The parser keeps
      references to the node objects in the array, so a flag or statement recorded
      on an open node is seen by every later query and by the `pop` that closes it;
      here the updated contents `s` are written back over the occupied slots. */
  function WithElements(a: ArrayStack, s: seq<Node>): (b: ArrayStack)
    requires Valid(a) && |s| == a.sp
    ensures Valid(b)
    ensures Elements(b) == s
    ensures |b.slots| == |a.slots| && b.sp == a.sp
  {
    ArrayStack(seq(|a.slots|, i requires 0 <= i < |a.slots| => if i < |s| then Some(s[i]) else None), a.sp)
  }

  /** contains: a bottom-up identity scan of the occupied slots. */
  method Contains(a: ArrayStack, node: Node) returns (b: bool)
    requires Valid(a)
    ensures b <==> OnStack(Elements(a), node)
  {
    var i := 0;
    while i < a.sp
      invariant 0 <= i <= a.sp
      invariant forall k :: 0 <= k < i ==> Elements(a)[k].id != node.id
    {
      if a.slots[i].value.id == node.id {
        assert Elements(a)[i].id == node.id;
        return true;
      }
      i := i + 1;
    }
    return false;
  }

  /** getLastStatement: the last statement recorded in the innermost construct. */
  function GetLastStatement(s: seq<Node>): (r: Option<Statement>)
    ensures r.None? <==> |s| == 0 || |s[|s| - 1].statements| == 0
    ensures r.Some? ==> r.value == s[|s| - 1].statements[|s[|s| - 1].statements| - 1]
  {
    if |s| == 0 then None
    else
      var top := s[|s| - 1];
      if |top.statements| == 0 then None else Some(top.statements[|top.statements| - 1])
  }

  /** prependStatementToCurrentNode: the statement goes first in the innermost
      construct's list; no other node changes. */
  function PrependStatement(s: seq<Node>, st: Statement): (r: seq<Node>)
    requires |s| > 0
    ensures |r| == |s| && r[..|s| - 1] == s[..|s| - 1]
    ensures |r[|s| - 1].statements| == |s[|s| - 1].statements| + 1
    ensures r[|s| - 1].statements[0] == st
    ensures r[|s| - 1].statements[1..] == s[|s| - 1].statements
    ensures r[|s| - 1] == s[|s| - 1].(statements := r[|s| - 1].statements)
  {
    var top := s[|s| - 1];
    s[|s| - 1 := top.(statements := [st] + top.statements)]
  }

  /** appendStatementToCurrentNode: the statement goes last in the innermost
      construct's list; no other node changes. */
  function AppendStatement(s: seq<Node>, st: Statement): (r: seq<Node>)
    requires |s| > 0
    ensures |r| == |s| && r[..|s| - 1] == s[..|s| - 1]
    ensures |r[|s| - 1].statements| == |s[|s| - 1].statements| + 1
    ensures r[|s| - 1].statements[..|s[|s| - 1].statements|] == s[|s| - 1].statements
    ensures r[|s| - 1].statements[|s[|s| - 1].statements|] == st
    ensures r[|s| - 1] == s[|s| - 1].(statements := r[|s| - 1].statements)
  {
    var top := s[|s| - 1];
    s[|s| - 1 := top.(statements := top.statements + [st])]
  }

  // ---------------------------------------------------------------------------
  // Function, scope and class queries
  // ---------------------------------------------------------------------------

  /** The node at an optional position. */
  function At(s: seq<Node>, r: Option<nat>): Option<Node>
    requires r.Some? ==> r.value < |s|
  {
    match r
    case None => None
    case Some(i) => Some(s[i])
  }

  /** getCurrentFunction: the innermost function that is not a provisional
      cover-arrow head. */
  function GetCurrentFunction(s: seq<Node>): (r: Option<nat>)
    ensures IsInnermost(s, -1, |s| - 1, Query(FunctionNode, NotCoverArrowHead), r)
  {
    Innermost(s, -1, |s| - 1, Query(FunctionNode, NotCoverArrowHead))
  }

  /** Position of the current function, or -1 when there is none. */
  function FunctionFloor(s: seq<Node>): (f: int)
    ensures -1 <= f < |s|
  {
    match GetCurrentFunction(s)
    case None => -1
    case Some(i) => i
  }

  /** Where a scan bounded by the current function stops. With no duplicate node
      on the stack it is the current function's own position (or -1 without one). */
  function FunctionBound(s: seq<Node>): (b: int)
    ensures -1 <= b < |s|
    ensures FunctionFloor(s) <= b
    ensures UniqueIds(s) ==> b == FunctionFloor(s)
  {
    var b := Boundary(s, |s| - 1, At(s, GetCurrentFunction(s)));
    assert GetCurrentFunction(s).Some? ==>
      IsUntil(s[GetCurrentFunction(s).value], At(s, GetCurrentFunction(s)));
    b
  }

  /** getCurrentBlock: the innermost block over the whole stack. The source takes
      the first element of the block iterator, which throws when there is none;
      that case is None here. */
  function GetCurrentBlock(s: seq<Node>): (r: Option<nat>)
    ensures IsInnermost(s, -1, |s| - 1, Query(BlockNode, Every), r)
  {
    FindNext(s, |s| - 1, BlockNode, None)
  }

  /** getCurrentNonArrowFunction: the innermost function that is not an arrow
      function, over the whole stack. */
  function GetCurrentNonArrowFunction(s: seq<Node>): (r: Option<nat>)
    ensures IsInnermost(s, -1, |s| - 1, Query(FunctionNode, NotArrow), r)
  {
    FirstMatch(s, |s| - 1, Query(FunctionNode, NotArrow), None)
  }

  /** getCurrentScope: the scope owned by the innermost scopable node, over the
      whole stack. */
  function GetCurrentScope(s: seq<Node>): (r: Option<ScopeRef>)
    ensures r.None? <==> forall k :: 0 <= k < |s| ==> !s[k].isScopable
    ensures r.Some? ==> exists i :: 0 <= i < |s| && s[i].isScopable && s[i].scope == r.value
                                   && forall k :: i < k < |s| ==> !s[k].isScopable
  {
    match Innermost(s, -1, |s| - 1, Query(ScopableNode, Every))
    case None => None
    case Some(i) =>
      assert forall k :: i < k < |s| ==> !Matches(s[k], Query(ScopableNode, Every));
      Some(s[i].scope)
  }

  /** getCurrentClass: the innermost class node, over the whole stack. */
  function GetCurrentClass(s: seq<Node>): (r: Option<nat>)
    ensures IsInnermost(s, -1, |s| - 1, Query(ClassNode, Every), r)
  {
    FindNext(s, |s| - 1, ClassNode, None)
  }

  // ---------------------------------------------------------------------------
  // Break, continue and label resolution (scans bounded by the current function)
  // ---------------------------------------------------------------------------

  /** getCurrentLoop: the innermost loop above the current function. */
  function GetCurrentLoop(s: seq<Node>): (r: Option<nat>)
    ensures IsInnermost(s, FunctionBound(s), |s| - 1, Query(LoopNode, Every), r)
  {
    FindNext(s, |s| - 1, LoopNode, At(s, GetCurrentFunction(s)))
  }

  /** The parameterless getBreakable: the innermost breakable above the current
      function that an unlabelled `break` may leave. */
  function UnlabelledBreakable(s: seq<Node>): (r: Option<nat>)
    ensures IsInnermost(s, FunctionBound(s), |s| - 1, Query(BreakableNode, UnlabelledBreak), r)
  {
    FirstMatch(s, |s| - 1, Query(BreakableNode, UnlabelledBreak), At(s, GetCurrentFunction(s)))
  }

  /** findLabel: the innermost label called `name` above the current function. */
  function FindLabel(s: seq<Node>, name: string): (r: Option<nat>)
    ensures IsInnermost(s, FunctionBound(s), |s| - 1, Query(LabelNode, Named(name)), r)
  {
    FirstMatch(s, |s| - 1, Query(LabelNode, Named(name)), At(s, GetCurrentFunction(s)))
  }

  /** Reference for the labelled search over (lo, hi], starting from candidate
      `prev`: find the innermost label called `name`; the answer is decided by the
      outermost node above that label that would change the candidate — a target
      is the answer, a reset gives none — and is `prev` when no such node exists. */
  function LabelledReference(s: seq<Node>, lo: int, hi: int, name: string, t: Target,
                             prev: Option<nat>): Option<nat>
    requires -1 <= lo && -1 <= hi < |s|
  {
    match Innermost(s, lo, hi, Query(LabelNode, Named(name)))
    case None => None
    case Some(l) =>
      match Outermost(s, l, hi, Query(AnyNode, LabelledEvent(t)))
      case None => prev
      case Some(j) => if ResetsCandidate(s[j], t) then None else Some(j)
  }

  /** The candidate after visiting node `n` at position `i` (not the sought label). */
  function NextCandidate(n: Node, i: nat, t: Target, prev: Option<nat>): Option<nat> {
    if n.isLabel then prev
    else if ResetsCandidate(n, t) then None
    else if IsA(n, TargetClass(t)) then Some(i)
    else prev
  }

  /** Taking the top node of the window out of the reference: the sought label
      answers `prev`, any other node updates the candidate. */
  lemma ReferenceStep(s: seq<Node>, lo: int, from: int, name: string, t: Target, prev: Option<nat>)
    requires -1 <= lo < from < |s|
    ensures LabelledReference(s, lo, from, name, t, prev) ==
      if s[from].isLabel && s[from].labelName == name then prev
      else LabelledReference(s, lo, from - 1, name, t, NextCandidate(s[from], from, t, prev))
  {
    var named := Query(LabelNode, Named(name));
    var event := Query(AnyNode, LabelledEvent(t));
    if !(s[from].isLabel && s[from].labelName == name) {
      assert Innermost(s, lo, from, named) == Innermost(s, lo, from - 1, named);
      match Innermost(s, lo, from - 1, named)
      case None =>
      case Some(l) =>
        assert Outermost(s, l, from, event) ==
          match Outermost(s, l, from - 1, event)
          case Some(j) => Some(j)
          case None => if Matches(s[from], event) then Some(from) else None;
    }
  }

  /** The loop of findLabelledItem from position `from` down, with the candidate
      `prev` collected so far. */
  function LabelledScan(s: seq<Node>, from: int, name: string, t: Target,
                        until: Option<Node>, prev: Option<nat>): (r: Option<nat>)
    requires -1 <= from < |s|
    ensures r == LabelledReference(s, Boundary(s, from, until), from, name, t, prev)
    decreases from + 1
  {
    var b := Boundary(s, from, until);
    match FindNext(s, from, AnyNode, until)
    case None =>
      assert b == from;
      None
    case Some(i) =>
      assert i == from;
      assert Boundary(s, from - 1, until) == b;
      ReferenceStep(s, b, from, name, t, prev);
      var n := s[i];
      if n.isLabel then
        if n.labelName == name then prev
        else LabelledScan(s, i - 1, name, t, until, prev)
      else if ResetsCandidate(n, t) then LabelledScan(s, i - 1, name, t, until, None)
      else if IsA(n, TargetClass(t)) then LabelledScan(s, i - 1, name, t, until, Some(i))
      else LabelledScan(s, i - 1, name, t, until, prev)
  }

  /** findLabelledItem: the target a labelled `break` (BreakTarget) or `continue`
      (ContinueTarget) resolves to, searching above the current function. */
  function FindLabelledItem(s: seq<Node>, name: string, t: Target): (r: Option<nat>)
    ensures r == LabelledReference(s, FunctionBound(s), |s| - 1, name, t, None)
  {
    LabelledScan(s, |s| - 1, name, t, At(s, GetCurrentFunction(s)), None)
  }

  /** getBreakable: the target of `break` with an optional label. */
  function GetBreakable(s: seq<Node>, labelName: Option<string>): (r: Option<nat>)
    ensures labelName.None? ==>
      IsInnermost(s, FunctionBound(s), |s| - 1, Query(BreakableNode, UnlabelledBreak), r)
    ensures labelName.Some? ==>
      r == LabelledReference(s, FunctionBound(s), |s| - 1, labelName.value, BreakTarget, None)
  {
    if labelName.Some? then FindLabelledItem(s, labelName.value, BreakTarget)
    else UnlabelledBreakable(s)
  }

  /** getContinueTo: the target of `continue` with an optional label. */
  function GetContinueTo(s: seq<Node>, labelName: Option<string>): (r: Option<nat>)
    ensures labelName.None? ==>
      IsInnermost(s, FunctionBound(s), |s| - 1, Query(LoopNode, Every), r)
    ensures labelName.Some? ==>
      r == LabelledReference(s, FunctionBound(s), |s| - 1, labelName.value, ContinueTarget, None)
  {
    if labelName.Some? then FindLabelledItem(s, labelName.value, ContinueTarget)
    else GetCurrentLoop(s)
  }

  // ---------------------------------------------------------------------------
  // Function flags
  // ---------------------------------------------------------------------------

  /** `w` has every bit of `before` and of `flag` set, and no other bit. */
  predicate IsUnionOf(w: FlagWord, before: FlagWord, flag: FlagWord) {
    && flag <= w
    && before <= w
    && w <= before + flag
  }

  /** `m` is `n` apart from, at most, its flag word. */
  predicate DiffersOnlyInFlags(m: Node, n: Node) {
    m.(flags := {}) == n.(flags := {})
  }

  /** The node with `flag` unioned into its flag word (`setFlag`). */
  function WithFlag(n: Node, flag: FlagWord): (m: Node)
    ensures DiffersOnlyInFlags(m, n)
    ensures IsUnionOf(m.flags, n.flags, flag)
  {
    n.(flags := n.flags + flag)
  }

  /** setCurrentFunctionFlag: unions `flag` into the innermost function node —
      a provisional cover-arrow head included — and returns its position; with no
      function open, nothing changes. */
  function SetCurrentFunctionFlag(s: seq<Node>, flag: FlagWord): (r: (seq<Node>, Option<nat>))
    ensures |r.0| == |s|
    ensures IsInnermost(s, -1, |s| - 1, Query(FunctionNode, Every), r.1)
    ensures r.1.None? ==> r.0 == s
    ensures r.1.Some? ==>
      var i := r.1.value;
      && DiffersOnlyInFlags(r.0[i], s[i])
      && IsUnionOf(r.0[i].flags, s[i].flags, flag)
      && forall k :: 0 <= k < |s| && k != i ==> r.0[k] == s[k]
  {
    match Innermost(s, -1, |s| - 1, Query(FunctionNode, Every))
    case None => (s, None)
    case Some(i) =>
      (s[i := WithFlag(s[i], flag)], Some(i))
  }

  /** The loop of propagateFunctionFlags from position `i` down: `current` is the
      innermost function once found; at the next function the flags are handed to
      it and the loop ends. `transfer(child, parent)` is the parent's new flag word. */
  function PropagateFrom(s: seq<Node>, i: int, current: Option<nat>,
                         transfer: (FlagWord, FlagWord) -> FlagWord): (r: seq<Node>)
    requires -1 <= i < |s|
    requires current.Some? ==> i < current.value < |s|
    ensures |r| == |s|
    ensures current.Some? ==>
      match Innermost(s, -1, i, Query(FunctionNode, Every))
      case None => r == s
      case Some(p) =>
        var c := current.value;
        r == s[p := s[p].(flags := transfer(s[c].flags, s[p].flags))]
    ensures current.None? ==>
      match Innermost(s, -1, i, Query(FunctionNode, Every))
      case None => r == s
      case Some(c) => r == PropagateFrom(s, c - 1, Some(c), transfer)
    decreases i + 1
  {
    if i < 0 then s
    else if s[i].isFunction then
      match current
      case None => PropagateFrom(s, i - 1, Some(i), transfer)
      case Some(c) => s[i := s[i].(flags := transfer(s[c].flags, s[i].flags))]
    else PropagateFrom(s, i - 1, current, transfer)
  }

  /** propagateFunctionFlags: hands the innermost function's flags to the next
      enclosing function. Only that parent changes; with fewer than two functions
      open nothing changes. */
  function PropagateFunctionFlags(s: seq<Node>, transfer: (FlagWord, FlagWord) -> FlagWord): (r: seq<Node>)
    ensures |r| == |s|
    ensures match Innermost(s, -1, |s| - 1, Query(FunctionNode, Every))
      case None => r == s
      case Some(c) =>
        match Innermost(s, -1, c - 1, Query(FunctionNode, Every))
        case None => r == s
        case Some(p) => r == s[p := s[p].(flags := transfer(s[c].flags, s[p].flags))]
  {
    PropagateFrom(s, |s| - 1, None, transfer)
  }
}
