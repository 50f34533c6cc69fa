# Parser lexical context and ToLength clamping (graal-js)

This project models two pieces of graal-js in Dafny and proves properties of them.

**The parser's lexical-context stack (`ParserContext`).** While the JavaScript parser
walks the source, it keeps a LIFO stack of the constructs currently open: functions,
blocks, loops, labels, classes and scopables. It answers questions by scanning from the
innermost construct outward:

- which loop or breakable statement a `break` or `continue` (with or without a label)
  leaves;
- which function is current (provisional cover-arrow heads are skipped);
- which scope and which class are current;
- which function receives a flag.

Each open construct is one `Node` record with capability booleans (`isFunction`,
`isArrow`, `isCoverArrowHead`, `isBlock`, `isSynthetic`, `isLoop`, `isBreakable`,
`breakableWithoutLabel`, `isLabel` with `labelName`, `isClass`, `isScopable`), a flag
word, an opaque scope handle and a list of opaque statements. Object identity is the
`id` field.

- `push`, `pop`, `peek` and `contains` work on the backing array and its stack pointer.
  A push on a full array first doubles it, and `pop` clears the slot it vacates.
- Every query works on the array's contents `Elements(a)`, outermost first. It answers
  with the position of the node it finds, so the node the parser gets back is
  `s[r.value]`, and `None` stands for `null`.
- The flag and statement updates also work on the contents. The parser changes the
  node objects in place, so `WithElements` writes the updated contents back into the
  array; a later query or `pop` then sees the change.

**ToLength on integers (`JSToLengthNode`).** ToLength is defined in section 7.1.15 of
ECMAScript 2015 (ECMA-262 6th edition). This node clamps an integer argument into
[0, 2^53 - 1]. The `int`, safe-integer and `undefined` specializations are modelled, as
is the shared private clamp `doLong`. All of them are proved equal to ToLength as the
standard states it (`SpecToLength`).

Modules:

- `ContextNodes`: the node record, node classes and query filters.
- `ContextScan`: generic innermost/outermost scans and the identity-bounded step of
  `NodeIterator`.
- `ParserContext`: the stack and every query and update.
- `ParserContextLemmas`: properties relating several operations.
- `ParserContextScenarios`: concrete label, loop and function situations.
- `ToLength`: the integer paths of ToLength.

Two reference definitions serve as partners:

- `Innermost`/`IsInnermost` is the declarative reading of the source's top-down loops.
- `LabelledReference` is the declarative reading of `findLabelledItem`. It finds the
  innermost label with the name, then takes the outermost node above that label that
  could change the candidate. A target is the answer; a source block (for `continue`)
  means no answer.

## Model

Source paths are relative to the repository root.

| member | source | states |
|---|---|---|
| ParserContext.NewContext | graal-js/src/com.oracle.js.parser/src/com/oracle/js/parser/ParserContext.java:68-71 | A new context is an empty stack over an array of 16 slots. |
| ParserContext.Push | graal-js/src/com.oracle.js.parser/src/com/oracle/js/parser/ParserContext.java:79-90 | Requires that the node is not already open. Afterwards the stack is the old stack (same order) with the node on top, and the node is returned. Distinct ids stay distinct. The array doubles exactly when it was full. |
| ParserContext.Peek | graal-js/src/com.oracle.js.parser/src/com/oracle/js/parser/ParserContext.java:97-99 | Returns the last element of the stack's contents. |
| ParserContext.Pop | graal-js/src/com.oracle.js.parser/src/com/oracle/js/parser/ParserContext.java:108-114 | Returns the old top whatever node is passed, and leaves the contents minus the top; the array keeps its size. |
| ParserContext.WithElements | graal-js/src/com.oracle.js.parser/src/com/oracle/js/parser/ParserContext.java:108-114 | Writes contents changed in place back over the occupied slots: the array then holds exactly those contents, with its size and stack pointer unchanged. |
| ParserContext.Contains | graal-js/src/com.oracle.js.parser/src/com/oracle/js/parser/ParserContext.java:122-129 | True exactly when a node with the same identity is open. |
| ParserContextLemmas.PushThenPopRestores | graal-js/src/com.oracle.js.parser/src/com/oracle/js/parser/ParserContext.java:79-114 | A pop right after a push returns the pushed node and restores the previous contents. |
| ParserContextLemmas.ContainsAfterPushNotAfterPop | graal-js/src/com.oracle.js.parser/src/com/oracle/js/parser/ParserContext.java:79-129 | After a push the node is open and on top; after the matching pop it is no longer open. |
| ParserContextLemmas.PushAll | graal-js/src/com.oracle.js.parser/src/com/oracle/js/parser/ParserContext.java:79-90 | Pushing a duplicate-free sequence in order gives the old contents followed by that sequence, across any number of doublings. |
| ParserContextLemmas.PopTimes | graal-js/src/com.oracle.js.parser/src/com/oracle/js/parser/ParserContext.java:108-114 | Popping k times leaves the contents minus their top k. |
| ParserContextLemmas.PushAllThenPopAllRestores | graal-js/src/com.oracle.js.parser/src/com/oracle/js/parser/ParserContext.java:79-114 | Pushing n nodes and popping n times restores the previous contents. |
| ParserContext.GetLastStatement | graal-js/src/com.oracle.js.parser/src/com/oracle/js/parser/ParserContext.java:295-302 | None exactly when the stack is empty or the top has no statements; otherwise the top's last statement. |
| ParserContext.PrependStatement | graal-js/src/com.oracle.js.parser/src/com/oracle/js/parser/ParserContext.java:238-241 | The statement becomes the first of the top's list, followed by the old list. No other node and no other field changes. |
| ParserContext.AppendStatement | graal-js/src/com.oracle.js.parser/src/com/oracle/js/parser/ParserContext.java:248-251 | The statement becomes the last of the top's list, after the old list. No other node and no other field changes. |
| ParserContextLemmas.LastStatementFollowsPushAndPop | graal-js/src/com.oracle.js.parser/src/com/oracle/js/parser/ParserContext.java:295-302 | After a push, getLastStatement reports the pushed node's last statement; after the pop, it reports what it reported before. |
| ParserContextLemmas.LastStatementAfterAppendAndPrepend | graal-js/src/com.oracle.js.parser/src/com/oracle/js/parser/ParserContext.java:238-302 | An appended statement is the last statement. A prepended one is the last only if the list was empty; otherwise the last statement is unchanged. |
| ParserContextLemmas.StatementsLeaveScansAlone | graal-js/src/com.oracle.js.parser/src/com/oracle/js/parser/ParserContext.java:238-251 | Recording a statement changes no answer of any top-down (innermost) or bottom-up (outermost) scan over any window, so no capability query (all but getLastStatement) and no labelled search changes. |
| ParserContextLemmas.StatementsReachPoppedNode | graal-js/src/com.oracle.js.parser/src/com/oracle/js/parser/ParserContext.java:108-251 | A statement appended or prepended while a node is innermost is in the list of the node that pop hands back, at the end or at the front, and the contents below are as before. |
| ContextScan.Innermost | graal-js/src/com.oracle.js.parser/src/com/oracle/js/parser/ParserContext.java:259-268 | The top-down scan yields the highest matching position in the window, or None when nothing there matches. |
| ContextScan.Outermost | graal-js/src/com.oracle.js.parser/src/com/oracle/js/parser/ParserContext.java:214-230 | The bottom-up reference scan yields the lowest matching position in the window, or None; it is the order in which the labelled search's candidate is last overwritten. |
| ContextScan.Boundary | graal-js/src/com.oracle.js.parser/src/com/oracle/js/parser/ParserContext.java:429-433 | Gives the position where a bounded scan stops: the highest position at or below the start that is the boundary node, or -1. |
| ContextScan.BoundaryStable | graal-js/src/com.oracle.js.parser/src/com/oracle/js/parser/ParserContext.java:429-433 | Resuming the scan below a position that is not the boundary stops at the same place. |
| ContextScan.FindNext | graal-js/src/com.oracle.js.parser/src/com/oracle/js/parser/ParserContext.java:428-440 | The iterator step yields the innermost node of the class strictly above the boundary node, never the boundary itself. |
| ContextScan.FirstMatch | graal-js/src/com.oracle.js.parser/src/com/oracle/js/parser/ParserContext.java:138-144 | Iterating and filtering yields the innermost node of the class that passes the filter, strictly above the boundary. |
| ParserContextLemmas.FindNextStopsAtBoundary | graal-js/src/com.oracle.js.parser/src/com/oracle/js/parser/ParserContext.java:405-440 | No node from the answer up to the start is the boundary. Without a boundary the scan covers the whole stack. |
| ParserContext.GetCurrentFunction | graal-js/src/com.oracle.js.parser/src/com/oracle/js/parser/ParserContext.java:258-269 | The innermost function that is not a cover-arrow head, or None when there is none. |
| ParserContext.FunctionBound | graal-js/src/com.oracle.js.parser/src/com/oracle/js/parser/ParserContext.java:405-409 | A scan bounded by the current function never goes below it. With no duplicate node it stops exactly at it, or covers the whole stack when there is no current function. |
| ParserContext.GetCurrentBlock | graal-js/src/com.oracle.js.parser/src/com/oracle/js/parser/ParserContext.java:277-288 | The innermost block on the whole stack; None where the source's iterator would throw. |
| ParserContext.GetCurrentNonArrowFunction | graal-js/src/com.oracle.js.parser/src/com/oracle/js/parser/ParserContext.java:314-323 | The innermost function on the whole stack that is not an arrow function. |
| ParserContext.GetCurrentScope | graal-js/src/com.oracle.js.parser/src/com/oracle/js/parser/ParserContext.java:328-336 | None exactly when no scopable node is open. Otherwise it is the scope of a scopable node with no scopable node above it. |
| ParserContext.GetCurrentClass | graal-js/src/com.oracle.js.parser/src/com/oracle/js/parser/ParserContext.java:341-344 | The innermost class node on the whole stack. |
| ParserContext.GetCurrentLoop | graal-js/src/com.oracle.js.parser/src/com/oracle/js/parser/ParserContext.java:167-170 | The innermost loop strictly above the current function, or None. |
| ParserContext.UnlabelledBreakable | graal-js/src/com.oracle.js.parser/src/com/oracle/js/parser/ParserContext.java:137-145 | The innermost breakable above the current function that an unlabelled break may leave, or None. |
| ParserContext.FindLabel | graal-js/src/com.oracle.js.parser/src/com/oracle/js/parser/ParserContext.java:196-204 | The innermost label with that name strictly above the current function, or None. |
| ParserContext.LabelledScan | graal-js/src/com.oracle.js.parser/src/com/oracle/js/parser/ParserContext.java:214-230 | The candidate loop, with its if-chain (label with the name, source block when a loop is sought, node of the sought class), equals the labelled reference over the bounded window. |
| ParserContext.FindLabelledItem | graal-js/src/com.oracle.js.parser/src/com/oracle/js/parser/ParserContext.java:213-231 | Equals the labelled reference over the window above the current function. |
| ParserContext.GetBreakable | graal-js/src/com.oracle.js.parser/src/com/oracle/js/parser/ParserContext.java:154-160 | Without a label: the innermost unlabelled-breakable node above the current function. With a label: the labelled reference for a break. |
| ParserContext.GetContinueTo | graal-js/src/com.oracle.js.parser/src/com/oracle/js/parser/ParserContext.java:172-188 | Without a label: the innermost loop above the current function. With a label: the labelled reference for a continue. |
| ParserContext.ReferenceStep | graal-js/src/com.oracle.js.parser/src/com/oracle/js/parser/ParserContext.java:216-228 | The reference can be peeled one node at a time. The sought label ends the search with the current candidate; any other node updates the candidate exactly as the loop body does. |
| ParserContextLemmas.LabelledSearchWindow | graal-js/src/com.oracle.js.parser/src/com/oracle/js/parser/ParserContext.java:196-231 | findLabel and findLabelledItem look at the same window and find the same label. |
| ParserContextLemmas.ReferenceInsideLabel | graal-js/src/com.oracle.js.parser/src/com/oracle/js/parser/ParserContext.java:213-231 | Window form: without the label there is no answer. An answer is a target-class node that is the first candidate-changing node above the label, and not a source block. |
| ParserContextLemmas.ReferenceFirstEvent | graal-js/src/com.oracle.js.parser/src/com/oracle/js/parser/ParserContext.java:222-228 | Window form: the first candidate-changing node above the label decides. A source block gives none; a target gives itself. |
| ParserContextLemmas.ReferenceNoEvent | graal-js/src/com.oracle.js.parser/src/com/oracle/js/parser/ParserContext.java:214-230 | Window form: with no candidate-changing node above the label, there is no answer. |
| ParserContextLemmas.LabelledItemLiesInsideLabel | graal-js/src/com.oracle.js.parser/src/com/oracle/js/parser/ParserContext.java:213-231 | No label means no target. A target lies above the label findLabel finds, is of the sought class, and is the first node above that label that could change the candidate. |
| ParserContextLemmas.LabelledItemFound | graal-js/src/com.oracle.js.parser/src/com/oracle/js/parser/ParserContext.java:213-231 | Conversely, when the first candidate-changing node above the label is a target, findLabelledItem returns it. |
| ParserContextLemmas.ContinueBlockedBySourceBlock | graal-js/src/com.oracle.js.parser/src/com/oracle/js/parser/ParserContext.java:222-225 | When that first node is a non-synthetic block, a labelled continue has no target, whatever loops lie further in. |
| ParserContextLemmas.LabelledItemMissingTarget | graal-js/src/com.oracle.js.parser/src/com/oracle/js/parser/ParserContext.java:213-231 | When nothing above the label could change the candidate, there is no target. |
| ParserContextLemmas.BoundedQueriesStayAboveFunction | graal-js/src/com.oracle.js.parser/src/com/oracle/js/parser/ParserContext.java:138-231 | With no duplicate nodes, every function-bounded answer (loop, unlabelled breakable, label, labelled target) lies strictly above the current function. |
| ParserContext.WithFlag | graal-js/src/com.oracle.js.parser/src/com/oracle/js/parser/ParserContext.java:369 | The node's flag word becomes the union of the old word and the flag. Nothing else in the node changes. |
| ParserContext.SetCurrentFunctionFlag | graal-js/src/com.oracle.js.parser/src/com/oracle/js/parser/ParserContext.java:365-374 | The flag is unioned into the innermost function node (a cover-arrow head included), whose position is returned. With no function open, None and no change. No other node changes. |
| ParserContextLemmas.FlagReachesPoppedFunction | graal-js/src/com.oracle.js.parser/src/com/oracle/js/parser/ParserContext.java:108-374 | A flag set while a freshly pushed function is innermost lands on that function, and the node pop hands back carries the old flags plus the flag and is otherwise unchanged; the contents below are as before. |
| ParserContextLemmas.FlagTargetVersusCurrentFunction | graal-js/src/com.oracle.js.parser/src/com/oracle/js/parser/ParserContext.java:258-374 | The flagged node is the current function exactly when no function was found or the one found is not a cover-arrow head. |
| ParserContextLemmas.SetFlagIdempotent | graal-js/src/com.oracle.js.parser/src/com/oracle/js/parser/ParserContext.java:365-374 | Setting the same flag twice is the same as setting it once. |
| ParserContext.PropagateFrom | graal-js/src/com.oracle.js.parser/src/com/oracle/js/parser/ParserContext.java:380-392 | The loop finds the innermost function, then hands its flags to the next function below and stops. Without a second function nothing changes. |
| ParserContext.PropagateFunctionFlags | graal-js/src/com.oracle.js.parser/src/com/oracle/js/parser/ParserContext.java:379-393 | Only the second-innermost function changes, and only its flag word, to the transfer of the innermost function's flags. With fewer than two functions nothing changes. |
| ParserContextLemmas.PropagateNeedsTwoFunctions | graal-js/src/com.oracle.js.parser/src/com/oracle/js/parser/ParserContext.java:379-393 | On a stack with at most one function, propagation changes nothing. |
| ParserContextLemmas.PropagateTouchesOnlyParent | graal-js/src/com.oracle.js.parser/src/com/oracle/js/parser/ParserContext.java:379-393 | A node that changes is a function with exactly the innermost function above it, and differs only in its flags. |
| ParserContextScenarios.OuterFunctionBound | graal-js/src/com.oracle.js.parser/src/com/oracle/js/parser/ParserContext.java:258-269 | With one function at the bottom, it is the current function and bounded scans cover everything above it. |
| ParserContextScenarios.OuterLabelIsFound | graal-js/src/com.oracle.js.parser/src/com/oracle/js/parser/ParserContext.java:196-204 | In `L1: L2: for (;;) { ... }` the outer label is found at its own position. |
| ParserContextScenarios.InnerLabelIsFound | graal-js/src/com.oracle.js.parser/src/com/oracle/js/parser/ParserContext.java:196-204 | In the same code the inner label is found at its own position. |
| ParserContextScenarios.OuterLabelReachesLoop | graal-js/src/com.oracle.js.parser/src/com/oracle/js/parser/ParserContext.java:183-188 | `continue L1` reaches the loop through the intervening label L2. |
| ParserContextScenarios.InnerLabelReachesLoop | graal-js/src/com.oracle.js.parser/src/com/oracle/js/parser/ParserContext.java:183-188 | `continue L2` reaches the loop. |
| ParserContextScenarios.ChainedLabelsUnlabelledJumps | graal-js/src/com.oracle.js.parser/src/com/oracle/js/parser/ParserContext.java:137-188 | Unlabelled `continue` and `break` reach the loop too; the loop's own body block is not a target for them. |
| ParserContextScenarios.LabelOnBlockIsNoContinueTarget | graal-js/src/com.oracle.js.parser/src/com/oracle/js/parser/ParserContext.java:222-225 | In `L: { for (;;) { continue L; } }` the continue has no target, while `break L` leaves the block. |
| ParserContextScenarios.SyntheticBlockIsTransparent | graal-js/src/com.oracle.js.parser/src/com/oracle/js/parser/ParserContext.java:222 | A synthetic block between label and loop does not hide the loop. |
| ParserContextScenarios.LabelsDoNotCrossFunctions | graal-js/src/com.oracle.js.parser/src/com/oracle/js/parser/ParserContext.java:196-231 | Inside a nested function, the enclosing function's label and loop are unreachable by findLabel, by labelled or unlabelled continue, and by unlabelled break. |
| ParserContextScenarios.CoverArrowHeadIsSkippedButFlagged | graal-js/src/com.oracle.js.parser/src/com/oracle/js/parser/ParserContext.java:258-374 | A provisional arrow head is skipped by getCurrentFunction but receives a flag set now. Once confirmed it is the current function. The non-arrow function is the enclosing one. |
| ParserContextScenarios.PropagateScenarios | graal-js/src/com.oracle.js.parser/src/com/oracle/js/parser/ParserContext.java:379-393 | With one function nothing changes. With two, exactly the outer one receives the transfer of the inner one's flags. |
| ToLength.DoLong | graal-js/src/com.oracle.truffle.js/src/com/oracle/truffle/js/nodes/cast/JSToLengthNode.java:108-120 | The result lies in [0, 2^53 - 1] and equals ToLength as the standard states it. |
| ToLength.DoInt | graal-js/src/com.oracle.truffle.js/src/com/oracle/truffle/js/nodes/cast/JSToLengthNode.java:66-73 | Negative gives 0; otherwise the value unchanged. This agrees with the general clamp. |
| ToLength.DoSafeInteger | graal-js/src/com.oracle.truffle.js/src/com/oracle/truffle/js/nodes/cast/JSToLengthNode.java:76-84 | Negative gives 0; otherwise the long value unchanged. This agrees with the general clamp. |
| ToLength.DoUndefined | graal-js/src/com.oracle.truffle.js/src/com/oracle/truffle/js/nodes/cast/JSToLengthNode.java:94-97 | Undefined has length 0, which is ToLength of ToInteger(undefined) = ToInteger(NaN) = 0. |
| ToLength.ExecuteLong | graal-js/src/com.oracle.truffle.js/src/com/oracle/truffle/js/nodes/cast/JSToLengthNode.java:63-97 | Each modelled specialization yields a result in [0, 2^53 - 1] equal to ToLength of the argument's integer value. |
| ToLength.DoLongCases | graal-js/src/com.oracle.truffle.js/src/com/oracle/truffle/js/nodes/cast/JSToLengthNode.java:111-119 | In-range values are unchanged, values above the bound become the bound, and negative values become 0. |
| ToLength.DoLongIdempotent | graal-js/src/com.oracle.truffle.js/src/com/oracle/truffle/js/nodes/cast/JSToLengthNode.java:111-119 | Clamping twice is clamping once. |
| ToLength.DoLongMonotone | graal-js/src/com.oracle.truffle.js/src/com/oracle/truffle/js/nodes/cast/JSToLengthNode.java:108-120 | The clamp preserves order. |

## Left out

- Push: the source asserts `!contains(node)` only with Java assertions enabled. The model makes it a precondition.
- Pop, Peek: the source reads `stack[sp - 1]` and fails on an empty stack; the model requires a non-empty stack.
- PrependStatement, AppendStatement: same precondition, because the source indexes `stack[sp - 1]`. Statements are opaque handles, since the `Statement` class is not part of this model.
- PrependStatement, AppendStatement, GetLastStatement: the node methods `prependStatement`, `appendStatement` and `getStatements` belong to a class that is not part of this model. They are assumed to insert at the front, insert at the end, and return one list of the node's statements. LastStatementAfterAppendAndPrepend rests on that assumption.
- GetCurrentBlock: with no block open, the source's `getBlocks().next()` throws NoSuchElementException. The model returns None instead of modelling the exception.
- GetCurrentScope: a scope is an opaque handle; the `Scope` class is not part of this model.
- The iterator-returning methods `getBlocks`, `getFunctions`, `getClasses` and `getAllNodes` are not modelled as objects. `ContextScan.FindNext` is their step, and their consumers are modelled through it. The iterator's laziness is not modelled.
- PropagateFunctionFlags: `propagateFlagsToParent` is defined in a class that is not part of this model. It is the parameter `transfer(childFlags, parentFlags)`, which gives the parent's new flag word. The model assumes it changes only the parent's flags, and that the new word depends only on the two flag words; a transfer that depends on whether the child is an arrow function (`isArrow`, kept outside the flag word here) cannot be expressed.
- SetCurrentFunctionFlag: a flag word is the set of its 1 bits (positions below 32), so `setFlag` is union. The Java `int` encoding is not modelled.
- Node: `isArrow` and `isCoverArrowHead` are plain booleans, since their encoding in the function node's flags is not visible.
- Node identity is the `id` field. Java reference equality (`==`) is modelled as equal ids.
- DoSafeInteger: the `SafeInteger` class is not part of this model. Its range is taken as [-(2^53 - 1), 2^53 - 1].
- `doDouble` and `doObject` are not modelled. They depend on the Java double-to-long cast (NaN, infinities), on `JSToNumberNode` and on `JSRuntime.toInteger`, which are floating point and code outside this model.
- The branch profiles (`InlinedBranchProfile.enter`) are not modelled. They only affect compilation.
- `JSRuntime.MAX_SAFE_INTEGER_LONG` is not part of this model; it is taken to be 2^53 - 1, as ToLength prescribes.
- `TopLevelAwaitModuleBodyNode`, `JSBitwiseAndConstantNode` and `ToTemporalDateTimeNode` are not modelled. They are runtime, dispatch and calendar code built on classes outside this model.
