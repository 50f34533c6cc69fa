/** The open syntactic constructs tracked by the parser's lexical-context stack,
    and the capability tests the stack's scans ask of them. */
module ContextNodes {

  datatype Option<+T> = None | Some(value: T)

  /** Opaque identity of the lexical scope record owned by a scopable construct. */
  datatype ScopeRef = ScopeRef(handle: nat)

  /** Opaque identity of a statement recorded in a construct's statement list. */
  datatype Statement = Statement(handle: nat)

  /** A bit position of a function node's flag word (a 32-bit Java `int`). */
  type FlagBit = b: nat | b < 32

  /** A flag word, as the set of its 1 bits; `|` on words is union of sets. */
  type FlagWord = set<FlagBit>

  /** One open construct. A node may have several capabilities at once (a function
      is usually also scopable; a block is breakable and scopable). `id` stands for
      object identity: two records with the same id are the same node. */
  datatype Node = Node(
    id: nat,
    isFunction: bool, isArrow: bool, isCoverArrowHead: bool, flags: FlagWord,
    isBlock: bool, isSynthetic: bool,
    isLoop: bool,
    isBreakable: bool, breakableWithoutLabel: bool,
    isLabel: bool, labelName: string,
    isClass: bool,
    isScopable: bool, scope: ScopeRef,
    statements: seq<Statement>)

  /** The node classes a scan can be restricted to. */
  datatype NodeClass =
    | AnyNode | FunctionNode | BlockNode | LoopNode | BreakableNode
    | LabelNode | ClassNode | ScopableNode

  /** Whether `n` is an instance of class `c`. A loop is a breakable construct. */
  predicate IsA(n: Node, c: NodeClass) {
    match c
    case AnyNode => true
    case FunctionNode => n.isFunction
    case BlockNode => n.isBlock
    case LoopNode => n.isLoop
    case BreakableNode => n.isBreakable || n.isLoop
    case LabelNode => n.isLabel
    case ClassNode => n.isClass
    case ScopableNode => n.isScopable
  }

  /** What a labelled jump may target: any breakable (`break`) or only a loop (`continue`). */
  datatype Target = BreakTarget | ContinueTarget

  function TargetClass(t: Target): NodeClass {
    match t
    case BreakTarget => BreakableNode
    case ContinueTarget => LoopNode
  }

  /** A source block (not a compiler-inserted one) met while looking for a `continue`
      target: the label outside it cannot name a loop inside it. */
  predicate ResetsCandidate(n: Node, t: Target) {
    t == ContinueTarget && n.isBlock && !n.isSynthetic
  }

  /** The extra test a query applies to nodes of its class. */
  datatype Filter =
    | Every
    | UnlabelledBreak
    | Named(name: string)
    | NotArrow
    | NotCoverArrowHead
    | LabelledEvent(target: Target)

  predicate Passes(n: Node, f: Filter) {
    match f
    case Every => true
    case UnlabelledBreak => n.breakableWithoutLabel
    case Named(name) => n.labelName == name
    case NotArrow => !n.isArrow
    case NotCoverArrowHead => !n.isCoverArrowHead
    case LabelledEvent(t) =>
      // a node that changes the labelled search's candidate: a reset or a target
      !n.isLabel && (ResetsCandidate(n, t) || IsA(n, TargetClass(t)))
  }

  datatype Query = Query(cls: NodeClass, filter: Filter)

  predicate Matches(n: Node, q: Query) {
    IsA(n, q.cls) && Passes(n, q.filter)
  }

  /** `n` is the boundary node `until` (compared by identity); no node is the absent boundary. */
  predicate IsUntil(n: Node, until: Option<Node>) {
    until.Some? && n.id == until.value.id
  }

  /** Some node on the stack `s` is `n`. */
  ghost predicate OnStack(s: seq<Node>, n: Node) {
    exists i :: 0 <= i < |s| && s[i].id == n.id
  }

  /** No node is open twice. */
  ghost predicate UniqueIds(s: seq<Node>) {
    forall i, j :: 0 <= i < j < |s| ==> s[i].id != s[j].id
  }
}
