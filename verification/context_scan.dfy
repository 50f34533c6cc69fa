/** Scans over the open nodes `s` (index 0 is the outermost construct, the last
    index the innermost). A window (lo, hi] is the stretch of positions strictly
    above `lo` and at most `hi`. */
module ContextScan {
  import opened ContextNodes

  /** `r` is the innermost (highest) position in (lo, hi] whose node matches `q`,
      or None when no node there matches. */
  ghost predicate IsInnermost(s: seq<Node>, lo: int, hi: int, q: Query, r: Option<nat>)
    requires -1 <= lo && hi < |s|
  {
    match r
    case Some(i) =>
      && lo < i <= hi
      && Matches(s[i], q)
      && forall k :: i < k <= hi ==> !Matches(s[k], q)
    case None =>
      forall k :: lo < k <= hi ==> !Matches(s[k], q)
  }

  /** `r` is the outermost (lowest) position in (lo, hi] whose node matches `q`,
      or None when no node there matches. */
  ghost predicate IsOutermost(s: seq<Node>, lo: int, hi: int, q: Query, r: Option<nat>)
    requires -1 <= lo && hi < |s|
  {
    match r
    case Some(i) =>
      && lo < i <= hi
      && Matches(s[i], q)
      && forall k :: lo < k < i ==> !Matches(s[k], q)
    case None =>
      forall k :: lo < k <= hi ==> !Matches(s[k], q)
  }

  /** Top-down scan of (lo, hi]: the shape of the context's own index loops, which
      run from the top of the stack down to its bottom. */
  function Innermost(s: seq<Node>, lo: int, hi: int, q: Query): (r: Option<nat>)
    requires -1 <= lo && -1 <= hi < |s|
    ensures IsInnermost(s, lo, hi, q, r)
    decreases hi + 1
  {
    if hi <= lo then None
    else if Matches(s[hi], q) then Some(hi)
    else Innermost(s, lo, hi - 1, q)
  }

  /** Bottom-up reference scan of (lo, hi]. */
  function Outermost(s: seq<Node>, lo: int, hi: int, q: Query): (r: Option<nat>)
    requires -1 <= lo && -1 <= hi < |s|
    ensures IsOutermost(s, lo, hi, q, r)
    decreases hi + 1
  {
    if hi <= lo then None
    else
      match Outermost(s, lo, hi - 1, q)
      case Some(i) => Some(i)
      case None => if Matches(s[hi], q) then Some(hi) else None
  }

  /** The window determines the innermost match. */
  lemma InnermostUnique(s: seq<Node>, lo: int, hi: int, q: Query, r: Option<nat>)
    requires -1 <= lo && -1 <= hi < |s|
    requires IsInnermost(s, lo, hi, q, r)
    ensures r == Innermost(s, lo, hi, q)
  {
  }

  /** The window determines the outermost match. */
  lemma OutermostUnique(s: seq<Node>, lo: int, hi: int, q: Query, r: Option<nat>)
    requires -1 <= lo && -1 <= hi < |s|
    requires IsOutermost(s, lo, hi, q, r)
    ensures r == Outermost(s, lo, hi, q)
  {
  }

  /** Lowering the top of the window past nodes that do not match changes nothing. */
  lemma InnermostSkip(s: seq<Node>, lo: int, j: int, hi: int, q: Query)
    requires -1 <= lo && -1 <= j <= hi < |s|
    requires forall k :: j < k <= hi ==> !Matches(s[k], q)
    ensures Innermost(s, lo, hi, q) == Innermost(s, lo, j, q)
  {
    InnermostUnique(s, lo, hi, q, Innermost(s, lo, j, q));
  }

  /** Where a scan from `from` downward stops: the topmost position at or below
      `from` holding the boundary node `until`, or -1 when there is none (an absent
      boundary never stops a scan). */
  function Boundary(s: seq<Node>, from: int, until: Option<Node>): (b: int)
    requires -1 <= from < |s|
    ensures -1 <= b <= from
    ensures b >= 0 ==> IsUntil(s[b], until)
    ensures forall k :: b < k <= from ==> !IsUntil(s[k], until)
    decreases from + 1
  {
    if from < 0 then -1
    else if IsUntil(s[from], until) then from
    else Boundary(s, from - 1, until)
  }

  /** Resuming a scan below a visited node keeps the same boundary. */
  lemma {:induction false} BoundaryStable(s: seq<Node>, from: int, j: int, until: Option<Node>)
    requires -1 <= j <= from < |s|
    requires Boundary(s, from, until) <= j
    ensures Boundary(s, j, until) == Boundary(s, from, until)
    decreases from - j
  {
    if j < from {
      assert !IsUntil(s[from], until);
      BoundaryStable(s, from - 1, j, until);
    }
  }

  /** The step of the context's node iterator (`NodeIterator.findNext`): walking down
      from `from`, the first node of class `c`, giving up at the boundary node
      `until`, which is never returned. It is the innermost node of class `c` in
      the window between the boundary and `from`. */
  function FindNext(s: seq<Node>, from: int, c: NodeClass, until: Option<Node>): (r: Option<nat>)
    requires -1 <= from < |s|
    ensures r == Innermost(s, Boundary(s, from, until), from, Query(c, Every))
    decreases from + 1
  {
    if from < 0 then None
    else if IsUntil(s[from], until) then None
    else if IsA(s[from], c) then Some(from)
    else FindNext(s, from - 1, c, until)
  }

  /** A loop over the iterator of class `q.cls` that returns the first node passing
      `q.filter`: the innermost match of `q` between the boundary and `from`. */
  function FirstMatch(s: seq<Node>, from: int, q: Query, until: Option<Node>): (r: Option<nat>)
    requires -1 <= from < |s|
    ensures r == Innermost(s, Boundary(s, from, until), from, q)
    decreases from + 1
  {
    var b := Boundary(s, from, until);
    match FindNext(s, from, q.cls, until)
    case None =>
      InnermostUnique(s, b, from, q, None);
      None
    case Some(i) =>
      if Passes(s[i], q.filter) then
        InnermostUnique(s, b, from, q, Some(i));
        Some(i)
      else
        BoundaryStable(s, from, i - 1, until);
        InnermostSkip(s, b, i - 1, from, q);
        FirstMatch(s, i - 1, q, until)
  }
}
