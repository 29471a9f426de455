/** Path definitions of the query compiler: typed transitions, query definitions,
    and the ways a definition with fixed values at both ends is split into two
    one-sided halves (builder/userquery.py, classes Transition and QueryDefinition). */
module Paths {
  import opened Wrappers

  /** A node type: a name from the type vocabulary, or Python's None. */
  type NodeType = Option<string>

  /** The sentinel type of the slack nodes a split introduces. Its actual text is
      defined in greent.node_types, which is not part of this model. */
  const UNSPECIFIED: NodeType := Some("unspecified")

  type Value = string
  type Lookup = string

  /** A typed edge with a window of path lengths. The source does not check the
      bounds here, and splitting produces windows of -1, so they are plain ints. */
  datatype Transition = Transition(inType: NodeType, outType: NodeType, minPathLength: int, maxPathLength: int)
  {
    /** generate_reverse: the same window, walked from the other end. */
    function Reverse(): Transition {
      Transition(outType, inType, minPathLength, maxPathLength)
    }
  }

  lemma ReverseInvolutive(t: Transition)
    ensures t.Reverse().Reverse() == t
    ensures t.Reverse().inType == t.outType && t.Reverse().outType == t.inType
    ensures t.Reverse().minPathLength == t.minPathLength && t.Reverse().maxPathLength == t.maxPathLength
  {
  }

  /** QueryDefinition: the node types a path passes through, the transitions between
      them, the values fixed at either end and the lookup tokens they came from. */
  datatype QueryDef = QueryDef(
    startValues: Option<seq<Value>>,
    startType: NodeType,
    endValues: Option<seq<Value>>,
    nodeTypes: seq<NodeType>,
    transitions: seq<Transition>,
    startLookup: Option<Lookup>,
    endLookup: Option<Lookup>)

  /** The shape every definition built by the builder has: one more node than transitions. */
  predicate Shaped(d: QueryDef) {
    |d.nodeTypes| == |d.transitions| + 1
  }

  /** Shaped, and each transition joins the two node types on either side of it. */
  predicate Chained(d: QueryDef) {
    Shaped(d) &&
    forall k :: 0 <= k < |d.transitions| ==>
      d.transitions[k].inType == d.nodeTypes[k] && d.transitions[k].outType == d.nodeTypes[k + 1]
  }

  /** The errors the split operations raise. */
  datatype SplitError =
    | InvalidBreakPoint(i: int)   // ValueError("Invalid break point")
    | EmptyNodeTypes              // IndexError of node_types[-1] on an empty list

  // ---------------------------------------------------------------------------
  // Python sequence helpers

  /** Python's s[:n] for n >= 0 (clipped at the end). */
  function Take<T>(s: seq<T>, n: nat): seq<T> {
    if n <= |s| then s[..n] else s
  }

  /** Python's s[n:] for n >= 0 (empty past the end). */
  function Drop<T>(s: seq<T>, n: nat): seq<T> {
    if n <= |s| then s[n..] else []
  }

  function Last<T>(s: seq<T>): T
    requires s != []
  {
    s[|s| - 1]
  }

  /** list.reverse() */
  function Reversed<T>(s: seq<T>): (r: seq<T>)
    ensures |r| == |s|
  {
    if s == [] then [] else Reversed(s[1..]) + [s[0]]
  }

  lemma {:induction false} ReversedAt<T>(s: seq<T>, k: nat)
    requires k < |s|
    ensures Reversed(s)[k] == s[|s| - 1 - k]
  {
    if k < |s| - 1 {
      ReversedAt(s[1..], k);
    }
  }

  lemma ReversedTwice<T>(s: seq<T>)
    ensures Reversed(Reversed(s)) == s
  {
    var r := Reversed(s);
    forall k | 0 <= k < |s|
      ensures Reversed(r)[k] == s[k]
    {
      ReversedAt(r, k);
      ReversedAt(s, |s| - 1 - k);
    }
  }

  /** [t.generate_reverse() for t in ts] */
  function ReverseEach(ts: seq<Transition>): (r: seq<Transition>)
    ensures |r| == |ts|
  {
    seq(|ts|, k requires 0 <= k < |ts| => ts[k].Reverse())
  }

  /** Reversing every transition twice restores them all. */
  lemma ReverseEachTwice(ts: seq<Transition>)
    ensures ReverseEach(ReverseEach(ts)) == ts
  {
  }

  lemma ReverseEachReversed(ts: seq<Transition>)
    ensures ReverseEach(Reversed(ts)) == Reversed(ReverseEach(ts))
  {
    forall k | 0 <= k < |ts|
      ensures ReverseEach(Reversed(ts))[k] == Reversed(ReverseEach(ts))[k]
    {
      ReversedAt(ts, k);
      ReversedAt(ReverseEach(ts), k);
    }
  }

  // ---------------------------------------------------------------------------
  // Left and right halves

  /** generate_left_query_def: the first i transitions and the i + 1 node types they join,
      with the start values, start type and start lookup of the whole definition. */
  function GenerateLeftQueryDef(d: QueryDef, i: int): (r: Result<QueryDef, SplitError>)
    ensures r.Failure? <==> i < 0 || i > |d.transitions|
    ensures r.Failure? ==> r.error == InvalidBreakPoint(i)
  {
    if i < 0 || i > |d.transitions| then Failure(InvalidBreakPoint(i))
    else Success(QueryDef(d.startValues, d.startType, None,
                          Take(d.nodeTypes, i + 1), Take(d.transitions, i),
                          d.startLookup, None))
  }

  /** generate_right_query_def: the node types from i on and the transitions from i on,
      both reversed and each transition reversed, starting from the end values, the
      last node type and the end lookup of the whole definition. */
  function GenerateRightQueryDef(d: QueryDef, i: int): (r: Result<QueryDef, SplitError>)
    ensures r.Failure? <==> i < 0 || i > |d.transitions| || d.nodeTypes == []
    ensures (i < 0 || i > |d.transitions|) ==> r == Failure(InvalidBreakPoint(i))
  {
    if i < 0 || i > |d.transitions| then Failure(InvalidBreakPoint(i))
    else if d.nodeTypes == [] then Failure(EmptyNodeTypes)
    else Success(QueryDef(d.endValues, Last(d.nodeTypes), None,
                          Reversed(Drop(d.nodeTypes, i)),
                          ReverseEach(Reversed(Drop(d.transitions, i))),
                          d.endLookup, None))
  }

  /** For a shaped definition and a valid break point, the left half followed by the
      right half read backwards (without the node they share) is the whole definition. */
  lemma LeftRightComplement(d: QueryDef, i: int)
    requires Shaped(d) && 0 <= i <= |d.transitions|
    ensures GenerateLeftQueryDef(d, i).Success? && GenerateRightQueryDef(d, i).Success?
    ensures var l, r := GenerateLeftQueryDef(d, i).value, GenerateRightQueryDef(d, i).value;
      && |l.nodeTypes| == i + 1 && |r.nodeTypes| == |d.nodeTypes| - i
      && l.nodeTypes + Reversed(r.nodeTypes)[1..] == d.nodeTypes
      && l.transitions + ReverseEach(Reversed(r.transitions)) == d.transitions
      && Last(l.nodeTypes) == d.nodeTypes[i] == Last(r.nodeTypes)
      && r.nodeTypes[0] == Last(d.nodeTypes) == r.startType
      && l.startValues == d.startValues && l.startType == d.startType && l.startLookup == d.startLookup
      && r.startValues == d.endValues && r.startLookup == d.endLookup
      && Shaped(l) && Shaped(r)
  {
    var r := GenerateRightQueryDef(d, i).value;
    ReversedTwice(Drop(d.nodeTypes, i));
    ReversedAt(Drop(d.nodeTypes, i), 0);
    ReversedAt(Drop(d.nodeTypes, i), |d.nodeTypes| - i - 1);
    ReverseEachReversed(Drop(d.transitions, i));
    ReversedTwice(ReverseEach(Drop(d.transitions, i)));
    assert d.nodeTypes == d.nodeTypes[..i + 1] + d.nodeTypes[i + 1..];
    assert d.transitions == d.transitions[..i] + d.transitions[i..];
  }

  /** Both halves of a chained definition are chained: the right half's transitions
      join its own node types after the double reversal. */
  lemma LeftRightChained(d: QueryDef, i: int)
    requires Chained(d) && 0 <= i <= |d.transitions|
    ensures Chained(GenerateLeftQueryDef(d, i).value)
    ensures GenerateRightQueryDef(d, i).Success? && Chained(GenerateRightQueryDef(d, i).value)
  {
    var r := GenerateRightQueryDef(d, i).value;
    var n := |d.transitions| - i;
    forall k | 0 <= k < n
      ensures r.transitions[k].inType == r.nodeTypes[k] && r.transitions[k].outType == r.nodeTypes[k + 1]
    {
      ReversedAt(Drop(d.transitions, i), k);
      ReversedAt(Drop(d.nodeTypes, i), k);
      ReversedAt(Drop(d.nodeTypes, i), k + 1);
    }
  }

  // ---------------------------------------------------------------------------
  // Splits

  /** generate_paired_query_sharing_node: no split at the start node, otherwise the
      left and right halves that share node i. */
  function GeneratePairedQuerySharingNode(d: QueryDef, i: int): (r: Result<seq<(QueryDef, QueryDef)>, SplitError>)
    ensures i == 0 ==> r == Success([])
    ensures i != 0 ==>
      (r.Success? <==> GenerateLeftQueryDef(d, i).Success? && GenerateRightQueryDef(d, i).Success?)
    ensures i != 0 && r.Success? ==>
      && GenerateLeftQueryDef(d, i).Success? && GenerateRightQueryDef(d, i).Success?
      && r.value == [(GenerateLeftQueryDef(d, i).value, GenerateRightQueryDef(d, i).value)]
  {
    if i == 0 then Success([])
    else
      match GenerateLeftQueryDef(d, i)
      case Failure(e) => Failure(e)
      case Success(left) =>
        match GenerateRightQueryDef(d, i)
        case Failure(e) => Failure(e)
        case Success(right) => Success([(left, right)])
  }

  lemma SharingNodeSplit(d: QueryDef, i: int)
    requires d.nodeTypes != []
    ensures GeneratePairedQuerySharingNode(d, i).Failure? <==> i != 0 && (i < 0 || i > |d.transitions|)
    ensures 0 < i <= |d.transitions| ==> |GeneratePairedQuerySharingNode(d, i).value| == 1
  {
  }

  /** split_at_transition: the left half up to node i and the reversed right half from
      node i + 1, each closed by a new UNSPECIFIED node reached through a transition of
      exactly numOnLeft - 1 (resp. numOnRight - 1) steps. Both new transitions start at
      the left half's last type, as in the source. */
  function SplitAtTransition(d: QueryDef, i: nat, numOnLeft: int, numOnRight: int): (QueryDef, QueryDef)
    requires i < |d.transitions| && d.nodeTypes != []
  {
    var left := GenerateLeftQueryDef(d, i).value;
    var right := GenerateRightQueryDef(d, i + 1).value;
    var joint := Last(left.nodeTypes);
    (Closed(left, joint, numOnLeft - 1), Closed(right, joint, numOnRight - 1))
  }

  /** A half closed by a new UNSPECIFIED node, reached from a node of type from in
      exactly n steps. */
  function Closed(h: QueryDef, from: NodeType, n: int): QueryDef {
    h.(transitions := h.transitions + [Transition(from, UNSPECIFIED, n, n)],
       nodeTypes := h.nodeTypes + [UNSPECIFIED])
  }

  /** Every transition before the k-th joins the node types on either side of it. */
  predicate ChainedBefore(h: QueryDef, k: nat) {
    Shaped(h) && k <= |h.transitions| &&
    forall j :: 0 <= j < k ==>
      h.transitions[j].inType == h.nodeTypes[j] && h.transitions[j].outType == h.nodeTypes[j + 1]
  }

  /** Closing a chained half keeps every old transition chained; the new one is chained
      exactly when it starts at the half's last type. */
  lemma ClosedChained(h: QueryDef, from: NodeType, n: int)
    requires Chained(h) && h.nodeTypes != []
    ensures ChainedBefore(Closed(h, from, n), |h.transitions|)
    ensures Chained(Closed(h, from, n)) <==> from == Last(h.nodeTypes)
  {
    var c := Closed(h, from, n);
    forall k | 0 <= k < |h.transitions|
      ensures c.transitions[k].inType == c.nodeTypes[k] && c.transitions[k].outType == c.nodeTypes[k + 1]
    {
      assert c.transitions[k] == h.transitions[k] && c.nodeTypes[k + 1] == h.nodeTypes[k + 1];
    }
    assert c.transitions[|h.transitions|].inType == from;
  }

  /** Splitting inside a transition of a chained definition: the left half is chained;
      the right half is chained up to its new transition, which starts at node i, so the
      whole right half is chained exactly when nodes i and i + 1 have the same type. */
  lemma SplitAtTransitionChained(d: QueryDef, i: nat, numOnLeft: int, numOnRight: int)
    requires Chained(d) && i < |d.transitions|
    ensures var (l, r) := SplitAtTransition(d, i, numOnLeft, numOnRight);
      && Chained(l)
      && ChainedBefore(r, |r.transitions| - 1) && Last(r.transitions).inType == d.nodeTypes[i]
      && (Chained(r) <==> d.nodeTypes[i] == d.nodeTypes[i + 1])
  {
    var l, r := GenerateLeftQueryDef(d, i).value, GenerateRightQueryDef(d, i + 1).value;
    LeftRightChained(d, i);
    LeftRightChained(d, i + 1);
    LeftRightComplement(d, i);
    LeftRightComplement(d, i + 1);
    ClosedChained(l, d.nodeTypes[i], numOnLeft - 1);
    ClosedChained(r, d.nodeTypes[i], numOnRight - 1);
  }

  lemma SplitAtTransitionShape(d: QueryDef, i: nat, numOnLeft: int, numOnRight: int)
    requires Shaped(d) && i < |d.transitions|
    ensures var (l, r) := SplitAtTransition(d, i, numOnLeft, numOnRight);
      && |l.nodeTypes| == i + 2 && |r.nodeTypes| == |d.transitions| - i + 1
      && Shaped(l) && Shaped(r)
      && Last(l.nodeTypes) == UNSPECIFIED && Last(r.nodeTypes) == UNSPECIFIED
      && Last(l.transitions) == Transition(d.nodeTypes[i], UNSPECIFIED, numOnLeft - 1, numOnLeft - 1)
      && Last(r.transitions) == Transition(d.nodeTypes[i], UNSPECIFIED, numOnRight - 1, numOnRight - 1)
      && l.nodeTypes[..i + 1] == d.nodeTypes[..i + 1]
      && r.nodeTypes[..|d.transitions| - i] == Reversed(d.nodeTypes[i + 1..])
      && l.startValues == d.startValues && r.startValues == d.endValues
  {
  }

  /** Tri(n) = 1 + 2 + ... + n, the number of (l, r) pairs with l + r < n. */
  function Tri(n: nat): nat {
    if n == 0 then 0 else Tri(n - 1) + n
  }

  /** The first n ways (l, s - l), l = 0, 1, ..., n - 1, of spreading s slack nodes. */
  function SpreadRow(s: nat, n: nat): seq<(int, int)> {
    if n == 0 then [] else SpreadRow(s, n - 1) + [(n - 1, s - (n - 1))]
  }

  /** For every s in range(lo, hi) in turn, every (l, s - l) with l in range(0, s + 1). */
  function SlackPairs(lo: nat, hi: int): seq<(int, int)>
    decreases hi - lo
  {
    if hi <= lo then [] else SlackPairs(lo, hi - 1) + SpreadRow(hi - 1, hi)
  }

  /** The slack distributions tried inside a transition: none for a single-step
      transition, otherwise those from max(1, min - 1) - 1 to max - 2 slack nodes. */
  function SlackPlan(t: Transition): seq<(int, int)> {
    if t.maxPathLength == 1 then []
    else
      var minimumNodes := if t.minPathLength - 1 > 1 then t.minPathLength - 1 else 1;
      SlackPairs(minimumNodes - 1, t.maxPathLength - 1)
  }

  lemma {:induction false} SpreadRowAt(s: nat, n: nat, l: nat)
    requires l < n
    ensures |SpreadRow(s, n)| == n && SpreadRow(s, n)[l] == (l, s - l)
  {
    if l < n - 1 {
      SpreadRowAt(s, n - 1, l);
    } else if n > 1 {
      SpreadRowAt(s, n - 1, 0);
    }
  }

  lemma {:induction false} SpreadRowLength(s: nat, n: nat)
    ensures |SpreadRow(s, n)| == n
  {
    if n > 0 {
      SpreadRowLength(s, n - 1);
    }
  }

  /** The number of slack distributions is the sum of s + 1 over the slack counts s tried. */
  lemma {:induction false} SlackPairsCount(lo: nat, hi: int)
    requires lo <= hi
    ensures |SlackPairs(lo, hi)| == Tri(hi) - Tri(lo)
    decreases hi - lo
  {
    if hi > lo {
      SlackPairsCount(lo, hi - 1);
      SpreadRowLength(hi - 1, hi);
    }
  }

  /** The enumeration order: the distributions of s slack nodes come right after all
      those of fewer (Tri(s) - Tri(lo) of them, by SlackPairsCount), and among them l
      counts up from 0. */
  lemma {:induction false} SlackPairsAt(lo: nat, hi: int, s: nat, l: nat)
    requires lo <= s < hi && l <= s
    ensures |SlackPairs(lo, s)| + l < |SlackPairs(lo, hi)|
      && SlackPairs(lo, hi)[|SlackPairs(lo, s)| + l] == (l, s - l)
    decreases hi - lo
  {
    SpreadRowLength(hi - 1, hi);
    if s < hi - 1 {
      SlackPairsAt(lo, hi - 1, s, l);
    } else {
      SpreadRowAt(hi - 1, hi, l);
    }
  }

  /** Every distribution splits between lo and hi - 1 slack nodes into non-negative parts. */
  lemma {:induction false} SlackPairsBounds(lo: nat, hi: int, k: nat)
    requires k < |SlackPairs(lo, hi)|
    ensures var (l, r) := SlackPairs(lo, hi)[k]; l >= 0 && r >= 0 && lo <= l + r < hi
    decreases hi - lo
  {
    var prev := SlackPairs(lo, hi - 1);
    if k < |prev| {
      SlackPairsBounds(lo, hi - 1, k);
    } else {
      SpreadRowLength(hi - 1, hi);
      SpreadRowAt(hi - 1, hi, k - |prev|);
    }
  }

  /** A single-step transition cannot be split. A longer one is split in
      sum(s + 1) ways, s ranging over the slack counts tried. */
  lemma SlackPlanCount(t: Transition)
    ensures t.maxPathLength == 1 ==> SlackPlan(t) == []
    ensures t.maxPathLength != 1 ==>
      var lo := (if t.minPathLength - 1 > 1 then t.minPathLength - 1 else 1) - 1;
      |SlackPlan(t)| == if t.maxPathLength - 1 <= lo then 0 else Tri(t.maxPathLength - 1) - Tri(lo)
  {
    if t.maxPathLength != 1 {
      var lo := (if t.minPathLength - 1 > 1 then t.minPathLength - 1 else 1) - 1;
      if lo <= t.maxPathLength - 1 {
        SlackPairsCount(lo, t.maxPathLength - 1);
      }
    }
  }

  /** A transition of 1 to 3 steps is split with 0 or 1 slack nodes, in this order. */
  lemma SlackPlanOneToThree(a: NodeType, b: NodeType)
    ensures SlackPlan(Transition(a, b, 1, 3)) == [(0, 0), (0, 1), (1, 0)]
  {
    assert SpreadRow(0, 1) == [(0, 0)];
    assert SpreadRow(1, 2) == [(0, 1), (1, 0)];
  }

  /** The splits split_at_transition yields for the given slack distributions. */
  function SplitsFor(d: QueryDef, i: nat, plan: seq<(int, int)>): (r: seq<(QueryDef, QueryDef)>)
    requires i < |d.transitions| && d.nodeTypes != []
    ensures |r| == |plan|
  {
    seq(|plan|, k requires 0 <= k < |plan| => SplitAtTransition(d, i, plan[k].0, plan[k].1))
  }

  lemma SplitsForAppend(d: QueryDef, i: nat, plan: seq<(int, int)>, more: seq<(int, int)>)
    requires i < |d.transitions| && d.nodeTypes != []
    ensures SplitsFor(d, i, plan + more) == SplitsFor(d, i, plan) + SplitsFor(d, i, more)
  {
    var a, b, c := SplitsFor(d, i, plan + more), SplitsFor(d, i, plan), SplitsFor(d, i, more);
    forall k | 0 <= k < |a|
      ensures a[k] == (b + c)[k]
    {
      if k >= |plan| {
        assert (plan + more)[k] == more[k - |plan|];
      }
    }
  }

  lemma SplitsForSnoc(d: QueryDef, i: nat, plan: seq<(int, int)>, numOnLeft: int, numOnRight: int)
    requires i < |d.transitions| && d.nodeTypes != []
    ensures SplitsFor(d, i, plan + [(numOnLeft, numOnRight)])
      == SplitsFor(d, i, plan) + [SplitAtTransition(d, i, numOnLeft, numOnRight)]
  {
    SplitsForAppend(d, i, plan, [(numOnLeft, numOnRight)]);
  }

  /** The inner loop of generate_paired_query_splitting_transition: for s slack nodes,
      the splits with l = 0, 1, ..., s nodes on the left and s - l on the right. */
  method SpreadSplits(d: QueryDef, i: nat, s: nat) returns (row: seq<(QueryDef, QueryDef)>)
    requires i < |d.transitions| && d.nodeTypes != []
    ensures row == SplitsFor(d, i, SpreadRow(s, s + 1))
  {
    row := [];
    var numOnLeft: nat := 0;
    while numOnLeft < s + 1
      invariant numOnLeft <= s + 1
      invariant row == SplitsFor(d, i, SpreadRow(s, numOnLeft))
    {
      var numOnRight := s - numOnLeft;
      SplitsForSnoc(d, i, SpreadRow(s, numOnLeft), numOnLeft, numOnRight);
      row := row + [SplitAtTransition(d, i, numOnLeft, numOnRight)];
      numOnLeft := numOnLeft + 1;
    }
  }

  /** generate_paired_query_splitting_transition: one split per slack distribution of
      transition i, accumulated in the source's loop order. */
  method GeneratePairedQuerySplittingTransition(d: QueryDef, i: nat) returns (splits: seq<(QueryDef, QueryDef)>)
    requires i < |d.transitions| && d.nodeTypes != []
    ensures splits == SplitsFor(d, i, SlackPlan(d.transitions[i]))
  {
    var transition := d.transitions[i];
    if transition.maxPathLength == 1 {
      return [];
    }
    splits := [];
    var minimumNodes := if transition.minPathLength - 1 > 1 then transition.minPathLength - 1 else 1;
    var lo: nat := minimumNodes - 1;
    var nodesToSpread: nat := lo;
    while nodesToSpread < transition.maxPathLength - 1
      invariant lo <= nodesToSpread
      invariant nodesToSpread <= transition.maxPathLength - 1 || nodesToSpread == lo
      invariant splits == SplitsFor(d, i, SlackPairs(lo, nodesToSpread))
      decreases transition.maxPathLength - 1 - nodesToSpread
    {
      var row := SpreadSplits(d, i, nodesToSpread);
      SplitsForAppend(d, i, SlackPairs(lo, nodesToSpread), SpreadRow(nodesToSpread, nodesToSpread + 1));
      splits := splits + row;
      nodesToSpread := nodesToSpread + 1;
    }
  }

  /** generate_paired_query: the shared-node split (if any) followed by the splits
      inside transition i. */
  function GeneratePairedQuery(d: QueryDef, i: nat): seq<(QueryDef, QueryDef)>
    requires i < |d.transitions| && d.nodeTypes != []
  {
    GeneratePairedQuerySharingNode(d, i).value + SplitsFor(d, i, SlackPlan(d.transitions[i]))
  }

  /** All splits compile_query collects, for transition indices 0 to n - 1 in turn. */
  function AllSplits(d: QueryDef, n: nat): seq<(QueryDef, QueryDef)>
    requires n <= |d.transitions| && d.nodeTypes != []
  {
    if n == 0 then [] else AllSplits(d, n - 1) + GeneratePairedQuery(d, n - 1)
  }

  /** Every split of a shaped definition is a pair of shaped one-sided definitions that
      start at the two ends of the original and finish on the same node type, so the
      two halves can meet there. */
  predicate MeetingSplit(d: QueryDef, p: (QueryDef, QueryDef))
    requires d.nodeTypes != []
  {
    Shaped(p.0) && Shaped(p.1)
    && p.0.nodeTypes[0] == d.nodeTypes[0] && p.1.nodeTypes[0] == Last(d.nodeTypes)
    && Last(p.0.nodeTypes) == Last(p.1.nodeTypes)
    && p.0.startValues == d.startValues && p.1.startValues == d.endValues
  }

  lemma SharingNodeMeets(d: QueryDef, i: nat)
    requires Shaped(d) && i < |d.transitions|
    ensures forall p :: p in GeneratePairedQuerySharingNode(d, i).value ==> MeetingSplit(d, p)
  {
    if i > 0 {
      LeftRightComplement(d, i);
    }
  }

  lemma SplittingMeets(d: QueryDef, i: nat, plan: seq<(int, int)>)
    requires Shaped(d) && i < |d.transitions|
    ensures forall p :: p in SplitsFor(d, i, plan) ==> MeetingSplit(d, p)
  {
    var splits := SplitsFor(d, i, plan);
    LeftRightComplement(d, i + 1);
    LeftRightComplement(d, i);
    forall p | p in splits
      ensures MeetingSplit(d, p)
    {
      var k :| 0 <= k < |splits| && splits[k] == p;
      SplitAtTransitionShape(d, i, plan[k].0, plan[k].1);
    }
  }

  lemma {:induction false} AllSplitsMeet(d: QueryDef, n: nat)
    requires Shaped(d) && n <= |d.transitions|
    ensures forall p :: p in AllSplits(d, n) ==> MeetingSplit(d, p)
  {
    if n > 0 {
      var prev, shared := AllSplits(d, n - 1), GeneratePairedQuerySharingNode(d, n - 1).value;
      var inside := SplitsFor(d, n - 1, SlackPlan(d.transitions[n - 1]));
      AllSplitsMeet(d, n - 1);
      SharingNodeMeets(d, n - 1);
      SplittingMeets(d, n - 1, SlackPlan(d.transitions[n - 1]));
      assert AllSplits(d, n) == prev + (shared + inside);
      forall p | p in AllSplits(d, n)
        ensures MeetingSplit(d, p)
      {
        if p !in prev && p !in shared {
          assert p in inside;
        }
      }
    }
  }

  /** The halves of every split of a chained definition: the left one chained, the right
      one chained up to its last transition. */
  predicate ChainedSplit(p: (QueryDef, QueryDef)) {
    Chained(p.0) && |p.1.transitions| > 0 && ChainedBefore(p.1, |p.1.transitions| - 1)
  }

  lemma SplitsChained(d: QueryDef, i: nat)
    requires Chained(d) && i < |d.transitions|
    ensures forall p :: p in GeneratePairedQuery(d, i) ==> ChainedSplit(p)
  {
    var shared, inside := GeneratePairedQuerySharingNode(d, i).value, SplitsFor(d, i, SlackPlan(d.transitions[i]));
    if i > 0 {
      LeftRightChained(d, i);
      LeftRightComplement(d, i);
    }
    forall p | p in GeneratePairedQuery(d, i)
      ensures ChainedSplit(p)
    {
      if p !in shared {
        var k :| 0 <= k < |inside| && inside[k] == p;
        var plan := SlackPlan(d.transitions[i]);
        SplitAtTransitionChained(d, i, plan[k].0, plan[k].1);
      }
    }
  }

  /** A property that holds of every split generate_paired_query gives for each of the
      first n transitions holds of every split AllSplits collects for them. */
  lemma {:induction false} AllSplitsAll(d: QueryDef, n: nat, f: ((QueryDef, QueryDef)) -> bool)
    requires n <= |d.transitions| && d.nodeTypes != []
    requires forall i, p :: 0 <= i < n && p in GeneratePairedQuery(d, i) ==> f(p)
    ensures forall p :: p in AllSplits(d, n) ==> f(p)
  {
    if n > 0 {
      var prev, more := AllSplits(d, n - 1), GeneratePairedQuery(d, n - 1);
      AllSplitsAll(d, n - 1, f);
      assert AllSplits(d, n) == prev + more;
      forall p | p in AllSplits(d, n)
        ensures f(p)
      {
        if p !in prev {
          assert p in more;
        }
      }
    }
  }

  lemma AllSplitsChained(d: QueryDef, n: nat)
    requires Chained(d) && n <= |d.transitions|
    ensures forall p :: p in AllSplits(d, n) ==> ChainedSplit(p)
  {
    forall i, p | 0 <= i < n && p in GeneratePairedQuery(d, i)
      ensures ChainedSplit(p)
    {
      SplitsChained(d, i);
    }
    AllSplitsAll(d, n, p => ChainedSplit(p));
  }
}
