/** The type graph store as the compiler sees it, and what it means for a one-sided or
    a two-sided query to compile against it (builder/userquery.py, the concept-level
    and type-level queries of OneSidedLinearUserQuery and the feasibility checks of the
    query sets). The store itself is an opaque oracle: two total functions. */
module TypeGraph {
  import opened Wrappers
  import opened Paths

  type Concept = string
  type Program = string

  /** The nodes of one path fragment of a concept-level row (never empty). */
  type Segment = s: seq<Concept> | |s| > 0 witness [""]

  /** One row returned by a concept-level query: a fragment per transition. */
  type ConceptPath = p: seq<Segment> | |p| > 0 witness [[""]]

  /** The fragment generate_concept_cypher_pathstring emits for one transition:
      a single translation edge, or all shortest paths within the length window. */
  datatype PathFragment = DirectEdge | AllShortestPaths(minPathLength: int, maxPathLength: int)

  /** A concept-level query, abstracted from its text: the fragment of each transition in
      order, and the (position, type) name constraints of its WHERE part. */
  datatype ConceptQuery = ConceptQuery(paths: seq<PathFragment>, nameConstraints: seq<(nat, NodeType)>)

  /** A type-level query, abstracted from its text: the start value it is anchored on
      and the concept names it walks through. */
  datatype TypeQuery = TypeQuery(startValue: Value, conceptNames: seq<Concept>)

  /** The store: run_cypher_query on concept-level queries and get_transitions on
      type-level ones. */
  datatype Store = Store(runConceptQuery: ConceptQuery -> seq<ConceptPath>,
                         getTransitions: TypeQuery -> seq<Program>)

  function ConceptPathFragment(t: Transition): (f: PathFragment)
    ensures f.AllShortestPaths? <==> t.maxPathLength > 1
    ensures f.AllShortestPaths? ==> f.minPathLength == t.minPathLength && f.maxPathLength == t.maxPathLength
  {
    if t.maxPathLength > 1 then AllShortestPaths(t.minPathLength, t.maxPathLength) else DirectEdge
  }

  /** The name constraints for positions from..|types|-1, skipping UNSPECIFIED nodes. */
  function NameConstraints(types: seq<NodeType>, from: nat): seq<(nat, NodeType)>
    decreases |types| - from
  {
    if from >= |types| then []
    else if types[from] == UNSPECIFIED then NameConstraints(types, from + 1)
    else [(from, types[from])] + NameConstraints(types, from + 1)
  }

  /** Exactly the typed positions are pinned, each to its own type. */
  lemma {:induction false} NameConstraintsExact(types: seq<NodeType>, from: nat, k: nat, t: NodeType)
    ensures (k, t) in NameConstraints(types, from) <==>
      from <= k < |types| && types[k] == t && t != UNSPECIFIED
    decreases |types| - from
  {
    if from < |types| {
      NameConstraintsExact(types, from + 1, k, t);
    }
  }

  /** generate_concept_cypher, abstracted from its text. */
  function GenerateConceptQuery(types: seq<NodeType>, transitions: seq<Transition>): (q: ConceptQuery)
    ensures |q.paths| == |transitions|
  {
    ConceptQuery(seq(|transitions|, k requires 0 <= k < |transitions| => ConceptPathFragment(transitions[k])),
                 NameConstraints(types, 0))
  }

  /** extract_concept_nodes: the first node of every fragment, then the last node of the
      last fragment. */
  function ExtractConceptNodes(path: ConceptPath): (names: seq<Concept>)
    ensures |names| == |path| + 1
    ensures forall k :: 0 <= k < |path| ==> names[k] == path[k][0]
    ensures names[|path|] == Last(path[|path| - 1])
  {
    seq(|path|, k requires 0 <= k < |path| => path[k][0]) + [Last(path[|path| - 1])]
  }

  /** The concept paths the store returns for a definition's node types and transitions.
      They do not depend on the start value. */
  function ConceptPaths(g: Store, types: seq<NodeType>, transitions: seq<Transition>): seq<ConceptPath> {
    g.runConceptQuery(GenerateConceptQuery(types, transitions))
  }

  /** The final concept of each concept path. */
  function FinalConceptsOf(paths: seq<ConceptPath>): set<Concept> {
    set k | 0 <= k < |paths| :: Last(ExtractConceptNodes(paths[k]))
  }

  function FinalConcepts(g: Store, types: seq<NodeType>, transitions: seq<Transition>): set<Concept> {
    FinalConceptsOf(ConceptPaths(g, types, transitions))
  }

  /** One type-level query per concept path, anchored on the start value. */
  function TypeQueries(startValue: Value, paths: seq<ConceptPath>): (qs: seq<TypeQuery>)
    ensures |qs| == |paths|
  {
    seq(|paths|, k requires 0 <= k < |paths| => TypeQuery(startValue, ExtractConceptNodes(paths[k])))
  }

  /** A one-sided query compiles when some concept path yields a type-level query for
      which the store finds at least one program. */
  predicate OneSidedFeasible(g: Store, startValue: Value, types: seq<NodeType>, transitions: seq<Transition>) {
    var paths := ConceptPaths(g, types, transitions);
    exists k :: 0 <= k < |paths| && |g.getTransitions(TypeQuery(startValue, ExtractConceptNodes(paths[k])))| > 0
  }

  /** What a one-sided query set is made from: its start values and the shared path. */
  datatype OneSidedSpec = OneSidedSpec(startValues: seq<Value>, nodeTypes: seq<NodeType>, transitions: seq<Transition>)

  function SpecOf(d: QueryDef): OneSidedSpec
    requires d.startValues.Some?
  {
    OneSidedSpec(d.startValues.value, d.nodeTypes, d.transitions)
  }

  /** A one-sided set compiles when one of its start values does. */
  predicate SetFeasible(g: Store, s: OneSidedSpec) {
    exists k :: 0 <= k < |s.startValues| && OneSidedFeasible(g, s.startValues[k], s.nodeTypes, s.transitions)
  }

  /** A two-sided query compiles when both halves compile and their final concepts meet. */
  predicate TwoSidedFeasible(g: Store, left: OneSidedSpec, right: OneSidedSpec) {
    SetFeasible(g, left) && SetFeasible(g, right)
    && FinalConcepts(g, left.nodeTypes, left.transitions) * FinalConcepts(g, right.nodeTypes, right.transitions) != {}
  }

  /** A split is feasible when both its halves have start values and they compile together. */
  predicate SplitFeasible(g: Store, p: (QueryDef, QueryDef)) {
    p.0.startValues.Some? && p.1.startValues.Some? && TwoSidedFeasible(g, SpecOf(p.0), SpecOf(p.1))
  }

  /** A half that compiles has reached at least one final concept, and one whose concept
      query returns nothing compiles for no start value. */
  lemma FeasibleReachesConcept(g: Store, s: OneSidedSpec)
    ensures SetFeasible(g, s) ==> FinalConcepts(g, s.nodeTypes, s.transitions) != {}
    ensures ConceptPaths(g, s.nodeTypes, s.transitions) == [] ==> !SetFeasible(g, s)
  {
    if SetFeasible(g, s) {
      var paths := ConceptPaths(g, s.nodeTypes, s.transitions);
      var k :| 0 <= k < |paths|;
      assert Last(ExtractConceptNodes(paths[k])) in FinalConcepts(g, s.nodeTypes, s.transitions);
    }
  }

  /** Two halves whose final concepts are disjoint never compile together, whatever the
      store says about each half. */
  lemma DisjointHalvesInfeasible(g: Store, left: OneSidedSpec, right: OneSidedSpec)
    requires FinalConcepts(g, left.nodeTypes, left.transitions) !! FinalConcepts(g, right.nodeTypes, right.transitions)
    ensures !TwoSidedFeasible(g, left, right)
  {
  }

  /** FinalConceptsOf grows by one concept per path appended. */
  lemma FinalConceptsOfSnoc(paths: seq<ConceptPath>, p: ConceptPath)
    ensures FinalConceptsOf(paths + [p]) == FinalConceptsOf(paths) + {Last(ExtractConceptNodes(p))}
  {
    var ps := paths + [p];
    forall c | c in FinalConceptsOf(ps)
      ensures c in FinalConceptsOf(paths) + {Last(ExtractConceptNodes(p))}
    {
      var k :| 0 <= k < |ps| && c == Last(ExtractConceptNodes(ps[k]));
      if k < |paths| {
        assert ps[k] == paths[k];
      }
    }
    forall c | c in FinalConceptsOf(paths)
      ensures c in FinalConceptsOf(ps)
    {
      var k :| 0 <= k < |paths| && c == Last(ExtractConceptNodes(paths[k]));
      assert ps[k] == paths[k];
    }
    assert ps[|paths|] == p;
  }

  /** The elements of xs that satisfy f, in order. */
  function Filter<T>(f: T -> bool, xs: seq<T>): (r: seq<T>)
    ensures |r| <= |xs|
    ensures forall k :: 0 <= k < |r| ==> f(r[k])
    ensures r == [] <==> forall j :: 0 <= j < |xs| ==> !f(xs[j])
  {
    if xs == [] then []
    else
      var front := xs[..|xs| - 1];
      assert forall k :: 0 <= k < |front| ==> front[k] == xs[k];
      Filter(f, front) + (if f(xs[|xs| - 1]) then [xs[|xs| - 1]] else [])
  }

  /** The start values that compile, in order: what a freshly built one-sided set keeps. */
  function KeptValues(g: Store, values: seq<Value>, types: seq<NodeType>, transitions: seq<Transition>): (kept: seq<Value>)
    ensures |kept| <= |values|
    ensures kept == [] <==> forall k :: 0 <= k < |values| ==> !OneSidedFeasible(g, values[k], types, transitions)
  {
    if values == [] then []
    else
      var front := values[..|values| - 1];
      assert forall k :: 0 <= k < |front| ==> front[k] == values[k];
      KeptValues(g, front, types, transitions)
      + (if OneSidedFeasible(g, values[|values| - 1], types, transitions) then [values[|values| - 1]] else [])
  }

  function Kept(g: Store, s: OneSidedSpec): seq<Value> {
    KeptValues(g, s.startValues, s.nodeTypes, s.transitions)
  }

  /** A one-sided set keeps a start value exactly when it compiles. */
  lemma KeptEmpty(g: Store, s: OneSidedSpec)
    ensures Kept(g, s) == [] <==> !SetFeasible(g, s)
  {
  }

  /** The splits that compile, in order: those whose two-sided queries a two-sided set keeps. */
  function FeasibleSplits(g: Store, splits: seq<(QueryDef, QueryDef)>): (r: seq<(QueryDef, QueryDef)>)
    ensures |r| <= |splits|
  {
    Filter(p => SplitFeasible(g, p), splits)
  }

  /** Every split kept compiles, and none is kept exactly when no split compiles. */
  lemma FeasibleSplitsFeasible(g: Store, splits: seq<(QueryDef, QueryDef)>)
    ensures var r := FeasibleSplits(g, splits);
      && (forall k :: 0 <= k < |r| ==> SplitFeasible(g, r[k]))
      && (r == [] <==> forall j :: 0 <= j < |splits| ==> !SplitFeasible(g, splits[j]))
  {
  }
}
