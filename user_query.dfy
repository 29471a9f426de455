/** UserQuery (builder/userquery.py): the builder the rest of the program drives. Node
    types and transitions are added one by one, then compile_query picks a one-sided
    query set or, when end values are fixed, tries every split of the path into two
    halves meeting in the middle. */
module UserQueries {
  import opened Wrappers
  import opened Paths
  import opened TypeGraph
  import opened Queries

  /** The exceptions add_node and add_transition raise. */
  datatype QueryError =
    | UnknownNodeType(nodeType: NodeType)   // 'node type must be one of greent.node_types'
    | LengthsReversed                       // maximum path length below the minimum
    | TerminalNodeSet                       // a transition after the end values were set

  /** UserQuery.query: nothing before compile_query, then the set it built. */
  datatype Compiled = NotCompiled | OneSided(oneSided: OneSidedSet) | TwoSided(twoSided: TwoSidedSet)

  /** add_node accepts None and the names of the type vocabulary (greent.node_types). */
  predicate Known(vocabulary: set<string>, t: NodeType) {
    t.None? || t.value in vocabulary
  }

  /** The definition after a transition to next is added: one more node type, and a
      transition from the previous last type to it; the end values are set if given. */
  function Extended(d: QueryDef, next: NodeType, minPathLength: int, maxPathLength: int,
                    endValues: Option<seq<Value>>): QueryDef
    requires d.nodeTypes != []
  {
    d.(nodeTypes := d.nodeTypes + [next],
       transitions := d.transitions + [Transition(Last(d.nodeTypes), next, minPathLength, maxPathLength)],
       endValues := if endValues.Some? then endValues else d.endValues)
  }

  /** Adding a transition keeps a chained definition chained, ending in the new type. */
  lemma ExtendedChained(d: QueryDef, next: NodeType, minPathLength: int, maxPathLength: int,
                        endValues: Option<seq<Value>>)
    requires Chained(d) && d.nodeTypes != []
    ensures var e := Extended(d, next, minPathLength, maxPathLength, endValues);
      Chained(e) && Last(e.nodeTypes) == next && |e.transitions| == |d.transitions| + 1
      && e.nodeTypes[..|d.nodeTypes|] == d.nodeTypes && e.transitions[..|d.transitions|] == d.transitions
  {
    var e := Extended(d, next, minPathLength, maxPathLength, endValues);
    assert e.nodeTypes[..|d.nodeTypes|] == d.nodeTypes;
    assert e.transitions[..|d.transitions|] == d.transitions;
    forall k | 0 <= k < |e.transitions|
      ensures e.transitions[k].inType == e.nodeTypes[k] && e.transitions[k].outType == e.nodeTypes[k + 1]
    {
      if k < |d.transitions| {
        assert e.transitions[k] == d.transitions[k];
        assert e.nodeTypes[k] == d.nodeTypes[k] && e.nodeTypes[k + 1] == d.nodeTypes[k + 1];
      }
    }
  }

  /** Every split compile_query collects starts its left half from the start values
      and its right half from the end values. */
  lemma {:induction false} AllSplitsStartValues(d: QueryDef, n: nat)
    requires n <= |d.transitions| && d.nodeTypes != []
    ensures forall p :: p in AllSplits(d, n) ==>
      p.0.startValues == d.startValues && p.1.startValues == d.endValues
  {
    if n > 0 {
      AllSplitsStartValues(d, n - 1);
      var i := n - 1;
      var prev, shared := AllSplits(d, i), GeneratePairedQuerySharingNode(d, i).value;
      var inside := SplitsFor(d, i, SlackPlan(d.transitions[i]));
      assert AllSplits(d, n) == prev + (shared + inside);
      forall p | p in AllSplits(d, n)
        ensures p.0.startValues == d.startValues && p.1.startValues == d.endValues
      {
        if p in inside {
          var k :| 0 <= k < |inside| && inside[k] == p;
        }
      }
    }
  }

  /** The loop of compile_query that gathers generate_paired_query(i) for every
      transition index i in turn. */
  method CollectSplits(d: QueryDef) returns (defs: seq<(QueryDef, QueryDef)>)
    requires d.nodeTypes != []
    ensures defs == AllSplits(d, |d.transitions|)
  {
    defs := [];
    var i := 0;
    while i < |d.transitions|
      invariant 0 <= i <= |d.transitions|
      invariant defs == AllSplits(d, i)
    {
      var shared := GeneratePairedQuerySharingNode(d, i);
      SharingNodeSplit(d, i);
      var inside := GeneratePairedQuerySplittingTransition(d, i);
      assert shared.value + inside == GeneratePairedQuery(d, i);
      defs := defs + (shared.value + inside);
      i := i + 1;
    }
  }

  /** A stored two-sided query is the one built from these halves and compiled against
      g: each half keeps exactly the start values that compile. */
  ghost predicate BuiltFrom(q: TwoSidedQuery, g: Store, left: OneSidedSpec, right: OneSidedSpec)
    reads q, q.query1, q.query2
  {
    && q.query1.spec == left && q.query2.spec == right
    && q.query1.OnPath() && q.query2.OnPath()
    && StartValues(q.query1.queries) == Kept(g, left)
    && StartValues(q.query2.queries) == Kept(g, right)
  }

  /** The stored queries qs (with the stores they were compiled against) are, one for
      one and in order, those built from the splits fs, every one feasible and compiled
      against g. Their halves' member lists are TwoSidedSet's own invariant. */
  ghost predicate StoredFrom(qs: seq<TwoSidedQuery>, stores: seq<Store>, g: Store, fs: seq<(QueryDef, QueryDef)>) {
    && |qs| == |fs| && |stores| == |fs|
    && forall k :: 0 <= k < |fs| ==>
         && fs[k].0.startValues.Some? && fs[k].1.startValues.Some? && stores[k] == g
         && qs[k].query1.spec == SpecOf(fs[k].0) && qs[k].query2.spec == SpecOf(fs[k].1)
  }

  lemma StoredFromSnoc(qs: seq<TwoSidedQuery>, stores: seq<Store>, g: Store, fs: seq<(QueryDef, QueryDef)>,
                       q: TwoSidedQuery, p: (QueryDef, QueryDef))
    requires StoredFrom(qs, stores, g, fs) && SplitFeasible(g, p)
    requires q.query1.spec == SpecOf(p.0) && q.query2.spec == SpecOf(p.1)
    ensures StoredFrom(qs + [q], stores + [g], g, fs + [p])
  {
    forall k | 0 <= k < |fs| + 1
      ensures (fs + [p])[k].0.startValues.Some? && (fs + [p])[k].1.startValues.Some? && (stores + [g])[k] == g
      ensures (qs + [q])[k].query1.spec == SpecOf((fs + [p])[k].0)
      ensures (qs + [q])[k].query2.spec == SpecOf((fs + [p])[k].1)
    {
      if k < |fs| {
        assert (qs + [q])[k] == qs[k] && (stores + [g])[k] == stores[k] && (fs + [p])[k] == fs[k];
      }
    }
  }

  /** A set stored from the splits fs holds, for each of them, the query built from its
      halves, each half keeping exactly the start values that compile. */
  lemma StoredBuilt(two: TwoSidedSet, g: Store, fs: seq<(QueryDef, QueryDef)>)
    requires two.Valid() && StoredFrom(two.queries, two.stores, g, fs)
    ensures forall k :: 0 <= k < |fs| ==> BuiltFrom(two.queries[k], g, SpecOf(fs[k].0), SpecOf(fs[k].1))
  {
    forall k | 0 <= k < |fs|
      ensures BuiltFrom(two.queries[k], g, SpecOf(fs[k].0), SpecOf(fs[k].1))
    {
      assert two.Holds(k);
    }
  }

  /** FeasibleSplits grows by the next split exactly when that split is feasible. */
  lemma FeasibleSplitsSnoc(g: Store, splits: seq<(QueryDef, QueryDef)>, j: nat)
    requires j < |splits|
    ensures FeasibleSplits(g, splits[..j + 1]) ==
      FeasibleSplits(g, splits[..j]) + if SplitFeasible(g, splits[j]) then [splits[j]] else []
  {
    assert splits[..j + 1][..j] == splits[..j];
  }

  /** The two-sided query of a split: a one-sided set for each half, not yet compiled. */
  method NewSplitQuery(p: (QueryDef, QueryDef)) returns (both: TwoSidedQuery)
    requires p.0.startValues.Some? && p.1.startValues.Some?
    ensures both.Valid() && both.Pristine() && fresh(both.Repr)
    ensures both.query1.spec == SpecOf(p.0) && both.query2.spec == SpecOf(p.1)
  {
    var left := new OneSidedSet(p.0);
    var right := new OneSidedSet(p.1);
    both := new TwoSidedQuery(left, right);
  }

  /** One step of compile_query's two-sided branch: the two-sided query of a split,
      built from the one-sided sets of its halves, handed to add_query. */
  method AddSplit(two: TwoSidedSet, p: (QueryDef, QueryDef), g: Store, ghost fs: seq<(QueryDef, QueryDef)>)
      returns (both: TwoSidedQuery)
    requires two.Valid() && p.0.startValues.Some? && p.1.startValues.Some?
    requires StoredFrom(two.queries, two.stores, g, fs)
    modifies two
    ensures StoredFrom(two.queries, two.stores, g, fs + if SplitFeasible(g, p) then [p] else [])
    ensures two.Valid() && two.Repr == old(two.Repr) + both.Repr && fresh(both.Repr)
    ensures both.query1.spec == SpecOf(p.0) && both.query2.spec == SpecOf(p.1)
    ensures both.query1.OnPath() && both.query2.OnPath()
    ensures two.queries == old(two.queries) + if SplitFeasible(g, p) then [both] else []
    ensures two.stores == old(two.stores) + if SplitFeasible(g, p) then [g] else []
    ensures StartValues(both.query1.queries) == Kept(g, SpecOf(p.0))
    ensures StartValues(both.query2.queries) ==
      if SetFeasible(g, SpecOf(p.0)) then Kept(g, SpecOf(p.1)) else SpecOf(p.1).startValues
  {
    both := NewSplitQuery(p);
    ghost var before, storesBefore := two.queries, two.stores;
    two.AddQuery(both, g);
    if SplitFeasible(g, p) {
      StoredFromSnoc(before, storesBefore, g, fs, both, p);
    } else {
      assert two.queries == before && two.stores == storesBefore && fs + [] == fs;
    }
  }

  /** The rest of compile_query's two-sided branch: a two-sided query per split, each
      handed to add_query of a new two-sided set, which keeps, in order, those of the
      feasible splits. */
  method BuildTwoSidedSet(splits: seq<(QueryDef, QueryDef)>, g: Store) returns (two: TwoSidedSet)
    requires forall k :: 0 <= k < |splits| ==> splits[k].0.startValues.Some? && splits[k].1.startValues.Some?
    ensures fresh(two) && two.Valid() && fresh(two.Repr)
    ensures StoredFrom(two.queries, two.stores, g, FeasibleSplits(g, splits))
  {
    two := new TwoSidedSet();
    ghost var fs: seq<(QueryDef, QueryDef)> := [];
    var j := 0;
    while j < |splits|
      invariant 0 <= j <= |splits|
      invariant two.Valid() && fresh(two.Repr)
      invariant fs == FeasibleSplits(g, splits[..j])
      invariant StoredFrom(two.queries, two.stores, g, fs)
    {
      var _ := AddSplit(two, splits[j], g, fs);
      FeasibleSplitsSnoc(g, splits, j);
      fs := fs + if SplitFeasible(g, splits[j]) then [splits[j]] else [];
      j := j + 1;
    }
    assert splits[..j] == splits;
  }

  /** What compile_query's one-sided branch leaves: the set of the whole definition, each
      start value kept exactly when it compiles, compiling when one of them does. */
  ghost predicate CompiledOneSided(one: OneSidedSet, g: Store, d: QueryDef, ok: bool)
    reads one, one.Repr
    requires d.startValues.Some?
  {
    && one.Valid() && one.spec == SpecOf(d)
    && StartValues(one.queries) == Kept(g, SpecOf(d))
    && (ok <==> SetFeasible(g, SpecOf(d)))
  }

  /** What compile_query's two-sided branch leaves: the queries of the feasible splits, in
      order, each half keeping exactly the start values that compile, compiling when one
      of the splits does. */
  ghost predicate CompiledTwoSided(two: TwoSidedSet, g: Store, d: QueryDef, ok: bool)
    reads two, two.Repr
    requires d.nodeTypes != []
  {
    var splits := AllSplits(d, |d.transitions|);
    var fs := FeasibleSplits(g, splits);
    && two.Valid() && StoredFrom(two.queries, two.stores, g, fs)
    && (forall k :: 0 <= k < |fs| ==> two.Holds(k) && BuiltFrom(two.queries[k], g, SpecOf(fs[k].0), SpecOf(fs[k].1)))
    && (ok <==> exists j :: 0 <= j < |splits| && SplitFeasible(g, splits[j]))
  }

  /** compile_query's one-sided branch. */
  method CompileOneSided(d: QueryDef, g: Store) returns (one: OneSidedSet, ok: bool)
    requires d.startValues.Some?
    ensures fresh(one) && fresh(one.Repr) && CompiledOneSided(one, g, d, ok)
  {
    one := new OneSidedSet(d);
    ok := one.CompileQuery(g);
  }

  /** compile_query's two-sided branch: the set built from every split, which compiles
      when one of the splits does. */
  method CompileTwoSided(d: QueryDef, g: Store) returns (two: TwoSidedSet, ok: bool)
    requires d.nodeTypes != [] && d.startValues.Some? && d.endValues.Some?
    ensures fresh(two) && fresh(two.Repr) && CompiledTwoSided(two, g, d, ok)
  {
    var defs := CollectSplits(d);
    AllSplitsStartValues(d, |d.transitions|);
    two := BuildTwoSidedSet(defs, g);
    StoredBuilt(two, g, FeasibleSplits(g, defs));
    FeasibleSplitsFeasible(g, defs);
    ok := two.CompileQuery();
  }

  /** The k-th neighbour set of queries stored from the splits fs is that of the k-th
      split's two paths, stitched. */
  lemma StoredNeighborTypesFrom(two: TwoSidedSet, g: Store, fs: seq<(QueryDef, QueryDef)>, queryNodeType: NodeType)
    requires two.Valid() && StoredFrom(two.queries, two.stores, g, fs)
    ensures two.NeighborTypeParts(queryNodeType) == SplitNeighborTypes(fs, queryNodeType)
  {
    var parts, want := two.NeighborTypeParts(queryNodeType), SplitNeighborTypes(fs, queryNodeType);
    forall k | 0 <= k < |fs|
      ensures parts[k] == want[k]
    {
      two.StoredNeighborTypes(k, queryNodeType);
    }
  }

  /** The stitched neighbour pairs of each split's two paths. */
  function SplitNeighborTypes(fs: seq<(QueryDef, QueryDef)>, queryNodeType: NodeType): (parts: seq<set<NeighborPair>>)
    ensures |parts| == |fs|
  {
    seq(|fs|, k requires 0 <= k < |fs| =>
      StitchNeighborTypes(NeighborPairs(fs[k].0.nodeTypes, queryNodeType), NeighborPairs(fs[k].1.nodeTypes, queryNodeType)))
  }

  /** After the two-sided compile, get_neighbor_types is the union, over the feasible
      splits in order, of each split's two paths' neighbour pairs, stitched. */
  lemma CompiledNeighborTypes(two: TwoSidedSet, g: Store, d: QueryDef, ok: bool, queryNodeType: NodeType)
    requires d.nodeTypes != [] && CompiledTwoSided(two, g, d, ok)
    ensures two.NeighborTypeParts(queryNodeType) ==
      SplitNeighborTypes(FeasibleSplits(g, AllSplits(d, |d.transitions|)), queryNodeType)
  {
    StoredNeighborTypesFrom(two, g, FeasibleSplits(g, AllSplits(d, |d.transitions|)), queryNodeType);
  }

  class UserQuery {
    /** The type vocabulary node types are checked against (greent.node_types). */
    const vocabulary: set<string>
    const startValues: seq<Value>
    const startType: NodeType
    const startLookup: Option<Lookup>
    var nodeTypes: seq<NodeType>
    var transitions: seq<Transition>
    var endValues: Option<seq<Value>>
    var endLookup: Option<Lookup>
    var query: Compiled

    /** self.definition */
    function Definition(): QueryDef
      reads this`nodeTypes, this`transitions, this`endValues, this`endLookup
    {
      QueryDef(Some(startValues), startType, endValues, nodeTypes, transitions, startLookup, endLookup)
    }

    /** The path has a first node, and every node type was accepted by add_node. */
    ghost predicate Valid()
      reads this
    {
      nodeTypes != [] && forall k :: 0 <= k < |nodeTypes| ==> Known(vocabulary, nodeTypes[k])
    }

    constructor (vocabulary: set<string>, startValues: seq<Value>, startType: NodeType, lookupNode: Option<Lookup>)
      requires Known(vocabulary, startType)
      ensures Valid() && Chained(Definition()) && query == NotCompiled
      ensures this.vocabulary == vocabulary && this.startValues == startValues
      ensures this.startType == startType && startLookup == lookupNode
      ensures nodeTypes == [startType] && transitions == [] && endValues == None && endLookup == None
    {
      this.vocabulary := vocabulary;
      this.startValues := startValues;
      this.startType := startType;
      startLookup := lookupNode;
      nodeTypes := [startType];
      transitions := [];
      endValues := None;
      endLookup := None;
      query := NotCompiled;
    }

    /** UserQuery(start_values, start_type, lookup_node): fails, as add_node does, when
        the start type is not in the vocabulary. */
    static method Create(vocabulary: set<string>, startValues: seq<Value>, startType: NodeType,
                         lookupNode: Option<Lookup>)
      returns (r: Result<UserQuery, QueryError>)
      ensures r.Failure? <==> !Known(vocabulary, startType)
      ensures r.Failure? ==> r.error == UnknownNodeType(startType)
      ensures r.Success? ==>
        && fresh(r.value) && r.value.Valid() && r.value.query == NotCompiled
        && r.value.Definition() == QueryDef(Some(startValues), startType, None, [startType], [], lookupNode, None)
    {
      if !Known(vocabulary, startType) {
        return Failure(UnknownNodeType(startType));
      }
      var q := new UserQuery(vocabulary, startValues, startType, lookupNode);
      return Success(q);
    }

    /** add_node: append a node type, refusing one outside the vocabulary. */
    method AddNode(nodeType: NodeType) returns (r: Outcome<QueryError>)
      requires Valid()
      modifies this
      ensures Valid()
      ensures r.Fail? <==> !Known(vocabulary, nodeType)
      ensures r.Fail? ==> r.error == UnknownNodeType(nodeType) && unchanged(this)
      ensures r.Pass? ==>
        && nodeTypes == old(nodeTypes) + [nodeType]
        && transitions == old(transitions) && endValues == old(endValues)
        && endLookup == old(endLookup) && query == old(query)
    {
      if !Known(vocabulary, nodeType) {
        return Fail(UnknownNodeType(nodeType));
      }
      nodeTypes := nodeTypes + [nodeType];
      return Pass;
    }

    /** add_transition: check the length window, then that no end values are set, then
        the type (all before any change); on success the definition is Extended. */
    method AddTransition(nextType: NodeType, minPathLength: int := 1, maxPathLength: int := 1,
                         newEndValues: Option<seq<Value>> := None)
      returns (r: Outcome<QueryError>)
      requires Valid()
      modifies this
      ensures Valid()
      ensures r.Fail? ==> unchanged(this)
      ensures r == if minPathLength > maxPathLength then Fail(LengthsReversed)
                   else if old(endValues).Some? then Fail(TerminalNodeSet)
                   else if !Known(vocabulary, nextType) then Fail(UnknownNodeType(nextType))
                   else Pass
      ensures r.Pass? ==>
        Definition() == Extended(old(Definition()), nextType, minPathLength, maxPathLength, newEndValues)
        && query == old(query)
    {
      if minPathLength > maxPathLength {
        return Fail(LengthsReversed);
      }
      if endValues.Some? {
        return Fail(TerminalNodeSet);
      }
      r := AddNode(nextType);
      if r.Fail? {
        return;
      }
      var t := Transition(nodeTypes[|nodeTypes| - 2], nextType, minPathLength, maxPathLength);
      transitions := transitions + [t];
      if newEndValues.Some? {
        endValues := newEndValues;
      }
    }

    /** add_end_lookup_node */
    method AddEndLookupNode(lookupNode: Option<Lookup>)
      modifies this
      ensures Definition() == old(Definition()).(endLookup := lookupNode)
      ensures query == old(query)
    {
      endLookup := lookupNode;
    }

    /** compile_query: without end values, the one-sided set of the definition, which
        compiles when one start value does; with them, a two-sided query for every split
        at every transition, which compiles when one of the splits does. */
    method CompileQuery(g: Store) returns (ok: bool)
      requires Valid()
      modifies this
      ensures Valid() && Definition() == old(Definition())
      ensures endValues.None? ==> query.OneSided? && CompiledOneSided(query.oneSided, g, Definition(), ok)
      ensures endValues.Some? ==> query.TwoSided? && CompiledTwoSided(query.twoSided, g, Definition(), ok)
    {
      if endValues.None? {
        ok := CompileAsOneSided(g);
      } else {
        ok := CompileAsTwoSided(g);
      }
    }

    /** compile_query without end values: one one-sided set for the whole path. */
    method CompileAsOneSided(g: Store) returns (ok: bool)
      requires Valid() && endValues.None?
      modifies this`query
      ensures Valid() && query.OneSided? && CompiledOneSided(query.oneSided, g, Definition(), ok)
    {
      var d := Definition();
      var one;
      one, ok := CompileOneSided(d, g);
      query := OneSided(one);
      assert CompiledOneSided(one, g, d, ok);
    }

    /** compile_query with end values: a two-sided set over every split. */
    method CompileAsTwoSided(g: Store) returns (ok: bool)
      requires Valid() && endValues.Some?
      modifies this`query
      ensures Valid() && query.TwoSided? && CompiledTwoSided(query.twoSided, g, Definition(), ok)
    {
      var d := Definition();
      var two;
      two, ok := CompileTwoSided(d, g);
      query := TwoSided(two);
      assert CompiledTwoSided(two, g, d, ok);
    }

    /** get_reversed, delegated to the compiled query (which must exist). */
    method GetReversed() returns (flags: seq<bool>)
      requires !query.NotCompiled?
      ensures query.OneSided? ==> flags == query.oneSided.GetReversed()
      ensures query.TwoSided? ==> flags == query.twoSided.GetReversed()
    {
      match query
      case OneSided(one) =>
        flags := one.GetReversed();
      case TwoSided(two) =>
        flags := two.GetReversed();
    }

    /** get_neighbor_types, delegated to the compiled query (which must exist). */
    method GetNeighborTypes(queryNodeType: NodeType) returns (neighborTypes: set<NeighborPair>)
      requires !query.NotCompiled?
      ensures query.OneSided? ==> neighborTypes == query.oneSided.NeighborTypes(queryNodeType)
      ensures query.TwoSided? ==> neighborTypes == Union(query.twoSided.NeighborTypeParts(queryNodeType))
    {
      match query
      case OneSided(one) =>
        neighborTypes := one.GetNeighborTypes(queryNodeType);
      case TwoSided(two) =>
        neighborTypes := two.GetNeighborTypes(queryNodeType);
    }
  }
}
