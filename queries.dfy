/** The compiled queries of builder/userquery.py: OneSidedLinearUserQuery,
    OneSidedLinearUserQuerySet, TwoSidedLinearUserQuery and TwoSidedLinearUserQuerySet.
    Compiling records final concepts and type-level queries in the objects and filters
    the sets down to the members that compile against the store. */
module Queries {
  import opened Wrappers
  import opened Paths
  import opened TypeGraph

  type NeighborPair = (NodeType, NodeType)

  /** The neighbour pairs of every node of the given type after the first: the type
      before it and the type after it, or None after the last node. */
  function NeighborPairs(types: seq<NodeType>, query: NodeType): set<NeighborPair> {
    set k | 1 <= k < |types| && types[k] == query :: NeighborPairAt(types, k)
  }

  /** The types on either side of node k, None past the last node. */
  function NeighborPairAt(types: seq<NodeType>, k: nat): NeighborPair
    requires 1 <= k < |types|
  {
    (types[k - 1], if k == |types| - 1 then None else types[k + 1])
  }

  /** A pair padded with None, as the end of a one-sided path leaves it. */
  predicate OpenEnded(p: NeighborPair) {
    p.0 == None || p.1 == None
  }

  function KnownEnd(p: NeighborPair): NodeType {
    if p.0 == None then p.1 else p.0
  }

  /** TwoSidedLinearUserQuery.get_neighbor_types: the complete pairs of both halves,
      and every open pair of the left half joined with every open pair of the right. */
  function StitchNeighborTypes(left: set<NeighborPair>, right: set<NeighborPair>): set<NeighborPair> {
    (set p | p in left && !OpenEnded(p))
    + (set p | p in right && !OpenEnded(p))
    + (set le, re | le in left && OpenEnded(le) && re in right && OpenEnded(re) :: (KnownEnd(le), KnownEnd(re)))
  }

  /** Splitting a path at an interior node loses nothing, whatever its neighbours' types
      (None included): the two halves, stitched, give back that node's neighbour pair in
      the whole path. */
  lemma StitchRecoversSharedNode(d: QueryDef, i: nat)
    requires Shaped(d) && 0 < i < |d.transitions|
    ensures var l, r := GenerateLeftQueryDef(d, i).value, GenerateRightQueryDef(d, i).value;
      var x := d.nodeTypes[i];
      && (d.nodeTypes[i - 1], d.nodeTypes[i + 1]) in NeighborPairs(d.nodeTypes, x)
      && (d.nodeTypes[i - 1], d.nodeTypes[i + 1]) in StitchNeighborTypes(NeighborPairs(l.nodeTypes, x), NeighborPairs(r.nodeTypes, x))
  {
    LeftRightComplement(d, i);
    var l, r := GenerateLeftQueryDef(d, i).value, GenerateRightQueryDef(d, i).value;
    var x := d.nodeTypes[i];
    var n := |r.nodeTypes|;
    assert l.nodeTypes[i] == x && l.nodeTypes[i - 1] == d.nodeTypes[i - 1];
    var le := (d.nodeTypes[i - 1], None);
    assert le in NeighborPairs(l.nodeTypes, x);
    ReversedAt(Drop(d.nodeTypes, i), n - 1);
    ReversedAt(Drop(d.nodeTypes, i), n - 2);
    assert r.nodeTypes[n - 1] == x && r.nodeTypes[n - 2] == d.nodeTypes[i + 1];
    var re := (d.nodeTypes[i + 1], None);
    assert re in NeighborPairs(r.nodeTypes, x);
    assert (KnownEnd(le), KnownEnd(re)) == (d.nodeTypes[i - 1], d.nodeTypes[i + 1]);
  }

  /** The union of a sequence of sets. */
  function Union<T>(parts: seq<set<T>>): set<T> {
    if parts == [] then {} else Union(parts[..|parts| - 1]) + parts[|parts| - 1]
  }

  /** The concatenation of a sequence of sequences (Python's sum(lists, [])). */
  function Flatten<T>(parts: seq<seq<T>>): seq<T> {
    if parts == [] then [] else Flatten(parts[..|parts| - 1]) + parts[|parts| - 1]
  }

  /** A pair is in the union exactly when it is in one of the parts. */
  lemma {:induction false} UnionMember<T>(parts: seq<set<T>>, x: T)
    ensures x in Union(parts) <==> exists k :: 0 <= k < |parts| && x in parts[k]
  {
    if parts != [] {
      var front := parts[..|parts| - 1];
      UnionMember(front, x);
      if x in Union(front) {
        var k :| 0 <= k < |front| && x in front[k];
        assert parts[k] == front[k];
      }
      if exists k :: 0 <= k < |parts| && x in parts[k] {
        var k :| 0 <= k < |parts| && x in parts[k];
        if k < |front| {
          assert front[k] == parts[k];
        }
      }
    }
  }

  /** The sum of a sequence of counts. */
  function Sum(xs: seq<nat>): nat {
    if xs == [] then 0 else Sum(xs[..|xs| - 1]) + xs[|xs| - 1]
  }

  /** Concatenating parts of the given sizes gives the sum of the sizes. */
  lemma {:induction false} FlattenLength<T>(parts: seq<seq<T>>, sizes: seq<nat>)
    requires |parts| == |sizes| && forall k :: 0 <= k < |parts| ==> |parts[k]| == sizes[k]
    ensures |Flatten(parts)| == Sum(sizes)
  {
    if parts != [] {
      FlattenLength(parts[..|parts| - 1], sizes[..|sizes| - 1]);
    }
  }

  /** Part k of the concatenation starts after the sizes of the parts before it. */
  lemma {:induction false} FlattenAt<T>(parts: seq<seq<T>>, sizes: seq<nat>, k: nat)
    requires |parts| == |sizes| && forall j :: 0 <= j < |parts| ==> |parts[j]| == sizes[j]
    requires k < |parts|
    ensures Sum(sizes[..k]) <= Sum(sizes[..k + 1]) <= |Flatten(parts)|
    ensures Flatten(parts)[Sum(sizes[..k])..Sum(sizes[..k + 1])] == parts[k]
  {
    var n := |parts|;
    var front, fsizes := parts[..n - 1], sizes[..n - 1];
    FlattenLength(parts, sizes);
    FlattenLength(front, fsizes);
    assert sizes[..k + 1][..k] == sizes[..k];
    if k == n - 1 {
      assert sizes[..k] == fsizes;
    } else {
      FlattenAt(front, fsizes, k);
      assert fsizes[..k] == sizes[..k] && fsizes[..k + 1] == sizes[..k + 1];
      FlattenPrefix(parts, sizes, k + 1);
    }
  }

  /** Block k of xs, when the first k + 1 sizes fit in it. */
  function Block<T>(xs: seq<T>, sizes: seq<nat>, k: nat): seq<T>
    requires k < |sizes|
  {
    if Sum(sizes[..k]) <= Sum(sizes[..k + 1]) <= |xs| then xs[Sum(sizes[..k])..Sum(sizes[..k + 1])] else []
  }

  /** Every part is a block of the concatenation. */
  lemma FlattenBlocks<T>(parts: seq<seq<T>>, sizes: seq<nat>)
    requires |parts| == |sizes| && forall j :: 0 <= j < |parts| ==> |parts[j]| == sizes[j]
    ensures |Flatten(parts)| == Sum(sizes)
    ensures forall k :: 0 <= k < |parts| ==> Block(Flatten(parts), sizes, k) == parts[k]
  {
    FlattenLength(parts, sizes);
    forall k | 0 <= k < |parts|
      ensures Block(Flatten(parts), sizes, k) == parts[k]
    {
      FlattenAt(parts, sizes, k);
    }
  }

  /** The sizes of the first k parts add up to at most the sizes of all of them. */
  lemma {:induction false} FlattenPrefix<T>(parts: seq<seq<T>>, sizes: seq<nat>, k: nat)
    requires |parts| == |sizes| && forall j :: 0 <= j < |parts| ==> |parts[j]| == sizes[j]
    requires k < |parts|
    ensures Sum(sizes[..k]) <= Sum(sizes[..|sizes| - 1])
    decreases |parts| - k
  {
    if k < |parts| - 1 {
      FlattenPrefix(parts, sizes, k + 1);
      assert sizes[..k + 1][..k] == sizes[..k];
    }
  }

  /** OneSidedLinearUserQuery: one start value and the path it must follow. The final
      concepts and type-level queries are recorded when it is compiled. */
  class OneSidedQuery {
    const startValue: Value
    const startType: NodeType
    const nodeTypes: seq<NodeType>
    const transitions: seq<Transition>
    var finalConcepts: set<Concept>
    var cyphers: seq<TypeQuery>

    constructor (startValue: Value, d: QueryDef)
      ensures this.startValue == startValue && startType == d.startType
      ensures nodeTypes == d.nodeTypes && transitions == d.transitions
      ensures finalConcepts == {} && cyphers == []
    {
      this.startValue := startValue;
      startType := d.startType;
      nodeTypes := d.nodeTypes;
      transitions := d.transitions;
      finalConcepts := {};
      cyphers := [];
    }

    /** get_neighbor_types */
    method GetNeighborTypes(queryNodeType: NodeType) returns (neighborTypes: set<NeighborPair>)
      ensures neighborTypes == NeighborPairs(nodeTypes, queryNodeType)
    {
      neighborTypes := {};
      var nodeNumber := 0;
      while nodeNumber < |nodeTypes|
        invariant 0 <= nodeNumber <= |nodeTypes|
        invariant neighborTypes ==
          set k | 1 <= k < nodeNumber && nodeTypes[k] == queryNodeType :: NeighborPairAt(nodeTypes, k)
      {
        if nodeNumber != 0 && nodeTypes[nodeNumber] == queryNodeType {
          var pair := if nodeNumber == |nodeTypes| - 1 then (nodeTypes[nodeNumber - 1], None)
                      else (nodeTypes[nodeNumber - 1], nodeTypes[nodeNumber + 1]);
          neighborTypes := neighborTypes + {pair};
        }
        nodeNumber := nodeNumber + 1;
      }
    }

    /** create_cypher: when the concept query finds paths, one type-level query per
        path replaces the recorded ones and every path's final concept is added. */
    method CreateCypher(g: Store) returns (cs: seq<TypeQuery>)
      modifies this
      ensures var paths := ConceptPaths(g, nodeTypes, transitions);
        if paths == [] then cs == [] && unchanged(this)
        else (cs == TypeQueries(startValue, paths) && cyphers == cs
              && finalConcepts == old(finalConcepts) + FinalConceptsOf(paths))
    {
      var paths := g.runConceptQuery(GenerateConceptQuery(nodeTypes, transitions));
      if |paths| == 0 {
        return [];
      }
      cyphers := [];
      var k := 0;
      while k < |paths|
        invariant 0 <= k <= |paths|
        invariant cyphers == TypeQueries(startValue, paths[..k])
        invariant finalConcepts == old(finalConcepts) + FinalConceptsOf(paths[..k])
      {
        var conceptNames := ExtractConceptNodes(paths[k]);
        assert paths[..k + 1] == paths[..k] + [paths[k]];
        FinalConceptsOfSnoc(paths[..k], paths[k]);
        finalConcepts := finalConcepts + {conceptNames[|conceptNames| - 1]};
        cyphers := cyphers + [TypeQuery(startValue, conceptNames)];
        k := k + 1;
      }
      assert paths[..k] == paths;
      cs := cyphers;
    }

    /** compile_query: whether some recorded type-level query has a program. */
    method CompileQuery(g: Store) returns (ok: bool)
      modifies this
      ensures ok == OneSidedFeasible(g, startValue, nodeTypes, transitions)
      ensures finalConcepts == old(finalConcepts) + FinalConcepts(g, nodeTypes, transitions)
    {
      var cs := CreateCypher(g);
      ghost var paths := ConceptPaths(g, nodeTypes, transitions);
      if |cs| == 0 {
        return false;
      }
      var programs: seq<Program> := [];
      var k := 0;
      while k < |cs|
        invariant 0 <= k <= |cs|
        invariant |programs| > 0 <==> exists j :: 0 <= j < k && |g.getTransitions(cs[j])| > 0
      {
        programs := programs + g.getTransitions(cs[k]);
        k := k + 1;
      }
      assert forall j :: 0 <= j < |cs| ==> cs[j] == TypeQuery(startValue, ExtractConceptNodes(paths[j]));
      ok := |programs| > 0;
    }
  }

  /** The members that compile against the store, in order. */
  function Survivors(g: Store, qs: seq<OneSidedQuery>): (r: seq<OneSidedQuery>)
    ensures forall q :: q in r ==> q in qs
  {
    if qs == [] then []
    else
      var q := qs[|qs| - 1];
      Survivors(g, qs[..|qs| - 1])
      + (if OneSidedFeasible(g, q.startValue, q.nodeTypes, q.transitions) then [q] else [])
  }

  lemma {:induction false} SurvivorsEmpty(g: Store, qs: seq<OneSidedQuery>)
    ensures Survivors(g, qs) == [] <==>
      forall k :: 0 <= k < |qs| ==> !OneSidedFeasible(g, qs[k].startValue, qs[k].nodeTypes, qs[k].transitions)
  {
    if qs != [] {
      SurvivorsEmpty(g, qs[..|qs| - 1]);
    }
  }

  lemma {:induction false} SurvivorsDistinct(g: Store, qs: seq<OneSidedQuery>)
    requires forall a, b :: 0 <= a < b < |qs| ==> qs[a] != qs[b]
    ensures var r := Survivors(g, qs); forall a, b :: 0 <= a < b < |r| ==> r[a] != r[b]
  {
    if qs != [] {
      var front := qs[..|qs| - 1];
      SurvivorsDistinct(g, front);
      assert qs[|qs| - 1] !in front;
      assert qs[|qs| - 1] !in Survivors(g, front);
    }
  }

  /** Members built one per start value survive exactly when the set is feasible. */
  lemma PristineSurvivors(g: Store, qs: seq<OneSidedQuery>, s: OneSidedSpec)
    requires |qs| == |s.startValues|
    requires forall k :: 0 <= k < |qs| ==>
      qs[k].startValue == s.startValues[k] && qs[k].nodeTypes == s.nodeTypes && qs[k].transitions == s.transitions
    ensures Survivors(g, qs) != [] <==> SetFeasible(g, s)
  {
    SurvivorsEmpty(g, qs);
  }

  /** The start values of the members, in order. */
  function StartValues(qs: seq<OneSidedQuery>): (vs: seq<Value>)
    ensures |vs| == |qs| && forall k :: 0 <= k < |qs| ==> vs[k] == qs[k].startValue
  {
    seq(|qs|, k requires 0 <= k < |qs| => qs[k].startValue)
  }

  /** Members built one per start value survive exactly for the start values that compile,
      in order. */
  lemma {:induction false} SurvivorValues(g: Store, qs: seq<OneSidedQuery>, s: OneSidedSpec)
    requires |qs| == |s.startValues|
    requires forall k :: 0 <= k < |qs| ==>
      qs[k].startValue == s.startValues[k] && qs[k].nodeTypes == s.nodeTypes && qs[k].transitions == s.transitions
    ensures StartValues(Survivors(g, qs)) == Kept(g, s)
  {
    if qs != [] {
      var n := |qs|;
      var front := s.(startValues := s.startValues[..n - 1]);
      SurvivorValues(g, qs[..n - 1], front);
      var q := qs[n - 1];
      var tail := if OneSidedFeasible(g, q.startValue, q.nodeTypes, q.transitions) then [q] else [];
      assert Survivors(g, qs) == Survivors(g, qs[..n - 1]) + tail;
      StartValuesAppend(Survivors(g, qs[..n - 1]), tail);
    }
  }

  lemma StartValuesAppend(a: seq<OneSidedQuery>, b: seq<OneSidedQuery>)
    ensures StartValues(a + b) == StartValues(a) + StartValues(b)
  {
  }

  /** Members that all recorded the same final concepts have those as their union. */
  lemma UniformUnion(qs: seq<OneSidedQuery>, fin: set<Concept>)
    requires forall k :: 0 <= k < |qs| ==> qs[k].finalConcepts == fin
    ensures (set k, c | 0 <= k < |qs| && c in qs[k].finalConcepts :: c) == if qs == [] then {} else fin
  {
    if qs != [] {
      var u := set k, c | 0 <= k < |qs| && c in qs[k].finalConcepts :: c;
      forall x | x in fin ensures x in u {
        assert x in qs[0].finalConcepts;
      }
    }
  }

  /** OneSidedLinearUserQuerySet: one member per start value, all following the same path. */
  class OneSidedSet {
    const lookupNode: Option<Lookup>
    ghost const spec: OneSidedSpec
    var queries: seq<OneSidedQuery>
    /** The final concepts every member has recorded so far. */
    ghost var recorded: set<Concept>
    ghost var Repr: set<object>

    ghost predicate Valid()
      reads this, Repr
    {
      && this in Repr
      && (forall k :: 0 <= k < |queries| ==> queries[k] in Repr)
      && (forall a, b :: 0 <= a < b < |queries| ==> queries[a] != queries[b])
      && OnPath()
      && (forall k :: 0 <= k < |queries| ==> queries[k].finalConcepts == recorded)
    }

    /** Every member runs on the set's own path. */
    ghost predicate OnPath()
      reads this
    {
      forall k :: 0 <= k < |queries| ==>
        queries[k].nodeTypes == spec.nodeTypes && queries[k].transitions == spec.transitions
    }

    /** As built and not yet compiled: a member per start value, nothing recorded. */
    ghost predicate Pristine()
      reads this, Repr
      requires Valid()
    {
      && recorded == {}
      && |queries| == |spec.startValues|
      && forall k :: 0 <= k < |queries| ==> queries[k].startValue == spec.startValues[k]
    }

    constructor (d: QueryDef)
      requires d.startValues.Some?
      ensures Valid() && Pristine() && fresh(Repr)
      ensures spec == SpecOf(d) && lookupNode == d.startLookup
    {
      var values := d.startValues.value;
      var qs: seq<OneSidedQuery> := [];
      var k := 0;
      while k < |values|
        invariant 0 <= k <= |values| && |qs| == k
        invariant forall j :: 0 <= j < k ==> fresh(qs[j])
        invariant forall a, b :: 0 <= a < b < k ==> qs[a] != qs[b]
        invariant forall j :: 0 <= j < k ==>
          qs[j].startValue == values[j] && qs[j].nodeTypes == d.nodeTypes
          && qs[j].transitions == d.transitions && qs[j].finalConcepts == {}
      {
        var q := new OneSidedQuery(values[k], d);
        qs := qs + [q];
        k := k + 1;
      }
      lookupNode := d.startLookup;
      spec := SpecOf(d);
      queries := qs;
      recorded := {};
      new;
      Repr := {this} + set j | 0 <= j < |qs| :: qs[j];
    }

    /** The union of the members' final concepts (get_final_concepts). */
    ghost function FinalConceptsUnion(): (u: set<Concept>)
      reads this, Repr
      requires Valid()
      ensures u == if queries == [] then {} else recorded
    {
      UniformUnion(queries, recorded);
      set k, c | 0 <= k < |queries| && c in queries[k].finalConcepts :: c
    }

    /** get_final_concepts */
    method GetFinalConcepts() returns (fc: set<Concept>)
      requires Valid()
      ensures fc == FinalConceptsUnion()
    {
      fc := {};
      var k := 0;
      while k < |queries|
        invariant 0 <= k <= |queries|
        invariant fc == set j, c | 0 <= j < k && c in queries[j].finalConcepts :: c
      {
        fc := fc + queries[k].finalConcepts;
        k := k + 1;
      }
    }

    /** get_reversed: no member of a one-sided set is reversed. */
    function GetReversed(): (flags: seq<bool>)
      reads this
      ensures |flags| == |queries| && forall k :: 0 <= k < |flags| ==> !flags[k]
    {
      seq(|queries|, _ => false)
    }

    /** The neighbour pairs of the first n members, together. */
    function NeighborTypesUpTo(n: nat, queryNodeType: NodeType): set<NeighborPair>
      reads this
      requires n <= |queries|
    {
      if n == 0 then {}
      else NeighborTypesUpTo(n - 1, queryNodeType) + NeighborPairs(queries[n - 1].nodeTypes, queryNodeType)
    }

    function NeighborTypes(queryNodeType: NodeType): set<NeighborPair>
      reads this
    {
      NeighborTypesUpTo(|queries|, queryNodeType)
    }

    /** The members share one path, so together they have its neighbour pairs (and none
        when no member is left). */
    lemma {:induction false} SharedNeighborTypes(n: nat, queryNodeType: NodeType)
      requires OnPath() && n <= |queries|
      ensures NeighborTypesUpTo(n, queryNodeType) ==
        if n == 0 then {} else NeighborPairs(spec.nodeTypes, queryNodeType)
    {
      if n > 0 {
        SharedNeighborTypes(n - 1, queryNodeType);
      }
    }

    /** get_neighbor_types */
    method GetNeighborTypes(queryNodeType: NodeType) returns (ntypes: set<NeighborPair>)
      ensures ntypes == NeighborTypes(queryNodeType)
    {
      ntypes := {};
      var k := 0;
      while k < |queries|
        invariant 0 <= k <= |queries|
        invariant ntypes == NeighborTypesUpTo(k, queryNodeType)
      {
        var more := queries[k].GetNeighborTypes(queryNodeType);
        ntypes := ntypes + more;
        k := k + 1;
      }
    }

    /** compile_query: keep exactly the members that compile, every member recording
        the final concepts of the shared path; report whether any is left. */
    method CompileQuery(g: Store) returns (ok: bool)
      requires Valid()
      modifies Repr
      ensures Valid() && Repr == old(Repr)
      ensures queries == Survivors(g, old(queries))
      ensures ok <==> queries != []
      ensures recorded == old(recorded) + FinalConcepts(g, spec.nodeTypes, spec.transitions)
      ensures old(Pristine()) ==> (ok <==> SetFeasible(g, spec))
      ensures old(Pristine()) ==> StartValues(queries) == Kept(g, spec)
    {
      ghost var pristine := Pristine();
      var qs := queries;
      var kept := CompileMembers(g, qs, spec.nodeTypes, spec.transitions, recorded);
      assert forall j :: 0 <= j < |kept| ==> kept[j] in qs;
      SurvivorsDistinct(g, qs);
      queries := kept;
      recorded := recorded + FinalConcepts(g, spec.nodeTypes, spec.transitions);
      ok := |queries| > 0;
      if pristine {
        PristineSurvivors(g, qs, spec);
        SurvivorValues(g, qs, spec);
      }
    }
  }

  /** The filter of compile_query: every member is compiled in turn and those that
      compile are kept, in order. Members that share one path and one record of final
      concepts all end up with that path's final concepts added. */
  method CompileMembers(g: Store, qs: seq<OneSidedQuery>, ghost types: seq<NodeType>,
                        ghost transitions: seq<Transition>, ghost before: set<Concept>)
    returns (kept: seq<OneSidedQuery>)
    requires forall j :: 0 <= j < |qs| ==>
      qs[j].nodeTypes == types && qs[j].transitions == transitions && qs[j].finalConcepts == before
    requires forall a, b :: 0 <= a < b < |qs| ==> qs[a] != qs[b]
    modifies set j | 0 <= j < |qs| :: qs[j]
    ensures kept == Survivors(g, qs)
    ensures forall j :: 0 <= j < |qs| ==> qs[j].finalConcepts == before + FinalConcepts(g, types, transitions)
  {
    ghost var fin := FinalConcepts(g, types, transitions);
    kept := [];
    var k := 0;
    while k < |qs|
      invariant 0 <= k <= |qs|
      invariant kept == Survivors(g, qs[..k])
      invariant forall j :: 0 <= j < k ==> qs[j].finalConcepts == before + fin
      invariant forall j :: k <= j < |qs| ==> qs[j].finalConcepts == before
    {
      var q := qs[k];
      var compiled := q.CompileQuery(g);
      assert qs[..k + 1][..k] == qs[..k];
      if compiled {
        kept := kept + [q];
      }
      k := k + 1;
    }
    assert qs[..k] == qs;
  }

  /** TwoSidedLinearUserQuery: a left and a right one-sided set meant to meet in the middle. */
  class TwoSidedQuery {
    const query1: OneSidedSet
    const query2: OneSidedSet
    ghost const Repr: set<object>

    ghost predicate Valid()
      reads this, Repr
    {
      && this in Repr && query1 in Repr && query2 in Repr
      && query1.Repr <= Repr && query2.Repr <= Repr
      && this !in query1.Repr && this !in query2.Repr
      && query1.Repr !! query2.Repr
      && query1.Valid() && query2.Valid()
    }

    ghost predicate Pristine()
      reads this, Repr
      requires Valid()
    {
      query1.Pristine() && query2.Pristine()
    }

    constructor (left: OneSidedSet, right: OneSidedSet)
      requires left.Valid() && right.Valid() && left.Repr !! right.Repr
      ensures Valid() && query1 == left && query2 == right
      ensures Repr == {this} + left.Repr + right.Repr
    {
      query1 := left;
      query2 := right;
      Repr := {this} + left.Repr + right.Repr;
    }

    /** compile_query: both halves compile (the right one is only tried when the left
        one does) and their final concepts intersect. */
    method CompileQuery(g: Store) returns (ok: bool)
      requires Valid() && Pristine()
      modifies Repr
      ensures Valid()
      ensures ok == TwoSidedFeasible(g, query1.spec, query2.spec)
      ensures query1.queries == Survivors(g, old(query1.queries))
      ensures query2.queries == if query1.queries != [] then Survivors(g, old(query2.queries)) else old(query2.queries)
      ensures StartValues(query1.queries) == Kept(g, query1.spec)
      ensures StartValues(query2.queries) ==
        if SetFeasible(g, query1.spec) then Kept(g, query2.spec) else query2.spec.startValues
    {
      var leftOk := query1.CompileQuery(g);
      if !leftOk {
        return false;
      }
      var rightOk := query2.CompileQuery(g);
      if !rightOk {
        return false;
      }
      var concepts1 := query1.GetFinalConcepts();
      var concepts2 := query2.GetFinalConcepts();
      ok := |concepts1 * concepts2| > 0;
      assert ok <==> concepts1 * concepts2 != {};
    }

    /** get_reversed: the left members are not reversed, the right members are. */
    function GetReversed(): (flags: seq<bool>)
      reads this, query1, query2
      ensures |flags| == |query1.queries| + |query2.queries|
      ensures forall k :: 0 <= k < |flags| ==> (flags[k] <==> k >= |query1.queries|)
    {
      query1.GetReversed() + seq(|query2.GetReversed()|, _ => true)
    }

    function NeighborTypes(queryNodeType: NodeType): set<NeighborPair>
      reads this, query1, query2
    {
      StitchNeighborTypes(query1.NeighborTypes(queryNodeType), query2.NeighborTypes(queryNodeType))
    }

    /** get_neighbor_types */
    method GetNeighborTypes(queryNodeType: NodeType) returns (neighborTypes: set<NeighborPair>)
      ensures neighborTypes == NeighborTypes(queryNodeType)
    {
      var left := query1.GetNeighborTypes(queryNodeType);
      var right := query2.GetNeighborTypes(queryNodeType);
      neighborTypes := StitchNeighborTypes(left, right);
    }
  }

  /** TwoSidedLinearUserQuerySet: the two-sided queries that compiled. */
  class TwoSidedSet {
    var queries: seq<TwoSidedQuery>
    /** The store each stored query was compiled against. */
    ghost var stores: seq<Store>
    ghost var Repr: set<object>

    /** Every stored query compiled against the store it was added with, and each of
        its halves kept exactly the start values that compile there. */
    ghost predicate Valid()
      reads this, Repr
    {
      && this in Repr
      && |stores| == |queries|
      && forall k :: 0 <= k < |queries| ==> Holds(k)
    }

    /** The k-th stored query is in the footprint and compiled against stores[k]. */
    ghost predicate Holds(k: int)
      reads this, Repr
      requires 0 <= k < |queries| == |stores|
    {
      && queries[k] in Repr && queries[k].Repr <= Repr
      && queries[k].query1 in Repr && queries[k].query2 in Repr
      && TwoSidedFeasible(stores[k], queries[k].query1.spec, queries[k].query2.spec)
      && queries[k].query1.OnPath() && queries[k].query2.OnPath()
      && StartValues(queries[k].query1.queries) == Kept(stores[k], queries[k].query1.spec)
      && StartValues(queries[k].query2.queries) == Kept(stores[k], queries[k].query2.spec)
    }

    constructor ()
      ensures Valid() && queries == [] && stores == [] && fresh(Repr)
    {
      queries := [];
      stores := [];
      Repr := {this};
    }

    /** add_query: compile the query and keep it only if it compiled. */
    method AddQuery(query: TwoSidedQuery, g: Store)
      requires Valid() && query.Valid() && query.Pristine() && query.Repr !! Repr
      modifies this, query.Repr
      ensures Valid() && Repr == old(Repr) + query.Repr
      ensures queries == old(queries)
        + if TwoSidedFeasible(g, query.query1.spec, query.query2.spec) then [query] else []
      ensures stores == old(stores)
        + if TwoSidedFeasible(g, query.query1.spec, query.query2.spec) then [g] else []
      ensures query.query1.OnPath() && query.query2.OnPath()
      ensures StartValues(query.query1.queries) == Kept(g, query.query1.spec)
      ensures StartValues(query.query2.queries) ==
        if SetFeasible(g, query.query1.spec) then Kept(g, query.query2.spec) else query.query2.spec.startValues
    {
      var compiled := query.CompileQuery(g);
      Absorb(query, compiled, g);
    }

    /** Take in the footprint of a compiled query, and keep the query when it compiled. */
    method Absorb(query: TwoSidedQuery, compiled: bool, g: Store)
      requires Valid() && query.Valid() && query.Repr !! Repr
      requires query.query1.OnPath() && query.query2.OnPath()
      requires compiled == TwoSidedFeasible(g, query.query1.spec, query.query2.spec)
      requires compiled ==>
        && StartValues(query.query1.queries) == Kept(g, query.query1.spec)
        && StartValues(query.query2.queries) == Kept(g, query.query2.spec)
      modifies this
      ensures Valid() && Repr == old(Repr) + query.Repr
      ensures queries == old(queries) + if compiled then [query] else []
      ensures stores == old(stores) + if compiled then [g] else []
    {
      ghost var before, storesBefore := queries, stores;
      if compiled {
        queries := queries + [query];
        stores := stores + [g];
      }
      Repr := Repr + query.Repr;
      forall k | 0 <= k < |queries|
        ensures Holds(k)
      {
        if k < |before| {
          assert queries[k] == before[k] && stores[k] == storesBefore[k];
          assert old(Holds(k));
        }
      }
    }

    /** compile_query: the set compiles exactly when one of its queries compiled. */
    function CompileQuery(): (ok: bool)
      reads this, Repr
      requires Valid()
      ensures ok <==> exists k :: 0 <= k < |queries| && TwoSidedFeasible(stores[k], queries[k].query1.spec, queries[k].query2.spec)
    {
      if queries == [] then false
      else assert Holds(0); true
    }

    /** Each stored query has the neighbour pairs of its two halves' paths, stitched:
        both halves compiled, so neither is left without members. */
    lemma StoredNeighborTypes(k: int, queryNodeType: NodeType)
      requires Valid() && 0 <= k < |queries|
      ensures queries[k].NeighborTypes(queryNodeType) ==
        StitchNeighborTypes(NeighborPairs(queries[k].query1.spec.nodeTypes, queryNodeType),
                            NeighborPairs(queries[k].query2.spec.nodeTypes, queryNodeType))
    {
      assert Holds(k);
      var q := queries[k];
      KeptEmpty(stores[k], q.query1.spec);
      KeptEmpty(stores[k], q.query2.spec);
      assert |q.query1.queries| == |StartValues(q.query1.queries)| > 0;
      assert |q.query2.queries| == |StartValues(q.query2.queries)| > 0;
      q.query1.SharedNeighborTypes(|q.query1.queries|, queryNodeType);
      q.query2.SharedNeighborTypes(|q.query2.queries|, queryNodeType);
    }

    /** The number of members of both halves of each stored query. */
    function MemberCounts(): (counts: seq<nat>)
      reads this, queries, (set q | q in queries :: q.query1), (set q | q in queries :: q.query2)
      ensures |counts| == |queries|
    {
      seq(|queries|, k reads this, queries, (set q | q in queries :: q.query1), (set q | q in queries :: q.query2)
                       requires 0 <= k < |queries| => |queries[k].query1.queries| + |queries[k].query2.queries|)
    }

    /** get_reversed: the flags of the stored queries, one block after the other, a flag
        per member of either half. */
    function GetReversed(): (flags: seq<bool>)
      reads this, queries, (set q | q in queries :: q.query1), (set q | q in queries :: q.query2)
      ensures |flags| == Sum(MemberCounts())
      ensures forall k :: 0 <= k < |queries| ==> Block(flags, MemberCounts(), k) == queries[k].GetReversed()
    {
      var parts := seq(|queries|, k reads this, queries, (set q | q in queries :: q.query1), (set q | q in queries :: q.query2)
                                    requires 0 <= k < |queries| => queries[k].GetReversed());
      FlattenBlocks(parts, MemberCounts());
      Flatten(parts)
    }

    /** The neighbour pairs of each stored query, in order. */
    function NeighborTypeParts(queryNodeType: NodeType): (parts: seq<set<NeighborPair>>)
      reads this, queries, (set q | q in queries :: q.query1), (set q | q in queries :: q.query2)
      ensures |parts| == |queries|
    {
      seq(|queries|, k reads this, queries, (set q | q in queries :: q.query1), (set q | q in queries :: q.query2)
                       requires 0 <= k < |queries| => queries[k].NeighborTypes(queryNodeType))
    }

    /** get_neighbor_types: the union over the stored queries. */
    method GetNeighborTypes(queryNodeType: NodeType) returns (returnSet: set<NeighborPair>)
      ensures returnSet == Union(NeighborTypeParts(queryNodeType))
    {
      ghost var parts := NeighborTypeParts(queryNodeType);
      returnSet := {};
      var k := 0;
      while k < |queries|
        invariant 0 <= k <= |queries|
        invariant returnSet == Union(parts[..k])
      {
        var more := queries[k].NeighborTypes(queryNodeType);
        assert parts[..k + 1] == parts[..k] + [more];
        returnSet := returnSet + more;
        k := k + 1;
      }
      assert parts[..k] == parts;
    }
  }
}
