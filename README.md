# Path query compiler of robokop-build, in Dafny

This project models the path query compiler of `builder/userquery.py` and the IRI-to-CURIE helper
`OXOdise_term` of `builder/chemotext.py`.

A user query is a linear path of node types. Consecutive types are joined by transitions, and each
transition carries a window of path lengths. The path starts from a set of start values and may also
end at a set of end values.

`UserQuery` builds the path one node and one transition at a time. `compile_query` then works in one
of two ways:

- **One-sided** (no end values): it builds a `OneSidedLinearUserQuerySet`, with one
  `OneSidedLinearUserQuery` per start value.
- **Two-sided** (end values fixed): it splits the path at every transition, in every possible way:
  - at a node that both halves share;
  - inside a variable-length transition, spreading "slack" nodes over the two halves and closing each
    half with an `UNSPECIFIED` node.

  Each split becomes a `TwoSidedLinearUserQuery` made of two one-sided sets. The
  `TwoSidedLinearUserQuerySet` keeps only the splits that compile.

Compiling a one-sided query works in two steps:

1. The concept graph is asked for concept paths.
2. For each concept path, the concept nodes it extracts become a type-level query, and the concept it
   ends on is recorded.

The query compiles when some type-level query finds a program. A two-sided query compiles when both
halves compile and their recorded final concepts meet.

Files:

- `wrappers.dfy`: the `Option`, `Result` and `Outcome` wrappers used for the errors the source raises.
- `paths.dfy`: `Transition`, `QueryDefinition` (as the datatype `QueryDef`) and the split machinery.
  - The slack enumeration is a method with nested loops, proved against the specification function
    `SlackPlan`.
  - The helpers `Reversed`, `Take` and `Drop` model Python's list reversal and slicing.
- `type_graph.dfy`: the type-graph store as an oracle of two total functions (concept query → concept
  paths; type-level query → programs). It also holds the branch structure of the concept-level query,
  `extract_concept_nodes`, and the feasibility predicates that say what compiling means.
- `queries.dfy`: the four query classes as Dafny classes.
  - Their methods update `finalConcepts`, `cyphers` and `queries` in place.
  - Each method is proved against those feasibility predicates or against specification functions
    for the neighbour pairs.
- `user_query.dfy`: the `UserQuery` builder class: `add_node`, `add_transition`, `add_end_lookup_node`,
  `compile_query` and the delegating getters.
- `chemotext.dfy`: `OXOdise_term`, with Python's `split`, `count`, `join` and `startswith` written out.

The source's exceptions are modelled as results:

- `ValueError("Invalid break point")` and the `IndexError` of `node_types[-1]` become a `SplitError`.
- The exceptions of `add_node` and `add_transition` become a `QueryError` in an `Outcome`.

## Model

| member | source | states |
|---|---|---|
| Paths.ReverseInvolutive | builder/userquery.py:14-15 | Paths.Transition.Reverse (generate_reverse): reversing a transition swaps its in and out types and keeps both path lengths, so reversing twice restores all four fields |
| Paths.ReverseEachTwice | builder/userquery.py:97-104 | reversing every transition of the right half twice restores the original transitions, for every list of transitions |
| Paths.GenerateLeftQueryDef | builder/userquery.py:73-84 | fails with an invalid break point exactly when i < 0 or i > len(transitions) |
| Paths.GenerateRightQueryDef | builder/userquery.py:86-103 | fails exactly when i is out of range (invalid break point) or the node list is empty (the IndexError of node_types[-1]) |
| Paths.LeftRightComplement | builder/userquery.py:73-103 | for a valid i: the left half has i + 1 node types and the right half the remaining len(node_types) - i, so the cut is at node i; the left types followed by the reversed right types without their first element give the original types; the left transitions followed by the right ones, reversed back, give the original transitions; both halves end on node i; the right half starts at the last type with the end values and end lookup; the left half keeps the start values, start type and start lookup; both halves keep one more node than transitions |
| Paths.LeftRightChained | builder/userquery.py:86-103 | in both halves of a chained definition, each transition joins the node types on either side of it (the right half after its reversals) |
| Paths.GeneratePairedQuerySharingNode | builder/userquery.py:149-154 | no split for i == 0; otherwise it succeeds exactly when both halves do, giving the single pair (left(i), right(i)) |
| Paths.SharingNodeSplit | builder/userquery.py:149-154 | fails exactly for a nonzero i out of range; for 0 < i <= len(transitions) it gives exactly one pair |
| Paths.SplitAtTransitionShape | builder/userquery.py:134-147 | Paths.SplitAtTransition (split_at_transition): both halves end in UNSPECIFIED, reached through a new transition of exactly numOnLeft - 1 (left) or numOnRight - 1 (right) steps, starting at node i's type; the left half has i + 2 node types and the right half len(transitions) - i + 1; both keep one more node than transitions; the left half keeps the original prefix and the right half the reversed suffix from i + 1; the start values are those of the two ends |
| Paths.ClosedChained | builder/userquery.py:143-146 | closing a chained half keeps its old transitions chained; the new transition is chained exactly when it starts at the half's last type |
| Paths.SplitAtTransitionChained | builder/userquery.py:141-147 | for a chained definition, the left half is chained; the right half is chained up to its new transition, which starts at node i's type (the left half's last type); so the right half is chained exactly when nodes i and i + 1 have the same type |
| Paths.GeneratePairedQuerySplittingTransition | builder/userquery.py:110-132 | the splits produced by the nested loops are exactly SplitAtTransition for each slack distribution of SlackPlan(transition i), in the loop's order |
| Paths.SpreadSplits | builder/userquery.py:129-131 | the inner loop yields, for s slack nodes, the splits with l = 0, 1, ..., s nodes on the left and s - l on the right, in that order |
| Paths.SlackPlanCount | builder/userquery.py:112-131 | no split for a single-step transition; otherwise the count is the sum of (s + 1) over s from max(1, min - 1) - 1 to max - 2 |
| Paths.SlackPairsAt | builder/userquery.py:128-131 | the enumeration order: all distributions of fewer slack nodes come first, then for s slack nodes the pairs (l, s - l) with l counting up from 0 |
| Paths.SlackPairsBounds | builder/userquery.py:128-131 | every distribution splits between the lower and upper slack bounds into non-negative left and right counts |
| Paths.SlackPairsCount | builder/userquery.py:128-131 | the number of distributions of lo to hi - 1 slack nodes is Tri(hi) - Tri(lo) |
| Paths.SlackPlanOneToThree | builder/userquery.py:121-131 | a transition of 1 to 3 steps is split with the distributions (0, 0), (0, 1), (1, 0), in that order |
| Paths.SharingNodeMeets | builder/userquery.py:149-154 | the shared-node split of a shaped definition gives two shaped halves that start at the two ends of the path, with its start and end values, and end on the same node type |
| Paths.SplittingMeets | builder/userquery.py:134-147 | the same holds for every split inside a transition |
| Paths.AllSplitsMeet | builder/userquery.py:243-245 | every split compile_query collects for a shaped definition is such a meeting pair |
| Paths.SplitsChained | builder/userquery.py:105-108 | Paths.GeneratePairedQuery (generate_paired_query: the shared-node split, then the splits inside the transition): every split it gives for a chained definition has a chained left half and a right half chained up to its last transition |
| Paths.AllSplitsChained | builder/userquery.py:243-245 | the same holds for every split compile_query collects |
| TypeGraph.ConceptPathFragment | builder/userquery.py:26-33 | the concept-level fragment is all-shortest-paths over the transition's length window exactly when max_path_length > 1, and a direct translation edge otherwise |
| TypeGraph.NameConstraintsExact | builder/userquery.py:549-553 | the WHERE part pins position k to type t exactly when node k has type t and t is not UNSPECIFIED |
| TypeGraph.GenerateConceptQuery | builder/userquery.py:541-558 | the concept-level query has one path fragment per transition |
| TypeGraph.ExtractConceptNodes | builder/userquery.py:535-539 | the names are the first node of every fragment, followed by the last node of the last fragment |
| TypeGraph.TypeQueries | builder/userquery.py:511-516 | one type-level query per concept path |
| TypeGraph.FeasibleReachesConcept | builder/userquery.py:342-350 | a one-sided set that compiles has recorded at least one final concept, and one whose concept query finds no path never compiles |
| TypeGraph.FinalConceptsOfSnoc | builder/userquery.py:513-514 | each concept path processed adds exactly its final concept to the recorded ones |
| Queries.StitchRecoversSharedNode | builder/userquery.py:352-377 | when a path is split at any interior node, whatever its neighbours' types (None included), the stitched neighbour pairs of the two halves contain that node's neighbour pair in the whole path |
| Queries.UnionMember | builder/userquery.py:303-307 | a pair is in the union of the per-query sets exactly when one of the queries yields it |
| Queries.OneSidedQuery.constructor | builder/userquery.py:454-460 | the query takes its start value and its definition's start type, node types and transitions, and has no final concepts |
| Queries.OneSidedQuery.GetNeighborTypes | builder/userquery.py:475-486 | the result is exactly the neighbour pairs of every node after the first with the queried type: its predecessor's type, then its successor's type or None for the last node |
| Queries.OneSidedQuery.CreateCypher | builder/userquery.py:505-517 | when the concept query finds no path, returns nothing and changes nothing; otherwise it stores and returns one type-level query per path and adds every path's final concept |
| Queries.OneSidedQuery.CompileQuery | builder/userquery.py:495-503 | compiles exactly when some concept path's type-level query finds a program, having recorded the final concepts of all the concept paths |
| Queries.Survivors | builder/userquery.py:425 | the kept members are among the original members |
| Queries.SurvivorsEmpty | builder/userquery.py:425-427 | nothing is kept exactly when no member compiles |
| Queries.SurvivorsDistinct | builder/userquery.py:425 | filtering keeps distinct members distinct |
| Queries.PristineSurvivors | builder/userquery.py:383-427 | members built one per start value leave survivors exactly when some start value compiles |
| Queries.SurvivorValues | builder/userquery.py:383-427 | members built one per start value survive exactly for the start values that compile, in their order: the survivors' start values are Kept of the set's definition |
| TypeGraph.KeptValues | builder/userquery.py:425 | the start values that compile, in order: no more than were given, and none exactly when no start value compiles |
| TypeGraph.KeptEmpty | builder/userquery.py:425-427 | a one-sided set keeps no start value exactly when it does not compile |
| TypeGraph.FeasibleSplitsFeasible | builder/userquery.py:280-282 | FeasibleSplits keeps the splits whose two-sided queries compile, in order: each split kept compiles, and none is kept exactly when no split compiles |
| Queries.OneSidedSet.constructor | builder/userquery.py:383-387 | one fresh member per start value, in order, all on the definition's path, with nothing recorded |
| Queries.OneSidedSet.FinalConceptsUnion | builder/userquery.py:405-409 | the union of the members' final concepts is what every member recorded, or empty when no member is left |
| Queries.OneSidedSet.GetFinalConcepts | builder/userquery.py:405-409 | returns that union |
| Queries.OneSidedSet.GetReversed | builder/userquery.py:411-412 | one False flag per member |
| Queries.OneSidedSet.SharedNeighborTypes | builder/userquery.py:435-439 | the members share one path, so together they yield that path's neighbour pairs, or nothing when no member is left |
| Queries.OneSidedSet.GetNeighborTypes | builder/userquery.py:435-439 | the union of the members' neighbour pairs |
| Queries.OneSidedSet.CompileQuery | builder/userquery.py:422-427 | keeps exactly the members that compile, in order; reports whether any is left; every member records the path's final concepts; for a freshly built set, reports true exactly when one of its start values compiles, and the kept members' start values are exactly the start values that compile, in order |
| Queries.CompileMembers | builder/userquery.py:425 | the filter loop keeps exactly the compiling members and has every member record the path's final concepts |
| Queries.TwoSidedQuery.constructor | builder/userquery.py:317-323 | the query holds the given left and right sets |
| Queries.TwoSidedQuery.CompileQuery | builder/userquery.py:342-350 | compiles exactly when both halves compile and their final-concept sets intersect; the left half is filtered to its compiling members; the right half is filtered only when the left one compiled (the `and` short-circuits) and is untouched otherwise; so the left half keeps exactly the start values that compile, and the right half too when the left one compiled |
| Queries.TwoSidedQuery.GetReversed | builder/userquery.py:334-337 | one flag per member of either half: False for the left members, True for the right ones |
| Queries.TwoSidedQuery.GetNeighborTypes | builder/userquery.py:352-377 | the complete pairs of both halves, plus every open left pair joined with every open right pair by their known types |
| Queries.TwoSidedSet.constructor | builder/userquery.py:277-278 | the set starts empty |
| Queries.TwoSidedSet.AddQuery | builder/userquery.py:280-282 | the query is appended exactly when it compiles, with the store it compiled against; its halves are left filtered as TwoSidedQuery.CompileQuery states; the set's invariant keeps, for every stored query, that it compiled, that the members of each half run on that half's path, and that each half holds exactly the start values that compile |
| Queries.TwoSidedSet.CompileQuery | builder/userquery.py:284-286 | true exactly when some stored query compiled against the store it was added with |
| Queries.TwoSidedSet.GetReversed | builder/userquery.py:297-298 | the stored queries' flags one block after the other: as many flags as the members of both halves of all stored queries, and block k is exactly query k's flags |
| Queries.FlattenBlocks | builder/userquery.py:298 | concatenating parts of known sizes gives as many elements as the sizes add up to, and each part is the block at its offset |
| Queries.TwoSidedSet.GetNeighborTypes | builder/userquery.py:303-307 | the union of the neighbour pairs of the stored queries |
| UserQueries.UserQuery.Create | builder/userquery.py:160-178 | fails with an unknown node type exactly when the start type is neither None nor in the vocabulary; otherwise a new query whose definition has the start values, start type and start lookup, one node type, no transitions and no end values, and which is not compiled |
| UserQueries.UserQuery.constructor | builder/userquery.py:160-171 | the same initial state, for a known start type; the definition is chained |
| UserQueries.UserQuery.AddNode | builder/userquery.py:173-179 | refuses exactly a type that is neither None nor in the vocabulary, changing nothing; otherwise appends it and changes nothing else |
| UserQueries.UserQuery.AddTransition | builder/userquery.py:181-221 | with the source's defaults (one hop at least and at most, no end values); fails, changing nothing, with reversed lengths if min > max, else with a terminal node if end values are set, else with an unknown type; otherwise appends one node type and one transition from the previous last type, and sets the end values only when given |
| UserQueries.ExtendedChained | builder/userquery.py:214-221 | adding a transition keeps a chained definition chained and ending in the new type, with the old nodes and transitions as a prefix |
| UserQueries.UserQuery.AddEndLookupNode | builder/userquery.py:223-224 | only the end lookup changes |
| UserQueries.UserQuery.CompileQuery | builder/userquery.py:226-254 | the definition is unchanged; without end values the compiled query is the one-sided set of the definition, its members on the definition's path, holding exactly the start values that compile and compiling exactly when one does; with end values it is a two-sided set holding, in order, the queries of exactly the feasible splits among all the splits of all the transitions, each half's members running on that half's path and holding exactly its start values that compile, and compiling exactly when one of those splits does |
| UserQueries.CompileOneSided | builder/userquery.py:229-231 | the one-sided branch: the set of the whole definition, each start value kept exactly when it compiles |
| UserQueries.CompileTwoSided | builder/userquery.py:243-254 | the two-sided branch: the stored queries are those of FeasibleSplits of all the splits, one for one and in order, each built from its split's halves, each half's members running on that half's path and holding exactly its start values that compile |
| UserQueries.StoredBuilt | builder/userquery.py:248-253 | a set stored from a list of splits holds, for each split, the query built from its two halves, each half's members on that half's path and keeping exactly the start values that compile |
| UserQueries.NewSplitQuery | builder/userquery.py:248-250 | a split's two-sided query: a fresh, uncompiled one-sided set for each half, on that half's definition |
| UserQueries.CollectSplits | builder/userquery.py:243-245 | the loop gathers generate_paired_query(i) for every transition index i in turn |
| UserQueries.AllSplitsStartValues | builder/userquery.py:243-250 | every collected split has the start values on its left half and the end values on its right half |
| UserQueries.AddSplit | builder/userquery.py:248-253 | the split's two-sided query, built from its halves, is appended exactly when the split compiles; the members of each half run on that half's path; its halves keep exactly their compiling start values (the right one only when the left one compiled); the stored queries keep matching the feasible splits seen so far |
| UserQueries.BuildTwoSidedSet | builder/userquery.py:248-253 | the new two-sided set stores, in order, one query per feasible split, built from that split's halves, each half's members on that half's path, and compiled against the store |
| UserQueries.UserQuery.GetReversed | builder/userquery.py:265-266 | the flags of the compiled set |
| UserQueries.UserQuery.GetNeighborTypes | builder/userquery.py:271-272 | the neighbour pairs of the compiled set |
| Queries.TwoSidedSet.StoredNeighborTypes | builder/userquery.py:352-377 | every stored query's neighbour pairs are those of its two halves' paths, stitched, since both halves compiled and so keep at least one member |
| UserQueries.StoredNeighborTypesFrom | builder/userquery.py:303-307 | a set stored from a list of splits has, query by query, the stitched neighbour pairs of each split's two paths |
| UserQueries.CompiledNeighborTypes | builder/userquery.py:243-254 | after the two-sided compile, get_neighbor_types unions, over the feasible splits in order, each split's two paths' neighbour pairs, stitched |
| Chemotext.Split | builder/chemotext.py:24-28 | Python's split on one character: count + 1 pieces, none containing the separator, which the separator joins back into the string |
| Chemotext.LastSegment | builder/chemotext.py:24 | the last '/'-separated segment contains no '/' |
| Chemotext.SplitInTwo | builder/chemotext.py:25-28 | a segment with exactly one '_' splits into the text before and after it |
| Chemotext.OXOdiseTermCases | builder/chemotext.py:22-28 | Chemotext.OXOdiseTerm (OXOdise_term): a term not starting with "http" is returned as given; so is one whose last segment does not hold exactly one '_'; otherwise the result is the last segment with its '_' replaced by ':' |
| Chemotext.OXOdiseTermConverted | builder/chemotext.py:24-28 | a converted term contains no '/' and no '_' and is as long as the last segment |
| Chemotext.OXOdiseTermIdempotent | builder/chemotext.py:22-28 | converting a converted term changes nothing |
| Chemotext.OXOdiseTermExample | builder/chemotext.py:16-21 | the docstring example: any "http..." location followed by /OMIM_603903 becomes OMIM:603903 |

## Left out

- The type-graph store is not modelled. `run_cypher_query` and `get_transitions` are calls into a Neo4j
  graph; they become the two functions of the `Store` datatype, passed as a parameter.
- The Cypher text is not modelled.
  - `generate_concept_cypher` is reduced to its branch structure: one fragment per transition, direct
    edge or all shortest paths, and the name constraints.
  - `generate_type_cypher` is reduced to the start value and the concept names it uses.
  - `Text.get_curie` is a foreign helper and is not part of this model.
- The legacy generators `get_fstring`, `generate_cypher_pathstring`, `generate_cypher_withstring` and
  `old_generate_cypher` are left out. They are not on the compile path.
- `get_terminal_types`, `get_start_node`, `get_lookups` and `generate_cypher` are left out. They only
  format or copy stored values, and `get_terminal_types` prints.
- The `print` calls and the example Cypher constants at the end of the file are left out.
- `OneSidedLinearUserQuerySet.add_node` and `add_transition` (builder/userquery.py:414-420) are left out.
  - They forward to methods that `OneSidedLinearUserQuery` does not have.
  - Nothing calls them.
- The static `OneSidedLinearUserQuery.get_reversed` (always `[False]`) is folded into
  `OneSidedSet.GetReversed`.
- The mutable `QueryDefinition` is modelled as the value `QueryDef`.
  - `generate_right_query_def` and `split_at_transition` reverse and append in place on fresh copies,
    so values capture them exactly.
- UserQueries.UserQuery.AddNode and UserQueries.UserQuery.AddTransition: aliasing with a compiled query
  is not captured. In the one-sided branch the members of `OneSidedLinearUserQuerySet` share
  `self.definition`'s `node_types` and `transitions` lists. An `add_node` or `add_transition` after
  `compile_query` therefore also lengthens the path of every compiled member in the source. In the
  model the members keep the path they were built with. For example, after `add_transition(B)`,
  `compile_query` and `add_transition(C)`, the source's `get_neighbor_types(B)` gives `{(A, C)}` and the
  model's gives `{(A, None)}`.
- UserQueries.UserQuery.constructor, UserQueries.UserQuery.Create and UserQueries.UserQuery.CompileQuery:
  the start values are a sequence, so a `UserQuery` created with `None` start values cannot be
  expressed. In the source, `compile_query` on such a query raises TypeError when
  `OneSidedLinearUserQuerySet` iterates over `None` (builder/userquery.py:386).
- `compile_query` first builds every two-sided query and then adds them one by one. The model builds
  and adds each query in turn, which has the same effect, because building a query compiles nothing.
- The value of `UNSPECIFIED` is not modelled. It lives in `greent.node_types`, which is not part of this
  model, so a placeholder constant is used.
- The type vocabulary `greent.node_types` becomes a parameter of `UserQuery`.
- The logging side effect of `OXOdise_term` is left out.
- The store's answers are non-empty by type: every concept path it returns has at least one segment,
  and every segment at least one concept (`TypeGraph.ConceptPath`, `TypeGraph.Segment`).
  `extract_concept_nodes` indexes `path[-1][-1]`, which would raise IndexError on an empty path or
  segment; the model cannot express that case.
- The rest of chemotext.py is network or file I/O and is not part of this model.
- Queries.OneSidedSet.constructor: requires the start values to be present. The source raises a
  TypeError when it iterates over `None`.
- Queries.TwoSidedQuery.CompileQuery: requires both halves never to have been compiled. This is how
  `compile_query` and `add_query` use it. A recompilation of an already filtered set is not covered.
- Queries.TwoSidedSet.AddQuery: requires a two-sided query that was never compiled, for the same reason.
- UserQueries.UserQuery.constructor: requires a known start type. `UserQueries.UserQuery.Create` models
  the exception the source raises for an unknown one.
- UserQueries.UserQuery.GetReversed: requires a compiled query. Before `compile_query`, `self.query` is
  `None` and the source raises AttributeError.
- UserQueries.UserQuery.GetNeighborTypes: requires a compiled query, for the same reason.
- Paths.GeneratePairedQuerySplittingTransition: requires 0 <= i < len(transitions). Python's negative
  indices into `transitions` are not modelled, and `compile_query` never passes one.
- `generate_paired_query` assumes a valid split index, as `compile_query` always passes one. Its
  error paths are modelled in `GeneratePairedQuerySharingNode` and the left/right generators.

On the slack enumeration, the model follows the code. The loop starts at `minimum_nodes - 1`
(builder/userquery.py:128), so a transition of 1 to 3 steps is split with (0, 0), (0, 1) and (1, 0)
(`Paths.SlackPlanOneToThree`), not with (0, 0) alone.

The right half's new transition starts at the left half's last type (builder/userquery.py:144), as in
the code. `Paths.SplitAtTransitionChained` states the consequence.
