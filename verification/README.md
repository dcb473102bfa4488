# Letter-adjacency graph of snatchbot

snatchbot reads the letter tiles of a word game from a camera image. Each recognised
tile becomes a `LetterNode`: a letter and the rotated rectangle it occupies. The
nodes are joined into an undirected graph by
`LetterNodeUtils::createLetterNodeGraph`. That function applies a caller-supplied
adjacency predicate to every ordered pair of nodes. For each pair it accepts, it
records the edge at both ends.

This project models that core in Dafny:

- `letter_node.dfy` (module `LetterNodes`) holds the `LetterNode` value type and
  its OpenCV parts (`Point2f`, `Size2f`, `RotatedRect`). It also holds the default
  constructor, the member-wise copy and assignment, the field-wise `operator==`,
  and `std::hash<LetterNode>`.
- `letter_node_utils.dfy` (module `LetterNodeUtils`) holds the graph builder. It is
  written as a method whose nested loops mirror the C++ loops. It is verified
  against a functional reference, `LetterNodeGraph`: the undirected graph spanned
  by all related ordered pairs of input nodes. The two strategies the unit tests
  plug in are included: always-true (`AlwaysAdjacent`) and exact centre match
  (`CenterMatch`).

The adjacency predicate is a Dafny function value of type
`(LetterNode, LetterNode) -> bool`: pure, deterministic, terminating and total.
Beyond that nothing is assumed about it. It need not relate a node to itself,
and it need not be symmetric.

The function's own documentation at include/letter_node_utils.h:20-26 calls the
result an undirected graph that maps each node to its set of adjacent nodes. Two
consequences of the loop are worth stating precisely:

- A node becomes a key only if it takes part in at least one related pair
  (include/letter_node_utils.h:33-35). A node that the predicate relates to
  nothing, not even to itself, is absent (`KeysAreRelatedNodes`).
- Both directions of every related pair are inserted, so the graph is symmetric
  for every predicate, including a non-symmetric one (`Symmetry`).

## Model

| member | source | states |
|---|---|---|
| LetterNodes.DefaultNode | include/letter_node.h:32 | the default node has letter `'\0'`, centre (0,0), size (0,0) and angle 0 |
| LetterNodes.NodeEqIsStructural | include/letter_node.h:67-72 | `NodeEq` is the literal field-wise `operator==`; this lemma proves it holds iff letter, centre x/y, width/height and angle all agree, which is exactly Dafny's structural equality, so maps and sets keyed by `LetterNode` use the source's equality |
| LetterNodes.NodeEqIsEquivalence | include/letter_node.h:67-72 | `operator==` is reflexive, symmetric and transitive; in particular two nodes built separately from the same letter and rectangle are equal |
| LetterNodes.SingleFieldChangeUnequal | include/letter_node.h:68-69 | changing only the letter, or only the centre, gives an unequal node |
| LetterNodes.Copy | include/letter_node.h:49 | the copy constructor yields a node equal to its source |
| LetterNodes.Assign | include/letter_node.h:59 | after `target = source` the target equals the source, and it equals its old value only if the source did |
| LetterNodes.AssignmentBehaviour | include/letter_node.h:59 | self-assignment leaves a node unchanged; after re-assignment a node equals the new source and equals the earlier one only if the two sources were equal |
| LetterNodes.HashRespectsEquality | include/letter_node.h:84-94 | `Hash` is the literal XOR/shift combiner of the six field hashes over a 64-bit `size_t`; this lemma states that the hash reads only the six fields `operator==` compares, so equal nodes hash equally for any `std::hash<char>` and `std::hash<float>` |
| LetterNodeUtils.Insert | include/letter_node_utils.h:34-35 | `graph[u].insert(v)` adds `u` as a key if missing, puts `v` into its set, keeps the old members and leaves every other entry unchanged |
| LetterNodeUtils.GraphOfAddPair | include/letter_node_utils.h:33-36 | the two insertions of the loop body extend the graph by exactly the undirected edge {u, v} |
| LetterNodeUtils.CreateLetterNodeGraph | include/letter_node_utils.h:28-40 | the nested loop returns exactly the undirected graph of all related ordered input pairs; the result is symmetric, complete and sound |
| LetterNodeUtils.EmptyInput | include/letter_node_utils.h:28-40 | an empty input gives an empty graph, whatever the predicate |
| LetterNodeUtils.NeighbourIff | include/letter_node_utils.h:31-36 | `v` is in `graph[u]` iff both are input nodes and the predicate holds for `(u, v)` or for `(v, u)` |
| LetterNodeUtils.Completeness | include/letter_node_utils.h:31-36 | for all input nodes `u`, `v` with `isAdjacent(u, v)`: `v` is in `graph[u]` and `u` is in `graph[v]` |
| LetterNodeUtils.Soundness | include/letter_node_utils.h:31-35 | every edge joins two input nodes related by the predicate in one direction or the other |
| LetterNodeUtils.Symmetry | include/letter_node_utils.h:34-35 | `v` is in `graph[u]` iff `u` is in `graph[v]`, for any predicate, symmetric or not |
| LetterNodeUtils.KeysAreRelatedNodes | include/letter_node_utils.h:31-35 | the keys are exactly the input nodes related, in either position, to some input node; a node related to nothing gets no entry |
| LetterNodeUtils.ReflexivePredicate | include/letter_node_utils.h:31-36 | with a reflexive predicate every input node is a key and its own neighbour |
| LetterNodeUtils.AlwaysAdjacentIsComplete | tests/test_letter_node_utils.cpp:7 | `AlwaysAdjacent` is the always-true lambda; with it the keys are the input nodes and each maps to the set of all distinct input nodes |
| LetterNodeUtils.DependsOnlyOnNodeSet | include/letter_node_utils.h:30-36 | inputs with the same distinct nodes give the same graph: input order and duplicates do not matter |
| LetterNodeUtils.CenterMatchExample | tests/test_letter_node_utils.cpp:13-40 | `CenterMatch` is the exact-centre-match lambda of line 15; with it, over a, b (same centre) and c (other centre) there are 3 keys, with neighbour sets {a, b}, {a, b} and {c} of sizes 2, 2 and 1 |

## Left out

- OpenCV's `float` fields are modelled as exact reals. NaN, whose `==` is false even against itself, signed zero and rounding are not modelled.
- `std::hash<char>`, `std::hash<float>` and the width of `std::size_t`: the two field hashes are implementation defined, so they are parameters of `Hash`. `size_t` is taken as 64 bits. The test expectation that distinct nodes hash differently is not a guarantee of the code, and it is not modelled.
- `boundingBoxAdjacencyStrategy` (include/letter_node_utils.h:52-66) computes float areas with OpenCV's `RotatedRect::points` and `minAreaRect`. It is covered only as one of the arbitrary predicates the builder accepts.
- `findConnectedComponents` (include/letter_node_utils.h:68-73) is a stub that returns an empty vector. There is no traversal to model.
- include/snatchable_word_generator.h: only the dictionary file loading in its constructor (file I/O). The snatchable-word solver it is meant to hold is not present in the code.
- Tesseract recognition, image preprocessing, contour detection, on-screen display and the camera loop (include/text_recognizer.h, include/TextRecognizer.h, include/text_detector.h, include/TextDetector.h, src/main.cpp) are I/O and foreign library calls.
- The adjacency predicate is assumed pure, deterministic, terminating and non-null. A C++ function pointer could instead read or change global state, never return, be null or throw. A stateful predicate could also make duplicated nodes or input order change the result, so `LetterNodeGraph` and `DependsOnlyOnNodeSet` describe only pure predicates. Every strategy the code and its tests pass meets this assumption: the lambdas at tests/test_letter_node_utils.cpp:7 and tests/test_letter_node_utils.cpp:15, and `boundingBoxAdjacencyStrategy` at include/letter_node_utils.h:52-66.
