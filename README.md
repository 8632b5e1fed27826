# Critic pairing engine

A Dafny model of the pairing engine in `claudio_problem_1/solution.py`.
The engine pairs literary critics for a show. Two critics are *similar* when
their sets of liked novels differ in exactly one novel. The engine then pairs
as many similar critics as it can, each critic at most once: a maximum
matching. It works in four steps:

- **Encoding** (`make_number`). Each critic's list of liked novel ids becomes
  an integer mask with bit `l - 1` set for each liked novel `l`.
- **Similarity** (`is_similar`). Two masks are similar when they differ in one
  bit. The code tests this with `a != b` and `c == 1 or not (c & c - 1)`,
  where `c = a ^ b`.
- **Bucket index.** The reading loop of the main program groups critic
  indices, in input order, by the length of their preference lists.
- **Graph builder** (`create_bipartite_graph`). For every round
  `n = 0 .. n_novels - 1`, it compares each critic of bucket `n` with each
  critic of bucket `n + 1` and adds an edge for each similar pair. When a
  neighbouring bucket exists, it also labels bucket `n` with the attribute
  `bipartite = n % 2`.

`display_maximum_matching` prints every matched pair once, smallest critic
first and numbered from one.

The main result is the bipartiteness argument of the module's own
documentation:

- Every edge joins buckets of different parity, so bucket parity is a
  proper 2-colouring of the graph (`CompatibilityGraph.EdgesCrossSides`).
- The `bipartite` attributes agree with bucket parity wherever they are set.
  The critics of bucket `n_novels` get no attribute (`EdgesCrossSides`,
  `TopBucketVertexUnlabelled`).
- Similar masks have population counts that differ by exactly one
  (`Similarity.SimilarMasksDifferInPopcountByOne`). So, for lists of
  distinct ids from `1 .. n_novels`, comparing adjacent buckets only loses no
  similar pair (`CompatibilityGraph.EdgesAreSimilarCritics`).

Modules, one per file:

- `Bits` (`bits.dfy`). Non-negative unbounded integers, with `^`, `&`, `|` and
  `1 << k` defined bit by bit, plus population count and Hamming distance.
- `Similarity` (`similarity.dfy`). `is_similar`.
- `Encoder` (`encoder.dfy`). `make_number`.
- `Buckets` (`buckets.dfy`). The reading loop that fills `preferences` and
  `length_to_critics`.
- `CompatibilityGraph` (`graph.dfy`). `create_bipartite_graph`.
- `Matching` (`matching.dfy`). `display_maximum_matching` and the matching
  it is given.
- `Scenarios` (`scenarios.dfy`). Worked end-to-end examples.

How the graph is modelled:

- The graph object is the class `NetworkGraph`. Its fields are the node set,
  the `bipartite` attributes (a map from node to side) and the edges, a
  set of the ordered pairs `(c1, c2)` passed to `add_edge`.
- `AddNodesFrom` and `AddEdge` update those fields in place.
- The value `Graph` and the functions `SidesUpTo`, `EdgesUpTo` and
  `GraphUpTo` state what the graph holds after a given number of rounds of
  the outer loop. `CreateBipartiteGraph` and `AddBucket` are proved to
  produce exactly that.

## Model

| member | source | states |
|---|---|---|
| Bits.BitOfXor | claudio_problem_1/solution.py:89 | bit `i` of `a ^ b` is set exactly when bits `i` of `a` and `b` differ |
| Bits.BitOfOr | claudio_problem_1/solution.py:96 | bit `i` of the bitwise or of `n` and `m` is set exactly when it is set in either |
| Bits.PowerOfTwoTest | claudio_problem_1/solution.py:90 | for `c >= 1`, `c & (c - 1) == 0` holds exactly when `c` has a single set bit |
| Bits.PopcountSetBit | claudio_problem_1/solution.py:96 | setting a clear bit raises the population count by one |
| Bits.PopcountDifferenceBound | claudio_problem_1/solution.py:42-47 | two masks' population counts differ by at most their Hamming distance and have the same parity as it |
| Similarity.IsSimilar | claudio_problem_1/solution.py:86-90 | the test is true exactly when the two masks are at Hamming distance one |
| Similarity.IsSimilarIrreflexive | claudio_problem_1/solution.py:88 | no mask is similar to itself |
| Similarity.IsSimilarSymmetric | claudio_problem_1/solution.py:86-90 | similarity does not depend on argument order |
| Similarity.PowerOfTwoTestSuffices | claudio_problem_1/solution.py:90 | the `c == 1` disjunct is redundant: similarity is `c != 0 && c & (c - 1) == 0` |
| Similarity.SimilarIffOneBitFlipped | claudio_problem_1/solution.py:87 | `b` is similar to `a` exactly when `b` is `a` with one bit flipped |
| Similarity.SimilarMasksDifferInPopcountByOne | claudio_problem_1/solution.py:39-50 | similar masks have population counts differing by exactly one; equal counts, or counts two or more apart, are never similar |
| Encoder.MakeNumber | claudio_problem_1/solution.py:92-97 | the loop returns the ids or-ed together, and bit `i` of the result is set exactly when novel `i + 1` is listed |
| Encoder.MaskBits | claudio_problem_1/solution.py:72-74 | bit `i` of the mask is set exactly when novel `i + 1` is in the list |
| Encoder.SameIdsSameMask | claudio_problem_1/solution.py:92-97 | lists holding the same ids, in any order and with any repetitions, give the same mask |
| Encoder.PopcountOfMask | claudio_problem_1/solution.py:124-127 | for a list without repetitions, the bucket key `len(p)` equals the mask's population count |
| Encoder.DistinctIdsBound | claudio_problem_1/solution.py:36-37 | a list of distinct ids from `1..n` has at most `n` entries |
| Encoder.DocstringExample | claudio_problem_1/solution.py:72-76 | "1 3 4" encodes to 13, "1 4" to 9, and the two are similar |
| Buckets.IndexCritics | claudio_problem_1/solution.py:120-129 | `preferences[c]` is critic `c`'s mask, and the dictionary is `Index(lists)` |
| Buckets.IndexStep | claudio_problem_1/solution.py:126-129 | reading critic `c` appends `c` to the bucket of its length, creating the bucket if missing, and changes no other bucket |
| Buckets.CriticsOfSizeMembers | claudio_problem_1/solution.py:123-129 | a critic is in the bucket of `k` exactly when its list has `k` entries |
| Buckets.CriticsOfSizeIncreasing | claudio_problem_1/solution.py:123-129 | each bucket holds its critics in strictly increasing input order |
| Buckets.IndexContents | claudio_problem_1/solution.py:120-129 | keys are exactly the list lengths that occur, no bucket is empty, and every lookup (with a miss read as empty) gives that length's critics in input order |
| CompatibilityGraph.NetworkGraph.constructor | claudio_problem_1/solution.py:100 | a new graph has no nodes, attributes or edges |
| CompatibilityGraph.NetworkGraph.AddNodesFrom | claudio_problem_1/solution.py:105 | adds the critics as nodes and sets their attribute to the side, keeping all else |
| CompatibilityGraph.NetworkGraph.AddEdge | claudio_problem_1/solution.py:108 | adds both endpoints as nodes and the edge, keeping all attributes |
| CompatibilityGraph.AddNodesFromIdempotent | claudio_problem_1/solution.py:102-110 | labelling a bucket twice is the same as once, so the repeated labelling per `c1`, and the `KeyError` that skips it, do not change the graph |
| CompatibilityGraph.BuildCompatibilityGraph | claudio_problem_1/solution.py:120-131 | reading the critics and then building the graph yields each critic's mask and a new graph equal to the graph of `n_novels` rounds over the reading loop's dictionary |
| CompatibilityGraph.CreateBipartiteGraph | claudio_problem_1/solution.py:99-111 | returns a new graph equal to the graph of `n_novels` rounds |
| CompatibilityGraph.AddBucket | claudio_problem_1/solution.py:102-110 | one round `n` turns the graph of `n` rounds into the graph of `n + 1` rounds |
| CompatibilityGraph.ConnectToBucket | claudio_problem_1/solution.py:106-108 | adds exactly the edges from `c1` to its similar critics in the next bucket, and no attribute |
| CompatibilityGraph.SidesUpToStep | claudio_problem_1/solution.py:103-105 | a round labels its bucket only when the bucket is non-empty and has a neighbour bucket |
| CompatibilityGraph.EdgesUpToMembers | claudio_problem_1/solution.py:101-108 | `(c1, c2)` is an edge exactly when some earlier round `n` has `c1` in bucket `n`, `c2` in bucket `n + 1`, and the two similar |
| CompatibilityGraph.SidesUpToMembers | claudio_problem_1/solution.py:101-105 | a critic is labelled exactly when its bucket `n < n_novels` has a neighbour bucket, and its label is `n % 2` |
| CompatibilityGraph.NoSelfLoops | claudio_problem_1/solution.py:106-108 | no edge joins a critic to itself |
| CompatibilityGraph.GraphOfIndex | claudio_problem_1/solution.py:99-111 | on the dictionary of the reading loop: the edges are the similar pairs with lengths `k < n_novels` and `k + 1`; a critic is labelled exactly when its length is below `n_novels` and a neighbouring length occurs; its label is its length mod 2; every node is a critic whose length has a neighbouring length |
| CompatibilityGraph.EdgeOfBuckets | claudio_problem_1/solution.py:103-108 | the same edge characterisation for one pair, on any dictionary holding the right buckets |
| CompatibilityGraph.SideOfBuckets | claudio_problem_1/solution.py:103-105 | the same label characterisation for one critic |
| CompatibilityGraph.EdgesCrossSides | claudio_problem_1/solution.py:52-55 | every edge joins lengths of different parity; its lower end is labelled with its parity; the upper end is labelled exactly when below the top bucket, and then on the other side |
| CompatibilityGraph.EdgeCrossesSides | claudio_problem_1/solution.py:52-55 | the same, for one edge |
| CompatibilityGraph.EdgesAreSimilarCritics | claudio_problem_1/solution.py:58-65 | for distinct in-range ids, two critics are similar exactly when they are joined in one direction or the other: comparing adjacent buckets only loses no pair |
| CompatibilityGraph.SimilarPairIsEdge | claudio_problem_1/solution.py:60-62 | the same, for one pair of critics |
| CompatibilityGraph.TopBucketVertexUnlabelled | claudio_problem_1/solution.py:101-108 | the upper end `c2` of every edge is a vertex, in a bucket of at most `n_novels`, and it has no `bipartite` attribute exactly when its bucket is `n_novels`, which no round labels |
| CompatibilityGraph.TopBucketExample | claudio_problem_1/solution.py:101-108 | with one novel and critics liking `[1]` and `[]`, the edge `(1, 0)` is added; critic 0 is a vertex without attribute and critic 1 is on side 0 |
| CompatibilityGraph.NodeOfBuckets | claudio_problem_1/solution.py:104-108 | every vertex is a critic whose bucket has a neighbour bucket, whether it was added by `add_nodes_from` or as an edge endpoint |
| CompatibilityGraph.IndexInRange | claudio_problem_1/solution.py:126-131 | the dictionary of the reading loop names only critics that were read |
| Matching.ItemsCover | claudio_problem_1/solution.py:115 | every entry of the matching occurs among the iterated items |
| Matching.DisplayMaximumMatching | claudio_problem_1/solution.py:113-117 | the printing loop emits exactly the lines `Reported(items)` |
| Matching.ReportedMembers | claudio_problem_1/solution.py:115-117 | a line `(a, b)` is printed exactly when some entry `k -> v` has `k < v`, `a = k + 1` and `b = v + 1` |
| Matching.ReportedSources | claudio_problem_1/solution.py:115-117 | printed lines come in the order of the entries they come from |
| Matching.ReportedLinesAreMatchedEdges | claudio_problem_1/solution.py:115-117 | each printed line names two matched partners, the smaller first, that are adjacent in the graph |
| Matching.MatchedPairsReported | claudio_problem_1/solution.py:115-117 | every matched pair is printed, smaller critic first |
| Matching.ReportedLinesDisjoint | claudio_problem_1/solution.py:12-13 | no two printed lines share a critic, so no line repeats |
| Matching.ReportedCount | claudio_problem_1/solution.py:115-117 | twice the number of printed lines equals the number of entries of the matching |
| Matching.MatchingHalves | claudio_problem_1/solution.py:115-116 | exactly half of a matching's keys are smaller than their partners |
| Matching.MatchedCriticsAreSimilar | claudio_problem_1/solution.py:9-10 | matched critics are in range, similar, and their list lengths differ by one |
| Matching.JoinedCriticsAreSimilar | claudio_problem_1/solution.py:9-10 | the same, for two critics joined by an edge |
| Scenarios.ScenarioMasks | claudio_problem_1/solution.py:92-97 | "1", "1 2" and "2" encode to 1, 3 and 2 |
| Scenarios.ScenarioSimilarities | claudio_problem_1/solution.py:86-90 | 1 and 3, and 2 and 3, are similar; 1 and 2 are not |
| Scenarios.ScenarioGraph | claudio_problem_1/solution.py:99-111 | for those three critics and two novels, the edges are exactly `(0, 1)` and `(2, 1)`; critics 0 and 2 are on side 1; critic 1 is unlabelled |
| Scenarios.ScenarioEdges | claudio_problem_1/solution.py:101-108 | the edge set of that graph |
| Scenarios.ScenarioSides | claudio_problem_1/solution.py:101-105 | the attributes of that graph |
| Scenarios.ScenarioMatchings | claudio_problem_1/solution.py:12-13 | in that graph, pairing critic 1 with either of the others is a maximum matching |
| Scenarios.PathMatchings | claudio_problem_1/solution.py:12-13 | in a graph with edges `(0, 1)` and `(2, 1)`, both one-pair matchings are maximum |
| Scenarios.ScenarioMatchingBound | claudio_problem_1/solution.py:12-13 | no matching of that graph has more than two entries |
| Scenarios.IdenticalCriticsNoEdges | claudio_problem_1/solution.py:43-44 | critics with identical lists are never joined |
| Scenarios.RepeatedIdMask | claudio_problem_1/solution.py:95-96 | or-ing the same id twice gives the mask of that id once: `[1, 1]` encodes to 1 |
| Scenarios.RepeatedIdLosesPair | claudio_problem_1/solution.py:101-108 | with a repeated id, the similar critics `[1, 1]` and `[1, 2]` share bucket 2 and are not joined in either direction |
| Scenarios.HighIdLosesPair | claudio_problem_1/solution.py:101-108 | with one novel, the similar critics `[2]` and `[1, 2]` are not joined, since round 1 never runs |

## Left out

- `bipartite.maximum_matching` (networkx's Hopcroft–Karp) is a foreign
  library call. The model has no algorithm for it. Its result is a parameter
  `m` that satisfies `IsMatching`, and its maximality is stated as
  `IsMaximumMatching` only for the worked scenario.
- Dictionary iteration order (`iteritems()`) is not determined by the code.
  The entries reach `DisplayMaximumMatching` as a parameter `items`, in
  whatever order the library yields them.
- `print` and `raw_input` are I/O. Parsing the two header numbers and each
  critic's line is not modelled. The reading loop receives the parsed lists,
  and printing returns the lines as one-based pairs.
- `n_critics` is only used to size the input loop and is otherwise unused
  by `create_bipartite_graph`.
- What networkx stores internally is not modelled, beyond node set,
  attribute map and edge set. Edges are kept as ordered pairs; networkx
  treats `(c1, c2)` and `(c2, c1)` as one undirected edge, and `Adjacent`
  reads them that way.
- `claudio_problem_1/generate_config.py` (the input generator) and
  `claudio_problem_2/solution.py` (an unrelated exercise) are not part of
  this model.
- CompatibilityGraph.CreateBipartiteGraph: the `KeyError` control flow is not
  modelled as such. A missing bucket reads as empty, which gives the same
  graph (see `AddNodesFromIdempotent`).
- Encoder.MakeNumber: ids are unbounded naturals, matching Python's integers.
  There is neither the 32-bit width the documentation mentions nor the
  20-novel bound, and no range check, because the code has none. The model
  requires only ids `>= 1`, since `1 << (l - 1)` fails for `l <= 0`: negative
  ids are excluded by the type `nat`, and `l = 0` by `ValidIds`.

What the code as written does at its edges:

- Bucket keys are `len(p)`. They equal the mask's population count only
  for lists without repeated ids (`PopcountOfMask`). A repeated id can put
  two similar critics in one bucket, so they get no edge: `[1, 1]` and
  `[1, 2]` (`RepeatedIdLosesPair`).
- The rounds run over `n = 0 .. n_novels - 1`, so the critics of bucket
  `n_novels` enter the graph only through `add_edge` and carry no
  `bipartite` attribute (`TopBucketVertexUnlabelled`).
- No id is range-checked. An id above `n_novels` simply sets a higher bit,
  and can put a critic in a bucket no round compares, so a similar pair gets
  no edge: `[2]` and `[1, 2]` with one novel (`HighIdLosesPair`).
