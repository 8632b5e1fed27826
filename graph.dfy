/**
  `create_bipartite_graph`: the compatibility graph over critic indices. For
  each preference count `n` below the number of novels, the critics of bucket
  `n` become vertices on side `n % 2` when bucket `n - 1` or `n + 1` exists,
  and each of them is joined to every similar critic of bucket `n + 1`.
*/
module CompatibilityGraph {
  import opened Bits
  import opened Similarity
  import opened Buckets
  import opened Encoder

  /** What the engine does with the networkx graph `B`: its vertices, the
      `bipartite` attribute of the vertices that carry one, and its edges,
      each the pair `(c1, c2)` given to `add_edge`. */
  datatype Graph = Graph(nodes: set<nat>, side: map<nat, nat>, edges: set<(nat, nat)>)

  /** The graph after `B.add_nodes_from(cs, bipartite=s)`: the vertices of
      `cs` are added and their attribute set to `s`. */
  function WithNodes(g: Graph, cs: seq<nat>, s: nat): Graph
  {
    Graph(g.nodes + (set c | c in cs), g.side + Labels(cs, s), g.edges)
  }

  /** The graph after `B.add_edge(u, v)`: the edge is added, and each endpoint
      not yet present as a vertex without attribute. */
  function WithEdge(g: Graph, u: nat, v: nat): Graph
  {
    Graph(g.nodes + {u, v}, g.side, g.edges + {(u, v)})
  }

  /** The networkx graph `B`, which the builder changes in place. */
  class NetworkGraph {
    var nodes: set<nat>
    var side: map<nat, nat>
    var edges: set<(nat, nat)>

    /** What the graph holds now. */
    function Value(): Graph
      reads this
    {
      Graph(nodes, side, edges)
    }

    /** `nx.Graph()`. */
    constructor ()
      ensures Value() == Graph({}, map[], {})
    {
      nodes, side, edges := {}, map[], {};
    }

    /** `B.add_nodes_from(cs, bipartite=s)`. */
    method AddNodesFrom(cs: seq<nat>, s: nat)
      modifies this
      ensures Value() == WithNodes(old(Value()), cs, s)
    {
      nodes := nodes + (set c | c in cs);
      side := side + Labels(cs, s);
    }

    /** `B.add_edge(u, v)`. */
    method AddEdge(u: nat, v: nat)
      modifies this
      ensures Value() == WithEdge(old(Value()), u, v)
    {
      nodes := nodes + {u, v};
      edges := edges + {(u, v)};
    }
  }

  /** Adding the same vertices with the same attribute twice changes nothing,
      so the builder may call `add_nodes_from` once per critic of a bucket. */
  lemma AddNodesFromIdempotent(g: Graph, cs: seq<nat>, s: nat)
    ensures WithNodes(WithNodes(g, cs, s), cs, s) == WithNodes(g, cs, s)
  {
    var once, twice := WithNodes(g, cs, s), WithNodes(WithNodes(g, cs, s), cs, s);
    assert once.side == twice.side;
  }

  /** Every critic named in a bucket has a mask: `preferences[c]` is defined. */
  predicate InRange(buckets: BucketIndex, critics: nat)
  {
    forall k, c :: k in buckets && c in buckets[k] ==> c < critics
  }

  /** `is_similar(preferences[c1], preferences[c2])`. */
  predicate SimilarCritics(prefs: seq<nat>, c1: nat, c2: nat)
  {
    c1 < |prefs| && c2 < |prefs| && IsSimilar(prefs[c1], prefs[c2])
  }

  /** The similar pairs `(c1, c2)` with `c1` from `left` and `c2` from `right`. */
  function SimilarPairs(prefs: seq<nat>, left: seq<nat>, right: seq<nat>): set<(nat, nat)>
  {
    set c1, c2 | c1 in left && c2 in right && SimilarCritics(prefs, c1, c2) :: (c1, c2)
  }

  /** The condition under which bucket `n` adds its vertices. */
  predicate HasNeighbourBucket(buckets: BucketIndex, n: int)
  {
    n - 1 in buckets || n + 1 in buckets
  }

  /** The `bipartite` attributes set by rounds `0 .. rounds - 1` of the outer
      loop, a later round overriding an earlier one. */
  function SidesUpTo(buckets: BucketIndex, rounds: nat): map<nat, nat>
  {
    if rounds == 0 then map[]
    else
      var n := rounds - 1;
      SidesUpTo(buckets, n) +
        (if HasNeighbourBucket(buckets, n) then Labels(Lookup(buckets, n), n % 2) else map[])
  }

  /** The edges added by rounds `0 .. rounds - 1` of the outer loop. */
  function EdgesUpTo(prefs: seq<nat>, buckets: BucketIndex, rounds: nat): set<(nat, nat)>
  {
    if rounds == 0 then {}
    else
      var n := rounds - 1;
      EdgesUpTo(prefs, buckets, n) + SimilarPairs(prefs, Lookup(buckets, n), Lookup(buckets, n + 1))
  }

  function Endpoints(edges: set<(nat, nat)>): set<nat>
  {
    (set e | e in edges :: e.0) + (set e | e in edges :: e.1)
  }

  /** The graph after rounds `0 .. rounds - 1`: the vertices added by
      `add_nodes_from` or as endpoints of an edge. */
  function GraphUpTo(prefs: seq<nat>, buckets: BucketIndex, rounds: nat): Graph
  {
    var side, edges := SidesUpTo(buckets, rounds), EdgesUpTo(prefs, buckets, rounds);
    Graph(side.Keys + Endpoints(edges), side, edges)
  }

  /** `create_bipartite_graph(n_critics, n_novels, preferences, length_to_critics)`;
      a missing bucket is read as an empty one (see `Lookup`). */
  method CreateBipartiteGraph(nNovels: nat, prefs: seq<nat>, buckets: BucketIndex) returns (b: NetworkGraph)
    requires InRange(buckets, |prefs|)
    ensures fresh(b)
    ensures b.Value() == GraphUpTo(prefs, buckets, nNovels)
  {
    b := new NetworkGraph();
    for n := 0 to nNovels
      invariant b.Value() == GraphUpTo(prefs, buckets, n)
    {
      AddBucket(b, prefs, buckets, n);
    }
  }

  /** The main program after parsing: the critics are read into
      `preferences` and `length_to_critics`, and the graph is built from
      them. */
  method BuildCompatibilityGraph(lists: seq<seq<nat>>, nNovels: nat) returns (preferences: seq<nat>, b: NetworkGraph)
    requires forall c :: 0 <= c < |lists| ==> ValidIds(lists[c])
    ensures |preferences| == |lists|
    ensures forall c :: 0 <= c < |lists| ==> preferences[c] == Mask(lists[c])
    ensures fresh(b)
    ensures b.Value() == GraphUpTo(preferences, Index(lists), nNovels)
  {
    var buckets;
    preferences, buckets := IndexCritics(lists);
    IndexInRange(lists);
    b := CreateBipartiteGraph(nNovels, preferences, buckets);
  }

  /** One round of the outer loop: bucket `n` adds its vertices and its edges
      to bucket `n + 1`. */
  method AddBucket(b: NetworkGraph, prefs: seq<nat>, buckets: BucketIndex, n: nat)
    requires InRange(buckets, |prefs|)
    requires b.Value() == GraphUpTo(prefs, buckets, n)
    modifies b
    ensures b.Value() == GraphUpTo(prefs, buckets, n + 1)
  {
    var bucket, next := Lookup(buckets, n), Lookup(buckets, n + 1);
    LookupInRange(buckets, |prefs|, n);
    LookupInRange(buckets, |prefs|, n + 1);
    ghost var sides, edges := SidesUpTo(buckets, n), EdgesUpTo(prefs, buckets, n);
    ghost var labelled := sides;
    for i := 0 to |bucket|
      invariant labelled == if 0 < i && HasNeighbourBucket(buckets, n) then sides + Labels(bucket, n % 2) else sides
      invariant b.side == labelled
      invariant b.edges == edges + SimilarPairs(prefs, bucket[..i], next)
      invariant b.nodes == b.side.Keys + Endpoints(b.edges)
    {
      var c1 := bucket[i];
      assert c1 in bucket;
      ghost var linked := b.edges;
      if n - 1 in buckets || n + 1 in buckets {
        LabelBucket(b.Value(), bucket, n % 2, sides);
        b.AddNodesFrom(bucket, n % 2);
        labelled := b.side;
      }
      assert b.edges == linked;
      SimilarPairsAddLeft(prefs, bucket, i, next);
      ConnectToBucket(b, prefs, c1, next);
      assert b.edges == linked + SimilarPairs(prefs, [c1], next);
    }
    assert bucket[..|bucket|] == bucket;
    SidesUpToStep(buckets, n);
  }

  /** The attributes `add_nodes_from(cs, bipartite=s)` sets. */
  function Labels(cs: seq<nat>, s: nat): map<nat, nat>
  {
    map c | c in cs :: s
  }

  /** The dictionary of the reading loop names only critics that were read,
      so it is a valid argument of `create_bipartite_graph`. */
  lemma IndexInRange(lists: seq<seq<nat>>)
    ensures InRange(Index(lists), |lists|)
  {
    forall k, c | k in Index(lists) && c in Index(lists)[k]
      ensures c < |lists|
    {
      assert Index(lists)[k] == CriticsOfSize(lists, k);
      CriticsOfSizeMembers(lists, k);
    }
  }

  lemma LookupInRange(buckets: BucketIndex, critics: nat, k: int)
    requires InRange(buckets, critics)
    ensures forall c :: c in Lookup(buckets, k) ==> c < critics
  {
  }

  /** `add_nodes_from` on a bucket, whether or not an earlier critic of the
      same bucket already ran it. */
  lemma LabelBucket(h: Graph, bucket: seq<nat>, s: nat, sides: map<nat, nat>)
    requires h.nodes == h.side.Keys + Endpoints(h.edges)
    requires h.side == sides || h.side == sides + Labels(bucket, s)
    ensures WithNodes(h, bucket, s).side == sides + Labels(bucket, s)
    ensures WithNodes(h, bucket, s).nodes == WithNodes(h, bucket, s).side.Keys + Endpoints(h.edges)
  {
    var labels := Labels(bucket, s);
    assert (sides + labels) + labels == sides + labels;
  }

  lemma SidesUpToStep(buckets: BucketIndex, n: nat)
    ensures Lookup(buckets, n) == [] || !HasNeighbourBucket(buckets, n) ==>
      SidesUpTo(buckets, n + 1) == SidesUpTo(buckets, n)
    ensures Lookup(buckets, n) != [] && HasNeighbourBucket(buckets, n) ==>
      SidesUpTo(buckets, n + 1) == SidesUpTo(buckets, n) + Labels(Lookup(buckets, n), n % 2)
  {
    var labels := Labels(Lookup(buckets, n), n % 2);
    assert Lookup(buckets, n) == [] ==> labels == map[];
    assert SidesUpTo(buckets, n) + map[] == SidesUpTo(buckets, n);
  }

  /** The innermost loop: `c1` is joined to every similar critic of `next`. */
  method ConnectToBucket(b: NetworkGraph, prefs: seq<nat>, c1: nat, next: seq<nat>)
    requires c1 < |prefs|
    requires forall c :: c in next ==> c < |prefs|
    requires b.nodes == b.side.Keys + Endpoints(b.edges)
    modifies b
    ensures b.side == old(b.side)
    ensures b.edges == old(b.edges) + SimilarPairs(prefs, [c1], next)
    ensures b.nodes == b.side.Keys + Endpoints(b.edges)
  {
    for j := 0 to |next|
      invariant b.side == old(b.side)
      invariant b.edges == old(b.edges) + SimilarPairs(prefs, [c1], next[..j])
      invariant b.nodes == b.side.Keys + Endpoints(b.edges)
    {
      var c2 := next[j];
      assert c2 in next;
      SimilarPairsAddRight(prefs, c1, next, j);
      if IsSimilar(prefs[c1], prefs[c2]) {
        EndpointsAddEdge(b.edges, c1, c2);
        b.AddEdge(c1, c2);
      }
    }
    assert next[..|next|] == next;
  }

  lemma SimilarPairsAddLeft(prefs: seq<nat>, left: seq<nat>, i: nat, right: seq<nat>)
    requires i < |left|
    ensures SimilarPairs(prefs, left[..i + 1], right) ==
            SimilarPairs(prefs, left[..i], right) + SimilarPairs(prefs, [left[i]], right)
  {
    assert left[..i + 1] == left[..i] + [left[i]];
  }

  lemma SimilarPairsAddRight(prefs: seq<nat>, c1: nat, right: seq<nat>, j: nat)
    requires j < |right|
    ensures var c2 := right[j];
      SimilarPairs(prefs, [c1], right[..j + 1]) ==
      SimilarPairs(prefs, [c1], right[..j]) + (if SimilarCritics(prefs, c1, c2) then {(c1, c2)} else {})
  {
    assert right[..j + 1] == right[..j] + [right[j]];
  }

  lemma EndpointsAddEdge(edges: set<(nat, nat)>, u: nat, v: nat)
    ensures Endpoints(edges + {(u, v)}) == Endpoints(edges) + {u, v}
  {
  }

  // ---------------------------------------------------------------------------
  // What the built graph holds, for any dictionary of buckets

  /** An edge is a similar pair from two adjacent buckets, the lower one below
      the number of rounds; every such pair is an edge. */
  lemma {:induction false} EdgesUpToMembers(prefs: seq<nat>, buckets: BucketIndex, rounds: nat)
    ensures forall c1, c2 :: (c1, c2) in EdgesUpTo(prefs, buckets, rounds) <==>
      exists n :: 0 <= n < rounds && c1 in Lookup(buckets, n) && c2 in Lookup(buckets, n + 1) &&
        SimilarCritics(prefs, c1, c2)
  {
    if rounds > 0 {
      EdgesUpToMembers(prefs, buckets, rounds - 1);
    }
  }

  /** A vertex carries an attribute exactly when it is in a bucket `n` below
      the number of rounds whose bucket `n - 1` or `n + 1` exists; the
      attribute is the parity of one such `n`. */
  lemma {:induction false} SidesUpToMembers(buckets: BucketIndex, rounds: nat)
    ensures forall c :: c in SidesUpTo(buckets, rounds) <==>
      exists n :: 0 <= n < rounds && HasNeighbourBucket(buckets, n) && c in Lookup(buckets, n)
    ensures forall c :: c in SidesUpTo(buckets, rounds) ==>
      exists n :: 0 <= n < rounds && c in Lookup(buckets, n) && SidesUpTo(buckets, rounds)[c] == n % 2
  {
    if rounds > 0 {
      var n := rounds - 1;
      SidesUpToMembers(buckets, n);
      var before, added := SidesUpTo(buckets, n),
        if HasNeighbourBucket(buckets, n) then Labels(Lookup(buckets, n), n % 2) else map[];
      assert SidesUpTo(buckets, rounds) == before + added;
      forall c | c in before + added
        ensures exists m :: 0 <= m < rounds && c in Lookup(buckets, m) && (before + added)[c] == m % 2
      {
        if c in added {
          assert c in Lookup(buckets, n) && (before + added)[c] == n % 2;
        } else {
          var m :| 0 <= m < n && c in Lookup(buckets, m) && before[c] == m % 2;
        }
      }
    }
  }

  /** The graph has no self-loop, whatever the buckets hold. */
  lemma NoSelfLoops(prefs: seq<nat>, buckets: BucketIndex, rounds: nat, c: nat)
    ensures (c, c) !in EdgesUpTo(prefs, buckets, rounds)
  {
    EdgesUpToMembers(prefs, buckets, rounds);
    if c < |prefs| {
      IsSimilarIrreflexive(prefs[c]);
    }
  }

  // ---------------------------------------------------------------------------
  // The graph built from the dictionary of the reading loop

  /** Over the buckets of `Index(lists)`: an edge joins a critic liking
      `k < nNovels` novels to a similar critic liking `k + 1`, and every such
      pair is an edge; a critic carries the attribute `k % 2` of its own
      bucket `k` exactly when `k < nNovels` and bucket `k - 1` or `k + 1`
      exists; every vertex is a critic whose bucket has a neighbour bucket. */
  lemma GraphOfIndex(lists: seq<seq<nat>>, prefs: seq<nat>, nNovels: nat, g: Graph)
    requires |prefs| == |lists|
    requires g == GraphUpTo(prefs, Index(lists), nNovels)
    ensures forall c1: nat, c2: nat :: (c1, c2) in g.edges <==>
      c1 < |lists| && c2 < |lists| && |lists[c1]| < nNovels && |lists[c2]| == |lists[c1]| + 1 &&
      IsSimilar(prefs[c1], prefs[c2])
    ensures forall c: nat :: c in g.side <==>
      c < |lists| && |lists[c]| < nNovels && HasNeighbourBucket(Index(lists), |lists[c]|)
    ensures forall c: nat :: c in g.side ==> c < |lists| && g.side[c] == |lists[c]| % 2
    ensures forall c: nat :: c in g.nodes ==> c < |lists| && HasNeighbourBucket(Index(lists), |lists[c]|)
  {
    IndexContents(lists);
    var buckets := Index(lists);
    forall c1: nat, c2: nat
      ensures (c1, c2) in EdgesUpTo(prefs, buckets, nNovels) <==>
        c1 < |lists| && c2 < |lists| && |lists[c1]| < nNovels && |lists[c2]| == |lists[c1]| + 1 &&
        IsSimilar(prefs[c1], prefs[c2])
    {
      EdgeOfBuckets(lists, prefs, buckets, nNovels, c1, c2);
    }
    forall c: nat
      ensures c in SidesUpTo(buckets, nNovels) <==>
        c < |lists| && |lists[c]| < nNovels && HasNeighbourBucket(buckets, |lists[c]|)
      ensures c in SidesUpTo(buckets, nNovels) ==> c < |lists| && SidesUpTo(buckets, nNovels)[c] == |lists[c]| % 2
    {
      SideOfBuckets(lists, buckets, nNovels, c);
    }
    forall c: nat | c in g.nodes
      ensures c < |lists| && HasNeighbourBucket(buckets, |lists[c]|)
    {
      NodeOfBuckets(lists, prefs, buckets, nNovels, c);
    }
  }

  /** A vertex is only ever added from a bucket that has a neighbour bucket:
      by `add_nodes_from` under that test, or as an endpoint of an edge
      between two adjacent buckets. */
  lemma NodeOfBuckets(lists: seq<seq<nat>>, prefs: seq<nat>, buckets: BucketIndex, nNovels: nat, c: nat)
    requires |prefs| == |lists|
    requires Indexes(buckets, lists)
    requires c in GraphUpTo(prefs, buckets, nNovels).nodes
    ensures c < |lists| && HasNeighbourBucket(buckets, |lists[c]|)
  {
    var sides, edges := SidesUpTo(buckets, nNovels), EdgesUpTo(prefs, buckets, nNovels);
    if c in sides {
      SideOfBuckets(lists, buckets, nNovels, c);
    } else if e :| e in edges && e.0 == c {
      EdgeOfBuckets(lists, prefs, buckets, nNovels, e.0, e.1);
      assert e.1 in Lookup(buckets, |lists[c]| + 1);
    } else {
      var e :| e in edges && e.1 == c;
      EdgeOfBuckets(lists, prefs, buckets, nNovels, e.0, e.1);
      assert e.0 in Lookup(buckets, |lists[c]| - 1);
    }
  }

  /** Whether `(c1, c2)` is an edge, for one pair of critics. */
  lemma EdgeOfBuckets(lists: seq<seq<nat>>, prefs: seq<nat>, buckets: BucketIndex, nNovels: nat, c1: nat, c2: nat)
    requires |prefs| == |lists|
    requires Indexes(buckets, lists)
    ensures (c1, c2) in EdgesUpTo(prefs, buckets, nNovels) <==>
      c1 < |lists| && c2 < |lists| && |lists[c1]| < nNovels && |lists[c2]| == |lists[c1]| + 1 &&
      IsSimilar(prefs[c1], prefs[c2])
  {
    EdgesUpToMembers(prefs, buckets, nNovels);
    if (c1, c2) in EdgesUpTo(prefs, buckets, nNovels) {
      var n :| 0 <= n < nNovels && c1 in Lookup(buckets, n) && c2 in Lookup(buckets, n + 1) &&
        SimilarCritics(prefs, c1, c2);
    }
    if c1 < |lists| && c2 < |lists| && |lists[c1]| < nNovels && |lists[c2]| == |lists[c1]| + 1 &&
      IsSimilar(prefs[c1], prefs[c2])
    {
      var n := |lists[c1]|;
      assert c1 in Lookup(buckets, n) && c2 in Lookup(buckets, n + 1) && SimilarCritics(prefs, c1, c2);
    }
  }

  /** Whether critic `c` carries an attribute, and which, for one critic. */
  lemma SideOfBuckets(lists: seq<seq<nat>>, buckets: BucketIndex, nNovels: nat, c: nat)
    requires Indexes(buckets, lists)
    ensures c in SidesUpTo(buckets, nNovels) <==>
      c < |lists| && |lists[c]| < nNovels && HasNeighbourBucket(buckets, |lists[c]|)
    ensures c in SidesUpTo(buckets, nNovels) ==>
      c < |lists| && SidesUpTo(buckets, nNovels)[c] == |lists[c]| % 2
  {
    var sides := SidesUpTo(buckets, nNovels);
    SidesUpToMembers(buckets, nNovels);
    if c in sides {
      var n :| 0 <= n < nNovels && HasNeighbourBucket(buckets, n) && c in Lookup(buckets, n);
      assert c < |lists| && |lists[c]| == n;
      var m :| 0 <= m < nNovels && c in Lookup(buckets, m) && sides[c] == m % 2;
      assert |lists[c]| == m;
    } else if c < |lists| {
      var n := |lists[c]|;
      assert c in Lookup(buckets, n);
      assert !(0 <= n < nNovels && HasNeighbourBucket(buckets, n));
    }
  }

  /** The parity of a critic's bucket is a proper two-colouring of the graph:
      no edge stays within a bucket or joins two buckets of the same parity.
      The lower endpoint of an edge always carries its side; the upper one
      carries the opposite side unless it lies in the top bucket `nNovels`,
      which the outer loop never visits. */
  lemma EdgesCrossSides(lists: seq<seq<nat>>, prefs: seq<nat>, nNovels: nat, g: Graph)
    requires |prefs| == |lists|
    requires g == GraphUpTo(prefs, Index(lists), nNovels)
    ensures forall c1: nat, c2: nat :: (c1, c2) in g.edges ==>
      c1 < |lists| && c2 < |lists| && |lists[c1]| != |lists[c2]| && |lists[c1]| % 2 != |lists[c2]| % 2
    ensures forall c1: nat, c2: nat :: (c1, c2) in g.edges ==> c1 in g.side && g.side[c1] == |lists[c1]| % 2
    ensures forall c1: nat, c2: nat :: (c1, c2) in g.edges ==> (c2 in g.side <==> |lists[c2]| < nNovels)
    ensures forall c1: nat, c2: nat :: (c1, c2) in g.edges && c2 in g.side ==> g.side[c1] != g.side[c2]
  {
    IndexContents(lists);
    var buckets := Index(lists);
    forall c1: nat, c2: nat | (c1, c2) in EdgesUpTo(prefs, buckets, nNovels)
      ensures c1 < |lists| && c2 < |lists| && |lists[c1]| != |lists[c2]| && |lists[c1]| % 2 != |lists[c2]| % 2
      ensures var sides := SidesUpTo(buckets, nNovels);
        && c1 in sides && sides[c1] == |lists[c1]| % 2
        && (c2 in sides <==> |lists[c2]| < nNovels)
        && (c2 in sides ==> sides[c1] != sides[c2])
    {
      EdgeCrossesSides(lists, prefs, buckets, nNovels, c1, c2);
    }
  }

  /** `EdgesCrossSides` for one edge. */
  lemma EdgeCrossesSides(lists: seq<seq<nat>>, prefs: seq<nat>, buckets: BucketIndex, nNovels: nat, c1: nat, c2: nat)
    requires |prefs| == |lists|
    requires Indexes(buckets, lists)
    requires (c1, c2) in EdgesUpTo(prefs, buckets, nNovels)
    ensures c1 < |lists| && c2 < |lists| && |lists[c1]| != |lists[c2]| && |lists[c1]| % 2 != |lists[c2]| % 2
    ensures var sides := SidesUpTo(buckets, nNovels);
      && c1 in sides && sides[c1] == |lists[c1]| % 2
      && (c2 in sides <==> |lists[c2]| < nNovels)
      && (c2 in sides ==> sides[c1] != sides[c2])
  {
    EdgeOfBuckets(lists, prefs, buckets, nNovels, c1, c2);
    assert c1 in Lookup(buckets, |lists[c1]|) && c2 in Lookup(buckets, |lists[c2]|);
    SideOfBuckets(lists, buckets, nNovels, c1);
    SideOfBuckets(lists, buckets, nNovels, c2);
  }

  /** Each critic is given ids from `1 .. nNovels`, each at most once. */
  predicate WellFormedCritics(lists: seq<seq<nat>>, nNovels: nat)
  {
    forall c :: 0 <= c < |lists| ==>
      ValidIds(lists[c]) && Distinct(lists[c]) && forall j :: 0 <= j < |lists[c]| ==> lists[c][j] <= nNovels
  }

  /** Restricting the comparisons to adjacent buckets loses no pair: two
      critics are similar exactly when the graph joins them, in one of the
      two orientations. */
  lemma EdgesAreSimilarCritics(lists: seq<seq<nat>>, prefs: seq<nat>, nNovels: nat, g: Graph)
    requires WellFormedCritics(lists, nNovels)
    requires |prefs| == |lists|
    requires forall c :: 0 <= c < |lists| ==> prefs[c] == Mask(lists[c])
    requires g == GraphUpTo(prefs, Index(lists), nNovels)
    ensures forall c1: nat, c2: nat :: c1 < |lists| && c2 < |lists| ==>
      (IsSimilar(prefs[c1], prefs[c2]) <==> (c1, c2) in g.edges || (c2, c1) in g.edges)
  {
    forall c1: nat, c2: nat | c1 < |lists| && c2 < |lists|
      ensures IsSimilar(prefs[c1], prefs[c2]) <==> (c1, c2) in g.edges || (c2, c1) in g.edges
    {
      SimilarPairIsEdge(lists, prefs, nNovels, c1, c2);
    }
  }

  /** `EdgesAreSimilarCritics` for one pair of critics. */
  lemma SimilarPairIsEdge(lists: seq<seq<nat>>, prefs: seq<nat>, nNovels: nat, c1: nat, c2: nat)
    requires WellFormedCritics(lists, nNovels)
    requires |prefs| == |lists|
    requires forall c :: 0 <= c < |lists| ==> prefs[c] == Mask(lists[c])
    requires c1 < |lists| && c2 < |lists|
    ensures IsSimilar(prefs[c1], prefs[c2]) <==>
      (c1, c2) in EdgesUpTo(prefs, Index(lists), nNovels) || (c2, c1) in EdgesUpTo(prefs, Index(lists), nNovels)
  {
    IndexContents(lists);
    EdgeOfBuckets(lists, prefs, Index(lists), nNovels, c1, c2);
    EdgeOfBuckets(lists, prefs, Index(lists), nNovels, c2, c1);
    IsSimilarSymmetric(prefs[c1], prefs[c2]);
    if IsSimilar(prefs[c1], prefs[c2]) {
      PopcountOfMask(lists[c1]);
      PopcountOfMask(lists[c2]);
      SimilarMasksDifferInPopcountByOne(prefs[c1], prefs[c2]);
      DistinctIdsBound(lists[c1], nNovels);
      DistinctIdsBound(lists[c2], nNovels);
    }
  }

  /** The upper endpoint of an edge lies at most in bucket `nNovels`; it is
      a vertex of the graph either way, but it carries no attribute exactly
      when it lies in bucket `nNovels`, which the outer loop never visits. */
  lemma TopBucketVertexUnlabelled(lists: seq<seq<nat>>, prefs: seq<nat>, nNovels: nat, g: Graph, c1: nat, c2: nat)
    requires |prefs| == |lists|
    requires g == GraphUpTo(prefs, Index(lists), nNovels)
    requires (c1, c2) in g.edges
    ensures c2 < |lists| && c2 in g.nodes && |lists[c2]| <= nNovels
    ensures |lists[c2]| == nNovels <==> c2 !in g.side
  {
    IndexContents(lists);
    EdgeOfBuckets(lists, prefs, Index(lists), nNovels, c1, c2);
    EdgeCrossesSides(lists, prefs, Index(lists), nNovels, c1, c2);
    assert c2 in Endpoints(g.edges) by {
      assert (c1, c2).1 == c2;
    }
  }

  /** An instance of the top bucket's vertices going without attribute: with
      one novel, a critic liking it and a critic liking nothing are joined,
      but only the second is labelled. */
  lemma TopBucketExample(g: Graph)
    requires g == GraphUpTo([1, 0], Index([[1], []]), 1)
    ensures (1, 0) in g.edges && 0 in g.nodes && 0 !in g.side && g.side[1] == 0
  {
    var lists: seq<seq<nat>> := [[1], []];
    GraphOfIndex(lists, [1, 0], 1, g);
    assert |lists[0]| - 1 in Sizes(lists);
    assert IsSimilar(1, 0) by {
      assert Xor(1, 0) == 1;
    }
  }
}
