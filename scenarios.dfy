/**
  Worked scenarios of the pairing engine, from the encoded critics to the
  matching.
*/
module Scenarios {
  import opened Bits
  import opened Similarity
  import opened Encoder
  import opened Buckets
  import opened CompatibilityGraph
  import opened Matching

  /** Three critics over two novels, liking {1}, {1, 2} and {2}. */
  function ScenarioCritics(): seq<seq<nat>>
  {
    [[1], [1, 2], [2]]
  }

  /** Their masks are 1, 3 and 2. */
  lemma ScenarioMasks()
    ensures Mask([1]) == 1 && Mask([1, 2]) == 3 && Mask([2]) == 2
  {
    assert [1, 2][..1] == [1];
    assert [1][..0] == [] && [2][..0] == [];
    assert Or(0, 1) == 1 && Or(0, 2) == 2;
    assert Or(1, 2) == 3 by {
      assert Or(0, 1) == 1;
    }
  }

  /** Critic 1 is similar to both others; critics 0 and 2 are not similar. */
  lemma ScenarioSimilarities()
    ensures IsSimilar(1, 3) && IsSimilar(2, 3) && !IsSimilar(1, 2)
  {
    assert Xor(1, 3) == 2 by {
      assert Xor(0, 1) == 1;
    }
    assert And(2, 1) == 0;
    assert Xor(2, 3) == 1 by {
      assert Xor(1, 1) == 0;
    }
    assert Xor(1, 2) == 3 by {
      assert Xor(0, 1) == 1;
    }
    assert And(3, 2) == 2 by {
      assert And(1, 1) == 1;
    }
  }

  /** The graph joins 0 and 2 to 1; 0 and 2 are on side 1, and 1, in the top
      bucket, is left without attribute. */
  lemma ScenarioGraph(g: Graph)
    requires g == GraphUpTo([1, 3, 2], Index(ScenarioCritics()), 2)
    ensures g.edges == {(0, 1), (2, 1)}
    ensures g.side == map[0 := 1, 2 := 1]
  {
    var lists := ScenarioCritics();
    IndexContents(lists);
    ScenarioEdges(lists, Index(lists));
    ScenarioSides(lists, Index(lists));
  }

  lemma ScenarioEdges(lists: seq<seq<nat>>, buckets: BucketIndex)
    requires lists == ScenarioCritics() && Indexes(buckets, lists)
    ensures EdgesUpTo([1, 3, 2], buckets, 2) == {(0, 1), (2, 1)}
  {
    var prefs: seq<nat> := [1, 3, 2];
    var edges := EdgesUpTo(prefs, buckets, 2);
    assert |lists[0]| == 1 && |lists[1]| == 2 && |lists[2]| == 1;
    ScenarioSimilarities();
    assert forall c :: 0 <= c < 3 ==> |lists[c]| <= 2 && (|lists[c]| == 2 <==> c == 1);
    var expected: set<(nat, nat)> := {(0, 1), (2, 1)};
    forall e | e in edges
      ensures e in expected
    {
      EdgeOfBuckets(lists, prefs, buckets, 2, e.0, e.1);
      assert e.1 == 1;
    }
    EdgeOfBuckets(lists, prefs, buckets, 2, 0, 1);
    EdgeOfBuckets(lists, prefs, buckets, 2, 2, 1);
  }

  lemma ScenarioSides(lists: seq<seq<nat>>, buckets: BucketIndex)
    requires lists == ScenarioCritics() && Indexes(buckets, lists)
    ensures SidesUpTo(buckets, 2) == map[0 := 1, 2 := 1]
  {
    var sides := SidesUpTo(buckets, 2);
    assert |lists[0]| == 1 && |lists[1]| == 2 && |lists[2]| == 1;
    assert 2 in buckets by {
      assert 1 in Lookup(buckets, 2);
    }
    forall c | c in sides
      ensures c == 0 || c == 2
    {
      SideOfBuckets(lists, buckets, 2, c);
    }
    SideOfBuckets(lists, buckets, 2, 0);
    SideOfBuckets(lists, buckets, 2, 2);
    assert sides.Keys == {0, 2};
  }

  /** Either pair alone is a maximum matching: critic 1 can be matched once. */
  lemma ScenarioMatchings(g: Graph)
    requires g == GraphUpTo([1, 3, 2], Index(ScenarioCritics()), 2)
    ensures IsMaximumMatching(g, map[0 := 1, 1 := 0])
    ensures IsMaximumMatching(g, map[1 := 2, 2 := 1])
  {
    ScenarioGraph(g);
    PathMatchings(g);
  }

  lemma PathMatchings(g: Graph)
    requires g.edges == {(0, 1), (2, 1)}
    ensures IsMaximumMatching(g, map[0 := 1, 1 := 0])
    ensures IsMaximumMatching(g, map[1 := 2, 2 := 1])
  {
    forall m: map<nat, nat> | IsMatching(g, m)
      ensures |m| <= 2
    {
      ScenarioMatchingBound(g, m);
    }
    assert |map[0 := 1, 1 := 0]| == 2 by {
      assert map[0 := 1, 1 := 0].Keys == {0, 1};
    }
    assert |map[1 := 2, 2 := 1]| == 2 by {
      assert map[1 := 2, 2 := 1].Keys == {1, 2};
    }
  }

  lemma ScenarioMatchingBound(g: Graph, m: map<nat, nat>)
    requires g.edges == {(0, 1), (2, 1)}
    requires IsMatching(g, m)
    ensures |m| <= 2
  {
    assert m.Keys <= {0, 1, 2};
    if 0 in m {
      assert m[0] == 1 && m[1] == 0;
      assert 2 !in m;
    }
    var keys: set<nat> := if 0 in m then {0, 1} else {1, 2};
    assert m.Keys <= keys;
    SubsetCardinality(m.Keys, keys);
    assert |m| == |m.Keys|;
  }

  /** Critics who all like the same novels are never joined. */
  lemma IdenticalCriticsNoEdges(lists: seq<seq<nat>>, prefs: seq<nat>, nNovels: nat)
    requires |prefs| == |lists|
    requires forall c, d :: 0 <= c < |lists| && 0 <= d < |lists| ==> lists[c] == lists[d]
    ensures EdgesUpTo(prefs, Index(lists), nNovels) == {}
  {
    IndexContents(lists);
    forall e | e in EdgesUpTo(prefs, Index(lists), nNovels)
      ensures false
    {
      EdgeOfBuckets(lists, prefs, Index(lists), nNovels, e.0, e.1);
    }
  }

  /** `[1, 1]` encodes to 1, as `[1]` does. */
  lemma RepeatedIdMask()
    ensures Mask([1, 1]) == 1
  {
    assert [1, 1][..1] == [1] && [1][..0] == [];
    assert Or(0, 1) == 1 && Or(1, 1) == 1;
  }

  /** A repeated id puts two similar critics in one bucket: `[1, 1]` and
      `[1, 2]` have masks 1 and 3 (`RepeatedIdMask`, `ScenarioMasks`), but
      both have length 2, so they are never compared. */
  lemma RepeatedIdLosesPair(g: Graph)
    requires g == GraphUpTo([1, 3], Index([[1, 1], [1, 2]]), 2)
    ensures IsSimilar(1, 3)
    ensures (0, 1) !in g.edges && (1, 0) !in g.edges
  {
    var lists: seq<seq<nat>> := [[1, 1], [1, 2]];
    ScenarioSimilarities();
    IndexContents(lists);
    EdgeOfBuckets(lists, [1, 3], Index(lists), 2, 0, 1);
    EdgeOfBuckets(lists, [1, 3], Index(lists), 2, 1, 0);
  }

  /** An id above `nNovels` puts a critic in a bucket no round reaches: with
      one novel, `[2]` and `[1, 2]` have masks 2 and 3, but round 1, which
      would compare lengths 1 and 2, never runs. */
  lemma HighIdLosesPair(g: Graph)
    requires g == GraphUpTo([2, 3], Index([[2], [1, 2]]), 1)
    ensures Mask([2]) == 2 && Mask([1, 2]) == 3 && IsSimilar(2, 3)
    ensures (0, 1) !in g.edges && (1, 0) !in g.edges
  {
    var lists: seq<seq<nat>> := [[2], [1, 2]];
    ScenarioMasks();
    ScenarioSimilarities();
    IndexContents(lists);
    EdgeOfBuckets(lists, [2, 3], Index(lists), 1, 0, 1);
    EdgeOfBuckets(lists, [2, 3], Index(lists), 1, 1, 0);
  }
}
