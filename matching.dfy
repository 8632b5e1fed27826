/**
  `display_maximum_matching`: the matching of the compatibility graph is a
  dictionary from each matched critic to its partner, holding both
  directions of every pair; each pair is printed once, as `k + 1, v + 1` for
  the entry with `k < v`. The matching algorithm itself belongs to a library
  and is described here only by what its result must be.
*/
module Matching {
  import opened Similarity
  import opened Buckets
  import opened Encoder
  import opened CompatibilityGraph

  /** `u` and `v` are joined in the undirected graph `g`. */
  predicate Adjacent(g: Graph, u: nat, v: nat)
  {
    (u, v) in g.edges || (v, u) in g.edges
  }

  /** `m` is a matching of `g` in the form the library returns it: every
      matched vertex maps to a different vertex that maps back to it, along
      an edge of `g`. */
  predicate IsMatching(g: Graph, m: map<nat, nat>)
  {
    forall u :: u in m ==> m[u] in m && m[m[u]] == u && m[u] != u && Adjacent(g, u, m[u])
  }

  /** What `maximum_matching` promises: no matching of `g` has more entries. */
  ghost predicate IsMaximumMatching(g: Graph, m: map<nat, nat>)
  {
    IsMatching(g, m) && forall m': map<nat, nat> :: IsMatching(g, m') ==> |m'| <= |m|
  }

  /** `items` is what `m.iteritems()` yields, in some order: `|m|` entries
      of `m` with different keys, that is every entry once (`ItemsCover`). */
  predicate ItemsOf(items: seq<(nat, nat)>, m: map<nat, nat>)
  {
    && (forall i :: 0 <= i < |items| ==> items[i].0 in m && m[items[i].0] == items[i].1)
    && (forall i, j :: 0 <= i < j < |items| ==> items[i].0 != items[j].0)
    && |items| == |m|
  }

  /** The keys of the entries. */
  function Keys(items: seq<(nat, nat)>): (keys: seq<nat>)
    ensures |keys| == |items| && forall i :: 0 <= i < |items| ==> keys[i] == items[i].0
  {
    if items == [] then [] else Keys(items[..|items| - 1]) + [items[|items| - 1].0]
  }

  /** Every key of `m` is the key of one of the entries. */
  lemma ItemsCover(items: seq<(nat, nat)>, m: map<nat, nat>, u: nat) returns (i: nat)
    requires ItemsOf(items, m)
    requires u in m
    ensures i < |items| && items[i] == (u, m[u])
  {
    var keys := Keys(items);
    var listed := set x: nat | x in keys;
    assert listed <= m.Keys by {
      forall x | x in listed
        ensures x in m
      {
        var j :| 0 <= j < |keys| && keys[j] == x;
      }
    }
    DistinctCardinality(keys);
    assert |m.Keys| == |m|;
    if u !in listed {
      SubsetCardinality(listed, m.Keys - {u});
      assert false;
    }
    var j :| 0 <= j < |keys| && keys[j] == u;
    i := j;
  }

  /** The lines printed for `items`, as pairs of one-based critic numbers. */
  function Reported(items: seq<(nat, nat)>): seq<(nat, nat)>
  {
    if items == [] then []
    else
      var (k, v) := items[|items| - 1];
      Reported(items[..|items| - 1]) + (if k < v then [(k + 1, v + 1)] else [])
  }

  /** The printing loop of `display_maximum_matching` over the entries of the
      matching; each printed line is returned as a pair. */
  method DisplayMaximumMatching(items: seq<(nat, nat)>) returns (lines: seq<(nat, nat)>)
    ensures lines == Reported(items)
  {
    lines := [];
    for i := 0 to |items|
      invariant lines == Reported(items[..i])
    {
      assert items[..i + 1][..i] == items[..i];
      var (k, v) := items[i];
      if k < v {
        lines := lines + [(k + 1, v + 1)];
      }
    }
    assert items[..|items|] == items;
  }

  /** A line is printed exactly for each entry `k -> v` with `k < v`. */
  lemma {:induction false} ReportedMembers(items: seq<(nat, nat)>)
    ensures forall p :: p in Reported(items) <==>
      exists i :: 0 <= i < |items| && items[i].0 < items[i].1 && p == (items[i].0 + 1, items[i].1 + 1)
  {
    if items != [] {
      var init := items[..|items| - 1];
      ReportedMembers(init);
      forall p | p in Reported(items)
        ensures exists i :: 0 <= i < |items| && items[i].0 < items[i].1 && p == (items[i].0 + 1, items[i].1 + 1)
      {
        if p in Reported(init) {
          var i :| 0 <= i < |init| && init[i].0 < init[i].1 && p == (init[i].0 + 1, init[i].1 + 1);
          assert items[i] == init[i];
        }
      }
      forall i | 0 <= i < |items| && items[i].0 < items[i].1
        ensures (items[i].0 + 1, items[i].1 + 1) in Reported(items)
      {
        if i < |init| {
          assert items[i] == init[i];
        }
      }
    }
  }

  /** The entry at `i`, if its key is the smaller, is printed. */
  lemma {:induction false} ReportedEntry(items: seq<(nat, nat)>, i: nat)
    requires i < |items| && items[i].0 < items[i].1
    ensures (items[i].0 + 1, items[i].1 + 1) in Reported(items)
  {
    var init := items[..|items| - 1];
    if i < |init| {
      assert items[i] == init[i];
      ReportedEntry(init, i);
    }
  }

  /** The entry a printed line comes from. */
  lemma {:induction false} ReportedSource(items: seq<(nat, nat)>, i: nat) returns (k: nat)
    requires i < |Reported(items)|
    ensures k < |items| && items[k].0 < items[k].1
    ensures Reported(items)[i] == (items[k].0 + 1, items[k].1 + 1)
  {
    var init, last := items[..|items| - 1], items[|items| - 1];
    if i < |Reported(init)| {
      k := ReportedSource(init, i);
      assert items[k] == init[k];
    } else {
      k := |items| - 1;
    }
  }

  /** Lines are printed in the order of the entries they come from. */
  lemma {:induction false} ReportedSources(items: seq<(nat, nat)>, i: nat, j: nat) returns (k: nat, l: nat)
    requires i < j < |Reported(items)|
    ensures k < l < |items|
    ensures Reported(items)[i] == (items[k].0 + 1, items[k].1 + 1)
    ensures Reported(items)[j] == (items[l].0 + 1, items[l].1 + 1)
  {
    var init := items[..|items| - 1];
    if j < |Reported(init)| {
      k, l := ReportedSources(init, i, j);
      assert items[k] == init[k] && items[l] == init[l];
    } else {
      k := ReportedSource(init, i);
      assert items[k] == init[k];
      l := |items| - 1;
    }
  }

  /** Every printed line names two matched partners, the smaller first,
      joined in the graph. */
  lemma ReportedLinesAreMatchedEdges(g: Graph, m: map<nat, nat>, items: seq<(nat, nat)>)
    requires IsMatching(g, m)
    requires ItemsOf(items, m)
    ensures forall p | p in Reported(items) ::
      1 <= p.0 < p.1 && p.0 - 1 in m && m[p.0 - 1] == p.1 - 1 && Adjacent(g, p.0 - 1, p.1 - 1)
  {
    forall p | p in Reported(items)
      ensures 1 <= p.0 < p.1 && p.0 - 1 in m && m[p.0 - 1] == p.1 - 1 && Adjacent(g, p.0 - 1, p.1 - 1)
    {
      LineOfMatching(g, m, items, p);
    }
  }

  /** Every matched pair is printed, the smaller critic first. */
  lemma MatchedPairsReported(g: Graph, m: map<nat, nat>, items: seq<(nat, nat)>)
    requires IsMatching(g, m)
    requires ItemsOf(items, m)
    ensures forall u | u in m && u < m[u] :: (u + 1, m[u] + 1) in Reported(items)
  {
    forall u | u in m && u < m[u]
      ensures (u + 1, m[u] + 1) in Reported(items)
    {
      MatchedPairReported(g, m, items, u);
    }
  }

  /** No critic appears on two printed lines, so no line repeats. */
  lemma ReportedLinesDisjoint(g: Graph, m: map<nat, nat>, items: seq<(nat, nat)>)
    requires IsMatching(g, m)
    requires ItemsOf(items, m)
    ensures var r := Reported(items);
      forall i, j | 0 <= i < j < |r| :: r[i] != r[j] && {r[i].0, r[i].1} !! {r[j].0, r[j].1}
  {
    var r := Reported(items);
    forall i, j | 0 <= i < j < |r|
      ensures r[i] != r[j] && {r[i].0, r[i].1} !! {r[j].0, r[j].1}
    {
      LinesDisjoint(g, m, items, i, j);
    }
  }

  /** One printed line names two partners, the smaller first. */
  lemma LineOfMatching(g: Graph, m: map<nat, nat>, items: seq<(nat, nat)>, p: (nat, nat))
    requires IsMatching(g, m)
    requires ItemsOf(items, m)
    requires p in Reported(items)
    ensures 1 <= p.0 < p.1 && p.0 - 1 in m && m[p.0 - 1] == p.1 - 1 && Adjacent(g, p.0 - 1, p.1 - 1)
  {
    ReportedMembers(items);
    var i :| 0 <= i < |items| && items[i].0 < items[i].1 && p == (items[i].0 + 1, items[i].1 + 1);
    assert items[i].0 in m && m[items[i].0] == items[i].1;
  }

  /** One matched pair is printed, smaller critic first. */
  lemma MatchedPairReported(g: Graph, m: map<nat, nat>, items: seq<(nat, nat)>, u: nat)
    requires IsMatching(g, m)
    requires ItemsOf(items, m)
    requires u in m
    ensures u < m[u] ==> (u + 1, m[u] + 1) in Reported(items)
    ensures m[u] < u ==> (m[u] + 1, u + 1) in Reported(items)
  {
    var v := m[u];
    assert v in m && m[v] == u && v != u;
    if u < v {
      var i := ItemsCover(items, m, u);
      ReportedEntry(items, i);
    } else {
      var j := ItemsCover(items, m, v);
      ReportedEntry(items, j);
    }
  }

  /** Two printed lines share no critic. */
  lemma LinesDisjoint(g: Graph, m: map<nat, nat>, items: seq<(nat, nat)>, i: nat, j: nat)
    requires IsMatching(g, m)
    requires ItemsOf(items, m)
    requires i < j < |Reported(items)|
    ensures var r := Reported(items);
      r[i] != r[j] && {r[i].0, r[i].1} !! {r[j].0, r[j].1}
  {
    var r := Reported(items);
    var k, l := ReportedSources(items, i, j);
    LineOfMatching(g, m, items, r[i]);
    LineOfMatching(g, m, items, r[j]);
    var a, b := r[i].0 - 1, r[j].0 - 1;
    assert a == items[k].0 && b == items[l].0;
    assert r[i] == (a + 1, m[a] + 1) && r[j] == (b + 1, m[b] + 1);
  }

  /** As many lines are printed as the matching has pairs: half its entries. */
  lemma ReportedCount(g: Graph, m: map<nat, nat>, items: seq<(nat, nat)>)
    requires IsMatching(g, m)
    requires ItemsOf(items, m)
    ensures 2 * |Reported(items)| == |m|
  {
    MatchingHalves(g, m);
    ReportedLowerEnds(g, m, items);
  }

  /** The matched critics whose partner has a larger index. */
  function LowerEnds(m: map<nat, nat>): set<nat>
  {
    set u | u in m && u < m[u]
  }

  /** The matched critics whose partner has a smaller index. */
  function UpperEnds(m: map<nat, nat>): set<nat>
  {
    set u | u in m && m[u] < u
  }

  /** Each pair of a matching has exactly one lower end. */
  lemma MatchingHalves(g: Graph, m: map<nat, nat>)
    requires IsMatching(g, m)
    ensures 2 * |LowerEnds(m)| == |m|
  {
    EndsPartitionKeys(g, m);
    var partner := (u: nat) => if u in m then m[u] else 0;
    PartnersOfLowerEnds(g, m, partner);
    InjectiveImage(LowerEnds(m), partner);
  }

  lemma EndsPartitionKeys(g: Graph, m: map<nat, nat>)
    requires IsMatching(g, m)
    ensures |m| == |LowerEnds(m)| + |UpperEnds(m)|
  {
    assert m.Keys == LowerEnds(m) + UpperEnds(m);
    assert |m| == |m.Keys|;
  }

  lemma PartnersOfLowerEnds(g: Graph, m: map<nat, nat>, partner: nat -> nat)
    requires IsMatching(g, m)
    requires forall u :: u in m ==> partner(u) == m[u]
    ensures UpperEnds(m) == set u | u in LowerEnds(m) :: partner(u)
    ensures forall x, y :: x in LowerEnds(m) && y in LowerEnds(m) && partner(x) == partner(y) ==> x == y
  {
    forall u | u in UpperEnds(m)
      ensures u in set x | x in LowerEnds(m) :: partner(x)
    {
      assert m[u] in LowerEnds(m) && partner(m[u]) == u;
    }
  }

  /** One line is printed per lower end. */
  lemma ReportedLowerEnds(g: Graph, m: map<nat, nat>, items: seq<(nat, nat)>)
    requires IsMatching(g, m)
    requires ItemsOf(items, m)
    ensures |Reported(items)| == |LowerEnds(m)|
  {
    var r, lower := Reported(items), LowerEnds(m);
    var line := (u: nat) => (u + 1, (if u in m then m[u] else 0) + 1);
    assert (set p | p in r) == set u | u in lower :: line(u) by {
      forall p | p in r
        ensures p in set u | u in lower :: line(u)
      {
        LineOfMatching(g, m, items, p);
        assert p.0 - 1 in lower && line(p.0 - 1) == p;
      }
      forall u | u in lower
        ensures line(u) in r
      {
        MatchedPairReported(g, m, items, u);
      }
    }
    InjectiveImage(lower, line);
    assert Distinct(r) by {
      forall i, j | 0 <= i < j < |r|
        ensures r[i] != r[j]
      {
        LinesDisjoint(g, m, items, i, j);
      }
    }
    DistinctCardinality(r);
  }

  /** An injective function preserves the size of a set. */
  lemma {:induction false} InjectiveImage<B>(s: set<nat>, f: nat -> B)
    requires forall x, y :: x in s && y in s && f(x) == f(y) ==> x == y
    ensures |set x | x in s :: f(x)| == |s|
    decreases s
  {
    if s != {} {
      var x :| x in s;
      InjectiveImage(s - {x}, f);
      assert (set y | y in s :: f(y)) == (set y | y in s - {x} :: f(y)) + {f(x)};
    } else {
      assert (set y | y in s :: f(y)) == {};
    }
  }

  /** On the graph built from the dictionary of the reading loop, matched
      critics are similar and like numbers of novels that differ by one. */
  lemma MatchedCriticsAreSimilar(lists: seq<seq<nat>>, prefs: seq<nat>, nNovels: nat, g: Graph, m: map<nat, nat>)
    requires |prefs| == |lists|
    requires g == GraphUpTo(prefs, Index(lists), nNovels)
    requires IsMatching(g, m)
    ensures forall u :: u in m ==>
      && u < |lists| && m[u] < |lists|
      && IsSimilar(prefs[u], prefs[m[u]])
      && (|lists[u]| + 1 == |lists[m[u]]| || |lists[m[u]]| + 1 == |lists[u]|)
  {
    forall u | u in m
      ensures && u < |lists| && m[u] < |lists|
              && IsSimilar(prefs[u], prefs[m[u]])
              && (|lists[u]| + 1 == |lists[m[u]]| || |lists[m[u]]| + 1 == |lists[u]|)
    {
      JoinedCriticsAreSimilar(lists, prefs, nNovels, u, m[u]);
    }
  }

  /** Two critics joined in the graph, in either orientation, are similar and
      their preference counts differ by one. */
  lemma JoinedCriticsAreSimilar(lists: seq<seq<nat>>, prefs: seq<nat>, nNovels: nat, u: nat, v: nat)
    requires |prefs| == |lists|
    requires Adjacent(GraphUpTo(prefs, Index(lists), nNovels), u, v)
    ensures && u < |lists| && v < |lists|
            && IsSimilar(prefs[u], prefs[v])
            && (|lists[u]| + 1 == |lists[v]| || |lists[v]| + 1 == |lists[u]|)
  {
    IndexContents(lists);
    EdgeOfBuckets(lists, prefs, Index(lists), nNovels, u, v);
    EdgeOfBuckets(lists, prefs, Index(lists), nNovels, v, u);
    if (v, u) in EdgesUpTo(prefs, Index(lists), nNovels) {
      IsSimilarSymmetric(prefs[u], prefs[v]);
    }
  }
}
