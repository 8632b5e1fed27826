/**
  The bucket index built while the critics are read: `length_to_critics`
  maps the length of a critic's preference list to the indices of the critics
  with that many preferences, in input order; alongside it `preferences`
  holds each critic's mask.
*/
module Buckets {
  import opened Encoder

  /** A dictionary from preference count to critic indices. */
  type BucketIndex = map<int, seq<nat>>

  /** `length_to_critics[k]`, with a missing key read as no critics. */
  function Lookup(buckets: BucketIndex, k: int): seq<nat>
  {
    if k in buckets then buckets[k] else []
  }

  /** The preference counts that occur among the critics. */
  function Sizes(lists: seq<seq<nat>>): set<int>
  {
    set c | 0 <= c < |lists| :: |lists[c]|
  }

  /** The critics, in input order, that list exactly `size` novels. */
  function CriticsOfSize(lists: seq<seq<nat>>, size: int): seq<nat>
  {
    if lists == [] then []
    else
      var last := |lists| - 1;
      CriticsOfSize(lists[..last], size) + (if |lists[last]| == size then [last] else [])
  }

  /** `cs` lists its elements in strictly increasing order. */
  predicate Increasing(cs: seq<nat>)
  {
    forall i, j :: 0 <= i < j < |cs| ==> cs[i] < cs[j]
  }

  /** `buckets` holds, under every key, present or not, exactly the critics
      with that many preferences. */
  ghost predicate Indexes(buckets: BucketIndex, lists: seq<seq<nat>>)
  {
    forall k, c: nat :: c in Lookup(buckets, k) <==> c < |lists| && |lists[c]| == k
  }

  /** The dictionary the reading loop leaves behind. */
  function Index(lists: seq<seq<nat>>): BucketIndex
  {
    map k | k in Sizes(lists) :: CriticsOfSize(lists, k)
  }

  /** The reading loop of the main program, lines of input already parsed into
      `lists`: each critic's mask is appended to `preferences` and its index
      to the bucket of its preference count, the bucket being created on
      first use. */
  method IndexCritics(lists: seq<seq<nat>>) returns (preferences: seq<nat>, buckets: BucketIndex)
    requires forall c :: 0 <= c < |lists| ==> ValidIds(lists[c])
    ensures |preferences| == |lists|
    ensures forall c :: 0 <= c < |lists| ==> preferences[c] == Mask(lists[c])
    ensures buckets == Index(lists)
  {
    preferences, buckets := [], map[];
    for c := 0 to |lists|
      invariant |preferences| == c
      invariant forall i :: 0 <= i < c ==> preferences[i] == Mask(lists[i])
      invariant buckets == Index(lists[..c])
    {
      var p := lists[c];
      var n := MakeNumber(p);
      preferences := preferences + [n];
      ghost var before := buckets;
      if |p| in buckets {
        buckets := buckets[|p| := buckets[|p|] + [c]];
      } else {
        assert Lookup(before, |p|) + [c] == [c];
        buckets := buckets[|p| := [c]];
      }
      IndexStep(lists, c);
    }
    assert lists[..|lists|] == lists;
  }

  /** Reading critic `c` extends the bucket of its size by `c` and leaves the
      other buckets alone. */
  lemma IndexStep(lists: seq<seq<nat>>, c: nat)
    requires c < |lists|
    ensures var before, size := Index(lists[..c]), |lists[c]|;
      Index(lists[..c + 1]) == before[size := Lookup(before, size) + [c]]
  {
    var before, after, size := Index(lists[..c]), Index(lists[..c + 1]), |lists[c]|;
    var updated := before[size := Lookup(before, size) + [c]];
    assert lists[..c + 1][..c] == lists[..c];
    assert Sizes(lists[..c + 1]) == Sizes(lists[..c]) + {size} by {
      forall k | k in Sizes(lists[..c + 1])
        ensures k in Sizes(lists[..c]) + {size}
      {
        var i :| 0 <= i < c + 1 && |lists[..c + 1][i]| == k;
        if i < c {
          assert |lists[..c][i]| == k;
        }
      }
      forall k | k in Sizes(lists[..c])
        ensures k in Sizes(lists[..c + 1])
      {
        var i :| 0 <= i < c && |lists[..c][i]| == k;
        assert |lists[..c + 1][i]| == k;
      }
      assert |lists[..c + 1][c]| == size;
    }
    forall k | k in after
      ensures after[k] == updated[k]
    {
      assert after[k] == CriticsOfSize(lists[..c], k) + (if size == k then [c] else []);
      if k != size {
        assert k in before;
      } else if size !in before {
        IndexContents(lists[..c]);
      }
    }
    assert after.Keys == updated.Keys;
  }

  /** A critic is in the bucket of `size` exactly when it lists `size` novels:
      every critic is in one bucket, that of its own preference count. */
  lemma {:induction false} CriticsOfSizeMembers(lists: seq<seq<nat>>, size: int)
    ensures forall c: nat :: c in CriticsOfSize(lists, size) <==> c < |lists| && |lists[c]| == size
  {
    if lists != [] {
      var last := |lists| - 1;
      CriticsOfSizeMembers(lists[..last], size);
    }
  }

  /** Each bucket lists its critics in strictly increasing order. */
  lemma {:induction false} CriticsOfSizeIncreasing(lists: seq<seq<nat>>, size: int)
    ensures Increasing(CriticsOfSize(lists, size))
  {
    if lists != [] {
      var last := |lists| - 1;
      CriticsOfSizeIncreasing(lists[..last], size);
      CriticsOfSizeMembers(lists[..last], size);
      var cs := CriticsOfSize(lists[..last], size);
      var tail: seq<nat> := if |lists[last]| == size then [last] else [];
      forall i, j | 0 <= i < j < |cs + tail|
        ensures (cs + tail)[i] < (cs + tail)[j]
      {
        if j < |cs| {
          assert (cs + tail)[i] == cs[i] && (cs + tail)[j] == cs[j];
          assert cs[i] < cs[j];
        } else {
          assert cs[i] in cs;
          assert (cs + tail)[i] == cs[i] && (cs + tail)[j] == last;
        }
      }
    }
  }

  /** What the finished dictionary holds: a key for every preference count
      that occurs and for no other, a bucket that is never empty, and, under
      every key, present or not, the critics with that count in input order. */
  lemma IndexContents(lists: seq<seq<nat>>)
    ensures Index(lists).Keys == Sizes(lists)
    ensures forall k :: k in Index(lists) ==> Index(lists)[k] != []
    ensures forall k :: Lookup(Index(lists), k) == CriticsOfSize(lists, k)
    ensures Indexes(Index(lists), lists)
  {
    forall k
      ensures Lookup(Index(lists), k) == CriticsOfSize(lists, k)
      ensures k in Index(lists) ==> Index(lists)[k] != []
      ensures forall c: nat :: c in Lookup(Index(lists), k) <==> c < |lists| && |lists[c]| == k
    {
      CriticsOfSizeMembers(lists, k);
      if k in Index(lists) {
        var c :| 0 <= c < |lists| && |lists[c]| == k;
        assert c in CriticsOfSize(lists, k);
      } else if CriticsOfSize(lists, k) != [] {
        assert CriticsOfSize(lists, k)[0] in CriticsOfSize(lists, k);
      }
    }
  }
}
