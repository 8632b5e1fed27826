/**
  The bitmask encoder `make_number`: a critic's list of liked novel ids
  becomes one integer with bit `l - 1` set for each liked novel `l`.
*/
module Encoder {
  import opened Bits
  import opened Similarity

  /** `1 << (l - 1)` is only defined for `l >= 1`. */
  predicate ValidIds(ids: seq<nat>)
  {
    forall j :: 0 <= j < |ids| ==> ids[j] >= 1
  }

  /** No element is listed twice (for a preference list: no novel). */
  predicate Distinct<T(==)>(s: seq<T>)
  {
    forall i, j :: 0 <= i < j < |s| ==> s[i] != s[j]
  }

  /** The value `make_number(ids)` returns: the ids or-ed into the accumulator
      from left to right. */
  function Mask(ids: seq<nat>): nat
    requires ValidIds(ids)
  {
    if ids == [] then 0 else Or(Mask(ids[..|ids| - 1]), Pow2(ids[|ids| - 1] - 1))
  }

  /** `make_number(L)`. */
  method MakeNumber(ids: seq<nat>) returns (n: nat)
    requires ValidIds(ids)
    ensures n == Mask(ids)
    ensures forall i: nat :: Bit(n, i) <==> i + 1 in ids
  {
    n := 0;
    for j := 0 to |ids|
      invariant n == Mask(ids[..j])
    {
      assert ids[..j + 1][..j] == ids[..j];
      n := Or(n, Pow2(ids[j] - 1));
    }
    assert ids[..|ids|] == ids;
    MaskBits(ids);
  }

  /** Bit `i` of the mask is set exactly when novel `i + 1` is in the list. */
  lemma {:induction false} MaskBits(ids: seq<nat>)
    requires ValidIds(ids)
    ensures forall i: nat :: Bit(Mask(ids), i) <==> i + 1 in ids
  {
    if ids != [] {
      var init, last := ids[..|ids| - 1], ids[|ids| - 1];
      assert ids == init + [last];
      MaskBits(init);
      forall i: nat
        ensures Bit(Mask(ids), i) <==> i + 1 in ids
      {
        BitOfOr(Mask(init), Pow2(last - 1), i);
        BitOfPow2(last - 1, i);
      }
    } else {
      forall i: nat
        ensures !Bit(0, i)
      {
        BitOfZero(i);
      }
    }
  }

  /** Neither the order of the ids nor repetitions change the mask. */
  lemma SameIdsSameMask(ids1: seq<nat>, ids2: seq<nat>)
    requires ValidIds(ids1) && ValidIds(ids2)
    requires forall l :: l in ids1 <==> l in ids2
    ensures Mask(ids1) == Mask(ids2)
  {
    MaskBits(ids1);
    MaskBits(ids2);
    BitsDetermineValue(Mask(ids1), Mask(ids2));
  }

  /** For a list without repetitions, the mask has one set bit per id, so the
      bucket key `len(p)` is the mask's population count. */
  lemma {:induction false} PopcountOfMask(ids: seq<nat>)
    requires ValidIds(ids) && Distinct(ids)
    ensures Popcount(Mask(ids)) == |ids|
  {
    if ids != [] {
      var init, last := ids[..|ids| - 1], ids[|ids| - 1];
      PopcountOfMask(init);
      MaskBits(init);
      assert last !in init;
      PopcountSetBit(Mask(init), last - 1);
    }
  }

  /** A list of distinct ids drawn from `1..n` has at most `n` entries: no
      critic likes more novels than there are. */
  lemma DistinctIdsBound(ids: seq<nat>, n: nat)
    requires Distinct(ids)
    requires forall j :: 0 <= j < |ids| ==> 1 <= ids[j] <= n
    ensures |ids| <= n
  {
    var liked := set l: nat | l in ids;
    DistinctCardinality(ids);
    NovelsCardinality(n);
    assert liked <= Novels(n);
    SubsetCardinality(liked, Novels(n));
    assert |liked| <= n;
  }

  /** The novel ids `1..n`. */
  function Novels(n: nat): set<nat>
  {
    if n == 0 then {} else Novels(n - 1) + {n}
  }

  lemma {:induction false} NovelsCardinality(n: nat)
    ensures |Novels(n)| == n
    ensures forall l :: l in Novels(n) <==> 1 <= l <= n
  {
    if n > 0 {
      NovelsCardinality(n - 1);
    }
  }

  /** A sequence without repetitions has as many elements as its set. */
  lemma {:induction false} DistinctCardinality<T>(s: seq<T>)
    requires Distinct(s)
    ensures |set x: T | x in s| == |s|
  {
    if s != [] {
      var init, last := s[..|s| - 1], s[|s| - 1];
      assert s == init + [last];
      DistinctCardinality(init);
      assert (set x: T | x in s) == (set x: T | x in init) + {last};
      assert last !in init;
      assert (set x: T | x in init) * {last} == {};
    } else {
      assert (set x: T | x in s) == {};
    }
  }

  lemma {:induction false} SubsetCardinality(a: set<nat>, b: set<nat>)
    requires a <= b
    ensures |a| <= |b|
    decreases a
  {
    if a != {} {
      var x :| x in a;
      SubsetCardinality(a - {x}, b - {x});
    }
  }

  /** The worked example of the module documentation: "1 3 4" is 1101 in
      binary, 13; "1 4" is 1001, 9; and the two critics are similar. */
  lemma DocstringExample()
    ensures Mask([1, 3, 4]) == 13
    ensures Mask([1, 4]) == 9
    ensures IsSimilar(13, 9)
  {
    assert [1, 3, 4][..2] == [1, 3];
    assert [1, 3][..1] == [1];
    assert [1, 4][..1] == [1];
    assert [1][..0] == [];
    assert Or(0, 1) == 1;
    assert Or(1, 4) == 5 by {
      assert Or(0, 2) == 2;
    }
    assert Or(5, 8) == 13 by {
      assert Or(2, 4) == 6 by {
        assert Or(1, 2) == 3;
      }
    }
    assert Or(1, 8) == 9 by {
      assert Or(0, 4) == 4;
    }
    assert Xor(13, 9) == 4 by {
      assert Xor(6, 4) == 2;
    }
  }
}
