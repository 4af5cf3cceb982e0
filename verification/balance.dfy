/** What the 1-2-3 rule buys: every gap holds at least one node, so each
    level has at least twice as many nodes as the level above it, and a list
    of height h holds at least 2^h - 1 elements. The height is therefore at
    most log2 of one more than the element count. The rule's upper bound of
    three plays no part here. Levels whose gaps are all one node show that
    the base 2 is the best the invariant alone gives. */
module Balance {
  import opened SortedSeq
  import opened Layout

  function Pow2(n: nat): (r: nat)
    ensures r >= 1
  {
    if n == 0 then 1 else 2 * Pow2(n - 1)
  }

  /** The copy of `upper[j]` lies at index 2j or beyond in `lower`. Each of
      the gaps up to it holds a node, and each earlier copy takes one more. */
  lemma {:induction false} CopyFarRight(upper: seq<int>, lower: seq<int>, j: nat)
    requires Sorted(upper) && Sorted(lower) && Within(upper, lower)
    requires PairOk(upper, lower) && j < |upper|
    ensures 2 * j + 1 <= FirstGeq(lower, upper[j])
  {
    CopyIndex(upper, lower, j);
    assert 1 <= Gap(upper, lower, j);
    if j > 0 {
      CopyFarRight(upper, lower, j - 1);
    }
  }

  /** A level obeying the 1-2-3 rule over the level below has at most half
      as many nodes as that level. */
  lemma LevelDoubles(upper: seq<int>, lower: seq<int>)
    requires Sorted(upper) && Sorted(lower) && Within(upper, lower)
    requires PairOk(upper, lower) && |upper| >= 1
    ensures 2 * |upper| <= |lower|
  {
    CopyFarRight(upper, lower, |upper| - 1);
    CopyIndex(upper, lower, |upper| - 1);
  }

  /** Level i of a valid list has at least 2^i nodes. */
  lemma {:induction false} LevelsGrow(s: DSkipList, i: nat)
    requires Inv(s) && i < |s.levels|
    ensures Pow2(i) <= |s.levels[i]|
  {
    if i > 0 {
      LevelsGrow(s, i - 1);
      LayeredLevel(s.max, s.levels, i - 1);
      LayeredLevel(s.max, s.levels, i);
      assert WithinBelow(s.levels, i - 1);
      assert PairOkBelow(s.levels, i - 1);
      LevelDoubles(s.levels[i - 1], s.levels[i]);
    }
  }

  /** The keys of a strictly increasing sequence are pairwise distinct. */
  lemma {:induction false} DistinctKeys(s: seq<int>)
    requires Sorted(s)
    ensures |(set x | x in s)| == |s|
  {
    if |s| > 0 {
      var rest := s[1..];
      DistinctKeys(rest);
      assert (set x | x in s) == {s[0]} + (set x | x in rest) by {
        forall x | x in s ensures x == s[0] || x in rest {
          var a :| 0 <= a < |s| && s[a] == x;
          if a > 0 { assert rest[a - 1] == x; }
        }
      }
      assert s[0] !in rest by {
        forall a | 0 <= a < |rest| ensures rest[a] != s[0] {
          assert rest[a] == s[a + 1];
        }
      }
    }
  }

  /** The lowest level holds every element once, followed by `max`. */
  lemma ElementCount(s: DSkipList)
    requires Shape(s)
    ensures |Elements(s)| + 1 == |Lowest(s.levels)|
  {
    var low := Lowest(s.levels);
    LayeredLevel(s.max, s.levels, |s.levels| - 1);
    DistinctKeys(low);
    assert (set x | x in low) == Elements(s) + {s.max};
  }

  /** The height is logarithmic in the element count. */
  lemma HeightBound(s: DSkipList)
    requires Inv(s)
    ensures Pow2(Height(s)) <= |Elements(s)| + 1
  {
    LevelsGrow(s, |s.levels| - 1);
    ElementCount(s);
  }
}
