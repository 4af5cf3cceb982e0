/** How the gap counts of a pair of adjacent levels move when one of the two
    levels is edited. Every structural edit of Insert and Remove is one of
    these: a key placed into or taken out of a level, or one key overwritten. */
module Gaps {
  import opened SortedSeq
  import opened Layout

  /** Both levels of a pair are sorted and the upper one's keys repeat below. */
  predicate Pair(upper: seq<int>, lower: seq<int>) {
    Sorted(upper) && Sorted(lower) && Within(upper, lower)
  }

  /** The key comparisons of the source read the gap size: comparing a node's
      key with the key n - 1 steps right of its down target tells whether
      the gap holds at least n nodes (the tail's key exceeds every key). */
  lemma GapAtLeast(upper: seq<int>, lower: seq<int>, j: nat, n: nat, tailKey: int)
    requires Pair(upper, lower) && j < |upper| && n >= 1 && upper[j] < tailKey
    ensures (upper[j] > KeyAt(lower, Down(upper, lower, j) + n - 1, tailKey))
              <==> Gap(upper, lower, j) >= n
  {
    FirstGeqSorted(lower, upper[j]);
  }

  /** The borrow test of `Remove`: the key after the down target is below
      `upper[j]` exactly when the gap has two or more nodes. */
  lemma GapTwo(upper: seq<int>, lower: seq<int>, j: nat, tailKey: int)
    requires Pair(upper, lower) && j < |upper| && upper[j] < tailKey
    ensures (upper[j] > KeyAt(lower, Down(upper, lower, j) + 1, tailKey))
              <==> Gap(upper, lower, j) >= 2
  {
    GapAtLeast(upper, lower, j, 2, tailKey);
    assert Down(upper, lower, j) + 2 - 1 == Down(upper, lower, j) + 1;
  }

  /** A gap of at least one node is exactly one node when the node after
      its down target is the copy (`current->key == current->down->right->key`). */
  lemma GapIsOne(upper: seq<int>, lower: seq<int>, j: nat, tailKey: int)
    requires Pair(upper, lower) && j < |upper| && upper[j] < tailKey
    requires Gap(upper, lower, j) >= 1
    ensures (upper[j] == KeyAt(lower, Down(upper, lower, j) + 1, tailKey))
              <==> Gap(upper, lower, j) == 1
  {
    CopyIndex(upper, lower, j);
    FirstGeqSorted(lower, upper[j]);
  }

  /** A key strictly between two consecutive keys of a sorted level is not on it. */
  lemma NotBetween(s: seq<int>, i: nat, y: int)
    requires Sorted(s) && i <= |s|
    requires i > 0 ==> s[i - 1] < y
    requires i < |s| ==> y < s[i]
    ensures y !in s
  {
  }

  /** A key in the window (upper[w - 1], upper[w]] is found at w. */
  lemma InWindow(upper: seq<int>, w: nat, y: int)
    requires Sorted(upper) && w < |upper|
    requires w > 0 ==> upper[w - 1] < y
    requires y <= upper[w]
    ensures FirstGeq(upper, y) == w
  {
    FirstGeqIs(upper, y, w);
  }

  // ---------------------------------------------------------------------
  // Edits of the lower level

  /** A key placed into the lower level lands in exactly one gap: the gap of
      the first upper key above it. */
  lemma LowerInsert(upper: seq<int>, lower: seq<int>, i: nat, y: int)
    requires Pair(upper, lower) && i <= |lower|
    requires i > 0 ==> lower[i - 1] < y
    requires i < |lower| ==> y < lower[i]
    requires y !in upper
    ensures Pair(upper, InsertAt(lower, i, y))
    ensures forall j :: 0 <= j < |upper| ==>
              Gap(upper, InsertAt(lower, i, y), j)
                == Gap(upper, lower, j) + (if j == FirstGeq(upper, y) then 1 else 0)
  {
    var t := InsertAt(lower, i, y);
    InsertAtSorted(lower, i, y);
    InsertAtIndex(lower, i, y);
    assert Within(upper, t) by {
      forall x | x in upper ensures x in t {
        assert x in lower;
        var a :| 0 <= a < |lower| && lower[a] == x;
        if a < i { assert t[a] == x; } else { assert t[a + 1] == x; }
      }
    }
    var w := FirstGeq(upper, y);
    FirstGeqSorted(upper, y);
    forall j | 0 <= j < |upper|
      ensures Gap(upper, t, j) == Gap(upper, lower, j) + (if j == w then 1 else 0)
    {
      InsertAtFirstGeq(lower, i, y, upper[j]);
      assert upper[j] in upper;
      if j > 0 {
        InsertAtFirstGt(lower, i, y, upper[j - 1]);
        assert upper[j - 1] in upper;
      }
    }
  }

  /** A lower key that no upper key repeats leaves exactly one gap, shrinking it. */
  lemma LowerDelete(upper: seq<int>, lower: seq<int>, i: nat)
    requires Pair(upper, lower) && i < |lower|
    requires lower[i] !in upper
    ensures Pair(upper, DeleteAt(lower, i))
    ensures forall j :: 0 <= j < |upper| ==>
              Gap(upper, DeleteAt(lower, i), j)
                == Gap(upper, lower, j) - (if j == FirstGeq(upper, lower[i]) then 1 else 0)
  {
    var t := DeleteAt(lower, i);
    DeleteAtSorted(lower, i);
    DeleteAtIndex(lower, i);
    assert Within(upper, t) by {
      forall x | x in upper ensures x in t {
        assert x in lower;
        var a :| 0 <= a < |lower| && lower[a] == x;
        assert a != i;
        if a < i { assert t[a] == x; } else { assert t[a - 1] == x; }
      }
    }
    var y := lower[i];
    var w := FirstGeq(upper, y);
    FirstGeqSorted(upper, y);
    forall j | 0 <= j < |upper|
      ensures Gap(upper, t, j) == Gap(upper, lower, j) - (if j == w then 1 else 0)
    {
      DeleteAtFirstGeq(lower, i, upper[j]);
      assert upper[j] in upper;
      if j > 0 {
        DeleteAtFirstGt(lower, i, upper[j - 1]);
        assert upper[j - 1] in upper;
      }
    }
  }

  /** Overwriting a lower key that no upper key repeats with another such key
      in the same gap changes no gap. */
  lemma LowerReplace(upper: seq<int>, lower: seq<int>, i: nat, y: int)
    requires Pair(upper, lower) && i < |lower|
    requires i > 0 ==> lower[i - 1] < y
    requires i + 1 < |lower| ==> y < lower[i + 1]
    requires lower[i] !in upper && y !in upper
    requires FirstGeq(upper, y) == FirstGeq(upper, lower[i])
    ensures Pair(upper, lower[i := y])
    ensures forall j :: 0 <= j < |upper| ==> Gap(upper, lower[i := y], j) == Gap(upper, lower, j)
  {
    var d := DeleteAt(lower, i);
    LowerDelete(upper, lower, i);
    DeleteAtIndex(lower, i);
    LowerInsert(upper, d, i, y);
    ReplaceIsDeleteInsert(lower, i, y);
  }

  // ---------------------------------------------------------------------
  // Edits of the upper level

  /** A key y of the lower level placed at index c of the upper level splits
      the gap that held it. */
  lemma UpperInsert(upper: seq<int>, lower: seq<int>, c: nat, y: int)
    requires Pair(upper, lower) && c < |upper|
    requires c > 0 ==> upper[c - 1] < y
    requires y < upper[c]
    requires y in lower
    ensures Pair(InsertAt(upper, c, y), lower)
    ensures forall j :: 0 <= j < c ==> Gap(InsertAt(upper, c, y), lower, j) == Gap(upper, lower, j)
    ensures Gap(InsertAt(upper, c, y), lower, c) == FirstGeq(lower, y) - Down(upper, lower, c)
    ensures Gap(InsertAt(upper, c, y), lower, c + 1) == FirstGeq(lower, upper[c]) - FirstGt(lower, y)
    ensures forall j :: c + 1 < j < |upper| + 1 ==>
              Gap(InsertAt(upper, c, y), lower, j) == Gap(upper, lower, j - 1)
  {
    var t := InsertAt(upper, c, y);
    InsertAtSorted(upper, c, y);
    InsertAtIndex(upper, c, y);
    assert Within(t, lower) by {
      forall x | x in t ensures x in lower {
        var a :| 0 <= a < |t| && t[a] == x;
        if a < c { assert x in upper; } else if a > c { assert upper[a - 1] in upper; }
      }
    }
  }

  /** Unlinking upper[i] merges its gap, its copy and the next gap into one. */
  lemma UpperDelete(upper: seq<int>, lower: seq<int>, i: nat)
    requires Pair(upper, lower) && i + 1 < |upper|
    ensures Pair(DeleteAt(upper, i), lower)
    ensures forall j :: 0 <= j < i ==> Gap(DeleteAt(upper, i), lower, j) == Gap(upper, lower, j)
    ensures Gap(DeleteAt(upper, i), lower, i)
              == Gap(upper, lower, i) + 1 + Gap(upper, lower, i + 1)
    ensures forall j :: i < j < |upper| - 1 ==>
              Gap(DeleteAt(upper, i), lower, j) == Gap(upper, lower, j + 1)
  {
    var t := DeleteAt(upper, i);
    DeleteAtSorted(upper, i);
    DeleteAtIndex(upper, i);
    assert Within(t, lower) by {
      forall x | x in t ensures x in lower {
        var a :| 0 <= a < |t| && t[a] == x;
        if a < i { assert x in upper; } else { assert upper[a + 1] in upper; }
      }
    }
    CopyIndex(upper, lower, i + 1);
    assert t[i] == upper[i + 1];
    if i > 0 { assert t[i - 1] == upper[i - 1]; }
  }

  /** Overwriting upper[i] with a lower key y between its neighbours moves
      the boundary between the gaps of upper[i] and upper[i + 1]. */
  lemma UpperReplace(upper: seq<int>, lower: seq<int>, i: nat, y: int)
    requires Pair(upper, lower) && i < |upper|
    requires i > 0 ==> upper[i - 1] < y
    requires i + 1 < |upper| ==> y < upper[i + 1]
    requires y in lower
    ensures Pair(upper[i := y], lower)
    ensures forall j :: 0 <= j < |upper| && j != i && j != i + 1 ==>
              Gap(upper[i := y], lower, j) == Gap(upper, lower, j)
    ensures Gap(upper[i := y], lower, i) == FirstGeq(lower, y) - Down(upper, lower, i)
    ensures i + 1 < |upper| ==>
              Gap(upper[i := y], lower, i + 1) == FirstGeq(lower, upper[i + 1]) - FirstGt(lower, y)
  {
  }

  // ---------------------------------------------------------------------
  // Renaming one key on both levels

  /** Renaming v to p, when no key lies in [p, v), keeps every search result. */
  lemma RewriteSearch(s: seq<int>, v: int, p: int, x: int)
    requires p < v
    requires forall j :: 0 <= j < |s| ==> !(p <= s[j] < v)
    requires !(p <= x < v)
    ensures FirstGeq(Rewrite(s, v, p), if x == v then p else x) == FirstGeq(s, x)
    ensures FirstGt(Rewrite(s, v, p), if x == v then p else x) == FirstGt(s, x)
  {
    var t := Rewrite(s, v, p);
    var fx := if x == v then p else x;
    FirstGeqBelow(s, x);
    FirstGtBelow(s, x);
    FirstGeqIs(t, fx, FirstGeq(s, x));
    FirstGtIs(t, fx, FirstGt(s, x));
  }

  lemma RewriteSorted(s: seq<int>, v: int, p: int)
    requires Sorted(s) && p < v
    requires forall j :: 0 <= j < |s| ==> !(p <= s[j] < v)
    ensures Sorted(Rewrite(s, v, p))
  {
  }

  /** FindAndModify's renaming applied to both levels of a pair changes no gap. */
  lemma RewritePair(upper: seq<int>, lower: seq<int>, v: int, p: int)
    requires Pair(upper, lower) && p < v
    requires forall j :: 0 <= j < |upper| ==> !(p <= upper[j] < v)
    requires forall j :: 0 <= j < |lower| ==> !(p <= lower[j] < v)
    ensures Pair(Rewrite(upper, v, p), Rewrite(lower, v, p))
    ensures forall j :: 0 <= j < |upper| ==>
              Gap(Rewrite(upper, v, p), Rewrite(lower, v, p), j) == Gap(upper, lower, j)
  {
    RewriteSorted(upper, v, p);
    RewriteSorted(lower, v, p);
    RewriteWithin(upper, lower, v, p);
    RewriteGaps(upper, lower, v, p);
  }

  lemma RewriteWithin(upper: seq<int>, lower: seq<int>, v: int, p: int)
    requires Within(upper, lower)
    ensures Within(Rewrite(upper, v, p), Rewrite(lower, v, p))
  {
    var ru := Rewrite(upper, v, p);
    var rl := Rewrite(lower, v, p);
    forall x | x in ru ensures x in rl {
      var a :| 0 <= a < |ru| && ru[a] == x;
      assert upper[a] in upper;
      var b :| 0 <= b < |lower| && lower[b] == upper[a];
      assert rl[b] == x;
    }
  }

  lemma RewriteGaps(upper: seq<int>, lower: seq<int>, v: int, p: int)
    requires p < v
    requires forall j :: 0 <= j < |upper| ==> !(p <= upper[j] < v)
    requires forall j :: 0 <= j < |lower| ==> !(p <= lower[j] < v)
    ensures forall j :: 0 <= j < |upper| ==>
              Gap(Rewrite(upper, v, p), Rewrite(lower, v, p), j) == Gap(upper, lower, j)
  {
    var ru := Rewrite(upper, v, p);
    var rl := Rewrite(lower, v, p);
    forall j | 0 <= j < |upper| ensures Gap(ru, rl, j) == Gap(upper, lower, j) {
      RewriteSearch(lower, v, p, upper[j]);
      if j > 0 { RewriteSearch(lower, v, p, upper[j - 1]); }
    }
  }
}
