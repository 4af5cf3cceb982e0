/** `Insert`: one top-down pass that splits every full gap on the search
    path, places the key on the lowest level, then grows the height when the
    head level has split. */
module Insert {
  import opened SortedSeq
  import opened Layout
  import opened Gaps

  /** The split of the source, as a sequence edit: the cursor node at index c
      takes the promoted key and a new node right after it takes the cursor's
      old key, so `promoted` lands at index c. On the lowest level the promoted
      key is the value being inserted (the source reads it from `bottom`'s
      scratch key, which Insert sets to the value first). */
  function Split(level: seq<int>, c: nat, promoted: int): (r: seq<int>)
    requires c < |level|
    ensures |r| == |level| + 1 && r[c] == promoted && r[c + 1] == level[c]
    ensures r[..c] == level[..c] && r[c + 1..] == level[c..]
  {
    InsertAt(level, c, promoted)
  }

  /** The split step above the lowest level: a gap of three nodes under the
      cursor (`current->key > current->down->right->right->key`) becomes two
      gaps of one node, the middle node's key promoted to this level; a gap of
      one or two nodes is left as it is. */
  function SplitIfFull(s: DSkipList, k: nat, c: nat): (r: DSkipList)
    requires Shape(s) && k + 1 < |s.levels| && c < |s.levels[k]|
    requires PairOkBelow(s.levels, k)
    ensures r.max == s.max && r.max1 == s.max1 && |r.levels| == |s.levels|
    ensures r.levels == s.levels[k := r.levels[k]]
    ensures Gap(s.levels[k], s.levels[k + 1], c) <= 2 ==> r == s
    ensures Gap(s.levels[k], s.levels[k + 1], c) == 3 ==>
              var d := Down(s.levels[k], s.levels[k + 1], c);
              && d + 1 < |s.levels[k + 1]|
              && r.levels[k] == Split(s.levels[k], c, s.levels[k + 1][d + 1])
              && Gap(r.levels[k], s.levels[k + 1], c) == 1
              && Gap(r.levels[k], s.levels[k + 1], c + 1) == 1
  {
    var L := s.levels;
    var d := Down(L[k], L[k + 1], c);
    SplitTest(s, k, c);
    if L[k][c] > KeyAt(L[k + 1], d + 2, s.max1) then
      s.(levels := L[k := Split(L[k], c, L[k + 1][d + 1])])
    else
      s
  }

  /** The split test reads a full gap, and the split leaves two gaps of one. */
  lemma SplitTest(s: DSkipList, k: nat, c: nat)
    requires Shape(s) && k + 1 < |s.levels| && c < |s.levels[k]|
    requires PairOkBelow(s.levels, k)
    ensures var L := s.levels;
            var d := Down(L[k], L[k + 1], c);
            && (L[k][c] > KeyAt(L[k + 1], d + 2, s.max1) <==> Gap(L[k], L[k + 1], c) == 3)
            && (Gap(L[k], L[k + 1], c) == 3 ==>
                  && d + 1 < |L[k + 1]|
                  && Gap(Split(L[k], c, L[k + 1][d + 1]), L[k + 1], c) == 1
                  && Gap(Split(L[k], c, L[k + 1][d + 1]), L[k + 1], c + 1) == 1)
  {
    var L := s.levels;
    LayeredLevel(s.max, L, k);
    LayeredLevel(s.max, L, k + 1);
    assert L[k][c] <= s.max by { assert L[k][c] in L[k]; }
    assert WithinBelow(L, k);
    GapAtLeast(L[k], L[k + 1], c, 3, s.max1);
    if Gap(L[k], L[k + 1], c) == 3 {
      SplitPromotesMiddle(L[k], L[k + 1], c);
    }
  }

  /** Splitting a gap of three at its middle node leaves two gaps of one. */
  lemma SplitPromotesMiddle(upper: seq<int>, lower: seq<int>, c: nat)
    requires Pair(upper, lower) && c < |upper|
    requires Gap(upper, lower, c) == 3
    ensures Down(upper, lower, c) + 1 < |lower|
    ensures var mid := lower[Down(upper, lower, c) + 1];
            && (c > 0 ==> upper[c - 1] < mid) && mid < upper[c]
            && Pair(InsertAt(upper, c, mid), lower)
            && Gap(InsertAt(upper, c, mid), lower, c) == 1
            && Gap(InsertAt(upper, c, mid), lower, c + 1) == 1
  {
    var d := Down(upper, lower, c);
    MiddleKey(upper, lower, c);
    var mid := lower[d + 1];
    UpperInsert(upper, lower, c, mid);
    assert Gap(InsertAt(upper, c, mid), lower, c) == (d + 1) - d;
    assert Gap(InsertAt(upper, c, mid), lower, c + 1) == (d + 3) - (d + 2);
  }

  /** In a gap of three nodes the middle one lies strictly between the
      cursor's left neighbour and the cursor, one node after the down
      target and one before the copy. */
  lemma MiddleKey(upper: seq<int>, lower: seq<int>, c: nat)
    requires Pair(upper, lower) && c < |upper|
    requires Gap(upper, lower, c) == 3
    ensures Down(upper, lower, c) + 1 < |lower|
    ensures var d := Down(upper, lower, c);
            var mid := lower[d + 1];
            && (c > 0 ==> upper[c - 1] < mid) && mid < upper[c]
            && FirstGeq(lower, mid) == d + 1 && FirstGt(lower, mid) == d + 2
            && FirstGeq(lower, upper[c]) == d + 3
  {
    var d := Down(upper, lower, c);
    CopyIndex(upper, lower, c);
    var mid := lower[d + 1];
    if c > 0 {
      assert lower[d] > upper[c - 1];
      assert lower[d] < mid;
    }
    assert mid < upper[c];
    FirstGeqOfMember(lower, d + 1);
  }

  /** The lowest level after `Insert`: unchanged when it already holds v,
      otherwise with v in front of the first larger key. */
  function Placed(low: seq<int>, v: int): (r: seq<int>)
    ensures forall x :: x in r <==> x in low || x == v
    ensures Sorted(low) ==> Sorted(r)
  {
    if v in low then
      low
    else
      InsertAtMembers(low, FirstGeq(low, v), v);
      assert Sorted(low) ==> Sorted(InsertAt(low, FirstGeq(low, v), v)) by {
        if Sorted(low) { PlacedSorted(low, v); }
      }
      InsertAt(low, FirstGeq(low, v), v)
  }

  /** A key absent from a sorted level, put in front of the first larger
      key, keeps the level sorted. */
  lemma PlacedSorted(low: seq<int>, v: int)
    requires Sorted(low) && v !in low
    ensures Sorted(InsertAt(low, FirstGeq(low, v), v))
  {
    var i := FirstGeq(low, v);
    FirstGeqSorted(low, v);
    if i < |low| {
      assert low[i] != v;
    }
    InsertAtSorted(low, i, v);
  }

  /** What holds when the pass reaches level k, entered at index `start`:
      levels above k are final; every gap obeys the 1-2-3 rule; and the gap
      the pass descended into holds at most two nodes, so it can take one
      more. The head level has split at most once. */
  predicate InsertInv(s: DSkipList, k: nat, start: nat, v: int) {
    && Shape(s) && v < s.max && k < |s.levels|
    && GapsOk(s.levels)
    && 1 <= |s.levels[0]| <= 2
    && (k == 0 ==> |s.levels[0]| == 1)
    && (k >= 1 ==> WindowGap(s.max, s.levels, k, v) <= 2)
    && start <= |s.levels[k]|
    && (forall j :: 0 <= j < start ==> s.levels[k][j] < v)
  }

  /** The descent loop of Insert from level k: on each level the cursor
      walks right while v is larger; above the lowest level the gap under the
      cursor is split when full and the pass follows the down link; on the
      lowest level v is placed unless it is already there. */
  function InsertDescend(s: DSkipList, k: nat, start: nat, v: int): (r: (DSkipList, bool))
    requires InsertInv(s, k, start, v)
    ensures r.0.max == s.max && r.0.max1 == s.max1 && |r.0.levels| == |s.levels|
    decreases |s.levels| - k
  {
    var L := s.levels;
    var c := Walk(s, k, start, v);
    if k == |L| - 1 then
      PlaceLowest(s, start, v)
    else
      InsertStep(s, k, start, v);
      InsertDescend(SplitIfFull(s, k, c), k + 1, Down(L[k], L[k + 1], c), v)
  }

  /** The last step of the pass, on the lowest level: the cursor walks right
      while v is larger; an equal key stops the pass with false, and
      otherwise v is placed where the cursor stopped. */
  function PlaceLowest(s: DSkipList, start: nat, v: int): (r: (DSkipList, bool))
    requires |s.levels| >= 1 && InsertInv(s, |s.levels| - 1, start, v)
    ensures r.0.max == s.max && r.0.max1 == s.max1 && |r.0.levels| == |s.levels|
  {
    var L := s.levels;
    var k := |L| - 1;
    var c := Walk(s, k, start, v);
    if L[k][c] == v then (s, false)
    else (s.(levels := L[k := Split(L[k], c, v)]), true)
  }

  /** What the descent from level k of s leaves in r: the shape and the
      1-2-3 rule, and a head level that has split at most once, only when the
      pass starts there, and then exactly when its one gap was full. */
  predicate KeepsRule(s: DSkipList, k: nat, r: DSkipList)
    requires |s.levels| >= 1 && |s.levels[0]| >= 1 && |r.levels| >= 1
  {
    && Shape(r) && GapsOk(r.levels) && |r.levels[0]| <= 2
    && (k >= 1 ==> |r.levels[0]| == |s.levels[0]|)
    && (k == 0 && |s.levels| == 1 ==> |r.levels[0]| == 2)
    && (k == 0 && |s.levels| > 1 ==>
          (|r.levels[0]| == 2 <==> Gap(s.levels[0], s.levels[1], 0) == 3))
  }

  /** The descent keeps the 1-2-3 rule; the head level changes only when
      the pass starts there, by a split of its one gap when that gap is full. */
  lemma {:induction false} InsertDescendKeepsRule(s: DSkipList, k: nat, start: nat, v: int)
    requires InsertInv(s, k, start, v)
    ensures KeepsRule(s, k, InsertDescend(s, k, start, v).0)
    decreases |s.levels| - k
  {
    var L := s.levels;
    if k == |L| - 1 {
      InsertLowestKeepsRule(s, start, v);
    } else {
      var c := FirstGeq(L[k], v);
      InsertStep(s, k, start, v);
      InsertStepFrame(s, k, start, v);
      var t := SplitIfFull(s, k, c);
      var d := Down(L[k], L[k + 1], c);
      InsertDescendKeepsRule(t, k + 1, d, v);
      assert InsertDescend(s, k, start, v) == InsertDescend(t, k + 1, d, v);
    }
  }

  /** The descent answers whether v was absent, and the lowest level comes
      back with v inserted in order, or unchanged when v was already there. */
  lemma {:induction false} InsertDescendLowest(s: DSkipList, k: nat, start: nat, v: int)
    requires InsertInv(s, k, start, v)
    ensures var r := InsertDescend(s, k, start, v);
            var low := Lowest(s.levels);
            && (r.1 <==> v !in low)
            && Lowest(r.0.levels) == if v in low then low else InsertAt(low, FirstGeq(low, v), v)
    decreases |s.levels| - k
  {
    var L := s.levels;
    if k == |L| - 1 {
      InsertLowestPlaces(s, start, v);
    } else {
      var c := FirstGeq(L[k], v);
      InsertStep(s, k, start, v);
      InsertStepFrame(s, k, start, v);
      var t := SplitIfFull(s, k, c);
      var d := Down(L[k], L[k + 1], c);
      InsertDescendLowest(t, k + 1, d, v);
      assert InsertDescend(s, k, start, v) == InsertDescend(t, k + 1, d, v);
    }
  }

  /** On the lowest level v is placed in order when absent and nothing
      changes when present. */
  lemma InsertLowestPlaces(s: DSkipList, start: nat, v: int)
    requires |s.levels| >= 1 && InsertInv(s, |s.levels| - 1, start, v)
    ensures var r := PlaceLowest(s, start, v);
            var low := Lowest(s.levels);
            && (r.1 <==> v !in low)
            && Lowest(r.0.levels) == if v in low then low else InsertAt(low, FirstGeq(low, v), v)
  {
    var L := s.levels;
    var k := |L| - 1;
    var c := Walk(s, k, start, v);
    LayeredLevel(s.max, L, k);
    MemberAtFirstGeq(L[k], v);
    if L[k][c] == v {
      assert PlaceLowest(s, start, v) == (s, false);
    } else {
      InsertLowestNew(s, start, v);
    }
  }

  /** The lowest level when v is new there: v is placed where the walk stopped. */
  lemma InsertLowestNew(s: DSkipList, start: nat, v: int)
    requires |s.levels| >= 1 && InsertInv(s, |s.levels| - 1, start, v)
    requires v !in Lowest(s.levels)
    ensures var r := PlaceLowest(s, start, v);
            var low := Lowest(s.levels);
            && r.1 && Lowest(r.0.levels) == InsertAt(low, FirstGeq(low, v), v)
  {
  }

  /** The final step on the lowest level keeps the 1-2-3 rule: v lands in a
      gap that held at most two nodes. */
  lemma InsertLowestKeepsRule(s: DSkipList, start: nat, v: int)
    requires |s.levels| >= 1 && InsertInv(s, |s.levels| - 1, start, v)
    ensures KeepsRule(s, |s.levels| - 1, PlaceLowest(s, start, v).0)
  {
    var L := s.levels;
    var k := |L| - 1;
    var low := L[k];
    var c := Walk(s, k, start, v);
    LayeredLevel(s.max, L, k);
    if low[c] != v {
      assert v !in low by { MemberAtFirstGeq(low, v); }
      LowestInsertLevels(s.max, L, c, v);
    }
  }

  /** Inserting a new key on the lowest level, in a gap of at most two
      nodes (or under a head level), keeps the shape and the 1-2-3 rule. */
  lemma LowestInsertLevels(max: int, L: seq<seq<int>>, c: nat, v: int)
    requires Layered(max, L) && GapsOk(L) && v < max
    requires c == FirstGeq(Lowest(L), v) && c < |Lowest(L)| && v !in Lowest(L)
    requires |L| >= 2 ==> WindowGap(max, L, |L| - 1, v) <= 2
    ensures var M := L[|L| - 1 := Split(Lowest(L), c, v)];
            Layered(max, M) && GapsOk(M)
  {
    LowestInsertLayered(max, L, c, v);
    LowestInsertGaps(max, L, c, v);
  }

  lemma LowestInsertLayered(max: int, L: seq<seq<int>>, c: nat, v: int)
    requires Layered(max, L) && v < max
    requires c == FirstGeq(Lowest(L), v) && c < |Lowest(L)| && v !in Lowest(L)
    ensures Layered(max, L[|L| - 1 := Split(Lowest(L), c, v)])
  {
    var k := |L| - 1;
    var low := L[k];
    LayeredLevel(max, L, k);
    InsertedLevelOk(max, low, c, v);
    if k >= 1 {
      assert WithinBelow(L, k - 1);
      InsertAtMembers(low, c, v);
    }
    LayeredUpdate(max, L, k, Split(low, c, v));
  }

  lemma LowestInsertGaps(max: int, L: seq<seq<int>>, c: nat, v: int)
    requires Layered(max, L) && GapsOk(L) && v < max
    requires c == FirstGeq(Lowest(L), v) && c < |Lowest(L)| && v !in Lowest(L)
    requires |L| >= 2 ==> WindowGap(max, L, |L| - 1, v) <= 2
    ensures GapsOk(L[|L| - 1 := Split(Lowest(L), c, v)])
  {
    var k := |L| - 1;
    var low := L[k];
    if k >= 1 {
      var up := L[k - 1];
      LayeredLevel(max, L, k);
      LayeredLevel(max, L, k - 1);
      assert WithinBelow(L, k - 1) && PairOkBelow(L, k - 1);
      FirstGeqInside(up, v);
      assert WindowGap(max, L, k, v) == Gap(up, low, FirstGeq(up, v));
      LastPairInsert(max, up, low, c, v);
    }
    GapsUpdate(L, k, Split(low, c, v));
  }

  /** A new lowest-level key in a gap of at most two nodes keeps the last
      pair within the 1-2-3 rule. */
  lemma LastPairInsert(max: int, up: seq<int>, low: seq<int>, c: nat, v: int)
    requires LevelOk(max, low) && Pair(up, low) && PairOk(up, low) && v < max
    requires c == FirstGeq(low, v) && c < |low| && v !in low
    requires FirstGeq(up, v) < |up| && Gap(up, low, FirstGeq(up, v)) <= 2
    ensures PairOk(up, Split(low, c, v))
  {
    InsertedLevelOk(max, low, c, v);
    LowerInsertOk(up, low, c, v);
  }

  /** A new key placed where the walk stopped keeps a level well formed. */
  lemma InsertedLevelOk(max: int, low: seq<int>, c: nat, v: int)
    requires LevelOk(max, low) && v < max && c == FirstGeq(low, v) && c < |low| && v !in low
    ensures LevelOk(max, Split(low, c, v))
    ensures c > 0 ==> low[c - 1] < v
    ensures v < low[c]
  {
    FirstGeqBelow(low, v);
    assert c > 0 ==> low[c - 1] < v;
    assert low[c] != v by { assert low[c] in low; }
    InsertAtSorted(low, c, v);
    InsertAtIndex(low, c, v);
    var t := InsertAt(low, c, v);
    assert Split(low, c, v) == t;
    assert t[|low|] == low[|low| - 1];
  }

  /** A key added to the lower level inside a gap of at most two nodes keeps
      the 1-2-3 rule for the pair. */
  lemma LowerInsertOk(up: seq<int>, low: seq<int>, c: nat, y: int)
    requires Pair(up, low) && PairOk(up, low) && c <= |low|
    requires c > 0 ==> low[c - 1] < y
    requires c < |low| ==> y < low[c]
    requires y !in up
    requires FirstGeq(up, y) < |up| ==> Gap(up, low, FirstGeq(up, y)) <= 2
    ensures Pair(up, InsertAt(low, c, y)) && PairOk(up, InsertAt(low, c, y))
  {
    LowerInsert(up, low, c, y);
    forall j | 0 <= j < |up| ensures 1 <= Gap(up, InsertAt(low, c, y), j) <= 3 {
      assert 1 <= Gap(up, low, j) <= 3;
    }
  }

  /** Splitting a full gap keeps the 1-2-3 rule for the pair. */
  lemma SplitKeepsRule(up: seq<int>, low: seq<int>, c: nat)
    requires Pair(up, low) && PairOk(up, low) && c < |up|
    requires Gap(up, low, c) == 3
    ensures Down(up, low, c) + 1 < |low|
    ensures var x := InsertAt(up, c, low[Down(up, low, c) + 1]);
            Pair(x, low) && PairOk(x, low)
  {
    SplitPromotesMiddle(up, low, c);
    var mid := low[Down(up, low, c) + 1];
    UpperInsert(up, low, c, mid);
    SplitGapsOk(up, low, InsertAt(up, c, mid), c);
  }

  /** Gaps that are the old ones shifted past c, with two gaps of one at c
      and c + 1, keep the 1-2-3 rule. */
  lemma SplitGapsOk(up: seq<int>, low: seq<int>, x: seq<int>, c: nat)
    requires PairOk(up, low) && |x| == |up| + 1 && c < |up|
    requires forall j :: 0 <= j < c ==> Gap(x, low, j) == Gap(up, low, j)
    requires Gap(x, low, c) == 1 && Gap(x, low, c + 1) == 1
    requires forall j :: c + 1 < j < |up| + 1 ==> Gap(x, low, j) == Gap(up, low, j - 1)
    ensures PairOk(x, low)
  {
  }

  /** The promoted key falls in the same gap of the level above as v does. */
  lemma PromotedInWindow(prev: seq<int>, up: seq<int>, c: nat, mid: int, v: int)
    requires Pair(prev, up) && c < |up| && c == FirstGeq(up, v)
    requires c > 0 ==> up[c - 1] < mid
    requires mid < up[c]
    requires FirstGeq(prev, v) < |prev|
    ensures mid !in prev
    ensures FirstGeq(prev, mid) == FirstGeq(prev, v)
  {
    NotBetween(up, c, mid);
    var w := FirstGeq(prev, v);
    FirstGeqBelow(prev, v);
    FirstGeqSorted(up, v);
    assert prev[w] in prev;
    MemberAtFirstGeq(up, prev[w]);
    Monotone(up, v, prev[w]);
    assert up[c] <= prev[w];
    if w > 0 {
      assert prev[w - 1] in prev;
      MemberAtFirstGeq(up, prev[w - 1]);
      var a := FirstGeq(up, prev[w - 1]);
      assert a < c;
      assert up[a] <= up[c - 1];
    }
    InWindow(prev, w, mid);
  }

  /** One step above the lowest level keeps the descent invariant. */
  lemma InsertStep(s: DSkipList, k: nat, start: nat, v: int)
    requires InsertInv(s, k, start, v) && k + 1 < |s.levels|
    ensures FirstGeq(s.levels[k], v) < |s.levels[k]|
    ensures PairOkBelow(s.levels, k)
    ensures var L := s.levels;
            var c := FirstGeq(L[k], v);
            InsertInv(SplitIfFull(s, k, c), k + 1, Down(L[k], L[k + 1], c), v)
  {
    var L := s.levels;
    var c := Walk(s, k, start, v);
    assert PairOkBelow(L, k);
    if Gap(L[k], L[k + 1], c) <= 2 {
      InsertStepKeep(s, k, start, v);
    } else {
      InsertStepSplit(s, k, start, v);
    }
  }

  /** The step when the gap under the cursor holds one or two nodes. */
  lemma InsertStepKeep(s: DSkipList, k: nat, start: nat, v: int)
    requires InsertInv(s, k, start, v) && k + 1 < |s.levels|
    requires FirstGeq(s.levels[k], v) < |s.levels[k]|
    requires Gap(s.levels[k], s.levels[k + 1], FirstGeq(s.levels[k], v)) <= 2
    ensures var L := s.levels;
            var c := FirstGeq(L[k], v);
            InsertInv(SplitIfFull(s, k, c), k + 1, Down(L[k], L[k + 1], c), v)
  {
    var L := s.levels;
    var c := FirstGeq(L[k], v);
    LayeredLevel(s.max, L, k);
    EntryBelow(L[k], L[k + 1], c, v);
    assert SplitIfFull(s, k, c) == s;
  }

  /** The step when the gap under the cursor holds three nodes. */
  lemma InsertStepSplit(s: DSkipList, k: nat, start: nat, v: int)
    requires InsertInv(s, k, start, v) && k + 1 < |s.levels|
    requires FirstGeq(s.levels[k], v) < |s.levels[k]|
    requires Gap(s.levels[k], s.levels[k + 1], FirstGeq(s.levels[k], v)) == 3
    ensures var L := s.levels;
            var c := FirstGeq(L[k], v);
            InsertInv(SplitIfFull(s, k, c), k + 1, Down(L[k], L[k + 1], c), v)
  {
    var L := s.levels;
    var c := FirstGeq(L[k], v);
    EntryBelow(L[k], L[k + 1], c, v);
    var t := SplitIfFull(s, k, c);
    SplitStepKeepsRule(s, k, start, c, v);
    assert t.levels[k + 1] == L[k + 1];
  }

  /** A step above the lowest level touches the head level only when it is
      the head level's step, and then splits it exactly when its gap is full;
      the lowest level is left alone. */
  lemma InsertStepFrame(s: DSkipList, k: nat, start: nat, v: int)
    requires InsertInv(s, k, start, v) && k + 1 < |s.levels|
    ensures FirstGeq(s.levels[k], v) < |s.levels[k]|
    ensures PairOkBelow(s.levels, k)
    ensures var L := s.levels;
            var t := SplitIfFull(s, k, FirstGeq(L[k], v));
            && Lowest(t.levels) == Lowest(L)
            && (k >= 1 ==> |t.levels[0]| == |L[0]|)
            && (k == 0 ==> (|t.levels[0]| == 2 <==> Gap(L[0], L[1], 0) == 3))
  {
    var L := s.levels;
    var c := Walk(s, k, start, v);
    assert PairOkBelow(L, k);
    var t := SplitIfFull(s, k, c);
    UpdateKeepsLowest(L, k, t.levels[k]);
    if k == 0 {
      assert c == 0;
      assert 1 <= Gap(L[0], L[1], 0) <= 3;
    }
  }

  /** The split of a full gap at level k keeps the 1-2-3 rule on both pairs
      of levels it touches. */
  lemma SplitStepKeepsRule(s: DSkipList, k: nat, start: nat, c: nat, v: int)
    requires InsertInv(s, k, start, v)
    requires k + 1 < |s.levels| && c == FirstGeq(s.levels[k], v) && c < |s.levels[k]|
    requires Gap(s.levels[k], s.levels[k + 1], c) == 3
    ensures var t := SplitIfFull(s, k, c);
            && Shape(t) && GapsOk(t.levels)
            && FirstGeq(t.levels[k], v) < |t.levels[k]|
            && Gap(t.levels[k], t.levels[k + 1], FirstGeq(t.levels[k], v)) <= 2
            && |t.levels[0]| <= 2
            && (k >= 1 ==> |t.levels[0]| == |s.levels[0]|)
  {
    var L := s.levels;
    assert PairOkBelow(L, k);
    var x := SplitIfFull(s, k, c).levels[k];
    assert k >= 1 ==> WindowGap(s.max, L, k, v) <= 2;
    SplitLevels(s.max, L, k, c, v);
  }

  /** The split as an edit of the level stack: the new level k is well
      formed, sits between its neighbours by the 1-2-3 rule, and v's gap
      under it holds one node. */
  lemma SplitLevels(max: int, L: seq<seq<int>>, k: nat, c: nat, v: int)
    requires Layered(max, L) && GapsOk(L) && k + 1 < |L| && v < max
    requires c == FirstGeq(L[k], v) && c < |L[k]|
    requires Gap(L[k], L[k + 1], c) == 3
    requires k >= 1 ==> WindowGap(max, L, k, v) <= 2
    ensures Down(L[k], L[k + 1], c) + 1 < |L[k + 1]|
    ensures var x := InsertAt(L[k], c, L[k + 1][Down(L[k], L[k + 1], c) + 1]);
            && Layered(max, L[k := x]) && GapsOk(L[k := x])
            && FirstGeq(x, v) < |x| && Gap(x, L[k + 1], FirstGeq(x, v)) <= 2
  {
    var up := L[k];
    var low := L[k + 1];
    LayeredLevel(max, L, k);
    LayeredLevel(max, L, k + 1);
    assert WithinBelow(L, k) && PairOkBelow(L, k);
    SplitBelow(max, up, low, c, v);
    var x := InsertAt(up, c, low[Down(up, low, c) + 1]);
    if k >= 1 {
      SplitLevelsAbove(max, L, k, c, v);
    }
    LayeredUpdate(max, L, k, x);
    GapsUpdate(L, k, x);
  }

  /** `SplitAbove` read on the levels around k. */
  lemma SplitLevelsAbove(max: int, L: seq<seq<int>>, k: nat, c: nat, v: int)
    requires Layered(max, L) && GapsOk(L) && 1 <= k && k + 1 < |L| && v < max
    requires c == FirstGeq(L[k], v) && c < |L[k]|
    requires Gap(L[k], L[k + 1], c) == 3
    requires WindowGap(max, L, k, v) <= 2
    ensures Down(L[k], L[k + 1], c) + 1 < |L[k + 1]|
    ensures var x := InsertAt(L[k], c, L[k + 1][Down(L[k], L[k + 1], c) + 1]);
            Within(L[k - 1], x) && PairOk(L[k - 1], x)
  {
    LayeredLevel(max, L, k - 1);
    LayeredLevel(max, L, k);
    LayeredLevel(max, L, k + 1);
    FirstGeqInside(L[k - 1], v);
    assert WithinBelow(L, k - 1) && PairOkBelow(L, k - 1) && WithinBelow(L, k);
    assert WindowGap(max, L, k, v) == Gap(L[k - 1], L[k], FirstGeq(L[k - 1], v));
    SplitAbove(max, L[k - 1], L[k], L[k + 1], c, v);
  }

  /** After the split, the level is well formed, sits above the next level by
      the 1-2-3 rule, and v's gap under it holds one node. */
  lemma SplitBelow(max: int, up: seq<int>, low: seq<int>, c: nat, v: int)
    requires LevelOk(max, up) && Pair(up, low) && PairOk(up, low)
    requires c == FirstGeq(up, v) && c < |up|
    requires Gap(up, low, c) == 3
    ensures Down(up, low, c) + 1 < |low|
    ensures var x := InsertAt(up, c, low[Down(up, low, c) + 1]);
            && LevelOk(max, x) && Within(x, low) && PairOk(x, low)
            && FirstGeq(x, v) < |x| && Gap(x, low, FirstGeq(x, v)) <= 2
  {
    SplitPromotesMiddle(up, low, c);
    var mid := low[Down(up, low, c) + 1];
    var x := InsertAt(up, c, mid);
    InsertAtSorted(up, c, mid);
    InsertAtIndex(up, c, mid);
    SplitKeepsRule(up, low, c);
    InsertAtFirstGeq(up, c, mid, v);
  }

  /** After the split, the level above still obeys the 1-2-3 rule over it:
      the promoted key joins v's gap there, which held at most two nodes. */
  lemma SplitAbove(max: int, prev: seq<int>, up: seq<int>, low: seq<int>, c: nat, v: int)
    requires LevelOk(max, prev) && Pair(prev, up) && PairOk(prev, up)
    requires Pair(up, low) && c == FirstGeq(up, v) && c < |up|
    requires Gap(up, low, c) == 3
    requires FirstGeq(prev, v) < |prev| && Gap(prev, up, FirstGeq(prev, v)) <= 2
    ensures Down(up, low, c) + 1 < |low|
    ensures var x := InsertAt(up, c, low[Down(up, low, c) + 1]);
            Within(prev, x) && PairOk(prev, x)
  {
    SplitPromotesMiddle(up, low, c);
    var mid := low[Down(up, low, c) + 1];
    PromotedInWindow(prev, up, c, mid, v);
    LowerInsertOk(prev, up, c, mid);
  }

  /** The height step at the end of Insert: when `head->right != tail` the
      head level has split, and a new head (`max`, `tail`, old head) is put
      on top. */
  function Grow(s: DSkipList): (r: DSkipList)
    requires Shape(s) && GapsOk(s.levels) && |s.levels[0]| <= 2
    ensures Inv(r) && r.max == s.max && r.max1 == s.max1
    ensures Elements(r) == Elements(s)
    ensures |s.levels[0]| == 2 ==> Height(r) == Height(s) + 1 && r.levels[1..] == s.levels
    ensures |s.levels[0]| == 1 ==> r == s
  {
    var L := s.levels;
    LayeredLevel(s.max, L, 0);
    if |L[0]| != 1 then
      var L' := [[s.max]] + L;
      assert L'[1..] == L;
      assert Layered(s.max, L') by {
        assert LevelOk(s.max, [s.max]);
        forall i | 0 <= i < |L'| ensures LevelOkAt(s.max, L', i) {
          if i > 0 { LayeredLevel(s.max, L, i - 1); }
        }
        forall i | 0 <= i < |L'| - 1 ensures WithinBelow(L', i) {
          if i > 0 { assert WithinBelow(L, i - 1); }
        }
      }
      assert PairOk([s.max], L[0]) by {
        FirstGeqOfMember(L[0], 1);
      }
      assert GapsOk(L') by {
        forall i | 0 <= i < |L'| - 1 ensures PairOkBelow(L', i) {
          if i > 0 { assert PairOkBelow(L, i - 1); }
        }
      }
      s.(levels := L')
    else
      assert L[0] == [s.max];
      s
  }

  /** `Insert`: false, with the keys unchanged, when v is already present;
      otherwise true, with v added. The 1-2-3 rule holds afterwards, and the
      height grows by one exactly when the list was empty or the level under
      the head already held three keys besides `max`. */
  function Insert(s: DSkipList, v: int): (r: (DSkipList, bool))
    requires Inv(s) && v < s.max
    ensures Inv(r.0) && r.0.max == s.max && r.0.max1 == s.max1
    ensures r.1 <==> v !in Elements(s)
    ensures Elements(r.0) == Elements(s) + {v}
    ensures Height(r.0) == Height(s) || Height(r.0) == Height(s) + 1
    ensures Height(r.0) == Height(s) + 1 <==> Height(s) == 0 || |s.levels[1]| == 4
  {
    HeadGap(s);
    InsertDescendKeepsRule(s, 0, 0, v);
    InsertDescendLowest(s, 0, 0, v);
    var t := InsertDescend(s, 0, 0, v);
    LayeredLevel(s.max, t.0.levels, 0);
    assert Lowest(t.0.levels) == Placed(Lowest(s.levels), v);
    ElementsAdd(s, t.0, v);
    (Grow(t.0), t.1)
  }
}
