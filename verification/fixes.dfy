/** The four repairs `Remove` makes on its way down, as edits of one level.

    On a level above the lowest one, when the gap the pass is about to
    descend into holds a single node, `Remove` widens it so that a node can
    later be taken out of it. It looks at the gap to the right of the cursor
    when the cursor has not moved on this level, at the gap to the left
    otherwise, and either borrows a node from that neighbouring gap (when it
    holds two or more) or merges the two gaps (when it holds one). In key
    terms a borrow overwrites one key of the level and a merge deletes one. */
module Fixes {
  import opened SortedSeq
  import opened Layout
  import opened Gaps

  /** Borrow from the next gap: the cursor node `up[c]` takes the key of the
      first node of the next gap (`current->key = current->right->down->key`)
      and the next node's down link moves one node right. */
  function BorrowNext(up: seq<int>, low: seq<int>, c: nat, max1: int): seq<int>
    requires c + 1 < |up|
  {
    up[c := KeyAt(low, Down(up, low, c + 1), max1)]
  }

  /** Merge with the next gap: the cursor node takes its right neighbour's key
      and the neighbour is unlinked, so the cursor's old key leaves the level. */
  function MergeNext(up: seq<int>, c: nat): seq<int>
    requires c < |up|
  {
    DeleteAt(up, c)
  }

  /** Borrow from the previous gap: the node left of the cursor takes the key
      of the node just before its own copy on the level below. The source
      reaches that node by stepping once right of the down target, and once
      more unless the following node is already the copy. */
  function BorrowPrev(up: seq<int>, low: seq<int>, c: nat, max1: int): seq<int>
    requires 0 < c < |up|
  {
    var t := Down(up, low, c - 1) + 1;
    var t' := if KeyAt(low, t + 1, max1) != up[c - 1] then t + 1 else t;
    up[c - 1 := KeyAt(low, t', max1)]
  }

  /** Merge with the previous gap: the left neighbour takes the cursor's key
      and the cursor node is unlinked, so the neighbour's old key leaves. */
  function MergePrev(up: seq<int>, c: nat): seq<int>
    requires 0 < c < |up|
  {
    DeleteAt(up, c - 1)
  }

  /** The repair step of `Remove` on the level `up` above `low`, for a cursor
      at index c that the walk reached from index `start`: nothing unless the
      gap under the cursor holds one node (`current->key ==
      current->down->right->key`); then a borrow or a merge with the next gap
      when the cursor has not moved (`previous == NULL`), with the previous
      gap otherwise, chosen by whether that gap holds two or more nodes. */
  function FixLevel(up: seq<int>, low: seq<int>, start: nat, c: nat, max1: int): seq<int>
    requires start <= c < |up|
    requires c == start ==> c + 1 < |up|
  {
    if up[c] == KeyAt(low, Down(up, low, c) + 1, max1) then
      if c == start then
        if up[c + 1] > KeyAt(low, Down(up, low, c + 1) + 1, max1) then BorrowNext(up, low, c, max1)
        else MergeNext(up, c)
      else
        if up[c - 1] > KeyAt(low, Down(up, low, c - 1) + 1, max1) then BorrowPrev(up, low, c, max1)
        else MergePrev(up, c)
    else
      up
  }

  // ---------------------------------------------------------------------
  // The pair below the repaired level

  /** Overwriting one key of `up` with a key of `low` keeps the 1-2-3 rule
      when the two gaps it reshapes stay within one to three nodes. */
  lemma ReplaceKeepsOk(up: seq<int>, low: seq<int>, i: nat, y: int)
    requires Pair(up, low) && PairOk(up, low) && i < |up|
    requires i > 0 ==> up[i - 1] < y
    requires i + 1 < |up| ==> y < up[i + 1]
    requires y in low
    requires 1 <= FirstGeq(low, y) - Down(up, low, i) <= 3
    requires i + 1 < |up| ==> 1 <= FirstGeq(low, up[i + 1]) - FirstGt(low, y) <= 3
    ensures Pair(up[i := y], low) && PairOk(up[i := y], low)
  {
    UpperReplace(up, low, i, y);
    var r := up[i := y];
    forall j | 0 <= j < |r| ensures 1 <= Gap(r, low, j) <= 3 {
      assert 1 <= Gap(up, low, j) <= 3;
    }
  }

  /** Borrowing from the next gap turns the gap of one under `up[c]` into a
      gap of two, taking one node from the next gap and leaving every other
      gap as it was. */
  lemma BorrowNextGaps(up: seq<int>, low: seq<int>, c: nat, max1: int)
    requires Pair(up, low) && PairOk(up, low) && c + 1 < |up|
    requires Gap(up, low, c) == 1 && Gap(up, low, c + 1) >= 2
    ensures var r := BorrowNext(up, low, c, max1);
            && Pair(r, low) && PairOk(r, low)
            && |r| == |up| && Gap(r, low, c) == 2
            && Down(r, low, c) == Down(up, low, c)
            && FirstGeq(low, r[c]) == FirstGeq(low, up[c]) + 1
            && up[c] < r[c] < up[c + 1]
            && (forall j :: 0 <= j < |up| && j != c ==> r[j] == up[j])
  {
    var copy := FirstGeq(low, up[c]);
    CopyIndex(up, low, c);
    CopyIndex(up, low, c + 1);
    GapPositive(up, low, c + 1);
    var y := low[copy + 1];
    assert BorrowNext(up, low, c, max1) == up[c := y];
    assert up[c] < y by { assert low[copy] == up[c]; }
    if c > 0 { assert up[c - 1] < up[c]; }
    FirstGeqOfMember(low, copy + 1);
    ReplaceKeepsOk(up, low, c, y);
    UpperReplace(up, low, c, y);
  }

  /** Merging with the next gap joins the gap of one under `up[c]`, its copy
      and the next gap of one into a gap of three. */
  lemma MergeNextGaps(up: seq<int>, low: seq<int>, c: nat)
    requires Pair(up, low) && PairOk(up, low) && c + 1 < |up|
    requires Gap(up, low, c) == 1 && Gap(up, low, c + 1) == 1
    ensures var r := MergeNext(up, c);
            && Pair(r, low) && PairOk(r, low)
            && |r| + 1 == |up| && Gap(r, low, c) == 3
            && Down(r, low, c) == Down(up, low, c)
            && r[c] == up[c + 1]
  {
    UpperDelete(up, low, c);
    DeleteAtIndex(up, c);
    var r := DeleteAt(up, c);
    forall j | 0 <= j < |r| ensures 1 <= Gap(r, low, j) <= 3 {
      if j > c { assert 1 <= Gap(up, low, j + 1) <= 3; }
      else if j < c { assert 1 <= Gap(up, low, j) <= 3; }
    }
  }

  /** The node the source lands on when borrowing from a previous gap of two
      or three nodes is the one just before that gap's copy. */
  lemma BorrowPrevKey(up: seq<int>, low: seq<int>, c: nat, max1: int)
    requires Pair(up, low) && 0 < c < |up|
    requires 2 <= Gap(up, low, c - 1) <= 3
    ensures 0 < FirstGeq(low, up[c - 1]) < |low|
    ensures BorrowPrev(up, low, c, max1) == up[c - 1 := low[FirstGeq(low, up[c - 1]) - 1]]
  {
    var copy := FirstGeq(low, up[c - 1]);
    CopyIndex(up, low, c - 1);
    var t := Down(up, low, c - 1) + 1;
    if Gap(up, low, c - 1) == 3 {
      assert low[t + 1] < low[copy];
    }
  }

  /** Borrowing from the previous gap moves the last node of that gap into
      the gap of one under `up[c]`, which becomes a gap of two. */
  lemma BorrowPrevGaps(up: seq<int>, low: seq<int>, c: nat, max1: int)
    requires Pair(up, low) && PairOk(up, low) && 0 < c < |up|
    requires Gap(up, low, c) == 1 && Gap(up, low, c - 1) >= 2
    ensures var r := BorrowPrev(up, low, c, max1);
            && Pair(r, low) && PairOk(r, low)
            && |r| == |up| && Gap(r, low, c) == 2
            && Down(r, low, c) + 1 == Down(up, low, c)
            && FirstGeq(low, r[c]) == FirstGeq(low, up[c])
            && r[c - 1] < up[c - 1]
            && (c >= 2 ==> up[c - 2] < r[c - 1])
            && (forall j :: 0 <= j < |up| && j != c - 1 ==> r[j] == up[j])
  {
    var i := c - 1;
    assert 2 <= Gap(up, low, i) <= 3;
    BorrowPrevKey(up, low, c, max1);
    BorrowedFromPrev(up, low, c);
    var copy := FirstGeq(low, up[i]);
    var y := low[copy - 1];
    ReplaceKeepsOk(up, low, i, y);
    UpperReplace(up, low, i, y);
    var r := BorrowPrev(up, low, c, max1);
    assert r == up[i := y];
    assert r[i] == y;
    assert Gap(r, low, c) == FirstGeq(low, up[c]) - copy;
  }

  /** The key `BorrowPrev` moves up: the node just before the copy of the
      left neighbour's key, which lies strictly between that neighbour's own
      left neighbour and it, and ends a gap one node shorter. */
  lemma BorrowedFromPrev(up: seq<int>, low: seq<int>, c: nat)
    requires Pair(up, low) && 0 < c < |up|
    requires 2 <= Gap(up, low, c - 1) <= 3 && Gap(up, low, c) == 1
    requires 0 < FirstGeq(low, up[c - 1]) < |low|
    ensures var i := c - 1;
            var copy := FirstGeq(low, up[i]);
            var y := low[copy - 1];
            && y < up[i] && (i > 0 ==> up[i - 1] < y) && y < up[c] && y in low
            && FirstGeq(low, y) == copy - 1 && FirstGt(low, y) == copy
            && Down(up, low, c) == copy + 1
  {
    var i := c - 1;
    var copy := FirstGeq(low, up[i]);
    var y := low[copy - 1];
    CopyIndex(up, low, i);
    assert low[Down(up, low, i)] <= y;
    FirstGeqOfMember(low, copy - 1);
    CopyIndex(up, low, c);
  }

  /** Merging with the previous gap joins the previous gap of one, its copy
      and the gap of one under `up[c]` into a gap of three. */
  lemma MergePrevGaps(up: seq<int>, low: seq<int>, c: nat)
    requires Pair(up, low) && PairOk(up, low) && 0 < c < |up|
    requires Gap(up, low, c) == 1 && Gap(up, low, c - 1) == 1
    ensures var r := MergePrev(up, c);
            && Pair(r, low) && PairOk(r, low)
            && |r| + 1 == |up| && Gap(r, low, c - 1) == 3
            && Down(r, low, c - 1) == Down(up, low, c - 1)
            && r[c - 1] == up[c]
  {
    MergeNextGaps(up, low, c - 1);
    DeleteAtIndex(up, c - 1);
  }

  // ---------------------------------------------------------------------
  // Which repair runs

  /** Every key of a level is below the tail's key. */
  lemma BelowTail(max: int, up: seq<int>, j: nat, max1: int)
    requires LevelOk(max, up) && max < max1 && j < |up|
    ensures up[j] < max1
  {
  }

  // The key comparisons of the repair step, read as gap sizes: nothing is
  // done to a gap of two or more nodes; a gap of one is widened from the
  // next gap when the cursor has not moved on this level and from the
  // previous gap otherwise, by a borrow when that neighbour holds two or
  // more nodes and by a merge when it holds one.

  /** A gap of two or more nodes under the cursor is left alone. */
  lemma FixNone(max: int, up: seq<int>, low: seq<int>, start: nat, c: nat, max1: int)
    requires LevelOk(max, up) && max < max1 && Pair(up, low) && PairOk(up, low)
    requires start <= c < |up| && (c == start ==> c + 1 < |up|)
    requires Gap(up, low, c) >= 2
    ensures FixLevel(up, low, start, c, max1) == up
  {
    BelowTail(max, up, c, max1);
    GapIsOne(up, low, c, max1);
  }

  /** When the cursor has not moved on this level, a gap of one under it is
      widened from the next gap: a borrow when that gap holds two or more
      nodes, a merge when it holds one. */
  lemma FixNext(max: int, up: seq<int>, low: seq<int>, c: nat, max1: int)
    requires LevelOk(max, up) && max < max1 && Pair(up, low) && PairOk(up, low)
    requires c + 1 < |up| && Gap(up, low, c) == 1
    ensures FixLevel(up, low, c, c, max1)
              == if Gap(up, low, c + 1) >= 2 then BorrowNext(up, low, c, max1) else MergeNext(up, c)
  {
    BelowTail(max, up, c, max1);
    GapIsOne(up, low, c, max1);
    BelowTail(max, up, c + 1, max1);
    assert 1 <= Gap(up, low, c + 1);
    GapTwo(up, low, c + 1, max1);
    var test := up[c + 1] > KeyAt(low, Down(up, low, c + 1) + 1, max1);
    assert test <==> Gap(up, low, c + 1) >= 2;
    assert FixLevel(up, low, c, c, max1)
             == if test then BorrowNext(up, low, c, max1) else MergeNext(up, c);
  }

  /** When the cursor has moved on this level, a gap of one under it is
      widened from the previous gap: a borrow when that gap holds two or
      more nodes, a merge when it holds one. */
  lemma FixPrev(max: int, up: seq<int>, low: seq<int>, start: nat, c: nat, max1: int)
    requires LevelOk(max, up) && max < max1 && Pair(up, low) && PairOk(up, low)
    requires start < c < |up| && Gap(up, low, c) == 1
    ensures FixLevel(up, low, start, c, max1)
              == if Gap(up, low, c - 1) >= 2 then BorrowPrev(up, low, c, max1) else MergePrev(up, c)
  {
    BelowTail(max, up, c, max1);
    GapIsOne(up, low, c, max1);
    BelowTail(max, up, c - 1, max1);
    assert 1 <= Gap(up, low, c - 1);
    GapTwo(up, low, c - 1, max1);
    var test := up[c - 1] > KeyAt(low, Down(up, low, c - 1) + 1, max1);
    assert test <==> Gap(up, low, c - 1) >= 2;
    assert FixLevel(up, low, start, c, max1)
             == if test then BorrowPrev(up, low, c, max1) else MergePrev(up, c);
  }

  // ---------------------------------------------------------------------
  // The pair above the repaired level

  /** A node of `up` strictly inside the gap under `prev[w]` is not repeated
      in `prev` and is routed through w. */
  lemma InsideWindow(prev: seq<int>, up: seq<int>, w: nat, i: nat)
    requires Pair(prev, up) && w < |prev|
    requires Down(prev, up, w) <= i < FirstGeq(up, prev[w])
    ensures w > 0 ==> prev[w - 1] < up[i]
    ensures up[i] < prev[w] && up[i] !in prev
    ensures FirstGeq(prev, up[i]) == w
  {
    FirstGeqBelow(up, prev[w]);
    if w > 0 {
      CopyIndex(prev, up, w - 1);
    }
    NotBetween(prev, w, up[i]);
    InWindow(prev, w, up[i]);
  }

  /** Overwriting a node inside the window with another key between its
      neighbours keeps every gap of the pair above. */
  lemma WindowReplace(prev: seq<int>, up: seq<int>, w: nat, i: nat, y: int)
    requires Pair(prev, up) && w < |prev|
    requires Down(prev, up, w) <= i < FirstGeq(up, prev[w])
    requires i > 0 ==> up[i - 1] < y
    requires i + 1 < |up| ==> y < up[i + 1]
    ensures Pair(prev, up[i := y])
    ensures forall j :: 0 <= j < |prev| ==> Gap(prev, up[i := y], j) == Gap(prev, up, j)
  {
    InsideWindow(prev, up, w, i);
    CopyIndex(prev, up, w);
    assert up[i + 1] <= prev[w];
    assert w > 0 ==> prev[w - 1] < y by {
      if w > 0 {
        CopyIndex(prev, up, w - 1);
        if i > Down(prev, up, w) {
          assert up[Down(prev, up, w) - 1] <= up[i - 1];
        }
      }
    }
    NotBetween(prev, w, y);
    InWindow(prev, w, y);
    LowerReplace(prev, up, i, y);
  }

  /** Unlinking a node inside the window shrinks that gap by one and no other. */
  lemma WindowDelete(prev: seq<int>, up: seq<int>, w: nat, i: nat)
    requires Pair(prev, up) && w < |prev|
    requires Down(prev, up, w) <= i < FirstGeq(up, prev[w])
    ensures Pair(prev, DeleteAt(up, i))
    ensures forall j :: 0 <= j < |prev| ==>
              Gap(prev, DeleteAt(up, i), j) == Gap(prev, up, j) - (if j == w then 1 else 0)
  {
    InsideWindow(prev, up, w, i);
    LowerDelete(prev, up, i);
  }

  // ---------------------------------------------------------------------
  // The new window below the repaired level

  /** What the repair step leaves for the descent: `r`, the repaired `up`, is
      a level obeying the 1-2-3 rule over `low`; it holds v only if `up` did;
      the gap the pass now descends into holds at least two nodes; and the
      saved down target d still lies inside that gap. */
  predicate Widened(max: int, up: seq<int>, low: seq<int>, r: seq<int>, v: int, d: nat) {
    && LevelOk(max, r) && Pair(r, low) && PairOk(r, low) && |r| <= |up|
    && (v in r ==> v in up)
    && FirstGeq(r, v) < |r| && Gap(r, low, FirstGeq(r, v)) >= 2
    && Down(r, low, FirstGeq(r, v)) <= d < FirstGeq(low, r[FirstGeq(r, v)])
  }

  lemma NoneWidened(max: int, up: seq<int>, low: seq<int>, c: nat, v: int)
    requires LevelOk(max, up) && Pair(up, low) && PairOk(up, low)
    requires c == FirstGeq(up, v) && c < |up| && Gap(up, low, c) >= 2
    ensures Widened(max, up, low, up, v, Down(up, low, c))
  {
  }

  lemma BorrowNextWidened(max: int, up: seq<int>, low: seq<int>, c: nat, v: int, max1: int)
    requires LevelOk(max, up) && Pair(up, low) && PairOk(up, low)
    requires c == FirstGeq(up, v) && c + 1 < |up|
    requires Gap(up, low, c) == 1 && Gap(up, low, c + 1) >= 2
    ensures Widened(max, up, low, BorrowNext(up, low, c, max1), v, Down(up, low, c))
  {
    BorrowNextGaps(up, low, c, max1);
    var r := BorrowNext(up, low, c, max1);
    FirstGeqBelow(up, v);
    InWindow(r, c, v);
    assert r[|r| - 1] == up[|up| - 1];
    MemberAtFirstGeq(r, v);
  }

  lemma MergeNextWidened(max: int, up: seq<int>, low: seq<int>, c: nat, v: int)
    requires LevelOk(max, up) && Pair(up, low) && PairOk(up, low)
    requires c == FirstGeq(up, v) && c + 1 < |up|
    requires Gap(up, low, c) == 1 && Gap(up, low, c + 1) == 1
    ensures Widened(max, up, low, MergeNext(up, c), v, Down(up, low, c))
  {
    MergeNextGaps(up, low, c);
    DeleteAtIndex(up, c);
    var r := MergeNext(up, c);
    FirstGeqBelow(up, v);
    assert up[c] < up[c + 1];
    InWindow(r, c, v);
    assert r[|r| - 1] == up[|up| - 1];
    MemberAtFirstGeq(r, v);
  }

  lemma BorrowPrevWidened(max: int, up: seq<int>, low: seq<int>, c: nat, v: int, max1: int)
    requires LevelOk(max, up) && Pair(up, low) && PairOk(up, low)
    requires c == FirstGeq(up, v) && 0 < c < |up|
    requires Gap(up, low, c) == 1 && Gap(up, low, c - 1) >= 2
    ensures Widened(max, up, low, BorrowPrev(up, low, c, max1), v, Down(up, low, c))
  {
    BorrowPrevGaps(up, low, c, max1);
    var r := BorrowPrev(up, low, c, max1);
    FirstGeqBelow(up, v);
    assert r[c - 1] < v;
    InWindow(r, c, v);
    assert r[|r| - 1] == up[|up| - 1];
    MemberAtFirstGeq(r, v);
    MemberAtFirstGeq(up, v);
  }

  lemma MergePrevWidened(max: int, up: seq<int>, low: seq<int>, c: nat, v: int)
    requires LevelOk(max, up) && Pair(up, low) && PairOk(up, low)
    requires c == FirstGeq(up, v) && 0 < c < |up|
    requires Gap(up, low, c) == 1 && Gap(up, low, c - 1) == 1
    ensures Widened(max, up, low, MergePrev(up, c), v, Down(up, low, c))
  {
    MergePrevGaps(up, low, c);
    DeleteAtIndex(up, c - 1);
    var r := MergePrev(up, c);
    FirstGeqBelow(up, v);
    InWindow(r, c - 1, v);
    CopyIndex(up, low, c);
    assert r[|r| - 1] == up[|up| - 1];
    MemberAtFirstGeq(r, v);
    MemberAtFirstGeq(up, v);
  }

  // ---------------------------------------------------------------------
  // The pair above the repaired level, per repair

  /** What the repair of `up` leaves for the level above it: the pair still
      nests, every gap but the window w keeps its size, and the window loses
      at most one node. */
  predicate Narrowed(prev: seq<int>, up: seq<int>, r: seq<int>, w: nat)
    requires Pair(prev, up) && w < |prev|
  {
    && Pair(prev, r)
    && (forall j :: 0 <= j < |prev| && j != w ==> Gap(prev, r, j) == Gap(prev, up, j))
    && Gap(prev, up, w) - 1 <= Gap(prev, r, w) <= Gap(prev, up, w)
  }

  lemma BorrowNextNarrowed(prev: seq<int>, up: seq<int>, low: seq<int>, w: nat, c: nat, max1: int)
    requires Pair(prev, up) && w < |prev| && Pair(up, low) && PairOk(up, low)
    requires Down(prev, up, w) <= c < FirstGeq(up, prev[w]) && c + 1 < |up|
    requires Gap(up, low, c) == 1 && Gap(up, low, c + 1) >= 2
    ensures Narrowed(prev, up, BorrowNext(up, low, c, max1), w)
  {
    BorrowNextGaps(up, low, c, max1);
    var r := BorrowNext(up, low, c, max1);
    if c > 0 { assert up[c - 1] < up[c]; }
    WindowReplace(prev, up, w, c, r[c]);
    assert r == up[c := r[c]];
  }

  lemma MergeNextNarrowed(prev: seq<int>, up: seq<int>, w: nat, c: nat)
    requires Pair(prev, up) && w < |prev|
    requires Down(prev, up, w) <= c < FirstGeq(up, prev[w])
    ensures Narrowed(prev, up, MergeNext(up, c), w)
  {
    WindowDelete(prev, up, w, c);
  }

  lemma BorrowPrevNarrowed(prev: seq<int>, up: seq<int>, low: seq<int>, w: nat, c: nat, max1: int)
    requires Pair(prev, up) && w < |prev| && Pair(up, low) && PairOk(up, low)
    requires Down(prev, up, w) < c <= FirstGeq(up, prev[w]) && c < |up|
    requires Gap(up, low, c) == 1 && Gap(up, low, c - 1) >= 2
    ensures Narrowed(prev, up, BorrowPrev(up, low, c, max1), w)
  {
    BorrowPrevGaps(up, low, c, max1);
    var r := BorrowPrev(up, low, c, max1);
    WindowReplace(prev, up, w, c - 1, r[c - 1]);
    assert r == up[c - 1 := r[c - 1]];
  }

  lemma MergePrevNarrowed(prev: seq<int>, up: seq<int>, w: nat, c: nat)
    requires Pair(prev, up) && w < |prev|
    requires Down(prev, up, w) < c <= FirstGeq(up, prev[w]) && c < |up|
    ensures Narrowed(prev, up, MergePrev(up, c), w)
  {
    WindowDelete(prev, up, w, c - 1);
  }

  // ---------------------------------------------------------------------
  // The repair step as a whole

  /** After the repair step the pass descends into a gap of two or more
      nodes, entered at the saved down target of the cursor, and the level
      still obeys the 1-2-3 rule over the one below. */
  lemma FixLevelWidens(max: int, up: seq<int>, low: seq<int>, start: nat, c: nat, v: int, max1: int)
    requires LevelOk(max, up) && max < max1 && Pair(up, low) && PairOk(up, low)
    requires c == FirstGeq(up, v) && start <= c < |up| && (c == start ==> c + 1 < |up|)
    ensures Widened(max, up, low, FixLevel(up, low, start, c, max1), v, Down(up, low, c))
  {
    assert 1 <= Gap(up, low, c) <= 3;
    if Gap(up, low, c) >= 2 {
      FixNone(max, up, low, start, c, max1);
      NoneWidened(max, up, low, c, v);
    } else if c == start {
      FixNext(max, up, low, c, max1);
      assert 1 <= Gap(up, low, c + 1) <= 3;
      if Gap(up, low, c + 1) >= 2 {
        BorrowNextWidened(max, up, low, c, v, max1);
      } else {
        MergeNextWidened(max, up, low, c, v);
      }
    } else {
      FixPrev(max, up, low, start, c, max1);
      assert 1 <= Gap(up, low, c - 1) <= 3;
      if Gap(up, low, c - 1) >= 2 {
        BorrowPrevWidened(max, up, low, c, v, max1);
      } else {
        MergePrevWidened(max, up, low, c, v);
      }
    }
  }

  /** The repair step only touches nodes inside the window of the level above
      that the pass came through, so that level loses at most one node from
      that window and keeps every other gap. */
  lemma FixLevelNarrows(max: int, prev: seq<int>, up: seq<int>, low: seq<int>, w: nat,
                        start: nat, c: nat, v: int, max1: int)
    requires LevelOk(max, up) && max < max1 && Pair(up, low) && PairOk(up, low)
    requires Pair(prev, up) && w < |prev| && v <= prev[w]
    requires c == FirstGeq(up, v) && start <= c < |up| && (c == start ==> c + 1 < |up|)
    requires Down(prev, up, w) <= start < FirstGeq(up, prev[w])
    ensures Narrowed(prev, up, FixLevel(up, low, start, c, max1), w)
  {
    Monotone(up, v, prev[w]);
    assert 1 <= Gap(up, low, c) <= 3;
    if Gap(up, low, c) >= 2 {
      FixNone(max, up, low, start, c, max1);
    } else if c == start {
      FixNext(max, up, low, c, max1);
      if Gap(up, low, c + 1) >= 2 {
        BorrowNextNarrowed(prev, up, low, w, c, max1);
      } else {
        MergeNextNarrowed(prev, up, w, c);
      }
    } else {
      FixPrev(max, up, low, start, c, max1);
      if Gap(up, low, c - 1) >= 2 {
        BorrowPrevNarrowed(prev, up, low, w, c, max1);
      } else {
        MergePrevNarrowed(prev, up, w, c);
      }
    }
  }

  /** A window of two or more nodes that loses at most one keeps the pair
      above within the 1-2-3 rule. */
  lemma NarrowedOk(prev: seq<int>, up: seq<int>, r: seq<int>, w: nat)
    requires Pair(prev, up) && PairOk(prev, up) && w < |prev|
    requires Gap(prev, up, w) >= 2 && Narrowed(prev, up, r, w)
    ensures PairOk(prev, r)
  {
  }
}
