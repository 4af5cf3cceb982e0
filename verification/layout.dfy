/** The deterministic 1-2-3 skip list as a stack of key levels.

    `levels[0]` is the level that starts at `head`; the last level is the
    lowest one, holding the client keys followed by a node keyed `max`.
    A node is identified by its level and its index in that level; index
    |level| is the `tail` sentinel (key `max1`, right link to itself), and
    `NodeRef.Bottom` is the `bottom` sentinel below the lowest level.

    A node's `down` link is not stored: in every state the algorithms
    reach it is fixed by the keys. It designates the node of the level
    below that comes just after the copy of the node's left neighbour's
    key, or the first node of that level for the leftmost node (`Down`). */
module Layout {
  import opened SortedSeq

  datatype DSkipList = DSkipList(max: int, max1: int, levels: seq<seq<int>>)

  /** What `SearchHelp` hands back: the `bottom` sentinel or a real node. */
  datatype NodeRef = Bottom | Node(level: nat, index: nat)

  /** Index, in `lower`, of the node that `upper[j]`'s down link designates. */
  function Down(upper: seq<int>, lower: seq<int>, j: nat): (r: nat)
    requires j < |upper|
    ensures r <= |lower|
  {
    if j == 0 then 0 else FirstGt(lower, upper[j - 1])
  }

  /** The gap under `upper[j]`: the number of nodes of `lower` from its down
      target up to, excluding, the copy of its own key. */
  function Gap(upper: seq<int>, lower: seq<int>, j: nat): int
    requires j < |upper|
  {
    FirstGeq(lower, upper[j]) - Down(upper, lower, j)
  }

  /** One level: nonempty, strictly increasing, ending in `max`. */
  predicate LevelOk(max: int, s: seq<int>) {
    |s| > 0 && Sorted(s) && s[|s| - 1] == max
  }

  /** Every key of `upper` also sits in `lower`. */
  predicate Within(upper: seq<int>, lower: seq<int>) {
    forall x :: x in upper ==> x in lower
  }

  /** Level i exists and is well formed. */
  predicate LevelOkAt(max: int, L: seq<seq<int>>, i: nat) {
    i < |L| && LevelOk(max, L[i])
  }

  /** Level i has a level below it that repeats all its keys. */
  predicate WithinBelow(L: seq<seq<int>>, i: nat) {
    i + 1 < |L| && Within(L[i], L[i + 1])
  }

  /** The shape every reachable state has: well-formed levels, each one's
      keys repeated on the level below. */
  predicate Layered(max: int, L: seq<seq<int>>) {
    && |L| >= 1
    && (forall i :: 0 <= i < |L| ==> LevelOkAt(max, L, i))
    && (forall i :: 0 <= i < |L| - 1 ==> WithinBelow(L, i))
  }

  /** The 1-2-3 rule for one pair of adjacent levels. */
  predicate PairOk(upper: seq<int>, lower: seq<int>) {
    forall j :: 0 <= j < |upper| ==> 1 <= Gap(upper, lower, j) <= 3
  }

  /** Level i has a level below it, and the pair obeys the 1-2-3 rule. */
  predicate PairOkBelow(L: seq<seq<int>>, i: nat) {
    i + 1 < |L| && PairOk(L[i], L[i + 1])
  }

  /** The 1-2-3 rule for every level above the lowest. */
  predicate GapsOk(L: seq<seq<int>>) {
    forall i :: 0 <= i < |L| - 1 ==> PairOkBelow(L, i)
  }

  predicate Shape(s: DSkipList) {
    s.max < s.max1 && Layered(s.max, s.levels)
  }

  /** The class invariant: the shape, a head level that is only `max`
      (`head->right == tail`), and the 1-2-3 rule everywhere. */
  predicate Inv(s: DSkipList) {
    Shape(s) && s.levels[0] == [s.max] && GapsOk(s.levels)
  }

  /** The gap, between levels k - 1 and k, that a descent towards v passes
      through: the one under the first key of level k - 1 that is >= v. */
  function WindowGap(max: int, L: seq<seq<int>>, k: nat, v: int): int
    requires Layered(max, L) && 1 <= k < |L| && v < max
  {
    LayeredLevel(max, L, k - 1);
    FirstGeqInside(L[k - 1], v);
    Gap(L[k - 1], L[k], FirstGeq(L[k - 1], v))
  }

  /** The cursor's rightward walk on level k (`while (v > current->key)
      current = current->right;`) entered at index `start` ahead of every
      key >= v: it stops on the first key >= v, which is a real node because
      every level ends in `max`. */
  function Walk(s: DSkipList, k: nat, start: nat, v: int): (c: nat)
    requires Shape(s) && v < s.max && k < |s.levels| && start <= |s.levels[k]|
    requires forall j :: 0 <= j < start ==> s.levels[k][j] < v
    ensures c == FirstGeq(s.levels[k], v) && c < |s.levels[k]|
  {
    LayeredLevel(s.max, s.levels, k);
    FirstGeqInside(s.levels[k], v);
    AdvanceFindsFirstGeq(s.levels[k], start, v);
    Advance(s.levels[k], start, v)
  }

  function Lowest(L: seq<seq<int>>): seq<int>
    requires |L| >= 1
  {
    L[|L| - 1]
  }

  /** The client keys held by the list. */
  function Elements(s: DSkipList): set<int>
    requires |s.levels| >= 1
  {
    set x | x in Lowest(s.levels) && x < s.max
  }

  /** Number of levels above the lowest one. */
  function Height(s: DSkipList): nat
    requires |s.levels| >= 1
  {
    |s.levels| - 1
  }

  /** The constructor's `Init`: `bottom` and `tail` self-looped, and a single
      level holding `head` = (`max`, `tail`, `bottom`). */
  function Init(max: int, max1: int): (r: DSkipList)
    requires max < max1
    ensures Inv(r)
    ensures Elements(r) == {}
    ensures Height(r) == 0
    ensures r.max == max && r.max1 == max1
  {
    DSkipList(max, max1, [[max]])
  }

  /** `LowerHeadRemoveHelp`: when the level under `head` is only its `max`
      node, that level is unlinked and `head` points to the level below it. */
  function LowerHead(L: seq<seq<int>>): (r: seq<seq<int>>)
    requires |L| >= 2
    ensures |L[1]| == 1 ==> r == L[..1] + L[2..]
    ensures |L[1]| != 1 ==> r == L
  {
    if |L[1]| == 1 then L[..1] + L[2..] else L
  }

  // ---------------------------------------------------------------------
  // Facts about the derived down links

  lemma DownBelowFirstGeq(upper: seq<int>, lower: seq<int>, j: nat, v: int)
    requires Sorted(upper) && Sorted(lower) && j < |upper|
    requires j > 0 ==> upper[j - 1] < v
    ensures Down(upper, lower, j) <= FirstGeq(lower, v)
  {
    if j > 0 { Monotone(lower, upper[j - 1], v); }
  }

  /** The descent enters the level below ahead of every key >= v. */
  lemma EntryBelow(up: seq<int>, low: seq<int>, c: nat, v: int)
    requires c == FirstGeq(up, v) && c < |up|
    ensures forall j :: 0 <= j < Down(up, low, c) ==> low[j] < v
  {
    if c > 0 {
      FirstGeqBelow(up, v);
      FirstGtBelow(low, up[c - 1]);
    }
  }

  /** Inside a layered pair, the gap under `upper[j]` ends at its copy, and
      the copy is a real node of `lower`. */
  lemma CopyIndex(upper: seq<int>, lower: seq<int>, j: nat)
    requires Sorted(upper) && Sorted(lower) && Within(upper, lower) && j < |upper|
    ensures FirstGeq(lower, upper[j]) < |lower|
    ensures lower[FirstGeq(lower, upper[j])] == upper[j]
    ensures j > 0 ==> Down(upper, lower, j) == FirstGeq(lower, upper[j - 1]) + 1
  {
    assert upper[j] in upper;
    MemberAtFirstGeq(lower, upper[j]);
    if j > 0 {
      assert upper[j - 1] in upper;
      FirstGtOfPresent(lower, upper[j - 1]);
    }
  }

  /** A gap of at least one node makes the down target strictly precede the copy. */
  lemma GapPositive(upper: seq<int>, lower: seq<int>, j: nat)
    requires Sorted(upper) && Sorted(lower) && Within(upper, lower) && j < |upper|
    requires Gap(upper, lower, j) >= 1
    ensures Down(upper, lower, j) < FirstGeq(lower, upper[j]) < |lower|
    ensures lower[Down(upper, lower, j)] < upper[j]
  {
    CopyIndex(upper, lower, j);
  }

  lemma LayeredLevel(max: int, L: seq<seq<int>>, i: nat)
    requires Layered(max, L) && i < |L|
    ensures LevelOk(max, L[i]) && Sorted(L[i])
    ensures forall x :: x in L[i] ==> x <= max
    ensures |L[i]| >= 1 && L[i][|L[i]| - 1] == max
  {
    assert LevelOkAt(max, L, i);
    forall x | x in L[i] ensures x <= max {
      var a :| 0 <= a < |L[i]| && L[i][a] == x;
      if a < |L[i]| - 1 { assert L[i][a] < L[i][|L[i]| - 1]; }
    }
  }

  /** Keys repeat downward through any number of levels. */
  lemma WithinDown(max: int, L: seq<seq<int>>, i: nat, j: nat, x: int)
    requires Layered(max, L) && i <= j < |L| && x in L[i]
    ensures x in L[j]
    decreases j - i
  {
    if i < j {
      assert WithinBelow(L, i);
      WithinDown(max, L, i + 1, j, x);
    }
  }

  // ---------------------------------------------------------------------
  // Replacing one level

  /** A level may be replaced without breaking the shape when the new one is
      well formed and still sits between its neighbours. */
  lemma LayeredUpdate(max: int, L: seq<seq<int>>, k: nat, x: seq<int>)
    requires Layered(max, L) && k < |L| && LevelOk(max, x)
    requires k > 0 ==> Within(L[k - 1], x)
    requires k + 1 < |L| ==> Within(x, L[k + 1])
    ensures Layered(max, L[k := x])
  {
    var L' := L[k := x];
    forall i | 0 <= i < |L'| ensures LevelOkAt(max, L', i) {
      if i != k { LayeredLevel(max, L, i); }
    }
    forall i | 0 <= i < |L'| - 1 ensures WithinBelow(L', i) {
      if i != k && i + 1 != k { assert WithinBelow(L, i); }
    }
  }

  /** A level may be replaced without breaking the 1-2-3 rule when both pairs
      it takes part in still obey it. */
  lemma GapsUpdate(L: seq<seq<int>>, k: nat, x: seq<int>)
    requires GapsOk(L) && k < |L|
    requires k > 0 ==> PairOk(L[k - 1], x)
    requires k + 1 < |L| ==> PairOk(x, L[k + 1])
    ensures GapsOk(L[k := x])
  {
    var L' := L[k := x];
    forall i | 0 <= i < |L'| - 1 ensures PairOkBelow(L', i) {
      if i != k && i + 1 != k { assert PairOkBelow(L, i); }
    }
  }

  /** The gap under a head level of `max` alone is the level below minus its `max`. */
  lemma HeadGap(s: DSkipList)
    requires Inv(s)
    ensures |s.levels| > 1 ==> Gap(s.levels[0], s.levels[1], 0) == |s.levels[1]| - 1
  {
    if |s.levels| > 1 {
      LayeredLevel(s.max, s.levels, 1);
      FirstGeqOfMember(s.levels[1], |s.levels[1]| - 1);
    }
  }

  /** Adding one key below `max` to the lowest level adds it to the elements. */
  lemma ElementsAdd(s: DSkipList, t: DSkipList, v: int)
    requires |s.levels| >= 1 && |t.levels| >= 1 && t.max == s.max && v < s.max
    requires forall x :: x in Lowest(t.levels) <==> x in Lowest(s.levels) || x == v
    ensures Elements(t) == Elements(s) + {v}
  {
  }

  /** Removing one key from the lowest level removes it from the elements. */
  lemma ElementsRemove(s: DSkipList, t: DSkipList, v: int)
    requires |s.levels| >= 1 && |t.levels| >= 1 && t.max == s.max
    requires forall x :: x in Lowest(t.levels) <==> x in Lowest(s.levels) && x != v
    ensures Elements(t) == Elements(s) - {v}
  {
  }

  /** The elements depend only on the lowest level and `max`. */
  lemma ElementsSame(s: DSkipList, t: DSkipList)
    requires |s.levels| >= 1 && |t.levels| >= 1 && t.max == s.max
    requires Lowest(t.levels) == Lowest(s.levels)
    ensures Elements(t) == Elements(s)
  {
  }

  /** Replacing a level above the lowest leaves the lowest level alone. */
  lemma UpdateKeepsLowest(L: seq<seq<int>>, k: nat, x: seq<int>)
    requires k + 1 < |L|
    ensures Lowest(L[k := x]) == Lowest(L)
  {
  }
}
