/** `Remove`: one top-down pass that widens every gap of one node on the
    search path, takes the key out of the lowest level, and drops the level
    under the head when it has emptied. A key whose node is taller than the
    lowest level is first renamed, on every level, to the key just before it. */
module Remove {
  import opened SortedSeq
  import opened Layout
  import opened Gaps
  import opened Fixes

  /** The 1-2-3 rule on every pair of levels except the head's pair, which
      the pass may empty and `LowerHeadRemoveHelp` then repairs. */
  predicate LowerGapsOk(L: seq<seq<int>>) {
    forall i :: 1 <= i < |L| - 1 ==> PairOkBelow(L, i)
  }

  // ---------------------------------------------------------------------
  // LowerHeadRemoveHelp

  /** Lowering the head restores the class invariant: either the level under
      the head still holds one to three keys besides `max`, or it holds only
      `max`, repeats the head level, and is dropped. The lowest level is the
      same afterwards. */
  lemma LowerHeadRestores(max: int, L: seq<seq<int>>)
    requires Layered(max, L) && |L| >= 2 && L[0] == [max]
    requires |L[1]| <= 4 && LowerGapsOk(L)
    ensures var r := LowerHead(L);
            && Layered(max, r) && r[0] == [max] && GapsOk(r)
            && Lowest(r) == Lowest(L)
            && (|L[1]| == 1 ==> r == L[1..] && |r| + 1 == |L|)
            && (|L[1]| != 1 ==> r == L)
  {
    LayeredLevel(max, L, 1);
    if |L[1]| == 1 {
      assert L[1] == [max];
      var r := L[1..];
      assert LowerHead(L) == r;
      forall i | 0 <= i < |r| ensures LevelOkAt(max, r, i) {
        LayeredLevel(max, L, i + 1);
      }
      forall i | 0 <= i < |r| - 1 ensures WithinBelow(r, i) {
        assert WithinBelow(L, i + 1);
      }
      forall i | 0 <= i < |r| - 1 ensures PairOkBelow(r, i) {
        assert PairOkBelow(L, i + 1);
      }
    } else {
      FirstGeqOfMember(L[1], |L[1]| - 1);
      assert PairOk(L[0], L[1]);
      forall i | 0 <= i < |L| - 1 ensures PairOkBelow(L, i) {
        if i > 0 { assert PairOkBelow(L, i); }
      }
    }
  }

  // ---------------------------------------------------------------------
  // FindAndModifyRemoveHelp

  /** On a sorted level the walk stops on the only node that can hold v, so
      renaming that node renames every v of the level. */
  lemma RenameAtWalk(s: seq<int>, c: nat, v: int, p: int)
    requires Sorted(s) && c == FirstGeq(s, v) && c < |s|
    ensures (if s[c] == v then s[c := p] else s) == Rewrite(s, v, p)
  {
    FirstGeqSorted(s, v);
    var t := if s[c] == v then s[c := p] else s;
    forall j | 0 <= j < |s| ensures t[j] == Rewrite(s, v, p)[j] {
      if j > c { assert s[c] < s[j]; }
    }
  }

  /** `FindAndModifyRemoveHelp` from level k, entered at index `start`: on
      each level the cursor walks right while v is larger, renames the node
      it stops on to p when that node holds v, and follows the down link.
      The levels it returns are the levels from k on with every v renamed p. */
  function FindAndModify(s: DSkipList, k: nat, start: nat, v: int, p: int): (rows: seq<seq<int>>)
    requires Shape(s) && v < s.max && k < |s.levels| && start <= |s.levels[k]|
    requires forall j :: 0 <= j < start ==> s.levels[k][j] < v
    ensures |rows| == |s.levels| - k
    ensures forall i :: 0 <= i < |rows| ==> rows[i] == Rewrite(s.levels[k + i], v, p)
    decreases |s.levels| - k
  {
    var L := s.levels;
    var c := Walk(s, k, start, v);
    LayeredLevel(s.max, L, k);
    RenameAtWalk(L[k], c, v, p);
    var row := if L[k][c] == v then L[k][c := p] else L[k];
    if k + 1 < |L| then
      EntryBelow(L[k], L[k + 1], c, v);
      var rest := FindAndModify(s, k + 1, Down(L[k], L[k + 1], c), v, p);
      ConsRows(L, k, row, rest, v, p);
      [row] + rest
    else
      [row]
  }

  /** One renamed level in front of the renamed levels below it. */
  lemma ConsRows(L: seq<seq<int>>, k: nat, row: seq<int>, rest: seq<seq<int>>, v: int, p: int)
    requires k < |L| && row == Rewrite(L[k], v, p) && |rest| + k + 1 == |L|
    requires forall i :: 0 <= i < |rest| ==> rest[i] == Rewrite(L[k + 1 + i], v, p)
    ensures forall i :: 0 <= i < |rest| + 1 ==> ([row] + rest)[i] == Rewrite(L[k + i], v, p)
  {
  }

  /** A level other than the head's may be replaced without breaking
      `LowerGapsOk` when both pairs it takes part in, the head's pair aside,
      still obey the 1-2-3 rule. */
  lemma LowerGapsUpdate(L: seq<seq<int>>, k: nat, x: seq<int>)
    requires LowerGapsOk(L) && 1 <= k < |L|
    requires k >= 2 ==> PairOk(L[k - 1], x)
    requires k + 1 < |L| ==> PairOk(x, L[k + 1])
    ensures LowerGapsOk(L[k := x])
  {
    var L' := L[k := x];
    forall i | 1 <= i < |L'| - 1 ensures PairOkBelow(L', i) {
      if i != k && i + 1 != k { assert PairOkBelow(L, i); }
    }
  }

  // ---------------------------------------------------------------------
  // The descent

  /** Every node before index `start` holds a key below v, so a walk from
      there stops where a walk from the first node would. */
  predicate Ahead(level: seq<int>, start: nat, v: int) {
    start <= |level| && forall j :: 0 <= j < start ==> level[j] < v
  }

  /** Where the pass entered level k: inside the gap, under the level above,
      of the first key there that is >= v. */
  predicate Entered(prev: seq<int>, up: seq<int>, start: nat, v: int) {
    var w := FirstGeq(prev, v);
    w < |prev| && Down(prev, up, w) <= start < FirstGeq(up, prev[w])
  }

  /** What holds when the pass reaches level k (k >= 1), entered at index
      `start`, having met v on `visit` levels so far: the levels from k - 1
      up are final; every pair but the head's obeys the 1-2-3 rule; the pass
      came down through a gap of two or more nodes (the head's gap aside) and
      entered it ahead of v; and v is on level k - 1 only if it was met. */
  predicate RemoveInv(s: DSkipList, k: nat, start: nat, visit: nat, v: int) {
    && Shape(s) && v < s.max && 1 <= k < |s.levels|
    && s.levels[0] == [s.max] && |s.levels[1]| <= 4
    && LowerGapsOk(s.levels)
    && start <= |s.levels[k]|
    && (forall j :: 0 <= j < start ==> s.levels[k][j] < v)
    && Entered(s.levels[k - 1], s.levels[k], start, v)
    && (k >= 2 ==> WindowGap(s.max, s.levels, k, v) >= 2)
    && (k == 1 ==> visit == 0)
    && (visit > 0 ==> v in s.levels[k] && start < |s.levels[k]| && s.levels[k][start] < v)
    && (visit == 0 ==> v !in s.levels[k - 1])
  }

  /** The cursor index the walk on level k stops at. */
  function Cursor(s: DSkipList, k: nat, v: int): nat
    requires k < |s.levels|
  {
    FirstGeq(s.levels[k], v)
  }

  /** The repair step, read on the three levels around the cursor: `prev`
      above, `up` holding the cursor, `low` below. The step may run; the
      repaired level sits between its neighbours, by the 1-2-3 rule below it
      and, unless `prev` is the head level, above it too; and the pass enters
      `low` inside a gap of two or more nodes, ahead of v. */
  lemma StepLevels(max: int, max1: int, prev: seq<int>, up: seq<int>, low: seq<int>,
                   start: nat, v: int, head: bool)
    requires LevelOk(max, up) && max < max1 && v < max
    requires Pair(prev, up) && Pair(up, low) && PairOk(up, low)
    requires start <= |up| && (forall j :: 0 <= j < start ==> up[j] < v)
    requires Entered(prev, up, start, v)
    requires !head ==> PairOk(prev, up) && Gap(prev, up, FirstGeq(prev, v)) >= 2
    ensures var c := FirstGeq(up, v);
            && start <= c < |up| && (c == start ==> c + 1 < |up|)
            && var x := FixLevel(up, low, start, c, max1);
               var d := Down(up, low, c);
               && LevelOk(max, x) && Pair(prev, x) && (!head ==> PairOk(prev, x))
               && Widened(max, up, low, x, v, d)
               && (forall j :: 0 <= j < d ==> low[j] < v)
               && Entered(x, low, d, v)
  {
    var c := FirstGeq(up, v);
    FirstGeqInside(up, v);
    FirstGeqSorted(up, v);
    var w := FirstGeq(prev, v);
    CopyIndex(prev, up, w);
    FixLevelWidens(max, up, low, start, c, v, max1);
    FixLevelNarrows(max, prev, up, low, w, start, c, v, max1);
    var x := FixLevel(up, low, start, c, max1);
    if !head {
      NarrowedOk(prev, up, x, w);
    }
    EntryBelow(up, low, c, v);
  }

  /** What the pass knows about v on the next level: met so far means v is
      on it, ahead of the entry index; not met means the repaired level does
      not hold v. */
  lemma StepMeets(max: int, max1: int, up: seq<int>, low: seq<int>, start: nat, visit: nat, v: int)
    requires LevelOk(max, up) && Pair(up, low) && PairOk(up, low)
    requires start <= |up| && (forall j :: 0 <= j < start ==> up[j] < v)
    requires visit > 0 ==> v in up && start < |up| && up[start] < v
    requires FirstGeq(up, v) < |up| && start <= FirstGeq(up, v)
    requires FirstGeq(up, v) == start ==> FirstGeq(up, v) + 1 < |up|
    requires Widened(max, up, low, FixLevel(up, low, start, FirstGeq(up, v), max1), v,
                     Down(up, low, FirstGeq(up, v)))
    ensures var c := FirstGeq(up, v);
            var d := Down(up, low, c);
            var visit' := if up[c] == v then visit + 1 else visit;
            && (visit' > 0 ==> v in low && d < |low| && low[d] < v)
            && (visit' == 0 ==> v !in FixLevel(up, low, start, c, max1))
  {
    var c := FirstGeq(up, v);
    var x := FixLevel(up, low, start, c, max1);
    assert v in x ==> v in up;
    MemberAtFirstGeq(up, v);
    if up[c] == v {
      CopyIndex(up, low, c);
      assert 1 <= Gap(up, low, c);
      FirstGeqBelow(low, v);
    }
  }

  /** One step above the lowest level: the repair step may run, and after it
      the invariant holds on the next level, entered at the cursor's saved
      down target. */
  lemma RemoveStep(s: DSkipList, k: nat, start: nat, visit: nat, v: int)
    requires RemoveInv(s, k, start, visit, v) && k + 1 < |s.levels|
    ensures var L := s.levels;
            var c := Cursor(s, k, v);
            && start <= c < |L[k]| && (c == start ==> c + 1 < |L[k]|)
            && RemoveInv(s.(levels := L[k := FixLevel(L[k], L[k + 1], start, c, s.max1)]),
                         k + 1, Down(L[k], L[k + 1], c),
                         if L[k][c] == v then visit + 1 else visit, v)
  {
    var L := s.levels;
    var prev := L[k - 1];
    var up := L[k];
    var low := L[k + 1];
    LayeredLevel(s.max, L, k - 1);
    LayeredLevel(s.max, L, k);
    LayeredLevel(s.max, L, k + 1);
    assert WithinBelow(L, k - 1) && WithinBelow(L, k) && PairOkBelow(L, k);
    assert k >= 2 ==> PairOkBelow(L, k - 1);
    StepPlain(s.max, s.max1, prev, up, low, start, visit, v, k == 1);
    var c := FirstGeq(up, v);
    var x := FixLevel(up, low, start, c, s.max1);
    StepInv(s, k, start, visit, v, x, Down(up, low, c), if up[c] == v then visit + 1 else visit);
  }

  /** `StepLevels` and `StepMeets` together, in the terms `StepInv` takes. */
  lemma StepPlain(max: int, max1: int, prev: seq<int>, up: seq<int>, low: seq<int>,
                  start: nat, visit: nat, v: int, head: bool)
    requires LevelOk(max, up) && max < max1 && v < max
    requires Pair(prev, up) && Pair(up, low) && PairOk(up, low)
    requires start <= |up| && (forall j :: 0 <= j < start ==> up[j] < v)
    requires Entered(prev, up, start, v)
    requires !head ==> PairOk(prev, up) && Gap(prev, up, FirstGeq(prev, v)) >= 2
    requires visit > 0 ==> v in up && start < |up| && up[start] < v
    ensures var c := FirstGeq(up, v);
            && start <= c < |up| && (c == start ==> c + 1 < |up|)
            && var x := FixLevel(up, low, start, c, max1);
               var d := Down(up, low, c);
               var visit' := if up[c] == v then visit + 1 else visit;
               && LevelOk(max, x) && |x| <= |up|
               && Within(prev, x) && (!head ==> PairOk(prev, x))
               && Within(x, low) && PairOk(x, low)
               && Ahead(low, d, v)
               && Entered(x, low, d, v) && Gap(x, low, FirstGeq(x, v)) >= 2
               && (visit' > 0 ==> v in low && d < |low| && low[d] < v)
               && (visit' == 0 ==> v !in x)
  {
    StepLevels(max, max1, prev, up, low, start, v, head);
    StepMeets(max, max1, up, low, start, visit, v);
  }

  /** The invariant carries over to level k + 1 once level k is replaced by
      a level x that sits between its neighbours, by the 1-2-3 rule below it
      and (unless the level above is the head level) above it, and the pass
      enters level k + 1 at d inside a gap of two or more nodes under x. */
  lemma StepInv(s: DSkipList, k: nat, start: nat, visit: nat, v: int, x: seq<int>, d: nat, visit': nat)
    requires RemoveInv(s, k, start, visit, v) && k + 1 < |s.levels|
    requires LevelOk(s.max, x) && |x| <= |s.levels[k]|
    requires Within(s.levels[k - 1], x) && (k >= 2 ==> PairOk(s.levels[k - 1], x))
    requires Within(x, s.levels[k + 1]) && PairOk(x, s.levels[k + 1])
    requires Ahead(s.levels[k + 1], d, v)
    requires Entered(x, s.levels[k + 1], d, v) && Gap(x, s.levels[k + 1], FirstGeq(x, v)) >= 2
    requires visit' > 0 ==> v in s.levels[k + 1] && d < |s.levels[k + 1]| && s.levels[k + 1][d] < v
    requires visit' == 0 ==> v !in x
    ensures RemoveInv(s.(levels := s.levels[k := x]), k + 1, d, visit', v)
  {
    var L := s.levels;
    var t := s.(levels := L[k := x]);
    LayeredUpdate(s.max, L, k, x);
    LowerGapsUpdate(L, k, x);
    var n := k + 1;
    var T := t.levels;
    assert T[n] == L[n] && T[n - 1] == x;
    LayeredLevel(s.max, T, k);
    FirstGeqInside(x, v);
    assert WindowGap(s.max, T, n, v) == Gap(x, L[n], FirstGeq(x, v));
    RemoveInvIntro(t, n, d, visit', v);
  }

  /** The invariant, conjunct by conjunct. */
  lemma RemoveInvIntro(s: DSkipList, k: nat, start: nat, visit: nat, v: int)
    requires Shape(s) && v < s.max && 1 <= k < |s.levels|
    requires s.levels[0] == [s.max] && |s.levels[1]| <= 4
    requires LowerGapsOk(s.levels)
    requires start <= |s.levels[k]|
    requires forall j :: 0 <= j < start ==> s.levels[k][j] < v
    requires Entered(s.levels[k - 1], s.levels[k], start, v)
    requires k >= 2 ==> WindowGap(s.max, s.levels, k, v) >= 2
    requires k == 1 ==> visit == 0
    requires visit > 0 ==> v in s.levels[k] && start < |s.levels[k]| && s.levels[k][start] < v
    requires visit == 0 ==> v !in s.levels[k - 1]
    ensures RemoveInv(s, k, start, visit, v)
  {
  }

  /** When v was met above the lowest level, the walk on the lowest level
      moves right before reaching v: `previous` is not null there. */
  lemma TallHasPrevious(s: DSkipList, k: nat, start: nat, visit: nat, v: int)
    requires RemoveInv(s, k, start, visit, v) && visit > 0
    ensures start < Cursor(s, k, v) < |s.levels[k]|
    ensures s.levels[k][Cursor(s, k, v)] == v
  {
    LayeredLevel(s.max, s.levels, k);
    FirstGeqSorted(s.levels[k], v);
    MemberAtFirstGeq(s.levels[k], v);
  }

  // ---------------------------------------------------------------------
  // The lowest level

  /** The `visit_num > 1` branch: the head is lowered first; then every node
      holding v is renamed to the key p of the node before v on the lowest
      level (`FindAndModifyRemoveHelp(current->key, previous->key)`), and
      v's node is unlinked from the lowest level. */
  function RemoveTall(s: DSkipList, c: nat, v: int): (r: DSkipList)
    requires Shape(s) && v < s.max && |s.levels| >= 2 && s.levels[0] == [s.max]
    requires |s.levels[1]| <= 4 && LowerGapsOk(s.levels)
    requires 0 < c < |Lowest(s.levels)|
    ensures r.max == s.max && r.max1 == s.max1
  {
    LowerHeadRestores(s.max, s.levels);
    var t := s.(levels := LowerHead(s.levels));
    var p := Lowest(t.levels)[c - 1];
    var rows := FindAndModify(t, 0, 0, v, p);
    var n := |rows| - 1;
    s.(levels := rows[n := DeleteAt(rows[n], c)])
  }

  /** The descent loop of `Remove` from level k: on each level the cursor
      walks right while v is larger and counts v when it stops on it; above
      the lowest level the repair step runs and the pass follows the saved
      down link; on the lowest level v is taken out — by unlinking its node
      when it was met only there, by renaming and unlinking when it was met
      higher up — and the head is lowered when its level has emptied. */
  function RemoveDescend(s: DSkipList, k: nat, start: nat, visit: nat, v: int): (r: (DSkipList, bool))
    requires RemoveInv(s, k, start, visit, v)
    ensures r.0.max == s.max && r.0.max1 == s.max1
    decreases |s.levels| - k
  {
    var L := s.levels;
    var c := Walk(s, k, start, v);
    var visit' := if L[k][c] == v then visit + 1 else visit;
    if k + 1 < |L| then
      RemoveStep(s, k, start, visit, v);
      var x := FixLevel(L[k], L[k + 1], start, c, s.max1);
      RemoveDescend(s.(levels := L[k := x]), k + 1, Down(L[k], L[k + 1], c), visit', v)
    else if visit' == 0 then
      (s.(levels := LowerHead(L)), false)
    else if visit' == 1 then
      (s.(levels := LowerHead(L[k := DeleteAt(L[k], c)])), true)
    else
      TallHasPrevious(s, k, start, visit, v);
      (RemoveTall(s, c, v), true)
  }

  /** Unlinking v's node from the lowest level, when no higher level holds
      v, keeps the shape and the rule on every pair but the head's: v sat
      in a gap of two or more nodes, or in the head's gap. */
  lemma DeleteLowest(max: int, L: seq<seq<int>>, c: nat, v: int)
    requires Layered(max, L) && |L| >= 2 && L[0] == [max] && |L[1]| <= 4 && LowerGapsOk(L)
    requires v < max && c < |Lowest(L)| && Lowest(L)[c] == v && v !in L[|L| - 2]
    requires |L| >= 3 ==> WindowGap(max, L, |L| - 1, v) >= 2
    ensures var M := L[|L| - 1 := DeleteAt(Lowest(L), c)];
            && Layered(max, M) && M[0] == [max] && |M[1]| <= 4 && LowerGapsOk(M)
  {
    var n := |L| - 1;
    var up := L[n - 1];
    var low := L[n];
    LayeredLevel(max, L, n - 1);
    LayeredLevel(max, L, n);
    assert WithinBelow(L, n - 1);
    var x := DeleteAt(low, c);
    assert c < |low| - 1;
    DeleteAtSorted(low, c);
    DeleteAtIndex(low, c);
    assert LevelOk(max, x);
    LowerDelete(up, low, c);
    LayeredUpdate(max, L, n, x);
    assert n >= 2 ==> PairOk(up, x) by {
      if n >= 2 {
        assert PairOkBelow(L, n - 1);
        FirstGeqInside(up, v);
        LowerDeleteOk(up, low, c);
      }
    }
    LowerGapsUpdate(L, n, x);
  }

  /** A lower key no upper key repeats, taken from a gap of two or more
      nodes, leaves the pair within the 1-2-3 rule. */
  lemma LowerDeleteOk(up: seq<int>, low: seq<int>, c: nat)
    requires Pair(up, low) && PairOk(up, low) && c < |low| && low[c] !in up
    requires FirstGeq(up, low[c]) < |up| && Gap(up, low, FirstGeq(up, low[c])) >= 2
    ensures Pair(up, DeleteAt(low, c)) && PairOk(up, DeleteAt(low, c))
  {
    LowerDelete(up, low, c);
    forall j | 0 <= j < |up| ensures 1 <= Gap(up, DeleteAt(low, c), j) <= 3 {
      assert 1 <= Gap(up, low, j) <= 3;
    }
  }

  /** The levels after the `visit_num > 1` branch, read directly: the key p
      of the node before v on the lowest level replaces v on every level
      above, and v's node leaves the lowest level. */
  function Renamed(L: seq<seq<int>>, c: nat, v: int): (R: seq<seq<int>>)
    requires |L| >= 1 && 0 < c < |Lowest(L)|
    ensures |R| == |L| && Lowest(R) == DeleteAt(Lowest(L), c)
    ensures forall i :: 0 <= i < |L| - 1 ==> R[i] == Rewrite(L[i], v, Lowest(L)[c - 1])
  {
    var n := |L| - 1;
    var p := L[n][c - 1];
    seq(|L|, i requires 0 <= i < |L| => if i < n then Rewrite(L[i], v, p) else DeleteAt(L[n], c))
  }

  /** No key of the level lies in [p, v). */
  predicate Clear(s: seq<int>, p: int, v: int) {
    forall j :: 0 <= j < |s| ==> !(p <= s[j] < v)
  }

  /** The key p just before v on the lowest level sits strictly inside the
      gap the descent came through, so the level above holds nothing in
      [p, v), and neither does any level higher up. */
  lemma ClearAbove(max: int, L: seq<seq<int>>, c: nat)
    requires Layered(max, L) && |L| >= 2 && 0 < c < |Lowest(L)|
    requires var up := L[|L| - 2];
             var w := FirstGeq(up, Lowest(L)[c]);
             && w < |up| && Down(up, Lowest(L), w) < c
    ensures forall i :: 0 <= i < |L| - 1 ==> Clear(L[i], Lowest(L)[c - 1], Lowest(L)[c])
  {
    var n := |L| - 1;
    var up := L[n - 1];
    var low := L[n];
    var p := low[c - 1];
    var v := low[c];
    LayeredLevel(max, L, n - 1);
    LayeredLevel(max, L, n);
    assert WithinBelow(L, n - 1);
    WindowClear(up, low, c);
    forall i | 0 <= i < n ensures Clear(L[i], p, v) {
      forall j | 0 <= j < |L[i]| ensures !(p <= L[i][j] < v) {
        if p <= L[i][j] < v {
          WithinDown(max, L, i, n - 1, L[i][j]);
        }
      }
    }
  }

  /** The plain-level half of `ClearAbove`. */
  lemma WindowClear(up: seq<int>, low: seq<int>, c: nat)
    requires Pair(up, low) && 0 < c < |low|
    requires FirstGeq(up, low[c]) < |up| && Down(up, low, FirstGeq(up, low[c])) < c
    ensures Clear(up, low[c - 1], low[c])
    ensures low[c - 1] !in up
  {
  }

  /** The pair (up, low) after the rename and the unlink, when up held v:
      up's copy of v becomes p, which shortens the gap under it by one; the
      gap after it loses v and gains p's old position, so it keeps its size. */
  lemma LastPairRenamed(up: seq<int>, low: seq<int>, c: nat)
    requires Pair(up, low) && PairOk(up, low) && 0 < c < |low|
    requires |up| > 0 && up[|up| - 1] > low[c] && FirstGeq(up, low[c]) < |up|
    requires low[c] in up
    requires Down(up, low, FirstGeq(up, low[c])) < c
    requires Gap(up, low, FirstGeq(up, low[c])) >= 2
    ensures Pair(Rewrite(up, low[c], low[c - 1]), DeleteAt(low, c))
    ensures PairOk(Rewrite(up, low[c], low[c - 1]), DeleteAt(low, c))
  {
    var w := FirstGeq(up, low[c]);
    RenameUpper(up, low, c);
    var up' := up[w := low[c - 1]];
    LowerDelete(up', low, c);
    var low' := DeleteAt(low, c);
    assert Gap(up', low', w) == Gap(up', low, w);
    assert Gap(up', low', w + 1) == Gap(up', low, w + 1) - 1;
    ShiftedGapsOk(up, low, up', low', w);
  }

  /** Up's copy of v renamed p: it shortens the gap under it by one node and
      lengthens the next gap by one, and v is left only on the lower level. */
  lemma RenameUpper(up: seq<int>, low: seq<int>, c: nat)
    requires Pair(up, low) && 0 < c < |low|
    requires |up| > 0 && up[|up| - 1] > low[c] && FirstGeq(up, low[c]) < |up|
    requires low[c] in up
    requires Down(up, low, FirstGeq(up, low[c])) < c
    ensures var w := FirstGeq(up, low[c]);
            var up' := up[w := low[c - 1]];
            && w + 1 < |up|
            && Rewrite(up, low[c], low[c - 1]) == up'
            && Pair(up', low) && low[c] !in up' && FirstGeq(up', low[c]) == w + 1
            && Gap(up', low, w) == Gap(up, low, w) - 1
            && Gap(up', low, w + 1) == Gap(up, low, w + 1) + 1
            && (forall j :: 0 <= j < |up| && j != w && j != w + 1 ==> Gap(up', low, j) == Gap(up, low, j))
  {
    var v := low[c];
    var p := low[c - 1];
    var w := FirstGeq(up, v);
    MemberAtFirstGeq(up, v);
    WindowClear(up, low, c);
    InsideWindow(up, low, w, c - 1);
    RenameAtWalk(up, w, v, p);
    var up' := up[w := p];
    assert w + 1 < |up|;
    UpperReplace(up, low, w, p);
    NotBetween(up', w + 1, v);
    InWindow(up', w + 1, v);
    FirstGeqOfMember(low, c - 1);
    FirstGeqOfMember(low, c);
  }

  /** Gaps that stay the same, except one of two or more that loses a node,
      keep the 1-2-3 rule. */
  lemma ShiftedGapsOk(up: seq<int>, low: seq<int>, up': seq<int>, low': seq<int>, w: nat)
    requires PairOk(up, low) && |up'| == |up| && w + 1 < |up|
    requires forall j :: 0 <= j < |up| && j != w && j != w + 1 ==> Gap(up', low', j) == Gap(up, low, j)
    requires Gap(up', low', w) == Gap(up, low, w) - 1 && Gap(up, low, w) >= 2
    requires Gap(up', low', w + 1) == Gap(up, low, w + 1)
    ensures PairOk(up', low')
  {
  }

  /** The pair (up, low) after the rename and the unlink, either way. */
  lemma LastPairTall(up: seq<int>, low: seq<int>, c: nat)
    requires Pair(up, low) && PairOk(up, low) && 0 < c < |low|
    requires |up| > 0 && up[|up| - 1] > low[c] && FirstGeq(up, low[c]) < |up|
    requires Down(up, low, FirstGeq(up, low[c])) < c
    requires Gap(up, low, FirstGeq(up, low[c])) >= 2
    ensures Pair(Rewrite(up, low[c], low[c - 1]), DeleteAt(low, c))
    ensures PairOk(Rewrite(up, low[c], low[c - 1]), DeleteAt(low, c))
  {
    if low[c] in up {
      LastPairRenamed(up, low, c);
    } else {
      assert Rewrite(up, low[c], low[c - 1]) == up;
      FirstGeqInside(up, low[c]);
      LowerDeleteOk(up, low, c);
    }
  }

  /** Hypotheses of the `visit_num > 1` branch on a list whose head has
      already been lowered: every pair obeys the 1-2-3 rule, v = low[c] is
      a client key after the first node of the lowest level, and the
      descent entered the lowest level inside a gap of two or more nodes,
      before c. */
  predicate TallReady(max: int, L: seq<seq<int>>, c: nat) {
    && Layered(max, L) && GapsOk(L) && |L| >= 2
    && 0 < c < |Lowest(L)| && Lowest(L)[c] < max
    && var up := L[|L| - 2];
       var w := FirstGeq(up, Lowest(L)[c]);
       && w < |up| && Down(up, Lowest(L), w) < c && Gap(up, Lowest(L), w) >= 2
  }

  /** Every level after the rename and the unlink is well formed. */
  lemma TallLevels(max: int, L: seq<seq<int>>, c: nat)
    requires TallReady(max, L, c)
    ensures var R := Renamed(L, c, Lowest(L)[c]);
            forall i :: 0 <= i < |R| ==> LevelOkAt(max, R, i)
  {
    var n := |L| - 1;
    var low := L[n];
    var v := low[c];
    var p := low[c - 1];
    var R := Renamed(L, c, v);
    LayeredLevel(max, L, n);
    ClearAbove(max, L, c);
    assert c < |low| - 1;
    DeletedLevelOk(max, low, c);
    forall i | 0 <= i < |R| ensures LevelOkAt(max, R, i) {
      if i < n {
        LayeredLevel(max, L, i);
        RewrittenLevelOk(max, L[i], v, p);
      }
    }
  }

  /** A level with nothing in [p, v), v below `max`, stays well formed when
      v is renamed p. */
  lemma RewrittenLevelOk(max: int, s: seq<int>, v: int, p: int)
    requires LevelOk(max, s) && p < v < max && Clear(s, p, v)
    ensures LevelOk(max, Rewrite(s, v, p))
  {
  }

  /** Unlinking a node other than the last keeps a level well formed. */
  lemma DeletedLevelOk(max: int, low: seq<int>, c: nat)
    requires LevelOk(max, low) && c < |low| - 1
    ensures LevelOk(max, DeleteAt(low, c))
  {
  }

  /** Every pair after the rename and the unlink nests and obeys the 1-2-3
      rule: pairs above the last only see v renamed p, and neither holds
      anything in [p, v); the last pair is `LastPairTall`. */
  lemma TallPairs(max: int, L: seq<seq<int>>, c: nat)
    requires TallReady(max, L, c)
    ensures var R := Renamed(L, c, Lowest(L)[c]);
            forall i :: 0 <= i < |R| - 1 ==> WithinBelow(R, i) && PairOkBelow(R, i)
  {
    var n := |L| - 1;
    var up := L[n - 1];
    var low := L[n];
    var v := low[c];
    var p := low[c - 1];
    var R := Renamed(L, c, v);
    LayeredLevel(max, L, n - 1);
    LayeredLevel(max, L, n);
    ClearAbove(max, L, c);
    assert WithinBelow(L, n - 1) && PairOkBelow(L, n - 1);
    LastPairTall(up, low, c);
    forall i | 0 <= i < n - 1 ensures WithinBelow(R, i) && PairOkBelow(R, i) {
      assert WithinBelow(L, i) && PairOkBelow(L, i);
      LayeredLevel(max, L, i);
      LayeredLevel(max, L, i + 1);
      RewrittenPairOk(L[i], L[i + 1], v, p);
    }
  }

  /** A pair with nothing in [p, v) on either level keeps its gaps when v
      is renamed p on both. */
  lemma RewrittenPairOk(upper: seq<int>, lower: seq<int>, v: int, p: int)
    requires Pair(upper, lower) && PairOk(upper, lower) && p < v
    requires Clear(upper, p, v) && Clear(lower, p, v)
    ensures Within(Rewrite(upper, v, p), Rewrite(lower, v, p))
    ensures PairOk(Rewrite(upper, v, p), Rewrite(lower, v, p))
  {
    RewritePair(upper, lower, v, p);
  }

  /** The `visit_num > 1` branch keeps the class invariant on a list whose
      head has already been lowered. */
  lemma TallRenames(max: int, L: seq<seq<int>>, c: nat)
    requires TallReady(max, L, c) && L[0] == [max]
    ensures var R := Renamed(L, c, Lowest(L)[c]);
            Layered(max, R) && GapsOk(R) && R[0] == [max]
  {
    var R := Renamed(L, c, Lowest(L)[c]);
    TallLevels(max, L, c);
    TallPairs(max, L, c);
    assert R[0] == Rewrite(L[0], Lowest(L)[c], Lowest(L)[c - 1]);
    assert R[0] == [max];
  }

  /** Renaming v = low[c] to p = low[c - 1] and then unlinking index c leaves
      the level v's unlink alone would leave. */
  lemma DeleteRenamed(low: seq<int>, c: nat)
    requires Sorted(low) && 0 < c < |low|
    ensures DeleteAt(Rewrite(low, low[c], low[c - 1]), c) == DeleteAt(low, c)
  {
  }

  /** The walk-and-rename of `RemoveTall` agrees with `Renamed` read on the
      lowered list. */
  lemma TallIsRenamed(s: DSkipList, c: nat, v: int)
    requires Shape(s) && v < s.max && |s.levels| >= 2 && s.levels[0] == [s.max]
    requires |s.levels[1]| <= 4 && LowerGapsOk(s.levels)
    requires 0 < c < |Lowest(s.levels)| && Lowest(s.levels)[c] == v
    ensures RemoveTall(s, c, v).levels == Renamed(LowerHead(s.levels), c, v)
  {
    LowerHeadRestores(s.max, s.levels);
    var M := LowerHead(s.levels);
    var t := s.(levels := M);
    var p := Lowest(M)[c - 1];
    var rows := FindAndModify(t, 0, 0, v, p);
    var n := |rows| - 1;
    LayeredLevel(s.max, M, n);
    DeleteRenamed(Lowest(M), c);
    assert rows[n := DeleteAt(rows[n], c)] == Renamed(M, c, v);
  }

  /** The `visit_num > 1` branch keeps the class invariant, unlinks v's node
      from the lowest level, and lowers the list by at most one level. */
  lemma TallKeeps(s: DSkipList, k: nat, start: nat, visit: nat, v: int)
    requires RemoveInv(s, k, start, visit, v) && k + 1 == |s.levels| && visit > 0
    ensures 0 < Cursor(s, k, v) < |Lowest(s.levels)|
    ensures var r := RemoveTall(s, Cursor(s, k, v), v);
            && Inv(r)
            && Lowest(r.levels) == DeleteAt(Lowest(s.levels), FirstGeq(Lowest(s.levels), v))
            && (|r.levels| == |s.levels| || |r.levels| + 1 == |s.levels|)
  {
    var L := s.levels;
    var c := Cursor(s, k, v);
    TallHasPrevious(s, k, start, visit, v);
    LowerHeadRestores(s.max, L);
    var M := LowerHead(L);
    assert M[|M| - 2] == L[k - 1];
    assert Lowest(M) == L[k];
    assert WindowGap(s.max, L, k, v) >= 2;
    assert TallReady(s.max, M, c);
    TallRenames(s.max, M, c);
    TallIsRenamed(s, c, v);
  }

  /** The `visit_num == 1` branch: v met on the lowest level only. Unlinking
      its node and lowering the head keeps the class invariant. */
  lemma ShortKeeps(s: DSkipList, k: nat, start: nat, v: int)
    requires RemoveInv(s, k, start, 0, v) && k + 1 == |s.levels|
    requires Cursor(s, k, v) < |Lowest(s.levels)| && Lowest(s.levels)[Cursor(s, k, v)] == v
    ensures var L := s.levels;
            var M := L[k := DeleteAt(L[k], Cursor(s, k, v))];
            && |M| >= 2 && Inv(s.(levels := LowerHead(M)))
            && Lowest(LowerHead(M)) == DeleteAt(Lowest(L), Cursor(s, k, v))
            && (|LowerHead(M)| == |L| || |LowerHead(M)| + 1 == |L|)
  {
    var L := s.levels;
    var c := Cursor(s, k, v);
    DeleteLowest(s.max, L, c, v);
    var M := L[k := DeleteAt(L[k], c)];
    LowerHeadRestores(s.max, M);
  }

  /** The `visit_num == 0` branch: v is absent; lowering the head keeps the
      class invariant and the lowest level. */
  lemma MissKeeps(s: DSkipList, k: nat, start: nat, visit: nat, v: int)
    requires RemoveInv(s, k, start, visit, v)
    ensures var L := LowerHead(s.levels);
            && Inv(s.(levels := L)) && Lowest(L) == Lowest(s.levels)
            && (|L| == |s.levels| || |L| + 1 == |s.levels|)
  {
    LowerHeadRestores(s.max, s.levels);
  }

  /** The lowest level without v: v's node unlinked when it has one. */
  function Unlinked(low: seq<int>, v: int): (r: seq<int>)
    requires Sorted(low)
    ensures Sorted(r)
    ensures forall x :: x in r <==> x in low && x != v
  {
    MemberAtFirstGeq(low, v);
    if v in low then
      DeleteAtSorted(low, FirstGeq(low, v));
      DeleteAtMembers(low, FirstGeq(low, v));
      DeleteAt(low, FirstGeq(low, v))
    else
      low
  }

  /** What a removal pass promises: the class invariant, the report of
      whether v was held, exactly v's node gone from the lowest level, and
      at most one level fewer. */
  predicate Removed(s: DSkipList, r: (DSkipList, bool), v: int)
    requires Shape(s)
  {
    LayeredLevel(s.max, s.levels, |s.levels| - 1);
    && Inv(r.0)
    && (r.1 <==> v in Lowest(s.levels))
    && Lowest(r.0.levels) == Unlinked(Lowest(s.levels), v)
    && (|r.0.levels| == |s.levels| || |r.0.levels| + 1 == |s.levels|)
  }

  /** The descent's last level: each of the three branches keeps the promise. */
  lemma LowestKeeps(s: DSkipList, k: nat, start: nat, visit: nat, v: int)
    requires RemoveInv(s, k, start, visit, v) && k + 1 == |s.levels|
    ensures Removed(s, RemoveDescend(s, k, start, visit, v), v)
  {
    if visit > 0 {
      LowestTall(s, k, start, visit, v);
    } else {
      LowestShort(s, k, start, v);
    }
  }

  /** The lowest level when v was met higher up. */
  lemma LowestTall(s: DSkipList, k: nat, start: nat, visit: nat, v: int)
    requires RemoveInv(s, k, start, visit, v) && k + 1 == |s.levels| && visit > 0
    ensures Removed(s, RemoveDescend(s, k, start, visit, v), v)
  {
    var L := s.levels;
    LayeredLevel(s.max, L, k);
    MemberAtFirstGeq(L[k], v);
    TallHasPrevious(s, k, start, visit, v);
    TallKeeps(s, k, start, visit, v);
  }

  /** The lowest level when v was met nowhere higher up. */
  lemma LowestShort(s: DSkipList, k: nat, start: nat, v: int)
    requires RemoveInv(s, k, start, 0, v) && k + 1 == |s.levels|
    ensures Removed(s, RemoveDescend(s, k, start, 0, v), v)
  {
    var L := s.levels;
    var c := Walk(s, k, start, v);
    LayeredLevel(s.max, L, k);
    MemberAtFirstGeq(L[k], v);
    if L[k][c] == v {
      ShortKeeps(s, k, start, v);
    } else {
      MissKeeps(s, k, start, 0, v);
    }
  }

  /** The descent from any state meeting `RemoveInv` keeps the promise. */
  lemma {:induction false} RemoveDescendKeeps(s: DSkipList, k: nat, start: nat, visit: nat, v: int)
    requires RemoveInv(s, k, start, visit, v)
    ensures Removed(s, RemoveDescend(s, k, start, visit, v), v)
    decreases |s.levels| - k
  {
    var L := s.levels;
    var c := Walk(s, k, start, v);
    var visit' := if L[k][c] == v then visit + 1 else visit;
    if k + 1 < |L| {
      RemoveStep(s, k, start, visit, v);
      var x := FixLevel(L[k], L[k + 1], start, c, s.max1);
      UpdateKeepsLowest(L, k, x);
      RemoveDescendKeeps(s.(levels := L[k := x]), k + 1, Down(L[k], L[k + 1], c), visit', v);
    } else {
      LowestKeeps(s, k, start, visit, v);
    }
  }

  // ---------------------------------------------------------------------
  // When the height drops

  /** Two keys on the level above a level that ends in the second one: the
      two gaps and the two copies account for every node of the lower level. */
  lemma TwoGapsFill(max: int, up: seq<int>, low: seq<int>)
    requires Pair(up, low) && |up| == 2 && LevelOk(max, up) && LevelOk(max, low)
    ensures Gap(up, low, 0) + Gap(up, low, 1) + 2 == |low|
  {
    CopyIndex(up, low, 0);
    CopyIndex(up, low, 1);
    FirstGeqOfMember(low, |low| - 1);
  }

  /** The repair step on the level under the head, entered at its first
      node, leaves `max` alone on that level exactly when the level held one
      key besides `max` over a level of four nodes: both gaps then hold one
      node, and the step merges them. */
  lemma HeadLevelMerges(max: int, max1: int, up: seq<int>, low: seq<int>, v: int)
    requires LevelOk(max, up) && LevelOk(max, low) && max < max1 && v < max
    requires Pair(up, low) && PairOk(up, low) && |up| >= 2
    ensures FirstGeq(up, v) < |up|
    ensures |FixLevel(up, low, 0, FirstGeq(up, v), max1)| == 1 <==> |up| == 2 && |low| == 4
  {
    var c := FirstGeq(up, v);
    FirstGeqInside(up, v);
    if |up| == 2 {
      TwoGapsFill(max, up, low);
      assert 1 <= Gap(up, low, 0) && 1 <= Gap(up, low, 1);
    }
    assert 1 <= Gap(up, low, c) <= 3;
    if Gap(up, low, c) >= 2 {
      FixNone(max, up, low, 0, c, max1);
    } else if c == 0 {
      FixNext(max, up, low, c, max1);
      assert 1 <= Gap(up, low, 1);
      DeleteAtIndex(up, c);
    } else {
      FixPrev(max, up, low, 0, c, max1);
      assert 1 <= Gap(up, low, c - 1);
      DeleteAtIndex(up, c - 1);
    }
  }

  /** Below the level under the head the descent leaves that level alone,
      so the list loses a level exactly when lowering the head of the list
      as the descent found it would drop one. */
  lemma {:induction false} DescendHeight(s: DSkipList, k: nat, start: nat, visit: nat, v: int)
    requires RemoveInv(s, k, start, visit, v) && k >= 2
    ensures |RemoveDescend(s, k, start, visit, v).0.levels| == |LowerHead(s.levels)|
    decreases |s.levels| - k
  {
    var L := s.levels;
    var c := Walk(s, k, start, v);
    var visit' := if L[k][c] == v then visit + 1 else visit;
    if k + 1 < |L| {
      RemoveStep(s, k, start, visit, v);
      var x := FixLevel(L[k], L[k + 1], start, c, s.max1);
      var d := Down(L[k], L[k + 1], c);
      DescendHeight(s.(levels := L[k := x]), k + 1, d, visit', v);
      assert RemoveDescend(s, k, start, visit, v)
               == RemoveDescend(s.(levels := L[k := x]), k + 1, d, visit', v);
      assert L[k := x][1] == L[1];
    } else {
      LowestHeight(s, k, start, visit, v);
    }
  }

  /** The descent's last level, below the level under the head: each of
      the three branches loses a level exactly when lowering the head would. */
  lemma LowestHeight(s: DSkipList, k: nat, start: nat, visit: nat, v: int)
    requires RemoveInv(s, k, start, visit, v) && k >= 2 && k + 1 == |s.levels|
    ensures |RemoveDescend(s, k, start, visit, v).0.levels| == |LowerHead(s.levels)|
  {
  }

  /** On a list of height one the level goes exactly when v was its only
      element. */
  lemma SingleLevelHeight(s: DSkipList, v: int)
    requires Inv(s) && v < s.max && |s.levels| == 2 && RemoveInv(s, 1, 0, 0, v)
    ensures |RemoveDescend(s, 1, 0, 0, v).0.levels| == 1 <==> Elements(s) == {v}
  {
    var L := s.levels;
    var low := L[1];
    LayeredLevel(s.max, L, 1);
    HeadGap(s);
    assert PairOkBelow(L, 0);
    assert |low| >= 2;
    var c := FirstGeq(low, v);
    MemberAtFirstGeq(low, v);
    FirstGeqInside(low, v);
    if low[c] == v {
      DeleteAtIndex(low, c);
      assert RemoveDescend(s, 1, 0, 0, v) == (s.(levels := LowerHead(L[1 := DeleteAt(low, c)])), true);
    } else {
      assert RemoveDescend(s, 1, 0, 0, v) == (s.(levels := LowerHead(L)), false);
    }
    OnlyElement(s, v);
  }

  /** A list of height one holds v alone exactly when its lowest level is
      v followed by `max`. */
  lemma OnlyElement(s: DSkipList, v: int)
    requires Shape(s) && |s.levels| == 2 && v < s.max
    ensures Elements(s) == {v} <==> v in s.levels[1] && |s.levels[1]| == 2
  {
    var low := s.levels[1];
    LayeredLevel(s.max, s.levels, 1);
    if |low| > 2 {
      assert low[1] < low[|low| - 1];
      assert low[0] in Elements(s) && low[1] in Elements(s) && low[0] != low[1];
    } else if |low| == 2 {
      assert low[0] < low[1] == s.max;
      assert Elements(s) == {low[0]};
    }
  }

  /** The list loses a level exactly when v was the only element of a list
      of height one, or when the level under the head holds one key besides
      `max` over a level of four nodes; in that case the two gaps of one under
      it merge and the level is dropped whether v is present or not. */
  lemma RemoveHeight(s: DSkipList, v: int)
    requires Inv(s) && v < s.max && |s.levels| >= 2 && RemoveInv(s, 1, 0, 0, v)
    ensures |RemoveDescend(s, 1, 0, 0, v).0.levels| + 1 == |s.levels| <==>
              || (|s.levels| == 2 && Elements(s) == {v})
              || (|s.levels| >= 3 && |s.levels[1]| == 2 && |s.levels[2]| == 4)
  {
    if |s.levels| == 2 {
      SingleLevelHeight(s, v);
    } else {
      var L := s.levels;
      LayeredLevel(s.max, L, 1);
      LayeredLevel(s.max, L, 2);
      HeadGap(s);
      assert PairOkBelow(L, 0) && WithinBelow(L, 1) && PairOkBelow(L, 1);
      HeadLevelMerges(s.max, s.max1, L[1], L[2], v);
      StackedHeight(s, v);
    }
  }

  /** On a list of height two or more the level under the head is repaired
      first, and the list then loses a level exactly when that repair left
      `max` alone on it. */
  lemma StackedHeight(s: DSkipList, v: int)
    requires RemoveInv(s, 1, 0, 0, v) && |s.levels| >= 3
    ensures FirstGeq(s.levels[1], v) < |s.levels[1]|
    ensures FirstGeq(s.levels[1], v) == 0 ==> 1 < |s.levels[1]|
    ensures |RemoveDescend(s, 1, 0, 0, v).0.levels| + 1 == |s.levels| <==>
              |FixLevel(s.levels[1], s.levels[2], 0, FirstGeq(s.levels[1], v), s.max1)| == 1
  {
    var L := s.levels;
    var c := FirstGeq(L[1], v);
    RemoveStep(s, 1, 0, 0, v);
    var x := FixLevel(L[1], L[2], 0, c, s.max1);
    var d := Down(L[1], L[2], c);
    var visit' := if L[1][c] == v then 1 else 0;
    var t := s.(levels := L[1 := x]);
    assert RemoveDescend(s, 1, 0, 0, v) == RemoveDescend(t, 2, d, visit', v);
    DescendHeight(t, 2, d, visit', v);
  }

  /** `Remove`: an empty list (the head's down link is `bottom`) reports
      false at once; otherwise the pass descends from the level under the
      head, having met v on no level yet. The result keeps the class
      invariant, reports whether v was an element, holds every element but
      v, and has the same height or one less. */
  function Remove(s: DSkipList, v: int): (r: (DSkipList, bool))
    requires Inv(s) && v < s.max
    ensures Inv(r.0) && r.0.max == s.max && r.0.max1 == s.max1
    ensures r.1 <==> v in Elements(s)
    ensures Elements(r.0) == Elements(s) - {v}
    ensures Height(r.0) == Height(s) || Height(r.0) + 1 == Height(s)
    ensures Height(r.0) + 1 == Height(s) <==>
              || (Height(s) == 1 && Elements(s) == {v})
              || (Height(s) >= 2 && |s.levels[1]| == 2 && |s.levels[2]| == 4)
  {
    var L := s.levels;
    if |L| == 1 then
      assert Lowest(L) == [s.max];
      (s, false)
    else
      HeadGap(s);
      LayeredLevel(s.max, L, 1);
      FirstGeqOfMember(L[1], |L[1]| - 1);
      assert PairOkBelow(L, 0);
      assert RemoveInv(s, 1, 0, 0, v);
      RemoveDescendKeeps(s, 1, 0, 0, v);
      RemoveHeight(s, v);
      var r := RemoveDescend(s, 1, 0, 0, v);
      LayeredLevel(s.max, L, |L| - 1);
      ElementsRemove(s, r.0, v);
      r
  }
}
