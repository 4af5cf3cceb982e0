/** Strictly increasing integer sequences: one level of the skip list read
    left to right. Positions are node indices; index |s| stands for the
    `tail` sentinel that ends every level. */
module SortedSeq {

  predicate Sorted(s: seq<int>) {
    forall i, j :: 0 <= i < j < |s| ==> s[i] < s[j]
  }

  /** Index of the first element that is >= x, or |s| when there is none.
      That every earlier element is < x is `FirstGeqBelow`. */
  function FirstGeq(s: seq<int>, x: int): (r: nat)
    ensures r <= |s|
    ensures r < |s| ==> s[r] >= x
  {
    Advance(s, 0, x)
  }

  /** Index of the first element that is > x, or |s| when there is none.
      That every earlier element is <= x is `FirstGtBelow`. */
  function FirstGt(s: seq<int>, x: int): (r: nat)
    ensures r <= |s|
    ensures r < |s| ==> s[r] > x
  {
    SkipNotAbove(s, 0, x)
  }

  /** The key found at index i, where every index past the end is the
      self-looped `tail` node whose key is `tailKey`. */
  function KeyAt(s: seq<int>, i: nat, tailKey: int): int {
    if i < |s| then s[i] else tailKey
  }

  /** The rightward walk `while (value > current->key) current = current->right;`
      started at index i. The walk halts at the tail, whose key exceeds every
      client key, so the result is at most |s|. */
  function Advance(s: seq<int>, i: nat, x: int): (r: nat)
    requires i <= |s|
    ensures i <= r <= |s|
    ensures r < |s| ==> s[r] >= x
    decreases |s| - i
  {
    if i < |s| && x > s[i] then Advance(s, i + 1, x) else i
  }

  /** From index i, the index of the first element that is > x, or |s|. */
  function SkipNotAbove(s: seq<int>, i: nat, x: int): (r: nat)
    requires i <= |s|
    ensures i <= r <= |s|
    ensures r < |s| ==> s[r] > x
    decreases |s| - i
  {
    if i < |s| && s[i] <= x then SkipNotAbove(s, i + 1, x) else i
  }

  /** The walk passes only elements smaller than x. */
  lemma {:induction false} AdvanceBelow(s: seq<int>, i: nat, x: int)
    requires i <= |s|
    ensures forall j :: i <= j < Advance(s, i, x) ==> s[j] < x
    decreases |s| - i
  {
    if i < |s| && x > s[i] { AdvanceBelow(s, i + 1, x); }
  }

  lemma {:induction false} SkipNotAboveBelow(s: seq<int>, i: nat, x: int)
    requires i <= |s|
    ensures forall j :: i <= j < SkipNotAbove(s, i, x) ==> s[j] <= x
    decreases |s| - i
  {
    if i < |s| && s[i] <= x { SkipNotAboveBelow(s, i + 1, x); }
  }

  lemma FirstGeqBelow(s: seq<int>, x: int)
    ensures forall j :: 0 <= j < FirstGeq(s, x) ==> s[j] < x
  {
    AdvanceBelow(s, 0, x);
  }

  lemma FirstGtBelow(s: seq<int>, x: int)
    ensures forall j :: 0 <= j < FirstGt(s, x) ==> s[j] <= x
  {
    SkipNotAboveBelow(s, 0, x);
  }

  /** A sequence with y placed at index i (everything from i on moves right). */
  function InsertAt(s: seq<int>, i: nat, y: int): (r: seq<int>)
    requires i <= |s|
  {
    seq(|s| + 1, j requires 0 <= j <= |s| => if j < i then s[j] else if j == i then y else s[j - 1])
  }

  /** A sequence without its element at index i. */
  function DeleteAt(s: seq<int>, i: nat): (r: seq<int>)
    requires i < |s|
  {
    seq(|s| - 1, j requires 0 <= j < |s| - 1 => if j < i then s[j] else s[j + 1])
  }

  /** The sequence with every occurrence of v replaced by p. */
  function Rewrite(s: seq<int>, v: int, p: int): (r: seq<int>)
    ensures |r| == |s|
    ensures forall j :: 0 <= j < |s| ==> r[j] == (if s[j] == v then p else s[j])
  {
    seq(|s|, j requires 0 <= j < |s| => if s[j] == v then p else s[j])
  }

  // ---------------------------------------------------------------------
  // Characterisations

  lemma FirstGeqIs(s: seq<int>, x: int, i: nat)
    requires i <= |s|
    requires forall j :: 0 <= j < i ==> s[j] < x
    requires i < |s| ==> s[i] >= x
    ensures FirstGeq(s, x) == i
  {
    FirstGeqBelow(s, x);
  }

  lemma FirstGtIs(s: seq<int>, x: int, i: nat)
    requires i <= |s|
    requires forall j :: 0 <= j < i ==> s[j] <= x
    requires i < |s| ==> s[i] > x
    ensures FirstGt(s, x) == i
  {
    FirstGtBelow(s, x);
  }

  /** A sequence that ends in a key >= x has its first such key inside it. */
  lemma FirstGeqInside(s: seq<int>, x: int)
    requires |s| > 0 && x <= s[|s| - 1]
    ensures FirstGeq(s, x) < |s|
  {
    FirstGeqBelow(s, x);
  }

  /** In a sorted sequence everything from FirstGeq on is >= x. */
  lemma FirstGeqSorted(s: seq<int>, x: int)
    requires Sorted(s)
    ensures forall j :: 0 <= j < FirstGeq(s, x) ==> s[j] < x
    ensures forall j :: FirstGeq(s, x) <= j < |s| ==> s[j] >= x
  {
    FirstGeqBelow(s, x);
    var r := FirstGeq(s, x);
    forall j | r <= j < |s| ensures s[j] >= x {
      if r < j { assert s[r] < s[j]; }
    }
  }

  lemma FirstGtSorted(s: seq<int>, x: int)
    requires Sorted(s)
    ensures forall j :: 0 <= j < FirstGt(s, x) ==> s[j] <= x
    ensures forall j :: FirstGt(s, x) <= j < |s| ==> s[j] > x
  {
    FirstGtBelow(s, x);
    var r := FirstGt(s, x);
    forall j | r <= j < |s| ensures s[j] > x {
      if r < j { assert s[r] < s[j]; }
    }
  }

  /** The position of an element that is present. */
  lemma FirstGeqOfMember(s: seq<int>, i: nat)
    requires Sorted(s) && i < |s|
    ensures FirstGeq(s, s[i]) == i
    ensures FirstGt(s, s[i]) == i + 1
  {
    FirstGeqIs(s, s[i], i);
    FirstGtIs(s, s[i], i + 1);
  }

  /** x is present exactly when the walk stops on it. */
  lemma MemberAtFirstGeq(s: seq<int>, x: int)
    requires Sorted(s)
    ensures x in s <==> FirstGeq(s, x) < |s| && s[FirstGeq(s, x)] == x
  {
    if x in s {
      var i :| 0 <= i < |s| && s[i] == x;
      FirstGeqOfMember(s, i);
    }
  }

  lemma FirstGtOfPresent(s: seq<int>, x: int)
    requires Sorted(s) && x in s
    ensures FirstGt(s, x) == FirstGeq(s, x) + 1
  {
    var i :| 0 <= i < |s| && s[i] == x;
    FirstGeqOfMember(s, i);
  }

  lemma FirstGtOfAbsent(s: seq<int>, x: int)
    requires Sorted(s) && x !in s
    ensures FirstGt(s, x) == FirstGeq(s, x)
  {
    var r := FirstGeq(s, x);
    FirstGeqSorted(s, x);
    if r < |s| { assert s[r] != x; }
    FirstGtIs(s, x, r);
  }

  /** Both searches are monotone in the sought key. */
  lemma Monotone(s: seq<int>, x: int, y: int)
    requires Sorted(s) && x <= y
    ensures FirstGeq(s, x) <= FirstGeq(s, y)
    ensures FirstGt(s, x) <= FirstGt(s, y)
    ensures x < y ==> FirstGt(s, x) <= FirstGeq(s, y)
  {
    FirstGeqSorted(s, x);
    FirstGtSorted(s, x);
  }

  /** Started no later than the first element >= x, the walk stops exactly there. */
  lemma AdvanceFindsFirstGeq(s: seq<int>, i: nat, x: int)
    requires Sorted(s) && i <= FirstGeq(s, x)
    ensures Advance(s, i, x) == FirstGeq(s, x)
  {
    FirstGeqBelow(s, x);
    AdvanceBelow(s, i, x);
    FirstGeqIs(s, x, Advance(s, i, x));
  }

  // ---------------------------------------------------------------------
  // Edits

  lemma InsertAtIndex(s: seq<int>, i: nat, y: int)
    requires i <= |s|
    ensures |InsertAt(s, i, y)| == |s| + 1
    ensures forall j :: 0 <= j < i ==> InsertAt(s, i, y)[j] == s[j]
    ensures InsertAt(s, i, y)[i] == y
    ensures forall j :: i < j <= |s| ==> InsertAt(s, i, y)[j] == s[j - 1]
  {
  }

  lemma DeleteAtIndex(s: seq<int>, i: nat)
    requires i < |s|
    ensures |DeleteAt(s, i)| == |s| - 1
    ensures forall j :: 0 <= j < i ==> DeleteAt(s, i)[j] == s[j]
    ensures forall j :: i <= j < |s| - 1 ==> DeleteAt(s, i)[j] == s[j + 1]
  {
  }

  lemma InsertAtSorted(s: seq<int>, i: nat, y: int)
    requires Sorted(s) && i <= |s|
    requires i > 0 ==> s[i - 1] < y
    requires i < |s| ==> y < s[i]
    ensures Sorted(InsertAt(s, i, y))
  {
  }

  lemma InsertAtFirstGeq(s: seq<int>, i: nat, y: int, x: int)
    requires Sorted(s) && i <= |s|
    requires i > 0 ==> s[i - 1] < y
    requires i < |s| ==> y < s[i]
    ensures FirstGeq(InsertAt(s, i, y), x) == FirstGeq(s, x) + (if y < x then 1 else 0)
  {
    var t := InsertAt(s, i, y);
    InsertAtIndex(s, i, y);
    FirstGeqSorted(s, x);
    var r := FirstGeq(s, x);
    if y < x {
      FirstGeqIs(t, x, r + 1);
    } else {
      FirstGeqIs(t, x, r);
    }
  }

  lemma InsertAtFirstGt(s: seq<int>, i: nat, y: int, x: int)
    requires Sorted(s) && i <= |s|
    requires i > 0 ==> s[i - 1] < y
    requires i < |s| ==> y < s[i]
    ensures FirstGt(InsertAt(s, i, y), x) == FirstGt(s, x) + (if y <= x then 1 else 0)
  {
    var t := InsertAt(s, i, y);
    InsertAtIndex(s, i, y);
    FirstGtSorted(s, x);
    var g := FirstGt(s, x);
    if y <= x {
      FirstGtIs(t, x, g + 1);
    } else {
      FirstGtIs(t, x, g);
    }
  }

  lemma DeleteAtSorted(s: seq<int>, i: nat)
    requires Sorted(s) && i < |s|
    ensures Sorted(DeleteAt(s, i))
  {
  }

  lemma DeleteAtFirstGeq(s: seq<int>, i: nat, x: int)
    requires Sorted(s) && i < |s|
    ensures FirstGeq(DeleteAt(s, i), x) == FirstGeq(s, x) - (if s[i] < x then 1 else 0)
  {
    var t := DeleteAt(s, i);
    DeleteAtIndex(s, i);
    FirstGeqSorted(s, x);
    var r := FirstGeq(s, x);
    if s[i] < x {
      FirstGeqIs(t, x, r - 1);
    } else {
      FirstGeqIs(t, x, r);
    }
  }

  lemma DeleteAtFirstGt(s: seq<int>, i: nat, x: int)
    requires Sorted(s) && i < |s|
    ensures FirstGt(DeleteAt(s, i), x) == FirstGt(s, x) - (if s[i] <= x then 1 else 0)
  {
    var t := DeleteAt(s, i);
    DeleteAtIndex(s, i);
    FirstGtSorted(s, x);
    var g := FirstGt(s, x);
    if s[i] <= x {
      FirstGtIs(t, x, g - 1);
    } else {
      FirstGtIs(t, x, g);
    }
  }

  /** Overwriting one key is deleting it and inserting the new one in its place. */
  lemma ReplaceIsDeleteInsert(s: seq<int>, i: nat, y: int)
    requires i < |s|
    ensures s[i := y] == InsertAt(DeleteAt(s, i), i, y)
  {
  }

  lemma ReplaceSorted(s: seq<int>, i: nat, y: int)
    requires Sorted(s) && i < |s|
    requires i > 0 ==> s[i - 1] < y
    requires i + 1 < |s| ==> y < s[i + 1]
    ensures Sorted(s[i := y])
  {
  }

  lemma ReplaceFirstGeq(s: seq<int>, i: nat, y: int, x: int)
    requires Sorted(s) && i < |s|
    requires i > 0 ==> s[i - 1] < y
    requires i + 1 < |s| ==> y < s[i + 1]
    ensures FirstGeq(s[i := y], x)
              == FirstGeq(s, x) - (if s[i] < x then 1 else 0) + (if y < x then 1 else 0)
  {
    var d := DeleteAt(s, i);
    DeleteAtSorted(s, i);
    DeleteAtFirstGeq(s, i, x);
    DeleteAtIndex(s, i);
    ReplaceIsDeleteInsert(s, i, y);
    InsertAtFirstGeq(d, i, y, x);
  }

  lemma ReplaceFirstGt(s: seq<int>, i: nat, y: int, x: int)
    requires Sorted(s) && i < |s|
    requires i > 0 ==> s[i - 1] < y
    requires i + 1 < |s| ==> y < s[i + 1]
    ensures FirstGt(s[i := y], x)
              == FirstGt(s, x) - (if s[i] <= x then 1 else 0) + (if y <= x then 1 else 0)
  {
    var d := DeleteAt(s, i);
    DeleteAtSorted(s, i);
    DeleteAtFirstGt(s, i, x);
    DeleteAtIndex(s, i);
    ReplaceIsDeleteInsert(s, i, y);
    InsertAtFirstGt(d, i, y, x);
  }

  /** The keys of a sequence after an insertion: the old ones and the new one. */
  lemma InsertAtMembers(s: seq<int>, i: nat, y: int)
    requires i <= |s|
    ensures forall x :: x in InsertAt(s, i, y) <==> x in s || x == y
  {
    var t := InsertAt(s, i, y);
    InsertAtIndex(s, i, y);
    forall x | x in t ensures x in s || x == y {
      var a :| 0 <= a < |t| && t[a] == x;
      if a < i { assert x == s[a]; } else if a > i { assert x == s[a - 1]; }
    }
    forall x | x in s || x == y ensures x in t {
      if x == y {
        assert t[i] == x;
      } else {
        var a :| 0 <= a < |s| && s[a] == x;
        if a < i { assert t[a] == x; } else { assert t[a + 1] == x; }
      }
    }
  }

  /** The keys of a sorted sequence after a deletion: all but the deleted one. */
  lemma DeleteAtMembers(s: seq<int>, i: nat)
    requires Sorted(s) && i < |s|
    ensures forall x :: x in DeleteAt(s, i) <==> x in s && x != s[i]
  {
    var t := DeleteAt(s, i);
    DeleteAtIndex(s, i);
    forall x | x in t ensures x in s && x != s[i] {
      var a :| 0 <= a < |t| && t[a] == x;
      if a < i { assert x == s[a]; } else { assert x == s[a + 1]; }
    }
    forall x | x in s && x != s[i] ensures x in t {
      var a :| 0 <= a < |s| && s[a] == x;
      if a < i { assert t[a] == x; } else { assert t[a - 1] == x; }
    }
  }
}
