/** `IsValid`: a read-only walk that counts every gap of every level above
    the lowest one and checks it against the 1-2-3 rule. */
module Validity {
  import opened SortedSeq
  import opened Layout

  /** The innermost loop of `IsValid`: from the node `upper[j]`'s down link
      designates, step right until the key repeats `upper[j]`, counting the
      nodes passed. On a nested pair the count is the gap under `upper[j]`. */
  method GapSize(upper: seq<int>, lower: seq<int>, j: nat) returns (n: nat)
    requires Sorted(upper) && Sorted(lower) && Within(upper, lower) && j < |upper|
    ensures n == Gap(upper, lower, j)
  {
    var copy := FirstGeq(lower, upper[j]);
    CopyIndex(upper, lower, j);
    FirstGeqSorted(lower, upper[j]);
    var t := Down(upper, lower, j);
    if j > 0 {
      Monotone(lower, upper[j - 1], upper[j]);
    }
    n := 0;
    while lower[t] != upper[j]
      invariant Down(upper, lower, j) <= t <= copy
      invariant n == t - Down(upper, lower, j)
      decreases copy - t
    {
      n := n + 1;
      t := t + 1;
    }
  }

  /** `IsValid`: every level but the lowest, every node of it up to the tail,
      its gap between one and three. On a layered list it answers exactly
      whether the 1-2-3 rule holds. */
  method IsValid(s: DSkipList) returns (ok: bool)
    requires Shape(s)
    ensures ok <==> GapsOk(s.levels)
  {
    var L := s.levels;
    var k := 0;
    while k + 1 < |L|
      invariant 0 <= k < |L|
      invariant forall i :: 0 <= i < k ==> PairOkBelow(L, i)
    {
      LayeredLevel(s.max, L, k);
      LayeredLevel(s.max, L, k + 1);
      assert WithinBelow(L, k);
      var up := L[k];
      var low := L[k + 1];
      var j := 0;
      while j < |up|
        invariant 0 <= j <= |up|
        invariant forall i :: 0 <= i < j ==> 1 <= Gap(up, low, i) <= 3
      {
        var gap := GapSize(up, low, j);
        if gap < 1 || gap > 3 {
          assert !PairOkBelow(L, k);
          return false;
        }
        j := j + 1;
      }
      assert PairOkBelow(L, k);
      k := k + 1;
    }
    return true;
  }
}
