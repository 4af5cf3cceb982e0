/** `Search` and `SearchHelp`: a read-only descent from `head`. */
module Search {
  import opened SortedSeq
  import opened Layout

  /** The descent loop of `SearchHelp` from level k, entered at index `start`.
      On each level the cursor walks right while the sought key is larger,
      then follows the derived down link; on the lowest level it reports the
      node when its key is the sought one, and `bottom` otherwise. */
  function Descend(s: DSkipList, k: nat, start: nat, v: int): (r: NodeRef)
    requires Shape(s) && v < s.max && k < |s.levels|
    requires start <= |s.levels[k]|
    requires forall j :: 0 <= j < start ==> s.levels[k][j] < v
    ensures r == Bottom <==> v !in Lowest(s.levels)
    ensures r != Bottom ==>
              r.level == |s.levels| - 1 && r.index < |Lowest(s.levels)|
              && Lowest(s.levels)[r.index] == v
    decreases |s.levels| - k
  {
    var L := s.levels;
    var c := Walk(s, k, start, v);
    LayeredLevel(s.max, L, k);
    if k == |L| - 1 then
      MemberAtFirstGeq(L[k], v);
      if L[k][c] == v then Node(k, c) else Bottom
    else
      EntryBelow(L[k], L[k + 1], c, v);
      Descend(s, k + 1, Down(L[k], L[k + 1], c), v)
  }

  /** `SearchHelp`: the lowest-level node holding v, or `bottom`. */
  function SearchHelp(s: DSkipList, v: int): (r: NodeRef)
    requires Shape(s) && v < s.max
    ensures r == Bottom <==> v !in Elements(s)
    ensures r != Bottom ==>
              r.level == |s.levels| - 1 && r.index < |Lowest(s.levels)|
              && Lowest(s.levels)[r.index] == v
  {
    Descend(s, 0, 0, v)
  }

  /** `Search`: whether some lowest-level node holds v. */
  function Search(s: DSkipList, v: int): (r: bool)
    requires Shape(s) && v < s.max
    ensures r <==> v in Elements(s)
  {
    SearchHelp(s, v) != Bottom
  }
}
