/** The connectivity matrix of googlemock's unordered matchers, and matchings of the graph it describes. */
module MatchMatrix {
  import opened Matchings

  class Matrix {
    const numElements: nat
    const numMatchers: nat
    var matched: seq<bool>

    ghost predicate Valid()
      reads this
    { |matched| == numElements * numMatchers }

    constructor (numElements: nat, numMatchers: nat)
      ensures Valid() && this.numElements == numElements && this.numMatchers == numMatchers
      ensures Edges() == {}
    {
      this.numElements, this.numMatchers := numElements, numMatchers;
      matched := seq(numElements * numMatchers, _ => false);
      new;
      forall l, r | InRange(l, r) ensures !HasEdge(l, r) {}
    }

    predicate InRange(l: int, r: int) { 0 <= l < numElements && 0 <= r < numMatchers }

    function SpaceIndex(l: int, r: int): (i: int)
      requires InRange(l, r)
      ensures 0 <= i < numElements * numMatchers
    {
      assert l * numMatchers + r < (l + 1) * numMatchers <= numElements * numMatchers;
      l * numMatchers + r
    }

    lemma RowsApart(l: int, l': int)
      ensures l < l' ==> l * numMatchers + numMatchers <= l' * numMatchers
    {
      if l < l' { assert (l + 1) * numMatchers <= l' * numMatchers; }
    }

    /** Distinct cells of the matrix have distinct positions in the flattened vector. */
    lemma SpaceIndexInjective(l: int, r: int, l': int, r': int)
      requires InRange(l, r) && InRange(l', r') && SpaceIndex(l, r) == SpaceIndex(l', r')
      ensures l == l' && r == r'
    {
      RowsApart(l, l');
      RowsApart(l', l);
    }

    predicate HasEdge(l: int, r: int)
      requires Valid() && InRange(l, r)
      reads this
    { matched[SpaceIndex(l, r)] }

    /** The graph that the matrix describes. */
    ghost function Edges(): Pairs
      requires Valid()
      reads this
    {
      set l, r | 0 <= l < numElements && 0 <= r < numMatchers && HasEdge(l, r) :: (l, r)
    }

    method SetEdge(l: int, r: int, b: bool)
      requires Valid() && InRange(l, r)
      modifies this
      ensures Valid()
      ensures Edges() == if b then old(Edges()) + {(l, r)} else old(Edges()) - {(l, r)}
    {
      matched := matched[SpaceIndex(l, r) := b];
      forall l', r' | InRange(l', r')
        ensures HasEdge(l', r') == if l' == l && r' == r then b else old(HasEdge(l', r'))
      {
        if SpaceIndex(l', r') == SpaceIndex(l, r) { SpaceIndexInjective(l, r, l', r'); }
      }
    }
  }
}
