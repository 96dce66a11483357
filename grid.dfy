/** The adaptive grid that sits beside the archive's list and estimates crowding. Its cell tree
    (splitting, redistribution, the crowding traversals and the density comparison) is not part
    of this model: the grid is described by the multiset of candidates it holds, and each query
    may return any answer within the contract the archive relies on. */
module Grid {
  import opened Wrappers
  import opened Dominance

  /** A region of the grid: its bounding box and the members it holds, in insertion order. */
  datatype Location = Location(lower: seq<real>, upper: seq<real>, members: seq<Chromosome>)
  {
    /** The point lies in the region's box. */
    predicate IsInBounds(point: seq<real>): (r: bool)
      ensures r ==> |point| == |lower| == |upper|
      ensures r ==> forall i :: 0 <= i < |point| ==> lower[i] <= upper[i]
    {
      && |point| == |lower| == |upper|
      && forall i :: 0 <= i < |point| ==> lower[i] <= point[i] <= upper[i]
    }

    /** The number of candidates the region holds. */
    function Count(): (n: nat)
      ensures n == 0 <==> members == []
    {
      |members|
    }
  }

  /** Deleting the elements of `a` and then `x` deletes the elements of `a + [x]`. */
  lemma MinusSnoc(m: multiset<Chromosome>, a: seq<Chromosome>, x: Chromosome)
    ensures (m - multiset(a)) - multiset{x} == m - multiset(a + [x])
  {
    assert multiset(a + [x]) == multiset(a) + multiset{x};
    forall y
      ensures ((m - multiset(a)) - multiset{x})[y] == (m - multiset(a + [x]))[y]
    {
    }
  }

  class GridNode {
    const lowerBounds: seq<real>
    const upperBounds: seq<real>
    const maxDepth: nat
    /** The candidates held in the leaves of the cell tree. */
    var members: multiset<Chromosome>

    /** `loc` is a region of this grid: what it holds is held by the grid, and lies in its box. */
    predicate IsRegion(loc: Location)
      reads this
    {
      && multiset(loc.members) <= members
      && forall x :: x in loc.members ==> loc.IsInBounds(x.coverage)
    }

    constructor (lowerBounds: seq<real>, upperBounds: seq<real>, maxDepth: nat)
      ensures this.lowerBounds == lowerBounds && this.upperBounds == upperBounds
      ensures this.maxDepth == maxDepth
      ensures members == multiset{}
    {
      this.lowerBounds := lowerBounds;
      this.upperBounds := upperBounds;
      this.maxDepth := maxDepth;
      members := multiset{};
    }

    /** Inserts `c` into the leaf its coverage vector falls in. */
    method Add(c: Chromosome)
      modifies this
      ensures members == old(members) + multiset{c}
    {
      members := members + multiset{c};
    }

    /** Inserts `c` directly into `loc`, a region whose box contains `c`. */
    method AddToRegion(loc: Location, c: Chromosome)
      requires IsRegion(loc) && loc.IsInBounds(c.coverage)
      modifies this
      ensures members == old(members) + multiset{c}
    {
      members := members + multiset{c};
    }

    /** Removes one occurrence of `c`; nothing happens when the grid does not hold it. */
    method Delete(c: Chromosome)
      modifies this
      ensures members == old(members) - multiset{c}
    {
      members := members - multiset{c};
    }

    /** Deletes every element of `cs`, one after the other. */
    method DeleteAll(cs: seq<Chromosome>)
      modifies this
      ensures members == old(members) - multiset(cs)
    {
      for i := 0 to |cs|
        invariant members == old(members) - multiset(cs[..i])
      {
        assert cs[..i + 1] == cs[..i] + [cs[i]];
        MinusSnoc(old(members), cs[..i], cs[i]);
        Delete(cs[i]);
      }
      assert cs[..|cs|] == cs;
    }

    /** The exhaustive crowding query: some occupied region of the grid. */
    method MostCrowdedRegion() returns (m: Location)
      requires members != multiset{}
      ensures IsRegion(m) && m.members != []
    {
      var x :| x in members;
      assert IsRegion(Location(x.coverage, x.coverage, [x]));
      m :| IsRegion(m) && m.members != [];
    }

    /** The recursive-descent crowding query: some occupied region of the grid. A second oracle
        with the contract of `MostCrowdedRegion`: the two traversals differ only inside the cell
        tree, which is not modelled. */
    method RecursiveMostCrowdedRegion() returns (m: Location)
      requires members != multiset{}
      ensures IsRegion(m) && m.members != []
    {
      var x :| x in members;
      assert IsRegion(Location(x.coverage, x.coverage, [x]));
      m :| IsRegion(m) && m.members != [];
    }

    /** The region that `c`'s coverage vector falls in, if the grid has one for it. */
    method Region(c: Chromosome) returns (r: Option<Location>)
      ensures r.Some? ==> IsRegion(r.value) && r.value.IsInBounds(c.coverage)
    {
      r :| r.Some? ==> IsRegion(r.value) && r.value.IsInBounds(c.coverage);
    }

    /** Compares the crowding around `a` and `b`: positive when `a` lies in the less crowded
        region. */
    method Decide(a: Chromosome, b: Chromosome, recursive: bool) returns (dif: int)
    {
      dif :| true;
    }
  }
}
