/** The PAES archive: a bounded list of mutually non-dominated chromosomes in insertion order,
    with the grid beside it that estimates crowding. */
module PaesArchive {
  import opened Wrappers
  import opened Dominance
  import opened Sweep
  import opened Grid
  import opened Admission
  import opened BestScore

  /** The depth the grid may subdivide to (`GRID_LAYER_DEPTH`). */
  const GridLayerDepth: nat := 10

  /** Adding one element and removing another present one commute. */
  lemma SwapOne(m: multiset<Chromosome>, c: Chromosome, d: Chromosome)
    requires d in m
    ensures (m - multiset{d}) + multiset{c} == (m + multiset{c}) - multiset{d}
  {
    forall x
      ensures ((m - multiset{d}) + multiset{c})[x] == ((m + multiset{c}) - multiset{d})[x]
    {
    }
  }

  /** Taking one part of a partition away leaves the other. */
  lemma PartitionDifference(d: multiset<Chromosome>, t: multiset<Chromosome>)
    ensures (d + t) - d == t
  {
    forall x
      ensures ((d + t) - d)[x] == t[x]
    {
    }
  }

  class MyArchive {
    /** `USE_RECURSIVE_GRID_CROWDED`: use the recursive-descent crowding query. */
    const recursiveCrowding: bool
    /** `USE_BEST_SCORE`: let the score count decide before the grid does. */
    const useBestScore: bool
    /** The number of fitness functions, one objective dimension each. */
    const dimensions: nat
    const grid: GridNode
    var archivedChromosomes: seq<Chromosome>

    /** The grid holds exactly the listed members, the list respects the capacity, and no listed
        member dominates another. */
    ghost predicate Valid()
      reads this, grid
    {
      && grid.members == multiset(archivedChromosomes)
      && |archivedChromosomes| <= MaxSize
      && MutuallyNonDominated(archivedChromosomes)
    }

    /** An empty archive whose grid spans `[minValue, maxValue]` in each of `dimensions`
        dimensions and may subdivide `GridLayerDepth` times. */
    constructor (dimensions: nat, minValue: real, maxValue: real, recursiveCrowding: bool, useBestScore: bool)
      ensures Valid() && fresh(grid)
      ensures archivedChromosomes == []
      ensures grid.lowerBounds == seq(dimensions, _ => minValue)
      ensures grid.upperBounds == seq(dimensions, _ => maxValue)
      ensures grid.maxDepth == GridLayerDepth
      ensures this.dimensions == dimensions
      ensures this.recursiveCrowding == recursiveCrowding && this.useBestScore == useBestScore
    {
      var lowerBounds: seq<real> := [];
      var upperBounds: seq<real> := [];
      for i := 0 to dimensions
        invariant lowerBounds == seq(i, _ => minValue)
        invariant upperBounds == seq(i, _ => maxValue)
      {
        lowerBounds := lowerBounds + [minValue];
        upperBounds := upperBounds + [maxValue];
      }
      this.dimensions := dimensions;
      this.recursiveCrowding := recursiveCrowding;
      this.useBestScore := useBestScore;
      grid := new GridNode(lowerBounds, upperBounds, GridLayerDepth);
      archivedChromosomes := [];
    }

    /** Offers `c` to the archive. `crowded` and `region` report the grid's answers to the most
        crowded region query and to the region query for `c`; they matter only at capacity. */
    method Add(c: Chromosome) returns (added: bool, ghost crowded: Location, ghost region: Option<Location>)
      requires Valid()
      modifies this, grid
      ensures Valid()
      ensures AtCapacity(old(archivedChromosomes), c) ==>
                && crowded.members != []
                && multiset(crowded.members) <= multiset(old(archivedChromosomes))
                && (!crowded.IsInBounds(c.coverage) && region.Some? ==>
                      && multiset(region.value.members) <= multiset(old(archivedChromosomes))
                      && region.value.IsInBounds(c.coverage))
      ensures Outcome(added, archivedChromosomes)
              == Admit(old(archivedChromosomes), c, recursiveCrowding, crowded, region)
    {
      ghost var s := archivedChromosomes;
      crowded, region := Location([], [], []), None;
      RemoveDominated(c);
      for i := 0 to |archivedChromosomes|
        invariant forall k :: 0 <= k < i ==> !Dominates(archivedChromosomes[k], c)
      {
        if Dominates(archivedChromosomes[i], c) {
          assert Vetoed(archivedChromosomes, c);
          added := false;
          return;
        }
      }
      assert !Vetoed(archivedChromosomes, c);
      if |archivedChromosomes| < MaxSize {
        archivedChromosomes := archivedChromosomes + [c];
        grid.Add(c);
        added := true;
        assert Admit(s, c, recursiveCrowding, crowded, region) == Outcome(true, archivedChromosomes);
        AdmissionKeepsInvariant(s, c, recursiveCrowding, crowded, region);
        return;
      }
      assert AtCapacity(s, c);
      AtCapacitySweepsNothing(s, c);
      added, crowded, region := AddAtCapacity(c);
    }

    /** The `else` branch of `add`: the list is full, nothing in it dominates `c` and `c`
        dominates nothing in it, so the grid's crowding decides. */
    method AddAtCapacity(c: Chromosome) returns (added: bool, ghost crowded: Location, ghost region: Option<Location>)
      requires Valid() && AtCapacity(archivedChromosomes, c)
      modifies this, grid
      ensures Valid()
      ensures crowded.members != []
      ensures multiset(crowded.members) <= multiset(old(archivedChromosomes))
      ensures !crowded.IsInBounds(c.coverage) && region.Some? ==>
                && multiset(region.value.members) <= multiset(old(archivedChromosomes))
                && region.value.IsInBounds(c.coverage)
      ensures Outcome(added, archivedChromosomes)
              == Admit(old(archivedChromosomes), c, recursiveCrowding, crowded, region)
    {
      ghost var s := archivedChromosomes;
      region := None;
      AtCapacitySweepsNothing(s, c);
      assert archivedChromosomes[0] in multiset(archivedChromosomes);
      var mostCrowded: Location;
      if recursiveCrowding {
        mostCrowded := grid.RecursiveMostCrowdedRegion();
      } else {
        mostCrowded := grid.MostCrowdedRegion();
      }
      crowded := mostCrowded;
      if mostCrowded.IsInBounds(c.coverage) {
        assert CrowdingRejects(c, recursiveCrowding, crowded, region);
        added := false;
        return;
      }
      var r := grid.Region(c);
      region := r;
      if r.Some? && r.value.Count() >= mostCrowded.Count() && !recursiveCrowding {
        assert CrowdingRejects(c, recursiveCrowding, crowded, region);
        added := false;
        return;
      }
      assert !CrowdingRejects(c, recursiveCrowding, crowded, region);
      var deleted := mostCrowded.members[0];
      ReplacementSwapsOne(s, c, recursiveCrowding, crowded, region);
      AdmissionKeepsInvariant(s, c, recursiveCrowding, crowded, region);
      ReplaceOne(c, deleted, r);
      added := true;
    }

    /** The replacement step of `add`: `c` goes into its region (or into the grid when it has
        none) and to the end of the list, and `deleted` leaves the grid and the list. */
    method ReplaceOne(c: Chromosome, deleted: Chromosome, region: Option<Location>)
      requires grid.members == multiset(archivedChromosomes)
      requires deleted in archivedChromosomes
      requires region.Some? ==> grid.IsRegion(region.value) && region.value.IsInBounds(c.coverage)
      modifies this, grid
      ensures archivedChromosomes == RemoveFirst(old(archivedChromosomes), deleted) + [c]
      ensures grid.members == multiset(archivedChromosomes)
    {
      SwapOne(multiset(archivedChromosomes), c, deleted);
      if region.Some? {
        grid.AddToRegion(region.value, c);
      } else {
        grid.Add(c);
      }
      grid.Delete(deleted);
      archivedChromosomes := RemoveFirst(archivedChromosomes, deleted);
      archivedChromosomes := archivedChromosomes + [c];
    }

    /** The listed members, in insertion order. */
    function GetChromosomes(): (r: seq<Chromosome>)
      reads this, grid
      requires Valid()
      ensures |r| <= MaxSize && MutuallyNonDominated(r)
      ensures multiset(r) == grid.members
    {
      archivedChromosomes
    }

    /** Whether the search should move from `current` to `candidate`. `dif` reports the grid's
        crowding comparison. */
    method Decide(candidate: Chromosome, current: Chromosome) returns (prefer: bool, ghost dif: int)
      ensures useBestScore && |Defeated(archivedChromosomes, candidate)| > |Defeated(archivedChromosomes, current)|
              ==> prefer
      ensures useBestScore && |Defeated(archivedChromosomes, current)| > |Defeated(archivedChromosomes, candidate)|
              ==> !prefer
      ensures !useBestScore || |Defeated(archivedChromosomes, candidate)| == |Defeated(archivedChromosomes, current)|
              ==> prefer == (dif > 0)
    {
      if useBestScore {
        var candidateBestScoreCount := GetBestScoreCount(candidate);
        var currentBestScoreCount := GetBestScoreCount(current);
        if candidateBestScoreCount > currentBestScoreCount {
          return true, 0;
        } else if currentBestScoreCount > candidateBestScoreCount {
          return false, 0;
        }
      }
      var d := grid.Decide(candidate, current, recursiveCrowding);
      dif := d;
      prefer := d > 0;
    }

    /** The number of dimensions on which `x` beats at least one listed member, each dimension
        counted once. A dimension not yet flagged reads as not defeated. */
    method GetBestScoreCount(x: Chromosome) returns (count: nat)
      ensures count == |Defeated(archivedChromosomes, x)|
      ensures count <= |x.coverage|
    {
      var defeated: map<nat, bool> := map[];
      count := 0;
      for i := 0 to |archivedChromosomes|
        invariant TrueKeys(defeated) == Defeated(archivedChromosomes[..i], x)
        invariant count == |TrueKeys(defeated)|
      {
        var a := archivedChromosomes[i];
        ghost var seen := Defeated(archivedChromosomes[..i], x);
        for ff := 0 to |x.coverage|
          invariant TrueKeys(defeated) == seen + Beaten(a, x, ff)
          invariant count == |TrueKeys(defeated)|
        {
          ScanStep(defeated, seen, a, x, ff);
          if !(ff in defeated && defeated[ff]) && Coverage(x, ff) > Coverage(a, ff) {
            defeated := defeated[ff := true];
            count := count + 1;
          }
        }
        DefeatedSnoc(archivedChromosomes, i, x);
      }
      assert archivedChromosomes[..|archivedChromosomes|] == archivedChromosomes;
      DefeatedBound(archivedChromosomes, x);
    }

    /** Drops every listed member that `c` dominates, from the list and from the grid. */
    method RemoveDominated(c: Chromosome)
      requires Valid()
      modifies this, grid
      ensures Valid()
      ensures archivedChromosomes == Survivors(old(archivedChromosomes), c)
      ensures forall x :: x in archivedChromosomes ==> !Dominates(c, x)
    {
      var dominated: seq<Chromosome> := [];
      for i := 0 to |archivedChromosomes|
        invariant dominated == Dominated(archivedChromosomes[..i], c)
      {
        assert archivedChromosomes[..i + 1] == archivedChromosomes[..i] + [archivedChromosomes[i]];
        if Dominates(c, archivedChromosomes[i]) {
          dominated := dominated + [archivedChromosomes[i]];
        }
      }
      ghost var s := archivedChromosomes;
      assert s[..|s|] == s;
      DominatedMembers(s, c);
      RemoveAllDominated(s, dominated, c);
      SurvivorsKeepInvariant(s, c);
      assert multiset(s) - multiset(dominated) == multiset(Survivors(s, c)) by {
        SweepPartitions(s, c);
        PartitionDifference(multiset(dominated), multiset(Survivors(s, c)));
      }
      archivedChromosomes := RemoveAll(archivedChromosomes, dominated);
      grid.DeleteAll(dominated);
    }
  }
}
