/** What `add` does to the archive's list, as a function of the list, the candidate and the
    grid's answers to the two crowding queries, and the properties of that admission rule. */
module Admission {
  import opened Wrappers
  import opened Dominance
  import opened Sweep
  import opened Grid

  /** The archive's capacity (`MAX_SIZE`). */
  const MaxSize: nat := 100

  /** Some member of `t` dominates `c`. */
  predicate Vetoed(t: seq<Chromosome>, c: Chromosome)
  {
    exists x :: x in t && Dominates(x, c)
  }

  /** After the sweep nothing vetoes `c` and the list is full, so the crowding step decides. */
  predicate AtCapacity(s: seq<Chromosome>, c: Chromosome)
  {
    var t := Survivors(s, c);
    !Vetoed(t, c) && |t| >= MaxSize
  }

  /** The crowding step turns `c` away: `c` falls in the most crowded region, or (exhaustive
      mode only) `c`'s own region is at least as crowded as that one. */
  predicate CrowdingRejects(c: Chromosome, recursive: bool, crowded: Location, region: Option<Location>)
  {
    || crowded.IsInBounds(c.coverage)
    || (region.Some? && region.value.Count() >= crowded.Count() && !recursive)
  }

  /** Whether `add` accepted the candidate, and the archive's list afterwards. */
  datatype Outcome = Outcome(accepted: bool, archive: seq<Chromosome>)

  /** `add(c)` on the list `s`, where `crowded` and `region` are the grid's answers to the most
      crowded region query and to the region query for `c` (consulted only at capacity). */
  function Admit(s: seq<Chromosome>, c: Chromosome, recursive: bool,
                 crowded: Location, region: Option<Location>): (o: Outcome)
    requires AtCapacity(s, c) ==> crowded.members != []
    ensures o.accepted ==> !Vetoed(Survivors(s, c), c) && o.archive != [] && o.archive[|o.archive| - 1] == c
    ensures !o.accepted ==> o.archive == Survivors(s, c)
  {
    var t := Survivors(s, c);
    if Vetoed(t, c) then Outcome(false, t)
    else if |t| < MaxSize then Outcome(true, t + [c])
    else if CrowdingRejects(c, recursive, crowded, region) then Outcome(false, t)
    else Outcome(true, RemoveFirst(t, crowded.members[0]) + [c])
  }

  /** In a mutually non-dominated list, a member that survives the sweep and dominates `c`
      means the sweep removed nothing: otherwise it would dominate the removed member too. */
  lemma VetoSweepsNothing(s: seq<Chromosome>, c: Chromosome)
    requires MutuallyNonDominated(s)
    requires Vetoed(Survivors(s, c), c)
    ensures Survivors(s, c) == s
  {
    var y :| y in Survivors(s, c) && Dominates(y, c);
    SurvivorsMembers(s, c);
    forall x | x in s
      ensures !Dominates(c, x)
    {
      if Dominates(c, x) {
        DominatesTransitive(y, c, x);
        assert false;
      }
    }
    SurvivorsUnchangedIff(s, c);
  }

  /** A dominated candidate is rejected and leaves a mutually non-dominated list as it was. */
  lemma RejectedWhenDominated(s: seq<Chromosome>, c: Chromosome, recursive: bool,
                              crowded: Location, region: Option<Location>)
    requires MutuallyNonDominated(s)
    requires Vetoed(Survivors(s, c), c)
    ensures Admit(s, c, recursive, crowded, region) == Outcome(false, s)
  {
    VetoSweepsNothing(s, c);
  }

  /** The crowding step is reached only when the sweep removed nothing from a full list. */
  lemma AtCapacitySweepsNothing(s: seq<Chromosome>, c: Chromosome)
    requires |s| <= MaxSize
    requires AtCapacity(s, c)
    ensures Survivors(s, c) == s && |s| == MaxSize
  {
    SurvivorsFullLength(s, c);
  }

  /** At capacity, a candidate the crowding step turns away leaves the list as it was. */
  lemma CrowdingRejectionKeepsArchive(s: seq<Chromosome>, c: Chromosome, recursive: bool,
                                      crowded: Location, region: Option<Location>)
    requires |s| <= MaxSize
    requires AtCapacity(s, c) && crowded.members != []
    requires CrowdingRejects(c, recursive, crowded, region)
    ensures Admit(s, c, recursive, crowded, region) == Outcome(false, s)
  {
    AtCapacitySweepsNothing(s, c);
  }

  /** At capacity, a candidate the crowding step admits takes the place of exactly one member:
      the first member of the most crowded region, removed at its first occurrence; everything
      else keeps its order and `c` goes to the end. */
  lemma ReplacementSwapsOne(s: seq<Chromosome>, c: Chromosome, recursive: bool,
                            crowded: Location, region: Option<Location>)
    requires |s| <= MaxSize
    requires AtCapacity(s, c) && crowded.members != []
    requires multiset(crowded.members) <= multiset(s)
    requires !CrowdingRejects(c, recursive, crowded, region)
    ensures var o := Admit(s, c, recursive, crowded, region);
            var e := crowded.members[0];
            && e in s
            && o.accepted
            && o.archive == RemoveFirst(s, e) + [c]
            && |o.archive| == |s| == MaxSize
            && multiset(o.archive) == multiset(s) - multiset{e} + multiset{c}
  {
    var e := crowded.members[0];
    assert e in s by {
      assert e in multiset(crowded.members);
    }
    var r := RemoveFirst(s, e);
    assert Admit(s, c, recursive, crowded, region) == Outcome(true, r + [c]) && |s| == MaxSize by {
      AtCapacitySweepsNothing(s, c);
    }
    assert multiset(r + [c]) == multiset(s) - multiset{e} + multiset{c} by {
      assert multiset(r + [c]) == multiset(r) + multiset{c};
    }
  }

  /** A member of the list with one occurrence removed was a member before. */
  lemma RemoveFirstShrinks(t: seq<Chromosome>, e: Chromosome)
    ensures forall x :: x in RemoveFirst(t, e) ==> x in t
  {
    if e in t {
      forall x | x in RemoveFirst(t, e)
        ensures x in t
      {
        assert x in multiset(RemoveFirst(t, e));
      }
    }
  }

  /** Admission keeps the archive's invariant: at most `MaxSize` members, none dominating
      another. */
  lemma AdmissionKeepsInvariant(s: seq<Chromosome>, c: Chromosome, recursive: bool,
                                crowded: Location, region: Option<Location>)
    requires |s| <= MaxSize && MutuallyNonDominated(s)
    requires AtCapacity(s, c) ==> crowded.members != [] && multiset(crowded.members) <= multiset(s)
    ensures var o := Admit(s, c, recursive, crowded, region);
            |o.archive| <= MaxSize && MutuallyNonDominated(o.archive)
  {
    var t := Survivors(s, c);
    var o := Admit(s, c, recursive, crowded, region);
    SurvivorsMembers(s, c);
    if !Vetoed(t, c) {
      DominatesIrreflexive(c);
      assert MutuallyNonDominated(t + [c]);
      if |t| >= MaxSize && !CrowdingRejects(c, recursive, crowded, region) {
        ReplacementSwapsOne(s, c, recursive, crowded, region);
        var e := crowded.members[0];
        RemoveFirstShrinks(t, e);
        assert forall x :: x in o.archive ==> x in t + [c];
      }
    }
  }

  /** A candidate that dominates some member of a valid list sweeps those members out and is
      accepted: the list becomes the survivors followed by `c`, so its size drops by the number
      of dominated members less one. The crowding step is never reached. */
  lemma SweepThenAccept(s: seq<Chromosome>, c: Chromosome, recursive: bool,
                        crowded: Location, region: Option<Location>)
    requires |s| <= MaxSize && MutuallyNonDominated(s)
    requires Dominated(s, c) != []
    ensures !AtCapacity(s, c)
    ensures Admit(s, c, recursive, crowded, region) == Outcome(true, Survivors(s, c) + [c])
    ensures |Survivors(s, c) + [c]| == |s| - |Dominated(s, c)| + 1
  {
    DominatedMembers(s, c);
    SweepPartitions(s, c);
    assert |multiset(Dominated(s, c))| + |multiset(Survivors(s, c))| == |multiset(s)|;
    SurvivorsUnchangedIff(s, c);
    if Vetoed(Survivors(s, c), c) {
      VetoSweepsNothing(s, c);
    }
    if |Survivors(s, c)| >= |s| {
      SurvivorsFullLength(s, c);
    }
  }

  /** An accepted candidate ends the list and the members before it are former members in their
      original order; a rejected one leaves exactly the survivors of the sweep. */
  lemma AdmissionAppendsInOrder(s: seq<Chromosome>, c: Chromosome, recursive: bool,
                                crowded: Location, region: Option<Location>)
    requires AtCapacity(s, c) ==> crowded.members != []
    ensures var o := Admit(s, c, recursive, crowded, region);
            && (o.accepted ==>
                  && |o.archive| > 0
                  && o.archive[|o.archive| - 1] == c
                  && SubsequenceOf(o.archive[..|o.archive| - 1], s))
            && (!o.accepted ==> o.archive == Survivors(s, c))
  {
    var t := Survivors(s, c);
    var o := Admit(s, c, recursive, crowded, region);
    SurvivorsKeepOrder(s, c);
    if o.accepted {
      var rest := o.archive[..|o.archive| - 1];
      if |t| < MaxSize {
        assert rest == t;
      } else {
        var e := crowded.members[0];
        assert rest == RemoveFirst(t, e);
        RemoveFirstKeepsOrder(t, e);
        SubsequenceTransitive(rest, t, s);
      }
    }
  }
}
