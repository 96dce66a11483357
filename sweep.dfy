/** The list operations behind the dominance sweep and the eviction of one member:
    filtering out what a candidate dominates (`removeDominated`), `List.removeAll` and
    `List.remove(Object)`, and the mutual non-domination invariant of the archive. */
module Sweep {
  import opened Dominance

  /** No member of `s` dominates another member of `s`. */
  ghost predicate MutuallyNonDominated(s: seq<Chromosome>)
  {
    forall x, y :: x in s && y in s ==> !Dominates(x, y)
  }

  /** The members of `s` that `c` does not dominate, in their order in `s`. */
  function Survivors(s: seq<Chromosome>, c: Chromosome): (r: seq<Chromosome>)
    ensures |r| <= |s|
  {
    if s == [] then []
    else
      assert s == s[..|s| - 1] + [s[|s| - 1]];
      Survivors(s[..|s| - 1], c) + (if Dominates(c, s[|s| - 1]) then [] else [s[|s| - 1]])
  }

  /** The members of `s` that `c` dominates, in their order in `s`: the `dominated` list that
      `removeDominated` collects. */
  function Dominated(s: seq<Chromosome>, c: Chromosome): (r: seq<Chromosome>)
    ensures |r| <= |s|
  {
    if s == [] then []
    else
      assert s == s[..|s| - 1] + [s[|s| - 1]];
      Dominated(s[..|s| - 1], c) + (if Dominates(c, s[|s| - 1]) then [s[|s| - 1]] else [])
  }

  /** `List.removeAll(d)`: every occurrence of every element of `d` is dropped, the rest keep
      their order. */
  function RemoveAll(s: seq<Chromosome>, d: seq<Chromosome>): (r: seq<Chromosome>)
    ensures |r| <= |s|
  {
    if s == [] then []
    else
      assert s == s[..|s| - 1] + [s[|s| - 1]];
      RemoveAll(s[..|s| - 1], d) + (if s[|s| - 1] in d then [] else [s[|s| - 1]])
  }

  /** The position of the first occurrence of `x` in `s`. */
  function FirstIndex(s: seq<Chromosome>, x: Chromosome): (i: nat)
    requires x in s
    ensures i < |s| && s[i] == x && x !in s[..i]
  {
    if s[0] == x then 0
    else
      assert s == [s[0]] + s[1..];
      1 + FirstIndex(s[1..], x)
  }

  /** `List.remove(Object)`: the first occurrence of `x` is dropped; a list without `x` is
      returned as it is. */
  function RemoveFirst(s: seq<Chromosome>, x: Chromosome): (r: seq<Chromosome>)
    ensures x !in s ==> r == s
    ensures x in s ==> |r| == |s| - 1 && multiset(r) == multiset(s) - multiset{x}
  {
    if x in s then
      var i := FirstIndex(s, x);
      assert s == s[..i] + [x] + s[i + 1..];
      s[..i] + s[i + 1..]
    else s
  }

  /** `t` is `s` with some elements left out and the others in their original order. */
  predicate SubsequenceOf(t: seq<Chromosome>, s: seq<Chromosome>)
    decreases |s|
  {
    if t == [] then true
    else if s == [] then false
    else
      || (t[|t| - 1] == s[|s| - 1] && SubsequenceOf(t[..|t| - 1], s[..|s| - 1]))
      || SubsequenceOf(t, s[..|s| - 1])
  }

  /** The survivors are exactly the members `c` does not dominate. */
  lemma {:induction false} SurvivorsMembers(s: seq<Chromosome>, c: Chromosome)
    ensures forall x :: x in Survivors(s, c) <==> x in s && !Dominates(c, x)
  {
    if s != [] {
      var init, last := s[..|s| - 1], s[|s| - 1];
      assert s == init + [last];
      SurvivorsMembers(init, c);
      SurvivorsSnoc(init, last, c);
    }
  }

  /** The collected members are exactly the members `c` dominates. */
  lemma {:induction false} DominatedMembers(s: seq<Chromosome>, c: Chromosome)
    ensures forall x :: x in Dominated(s, c) <==> x in s && Dominates(c, x)
  {
    if s != [] {
      var init, last := s[..|s| - 1], s[|s| - 1];
      assert s == init + [last];
      DominatedMembers(init, c);
      DominatedSnoc(init, last, c);
    }
  }

  /** `removeAll` keeps exactly the members not listed in `d`. */
  lemma {:induction false} RemoveAllMembers(s: seq<Chromosome>, d: seq<Chromosome>)
    ensures forall x :: x in RemoveAll(s, d) <==> x in s && x !in d
  {
    if s != [] {
      var init, last := s[..|s| - 1], s[|s| - 1];
      assert s == init + [last];
      RemoveAllMembers(init, d);
      RemoveAllSnoc(init, last, d);
    }
  }

  /** A mutually non-dominated list stays mutually non-dominated after the sweep, and no survivor
      is dominated by `c`. */
  lemma SurvivorsKeepInvariant(s: seq<Chromosome>, c: Chromosome)
    ensures MutuallyNonDominated(s) ==> MutuallyNonDominated(Survivors(s, c))
    ensures forall x :: x in Survivors(s, c) ==> !Dominates(c, x)
  {
    SurvivorsMembers(s, c);
  }

  /** Sweeping a list with one more member at its end. */
  lemma SurvivorsSnoc(u: seq<Chromosome>, x: Chromosome, c: Chromosome)
    ensures Survivors(u + [x], c) == Survivors(u, c) + (if Dominates(c, x) then [] else [x])
  {
    assert (u + [x])[..|u|] == u;
  }

  /** Collecting from a list with one more member at its end. */
  lemma DominatedSnoc(u: seq<Chromosome>, x: Chromosome, c: Chromosome)
    ensures Dominated(u + [x], c) == Dominated(u, c) + (if Dominates(c, x) then [x] else [])
  {
    assert (u + [x])[..|u|] == u;
  }

  /** `removeAll` on a list with one more member at its end. */
  lemma RemoveAllSnoc(u: seq<Chromosome>, x: Chromosome, d: seq<Chromosome>)
    ensures RemoveAll(u + [x], d) == RemoveAll(u, d) + (if x in d then [] else [x])
  {
    assert (u + [x])[..|u|] == u;
  }

  /** The survivors of the sweep keep their original relative order. */
  lemma {:induction false} SurvivorsKeepOrder(s: seq<Chromosome>, c: Chromosome)
    ensures SubsequenceOf(Survivors(s, c), s)
  {
    if s != [] {
      var init := s[..|s| - 1];
      SurvivorsKeepOrder(init, c);
      var t := Survivors(s, c);
      if Dominates(c, s[|s| - 1]) {
        assert t == Survivors(init, c);
      } else {
        assert t == Survivors(init, c) + [s[|s| - 1]];
        assert t[..|t| - 1] == Survivors(init, c);
      }
    }
  }

  /** A second sweep against the same candidate removes nothing. */
  lemma {:induction false} SurvivorsIdempotent(s: seq<Chromosome>, c: Chromosome)
    ensures Survivors(Survivors(s, c), c) == Survivors(s, c)
  {
    if s != [] {
      var init, last := s[..|s| - 1], s[|s| - 1];
      var u := Survivors(init, c);
      SurvivorsIdempotent(init, c);
      if Dominates(c, last) {
        assert Survivors(s, c) == u;
      } else {
        assert Survivors(s, c) == u + [last];
        SurvivorsSnoc(u, last, c);
      }
    }
  }

  /** The sweep leaves the list unchanged exactly when the candidate dominates none of it. */
  lemma {:induction false} SurvivorsUnchangedIff(s: seq<Chromosome>, c: Chromosome)
    ensures Survivors(s, c) == s <==> forall x :: x in s ==> !Dominates(c, x)
  {
    if forall x :: x in s ==> !Dominates(c, x) {
      NoneDominatedSurvive(s, c);
    } else {
      var x :| x in s && Dominates(c, x);
      SurvivorsMembers(s, c);
      assert x !in Survivors(s, c);
    }
  }

  lemma {:induction false} NoneDominatedSurvive(s: seq<Chromosome>, c: Chromosome)
    requires forall x :: x in s ==> !Dominates(c, x)
    ensures Survivors(s, c) == s
  {
    if s != [] {
      var init, last := s[..|s| - 1], s[|s| - 1];
      assert forall x :: x in init ==> x in s;
      NoneDominatedSurvive(init, c);
      assert Survivors(s, c) == init + [last];
      assert s == init + [last];
    }
  }

  /** A sweep that keeps as many members as it was given keeps all of them. */
  lemma {:induction false} SurvivorsFullLength(s: seq<Chromosome>, c: Chromosome)
    requires |Survivors(s, c)| >= |s|
    ensures Survivors(s, c) == s
  {
    if s != [] {
      var init := s[..|s| - 1];
      SurvivorsFullLength(init, c);
      assert s == init + [s[|s| - 1]];
    }
  }

  /** The swept and the surviving members together are exactly the former members. */
  lemma {:induction false} SweepPartitions(s: seq<Chromosome>, c: Chromosome)
    ensures multiset(Dominated(s, c)) + multiset(Survivors(s, c)) == multiset(s)
  {
    if s != [] {
      var init, last := s[..|s| - 1], s[|s| - 1];
      SweepPartitions(init, c);
      assert s == init + [last];
      assert multiset(s) == multiset(init) + multiset{last};
      var d, t := Dominated(init, c), Survivors(init, c);
      if Dominates(c, last) {
        assert Dominated(s, c) == d + [last] && Survivors(s, c) == t;
        assert multiset(d + [last]) == multiset(d) + multiset{last};
      } else {
        assert Dominated(s, c) == d && Survivors(s, c) == t + [last];
        assert multiset(t + [last]) == multiset(t) + multiset{last};
      }
    }
  }

  /** Removing the collected dominated members with `removeAll` leaves exactly the survivors. */
  lemma {:induction false} RemoveAllDominated(s: seq<Chromosome>, d: seq<Chromosome>, c: Chromosome)
    requires forall x :: x in s ==> (x in d <==> Dominates(c, x))
    ensures RemoveAll(s, d) == Survivors(s, c)
  {
    if s != [] {
      var init := s[..|s| - 1];
      assert forall x :: x in init ==> x in s;
      RemoveAllDominated(init, d, c);
    }
  }

  /** A list is a subsequence of itself. */
  lemma {:induction false} SubsequenceReflexive(t: seq<Chromosome>)
    ensures SubsequenceOf(t, t)
  {
    if t != [] {
      SubsequenceReflexive(t[..|t| - 1]);
    }
  }

  /** Dropping one element from a list keeps the others in order. */
  lemma {:induction false} DropOneKeepsOrder(a: seq<Chromosome>, y: Chromosome, b: seq<Chromosome>)
    ensures SubsequenceOf(a + b, a + [y] + b)
    decreases |b|
  {
    if b == [] {
      assert a + b == a && a + [y] + b == a + [y];
      assert (a + [y])[..|a|] == a;
      SubsequenceReflexive(a);
    } else {
      var init, last := b[..|b| - 1], b[|b| - 1];
      DropOneKeepsOrder(a, y, init);
      assert (a + b)[..|a + b| - 1] == a + init;
      assert (a + [y] + b)[..|a + [y] + b| - 1] == a + [y] + init;
    }
  }

  /** `remove(Object)` keeps the remaining members in their order. */
  lemma RemoveFirstKeepsOrder(t: seq<Chromosome>, e: Chromosome)
    ensures SubsequenceOf(RemoveFirst(t, e), t)
  {
    if e in t {
      var i := FirstIndex(t, e);
      assert t == t[..i] + [e] + t[i + 1..];
      DropOneKeepsOrder(t[..i], e, t[i + 1..]);
    } else {
      SubsequenceReflexive(t);
    }
  }

  /** A subsequence of a subsequence of `s` is a subsequence of `s`. */
  lemma {:induction false} SubsequenceTransitive(a: seq<Chromosome>, b: seq<Chromosome>, s: seq<Chromosome>)
    requires SubsequenceOf(a, b) && SubsequenceOf(b, s)
    ensures SubsequenceOf(a, s)
    decreases |s|
  {
    if a != [] {
      if b[|b| - 1] == s[|s| - 1] && SubsequenceOf(b[..|b| - 1], s[..|s| - 1]) {
        if a[|a| - 1] == b[|b| - 1] && SubsequenceOf(a[..|a| - 1], b[..|b| - 1]) {
          SubsequenceTransitive(a[..|a| - 1], b[..|b| - 1], s[..|s| - 1]);
        } else {
          SubsequenceTransitive(a, b[..|b| - 1], s[..|s| - 1]);
        }
      } else {
        SubsequenceTransitive(a, b, s[..|s| - 1]);
      }
    }
  }
}
