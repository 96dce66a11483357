/** Candidates as the archive sees them, and Pareto dominance between them. */
module Dominance {

  /** An archived candidate: an identity and its coverage vector, one value per fitness function
      (dimension d is the d-th fitness function the archive was built with). */
  datatype Chromosome = Chromosome(id: nat, coverage: seq<real>)

  /** The coverage of `x` for dimension `d`; a dimension the vector does not carry reads as 0. */
  function Coverage(x: Chromosome, d: nat): real
  {
    if d < |x.coverage| then x.coverage[d] else 0.0
  }

  /** `u` is at least `v` in every dimension (vectors of equal length). */
  predicate NoWorse(u: seq<real>, v: seq<real>)
    requires |u| == |v|
  {
    u == [] || (u[0] >= v[0] && NoWorse(u[1..], v[1..]))
  }

  /** `u` exceeds `v` in some dimension (vectors of equal length). */
  predicate SomeBetter(u: seq<real>, v: seq<real>)
    requires |u| == |v|
  {
    u != [] && (u[0] > v[0] || SomeBetter(u[1..], v[1..]))
  }

  /** Pareto dominance on coverage vectors of equal length: no worse in every dimension and
      strictly better in at least one (a larger value is better). */
  predicate Dominates(a: Chromosome, b: Chromosome): (r: bool)
    ensures r ==> |a.coverage| == |b.coverage| && a.coverage != []
  {
    |a.coverage| == |b.coverage| && NoWorse(a.coverage, b.coverage) && SomeBetter(a.coverage, b.coverage)
  }

  /** The recursive definition agrees with the usual one stated over dimensions. */
  lemma {:induction false} DominatesMeans(a: Chromosome, b: Chromosome)
    ensures Dominates(a, b) <==>
              && |a.coverage| == |b.coverage|
              && (forall i :: 0 <= i < |a.coverage| ==> a.coverage[i] >= b.coverage[i])
              && (exists i :: 0 <= i < |a.coverage| && a.coverage[i] > b.coverage[i])
  {
    if |a.coverage| == |b.coverage| {
      NoWorseMeans(a.coverage, b.coverage);
      SomeBetterMeans(a.coverage, b.coverage);
    }
  }

  lemma {:induction false} NoWorseMeans(u: seq<real>, v: seq<real>)
    requires |u| == |v|
    ensures NoWorse(u, v) <==> forall i :: 0 <= i < |u| ==> u[i] >= v[i]
  {
    if u != [] {
      NoWorseMeans(u[1..], v[1..]);
      assert forall i :: 1 <= i < |u| ==> u[i] == u[1..][i - 1] && v[i] == v[1..][i - 1];
    }
  }

  lemma {:induction false} SomeBetterMeans(u: seq<real>, v: seq<real>)
    requires |u| == |v|
    ensures SomeBetter(u, v) <==> exists i :: 0 <= i < |u| && u[i] > v[i]
  {
    if u != [] {
      SomeBetterMeans(u[1..], v[1..]);
      if exists i :: 0 <= i < |u| && u[i] > v[i] {
        var i :| 0 <= i < |u| && u[i] > v[i];
        if i > 0 {
          assert u[1..][i - 1] > v[1..][i - 1];
        }
      }
      if SomeBetter(u[1..], v[1..]) {
        var j :| 0 <= j < |u| - 1 && u[1..][j] > v[1..][j];
        assert u[j + 1] > v[j + 1];
      }
    }
  }

  lemma {:induction false} SomeBetterIrreflexive(u: seq<real>)
    ensures !SomeBetter(u, u)
  {
    if u != [] {
      SomeBetterIrreflexive(u[1..]);
    }
  }

  lemma {:induction false} NoWorseTransitive(u: seq<real>, v: seq<real>, w: seq<real>)
    requires |u| == |v| == |w|
    requires NoWorse(u, v) && NoWorse(v, w)
    ensures NoWorse(u, w)
  {
    if u != [] {
      NoWorseTransitive(u[1..], v[1..], w[1..]);
    }
  }

  lemma {:induction false} SomeBetterThenNoWorse(u: seq<real>, v: seq<real>, w: seq<real>)
    requires |u| == |v| == |w|
    requires SomeBetter(u, v) && NoWorse(v, w)
    ensures SomeBetter(u, w)
  {
    if u[0] <= v[0] {
      SomeBetterThenNoWorse(u[1..], v[1..], w[1..]);
    }
  }

  lemma {:induction false} NoWorseExcludesBetter(u: seq<real>, v: seq<real>)
    requires |u| == |v|
    requires NoWorse(v, u)
    ensures !SomeBetter(u, v)
  {
    if u != [] {
      NoWorseExcludesBetter(u[1..], v[1..]);
    }
  }

  /** No chromosome dominates itself. */
  lemma DominatesIrreflexive(a: Chromosome)
    ensures !Dominates(a, a)
  {
    SomeBetterIrreflexive(a.coverage);
  }

  /** Two chromosomes never dominate each other both ways. */
  lemma DominatesAsymmetric(a: Chromosome, b: Chromosome)
    requires Dominates(a, b)
    ensures !Dominates(b, a)
  {
    NoWorseExcludesBetter(b.coverage, a.coverage);
  }

  /** Dominance is transitive. */
  lemma DominatesTransitive(a: Chromosome, b: Chromosome, c: Chromosome)
    requires Dominates(a, b) && Dominates(b, c)
    ensures Dominates(a, c)
  {
    NoWorseTransitive(a.coverage, b.coverage, c.coverage);
    SomeBetterThenNoWorse(a.coverage, b.coverage, c.coverage);
  }
}
