/** The score-count override of `decide`: on how many dimensions a candidate beats at least one
    archived member. */
module BestScore {
  import opened Wrappers
  import opened Dominance

  /** The dimensions of `x` on which `x` beats at least one member of `archive`. */
  ghost function Defeated(archive: seq<Chromosome>, x: Chromosome): (r: set<nat>)
    ensures forall d :: d in r ==> d < |x.coverage|
    ensures archive == [] ==> r == {}
  {
    set d: nat | d < |x.coverage| && exists a :: a in archive && Coverage(x, d) > Coverage(a, d)
  }

  /** The dimensions below `n` on which `x` beats `a`. */
  ghost function Beaten(a: Chromosome, x: Chromosome, n: nat): set<nat>
  {
    set d: nat | d < n && Coverage(x, d) > Coverage(a, d)
  }

  /** The keys a flag map sets to true; a missing key reads as false. */
  ghost function TrueKeys(flags: map<nat, bool>): set<nat>
  {
    set d | d in flags && flags[d]
  }

  /** One step of the scan over the dimensions of `x` against the archived member `a`: a
      dimension not yet flagged on which `x` beats `a` is flagged and counted; otherwise nothing
      changes. Either way the flagged dimensions grow to cover dimension `d`. */
  lemma ScanStep(flags: map<nat, bool>, seen: set<nat>, a: Chromosome, x: Chromosome, d: nat)
    requires TrueKeys(flags) == seen + Beaten(a, x, d)
    ensures var flagged := d in flags && flags[d];
            if !flagged && Coverage(x, d) > Coverage(a, d) then
              && TrueKeys(flags[d := true]) == seen + Beaten(a, x, d + 1)
              && |TrueKeys(flags[d := true])| == |TrueKeys(flags)| + 1
            else
              TrueKeys(flags) == seen + Beaten(a, x, d + 1)
  {
    BeatenSnoc(a, x, d);
    var flagged := d in flags && flags[d];
    if !flagged && Coverage(x, d) > Coverage(a, d) {
      assert d !in TrueKeys(flags);
      assert TrueKeys(flags[d := true]) == TrueKeys(flags) + {d};
    } else if flagged {
      assert d in TrueKeys(flags);
    }
  }

  /** The dimensions below `n`. */
  ghost function Below(n: nat): (r: set<nat>)
    ensures |r| == n
    ensures forall d: nat :: d in r <==> d < n
  {
    if n == 0 then {} else Below(n - 1) + {n - 1}
  }

  lemma BeatenSnoc(a: Chromosome, x: Chromosome, n: nat)
    ensures Beaten(a, x, n + 1) == Beaten(a, x, n) + (if Coverage(x, n) > Coverage(a, n) then {n} else {})
  {
  }

  /** Scanning one more archived member adds the dimensions on which `x` beats it. */
  lemma DefeatedSnoc(archive: seq<Chromosome>, i: nat, x: Chromosome)
    requires i < |archive|
    ensures Defeated(archive[..i + 1], x) == Defeated(archive[..i], x) + Beaten(archive[i], x, |x.coverage|)
  {
    var a := archive[i];
    assert archive[..i + 1] == archive[..i] + [a];
    forall d | d in Defeated(archive[..i + 1], x)
      ensures d in Defeated(archive[..i], x) + Beaten(a, x, |x.coverage|)
    {
      var b :| b in archive[..i + 1] && Coverage(x, d) > Coverage(b, d);
      if b != a {
        assert b in archive[..i];
      }
    }
  }

  /** Each dimension counts at most once, so the score is at most the number of dimensions. */
  lemma DefeatedBound(archive: seq<Chromosome>, x: Chromosome)
    ensures |Defeated(archive, x)| <= |x.coverage|
  {
    assert Defeated(archive, x) <= Below(|x.coverage|);
    SubsetCardinality(Defeated(archive, x), Below(|x.coverage|));
  }

  lemma {:induction false} SubsetCardinality(a: set<nat>, b: set<nat>)
    requires a <= b
    ensures |a| <= |b|
    decreases |b|
  {
    if a != {} {
      var d :| d in a;
      SubsetCardinality(a - {d}, b - {d});
    }
  }

  /** The nested scan of `getBestScoreCount` as the source writes it, from archived member `i` and
      dimension `d` on, with the flag map and the count so far. A dimension missing from the map
      yields no Boolean to negate, which aborts the call: `None`. */
  function ScanAsWritten(archive: seq<Chromosome>, x: Chromosome, i: nat, d: nat,
                         defeated: map<nat, bool>, count: nat): (r: Option<nat>)
    ensures r.Some? ==> count <= r.value
    decreases |archive| - i, |x.coverage| - d
  {
    if i >= |archive| then Some(count)
    else if d >= |x.coverage| then ScanAsWritten(archive, x, i + 1, 0, defeated, count)
    else if d !in defeated then None
    else if !defeated[d] && Coverage(x, d) > Coverage(archive[i], d) then
      ScanAsWritten(archive, x, i, d + 1, defeated[d := true], count + 1)
    else ScanAsWritten(archive, x, i, d + 1, defeated, count)
  }

  /** Started as the source starts it, with an empty flag map, the scan aborts as soon as there
      is an archived member and a dimension to compare, and otherwise counts nothing. */
  lemma ScanAsWrittenAborts(archive: seq<Chromosome>, x: Chromosome)
    ensures ScanAsWritten(archive, x, 0, 0, map[], 0)
            == if |archive| > 0 && |x.coverage| > 0 then None else Some(0)
  {
    if |x.coverage| == 0 {
      ScanWithoutDimensions(archive, x, 0);
    }
  }

  /** With no dimension to compare, the scan only walks the archive. */
  lemma {:induction false} ScanWithoutDimensions(archive: seq<Chromosome>, x: Chromosome, i: nat)
    requires |x.coverage| == 0
    ensures ScanAsWritten(archive, x, i, 0, map[], 0) == Some(0)
    decreases |archive| - i
  {
    if i < |archive| {
      ScanWithoutDimensions(archive, x, i + 1);
    }
  }
}
