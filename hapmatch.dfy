/**
 * One run of hapmatch (hapmatch.cc:67-70, 103-284): from a run's rows and the
 * five parameters to the summary line `S Sin Sout hapmatch`.
 */
module Hapmatch {
  import Haplotypes
  import Sites
  import Matching

  /** The five command-line parameters, in the order the program takes them. */
  datatype Params = Params(ingroup: nat, infreq: real, outgroup: nat, outfreq: real, thresh: nat)

  /** The four numbers printed for a run (hapmatch.cc:284). */
  datatype Summary = Summary(sites: nat, ingroupSites: nat, outgroupSites: nat, lineages: nat)

  datatype Outcome = Done(summary: Summary) | SampleSizeMismatch

  /** Both groups are non-empty, so every frequency has a non-zero denominator. */
  predicate ValidParams(p: Params) {
    p.ingroup > 0 && p.outgroup > 0
  }

  /** Every haplotype of `hs` has the length of every outgroup row. */
  predicate Aligned(hs: seq<string>, outs: seq<string>) {
    forall h, j :: h in hs && 0 <= j < |outs| ==> |outs[j]| == |h|
  }

  /** Ingroup and outgroup rows of the sizes `p` names, all of one length. */
  predicate Groups(ins: seq<string>, outs: seq<string>, p: Params) {
    ValidParams(p) && |ins| == p.ingroup && |outs| == p.outgroup && Aligned(ins, outs)
  }

  /** The qualifying haplotypes among `hs`. */
  function QualifyingIn(hs: seq<string>, ins: seq<string>, outs: seq<string>, p: Params): set<string>
    requires ValidParams(p) && Aligned(hs, outs)
  {
    set h | h in hs && Qualifies(h, ins, outs, p)
  }

  /** Extending a list without repeats by one haplotype adds it when it qualifies. */
  lemma {:induction false} QualifyingStep(u: seq<string>, i: nat, ins: seq<string>, outs: seq<string>, p: Params)
    requires ValidParams(p) && Aligned(u, outs)
    requires Haplotypes.Distinct(u) && i < |u|
    ensures |QualifyingIn(u[..i + 1], ins, outs, p)| ==
            |QualifyingIn(u[..i], ins, outs, p)| + (if Qualifies(u[i], ins, outs, p) then 1 else 0)
  {
    var before := QualifyingIn(u[..i], ins, outs, p);
    assert u[..i + 1] == u[..i] + [u[i]];
    assert u[i] !in u[..i];
    if Qualifies(u[i], ins, outs, p) {
      assert QualifyingIn(u[..i + 1], ins, outs, p) == before + {u[i]};
    } else {
      assert QualifyingIn(u[..i + 1], ins, outs, p) == before;
    }
  }

  /**
   * The decision of hapmatch.cc:271-281 for one haplotype, from its ingroup
   * count and its (capped) outgroup count.
   */
  predicate Decide(cin: nat, cout: nat, p: Params)
    requires ValidParams(p)
  {
    Matching.FrequentIn(cin, p.ingroup, p.infreq) &&
    Matching.WithinCap(cout, p.outgroup, p.outfreq) &&
    cout > 0
  }

  /**
   * Reference definition of a matching lineage, over full scans: an ingroup
   * haplotype frequent enough in the ingroup that matches at least one
   * outgroup row and whose full outgroup match count passes the cap.
   */
  predicate Qualifies(h: string, ins: seq<string>, outs: seq<string>, p: Params)
    requires ValidParams(p)
    requires forall j :: 0 <= j < |outs| ==> |outs[j]| == |h|
  {
    var full := Matching.MatchCount(h, outs, p.thresh);
    Matching.FrequentIn(Haplotypes.Occurrences(ins, h), p.ingroup, p.infreq) &&
    0 < full && Matching.WithinCap(full, p.outgroup, p.outfreq)
  }

  /** Reference count of matching lineages: the distinct ingroup haplotypes that qualify. */
  function MatchingLineagesSpec(ins: seq<string>, outs: seq<string>, p: Params): nat
    requires Groups(ins, outs, p)
  {
    |QualifyingIn(ins, ins, outs, p)|
  }

  /**
   * The cap that stops the outgroup scan never changes the decision: on the
   * count the scan leaves, the decision holds exactly when the haplotype
   * qualifies on its full count.
   */
  lemma CapNeverAltersDecision(cin: nat, full: nat, p: Params)
    requires ValidParams(p)
    ensures var cout := if Matching.FrequentIn(cin, p.ingroup, p.infreq)
                        then Matching.Min(full, Matching.FirstOverCap(p.outgroup, p.outfreq))
                        else 0;
            Decide(cin, cout, p) <==>
            Matching.FrequentIn(cin, p.ingroup, p.infreq) && 0 < full &&
            Matching.WithinCap(full, p.outgroup, p.outfreq)
  {
    var cap := Matching.FirstOverCap(p.outgroup, p.outfreq);
    Matching.WithinCapBelowFirstOverCap(full, p.outgroup, p.outfreq);
    Matching.WithinCapBelowFirstOverCap(Matching.Min(full, cap), p.outgroup, p.outfreq);
  }

  /**
   * The decision loop of hapmatch.cc:270-281 over the unique haplotypes `u`
   * with ingroup counts `cin` and capped outgroup counts `cout`. It counts
   * exactly the qualifying haplotypes, and at most one per unique haplotype.
   */
  method CountMatchingLineages(u: seq<string>, cin: seq<nat>, cout: seq<nat>, p: Params,
                               ghost ins: seq<string>, ghost outs: seq<string>)
    returns (matching: nat)
    requires Groups(ins, outs, p)
    requires Haplotypes.Distinct(u) && forall h :: h in u <==> h in ins
    requires |cin| == |u| && |cout| == |u|
    requires forall i :: 0 <= i < |u| ==> cin[i] == Haplotypes.Occurrences(ins, u[i])
    requires forall i :: 0 <= i < |u| ==>
      cout[i] == (if Matching.FrequentIn(cin[i], p.ingroup, p.infreq)
                  then Matching.Min(Matching.MatchCount(u[i], outs, p.thresh),
                                    Matching.FirstOverCap(p.outgroup, p.outfreq))
                  else 0)
    ensures matching <= |u|
    ensures matching == MatchingLineagesSpec(ins, outs, p)
  {
    assert Aligned(u, outs);
    matching := 0;
    var i := 0;
    while i < |u|
      invariant 0 <= i <= |u|
      invariant matching <= i
      invariant matching == |QualifyingIn(u[..i], ins, outs, p)|
    {
      QualifyingStep(u, i, ins, outs, p);
      CapNeverAltersDecision(cin[i], Matching.MatchCount(u[i], outs, p.thresh), p);
      if Matching.FrequentIn(cin[i], p.ingroup, p.infreq) {
        if Matching.WithinCap(cout[i], p.outgroup, p.outfreq) {
          if cout[i] > 0 {
            matching := matching + 1;
          }
        }
      }
      i := i + 1;
    }
    assert u[..i] == u;
    assert QualifyingIn(u, ins, outs, p) == QualifyingIn(ins, ins, outs, p);
  }

  /**
   * The analysis of one run (hapmatch.cc:103-281): the number of sites, each
   * group's segregating sites, and the number of matching lineages, which
   * equals the full-scan reference count and never exceeds the ingroup size.
   */
  method AnalyzeRun(rows: seq<string>, numsites: nat, p: Params) returns (s: Summary)
    requires ValidParams(p) && |rows| == p.ingroup + p.outgroup
    requires Sites.Rectangular(rows, numsites)
    ensures s.sites == numsites
    ensures s.ingroupSites == Sites.SegSites(rows, 0, p.ingroup, numsites)
    ensures s.outgroupSites == Sites.SegSites(rows, p.ingroup, p.ingroup + p.outgroup, numsites)
    ensures s.lineages == MatchingLineagesSpec(rows[..p.ingroup], rows[p.ingroup..], p)
    ensures s.lineages <= p.ingroup
  {
    var ins, outs := Sites.Partition(rows, p.ingroup, p.outgroup);
    var insites, outsites := Sites.SegregatingSites(rows, numsites, p.ingroup, p.outgroup);
    var u := Haplotypes.UniqueHaplotypes(ins);
    var cin := Haplotypes.CountIngroupHaplotypes(u, ins);
    assert forall h :: h in u ==> |h| == numsites;
    var cout := Matching.ScanOutgroup(u, cin, outs, p.ingroup, p.infreq, p.outgroup, p.outfreq, p.thresh);
    var matching := CountMatchingLineages(u, cin, cout, p, ins, outs);
    s := Summary(numsites, insites, outsites, matching);
  }

  /**
   * One run with the sample-size check of hapmatch.cc:67-70: a run whose
   * sample count is not the sum of the two group sizes is an error, every
   * other run yields its summary.
   */
  method Run(totsam: nat, rows: seq<string>, numsites: nat, p: Params) returns (r: Outcome)
    requires ValidParams(p) && |rows| == totsam
    requires Sites.Rectangular(rows, numsites)
    ensures r.SampleSizeMismatch? <==> totsam != p.ingroup + p.outgroup
    ensures r.Done? ==> r.summary == Summary(numsites,
      Sites.SegSites(rows, 0, p.ingroup, numsites),
      Sites.SegSites(rows, p.ingroup, p.ingroup + p.outgroup, numsites),
      MatchingLineagesSpec(rows[..p.ingroup], rows[p.ingroup..], p))
  {
    if totsam != p.ingroup + p.outgroup {
      return SampleSizeMismatch;
    }
    var s := AnalyzeRun(rows, numsites, p);
    r := Done(s);
  }

  /** Raising the ingroup frequency threshold never adds a matching lineage. */
  lemma RaisingInfreqNeverAdds(ins: seq<string>, outs: seq<string>, p: Params, infreq: real)
    requires Groups(ins, outs, p) && p.infreq <= infreq
    ensures MatchingLineagesSpec(ins, outs, p.(infreq := infreq)) <= MatchingLineagesSpec(ins, outs, p)
  {
    var q := p.(infreq := infreq);
    SubsetCard(QualifyingIn(ins, ins, outs, q), QualifyingIn(ins, ins, outs, p));
  }

  /** Lowering the outgroup frequency threshold never adds a matching lineage. */
  lemma LoweringOutfreqNeverAdds(ins: seq<string>, outs: seq<string>, p: Params, outfreq: real)
    requires Groups(ins, outs, p) && outfreq <= p.outfreq
    ensures MatchingLineagesSpec(ins, outs, p.(outfreq := outfreq)) <= MatchingLineagesSpec(ins, outs, p)
  {
    var q := p.(outfreq := outfreq);
    SubsetCard(QualifyingIn(ins, ins, outs, q), QualifyingIn(ins, ins, outs, p));
  }

  /** The matching lineages are among the distinct ingroup haplotypes. */
  lemma MatchingAtMostHaplotypes(ins: seq<string>, outs: seq<string>, p: Params)
    requires Groups(ins, outs, p)
    ensures MatchingLineagesSpec(ins, outs, p) <= |set h | h in ins|
  {
    SubsetCard(QualifyingIn(ins, ins, outs, p), set h | h in ins);
  }

  lemma SubsetCard(a: set<string>, b: set<string>)
    requires a <= b
    ensures |a| <= |b|
  {
    assert b == a + (b - a);
  }

  /** Ingroup and outgroup rows of the worked example below. */
  function ExampleRows(): seq<string> {
    ["100", "100", "100", "010", "100", "100", "000", "000", "000", "000"]
  }

  lemma ExampleSites()
    ensures Sites.SegSites(ExampleRows(), 0, 4, 3) == 2
    ensures Sites.SegSites(ExampleRows(), 4, 10, 3) == 1
  {
    var rows := ExampleRows();
    assert rows[0][0] == '1' && rows[3][1] == '1' && rows[4][0] == '1';
    assert Sites.HasDerived(rows, 0, 4, 0) && Sites.HasDerived(rows, 0, 4, 1);
    assert !Sites.HasDerived(rows, 0, 4, 2);
    assert Sites.HasDerived(rows, 4, 10, 0);
    assert !Sites.HasDerived(rows, 4, 10, 1) && !Sites.HasDerived(rows, 4, 10, 2);
  }

  /** Counting in a group shaped like the example's ingroup. */
  lemma ThreeAndOne(a: string, b: string)
    requires a != b
    ensures Haplotypes.Occurrences([a, a, a, b], a) == 3
    ensures Haplotypes.Occurrences([a, a, a, b], b) == 1
  {
    var s0: seq<string> := [];
    assert [a, a, a, b] == s0 + [a] + [a] + [a] + [b];
    Haplotypes.OccurrencesSnoc(s0, a, a);
    Haplotypes.OccurrencesSnoc(s0 + [a], a, a);
    Haplotypes.OccurrencesSnoc(s0 + [a] + [a], a, a);
    Haplotypes.OccurrencesSnoc(s0 + [a] + [a] + [a], b, a);
    Haplotypes.OccurrencesSnoc(s0, a, b);
    Haplotypes.OccurrencesSnoc(s0 + [a], a, b);
    Haplotypes.OccurrencesSnoc(s0 + [a] + [a], a, b);
    Haplotypes.OccurrencesSnoc(s0 + [a] + [a] + [a], b, b);
  }

  /** Exact matching in an outgroup shaped like the example's outgroup. */
  lemma TwoOfSix(a: string, c: string)
    requires a != c && |a| == |c|
    ensures Matching.MatchCount(a, [a, a, c, c, c, c], 0) == 2
  {
    assert Matching.Matches(a, a, 0) && !Matching.Matches(a, c, 0);
    var s0: seq<string> := [];
    var s1 := s0 + [a];
    Matching.MatchCountSnoc(a, s0, a, 0);
    assert Matching.MatchCount(a, s1, 0) == 1;
    var s2 := s1 + [a];
    Matching.MatchCountSnoc(a, s1, a, 0);
    assert Matching.MatchCount(a, s2, 0) == 2;
    var s3 := s2 + [c];
    Matching.MatchCountSnoc(a, s2, c, 0);
    assert Matching.MatchCount(a, s3, 0) == 2;
    var s4 := s3 + [c];
    Matching.MatchCountSnoc(a, s3, c, 0);
    assert Matching.MatchCount(a, s4, 0) == 2;
    var s5 := s4 + [c];
    Matching.MatchCountSnoc(a, s4, c, 0);
    assert Matching.MatchCount(a, s5, 0) == 2;
    var s6 := s5 + [c];
    Matching.MatchCountSnoc(a, s5, c, 0);
    assert Matching.MatchCount(a, s6, 0) == 2;
    assert [a, a, c, c, c, c] == s6;
  }

  /**
   * A run of 3 sites with ingroup rows 100, 100, 100, 010 and outgroup rows
   * 100, 100, 000, 000, 000, 000 under thresholds 0.5 and 0.5 and tolerance
   * 0: two ingroup segregating sites (columns 0 and 1), one outgroup
   * segregating site, and one matching lineage (100, with ingroup frequency
   * 3/4 and outgroup frequency 2/6; 010 has ingroup frequency 1/4).
   */
  lemma WorkedExample()
    ensures Sites.SegSites(ExampleRows(), 0, 4, 3) == 2
    ensures Sites.SegSites(ExampleRows(), 4, 10, 3) == 1
    ensures MatchingLineagesSpec(ExampleRows()[..4], ExampleRows()[4..], Params(4, 0.5, 6, 0.5, 0)) == 1
  {
    ExampleSites();
    var p := Params(4, 0.5, 6, 0.5, 0);
    var ins, outs := ExampleRows()[..4], ExampleRows()[4..];
    assert ins == ["100", "100", "100", "010"];
    assert outs == ["100", "100", "000", "000", "000", "000"];
    assert "100" != "010" && "100" != "000" by {
      assert "100"[0] != "010"[0] && "100"[0] != "000"[0];
    }
    ThreeAndOne("100", "010");
    TwoOfSix("100", "000");
    assert Qualifies("100", ins, outs, p);
    assert !Qualifies("010", ins, outs, p);
    assert QualifyingIn(ins, ins, outs, p) == {"100"};
  }
}
