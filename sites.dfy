/**
 * Splitting one run's rows into ingroup and outgroup (hapmatch.cc:103-135)
 * and counting each group's segregating sites (hapmatch.cc:144-163).
 */
module Sites {

  /** Every row has exactly `numsites` characters. */
  predicate Rectangular(rows: seq<string>, numsites: nat) {
    forall x :: 0 <= x < |rows| ==> |rows[x]| == numsites
  }

  /** Some row `lo <= x < hi` carries the derived allele '1' in column `a`. */
  predicate HasDerived(rows: seq<string>, lo: nat, hi: nat, a: nat)
    requires lo <= hi <= |rows|
    requires forall x :: lo <= x < hi ==> a < |rows[x]|
  {
    exists x :: lo <= x < hi && rows[x][a] == '1'
  }

  /** Number of columns `a < n` in which rows `lo..hi-1` have a '1'. */
  function SegSites(rows: seq<string>, lo: nat, hi: nat, n: nat): (r: nat)
    requires lo <= hi <= |rows|
    requires forall x :: lo <= x < hi ==> n <= |rows[x]|
    ensures r <= n
    ensures lo == hi ==> r == 0
  {
    if n == 0 then 0
    else SegSites(rows, lo, hi, n - 1) + (if HasDerived(rows, lo, hi, n - 1) then 1 else 0)
  }

  /** The columns `a < n` in which rows `lo..hi-1` have a '1'. */
  function DerivedColumns(rows: seq<string>, lo: nat, hi: nat, n: nat): set<nat>
    requires lo <= hi <= |rows|
    requires forall x :: lo <= x < hi ==> n <= |rows[x]|
  {
    set a: nat | a < n && HasDerived(rows, lo, hi, a)
  }

  /** The tally is the number of columns that hold a '1' somewhere in the group. */
  lemma {:induction false} SegSitesCountsColumns(rows: seq<string>, lo: nat, hi: nat, n: nat)
    requires lo <= hi <= |rows|
    requires forall x :: lo <= x < hi ==> n <= |rows[x]|
    ensures SegSites(rows, lo, hi, n) == |DerivedColumns(rows, lo, hi, n)|
  {
    if n == 0 {
      assert DerivedColumns(rows, lo, hi, n) == {};
    } else {
      SegSitesCountsColumns(rows, lo, hi, n - 1);
      var prev := DerivedColumns(rows, lo, hi, n - 1);
      assert n - 1 !in prev;
      if HasDerived(rows, lo, hi, n - 1) {
        assert DerivedColumns(rows, lo, hi, n) == prev + {n - 1};
      } else {
        assert DerivedColumns(rows, lo, hi, n) == prev;
      }
    }
  }

  /**
   * Copies the first `ingroup` rows to the ingroup and the next `outgroup`
   * rows to the outgroup, keeping their order (hapmatch.cc:104-135).
   */
  method Partition(all: seq<string>, ingroup: nat, outgroup: nat) returns (ins: seq<string>, outs: seq<string>)
    requires |all| == ingroup + outgroup
    ensures ins == all[..ingroup]
    ensures outs == all[ingroup..]
    ensures ins + outs == all
  {
    var ingroupSeqs := new string[ingroup];
    var i := 0;
    while i < ingroup
      invariant 0 <= i <= ingroup
      invariant ingroupSeqs[..i] == all[..i]
    {
      ingroupSeqs[i] := all[i];
      i := i + 1;
    }
    var outgroupSeqs := new string[outgroup];
    var seqCounter := 0;
    i := ingroup;
    while i < ingroup + outgroup
      invariant ingroup <= i <= ingroup + outgroup
      invariant seqCounter == i - ingroup
      invariant ingroupSeqs[..] == all[..ingroup]
      invariant outgroupSeqs[..seqCounter] == all[ingroup..i]
    {
      outgroupSeqs[seqCounter] := all[i];
      seqCounter := seqCounter + 1;
      i := i + 1;
    }
    ins, outs := ingroupSeqs[..], outgroupSeqs[..];
  }

  /**
   * Segregating-site tallies of both groups (hapmatch.cc:145-163). The scan
   * of a column stops at the first '1'; the counts equal the full-scan
   * definition, and neither exceeds the number of sites.
   */
  method SegregatingSites(rows: seq<string>, numsites: nat, ingroup: nat, outgroup: nat)
    returns (insites: nat, outsites: nat)
    requires |rows| == ingroup + outgroup
    requires Rectangular(rows, numsites)
    ensures insites == SegSites(rows, 0, ingroup, numsites)
    ensures outsites == SegSites(rows, ingroup, ingroup + outgroup, numsites)
    ensures insites <= numsites && outsites <= numsites
  {
    insites, outsites := 0, 0;
    var a := 0;
    while a < numsites
      invariant 0 <= a <= numsites
      invariant insites == SegSites(rows, 0, ingroup, a)
      invariant outsites == SegSites(rows, ingroup, ingroup + outgroup, a)
    {
      var x := 0;
      while x < ingroup
        invariant 0 <= x <= ingroup
        invariant insites == SegSites(rows, 0, ingroup, a)
        invariant forall x' :: 0 <= x' < x ==> rows[x'][a] != '1'
      {
        if rows[x][a] == '1' {
          insites := insites + 1;
          break;
        }
        x := x + 1;
      }
      var y := ingroup;
      while y < ingroup + outgroup
        invariant ingroup <= y <= ingroup + outgroup
        invariant outsites == SegSites(rows, ingroup, ingroup + outgroup, a)
        invariant forall y' :: ingroup <= y' < y ==> rows[y'][a] != '1'
      {
        if rows[y][a] == '1' {
          outsites := outsites + 1;
          break;
        }
        y := y + 1;
      }
      a := a + 1;
    }
  }
}
