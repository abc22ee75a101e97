/**
 * Matching ingroup haplotypes against outgroup rows (hapmatch.cc:204-250):
 * the mismatch rule, the frequency tests and the capped outgroup scan.
 */
module Matching {

  /** Character `q` of `s`, or the terminating '\0' that `std::string` yields at index `|s|`. */
  function CharAt(s: string, q: nat): (c: char)
    requires q <= |s|
    ensures q == |s| ==> c == '\0'
  {
    if q < |s| then s[q] else '\0'
  }

  /** Positions `q < n` where the haplotype `h` has '1' and the row `r` has '0'. */
  function Mismatches(h: string, r: string, n: nat): (x: nat)
    requires n <= |h| && n <= |r|
    ensures x <= n
  {
    if n == 0 then 0
    else Mismatches(h, r, n - 1) + (if h[n - 1] == '1' && r[n - 1] == '0' then 1 else 0)
  }

  /** Number of derived alleles ('1') among the first `n` positions of `h`. */
  function Derived(h: string, n: nat): nat
    requires n <= |h|
  {
    if n == 0 then 0 else Derived(h, n - 1) + (if h[n - 1] == '1' then 1 else 0)
  }

  /**
   * The matching rule, written over the full count: with tolerance 0 a row
   * matches when it equals the haplotype; otherwise when the number of
   * positions with '1' in the haplotype and '0' in the row is exactly the
   * tolerance.
   */
  predicate Matches(h: string, r: string, thresh: nat)
    requires |h| == |r|
  {
    if thresh == 0 then h == r else Mismatches(h, r, |h|) == thresh
  }

  lemma {:induction false} MismatchesGrow(h: string, r: string, m: nat, n: nat)
    requires m <= n <= |h| && n <= |r|
    ensures Mismatches(h, r, m) <= Mismatches(h, r, n)
    decreases n - m
  {
    if m < n {
      MismatchesGrow(h, r, m, n - 1);
    }
  }

  /** Mismatches can only sit on the haplotype's derived alleles. */
  lemma {:induction false} MismatchesAtMostDerived(h: string, r: string, n: nat)
    requires n <= |h| && n <= |r|
    ensures Mismatches(h, r, n) <= Derived(h, n)
  {
    if n > 0 {
      MismatchesAtMostDerived(h, r, n - 1);
    }
  }

  /**
   * With a positive tolerance larger than the haplotype's number of '1's no
   * row matches; in particular a haplotype without any '1' never matches.
   */
  lemma NoMatchBeyondDerived(h: string, r: string, thresh: nat)
    requires |h| == |r|
    requires thresh > Derived(h, |h|)
    ensures !Matches(h, r, thresh)
  {
    MismatchesAtMostDerived(h, r, |h|);
  }

  /** A haplotype without '1' has no derived alleles. */
  lemma {:induction false} NoOnesNoDerived(h: string, n: nat)
    requires n <= |h|
    requires forall q :: 0 <= q < |h| ==> h[q] != '1'
    ensures Derived(h, n) == 0
  {
    if n > 0 {
      NoOnesNoDerived(h, n - 1);
    }
  }

  /** With a positive tolerance, a haplotype without any '1' matches no row. */
  lemma NoDerivedNeverMatches(h: string, r: string, thresh: nat)
    requires |h| == |r| && thresh > 0
    requires forall q :: 0 <= q < |h| ==> h[q] != '1'
    ensures !Matches(h, r, thresh)
  {
    NoOnesNoDerived(h, |h|);
    NoMatchBeyondDerived(h, r, thresh);
  }

  /** With tolerance 0 equality is required: a row with extra '1's has no mismatch yet does not match. */
  lemma ExactIsNotZeroMismatches()
    ensures Mismatches("100", "110", 3) == 0
    ensures !Matches("100", "110", 0)
  {
    assert "100" != "110" by {
      assert "100"[1] != "110"[1];
    }
  }

  /**
   * The mismatch count of hapmatch.cc:223-236. The loop stops once the
   * count exceeds the tolerance by forcing `q` to the haplotype's length,
   * after which the body still reads position `|h|`, the string's '\0', and
   * adds nothing. The result is the full count cut off at `thresh + 1`.
   */
  method CountMismatches(h: string, r: string, thresh: nat) returns (x: nat)
    requires |h| == |r|
    ensures x <= thresh + 1
    ensures x == if Mismatches(h, r, |h|) <= thresh then Mismatches(h, r, |h|) else thresh + 1
    ensures x == thresh <==> Mismatches(h, r, |h|) == thresh
  {
    x := 0;
    var q := 0;
    while q < |h|
      invariant 0 <= q <= |h| + 1
      invariant q <= |h| ==> x == (if Mismatches(h, r, q) <= thresh then Mismatches(h, r, q) else thresh + 1)
      invariant q == |h| + 1 ==> x == thresh + 1 && Mismatches(h, r, |h|) > thresh
    {
      if x > thresh {
        MismatchesGrow(h, r, q, |h|);
        q := |h|;
      }
      if CharAt(h, q) == '1' {
        if r[q] == '0' {
          x := x + 1;
        }
      }
      q := q + 1;
    }
  }

  /** Whether outgroup row `r` counts for haplotype `h` (hapmatch.cc:213-241). */
  method RowMatches(h: string, r: string, thresh: nat) returns (m: bool)
    requires |h| == |r|
    ensures thresh == 0 ==> (m <==> h == r)
    ensures thresh > 0 ==> (m <==> Mismatches(h, r, |h|) == thresh)
  {
    if thresh == 0 {
      m := h == r;
    } else {
      var x := CountMismatches(h, r, thresh);
      m := x == thresh;
    }
  }

  /** Number of rows of `outs` that match `h`: the full outgroup scan. */
  function MatchCount(h: string, outs: seq<string>, thresh: nat): (c: nat)
    requires forall j :: 0 <= j < |outs| ==> |outs[j]| == |h|
    ensures c <= |outs|
  {
    if outs == [] then 0
    else MatchCount(h, outs[..|outs| - 1], thresh) + (if Matches(h, outs[|outs| - 1], thresh) then 1 else 0)
  }

  lemma MatchCountSnoc(h: string, outs: seq<string>, r: string, thresh: nat)
    requires forall j :: 0 <= j < |outs| ==> |outs[j]| == |h|
    requires |r| == |h|
    ensures MatchCount(h, outs + [r], thresh) == MatchCount(h, outs, thresh) + (if Matches(h, r, thresh) then 1 else 0)
  {
    assert (outs + [r])[..|outs|] == outs;
  }

  lemma {:induction false} MatchCountGrow(h: string, outs: seq<string>, thresh: nat, m: nat)
    requires forall j :: 0 <= j < |outs| ==> |outs[j]| == |h|
    requires m <= |outs|
    ensures MatchCount(h, outs[..m], thresh) <= MatchCount(h, outs, thresh)
    decreases |outs| - m
  {
    if m == |outs| {
      assert outs[..m] == outs;
    } else {
      var p := outs[..|outs| - 1];
      assert outs[..m] == p[..m];
      MatchCountGrow(h, p, thresh, m);
    }
  }

  /** The ingroup frequency test of hapmatch.cc:206 and 272. */
  predicate FrequentIn(count: nat, ingroup: nat, infreq: real)
    requires ingroup > 0
  {
    (count as real) / (ingroup as real) >= infreq
  }

  /** The outgroup frequency test of hapmatch.cc:210 and 273. */
  predicate WithinCap(count: nat, outgroup: nat, outfreq: real)
    requires outgroup > 0
  {
    (count as real) / (outgroup as real) <= outfreq
  }

  lemma DivAtMost(c: real, n: real, f: real)
    requires n > 0.0
    ensures c / n <= f <==> c <= f * n
  {
    if c / n <= f {
      assert c == (c / n) * n;
    } else {
      assert c == (c / n) * n;
    }
  }

  /** The smallest outgroup count that the frequency test rejects. */
  function FirstOverCap(outgroup: nat, outfreq: real): nat
    requires outgroup > 0
  {
    var t := outfreq * (outgroup as real);
    if t < 0.0 then 0 else t.Floor + 1
  }

  /** A count passes the outgroup test exactly when it is below `FirstOverCap`. */
  lemma WithinCapBelowFirstOverCap(c: nat, outgroup: nat, outfreq: real)
    requires outgroup > 0
    ensures WithinCap(c, outgroup, outfreq) <==> c < FirstOverCap(outgroup, outfreq)
  {
    DivAtMost(c as real, outgroup as real, outfreq);
  }

  /**
   * The scan of the outgroup rows for haplotype `h`, counting into
   * `counts[i]` (hapmatch.cc:208-247). Before each row the running count is
   * tested against the outgroup cap, and the scan stops (`j = outgroup`) at
   * the first failure. The count ends as the full match count, or as the
   * first count over the cap when the full count passes it.
   */
  method ScanRows(counts: array<nat>, i: nat, h: string, outs: seq<string>,
                  outgroup: nat, outfreq: real, thresh: nat)
    requires i < counts.Length && counts[i] == 0
    requires outgroup > 0 && |outs| == outgroup
    requires forall j :: 0 <= j < |outs| ==> |outs[j]| == |h|
    modifies counts
    ensures counts[i] == Min(MatchCount(h, outs, thresh), FirstOverCap(outgroup, outfreq))
    ensures forall k :: 0 <= k < counts.Length && k != i ==> counts[k] == old(counts[k])
  {
    var cap := FirstOverCap(outgroup, outfreq);
    var j := 0;
    while j < outgroup
      invariant 0 <= j <= outgroup + 1
      invariant j <= outgroup ==> counts[i] == Min(MatchCount(h, outs[..j], thresh), cap)
      invariant j == outgroup + 1 ==> counts[i] == cap <= MatchCount(h, outs, thresh)
      invariant forall k :: 0 <= k < counts.Length && k != i ==> counts[k] == old(counts[k])
    {
      WithinCapBelowFirstOverCap(counts[i], outgroup, outfreq);
      if WithinCap(counts[i], outgroup, outfreq) {
        assert outs[..j + 1][..j] == outs[..j];
        var m := RowMatches(h, outs[j], thresh);
        if m {
          counts[i] := counts[i] + 1;
        }
      } else {
        MatchCountGrow(h, outs, thresh, j);
        j := outgroup;
      }
      j := j + 1;
    }
    assert outs[..outgroup] == outs;
  }

  /**
   * The outgroup counts of all unique haplotypes (hapmatch.cc:204-250). A
   * haplotype that fails the ingroup test keeps 0; the others get the capped
   * count of `ScanRows`, which never exceeds the outgroup size.
   */
  method ScanOutgroup(u: seq<string>, cin: seq<nat>, outs: seq<string>,
                      ingroup: nat, infreq: real, outgroup: nat, outfreq: real, thresh: nat)
    returns (cout: seq<nat>)
    requires ingroup > 0 && outgroup > 0
    requires |cin| == |u| && |outs| == outgroup
    requires forall i, j :: 0 <= i < |u| && 0 <= j < |outs| ==> |outs[j]| == |u[i]|
    ensures |cout| == |u|
    ensures forall i :: 0 <= i < |u| ==>
      cout[i] == if FrequentIn(cin[i], ingroup, infreq)
                 then Min(MatchCount(u[i], outs, thresh), FirstOverCap(outgroup, outfreq))
                 else 0
    ensures forall i :: 0 <= i < |u| ==> cout[i] <= outgroup
  {
    var counts := new nat[|u|](_ => 0);
    var i := 0;
    while i < |u|
      invariant 0 <= i <= |u|
      invariant forall k :: 0 <= k < i ==>
        counts[k] == (if FrequentIn(cin[k], ingroup, infreq)
                      then Min(MatchCount(u[k], outs, thresh), FirstOverCap(outgroup, outfreq))
                      else 0)
      invariant forall k :: i <= k < |u| ==> counts[k] == 0
    {
      if FrequentIn(cin[i], ingroup, infreq) {
        ScanRows(counts, i, u[i], outs, outgroup, outfreq, thresh);
      }
      i := i + 1;
    }
    cout := counts[..];
  }

  function Min(a: nat, b: nat): nat {
    if a <= b then a else b
  }
}
