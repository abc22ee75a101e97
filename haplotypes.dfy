/**
 * Unique ingroup haplotypes and their ingroup counts (hapmatch.cc:165-194):
 * copy the ingroup rows, sort them, drop adjacent repeats with
 * `unique`/`erase`, then count every unique haplotype among the ingroup rows.
 */
module Haplotypes {
  import Lex

  /** Number of entries of `s` equal to `h`, counting from the front. */
  function Occurrences(s: seq<string>, h: string): (n: nat)
    ensures n <= |s|
  {
    if s == [] then 0
    else Occurrences(s[..|s| - 1], h) + (if s[|s| - 1] == h then 1 else 0)
  }

  lemma OccurrencesSnoc(s: seq<string>, x: string, h: string)
    ensures Occurrences(s + [x], h) == Occurrences(s, h) + (if x == h then 1 else 0)
  {
    assert (s + [x])[..|s|] == s;
  }

  /** No string appears twice. */
  predicate Distinct(u: seq<string>) {
    forall i, j :: 0 <= i < j < |u| ==> u[i] != u[j]
  }

  /** Every neighbour pair is in order (repeats allowed). */
  predicate Sorted(s: seq<string>) {
    forall k :: 0 < k < |s| ==> Lex.LessEq(s[k - 1], s[k])
  }

  /** Every pair is in strict order. */
  predicate StrictlySorted(s: seq<string>) {
    forall i, j :: 0 <= i < j < |s| ==> Lex.Less(s[i], s[j])
  }

  /** Sum of the counts of the haplotypes of `u` among `s`. */
  function SumOccurrences(u: seq<string>, s: seq<string>): nat {
    if u == [] then 0 else Occurrences(s, u[0]) + SumOccurrences(u[1..], s)
  }

  lemma {:induction false} OccurrencesPositive(s: seq<string>, h: string)
    ensures Occurrences(s, h) > 0 <==> h in s
  {
    if s != [] {
      var p := s[..|s| - 1];
      OccurrencesPositive(p, h);
      assert s == p + [s[|s| - 1]];
    }
  }

  lemma {:induction false} StrictChain(u: seq<string>, i: nat, j: nat)
    requires forall k :: 0 < k < |u| ==> Lex.Less(u[k - 1], u[k])
    requires i < j < |u|
    ensures Lex.Less(u[i], u[j])
    decreases j - i
  {
    if i + 1 < j {
      StrictChain(u, i + 1, j);
      Lex.LessTransitive(u[i], u[i + 1], u[j]);
    }
  }

  /** Strict order between neighbours gives strict order between all pairs. */
  lemma StrictNeighboursSorted(u: seq<string>)
    requires forall k :: 0 < k < |u| ==> Lex.Less(u[k - 1], u[k])
    ensures StrictlySorted(u)
  {
    forall i, j | 0 <= i < j < |u| ensures Lex.Less(u[i], u[j]) {
      StrictChain(u, i, j);
    }
  }

  lemma StrictlySortedDistinct(u: seq<string>)
    requires StrictlySorted(u)
    ensures Distinct(u)
  {
    forall i, j | 0 <= i < j < |u| ensures u[i] != u[j] {
      if u[i] == u[j] {
        Lex.LessIrreflexive(u[i]);
      }
    }
  }

  /** A string occurs exactly once in a sequence without repeats that holds it. */
  lemma {:induction false} OccursOnce(u: seq<string>, h: string)
    requires Distinct(u) && h in u
    ensures Occurrences(u, h) == 1
  {
    var p := u[..|u| - 1];
    assert u == p + [u[|u| - 1]];
    if u[|u| - 1] == h {
      OccurrencesPositive(p, h);
    } else {
      OccursOnce(p, h);
    }
  }

  lemma {:induction false} SumOccurrencesNoRows(u: seq<string>)
    ensures SumOccurrences(u, []) == 0
  {
    if u != [] {
      SumOccurrencesNoRows(u[1..]);
    }
  }

  lemma {:induction false} SumOccurrencesSnoc(u: seq<string>, s: seq<string>, x: string)
    ensures SumOccurrences(u, s + [x]) == SumOccurrences(u, s) + Occurrences(u, x)
  {
    if u != [] {
      assert (s + [x])[..|s + [x]| - 1] == s;
      SumOccurrencesSnoc(u[1..], s, x);
      OccurrencesFront(u, x);
    }
  }

  lemma {:induction false} OccurrencesFront(u: seq<string>, x: string)
    requires u != []
    ensures Occurrences(u, x) == (if u[0] == x then 1 else 0) + Occurrences(u[1..], x)
  {
    if |u| > 1 {
      assert u[1..][..|u[1..]| - 1] == u[..|u| - 1][1..];
      OccurrencesFront(u[..|u| - 1], x);
    }
  }

  /**
   * Count conservation: when `u` lists every haplotype of `s` exactly once,
   * the counts of `u`'s haplotypes add up to the number of rows.
   */
  lemma {:induction false} CountsCoverGroup(u: seq<string>, s: seq<string>)
    requires Distinct(u)
    requires forall h :: h in s ==> h in u
    ensures SumOccurrences(u, s) == |s|
  {
    if s == [] {
      SumOccurrencesNoRows(u);
    } else {
      var p, x := s[..|s| - 1], s[|s| - 1];
      assert s == p + [x];
      CountsCoverGroup(u, p);
      SumOccurrencesSnoc(u, p, x);
      OccursOnce(u, x);
    }
  }

  /** A run without sites: every row is empty, so there is one haplotype, carried by every row. */
  lemma {:induction false} NoSitesOneHaplotype(rows: seq<string>)
    requires |rows| > 0
    requires forall x :: 0 <= x < |rows| ==> |rows[x]| == 0
    ensures (set h | h in rows) == {""}
    ensures Occurrences(rows, "") == |rows|
  {
    var p := rows[..|rows| - 1];
    assert rows[|rows| - 1] == "";
    if |p| > 0 {
      NoSitesOneHaplotype(p);
      assert rows == p + [""];
    }
  }

  /** Exchanges two neighbouring entries. */
  method SwapDown(a: array<string>, j: int)
    requires 0 < j < a.Length
    modifies a
    ensures a[j - 1] == old(a[j]) && a[j] == old(a[j - 1])
    ensures forall k :: 0 <= k < a.Length && k != j - 1 && k != j ==> a[k] == old(a[k])
    ensures multiset(a[..]) == multiset(old(a[..]))
  {
    a[j - 1], a[j] := a[j], a[j - 1];
  }

  /** Moves `a[i]` down into the sorted prefix `a[..i]`. */
  method InsertInto(a: array<string>, i: int)
    requires 0 <= i < a.Length
    requires forall k :: 0 < k < i ==> Lex.LessEq(a[k - 1], a[k])
    modifies a
    ensures forall k :: 0 < k <= i ==> Lex.LessEq(a[k - 1], a[k])
    ensures forall k :: i < k < a.Length ==> a[k] == old(a[k])
    ensures multiset(a[..]) == multiset(old(a[..]))
  {
    var j := i;
    while j > 0 && Lex.Less(a[j], a[j - 1])
      invariant 0 <= j <= i
      invariant forall k :: 0 < k < j ==> Lex.LessEq(a[k - 1], a[k])
      invariant forall k :: j < k <= i ==> Lex.LessEq(a[k - 1], a[k])
      invariant 0 < j < i ==> Lex.LessEq(a[j - 1], a[j + 1])
      invariant forall k :: i < k < a.Length ==> a[k] == old(a[k])
      invariant multiset(a[..]) == multiset(old(a[..]))
    {
      SwapDown(a, j);
      j := j - 1;
    }
    if j > 0 && a[j - 1] != a[j] {
      Lex.LessTotal(a[j - 1], a[j]);
    }
  }

  /** Insertion sort in place (the `std::sort` at hapmatch.cc:167). */
  method SortInPlace(a: array<string>)
    modifies a
    ensures Sorted(a[..])
    ensures multiset(a[..]) == multiset(old(a[..]))
  {
    var i := 0;
    while i < a.Length
      invariant 0 <= i <= a.Length
      invariant forall k :: 0 < k < i ==> Lex.LessEq(a[k - 1], a[k])
      invariant multiset(a[..]) == multiset(old(a[..]))
    {
      InsertInto(a, i);
      i := i + 1;
    }
  }

  /**
   * `std::unique` on a sorted array (hapmatch.cc:168): moves the first of
   * every run of equal strings to the front and returns the new length.
   */
  method UniqueInPlace(a: array<string>) returns (n: nat)
    requires Sorted(a[..])
    modifies a
    ensures n <= a.Length
    ensures a.Length > 0 ==> n > 0
    ensures forall k :: 0 < k < n ==> Lex.Less(a[k - 1], a[k])
    ensures forall h :: h in a[..n] <==> h in old(a[..])
  {
    if a.Length == 0 {
      return 0;
    }
    ghost var s := a[..];
    var w, r := 1, 1;
    while r < a.Length
      invariant 1 <= w <= r <= a.Length
      invariant forall k :: r <= k < a.Length ==> a[k] == s[k]
      invariant a[w - 1] == s[r - 1]
      invariant forall k :: 0 < k < w ==> Lex.Less(a[k - 1], a[k])
      invariant forall h :: h in a[..w] <==> h in s[..r]
    {
      assert s[..r + 1] == s[..r] + [s[r]];
      if a[r] != a[w - 1] {
        ghost var kept := a[..w];
        a[w] := a[r];
        assert a[..w + 1] == kept + [s[r]];
        w := w + 1;
      } else {
        assert a[w - 1] in a[..w];
      }
      r := r + 1;
    }
    assert s[..r] == s;
    n := w;
  }

  /**
   * The unique ingroup haplotypes (hapmatch.cc:166-171): strictly sorted,
   * hence without repeats, holding exactly the strings of the ingroup, and at
   * least one when the ingroup is not empty.
   */
  method UniqueHaplotypes(rows: seq<string>) returns (u: seq<string>)
    ensures StrictlySorted(u) && Distinct(u)
    ensures forall h :: h in u <==> h in rows
    ensures |u| <= |rows|
    ensures |rows| > 0 ==> |u| >= 1
  {
    var a := new string[|rows|](i requires 0 <= i < |rows| => rows[i]);
    assert a[..] == rows;
    SortInPlace(a);
    assert forall h :: h in a[..] <==> h in multiset(a[..]);
    var n := UniqueInPlace(a);
    u := a[..n];
    StrictNeighboursSorted(u);
    StrictlySortedDistinct(u);
  }

  /**
   * Ingroup count of every unique haplotype (hapmatch.cc:183-194): entry `i`
   * is the number of ingroup rows equal to `u[i]`.
   */
  method CountIngroupHaplotypes(u: seq<string>, rows: seq<string>) returns (c: seq<nat>)
    ensures |c| == |u|
    ensures forall i :: 0 <= i < |u| ==> c[i] == Occurrences(rows, u[i])
  {
    var counts := new nat[|u|](_ => 0);
    var i := 0;
    while i < |u|
      invariant 0 <= i <= |u|
      invariant forall k :: 0 <= k < i ==> counts[k] == Occurrences(rows, u[k])
      invariant forall k :: i <= k < |u| ==> counts[k] == 0
    {
      var j := 0;
      while j < |rows|
        invariant 0 <= j <= |rows|
        invariant counts[i] == Occurrences(rows[..j], u[i])
        invariant forall k :: 0 <= k < i ==> counts[k] == Occurrences(rows, u[k])
        invariant forall k :: i < k < |u| ==> counts[k] == 0
      {
        assert rows[..j + 1][..j] == rows[..j];
        if u[i] == rows[j] {
          counts[i] := counts[i] + 1;
        }
        j := j + 1;
      }
      assert rows[..j] == rows;
      i := i + 1;
    }
    c := counts[..];
  }

  /**
   * What the ingroup counts add up to: every unique haplotype is seen at
   * least once and the counts sum to the ingroup size.
   */
  lemma {:induction false} IngroupCounts(u: seq<string>, rows: seq<string>)
    requires Distinct(u)
    requires forall h :: h in u <==> h in rows
    ensures forall i :: 0 <= i < |u| ==> Occurrences(rows, u[i]) >= 1
    ensures SumOccurrences(u, rows) == |rows|
  {
    forall i | 0 <= i < |u| ensures Occurrences(rows, u[i]) >= 1 {
      OccurrencesPositive(rows, u[i]);
    }
    CountsCoverGroup(u, rows);
  }
}
