# hapmatch — a verified model of one run's analysis

hapmatch reads simulated samples × sites matrices of '0'/'1' (coalescent
simulator output, one "run" per matrix) and five parameters: the ingroup size,
an ingroup frequency cut-off, the outgroup size, an outgroup frequency cut-off
and a mismatch threshold. For every run it prints the number of sites, the
ingroup and outgroup segregating sites, and the number of matching lineages.
A matching lineage is a distinct ingroup haplotype that is frequent enough in
the ingroup, is seen in the outgroup, and is rare enough there.

The model covers the body of the per-run loop of `main` in `hapmatch.cc`
(lines 103-281), together with the sample-size check at lines 67-70. It is
written in the program's imperative form. Each step is a method with loops
and invariants. Each method is proved against a pure definition, and the
properties of the program are lemmas about those definitions.

- `lex.dfy` (`Lex`): the order of `std::string`, which is used by `std::sort`.
- `sites.dfy` (`Sites`): the ingroup/outgroup partition and the segregating-site tallies.
- `haplotypes.dfy` (`Haplotypes`): the in-place sort, `unique`/`erase`, and the ingroup counts.
- `matching.dfy` (`Matching`): the mismatch rule, the two frequency tests and the capped outgroup scan.
- `hapmatch.dfy` (`Hapmatch`): the final decision and the whole run. It also
  holds `MatchingLineagesSpec`, a reference definition that counts matching
  lineages from full outgroup scans, with no early exits.

The scan of a haplotype's outgroup rows stops as soon as the running count
fails the outgroup test. The model characterises the count the scan leaves:
it is the full match count, or `FirstOverCap`, the smallest count that fails
the test, whichever is smaller. With that characterisation, the whole-run
result is proved equal to the reference count. So neither early exit (the cap
and the mismatch cut-off) changes the printed number.

Worked example (`WorkedExample`). The run has 3 sites. The ingroup rows are
`100 100 100 010` and the outgroup rows are `100 100 000 000 000 000`. The
cut-offs are 0.5 and 0.5 and the threshold is 0. The result is `3 2 1 1`.
Column 1 holds a '1' in the ingroup row `010`, so the ingroup has 2
segregating sites, columns 0 and 1 (hapmatch.cc:147-155).

## Model

| member | source | states |
|---|---|---|
| `Sites.Partition` | hapmatch.cc:104-135 | The ingroup is exactly the first `ingroup` rows and the outgroup the next `outgroup` rows, both in their original order. |
| `Sites.SegregatingSites` | hapmatch.cc:145-163 | The two tallies equal the full-scan column counts of each group, so the `break` at the first '1' does not change them. Neither exceeds the number of sites. |
| `Sites.SegSitesCountsColumns` | hapmatch.cc:147-163 | A tally is the size of the set of columns in which some row of the group holds '1'. |
| `Haplotypes.SortInPlace` | hapmatch.cc:167 | After sorting, the array is ordered by `std::string` order and is a permutation of its old contents. |
| `Haplotypes.UniqueInPlace` | hapmatch.cc:168 | `unique` on a sorted array leaves a strictly increasing prefix that holds exactly the strings the array held. The prefix is non-empty when the array is. |
| `Haplotypes.UniqueHaplotypes` | hapmatch.cc:166-171 | The unique ingroup haplotypes are strictly sorted and have no repeats. They are exactly the ingroup's strings. Their number is between 1 and `ingroup` when the ingroup is non-empty. |
| `Haplotypes.CountIngroupHaplotypes` | hapmatch.cc:183-194 | Entry `i` is the number of ingroup rows equal to unique haplotype `i`. |
| `Haplotypes.IngroupCounts` | hapmatch.cc:183-194 | Every ingroup count is at least 1, and the counts add up to the ingroup size. |
| `Haplotypes.NoSitesOneHaplotype` | hapmatch.cc:166-194 | With no sites, the only ingroup haplotype is the empty string, and its count is the ingroup size. |
| `Matching.CountMismatches` | hapmatch.cc:209-236 | The cut-off mismatch count, including the extra pass at `q == size()` that reads '\0', is the full count of positions with '1' in the haplotype and '0' in the row, capped at `thresh + 1`. So it never exceeds `thresh + 1`, and it equals `thresh` exactly when the full count does. |
| `Matching.RowMatches` | hapmatch.cc:213-241 | With threshold 0, a row matches exactly when it is identical to the haplotype. Otherwise a row matches exactly when its full mismatch count equals the threshold. |
| `Matching.ExactIsNotZeroMismatches` | hapmatch.cc:213-219 | With threshold 0, a row `110` has no 1→0 mismatch against `100`, yet it does not match. |
| `Matching.NoMatchBeyondDerived` | hapmatch.cc:223-241 | A positive threshold larger than the haplotype's number of '1's is never met. |
| `Matching.NoDerivedNeverMatches` | hapmatch.cc:223-241 | With a positive threshold, a haplotype without any '1' matches no row. |
| `Matching.WithinCapBelowFirstOverCap` | hapmatch.cc:210 | A count passes the outgroup test `c/outgroup <= outfreq` exactly when it is below `FirstOverCap`. |
| `Matching.ScanRows` | hapmatch.cc:208-247 | The scan of one haplotype's outgroup rows, which stops (`j = outgroup`) at the first failed test, leaves the full match count or the first count over the cap, whichever is smaller. It changes no other entry. |
| `Matching.ScanOutgroup` | hapmatch.cc:205-250 | A haplotype that fails the ingroup test keeps outgroup count 0. Every other haplotype gets its capped scan count. Every count is at most `outgroup`. |
| `Hapmatch.CapNeverAltersDecision` | hapmatch.cc:205-281 | The decision on the capped count holds exactly when the haplotype passes `infreq` and its full match count is positive and passes `outfreq`. |
| `Hapmatch.CountMatchingLineages` | hapmatch.cc:270-281 | The decision loop counts exactly the qualifying distinct ingroup haplotypes, the reference count. That count is at most the number of unique haplotypes. |
| `Hapmatch.AnalyzeRun` | hapmatch.cc:103-281 | A run's summary is its site count, the two full-scan segregating-site tallies, and the reference matching-lineage count, which is at most `ingroup`. |
| `Hapmatch.Run` | hapmatch.cc:67-70 | A run whose sample count is not `ingroup + outgroup` gives the sample-size error. Any other run gives the summary of `AnalyzeRun`. |
| `Hapmatch.RaisingInfreqNeverAdds` | hapmatch.cc:270-281 | Raising the ingroup frequency cut-off never increases the number of matching lineages. |
| `Hapmatch.LoweringOutfreqNeverAdds` | hapmatch.cc:270-281 | Lowering the outgroup frequency cut-off never increases the number of matching lineages. |
| `Hapmatch.MatchingAtMostHaplotypes` | hapmatch.cc:270-281 | The number of matching lineages is at most the number of distinct ingroup haplotypes. |
| `Hapmatch.WorkedExample` | hapmatch.cc:145-281 | The example run above gives 2 and 1 segregating sites and 1 matching lineage. |

## Left out

- Argument handling (hapmatch.cc:42-51, 291-296): the argument count check, the usage text, `exit(1)` and the `atoi`/`atof` parsing, including the unsigned wrap-around of a negative threshold. The parameters arrive as a `Params` value, and the threshold is a `nat`.
- Reading the simulator output with libsequence's `SimParams`/`SimData` and the `fromfile(stdin)` loop (hapmatch.cc:59-64, 73, 84). That library is not part of this model. A run is given as its rows and its site count, and every row is required to have that many characters. The rows are not required to be over '0'/'1', because no step depends on it.
- The `indexes` buffer (hapmatch.cc:75-90, 288). It is never read.
- Printing the header and the result lines, and `sync_with_stdio` (hapmatch.cc:78-81, 284). `AnalyzeRun` returns the four numbers as a `Summary`.
- The sample-size check. The source makes it once, against the total sample size in the header, before any run. `Run` makes the same comparison for a run. Header and runs share one sample size, so the outcome is the same.
- Floating point: frequencies are exact `real` quotients rather than IEEE doubles.
- Empty groups: `ValidParams` requires both group sizes to be positive. The source handles these cases differently. With `ingroup == 0` it finds no unique haplotypes (hapmatch.cc:166-171), never reaches the divisions at hapmatch.cc:206 and 272, and prints `S 0 Sout 0`. With `outgroup == 0` the test at hapmatch.cc:273 computes `0.0/0`, which is NaN, so no lineage is counted. The model does not cover either case.
- Integer widths: counters and sizes are unbounded integers, and the model assumes every size stays below 2^31. The source's `unsigned` sum `ingroup + outgroup` can wrap (hapmatch.cc:67, 132, 157), and a `vector<int>` ingroup count above `INT_MAX` would overflow (hapmatch.cc:183). The model does not reproduce either wrap-around.
- `Haplotypes.SortInPlace`: it sorts by insertion rather than by the algorithm `std::sort` uses. For a total order, a sorted permutation is unique, so the resulting array is the same.
- `Haplotypes.UniqueInPlace`: it does not state what is left beyond the returned length. `erase` drops that part at hapmatch.cc:168.
