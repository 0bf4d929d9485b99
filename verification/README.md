# git-hours work-time estimator, modelled in Dafny

git-hours estimates how many hours each author spent on a repository from
the author timestamps of its commits. This project models the estimation
engine of `pkg/analyzer/analyzer.go` over plain values and proves properties
of it. The model has three parts.

- **Commit filter and ledger builder** (`Filter`). This is the callback run for
  each commit of the history. It drops merge commits when merges are excluded,
  and commits outside the `[Since, Until]` window. Each surviving commit is
  filed under its email, rewritten once through the alias table, and counted.
- **Session estimator** (`Estimator`, `Times`). This is `estimateHours`. It sorts
  one author's timestamps and credits each gap between neighbours. A gap shorter
  than `MaxCommitDiffInMinutes` earns its real length. Any other gap earns
  `FirstCommitAdditionInMinutes`. The total is then rounded to whole hours.
- **Result aggregation** (`Results`, `Analyzer`). It builds one entry per
  author, named by its email. It also builds a synthetic `"total"` entry holding
  the sum of the per-author hours and the accepted-commit count.

`Types` holds `Config`, `AuthorWork` and `Result`
(`pkg/analyzer/analyzer.go:16-35`), and `Commit`: the three fields of a
go-git commit that the analysis reads, namely the message, the author's
timestamp and the author's email (`pkg/analyzer/analyzer.go:68`, `73`, `76`,
`80`, `85`). `Types.DefaultConfig` holds the command
line's defaults (`cmd/git-hours/main.go:13-28`).

Modelling choices:

- Timestamps are integer Unix seconds.
- The source compares floating-point minutes. Here, "gap < max minutes" is
  `gap < 60 * max` seconds.
- `math.Round(totalMinutes / 60)` is rounding credited seconds `S` divided by
  3600 half away from zero: `(S + 1800) / 3600` for `S >= 0`, and the mirror
  image for negative `S`. A negative `S` can arise because the thresholds are
  unrestricted integers.
- Go's zero `time.Time` marks a missing `Since`/`Until`. Here it is
  `Bound.Unbounded`.
- Go's map iteration order is unspecified, so the aggregation takes the order
  as a parameter `order`. The model proves that the result does not depend on it.
- `sort.Slice` is modelled as a functional insertion sort. It is specified as
  "sorted and a permutation".

Behaviour of the code that the model keeps, even where it may surprise:

- An author's display name is the email itself (`getAuthorName`).
- The `"total"` entry's name is the empty string.
- A zero gap is same-session only when `MaxCommitDiffInMinutes > 0`.
  `Estimator.DuplicateCountsWhenMaxIsZero` shows a repeated timestamp earning a
  full session credit under a zero maximum.
- Raising `MaxCommitDiffInMinutes` can lower the estimate
  (`Estimator.MaxGapNotMonotone`). Only the session credit is monotone.

## Model

| member | source | states |
|---|---|---|
| Times.SortTimes | pkg/analyzer/analyzer.go:124-127 | the timestamps come out sorted oldest first and are a permutation of the input |
| Times.SortedPermutationUnique | pkg/analyzer/analyzer.go:124-127 | two sorted permutations of the same timestamps are equal, so the order the timestamps arrived in is irrelevant after sorting |
| Estimator.GapCredit | pkg/analyzer/analyzer.go:133-140 | a gap shorter than the maximum earns its real length and any other gap earns the fixed per-session credit; either way it earns at most the larger of the two thresholds, and nothing negative for a forward gap under a non-negative credit |
| Estimator.SessionSeconds | pkg/analyzer/analyzer.go:129-141 | the walk over n timestamps credits at most (n-1) times the larger threshold, and a sorted walk with a non-negative session credit credits nothing negative |
| Estimator.RoundHours | pkg/analyzer/analyzer.go:143 | the result is the nearest whole hour to the credited time; a tie at half an hour goes up for non-negative totals and down for negative ones (away from zero) |
| Estimator.EstimateHours | pkg/analyzer/analyzer.go:119-144 | fewer than two timestamps give 0; a non-negative session credit gives a non-negative estimate; 3600 times the estimate is at most (n-1) gaps at the larger threshold plus half an hour |
| Estimator.ComputeHours | pkg/analyzer/analyzer.go:119-144 | the source's loop (sort, add one credit per consecutive pair, round) computes the functional estimate |
| Estimator.EstimateIgnoresOrder | pkg/analyzer/analyzer.go:124-127 | any two arrangements of the same multiset of timestamps give the same hours |
| Estimator.SessionSecondsSplit | pkg/analyzer/analyzer.go:132-141 | walking a concatenation credits both walks plus the one gap that joins them |
| Estimator.OneSessionCreditsSpan | pkg/analyzer/analyzer.go:135-136 | when every gap is below the maximum, the credited time is exactly the span from first to last timestamp |
| Estimator.AllNewSessionsCreditFixed | pkg/analyzer/analyzer.go:137-140 | when no gap is below the maximum, every gap earns exactly the session credit: (n-1) credits in all |
| Estimator.DuplicateAddsNothing | pkg/analyzer/analyzer.go:132-136 | with a positive maximum gap, adding a timestamp that is already present leaves the estimate unchanged |
| Estimator.DuplicateCountsWhenMaxIsZero | pkg/analyzer/analyzer.go:120-143 | with a maximum gap of zero or below, one commit gives 0 hours but the same timestamp twice gives the per-session credit rounded to hours (two hours under the default credit) |
| Estimator.CreditMonotone | pkg/analyzer/analyzer.go:132-143 | raising only the session credit never lowers the estimate |
| Estimator.MaxGapNotMonotone | pkg/analyzer/analyzer.go:135-140 | a 61-minute gap is worth 2 hours under a 60-minute maximum but 1 hour under a 120-minute one, so the maximum gap is not monotone |
| Estimator.WorkedExample | pkg/analyzer/analyzer.go:119-144 | with 120/120 thresholds, commits at 09:00, 09:30, 11:00 and 15:00 in any order give 30+90+120 minutes = 4 hours |
| Filter.Classify | pkg/analyzer/analyzer.go:67-78 | a commit is accepted exactly when it passes the merge check and lies in the closed window; an excluded merge is reported as a merge skip whatever its date; a date skip names a bound that is set and that the commit violates |
| Filter.SinceIsInclusive | pkg/analyzer/analyzer.go:72-78 | a commit exactly at Since that passes the merge check is accepted when Until is missing or not earlier than it |
| Filter.UntilIsInclusive | pkg/analyzer/analyzer.go:72-78 | a commit exactly at Until that passes the merge check is accepted when Since is missing or not later than it |
| Filter.MissingBoundRejectsNothing | pkg/analyzer/analyzer.go:72-78 | a missing Since never causes a before-Since skip and a missing Until never causes an after-Until skip, whatever the other bound |
| Filter.CanonicalEmail | pkg/analyzer/analyzer.go:80-83 | an email with an entry in the alias table is filed under exactly that entry, and any other email under itself |
| Filter.AliasIsSingleStep | pkg/analyzer/analyzer.go:80-83 | for any table, an email whose alias has an alias of its own is filed under the first alias, and when the second alias differs from the first, looking the key up once more would move it again |
| Filter.Step | pkg/analyzer/analyzer.go:66-88 | one callback: a rejected commit leaves the ledger exactly as it was; an accepted commit adds only its canonical email to the keys, appends its timestamp to that bucket and adds one to the count, and leaves every other bucket unchanged |
| Filter.BuildLedger | pkg/analyzer/analyzer.go:62-88 | the callback folded over the history counts at most as many commits as the history holds |
| Filter.LedgerMatchesFilter | pkg/analyzer/analyzer.go:66-88 | the ledger built by the callback equals "filter, then group": its count is the number of accepted commits, each author's bucket is exactly the timestamps of that author's accepted commits in history order, and no bucket is empty |
| Filter.BucketSizesSumToAccepted | pkg/analyzer/analyzer.go:85-86 | the bucket sizes, summed over any duplicate-free list of keys covering the authors, equal the accepted-commit counter |
| Filter.StepKeepsSizeSum | pkg/analyzer/analyzer.go:85-86 | one callback step keeps the bucket sizes summing to the counter |
| Filter.RejectedCommitLeavesNoTrace | pkg/analyzer/analyzer.go:66-78 | a commit the filter rejects can be deleted from anywhere in the history without changing the ledger |
| Filter.ExcludedMergeLeavesNoTrace | pkg/analyzer/analyzer.go:67-70 | with merges excluded, a commit whose message starts with "Merge " is absent from every bucket and from the counter |
| Filter.AcceptedIsFiled | pkg/analyzer/analyzer.go:66-88 | every accepted commit of any history has its timestamp in the bucket of its canonical email |
| Filter.AliasesPoolIntoOneBucket | pkg/analyzer/analyzer.go:80-85 | in any history, two accepted commits whose raw emails alias to one canonical email both have their timestamps in that one bucket |
| Sums.SumOverPermutation | pkg/analyzer/analyzer.go:97-107 | summing per-author values over two duplicate-free enumerations of the same authors gives the same total |
| Results.AuthorName | pkg/analyzer/analyzer.go:147-151 | the display name is the email unchanged: no person's name is looked up |
| Results.Entries | pkg/analyzer/analyzer.go:97-105 | walking a list of authors writes an entry for exactly the listed authors, each holding its name, estimate and bucket size |
| Results.Aggregate | pkg/analyzer/analyzer.go:94-113 | the keys are the authors plus "total"; each author other than "total" gets its email as name, its estimate and its bucket size; "total" has the empty name and carries the accepted count and the sum of the estimates |
| Results.AggregateIgnoresOrder | pkg/analyzer/analyzer.go:97-107 | the result is the same whatever order the authors are visited in |
| Results.EntriesNamedByEmail | pkg/analyzer/analyzer.go:147-151 | each author entry's name is its email key |
| Results.TotalRowSumsAuthorRows | pkg/analyzer/analyzer.go:106-113 | the "total" row's hours are the sum of the author rows' hours, and its commits the sum of their commits |
| Results.Summarize | pkg/analyzer/analyzer.go:94-113 | the source's loop (visit the authors in some order, accumulate the hours, then write "total") gives every author an entry with its email, estimate and bucket size, gives "total" the ledger's count, and equals the aggregate for the order it visited |
| Analyzer.Analyze | pkg/analyzer/analyzer.go:62-115 | the result has an entry for exactly the authors with a bucket plus "total", and "total" counts every accepted commit of the history |
| Analyzer.CollectLedger | pkg/analyzer/analyzer.go:62-88 | the single pass over the history yields the ledger of the callback fold |
| Analyzer.AnalyzeRepository | pkg/analyzer/analyzer.go:62-115 | the whole analysis, run as the source's two loops, gives an entry for exactly the canonical emails with an accepted commit, each holding that author's estimate and accepted-commit count, and a "total" entry counting all accepted commits |
| Analyzer.AnalyzeMatchesReference | pkg/analyzer/analyzer.go:66-113 | the fold-built result agrees with "filter the history, then group the accepted commits by canonical email": same authors, same estimates, same counts |
| Analyzer.TotalsAgree | pkg/analyzer/analyzer.go:85-113 | the "total" commit count equals the number of accepted commits and the sum of the author commit counts; the "total" hours equal the sum of the author hours |
| Analyzer.AnalyzeIgnoresOrder | pkg/analyzer/analyzer.go:97-107 | the analysis result does not depend on the map iteration order |

## Left out

- Repository access is not modelled. This covers opening the repository,
  resolving the branch or HEAD, the commit log iterator and their error returns
  (`pkg/analyzer/analyzer.go:40-60`, `89-91`). These are calls into go-git. The
  commit history is a finite `seq<Commit>` parameter, and `Config.gitPath` and
  `Config.branch` are carried along but not interpreted.
- `cmd/git-hours/main.go` is not modelled. It holds flag parsing, the
  shallow-clone check, JSON output, process exit, and `parseDateInput`, which
  reads the clock and uses Go's date parsing. Only its default values appear, as
  `Types.DefaultConfig`.
- Floating-point rounding error in `Minutes()` and `math.Round` is not modelled.
  The model uses exact integer arithmetic.
- Sub-second precision of timestamps is not modelled.
- Overflow of Go's 64-bit `int` and saturation of `time.Duration` are not
  modelled. Integers are unbounded.
- Commit timestamps carry no time zone. Gaps and comparisons depend only on the
  instant.
- An author whose email is literally `"total"` is not given an entry of their
  own. The synthetic entry overwrites theirs, as in the source. The per-author
  contracts and `Analyzer.TotalsAgree` exclude that key.
- `sort.Slice` sorts the caller's slice in place. The model sorts a copy, which
  no caller can tell apart: only the slice's length is read afterwards
  (`pkg/analyzer/analyzer.go:104`), sorting does not change it, and
  `authorCommits`, which shares the slice's backing array, is not read again.
- Go compares commit messages and emails as bytes (`strings.HasPrefix`, map
  keys); the model compares characters. The two agree under any one-to-one
  decoding of bytes into characters that maps ASCII to ASCII, so the
  `"Merge "` match and the equality of author keys are the same.
- Go's `IsZero` treats a bound at exactly 0001-01-01T00:00:00Z (Unix
  -62135596800) as no bound at all. The model's `Bound.At(-62135596800)` has no
  Go counterpart: it rejects commits outside the window, while the source
  would ignore that bound.
