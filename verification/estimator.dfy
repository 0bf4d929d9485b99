/**
  The session estimator (`estimateHours`): one author's timestamps are sorted,
  every gap between neighbours is credited either its real length (when it is
  shorter than the maximum session gap) or a fixed per-session credit
  (otherwise), and the credited time is rounded to whole hours.

  The source measures gaps as floating-point minutes; here they are exact
  integer seconds, so "gap < max minutes" is `gap < 60 * max` and rounding
  credited seconds S to hours is rounding S / 3600 half away from zero.
 */
module Estimator {
  import opened Types
  import opened Times

  const SecondsPerMinute := 60
  const SecondsPerHour := 3600

  function MaxOf(a: int, b: int): int {
    if a < b then b else a
  }

  /** Whether a gap of `gap` seconds keeps two commits in one session. */
  predicate SameSession(gap: int, cfg: Config) {
    gap < SecondsPerMinute * cfg.maxCommitDiffInMinutes
  }

  /** Seconds credited for one gap between consecutive commits: either the
      gap's real length or the fixed per-session credit, never more than the
      larger of the two thresholds, and never negative for a forward gap
      under a non-negative credit. */
  function GapCredit(gap: int, cfg: Config): (g: int)
    ensures SameSession(gap, cfg) ==> g == gap
    ensures !SameSession(gap, cfg) ==> g == SecondsPerMinute * cfg.firstCommitAdditionInMinutes
    ensures g == gap || g == SecondsPerMinute * cfg.firstCommitAdditionInMinutes
    ensures g <= GapCap(cfg)
    ensures gap >= 0 && cfg.firstCommitAdditionInMinutes >= 0 ==> g >= 0
  {
    if SameSession(gap, cfg) then gap
    else SecondsPerMinute * cfg.firstCommitAdditionInMinutes
  }

  /** The most any single gap can earn, in seconds. */
  function GapCap(cfg: Config): int {
    SecondsPerMinute * MaxOf(cfg.maxCommitDiffInMinutes, cfg.firstCommitAdditionInMinutes)
  }

  /** Seconds credited for the consecutive gaps of `t`, walked oldest first.
      No gap earns more than the larger of the two thresholds, and with a
      non-negative session credit a sorted walk earns nothing negative. */
  function SessionSeconds(t: seq<int>, cfg: Config): (s: int)
    ensures |t| >= 1 ==> s <= (|t| - 1) * GapCap(cfg)
    ensures Sorted(t) && cfg.firstCommitAdditionInMinutes >= 0 ==> s >= 0
    decreases |t|
  {
    if |t| < 2 then 0
    else
      var front := t[..|t| - 1];
      var gap := t[|t| - 1] - t[|t| - 2];
      assert Sorted(t) ==> Sorted(front) && gap >= 0;
      MulSucc(|t| - 2, GapCap(cfg));
      SessionSeconds(front, cfg) + GapCredit(gap, cfg)
  }

  lemma MulSucc(n: int, c: int)
    ensures (n + 1) * c == n * c + c
  {
  }

  /** `math.Round(s / 3600)`: the nearest whole number of hours, with a tie
      rounded away from zero. */
  function RoundHours(s: int): (h: int)
    ensures s >= 0 ==> SecondsPerHour * h - 1800 <= s < SecondsPerHour * h + 1800
    ensures s < 0 ==> SecondsPerHour * h - 1800 < s <= SecondsPerHour * h + 1800
  {
    if s >= 0 then (s + 1800) / SecondsPerHour
    else -((-s + 1800) / SecondsPerHour)
  }

  /** The hour estimate for one author's timestamps, in any order. */
  function EstimateHours(dates: seq<int>, cfg: Config): (h: int)
    ensures |dates| < 2 ==> h == 0
    ensures cfg.firstCommitAdditionInMinutes >= 0 ==> h >= 0
    ensures |dates| >= 1 ==> SecondsPerHour * h <= (|dates| - 1) * GapCap(cfg) + 1800
  {
    if |dates| < 2 then 0
    else RoundHours(SessionSeconds(SortTimes(dates), cfg))
  }

  /** The loop of `estimateHours` as the source writes it: sort, then add one
      credit per gap, then round. */
  method ComputeHours(dates: seq<int>, cfg: Config) returns (h: int)
    ensures h == EstimateHours(dates, cfg)
  {
    if |dates| < 2 {
      return 0;
    }
    var sorted := SortTimes(dates);
    var totalSeconds := 0;
    var i := 0;
    while i < |sorted| - 1
      invariant 0 <= i <= |sorted| - 1
      invariant totalSeconds == SessionSeconds(sorted[..i + 1], cfg)
    {
      var gap := sorted[i + 1] - sorted[i];
      if SameSession(gap, cfg) {
        totalSeconds := totalSeconds + gap;
      } else {
        totalSeconds := totalSeconds + SecondsPerMinute * cfg.firstCommitAdditionInMinutes;
      }
      assert sorted[..i + 2][..i + 1] == sorted[..i + 1];
      i := i + 1;
    }
    assert sorted[..|sorted|] == sorted;
    h := RoundHours(totalSeconds);
  }

  /** The estimate depends only on the multiset of timestamps. */
  lemma EstimateIgnoresOrder(a: seq<int>, b: seq<int>, cfg: Config)
    requires multiset(a) == multiset(b)
    ensures EstimateHours(a, cfg) == EstimateHours(b, cfg)
  {
    assert |a| == |multiset(a)| == |multiset(b)| == |b|;
    SortIgnoresOrder(a, b);
  }

  /** Walking `a + b` credits the walk of `a`, the gap joining them and the
      walk of `b`. */
  lemma {:induction false} SessionSecondsSplit(a: seq<int>, b: seq<int>, cfg: Config)
    requires |a| >= 1 && |b| >= 1
    ensures SessionSeconds(a + b, cfg)
         == SessionSeconds(a, cfg) + GapCredit(b[0] - a[|a| - 1], cfg) + SessionSeconds(b, cfg)
    decreases |b|
  {
    var ab := a + b;
    if |b| == 1 {
      assert ab[..|ab| - 1] == a;
    } else {
      var b' := b[..|b| - 1];
      SessionSecondsSplit(a, b', cfg);
      assert ab[..|ab| - 1] == a + b';
      assert b'[0] == b[0];
    }
  }

  /** Within one session (every gap shorter than the maximum) the credited
      time is exactly the span from the first to the last timestamp. */
  lemma {:induction false} OneSessionCreditsSpan(t: seq<int>, cfg: Config)
    requires |t| >= 1
    requires forall i :: 0 <= i < |t| - 1 ==> SameSession(t[i + 1] - t[i], cfg)
    ensures SessionSeconds(t, cfg) == t[|t| - 1] - t[0]
    decreases |t|
  {
    if |t| >= 2 {
      var front := t[..|t| - 1];
      assert forall i :: 0 <= i < |front| - 1 ==> front[i + 1] - front[i] == t[i + 1] - t[i];
      OneSessionCreditsSpan(front, cfg);
      assert SameSession(t[|t| - 1] - t[|t| - 2], cfg);
    }
  }

  /** When every gap starts a new session, each one earns exactly the
      per-session credit. */
  lemma {:induction false} AllNewSessionsCreditFixed(t: seq<int>, cfg: Config)
    requires |t| >= 1
    requires forall i :: 0 <= i < |t| - 1 ==> !SameSession(t[i + 1] - t[i], cfg)
    ensures SessionSeconds(t, cfg) == (|t| - 1) * (SecondsPerMinute * cfg.firstCommitAdditionInMinutes)
    decreases |t|
  {
    if |t| >= 2 {
      MulSucc(|t| - 2, SecondsPerMinute * cfg.firstCommitAdditionInMinutes);
      var front := t[..|t| - 1];
      assert forall i :: 0 <= i < |front| - 1 ==> front[i + 1] - front[i] == t[i + 1] - t[i];
      AllNewSessionsCreditFixed(front, cfg);
      assert !SameSession(t[|t| - 1] - t[|t| - 2], cfg);
    }
  }

  /** A timestamp that repeats one already present adds a zero gap, which is
      same-session (and so credits nothing) whenever the maximum gap is
      positive: the estimate does not change. */
  lemma DuplicateAddsNothing(dates: seq<int>, d: int, cfg: Config)
    requires d in dates
    requires cfg.maxCommitDiffInMinutes > 0
    ensures EstimateHours(dates + [d], cfg) == EstimateHours(dates, cfg)
  {
    var s := SortTimes(dates);
    assert d in multiset(s);
    var k :| 0 <= k < |s| && s[k] == d;
    var s' := s[..k + 1] + [d] + s[k + 1..];
    DuplicateStaysSorted(s, k);
    DuplicateKeepsMultiset(s, k);
    assert multiset(dates + [d]) == multiset(dates) + multiset{d};
    EstimateFromSorted(dates + [d], s', cfg);
    DuplicateWalksTheSame(s, k, cfg);
  }

  /** Repeating the element at position `k` right after itself adds one
      more copy of it. */
  lemma DuplicateKeepsMultiset(s: seq<int>, k: int)
    requires 0 <= k < |s|
    ensures multiset(s[..k + 1] + [s[k]] + s[k + 1..]) == multiset(s) + multiset{s[k]}
  {
    assert s == s[..k + 1] + s[k + 1..];
  }

  /** Repeating the element at position `k` right after itself keeps a
      sorted sequence sorted. */
  lemma DuplicateStaysSorted(s: seq<int>, k: int)
    requires Sorted(s) && 0 <= k < |s|
    ensures Sorted(s[..k + 1] + [s[k]] + s[k + 1..])
  {
    var s' := s[..k + 1] + [s[k]] + s[k + 1..];
    forall i, j | 0 <= i < j < |s'|
      ensures s'[i] <= s'[j]
    {
      var i' := if i <= k then i else i - 1;
      var j' := if j <= k then j else j - 1;
      assert s'[i] == s[i'] && s'[j] == s[j'];
    }
  }

  /** Repeating the element at position `k` right after itself adds only a
      zero gap, which credits nothing when the maximum gap is positive. */
  lemma DuplicateWalksTheSame(s: seq<int>, k: int, cfg: Config)
    requires 0 <= k < |s|
    requires cfg.maxCommitDiffInMinutes > 0
    ensures SessionSeconds(s[..k + 1] + [s[k]] + s[k + 1..], cfg) == SessionSeconds(s, cfg)
  {
    var p, q := s[..k + 1], s[k + 1..];
    RepeatLastWalksTheSame(p, cfg);
    SplitAfter(s, k);
    SameEndSameWalk(p + [s[k]], p, q, cfg);
  }

  /** Cutting `s` after position `k`, with and without a repeat of `s[k]`. */
  lemma SplitAfter(s: seq<int>, k: int)
    requires 0 <= k < |s|
    ensures s == s[..k + 1] + s[k + 1..]
    ensures s[..k + 1] + [s[k]] + s[k + 1..] == (s[..k + 1] + [s[k]]) + s[k + 1..]
  {
  }

  /** Two walks that credit the same and end at the same timestamp still
      credit the same after the same continuation. */
  lemma SameEndSameWalk(x: seq<int>, y: seq<int>, q: seq<int>, cfg: Config)
    requires |x| >= 1 && |y| >= 1 && x[|x| - 1] == y[|y| - 1]
    requires SessionSeconds(x, cfg) == SessionSeconds(y, cfg)
    ensures SessionSeconds(x + q, cfg) == SessionSeconds(y + q, cfg)
  {
    if |q| == 0 {
      assert x + q == x && y + q == y;
    } else {
      SessionSecondsSplit(x, q, cfg);
      SessionSecondsSplit(y, q, cfg);
    }
  }

  /** A zero gap is same-session, and so credits nothing, whenever the
      maximum gap is positive. */
  lemma ZeroGapCreditsNothing(cfg: Config)
    requires cfg.maxCommitDiffInMinutes > 0
    ensures GapCredit(0, cfg) == 0
  {
    assert SameSession(0, cfg);
  }

  /** Repeating the last timestamp adds a zero gap, which credits nothing
      when the maximum gap is positive. */
  lemma RepeatLastWalksTheSame(p: seq<int>, cfg: Config)
    requires |p| >= 1
    requires cfg.maxCommitDiffInMinutes > 0
    ensures SessionSeconds(p + [p[|p| - 1]], cfg) == SessionSeconds(p, cfg)
  {
    var x := p[|p| - 1];
    var pd := p + [x];
    assert pd[..|pd| - 1] == p;
    assert pd[|pd| - 1] - pd[|pd| - 2] == 0;
    ZeroGapCreditsNothing(cfg);
    assert SessionSeconds(pd, cfg) == SessionSeconds(p, cfg) + GapCredit(0, cfg);
  }

  /** Two timestamps are credited exactly their one gap. */
  lemma PairWalk(a: int, b: int, cfg: Config)
    ensures SessionSeconds([a, b], cfg) == GapCredit(b - a, cfg)
  {
    assert [a, b][..1] == [a];
  }

  /** With a maximum gap of zero or below, the comparison `gap < max` fails
      even for a zero gap, so a repeated timestamp opens a new session and
      earns the full credit: one commit gives nothing, the same commit twice
      gives the per-session credit rounded to hours (two hours under the
      default credit). */
  lemma DuplicateCountsWhenMaxIsZero(t: int, cfg: Config)
    requires cfg.maxCommitDiffInMinutes <= 0
    ensures EstimateHours([t], cfg) == 0
    ensures EstimateHours([t, t], cfg) == RoundHours(SecondsPerMinute * cfg.firstCommitAdditionInMinutes)
  {
    assert Sorted([t, t]);
    EstimateFromSorted([t, t], [t, t], cfg);
    PairWalk(t, t, cfg);
  }

  /** Credited seconds grow with the per-session credit. */
  lemma {:induction false} SessionSecondsMonotoneInCredit(t: seq<int>, c1: Config, c2: Config)
    requires c1.maxCommitDiffInMinutes == c2.maxCommitDiffInMinutes
    requires c1.firstCommitAdditionInMinutes <= c2.firstCommitAdditionInMinutes
    ensures SessionSeconds(t, c1) <= SessionSeconds(t, c2)
    decreases |t|
  {
    if |t| >= 2 {
      SessionSecondsMonotoneInCredit(t[..|t| - 1], c1, c2);
    }
  }

  /** Rounding to hours never reverses the order of two amounts. */
  lemma RoundHoursMonotone(s1: int, s2: int)
    requires s1 <= s2
    ensures RoundHours(s1) <= RoundHours(s2)
  {
  }

  /** Raising the per-session credit alone never lowers the estimate. */
  lemma CreditMonotone(dates: seq<int>, c1: Config, c2: Config)
    requires c1.maxCommitDiffInMinutes == c2.maxCommitDiffInMinutes
    requires c1.firstCommitAdditionInMinutes <= c2.firstCommitAdditionInMinutes
    ensures EstimateHours(dates, c1) <= EstimateHours(dates, c2)
  {
    if |dates| >= 2 {
      var s := SortTimes(dates);
      SessionSecondsMonotoneInCredit(s, c1, c2);
      RoundHoursMonotone(SessionSeconds(s, c1), SessionSeconds(s, c2));
    }
  }

  /** Raising the maximum session gap alone can lower the estimate: a
      61-minute gap earns the two-hour credit under a 60-minute maximum but
      its real 61 minutes under a 120-minute one. */
  lemma MaxGapNotMonotone()
    ensures EstimateHours([0, 3660], DefaultConfig.(maxCommitDiffInMinutes := 60)) == 2
    ensures EstimateHours([0, 3660], DefaultConfig) == 1
  {
    var short := DefaultConfig.(maxCommitDiffInMinutes := 60);
    assert Sorted([0, 3660]);
    EstimateFromSorted([0, 3660], [0, 3660], short);
    EstimateFromSorted([0, 3660], [0, 3660], DefaultConfig);
    PairWalk(0, 3660, short);
    PairWalk(0, 3660, DefaultConfig);
    assert GapCredit(3660, short) == 7200;
    assert GapCredit(3660, DefaultConfig) == 3660;
  }

  /** The estimate can be computed from any sorted arrangement of the
      timestamps. */
  lemma EstimateFromSorted(dates: seq<int>, sorted: seq<int>, cfg: Config)
    requires |dates| >= 2
    requires Sorted(sorted) && multiset(sorted) == multiset(dates)
    ensures EstimateHours(dates, cfg) == RoundHours(SessionSeconds(sorted, cfg))
  {
    SortedPermutationUnique(SortTimes(dates), sorted);
  }

  /** With the default thresholds, commits at 09:00, 09:30, 11:00 and 15:00,
      given in any order, credit 30 + 90 + 120 minutes: four hours. */
  lemma WorkedExample(given: seq<int>)
    requires multiset(given) == multiset([32400, 34200, 39600, 54000])
    ensures EstimateHours(given, DefaultConfig) == 4
  {
    var sorted := [32400, 34200, 39600, 54000];
    assert |given| == |multiset(given)| == 4;
    assert Sorted(sorted);
    EstimateFromSorted(given, sorted, DefaultConfig);
    FourHourWalk();
  }

  /** The walk over 09:00, 09:30, 11:00 and 15:00 under the default
      thresholds rounds to four hours. */
  lemma FourHourWalk()
    ensures RoundHours(SessionSeconds([32400, 34200, 39600, 54000], DefaultConfig)) == 4
  {
    var cfg := DefaultConfig;
    var sorted := [32400, 34200, 39600, 54000];
    assert sorted[..3] == [32400, 34200, 39600];
    assert [32400, 34200, 39600][..2] == [32400, 34200];
    assert [32400, 34200][..1] == [32400];
    assert SessionSeconds([32400, 34200], cfg) == 1800;
    assert SessionSeconds([32400, 34200, 39600], cfg) == 1800 + 5400;
    assert SessionSeconds(sorted, cfg) == 7200 + 7200;
  }
}
