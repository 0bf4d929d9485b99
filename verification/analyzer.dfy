/**
  The whole analysis over a commit history that has already been read from
  the repository: filter and file the commits, estimate each author, and add
  the "total" entry.
 */
module Analyzer {
  import opened Types
  import opened Sums
  import opened Filter
  import opened Estimator
  import opened Results

  /** The result for a history, visiting the authors in `order`: an entry
      for every author with an accepted commit, plus "total", which counts
      every accepted commit of the history. */
  function Analyze(cfg: Config, commits: seq<Commit>, order: seq<string>): (r: Result)
    requires Enumerates(order, BuildLedger(cfg, commits).buckets.Keys)
    ensures r.Keys == BuildLedger(cfg, commits).buckets.Keys + {TotalKey}
    ensures r[TotalKey].commits == |AcceptedCommits(cfg, commits)|
  {
    LedgerMatchesFilter(cfg, commits);
    Aggregate(cfg, BuildLedger(cfg, commits), order)
  }

  /** When no author's email is literally "total", the "total" entry's
      commit count is the number of accepted commits and equals the sum of
      the authors' commit counts, and its hours are the sum of the authors'
      hours. */
  lemma TotalsAgree(cfg: Config, commits: seq<Commit>, order: seq<string>)
    requires Enumerates(order, BuildLedger(cfg, commits).buckets.Keys)
    requires TotalKey !in BuildLedger(cfg, commits).buckets
    ensures Analyze(cfg, commits, order)[TotalKey].commits == |AcceptedCommits(cfg, commits)|
    ensures Analyze(cfg, commits, order)[TotalKey].commits
         == SumOver(order, CommitsColumn(Analyze(cfg, commits, order)))
    ensures Analyze(cfg, commits, order)[TotalKey].hours
         == SumOver(order, HoursColumn(Analyze(cfg, commits, order)))
  {
    var l := BuildLedger(cfg, commits);
    LedgerMatchesFilter(cfg, commits);
    BucketSizesSumToAccepted(cfg, commits, order);
    TotalRowSumsAuthorRows(cfg, l, order);
  }

  /** The result does not depend on the order the authors are visited in. */
  lemma AnalyzeIgnoresOrder(cfg: Config, commits: seq<Commit>, o1: seq<string>, o2: seq<string>)
    requires Enumerates(o1, BuildLedger(cfg, commits).buckets.Keys)
    requires Enumerates(o2, BuildLedger(cfg, commits).buckets.Keys)
    ensures Analyze(cfg, commits, o1) == Analyze(cfg, commits, o2)
  {
    AggregateIgnoresOrder(cfg, BuildLedger(cfg, commits), o1, o2);
  }

  /** The pass over the history: every commit goes through the filter
      callback, in history order. */
  method CollectLedger(cfg: Config, commits: seq<Commit>) returns (ledger: Ledger)
    ensures ledger == BuildLedger(cfg, commits)
  {
    ledger := EmptyLedger;
    var i := 0;
    while i < |commits|
      invariant 0 <= i <= |commits|
      invariant ledger == BuildLedger(cfg, commits[..i])
    {
      var c := commits[i];
      ghost var before := ledger;
      if Classify(cfg, c) == Accepted {
        var email := CanonicalEmail(cfg, c.email);
        ledger := Record(ledger, email, c.when);
      }
      assert ledger == Step(cfg, before, c);
      assert commits[..i + 1] == commits[..i] + [c];
      BuildLedgerAppend(cfg, commits[..i], c);
      i := i + 1;
    }
    assert commits[..|commits|] == commits;
  }

  /** The analysis agrees with a direct reading of the history: apart from
      "total", the result has an entry for exactly the canonical emails with
      at least one accepted commit, and each such entry holds the estimate
      and the number of that author's accepted commits; "total" counts all
      accepted commits. */
  lemma AnalyzeMatchesReference(cfg: Config, commits: seq<Commit>, order: seq<string>)
    requires Enumerates(order, BuildLedger(cfg, commits).buckets.Keys)
    ensures TotalKey in Analyze(cfg, commits, order)
    ensures Analyze(cfg, commits, order)[TotalKey].commits == |AcceptedCommits(cfg, commits)|
    ensures forall k :: k != TotalKey ==>
      (k in Analyze(cfg, commits, order) <==> |TimesOf(cfg, AcceptedCommits(cfg, commits), k)| > 0)
    ensures forall k :: k in Analyze(cfg, commits, order) && k != TotalKey ==>
      Analyze(cfg, commits, order)[k]
        == AuthorWork(k, EstimateHours(TimesOf(cfg, AcceptedCommits(cfg, commits), k), cfg),
                      |TimesOf(cfg, AcceptedCommits(cfg, commits), k)|)
  {
    var l := BuildLedger(cfg, commits);
    LedgerMatchesFilter(cfg, commits);
    forall k | k != TotalKey
      ensures k in Analyze(cfg, commits, order) <==> |TimesOf(cfg, AcceptedCommits(cfg, commits), k)| > 0
    {
      assert Bucket(l, k) == TimesOf(cfg, AcceptedCommits(cfg, commits), k);
    }
    forall k | k in Analyze(cfg, commits, order) && k != TotalKey
      ensures Analyze(cfg, commits, order)[k]
        == AuthorWork(k, EstimateHours(TimesOf(cfg, AcceptedCommits(cfg, commits), k), cfg),
                      |TimesOf(cfg, AcceptedCommits(cfg, commits), k)|)
    {
      assert Bucket(l, k) == TimesOf(cfg, AcceptedCommits(cfg, commits), k);
    }
  }

  /** The analysis as the source runs it: one pass over the history that
      fills the per-author buckets, then a walk over the authors in an
      arbitrary order that estimates each one and accumulates the total. */
  method AnalyzeRepository(cfg: Config, commits: seq<Commit>) returns (r: Result, ghost order: seq<string>)
    ensures TotalKey in r && r[TotalKey].commits == |AcceptedCommits(cfg, commits)|
    ensures forall k :: k != TotalKey ==> (k in r <==> |TimesOf(cfg, AcceptedCommits(cfg, commits), k)| > 0)
    ensures forall k :: k in r && k != TotalKey ==>
      r[k] == AuthorWork(k, EstimateHours(TimesOf(cfg, AcceptedCommits(cfg, commits), k), cfg),
                         |TimesOf(cfg, AcceptedCommits(cfg, commits), k)|)
    ensures Enumerates(order, BuildLedger(cfg, commits).buckets.Keys)
    ensures r == Analyze(cfg, commits, order)
  {
    var ledger := CollectLedger(cfg, commits);
    r, order := Summarize(cfg, ledger);
    AnalyzeMatchesReference(cfg, commits, order);
  }
}
