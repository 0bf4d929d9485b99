/**
  The commit filter and ledger builder: the callback `AnalyzeRepository`
  runs for every commit of the history. A commit is dropped when it is a
  merge that the configuration excludes, or when it falls outside the date
  window; a surviving commit is filed under its author's email, rewritten
  once through the alias table, and counted.
 */
module Filter {
  import opened Types
  import opened Sums

  /** The message prefix that marks a merge commit. */
  const MergePrefix := "Merge "

  predicate HasPrefix(s: string, prefix: string) {
    |prefix| <= |s| && s[..|prefix|] == prefix
  }

  /** What the filter decides for one commit; the checks run in the order
      the constructors are listed, and the first that rejects wins. */
  datatype Verdict = Accepted | SkippedMerge | SkippedBeforeSince | SkippedAfterUntil

  /** The closed window [since, until], each end possibly open-ended. */
  predicate InWindow(cfg: Config, t: Time) {
    && (cfg.since.Unbounded? || cfg.since.instant <= t)
    && (cfg.until.Unbounded? || t <= cfg.until.instant)
  }

  /** Whether the configuration lets a commit with this message through the
      merge check. */
  predicate MergeAllowed(cfg: Config, message: string) {
    cfg.mergeRequest || !HasPrefix(message, MergePrefix)
  }

  /** The filter accepts exactly the commits that pass the merge check and
      lie in the closed window; an excluded merge is reported as such even
      when it is also outside the window, and a date skip names a bound the
      commit really violates. */
  function Classify(cfg: Config, c: Commit): (v: Verdict)
    ensures v == Accepted <==> MergeAllowed(cfg, c.message) && InWindow(cfg, c.when)
    ensures v == SkippedMerge <==> !MergeAllowed(cfg, c.message)
    ensures v == SkippedBeforeSince ==> cfg.since.At? && c.when < cfg.since.instant
    ensures v == SkippedAfterUntil ==> cfg.until.At? && c.when > cfg.until.instant
  {
    if !cfg.mergeRequest && HasPrefix(c.message, MergePrefix) then SkippedMerge
    else if cfg.since.At? && c.when < cfg.since.instant then SkippedBeforeSince
    else if cfg.until.At? && c.when > cfg.until.instant then SkippedAfterUntil
    else Accepted
  }

  /** A commit exactly at `since` is accepted whenever it passes the merge
      check and does not lie after `until`. */
  lemma SinceIsInclusive(cfg: Config, c: Commit)
    requires MergeAllowed(cfg, c.message) && cfg.since == At(c.when)
    requires cfg.until.Unbounded? || c.when <= cfg.until.instant
    ensures Classify(cfg, c) == Accepted
  {
  }

  /** A commit exactly at `until` is accepted whenever it passes the merge
      check and does not lie before `since`. */
  lemma UntilIsInclusive(cfg: Config, c: Commit)
    requires MergeAllowed(cfg, c.message) && cfg.until == At(c.when)
    requires cfg.since.Unbounded? || cfg.since.instant <= c.when
    ensures Classify(cfg, c) == Accepted
  {
  }

  /** A missing bound rejects nothing, whatever the other bound is. */
  lemma MissingBoundRejectsNothing(cfg: Config, c: Commit)
    ensures cfg.since.Unbounded? ==> Classify(cfg, c) != SkippedBeforeSince
    ensures cfg.until.Unbounded? ==> Classify(cfg, c) != SkippedAfterUntil
  {
  }

  /** The author key a commit is filed under: one lookup in the alias
      table, never followed further. An email with an entry is filed under
      that entry, and any other email under itself. */
  function CanonicalEmail(cfg: Config, email: string): (k: string)
    ensures email in cfg.emailAliases ==> k == cfg.emailAliases[email]
    ensures email !in cfg.emailAliases ==> k == email
  {
    if email in cfg.emailAliases then cfg.emailAliases[email] else email
  }

  /** Aliases are not chained: an email whose alias has an alias of its own
      is filed under the first alias, so rewriting the key once more would
      move it again whenever that second alias differs. */
  lemma AliasIsSingleStep(cfg: Config, email: string)
    requires email in cfg.emailAliases && cfg.emailAliases[email] in cfg.emailAliases
    ensures CanonicalEmail(cfg, email) == cfg.emailAliases[email]
    ensures cfg.emailAliases[cfg.emailAliases[email]] != cfg.emailAliases[email]
        ==> CanonicalEmail(cfg, CanonicalEmail(cfg, email)) != CanonicalEmail(cfg, email)
  {
  }

  /** The timestamps collected per author, and the number of commits
      accepted overall. */
  datatype Ledger = Ledger(buckets: map<string, seq<Time>>, accepted: nat)

  const EmptyLedger := Ledger(map[], 0)

  /** The timestamps filed under `k` (none, for an unknown author). */
  function Bucket(l: Ledger, k: string): seq<Time> {
    if k in l.buckets then l.buckets[k] else []
  }

  /** Appends one accepted commit's timestamp under `k` and counts it. */
  function Record(l: Ledger, k: string, t: Time): Ledger {
    Ledger(l.buckets[k := Bucket(l, k) + [t]], l.accepted + 1)
  }

  /** The callback for one commit: an accepted commit adds its timestamp to
      the end of its author's bucket and one to the count; every other
      bucket, and the whole ledger for a rejected commit, stay as they were. */
  function Step(cfg: Config, l: Ledger, c: Commit): (r: Ledger)
    ensures Classify(cfg, c) != Accepted ==> r == l
    ensures r.buckets.Keys == l.buckets.Keys + (if Classify(cfg, c) == Accepted then {CanonicalEmail(cfg, c.email)} else {})
    ensures r.accepted == l.accepted + (if Classify(cfg, c) == Accepted then 1 else 0)
    ensures forall k ::
      Bucket(r, k) == Bucket(l, k) + (if Classify(cfg, c) == Accepted && CanonicalEmail(cfg, c.email) == k then [c.when] else [])
  {
    if Classify(cfg, c) == Accepted then Record(l, CanonicalEmail(cfg, c.email), c.when)
    else l
  }

  /** The commits that pass the filter, in history order. */
  function AcceptedCommits(cfg: Config, commits: seq<Commit>): seq<Commit>
    decreases |commits|
  {
    if |commits| == 0 then []
    else
      var c := commits[|commits| - 1];
      AcceptedCommits(cfg, commits[..|commits| - 1]) + (if Classify(cfg, c) == Accepted then [c] else [])
  }

  /** The timestamps, in order, of those of `cs` whose canonical email is
      `k`. */
  function TimesOf(cfg: Config, cs: seq<Commit>, k: string): seq<Time>
    decreases |cs|
  {
    if |cs| == 0 then []
    else
      var c := cs[|cs| - 1];
      TimesOf(cfg, cs[..|cs| - 1], k) + (if CanonicalEmail(cfg, c.email) == k then [c.when] else [])
  }

  lemma {:induction false} TimesOfAppend(cfg: Config, cs: seq<Commit>, c: Commit, k: string)
    ensures TimesOf(cfg, cs + [c], k)
         == TimesOf(cfg, cs, k) + (if CanonicalEmail(cfg, c.email) == k then [c.when] else [])
  {
    assert (cs + [c])[..|cs|] == cs;
  }

  /** The ledger after the whole history has gone through the callback; it
      counts no more commits than the history holds. */
  function BuildLedger(cfg: Config, commits: seq<Commit>): (l: Ledger)
    ensures l.accepted <= |commits|
    decreases |commits|
  {
    if |commits| == 0 then EmptyLedger
    else Step(cfg, BuildLedger(cfg, commits[..|commits| - 1]), commits[|commits| - 1])
  }

  /** Building the ledger agrees with "filter, then group": its count is the
      number of accepted commits, its bucket for each author is exactly the
      timestamps of that author's accepted commits in history order, and it
      holds no empty bucket. */
  lemma LedgerMatchesFilter(cfg: Config, commits: seq<Commit>)
    ensures BuildLedger(cfg, commits).accepted == |AcceptedCommits(cfg, commits)|
    ensures forall k :: Bucket(BuildLedger(cfg, commits), k) == TimesOf(cfg, AcceptedCommits(cfg, commits), k)
    ensures forall k :: k in BuildLedger(cfg, commits).buckets ==> |BuildLedger(cfg, commits).buckets[k]| > 0
  {
    LedgerCountsAccepted(cfg, commits);
    LedgerBucketsMatch(cfg, commits);
    LedgerHasNoEmptyBucket(cfg, commits);
  }

  lemma {:induction false} LedgerCountsAccepted(cfg: Config, commits: seq<Commit>)
    ensures BuildLedger(cfg, commits).accepted == |AcceptedCommits(cfg, commits)|
    decreases |commits|
  {
    if |commits| > 0 {
      LedgerCountsAccepted(cfg, commits[..|commits| - 1]);
    }
  }

  lemma {:induction false} LedgerBucketsMatch(cfg: Config, commits: seq<Commit>)
    ensures forall k :: Bucket(BuildLedger(cfg, commits), k) == TimesOf(cfg, AcceptedCommits(cfg, commits), k)
    decreases |commits|
  {
    if |commits| > 0 {
      var front := commits[..|commits| - 1];
      var c := commits[|commits| - 1];
      LedgerBucketsMatch(cfg, front);
      if Classify(cfg, c) == Accepted {
        forall k
          ensures TimesOf(cfg, AcceptedCommits(cfg, commits), k)
               == TimesOf(cfg, AcceptedCommits(cfg, front), k)
                  + (if CanonicalEmail(cfg, c.email) == k then [c.when] else [])
        {
          TimesOfAppend(cfg, AcceptedCommits(cfg, front), c, k);
        }
      } else {
        assert AcceptedCommits(cfg, commits) == AcceptedCommits(cfg, front);
      }
    }
  }

  lemma {:induction false} LedgerHasNoEmptyBucket(cfg: Config, commits: seq<Commit>)
    ensures forall k :: k in BuildLedger(cfg, commits).buckets ==> |BuildLedger(cfg, commits).buckets[k]| > 0
    decreases |commits|
  {
    if |commits| > 0 {
      var front := commits[..|commits| - 1];
      var c := commits[|commits| - 1];
      var prev := BuildLedger(cfg, front);
      var l := BuildLedger(cfg, commits);
      LedgerHasNoEmptyBucket(cfg, front);
      assert l == Step(cfg, prev, c);
      forall k | k in l.buckets
        ensures |l.buckets[k]| > 0
      {
        assert Bucket(l, k) == l.buckets[k];
        if k in prev.buckets {
          assert Bucket(prev, k) == prev.buckets[k];
        }
      }
    }
  }

  /** The number of timestamps filed under each author. */
  function SizesByAuthor(l: Ledger): map<string, int> {
    map k | k in l.buckets :: |l.buckets[k]|
  }

  /** The bucket sizes add up to the accepted-commit count, summed over any
      duplicate-free list of keys that covers every author. */
  lemma {:induction false} BucketSizesSumToAccepted(cfg: Config, commits: seq<Commit>, ks: seq<string>)
    requires Distinct(ks)
    requires forall k :: k in BuildLedger(cfg, commits).buckets ==> k in ks
    ensures SumOver(ks, SizesByAuthor(BuildLedger(cfg, commits))) == BuildLedger(cfg, commits).accepted
    decreases |commits|
  {
    if |commits| > 0 {
      var front := commits[..|commits| - 1];
      var c := commits[|commits| - 1];
      var prev := BuildLedger(cfg, front);
      assert BuildLedger(cfg, commits) == Step(cfg, prev, c);
      StepKeepsKeys(cfg, prev, c);
      BucketSizesSumToAccepted(cfg, front, ks);
      StepKeepsSizeSum(cfg, prev, c, ks);
    } else {
      assert SizesByAuthor(EmptyLedger) == map[];
      SumOverOfEmpty(ks);
    }
  }

  lemma StepKeepsKeys(cfg: Config, l: Ledger, c: Commit)
    ensures l.buckets.Keys <= Step(cfg, l, c).buckets.Keys
  {
  }

  /** One step of the callback keeps "bucket sizes add up to the count". */
  lemma StepKeepsSizeSum(cfg: Config, l: Ledger, c: Commit, ks: seq<string>)
    requires Distinct(ks)
    requires forall k :: k in Step(cfg, l, c).buckets ==> k in ks
    requires SumOver(ks, SizesByAuthor(l)) == l.accepted
    ensures SumOver(ks, SizesByAuthor(Step(cfg, l, c))) == Step(cfg, l, c).accepted
  {
    if Classify(cfg, c) == Accepted {
      var e := CanonicalEmail(cfg, c.email);
      var sizes := SizesByAuthor(l);
      assert e in Step(cfg, l, c).buckets;
      assert SizesByAuthor(Record(l, e, c.when)) == sizes[e := ValueAt(sizes, e) + 1];
      SumOverBump(ks, sizes, e, 1);
    }
  }

  lemma {:induction false} SumOverOfEmpty(ks: seq<string>)
    ensures SumOver(ks, map[]) == 0
    decreases |ks|
  {
    if |ks| > 0 {
      SumOverOfEmpty(ks[..|ks| - 1]);
    }
  }

  lemma {:induction false} BuildLedgerAppend(cfg: Config, commits: seq<Commit>, c: Commit)
    ensures BuildLedger(cfg, commits + [c]) == Step(cfg, BuildLedger(cfg, commits), c)
  {
    assert (commits + [c])[..|commits|] == commits;
  }

  /** A commit the filter rejects leaves no trace: the ledger is the one
      built from the history without it, wherever it stood. */
  lemma {:induction false} RejectedCommitLeavesNoTrace(cfg: Config, pre: seq<Commit>, c: Commit, post: seq<Commit>)
    requires Classify(cfg, c) != Accepted
    ensures BuildLedger(cfg, pre + [c] + post) == BuildLedger(cfg, pre + post)
    decreases |post|
  {
    if |post| == 0 {
      assert pre + [c] + post == pre + [c];
      assert pre + post == pre;
      BuildLedgerAppend(cfg, pre, c);
    } else {
      var post' := post[..|post| - 1];
      var x := post[|post| - 1];
      RejectedCommitLeavesNoTrace(cfg, pre, c, post');
      assert pre + [c] + post == (pre + [c] + post') + [x];
      assert pre + post == (pre + post') + [x];
      BuildLedgerAppend(cfg, pre + [c] + post', x);
      BuildLedgerAppend(cfg, pre + post', x);
    }
  }

  /** With merge commits excluded, a commit whose message starts with
      "Merge " contributes to no bucket and to no count. */
  lemma ExcludedMergeLeavesNoTrace(cfg: Config, pre: seq<Commit>, c: Commit, post: seq<Commit>)
    requires !cfg.mergeRequest && HasPrefix(c.message, MergePrefix)
    ensures BuildLedger(cfg, pre + [c] + post) == BuildLedger(cfg, pre + post)
  {
    RejectedCommitLeavesNoTrace(cfg, pre, c, post);
  }

  /** An accepted commit's timestamp is in its author's bucket, wherever
      the commit stands in the history. */
  lemma {:induction false} AcceptedIsFiled(cfg: Config, commits: seq<Commit>, i: int)
    requires 0 <= i < |commits| && Classify(cfg, commits[i]) == Accepted
    ensures commits[i].when in Bucket(BuildLedger(cfg, commits), CanonicalEmail(cfg, commits[i].email))
    decreases |commits|
  {
    var front := commits[..|commits| - 1];
    var c := commits[|commits| - 1];
    var e := CanonicalEmail(cfg, commits[i].email);
    assert Bucket(BuildLedger(cfg, commits), e)
        == Bucket(BuildLedger(cfg, front), e)
           + (if Classify(cfg, c) == Accepted && CanonicalEmail(cfg, c.email) == e then [c.when] else []);
    if i < |commits| - 1 {
      assert front[i] == commits[i];
      AcceptedIsFiled(cfg, front, i);
    }
  }

  /** Two accepted commits whose raw emails alias to one canonical email
      share that author's bucket, anywhere in any history. */
  lemma AliasesPoolIntoOneBucket(cfg: Config, commits: seq<Commit>, i: int, j: int)
    requires 0 <= i < |commits| && 0 <= j < |commits|
    requires Classify(cfg, commits[i]) == Accepted && Classify(cfg, commits[j]) == Accepted
    requires CanonicalEmail(cfg, commits[i].email) == CanonicalEmail(cfg, commits[j].email)
    ensures commits[i].when in Bucket(BuildLedger(cfg, commits), CanonicalEmail(cfg, commits[i].email))
    ensures commits[j].when in Bucket(BuildLedger(cfg, commits), CanonicalEmail(cfg, commits[i].email))
  {
    AcceptedIsFiled(cfg, commits, i);
    AcceptedIsFiled(cfg, commits, j);
  }
}
