/**
  Result aggregation: one entry per author in the ledger, holding the
  author's hour estimate and commit count, plus a synthetic "total" entry.
  The source walks the ledger map in Go's unspecified iteration order; that
  order is the explicit parameter `order` here, and the result is shown not
  to depend on it.
 */
module Results {
  import opened Types
  import opened Sums
  import opened Filter
  import opened Estimator

  /** The key of the synthetic entry that sums up all authors. */
  const TotalKey := "total"

  /** The display name of an author: the email itself, with no lookup of a
      person's name. */
  function AuthorName(email: string): (name: string)
    ensures name == email
  {
    email
  }

  /** `order` lists every key of `keys` exactly once. */
  predicate Enumerates(order: seq<string>, keys: set<string>) {
    && Distinct(order)
    && |order| == |keys|
    && (forall k :: k in order ==> k in keys)
    && (forall k :: k in keys ==> k in order)
  }

  /** The result entry for one author of the ledger. */
  function AuthorEntry(cfg: Config, l: Ledger, email: string): AuthorWork {
    AuthorWork(AuthorName(email), EstimateHours(Bucket(l, email), cfg), |Bucket(l, email)|)
  }

  /** The hour estimate of each author of the ledger. */
  function HoursByAuthor(cfg: Config, l: Ledger): map<string, int> {
    map k | k in l.buckets :: EstimateHours(l.buckets[k], cfg)
  }

  /** The per-author entries written while walking `order`. */
  function Entries(cfg: Config, l: Ledger, order: seq<string>): (m: map<string, AuthorWork>)
    ensures forall k :: k in m <==> k in order
    ensures forall k :: k in m ==> m[k] == AuthorEntry(cfg, l, k)
    decreases |order|
  {
    if |order| == 0 then map[]
    else
      var last := order[|order| - 1];
      Entries(cfg, l, order[..|order| - 1])[last := AuthorEntry(cfg, l, last)]
  }

  /** The result map. Every author of the ledger gets an entry named after
      its email with its estimate and its commit count (unless its email is
      literally "total", whose entry the synthetic one overwrites), and the
      "total" entry carries the accepted-commit count of the ledger and the
      sum of the per-author estimates. */
  function Aggregate(cfg: Config, l: Ledger, order: seq<string>): (r: Result)
    requires Enumerates(order, l.buckets.Keys)
    ensures r.Keys == l.buckets.Keys + {TotalKey}
    ensures forall k :: k in l.buckets && k != TotalKey ==>
      r[k] == AuthorWork(k, EstimateHours(l.buckets[k], cfg), |l.buckets[k]|)
    ensures r[TotalKey].name == ""
    ensures r[TotalKey].commits == l.accepted
    ensures r[TotalKey].hours == SumOver(order, HoursByAuthor(cfg, l))
  {
    EntriesCoverLedger(cfg, l, order);
    Entries(cfg, l, order)[TotalKey := AuthorWork("", SumOver(order, HoursByAuthor(cfg, l)), l.accepted)]
  }

  /** A walk over an enumeration of the ledger's keys writes an entry for
      exactly the ledger's authors. */
  lemma EntriesCoverLedger(cfg: Config, l: Ledger, order: seq<string>)
    requires Enumerates(order, l.buckets.Keys)
    ensures Entries(cfg, l, order).Keys == l.buckets.Keys
  {
    var e := Entries(cfg, l, order);
    forall k
      ensures k in e <==> k in l.buckets
    {
    }
  }

  /** The result does not depend on the order the authors are visited in. */
  lemma AggregateIgnoresOrder(cfg: Config, l: Ledger, o1: seq<string>, o2: seq<string>)
    requires Enumerates(o1, l.buckets.Keys) && Enumerates(o2, l.buckets.Keys)
    ensures Aggregate(cfg, l, o1) == Aggregate(cfg, l, o2)
  {
    SumOverPermutation(o1, o2, HoursByAuthor(cfg, l));
    SameKeysSameEntries(cfg, l, o1, o2);
  }

  /** Walks over the same keys write the same entries. */
  lemma SameKeysSameEntries(cfg: Config, l: Ledger, o1: seq<string>, o2: seq<string>)
    requires forall k :: k in o1 <==> k in o2
    ensures Entries(cfg, l, o1) == Entries(cfg, l, o2)
  {
    var e1, e2 := Entries(cfg, l, o1), Entries(cfg, l, o2);
    forall k
      ensures k in e1 <==> k in e2
    {
    }
    forall k | k in e1
      ensures e1[k] == e2[k]
    {
    }
  }

  /** Each author entry is named by its email key. */
  lemma EntriesNamedByEmail(cfg: Config, l: Ledger, order: seq<string>, k: string)
    requires Enumerates(order, l.buckets.Keys)
    requires k in l.buckets && k != TotalKey
    ensures Aggregate(cfg, l, order)[k].name == k
  {
  }

  /** The hours column of a result, without the "total" row. */
  function HoursColumn(r: Result): map<string, int> {
    map k | k in r && k != TotalKey :: r[k].hours
  }

  /** The commits column of a result, without the "total" row. */
  function CommitsColumn(r: Result): map<string, int> {
    map k | k in r && k != TotalKey :: r[k].commits
  }

  /** When no author's email is literally "total", the "total" row of the
      result sums the authors' rows: its hours are the sum of their hours,
      and its commit count is the sum of their commit counts as soon as the
      ledger's bucket sizes add up to its count. */
  lemma TotalRowSumsAuthorRows(cfg: Config, l: Ledger, order: seq<string>)
    requires Enumerates(order, l.buckets.Keys)
    requires TotalKey !in l.buckets
    requires SumOver(order, SizesByAuthor(l)) == l.accepted
    ensures Aggregate(cfg, l, order)[TotalKey].hours == SumOver(order, HoursColumn(Aggregate(cfg, l, order)))
    ensures Aggregate(cfg, l, order)[TotalKey].commits == SumOver(order, CommitsColumn(Aggregate(cfg, l, order)))
  {
    var r := Aggregate(cfg, l, order);
    CommitsColumnIsSizes(cfg, l, r);
    HoursColumnIsEstimates(cfg, l, r);
  }

  /** Without a "total" author, the commits column of a result holding one
      row per author is the bucket sizes. */
  lemma CommitsColumnIsSizes(cfg: Config, l: Ledger, r: Result)
    requires TotalKey !in l.buckets
    requires r.Keys == l.buckets.Keys + {TotalKey}
    requires forall k :: k in l.buckets && k != TotalKey ==>
      r[k] == AuthorWork(k, EstimateHours(l.buckets[k], cfg), |l.buckets[k]|)
    ensures CommitsColumn(r) == SizesByAuthor(l)
  {
    var a, b := CommitsColumn(r), SizesByAuthor(l);
    forall k
      ensures k in a <==> k in b
    {
    }
    forall k | k in a
      ensures a[k] == b[k]
    {
      assert r[k].commits == |l.buckets[k]|;
    }
  }

  /** Without a "total" author, the hours column of a result holding one
      row per author is the estimates. */
  lemma HoursColumnIsEstimates(cfg: Config, l: Ledger, r: Result)
    requires TotalKey !in l.buckets
    requires r.Keys == l.buckets.Keys + {TotalKey}
    requires forall k :: k in l.buckets && k != TotalKey ==>
      r[k] == AuthorWork(k, EstimateHours(l.buckets[k], cfg), |l.buckets[k]|)
    ensures HoursColumn(r) == HoursByAuthor(cfg, l)
  {
    var a, b := HoursColumn(r), HoursByAuthor(cfg, l);
    forall k
      ensures k in a <==> k in b
    {
    }
    forall k | k in a
      ensures a[k] == b[k]
    {
      assert r[k].hours == EstimateHours(l.buckets[k], cfg);
    }
  }

  /** Visiting one more author adds its entry and its hours. */
  lemma VisitOneMore(cfg: Config, l: Ledger, order: seq<string>, email: string)
    requires email in l.buckets
    ensures Entries(cfg, l, order + [email])
         == Entries(cfg, l, order)[email := AuthorWork(AuthorName(email), EstimateHours(l.buckets[email], cfg), |l.buckets[email]|)]
    ensures SumOver(order + [email], HoursByAuthor(cfg, l))
         == SumOver(order, HoursByAuthor(cfg, l)) + EstimateHours(l.buckets[email], cfg)
  {
    assert (order + [email])[..|order|] == order;
  }

  /** A finished walk, with the "total" entry written, is the result. */
  lemma FinishedWalkIsAggregate(cfg: Config, l: Ledger, order: seq<string>, entries: map<string, AuthorWork>, totalHours: int)
    requires Enumerates(order, l.buckets.Keys)
    requires entries == Entries(cfg, l, order)
    requires totalHours == SumOver(order, HoursByAuthor(cfg, l))
    ensures entries[TotalKey := AuthorWork("", totalHours, l.accepted)] == Aggregate(cfg, l, order)
  {
  }

  /** The aggregation loop of the source: visit the authors in some order,
      estimate each, write its entry and add its hours to the running total,
      then write the "total" entry. */
  method Summarize(cfg: Config, l: Ledger) returns (r: Result, ghost order: seq<string>)
    ensures r.Keys == l.buckets.Keys + {TotalKey}
    ensures forall k :: k in l.buckets && k != TotalKey ==>
      r[k] == AuthorWork(k, EstimateHours(l.buckets[k], cfg), |l.buckets[k]|)
    ensures r[TotalKey].commits == l.accepted
    ensures Enumerates(order, l.buckets.Keys)
    ensures r == Aggregate(cfg, l, order)
  {
    var result: Result := map[];
    var totalHours := 0;
    var remaining := l.buckets.Keys;
    order := [];
    while remaining != {}
      invariant remaining <= l.buckets.Keys
      invariant Distinct(order)
      invariant forall k :: k in order <==> k in l.buckets && k !in remaining
      invariant |order| + |remaining| == |l.buckets.Keys|
      invariant result == Entries(cfg, l, order)
      invariant totalHours == SumOver(order, HoursByAuthor(cfg, l))
      decreases remaining
    {
      var email :| email in remaining;
      var dates := l.buckets[email];
      var hours := ComputeHours(dates, cfg);
      result := result[email := AuthorWork(AuthorName(email), hours, |dates|)];
      totalHours := totalHours + hours;
      VisitOneMore(cfg, l, order, email);
      order := order + [email];
      remaining := remaining - {email};
    }
    assert Enumerates(order, l.buckets.Keys);
    r := result[TotalKey := AuthorWork("", totalHours, l.accepted)];
    FinishedWalkIsAggregate(cfg, l, order, result, totalHours);
  }
}
