/**
 The per-revision registry of apply outcomes kept by the configuration center.

 RegistryOf says what the registry should hold after any sequence of reports; Record is one report
 followed by the pruning loop of the program.
 */
module ApplyRegistry {
  import opened Sets

  const APPLY_HISTORY_LIMIT := 64

  datatype Outcome = Applied | Failed(error: string)

  datatype Report = Report(rev: int, outcome: Outcome)

  datatype ApplyStatus = Pending | Settled(outcome: Outcome)

  type Registry = map<int, Outcome>

  /** The simple form: every revision ever reported, with its latest outcome, and no bound. */
  ghost function Unbounded(reports: seq<Report>): Registry {
    if reports == [] then map[]
    else
      var last := reports[|reports| - 1];
      Unbounded(reports[..|reports| - 1])[last.rev := last.outcome]
  }

  /** kept are the (at most) 64 greatest of all. */
  ghost predicate GreatestRevs(all: set<int>, kept: set<int>) {
    && kept <= all
    && |kept| == (if |all| <= APPLY_HISTORY_LIMIT then |all| else APPLY_HISTORY_LIMIT)
    && forall low, high :: high in kept && low in all && low !in kept ==> low < high
  }

  /** m is full cut down to its greatest revisions. */
  ghost predicate GreatestOf(full: Registry, m: Registry) {
    && GreatestRevs(full.Keys, m.Keys)
    && forall rev :: rev in m ==> m[rev] == full[rev]
  }

  ghost predicate RegistryOf(reports: seq<Report>, m: Registry) {
    GreatestOf(Unbounded(reports), m)
  }

  /** Deletes least revisions until the bound is met. */
  ghost function Prune(m: Registry): Registry
    decreases |m|
  {
    if |m| <= APPLY_HISTORY_LIMIT then m
    else
      assert |m - {Least(m.Keys)}| < |m| by {
        assert (m - {Least(m.Keys)}).Keys == m.Keys - {Least(m.Keys)};
        assert |m.Keys| == |m|;
      }
      Prune(m - {Least(m.Keys)})
  }

  ghost function Record(m: Registry, report: Report): Registry {
    Prune(m[report.rev := report.outcome])
  }

  /** One report keeps the registry exactly what the reports so far call for. */
  lemma RecordKeepsRegistry(reports: seq<Report>, m: Registry, report: Report)
    requires RegistryOf(reports, m)
    ensures RegistryOf(reports + [report], Record(m, report))
  {
    assert (reports + [report])[..|reports|] == reports;
    RecordKeepsGreatest(Unbounded(reports), m, report);
  }

  lemma RecordKeepsGreatest(full: Registry, m: Registry, report: Report)
    requires GreatestOf(full, m)
    ensures GreatestOf(full[report.rev := report.outcome], Record(m, report))
  {
    RecordKeys(m, report);
    RecordedAreGreatest(full.Keys, m, report);
    assert full[report.rev := report.outcome].Keys == full.Keys + {report.rev};
  }

  lemma RecordedAreGreatest(all: set<int>, m: Registry, report: Report)
    requires GreatestRevs(all, m.Keys)
    ensures GreatestRevs(all + {report.rev}, Record(m, report).Keys)
  {
    RecordKeys(m, report);
    GreatestAfterInsert(all, m.Keys, report.rev);
  }

  /** What one report leaves: the added revisions, without the least when they exceed the bound. */
  lemma RecordKeys(m: Registry, report: Report)
    requires |m.Keys| <= APPLY_HISTORY_LIMIT
    ensures var added := m.Keys + {report.rev};
      Record(m, report).Keys == if |added| <= APPLY_HISTORY_LIMIT then added else added - {Least(added)}
    ensures forall rev :: rev in Record(m, report) ==>
      Record(m, report)[rev] == if rev == report.rev then report.outcome else m[rev]
  {
    var added := m[report.rev := report.outcome];
    assert added.Keys == m.Keys + {report.rev} && |added.Keys| == |added|;
    if |added| > APPLY_HISTORY_LIMIT {
      PruneOne(added);
      assert Record(m, report).Keys == added.Keys - {Least(added.Keys)};
    }
  }

  lemma GreatestAfterInsert(all: set<int>, kept: set<int>, rev: int)
    requires GreatestRevs(all, kept)
    ensures var added := kept + {rev};
      && |added| <= APPLY_HISTORY_LIMIT + 1
      && GreatestRevs(all + {rev}, if |added| <= APPLY_HISTORY_LIMIT then added else added - {Least(added)})
  {
    var added := kept + {rev};
    SubsetSize(kept, all);
    SubsetSize(added, all + {rev});
    if rev in kept {
      assert added == kept && all + {rev} == all;
    } else if |kept| < APPLY_HISTORY_LIMIT {
      assert kept == all;
    } else {
      assert |added - {Least(added)}| == APPLY_HISTORY_LIMIT;
      GreatestWithoutLeast(all, kept, rev);
    }
  }

  lemma GreatestWithoutLeast(all: set<int>, kept: set<int>, rev: int)
    requires GreatestRevs(all, kept)
    ensures var now := kept + {rev} - {Least(kept + {rev})};
      forall low, high :: high in now && low in all + {rev} && low !in now ==> low < high
  {
  }

  lemma PruneOne(m: Registry)
    requires |m| == APPLY_HISTORY_LIMIT + 1
    ensures |m.Keys| == |m|
    ensures Prune(m) == m - {Least(m.Keys)} && |Prune(m)| == APPLY_HISTORY_LIMIT
    ensures forall rev :: rev in Prune(m) <==> rev in m && rev != Least(m.Keys)
  {
  }

  /** RegistryOf leaves no choice: two registries of the same reports are equal. */
  lemma RegistryIsUnique(reports: seq<Report>, m: Registry, m': Registry)
    requires RegistryOf(reports, m) && RegistryOf(reports, m')
    ensures m == m'
  {
    GreatestRevsUnique(Unbounded(reports).Keys, m.Keys, m'.Keys);
    forall rev | rev in m.Keys
      ensures m[rev] == m'[rev]
    {
      assert rev in m && rev in m'.Keys;
    }
    SameMap(m, m');
  }

  lemma GreatestRevsUnique(all: set<int>, kept: set<int>, kept': set<int>)
    requires GreatestRevs(all, kept) && GreatestRevs(all, kept')
    ensures kept == kept'
  {
    if kept <= kept' {
      SubsetSize(kept, kept');
    } else {
      var x := PickOutside(kept, kept');
      forall y | y in kept'
        ensures y in kept
      {
        assert x < y;
      }
      SubsetSize(kept', kept);
      assert false;
    }
  }

  /** The newest revision ever reported is never pruned. */
  lemma GreatestIsKept(full: Registry, m: Registry, rev: int)
    requires GreatestOf(full, m)
    requires rev in full && forall other :: other in full ==> other <= rev
    ensures rev in m && m[rev] == full[rev]
  {
    if rev !in m {
      SubsetSize(m.Keys, full.Keys);
      var kept := Pick(m.Keys);
      assert false;
    }
  }

  /** 64 revisions greater than this one are on record. */
  ghost predicate Outranked(m: Registry, rev: int) {
    |m| == APPLY_HISTORY_LIMIT && forall r :: r in m ==> rev < r
  }

  /** A reported revision is on record with its latest outcome, unless it is outranked. */
  lemma KeptOrOutranked(reports: seq<Report>, m: Registry, rev: int)
    requires RegistryOf(reports, m) && rev in Unbounded(reports)
    ensures if rev in m then m[rev] == Unbounded(reports)[rev] else Outranked(m, rev)
  {
    if rev !in m {
      SubsetSize(m.Keys, Unbounded(reports).Keys);
      assert |m.Keys| == |m|;
      assert forall r :: r in m ==> r in m.Keys;
    }
  }

  /** The registry after a sequence of reports, starting from none. */
  ghost function RegistryAfter(reports: seq<Report>): Registry {
    if reports == [] then map[]
    else
      var n := |reports| - 1;
      Record(RegistryAfter(reports[..n]), reports[n])
  }

  /** After any sequence of reports the registry is what they call for. */
  lemma {:induction false} RegistryAfterReports(reports: seq<Report>)
    ensures RegistryOf(reports, RegistryAfter(reports))
  {
    if reports != [] {
      var n := |reports| - 1;
      RegistryAfterReports(reports[..n]);
      RecordKeepsRegistry(reports[..n], RegistryAfter(reports[..n]), reports[n]);
      assert reports[..n] + [reports[n]] == reports;
    }
  }

  /**
   A waiter polls the registry as it evolves; polls are the registry contents it saw before its
   deadline. Only its own revision settles it.
   */
  method WaitForApply(rev: int, subscribers: nat, polls: seq<Registry>) returns (status: ApplyStatus)
    ensures status.Settled? <==> subscribers != 0 && exists i :: 0 <= i < |polls| && rev in polls[i]
    ensures status.Settled? ==>
      exists i :: 0 <= i < |polls| && rev in polls[i] && status.outcome == polls[i][rev]
        && forall j :: 0 <= j < i ==> rev !in polls[j]
  {
    if subscribers == 0 {
      return Pending;
    }
    var i := 0;
    while i < |polls|
      invariant 0 <= i <= |polls|
      invariant forall j :: 0 <= j < i ==> rev !in polls[j]
    {
      if rev in polls[i] {
        return Settled(polls[i][rev]);
      }
      i := i + 1;
    }
    return Pending;
  }

  ghost predicate IsLatestReport(reports: seq<Report>, i: int, rev: int, outcome: Outcome) {
    && 0 <= i < |reports| && reports[i] == Report(rev, outcome)
    && forall j :: i < j < |reports| ==> reports[j].rev != rev
  }

  /** What a waiter reads is always an outcome reported for its own revision. */
  lemma {:induction false} PollReadsOwnOutcome(reports: seq<Report>, m: Registry, rev: int)
    requires RegistryOf(reports, m) && rev in m
    ensures exists i :: IsLatestReport(reports, i, rev, m[rev])
  {
    LatestReport(reports, rev);
  }

  lemma {:induction false} LatestReport(reports: seq<Report>, rev: int)
    requires rev in Unbounded(reports)
    ensures exists i :: IsLatestReport(reports, i, rev, Unbounded(reports)[rev])
  {
    var n, outcome := |reports| - 1, Unbounded(reports)[rev];
    if reports[n].rev == rev {
      assert IsLatestReport(reports, n, rev, outcome);
    } else {
      LatestReport(reports[..n], rev);
      var i :| IsLatestReport(reports[..n], i, rev, outcome);
      assert IsLatestReport(reports, i, rev, outcome) by {
        assert forall j :: 0 <= j < n ==> reports[..n][j] == reports[j];
      }
    }
  }
}
