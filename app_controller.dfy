/** The client side of the analyzer application (`analyzerkt/client/AnalyzerAppController.kt`):
    every report the analysis delivers is folded into a running map from user to total
    contributions and into the set of reports received so far. */
module AppController {
  import opened Models
  import opened Collections

  /** A user's current total, 0 when the user has none yet (`this[user] ?: 0L`). */
  function TotalOf(totals: map<string, int>, user: string): int {
    if user in totals then totals[user] else 0
  }

  /** `map + pairs`: the pairs are put in order, so a later pair for a key replaces an earlier one. */
  function PutAll(m: map<string, int>, pairs: seq<(string, int)>): map<string, int>
    decreases |pairs|
  {
    if |pairs| == 0 then m else PutAll(m[pairs[0].0 := pairs[0].1], pairs[1..])
  }

  /** `pairs[i]` is the last pair for its key. */
  predicate IsLastFor(pairs: seq<(string, int)>, i: nat)
    requires i < |pairs|
  {
    forall j :: i < j < |pairs| ==> pairs[j].0 != pairs[i].0
  }

  lemma {:induction false} PutAllKeys(m: map<string, int>, pairs: seq<(string, int)>)
    ensures PutAll(m, pairs).Keys == m.Keys + set i | 0 <= i < |pairs| :: pairs[i].0
    decreases |pairs|
  {
    if |pairs| > 0 {
      PutAllKeys(m[pairs[0].0 := pairs[0].1], pairs[1..]);
      var rest := set i | 0 <= i < |pairs[1..]| :: pairs[1..][i].0;
      var all := set i | 0 <= i < |pairs| :: pairs[i].0;
      assert all == {pairs[0].0} + rest by {
        forall k | k in all ensures k in {pairs[0].0} + rest {
          var i :| 0 <= i < |pairs| && pairs[i].0 == k;
          if i > 0 {
            assert pairs[1..][i - 1].0 == k;
          }
        }
      }
    }
  }

  /** A key no pair mentions keeps its entry. */
  lemma {:induction false} PutAllUnmentioned(m: map<string, int>, pairs: seq<(string, int)>, k: string)
    requires forall i :: 0 <= i < |pairs| ==> pairs[i].0 != k
    requires k in m
    ensures k in PutAll(m, pairs) && PutAll(m, pairs)[k] == m[k]
    decreases |pairs|
  {
    if |pairs| > 0 {
      PutAllUnmentioned(m[pairs[0].0 := pairs[0].1], pairs[1..], k);
    }
  }

  /** A key's entry is the value of the last pair for it. */
  lemma {:induction false} PutAllLastWins(m: map<string, int>, pairs: seq<(string, int)>, i: nat)
    requires i < |pairs| && IsLastFor(pairs, i)
    ensures pairs[i].0 in PutAll(m, pairs) && PutAll(m, pairs)[pairs[i].0] == pairs[i].1
    decreases |pairs|
  {
    var m' := m[pairs[0].0 := pairs[0].1];
    if i == 0 {
      if |pairs| > 1 {
        assert forall j :: 0 <= j < |pairs[1..]| ==> pairs[1..][j].0 != pairs[0].0 by {
          forall j | 0 <= j < |pairs[1..]| ensures pairs[1..][j].0 != pairs[0].0 {
            assert pairs[1..][j] == pairs[j + 1];
          }
        }
        PutAllUnmentioned(m', pairs[1..], pairs[0].0);
      }
    } else {
      assert IsLastFor(pairs[1..], i - 1) by {
        forall j | i - 1 < j < |pairs[1..]| ensures pairs[1..][j].0 != pairs[1..][i - 1].0 {
          assert pairs[1..][j] == pairs[j + 1];
        }
      }
      PutAllLastWins(m', pairs[1..], i - 1);
    }
  }

  /** The pairs `user to (old total + count)` of a report, all computed from the totals before it.
      The ensures gives callers that definition pointwise. */
  function ContributionPairs(totals: map<string, int>, report: RepositoryReport): (pairs: seq<(string, int)>)
    ensures |pairs| == |report.contributions|
    ensures forall i :: 0 <= i < |pairs| ==>
      pairs[i] == (report.contributions[i].user,
                   TotalOf(totals, report.contributions[i].user) + report.contributions[i].contributions)
  {
    seq(|report.contributions|, i requires 0 <= i < |report.contributions| =>
      (report.contributions[i].user, TotalOf(totals, report.contributions[i].user) + report.contributions[i].contributions))
  }

  /** `aggregatedTo`. */
  function AggregatedTo(totals: map<string, int>, report: RepositoryReport): map<string, int> {
    PutAll(totals, ContributionPairs(totals, report))
  }

  function Users(report: RepositoryReport): set<string> {
    set i | 0 <= i < |report.contributions| :: report.contributions[i].user
  }

  /** The new keys are the old keys plus the report's users. */
  lemma AggregatedKeys(totals: map<string, int>, report: RepositoryReport)
    ensures AggregatedTo(totals, report).Keys == totals.Keys + Users(report)
  {
    var pairs := ContributionPairs(totals, report);
    PutAllKeys(totals, pairs);
    assert (set i | 0 <= i < |pairs| :: pairs[i].0) == Users(report);
  }

  /** Users the report does not mention keep their totals. */
  lemma AggregatedUnmentioned(totals: map<string, int>, report: RepositoryReport, user: string)
    requires user !in Users(report)
    ensures TotalOf(AggregatedTo(totals, report), user) == TotalOf(totals, user)
    ensures user in AggregatedTo(totals, report) <==> user in totals
  {
    AggregatedKeys(totals, report);
    var pairs := ContributionPairs(totals, report);
    if user in totals {
      assert forall i :: 0 <= i < |pairs| ==> pairs[i].0 != user by {
        forall i | 0 <= i < |pairs| ensures pairs[i].0 != user {
          assert report.contributions[i].user in Users(report);
        }
      }
      PutAllUnmentioned(totals, pairs, user);
    }
  }

  /** A user is credited with the old total plus the count of its LAST entry in the report: entries
      for the same user do not accumulate. */
  lemma AggregatedLastEntryWins(totals: map<string, int>, report: RepositoryReport, i: nat)
    requires i < |report.contributions|
    requires forall j :: i < j < |report.contributions| ==> report.contributions[j].user != report.contributions[i].user
    ensures var user := report.contributions[i].user;
      TotalOf(AggregatedTo(totals, report), user) == TotalOf(totals, user) + report.contributions[i].contributions
  {
    PutAllLastWins(totals, ContributionPairs(totals, report), i);
  }

  /** A user appearing once in the report gets the old total plus that count. */
  lemma AggregatedSingleEntry(totals: map<string, int>, report: RepositoryReport, i: nat)
    requires i < |report.contributions|
    requires forall j :: 0 <= j < |report.contributions| && j != i ==>
      report.contributions[j].user != report.contributions[i].user
    ensures var user := report.contributions[i].user;
      TotalOf(AggregatedTo(totals, report), user) == TotalOf(totals, user) + report.contributions[i].contributions
  {
    AggregatedLastEntryWins(totals, report, i);
  }

  /** Two entries of one user in one report: only the second counts. */
  lemma DuplicateEntriesDoNotAccumulate(report: RepositoryReport)
    requires report.contributions == [Contribution("mrossi", 11), Contribution("mrossi", 56)]
    ensures TotalOf(AggregatedTo(map["mrossi" := 1], report), "mrossi") == 57
  {
    AggregatedLastEntryWins(map["mrossi" := 1], report, 1);
  }

  /** No user appears twice in the report. */
  predicate UniqueUsers(report: RepositoryReport) {
    forall i, j :: 0 <= i < j < |report.contributions| ==>
      report.contributions[i].user != report.contributions[j].user
  }

  /** The contributions a report credits to a user. */
  function ContributionsOf(contributions: seq<Contribution>, user: string): int {
    if |contributions| == 0 then 0
    else
      var own := if contributions[0].user == user then contributions[0].contributions else 0;
      own + ContributionsOf(contributions[1..], user)
  }

  lemma {:induction false} ContributionsOfUnique(contributions: seq<Contribution>, user: string)
    requires forall i, j :: 0 <= i < j < |contributions| ==> contributions[i].user != contributions[j].user
    ensures (forall i :: 0 <= i < |contributions| ==> contributions[i].user != user) ==>
      ContributionsOf(contributions, user) == 0
    ensures forall i :: 0 <= i < |contributions| && contributions[i].user == user ==>
      ContributionsOf(contributions, user) == contributions[i].contributions
  {
    if |contributions| > 0 {
      ContributionsOfUnique(contributions[1..], user);
      forall i | 0 <= i < |contributions| && contributions[i].user == user
        ensures ContributionsOf(contributions, user) == contributions[i].contributions
      {
        if i > 0 {
          assert contributions[1..][i - 1] == contributions[i];
          assert contributions[0].user != user;
        } else {
          assert forall k :: 0 <= k < |contributions[1..]| ==> contributions[1..][k].user != user by {
            forall k | 0 <= k < |contributions[1..]| ensures contributions[1..][k].user != user {
              assert contributions[1..][k] == contributions[k + 1];
            }
          }
        }
      }
      if forall i :: 0 <= i < |contributions| ==> contributions[i].user != user {
        assert contributions[0].user != user;
        assert forall k :: 0 <= k < |contributions[1..]| ==> contributions[1..][k].user != user by {
          forall k | 0 <= k < |contributions[1..]| ensures contributions[1..][k].user != user {
            assert contributions[1..][k] == contributions[k + 1];
          }
        }
      }
    }
  }

  /** With unique users, aggregating a report adds to each user's total what the report credits it with. */
  lemma AggregatedAdds(totals: map<string, int>, report: RepositoryReport, user: string)
    requires UniqueUsers(report)
    ensures TotalOf(AggregatedTo(totals, report), user) == TotalOf(totals, user) + ContributionsOf(report.contributions, user)
  {
    ContributionsOfUnique(report.contributions, user);
    if user in Users(report) {
      var i :| 0 <= i < |report.contributions| && report.contributions[i].user == user;
      AggregatedSingleEntry(totals, report, i);
    } else {
      AggregatedUnmentioned(totals, report, user);
    }
  }

  /** The totals after the reports `history`, in the order they were delivered. */
  function SessionTotals(history: seq<RepositoryReport>): map<string, int> {
    if |history| == 0 then map[] else AggregatedTo(SessionTotals(history[..|history| - 1]), history[|history| - 1])
  }

  /** The contributions the reports of `history` credit to a user, summed. */
  function CreditedTo(history: seq<RepositoryReport>, user: string): int {
    if |history| == 0 then 0
    else CreditedTo(history[..|history| - 1], user) + ContributionsOf(history[|history| - 1].contributions, user)
  }

  /** When no report names a user twice, each user's total is the sum of its contributions across
      all reports received. */
  lemma {:induction false} SessionTotalsAreSums(history: seq<RepositoryReport>, user: string)
    requires forall k :: 0 <= k < |history| ==> UniqueUsers(history[k])
    ensures TotalOf(SessionTotals(history), user) == CreditedTo(history, user)
  {
    if |history| > 0 {
      SessionTotalsAreSums(history[..|history| - 1], user);
      AggregatedAdds(SessionTotals(history[..|history| - 1]), history[|history| - 1], user);
    }
  }

  /** The state of one `runSession`: the running pair `(totals, reports)`. */
  class Session {
    var totals: map<string, int>
    var reports: set<RepositoryReport>
    /** The reports delivered so far, in order. */
    ghost var history: seq<RepositoryReport>

    ghost predicate Valid()
      reads this
    {
      totals == SessionTotals(history) && reports == Elements(history)
    }

    constructor ()
      ensures Valid() && history == [] && totals == map[] && reports == {}
    {
      totals := map[];
      reports := {};
      history := [];
    }

    /** The callback of `analyze`: `result = result.first.aggregatedTo(report) to (result.second + report)`. */
    method OnReport(report: RepositoryReport)
      requires Valid()
      modifies this
      ensures Valid() && history == old(history) + [report]
      ensures totals == AggregatedTo(old(totals), report) && reports == old(reports) + {report}
    {
      totals := AggregatedTo(totals, report);
      reports := reports + {report};
      history := history + [report];
      assert history[..|history| - 1] == old(history);
    }
  }
}
