/** What the analyzers compute once concurrency is abstracted away. Each repository gets one task
    that fetches its contributors and its last release and sends the report; the tasks complete in
    an arbitrary order, `arrival`, which the environment chooses. The first task to fail cancels
    the whole analysis: the reports of the tasks that completed before it have been delivered, the
    others never are. */
module Analysis {
  import opened Wrappers
  import opened Models
  import opened Collections

  /** The repository provider as the analyzers use it (the interface their tests mock). */
  datatype Provider<E> = Provider(
    repositoriesOf: string -> Result<seq<Repository>, E>,
    contributorsOf: (string, string) -> Result<seq<Contribution>, E>,
    lastReleaseOf: (string, string) -> Result<Option<Release>, E>)

  /** `arrival` orders the task indices `0 .. n - 1`: n distinct indices, each below n. */
  predicate IsPermutation(arrival: seq<nat>, n: nat) {
    && |arrival| == n
    && (forall k :: 0 <= k < n ==> arrival[k] < n)
    && (forall j, k :: 0 <= j < k < n ==> arrival[j] != arrival[k])
  }

  /** The indices below `n`. */
  function Below(n: nat): (s: set<nat>)
    ensures |s| == n && forall i: int :: i in s <==> 0 <= i < n
  {
    if n == 0 then {} else
      var s := Below(n - 1) + {n - 1};
      assert n - 1 !in Below(n - 1);
      s
  }

  lemma {:induction false} DistinctCardinality(arrival: seq<nat>)
    requires forall j, k :: 0 <= j < k < |arrival| ==> arrival[j] != arrival[k]
    ensures |Elements(arrival)| == |arrival|
  {
    if |arrival| > 0 {
      var init := arrival[..|arrival| - 1];
      DistinctCardinality(init);
      assert Elements(arrival) == Elements(init) + {arrival[|arrival| - 1]} by {
        assert arrival == init + [arrival[|arrival| - 1]];
      }
      assert arrival[|arrival| - 1] !in Elements(init);
    }
  }

  /** A subset as large as its superset is the superset. */
  lemma SubsetOfEqualSize(a: set<nat>, b: set<nat>)
    requires a <= b && |a| == |b|
    ensures a == b
  {
    assert a * b == a && a + b == b && a - b == {};
    assert |b - a| == 0;
  }

  /** Every task index occurs in the arrival order (pigeonhole). */
  lemma PermutationCovers(arrival: seq<nat>, n: nat)
    requires IsPermutation(arrival, n)
    ensures forall i :: 0 <= i < n ==> i in arrival
  {
    DistinctCardinality(arrival);
    assert Elements(arrival) <= Below(n);
    SubsetOfEqualSize(Elements(arrival), Below(n));
    forall i | 0 <= i < n ensures i in arrival {
      assert i in Below(n);
    }
  }

  /** The task of one repository: both lookups must succeed (`getOrThrow`); the report carries the
      repository's name, issues and stars and the fetched contributors and release. A failed
      contributors lookup is reported before a failed release lookup. */
  function TaskOutcome<E>(org: string, repo: Repository, provider: Provider<E>): Result<RepositoryReport, E> {
    match provider.contributorsOf(org, repo.Name())
    case Failure(e) => Failure(e)
    case Success(contributors) =>
      match provider.lastReleaseOf(org, repo.Name())
      case Failure(e) => Failure(e)
      case Success(release) => Success(RepositoryReport(repo.Name(), repo.issues, repo.stars, contributors, release))
  }

  /** The tasks' outcomes in the order they complete: the k-th task to complete is the one of
      repository `arrival[k]`. The ensures gives callers that definition pointwise. */
  function Outcomes<E>(org: string, repos: seq<Repository>, provider: Provider<E>, arrival: seq<nat>)
    : (r: seq<Result<RepositoryReport, E>>)
    requires forall k :: 0 <= k < |arrival| ==> arrival[k] < |repos|
    ensures |r| == |arrival| && forall k :: 0 <= k < |arrival| ==> r[k] == TaskOutcome(org, repos[arrival[k]], provider)
  {
    seq(|arrival|, k requires 0 <= k < |arrival| => TaskOutcome(org, repos[arrival[k]], provider))
  }

  /** The values delivered before the first failure. */
  function Delivered<T, E>(outcomes: seq<Result<T, E>>): seq<T> {
    if |outcomes| == 0 then []
    else match outcomes[0]
      case Failure(_) => []
      case Success(v) => [v] + Delivered(outcomes[1..])
  }

  /** The error of the first failure, which ends the analysis. */
  function FirstFailure<T, E>(outcomes: seq<Result<T, E>>): Option<E> {
    if |outcomes| == 0 then None
    else match outcomes[0]
      case Failure(e) => Some(e)
      case Success(_) => FirstFailure(outcomes[1..])
  }

  /** `Delivered` is the longest all-successful prefix; the outcome right after it is the first failure. */
  lemma {:induction false} DeliveredPrefix<T, E>(outcomes: seq<Result<T, E>>, k: nat)
    requires k <= |outcomes|
    requires forall j :: 0 <= j < k ==> outcomes[j].Success?
    requires k == |outcomes| || outcomes[k].Failure?
    ensures |Delivered(outcomes)| == k
    ensures forall j :: 0 <= j < k ==> Delivered(outcomes)[j] == outcomes[j].value
    ensures FirstFailure(outcomes) == if k == |outcomes| then None else Some(outcomes[k].error)
  {
    if k > 0 {
      DeliveredPrefix(outcomes[1..], k - 1);
    }
  }

  lemma {:induction false} DeliveredStructure<T, E>(outcomes: seq<Result<T, E>>)
    ensures |Delivered(outcomes)| <= |outcomes|
    ensures forall j :: 0 <= j < |Delivered(outcomes)| ==>
      outcomes[j].Success? && Delivered(outcomes)[j] == outcomes[j].value
    ensures FirstFailure(outcomes).None? <==> |Delivered(outcomes)| == |outcomes|
    ensures FirstFailure(outcomes).Some? ==>
      outcomes[|Delivered(outcomes)|].Failure? &&
      FirstFailure(outcomes) == Some(outcomes[|Delivered(outcomes)|].error)
  {
    if |outcomes| > 0 && outcomes[0].Success? {
      DeliveredStructure(outcomes[1..]);
    }
  }

  /** How the outcomes of a run split: delivery goes on through `q` only while `p` has no failure. */
  lemma {:induction false} DeliveredAppend<T, E>(p: seq<Result<T, E>>, q: seq<Result<T, E>>)
    ensures FirstFailure(p).None? ==>
      Delivered(p + q) == Delivered(p) + Delivered(q) && FirstFailure(p + q) == FirstFailure(q)
    ensures FirstFailure(p).Some? ==>
      Delivered(p + q) == Delivered(p) && FirstFailure(p + q) == FirstFailure(p)
  {
    if |p| > 0 {
      assert (p + q)[1..] == p[1..] + q;
      DeliveredAppend(p[1..], q);
    } else {
      assert p + q == q;
    }
  }

  /** Every task of the repository list succeeds. */
  predicate AllSucceed<E>(org: string, repos: seq<Repository>, provider: Provider<E>) {
    forall r :: r in repos ==> TaskOutcome(org, r, provider).Success?
  }

  /** One report per repository of the list. */
  function ExpectedReports<E>(org: string, repos: seq<Repository>, provider: Provider<E>): set<RepositoryReport> {
    set r | r in repos && TaskOutcome(org, r, provider).Success? :: TaskOutcome(org, r, provider).value
  }

  /** When every task succeeds, all of them deliver, and what is delivered is one report per
      repository, whatever the order in which the tasks complete. */
  lemma AllTasksDeliverWhateverOrder<E>(org: string, repos: seq<Repository>, provider: Provider<E>, arrival: seq<nat>)
    requires IsPermutation(arrival, |repos|)
    requires AllSucceed(org, repos, provider)
    ensures var outcomes := Outcomes(org, repos, provider, arrival);
      && FirstFailure(outcomes).None?
      && |Delivered(outcomes)| == |repos|
      && Elements(Delivered(outcomes)) == ExpectedReports(org, repos, provider)
  {
    var outcomes := Outcomes(org, repos, provider, arrival);
    assert forall j :: 0 <= j < |outcomes| ==> outcomes[j].Success? by {
      forall j | 0 <= j < |outcomes| ensures outcomes[j].Success? {
        assert repos[arrival[j]] in repos;
      }
    }
    DeliveredPrefix(outcomes, |outcomes|);
    DeliveredCoversRepositories(org, repos, provider, arrival);
  }

  lemma DeliveredCoversRepositories<E>(org: string, repos: seq<Repository>, provider: Provider<E>, arrival: seq<nat>)
    requires IsPermutation(arrival, |repos|)
    requires var outcomes := Outcomes(org, repos, provider, arrival);
      |Delivered(outcomes)| == |outcomes| &&
      forall j :: 0 <= j < |outcomes| ==> outcomes[j].Success? && Delivered(outcomes)[j] == outcomes[j].value
    ensures Elements(Delivered(Outcomes(org, repos, provider, arrival))) == ExpectedReports(org, repos, provider)
  {
    var outcomes := Outcomes(org, repos, provider, arrival);
    var delivered := Delivered(outcomes);
    forall x | x in Elements(delivered) ensures x in ExpectedReports(org, repos, provider) {
      var j :| 0 <= j < |delivered| && delivered[j] == x;
      assert repos[arrival[j]] in repos;
    }
    PermutationCovers(arrival, |repos|);
    forall x | x in ExpectedReports(org, repos, provider) ensures x in Elements(delivered) {
      var r :| r in repos && TaskOutcome(org, r, provider).Success? && TaskOutcome(org, r, provider).value == x;
      var i :| 0 <= i < |repos| && repos[i] == r;
      assert i in arrival;
      var j :| 0 <= j < |arrival| && arrival[j] == i;
      assert delivered[j] == x;
    }
  }

  /** When some task fails, the analysis fails and fewer reports than repositories are delivered. */
  lemma SomeTaskFails<E>(org: string, repos: seq<Repository>, provider: Provider<E>, arrival: seq<nat>)
    requires IsPermutation(arrival, |repos|)
    requires !AllSucceed(org, repos, provider)
    ensures var outcomes := Outcomes(org, repos, provider, arrival);
      FirstFailure(outcomes).Some? && |Delivered(outcomes)| < |repos|
  {
    PermutationCovers(arrival, |repos|);
    var outcomes := Outcomes(org, repos, provider, arrival);
    var r :| r in repos && TaskOutcome(org, r, provider).Failure?;
    var i :| 0 <= i < |repos| && repos[i] == r;
    assert i in arrival;
    var j :| 0 <= j < |arrival| && arrival[j] == i;
    DeliveredStructure(outcomes);
    assert outcomes[j].Failure?;
  }

  /** The whole run in one statement: the analysis completes (no task is cancelled) exactly when
      every task succeeds, and then one report per repository is delivered. */
  lemma RunSummary<E>(org: string, repos: seq<Repository>, provider: Provider<E>, arrival: seq<nat>)
    requires IsPermutation(arrival, |repos|)
    ensures var outcomes := Outcomes(org, repos, provider, arrival);
      && |Delivered(outcomes)| <= |repos|
      && (FirstFailure(outcomes).None? <==> AllSucceed(org, repos, provider))
      && (FirstFailure(outcomes).None? <==> |Delivered(outcomes)| == |repos|)
      && (AllSucceed(org, repos, provider) ==>
           Elements(Delivered(outcomes)) == ExpectedReports(org, repos, provider))
  {
    var outcomes := Outcomes(org, repos, provider, arrival);
    DeliveredStructure(outcomes);
    if AllSucceed(org, repos, provider) {
      AllTasksDeliverWhateverOrder(org, repos, provider, arrival);
    } else {
      SomeTaskFails(org, repos, provider, arrival);
    }
  }
}
