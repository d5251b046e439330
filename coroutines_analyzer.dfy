/** The analyzer of the `analyzer-direct` module's `coroutines` package, which calls the GitHub
    service directly. Only a missing repository list is an error: a missing contributors body is
    read as no contributors, a missing release body as no release, and no status code is checked,
    so every task sends its report. Each callback also says whether it is the last one. */
module CoroutinesAnalyzer {
  import opened Wrappers
  import opened Models
  import opened Http
  import opened Analysis
  import opened Channels

  /** The three service calls the analyzer makes, each answering with a raw response. */
  datatype Service = Service(
    organizationRepositories: string -> Response<seq<Repository>>,
    contributorsOf: (string, string) -> Response<seq<Contribution>>,
    lastReleaseOf: (string, string) -> Response<Release>)

  /** `error("No repositories found for the organization ...")`. */
  datatype AnalysisError = NoRepositoriesFound(organization: string)

  /** The report one repository's task sends: `body().orEmpty()` for the contributors and
      `body()` for the release. */
  function ReportOf(organizationName: string, repository: Repository, service: Service): (r: RepositoryReport)
    ensures r.name == repository.Name() && r.issues == repository.issues && r.stars == repository.stars
    ensures r.contributions == service.contributorsOf(organizationName, repository.Name()).Body().GetOr([])
    ensures r.lastRelease == service.lastReleaseOf(organizationName, repository.Name()).Body()
    ensures service.contributorsOf(organizationName, repository.Name()).Body().None? ==> r.contributions == []
    ensures !service.lastReleaseOf(organizationName, repository.Name()).IsSuccessful() ==> r.lastRelease.None?
  {
    var contributors := service.contributorsOf(organizationName, repository.Name()).Body().GetOr([]);
    var lastRelease := service.lastReleaseOf(organizationName, repository.Name()).Body();
    RepositoryReport(repository.Name(), repository.issues, repository.stars, contributors, lastRelease)
  }

  /** One report per repository: what the analysis returns on success. */
  function AllReports(organizationName: string, repositories: seq<Repository>, service: Service): set<RepositoryReport> {
    set r | r in repositories :: ReportOf(organizationName, r, service)
  }

  /** The reports of the first `i` tasks to complete, in the order `arrival`, form a subset of
      `AllReports`, and all `n` of them form the whole of it. */
  lemma ArrivedReports(organizationName: string, repositories: seq<Repository>, service: Service,
                       arrival: seq<nat>, i: nat)
    requires IsPermutation(arrival, |repositories|) && i <= |arrival|
    ensures var arrived := set j | 0 <= j < i :: ReportOf(organizationName, repositories[arrival[j]], service);
      && arrived <= AllReports(organizationName, repositories, service)
      && (i == |arrival| ==> arrived == AllReports(organizationName, repositories, service))
  {
    var arrived := set j | 0 <= j < i :: ReportOf(organizationName, repositories[arrival[j]], service);
    forall x | x in arrived ensures x in AllReports(organizationName, repositories, service) {
      var j :| 0 <= j < i && x == ReportOf(organizationName, repositories[arrival[j]], service);
      assert repositories[arrival[j]] in repositories;
    }
    if i == |arrival| {
      PermutationCovers(arrival, |repositories|);
      forall x | x in AllReports(organizationName, repositories, service) ensures x in arrived {
        var r :| r in repositories && x == ReportOf(organizationName, r, service);
        var m :| 0 <= m < |repositories| && repositories[m] == r;
        assert m in arrival;
        var j :| 0 <= j < |arrival| && arrival[j] == m;
        assert x == ReportOf(organizationName, repositories[arrival[j]], service);
      }
    }
  }

  /** `analyze`: the callback receives each report with `completed` set exactly on the last one
      (index `lastIndex`); `arrival` is the order in which the tasks complete. */
  method Analyze(organizationName: string, service: Service, arrival: seq<nat>)
    returns (result: Result<set<RepositoryReport>, AnalysisError>, notified: seq<(RepositoryReport, bool)>)
    requires service.organizationRepositories(organizationName).Body().Some? ==>
      IsPermutation(arrival, |service.organizationRepositories(organizationName).Body().value|)
    ensures service.organizationRepositories(organizationName).Body().None? ==>
      result == Failure(NoRepositoriesFound(organizationName)) && notified == []
    ensures service.organizationRepositories(organizationName).Body().Some? ==>
      var repositories := service.organizationRepositories(organizationName).Body().value;
      && result == Success(AllReports(organizationName, repositories, service))
      && |notified| == |repositories|
      && (forall k :: 0 <= k < |notified| ==>
            notified[k].0 == ReportOf(organizationName, repositories[arrival[k]], service))
      && (forall k :: 0 <= k < |notified| ==> (notified[k].1 <==> k == |repositories| - 1))
      && (|repositories| == 0 ==> notified == [] && result == Success({}))
  {
    var body := service.organizationRepositories(organizationName).Body();
    if body.None? {
      return Failure(NoRepositoriesFound(organizationName)), [];
    }
    var repositories := body.value;
    var channel := new Channel<RepositoryReport>();

    // Every task completes and sends, in the order `arrival`.
    var k := 0;
    while k < |arrival|
      invariant 0 <= k <= |arrival| && !channel.closed
      invariant |channel.pending| == k
      invariant forall j :: 0 <= j < k ==>
        channel.pending[j] == ReportOf(organizationName, repositories[arrival[j]], service)
    {
      channel.Send(ReportOf(organizationName, repositories[arrival[k]], service));
      k := k + 1;
    }

    // The collector: `repeat(repositories.size)`, with the iteration index `it`.
    ghost var sent := channel.pending;
    var allReports: set<RepositoryReport> := {};
    notified := [];
    var it := 0;
    while it < |repositories|
      invariant 0 <= it <= |repositories|
      invariant channel.pending == sent[it..]
      invariant |notified| == it
      invariant forall j :: 0 <= j < it ==> notified[j] == (sent[j], j == |repositories| - 1)
      invariant allReports == set j | 0 <= j < it :: ReportOf(organizationName, repositories[arrival[j]], service)
    {
      var report := channel.Receive();
      assert report == Some(sent[it]);
      allReports := allReports + {report.value};
      notified := notified + [(report.value, it == |repositories| - 1)];
      it := it + 1;
    }
    ArrivedReports(organizationName, repositories, service, arrival, |arrival|);
    result := Success(allReports);
  }
}
