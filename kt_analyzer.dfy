/** The analyzer of the `analyzer-direct` module's `analyzerkt` package: the same fan-out as the
    channel-based analyzer, written inline. The channel is created before the repository list is
    fetched, each task awaits both lookups before sending, and the collector closes the channel
    once it has received one report per repository. */
module KtAnalyzer {
  import opened Wrappers
  import opened Models
  import opened Collections
  import opened Analysis
  import opened Channels

  method Analyze<E>(organizationName: string, provider: Provider<E>, arrival: seq<nat>)
    returns (result: Result<set<RepositoryReport>, E>, notified: seq<RepositoryReport>)
    requires provider.repositoriesOf(organizationName).Success? ==>
      IsPermutation(arrival, |provider.repositoriesOf(organizationName).value|)
    ensures provider.repositoriesOf(organizationName).Failure? ==>
      result == Failure(provider.repositoriesOf(organizationName).error) && notified == []
    ensures provider.repositoriesOf(organizationName).Success? ==>
      var repositories := provider.repositoriesOf(organizationName).value;
      var outcomes := Outcomes(organizationName, repositories, provider, arrival);
      && notified == Delivered(outcomes)
      && (result.Success? <==> AllSucceed(organizationName, repositories, provider))
      && (result.Success? ==>
           && |notified| == |repositories|
           && result.value == Elements(notified)
           && result.value == ExpectedReports(organizationName, repositories, provider))
      && (result.Failure? ==> Some(result.error) == FirstFailure(outcomes) && |notified| < |repositories|)
  {
    var channel := new Channel<RepositoryReport>();
    if provider.repositoriesOf(organizationName).Failure? {
      return Failure(provider.repositoriesOf(organizationName).error), [];
    }
    var repositories := provider.repositoriesOf(organizationName).value;
    ghost var outcomes := Outcomes(organizationName, repositories, provider, arrival);

    // The tasks, in the order they complete, until the first failure cancels the others.
    var cancellation: Option<E> := None;
    var k := 0;
    while k < |arrival| && cancellation.None?
      invariant 0 <= k <= |arrival|
      invariant !channel.closed
      invariant channel.pending == Delivered(outcomes[..k]) && cancellation == FirstFailure(outcomes[..k])
    {
      var repository := repositories[arrival[k]];
      var contributors := provider.contributorsOf(organizationName, repository.Name());
      var release := provider.lastReleaseOf(organizationName, repository.Name());
      assert outcomes[..k + 1] == outcomes[..k] + [outcomes[k]];
      DeliveredAppend(outcomes[..k], [outcomes[k]]);
      if contributors.Failure? {
        cancellation := Some(contributors.error);
      } else if release.Failure? {
        cancellation := Some(release.error);
      } else {
        channel.Send(RepositoryReport(repository.Name(), repository.issues, repository.stars,
                                      contributors.value, release.value));
      }
      k := k + 1;
    }
    assert outcomes == outcomes[..k] + outcomes[k..];
    DeliveredAppend(outcomes[..k], outcomes[k..]);
    if k == |arrival| {
      assert outcomes[..k] == outcomes;
    }
    RunSummary(organizationName, repositories, provider, arrival);

    // The collector: one receive per repository.
    ghost var sent := channel.pending;
    var allReports: set<RepositoryReport> := {};
    notified := [];
    var i := 0;
    while i < |repositories|
      invariant 0 <= i <= |repositories| && i <= |sent|
      invariant notified == sent[..i] && channel.pending == sent[i..]
      invariant allReports == Elements(notified)
    {
      var report := channel.Receive();
      if report.None? {
        result := Failure(cancellation.value);
        assert notified == sent;
        return;
      }
      assert sent[..i + 1] == notified + [report.value];
      allReports := allReports + {report.value};
      notified := notified + [report.value];
      i := i + 1;
    }
    channel.Close();
    result := Success(allReports);
    assert notified == sent;
  }
}
