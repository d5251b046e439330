/** The channel-based analyzer of the `analyzer-direct-kt` module: one task per repository sends
    its report on a channel, the collector receives as many reports as there are repositories. */
module ChannelAnalyzer {
  import opened Wrappers
  import opened Models
  import opened Collections
  import opened Analysis
  import opened Channels

  /** Launches one task per repository. The tasks complete in the order `arrival`; the successful
      ones send their report, the first failing one cancels the scope, after which no other task
      sends. Returns the channel and the cancellation cause, if any. */
  method AnalyzeAll<E>(organizationName: string, repositories: seq<Repository>, provider: Provider<E>,
                       arrival: seq<nat>)
    returns (channel: Channel<RepositoryReport>, cancellation: Option<E>)
    requires IsPermutation(arrival, |repositories|)
    ensures fresh(channel) && !channel.closed
    ensures var outcomes := Outcomes(organizationName, repositories, provider, arrival);
      channel.pending == Delivered(outcomes) && cancellation == FirstFailure(outcomes)
  {
    ghost var outcomes := Outcomes(organizationName, repositories, provider, arrival);
    channel := new Channel();
    cancellation := None;
    var k := 0;
    while k < |arrival| && cancellation.None?
      invariant 0 <= k <= |arrival|
      invariant fresh(channel) && !channel.closed
      invariant channel.pending == Delivered(outcomes[..k]) && cancellation == FirstFailure(outcomes[..k])
    {
      var outcome := TaskOutcome(organizationName, repositories[arrival[k]], provider);
      assert outcomes[..k + 1] == outcomes[..k] + [outcome];
      DeliveredAppend(outcomes[..k], [outcome]);
      match outcome {
        case Success(report) =>
          channel.Send(report);
        case Failure(e) =>
          cancellation := Some(e);
      }
      k := k + 1;
    }
    assert outcomes == outcomes[..k] + outcomes[k..];
    DeliveredAppend(outcomes[..k], outcomes[k..]);
    if k == |arrival| {
      assert outcomes[..k] == outcomes;
    }
  }

  /** Receives `expectedResults` reports, accumulating them and notifying each one, then closes
      the channel. A receive with no report left to come fails with the cancellation cause. */
  method CollectResults<E>(resultsChannel: Channel<RepositoryReport>, expectedResults: nat,
                           cancellation: Option<E>)
    returns (result: Result<set<RepositoryReport>, E>, notified: seq<RepositoryReport>)
    requires !resultsChannel.closed
    requires |resultsChannel.pending| < expectedResults ==> cancellation.Some?
    modifies resultsChannel
    ensures result.Success? <==> expectedResults <= |old(resultsChannel.pending)|
    ensures result.Success? ==>
      && notified == old(resultsChannel.pending)[..expectedResults]
      && result.value == Elements(notified)
      && resultsChannel.closed
      && resultsChannel.pending == old(resultsChannel.pending)[expectedResults..]
    ensures result.Failure? ==>
      && notified == old(resultsChannel.pending)
      && result.error == cancellation.value
      && !resultsChannel.closed
      && resultsChannel.pending == []
  {
    var allReports: set<RepositoryReport> := {};
    notified := [];
    var i := 0;
    while i < expectedResults
      invariant 0 <= i <= expectedResults && i <= |old(resultsChannel.pending)|
      invariant notified == old(resultsChannel.pending)[..i]
      invariant resultsChannel.pending == old(resultsChannel.pending)[i..]
      invariant allReports == Elements(notified)
      invariant !resultsChannel.closed
    {
      var report := resultsChannel.Receive();
      if report.None? {
        return Failure(cancellation.value), notified;
      }
      assert old(resultsChannel.pending)[..i + 1] == notified + [report.value];
      allReports := allReports + {report.value};
      notified := notified + [report.value];
      i := i + 1;
    }
    resultsChannel.Close();
    result := Success(allReports);
  }

  /** `analyze`: fetches the repository list (failing fast), launches the tasks and collects
      their reports. `arrival` is the order in which the tasks complete. */
  method Analyze<E>(organizationName: string, provider: Provider<E>, arrival: seq<nat>)
    returns (result: Result<set<RepositoryReport>, E>, notified: seq<RepositoryReport>)
    requires provider.repositoriesOf(organizationName).Success? ==>
      IsPermutation(arrival, |provider.repositoriesOf(organizationName).value|)
    ensures provider.repositoriesOf(organizationName).Failure? ==>
      result == Failure(provider.repositoriesOf(organizationName).error) && notified == []
    ensures provider.repositoriesOf(organizationName).Success? ==>
      var repositories := provider.repositoriesOf(organizationName).value;
      var outcomes := Outcomes(organizationName, repositories, provider, arrival);
      && notified == Delivered(outcomes)
      && (result.Success? <==> AllSucceed(organizationName, repositories, provider))
      && (result.Success? ==>
           && |notified| == |repositories|
           && result.value == Elements(notified)
           && result.value == ExpectedReports(organizationName, repositories, provider))
      && (result.Failure? ==> Some(result.error) == FirstFailure(outcomes) && |notified| < |repositories|)
  {
    match provider.repositoriesOf(organizationName)
    case Failure(e) =>
      result, notified := Failure(e), [];
    case Success(repositories) =>
      var resultsChannel, cancellation := AnalyzeAll(organizationName, repositories, provider, arrival);
      ghost var outcomes := Outcomes(organizationName, repositories, provider, arrival);
      RunSummary(organizationName, repositories, provider, arrival);
      result, notified := CollectResults(resultsChannel, |repositories|, cancellation);
      assert notified == Delivered(outcomes);
  }
}
