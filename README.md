# direct-style-experiments: the sequential core, in Dafny

This project models the sequential logic behind a set of Kotlin coroutine experiments: a GitHub
organization analyzer, a smart-hub sensor health checker and a small blog service. Concurrency is
abstracted away. The project proves what each piece computes.

- **Repository provider** (`RepositoryProvider`, with `Strings`, `Http`): `paginatedRequest`
  follows the "next" cursor of GitHub's `Link` headers from page 1 and concatenates the page bodies,
  or fails on the first unsuccessful page. `paginatedFlowRequest` emits the pages one by one
  instead. `nextPage` finds the first comma-separated link value marked `rel="next"` and applies
  `[?&]page=(\d+)` to it. This is a simplified reading of section 3 of RFC 8288 (Web Linking).
  `lastReleaseOf` reads a 404 as "no release". A request is a function from page number to a
  response record (status code, body, `Link` values).
- **Domain model** (`Models`): a repository's `organization` and `name` come from splitting
  `fullName` at its first `/`. `addOrUpdate` merges a report into a set of reports by name.
- **Analyzers** (`Analysis`, `Channels`, `ChannelAnalyzer`, `KtAnalyzer`, `CoroutinesAnalyzer`):
  these are three versions of `analyze`. Each fetches the repository list, runs one task per
  repository that sends its report on a channel, and collects one report per repository.
  - The channel is a FIFO queue class.
  - The order in which tasks complete is a permutation parameter, `arrival`.
  - In the first two versions, the first task to fail cancels the rest. `Analysis` states what is
    then delivered, and it proves that the result does not depend on `arrival` when every task
    succeeds.
- **Client aggregation** (`AppController`): `aggregatedTo` folds a report into the map from user
  to total contributions. A `Session` class holds the running pair that `runSession` updates.
- **Sensor health checker** (`SensorHealth`): a class with the fields `activeSensors` and
  `state`, and the methods `react` and `update`.
- **Blog** (`BlogModel`, `BlogRepository`, `BlogService`):
  - The repository is a class over the saved posts and keeps at most one post per title.
  - The service's `create` checks that the title is free, runs both verifiers, and only then
    saves.

## Model

| member | source | states |
|---|---|---|
| Strings.Split | analyzer-direct-kt/src/main/kotlin/io/github/tassiLuca/analyzer/lib/GitHubRepositoryProvider.kt:74 | `split(",")` cuts at every comma: the parts joined with commas give back the string, no part has a comma, and there is at least one part (empty parts are kept). |
| Strings.Contains | analyzer-direct-kt/src/main/kotlin/io/github/tassiLuca/analyzer/lib/GitHubRepositoryProvider.kt:75 | `contains` is true exactly when the substring occurs at some position. |
| Strings.DigitRun | analyzer-direct-kt/src/main/kotlin/io/github/tassiLuca/analyzer/lib/GitHubRepositoryProvider.kt:76 | The greedy `\d+` run is a prefix made only of ASCII digits, and it is maximal: the next character, if any, is not a digit. |
| Strings.SubstringsAroundDelimiter | analyzer-direct-kt/src/main/kotlin/io/github/tassiLuca/analyzer/lib/Models.kt:19-22 | `substringBefore('/')` + "/" + `substringAfter('/')` rebuilds the string, and the part before has no `/`. Without a `/`, both return the whole string. |
| Strings.SubstringBefore | analyzer-direct-kt/src/main/kotlin/io/github/tassiLuca/analyzer/lib/Models.kt:19 | Defines Kotlin's `substringBefore(c)`: the text before the first `c`, or the whole string when there is none. Its properties are stated by `Strings.SubstringsAroundDelimiter`. |
| Strings.SubstringAfter | analyzer-direct-kt/src/main/kotlin/io/github/tassiLuca/analyzer/lib/Models.kt:22 | Defines Kotlin's `substringAfter(c)`: the text after the first `c`, or the whole string when there is none. Its properties are stated by `Strings.SubstringsAroundDelimiter`. |
| Strings.DigitsValue | analyzer-direct-kt/src/main/kotlin/io/github/tassiLuca/analyzer/lib/GitHubRepositoryProvider.kt:47 | Defines `toInt()` on a digit string, as a left fold in base 10. `Strings.DigitsValuePositional` ties it to the positional value. The other lemmas below give its bound, leading zeros and an example. |
| Strings.DigitsValuePositional | analyzer-direct-kt/src/main/kotlin/io/github/tassiLuca/analyzer/lib/GitHubRepositoryProvider.kt:47 | For every digit string, the fold equals the positional value: the sum over i of digit i times 10^(n-1-i), most significant digit first. |
| Strings.PositionalAppend | analyzer-direct-kt/src/main/kotlin/io/github/tassiLuca/analyzer/lib/GitHubRepositoryProvider.kt:47 | Appending a digit multiplies the positional value by ten and adds that digit. |
| Strings.DigitsValueBound | analyzer-direct-kt/src/main/kotlin/io/github/tassiLuca/analyzer/lib/GitHubRepositoryProvider.kt:47 | A run of k digits denotes a number below 10^k. |
| Strings.LeadingZeroIgnored | analyzer-direct-kt/src/main/kotlin/io/github/tassiLuca/analyzer/lib/GitHubRepositoryProvider.kt:47 | A leading zero does not change the number. |
| Strings.DigitsValueExample | analyzer-direct-kt/src/main/kotlin/io/github/tassiLuca/analyzer/lib/GitHubRepositoryProvider.kt:47 | `"42"` denotes 42. |
| Models.FullNameSplit | analyzer-direct-kt/src/main/kotlin/io/github/tassiLuca/analyzer/lib/Models.kt:17-22 | `organization` is the text before the first `/` of `fullName` and `name` the text after it. Without a `/`, both are `fullName`. |
| Models.Repository.Organization | analyzer-direct-kt/src/main/kotlin/io/github/tassiLuca/analyzer/lib/Models.kt:19 | Defines `organization` as `fullName.substringBefore('/')`. Its properties are stated by `Models.FullNameSplit` and the two examples. |
| Models.Repository.Name | analyzer-direct-kt/src/main/kotlin/io/github/tassiLuca/analyzer/lib/Models.kt:22 | Defines `name` as `fullName.substringAfter('/')`. Its properties are stated by `Models.FullNameSplit` and the two examples. |
| Models.FullNameExample | analyzer-direct-kt/src/main/kotlin/io/github/tassiLuca/analyzer/lib/Models.kt:17-22 | `dse/test-1` gives organization `dse` and name `test-1`. |
| Models.FullNameFirstSlash | analyzer-direct-kt/src/main/kotlin/io/github/tassiLuca/analyzer/lib/Models.kt:17-22 | `a/b/c` gives organization `a` and name `b/c`: the split is at the first `/`. |
| Models.DistinctProperties | analyzer-direct-kt/src/main/kotlin/io/github/tassiLuca/analyzer/lib/Models.kt:61 | `distinct()` has no duplicates and the same elements as its input. |
| Models.DistinctExtends | analyzer-direct-kt/src/main/kotlin/io/github/tassiLuca/analyzer/lib/Models.kt:61 | `distinct(a + b)` starts with `distinct(a)`: first occurrences keep their places. |
| Models.DistinctOfDistinct | analyzer-direct-kt/src/main/kotlin/io/github/tassiLuca/analyzer/lib/Models.kt:61 | A list without duplicates is its own `distinct()`. |
| Models.DistinctAbsorbs | analyzer-direct-kt/src/main/kotlin/io/github/tassiLuca/analyzer/lib/Models.kt:61 | Appending elements already present does not change `distinct()`. |
| Models.Distinct | analyzer-direct-kt/src/main/kotlin/io/github/tassiLuca/analyzer/lib/Models.kt:61 | Defines `distinct()`: each element is kept at its first occurrence. Its properties are stated by the four `Distinct…` lemmas. |
| Models.Merge | analyzer-direct-kt/src/main/kotlin/io/github/tassiLuca/analyzer/lib/Models.kt:61-62 | Defines the merge of `addOrUpdate`: `existing.copy(contributions = (existing + other).distinct())`. Its properties are stated by `Models.MergeProperties` and `Models.MergeIdempotent`. |
| Models.MergeProperties | analyzer-direct-kt/src/main/kotlin/io/github/tassiLuca/analyzer/lib/Models.kt:59-63 | The merged report keeps the existing report's name, issues, stars and last release. Its contributions are the duplicate-free union of both lists. The existing contributions, if duplicate-free, come first and in their order. |
| Models.MergeIdempotent | analyzer-direct-kt/src/main/kotlin/io/github/tassiLuca/analyzer/lib/Models.kt:61-62 | Merging a report whose contributions are all already present changes nothing: no duplicate contributions appear. |
| Models.AddOrUpdate | analyzer-direct-kt/src/main/kotlin/io/github/tassiLuca/analyzer/lib/Models.kt:57-69 | An absent name adds the report. A present name replaces that report with its merge. Reports with other names are kept, and no others appear. The name is present afterwards. Unique names stay unique. The set grows by at most one. |
| RepositoryProvider.FirstContaining | analyzer-direct-kt/src/main/kotlin/io/github/tassiLuca/analyzer/lib/GitHubRepositoryProvider.kt:75 | `find`: the index of the first segment containing the marker, or none exactly when no segment contains it. |
| RepositoryProvider.FirstPageParam | analyzer-direct-kt/src/main/kotlin/io/github/tassiLuca/analyzer/lib/GitHubRepositoryProvider.kt:76 | The leftmost position where `[?&]page=\d` matches, or none when it matches nowhere. |
| RepositoryProvider.PageParameter | analyzer-direct-kt/src/main/kotlin/io/github/tassiLuca/analyzer/lib/GitHubRepositoryProvider.kt:76 | Group 1 of the regex: a non-empty digit string that is the digit run after the leftmost match. It is absent exactly when the regex matches nowhere. |
| RepositoryProvider.NextPageFromFirstMarkedSegment | analyzer-direct-kt/src/main/kotlin/io/github/tassiLuca/analyzer/lib/GitHubRepositoryProvider.kt:72-76 | No next page unless some segment contains `rel="next"`. Otherwise the page number comes from the first such segment only. |
| RepositoryProvider.PerPageIsNotPage | analyzer-direct-kt/src/main/kotlin/io/github/tassiLuca/analyzer/lib/GitHubRepositoryProvider.kt:76 | A `per_page=` parameter is not mistaken for `page=`: no match starts inside it. |
| RepositoryProvider.Segments | analyzer-direct-kt/src/main/kotlin/io/github/tassiLuca/analyzer/lib/GitHubRepositoryProvider.kt:72-74 | Defines the link values of all `Link` headers split at every comma, in order (`flatMap { it.split(",") }`). |
| RepositoryProvider.PageOf | analyzer-direct-kt/src/main/kotlin/io/github/tassiLuca/analyzer/lib/GitHubRepositoryProvider.kt:76 | Defines the page number of one link value: group 1 of the leftmost regex match, turned into a number by `toInt()`. Its properties are stated by `PageParameter` and the `DigitsValue` lemmas. |
| RepositoryProvider.NextPage | analyzer-direct-kt/src/main/kotlin/io/github/tassiLuca/analyzer/lib/GitHubRepositoryProvider.kt:72-76 | Defines `nextPage()?.toInt()`: the page number of the first link value containing `rel="next"`. Its properties are stated by `NextPageFromFirstMarkedSegment`. |
| RepositoryProvider.Items | analyzer-direct-kt/src/main/kotlin/io/github/tassiLuca/analyzer/lib/GitHubRepositoryProvider.kt:47 | Defines `body().orEmpty()`. Its properties are stated by `ItemsOfPage`. |
| RepositoryProvider.ItemsOfPage | analyzer-direct-kt/src/main/kotlin/io/github/tassiLuca/analyzer/lib/GitHubRepositoryProvider.kt:47 | A successful page contributes its body. A page without a body contributes nothing. |
| RepositoryProvider.PageItems | analyzer-direct-kt/src/main/kotlin/io/github/tassiLuca/analyzer/lib/GitHubRepositoryProvider.kt:47 | The items of each page are `body().orEmpty()`, in page order. A successful page with no body contributes nothing. |
| RepositoryProvider.RunEnds | analyzer-direct-kt/src/main/kotlin/io/github/tassiLuca/analyzer/lib/GitHubRepositoryProvider.kt:39-52 | A run of pages that follows the cursor and ends (complete or failed) meets the termination bound. |
| RepositoryProvider.CompleteRunResult | analyzer-direct-kt/src/main/kotlin/io/github/tassiLuca/analyzer/lib/GitHubRepositoryProvider.kt:40-51 | `withPagination` along a complete run returns the partial result followed by every page's items in request order. A successful page without a body adds nothing and does not make the run fail. |
| RepositoryProvider.FailedRunResult | analyzer-direct-kt/src/main/kotlin/io/github/tassiLuca/analyzer/lib/GitHubRepositoryProvider.kt:40-51 | `withPagination` along a run whose last page fails returns that page's HTTP error. The accumulated items are discarded. |
| RepositoryProvider.PaginatedRequestSucceeds | analyzer-direct-kt/src/main/kotlin/io/github/tassiLuca/analyzer/lib/GitHubRepositoryProvider.kt:39-52 | Starting from page 1, when every page succeeds and the last has no next link, the result is the concatenation of all page bodies in request order. |
| RepositoryProvider.PaginatedRequestFails | analyzer-direct-kt/src/main/kotlin/io/github/tassiLuca/analyzer/lib/GitHubRepositoryProvider.kt:39-52 | Starting from page 1, an unsuccessful page ends pagination with failure carrying its status code, and no partial result is returned. |
| RepositoryProvider.RequestedPages | analyzer-direct-kt/src/main/kotlin/io/github/tassiLuca/analyzer/lib/GitHubRepositoryProvider.kt:41-47 | The pages pagination requests start at the given page, and each next page is the one the previous page's `Link` names. The run stops exactly at a page with no next link or at a failed page. |
| RepositoryProvider.PaginatedRequestCharacterized | analyzer-direct-kt/src/main/kotlin/io/github/tassiLuca/analyzer/lib/GitHubRepositoryProvider.kt:39-52 | For every request function that terminates: when the last requested page succeeds, the result is the concatenation of the requested pages' items; otherwise it is that page's error. |
| RepositoryProvider.WithPagination | analyzer-direct-kt/src/main/kotlin/io/github/tassiLuca/analyzer/lib/GitHubRepositoryProvider.kt:40-51 | Defines `withPagination`: no next page returns the partial result; an unsuccessful page fails with its status code; otherwise it recurses with the items appended and the next page. Its properties are stated by `CompleteRunResult`, `FailedRunResult` and `FlowAgreesFrom`. |
| RepositoryProvider.PaginatedRequest | analyzer-direct-kt/src/main/kotlin/io/github/tassiLuca/analyzer/lib/GitHubRepositoryProvider.kt:39-53 | Defines `paginatedRequest` as `withPagination` from an empty list and page 1. Its properties are stated by `PaginatedRequestSucceeds`, `PaginatedRequestFails` and `PaginatedRequestCharacterized`. |
| RepositoryProvider.FlowWithPagination | analyzer-direct-kt/src/main/kotlin/io/github/tassiLuca/analyzer/lib/GitHubRepositoryProvider.kt:56-68 | Defines the flow's `withPagination`: each successful page emits its items and continues with the next page; an unsuccessful page raises its status code. Its properties are stated by `FlowAgreesFrom` and `FlowRunFrom`. |
| RepositoryProvider.PaginatedFlowRequest | analyzer-direct-kt/src/main/kotlin/io/github/tassiLuca/analyzer/lib/GitHubRepositoryProvider.kt:55-70 | Defines `paginatedFlowRequest`: every collection starts from page 1. Its properties are stated by `FlowAgreesWithPaginatedRequest` and `PaginatedFlowEmitsPages`. |
| RepositoryProvider.FlowAgreesFrom | analyzer-direct-kt/src/main/kotlin/io/github/tassiLuca/analyzer/lib/GitHubRepositoryProvider.kt:40-68 | From any page and partial result, the eager pagination succeeds exactly when the flow completes, with the partial result followed by everything the flow emits; otherwise both fail with the same error. |
| RepositoryProvider.FlowRunFrom | analyzer-direct-kt/src/main/kotlin/io/github/tassiLuca/analyzer/lib/GitHubRepositoryProvider.kt:56-68 | Along a run of pages, the flow emits every page's items and completes when the run is complete. When the last page fails, it emits the earlier pages' items and raises that page's error. |
| RepositoryProvider.FlowAgreesWithPaginatedRequest | analyzer-direct-kt/src/main/kotlin/io/github/tassiLuca/analyzer/lib/GitHubRepositoryProvider.kt:39-70 | The flow and the eager request agree. The flow completes exactly when the request succeeds, and its emissions concatenate to the request's result. Otherwise the flow raises the request's error. |
| RepositoryProvider.PaginatedFlowEmitsPages | analyzer-direct-kt/src/main/kotlin/io/github/tassiLuca/analyzer/lib/GitHubRepositoryProvider.kt:55-70 | The flow emits each page's items in order. On a failed page it raises that page's error after the earlier pages have been emitted. |
| RepositoryProvider.LastReleaseOf | analyzer-direct-kt/src/main/kotlin/io/github/tassiLuca/analyzer/lib/GitHubRepositoryProvider.kt:30-37 | Failure exactly for an unsuccessful code other than 404, carrying that code. A 404 gives success with no release. A success gives the body. |
| Channels.Channel.Send | analyzer-direct-kt/src/main/kotlin/io/github/tassiLuca/analyzer/lib/GitHubAnalyzerByChannels.kt:31 | A send appends to the channel's pending values. |
| Channels.Channel.Receive | analyzer-direct-kt/src/main/kotlin/io/github/tassiLuca/analyzer/lib/GitHubAnalyzerByChannels.kt:44 | A receive takes the oldest pending value. When none is pending it yields nothing. |
| Channels.Channel.Close | analyzer-direct-kt/src/main/kotlin/io/github/tassiLuca/analyzer/lib/GitHubAnalyzerByChannels.kt:48 | Closing keeps the pending values. |
| Analysis.PermutationCovers | analyzer-direct-kt/src/main/kotlin/io/github/tassiLuca/analyzer/lib/GitHubAnalyzerByChannels.kt:27-33 | In an arrival order every task completes: each repository index occurs. |
| Analysis.TaskOutcome | analyzer-direct-kt/src/main/kotlin/io/github/tassiLuca/analyzer/lib/GitHubAnalyzerByChannels.kt:28-32 | Defines one task: a failed contributors lookup fails, then a failed release lookup fails; otherwise the report has the repository's name, issues and stars and the fetched contributors and release. Its properties are stated by `Analysis.ExpectedReports` (with `AllSucceed`), `DeliveredPrefix`, `AllTasksDeliverWhateverOrder` and `SomeTaskFails`. |
| Analysis.Outcomes | analyzer-direct-kt/src/main/kotlin/io/github/tassiLuca/analyzer/lib/GitHubAnalyzerByChannels.kt:27-33 | Defines the outcomes of `repositories.map { launch … }` in completion order: position k holds the outcome of the task of repository `arrival[k]`. Its ensures is this definition, stated for callers; its properties are stated by `Delivered`, `FirstFailure` and the run lemmas. |
| Analysis.Delivered | analyzer-direct-kt/src/main/kotlin/io/github/tassiLuca/analyzer/lib/GitHubAnalyzerByChannels.kt:27-33 | Defines the reports sent before the first failure. Its properties are stated by `DeliveredPrefix`, `DeliveredStructure` and `DeliveredAppend`. |
| Analysis.FirstFailure | analyzer-direct-kt/src/main/kotlin/io/github/tassiLuca/analyzer/lib/GitHubAnalyzerByChannels.kt:27-33 | Defines the error of the first failed task, which cancels the scope. Its properties are stated by `DeliveredPrefix`, `DeliveredStructure` and `DeliveredAppend`. |
| Analysis.DeliveredPrefix | analyzer-direct-kt/src/main/kotlin/io/github/tassiLuca/analyzer/lib/GitHubAnalyzerByChannels.kt:27-33 | What is delivered is exactly the reports of the successful tasks completed before the first failure. The first failure's error is the cancellation cause. |
| Analysis.DeliveredStructure | analyzer-direct-kt/src/main/kotlin/io/github/tassiLuca/analyzer/lib/GitHubAnalyzerByChannels.kt:27-33 | The delivered reports are a prefix of the outcomes. There is no cancellation exactly when all outcomes are delivered. |
| Analysis.DeliveredAppend | analyzer-direct-kt/src/main/kotlin/io/github/tassiLuca/analyzer/lib/GitHubAnalyzerByChannels.kt:27-33 | Delivery goes on through later outcomes only while no task has failed. After a failure nothing more is delivered. |
| Analysis.AllTasksDeliverWhateverOrder | analyzer-direct-kt/src/main/kotlin/io/github/tassiLuca/analyzer/lib/GitHubAnalyzerByChannels.kt:27-46 | When all lookups succeed, every task delivers, and the delivered set is one report per repository whatever the arrival order. |
| Analysis.SomeTaskFails | analyzer-direct-kt/src/main/kotlin/io/github/tassiLuca/analyzer/lib/GitHubAnalyzerByChannels.kt:29-30 | When some lookup fails, the run is cancelled and fewer reports than repositories are delivered. |
| Analysis.RunSummary | analyzer-direct-kt/src/main/kotlin/io/github/tassiLuca/analyzer/lib/GitHubAnalyzerByChannels.kt:27-46 | There is no cancellation exactly when every task succeeds, and exactly when one report per repository is delivered. |
| ChannelAnalyzer.AnalyzeAll | analyzer-direct-kt/src/main/kotlin/io/github/tassiLuca/analyzer/lib/GitHubAnalyzerByChannels.kt:22-35 | Returns a fresh open channel holding the delivered reports in arrival order, with the cancellation cause if any. |
| ChannelAnalyzer.CollectResults | analyzer-direct-kt/src/main/kotlin/io/github/tassiLuca/analyzer/lib/GitHubAnalyzerByChannels.kt:37-50 | Performs `expectedResults` receives in order with one notification each. The result is the set of received reports, and the channel is closed only then. A receive with nothing left to come fails with the cancellation cause and leaves the channel open. |
| ChannelAnalyzer.Analyze | analyzer-direct-kt/src/main/kotlin/io/github/tassiLuca/analyzer/lib/GitHubAnalyzerByChannels.kt:11-20 | A failed list fetch fails with no notification. Otherwise the notifications are the delivered reports in arrival order. Success holds exactly when all lookups succeed; then there is one notification per repository and the result is exactly the notified set, one report per repository. A failure carries the first failure's error, with fewer notifications than repositories. |
| KtAnalyzer.Analyze | analyzer-direct/src/main/kotlin/io/github/tassiLuca/analyzerkt/lib/Analyzer.kt:30-53 | The same contract for the inline version: the list fetch fails before any task, each task sends only after both lookups, there is one receive and notification per repository, and the accumulated set is returned. |
| CoroutinesAnalyzer.ReportOf | analyzer-direct/src/main/kotlin/io/github/tassiLuca/analyzer/coroutines/core/Analyzer.kt:42-51 | A report carries the repository's name, issues and stars, the fetched contributors (`body().orEmpty()`) and the fetched release (`body()`). A missing contributors body gives no contributors. An unsuccessful release response gives no release. |
| CoroutinesAnalyzer.ArrivedReports | analyzer-direct/src/main/kotlin/io/github/tassiLuca/analyzer/coroutines/core/Analyzer.kt:55-61 | The reports received so far are among the repositories' reports, and all n of them are exactly those reports, whatever the arrival order. |
| CoroutinesAnalyzer.Analyze | analyzer-direct/src/main/kotlin/io/github/tassiLuca/analyzer/coroutines/core/Analyzer.kt:30-62 | A missing repository-list body fails with "no repositories found" and no callback. Otherwise there is exactly one callback per repository in arrival order, `completed` is true exactly on the last one, and the result is one report per repository. With no repositories there are no callbacks and the result is empty. |
| AppController.PutAllKeys | analyzer-direct/src/main/kotlin/io/github/tassiLuca/analyzerkt/client/AnalyzerAppController.kt:41 | `map + pairs` has the map's keys plus the pairs' keys. |
| AppController.PutAllUnmentioned | analyzer-direct/src/main/kotlin/io/github/tassiLuca/analyzerkt/client/AnalyzerAppController.kt:41 | A key that no pair mentions keeps its value. |
| AppController.PutAllLastWins | analyzer-direct/src/main/kotlin/io/github/tassiLuca/analyzerkt/client/AnalyzerAppController.kt:41 | A key's new value is that of the last pair for it. |
| AppController.AggregatedKeys | analyzer-direct/src/main/kotlin/io/github/tassiLuca/analyzerkt/client/AnalyzerAppController.kt:40-41 | The users in the new totals are the old users plus the report's users. |
| AppController.AggregatedUnmentioned | analyzer-direct/src/main/kotlin/io/github/tassiLuca/analyzerkt/client/AnalyzerAppController.kt:40-41 | A user the report does not mention keeps its total and its presence. |
| AppController.AggregatedLastEntryWins | analyzer-direct/src/main/kotlin/io/github/tassiLuca/analyzerkt/client/AnalyzerAppController.kt:40-41 | A user is credited with its old total (0 if absent) plus the count of its last entry in the report. The computation uses the old map, so entries do not accumulate. |
| AppController.AggregatedSingleEntry | analyzer-direct/src/main/kotlin/io/github/tassiLuca/analyzerkt/client/AnalyzerAppController.kt:40-41 | A user appearing once gets its old total (0 if absent) plus its count. |
| AppController.DuplicateEntriesDoNotAccumulate | analyzer-direct/src/main/kotlin/io/github/tassiLuca/analyzerkt/client/AnalyzerAppController.kt:40-41 | A total of 1 plus the entries 11 and 56 of one user in one report gives 57, not 68. |
| AppController.PutAll | analyzer-direct/src/main/kotlin/io/github/tassiLuca/analyzerkt/client/AnalyzerAppController.kt:41 | Defines `Map + List<Pair>`: the pairs are put in order. Its properties are stated by `PutAllKeys`, `PutAllUnmentioned` and `PutAllLastWins`. |
| AppController.ContributionPairs | analyzer-direct/src/main/kotlin/io/github/tassiLuca/analyzerkt/client/AnalyzerAppController.kt:41 | Defines `report.contributions.map { it.user to ((this[it.user] ?: 0) + it.contributions) }`: one pair per contribution, in order, each total read from the map before the report. Its ensures is this definition, stated for callers. Its properties are stated by `PutAll` and the `Aggregated…` lemmas. |
| AppController.AggregatedTo | analyzer-direct/src/main/kotlin/io/github/tassiLuca/analyzerkt/client/AnalyzerAppController.kt:40-41 | Defines `aggregatedTo`: the map plus, for each contribution, the pair of its user and the old total (0 if absent) plus its count. Its properties are stated by the `Aggregated…` lemmas. |
| AppController.AggregatedAdds | analyzer-direct/src/main/kotlin/io/github/tassiLuca/analyzerkt/client/AnalyzerAppController.kt:40-41 | When no user appears twice in the report, each user's total grows by the contributions the report credits to that user. |
| AppController.SessionTotalsAreSums | analyzer-direct/src/main/kotlin/io/github/tassiLuca/analyzerkt/client/AnalyzerAppController.kt:27-41 | Over a session, when no report names a user twice, each user's total is the sum of its contributions across the reports received. |
| AppController.Session.OnReport | analyzer-direct/src/main/kotlin/io/github/tassiLuca/analyzerkt/client/AnalyzerAppController.kt:29-31 | Each callback replaces the running pair with the aggregated totals and the old set plus the report. The totals stay equal to the fold of the reports received. |
| SensorHealth.NoMoreActive | smart-hub-direct-kt/src/main/kotlin/io/github/tassiLuca/hub/core/SensorHealthChecker.kt:26-30 | An alert is raised exactly when the previous active set is non-empty and differs from the window's sensors. It names exactly the active sensors absent from the window. |
| SensorHealth.SensorHealthChecker.React | smart-hub-direct-kt/src/main/kotlin/io/github/tassiLuca/hub/core/SensorHealthChecker.kt:20-22 | Appends the source unit to the window, keeping order and duplicates. |
| SensorHealth.SensorHealthChecker.Update | smart-hub-direct-kt/src/main/kotlin/io/github/tassiLuca/hub/core/SensorHealthChecker.kt:24-35 | An empty window changes nothing and raises no alert. Otherwise the alert is as `NoMoreActive` says, the window's sensors become the active ones, and the window is emptied. |
| SensorHealth.FirstUpdateNeverAlerts | smart-hub-direct-kt/src/main/kotlin/io/github/tassiLuca/hub/core/SensorHealthChecker.kt:15-26 | With no sensor active before (the initial state), no alert is raised. |
| SensorHealth.NewSensorsOnlyRaiseAnEmptyAlert | smart-hub-direct-kt/src/main/kotlin/io/github/tassiLuca/hub/core/SensorHealthChecker.kt:26-27 | When sensors only appear, an alert is still raised, and it names no sensor. |
| SensorHealth.SilentSensorIsReported | smart-hub-direct-kt/src/main/kotlin/io/github/tassiLuca/hub/core/SensorHealthChecker.kt:26-27 | An active sensor that sent nothing in the window is named by the alert. |
| SensorHealth.SameSensorsNoAlert | smart-hub-direct-kt/src/main/kotlin/io/github/tassiLuca/hub/core/SensorHealthChecker.kt:26 | The same sensors as before, in any order and with any repetitions, raise no alert. |
| SensorHealth.TwoWindows | smart-hub-direct-kt/src/main/kotlin/io/github/tassiLuca/hub/core/SensorHealthChecker.kt:15-35 | Events from `t1`, `t2`, `t1` and then from `t1` only: the first update is silent, the second names `t2`. |
| BlogRepository.FindByTitle | blog-ws-direct-kt/src/main/kotlin/io/github/tassiLuca/dse/blog/PostsRepository.kt:36-37 | `find` gives the first post with the title, and nothing exactly when no post has it. |
| BlogRepository.PostsRepository.Load | blog-ws-direct-kt/src/main/kotlin/io/github/tassiLuca/dse/blog/PostsRepository.kt:33-37 | `load(t)` is null exactly when `exists(t)` is false. Otherwise it is a stored post with that title. |
| BlogRepository.PostsRepository.Exists | blog-ws-direct-kt/src/main/kotlin/io/github/tassiLuca/dse/blog/PostsRepository.kt:33-34 | Defines `exists`: some stored post has the title. Its properties are stated by `Load` (null exactly when it is false) and `Save` (a taken title is refused). |
| BlogRepository.PostsRepository.LoadAll | blog-ws-direct-kt/src/main/kotlin/io/github/tassiLuca/dse/blog/PostsRepository.kt:39-40 | Defines `loadAll`: the stored posts in the order saved. Its properties are stated by `Save`, whose `posts == old(posts) + [post]` gives the new stored sequence. |
| BlogRepository.PostsRepository.Save | blog-ws-direct-kt/src/main/kotlin/io/github/tassiLuca/dse/blog/PostsRepository.kt:27-31 | A taken title fails and leaves the posts unchanged. Otherwise the post is appended and returned, and `load` of its title returns it. Lookups of other titles are unaffected, and titles stay unique. |
| BlogRepository.SaveKeepsOthers | blog-ws-direct-kt/src/main/kotlin/io/github/tassiLuca/dse/blog/PostsRepository.kt:29-37 | Appending a post does not change the lookup of any other title. Under a free title, the new post is the one found. |
| BlogService.AuthorBy | blog-ws-direct-kt/src/main/kotlin/io/github/tassiLuca/dse/blog/PostsService.kt:44-47 | A verifier failure is passed on. A null author is "author not found". Success holds exactly when the verifier returns an author, and gives that author. |
| BlogService.VerifyContent | blog-ws-direct-kt/src/main/kotlin/io/github/tassiLuca/dse/blog/PostsService.kt:50-53 | A verifier failure is passed on. Null content is "content not appropriate". Success holds exactly when the verifier returns content, and gives that content. |
| BlogService.PostsService.Create | blog-ws-direct-kt/src/main/kotlin/io/github/tassiLuca/dse/blog/PostsService.kt:33-41 | A taken title fails. Then an author failure, then a content failure. Success holds exactly when the title is free, both verifiers return a value, and the verified title is free. The saved post is the verified author and content with the given date. A failure saves nothing, and after a success `get` of the post's title returns it. |
| BlogService.PostsService.Get | blog-ws-direct-kt/src/main/kotlin/io/github/tassiLuca/dse/blog/PostsService.kt:55-57 | Fails with "post not found" exactly when no post has the title. Otherwise returns a stored post with that title. |
| BlogService.PostsService.GetAll | blog-ws-direct-kt/src/main/kotlin/io/github/tassiLuca/dse/blog/PostsService.kt:59 | Succeeds with exactly the stored posts, in the order saved (`posts.asSequence()`). |
| BlogService.SameTitleTwice | blog-ws-direct-kt/src/test/kotlin/io/github/tassiLuca/dse/blog/PostsServiceTest.kt:13-33 | With accepting verifiers, the first `create` succeeds with the given content and author id and reads back with `get`. A second `create` with the same title fails with "already exists". |

## Left out

- Coroutines, scopes, dispatchers and cancellation are not modelled. The analyzers are run
  sequentially:
  - Tasks complete in the order `arrival`, which is a parameter.
  - A task that fails cancels everything that completes after it.
  - A receive with no sender left stands for the cancelled receive.
  - When both lookups of one task fail, the contributors error is the one reported; in Kotlin,
    which one wins depends on scheduling.
  - In Kotlin a failed task's exception escapes `coroutineScope` instead of reaching `runCatching`.
    The model returns it as the `Failure` of `analyze`.
- The rendezvous nature of Kotlin's `Channel()` is not modelled: a send completes at once into a
  FIFO queue. Sending on a closed channel is excluded by a precondition, because the analyzers
  never do it.
- ChannelAnalyzer.CollectResults: requires that a receive which would wait forever (fewer
  pending reports than expected and no cancellation) cannot happen. This holds for every call
  from `analyze`.
- `PostsServiceImpl.create` runs the two verifiers concurrently and cancels the content check
  when the author check fails. The model runs them in sequence, author first; with the simulated
  delays in the source, the author check is the one that finishes first.
- Pagination has no guard against a cycle of next links. `WithPagination`, `PaginatedRequest`,
  `FlowWithPagination` and `PaginatedFlowRequest` require `ChainEnds`: the cursor reaches a last
  or failed page within a ghost `fuel` bound. A cyclic chain, for which the source never
  terminates, is not modelled.
- Strings.DigitsValue: does not model the 32-bit range of `toInt()`, which throws on an
  over-long digit run; page numbers are unbounded naturals.
- `Long` and `Int` widths are not modelled: ids, stars, issues and contribution totals are
  unbounded integers, so `aggregatedTo` has no 64-bit wrap-around.
- HTTP, Retrofit, JSON and authentication are not modelled. A response is a record of status
  code, decoded body and `Link` values. A failed HTTP call (an I/O exception) is not modelled.
- `repositoriesOf`, `contributorsOf`, `flowingRepositoriesOf` and `flowingContributorsOf` only
  pass a request to the pagination functions, and they have no members of their own. No member
  composes them. The pagination lemmas hold for every request function, including the ones these
  wrappers pass. The analyzers take the provider's three functions as abstract parameters, and
  those are not tied to `PaginatedRequest` or `LastReleaseOf`.
- The `analyzer-direct` module's own `Models.kt`, `GitHubRepositoryProvider.kt` and
  `GitHubService.kt` are not part of this model. `KtAnalyzer`, `CoroutinesAnalyzer` and
  `AppController` use the `analyzer-direct-kt` records. That those modules' records have the same
  fields (`name`, `issues`, `stars`, `user`, `contributions`) is an assumption of the model, based
  only on how the analyzers and the controller use them.
- CoroutinesAnalyzer.Service: the sibling `analyzer/.../core/GitHubService.kt:18-25` decodes the
  repository list and the contributors as a `Set`. If the coroutines variant's service does the
  same, the repositories have no duplicates, and the tasks are launched and the contributors
  listed in the set's iteration order. The model reads both as sequences, which covers every
  duplicate-free list in any order, but it does not promise that the list is duplicate-free.
- The UI, `view.update`, `view.error`, `stopSession`, the GUI views and the alert message text
  with its timestamp are not modelled. An alert is just the set of silent sensors, and the
  dashboard call is the returned value.
- `Date()` is not modelled: `Create` takes the creation date as a parameter, and `Date` is an
  opaque record.
- `PostsRepositoryImpl`'s `@Synchronized` accessors are not modelled; with no concurrency there
  is nothing for them to guard. Kotlin's `setOf()` keeps insertion order, so the saved posts are a
  sequence.
- The Flow-based analyzer, the thermostat and lighting logic (floating point), the periodic
  scheduling and the launchers are outside the modelled core.
