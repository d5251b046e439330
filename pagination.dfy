/** The pagination logic of analyzer-direct-kt `lib/GitHubRepositoryProvider.kt`: following the
    "next" cursor of GitHub's `Link` headers (a simplified reading of the link-value syntax of
    section 3 of RFC 8288, Web Linking), eagerly (`paginatedRequest`) and as a flow of pages
    (`paginatedFlowRequest`), and the 404 policy of `lastReleaseOf`. A request for page `k` is a
    function from page numbers to responses. */
module RepositoryProvider {
  import opened Wrappers
  import opened Strings
  import opened Http
  import Models

  /** The marker of the link value whose relation type is "next". */
  const RelNext: string := "rel=\"next\""

  // ---------------------------------------------------------------------------------------------
  // `nextPage`

  /** The `Link` header values split at every comma, in order (`flatMap { it.split(",") }`). */
  function Segments(links: seq<string>): seq<string> {
    if |links| == 0 then [] else Split(links[0], ',') + Segments(links[1..])
  }

  /** The index of the first segment containing `marker` (`find { it.contains(marker) }`). */
  function FirstContaining(segments: seq<string>, marker: string): (r: Option<nat>)
    ensures r.None? <==> forall k :: 0 <= k < |segments| ==> !Contains(segments[k], marker)
    ensures r.Some? ==> r.value < |segments| && Contains(segments[r.value], marker)
    ensures r.Some? ==> forall k :: 0 <= k < r.value ==> !Contains(segments[k], marker)
  {
    if |segments| == 0 then None
    else if Contains(segments[0], marker) then Some(0)
    else match FirstContaining(segments[1..], marker)
      case None => None
      case Some(k) => Some(k + 1)
  }

  /** The regular expression `[?&]page=(\d+)` matches `s` at position `i`. */
  predicate PageParamAt(s: string, i: nat) {
    i + 6 < |s| && (s[i] == '?' || s[i] == '&') && s[i + 1..i + 6] == "page=" && IsDigit(s[i + 6])
  }

  /** The leftmost position at or after `from` where the page-parameter expression matches. */
  function FirstPageParam(s: string, from: nat): (r: Option<nat>)
    ensures r.Some? ==> from <= r.value && PageParamAt(s, r.value)
    ensures r.Some? ==> forall j: nat :: from <= j < r.value ==> !PageParamAt(s, j)
    ensures r.None? ==> forall j: nat :: from <= j ==> !PageParamAt(s, j)
    decreases |s| - from
  {
    if from >= |s| then None
    else if PageParamAt(s, from) then Some(from)
    else FirstPageParam(s, from + 1)
  }

  /** `Regex("""[?&]page=(\d+)""").find(s)?.groupValues?.get(1)`: the greedy digit run of the leftmost match. */
  function PageParameter(s: string): (d: Option<string>)
    ensures d.Some? ==> |d.value| > 0 && AllDigits(d.value)
    ensures d.None? <==> forall j: nat :: !PageParamAt(s, j)
    ensures d.Some? ==> exists i: nat ::
      && PageParamAt(s, i)
      && (forall j: nat :: j < i ==> !PageParamAt(s, j))
      && d.value == DigitRun(s[i + 6..])
  {
    match FirstPageParam(s, 0)
    case None => None
    case Some(i) => Some(DigitRun(s[i + 6..]))
  }

  /** The page number a single link value points to, if any. */
  function PageOf(segment: string): Option<nat> {
    match PageParameter(segment)
    case None => None
    case Some(d) => Some(DigitsValue(d))
  }

  /** `nextPage()?.toInt()`: the page number of the first link value marked `rel="next"`. */
  function NextPage(links: seq<string>): Option<nat> {
    match FirstContaining(Segments(links), RelNext)
    case None => None
    case Some(k) => PageOf(Segments(links)[k])
  }

  /** There is no next page unless some link value is marked `rel="next"`, and only the first such value
      is looked at: when it has no page parameter, pagination ends even if a later one has. */
  lemma NextPageFromFirstMarkedSegment(links: seq<string>)
    ensures (forall k :: 0 <= k < |Segments(links)| ==> !Contains(Segments(links)[k], RelNext)) ==>
      NextPage(links).None?
    ensures forall k ::
      (0 <= k < |Segments(links)| && Contains(Segments(links)[k], RelNext) &&
       forall j :: 0 <= j < k ==> !Contains(Segments(links)[j], RelNext))
      ==> NextPage(links) == PageOf(Segments(links)[k])
  {
  }

  /** The `per_page=` parameter GitHub puts in its links is not mistaken for `page=`: no match of the
      page-parameter expression starts inside it or just before it. */
  lemma PerPageIsNotPage(s: string, i: nat)
    requires OccursAt(s, "per_page=", i)
    ensures forall j: nat :: i <= j + 1 < i + 10 ==> !PageParamAt(s, j)
  {
  }

  // ---------------------------------------------------------------------------------------------
  // `paginatedRequest` / `withPagination`

  /** Following the cursor from `next` reaches a page without a next link, or a failed page, within
      `fuel` requests. The source has no guard against a cycle of next links; the model asks this of
      its callers. */
  predicate ChainEnds<T>(request: nat -> Response<seq<T>>, next: Option<nat>, fuel: nat)
    decreases fuel
  {
    next.None? ||
    (fuel > 0 &&
      var response := request(next.value);
      !response.IsSuccessful() || ChainEnds(request, NextPage(response.links), fuel - 1))
  }

  /** The items of one successful page: `body().orEmpty()`. */
  function Items<T>(response: Response<seq<T>>): seq<T> {
    response.Body().GetOr([])
  }

  /** A successful page contributes its body, and a page without a body contributes nothing. */
  lemma ItemsOfPage<T>(response: Response<seq<T>>)
    ensures response.IsSuccessful() && response.body.Some? ==> Items(response) == response.body.value
    ensures response.body.None? ==> Items(response) == []
  {
  }

  function WithPagination<T>(request: nat -> Response<seq<T>>, partialResult: seq<T>, next: Option<nat>,
                             ghost fuel: nat): Result<seq<T>, HttpError>
    requires ChainEnds(request, next, fuel)
    decreases fuel
  {
    match next
    case None => Success(partialResult)
    case Some(page) =>
      var response := request(page);
      if !response.IsSuccessful() then Failure(HttpError(response.code))
      else WithPagination(request, partialResult + Items(response), NextPage(response.links), fuel - 1)
  }

  function PaginatedRequest<T>(request: nat -> Response<seq<T>>, ghost fuel: nat): Result<seq<T>, HttpError>
    requires ChainEnds(request, Some(1), fuel)
  {
    WithPagination(request, [], Some(1), fuel)
  }

  // ---------------------------------------------------------------------------------------------
  // Runs of requests that follow the cursor: the reference description of pagination.

  /** Every page of `pages` but the last was successful and its `Link` header names the next one. */
  ghost predicate FollowsCursor<T>(request: nat -> Response<seq<T>>, pages: seq<nat>) {
    |pages| > 0 &&
    forall k :: 0 <= k < |pages| - 1 ==>
      request(pages[k]).IsSuccessful() && NextPage(request(pages[k]).links) == Some(pages[k + 1])
  }

  /** A run that ends because its last page succeeded and has no next link. */
  ghost predicate CompleteRun<T>(request: nat -> Response<seq<T>>, pages: seq<nat>) {
    FollowsCursor(request, pages) &&
    request(pages[|pages| - 1]).IsSuccessful() && NextPage(request(pages[|pages| - 1]).links).None?
  }

  /** A run that ends because its last page failed. */
  ghost predicate FailedRun<T>(request: nat -> Response<seq<T>>, pages: seq<nat>) {
    FollowsCursor(request, pages) && !request(pages[|pages| - 1]).IsSuccessful()
  }

  /** The item lists of the given pages, in order. */
  function PageItems<T>(request: nat -> Response<seq<T>>, pages: seq<nat>): (r: seq<seq<T>>)
    ensures |r| == |pages| && forall k :: 0 <= k < |pages| ==> r[k] == Items(request(pages[k]))
  {
    if |pages| == 0 then [] else [Items(request(pages[0]))] + PageItems(request, pages[1..])
  }

  function Flatten<T>(lists: seq<seq<T>>): seq<T> {
    if |lists| == 0 then [] else lists[0] + Flatten(lists[1..])
  }

  /** A run minus its first page is a run of the same kind, from the page the first one links to. */
  lemma RestOfRun<T>(request: nat -> Response<seq<T>>, pages: seq<nat>)
    requires CompleteRun(request, pages) || FailedRun(request, pages)
    requires |pages| > 1
    ensures request(pages[0]).IsSuccessful() && NextPage(request(pages[0]).links) == Some(pages[1])
    ensures CompleteRun(request, pages) ==> CompleteRun(request, pages[1..])
    ensures FailedRun(request, pages) ==> FailedRun(request, pages[1..])
  {
    var rest := pages[1..];
    assert FollowsCursor(request, rest) by {
      forall k | 0 <= k < |rest| - 1
        ensures request(rest[k]).IsSuccessful() && NextPage(request(rest[k]).links) == Some(rest[k + 1])
      {
        assert rest[k] == pages[k + 1] && rest[k + 1] == pages[k + 2];
      }
    }
    assert rest[|rest| - 1] == pages[|pages| - 1];
  }

  /** Any run that ends takes at most as many requests as it has pages. */
  lemma {:induction false} RunEnds<T>(request: nat -> Response<seq<T>>, pages: seq<nat>)
    requires CompleteRun(request, pages) || FailedRun(request, pages)
    ensures ChainEnds(request, Some(pages[0]), |pages|)
  {
    var response := request(pages[0]);
    if |pages| > 1 {
      var rest := pages[1..];
      RestOfRun(request, pages);
      RunEnds(request, rest);
      assert NextPage(response.links) == Some(rest[0]);
    }
  }

  /** A successful page without a next link ends pagination with its items added. */
  lemma LastPageResult<T>(request: nat -> Response<seq<T>>, page: nat, partialResult: seq<T>, fuel: nat)
    requires request(page).IsSuccessful() && NextPage(request(page).links).None?
    requires ChainEnds(request, Some(page), fuel)
    ensures WithPagination(request, partialResult, Some(page), fuel) == Success(partialResult + Items(request(page)))
  {
  }

  /** A successful page with a next link adds its items and continues at the linked page. */
  lemma NextPageStep<T>(request: nat -> Response<seq<T>>, page: nat, next: nat, partialResult: seq<T>, fuel: nat)
    requires request(page).IsSuccessful() && NextPage(request(page).links) == Some(next)
    requires ChainEnds(request, Some(page), fuel)
    ensures fuel > 0 && ChainEnds(request, Some(next), fuel - 1)
    ensures WithPagination(request, partialResult, Some(page), fuel) ==
            WithPagination(request, partialResult + Items(request(page)), Some(next), fuel - 1)
  {
  }

  lemma {:induction false} CompleteRunResult<T>(request: nat -> Response<seq<T>>, pages: seq<nat>, partialResult: seq<T>, fuel: nat)
    requires CompleteRun(request, pages) && ChainEnds(request, Some(pages[0]), fuel)
    ensures WithPagination(request, partialResult, Some(pages[0]), fuel) ==
            Success(partialResult + Flatten(PageItems(request, pages)))
  {
    var items := Items(request(pages[0]));
    assert PageItems(request, pages) == [items] + PageItems(request, pages[1..]);
    assert Flatten(PageItems(request, pages)) == items + Flatten(PageItems(request, pages[1..]));
    if |pages| == 1 {
      assert pages[|pages| - 1] == pages[0];
      LastPageResult(request, pages[0], partialResult, fuel);
      assert PageItems(request, pages[1..]) == [];
      assert Flatten<T>([]) == [];
      assert items + Flatten(PageItems(request, pages[1..])) == items;
    } else {
      RestOfRun(request, pages);
      NextPageStep(request, pages[0], pages[1], partialResult, fuel);
      CompleteRunResult(request, pages[1..], partialResult + items, fuel - 1);
      assert partialResult + items + Flatten(PageItems(request, pages[1..]))
          == partialResult + (items + Flatten(PageItems(request, pages[1..])));
    }
  }

  lemma {:induction false} FailedRunResult<T>(request: nat -> Response<seq<T>>, pages: seq<nat>, partialResult: seq<T>, fuel: nat)
    requires FailedRun(request, pages) && ChainEnds(request, Some(pages[0]), fuel)
    ensures WithPagination(request, partialResult, Some(pages[0]), fuel) ==
            Failure(HttpError(request(pages[|pages| - 1]).code))
  {
    var response := request(pages[0]);
    if |pages| > 1 {
      var rest := pages[1..];
      RestOfRun(request, pages);
      NextPageStep(request, pages[0], rest[0], partialResult, fuel);
      FailedRunResult(request, rest, partialResult + Items(response), fuel - 1);
    }
  }

  /** When the pages requested from page 1 on all succeed, the result is the concatenation of their
      items (a null body counting as no items), in request order. */
  lemma PaginatedRequestSucceeds<T>(request: nat -> Response<seq<T>>, pages: seq<nat>, fuel: nat)
    requires CompleteRun(request, pages) && pages[0] == 1
    requires ChainEnds(request, Some(1), fuel)
    ensures PaginatedRequest(request, fuel) == Success(Flatten(PageItems(request, pages)))
  {
    CompleteRunResult(request, pages, [], fuel);
    assert [] + Flatten(PageItems(request, pages)) == Flatten(PageItems(request, pages));
  }

  /** When a page fails, the whole request fails with that page's status, whatever earlier pages held. */
  lemma PaginatedRequestFails<T>(request: nat -> Response<seq<T>>, pages: seq<nat>, fuel: nat)
    requires FailedRun(request, pages) && pages[0] == 1
    requires ChainEnds(request, Some(1), fuel)
    ensures PaginatedRequest(request, fuel) == Failure(HttpError(request(pages[|pages| - 1]).code))
  {
    FailedRunResult(request, pages, [], fuel);
  }

  /** The pages requested, starting at `next`: the run is exactly the one the cursor dictates. */
  ghost function RequestedPages<T>(request: nat -> Response<seq<T>>, next: nat, fuel: nat): (pages: seq<nat>)
    requires ChainEnds(request, Some(next), fuel)
    ensures |pages| > 0 && pages[0] == next
    ensures CompleteRun(request, pages) || FailedRun(request, pages)
    decreases fuel
  {
    var response := request(next);
    if !response.IsSuccessful() || NextPage(response.links).None? then [next]
    else
      var rest := RequestedPages(request, NextPage(response.links).value, fuel - 1);
      PrependPage(request, next, rest);
      [next] + rest
  }

  /** A successful page linking to the start of a run extends that run by one page. */
  lemma PrependPage<T>(request: nat -> Response<seq<T>>, page: nat, rest: seq<nat>)
    requires request(page).IsSuccessful() && |rest| > 0 && NextPage(request(page).links) == Some(rest[0])
    requires CompleteRun(request, rest) || FailedRun(request, rest)
    ensures CompleteRun(request, rest) ==> CompleteRun(request, [page] + rest)
    ensures FailedRun(request, rest) ==> FailedRun(request, [page] + rest)
  {
    var pages := [page] + rest;
    assert FollowsCursor(request, pages) by {
      forall k | 0 <= k < |pages| - 1
        ensures request(pages[k]).IsSuccessful() && NextPage(request(pages[k]).links) == Some(pages[k + 1])
      {
        if k > 0 {
          assert pages[k] == rest[k - 1] && pages[k + 1] == rest[k];
        }
      }
    }
    assert pages[|pages| - 1] == rest[|rest| - 1];
  }

  /** Whenever pagination terminates, its outcome is the outcome of the run from page 1. */
  lemma PaginatedRequestCharacterized<T>(request: nat -> Response<seq<T>>, fuel: nat)
    requires ChainEnds(request, Some(1), fuel)
    ensures var pages := RequestedPages(request, 1, fuel);
      var last := request(pages[|pages| - 1]);
      && (last.IsSuccessful() ==> PaginatedRequest(request, fuel) == Success(Flatten(PageItems(request, pages))))
      && (!last.IsSuccessful() ==> PaginatedRequest(request, fuel) == Failure(HttpError(last.code)))
  {
    var pages := RequestedPages(request, 1, fuel);
    if CompleteRun(request, pages) {
      PaginatedRequestSucceeds(request, pages, fuel);
    } else {
      PaginatedRequestFails(request, pages, fuel);
    }
  }

  // ---------------------------------------------------------------------------------------------
  // `paginatedFlowRequest`: a cold flow that emits each page's items and throws on a failed page.

  /** What one collection of the flow observes: the emitted item lists, then the exception, if any. */
  datatype FlowRun<T> = FlowRun(emitted: seq<seq<T>>, error: Option<HttpError>)

  function FlowWithPagination<T>(request: nat -> Response<seq<T>>, next: Option<nat>, ghost fuel: nat): FlowRun<T>
    requires ChainEnds(request, next, fuel)
    decreases fuel
  {
    match next
    case None => FlowRun([], None)
    case Some(page) =>
      var response := request(page);
      if !response.IsSuccessful() then FlowRun([], Some(HttpError(response.code)))
      else
        var rest := FlowWithPagination(request, NextPage(response.links), fuel - 1);
        FlowRun([Items(response)] + rest.emitted, rest.error)
  }

  /** Every collection starts again from page 1. */
  function PaginatedFlowRequest<T>(request: nat -> Response<seq<T>>, ghost fuel: nat): FlowRun<T>
    requires ChainEnds(request, Some(1), fuel)
  {
    FlowWithPagination(request, Some(1), fuel)
  }

  lemma {:induction false} FlowAgreesFrom<T>(request: nat -> Response<seq<T>>, partialResult: seq<T>, next: Option<nat>, fuel: nat)
    requires ChainEnds(request, next, fuel)
    ensures var run := FlowWithPagination(request, next, fuel);
      WithPagination(request, partialResult, next, fuel) ==
        if run.error.None? then Success(partialResult + Flatten(run.emitted)) else Failure(run.error.value)
    decreases fuel
  {
    if next.None? {
      assert partialResult + Flatten([]) == partialResult;
    } else {
      var response := request(next.value);
      if response.IsSuccessful() {
        var rest := FlowWithPagination(request, NextPage(response.links), fuel - 1);
        FlowAgreesFrom(request, partialResult + Items(response), NextPage(response.links), fuel - 1);
        assert ([Items(response)] + rest.emitted)[1..] == rest.emitted;
        assert Flatten([Items(response)] + rest.emitted) == Items(response) + Flatten(rest.emitted);
        assert partialResult + Items(response) + Flatten(rest.emitted)
            == partialResult + (Items(response) + Flatten(rest.emitted));
      }
    }
  }

  /** The flow emits exactly what the eager request returns, and fails exactly when it fails. */
  lemma FlowAgreesWithPaginatedRequest<T>(request: nat -> Response<seq<T>>, fuel: nat)
    requires ChainEnds(request, Some(1), fuel)
    ensures var run := PaginatedFlowRequest(request, fuel);
      var result := PaginatedRequest(request, fuel);
      && (run.error.None? <==> result.Success?)
      && (result.Success? ==> Flatten(run.emitted) == result.value)
      && (result.Failure? ==> run.error == Some(result.error))
  {
    FlowAgreesFrom(request, [], Some(1), fuel);
  }

  lemma {:induction false} FlowRunFrom<T>(request: nat -> Response<seq<T>>, pages: seq<nat>, fuel: nat)
    requires CompleteRun(request, pages) || FailedRun(request, pages)
    requires ChainEnds(request, Some(pages[0]), fuel)
    ensures var run := FlowWithPagination(request, Some(pages[0]), fuel);
      if CompleteRun(request, pages) then run == FlowRun(PageItems(request, pages), None)
      else run == FlowRun(PageItems(request, pages[..|pages| - 1]), Some(HttpError(request(pages[|pages| - 1]).code)))
  {
    var response := request(pages[0]);
    if |pages| > 1 {
      var rest := pages[1..];
      RestOfRun(request, pages);
      assert NextPage(response.links) == Some(rest[0]);
      FlowRunFrom(request, rest, fuel - 1);
      assert PageItems(request, pages) == [Items(response)] + PageItems(request, rest);
      assert pages[..|pages| - 1][1..] == rest[..|rest| - 1];
      assert PageItems(request, pages[..|pages| - 1]) == [Items(response)] + PageItems(request, rest[..|rest| - 1]);
    } else {
      assert pages[..0] == [];
    }
  }

  /** The flow emits the items of every successful page of the run in order; a failed page raises
      after the earlier pages have been emitted. */
  lemma PaginatedFlowEmitsPages<T>(request: nat -> Response<seq<T>>, pages: seq<nat>, fuel: nat)
    requires (CompleteRun(request, pages) || FailedRun(request, pages)) && pages[0] == 1
    requires ChainEnds(request, Some(1), fuel)
    ensures CompleteRun(request, pages) ==>
      PaginatedFlowRequest(request, fuel) == FlowRun(PageItems(request, pages), None)
    ensures FailedRun(request, pages) ==>
      PaginatedFlowRequest(request, fuel) ==
        FlowRun(PageItems(request, pages[..|pages| - 1]), Some(HttpError(request(pages[|pages| - 1]).code)))
  {
    FlowRunFrom(request, pages, fuel);
  }

  // ---------------------------------------------------------------------------------------------
  // `lastReleaseOf`

  /** A 404 means "no release" rather than a failure. */
  function LastReleaseOf(response: Response<Models.Release>): (r: Result<Option<Models.Release>, HttpError>)
    ensures r.Failure? <==> !response.IsSuccessful() && response.code != NotFound
    ensures r.Failure? ==> r.error == HttpError(response.code)
    ensures response.code == NotFound ==> r == Success(None)
    ensures response.IsSuccessful() ==> r == Success(response.body)
  {
    if !response.IsSuccessful() && response.code != NotFound then Failure(HttpError(response.code))
    else Success(response.Body())
  }
}
