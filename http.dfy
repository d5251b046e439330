/** An HTTP response as the repository's adapters see it through Retrofit: a status code, the
    decoded body, and the values of its `Link` headers. */
module Http {
  import opened Wrappers

  /** Status code the release adapter treats as "resource absent". */
  const NotFound: int := 404

  datatype Response<B> = Response(code: int, body: Option<B>, links: seq<string>) {
    /** Retrofit's `isSuccessful`: a 2xx status code. */
    predicate IsSuccessful() {
      200 <= code < 300
    }

    /** Retrofit's `body()`: the decoded body of a successful response, `null` for an error response. */
    function Body(): (b: Option<B>)
      ensures !IsSuccessful() ==> b.None?
    {
      if IsSuccessful() then body else None
    }
  }

  /** Retrofit's `HttpException`, which keeps the status code of the response that failed. */
  datatype HttpError = HttpError(code: int)
}
