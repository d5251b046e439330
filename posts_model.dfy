/** The blog's records (`dse/blog/PostsModel.kt`) and the errors its service reports. */
module BlogModel {
  import opened Wrappers

  datatype PostContent = PostContent(title: string, body: string)

  datatype Author = Author(id: string, name: string, surname: string)

  /** `java.util.Date`, kept opaque: the model only carries it along. */
  datatype Date = Date(millis: int)

  datatype Post = Post(author: Author, content: PostContent, lastModification: Date)

  /** The exceptions the service's `Result`s carry: the messages of `require`, `error`, the
      verifiers' own failures and `NoSuchElementException`. */
  datatype BlogError =
    | AlreadyExists(title: string)
    | AuthorNotFound(id: string)
    | ContentNotAppropriate(title: string)
    | VerificationFailed(cause: string)
    | PostNotFound(title: string)

  /** Returns the content if appropriate, `None` (Kotlin `null`) otherwise, or fails. */
  type ContentVerifier = (string, string) -> Result<Option<PostContent>, string>

  /** Returns the author if authorized, `None` (Kotlin `null`) otherwise, or fails. */
  type AuthorsVerifier = string -> Result<Option<Author>, string>
}
