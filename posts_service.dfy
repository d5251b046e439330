/** The blog posts service (`dse/blog/PostsService.kt`): creating a post checks that its title is
    free, has the author and the content verified, and saves the post; posts are retrieved by
    title. */
module BlogService {
  import opened Wrappers
  import opened BlogModel
  import opened BlogRepository

  /** `authorBy`: the verifier's failure is passed on, `null` means the author is unknown. */
  function AuthorBy(authorsVerifier: AuthorsVerifier, id: string): (r: Result<Author, BlogError>)
    ensures authorsVerifier(id).Failure? ==> r == Failure(VerificationFailed(authorsVerifier(id).error))
    ensures authorsVerifier(id) == Success(None) ==> r == Failure(AuthorNotFound(id))
    ensures r.Success? <==> authorsVerifier(id).Success? && authorsVerifier(id).value.Some?
    ensures r.Success? ==> r.value == authorsVerifier(id).value.value
  {
    match authorsVerifier(id)
    case Failure(cause) => Failure(VerificationFailed(cause))
    case Success(None) => Failure(AuthorNotFound(id))
    case Success(Some(author)) => Success(author)
  }

  /** `verifyContent`: the verifier's failure is passed on, `null` means the content is not appropriate. */
  function VerifyContent(contentVerifier: ContentVerifier, title: string, body: string): (r: Result<PostContent, BlogError>)
    ensures contentVerifier(title, body).Failure? ==> r == Failure(VerificationFailed(contentVerifier(title, body).error))
    ensures contentVerifier(title, body) == Success(None) ==> r == Failure(ContentNotAppropriate(title))
    ensures r.Success? <==> contentVerifier(title, body).Success? && contentVerifier(title, body).value.Some?
    ensures r.Success? ==> r.value == contentVerifier(title, body).value.value
  {
    match contentVerifier(title, body)
    case Failure(cause) => Failure(VerificationFailed(cause))
    case Success(None) => Failure(ContentNotAppropriate(title))
    case Success(Some(content)) => Success(content)
  }

  class PostsService {
    const contentVerifier: ContentVerifier
    const authorsVerifier: AuthorsVerifier
    const repository: PostsRepository

    ghost predicate Valid()
      reads this, repository
    {
      repository.Valid()
    }

    constructor (contentVerifier: ContentVerifier, authorsVerifier: AuthorsVerifier)
      ensures Valid() && fresh(repository) && repository.posts == []
      ensures this.contentVerifier == contentVerifier && this.authorsVerifier == authorsVerifier
    {
      this.contentVerifier := contentVerifier;
      this.authorsVerifier := authorsVerifier;
      repository := new PostsRepository();
    }

    /** `create`: a taken title fails at once; then a failed author check is reported before a
        failed content check; a post passing both is saved with the verified author and content
        and the date `now`, `Date()` in Kotlin. Nothing is saved unless the result is a success. */
    method Create(authorId: string, title: string, body: string, now: Date) returns (r: Result<Post, BlogError>)
      requires Valid()
      modifies repository
      ensures Valid()
      ensures r.Failure? ==> repository.posts == old(repository.posts)
      ensures old(repository.Exists(title)) ==> r == Failure(AlreadyExists(title))
      ensures !old(repository.Exists(title)) && AuthorBy(authorsVerifier, authorId).Failure? ==>
        r == Failure(AuthorBy(authorsVerifier, authorId).error)
      ensures !old(repository.Exists(title)) && AuthorBy(authorsVerifier, authorId).Success? &&
              VerifyContent(contentVerifier, title, body).Failure? ==>
        r == Failure(VerifyContent(contentVerifier, title, body).error)
      ensures r.Success? <==>
        && !old(repository.Exists(title))
        && AuthorBy(authorsVerifier, authorId).Success?
        && VerifyContent(contentVerifier, title, body).Success?
        && !old(repository.Exists(VerifyContent(contentVerifier, title, body).value.title))
      ensures r.Success? ==>
        && r.value == Post(AuthorBy(authorsVerifier, authorId).value, VerifyContent(contentVerifier, title, body).value, now)
        && repository.posts == old(repository.posts) + [r.value]
        && Get(r.value.content.title) == Success(r.value)
    {
      if repository.Exists(title) {
        return Failure(AlreadyExists(title));
      }
      var author := AuthorBy(authorsVerifier, authorId);
      if author.Failure? {
        return Failure(author.error);
      }
      var content := VerifyContent(contentVerifier, title, body);
      if content.Failure? {
        return Failure(content.error);
      }
      r := repository.Save(Post(author.value, content.value, now));
    }

    /** `get`: the post with the title, or a not-found failure. */
    function Get(title: string): (r: Result<Post, BlogError>)
      reads this, repository
      ensures r.Failure? <==> !repository.Exists(title)
      ensures r.Failure? ==> r.error == PostNotFound(title)
      ensures r.Success? ==> r.value in repository.posts && r.value.content.title == title
    {
      match repository.Load(title)
      case None => Failure(PostNotFound(title))
      case Some(post) => Success(post)
    }

    /** `getAll`: every stored post, in the order saved. */
    function GetAll(): (r: Result<seq<Post>, BlogError>)
      reads this, repository
      ensures r.Success? && forall p :: p in r.value <==> p in repository.posts
      ensures r == Success(repository.posts)
    {
      Success(repository.LoadAll())
    }
  }

  /** Two posts with the same title: the first is created and can be read back, the second fails. */
  method SameTitleTwice() returns (first: Result<Post, BlogError>, second: Result<Post, BlogError>,
                                   readBack: Result<Post, BlogError>)
    ensures first.Success? && first.value.content == PostContent("A hello world post", "Hello World!")
    ensures first.value.author.id == "mrossi"
    ensures readBack == first
    ensures second == Failure(AlreadyExists("A hello world post"))
  {
    var service := new PostsService(
      (title, body) => Success(Some(PostContent(title, body))),
      id => Success(Some(Author(id, "Mario", "Rossi"))));
    first := service.Create("mrossi", "A hello world post", "Hello World!", Date(0));
    readBack := service.Get("A hello world post");
    second := service.Create("mrossi", "A hello world post", "Hello World!", Date(1));
  }
}
