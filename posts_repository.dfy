/** The in-memory posts repository (`dse/blog/PostsRepository.kt`). Kotlin's `setOf()` keeps
    insertion order, so the posts are a sequence in the order they were saved. */
module BlogRepository {
  import opened Wrappers
  import opened BlogModel

  /** At most one post per title. */
  ghost predicate UniqueTitles(posts: seq<Post>) {
    forall i, j :: 0 <= i < j < |posts| ==> posts[i].content.title != posts[j].content.title
  }

  predicate HasTitle(posts: seq<Post>, title: string) {
    exists i :: 0 <= i < |posts| && posts[i].content.title == title
  }

  /** `posts[i]` is the first post with the title. */
  predicate FirstWithTitle(posts: seq<Post>, title: string, i: int) {
    && 0 <= i < |posts|
    && posts[i].content.title == title
    && forall j :: 0 <= j < i ==> posts[j].content.title != title
  }

  /** `find`: the first post with the title. */
  function FindByTitle(posts: seq<Post>, title: string): (r: Option<Post>)
    ensures r.None? <==> !HasTitle(posts, title)
    ensures r.Some? ==> exists i :: FirstWithTitle(posts, title, i) && posts[i] == r.value
  {
    if |posts| == 0 then None
    else if posts[0].content.title == title then Some(posts[0])
    else
      var r := FindByTitle(posts[1..], title);
      assert forall i :: 0 <= i < |posts| - 1 ==> posts[1..][i] == posts[i + 1];
      assert HasTitle(posts, title) ==> HasTitle(posts[1..], title) by {
        if HasTitle(posts, title) {
          var i :| 0 <= i < |posts| && posts[i].content.title == title;
          assert posts[1..][i - 1].content.title == title;
        }
      }
      if r.Some? then
        var k :| FirstWithTitle(posts[1..], title, k) && posts[1..][k] == r.value;
        assert FirstWithTitle(posts, title, k + 1) && posts[k + 1] == r.value;
        r
      else
        r
  }

  class PostsRepository {
    var posts: seq<Post>

    ghost predicate Valid()
      reads this
    {
      UniqueTitles(posts)
    }

    constructor ()
      ensures Valid() && posts == []
    {
      posts := [];
    }

    /** `exists`: some stored post has the title. */
    predicate Exists(postTitle: string)
      reads this
    {
      HasTitle(posts, postTitle)
    }

    /** `load`: the post with the title, `None` exactly when there is none. */
    function Load(postTitle: string): (r: Option<Post>)
      reads this
      ensures r.None? <==> !Exists(postTitle)
      ensures r.Some? ==> r.value in posts && r.value.content.title == postTitle
    {
      FindByTitle(posts, postTitle)
    }

    /** `loadAll`: every stored post, in the order saved. */
    function LoadAll(): seq<Post>
      reads this
    {
      posts
    }

    /** `save`: refuses (`require`) a post whose title is taken and then changes nothing; otherwise
        stores the post and returns it. */
    method Save(post: Post) returns (r: Result<Post, BlogError>)
      requires Valid()
      modifies this
      ensures Valid()
      ensures old(Exists(post.content.title)) ==>
        r == Failure(AlreadyExists(post.content.title)) && posts == old(posts)
      ensures !old(Exists(post.content.title)) ==>
        && r == Success(post)
        && posts == old(posts) + [post]
        && Load(post.content.title) == Some(post)
      ensures forall t :: t != post.content.title ==> Load(t) == old(Load(t))
    {
      if Exists(post.content.title) {
        return Failure(AlreadyExists(post.content.title));
      }
      ghost var before := posts;
      posts := posts + [post];
      assert forall i :: 0 <= i < |before| ==> posts[i] == before[i];
      SaveKeepsOthers(before, post, post.content.title);
      forall t | t != post.content.title ensures Load(t) == old(Load(t)) {
        SaveKeepsOthers(before, post, t);
      }
      r := Success(post);
    }
  }

  /** Appending a post leaves the lookup of every other title as it was, and makes the new post
      the one found under its own title when that title was free. */
  lemma {:induction false} SaveKeepsOthers(posts: seq<Post>, post: Post, title: string)
    requires title != post.content.title || !HasTitle(posts, title)
    ensures FindByTitle(posts + [post], title) == if HasTitle(posts, title) then FindByTitle(posts, title)
      else if title == post.content.title then Some(post) else None
  {
    if |posts| > 0 {
      assert (posts + [post])[1..] == posts[1..] + [post];
      assert forall i :: 0 <= i < |posts| - 1 ==> posts[1..][i] == posts[i + 1];
      if posts[0].content.title != title {
        assert HasTitle(posts, title) <==> HasTitle(posts[1..], title) by {
          if HasTitle(posts, title) {
            var i :| 0 <= i < |posts| && posts[i].content.title == title;
            assert posts[1..][i - 1].content.title == title;
          }
        }
        SaveKeepsOthers(posts[1..], post, title);
      }
    }
  }
}
