/** `PostsResponse`: the list view, which copies every field but the password. */
module PostResponse {
  import opened Wrappers
  import opened PostEntity

  datatype PostSummary = PostSummary(id: int, author: string, title: string, content: string)

  /** The fields a response may show agree; the password may differ. */
  predicate SamePublicFields(p: Post, q: Post)
  {
    p.id == q.id && p.author == q.author && p.title == q.title && p.content == q.content
  }

  /** `posts.map(...)`: one entry per post, in the same order. */
  function Contents(posts: seq<Post>): (r: seq<PostSummary>)
    ensures |r| == |posts|
    ensures forall i :: 0 <= i < |posts| ==>
      r[i].id == posts[i].id && r[i].author == posts[i].author
      && r[i].title == posts[i].title && r[i].content == posts[i].content
  {
    if |posts| == 0 then []
    else
      var p := posts[0];
      [PostSummary(p.id, p.author, p.title, p.content)] + Contents(posts[1..])
  }

  /** The constructor: `posts?.map(...)`, so null or undefined stays undefined. */
  function PostsResponse(posts: Option<seq<Post>>): (contents: Option<seq<PostSummary>>)
    ensures contents.None? <==> posts.None?
    ensures contents.Some? ==> |contents.value| == |posts.value|
    ensures contents.Some? ==> forall i :: 0 <= i < |posts.value| ==>
      contents.value[i].id == posts.value[i].id && contents.value[i].author == posts.value[i].author
      && contents.value[i].title == posts.value[i].title && contents.value[i].content == posts.value[i].content
  {
    match posts
    case None => None
    case Some(ps) => Some(Contents(ps))
  }

  /**
   * The password never shows: two lists give the same response exactly when
   * they agree, post by post, on every field but the password.
   */
  lemma PasswordInvisible(a: seq<Post>, b: seq<Post>)
    ensures Contents(a) == Contents(b) <==>
      |a| == |b| && forall i :: 0 <= i < |a| ==> SamePublicFields(a[i], b[i])
  {
    if Contents(a) == Contents(b) {
      forall i | 0 <= i < |a| ensures SamePublicFields(a[i], b[i]) {
        assert Contents(a)[i] == Contents(b)[i];
      }
    }
  }

  /** Order is kept: the response of a concatenation is the concatenation of responses. */
  lemma ContentsAppend(a: seq<Post>, b: seq<Post>)
    ensures Contents(a + b) == Contents(a) + Contents(b)
  {
    var l, r := Contents(a + b), Contents(a) + Contents(b);
    forall i | 0 <= i < |l|
      ensures l[i] == r[i]
    {
      if i < |a| {
        assert (a + b)[i] == a[i] && r[i] == Contents(a)[i];
      } else {
        assert (a + b)[i] == b[i - |a|] && r[i] == Contents(b)[i - |a|];
      }
    }
  }
}
