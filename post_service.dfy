/** The post write path over a keyed store, coupled to the broadcaster
    (services/PostService.java). The JPA repository is a map from id to post. */
module Posts {
  import opened Common
  import opened Registry

  type PostId = nat
  type UserId = nat
  /** A `LocalDateTime`; the clock is read by the caller and passed in. */
  type Timestamp = int

  /** A post as the service sees it; `id` is absent until the store assigns one. */
  datatype Post = Post(
    id: Option<PostId>,
    title: string,
    content: string,
    authorId: Option<UserId>,
    createdAt: Option<Timestamp>)

  datatype PostError = PostNotFound | SaveFailed

  /** The notification every successful creation broadcasts, trailing space included. */
  const NewPostNotice: string := "New post was created "

  /** Every stored post carries the key it is stored under as its id. */
  predicate KeysMatchIds(posts: map<PostId, Post>)
  {
    forall k | k in posts :: posts[k].id == Some(k)
  }

  /** `findAllByAuthorId`: the stored posts whose author is `userId`, by id. */
  function PostsByAuthor(posts: map<PostId, Post>, userId: UserId): map<PostId, Post>
  {
    map k | k in posts && posts[k].authorId == Some(userId) :: posts[k]
  }

  /** What `editPost` makes of a stored post: the title and content of
      `updated`, everything else of `existing`. */
  function WithEdits(existing: Post, updated: Post): Post
  {
    existing.(title := updated.title, content := updated.content)
  }

  /** Every id in `keys` is below `b`, so `b` and above are unused. */
  predicate Exceeds(b: PostId, keys: set<PostId>)
  {
    forall k | k in keys :: k < b
  }

  /** A finite store always leaves some id unused, so the store can hand one out. */
  lemma {:induction false} UnusedIdExists(keys: set<PostId>)
    ensures exists b: PostId :: Exceeds(b, keys)
    decreases keys
  {
    if keys == {} {
      assert Exceeds(0, keys);
    } else {
      var x :| x in keys;
      UnusedIdExists(keys - {x});
      var b: PostId :| Exceeds(b, keys - {x});
      var b' := if b > x then b else x + 1;
      forall k | k in keys ensures k < b' {
        if k != x { assert k in keys - {x}; }
      }
      assert Exceeds(b', keys);
    }
  }

  /** Saving a post of `userId` under `k` lists it, under `k`, among that
      user's posts, and leaves the rest of the listing alone. */
  lemma SavedPostIsListed(posts: map<PostId, Post>, k: PostId, p: Post, userId: UserId)
    requires p.authorId == Some(userId)
    ensures PostsByAuthor(posts[k := p], userId) == PostsByAuthor(posts, userId)[k := p]
  {
  }

  /** Deleting `k` drops it from every author's listing and nothing else. */
  lemma DeletedPostIsUnlisted(posts: map<PostId, Post>, k: PostId, userId: UserId)
    ensures PostsByAuthor(posts - {k}, userId) == PostsByAuthor(posts, userId) - {k}
  {
  }

  /** Editing never moves a post to another author's listing. */
  lemma EditKeepsListing(posts: map<PostId, Post>, k: PostId, updated: Post, userId: UserId)
    requires k in posts
    ensures PostsByAuthor(posts[k := WithEdits(posts[k], updated)], userId).Keys
         == PostsByAuthor(posts, userId).Keys
  {
  }

  class PostService {
    /** The post table. */
    var posts: map<PostId, Post>
    const webSocketService: WebSocketService

    ghost predicate Valid()
      reads this
    {
      KeysMatchIds(posts)
    }

    constructor (webSocketService: WebSocketService)
      ensures Valid() && posts == map[] && this.webSocketService == webSocketService
    {
      posts := map[];
      this.webSocketService := webSocketService;
    }

    /** Stamps `post` with `now`, saves it, and only once the save has
        returned broadcasts `NewPostNotice` to every open session. A save
        that throws (`saveFails`) propagates: nothing is stored and nothing
        is broadcast. A post without an id gets one the store does not use;
        a post with an id is written under that id. */
    method CreatePost(post: Post, now: Timestamp, t: Transport, saveFails: bool)
      returns (r: Result<Post, PostError>)
      requires Valid()
      modifies this`posts, webSocketService`outbox
      ensures Valid()
      ensures webSocketService.sessions == old(webSocketService.sessions)
      ensures saveFails ==> r == Failure(SaveFailed) && posts == old(posts)
                            && webSocketService.outbox == old(webSocketService.outbox)
      ensures !saveFails ==> r.Success? && r.value.id.Some?
      ensures !saveFails ==>
        && r.value == post.(id := r.value.id, createdAt := Some(now))
        && (post.id.Some? ==> r.value.id == post.id)
        && (post.id.None? ==> r.value.id.value !in old(posts))
        && posts == old(posts)[r.value.id.value := r.value]
      ensures !saveFails ==>
        && |webSocketService.outbox| >= |old(webSocketService.outbox)|
        && webSocketService.outbox[..|old(webSocketService.outbox)|] == old(webSocketService.outbox)
        && IsBroadcast(webSocketService.outbox[|old(webSocketService.outbox)|..],
                       webSocketService.sessions, t, NewPostNotice)
    {
      var stamped := post.(createdAt := Some(now));
      if saveFails {
        return Failure(SaveFailed);
      }
      var id: PostId;
      if post.id.Some? {
        id := post.id.value;
      } else {
        UnusedIdExists(posts.Keys);
        var b: PostId :| Exceeds(b, posts.Keys);
        id := b;
      }
      var saved := stamped.(id := Some(id));
      posts := posts[id := saved];
      webSocketService.SendMessageToAll(NewPostNotice, t);
      r := Success(saved);
    }

    /** Overwrites the title and content of post `postId` with those of
        `updatedPost`; its id, author and creation time stay. A missing id
        fails with `PostNotFound` and changes nothing. Never broadcasts. */
    method EditPost(postId: PostId, updatedPost: Post) returns (r: Result<Post, PostError>)
      requires Valid()
      modifies this`posts
      ensures Valid()
      ensures postId !in old(posts) ==> r == Failure(PostNotFound) && posts == old(posts)
      ensures postId in old(posts) ==>
        && r == Success(WithEdits(old(posts)[postId], updatedPost))
        && posts == old(posts)[postId := r.value]
      ensures r.Success? ==>
        && r.value.id == Some(postId)
        && r.value.title == updatedPost.title && r.value.content == updatedPost.content
        && r.value.authorId == old(posts)[postId].authorId
        && r.value.createdAt == old(posts)[postId].createdAt
    {
      if postId !in posts {
        return Failure(PostNotFound);
      }
      var existing := posts[postId];
      var saved := WithEdits(existing, updatedPost);
      posts := posts[postId := saved];
      r := Success(saved);
    }

    /** Removes post `postId` and no other. A missing id fails with
        `PostNotFound` and changes nothing. Never broadcasts. */
    method DeletePost(postId: PostId) returns (r: Result<(), PostError>)
      requires Valid()
      modifies this`posts
      ensures Valid()
      ensures r.Success? <==> postId in old(posts)
      ensures r.Failure? ==> r.error == PostNotFound && posts == old(posts)
      ensures r.Success? ==> posts == old(posts) - {postId}
      ensures forall k | k in old(posts) && k != postId :: k in posts && posts[k] == old(posts)[k]
    {
      if postId !in posts {
        return Failure(PostNotFound);
      }
      posts := posts - {postId};
      r := Success(());
    }

    /** The subscription check is a stub that admits everybody. */
    predicate CheckSubscription(userId: UserId)
    {
      true
    }

    /** The posts of `userId`, by id. Since every user passes the
        subscription check, this is exactly that user's posts. */
    function GetUserPostsIfSubscribed(userId: UserId): (r: map<PostId, Post>)
      reads this
      ensures forall k :: k in r <==> k in posts && posts[k].authorId == Some(userId)
      ensures forall k | k in r :: r[k] == posts[k]
    {
      if !CheckSubscription(userId) then map[] else PostsByAuthor(posts, userId)
    }
  }
}
