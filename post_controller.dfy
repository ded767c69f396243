/**
 * PostController: each handler resolves its form request (a 422 reply ends the
 * request before the handler runs), checks ownership where it must, calls the
 * service, and turns any exception inside its try block into a generic 500.
 * The authenticated user's id is a parameter; where an exception strikes is the
 * `fault` parameter.
 */
module PostControllers {
  import opened Php
  import opened Validation
  import opened Http
  import opened FormRequests
  import opened PostModel
  import opened Posts

  /** An image value that create() would try to read as a file although it is a string. */
  predicate ImageIsTruthyText(validated: Input) {
    "image" in validated && validated["image"].Text? && !FalsyString(validated["image"].s)
  }

  class PostController {
    const service: PostService

    constructor(s: PostService)
      ensures service == s
    {
      service := s;
    }

    /** index(): every post, newest first. */
    method Index(fault: Fault) returns (r: Response<seq<Post>>)
      requires service.Valid()
      ensures fault.NoFault? ==> r == Response(OK, PostsFetched, Some(service.GetAll()))
      ensures fault.Raises? ==> r == ServerFailure()
    {
      if fault.Raises? {
        return ServerFailure();
      }
      var posts := service.GetAll();
      r := Response(OK, PostsFetched, Some(posts));
    }

    /**
     * store(PostStoreRequest): 422 when validation fails, with nothing stored;
     * otherwise 201 with a new post owned by the requester.
     */
    method Store(user: nat, input: Input, checks: Checks, now: int, fault: Fault) returns (r: Response<Post>)
      requires service.Valid()
      modifies service
      ensures service.Valid()
      ensures Resolve(PostStoreRules(), input, checks).Halt? ==>
                r.status == UNPROCESSABLE && r.data == None && unchanged(service)
      ensures r.status == CREATED ==>
                && r.message == PostCreated && r.data.Some?
                && Resolve(PostStoreRules(), input, checks).Proceed?
                && var v := Resolve(PostStoreRules(), input, checks).validated;
                   var post := r.data.value;
                   && post.userId == user && post.id !in old(service.posts)
                   && post.content == ContentOf(v) && post.createdAt == now
                   && (ImageOf(v).Some? ==> post.imageData == Some(ImageOf(v).value.bytes)
                                            && post.imageMime == Some(ImageOf(v).value.mime))
                   && (ImageOf(v).None? ==> post.imageData == None && post.imageMime == None)
                   && service.posts == old(service.posts)[post.id := post]
                   && service.postTags == old(service.postTags)[post.id := {}]
                   && service.tags == old(service.tags) && service.comments == old(service.comments)
      ensures (&& Resolve(PostStoreRules(), input, checks).Proceed? && fault.NoFault?
               && !ImageIsTruthyText(Resolve(PostStoreRules(), input, checks).validated)) ==> r.status == CREATED
      ensures Resolve(PostStoreRules(), input, checks).Proceed? && fault.Raises? ==> r == ServerFailure()
      ensures fault == Raises(false) ==> unchanged(service)
      ensures var res := Resolve(PostStoreRules(), input, checks);
              res.Proceed? && ImageIsTruthyText(res.validated) ==> r == ServerFailure() && unchanged(service)
      ensures var res := Resolve(PostStoreRules(), input, checks);
              (&& res.Proceed? && fault == Raises(true) && !ImageIsTruthyText(res.validated)) ==>
                var id := old(service.nextPostId);
                && id !in old(service.posts) && id in service.posts
                && service.posts == old(service.posts)[id := service.posts[id]]
                && service.posts[id].userId == user && service.posts[id].content == ContentOf(res.validated)
                && service.posts[id].createdAt == now
                && (ImageOf(res.validated).Some? ==>
                      && service.posts[id].imageData == Some(ImageOf(res.validated).value.bytes)
                      && service.posts[id].imageMime == Some(ImageOf(res.validated).value.mime))
                && (ImageOf(res.validated).None? ==> service.posts[id].imageData == None && service.posts[id].imageMime == None)
                && service.postTags == old(service.postTags)[id := {}]
                && service.tags == old(service.tags) && service.comments == old(service.comments)
      ensures r.status == SERVER_ERROR ==> r == ServerFailure()
      ensures r.status in {UNPROCESSABLE, CREATED, SERVER_ERROR}
    {
      var resolution := Resolve(PostStoreRules(), input, checks);
      if resolution.Halt? {
        return Response(resolution.status, resolution.message, None);
      }
      var validated := resolution.validated;
      PostStoreValidatedShape(input, checks);
      if fault == Raises(false) || ImageIsTruthyText(validated) {
        // the exception strikes before the insert
        return ServerFailure();
      }
      var post := service.Create(user, validated, now);
      assert TagsOf(validated) == None && RawTagNames(None) == [];
      assert IdSet([]) == {};
      if fault.Raises? {
        return ServerFailure();
      }
      r := Response(CREATED, PostCreated, Some(post));
    }

    /**
     * destroy($post): 403 and no change unless the caller owns the post;
     * for the owner, 200 with the post as it was before deletion.
     */
    method Destroy(user: nat, postId: nat, fault: Fault) returns (r: Response<Post>)
      requires service.Valid() && postId in service.posts
      modifies service
      ensures service.Valid()
      ensures old(service.posts[postId].userId) != user ==> unchanged(service)
      ensures old(service.posts[postId].userId) != user && fault != Raises(false) ==>
                r == Response(FORBIDDEN, NotOwnPostDelete, None)
      ensures old(service.posts[postId].userId) == user && fault.NoFault? ==>
                && r == Response(OK, PostDeleted, Some(old(service.posts[postId])))
                && service.posts == old(service.posts) - {postId}
                && service.comments == old(service.comments)
                && service.tags == old(service.tags) && service.postTags == old(service.postTags)
      ensures fault == Raises(false) ==> r == ServerFailure() && unchanged(service)
      ensures old(service.posts[postId].userId) == user && fault.Raises? ==> r == ServerFailure()
      ensures old(service.posts[postId].userId) == user && fault == Raises(true) ==>
                && service.posts == old(service.posts) - {postId}
                && service.comments == old(service.comments)
                && service.tags == old(service.tags) && service.postTags == old(service.postTags)
      ensures r.status == OK ==> old(service.posts[postId].userId) == user
      ensures r.status == SERVER_ERROR ==> r == ServerFailure()
      ensures r.status in {OK, FORBIDDEN, SERVER_ERROR}
    {
      if fault == Raises(false) {
        return ServerFailure();
      }
      if service.posts[postId].userId != user {
        return Response(FORBIDDEN, NotOwnPostDelete, None);
      }
      var snapshot := service.Delete(postId);
      if fault.Raises? {
        return ServerFailure();
      }
      r := Response(OK, PostDeleted, Some(snapshot));
    }

    /**
     * update(PostUpdateRequest, $post): 422 when validation fails; then 403 and
     * no change unless the caller owns the post; for the owner, 200 with the
     * new content, the same owner and the tag links untouched.
     */
    method Update(user: nat, postId: nat, input: Input, checks: Checks, fault: Fault) returns (r: Response<Post>)
      requires service.Valid() && postId in service.posts
      modifies service
      ensures service.Valid()
      ensures Resolve(PostUpdateRules(), input, checks).Halt? ==>
                r.status == UNPROCESSABLE && r.data == None && unchanged(service)
      ensures old(service.posts[postId].userId) != user ==> unchanged(service)
      ensures (&& Resolve(PostUpdateRules(), input, checks).Proceed? && old(service.posts[postId].userId) != user
               && fault != Raises(false)) ==> r == Response(FORBIDDEN, NotOwnPostUpdate, None)
      ensures (&& Resolve(PostUpdateRules(), input, checks).Proceed? && old(service.posts[postId].userId) == user
               && fault.NoFault?) ==>
                && r.status == OK && r.message == PostUpdated && r.data.Some?
                && r.data.value == old(service.posts[postId]).(content := Some(Lookup(input, "content").s))
                && service.posts == old(service.posts)[postId := r.data.value]
                && service.postTags == old(service.postTags) && service.tags == old(service.tags)
                && service.comments == old(service.comments)
      ensures Resolve(PostUpdateRules(), input, checks).Proceed? && fault == Raises(false) ==>
                r == ServerFailure() && unchanged(service)
      ensures (&& Resolve(PostUpdateRules(), input, checks).Proceed? && old(service.posts[postId].userId) == user
               && fault.Raises?) ==> r == ServerFailure()
      ensures (&& Resolve(PostUpdateRules(), input, checks).Proceed? && old(service.posts[postId].userId) == user
               && fault == Raises(true)) ==>
                && service.posts == old(service.posts)[postId := old(service.posts[postId]).(content := Some(Lookup(input, "content").s))]
                && service.postTags == old(service.postTags) && service.tags == old(service.tags)
                && service.comments == old(service.comments)
      ensures r.status == OK ==> old(service.posts[postId].userId) == user
      ensures r.status == SERVER_ERROR ==> r == ServerFailure()
      ensures r.status in {OK, FORBIDDEN, UNPROCESSABLE, SERVER_ERROR}
    {
      var resolution := Resolve(PostUpdateRules(), input, checks);
      if resolution.Halt? {
        return Response(resolution.status, resolution.message, None);
      }
      if fault == Raises(false) {
        return ServerFailure();
      }
      if service.posts[postId].userId != user {
        return Response(FORBIDDEN, NotOwnPostUpdate, None);
      }
      PostUpdateResolves(input, checks);
      var post := service.Update(postId, resolution.validated);
      if fault.Raises? {
        return ServerFailure();
      }
      r := Response(OK, PostUpdated, Some(post));
    }

    /** search($request): 200 with the posts matching the `keyword` query parameter, newest first. */
    method Search(keyword: Option<string>, fault: Fault) returns (r: Response<seq<Post>>)
      requires service.Valid()
      requires keyword.Some? ==> NoWildcards(keyword.value)
      ensures fault.NoFault? ==> r == Response(OK, SearchMatched, Some(service.Search(keyword)))
      ensures fault.NoFault? && !Truthy(keyword) ==> r.data == Some([])
      ensures fault.Raises? ==> r == ServerFailure()
    {
      if fault.Raises? {
        return ServerFailure();
      }
      var posts := service.Search(keyword);
      r := Response(OK, SearchMatched, Some(posts));
    }

    /**
     * storeComment(CommentStoreRequest, $post): 422 when validation fails;
     * otherwise 201 with a new comment by the caller on that post, whoever owns
     * the post.
     */
    method StoreComment(user: nat, postId: nat, input: Input, checks: Checks, now: int, fault: Fault)
      returns (r: Response<Comment>)
      requires service.Valid() && postId in service.posts
      modifies service
      ensures service.Valid()
      ensures Resolve(CommentStoreRules(), input, checks).Halt? ==>
                r.status == UNPROCESSABLE && r.data == None && unchanged(service)
      ensures Resolve(CommentStoreRules(), input, checks).Proceed? && fault.NoFault? ==>
                && r.status == CREATED && r.message == CommentCreated
                && r.data == Some(Comment(old(service.nextCommentId), postId, user, Lookup(input, "content").s, now))
                && service.comments == old(service.comments)[r.data.value.id := r.data.value]
                && service.posts == old(service.posts)
                && service.tags == old(service.tags) && service.postTags == old(service.postTags)
      ensures Resolve(CommentStoreRules(), input, checks).Proceed? && fault.Raises? ==> r == ServerFailure()
      ensures fault == Raises(false) ==> unchanged(service)
      ensures Resolve(CommentStoreRules(), input, checks).Proceed? && fault == Raises(true) ==>
                var id := old(service.nextCommentId);
                && service.comments == old(service.comments)[id := Comment(id, postId, user, Lookup(input, "content").s, now)]
                && service.posts == old(service.posts)
                && service.tags == old(service.tags) && service.postTags == old(service.postTags)
      ensures r.status == SERVER_ERROR ==> r == ServerFailure()
      ensures r.status in {CREATED, UNPROCESSABLE, SERVER_ERROR}
    {
      var resolution := Resolve(CommentStoreRules(), input, checks);
      if resolution.Halt? {
        return Response(resolution.status, resolution.message, None);
      }
      if fault == Raises(false) {
        return ServerFailure();
      }
      CommentStoreResolves(input, checks);
      var comment := service.CreateComment(postId, user, resolution.validated["content"].s, now);
      if fault.Raises? {
        return ServerFailure();
      }
      r := Response(CREATED, CommentCreated, Some(comment));
    }

    /**
     * destroyComment($comment): 403 and no change unless the caller wrote the
     * comment; for its author, 200 with the deleted comment.
     */
    method DestroyComment(user: nat, commentId: nat, fault: Fault) returns (r: Response<Comment>)
      requires service.Valid() && commentId in service.comments
      modifies service
      ensures service.Valid()
      ensures old(service.comments[commentId].userId) != user ==> unchanged(service)
      ensures old(service.comments[commentId].userId) != user && fault != Raises(false) ==>
                r == Response(FORBIDDEN, NotOwnComment, None)
      ensures old(service.comments[commentId].userId) == user && fault.NoFault? ==>
                && r == Response(OK, CommentDeleted, Some(old(service.comments[commentId])))
                && service.comments == old(service.comments) - {commentId}
                && service.posts == old(service.posts)
                && service.tags == old(service.tags) && service.postTags == old(service.postTags)
      ensures fault == Raises(false) ==> r == ServerFailure() && unchanged(service)
      ensures old(service.comments[commentId].userId) == user && fault.Raises? ==> r == ServerFailure()
      ensures old(service.comments[commentId].userId) == user && fault == Raises(true) ==>
                && service.comments == old(service.comments) - {commentId}
                && service.posts == old(service.posts)
                && service.tags == old(service.tags) && service.postTags == old(service.postTags)
      ensures r.status == OK ==> old(service.comments[commentId].userId) == user
      ensures r.status == SERVER_ERROR ==> r == ServerFailure()
      ensures r.status in {OK, FORBIDDEN, SERVER_ERROR}
    {
      if fault == Raises(false) {
        return ServerFailure();
      }
      if service.comments[commentId].userId != user {
        return Response(FORBIDDEN, NotOwnComment, None);
      }
      var comment := service.DeleteComment(commentId);
      if fault.Raises? {
        return ServerFailure();
      }
      r := Response(OK, CommentDeleted, Some(comment));
    }
  }
}
