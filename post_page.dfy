/** The page of one post: it loads the post named by the route's slug,
    resolves its image, shows the author's edit and delete controls, and
    deletes the post together with its image. */
module PostPage {
  import opened Backend

  /** What the image area of the page shows. */
  datatype ImageView = ImageLoading | Picture(url: string) | NoImage

  /** The whole page: a loading note until a post is set, then the post
      with its image area and, for its author, the controls. */
  datatype PageView = LoadingPost | Shown(image: ImageView, authorControls: bool)

  /** `post && userData && post.userId === userData.$id`. */
  predicate IsAuthor(post: Option<Doc>, userData: Option<User>)
  {
    post.Some? && userData.Some? && post.value.userId == userData.value.id
  }

  /** The page's state hooks and the calls it has made. */
  class Page {
    var post: Option<Doc>
    var imageUrl: Option<string>
    var imageLoading: bool
    var calls: seq<Call>

    /** Until a post has been set, nothing about its image is known. */
    ghost predicate Valid()
      reads this
    {
      post.None? ==> imageLoading && imageUrl == None
    }

    /** The first render. */
    constructor ()
      ensures Valid()
      ensures post == None && imageUrl == None && imageLoading && calls == []
    {
      post, imageUrl, imageLoading, calls := None, None, true, [];
    }

    function View(userData: Option<User>): (v: PageView)
      reads this
      ensures v == LoadingPost <==> post.None?
      ensures v.Shown? ==> v.authorControls == IsAuthor(post, userData)
      ensures v.Shown? ==> (v.image == ImageLoading <==> imageLoading)
      ensures v.Shown? ==> (v.image.Picture? <==> !imageLoading && Present(imageUrl))
      ensures v.Shown? && v.image.Picture? ==> v.image.url == imageUrl.value
    {
      if post.None? then LoadingPost
      else Shown(if imageLoading then ImageLoading
                 else if Present(imageUrl) then Picture(imageUrl.value)
                 else NoImage,
                 IsAuthor(post, userData))
    }

    /** The effect run for the route's slug, with what `getPost` and the
        image resolver yield. A missing slug, a missing document or a throw
        sends the reader home. A post without an image stops the image
        loading and leaves `imageUrl` as it was. */
    method FetchPost(slug: Option<string>, doc: Reply<Option<Doc>>, url: Reply<Option<string>>)
      requires Valid()
      modifies this
      ensures Valid()
      ensures !Present(slug) ==>
                calls == old(calls) + [Navigate("/")]
                && post == old(post) && imageUrl == old(imageUrl) && imageLoading == old(imageLoading)
      ensures Present(slug) && !(doc.Returned? && doc.value.Some?) ==>
                calls == old(calls) + [GetDocument(slug.value), Navigate("/")]
                && post == old(post) && imageUrl == old(imageUrl) && imageLoading == old(imageLoading)
      ensures Present(slug) && doc.Returned? && doc.value.Some? && !Present(doc.value.value.featuredImage) ==>
                calls == old(calls) + [GetDocument(slug.value)]
                && post == doc.value && !imageLoading && imageUrl == old(imageUrl)
      ensures Present(slug) && doc.Returned? && doc.value.Some? && Present(doc.value.value.featuredImage) ==>
                post == doc.value
                && (url.Returned? ==>
                      calls == old(calls) + [GetDocument(slug.value), GetFilePreview(doc.value.value.featuredImage.value)]
                      && imageUrl == url.value && !imageLoading)
                && (url.Threw? ==>
                      calls == old(calls) + [GetDocument(slug.value), GetFilePreview(doc.value.value.featuredImage.value),
                                             Navigate("/")]
                      && imageUrl == old(imageUrl) && imageLoading)
    {
      if !Present(slug) {
        calls := calls + [Navigate("/")];
        return;
      }
      calls := calls + [GetDocument(slug.value)];
      if doc.Threw? {
        calls := calls + [Navigate("/")];
        return;
      }
      if doc.value.None? {
        calls := calls + [Navigate("/")];
        return;
      }
      var d := doc.value.value;
      post := Some(d);
      if Present(d.featuredImage) {
        imageLoading := true;
        calls := calls + [GetFilePreview(d.featuredImage.value)];
        if url.Threw? {
          calls := calls + [Navigate("/")];
          return;
        }
        imageUrl := url.value;
        imageLoading := false;
      } else {
        imageLoading := false;
      }
    }

    /** `handleDelete`, reachable only through the author's delete button.
        The post is deleted first; its image only after the post delete
        returned true, and only if it has one. Home is reached only when
        neither call threw. The page's state does not change. */
    method HandleDelete(userData: Option<User>, deleted: Reply<bool>, fileDeleted: Reply<bool>)
      requires IsAuthor(post, userData)
      modifies this
      ensures post == old(post) && imageUrl == old(imageUrl) && imageLoading == old(imageLoading)
      ensures calls == old(calls) + DeleteCalls(post.value, deleted, fileDeleted)
    {
      var p := post.value;
      calls := calls + [DeleteDocument(p.id)];
      if deleted.Threw? {
        return;
      }
      if deleted.value && Present(p.featuredImage) {
        calls := calls + [DeleteFile(p.featuredImage.value)];
        if fileDeleted.Threw? {
          return;
        }
      }
      calls := calls + [Navigate("/")];
    }

    /** The image's `onError`: forget the URL. */
    method ImageError(userData: Option<User>)
      requires View(userData).Shown? && View(userData).image.Picture?
      modifies this
      ensures imageUrl == None && post == old(post) && imageLoading == old(imageLoading) && calls == old(calls)
      ensures View(userData) == Shown(NoImage, old(View(userData)).authorControls)
    {
      imageUrl := None;
    }
  }

  /** The calls `handleDelete` makes for post `p`, given what `deletePost`
      and `deleteFile` yield. */
  function DeleteCalls(p: Doc, deleted: Reply<bool>, fileDeleted: Reply<bool>): seq<Call>
  {
    if deleted.Threw? then [DeleteDocument(p.id)]
    else if deleted.value && Present(p.featuredImage) then
      [DeleteDocument(p.id), DeleteFile(p.featuredImage.value)]
        + (if fileDeleted.Threw? then [] else [Navigate("/")])
    else [DeleteDocument(p.id), Navigate("/")]
  }

  /** The post is deleted first; the file only second, only after the post
      delete returned true, only for a post with an image, and with exactly
      its id; and in that case it always is. */
  lemma DeleteOrder(p: Doc, deleted: Reply<bool>, fileDeleted: Reply<bool>)
    ensures var calls := DeleteCalls(p, deleted, fileDeleted);
      calls != [] && calls[0] == DeleteDocument(p.id)
    ensures var calls := DeleteCalls(p, deleted, fileDeleted);
      forall i :: 0 <= i < |calls| && calls[i].DeleteFile? ==>
        i == 1 && deleted == Returned(true) && Present(p.featuredImage)
        && calls[i].fileId == p.featuredImage.value
    ensures deleted == Returned(true) && Present(p.featuredImage) ==>
      DeleteCalls(p, deleted, fileDeleted)[1] == DeleteFile(p.featuredImage.value)
  {
  }

  /** Home is reached, as the last call, exactly when neither call threw. */
  lemma DeleteNavigatesIff(p: Doc, deleted: Reply<bool>, fileDeleted: Reply<bool>)
    ensures var calls := DeleteCalls(p, deleted, fileDeleted);
      Navigate("/") in calls
      <==> deleted.Returned? && (deleted.value && Present(p.featuredImage) ==> fileDeleted.Returned?)
    ensures var calls := DeleteCalls(p, deleted, fileDeleted);
      forall i :: 0 <= i < |calls| && calls[i].Navigate? ==> i == |calls| - 1 && calls[i].path == "/"
  {
  }

  /** The author controls are shown exactly to the post's author. */
  lemma ControlsIff(page: Page, userData: Option<User>)
    ensures page.View(userData).Shown? && page.View(userData).authorControls
        <==> page.post.Some? && userData.Some? && page.post.value.userId == userData.value.id
  {
  }

  // ---------------------------------------------------------------------
  // Opening a post page

  /** Opening the page for a slug: the calls made and what is shown. */
  method OpenPost(slug: Option<string>, doc: Reply<Option<Doc>>, url: Reply<Option<string>>,
                  userData: Option<User>) returns (v: PageView, calls: seq<Call>)
    ensures !Present(slug) ==> calls == [Navigate("/")] && v == LoadingPost
    ensures Present(slug) && !(doc.Returned? && doc.value.Some?) ==>
              calls == [GetDocument(slug.value), Navigate("/")] && v == LoadingPost
    ensures Present(slug) && doc.Returned? && doc.value.Some? && !Present(doc.value.value.featuredImage) ==>
              calls == [GetDocument(slug.value)]
              && v == Shown(NoImage, IsAuthor(doc.value, userData))
    ensures Present(slug) && doc.Returned? && doc.value.Some? && Present(doc.value.value.featuredImage) ==>
              |calls| >= 2 && calls[0] == GetDocument(slug.value)
              && calls[1] == GetFilePreview(doc.value.value.featuredImage.value)
              && v.Shown? && v.authorControls == IsAuthor(doc.value, userData)
              && (v.image.Picture? <==> url.Returned? && Present(url.value))
              && (url.Threw? ==> v.image == ImageLoading && calls[|calls| - 1] == Navigate("/"))
  {
    var page := new Page();
    page.FetchPost(slug, doc, url);
    v, calls := page.View(userData), page.calls;
  }

  /** Moving from a post with an image to one without keeps showing the
      first post's image, because the second fetch does not clear the URL. */
  method StaleImage(slug1: string, first: Doc, slug2: string, second: Doc, u: string,
                    userData: Option<User>) returns (v: PageView)
    requires slug1 != "" && slug2 != ""
    requires Present(first.featuredImage) && !Present(second.featuredImage) && u != ""
    ensures v == Shown(Picture(u), IsAuthor(Some(second), userData))
  {
    var page := new Page();
    page.FetchPost(Some(slug1), Returned(Some(first)), Returned(Some(u)));
    page.FetchPost(Some(slug2), Returned(Some(second)), Threw);
    v := page.View(userData);
  }

  /** The author deletes a post with an image: post, then file, then home. */
  method AuthorDeletes(slug: string, p: Doc, user: User) returns (calls: seq<Call>)
    requires slug != "" && p.userId == user.id && Present(p.featuredImage)
    ensures calls == [GetDocument(slug), GetFilePreview(p.featuredImage.value),
                      DeleteDocument(p.id), DeleteFile(p.featuredImage.value), Navigate("/")]
  {
    var page := new Page();
    page.FetchPost(Some(slug), Returned(Some(p)), Returned(None));
    page.HandleDelete(Some(user), Returned(true), Returned(true));
    calls := page.calls;
  }
}
