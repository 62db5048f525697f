/** A card in the post feed: it resolves the post's featured image to a URL
    once mounted and shows a loading note, a "no image" placeholder or the
    image. */
module PostCard {
  import opened Backend

  /** What the image area of the card shows. */
  datatype CardView = LoadingImage | Unavailable | Image(url: string)

  /** The card's state hooks, together with the `isMounted` flag of its
      effect. The await on the resolver splits the effect in two: `RunEffect`
      runs up to the await and `Resolve` runs from it. */
  class Card {
    const featuredImage: Option<string>
    var imageUrl: Option<string>
    var isLoading: bool
    var hasError: bool
    var isMounted: bool
    /** The effect has run. */
    var started: bool
    /** The effect is waiting for the resolver. */
    var pending: bool
    /** The resolver calls made so far. */
    var calls: seq<Call>

    ghost predicate Valid()
      reads this
    {
      && (pending ==> started && Present(featuredImage))
      && (!started || pending ==> isLoading && !hasError && imageUrl == None)
      && (started && !pending && isMounted ==> !isLoading && (hasError <==> !Present(imageUrl)))
      && calls == (if started && Present(featuredImage) then [GetFilePreview(featuredImage.value)] else [])
    }

    /** The first render: no URL, loading, no error. */
    constructor (featuredImage: Option<string>)
      ensures Valid()
      ensures this.featuredImage == featuredImage
      ensures imageUrl == None && isLoading && !hasError
      ensures isMounted && !started && !pending && calls == []
    {
      this.featuredImage := featuredImage;
      imageUrl, isLoading, hasError := None, true, false;
      isMounted, started, pending, calls := true, false, false, [];
    }

    /** The exactly-one-of-three render choice. */
    function View(): (v: CardView)
      reads this
      ensures v == LoadingImage <==> isLoading
      ensures v == Unavailable <==> !isLoading && (hasError || !Present(imageUrl))
      ensures v.Image? <==> !isLoading && !hasError && Present(imageUrl)
      ensures v.Image? ==> v.url == imageUrl.value
    {
      if isLoading then LoadingImage
      else if hasError || !Present(imageUrl) then Unavailable
      else Image(imageUrl.value)
    }

    /** `fetchImageUrl` up to its await. Without a featured image the card
        settles at once on the placeholder and the resolver is not called;
        with one it starts loading and calls the resolver. */
    method RunEffect()
      requires Valid() && !started && isMounted
      modifies this
      ensures Valid() && started && isMounted
      ensures !Present(featuredImage) ==>
                !isLoading && hasError && imageUrl == None && !pending && calls == []
      ensures Present(featuredImage) ==>
                isLoading && !hasError && imageUrl == None && pending
                && calls == [GetFilePreview(featuredImage.value)]
    {
      started := true;
      if !Present(featuredImage) {
        if isMounted {
          isLoading := false;
          hasError := true;
        }
        return;
      }
      isLoading := true;
      hasError := false;
      calls := calls + [GetFilePreview(featuredImage.value)];
      pending := true;
    }

    /** `fetchImageUrl` from its await on, given what the resolver yielded.
        A truthy URL is shown; a falsy one or a throw marks the error; either
        way loading ends. Once unmounted, nothing changes. */
    method Resolve(url: Reply<Option<string>>)
      requires Valid() && pending
      modifies this
      ensures Valid() && !pending
      ensures isMounted == old(isMounted) && started && calls == old(calls)
      ensures old(isMounted) && url.Returned? && Present(url.value) ==>
                imageUrl == url.value && !hasError && !isLoading
      ensures old(isMounted) && !(url.Returned? && Present(url.value)) ==>
                imageUrl == None && hasError && !isLoading
      ensures !old(isMounted) ==>
                imageUrl == old(imageUrl) && isLoading == old(isLoading) && hasError == old(hasError)
    {
      pending := false;
      match url {
        case Threw =>
          if isMounted {
            hasError := true;
          }
        case Returned(u) =>
          if isMounted && Present(u) {
            imageUrl := u;
          } else if isMounted {
            hasError := true;
          }
      }
      if isMounted {
        isLoading := false;
      }
    }

    /** The effect's cleanup on unmount. */
    method Cleanup()
      requires Valid() && started
      modifies this
      ensures Valid() && !isMounted
      ensures imageUrl == old(imageUrl) && isLoading == old(isLoading) && hasError == old(hasError)
      ensures pending == old(pending) && started && calls == old(calls)
    {
      isMounted := false;
    }

    /** `handleImageError`: the browser failed to load the shown image. */
    method HandleImageError()
      requires Valid() && isMounted && View().Image?
      modifies this
      ensures Valid() && hasError && imageUrl == None
      ensures isLoading == old(isLoading) && isMounted && pending == old(pending) && calls == old(calls)
      ensures View() == Unavailable
    {
      hasError := true;
      imageUrl := None;
    }
  }

  // ---------------------------------------------------------------------
  // A card's life from mount to settled view

  /** A card for a post without an image shows the placeholder and never
      asks for a URL. */
  method CardWithoutImage(featuredImage: Option<string>) returns (v: CardView, calls: seq<Call>)
    requires !Present(featuredImage)
    ensures v == Unavailable && calls == []
  {
    var c := new Card(featuredImage);
    c.RunEffect();
    v, calls := c.View(), c.calls;
  }

  /** A card for a post with an image asks once for its URL and shows the
      image exactly when the resolver returned a truthy URL. */
  method CardWithImage(featuredImage: Option<string>, url: Reply<Option<string>>)
    returns (v: CardView, calls: seq<Call>)
    requires Present(featuredImage)
    ensures calls == [GetFilePreview(featuredImage.value)]
    ensures v.Image? <==> url.Returned? && Present(url.value)
    ensures v.Image? ==> v.url == url.value.value
    ensures !v.Image? ==> v == Unavailable
  {
    var c := new Card(featuredImage);
    c.RunEffect();
    c.Resolve(url);
    v, calls := c.View(), c.calls;
  }

  /** With the real resolver, which never throws, the image is shown
      exactly when the storage service produced a non-empty URL. */
  method CardWithPreview(featuredImage: Option<string>, view: Reply<string>) returns (v: CardView)
    requires Present(featuredImage)
    ensures v.Image? <==> view.Returned? && view.value != ""
  {
    var calls;
    v, calls := CardWithImage(featuredImage, Returned(PreviewUrl(featuredImage, view)));
  }

  /** A card unmounted while its URL is being resolved is frozen in the
      loading state whatever the resolver yields. */
  method CardUnmountedEarly(featuredImage: Option<string>, url: Reply<Option<string>>)
    returns (v: CardView)
    requires Present(featuredImage)
    ensures v == LoadingImage
  {
    var c := new Card(featuredImage);
    c.RunEffect();
    c.Cleanup();
    c.Resolve(url);
    v := c.View();
  }

  /** An image that fails to load in the browser falls back to the placeholder. */
  method CardBrokenImage(featuredImage: Option<string>, u: string) returns (v: CardView)
    requires Present(featuredImage) && u != ""
    ensures v == Unavailable
  {
    var c := new Card(featuredImage);
    c.RunEffect();
    c.Resolve(Returned(Some(u)));
    c.HandleImageError();
    v := c.View();
  }
}
