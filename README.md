# Blog application core, modelled in Dafny

This project models the stateful core of a client-side blog application.
The application's posts, files and accounts live on a hosted backend.
Four parts of its own code are modelled:

- **The post form** (`PostForm.jsx`). This covers the slug transform
  `value?.trim().toLowerCase().replace(/[^a-z0-9\s]/g, "").replace(/\s+/g, "-") || ""`.
  It also covers the form's default values, the title watcher and the slug
  field's input handler that re-apply the transform. Finally it covers
  `submit`, which uploads a chosen image, deletes the edited post's old
  image, picks the image id to store, then updates or creates the post and
  opens it.
- **The `post` slice of the store** (`postSlice.js`). This is the state
  `{posts, loading, error}` and its five reducers.
- **The feed card** (`PostCard.jsx`). This is the card's image state
  (`imageUrl`, `isLoading`, `hasError`), the effect that resolves the image
  URL under an `isMounted` guard, the image's error handler and the
  three-way render choice.
- **The post page** (`Post.jsx`). This is the effect that loads the post
  and its image, the author gate, the delete handler and the image's error
  handler.

Backend calls are not executed. Each awaited call is recorded in a trace of
`Call`s, and what it yields is an input of type `Reply`: `Threw`, or
`Returned(value)`. Navigation is recorded in the same trace.

Files:

- `seqs.dfy` (`Seqs`): order-preserving filtering of sequences and its laws.
- `backend.dfy` (`Backend`): documents, file records, form values and the call trace.
  It records two facts about the backend wrapper:
  - `createPost` keys the document by the slug and stores five fields.
  - `getFilePreviewURL` yields no URL for a falsy id and never throws.
- `slug.dfy` (`Slug`): the slug transform and its properties.
- `post_form.dfy` (`PostForm`): `submit` as a specification function `SubmitCalls` and an imperative method `Submit` proved equal to it.
  It also holds the form's fields as a class.
- `post_slice.dfy` (`PostSlice`): the slice as a class `PostState` with one method per reducer.
- `post_card.dfy` (`PostCard`): the card as a class `Card`.
  The effect is split at its await into `RunEffect` and `Resolve`, with `Cleanup` for the unmount.
- `post_page.dfy` (`PostPage`): the page as a class `Page`.

How the model represents the code:

- JavaScript truthiness of a possibly missing string is `Present`: `null`, `undefined` and `""` are falsy.
- A post's `id` property and the payload of `removePost` are a `Key`: `Undefined`, `Null` or a string.
  `!==` tells `undefined` and `null` apart, so the model keeps them apart too.
- Characters are Unicode scalar values, and whitespace is the set ECMAScript's `trim` and `\s` share.
  That set is WhiteSpace and LineTerminator, sections 12.2 and 12.3 of ECMA-262.
- `toLowerCase` is modelled in three cases:
  - ASCII capitals.
  - U+0130, which lower-cases to `i` followed by U+0307.
  - U+212A KELVIN SIGN, which lower-cases to `k`.

  Every other character is left as it is. That is exact for the slug on one assumption about the Unicode case tables: no other character lower-cases to something containing `a-z`, `0-9` or whitespace. Any such character is deleted whether or not it is lower-cased.

Behaviour of the code that the model keeps, and where it departs from a
plain reading of its intent:

- The slug transform is not idempotent. Applying it to its own output
  deletes every hyphen (`SlugReapply`). It is idempotent exactly on
  hyphen-free output (`SlugIdempotentIff`). The slug field's input handler
  re-applies it on every keystroke, so typing into that field deletes the
  hyphens already there (`SlugRetype`).
- The slug can start with a hyphen: `"! hi"` gives `"-hi"`. The trim runs
  before punctuation is deleted, so the space it exposes is not trimmed.
- `createPost` is keyed by the form's `slug` field, not by a slug computed
  from the title at submit time.
- Input with no letter, digit or whitespace gives `""`, and so does input
  that is whitespace only. Input whose only surviving characters are
  inner whitespace does not: `"! !"` trims to itself, its space survives
  the first replace, and the slug is `"-"` (`SlugInnerSpace`). `SlugEmpty` states the exact
  condition, on the trimmed, lower-cased text.
- The old image is deleted before the update is sent, and nothing restores
  it if the update then fails.
- `removePost` compares the plain `id` property. Database documents carry
  `$id`, so for them `id` is missing and they are never removed by a real
  id, nor by `null` (`RemainingKeepsUnkeyed`).
- `deletePost` and `deleteFile` return `true` or throw. The model still
  takes the value of `deletePost` as an input, as the handler tests it.
- On the post page, a post without an image stops the image loading but
  does not clear `imageUrl`. When the route moves from a post with an image
  to one without, the first post's image stays on screen (`StaleImage`).
  On the first load `imageUrl` is still `null`, so the page shows "No image
  available".
- On the post page, a throw from the image resolver sends the reader home
  with the post set and the image area still loading. The resolver itself
  never throws (`PreviewUrl`).

## Model

| member | source | states |
|---|---|---|
| Backend.CreatePostCall | Blog_App/src/appwrite/config.js:17-24 | the create request is keyed by the slug and stores exactly title, content, featuredImage, status and userId |
| Backend.PreviewUrl | Blog_App/src/appwrite/config.js:131-144 | no URL for a falsy id; otherwise the storage URL, a failure of the storage call turning into no URL; never a throw |
| Slug.SlugTransform | Blog_App/src/components/post-form/PostForm.jsx:32-34 | `slugTransform`: `Hyphenate(Filter(Lower(Trim(v)), Allowed))` for a present value `v`; a missing value gives `""`, and so does the trailing fallback to `""` for an empty result |
| Slug.Trim | Blog_App/src/components/post-form/PostForm.jsx:33 | `trim()`: `TrimEnd(TrimStart(v))`, dropping ECMAScript whitespace and line terminators from both ends |
| Slug.LowerChar | Blog_App/src/components/post-form/PostForm.jsx:33 | `toLowerCase()` on one character: ASCII capitals to small letters, U+0130 to `i` and U+0307, U+212A to `k`, every other character kept |
| Slug.Lower | Blog_App/src/components/post-form/PostForm.jsx:33 | `toLowerCase()` on a string: `LowerChar` applied to each character in order, the results concatenated |
| Slug.Hyphenate | Blog_App/src/components/post-form/PostForm.jsx:33 | `replace(/\s+/g, "-")`: a whitespace character and the whitespace after it become one `-`; every other character is kept |
| Slug.SlugAlphabet | Blog_App/src/components/post-form/PostForm.jsx:33 | every character of the slug is `a-z`, `0-9` or `-` |
| Slug.SlugNoDoubleHyphen | Blog_App/src/components/post-form/PostForm.jsx:33 | no two hyphens of the slug are adjacent |
| Slug.SlugKeepsAlnum | Blog_App/src/components/post-form/PostForm.jsx:33 | deleting the hyphens from the slug gives exactly the letters and digits of the lower-cased input, in order |
| Slug.SlugEmpty | Blog_App/src/components/post-form/PostForm.jsx:33 | the slug is empty exactly when no character of the trimmed, lower-cased input is a letter, digit or whitespace |
| Slug.SlugEmptyCases | Blog_App/src/components/post-form/PostForm.jsx:33 | a missing value, the empty string and input with no letter, digit or whitespace give `""` |
| Slug.SlugOfSlugChars | Blog_App/src/components/post-form/PostForm.jsx:33 | a string of `a-z`, `0-9` and `-` is mapped to itself with its hyphens deleted |
| Slug.SlugReapply | Blog_App/src/components/post-form/PostForm.jsx:33 | applying the transform to its own output deletes every hyphen |
| Slug.SlugIdempotentIff | Blog_App/src/components/post-form/PostForm.jsx:33 | the transform maps an output to itself exactly when the output has no hyphen |
| Slug.SlugRetype | Blog_App/src/components/post-form/PostForm.jsx:105-109 | typing a letter or digit after a slug in the slug field yields the slug without hyphens followed by that character |
| Slug.HyphenateSeparates | Blog_App/src/components/post-form/PostForm.jsx:33 | on text that passed the first replace, no two hyphens of the result are adjacent, and a leading hyphen comes only from leading whitespace |
| Slug.HyphenateAppend | Blog_App/src/components/post-form/PostForm.jsx:33 | hyphenating two pieces separately equals hyphenating them together unless a whitespace run straddles the boundary |
| Slug.HyphenateRun | Blog_App/src/components/post-form/PostForm.jsx:33 | each maximal whitespace run, of any length, becomes exactly one hyphen, with the text on either side hyphenated independently |
| Slug.HyphenateDehyphen | Blog_App/src/components/post-form/PostForm.jsx:33 | deleting the hyphens from the hyphenated text gives the text without its whitespace |
| Slug.TrimSplit | Blog_App/src/components/post-form/PostForm.jsx:33 | the trimmed value is the value with a run of whitespace removed at each end, and these runs are maximal: the trimmed value is empty or starts and ends with non-whitespace |
| Slug.SlugOfTitle | Blog_App/src/components/post-form/PostForm.jsx:33 | three ASCII words, the first two each followed by punctuation and a space: the slug is the three words lower-cased and joined by hyphens |
| Slug.SlugExampleTitle | Blog_App/src/components/post-form/PostForm.jsx:33 | `"Hello, World! 2024"` gives `"hello-world-2024"` |
| Slug.SlugLeadingHyphen | Blog_App/src/components/post-form/PostForm.jsx:33 | punctuation, a space and a word give a hyphen followed by the word: a slug can start with a hyphen |
| Slug.SlugInnerSpace | Blog_App/src/components/post-form/PostForm.jsx:33 | punctuation, a space and punctuation give `"-"`: input whose only allowed character is inner whitespace does not give `""` |
| Slug.SlugExampleLeadingHyphen | Blog_App/src/components/post-form/PostForm.jsx:33 | `"! hi"` gives `"-hi"`, a slug with a leading hyphen |
| Slug.SlugExampleBlank | Blog_App/src/components/post-form/PostForm.jsx:33 | a title of spaces gives `""` |
| PostForm.SubmitCalls | Blog_App/src/components/post-form/PostForm.jsx:46-89 | `submit` as the sequence of calls it makes for given replies: no file chosen goes straight to the write step; a failed upload stops after the upload; an edited post with an image has it deleted, and a throw there stops the submission; otherwise the upload is followed by the write step |
| PostForm.WriteCalls | Blog_App/src/components/post-form/PostForm.jsx:65-83 | the write step: update of `post.$id` when editing, otherwise create with `userData.$id` (no call when no user is signed in, as `userData.$id` throws), each followed by `NavigateOn` |
| PostForm.FileId | Blog_App/src/components/post-form/PostForm.jsx:48-56 | the uploaded file's id is truthy exactly when a file was chosen and the upload yielded a record with a truthy id |
| PostForm.ImageId | Blog_App/src/components/post-form/PostForm.jsx:63 | the stored image id is the new upload's id if truthy, else the edited post's truthy `featuredImage`, else null |
| PostForm.NavigateOn | Blog_App/src/components/post-form/PostForm.jsx:70-72 | navigation to `/post/<id>` happens exactly when the write returned a truthy document |
| PostForm.WriteCallsShape | Blog_App/src/components/post-form/PostForm.jsx:65-83 | the write step neither uploads nor deletes; an update targets the edited post; a create carries the current user; navigation is last |
| PostForm.Submit | Blog_App/src/components/post-form/PostForm.jsx:46-89 | the calls the imperative submit makes equal `SubmitCalls` for every combination of replies |
| PostForm.SubmitUploadsFirst | Blog_App/src/components/post-form/PostForm.jsx:50-55 | a chosen file is uploaded first, and a failed upload (throw, no record, no id) ends the submission with no further call |
| PostForm.SubmitDeletesOldImage | Blog_App/src/components/post-form/PostForm.jsx:58-60 | the old image is deleted only as the second call, after a successful upload, for an edited post with an image, with that image's id; and then it always is |
| PostForm.DeleteBeforeUpdate | Blog_App/src/components/post-form/PostForm.jsx:58-69 | a delete of the old image comes before the update |
| PostForm.SubmitWritesPost | Blog_App/src/components/post-form/PostForm.jsx:65-78 | updates only when editing, of `post.$id`; creates only when not editing and signed in, with `userId` the user's id; both with the chosen image id |
| PostForm.CreateOrUpdate | Blog_App/src/components/post-form/PostForm.jsx:65-83 | a submission that creates never also updates |
| PostForm.SubmitNavigatesLast | Blog_App/src/components/post-form/PostForm.jsx:70-82 | navigation is the last call and goes to `/post/` followed by the returned document's id |
| PostForm.SubmitNavigatesIff | Blog_App/src/components/post-form/PostForm.jsx:46-89 | the submission ends on the post's page exactly when the upload (if any) succeeded, the old-image delete (if any) did not throw, a user is signed in or a post is edited, and the write returned a document |
| PostForm.SubmitReplacesImage | Blog_App/src/components/post-form/PostForm.jsx:50-72 | editing a post with an image and choosing a new one calls upload, delete of the old id, update with the new id, then navigation, in that order |
| PostForm.SubmitCreatesWithoutImage | Blog_App/src/components/post-form/PostForm.jsx:73-78 | creating without a chosen image first creates the document under the slug with a null image id and the user as author (`submit` called directly: the form itself requires an image for a new post) |
| PostForm.FormFields.constructor | Blog_App/src/components/post-form/PostForm.jsx:9-16 | the default values come from the edited post, with `""` for a new post and `"active"` for a missing status |
| PostForm.FormFields.ChangeTitle | Blog_App/src/components/post-form/PostForm.jsx:36-44 | changing the title sets the slug to the transform of the title; content and status unchanged |
| PostForm.FormFields.InputSlug | Blog_App/src/components/post-form/PostForm.jsx:105-109 | input in the slug field replaces the slug with the transform of the input; other fields unchanged |
| PostForm.CreateFromTitle | Blog_App/src/components/post-form/PostForm.jsx:36-89 | typing the title `"Hello, World! 2024"` and submitting a new post without an image creates the document `"hello-world-2024"` with a null image id (`submit` called directly: the form itself requires an image for a new post) |
| PostSlice.Remaining | Blog_App/src/store/postSlice.js:23 | `state.posts.filter(post => post.id !== action.payload)`: `Filter` of the posts with the test `e.id != payload` on `Key`s |
| PostSlice.PostState.constructor | Blog_App/src/store/postSlice.js:4-8 | the initial state is no posts, not loading, no error |
| PostSlice.PostState.SetPosts | Blog_App/src/store/postSlice.js:14-18 | the posts become the payload, loading false, error null |
| PostSlice.PostState.AddPost | Blog_App/src/store/postSlice.js:19-21 | the payload is appended at the end; earlier posts, loading and error unchanged |
| PostSlice.PostState.RemovePost | Blog_App/src/store/postSlice.js:22-24 | the posts become those whose `id` differs from the payload under `!==` (a missing `id` differs from `null`), in order; none has that id; loading and error unchanged |
| PostSlice.PostState.SetLoading | Blog_App/src/store/postSlice.js:25-27 | only the loading flag changes |
| PostSlice.PostState.SetError | Blog_App/src/store/postSlice.js:28-31 | the error becomes the payload, loading false, posts unchanged |
| PostSlice.RemainingNoneMatch | Blog_App/src/store/postSlice.js:23 | no kept post has the removed id |
| PostSlice.RemainingMembers | Blog_App/src/store/postSlice.js:23 | a post is kept exactly when it was present and its id differs from the payload |
| PostSlice.RemainingCount | Blog_App/src/store/postSlice.js:23 | every occurrence of a kept post survives and none of a removed post |
| PostSlice.RemainingInOrder | Blog_App/src/store/postSlice.js:23 | the kept posts are a subsequence of the old ones |
| PostSlice.RemainingUnchangedIff | Blog_App/src/store/postSlice.js:23 | the list is unchanged exactly when no post has the id |
| PostSlice.RemainingIdempotent | Blog_App/src/store/postSlice.js:23 | removing an id twice equals removing it once |
| PostSlice.RemainingCommutes | Blog_App/src/store/postSlice.js:23 | removing two ids in either order gives the same list |
| PostSlice.RemainingAfterAdd | Blog_App/src/store/postSlice.js:19-24 | removing after adding keeps the added post exactly when its id differs |
| PostSlice.RemainingKeepsUnkeyed | Blog_App/src/store/postSlice.js:23 | a post without an `id` property is never removed by a string id or by `null` |
| PostSlice.AddThenRemove | Blog_App/src/store/postSlice.js:19-24 | adding a post whose `id` no earlier post has, then removing that `id`, restores the whole state |
| PostCard.Card.constructor | Blog_App/src/components/PostCard.jsx:6-8 | the card starts with no URL, loading and no error |
| PostCard.Card.View | Blog_App/src/components/PostCard.jsx:62-79 | the loading note exactly while loading; the image exactly when not loading, no error and a truthy URL; the placeholder otherwise |
| PostCard.Card.RunEffect | Blog_App/src/components/PostCard.jsx:10-26 | without an image the card settles on error and stops loading with no resolver call; with one it is loading, error-free and has called the resolver once |
| PostCard.Card.Resolve | Blog_App/src/components/PostCard.jsx:26-42 | while mounted a truthy URL is set with no error, a falsy URL or a throw sets the error, and loading ends; once unmounted nothing changes |
| PostCard.Card.Cleanup | Blog_App/src/components/PostCard.jsx:48-50 | the unmount clears `isMounted` and changes no state field |
| PostCard.Card.HandleImageError | Blog_App/src/components/PostCard.jsx:53-56 | a failed image load sets the error and clears the URL, so the placeholder is shown |
| PostCard.CardWithoutImage | Blog_App/src/components/PostCard.jsx:14-20 | a card without an image shows the placeholder and never calls the resolver |
| PostCard.CardWithImage | Blog_App/src/components/PostCard.jsx:22-42 | a card with an image calls the resolver once and shows the image exactly when it returned a truthy URL, the placeholder otherwise |
| PostCard.CardWithPreview | Blog_App/src/components/PostCard.jsx:26-32 | with the real resolver the image is shown exactly when the storage service produced a non-empty URL |
| PostCard.CardUnmountedEarly | Blog_App/src/components/PostCard.jsx:28-50 | a card unmounted before the URL arrives stays in the loading state, whatever the resolver yields |
| PostCard.CardBrokenImage | Blog_App/src/components/PostCard.jsx:53-79 | an image that fails to load demotes the card to the placeholder |
| PostPage.IsAuthor | Blog_App/src/pages/Post.jsx:43 | `post && userData && post.userId === userData.$id`: both present and the ids equal |
| PostPage.DeleteCalls | Blog_App/src/pages/Post.jsx:45-55 | the calls `handleDelete` makes: delete of `post.$id`; then, if that returned true and the post has an image, delete of the file; then navigation home unless an awaited call threw |
| PostPage.Page.constructor | Blog_App/src/pages/Post.jsx:9-11 | the page starts with no post, no URL and the image loading |
| PostPage.Page.View | Blog_App/src/pages/Post.jsx:57-100 | the loading note exactly without a post; with one, the image area is loading, the picture or "no image", and the controls are shown exactly to the author |
| PostPage.Page.FetchPost | Blog_App/src/pages/Post.jsx:16-41 | a missing slug, a null document or a throw navigates home; a post without an image stops the image loading and keeps `imageUrl`; with an image the resolver's URL is stored |
| PostPage.Page.HandleDelete | Blog_App/src/pages/Post.jsx:45-55 | the calls are those of `DeleteCalls` and the page's state does not change |
| PostPage.Page.ImageError | Blog_App/src/pages/Post.jsx:80 | the image's error handler clears the URL, turning the picture into "no image" |
| PostPage.DeleteOrder | Blog_App/src/pages/Post.jsx:47-49 | the post is deleted first; the file only second, only after the post delete returned true, only for a post with an image, with that id; and then it always is |
| PostPage.DeleteNavigatesIff | Blog_App/src/pages/Post.jsx:45-54 | home is reached, as the last call, exactly when neither delete threw |
| PostPage.ControlsIff | Blog_App/src/pages/Post.jsx:43 | the author controls are shown exactly when post and user are present and `post.userId` equals the user's id |
| PostPage.OpenPost | Blog_App/src/pages/Post.jsx:16-41 | opening the page makes the calls and reaches the view `FetchPost` describes, from the first render |
| PostPage.StaleImage | Blog_App/src/pages/Post.jsx:26-33 | moving from a post with an image to one without keeps showing the first image |
| PostPage.AuthorDeletes | Blog_App/src/pages/Post.jsx:45-55 | the author deleting a post with an image calls delete of the post, then of its file, then navigates home |

## Left out

- The backend itself. Its calls are recorded and their outcomes are inputs. The SDK objects and configuration behind `config.js` and `auth.js` are not part of this model, and neither is the store wiring of `store.js`.
- Asynchrony. Each await is a point where the next reply is consumed. The card's await is split into two methods so that an unmount can sit between them. The post page's fetch is one method, so a delete clicked while the image URL is loading is not modelled.
- Re-running effects when props change. The card's `featuredImage` is fixed for the card's life. The page's effect can be run again with a new slug, which is how `StaleImage` is stated.
- The post form's image-preview effect (`PostForm.jsx:22-30`), which only chooses an image to display.
- Form registration, `required` validation, `watch` subscription mechanics, JSX rendering, styling, the router, and parsing of the post content.
  The image input is registered as `required: !post` (`PostForm.jsx:124`), so the rendered form does not submit a new post without an image. `PostForm.SubmitCreatesWithoutImage` and `PostForm.CreateFromTitle` describe `submit` called directly.
- Console logging.
- PostSlice.PostState.RemovePost: payloads other than a string, `null` or `undefined` (numbers, objects) are not modelled. The application's ids are strings.
- Unicode case mapping beyond the three cases described above.
- `PostForm.FormFields.ChangeTitle` and `PostForm.FormFields.InputSlug` do not model the `shouldValidate` re-validation the handlers request.
