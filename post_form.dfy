/** The post form: the fields it edits, how editing the title or the slug
    rewrites the slug, and the sequence of backend calls a submission makes. */
module PostForm {
  import opened Backend
  import opened Slug

  // ---------------------------------------------------------------------
  // Submission

  /** The upload resolved to a file record with a truthy `$id`. */
  predicate Uploaded(upload: Reply<Option<FileRecord>>)
  {
    upload.Returned? && upload.value.Some? && Present(upload.value.value.id)
  }

  /** `file?.$id` once the upload guard has been passed: the new file's id,
      or nothing when no file was chosen. */
  function FileId(data: FormValues, upload: Reply<Option<FileRecord>>): (id: Option<string>)
    ensures Present(id) <==> data.image != [] && Uploaded(upload)
  {
    if data.image != [] && Uploaded(upload) then upload.value.value.id else None
  }

  /** `file?.$id || post?.featuredImage || null`. */
  function ImageId(fileId: Option<string>, post: Option<Doc>): (id: Option<string>)
    ensures id.Some? ==> Present(id)
    ensures Present(fileId) ==> id == fileId
    ensures !Present(fileId) && post.Some? && Present(post.value.featuredImage) ==> id == post.value.featuredImage
    ensures id.None? <==> !Present(fileId) && !(post.Some? && Present(post.value.featuredImage))
  {
    if Present(fileId) then fileId
    else if post.Some? && Present(post.value.featuredImage) then post.value.featuredImage
    else None
  }

  /** Navigation to the written document, taken only when the write
      resolved to a truthy document. */
  function NavigateOn(write: Reply<Option<Doc>>): (calls: seq<Call>)
    ensures |calls| <= 1
    ensures calls != [] <==> write.Returned? && write.value.Some?
    ensures calls != [] ==> calls[0] == Navigate("/post/" + write.value.value.id)
  {
    if write.Returned? && write.value.Some? then [Navigate("/post/" + write.value.value.id)] else []
  }

  /** The create-or-update step and what follows it. Creating with no
      signed-in user fails on `userData.$id` before any call is made. */
  function WriteCalls(data: FormValues, post: Option<Doc>, userData: Option<User>,
                      imageId: Option<string>, write: Reply<Option<Doc>>): seq<Call>
  {
    match post
    case Some(p) => [UpdateDocument(p.id, data, imageId)] + NavigateOn(write)
    case None =>
      if userData.None? then []
      else [CreatePostCall(data, imageId, userData.value.id)] + NavigateOn(write)
  }

  /** The write step uploads and deletes nothing, writes the post it is
      given, and navigates last, to the document it wrote. */
  lemma WriteCallsShape(data: FormValues, post: Option<Doc>, userData: Option<User>,
                        imageId: Option<string>, write: Reply<Option<Doc>>)
    ensures var calls := WriteCalls(data, post, userData, imageId, write);
      forall i :: 0 <= i < |calls| ==> !calls[i].UploadFile? && !calls[i].DeleteFile?
    ensures var calls := WriteCalls(data, post, userData, imageId, write);
      forall i :: 0 <= i < |calls| && calls[i].UpdateDocument? ==>
              post.Some? && calls[i] == UpdateDocument(post.value.id, data, imageId)
    ensures var calls := WriteCalls(data, post, userData, imageId, write);
      forall i :: 0 <= i < |calls| && calls[i].CreateDocument? ==>
              post.None? && userData.Some? && calls[i] == CreatePostCall(data, imageId, userData.value.id)
    ensures var calls := WriteCalls(data, post, userData, imageId, write);
      forall i :: 0 <= i < |calls| && calls[i].Navigate? ==>
              i == |calls| - 1 && write.Returned? && write.value.Some?
              && calls[i].path == "/post/" + write.value.value.id
  {
  }

  /** The edited post has a truthy `featuredImage`. */
  predicate HasOldImage(post: Option<Doc>)
  {
    post.Some? && Present(post.value.featuredImage)
  }

  /** The calls `submit` makes, given what each awaited call yields. A call
      that throws ends the submission (the error is caught and logged). */
  function SubmitCalls(data: FormValues, post: Option<Doc>, userData: Option<User>,
                       upload: Reply<Option<FileRecord>>, deleteOld: Reply<bool>,
                       write: Reply<Option<Doc>>): seq<Call>
  {
    if data.image == [] then
      WriteCalls(data, post, userData, ImageId(FileId(data, upload), post), write)
    else if !Uploaded(upload) then
      [UploadFile(data.image[0])]
    else if HasOldImage(post) then
      [UploadFile(data.image[0]), DeleteFile(post.value.featuredImage.value)]
        + (if deleteOld.Threw? then [] else WriteCalls(data, post, userData, ImageId(FileId(data, upload), post), write))
    else
      [UploadFile(data.image[0])] + WriteCalls(data, post, userData, ImageId(FileId(data, upload), post), write)
  }

  /** A chosen file is uploaded before anything else, and a failed upload
      (a throw, no record, or a record without an id) ends the submission. */
  lemma SubmitUploadsFirst(data: FormValues, post: Option<Doc>, userData: Option<User>,
      upload: Reply<Option<FileRecord>>, deleteOld: Reply<bool>, write: Reply<Option<Doc>>)
    ensures var calls := SubmitCalls(data, post, userData, upload, deleteOld, write);
      data.image != [] ==> calls != [] && calls[0] == UploadFile(data.image[0])
    ensures var calls := SubmitCalls(data, post, userData, upload, deleteOld, write);
      data.image != [] && !Uploaded(upload) ==> calls == [UploadFile(data.image[0])]
  {
  }

  /** The old image is deleted only as the second call, after a successful
      upload, for an edited post that had one, and with that post's file id;
      in that situation it always is. */
  lemma SubmitDeletesOldImage(data: FormValues, post: Option<Doc>, userData: Option<User>,
      upload: Reply<Option<FileRecord>>, deleteOld: Reply<bool>, write: Reply<Option<Doc>>)
    ensures var calls := SubmitCalls(data, post, userData, upload, deleteOld, write);
      forall i :: 0 <= i < |calls| && calls[i].DeleteFile? ==>
        i == 1 && data.image != [] && Uploaded(upload) && HasOldImage(post)
        && calls[i].fileId == post.value.featuredImage.value
    ensures var calls := SubmitCalls(data, post, userData, upload, deleteOld, write);
      data.image != [] && Uploaded(upload) && HasOldImage(post) ==>
        |calls| >= 2 && calls[1] == DeleteFile(post.value.featuredImage.value)
  {
    WriteCallsShape(data, post, userData, ImageId(FileId(data, upload), post), write);
  }

  /** Editing updates the edited post; creating stores the form values
      under the slug with the current user as author. Either way the image
      id written is the one `ImageId` chooses. */
  lemma SubmitWritesPost(data: FormValues, post: Option<Doc>, userData: Option<User>,
      upload: Reply<Option<FileRecord>>, deleteOld: Reply<bool>, write: Reply<Option<Doc>>)
    ensures var calls := SubmitCalls(data, post, userData, upload, deleteOld, write);
      forall i :: 0 <= i < |calls| && calls[i].UpdateDocument? ==>
        post.Some? && calls[i] == UpdateDocument(post.value.id, data, ImageId(FileId(data, upload), post))
    ensures var calls := SubmitCalls(data, post, userData, upload, deleteOld, write);
      forall i :: 0 <= i < |calls| && calls[i].CreateDocument? ==>
        post.None? && userData.Some?
        && calls[i] == CreatePostCall(data, ImageId(FileId(data, upload), post), userData.value.id)
  {
    WriteCallsShape(data, post, userData, ImageId(FileId(data, upload), post), write);
  }

  /** Navigation is the last call and goes to the document the write returned. */
  lemma SubmitNavigatesLast(data: FormValues, post: Option<Doc>, userData: Option<User>,
      upload: Reply<Option<FileRecord>>, deleteOld: Reply<bool>, write: Reply<Option<Doc>>)
    ensures var calls := SubmitCalls(data, post, userData, upload, deleteOld, write);
      forall i :: 0 <= i < |calls| && calls[i].Navigate? ==>
        i == |calls| - 1 && write.Returned? && write.value.Some?
        && calls[i].path == "/post/" + write.value.value.id
  {
    WriteCallsShape(data, post, userData, ImageId(FileId(data, upload), post), write);
  }

  /** `submit`: step by step, recording each call as it is made. */
  method Submit(data: FormValues, post: Option<Doc>, userData: Option<User>,
                upload: Reply<Option<FileRecord>>, deleteOld: Reply<bool>,
                write: Reply<Option<Doc>>) returns (calls: seq<Call>)
    ensures calls == SubmitCalls(data, post, userData, upload, deleteOld, write)
  {
    calls := [];
    var file: Option<FileRecord> := None;
    if data.image != [] {
      calls := calls + [UploadFile(data.image[0])];
      if upload.Threw? {
        return;
      }
      file := upload.value;
      if file.None? || !Present(file.value.id) {
        return;
      }
      if post.Some? && Present(post.value.featuredImage) {
        calls := calls + [DeleteFile(post.value.featuredImage.value)];
        if deleteOld.Threw? {
          return;
        }
      }
    }
    var fileId := if file.Some? then file.value.id else None;
    var featuredImageId := ImageId(fileId, post);
    ghost var before := calls;
    assert fileId == FileId(data, upload);
    assert SubmitCalls(data, post, userData, upload, deleteOld, write)
        == before + WriteCalls(data, post, userData, featuredImageId, write);
    if post.Some? {
      calls := calls + [UpdateDocument(post.value.id, data, featuredImageId)];
    } else {
      if userData.None? {
        return;
      }
      calls := calls + [CreatePostCall(data, featuredImageId, userData.value.id)];
    }
    if write.Threw? {
      return;
    }
    if write.value.Some? {
      calls := calls + [Navigate("/post/" + write.value.value.id)];
    }
  }

  /** The old image is removed before the post is updated, never after. */
  lemma DeleteBeforeUpdate(data: FormValues, post: Option<Doc>, userData: Option<User>,
                           upload: Reply<Option<FileRecord>>, deleteOld: Reply<bool>,
                           write: Reply<Option<Doc>>, i: nat, j: nat)
    requires var calls := SubmitCalls(data, post, userData, upload, deleteOld, write);
      i < |calls| && j < |calls| && calls[i].DeleteFile? && calls[j].UpdateDocument?
    ensures i < j
  {
    SubmitUploadsFirst(data, post, userData, upload, deleteOld, write);
    SubmitDeletesOldImage(data, post, userData, upload, deleteOld, write);
  }

  /** Nothing is ever both created and updated. */
  lemma CreateOrUpdate(data: FormValues, post: Option<Doc>, userData: Option<User>,
                       upload: Reply<Option<FileRecord>>, deleteOld: Reply<bool>,
                       write: Reply<Option<Doc>>, i: nat, j: nat)
    requires var calls := SubmitCalls(data, post, userData, upload, deleteOld, write);
      i < |calls| && j < |calls| && calls[i].CreateDocument?
    ensures !SubmitCalls(data, post, userData, upload, deleteOld, write)[j].UpdateDocument?
  {
    SubmitWritesPost(data, post, userData, upload, deleteOld, write);
  }

  /** The submission reaches the document page exactly when every awaited
      step succeeded and the write resolved to a truthy document. */
  lemma SubmitNavigatesIff(data: FormValues, post: Option<Doc>, userData: Option<User>,
                           upload: Reply<Option<FileRecord>>, deleteOld: Reply<bool>,
                           write: Reply<Option<Doc>>)
    ensures var calls := SubmitCalls(data, post, userData, upload, deleteOld, write);
      (calls != [] && calls[|calls| - 1].Navigate?)
      <==>
      (data.image == [] || Uploaded(upload))
      && (data.image == [] || !HasOldImage(post) || deleteOld.Returned?)
      && (post.Some? || userData.Some?)
      && write.Returned? && write.value.Some?
  {
  }

  /** Editing a post with an image and choosing a new one: upload, delete
      the old file, update with the new id, then open the post. */
  lemma SubmitReplacesImage(data: FormValues, p: Doc, userData: Option<User>,
                            newId: string, d: Doc)
    requires data.image != [] && newId != "" && Present(p.featuredImage)
    ensures SubmitCalls(data, Some(p), userData, Returned(Some(FileRecord(Some(newId)))),
                        Returned(true), Returned(Some(d)))
         == [UploadFile(data.image[0]), DeleteFile(p.featuredImage.value),
             UpdateDocument(p.id, data, Some(newId)), Navigate("/post/" + d.id)]
  {
  }

  /** Creating without choosing an image stores no image id, keys the
      document by the slug and records the author. */
  lemma SubmitCreatesWithoutImage(data: FormValues, user: User, write: Reply<Option<Doc>>,
                                  upload: Reply<Option<FileRecord>>, deleteOld: Reply<bool>)
    requires data.image == []
    ensures var calls := SubmitCalls(data, None, Some(user), upload, deleteOld, write);
      calls != [] && calls[0] == CreateDocument(data.slug,
        StoredFields(data.title, data.content, None, data.status, user.id))
  {
  }

  // ---------------------------------------------------------------------
  // The form's fields

  /** The values react-hook-form holds for the title, slug, content and
      status inputs. */
  class FormFields {
    var title: string
    var slug: string
    var content: string
    var status: string

    /** The default values: taken from the post being edited, with
        `"active"` as the status of a new post (or of one whose status is empty). */
    constructor (post: Option<Doc>)
      ensures post.None? ==> title == "" && slug == "" && content == "" && status == "active"
      ensures post.Some? ==> title == post.value.title && slug == post.value.id
                             && content == post.value.content
      ensures post.Some? ==> status == if post.value.status != "" then post.value.status else "active"
    {
      match post
      case None =>
        title, slug, content, status := "", "", "", "active";
      case Some(p) =>
        title, slug, content := p.title, p.id, p.content;
        status := if p.status != "" then p.status else "active";
    }

    /** Typing in the title: the watcher rewrites the slug from the new title. */
    method ChangeTitle(t: string)
      modifies this
      ensures title == t && slug == SlugTransform(Some(t))
      ensures content == old(content) && status == old(status)
      ensures AllSlugChars(slug) && NoDoubleHyphen(slug)
    {
      title := t;
      slug := SlugTransform(Some(t));
      SlugAlphabet(Some(t));
      SlugNoDoubleHyphen(Some(t));
    }

    /** Typing in the slug field: the raw input is passed through the
        transform again. */
    method InputSlug(raw: string)
      modifies this
      ensures slug == SlugTransform(Some(raw))
      ensures title == old(title) && content == old(content) && status == old(status)
      ensures AllSlugChars(slug) && NoDoubleHyphen(slug)
    {
      slug := SlugTransform(Some(raw));
      SlugAlphabet(Some(raw));
      SlugNoDoubleHyphen(Some(raw));
    }
  }

  // ---------------------------------------------------------------------
  // Filling in and submitting the form

  /** A new post: typing the title fills in the slug, and submitting
      without an image creates the document under that slug with no image
      id, the default status and the current user as author. */
  method CreateFromTitle(t: string, user: User, write: Reply<Option<Doc>>) returns (calls: seq<Call>)
    requires t == "Hello, World! 2024"
    ensures calls != []
    ensures calls[0] == CreateDocument("hello-world-2024", StoredFields(t, "", None, "active", user.id))
  {
    var form := new FormFields(None);
    form.ChangeTitle(t);
    SlugExampleTitle(t);
    var data := FormValues(form.title, form.slug, form.content, form.status, []);
    calls := Submit(data, None, Some(user), Threw, Threw, write);
    SubmitCreatesWithoutImage(data, user, write, Threw, Threw);
  }
}
