/** The hosted backend as the core sees it: documents, files and the calls
    made on them. What the platform does with a call is outside the model;
    each awaited call is recorded in a trace and its outcome is an input. */
module Backend {

  datatype Option<+T> = None | Some(value: T)

  /** The outcome of an awaited backend call: it threw, or it resolved to a value. */
  datatype Reply<+T> = Threw | Returned(value: T)

  /** JavaScript truthiness of a string that may be missing: `null`,
      `undefined` and the empty string are all falsy. */
  predicate Present(s: Option<string>)
  {
    s.Some? && s.value != ""
  }

  /** The signed-in account; `id` is its `$id`. */
  datatype User = User(id: string)

  /** A post document as the database returns it; `id` is its `$id`, the
      slug it was created under. */
  datatype Doc = Doc(id: string, title: string, content: string,
                     featuredImage: Option<string>, status: string, userId: string)

  /** What `uploadFile` resolves to: a file record whose `$id` may be missing. */
  datatype FileRecord = FileRecord(id: Option<string>)

  /** The values the post form submits; `image` is the chosen file list
      (each file named by a string), empty when nothing was chosen. */
  datatype FormValues = FormValues(title: string, slug: string, content: string,
                                   status: string, image: seq<string>)

  /** The attributes `createPost` writes into a new document. */
  datatype StoredFields = StoredFields(title: string, content: string,
                                       featuredImage: Option<string>, status: string, userId: string)

  /** One observable effect of the core: a backend call or a navigation. */
  datatype Call =
    | UploadFile(file: string)
    | DeleteFile(fileId: string)
    | CreateDocument(key: string, fields: StoredFields)
    | UpdateDocument(docId: string, data: FormValues, featuredImage: Option<string>)
    | DeleteDocument(docId: string)
    | GetDocument(docId: string)
    | GetFilePreview(fileId: string)
    | Navigate(path: string)

  /** The request `createPost` sends for the form values spread together with
      `featuredImage` and `userId`: the document is keyed by the slug, and
      only title, content, featuredImage, status and userId are stored (the
      slug itself and the chosen file list are not). */
  function CreatePostCall(data: FormValues, featuredImage: Option<string>, userId: string): (c: Call)
    ensures c.CreateDocument? && c.key == data.slug
    ensures c.fields.userId == userId && c.fields.featuredImage == featuredImage
    ensures c.fields.title == data.title && c.fields.content == data.content
    ensures c.fields.status == data.status
  {
    CreateDocument(data.slug, StoredFields(data.title, data.content, featuredImage, data.status, userId))
  }

  /** `getFilePreviewURL`: no URL for a falsy id; otherwise the storage view
      URL, with a failure of the SDK turned into no URL. It never throws. */
  function PreviewUrl(fileId: Option<string>, view: Reply<string>): (url: Option<string>)
    ensures !Present(fileId) ==> url == None
    ensures url.Some? <==> Present(fileId) && view.Returned?
    ensures url.Some? ==> url.value == view.value
  {
    if !Present(fileId) then None
    else match view
      case Threw => None
      case Returned(u) => Some(u)
  }
}
