/** The three storage handlers of the file locker (upload, download,
    delete), taken apart from HTTP. The `uploads/<user>/<name>` directory
    tree is an immutable map from (user, file name) to file contents; each
    handler is a pure function from the store and its request to a response
    and the next store.

    Library I/O becomes input: the session (`isLoggedIn`, `getUsername`),
    the outcome of multipart parsing, and whether `os.Create`, `io.Copy` and
    `os.Remove` succeed. */
module Locker {
  import opened Wrappers
  import ContentType

  newtype byte = x: int | 0 <= x < 256

  type User = string
  type FileName = string

  /** Where a file lives: `uploads/<user>/<name>`. */
  datatype Key = Key(user: User, name: FileName)

  type Store = map<Key, seq<byte>>

  /** The upload size ceiling, `10 << 20` bytes (10 MiB). */
  const MaxSize: int := 10 * 0x10_0000

  /** A file part of a multipart form. Go's multipart reader sets the
      part's `Size` to the number of bytes it read, so the size the handler
      checks is the length of the content. */
  datatype FilePart = FilePart(filename: FileName, content: seq<byte>)
  {
    function Size(): (n: nat)
    {
      |content|
    }
  }

  /** What `ParseMultipartForm` followed by `FormFile("file")` yields. */
  datatype Form =
    | Unparsable                      // ParseMultipartForm failed
    | Parsed(file: Option<FilePart>)  // None: no usable "file" field

  /** How `io.Copy` into the freshly created file ends. On failure the bytes
      written so far stay in the file. */
  datatype CopyOutcome = Copied | CopyFailed(written: nat)

  const LoginPage: string := "/login"
  const HomePage: string := "/"

  const MsgAuthRequired: string := "Authentication required"
  const MsgParseForm: string := "Unable to parse form"
  const MsgNoFile: string := "Error retrieving the file"
  const MsgTooLarge: string := "File size exceeds the limit"
  const MsgCreate: string := "Error creating destination file"
  const MsgCopy: string := "Error copying file"
  const MsgDelete: string := "Error deleting file"

  /** What the handler writes back. */
  datatype Response =
    | Redirect(location: string)                    // 303 See Other
    | Unauthorized(message: string)                 // 401
    | BadRequest(message: string)                   // 400
    | NotFound                                      // 404
    | InternalError(message: string)                // 500
    | Serve(contentType: string, body: seq<byte>)   // 200, file served

  /** The HTTP status code of a response. */
  function Status(r: Response): (code: int)
    ensures code >= 400 <==> !(r.Redirect? || r.Serve?)
    ensures r.Redirect? <==> code == 303        // http.StatusSeeOther
    ensures r.Unauthorized? <==> code == 401
    ensures r.BadRequest? <==> code == 400
    ensures r.NotFound? <==> code == 404
    ensures r.InternalError? <==> code == 500
    ensures r.Serve? <==> code == 200
  {
    match r
    case Redirect(_) => 303
    case Unauthorized(_) => 401
    case BadRequest(_) => 400
    case NotFound => 404
    case InternalError(_) => 500
    case Serve(_, _) => 200
  }

  /** A handler's response together with the store it leaves behind. */
  datatype Outcome = Outcome(response: Response, store: Store)

  /** `a` and `b` hold the same entries at every key other than `k`. */
  ghost predicate SameExcept(a: Store, b: Store, k: Key)
  {
    forall k' :: k' != k ==> (k' in a <==> k' in b) && (k' in a ==> a[k'] == b[k'])
  }

  /** `a` and `b` hold the same files for `user`. */
  ghost predicate SameNamespace(a: Store, b: Store, user: User)
  {
    forall k: Key :: k.user == user ==> (k in a <==> k in b) && (k in a ==> a[k] == b[k])
  }

  /** Every check of the upload handler passes. */
  predicate UploadAccepted(session: Option<User>, form: Form, createOk: bool, copy: CopyOutcome)
  {
    && session.Some?
    && form.Parsed?
    && form.file.Some?
    && form.file.value.Size() <= MaxSize
    && createOk
    && copy.Copied?
  }

  /** The content a copy leaves in the destination file. */
  function Written(content: seq<byte>, copy: CopyOutcome): (w: seq<byte>)
    ensures w <= content
    ensures copy.Copied? ==> w == content
    ensures copy.CopyFailed? ==>
              |w| == if copy.written < |content| then copy.written else |content|
  {
    match copy
    case Copied => content
    case CopyFailed(n) => if n < |content| then content[..n] else content
  }

  /** `uploadFileHandler`: authentication, then form parsing, then the
      "file" field, then the size ceiling, then creating (truncating) the
      destination, then copying into it. Only two paths touch the store:
      success, which stores the whole content, and a failed copy, which
      leaves what was written before the failure. */
  function Upload(store: Store, session: Option<User>, form: Form,
                  createOk: bool, copy: CopyOutcome): (out: Outcome)
    ensures out.response.Redirect? <==> UploadAccepted(session, form, createOk, copy)
    ensures out.response.Redirect? ==>
              && out.response.location == HomePage
              && out.store == store[Key(session.value, form.file.value.filename) := form.file.value.content]
    ensures out.store != store ==>
              out.response.Redirect? || out.response == InternalError(MsgCopy)
    ensures session.Some? && form.Parsed? && form.file.Some? ==>
              SameExcept(store, out.store, Key(session.value, form.file.value.filename))
  {
    if session.None? then Outcome(Unauthorized(MsgAuthRequired), store)
    else if form.Unparsable? then Outcome(BadRequest(MsgParseForm), store)
    else if form.file.None? then Outcome(BadRequest(MsgNoFile), store)
    else
      var part := form.file.value;
      if part.Size() > MaxSize then Outcome(BadRequest(MsgTooLarge), store)
      else if !createOk then Outcome(InternalError(MsgCreate), store)
      else
        var key := Key(session.value, part.filename);
        var stored := store[key := Written(part.content, copy)];
        if copy.CopyFailed? then Outcome(InternalError(MsgCopy), stored)
        else Outcome(Redirect(HomePage), stored)
  }

  /** `downloadHandler`: a visitor without a session is sent to the login
      page; a missing file is a 404; otherwise the stored bytes are served
      with the Content-Type derived from the requested name. The store is
      never changed. */
  function Download(store: Store, session: Option<User>, filename: FileName): (out: Outcome)
    ensures out.store == store
    ensures out.response.Redirect? <==> session.None?
    ensures session.None? ==> out.response == Redirect(LoginPage)
    ensures out.response.Serve? <==> session.Some? && Key(session.value, filename) in store
    ensures session.Some? && Key(session.value, filename) !in store ==> out.response == NotFound
    ensures out.response.Serve? ==>
              && out.response.body == store[Key(session.value, filename)]
              && out.response.contentType == ContentType.ContentTypeOf(filename)
    ensures out.response.Redirect? || out.response.Serve? || out.response.NotFound?
  {
    match session
    case None => Outcome(Redirect(LoginPage), store)
    case Some(user) =>
      var key := Key(user, filename);
      if key !in store then Outcome(NotFound, store)
      else Outcome(Serve(ContentType.ContentTypeOf(filename), store[key]), store)
  }

  /** `deleteHandler`: authentication, then an existence check, then the
      removal. Only a successful removal changes the store, and then by
      exactly the one key. */
  function Delete(store: Store, session: Option<User>, filename: FileName,
                  removeOk: bool): (out: Outcome)
    ensures session.None? ==> out.response == Unauthorized(MsgAuthRequired)
    ensures session.Some? && Key(session.value, filename) !in store ==> out.response == NotFound
    ensures session.Some? && Key(session.value, filename) in store && !removeOk ==>
              out.response == InternalError(MsgDelete)
    ensures out.response.Redirect? <==>
              session.Some? && Key(session.value, filename) in store && removeOk
    ensures out.response.Redirect? ==>
              && out.response.location == HomePage
              && out.store == store - {Key(session.value, filename)}
              && |out.store| == |store| - 1
    ensures !out.response.Redirect? ==> out.store == store
  {
    match session
    case None => Outcome(Unauthorized(MsgAuthRequired), store)
    case Some(user) =>
      var key := Key(user, filename);
      if key !in store then Outcome(NotFound, store)
      else if !removeOk then Outcome(InternalError(MsgDelete), store)
      else Outcome(Redirect(HomePage), store - {key})
  }

  /** The files of one user, by name: what `uploads/<user>` holds. */
  function Namespace(store: Store, user: User): (ns: map<FileName, seq<byte>>)
    ensures forall name :: name in ns <==> Key(user, name) in store
    ensures forall name :: name in ns ==> ns[name] == store[Key(user, name)]
  {
    map k | k in store && k.user == user :: k.name := store[k]
  }

  /** Two stores hold the same files for a user exactly when that user's
      namespaces are equal. */
  lemma SameNamespaceIffEqual(a: Store, b: Store, user: User)
    ensures SameNamespace(a, b, user) <==> Namespace(a, user) == Namespace(b, user)
  {
    if Namespace(a, user) == Namespace(b, user) {
      forall k: Key | k.user == user
        ensures (k in a <==> k in b) && (k in a ==> a[k] == b[k])
      {
        assert k == Key(user, k.name);
      }
    }
  }
}
