/** Properties of the file locker's handlers, alone and in sequence. */
module LockerProperties {
  import opened Wrappers
  import opened Locker
  import ContentType

  /** One request to the locker, with everything the handler reads from
      its environment. */
  datatype Request =
    | UploadRequest(session: Option<User>, form: Form, createOk: bool, copy: CopyOutcome)
    | DownloadRequest(session: Option<User>, filename: FileName)
    | DeleteRequest(session: Option<User>, filename: FileName, removeOk: bool)

  /** Dispatch a request to its handler. */
  function Handle(store: Store, req: Request): (out: Outcome)
    ensures req.session.None? ==> out.store == store
    ensures req.DownloadRequest? ==> out.store == store
  {
    match req
    case UploadRequest(s, f, c, cp) => Upload(store, s, f, c, cp)
    case DownloadRequest(s, n) => Download(store, s, n)
    case DeleteRequest(s, n, ok) => Delete(store, s, n, ok)
  }

  /** The store after serving `reqs` in order. */
  function Run(store: Store, reqs: seq<Request>): (s: Store)
    decreases |reqs|
  {
    if reqs == [] then store else Run(Handle(store, reqs[0]).store, reqs[1..])
  }

  // ---------------------------------------------------------------- upload

  /** The upload handler's checks run in a fixed order and the first one
      that fails decides the response: authentication, form parsing, the
      "file" field, the size ceiling, creating the file, copying into it. */
  lemma UploadCheckOrder(store: Store, session: Option<User>, form: Form,
                         createOk: bool, copy: CopyOutcome)
    ensures var r := Upload(store, session, form, createOk, copy).response;
      && (r == Unauthorized(MsgAuthRequired) <==> session.None?)
      && (r == BadRequest(MsgParseForm) <==> session.Some? && form.Unparsable?)
      && (r == BadRequest(MsgNoFile) <==>
            session.Some? && form.Parsed? && form.file.None?)
      && (r == BadRequest(MsgTooLarge) <==>
            session.Some? && form.Parsed? && form.file.Some? && form.file.value.Size() > MaxSize)
      && (r == InternalError(MsgCreate) <==>
            session.Some? && form.Parsed? && form.file.Some? && form.file.value.Size() <= MaxSize
            && !createOk)
      && (r == InternalError(MsgCopy) <==>
            session.Some? && form.Parsed? && form.file.Some? && form.file.value.Size() <= MaxSize
            && createOk && copy.CopyFailed?)
  {
  }

  /** Without a session the upload is refused before anything else is
      looked at, whatever the form and the disk would have done. */
  lemma UploadNeedsSession(store: Store, form: Form, createOk: bool, copy: CopyOutcome)
    ensures Upload(store, None, form, createOk, copy) == Outcome(Unauthorized(MsgAuthRequired), store)
  {
  }

  /** A file larger than the ceiling is refused with 400 and nothing is
      written. */
  lemma OversizeUploadRejected(store: Store, user: User, part: FilePart,
                               createOk: bool, copy: CopyOutcome)
    requires part.Size() > MaxSize
    ensures Upload(store, Some(user), Parsed(Some(part)), createOk, copy)
            == Outcome(BadRequest(MsgTooLarge), store)
  {
  }

  /** The ceiling is inclusive: a file of exactly 10 MiB (10485760 bytes)
      passes the size check. */
  lemma UploadAtCeilingAccepted(store: Store, user: User, part: FilePart)
    requires part.Size() == 10485760
    ensures Upload(store, Some(user), Parsed(Some(part)), true, Copied).response == Redirect(HomePage)
  {
  }

  /** A refused upload leaves the store as it was, unless the refusal came
      from the copy: the destination was already created (truncated), so
      it keeps the bytes written before the failure and nothing else
      changes. */
  lemma FailedUploadFootprint(store: Store, session: Option<User>, form: Form,
                              createOk: bool, copy: CopyOutcome)
    requires !UploadAccepted(session, form, createOk, copy)
    ensures var out := Upload(store, session, form, createOk, copy);
      out.response != InternalError(MsgCopy) ==> out.store == store
    ensures var out := Upload(store, session, form, createOk, copy);
      out.response == InternalError(MsgCopy) ==>
        var key := Key(session.value, form.file.value.filename);
        && key in out.store
        && out.store[key] == Written(form.file.value.content, copy)
        && out.store[key] <= form.file.value.content
        && SameExcept(store, out.store, key)
  {
  }

  /** A successful upload stores the whole content under the user's name
      for it, replacing any earlier file of that name; every other entry,
      of this user or any other, is untouched. */
  lemma UploadOverwrites(store: Store, user: User, part: FilePart)
    requires part.Size() <= MaxSize
    ensures var out := Upload(store, Some(user), Parsed(Some(part)), true, Copied).store;
      && out[Key(user, part.filename)] == part.content
      && out.Keys == store.Keys + {Key(user, part.filename)}
      && forall k :: k in store && k != Key(user, part.filename) ==> out[k] == store[k]
  {
  }

  /** Uploading the same name twice leaves only the second content, and
      only one entry under that name. */
  lemma SecondUploadWins(store: Store, user: User, first: FilePart, second: FilePart)
    requires first.filename == second.filename
    requires first.Size() <= MaxSize && second.Size() <= MaxSize
    ensures var s1 := Upload(store, Some(user), Parsed(Some(first)), true, Copied).store;
      var s2 := Upload(s1, Some(user), Parsed(Some(second)), true, Copied).store;
      && s2 == store[Key(user, second.filename) := second.content]
      && Namespace(s2, user).Keys == Namespace(store, user).Keys + {second.filename}
  {
    var s1 := Upload(store, Some(user), Parsed(Some(first)), true, Copied).store;
    var s2 := Upload(s1, Some(user), Parsed(Some(second)), true, Copied).store;
    assert s2 == store[Key(user, second.filename) := second.content];
    assert Namespace(s2, user).Keys == Namespace(store, user).Keys + {second.filename} by {
      forall name
        ensures name in Namespace(s2, user) <==> name in Namespace(store, user) || name == second.filename
      {
        assert name in Namespace(s2, user) <==> Key(user, name) in s2;
      }
    }
  }

  // -------------------------------------------------------------- download

  /** Without a session a download is redirected to the login page. */
  lemma DownloadNeedsSession(store: Store, filename: FileName)
    ensures Download(store, None, filename) == Outcome(Redirect(LoginPage), store)
  {
  }

  /** A download of a name the user has no file under is a 404. */
  lemma DownloadMissing(store: Store, user: User, filename: FileName)
    requires Key(user, filename) !in store
    ensures Download(store, Some(user), filename).response == NotFound
  {
  }

  /** Round trip: after a successful upload, downloading the same name as
      the same user serves exactly the uploaded bytes, with the type the
      name's extension calls for. */
  lemma UploadThenDownload(store: Store, user: User, part: FilePart)
    requires part.Size() <= MaxSize
    ensures var s1 := Upload(store, Some(user), Parsed(Some(part)), true, Copied).store;
      Download(s1, Some(user), part.filename).response
        == Serve(ContentType.ContentTypeOf(part.filename), part.content)
  {
  }

  /** A download by a user sees only that user's namespace: two stores
      that agree on it serve that user identically. */
  lemma DownloadSeesOwnNamespaceOnly(s1: Store, s2: Store, user: User, filename: FileName)
    requires SameNamespace(s1, s2, user)
    ensures Download(s1, Some(user), filename).response == Download(s2, Some(user), filename).response
  {
    assert Key(user, filename).user == user;
  }

  // ---------------------------------------------------------------- delete

  /** Without a session a delete is refused and nothing is removed. */
  lemma DeleteNeedsSession(store: Store, filename: FileName, removeOk: bool)
    ensures Delete(store, None, filename, removeOk) == Outcome(Unauthorized(MsgAuthRequired), store)
  {
  }

  /** Deleting a name the user has no file under is a 404 and removes
      nothing, whether or not the removal would have worked. */
  lemma DeleteMissing(store: Store, user: User, filename: FileName, removeOk: bool)
    requires Key(user, filename) !in store
    ensures Delete(store, Some(user), filename, removeOk) == Outcome(NotFound, store)
  {
  }

  /** After a successful delete the file can no longer be downloaded, and
      the user's other files are still there. */
  lemma DeleteThenDownload(store: Store, user: User, filename: FileName)
    requires Key(user, filename) in store
    ensures var s1 := Delete(store, Some(user), filename, true).store;
      && Download(s1, Some(user), filename).response == NotFound
      && Namespace(s1, user).Keys == Namespace(store, user).Keys - {filename}
  {
    var s1 := Delete(store, Some(user), filename, true).store;
    forall name
      ensures name in Namespace(s1, user) <==> name in Namespace(store, user) && name != filename
    {
      assert name in Namespace(s1, user) <==> Key(user, name) in s1;
    }
  }

  // ------------------------------------------------------------- isolation

  /** A request presenting one user's session (or none) never changes
      another user's files. This holds of the keyed store; on disk it holds
      only while every user name is a single path element other than `.`
      and `..` that no other user name cleans to, since the handlers join
      the name into the path unchecked. */
  lemma HandleIsolation(store: Store, req: Request, other: User)
    requires req.session != Some(other)
    ensures SameNamespace(Handle(store, req).store, store, other)
  {
  }

  /** Isolation of the keyed store over any sequence of requests: as long
      as none of them presents `other`'s session, `other`'s files are
      exactly what they were. Like `HandleIsolation`, this carries over to
      the disk only for user names that are single, distinct path
      elements. */
  lemma {:induction false} RunIsolation(store: Store, reqs: seq<Request>, other: User)
    requires forall i :: 0 <= i < |reqs| ==> reqs[i].session != Some(other)
    ensures SameNamespace(Run(store, reqs), store, other)
    decreases |reqs|
  {
    if reqs != [] {
      HandleIsolation(store, reqs[0], other);
      RunIsolation(Handle(store, reqs[0]).store, reqs[1..], other);
    }
  }

  /** The same, stated on the namespace itself: what `uploads/<other>`
      lists is unchanged. */
  lemma RunKeepsOtherNamespace(store: Store, reqs: seq<Request>, other: User)
    requires forall i :: 0 <= i < |reqs| ==> reqs[i].session != Some(other)
    ensures Namespace(Run(store, reqs), other) == Namespace(store, other)
  {
    RunIsolation(store, reqs, other);
    SameNamespaceIffEqual(Run(store, reqs), store, other);
  }

  /** Downloads alone never change the store. */
  lemma {:induction false} DownloadsAreReadOnly(store: Store, reqs: seq<Request>)
    requires forall i :: 0 <= i < |reqs| ==> reqs[i].DownloadRequest?
    ensures Run(store, reqs) == store
    decreases |reqs|
  {
    if reqs != [] {
      DownloadsAreReadOnly(store, reqs[1..]);
    }
  }

  /** The round trip survives any traffic from other users (or from
      visitors without a session) between the upload and the download. */
  lemma UploadThenOthersThenDownload(store: Store, user: User, part: FilePart,
                                     between: seq<Request>)
    requires part.Size() <= MaxSize
    requires forall i :: 0 <= i < |between| ==> between[i].session != Some(user)
    ensures var s1 := Upload(store, Some(user), Parsed(Some(part)), true, Copied).store;
      Download(Run(s1, between), Some(user), part.filename).response
        == Serve(ContentType.ContentTypeOf(part.filename), part.content)
  {
    var s1 := Upload(store, Some(user), Parsed(Some(part)), true, Copied).store;
    RunIsolation(s1, between, user);
    DownloadSeesOwnNamespaceOnly(Run(s1, between), s1, user, part.filename);
  }
}
