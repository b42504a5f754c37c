# File locker storage handlers — a Dafny model

This is a model of the storage core of a per-user file locker, written as a
small Go web service. Logged-in users upload files into `uploads/<user>/`,
and they download and delete files there. The model covers the decision
logic of three handlers in `main.go`: `uploadFileHandler`, `downloadHandler`
and `deleteHandler`. It also covers the upload ceiling `maxSize` and the
Content-Type table the download handler uses. HTTP is stripped away:

- The `uploads` tree is an immutable `map<Key, seq<byte>>`. A `Key` is the
  pair (user, file name).
- Each handler is a pure function from the store and its request to an
  `Outcome`: a `Response` plus the store it leaves behind.
- The session (`isLoggedIn` and `getUsername`) is an `Option<User>` parameter.
- Multipart parsing is a `Form` parameter. It is either unparsable or
  parsed, with an optional "file" part.
- Whether `os.Create`, `io.Copy` and `os.Remove` succeed is also a parameter.
  For `io.Copy`, the parameter also says how many bytes were written before
  a failure.

Modules:

- `Wrappers`: `Option`.
- `GoPath`: `filepath.Ext`, given by the characterising predicate `IsExtOf`
  and a recursive function proved to meet it.
- `GoStrings`: `strings.ToLower`, one rune at a time.
- `ContentType`: the extension table.
- `Locker`: the data model and the three handlers.
- `LockerProperties`: ordering, frame, round-trip and isolation lemmas,
  including lemmas over arbitrary sequences of requests.

Some behaviour follows the code rather than the usual expectation:

- **A failed copy is not side-effect free.** `os.Create` has already
  truncated (or created) the destination when `io.Copy` fails. The handler
  then answers 500 and removes nothing. So the store keeps the bytes written
  so far, and any earlier file of that name is lost. `Upload` and
  `FailedUploadFootprint` state this. Every other failure leaves the store
  unchanged.
- **No containment check.** The handler builds the path with
  `filepath.Join("uploads", username, filename)` and never checks that the
  result stays inside the user's directory. The model treats (user, name) as
  the key and claims no protection against path traversal.
- **No streaming cap.** The size check compares the part's size with
  `maxSize` using a strict `>`, so exactly 10485760 bytes is accepted. Go's
  multipart reader sets that size to the number of bytes it read, so the
  model uses the content's length.

## Model

| member | source | states |
|---|---|---|
| GoPath.Ext | main.go:110 | `filepath.Ext` returns the suffix starting at the last `.` of the final path element, or "" when that element has no `.`; the result is a suffix, starts with `.`, and contains no further `.` or `/` |
| GoPath.ExtUnique | main.go:110 | every suffix meeting the extension characterisation is the extension, so `IsExtOf` defines `Ext` uniquely |
| GoStrings.LowerChar | main.go:110 | an ASCII capital becomes its own lower-case letter, U+0130 becomes `i`, U+212A becomes `k`, every other ASCII rune is unchanged, and every other non-ASCII rune stays outside ASCII; no result is an ASCII capital, and `.` and `/` are neither created nor removed |
| GoStrings.LowerCharIdempotent | main.go:110 | lower-casing a rune twice is the same as once |
| GoStrings.ToLower | main.go:110 | `strings.ToLower` keeps the length, lower-cases each rune in place, and leaves no ASCII capital |
| GoStrings.ToLowerIdempotent | main.go:110 | `strings.ToLower` is idempotent |
| ContentType.TypeForExt | main.go:111-116 | a lower-cased extension listed in the five-entry table (`.png`, `.jpg`, `.jpeg`, `.gif` to `image/<ext>`, `.pdf` to `application/pdf`) gets its entry; any other extension gets `application/octet-stream` |
| ContentType.ContentTypeOf | main.go:110-116 | a name whose lower-cased extension is in the table is served with that extension's entry; every other name is served as `application/octet-stream` |
| ContentType.ExtOfLower | main.go:110 | taking the extension commutes with lower-casing |
| ContentType.ContentTypeIgnoresCase | main.go:110-113 | file names that lower-case alike get the same Content-Type |
| ContentType.ContentTypeOnlyFromExt | main.go:110-116 | the Content-Type depends only on the lower-cased extension |
| ContentType.UnknownExtIsOctetStream | main.go:111-116 | an empty extension, or one outside the table, gives `application/octet-stream` |
| ContentType.UpperCaseJpg | main.go:110-113 | `photo.JPG` is served as `image/jpg`, the same as `photo.jpg` |
| ContentType.JpegKeepsFourLetters | main.go:112-113 | `.jpeg` gives `image/jpeg`: only the dot is stripped |
| ContentType.MixedCasePdf | main.go:114-115 | `Report.Pdf` is served as `application/pdf` |
| ContentType.LastExtensionOnly | main.go:110-111 | only the last extension counts: `archive.tar.gz` is `application/octet-stream` |
| ContentType.BareDot | main.go:110-116 | a trailing `.` is an extension that is not in the table |
| Locker.Status | main.go:41-151 | every response's status code: 303 exactly for the redirects, 401 for Unauthorized, 400 for BadRequest, 404 for NotFound, 500 for InternalError, and 200 exactly for a served file; the code is 400 or above exactly for the error responses |
| Locker.Written | main.go:77-84 | after the copy, the destination holds a prefix of the upload: all of it when the copy succeeds, and exactly the bytes written (capped at the upload's length) when it fails |
| Locker.Upload | main.go:41-88 | the upload redirects home exactly when every check passes, and then stores the content at (user, filename); the store changes only on success or on a failed copy; nothing but that one key ever changes |
| Locker.Download | main.go:90-121 | the download never changes the store; it redirects (to `/login`) exactly when there is no session; it serves exactly when the user has the file, and then serves the stored bytes with the name's Content-Type; a logged-in request for a missing file gets 404 |
| Locker.Delete | main.go:123-151 | with no session, 401; a missing file, 404; a failed removal of an existing file, 500 "Error deleting file"; the delete succeeds exactly when the user has the file and the removal works, and then removes exactly that key; otherwise the store is unchanged |
| Locker.Namespace | main.go:71 | a user's namespace holds exactly the names stored under that user, with their contents |
| Locker.SameNamespaceIffEqual | main.go:71 | two stores agree on every file of a user exactly when that user's namespaces are equal |
| LockerProperties.UploadCheckOrder | main.go:41-84 | the first failing check decides the response, in this order: session, form parse, file field, size, create, copy |
| LockerProperties.UploadNeedsSession | main.go:43-46 | with no session the upload returns 401 and leaves the store unchanged, whatever the other inputs |
| LockerProperties.OversizeUploadRejected | main.go:63-67 | a file over the ceiling gets 400 and the store is unchanged |
| LockerProperties.UploadAtCeilingAccepted | main.go:64-67 | a file of exactly 10485760 bytes passes the size check |
| LockerProperties.FailedUploadFootprint | main.go:69-84 | a failed upload leaves the store unchanged, except after a failed copy, which leaves the written prefix at the target key and changes nothing else |
| LockerProperties.UploadOverwrites | main.go:70-87 | a successful upload replaces the content at (user, filename), adds that key, and leaves every other entry alone |
| LockerProperties.SecondUploadWins | main.go:71-80 | after two uploads of the same name, only the second content remains, with one entry for the name |
| LockerProperties.DownloadNeedsSession | main.go:92-95 | with no session the download redirects to `/login` |
| LockerProperties.DownloadMissing | main.go:102-107 | downloading a name the user has no file under gives 404 |
| LockerProperties.UploadThenDownload | main.go:103-120 | round trip: after a successful upload, a download by the same user returns the uploaded bytes with the name's Content-Type |
| LockerProperties.DownloadSeesOwnNamespaceOnly | main.go:102-104 | a user's download depends only on that user's files: stores that agree on them give the same response |
| LockerProperties.DeleteNeedsSession | main.go:125-128 | with no session the delete returns 401 and removes nothing |
| LockerProperties.DeleteMissing | main.go:135-140 | deleting an absent name gives 404 and leaves the store unchanged, whatever the removal would have done |
| LockerProperties.DeleteThenDownload | main.go:136-147 | after a delete, downloading the name gives 404, and the user's other names remain |
| LockerProperties.HandleIsolation | main.go:71 | in the keyed store, a request from one user, or from a visitor without a session, never changes another user's files (see Left out for user names that are not single path elements) |
| LockerProperties.RunIsolation | main.go:71 | in the keyed store, after any sequence of requests, none of which presents a given user's session, that user's files are unchanged |
| LockerProperties.RunKeepsOtherNamespace | main.go:71 | in the keyed store, after any sequence of requests, none of which presents a given user's session, that user's namespace map is the one it started with |
| LockerProperties.DownloadsAreReadOnly | main.go:90-121 | a sequence made only of downloads leaves the store unchanged |
| LockerProperties.UploadThenOthersThenDownload | main.go:103-120 | the upload/download round trip still holds after any number of requests from other users in between |

## Left out

- Routing and server start-up (`main`, lines 16-27) are left out. Dispatch is
  reduced to `LockerProperties.Handle`.
- `homeHandler` is left out. It depends on `listUserFiles` and
  `renderTemplate`, which are not defined in `main.go`. `Locker.Namespace`
  describes what a user's directory holds, but the listing order and the
  rendering are not modelled.
- `isLoggedIn`, `getUsername`, `loginHandler` and `logoutHandler` are not
  defined in `main.go`. The session is a parameter, and the model assumes
  that a logged-in session names the user.
- Multipart parsing (`ParseMultipartForm`, `FormFile`) and the byte copy
  (`io.Copy`) are library I/O. They become the `Form` and `CopyOutcome`
  inputs. The parser's own limits and temporary files are not modelled.
- `http.ServeFile` is left out beyond "serve the stored bytes". Its range
  requests (206), its answers to conditional requests (304 Not Modified,
  412 Precondition Failed), its refusal of URLs containing `..`, its
  `/index.html` redirect and its own read errors are library behaviour. In
  each of these cases the stored bytes are not served as a whole.
- The lexical semantics of `filepath.Join`/`Clean` are left out. Names that
  `Clean` maps to the same path (for example `a/../b` and `b`), an empty
  user name, and names that reach outside the user's directory are not
  modelled. The key is simply (user, name).
- `os.Stat` is modelled as "the key is present". Stat errors other than
  absence (permissions) also give 404 in the source but are not modelled. A
  directory at the path (for example, an empty file name in the download
  handler) is not modelled either.
- Whether the `uploads/<user>` directory exists is left out. A missing
  directory makes `os.Create` fail, which is covered by `createOk`.
- LockerProperties.HandleIsolation: holds for the keyed store only. On disk, the handlers join the user name into the path unchecked (main.go:71, 103, 136). So isolation holds only when each user name is a single path element, is not `.` or `..`, and no other user name cleans to it. A session named `alice/../bob` writes into `uploads/bob`.
- LockerProperties.RunIsolation: holds for the keyed store only, under the same condition on user names as `HandleIsolation`.
- LockerProperties.RunKeepsOtherNamespace: holds for the keyed store only, under the same condition on user names.
- LockerProperties.UploadThenOthersThenDownload: holds for the keyed store only, under the same condition on user names.
- `filepath.Ext` is modelled for a Unix host, where `/` is the only path
  separator. On Windows, Go also stops the scan at `\`, and that is not
  modelled.
- Concurrent requests racing on the same file are left out. Handlers here
  run one after another.
- GoStrings.ToLower: covers only the runes whose lower case is ASCII (the
  ASCII capitals, U+0130 and U+212A), and keeps every other rune unchanged.
  Go maps those other runes to non-ASCII runes. `LowerChar`'s contract
  states only that such a rune stays outside ASCII. No table entry can
  match such a rune in either case, so `ContentTypeOf` is unaffected.
