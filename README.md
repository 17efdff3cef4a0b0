# Cloudocs-Api file service, modelled in Dafny

A model of the file-storage backend's request handlers: an authenticated caller
uploads a file (its bytes go to an S3 bucket, its metadata to a MongoDB
collection), lists their own files, reads one file's metadata, and downloads a
file streamed back from the bucket. The single-file handlers refuse a missing
record with 404 and someone else's record with 403. They check in that order,
before anything else happens. The download derives the object key from the
stored URL with `split('/')`, `slice(3)` and `join('/')`, and names the file in
a `Content-Disposition` header.

Modules, one per concern:

- `FileModel` (`file_model.dfy`): the `File` record (`fileName`, `fileUrl`, `size`, `type` as `fileType`, `owner`) plus the id the store assigns.
- `ObjectKey` (`object_key.dfy`): JavaScript `split`/`slice`/`join` on '/', key extraction, and an independent reading of it ("the text after the third '/'"). Also the `<Date.now()>-<originalname>` upload key.
- `Disposition` (`disposition.dfy`): the header value, and a reader for the RFC 6266 section 4.1 quoted-string `filename` parameter (quoted-string syntax as in RFC 7230 section 3.2.6).
- `AccessGuard` (`access_guard.dfy`): the not-found-then-not-owner decision.
- `Http` (`http.dfy`): responses, and the success or failure of an external call.
- `FileService` (`file_service.dfy`): the class `Server`. It holds the metadata collection (`records`, in insertion order), the next id the store will assign, and the bucket (`objects`, key to bytes). `Upload` changes them. `List`, `Get` and `Download` only read them.

Outside calls are inputs. The caller id, the parsed upload and the clock value
(`Date.now()`) are passed in. So are the location S3 returns or its error, and
the success or error of each MongoDB call and of the S3 read stream.

Key extraction does no percent-decoding and never fails; a URL with fewer than
three '/' gives the empty key. A MongoDB error answers 500 with its message.

## Model

| member | source | states |
|---|---|---|
| ObjectKey.Split | server.js:76 | `split('/')` yields one more segment than there are '/', and no segment contains '/' |
| ObjectKey.JoinSplit | server.js:76-77 | joining the split segments with '/' gives back the original string |
| ObjectKey.SplitJoin | server.js:76-77 | splitting undoes a join of '/'-free segments (the other direction of the inverse pair) |
| ObjectKey.Join | server.js:77 | `join('/')` begins with the first segment and puts exactly one '/' between consecutive '/'-free segments; `JoinSplit` and `SplitJoin` make it the inverse of `split('/')` |
| ObjectKey.Drop | server.js:77 | `slice(n)` keeps the elements from index n on, in order, and gives the empty sequence when n is past the end |
| ObjectKey.SplitAppend | server.js:76 | splitting `a + "/" + b` gives the segments of `a` followed by those of `b` |
| ObjectKey.DropSplitIsAfterSlashes | server.js:76-77 | dropping n segments and re-joining equals the text after the n-th '/' (empty if there are fewer) |
| ObjectKey.AfterSlashesIsSuffix | server.js:77 | the text after the n-th '/' is a suffix of the input, and empty when the input has fewer than n slashes |
| ObjectKey.ExtractKey | server.js:76-77 | the key is the text after the third '/'. It is a suffix of the location, nothing is decoded, and fewer than three '/' give the empty key. Total, with no error case |
| ObjectKey.KeyRoundTrip | server.js:75-77 | for a scheme and host without '/', the key of `<scheme>//<host>/<key>` is `key`, even when `key` contains '/' |
| ObjectKey.HttpsKeyRoundTrip | server.js:75-77 | the same round trip for the `https://<bucket host>/<key>` locations the bucket returns |
| ObjectKey.DecimalString | utils/s3.js:16 | the decimal rendering of the timestamp is a non-empty string of digits |
| ObjectKey.DecimalRoundTrip | utils/s3.js:16 | the digits read back as the timestamp they render |
| ObjectKey.UploadKey | utils/s3.js:16 | the upload key is the timestamp's digits, then '-', then the original name, which ends the key |
| ObjectKey.UploadKeyInjective | utils/s3.js:16 | equal upload keys mean equal timestamps and equal names, so uploads at different instants never share a key |
| Disposition.ContentDisposition | server.js:86 | the header is `attachment; filename="`, then the file name exactly as stored (unescaped), then `"`. Node.js accepts it as a header value exactly when it accepts the file name (tab, U+0020 to U+007E, U+0080 to U+00FF) |
| Disposition.ReadQuotedPlain | server.js:86 | a quoted-string reader returns a name free of '"' and '\' verbatim, stopping at the quote that follows it |
| Disposition.ReadQuotedConsumes | server.js:86 | a quoted-string read uses at most its input, and uses all of it only when the input is the value, a quote and the rest verbatim, with no '"' or '\' in the value |
| Disposition.DispositionRoundTrip | server.js:86 | an RFC 6266 reader recovers exactly the file name from the header if and only if the name holds no '"' or '\' |
| Disposition.UnescapedQuoteBreaksHeader | server.js:86 | an instance of the "only if" direction: for the name `a"b.txt` the header does not parse as one quoted file name, because the name is not escaped |
| AccessGuard.Authorize | server.js:58-60 | NotFound exactly when there is no record. Allowed exactly when the record's owner is the caller. AccessDenied exactly when a record exists with another owner |
| AccessGuard.OwnerIsOnlyAllowed | server.js:60 | two callers both allowed the same record are the same caller |
| FileService.FindById | server.js:58 | the lookup finds nothing exactly when no record has the id, and otherwise returns a stored record with that id |
| FileService.FindByIdUnique | server.js:58 | with distinct ids the lookup returns the one record holding the id |
| FileService.OwnedBy | server.js:49 | the query by owner holds exactly the records of that owner, each as many times as it is stored, and no other record |
| FileService.Server.Upload | server.js:27-44 | no file: 400 `No file uploaded.` and nothing written to either store. Store put fails: 500, nothing changes. Put succeeds: the bucket gains `<now>-<originalname>` with the file's bytes. Then either the insert fails (500, no record, object left behind) or exactly one record is appended, with fileName, fileUrl, size, type and owner copied from the file, the returned location and the caller, answered with 201 and that record. Ids stay distinct |
| FileService.Server.List | server.js:46-54 | 200 with exactly the caller's records and no one else's, or 500 with the store's error |
| FileService.Server.Get | server.js:56-66 | 404 exactly when no record has the id. Else 403 exactly when the record has another owner. Else 200 with that record. A 200 only ever carries a record of the caller's |
| FileService.Server.Download | server.js:68-103 | the same 404/403 gate as Get, with no header and no store read. For the owner: if the file name holds a character Node.js refuses in a header, `setHeader` throws and the answer is 500 `Invalid character in header content ["Content-Disposition"]`, with no store read. Otherwise the store is asked for exactly the key extracted from the stored URL, and `Content-Disposition` is set from the stored name. Then 200 with the object's bytes, or 500 `Failed to download file` when the read fails or the key holds no object |
| FileService.UploadThenDownload | server.js:27-103 | an upload whose recorded size is its byte count, under an `https://<host>/<key>` location, answers 201 with the file's size and owner. Another caller then gets 403 for it. The owner downloads exactly the uploaded bytes, as many as the recorded size, under the original name, unless the name cannot go into a header, in which case the download answers 500 |

## Left out

- Express setup, CORS, JSON parsing, routing and `listen` are framework wiring. So are the multer parser and the authentication router and middleware. The caller id and the optional file are inputs.
- The AWS client construction, `getObject(...).createReadStream()`, the `error` handler and `pipe` are foreign, event-driven calls. The download models one outcome: the whole object is sent, or the store fails before any byte is sent. An error in the middle of a transfer, after bytes have gone out, is not modelled.
- Whether S3 percent-encodes the key inside the `Location` it returns belongs to the AWS SDK and is not modelled. The round-trip lemmas assume the location carries the key verbatim. If the SDK encodes it, a key holding such characters would not be found on download.
- MongoDB ids are modelled as a counter the store advances, so each new record gets a fresh, larger id. ObjectId generation, the cast of the `:id` parameter and of `owner` to ObjectId, and the `toString()` rendering of `owner` are not modelled. The owner is kept as the caller's id string. A failed cast is covered by the store's error outcome, which answers 500.
- Mongoose schema validation (for example `required` on `fileName` and `fileUrl`) and the `createdAt`/`updatedAt` timestamps are not modelled. A validation failure is one way the insert fails.
- FileService.Server.List: the store's own default order is modelled as insertion order.
- The generic `catch` paths that answer 500 are modelled for failures of the external calls and for the header `setHeader` refuses. Each leaves the stores as they were, except that a failed insert keeps the object already put.
