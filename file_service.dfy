/** The four route handlers over the metadata store and the object store. */
module FileService {
  import opened Options
  import opened FileModel
  import opened Http
  import opened AccessGuard
  import opened ObjectKey
  import opened Disposition

  /** The file the upload parser hands over (`req.file`). */
  datatype UploadedFile = UploadedFile(originalname: string, mimetype: string, size: nat, buffer: seq<byte>)

  /** What the object store answers to a put: the location of the stored object,
      or the message of the error it threw. */
  datatype PutOutcome = Stored(location: string) | PutFailed(message: string)

  /** The message of the error Node.js throws when `Content-Disposition` is set
      to a value holding a character it refuses. */
  const InvalidHeaderMessage: string := "Invalid character in header content [\"Content-Disposition\"]"

  /** Ids in insertion order, each one larger than the last: no two records share
      an id. */
  predicate IdsIncreasing(records: seq<FileRecord>)
  {
    forall i, j :: 0 <= i < j < |records| ==> records[i].id < records[j].id
  }

  /** The metadata store's lookup by id (`File.findById`). */
  function FindById(records: seq<FileRecord>, id: FileId): (found: Option<FileRecord>)
    ensures found.None? <==> forall i :: 0 <= i < |records| ==> records[i].id != id
    ensures found.Some? ==> found.value in records && found.value.id == id
  {
    if records == [] then None
    else if records[0].id == id then Some(records[0])
    else FindById(records[1..], id)
  }

  /** With distinct ids, the lookup finds the one record that has the id. */
  lemma {:induction false} FindByIdUnique(records: seq<FileRecord>, id: FileId, i: nat)
    requires IdsIncreasing(records)
    requires i < |records| && records[i].id == id
    ensures FindById(records, id) == Some(records[i])
  {
    if i > 0 {
      assert records[0].id < records[i].id;
      FindByIdUnique(records[1..], id, i - 1);
    }
  }

  /** The metadata store's query by owner (`File.find({ owner })`): the records of
      that owner, each as often as it is stored, in store order. */
  function OwnedBy(records: seq<FileRecord>, owner: UserId): (owned: seq<FileRecord>)
    ensures |owned| <= |records|
    ensures forall r :: r in owned <==> r in records && r.owner == owner
    ensures forall r: FileRecord :: r.owner == owner ==> multiset(owned)[r] == multiset(records)[r]
  {
    if records == [] then []
    else
      assert records == [records[0]] + records[1..];
      (if records[0].owner == owner then [records[0]] else []) + OwnedBy(records[1..], owner)
  }

  class Server {
    /** The metadata collection, in insertion order. */
    var records: seq<FileRecord>
    /** The id the metadata store gives the next record it creates. */
    var nextId: FileId
    /** The bucket: object key to contents. */
    var objects: map<string, seq<byte>>

    ghost predicate Valid()
      reads this
    {
      && IdsIncreasing(records)
      && (forall i :: 0 <= i < |records| ==> records[i].id < nextId)
    }

    constructor ()
      ensures Valid()
      ensures records == [] && objects == map[]
    {
      records := [];
      nextId := 0;
      objects := map[];
    }

    /** `POST /upload`. A missing file is refused with 400 before anything is
        written. Otherwise the bytes go to the object store under
        `<now>-<originalname>`; if that fails nothing changes. If it succeeds the
        metadata record is created from the file and the caller; if that insert
        fails the stored object stays behind without a record. */
    method Upload(caller: UserId, file: Option<UploadedFile>, now: nat, put: PutOutcome, insert: Outcome)
      returns (response: Response)
      requires Valid()
      modifies this
      ensures Valid()
      ensures file.None? ==>
        && response == Response(400, [], Message("No file uploaded."))
        && records == old(records) && nextId == old(nextId) && objects == old(objects)
      ensures file.Some? && put.PutFailed? ==>
        && response == Response(500, [], Error(put.message))
        && records == old(records) && nextId == old(nextId) && objects == old(objects)
      ensures file.Some? && put.Stored? ==>
        objects == old(objects)[UploadKey(now, file.value.originalname) := file.value.buffer]
      ensures file.Some? && put.Stored? && insert.Failed? ==>
        && response == Response(500, [], Error(insert.message))
        && records == old(records) && nextId == old(nextId)
      ensures file.Some? && put.Stored? && insert.Done? ==>
        var record := FileRecord(old(nextId), file.value.originalname, put.location,
                                 file.value.size, file.value.mimetype, caller);
        && records == old(records) + [record]
        && nextId == old(nextId) + 1
        && response == Response(201, [], Record(record))
    {
      if file.None? {
        return Response(400, [], Message("No file uploaded."));
      }
      var f := file.value;
      if put.PutFailed? {
        return Response(500, [], Error(put.message));
      }
      objects := objects[UploadKey(now, f.originalname) := f.buffer];
      if insert.Failed? {
        return Response(500, [], Error(insert.message));
      }
      var record := FileRecord(nextId, f.originalname, put.location, f.size, f.mimetype, caller);
      records := records + [record];
      nextId := nextId + 1;
      response := Response(201, [], Record(record));
    }

    /** `GET /files`: exactly the caller's records, and no one else's. */
    method List(caller: UserId, find: Outcome) returns (response: Response)
      ensures find.Failed? ==> response == Response(500, [], Error(find.message))
      ensures find.Done? ==>
        && response.status == 200 && response.headers == [] && response.body.Records?
        && response.body.records == OwnedBy(records, caller)
        && (forall r :: r in response.body.records <==> r in records && r.owner == caller)
    {
      if find.Failed? {
        return Response(500, [], Error(find.message));
      }
      response := Response(200, [], Records(OwnedBy(records, caller)));
    }

    /** `GET /files/:id`: 404 when no record has the id, else 403 when the caller
        does not own it, else 200 with the record. */
    method Get(caller: UserId, id: FileId, find: Outcome) returns (response: Response)
      requires Valid()
      ensures find.Failed? ==> response == Response(500, [], Error(find.message))
      ensures find.Done? ==>
        ((forall r :: r in records ==> r.id != id) <==>
          response == Response(404, [], Message("File not found.")))
      ensures find.Done? ==>
        ((exists r :: r in records && r.id == id && r.owner != caller) <==>
          response == Response(403, [], Message("Access denied")))
      ensures find.Done? ==>
        (forall r :: r in records && r.id == id && r.owner == caller ==>
          response == Response(200, [], Record(r)))
      ensures response.status == 200 ==>
        && find.Done? && response.body.Record?
        && response.body.record in records
        && response.body.record.id == id
        && response.body.record.owner == caller
    {
      if find.Failed? {
        return Response(500, [], Error(find.message));
      }
      var found := FindById(records, id);
      var decision := Authorize(found, caller);
      if decision == NotFound {
        return Response(404, [], Message("File not found."));
      }
      if decision == AccessDenied {
        response := Response(403, [], Message("Access denied"));
      } else {
        response := Response(200, [], Record(found.value));
      }
      forall r | r in records && r.id == id
        ensures found == Some(r)
      {
        var i :| 0 <= i < |records| && records[i] == r;
        FindByIdUnique(records, id, i);
      }
    }

    /** `GET /files/:id/download`: the same two checks as Get come before
        anything else; only an owner gets the header set and the object read
        from the store (`fetched` is the key asked of the store, None when the
        store is not asked). Setting the header throws when the file name holds a
        character Node.js refuses in a header value, and then the store is never
        asked. A store error before any byte is sent, including a key with no
        object, answers 500 with the header already set. */
    method Download(caller: UserId, id: FileId, find: Outcome, stream: Outcome)
      returns (response: Response, fetched: Option<string>)
      requires Valid()
      ensures find.Failed? ==> response == Response(500, [], Error(find.message)) && fetched.None?
      ensures find.Done? ==>
        ((forall r :: r in records ==> r.id != id) <==>
          response == Response(404, [], Message("File not found.")))
      ensures find.Done? ==>
        ((exists r :: r in records && r.id == id && r.owner != caller) <==>
          response == Response(403, [], Message("Access denied")))
      ensures fetched.Some? <==>
        find.Done? && exists r :: r in records && r.id == id && r.owner == caller && HeaderSafe(r.fileName)
      ensures find.Done? ==>
        (forall r :: r in records && r.id == id && r.owner == caller && !HeaderSafe(r.fileName) ==>
          response == Response(500, [], Error(InvalidHeaderMessage)))
      ensures find.Done? ==>
        (forall r :: r in records && r.id == id && r.owner == caller && HeaderSafe(r.fileName) ==>
          var key := ExtractKey(r.fileUrl);
          var headers := [("Content-Disposition", ContentDisposition(r.fileName))];
          && fetched == Some(key)
          && response == (if stream.Done? && key in objects
                          then Response(200, headers, Content(objects[key]))
                          else Response(500, headers, Error("Failed to download file"))))
    {
      if find.Failed? {
        return Response(500, [], Error(find.message)), None;
      }
      var found := FindById(records, id);
      var decision := Authorize(found, caller);
      forall r | r in records && r.id == id
        ensures found == Some(r)
      {
        var i :| 0 <= i < |records| && records[i] == r;
        FindByIdUnique(records, id, i);
      }
      if decision == NotFound {
        return Response(404, [], Message("File not found.")), None;
      }
      if decision == AccessDenied {
        return Response(403, [], Message("Access denied")), None;
      }
      var record := found.value;
      var key := ExtractKey(record.fileUrl);
      var disposition := ContentDisposition(record.fileName);
      if !HeaderSafe(disposition) {
        return Response(500, [], Error(InvalidHeaderMessage)), None;
      }
      var headers := [("Content-Disposition", disposition)];
      fetched := Some(key);
      if stream.Failed? || key !in objects {
        response := Response(500, headers, Error("Failed to download file"));
      } else {
        response := Response(200, headers, Content(objects[key]));
      }
    }
  }

  /** A file uploaded by its owner under an object-store location of the usual
      `https://<host>/<key>` shape downloads as the very bytes that were uploaded,
      as many as the recorded size, under its own name, while any other caller is
      refused. A name that cannot go into a header makes the download fail
      without reading the store. */
  method UploadThenDownload(server: Server, owner: UserId, other: UserId, file: UploadedFile, now: nat, host: string)
    returns (uploaded: Response, foreign: Response, downloaded: Response)
    requires server.Valid() && owner != other && Slash !in host
    requires file.size == |file.buffer|
    modifies server
    ensures server.Valid()
    ensures uploaded.status == 201 && uploaded.body.Record?
    ensures uploaded.body.record.size == file.size && uploaded.body.record.owner == owner
    ensures foreign == Response(403, [], Message("Access denied"))
    ensures HeaderSafe(file.originalname) ==>
      && downloaded.status == 200 && downloaded.body == Content(file.buffer)
      && |downloaded.body.bytes| == uploaded.body.record.size
      && downloaded.headers == [("Content-Disposition", ContentDisposition(file.originalname))]
    ensures !HeaderSafe(file.originalname) ==>
      downloaded == Response(500, [], Error(InvalidHeaderMessage))
  {
    var key := UploadKey(now, file.originalname);
    uploaded := server.Upload(owner, Some(file), now, Stored("https://" + host + "/" + key), Done);
    var record := uploaded.body.record;
    assert record in server.records;
    foreign := server.Get(other, record.id, Done);
    HttpsKeyRoundTrip(host, key);
    var fetched;
    downloaded, fetched := server.Download(owner, record.id, Done, Done);
  }
}
