/** What a handler sends back, and the outcome of a call into the metadata store
    or the object store. */
module Http {
  import opened FileModel

  /** The JSON or byte-stream body of a response. */
  datatype Body =
    | Record(record: FileRecord)          // a file's metadata as JSON
    | Records(records: seq<FileRecord>)   // a JSON array of metadata
    | Message(message: string)            // `{ message }`
    | Error(error: string)                // `{ error }`
    | Content(bytes: seq<byte>)           // the object's bytes, piped from the store

  datatype Response = Response(status: nat, headers: seq<(string, string)>, body: Body)

  /** Whether an external call succeeded, or the message of the error it threw. */
  datatype Outcome = Done | Failed(message: string)
}
