/** The metadata record persisted for every uploaded file (the `File` model). */
module FileModel {

  /** The authenticated caller's id (`req.userId`) and the string form of a
      record's `owner` (`file.owner.toString()`). */
  type UserId = string

  /** The record id the metadata store assigns on creation. */
  type FileId = nat

  /** A byte of an uploaded file's contents. */
  newtype byte = x: int | 0 <= x < 256

  /** One stored file: its display name, the object-store location returned at
      upload time, its size in bytes, its media type and its owner. The schema's
      `type` field is called `fileType` here because `type` is a Dafny keyword. */
  datatype FileRecord = FileRecord(
    id: FileId,
    fileName: string,
    fileUrl: string,
    size: nat,
    fileType: string,
    owner: UserId)
}
