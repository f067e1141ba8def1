/**
 * The media entities the download path reads: a media item owns files, a file
 * owns its uploaded versions. The controller never changes them, so they are
 * values here.
 */
module MediaEntities {
  import opened Wrappers

  /** Storage location options: a key/value bag only the storage service interprets. */
  type StorageOptions = map<string, string>

  /** One uploaded revision of a file. */
  datatype FileVersion = FileVersion(
    id: int,
    version: int,
    name: string,
    size: int,
    mimeType: string,
    storageOptions: StorageOptions)

  /** A file; `version` is the number of its current version, which need not be the highest. */
  datatype File = File(version: int, fileVersions: seq<FileVersion>)

  /** A media item with its ordered list of files. */
  datatype Media = Media(id: int, files: seq<File>)

  /**
   * What the controller needs of a repository answer: a missing media item, or
   * one that has a first file (the code indexes `getFiles()[0]` unguarded).
   */
  predicate HasPrimaryFile(media: Option<Media>)
  {
    media.Some? ==> |media.value.files| > 0
  }
}
