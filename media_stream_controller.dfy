/**
 * The media stream controller: the download action, its file-version lookup
 * and file response, and the lazily filled service fields. Its effects outside
 * the controller (the download counter, the storage load) are recorded in the
 * ghost log `calls`.
 */
module StreamController {
  import opened Wrappers
  import opened MediaEntities
  import opened MediaStream

  class MediaStreamController {
    /** The service container the controller looks its collaborators up in. */
    const container: Container
    /** Filled from the container on first use. */
    var mediaManager: Option<MediaManager>
    /** Filled from the container on first use. */
    var storage: Option<Storage>
    /** The collaborator calls made so far, oldest first. */
    ghost var calls: seq<Call>

    /** A filled service field holds the container's service. */
    ghost predicate Valid()
      reads this
    {
      && (mediaManager.Some? ==> mediaManager.value == container.mediaManager)
      && (storage.Some? ==> storage.value == container.storage)
    }

    constructor (container: Container)
      ensures Valid()
      ensures this.container == container
      ensures mediaManager == None && storage == None && calls == []
    {
      this.container := container;
      mediaManager := None;
      storage := None;
      calls := [];
    }

    /** `getMediaManager`: the container's media manager, cached in the field. */
    method GetMediaManager() returns (m: MediaManager)
      requires Valid()
      modifies this`mediaManager
      ensures Valid()
      ensures m == container.mediaManager && mediaManager == Some(m)
    {
      if mediaManager.None? {
        mediaManager := Some(container.mediaManager);
      }
      m := mediaManager.value;
    }

    /** `getStorage`: the container's storage, cached in the field. */
    method GetStorage() returns (s: Storage)
      requires Valid()
      modifies this`storage
      ensures Valid()
      ensures s == container.storage && storage == Some(s)
    {
      if storage.None? {
        storage := Some(container.storage);
      }
      s := storage.value;
    }

    /**
     * `getFileVersion($id, $version)`: scans every version of the first file,
     * keeping the last one numbered like the target.
     */
    method GetFileVersion(id: int, version: Option<int>) returns (r: Resolution)
      requires HasPrimaryFile(container.findMediaById(id))
      ensures r == Resolve(container.findMediaById(id), id, version)
    {
      var mediaEntity := container.findMediaById(id);
      if mediaEntity.None? {
        return AssetMissing;
      }
      var current: Option<FileVersion> := None;
      var target := if version.None? then mediaEntity.value.files[0].version else version.value;
      var file := mediaEntity.value.files[0];
      var versions := file.fileVersions;
      ghost var at := -1;
      for k := 0 to |versions|
        invariant current.None? ==> forall j :: 0 <= j < k ==> versions[j].version != target
        invariant current.Some? ==> IsLastMatch(versions[..k], target, at) && current.value == versions[at]
      {
        if versions[k].version == target {
          current := Some(versions[k]);
          at := k;
        }
      }
      assert versions[..|versions|] == versions;
      if current.None? {
        return VersionNotFound(id, target);
      }
      LastMatchIsUnique(versions, target, at, LastMatchIndex(versions, target).value);
      return Found(current.value);
    }

    /**
     * `getFileResponse($fileVersion, $locale, $dispositionType)`: loads the
     * stored file and sets the three headers.
     */
    method GetFileResponse(fileVersion: FileVersion, locale: string, dispositionType: Disposition)
      returns (response: FileResponse)
      requires Valid()
      modifies this`storage, this`calls
      ensures Valid() && storage == Some(container.storage)
      ensures response == FileResponseOf(container, fileVersion, locale, dispositionType)
      ensures calls == old(calls) + [StorageLoad(fileVersion.name, fileVersion.version, fileVersion.storageOptions)]
    {
      var fileName := fileVersion.name;
      var fileSize := fileVersion.size;
      var storageOptions := fileVersion.storageOptions;
      var mimeType := fileVersion.mimeType;
      var version := fileVersion.version;

      var store := GetStorage();
      var path := store.load(fileName, version, storageOptions);
      calls := calls + [StorageLoad(fileName, version, storageOptions)];

      var disposition := ContentDisposition(dispositionType, fileName, CleanUpFileName(container.cleanup, fileName, locale));
      response := FileResponse(path, ContentType(mimeType), disposition, fileSize);
    }

    /**
     * `downloadAction($request, $id)`: resolves the version, picks the
     * disposition, counts the download unless told not to, and answers with the
     * file; a missing media item gives a bodiless 404 and a missing version the
     * not-found exception.
     */
    method DownloadAction(request: DownloadRequest, id: int) returns (response: Response)
      requires Valid()
      requires HasPrimaryFile(container.findMediaById(id))
      modifies this`mediaManager, this`storage, this`calls
      ensures Valid()
      ensures response == DownloadResponse(container, request, id)
      ensures calls == old(calls) + DownloadCalls(container, request, id)
      ensures var res := Resolve(container.findMediaById(id), id, request.version);
        && storage == (if res.Found? then Some(container.storage) else old(storage))
        && mediaManager == (if res.Found? && !SkipsCount(request.noCount) then Some(container.mediaManager) else old(mediaManager))
    {
      var fileVersion := GetFileVersion(id, request.version);
      match fileVersion {
        case AssetMissing =>
          response := EmptyNotFound;
        case VersionNotFound(versionId, version) =>
          response := NotFoundException(FileVersionNotFound(versionId, version));
        case Found(fv) =>
          var dispositionType := DispositionType(request.inline, fv.mimeType, container.getByMimeType);
          ghost var counted: seq<Call> := if SkipsCount(request.noCount) then [] else [IncreaseDownloadCounter(fv.id)];
          if !SkipsCount(request.noCount) {
            var manager := GetMediaManager();
            calls := calls + [IncreaseDownloadCounter(fv.id)];
          }
          assert calls == old(calls) + counted;
          var file := GetFileResponse(fv, request.locale, dispositionType);
          response := Served(file);
          DownloadOfFoundVersion(container, request, id, fv);
      }
    }
  }
}
