/**
 * The decisions of the media download path, as values: which file version a
 * request resolves to, which Content-Disposition it gets, how the fallback file
 * name is cleaned, which headers the file response carries, and which
 * collaborator calls a download makes. The controller class in
 * media_stream_controller.dfy performs these steps and is proved to agree.
 */
module MediaStream {
  import opened Wrappers
  import opened MediaEntities
  import PhpPath

  /** The two Content-Disposition types. */
  datatype Disposition = Inline | Attachment

  /** The storage service: `load(fileName, version, storageOptions)` yields a path to stream. */
  datatype Storage = Storage(load: (string, int, StorageOptions) -> string)

  /**
   * The media manager service. Its one operation used here,
   * `increaseDownloadCounter`, only has an effect; the controller records that
   * call in its call log.
   */
  datatype MediaManager = MediaManager

  /** The services the controller takes from its container, as opaque functions. */
  datatype Container = Container(
    findMediaById: int -> Option<Media>,
    storage: Storage,
    mediaManager: MediaManager,
    cleanup: (string, string) -> string,
    getByMimeType: string -> Disposition)

  /** The collaborator calls with an effect outside the controller, in the order made. */
  datatype Call =
    | IncreaseDownloadCounter(fileVersionId: int)
    | StorageLoad(fileName: string, version: int, storageOptions: StorageOptions)

  /**
   * The request parameters the download reads: `v` (a version number), the raw
   * `no-count` and `inline` query strings when present, and the request locale.
   */
  datatype DownloadRequest = DownloadRequest(
    version: Option<int>,
    noCount: Option<string>,
    inline: Option<string>,
    locale: string)

  /** The three outcomes of looking up a file version. */
  datatype Resolution =
    | Found(fileVersion: FileVersion)
    | AssetMissing
    | VersionNotFound(id: int, version: int)

  /** The media exceptions this path raises. */
  datatype MediaError = FileVersionNotFound(id: int, version: int)

  /** The Content-Disposition as built: its type, the real file name and the ASCII fallback. */
  datatype ContentDisposition = ContentDisposition(kind: Disposition, filename: string, filenameFallback: string)

  /** A binary file response: the path it streams and its three headers. */
  datatype FileResponse = FileResponse(
    path: string,
    contentType: string,
    disposition: ContentDisposition,
    contentLength: int)

  /**
   * What `downloadAction` answers: a bodiless 404, the file, or the not-found
   * exception it throws for a caught media exception.
   */
  datatype Response =
    | EmptyNotFound
    | Served(file: FileResponse)
    | NotFoundException(cause: MediaError)

  const OctetStream: string := "application/octet-stream"

  /** PHP's falsy strings: `(bool)$s` is false and `empty($s)` is true exactly for "" and "0". */
  predicate IsFalsy(s: string)
  {
    s == "" || s == "0"
  }

  // ---------------------------------------------------------------------------
  // File-version resolution

  /** Position `i` holds a version numbered `target` and no later position does. */
  predicate IsLastMatch(versions: seq<FileVersion>, target: int, i: int)
  {
    0 <= i < |versions| && versions[i].version == target
    && forall j :: i < j < |versions| ==> versions[j].version != target
  }

  /** Where the scan of `versions` for `target` ends up: its last match. */
  function LastMatchIndex(versions: seq<FileVersion>, target: int): (r: Option<nat>)
    ensures r.None? ==> forall i :: 0 <= i < |versions| ==> versions[i].version != target
    ensures r.Some? ==> IsLastMatch(versions, target, r.value)
  {
    if |versions| == 0 then None
    else if versions[|versions| - 1].version == target then Some(|versions| - 1)
    else LastMatchIndex(versions[..|versions| - 1], target)
  }

  /** The version a request asks for: the explicit one, else the first file's current version. */
  function TargetVersion(media: Media, requested: Option<int>): int
    requires |media.files| > 0
  {
    if requested.None? then media.files[0].version else requested.value
  }

  /**
   * The outcome of `getFileVersion(id, version)` given the repository's answer
   * for `id`.
   */
  function Resolve(media: Option<Media>, id: int, requested: Option<int>): (r: Resolution)
    requires HasPrimaryFile(media)
    ensures media.None? <==> r.AssetMissing?
    ensures media.Some? ==>
      var versions := media.value.files[0].fileVersions;
      var target := if requested.None? then media.value.files[0].version else requested.value;
      && (r.Found? <==> exists i :: 0 <= i < |versions| && versions[i].version == target)
      && (r.Found? ==> exists i :: IsLastMatch(versions, target, i) && versions[i] == r.fileVersion)
      && (r.VersionNotFound? ==> r == VersionNotFound(id, target))
  {
    match media
    case None => AssetMissing
    case Some(m) =>
      var target := TargetVersion(m, requested);
      var versions := m.files[0].fileVersions;
      match LastMatchIndex(versions, target)
      case None => VersionNotFound(id, target)
      case Some(i) => Found(versions[i])
  }

  /** A resolved version carries the requested number, or the first file's current one by default. */
  lemma ResolvedVersionHasTargetNumber(media: Option<Media>, id: int, requested: Option<int>)
    requires HasPrimaryFile(media)
    requires Resolve(media, id, requested).Found?
    ensures media.Some?
    ensures var fv := Resolve(media, id, requested).fileVersion;
      && fv in media.value.files[0].fileVersions
      && (requested.Some? ==> fv.version == requested.value)
      && (requested.None? ==> fv.version == media.value.files[0].version)
  {
    var m := media.value;
    var versions := m.files[0].fileVersions;
    var target := TargetVersion(m, requested);
    var i := LastMatchIndex(versions, target).value;
    assert versions[i] == Resolve(media, id, requested).fileVersion;
  }

  /** The last match is unique: two positions that are both the last match coincide. */
  lemma LastMatchIsUnique(versions: seq<FileVersion>, target: int, i: int, j: int)
    requires IsLastMatch(versions, target, i) && IsLastMatch(versions, target, j)
    ensures i == j
  {
  }

  // ---------------------------------------------------------------------------
  // Response decisions

  /**
   * The disposition type: an `inline` query parameter decides it by its PHP
   * truth value; without one, the MIME-type resolver decides.
   */
  function DispositionType(inline: Option<string>, mimeType: string, getByMimeType: string -> Disposition): (d: Disposition)
    ensures inline.Some? ==> (d == Inline <==> !IsFalsy(inline.value))
    ensures inline.None? ==> d == getByMimeType(mimeType)
  {
    if inline.Some? then
      if !IsFalsy(inline.value) then Inline else Attachment
    else
      getByMimeType(mimeType)
  }

  /** The `no-count` parameter suppresses counting when present and truthy. */
  predicate SkipsCount(noCount: Option<string>)
  {
    noCount.Some? && !IsFalsy(noCount.value)
  }

  /** Content-Type: the stored MIME type unless PHP considers it empty. */
  function ContentType(mimeType: string): (t: string)
    ensures !IsFalsy(t)
    ensures !IsFalsy(mimeType) ==> t == mimeType
    ensures IsFalsy(mimeType) ==> t == OctetStream
  {
    if !IsFalsy(mimeType) then mimeType else OctetStream
  }

  /**
   * `cleanUpFileName`: only the part of the basename before its last '.' goes
   * through the path cleaner; '.' and everything after it are appended as they
   * were. A basename without '.' is cleaned whole.
   */
  function CleanUpFileName(cleanup: (string, string) -> string, fileName: string, locale: string): (r: string)
    ensures var b := PhpPath.Basename(fileName);
      forall k :: PhpPath.IsLastDot(b, k) ==> r == cleanup(b[..k], locale) + b[k..]
    ensures var b := PhpPath.Basename(fileName);
      (forall i :: 0 <= i < |b| ==> b[i] != '.') ==> r == cleanup(b, locale)
  {
    var info := PhpPath.PathInfo(fileName);
    var cleaned := cleanup(info.filename, locale);
    PhpPath.SplitAtEveryLastDot(PhpPath.Basename(fileName));
    if info.extension.Some? then cleaned + ("." + info.extension.value) else cleaned
  }

  /** With a cleaner that changes nothing, the cleaned name is the basename itself. */
  lemma CleanUpWithIdentityCleaner(cleanup: (string, string) -> string, fileName: string, locale: string)
    requires forall name, l :: cleanup(name, l) == name
    ensures CleanUpFileName(cleanup, fileName, locale) == PhpPath.Basename(fileName)
  {
    var b := PhpPath.Basename(fileName);
    match PhpPath.LastIndexOf(b, '.')
    case None =>
    case Some(k) =>
      calc {
        CleanUpFileName(cleanup, fileName, locale);
        { assert PhpPath.IsLastDot(b, k); }
        cleanup(b[..k], locale) + b[k..];
        b[..k] + b[k..];
        b;
      }
  }

  /**
   * A plain name with an extension is cleaned in its base only: the base goes
   * through the cleaner and '.' plus the extension follow byte for byte, even
   * when the base itself holds dots ("Über Report.PDF" gives the cleaned
   * "Über Report" followed by ".PDF").
   */
  lemma CleanUpKeepsExtension(cleanup: (string, string) -> string, base: string, extension: string, locale: string)
    requires forall i :: 0 <= i < |base| ==> base[i] != '/'
    requires forall i :: 0 <= i < |extension| ==> extension[i] != '/' && extension[i] != '.'
    ensures CleanUpFileName(cleanup, base + "." + extension, locale) == cleanup(base, locale) + "." + extension
  {
    var b := base + "." + extension;
    var k := |base|;
    assert forall i :: 0 <= i < |b| ==> b[i] != '/' by {
      forall i | 0 <= i < |b| ensures b[i] != '/' {
        if i > k {
          assert b[i] == extension[i - k - 1];
        }
      }
    }
    assert PhpPath.IsLastDot(b, k) by {
      forall j | k < j < |b| ensures b[j] != '.' {
        assert b[j] == extension[j - k - 1];
      }
    }
    calc {
      CleanUpFileName(cleanup, b, locale);
      { PhpPath.BasenameOfPlainName(b); }
      cleanup(b[..k], locale) + b[k..];
      { assert b[..k] == base && b[k..] == "." + extension; }
      cleanup(base, locale) + ("." + extension);
      cleanup(base, locale) + "." + extension;
    }
  }

  /** `getFileResponse(fileVersion, locale, dispositionType)` as a value. */
  function FileResponseOf(c: Container, fv: FileVersion, locale: string, kind: Disposition): FileResponse
  {
    FileResponse(
      c.storage.load(fv.name, fv.version, fv.storageOptions),
      ContentType(fv.mimeType),
      ContentDisposition(kind, fv.name, CleanUpFileName(c.cleanup, fv.name, locale)),
      fv.size)
  }

  // ---------------------------------------------------------------------------
  // The whole download

  /** What `downloadAction($request, $id)` answers. */
  function DownloadResponse(c: Container, request: DownloadRequest, id: int): Response
    requires HasPrimaryFile(c.findMediaById(id))
  {
    match Resolve(c.findMediaById(id), id, request.version)
    case AssetMissing => EmptyNotFound
    case VersionNotFound(i, v) => NotFoundException(FileVersionNotFound(i, v))
    case Found(fv) =>
      Served(FileResponseOf(c, fv, request.locale, DispositionType(request.inline, fv.mimeType, c.getByMimeType)))
  }

  /** The collaborator calls `downloadAction($request, $id)` makes, in order. */
  function DownloadCalls(c: Container, request: DownloadRequest, id: int): seq<Call>
    requires HasPrimaryFile(c.findMediaById(id))
  {
    match Resolve(c.findMediaById(id), id, request.version)
    case Found(fv) =>
      (if SkipsCount(request.noCount) then [] else [IncreaseDownloadCounter(fv.id)])
      + [StorageLoad(fv.name, fv.version, fv.storageOptions)]
    case _ => []
  }

  /** The download of a found version, unfolded: what it answers and which calls it makes. */
  lemma DownloadOfFoundVersion(c: Container, request: DownloadRequest, id: int, fv: FileVersion)
    requires HasPrimaryFile(c.findMediaById(id))
    requires Resolve(c.findMediaById(id), id, request.version) == Found(fv)
    ensures DownloadResponse(c, request, id)
      == Served(FileResponseOf(c, fv, request.locale, DispositionType(request.inline, fv.mimeType, c.getByMimeType)))
    ensures DownloadCalls(c, request, id)
      == (if SkipsCount(request.noCount) then [] else [IncreaseDownloadCounter(fv.id)])
         + [StorageLoad(fv.name, fv.version, fv.storageOptions)]
  {
  }

  /** The file-version ids passed to `increaseDownloadCounter`, in call order. */
  function CountedIds(calls: seq<Call>): seq<int>
  {
    if |calls| == 0 then []
    else (if calls[0].IncreaseDownloadCounter? then [calls[0].fileVersionId] else []) + CountedIds(calls[1..])
  }

  lemma {:induction false} CountedIdsAppend(a: seq<Call>, b: seq<Call>)
    ensures CountedIds(a + b) == CountedIds(a) + CountedIds(b)
  {
    if |a| == 0 {
      assert a + b == b;
    } else {
      var head: seq<int> := if a[0].IncreaseDownloadCounter? then [a[0].fileVersionId] else [];
      calc {
        CountedIds(a + b);
        { assert (a + b)[0] == a[0] && (a + b)[1..] == a[1..] + b; }
        head + CountedIds(a[1..] + b);
        { CountedIdsAppend(a[1..], b); }
        head + (CountedIds(a[1..]) + CountedIds(b));
        head + CountedIds(a[1..]) + CountedIds(b);
        CountedIds(a) + CountedIds(b);
      }
    }
  }

  /** A missing media item gives a 404 with no body and calls nothing. */
  lemma MissingAssetIsEmptyNotFound(c: Container, request: DownloadRequest, id: int)
    requires c.findMediaById(id).None?
    ensures DownloadResponse(c, request, id) == EmptyNotFound
    ensures DownloadCalls(c, request, id) == []
  {
  }

  /**
   * An existing media item whose first file has no version with the target
   * number ends in the not-found exception for that id and target, and calls
   * nothing.
   */
  lemma MissingVersionIsNotFoundException(c: Container, request: DownloadRequest, id: int)
    requires HasPrimaryFile(c.findMediaById(id)) && c.findMediaById(id).Some?
    requires var m := c.findMediaById(id).value;
      forall fv :: fv in m.files[0].fileVersions ==> fv.version != TargetVersion(m, request.version)
    ensures var m := c.findMediaById(id).value;
      DownloadResponse(c, request, id) == NotFoundException(FileVersionNotFound(id, TargetVersion(m, request.version)))
    ensures DownloadCalls(c, request, id) == []
  {
    var m := c.findMediaById(id).value;
    var versions := m.files[0].fileVersions;
    var target := TargetVersion(m, request.version);
    assert forall i :: 0 <= i < |versions| ==> versions[i].version != target by {
      forall i | 0 <= i < |versions| ensures versions[i].version != target {
        assert versions[i] in versions;
      }
    }
  }

  /**
   * A found version is served: its stored path, its size as Content-length,
   * its MIME type with the octet-stream fallback, and a disposition built from
   * the original name and the cleaned name, of the type the `inline` flag or
   * the MIME resolver picks.
   */
  lemma FoundVersionIsServed(c: Container, request: DownloadRequest, id: int, fv: FileVersion)
    requires HasPrimaryFile(c.findMediaById(id))
    requires Resolve(c.findMediaById(id), id, request.version) == Found(fv)
    ensures var r := DownloadResponse(c, request, id);
      && r.Served?
      && r.file.path == c.storage.load(fv.name, fv.version, fv.storageOptions)
      && r.file.contentLength == fv.size
      && (IsFalsy(fv.mimeType) ==> r.file.contentType == OctetStream)
      && (!IsFalsy(fv.mimeType) ==> r.file.contentType == fv.mimeType)
      && r.file.disposition.filename == fv.name
      && r.file.disposition.filenameFallback == CleanUpFileName(c.cleanup, fv.name, request.locale)
      && (request.inline.Some? ==> (r.file.disposition.kind == Inline <==> !IsFalsy(request.inline.value)))
      && (request.inline.None? ==> r.file.disposition.kind == c.getByMimeType(fv.mimeType))
  {
  }

  /**
   * `increaseDownloadCounter` is called exactly once, with the resolved
   * version's id, on a download that found its version and whose `no-count` is
   * falsy; otherwise it is not called.
   */
  lemma DownloadCountedOnceUnlessNoCount(c: Container, request: DownloadRequest, id: int)
    requires HasPrimaryFile(c.findMediaById(id))
    ensures var res := Resolve(c.findMediaById(id), id, request.version);
      CountedIds(DownloadCalls(c, request, id))
        == if res.Found? && !SkipsCount(request.noCount) then [res.fileVersion.id] else []
  {
    var res := Resolve(c.findMediaById(id), id, request.version);
    if res.Found? {
      var fv := res.fileVersion;
      var counter: seq<Call> := if SkipsCount(request.noCount) then [] else [IncreaseDownloadCounter(fv.id)];
      var load := [StorageLoad(fv.name, fv.version, fv.storageOptions)];
      CountedIdsAppend(counter, load);
      assert CountedIds(load) == [];
    }
  }

  /**
   * The counter call, when made, comes before the storage load that starts
   * building the response, and the storage is loaded once, for the resolved
   * version.
   */
  lemma CounterPrecedesResponse(c: Container, request: DownloadRequest, id: int)
    requires HasPrimaryFile(c.findMediaById(id))
    ensures var calls := DownloadCalls(c, request, id);
      forall i, j ::
        0 <= i < |calls| && 0 <= j < |calls| && calls[i].IncreaseDownloadCounter? && calls[j].StorageLoad? ==> i < j
    ensures var res := Resolve(c.findMediaById(id), id, request.version);
      var calls := DownloadCalls(c, request, id);
      res.Found? ==> calls[|calls| - 1] == StorageLoad(res.fileVersion.name, res.fileVersion.version, res.fileVersion.storageOptions)
  {
  }
}
