# Media stream download path (Sulu MediaBundle)

This project models the download path of Sulu's `MediaStreamController`. A request for `download/{id}` does four things:

- It resolves a file version. The media item is looked up. The target version is the request's `v`, or else the first file's current version. The first file's versions are scanned, and the last version with the target number wins.
- It picks the Content-Disposition type. An explicit `inline` query parameter decides it. Without one, the MIME-type resolver decides.
- It increases the download counter unless `no-count` is truthy.
- It answers with a binary file response. That response streams the stored file and sets three headers. Content-Type is the stored MIME type, or `application/octet-stream`. Content-Disposition is built from the original name and a cleaned fallback name. Content-length is the stored size.

Without `v`, the target is the first file's own version number (`getFiles()[0]->getVersion()`). It is not the number of that file's first stored version, and it need not be the highest number. If several versions carry the target number, the scan keeps the last one, and the model keeps that behaviour.

A missing media item gives a 404 with no body. A missing version on an existing item ends in the not-found exception raised for `FileVersionNotFoundException(id, version)`.

Layout:

- `wrappers.dfy` holds `Option`, which stands for PHP's `null`.
- `media_entities.dfy` holds the entities that are read: `Media`, `File` and `FileVersion`.
- `php_path.dfy` holds PHP's `basename()` and the `filename`/`extension` split of `pathinfo()`.
- `media_stream.dfy` holds every decision of the path as a function. It also holds the specification of a whole download: the response (`DownloadResponse`) and the ordered collaborator calls (`DownloadCalls`). The lemmas state the properties of the path.
- `media_stream_controller.dfy` holds the controller as a class. The lazily filled service fields `mediaManager` and `storage` are `Option` fields. A ghost log `calls` records the calls to `increaseDownloadCounter` and to the storage `load`. `GetFileVersion` is the source's `foreach` loop, with its invariants. Each method is proved equal to its specification function, and each mutating method also states how it extends the call log.

The collaborators are the media repository, the storage, the path cleaner and the disposition-type resolver. They are opaque functions held in a `Container` value. The model does not interpret them. The media manager's `increaseDownloadCounter` appears only as an entry in the call log.

PHP truthiness is modelled exactly for the query strings and the MIME type. `(bool)$s` is false, and `empty($s)` is true, for `""` and `"0"` only. So `?inline` with an empty value gives an attachment. `?no-count=false` suppresses counting. A stored MIME type `"0"` falls back to `application/octet-stream`.

## Model

| member | source | states |
|---|---|---|
| `PhpPath.LastIndexOf` | src/Sulu/Bundle/MediaBundle/Controller/MediaStreamController.php:195 | the position of the last occurrence of a character, or none when it does not occur (the search `pathinfo` does on the basename) |
| `PhpPath.TrimTrailingSlashes` | src/Sulu/Bundle/MediaBundle/Controller/MediaStreamController.php:195 | a prefix of the path that does not end in '/', where everything cut off is '/' |
| `PhpPath.BasenameIsLastComponent` | src/Sulu/Bundle/MediaBundle/Controller/MediaStreamController.php:195 | `basename`: a tail of the path with trailing slashes trimmed, free of '/', and preceded by a '/' unless it is the whole trimmed path |
| `PhpPath.SplitExtension` | src/Sulu/Bundle/MediaBundle/Controller/MediaStreamController.php:195-197 | how `pathinfo` splits the basename: there is no extension exactly when it has no '.', and then `filename` is the whole basename; otherwise the split is at a last '.', with `filename` before it and `extension` after it |
| `PhpPath.SplitsAtLastDot` | src/Sulu/Bundle/MediaBundle/Controller/MediaStreamController.php:195-197 | whichever position holds the basename's last '.', `pathinfo` splits exactly there |
| `PhpPath.SplitAtEveryLastDot` | src/Sulu/Bundle/MediaBundle/Controller/MediaStreamController.php:195-198 | at the last '.', `filename` is the text before it and '.' plus `extension` is the text from it on |
| `PhpPath.SplitExtensionRejoins` | src/Sulu/Bundle/MediaBundle/Controller/MediaStreamController.php:195-198 | re-attaching '.' and the extension to `filename` gives back the basename (the split loses nothing) |
| `PhpPath.BasenameOfPlainName` | src/Sulu/Bundle/MediaBundle/Controller/MediaStreamController.php:195 | a name without '/' is its own basename |
| `MediaStream.CleanUpFileName` | src/Sulu/Bundle/MediaBundle/Controller/MediaStreamController.php:193-202 | when the basename has a last '.' at k, the result is the cleaner applied to the text before k, followed by the text from k on, unchanged; without a '.', it is the cleaner applied to the whole basename |
| `MediaStream.CleanUpWithIdentityCleaner` | src/Sulu/Bundle/MediaBundle/Controller/MediaStreamController.php:195-201 | with a cleaner that returns every name unchanged, the cleaned name is exactly the basename, so only the cleaner alters the name |
| `MediaStream.CleanUpKeepsExtension` | src/Sulu/Bundle/MediaBundle/Controller/MediaStreamController.php:195-201 | a slash-free name `base.ext` whose extension holds no '.' cleans to the cleaner's `base` (dots in it included) followed by '.' and the extension unchanged, e.g. "Über Report.PDF" ends in ".PDF" |
| `MediaStream.LastMatchIndex` | src/Sulu/Bundle/MediaBundle/Controller/MediaStreamController.php:172-176 | none when no version has the target number; otherwise a position holding the target number with no later position holding it |
| `MediaStream.LastMatchIsUnique` | src/Sulu/Bundle/MediaBundle/Controller/MediaStreamController.php:172-176 | the last match is a single position, so the scan's result is determined |
| `MediaStream.Resolve` | src/Sulu/Bundle/MediaBundle/Controller/MediaStreamController.php:153-183 | asset missing exactly when the repository has no media item; otherwise the target (`TargetVersion`) is `v` or the first file's version, a version is found exactly when some version of the first file has the target number, the found one is the last such version, and otherwise the error carries the id and the target |
| `MediaStream.ResolvedVersionHasTargetNumber` | src/Sulu/Bundle/MediaBundle/Controller/MediaStreamController.php:165-176 | a resolved version belongs to the first file and is numbered `v` when `v` is given, else numbered like the first file's current version |
| `MediaStream.DispositionType` | src/Sulu/Bundle/MediaBundle/Controller/MediaStreamController.php:88-94 | with `inline` present the type is inline exactly when its value is truthy; with it absent, the type is the MIME resolver's answer |
| `MediaStream.ContentType` | src/Sulu/Bundle/MediaBundle/Controller/MediaStreamController.php:138 | the header is never empty: the stored MIME type when non-empty, else `application/octet-stream` |
| `MediaStream.DownloadOfFoundVersion` | src/Sulu/Bundle/MediaBundle/Controller/MediaStreamController.php:88-102 | for a found version, the download serves that version's file response and makes the counter call (unless suppressed) and then one storage load |
| `MediaStream.MissingAssetIsEmptyNotFound` | src/Sulu/Bundle/MediaBundle/Controller/MediaStreamController.php:82-86 | a media id the repository does not know gives a bodiless 404 and makes no collaborator call |
| `MediaStream.MissingVersionIsNotFoundException` | src/Sulu/Bundle/MediaBundle/Controller/MediaStreamController.php:178-180 | an existing item whose first file has no version with the target number ends in the not-found exception for that id and target, with no counter call and no load |
| `MediaStream.FoundVersionIsServed` | src/Sulu/Bundle/MediaBundle/Controller/MediaStreamController.php:88-140 | a found version is served from its stored path, with Content-length its stored size, the MIME type or octet-stream, the original name as real file name and the cleaned name as fallback, and the disposition type from `inline` or the MIME resolver |
| `MediaStream.CountedIdsAppend` | src/Sulu/Bundle/MediaBundle/Controller/MediaStreamController.php:96-98 | the counter calls of two call sequences in a row are those of the first followed by those of the second |
| `MediaStream.DownloadCountedOnceUnlessNoCount` | src/Sulu/Bundle/MediaBundle/Controller/MediaStreamController.php:80-98 | `increaseDownloadCounter` is called exactly once, with the resolved version's id, when a version was found and `no-count` is falsy (`SkipsCount` false), and never otherwise |
| `MediaStream.CounterPrecedesResponse` | src/Sulu/Bundle/MediaBundle/Controller/MediaStreamController.php:96-126 | every counter call comes before every storage load, and a found version's download ends with the load of that version |
| `StreamController.MediaStreamController.constructor` | src/Sulu/Bundle/MediaBundle/Controller/MediaStreamController.php:32-42 | the service fields start empty and no call has been made |
| `StreamController.MediaStreamController.GetMediaManager` | src/Sulu/Bundle/MediaBundle/Controller/MediaStreamController.php:223-230 | returns the container's media manager and leaves it cached in the field |
| `StreamController.MediaStreamController.GetStorage` | src/Sulu/Bundle/MediaBundle/Controller/MediaStreamController.php:237-244 | returns the container's storage and leaves it cached in the field |
| `StreamController.MediaStreamController.GetFileVersion` | src/Sulu/Bundle/MediaBundle/Controller/MediaStreamController.php:153-183 | the loop that overwrites the candidate on every match yields exactly `Resolve` of the repository's answer |
| `StreamController.MediaStreamController.GetFileResponse` | src/Sulu/Bundle/MediaBundle/Controller/MediaStreamController.php:115-143 | the response is `FileResponseOf` the version (stored path, Content-Type, disposition names, Content-length), the storage field is left filled, and exactly one storage load, with its name, version and storage options, is appended to the call log |
| `StreamController.MediaStreamController.DownloadAction` | src/Sulu/Bundle/MediaBundle/Controller/MediaStreamController.php:72-106 | the answer is `DownloadResponse`; the calls appended to the log are `DownloadCalls`, in that order; the storage field is filled exactly when a version was found, the media-manager field exactly when it was also counted, and otherwise they keep their old values |

## Left out

- `getImageAction`, `getCacheManager` and the `cacheManager` field are not modelled. The action only delegates to the format manager and maps its error to a 404.
- Output-buffer clearing (`ob_get_length`, `ob_end_clean`) is I/O and is not modelled.
- Symfony internals are not modelled: `BinaryFileResponse`, the RFC 6266 encoding done by `makeDisposition`, and `createNotFoundException`. The response records the disposition type and the two names passed to `makeDisposition`. The model does not capture that `makeDisposition` rejects a fallback name that is not printable ASCII or that contains '%', '/' or '\'. It also rejects a real file name that contains '/' or '\'. It uses the real name as the fallback when the fallback is `''`. So `MediaStream.FoundVersionIsServed` states the two names passed in, not the header Symfony would build or refuse for such names.
- The text of the not-found message ("File not found: " plus the exception's code and message) is not modelled. The code and message of `FileVersionNotFoundException` are defined outside this controller. The response records the exception and its id and version instead.
- The collaborators are opaque total functions: the repository lookup, the storage `load`, the path cleaner's `cleanup` and the resolver's `getByMimeType`. A `MediaException` that one of them might throw is not modelled. Such an exception would also become the not-found exception.
- The container lookups `$this->get(...)` for the path cleaner and the disposition resolver are not cached by the source. They read the container's fields directly in the model.
- `v` is modelled as an optional integer. PHP compares the query string to the stored integer with loose `==`, and the model does not capture that comparison for non-numeric strings.
- `Request::get` looks in the route attributes, then the query, then the body. The model collapses these into one set of request parameters.
- A `null` MIME type is modelled as the empty string. Both fall back to `application/octet-stream`.
- `PhpPath.Basename` treats every character except '/' as part of a path component. This matches PHP only when the current locale decodes the name. In a locale that cannot decode the name's non-ASCII bytes, such as the C/POSIX locale, `php_basename` skips those bytes at the start of a component, so `pathinfo('Über Report.PDF')['filename']` is `'ber Report'` there. The model does not capture that case, and it does not model Windows '\' separators.
- `MediaStream.Resolve` and the methods that use it require that a found media item has a first file. The source indexes `getFiles()[0]` unguarded, and PHP's undefined-index behaviour is not modelled.
