# PiCloud core, modelled in Dafny

PiCloud is a self-hosted cloud drive: a SvelteKit server that stores files
under a root directory and serves uploads, downloads, listings, renames,
deletions and image/video thumbnails. This project models the logic of that
server that does not depend on I/O, and proves what it promises:

- `Cache.dfy`: the `BufferCache` class (`src/lib/server/BufferCache.ts`).
  It maps keys to byte buffers and bounds their total size by evicting the
  oldest entries first. The eviction order is JavaScript's own-property order
  of the backing object. The class keeps that order as an explicit sequence.
  `Trim` is the source's snapshot-then-loop eviction, proved against the
  function `Survivors`.
- `Paths.dfy`: the path helpers of `src/lib/Path.ts`. The validity regex is
  modelled twice: as a finite automaton that accepts the same language as
  the regex, and as a segment-by-segment predicate. A lemma proves that the two agree. The other
  lemmas cover the segment/string conversions and the confinement of full
  paths under `/cloud`.
- `General.dfy`: `getResponse`'s status defaulting, `clipName`, and the
  extension classifiers of `src/lib/General.ts`.
- `FileHandler.dfy`: the bookkeeping of `src/lib/server/FileHandler.ts`.
  - The class `FileStore` holds an abstract disk (a map from absolute paths
    to files and directories). It also holds the tombstone list
    `recentlyDeleted` and the `thumbnails` cache.
  - Each exported operation is one atomic method. Every call into the
    filesystem becomes a boolean parameter giving its outcome.
  - Each method's new state is tied to a pure step function (`UploadStep`,
    `DeleteStep`, `RenameStep`, `CreateStep`). The lemmas state properties of
    those functions.
- `Builtins.dfy`: the JavaScript built-ins the code relies on, with their
  ECMAScript semantics. These are `split`, `join`, `slice`, `indexOf` and
  `splice`. `lastIndexOf` is not called by the code; it is the helper that
  defines Node's `path.dirname` (`FileHandler.Dirname`).
- `Wrappers.dfy`: `Option`, which stands for a value or JavaScript's
  `null`/`undefined`.

`join(ROOT_DIR, ...path)` is the only link between the store and the disk's
real layout. It is kept as the opaque function `FileStore.resolve`, whose
results are assumed to be absolute paths.

## Model

| member | source | states |
|---|---|---|
| Builtins.Split | src/lib/Path.ts:11 | `split('/')` gives at least one field (`''` gives `['']`), and no field contains the separator |
| Builtins.Join | src/lib/Path.ts:34-36 | `join` of no parts is `''`, of one part is that part, and otherwise starts with the first part followed by the separator |
| Builtins.JoinSplit | src/lib/Path.ts:11-17 | joining the fields of a split gives back the string |
| Builtins.SplitJoin | src/lib/Path.ts:15-17 | splitting the join of non-empty-list, separator-free parts gives back the parts |
| Builtins.SplitNoSeparator | src/lib/General.ts:17 | a string without the separator splits into itself alone |
| Builtins.SplitAtSeparator | src/lib/General.ts:17 | splitting `a + sep + b` is splitting `a` then splitting `b` |
| Builtins.LastField | src/lib/General.ts:17 | `split(sep).pop()` is the text after the last separator |
| Builtins.SplitJoinFirst | src/lib/Path.ts:4 | the first field of a join is its first part when that part has no separator |
| Builtins.Slice | src/lib/General.ts:11-12 | `slice` of in-range indices is that substring, and it is empty when start is at or after end |
| Builtins.IndexOf | src/lib/server/FileHandler.ts:23 | -1 exactly when the element is absent; otherwise the position of its first occurrence |
| Builtins.LastIndexOf | src/lib/server/FileHandler.ts:31 | -1 exactly when the element is absent; otherwise the position of its last occurrence |
| Builtins.Splice | src/lib/server/FileHandler.ts:25 | `splice(i, 1)` removes the element at `i`; a negative `i` counts from the end, so `splice(-1, 1)` removes the last element |
| Cache.AbsolutePathIsPlainKey | src/lib/server/FileHandler.ts:159 | an absolute path is neither an array index nor an inherited `Object.prototype` name, so the cache object orders it by insertion |
| Cache.Remove | src/lib/server/BufferCache.ts:17 | `delete` takes exactly the key out of the order; other keys stay; an absent key changes nothing; deleting the first key leaves the rest |
| Cache.ConsistentInsert | src/lib/server/BufferCache.ts:12 | after `cache[key] = value` the order still lists each stored key exactly once |
| Cache.ConsistentRemove | src/lib/server/BufferCache.ts:17 | after `delete cache[key]` the order still lists each stored key exactly once |
| Cache.TotalSize | src/lib/server/BufferCache.ts:22 | the total byte length of the listed buffers covers the oldest one |
| Cache.Inserted | src/lib/server/BufferCache.ts:12 | `cache[key] = value` keeps the old key order as a prefix and adds only `key`; the order stays duplicate-free |
| Cache.RetainsRemove | src/lib/server/BufferCache.ts:17 | deleting a key keeps every other entry's buffer |
| Cache.Survivors | src/lib/server/BufferCache.ts:20-30 | `trim` keeps a suffix of the key order; it keeps all keys when the total fits; what it keeps fits `maxSize` when that is non-negative |
| Cache.SurvivorsMinimal | src/lib/server/BufferCache.ts:24 | `trim` stops as soon as the total fits: every longer suffix is over the limit |
| Cache.NothingEvicted | src/lib/server/BufferCache.ts:20-30 | a trim that keeps every key keeps every value |
| Cache.TrimStep | src/lib/server/BufferCache.ts:25-28 | one loop iteration deletes the first snapshot key, subtracts its byte length and leaves the final survivors unchanged |
| Cache.TrimExit | src/lib/server/BufferCache.ts:24 | when the loop stops, the keys left are the survivors and fit the limit |
| Cache.TotalSizeFrame | src/lib/server/BufferCache.ts:22 | the total depends only on the buffers under the listed keys |
| Cache.TotalSizeAppend | src/lib/server/BufferCache.ts:22 | a new last key adds its buffer's byte length to the total |
| Cache.BufferWithinTotal | src/lib/server/BufferCache.ts:22 | no stored buffer is longer than the total |
| Cache.TotalSizeRemove | src/lib/server/BufferCache.ts:27-28 | deleting a key subtracts exactly its byte length from the total |
| Cache.OversizedNeverSurvives | src/lib/server/BufferCache.ts:24-29 | a buffer longer than `maxSize` is never among the survivors |
| Cache.OldestEvictedFirst | src/lib/server/BufferCache.ts:24-26 | when the total is over the limit, the first-inserted key is evicted |
| Cache.NewestSurvives | src/lib/server/BufferCache.ts:11-14 | the last-inserted key survives the trim whenever its own buffer fits |
| Cache.BufferCache.constructor | src/lib/server/BufferCache.ts:2-4 | a new cache is empty and within its limit |
| Cache.BufferCache.Get | src/lib/server/BufferCache.ts:6-9 | `None` exactly when the key is not stored; otherwise the stored buffer |
| Cache.BufferCache.Set | src/lib/server/BufferCache.ts:11-14 | the new key order is the survivors of the order with the key placed (a new key goes last, an existing key keeps its place); survivors keep their values; the key, if it survives, holds the new value; with no eviction the cache is the old one with the key set; the total stays within the limit |
| Cache.BufferCache.Delete | src/lib/server/BufferCache.ts:16-18 | the key is removed and every other entry is untouched; an absent key is a no-op |
| Cache.BufferCache.Trim | src/lib/server/BufferCache.ts:20-30 | the loop leaves exactly `Survivors` of the old order, keeps their values, and the total fits the limit |
| Paths.WellFormedSegmentsCons | src/lib/Path.ts:30 | a list of segments is well formed when its first segment is a name run and the rest is well formed |
| Paths.NameScan | src/lib/Path.ts:30 | the automaton stays inside a segment name exactly on a run of name characters |
| Paths.AfterDotScan | src/lib/Path.ts:30 | after a dot, the automaton accepts exactly dot-separated non-empty extension runs |
| Paths.LastSegmentScan | src/lib/Path.ts:30 | a string without `/` is accepted exactly when it is a well-formed last segment |
| Paths.FirstSegmentScan | src/lib/Path.ts:30 | the automaton reads a first segment followed by `/` as a name run and then starts afresh |
| Paths.FirstSegmentWellFormed | src/lib/Path.ts:30 | a path of several segments is well formed when its first segment is a name run and the rest is well formed |
| Paths.RegexMatchesSegments | src/lib/Path.ts:30 | the regex accepts a string exactly when every segment but the last is a name run and the last is a name run followed by `.`-extensions |
| Paths.RegexTest | src/lib/Path.ts:30-31 | a string the regex matches is non-empty and starts with a name character |
| Paths.IsValidPath | src/lib/Path.ts:26-32 | the empty path is valid; a non-empty valid path starts with a name character and does not end with `/` |
| Paths.ValidPathIsWellFormed | src/lib/Path.ts:26-32 | a path is valid exactly when it is empty or its segments are well formed |
| Paths.ValidPathSegments | src/lib/Path.ts:26-32 | a non-empty valid path has no empty, `.` or `..` segment, and neither starts nor ends with `/` |
| Paths.LastSegmentIsNoDotSegment | src/lib/Path.ts:30 | a well-formed last segment is neither empty nor `.` or `..` |
| Paths.NoOuterSeparator | src/lib/Path.ts:30 | an accepted string neither starts nor ends with `/` |
| Paths.ExtensionHasNoSeparator | src/lib/Path.ts:30 | once past a dot, only input without `/` can be accepted |
| Paths.DotRules | src/lib/Path.ts:30 | every dot of a valid path is in the last segment, does not start a segment, and is followed by an extension character |
| Paths.RootThenSeparator | src/lib/Path.ts:1 | `cloud/` brings the automaton back to the start of a segment |
| Paths.FullPathValid | src/lib/Path.ts:3-6 | `join('cloud', ...path)` is valid exactly when the path is empty or joins to a non-empty valid path |
| Paths.GetPath | src/lib/Path.ts:8-12 | `None` exactly for a missing or invalid path; `''` gives `[]`; the result joins back to the input; its segments are non-empty, free of `/` and neither `.` nor `..` |
| Paths.GetPathStr | src/lib/Path.ts:14-18 | the joined path when it is valid, `None` otherwise, including for a missing argument |
| Paths.PathStrRoundTrip | src/lib/Path.ts:8-18 | non-empty, separator-free segments survive `getPathStr` followed by `getPath` |
| Paths.GetFullPath | src/lib/Path.ts:3-6 | `[]` gives `/cloud`; otherwise a result exists exactly when the path joins to a non-empty valid path, and it is `/cloud/` followed by that join; every result starts with `/cloud` |
| Paths.FullPathConfined | src/lib/Path.ts:3-6 | a full path is `/cloud` followed by segments that are neither empty nor `.` or `..` |
| Paths.RootIsFirstSegment | src/lib/Path.ts:4 | the first segment of `join('cloud', ...path)` is `cloud` |
| Paths.GetParentPath | src/lib/Path.ts:20-24 | the path without its last segment, and `[]` for `[]` |
| General.ResponseStatus | src/lib/General.ts:2 | a given truthy status is kept; a missing status or 0 becomes 200 for a success and 400 for an error; the result is never 0 |
| General.ResponseStatusIdempotent | src/lib/General.ts:2 | passing the computed status back in gives the same status |
| General.ClipName | src/lib/General.ts:9-13 | a name that fits is unchanged; for a length of at least 3, a longer name becomes exactly `length` characters: its prefix then `...`, or `...` then its suffix when reversed |
| General.ClipNameIdempotent | src/lib/General.ts:9-13 | clipping a clipped name changes nothing, and the result never exceeds `length` unless it is the name itself |
| General.Extension | src/lib/General.ts:17 | `split('.').pop()` contains no dot |
| General.ExtensionWithoutDot | src/lib/General.ts:17 | a name without a dot is its own extension |
| General.ExtensionAt | src/lib/General.ts:17 | the extension is the text after the last dot |
| General.ExtensionAfterLastDot | src/lib/General.ts:17 | the extension is the text after the last dot, or the whole name when there is none |
| General.ToLower | src/lib/General.ts:19 | `toLowerCase` keeps the length and lower-cases each character on its own |
| General.LowerChar | src/lib/General.ts:19 | lower-casing maps the dot, and only the dot, to a dot |
| General.ToLowerAppend | src/lib/General.ts:19 | lower-casing a concatenation lower-cases both parts |
| General.ToLowerIdempotent | src/lib/General.ts:19 | lower-casing twice is lower-casing once |
| General.LowerKeepsDots | src/lib/General.ts:19 | lower-casing neither adds nor removes dots |
| General.ToLowerSuffix | src/lib/General.ts:19 | lower-casing commutes with taking a suffix |
| General.ExtensionOfLower | src/lib/General.ts:17-19 | the extension of the lower-cased name is the lower-cased extension |
| General.HasExtensionIn | src/lib/General.ts:15-48 | a classifier holds exactly when the lower-cased text after the last dot (the whole name when there is none) is non-empty and in its list; a name ending in a dot is never classified |
| General.IsAudio | src/lib/General.ts:29-34 | every audio extension has three letters |
| General.IsPdf | src/lib/General.ts:43-48 | a PDF is exactly a name whose lower-cased extension is `pdf`, and it is never an audio file |
| General.IsZip | src/lib/General.ts:36-41 | an archive is neither an audio file nor a PDF |
| General.IsVideo | src/lib/General.ts:15-20 | a video is neither an archive nor a PDF, and it is also an audio file exactly when its extension is `ogg` |
| General.IsImage | src/lib/General.ts:22-27 | an image is neither a video, an audio file, an archive nor a PDF |
| General.ClassificationIgnoresCase | src/lib/General.ts:15-48 | lower-casing a name does not change its classification |
| General.UpperCaseImage | src/lib/General.ts:22-27 | `A.PNG` is an image |
| General.OggIsVideoAndAudio | src/lib/General.ts:15-34 | a name ending in `.ogg`, in any case, is both a video and an audio file |
| FileHandler.RemoveSubtree | src/lib/server/FileHandler.ts:238 | a recursive `rm` removes the path and everything under it, and leaves every other entry |
| FileHandler.Rebase | src/lib/server/FileHandler.ts:223 | a path under the source of a rename lands under its target |
| FileHandler.RebaseInjective | src/lib/server/FileHandler.ts:223 | two different paths under the source never land on the same path |
| FileHandler.Moved | src/lib/server/FileHandler.ts:223 | the moved entries all lie under the target, and the source's entry lands at the target |
| FileHandler.Renamed | src/lib/server/FileHandler.ts:223 | after `rename` the target holds the source's entry; the source is gone unless it lies under the target; entries outside both subtrees are untouched |
| FileHandler.Ancestors | src/lib/server/FileHandler.ts:31 | the directories a recursive `mkdir` creates: every proper ancestor, and the directory itself |
| FileHandler.MakeDirectories | src/lib/server/FileHandler.ts:31 | after a recursive `mkdir` the directory and its ancestors exist, existing entries are kept, and only directories are added |
| FileHandler.Dirname | src/lib/server/FileHandler.ts:31 | `dirname` is `.` without a `/`; for an absolute path it is absolute, no longer than the path, shorter unless the path is `/`, and otherwise the text before the last `/` |
| FileHandler.Child | src/lib/server/FileHandler.ts:278 | `join(dir, name)` starts with `dir`, ends with `/` and then `name`, and is absolute when `dir` is |
| FileHandler.DirnameIsShorter | src/lib/server/FileHandler.ts:31 | every directory `mkdir(dirname(p))` creates is shorter than `p`, so it is never `p` itself |
| FileHandler.VisibleEntries | src/lib/server/FileHandler.ts:278 | the listing holds exactly the `readdir` entries whose joined path is not tombstoned |
| FileHandler.VisibleEntriesAppend | src/lib/server/FileHandler.ts:278 | the filter keeps `readdir` order |
| FileHandler.VisibleEntriesUntouched | src/lib/server/FileHandler.ts:278 | with no tombstone in the directory the listing is `readdir`'s, unchanged |
| FileHandler.RemoveFirst | src/lib/server/FileHandler.ts:23-27 | removes exactly the first occurrence of the path, and nothing when it is absent |
| FileHandler.ExpireAsWritten | src/lib/server/FileHandler.ts:245-247 | the timer's `splice(indexOf(p), 1)` removes the first tombstone of `p` when `p` is listed |
| FileHandler.ExpireAsWrittenDropsAnotherTombstone | src/lib/server/FileHandler.ts:245-247 | when `p` is no longer listed, the timer removes the last tombstone, which belongs to another path |
| FileHandler.ExpireAsWrittenExample | src/lib/server/FileHandler.ts:245-247 | expiring `/r/a` with only `/r/b` listed leaves no tombstone |
| FileHandler.ExpireKeepsOtherTombstones | src/lib/server/FileHandler.ts:245-247 | the intended expiry removes one tombstone of the path and leaves every other path's tombstones |
| FileHandler.StatsOf | src/lib/server/FileHandler.ts:292 | an entry is a file or a directory and never both; a file's size is its byte length |
| FileHandler.ThumbnailEligible | src/lib/server/FileHandler.ts:150-156 | a thumbnail is looked for only for an existing file whose `stat` succeeds, and never for an archive or a PDF |
| FileHandler.DeleteStep | src/lib/server/FileHandler.ts:231-253 | succeeds exactly when the path exists and `rm` succeeds; then the path is gone and appended to the tombstones; otherwise nothing changes |
| FileHandler.UploadStep | src/lib/server/FileHandler.ts:20-70 | the first tombstone of the target is removed before anything can fail; a failed `mkdir` changes nothing else; success needs the pipe to succeed, and then the written target holds the data; entries outside the target's subtree are kept, the only entries added besides the target are its parent directories, and a successful upload changes no entry but the target |
| FileHandler.MakeParentThenWrite | src/lib/server/FileHandler.ts:30-69 | after `mkdir`, the write step: a removal tombstones the target; success needs the pipe, and then the written target holds the data; the same frame as `UploadStep` |
| FileHandler.WriteStep | src/lib/server/FileHandler.ts:37-69 | an existing target is refused unless overwriting; success needs the pipe; a failed pipe deletes and tombstones the target; entries outside the target's subtree are kept, no entry other than the target is added, and a successful write changes no entry but the target |
| FileHandler.UploadOverwriteRule | src/lib/server/FileHandler.ts:23-38 | a tombstoned target is written whatever `overwrite` says; an existing, untombstoned target is refused without change unless `overwrite` is set |
| FileHandler.UploadCreatesParent | src/lib/server/FileHandler.ts:30-35 | after a successful upload the parent directory exists |
| FileHandler.FailedUploadIsDeleted | src/lib/server/FileHandler.ts:64-67 | a failed pipe after a write ends with the target removed and tombstoned again |
| FileHandler.RenameStep | src/lib/server/FileHandler.ts:204-229 | refused without change for equal paths, a missing source, or an existing target without `overwrite`; otherwise `rename` decides, and success puts the source's entry at the target |
| FileHandler.CreateStep | src/lib/server/FileHandler.ts:255-268 | succeeds exactly when the path does not exist and `mkdir` succeeds; then the path is a directory; existing entries are kept |
| FileHandler.RenameRefused | src/lib/server/FileHandler.ts:208-212 | a rename goes ahead only for an existing source different from the target, and, without `overwrite`, a missing target; with `overwrite` it is refused exactly for equal paths or a missing source |
| FileHandler.MigratedOrder | src/lib/server/FileHandler.ts:216-220 | after the cached thumbnail moves, the old key is out of the order, and the new key is in it when it held nothing before and the buffer fits the cache |
| FileHandler.MigrationCanLoseThumbnail | src/lib/server/FileHandler.ts:216-220 | when the new key already holds an older entry, `trim` can evict it and the `delete` then leaves no thumbnail |
| FileHandler.NewlyCachedSurvives | src/lib/server/FileHandler.ts:196 | a thumbnail that fits and is stored under a new key is still cached after the trim |
| FileHandler.FileStore.constructor | src/lib/server/FileHandler.ts:16-18 | the thumbnail cache starts empty with a 10 MiB limit, and there are no tombstones |
| FileHandler.FileStore.UploadFile | src/lib/server/FileHandler.ts:20-70 | result, disk and tombstones are those of `UploadStep`; the thumbnail is dropped exactly when the cleanup deletion succeeds |
| FileHandler.FileStore.WriteUpload | src/lib/server/FileHandler.ts:37-69 | result, disk and tombstones are those of `WriteStep`; the thumbnail is dropped exactly when the cleanup deletion succeeds |
| FileHandler.FileStore.DownloadFile | src/lib/server/FileHandler.ts:72-84 | the content of an existing file whose read succeeds, `None` otherwise |
| FileHandler.FileStore.GetStats | src/lib/server/FileHandler.ts:285-297 | the stats of an existing path whose `stat` succeeds, `None` otherwise |
| FileHandler.FileStore.GetThumbnail | src/lib/server/FileHandler.ts:148-202 | `None` with the cache untouched unless the path is an existing image or video file; then a cached thumbnail is returned unchanged, and otherwise the rendered one is returned and stored as the newest entry, every other surviving entry keeping its buffer |
| FileHandler.FileStore.CachedOrRendered | src/lib/server/FileHandler.ts:159-197 | a cached thumbnail is returned and nothing changes; otherwise the rendered thumbnail is returned and cached, kept when it fits the limit, and every other surviving entry keeps its buffer |
| FileHandler.FileStore.StoreThumbnail | src/lib/server/FileHandler.ts:196 | the new key order is the trim of the old one with the key appended; a thumbnail that fits is kept; every surviving entry holds the buffer it held before, or the new thumbnail under its key |
| FileHandler.FileStore.MoveThumbnail | src/lib/server/FileHandler.ts:216-220 | without a cached thumbnail nothing changes; with one, the key order is `MigratedOrder`, the old key is gone, every surviving entry holds its old buffer or, under the new key, the moved one, and when the new key held nothing the buffer is under it |
| FileHandler.FileStore.MigrateEntry | src/lib/server/FileHandler.ts:217-220 | `set(to, cached)` then `delete(from)`: the same new state as `MoveThumbnail` with a cached thumbnail |
| FileHandler.FileStore.RenameFile | src/lib/server/FileHandler.ts:204-229 | result and disk are those of `RenameStep`; a refused rename leaves the cache untouched; otherwise the cached thumbnail moves whatever `rename` then does, and every other surviving entry keeps its buffer |
| FileHandler.FileStore.DeleteFile | src/lib/server/FileHandler.ts:231-253 | result, disk and tombstones are those of `DeleteStep`; on success the thumbnail is dropped, otherwise the cache is untouched |
| FileHandler.FileStore.ClearTombstone | src/lib/server/FileHandler.ts:23-27 | tells whether the path was tombstoned and removes exactly its first tombstone; the disk is untouched |
| FileHandler.FileStore.CreateDirectory | src/lib/server/FileHandler.ts:255-268 | result and disk are those of `CreateStep` |
| FileHandler.FileStore.ListDirectory | src/lib/server/FileHandler.ts:270-283 | `[]` for a missing path or a failed `readdir`; otherwise exactly the `readdir` entries whose joined path is not tombstoned, in order |

## Left out

- Streams and foreign libraries: the write stream of `uploadFile`, `downloadFileAsStream`, `downloadDirectoryAsStream` (archiver), `sharp` resizing, the `ffmpeg` frame grab and the video duration. They are event-driven I/O or foreign code. Their outcomes are parameters: `written` and `piped` for the upload, `rendered` for the thumbnail.
- FileHandler.WriteStep: a failed pipe may leave a partial file on disk. The model writes either all of the data or nothing (`written`), and a failed pipe then deletes the target either way.
- FileHandler.UploadStep: `createWriteStream` truncates the target when it opens it, and the empty `error` handler at src/lib/server/FileHandler.ts:42 swallows write errors. So `uploadFile` can return true while the disk holds a truncated or partial file. The model's `written = false` with a successful pipe instead keeps the old content.
- FileHandler.FileStore.GetThumbnail: a rejected video frame grab makes `getThumbnail` throw; the model has no exception path. `width` and `height` only feed `sharp` and are not modelled.
- The one-minute `setTimeout` of `deleteFile` is not scheduled. Its callback is modelled as a function of the tombstone list (`ExpireAsWritten`), and the evidently intended expiry is `FileStore.ClearTombstone` (see Findings).
- Real filesystem semantics: `fs.access`, `mkdir`, `rm`, `rename`, `stat`, `readFile` and `readdir` act on an abstract map of paths, and each call's success is a parameter. The `readdir` result of `listDirectory` is a parameter too.
- `join(ROOT_DIR, ...path)` is the opaque `FileStore.resolve`, assumed to return absolute paths. Node's path normalisation is not modelled. `ROOT_DIR` itself is outside the model.
- FileHandler.Dirname: Node's `dirname` is modelled for paths without a trailing `/`, which is what `join` produces.
- The `ROOT_DIR` probe at load time (src/lib/server/FileHandler.ts:14) and all `console` logging: pure side effects.
- Interleaving of async operations: each exported function is one atomic step.
- `src/hooks.server.ts` (request hooks and error logging) and the route handlers are not part of this model.
- General.ResponseStatus: only the status arithmetic of `getResponse` is modelled, not the `Response` object. The status is an integer, so a `NaN` status code (also falsy) is not modelled.
- Default arguments (`length = 25`, `reverse = false`, `overwrite = false`) are not modelled. Every argument is passed explicitly.
- Unicode: `toLowerCase` and the regex's case-insensitive flag are modelled for ASCII and the umlauts `äöü`/`ÄÖÜ` only. Strings are sequences of characters, not UTF-16 code units.
- Cache.BufferCache.Get: requires a key that is not an inherited `Object.prototype` name. For such a key the source's `key in cache` would be true on an empty cache. Every key the store uses is an absolute path, which is never such a name (`Cache.AbsolutePathIsPlainKey`).
- Cache.BufferCache.Set: requires a key that is not an array index. JavaScript enumerates array-index keys first, which would change the eviction order. Absolute paths are never array indices.
- FileHandler.MigratedOrder: the new key is proved to stay in the order only when it held nothing before. Otherwise the moved thumbnail can be lost (`FileHandler.MigrationCanLoseThumbnail`).

## Findings

| source | as written | input that shows it | evidently intended | confidence | as-written member | corrected member |
|---|---|---|---|---|---|---|
| src/lib/server/FileHandler.ts:245-247 | one minute after a deletion, the timer runs `recentlyDeleted.splice(recentlyDeleted.indexOf(fullPath), 1)` without checking that the path is still listed | delete `/r/a`; upload `/r/a` again, which takes its tombstone off the list; delete `/r/b`. When `/r/a`'s timer fires, the list is `["/r/b"]` and `indexOf` gives -1. `splice(-1, 1)` then removes `/r/b`'s tombstone early, and `/r/b` can show up in listings again | remove the path's tombstone only when it is still listed, as `uploadFile` does at lines 23-27 | high; not executed | FileHandler.ExpireAsWrittenDropsAnotherTombstone | FileHandler.FileStore.ClearTombstone |
