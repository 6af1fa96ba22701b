/**
 * The bookkeeping of the file store (src/lib/server/FileHandler.ts).
 *
 * The disk is abstracted as a map from absolute paths to entries. Each
 * exported operation is one atomic step of `FileStore`; the outcome of every
 * call into the filesystem (`mkdir`, the write stream, `rm`, `rename`,
 * `stat`, `readFile`, `readdir`) is a parameter, so the model covers every
 * way those calls can go. The store keeps a list of recently deleted paths
 * (tombstones) that hides them from directory listings, and a `BufferCache`
 * of thumbnails keyed by full path.
 */
module FileHandler {
  import opened Wrappers
  import opened Builtins
  import opened Cache
  import General

  /** `MAX_THUMBNAIL_SIZE`: 10 MiB. */
  const MaxThumbnailSize: int := 10 * 1024 * 1024

  /** What the disk holds at a path. */
  datatype Entry = File(content: Buffer) | Directory

  /** The part of `fs.Stats` the store looks at. */
  datatype Stats = Stats(isFile: bool, isDirectory: bool, size: nat)

  /** A `fs.Dirent` from `readdir`: a name inside the directory and its kind. */
  datatype Dirent = Dirent(name: string, isDirectory: bool)

  predicate IsAbsolute(p: string)
  {
    |p| > 0 && p[0] == '/'
  }

  /** `k` is the path `p` itself or lies inside the directory `p`. */
  predicate Under(k: string, p: string)
  {
    k == p || (|p| < |k| && k[..|p|] == p && k[|p|] == '/')
  }

  /** The disk after `fs.rm(p, { recursive: true, force: true })`: `p` and everything inside it are gone. */
  function RemoveSubtree(fs: map<string, Entry>, p: string): (r: map<string, Entry>)
    ensures p !in r
    ensures forall k :: k in r ==> k in fs && r[k] == fs[k] && !Under(k, p)
    ensures forall k :: k in fs && !Under(k, p) ==> k in r
  {
    map k | k in fs && !Under(k, p) :: fs[k]
  }

  /** Where `rename(from, to)` puts the path `k` that lies under `from`. */
  function Rebase(k: string, from: string, to: string): (r: string)
    requires Under(k, from)
    ensures Under(r, to)
  {
    assert k[|from|..] == [] || k[|from|..][0] == '/';
    to + k[|from|..]
  }

  /** Two different paths under `from` never land on the same path. */
  lemma RebaseInjective(from: string, to: string, k1: string, k2: string)
    requires Under(k1, from) && Under(k2, from)
    requires Rebase(k1, from, to) == Rebase(k2, from, to)
    ensures k1 == k2
  {
    var n := |from|;
    assert k1[n..] == Rebase(k1, from, to)[|to|..];
    assert k2[n..] == Rebase(k2, from, to)[|to|..];
    assert k1 == k1[..n] + k1[n..];
    assert k2 == k2[..n] + k2[n..];
  }

  /** The entries under `from`, re-keyed under `to`. */
  function Moved(fs: map<string, Entry>, from: string, to: string): (r: map<string, Entry>)
    ensures forall k :: k in r ==> Under(k, to)
    ensures from in fs ==> to in r && r[to] == fs[from]
  {
    forall k1, k2 | k1 in fs && Under(k1, from) && k2 in fs && Under(k2, from) && Rebase(k1, from, to) == Rebase(k2, from, to)
      ensures k1 == k2
    {
      RebaseInjective(from, to, k1, k2);
    }
    var r := map k | k in fs && Under(k, from) :: Rebase(k, from, to) := fs[k];
    assert from in fs ==> Rebase(from, from, to) == to && r[to] == fs[from];
    r
  }

  /**
   * The disk after a successful `fs.rename(from, to)`: whatever was at `to`
   * is replaced, and everything under `from` moves under `to`.
   */
  function Renamed(fs: map<string, Entry>, from: string, to: string): (r: map<string, Entry>)
    ensures from in fs ==> to in r && r[to] == fs[from]
    ensures !Under(from, to) ==> from !in r
    ensures forall k :: k in fs && !Under(k, from) && !Under(k, to) ==> k in r && r[k] == fs[k]
    ensures forall k :: k in r && !Under(k, to) ==> k in fs && r[k] == fs[k] && !Under(k, from)
  {
    RemoveSubtree(RemoveSubtree(fs, from), to) + Moved(fs, from, to)
  }

  /** The directories `mkdir(d, { recursive: true })` creates: every proper ancestor of `d` below the root, and `d`. */
  function Ancestors(d: string): (r: set<string>)
    ensures d in r
    ensures forall i :: 0 < i < |d| && d[i] == '/' ==> d[..i] in r
  {
    (set i | 0 < i < |d| && d[i] == '/' :: d[..i]) + {d}
  }

  /** The disk after a successful recursive `mkdir(d)`: existing entries are kept, missing ancestors become directories. */
  function MakeDirectories(fs: map<string, Entry>, d: string): (r: map<string, Entry>)
    ensures d in r
    ensures forall i :: 0 < i < |d| && d[i] == '/' ==> d[..i] in r
    ensures forall k :: k in fs ==> k in r && r[k] == fs[k]
    ensures forall k :: k in r && k !in fs ==> k in Ancestors(d) && r[k] == Directory
  {
    fs + map a | a in Ancestors(d) && a !in fs :: Directory
  }

  /**
   * Node's `path.dirname` for a path without a trailing separator: `.` when
   * there is no `/`, `/` when the only one is the leading one, otherwise the
   * text before the last `/`.
   */
  function Dirname(p: string): (r: string)
    ensures '/' !in p ==> r == "."
    ensures IsAbsolute(p) ==> IsAbsolute(r) && |r| <= |p|
    ensures IsAbsolute(p) && p != "/" ==> |r| < |p|
    ensures IsAbsolute(p) && r != "/" ==> p[..|r|] == r && p[|r|] == '/' && '/' !in p[|r| + 1..]
  {
    var i := LastIndexOf(p, '/');
    if i == -1 then "." else if i == 0 then "/" else p[..i]
  }

  /** `path.join(dir, name)` for a name from `readdir`: the directory, one `/`, then the name. */
  function Child(dir: string, name: string): (r: string)
    ensures dir <= r
    ensures IsAbsolute(dir) ==> IsAbsolute(r)
    ensures |name| < |r| && r[|r| - |name| - 1] == '/' && r[|r| - |name|..] == name
  {
    if dir != [] && dir[|dir| - 1] == '/' then dir + name else dir + "/" + name
  }

  /** The `filter` of `listDirectory`: the entries whose full path is not tombstoned, in `readdir` order. */
  function VisibleEntries(entries: seq<Dirent>, dir: string, tombstones: seq<string>): (r: seq<Dirent>)
    ensures |r| <= |entries|
    ensures forall e :: e in r <==> e in entries && Child(dir, e.name) !in tombstones
  {
    if entries == [] then []
    else
      var rest := VisibleEntries(entries[1..], dir, tombstones);
      if Child(dir, entries[0].name) !in tombstones then [entries[0]] + rest else rest
  }

  /** Filtering keeps the order: the listing of two runs of entries is the two listings one after the other. */
  lemma {:induction false} VisibleEntriesAppend(a: seq<Dirent>, b: seq<Dirent>, dir: string, tombstones: seq<string>)
    ensures VisibleEntries(a + b, dir, tombstones) == VisibleEntries(a, dir, tombstones) + VisibleEntries(b, dir, tombstones)
    decreases |a|
  {
    if a == [] {
      assert a + b == b;
    } else {
      assert (a + b)[0] == a[0];
      assert (a + b)[1..] == a[1..] + b;
      VisibleEntriesAppend(a[1..], b, dir, tombstones);
    }
  }

  /** With no tombstone inside the directory, the listing is `readdir`'s, unchanged. */
  lemma {:induction false} VisibleEntriesUntouched(entries: seq<Dirent>, dir: string, tombstones: seq<string>)
    requires forall i :: 0 <= i < |entries| ==> Child(dir, entries[i].name) !in tombstones
    ensures VisibleEntries(entries, dir, tombstones) == entries
    decreases |entries|
  {
    if entries != [] {
      VisibleEntriesUntouched(entries[1..], dir, tombstones);
    }
  }

  /** `s.splice(s.indexOf(x), 1)` guarded by `indexOf !== -1`: the first occurrence of `x` removed. */
  function RemoveFirst(s: seq<string>, x: string): (r: seq<string>)
    ensures x !in s ==> r == s
    ensures x in s ==> exists i :: 0 <= i < |s| && s[i] == x && x !in s[..i] && r == s[..i] + s[i + 1..]
    ensures multiset(r) == multiset(s) - multiset{x}
  {
    var i := IndexOf(s, x);
    if i == -1 then s
    else
      assert s == s[..i] + [x] + s[i + 1..];
      Splice(s, i, 1)
  }

  /** The tombstone expiry as written: `splice(indexOf(p), 1)` without checking that `p` is still listed. */
  function ExpireAsWritten(s: seq<string>, p: string): (r: seq<string>)
    ensures p in s ==> r == RemoveFirst(s, p)
  {
    Splice(s, IndexOf(s, p), 1)
  }

  /**
   * When the path was already taken off the list (an upload to it came
   * first), `indexOf` is -1 and `splice(-1, 1)` drops the last tombstone,
   * which belongs to another deletion.
   */
  lemma ExpireAsWrittenDropsAnotherTombstone(s: seq<string>, p: string)
    requires p !in s && s != []
    ensures ExpireAsWritten(s, p) == s[..|s| - 1]
    ensures multiset(ExpireAsWritten(s, p))[s[|s| - 1]] == multiset(s)[s[|s| - 1]] - 1
  {
    var last := s[|s| - 1];
    assert s == s[..|s| - 1] + [last];
    assert multiset(s) == multiset(s[..|s| - 1]) + multiset{last};
  }

  /** The smallest instance: expiring `/r/a` after its upload removes the tombstone of `/r/b`. */
  lemma ExpireAsWrittenExample()
    ensures ExpireAsWritten(["/r/b"], "/r/a") == []
  {
    ExpireAsWrittenDropsAnotherTombstone(["/r/b"], "/r/a");
  }

  /** The intended expiry removes one tombstone of the path and leaves every other path's tombstones. */
  lemma ExpireKeepsOtherTombstones(s: seq<string>, p: string, q: string)
    requires q != p
    ensures multiset(RemoveFirst(s, p))[q] == multiset(s)[q]
    ensures multiset(RemoveFirst(s, p))[p] == if p in s then multiset(s)[p] - 1 else 0
  {
  }

  /** The stats of an entry. */
  function StatsOf(e: Entry): (r: Stats)
    ensures r.isFile != r.isDirectory
    ensures r.isFile <==> e.File?
    ensures e.File? ==> r.size == |e.content|
  {
    match e
    case File(content) => Stats(true, false, |content|)
    case Directory => Stats(false, true, 0)
  }

  /**
   * What an operation leaves behind: its result, the disk, the tombstones,
   * and whether it ran a successful `deleteFile` (which also drops the
   * path's thumbnail).
   */
  datatype Outcome = Outcome(ok: bool, disk: map<string, Entry>, tombstones: seq<string>, removed: bool)

  /** `deleteFile` on the full path `full`, with `rmOk` the outcome of `rm`. */
  function DeleteStep(disk: map<string, Entry>, tombstones: seq<string>, full: string, rmOk: bool): (r: Outcome)
    ensures r.removed == r.ok
    ensures r.ok <==> full in disk && rmOk
    ensures !r.ok ==> r.disk == disk && r.tombstones == tombstones
    ensures r.ok ==> full !in r.disk && r.tombstones == tombstones + [full]
    ensures r.ok ==> forall k :: k in disk && !Under(k, full) ==> k in r.disk && r.disk[k] == disk[k]
  {
    if full !in disk || !rmOk then Outcome(false, disk, tombstones, false)
    else Outcome(true, RemoveSubtree(disk, full), tombstones + [full], true)
  }

  /**
   * `uploadFile` on the full path `full`. `mkdirOk`, `written`, `piped` and
   * `rmOk` are the outcomes of `mkdir`, of the disk write, of the stream
   * pipe and of the cleanup `rm`.
   */
  function UploadStep(disk: map<string, Entry>, tombstones: seq<string>, full: string, data: Buffer,
                      overwrite: bool, mkdirOk: bool, written: bool, piped: bool, rmOk: bool): (r: Outcome)
    // the tombstone is gone before anything can fail
    ensures RemoveFirst(tombstones, full) <= r.tombstones
    ensures !mkdirOk ==> !r.ok && r.disk == disk && r.tombstones == RemoveFirst(tombstones, full)
    ensures r.ok ==> mkdirOk && piped && r.tombstones == RemoveFirst(tombstones, full)
    ensures r.ok && written ==> full in r.disk && r.disk[full] == File(data)
    ensures r.removed ==> full !in r.disk
    ensures UploadFrame(disk, r.disk, full, r.ok)
  {
    var cleared := RemoveFirst(tombstones, full);
    if !mkdirOk then
      UploadFrameUnchanged(disk, full);
      Outcome(false, disk, cleared, false)
    else MakeParentThenWrite(disk, cleared, full, data, overwrite || full in tombstones, written, piped, rmOk)
  }

  /** `uploadFile` once `mkdir` of the parent has succeeded: the missing directories appear, then `WriteStep`. */
  function MakeParentThenWrite(disk: map<string, Entry>, tombstones: seq<string>, full: string, data: Buffer,
                               overwriting: bool, written: bool, piped: bool, rmOk: bool): (r: Outcome)
    ensures !r.removed ==> r.tombstones == tombstones
    ensures r.removed ==> full !in r.disk && r.tombstones == tombstones + [full]
    ensures r.ok ==> piped && (written ==> full in r.disk && r.disk[full] == File(data))
    ensures UploadFrame(disk, r.disk, full, r.ok)
  {
    var withDirs := MakeDirectories(disk, Dirname(full));
    var out := WriteStep(withDirs, tombstones, full, data, overwriting, written, piped, rmOk);
    UploadFrameComposes(disk, withDirs, out, full);
    out
  }

  /**
   * What an upload may do to the rest of the disk: nothing outside the
   * target's subtree is lost, the only new entries besides the target are
   * the parent directories, and a successful upload keeps every other entry.
   */
  ghost predicate UploadFrame(disk: map<string, Entry>, after: map<string, Entry>, full: string, ok: bool)
  {
    && (forall k :: k in disk && !Under(k, full) ==> k in after && after[k] == disk[k])
    && (forall k :: k in after && k !in disk && k != full ==> k in Ancestors(Dirname(full)) && after[k] == Directory)
    && (ok ==> forall k :: k in disk && k != full ==> k in after && after[k] == disk[k])
  }

  /** An upload that changes nothing keeps its frame. */
  lemma UploadFrameUnchanged(disk: map<string, Entry>, full: string)
    ensures UploadFrame(disk, disk, full, false)
  {
  }

  /** The frame of an upload composed of the directories `mkdir` adds and what the write step keeps. */
  lemma UploadFrameComposes(disk: map<string, Entry>, withDirs: map<string, Entry>, out: Outcome, full: string)
    requires forall k :: k in disk ==> k in withDirs && withDirs[k] == disk[k]
    requires forall k :: k in withDirs && k !in disk ==> k in Ancestors(Dirname(full)) && withDirs[k] == Directory
    requires forall k :: k in withDirs && !Under(k, full) ==> k in out.disk && out.disk[k] == withDirs[k]
    requires forall k :: k in out.disk && k != full ==> k in withDirs && out.disk[k] == withDirs[k]
    requires out.ok ==> forall k :: k in withDirs && k != full ==> k in out.disk && out.disk[k] == withDirs[k]
    ensures UploadFrame(disk, out.disk, full, out.ok)
  {
  }

  /**
   * The part of `uploadFile` after the directories exist: an existing target
   * is refused unless `overwriting`; the data is written; a failed pipe
   * calls `deleteFile`.
   */
  function WriteStep(disk: map<string, Entry>, tombstones: seq<string>, full: string, data: Buffer,
                     overwriting: bool, written: bool, piped: bool, rmOk: bool): (r: Outcome)
    ensures !r.removed ==> r.tombstones == tombstones
    ensures r.removed ==> full !in r.disk && r.tombstones == tombstones + [full]
    ensures r.ok ==> piped && (written ==> full in r.disk && r.disk[full] == File(data))
    ensures !overwriting && full in disk ==> !r.ok && r.disk == disk && !r.removed
    ensures forall k :: k in disk && !Under(k, full) ==> k in r.disk && r.disk[k] == disk[k]
    ensures forall k :: k in r.disk && k != full ==> k in disk && r.disk[k] == disk[k]
    ensures r.ok ==> forall k :: k in disk && k != full ==> k in r.disk && r.disk[k] == disk[k]
  {
    if !overwriting && full in disk then Outcome(false, disk, tombstones, false)
    else
      var afterWrite := if written then disk[full := File(data)] else disk;
      if piped then Outcome(true, afterWrite, tombstones, false)
      else
        var cleanup := DeleteStep(afterWrite, tombstones, full, rmOk);
        Outcome(false, cleanup.disk, cleanup.tombstones, cleanup.removed)
  }

  /**
   * An upload over a tombstoned path proceeds whatever `overwrite` says,
   * while an existing path that is not tombstoned is refused without
   * writing unless `overwrite` is set.
   */
  lemma UploadOverwriteRule(disk: map<string, Entry>, tombstones: seq<string>, full: string, data: Buffer,
                            overwrite: bool, written: bool, piped: bool, rmOk: bool)
    ensures piped && full in tombstones ==> UploadStep(disk, tombstones, full, data, overwrite, true, written, piped, rmOk).ok
    ensures !overwrite && full !in tombstones && full in disk ==>
      var r := UploadStep(disk, tombstones, full, data, overwrite, true, written, piped, rmOk);
      && !r.ok && !r.removed && r.tombstones == tombstones
      && forall k :: k in disk ==> k in r.disk && r.disk[k] == disk[k]
  {
  }

  /** A successful upload leaves the parent directory in place. */
  lemma UploadCreatesParent(disk: map<string, Entry>, tombstones: seq<string>, full: string, data: Buffer,
                            overwrite: bool, written: bool, rmOk: bool)
    ensures var r := UploadStep(disk, tombstones, full, data, overwrite, true, written, true, rmOk);
      r.ok ==> Dirname(full) in r.disk
  {
    var withDirs := MakeDirectories(disk, Dirname(full));
    if written && full == Dirname(full) {
      assert withDirs[full := File(data)][full] == File(data);
    }
  }

  /**
   * A failed pipe after the write created the file ends with the path
   * removed from disk and tombstoned again, whether the target was
   * overwritten or new.
   */
  lemma FailedUploadIsDeleted(disk: map<string, Entry>, tombstones: seq<string>, full: string, data: Buffer, overwrite: bool)
    requires IsAbsolute(full) && |full| > 1
    requires overwrite || full in tombstones || full !in disk
    ensures var r := UploadStep(disk, tombstones, full, data, overwrite, true, true, false, true);
      && !r.ok && r.removed && full !in r.disk
      && r.tombstones == RemoveFirst(tombstones, full) + [full]
  {
    DirnameIsShorter(full);
  }

  /** Every directory `mkdir(dirname(p))` creates is shorter than `p`. */
  lemma DirnameIsShorter(p: string)
    requires IsAbsolute(p) && |p| > 1
    ensures forall a :: a in Ancestors(Dirname(p)) ==> |a| < |p|
  {
    var i := LastIndexOf(p, '/');
    assert 0 <= i < |p|;
    if i == |p| - 1 {
      assert |Dirname(p)| < |p|;
    }
  }

  /** `renameFile` refuses equal paths, a missing source, and an existing target without `overwrite`. */
  function RenameRefused(disk: map<string, Entry>, from: string, to: string, overwrite: bool): (r: bool)
    ensures !r ==> from in disk && from != to
    ensures !r && !overwrite ==> to !in disk
    ensures overwrite ==> (r <==> from == to || from !in disk)
  {
    from == to || from !in disk || (!overwrite && to in disk)
  }

  /** The disk side of `renameFile`, with `renameOk` the outcome of `fs.rename`. */
  function RenameStep(disk: map<string, Entry>, tombstones: seq<string>, from: string, to: string,
                      overwrite: bool, renameOk: bool): (r: Outcome)
    ensures r.tombstones == tombstones && !r.removed
    ensures RenameRefused(disk, from, to, overwrite) ==> !r.ok && r.disk == disk
    ensures !RenameRefused(disk, from, to, overwrite) ==> r.ok == renameOk
    ensures !r.ok ==> r.disk == disk
    ensures r.ok ==> to in r.disk && r.disk[to] == disk[from]
    ensures r.ok && !Under(from, to) ==> from !in r.disk
  {
    if RenameRefused(disk, from, to, overwrite) || !renameOk then Outcome(false, disk, tombstones, false)
    else Outcome(true, Renamed(disk, from, to), tombstones, false)
  }

  /** `createDirectory` on the full path `full`, with `mkdirOk` the outcome of the recursive `mkdir`. */
  function CreateStep(disk: map<string, Entry>, tombstones: seq<string>, full: string, mkdirOk: bool): (r: Outcome)
    ensures r.tombstones == tombstones && !r.removed
    ensures r.ok <==> full !in disk && mkdirOk
    ensures !r.ok ==> r.disk == disk
    ensures r.ok ==> full in r.disk && r.disk[full] == Directory
    ensures forall k :: k in disk ==> k in r.disk && r.disk[k] == disk[k]
  {
    if full in disk || !mkdirOk then Outcome(false, disk, tombstones, false)
    else Outcome(true, MakeDirectories(disk, full), tombstones, false)
  }

  /** `getThumbnail` looks for a thumbnail only for an existing image or video file, never an archive or a PDF. */
  function ThumbnailEligible(disk: map<string, Entry>, full: string, statOk: bool): (r: bool)
    ensures r ==> statOk && full in disk && disk[full].File?
    ensures r ==> !General.IsZip(full) && !General.IsPdf(full)
  {
    full in disk && statOk && disk[full].File? && (General.IsImage(full) || General.IsVideo(full))
  }

  /**
   * The key order of the thumbnail cache after its entry moves from `from`
   * to `to` (`set` then `delete`): the old key is gone, and the new key is
   * kept when it held nothing before and the buffer fits the cache.
   */
  function MigratedOrder(order: seq<string>, cache: map<string, Buffer>, from: string, to: string): (r: seq<string>)
    requires Consistent(order, cache) && from in cache
    ensures from !in r
    ensures to !in cache && |cache[from]| <= MaxThumbnailSize ==> to in r
  {
    ConsistentInsert(order, cache, to, cache[from]);
    var survivors := Survivors(Inserted(order, to), cache[to := cache[from]], MaxThumbnailSize);
    if to !in cache && |cache[from]| <= MaxThumbnailSize then
      NewlyCachedSurvives(order, cache, to, cache[from]);
      Remove(survivors, from)
    else
      Remove(survivors, from)
  }

  /**
   * Re-keying a cached thumbnail can lose it: when the new key already holds
   * an older entry, `set` keeps that entry's early position and `trim` may
   * evict it; the `delete` of the old key then leaves no thumbnail at all.
   */
  lemma MigrationCanLoseThumbnail()
    ensures var cache: map<string, Buffer> := map["/n" := [0], "/o" := [0, 0]];
      var moved := cache["/n" := cache["/o"]];
      Survivors(Inserted(["/n", "/o"], "/n"), moved, 3) == ["/o"]
      && Remove(["/o"], "/o") == []
  {
    var moved: map<string, Buffer> := map["/n" := [0, 0], "/o" := [0, 0]];
    assert map["/n" := [0], "/o" := [0, 0]]["/n" := [0, 0]] == moved;
    assert Inserted(["/n", "/o"], "/n") == ["/n", "/o"];
    var tail: seq<string> := ["/o"];
    assert tail[1..] == [];
    assert TotalSize(tail, moved) == 2;
    assert ["/n", "/o"][1..] == tail;
    assert TotalSize(["/n", "/o"], moved) == 4;
    assert Survivors(tail, moved, 3) == tail;
  }

  /** A buffer that fits the cache and is stored under a new key is still there after the trim. */
  lemma NewlyCachedSurvives(order: seq<string>, cache: map<string, Buffer>, key: string, value: Buffer)
    requires Consistent(order, cache) && key !in cache
    requires |value| <= MaxThumbnailSize
    ensures Inserted(order, key) == order + [key]
    ensures key in Survivors(order + [key], cache[key := value], MaxThumbnailSize)
  {
    var o := order + [key];
    var c := cache[key := value];
    assert AllIn(o, c) by {
      forall i | 0 <= i < |o| ensures o[i] in c {
        if i < |order| {
          assert o[i] == order[i];
        }
      }
    }
    assert o[|o| - 1] == key;
    NewestSurvives(o, c, MaxThumbnailSize);
  }

  class FileStore {
    /** `join(ROOT_DIR, ...path)`, taken as given. */
    const resolve: seq<string> -> string
    /** `thumbnails`: the thumbnail cache, keyed by full path. */
    const thumbnails: BufferCache
    /** What the disk holds; `isValidPath(fullPath)` (`fs.access`) succeeds exactly for its keys. */
    var fsPaths: map<string, Entry>
    /** `recentlyDeleted`: the tombstones, oldest first. */
    var recentlyDeleted: seq<string>

    ghost predicate Valid()
      reads this, thumbnails
    {
      && thumbnails.Valid()
      && thumbnails.maxSize == MaxThumbnailSize
      && (forall path :: IsAbsolute(resolve(path)))
    }

    constructor (resolve: seq<string> -> string, disk: map<string, Entry>)
      requires forall path :: IsAbsolute(resolve(path))
      ensures Valid()
      ensures this.resolve == resolve && fsPaths == disk && recentlyDeleted == []
      ensures fresh(thumbnails) && thumbnails.cache == map[]
    {
      this.resolve := resolve;
      thumbnails := new BufferCache(MaxThumbnailSize);
      fsPaths := disk;
      recentlyDeleted := [];
    }

    /**
     * `uploadFile`: the target's first tombstone is removed and the target
     * is then overwritten regardless of `overwrite`; the parent directories
     * are created; an existing target is refused unless overwriting; the
     * data is written; a failed upload calls `deleteFile`.
     */
    method UploadFile(data: Buffer, path: seq<string>, overwrite: bool, mkdirOk: bool, written: bool, piped: bool, rmOk: bool)
      returns (r: bool)
      requires Valid()
      modifies this, thumbnails
      ensures Valid()
      ensures var out := UploadStep(old(fsPaths), old(recentlyDeleted), resolve(path), data, overwrite, mkdirOk, written, piped, rmOk);
        && r == out.ok && fsPaths == out.disk && recentlyDeleted == out.tombstones
        && (!out.removed ==> unchanged(thumbnails))
        && (out.removed ==> thumbnails.order == Remove(old(thumbnails.order), resolve(path))
                            && thumbnails.cache == old(thumbnails.cache) - {resolve(path)})
    {
      var fullPath := resolve(path);
      var wasDeleted := ClearTombstone(fullPath);
      if !mkdirOk {
        return false;
      }
      fsPaths := MakeDirectories(fsPaths, Dirname(fullPath));
      r := WriteUpload(data, path, overwrite || wasDeleted, written, piped, rmOk);
    }

    /** `uploadFile` once the directories exist (see `WriteStep`). */
    method WriteUpload(data: Buffer, path: seq<string>, overwriting: bool, written: bool, piped: bool, rmOk: bool)
      returns (r: bool)
      requires Valid()
      modifies this, thumbnails
      ensures Valid()
      ensures var out := WriteStep(old(fsPaths), old(recentlyDeleted), resolve(path), data, overwriting, written, piped, rmOk);
        && r == out.ok && fsPaths == out.disk && recentlyDeleted == out.tombstones
        && (!out.removed ==> unchanged(thumbnails))
        && (out.removed ==> thumbnails.order == Remove(old(thumbnails.order), resolve(path))
                            && thumbnails.cache == old(thumbnails.cache) - {resolve(path)})
    {
      var fullPath := resolve(path);
      if !overwriting && fullPath in fsPaths {
        return false;
      }
      if written {
        fsPaths := fsPaths[fullPath := File(data)];
      }
      if !piped {
        var _ := DeleteFile(path, rmOk);
      }
      return piped;
    }

    /** `downloadFile`: the content of an existing file whose read succeeds, else null. */
    method DownloadFile(path: seq<string>, readOk: bool) returns (r: Option<Buffer>)
      ensures r.Some? <==> resolve(path) in fsPaths && fsPaths[resolve(path)].File? && readOk
      ensures r.Some? ==> r.value == fsPaths[resolve(path)].content
    {
      var fullPath := resolve(path);
      if fullPath !in fsPaths {
        return None;
      }
      var entry := fsPaths[fullPath];
      if !readOk || entry.Directory? {
        return None;
      }
      return Some(entry.content);
    }

    /** `getStats`: the stats of an existing path whose `stat` succeeds, else null. */
    method GetStats(path: seq<string>, statOk: bool) returns (r: Option<Stats>)
      ensures r.Some? <==> resolve(path) in fsPaths && statOk
      ensures r.Some? ==> r.value == StatsOf(fsPaths[resolve(path)])
    {
      var fullPath := resolve(path);
      if fullPath !in fsPaths || !statOk {
        return None;
      }
      return Some(StatsOf(fsPaths[fullPath]));
    }

    /**
     * `getThumbnail`: null unless the path is an existing image or video
     * file; a cached thumbnail is returned as it is; otherwise `rendered`,
     * the result of resizing (`None` when it fails), is cached and returned.
     */
    method GetThumbnail(path: seq<string>, statOk: bool, rendered: Option<Buffer>) returns (r: Option<Buffer>)
      requires Valid()
      modifies thumbnails
      ensures Valid()
      ensures !ThumbnailEligible(fsPaths, resolve(path), statOk) ==> r == None && unchanged(thumbnails)
      ensures ThumbnailEligible(fsPaths, resolve(path), statOk) ==> CacheLookup(resolve(path), rendered, r)
    {
      var fullPath := resolve(path);
      if !ThumbnailEligible(fsPaths, fullPath, statOk) {
        return None;
      }
      r := CachedOrRendered(fullPath, rendered);
    }

    /**
     * What the cache part of `getThumbnail` does for `full`: a cached
     * thumbnail is returned and nothing changes; otherwise the rendered
     * thumbnail is returned and, when there is one, stored as the newest
     * entry (kept unless it exceeds the cache's limit).
     */
    twostate predicate CacheLookup(full: string, rendered: Option<Buffer>, new r: Option<Buffer>)
      reads this, thumbnails
    {
      && (full in old(thumbnails.cache) ==> r == Some(old(thumbnails.cache)[full]))
      && (full !in old(thumbnails.cache) ==> r == rendered)
      && (r == None || full in old(thumbnails.cache) ==> unchanged(thumbnails))
      && if r.Some? && full !in old(thumbnails.cache) && old(thumbnails.WellFormed()) then
           ConsistentInsert(old(thumbnails.order), old(thumbnails.cache), full, r.value);
           && thumbnails.order == Survivors(Inserted(old(thumbnails.order), full), old(thumbnails.cache)[full := r.value], MaxThumbnailSize)
           && Retains(thumbnails.cache, old(thumbnails.cache)[full := r.value])
           && (|r.value| <= MaxThumbnailSize ==> full in thumbnails.cache && thumbnails.cache[full] == r.value)
         else true
    }

    /** The cache part of `getThumbnail` (see `CacheLookup`). */
    method CachedOrRendered(full: string, rendered: Option<Buffer>) returns (r: Option<Buffer>)
      requires Valid() && IsAbsolute(full)
      modifies thumbnails
      ensures Valid()
      ensures CacheLookup(full, rendered, r)
    {
      AbsolutePathIsPlainKey(full);
      var thumbnail := thumbnails.Get(full);
      if thumbnail.Some? {
        return thumbnail;
      }
      if rendered.Some? {
        StoreThumbnail(full, rendered.value);
      }
      return rendered;
    }

    /** The store step of `getThumbnail`: a freshly rendered thumbnail is stored under a new key. */
    method StoreThumbnail(full: string, thumbnail: Buffer)
      requires Valid() && PlainKey(full) && full !in thumbnails.cache
      modifies thumbnails
      ensures Valid()
      ensures thumbnails.order == Survivors(Inserted(old(thumbnails.order), full), old(thumbnails.cache)[full := thumbnail], MaxThumbnailSize)
      ensures Retains(thumbnails.cache, old(thumbnails.cache)[full := thumbnail])
      ensures |thumbnail| <= MaxThumbnailSize ==> full in thumbnails.cache && thumbnails.cache[full] == thumbnail
    {
      ghost var order0 := thumbnails.order;
      ghost var cache0 := thumbnails.cache;
      if |thumbnail| <= MaxThumbnailSize {
        NewlyCachedSurvives(order0, cache0, full, thumbnail);
      }
      thumbnails.Set(full, thumbnail);
    }

    /** The cache step of `renameFile`: a cached thumbnail is stored under the new key, then the old key is deleted. */
    method MoveThumbnail(from: string, to: string)
      requires Valid() && IsAbsolute(from) && IsAbsolute(to) && from != to
      modifies thumbnails
      ensures Valid()
      ensures from !in old(thumbnails.cache) ==> unchanged(thumbnails)
      ensures from in old(thumbnails.cache) ==>
        && thumbnails.order == MigratedOrder(old(thumbnails.order), old(thumbnails.cache), from, to)
        && from !in thumbnails.cache
        && Retains(thumbnails.cache, old(thumbnails.cache)[to := old(thumbnails.cache)[from]])
      ensures from in old(thumbnails.cache) && to !in old(thumbnails.cache) ==>
        to in thumbnails.cache && thumbnails.cache[to] == old(thumbnails.cache)[from]
    {
      AbsolutePathIsPlainKey(from);
      AbsolutePathIsPlainKey(to);
      var cachedThumbnail := thumbnails.Get(from);
      if cachedThumbnail.Some? {
        MigrateEntry(from, to, cachedThumbnail.value);
      }
    }

    /** The body of the migration in `renameFile`: `set(to, cached)` then `delete(from)`. */
    method MigrateEntry(from: string, to: string, cached: Buffer)
      requires Valid() && PlainKey(to) && from != to
      requires from in thumbnails.cache && thumbnails.cache[from] == cached
      modifies thumbnails
      ensures Valid()
      ensures thumbnails.order == MigratedOrder(old(thumbnails.order), old(thumbnails.cache), from, to)
      ensures from !in thumbnails.cache
      ensures Retains(thumbnails.cache, old(thumbnails.cache)[to := cached])
      ensures to !in old(thumbnails.cache) ==> to in thumbnails.cache && thumbnails.cache[to] == cached
    {
      ghost var order0, cache0 := thumbnails.order, thumbnails.cache;
      ghost var moved := cache0[to := cached];
      BufferWithinTotal(order0, cache0, from);
      thumbnails.Set(to, cached);
      ghost var afterSet := thumbnails.cache;
      thumbnails.Delete(from);
      assert thumbnails.order == MigratedOrder(order0, cache0, from, to);
      RetainsRemove(afterSet, from, moved);
      if to !in cache0 {
        assert to in thumbnails.order;
      }
    }

    /**
     * `renameFile`: refused when both full paths are equal, when the source
     * is missing, or when the target exists and `overwrite` is false; else
     * the cached thumbnail moves and `renameOk` decides the rename.
     */
    method RenameFile(oldPath: seq<string>, newPath: seq<string>, overwrite: bool, renameOk: bool) returns (r: bool)
      requires Valid()
      modifies this, thumbnails
      ensures Valid()
      ensures var from := resolve(oldPath);
        var to := resolve(newPath);
        var out := RenameStep(old(fsPaths), old(recentlyDeleted), from, to, overwrite, renameOk);
        && r == out.ok && fsPaths == out.disk && recentlyDeleted == out.tombstones
        && (RenameRefused(old(fsPaths), from, to, overwrite) || from !in old(thumbnails.cache) ==> unchanged(thumbnails))
        && (!RenameRefused(old(fsPaths), from, to, overwrite) && from in old(thumbnails.cache) ==>
              && thumbnails.order == MigratedOrder(old(thumbnails.order), old(thumbnails.cache), from, to)
              && from !in thumbnails.cache
              && Retains(thumbnails.cache, old(thumbnails.cache)[to := old(thumbnails.cache)[from]])
              && (to !in old(thumbnails.cache) ==> to in thumbnails.cache && thumbnails.cache[to] == old(thumbnails.cache)[from]))
    {
      var oldFilePath := resolve(oldPath);
      var newFilePath := resolve(newPath);
      if oldFilePath == newFilePath || oldFilePath !in fsPaths || (!overwrite && newFilePath in fsPaths) {
        return false;
      }
      MoveThumbnail(oldFilePath, newFilePath);
      if !renameOk {
        return false;
      }
      fsPaths := Renamed(fsPaths, oldFilePath, newFilePath);
      return true;
    }

    /**
     * `deleteFile`: refused for a missing path; otherwise, when `rm`
     * succeeds, the path and its contents are gone, its thumbnail is dropped
     * and it is tombstoned.
     */
    method DeleteFile(path: seq<string>, rmOk: bool) returns (r: bool)
      requires Valid()
      modifies this, thumbnails
      ensures Valid()
      ensures var out := DeleteStep(old(fsPaths), old(recentlyDeleted), resolve(path), rmOk);
        && r == out.ok && fsPaths == out.disk && recentlyDeleted == out.tombstones
        && (!r ==> unchanged(thumbnails))
        && (r ==> thumbnails.order == Remove(old(thumbnails.order), resolve(path))
                  && thumbnails.cache == old(thumbnails.cache) - {resolve(path)})
    {
      var fullPath := resolve(path);
      if fullPath !in fsPaths || !rmOk {
        return false;
      }
      fsPaths := RemoveSubtree(fsPaths, fullPath);
      thumbnails.Delete(fullPath);
      recentlyDeleted := recentlyDeleted + [fullPath];
      return true;
    }

    /**
     * Removes the first tombstone of `fullPath`, if there is one, and tells
     * whether there was: the first step of `uploadFile`, and what the timer
     * set by `deleteFile` evidently intends one minute later.
     */
    method ClearTombstone(fullPath: string) returns (found: bool)
      modifies this
      ensures found <==> fullPath in old(recentlyDeleted)
      ensures recentlyDeleted == RemoveFirst(old(recentlyDeleted), fullPath)
      ensures fsPaths == old(fsPaths)
    {
      var index := IndexOf(recentlyDeleted, fullPath);
      found := index != -1;
      if found {
        recentlyDeleted := Splice(recentlyDeleted, index, 1);
      }
    }

    /** `createDirectory`: refused for an existing path; else `mkdirOk` decides the recursive `mkdir`. */
    method CreateDirectory(path: seq<string>, mkdirOk: bool) returns (r: bool)
      requires Valid()
      modifies this
      ensures Valid()
      ensures var out := CreateStep(old(fsPaths), old(recentlyDeleted), resolve(path), mkdirOk);
        r == out.ok && fsPaths == out.disk && recentlyDeleted == out.tombstones
    {
      var fullPath := resolve(path);
      if fullPath in fsPaths || !mkdirOk {
        return false;
      }
      fsPaths := MakeDirectories(fsPaths, fullPath);
      return true;
    }

    /**
     * `listDirectory`: `[]` for a missing path or a failed `readdir`; else
     * the entries of `listing` (what `readdir` returned) that are not
     * tombstoned, in order.
     */
    method ListDirectory(path: seq<string>, readOk: bool, listing: seq<Dirent>) returns (entries: seq<Dirent>)
      ensures resolve(path) !in fsPaths || !readOk ==> entries == []
      ensures resolve(path) in fsPaths && readOk ==>
        forall e :: e in entries <==> e in listing && Child(resolve(path), e.name) !in recentlyDeleted
      ensures resolve(path) in fsPaths && readOk ==> entries == VisibleEntries(listing, resolve(path), recentlyDeleted)
    {
      var fullPath := resolve(path);
      if fullPath !in fsPaths || !readOk {
        return [];
      }
      return VisibleEntries(listing, fullPath, recentlyDeleted);
    }
  }
}
