# The gateway's stateful middle layer, modelled and proved in Dafny

The gateway serves an S3 bucket over NFS. Between the NFS operations and the bucket sit a read path with a prefetch
buffer, a persistent store of inode numbers, a metadata cache, a disk cache of object data, files that are buffered
and uploaded on close, extended attributes kept in object metadata, and the filesystem operations that drive all of
these. This project models that layer and proves what it keeps over every run.

`dafny verify dfyconfig.toml` checks everything.

## How the model is laid out

| file | what it models |
|---|---|
| `Base.dfy` | options, bytes, list removal |
| `Paths.dfy` | paths, keys, parent prefixes, component rules of `filepath.Clean` |
| `Storage.dfy` | the bucket and its calls, listings with a delimiter, modes in metadata |
| `Handles.dfy` | `HandleStore`: inode numbers over a transactional database |
| `MetadataCaching.dfy` | `MetadataCache`: LRU list, TTLs, negative entries, listings |
| `DataCaching.dfy` | `DataCache`: LRU index, byte accounting, eviction, the rebuild at start |
| `DataRetention.dfy` | runs of calls on it, and what its list retains |
| `DataCacheInterleaving.dfy` | the same cache cut at its lock boundaries, any number of calls in flight |
| `Reading.dfy` | `chunkReader` and `s3File` |
| `ReadRuns.dfy` | runs of reads: several files over one data cache, and reads after a broken body |
| `ReaderInterleaving.dfy` | readers of any objects with the lookup, request and cache write of each fetch interleaved |
| `Codecs.dfy`, `Xattrs.dfy` | hexadecimal names, base64 values, the attribute store |
| `Coherence.dfy`, `Listings.dfy` | what it means for cached entries and listings to agree with the bucket |
| `MetadataInterleaving.dfy` | the entry cache with operations cut between their S3 calls and their cache calls |
| `MetadataSteps.dfy` | the operations of the gateway, one at a time, as runs of those steps |
| `FileSystem.dfy` | the operations of `S3FS` |
| `Writing.dfy` | `s3WritableFile` |
| `Gateway.dfy` | runs of operations |
| `RateLimit.dfy` | the token bucket |

Objects of the source become classes whose fields the methods update; each method is proved against functions of the
state, and the theorems about runs are lemmas about those functions, or methods that replay any sequence of
operations. Inductions are written out; no proof needs Dafny's automatic induction. The clock is a parameter. An S3
call fails if the operation's set `down` names it, and then changes nothing; a database transaction commits or fails
as a whole. `container/list` elements are known by number, which
keeps their identity without a heap: a stale element is told from a new one for the same key.

## Main results

- **Metadata coherence** (`Gateway.Run`): from a new gateway on any bucket, through any sequence of operations with
  failing S3 calls and failing transactions, every positive entry cached for a file names an existing object with its
  current size and mode, up to the first operation, if any, with one of three failures that can break it: a `HeadObject`
  that fails under `Symlink` for a key that is taken, or under `Readdir` for a file whose mode is not the default, and a
  `DeleteObject` that fails under `Rename` after the copy. For each of the three the operation's own contract says
  exactly when the caches are still right, and a run reaches a gateway where they are not (`Gateway.SymlinkBreaks`,
  `Gateway.ReaddirBreaks`, `Gateway.RenameBreaks`).
- **Coherence under concurrency** (`MetadataInterleaving.CoherentIffScheduled`): with any number of operations interleaved
  between their calls, the cache is coherent at every point, invalidations still to come apart, if and only if the
  schedule shows every step in time. A cachePut is in time if an invalidation of its key is still to come, or the last
  write of the object since the operation looked at it, if any, left the same size and mode. `Readdir` caches a mixture:
  for it the size counts from its listing and the mode from its `HeadObject`, and a `HeadObject` that fails must have
  given the right default. A write that owes no invalidation is in time if no entry of the key is cached or it leaves an
  object like the one it replaces. Operations one at a time are runs of these steps, each its own S3 and cache calls in
  order (`MetadataSteps.Serial`).
- **Lost updates** (`MetadataInterleaving.RewriteKeepsIff`, `MetadataInterleaving.LostUpdate`): `Chmod`, `Chown` and the
  attribute operations write back all the metadata they have read; the edit is made to the object's metadata of that
  moment exactly if it was not written meanwhile, or only in what the edit overwrites.
- **The bucket over every run** (`Gateway.Run`, `Gateway.Untouched`, `Gateway.ContentIsKnown`, `Gateway.ClosedStays`): while
  inode numbers last and no handle transaction fails it is a function of the operations and the failing S3 calls alone,
  whatever is cached; otherwise a placeholder can be missing, and only for want of an inode. Keys no operation names stay
  as they are, no content is invented, and what is closed stays.
- **Listings** (`Gateway.Run`, `Coherence.NewFileListedIff`, `FileSystem.S3FS.Readdir`): every cached listing shows
  exactly the files of its directory, except files put by `OpenFile` or `Symlink` while the listing of their
  directory stays cached. For a file that is new the listing is then wrong; for one that is replaced, exactly if its
  size or mode changes. An answer from a cached listing repeats the one the listing was made from, names, sizes, times and
  inodes (`Gateway.ReaddirAgain`). Over every run the cached listings also show exactly the subdirectories that hold something, if
  and only if no operation brings the first object below a subdirectory, or takes the last one, of a listing that
  survives it (`Gateway.RunDirs`).
- **`Stat`**, with no failing call and at least two inode numbers left, answers for an existing object exactly if the
  file's entry is served from the cache or no directory entry of the same name is, and finds nothing exactly if nothing
  of the name and nothing below it exists and no such entry is served. Call by call, the answer is what S3 shows, the
  file before the directory, where neither entry is served. Over every run a directory entry in the cache was made while
  something was below the directory, and has been there ever since (`Gateway.DirEntryOrigin`).
- **Inode identity and crash recovery** (`Handles.InodeIdentity`, `Handles.AlwaysSafeIff`): over all runs with failed
  transactions, crashes on either side of a commit and restarts; recovery with its exact condition on the calls. A key
  keeps its inode until a call removes it, renames it or renames another onto it (`Handles.InodeKept`).
- **Read refinement** (`ReadRuns.Replay`, `Reading.ChunkReader.ReadAt`): however the seeks and reads of several files of
  an object are interleaved over one data cache, they are cursors over the object, whatever the buffers, the chunk sizes,
  short replies, evictions and other traffic; with the number of requests bounded. A refused request only cuts the read
  short, or rejects it and leaves the position. For objects small enough to be cached this goes on until a part is cached
  for the whole. Which runs never get there is computed from the operations and their refusals, and on a cache that drops
  nothing by itself the answer is exact. With every step of every fetch interleaved, reads of any objects are right as
  long as nothing is cached that was fetched above 0 or answered short (`ReaderInterleaving.ReadsRight`), which holds if
  each fetch of a small object into an empty buffer starts at 0 and is answered in full
  (`ReaderInterleaving.SafeFromStart`).
- **Reads after a broken body** (`ReadRuns.BreakThenRead`): exactly which bytes come back wrong.
- **Write on close** (`Writing.Session`, `Writing.ActsAsPlainFile`): over every session, with downloads that are refused or
  break off, files never used and failed uploads; a plain file of the object's bytes where no download breaks off
  half-way.
- **Data cache**: whole files over all interleavings, transparency with its exact condition
  (`DataCacheInterleaving.TransparentIff`), accounting with its exact condition on the interleaving
  (`DataCacheInterleaving.RunAccountedIff`), eviction; calls made one at a time are runs of the same steps, and
  their hits are the latest puts (`DataCacheInterleaving.Serial`). What a call puts or finds is found again after any run
  of calls about other names, as long as it stays fresh and fits with all that was put or found since
  (`DataRetention.Retention`).
- **LRU retention and the forgetful map** (`MetadataCaching.Retention`, `MetadataCaching.ForgetfulMap`,
  `MetadataCaching.GoneUntilStored`).
- **Attributes** (`Xattrs.RunRefines`), their codecs, and the **token bucket** (`RateLimit.AllowedIffEveryWindowFits`).

## Where a promise does not hold

The model follows the code. Each of these is stated with its exact condition or a concrete case.

- `cacheInvalidateParent` is documented as dropping the parent directory's listing; it drops the parent's own entry and
  the listing one level above. The parent's listing goes only where `cacheInvalidate` is also called, so a file created
  by `OpenFile` or `Symlink` is missing from a cached listing of its directory (`Coherence.NewFileListedIff`). In the
  root directory the two prefixes coincide and the listing is dropped. Listings further up are never dropped, so one of
  them misses a subdirectory that appears with its first object, or keeps one whose last object has gone
  (`Listings.AllShowDirsIff`); `Gateway.SubdirectoryMissed` is a run.
- The consistency document says that nothing reaches S3 before close; opening a new file for writing puts an empty
  placeholder at once, and a failed `HeadObject` makes it overwrite an existing object (`FileSystem.S3FS.OpenFile`).
- `Close` uploads the temporary file even if it was never filled: an object opened for writing and closed untouched
  becomes empty (`Writing.WritableFile.Close`). A download that broke off leaves what was received: Close publishes it
  (`Writing.BrokenSession`), a retry appends to it (`Writing.FindsObjectIff`, `Writing.RetrySession`), and a truncation
  forgets it but not the position, so that the next write leaves a gap of zeros (`Writing.TruncateLeavesGap`).
- A range read that breaks off in its body has overwritten a buffer that still claims its old window; a read back in
  that window delivers the object's bytes exactly if those overwritten, or lost to a larger buffer, happen to agree
  (`ReadRuns.BreakThenRead`), and `ReadRuns.WrongBytes` is a run that delivers "cb" for "ab".
- A range request served with an empty body leaves the read loop asking for the same offset again
  (`Reading.ChunkReader.FetchRange`); that a read ends is proved where served bodies have at least one byte.
- A fetch of a small object that does not start at 0, or comes back short, is cached as if it were the whole object
  (`Reading.ChunkReader.FetchChunk`). Later readers take its bytes for others, or find nothing and ask again and again
  (`ReadRuns.PartForWhole`).
- `RenameKey` onto a mapped key leaves that key's inode behind (`Handles.RenameKeepsInverseIff`,
  `Handles.RenameOntoMappedRecoversIff`), the key `"\0"` is stored as the root (`Handles.NulKeyTakesTheRoot`), and a
  removed root comes back on a restart (`Handles.RootComesBack`). These three are all that can go wrong
  (`Handles.CommitSafeIff`).
- `DataCache.Get` cleans up with an element that may have been removed meanwhile
  (`DataCacheInterleaving.CleanKeepsAccountsIff`), and a run gets there
  (`DataCacheInterleaving.LateCleanUpBreaksAccounts`); key and ETag are joined without a separator
  (`DataCacheInterleaving.TransparentIff`); after a restart the TTL pass can miss stale entries
  (`DataCaching.TtlPassExactIff`, `DataCacheInterleaving.RestartKeepsStale`).
- A `HeadObject` that fails under `Readdir` gives a file the default mode, in the answer and in both caches; a
  `DeleteObject` that fails under `Rename` leaves the caches as they were before the copy; a `HeadObject` that fails
  under `Symlink` lets it overwrite a file whose entry stays cached (the contracts of these three operations).
- A rename of a directory moves its marker alone: it is complete exactly if nothing else was under it
  (`FileSystem.DirectoryRenameCompleteIff`), and `Gateway.DirectoryLeftBehind` is a run that leaves a file behind.
- Opening or listing a directory caches mode 0755 for it, whatever its marker says, and Stat then serves that: the entry is
  right exactly if there is no marker or its mode is 0755 (`FileSystem.S3FS.OpenDirectory`,
  `FileSystem.DirShownRightIff`); `Gateway.DirectoryModeLost` is a run that answers 0755 for a directory of mode 0700.
- Operations that run side by side can leave a stale entry: a reply to HeadObject that reaches the cache after another
  operation has changed the object and invalidated its entry (`MetadataInterleaving.LateReplyStaleIff`). A `Readdir` does
  so even if nothing is written between its HeadObject and its cachePut, when the object was replaced by one of another
  size after the listing (`MetadataInterleaving.LateListingStaleIff`). And of two operations on the metadata that have
  both read before either writes, what the first set is lost (`MetadataInterleaving.LostUpdate`).
- Invalidating an S3 key in the data cache misses versions found by the scan at start, even if they are put again
  (`DataCaching.DataCache.InvalidateKey`, `DataCaching.InvalidateMissesScanned`); entries are looked up by ETag, so what
  stays is the content of that version.
- Renaming a path to itself deletes the object, and a crash between the delete and the handle transaction leaves the
  handle without an object (`FileSystem.RenameLosesNothing`, `FileSystem.RenameCrash`).
- A file whose mode is 0 is shown as 0644 when its directory's listing comes from the cache, and as it is when it comes
  from S3 (`Listings.ModeShownIff`, with `Listings.ListsFile` in the contract of `FileSystem.S3FS.Readdir`).
- Where a backend changes the case of a metadata key, setting an attribute leaves the old slot beside the new one, and
  the name is listed once for each (`Xattrs.SetLeavesOneSlotIff`).

## Model

| member | source | states |
|---|---|---|
| Gateway.Run | internal/s3fs/filesystem.go:109-496 | through any sequence of operations up to the first with one of the three harmful failures, every positive file entry in the cache has its object's size and mode, and every cached listing shows exactly its directory's files but those put meanwhile, which only opens for writing and symlinks can be; and the bucket is what the operations make of it one by one, independent of the caches, with each open that S3 does not report placing its file but for want of an inode |
| Gateway.CalmIsBenign | internal/s3fs/filesystem.go:355-409 | an operation under which no HeadObject (for Symlink and Readdir) and no DeleteObject (for Rename) fails is harmless on any bucket |
| Gateway.MarkedPlan | internal/s3fs/filesystem.go:109-496 | with no failing transaction and inodes left, the bucket after a run is a function of the operations and the failing S3 calls |
| Gateway.Perform | internal/s3fs/filesystem.go:109-496 | every single operation keeps cached entries and listings right, and changes the bucket exactly as the operation, the failing calls and the bucket before say, whatever is cached; the file entries it adds are those of the objects it has read or put, and those it drops are the ones it invalidates, or what the cache gives up |
| Gateway.Untouched | internal/s3fs/filesystem.go:109-496 | over every run a key that no operation names keeps its object, or stays free |
| Gateway.ContentIsKnown | internal/s3fs/filesystem.go:109-496 | no run invents content: every object is empty, or has the bytes of an object at the start or of a file closed |
| Gateway.ClosedStays | internal/s3fs/file.go:401-425 | what a close uploads is what the key holds after any run of operations that do not name it |
| Gateway.SymlinkBreaks | internal/s3fs/filesystem.go:355-370 | a run whose failed HeadObject under Symlink leaves a cached entry that contradicts the bucket |
| Gateway.RenameBreaks | internal/s3fs/filesystem.go:403-409 | a run whose failed DeleteObject under Rename does |
| Gateway.ReaddirBreaks | internal/s3fs/file.go:191-216 | a run whose failed HeadObject under Readdir caches a wrong mode |
| Gateway.DirectoryModeLost | internal/s3fs/filesystem.go:166-183 | a run that opens a directory of mode 0700 and then answers 0755 for it, from a gateway whose file entries are right |
| Gateway.DirectoryLeftBehind | internal/s3fs/filesystem.go:420-438 | a run that renames a directory and leaves its file under the old name |
| Gateway.RunDirs | internal/s3fs/cache_integration.go:94-118 | over every run all cached listings show exactly the subdirectories that hold something at every point, if and only if no event brings the first object below a subdirectory, or takes the last one, of a listing that survives it; and every positive directory entry was made by an event while something was below the directory, and has been there ever since |
| Gateway.DirsShownIff | internal/s3fs/cache_integration.go:94-118 | the same for any sequence of buckets and listings in which each listing is kept or taken anew |
| Gateway.SubdirectoryMissed | internal/s3fs/cache_integration.go:94-103 | a run that lists the root, closes the first file two levels below, and leaves a cached listing without the new subdirectory |
| Gateway.DirEntryOrigin | internal/s3fs/filesystem.go:249-277 | over every run a positive directory entry was made by one of the operations, at its time, while something was below the directory, and has been in the cache ever since |
| Gateway.ReaddirAgain | internal/s3fs/file.go:145-223 | a second Readdir within the directory TTL, with nothing between, has an answer if the first has, whatever fails then, and it repeats the first entry by entry, with the default for a mode of zero |
| MetadataInterleaving.CoherentIffScheduled | internal/s3fs/filesystem.go:206-306 | over every interleaving the cache is coherent at every point, invalidations still owed apart, if and only if every step is in time by the schedule: the last write of the object since a HeadObject, or since a put of one's own, left the same size and mode, for a Readdir the same size since its listing and the same mode since its HeadObject; a write that owes no invalidation has no entry to contradict |
| MetadataInterleaving.StillSoIff | internal/s3fs/file.go:168-204 | the writes since an operation looked tell exactly whether what it is about to cache has the object's size and mode, for a Readdir with the listed size and the later or default mode |
| MetadataInterleaving.SinceHolds | internal/s3fs/filesystem.go:280-306 | after any run the object under a key is what its last write since any earlier moment left, or what was there then |
| MetadataInterleaving.OwingIsOwed | internal/s3fs/filesystem.go:300-306 | the invalidations owed for a key are its writes that owe one less those made |
| MetadataInterleaving.StepFits | internal/s3fs/cache_integration.go:55-84 | a step keeps the cache coherent exactly if it caches what is still so, or writes without owing an invalidation where no entry is contradicted |
| MetadataInterleaving.AtRest | internal/s3fs/cache_integration.go:79-84 | when no invalidation is owed that is coherence of files |
| MetadataInterleaving.UndisturbedInTime | internal/s3fs/filesystem.go:236-247 | what a lookup knows is still so if its object is not written after its HeadObject, and what a Readdir knows if it is not written after the listing and the HeadObject succeeded, whatever runs beside |
| MetadataInterleaving.LateReplyStaleIff | internal/s3fs/filesystem.go:236-306 | a reply cached after another operation has replaced the object and invalidated its entry leaves a stale entry exactly if the versions differ in size or mode |
| MetadataInterleaving.LateListingStaleIff | internal/s3fs/file.go:168-204 | a Readdir whose object is replaced between its listing and its HeadObject caches a stale entry exactly if the versions differ in size |
| MetadataInterleaving.RewriteKeepsIff | internal/s3fs/filesystem.go:284-299 | a metadata rewrite leaves its edit of the object's current metadata exactly if the object was not written since its HeadObject, or the last write differs only in what the edit overwrites; the content is the current one |
| MetadataInterleaving.LostUpdate | internal/s3fs/xattr.go:121-150 | of two rewrites that have both read before either writes, the second's edit of the old metadata remains, and a key the first set and the second leaves alone has that value exactly if it had it before |
| MetadataSteps.Serial | internal/s3fs/filesystem.go:109-496 | for any sequence of operations on a new gateway up to the first harmful failure there is a run of the step machine, made of the calls of each operation in order, that stands at the gateway's bucket and file entries and owes nothing |
| MetadataSteps.EventSteps | internal/s3fs/filesystem.go:109-496 | from a run that stands at the gateway, every operation leads to that run extended by its own S3 and cache calls and what the cache gives up |
| MetadataSteps.MetaIsEdited | internal/s3fs/xattr.go:121-200 | Chmod, Chown, SetXattr and RemoveXattr set and delete single metadata keys of what they have read |
| MetadataSteps.FetchTo | internal/s3fs/filesystem.go:236-247 | a Stat or an open that reads is at most a HeadObject and a cachePut |
| MetadataSteps.ListTo | internal/s3fs/file.go:168-204 | a Readdir is a ListObjects, then a HeadObject and a cachePut for each file it caches |
| MetadataSteps.CloseTo | internal/s3fs/file.go:401-425 | the upload of Close is a put, two invalidations and a cachePut of what was put |
| MetadataSteps.Moved | internal/s3fs/filesystem.go:403-414 | a rename is a copy, a delete and four invalidations |
| Coherence.StaysCoherent | internal/s3fs/cache_integration.go:55-84 | a table whose entries are old ones for unchanged keys, negative, directories or current stays coherent with the changed bucket |
| Coherence.StaysFresh | internal/cache/metadata.go:240-251 | listings stay right if each changed file is pending or has lost its directory's listing |
| Coherence.PutKeepsListingsIff | internal/s3fs/filesystem.go:403-409 | a file put without touching the listings leaves them right exactly if its directory's listing is not cached or it replaces a file of the same size and mode |
| Coherence.NewFileListedIff | internal/s3fs/filesystem.go:156-163 | a file put in the bucket leaves the cached listings right exactly if its own directory's listing is not cached |
| FileSystem.S3FS.constructor | internal/s3fs/filesystem.go:34-41 | a new gateway has empty caches, which agree with any bucket |
| FileSystem.S3FS.OpenFile | internal/s3fs/filesystem.go:109-203 | the attributes are the object's, the inode is the key's; a file opened is a new placeholder exactly if S3 did not report the object, else nothing is written; a new file is pending exactly if its directory's listing is still cached; an object S3 reports is opened exactly if it can have an inode; it fails only for want of an inode or a failed put; a directory has some object under its key, the key's inode, and the defaults if the listing succeeds, the marker's attributes otherwise; what is answered is what is then cached, and no listing is dropped but, for a new file, the one above its directory's; with no failing call an open for reading finds nothing exactly if nothing of the name and nothing below it exists; opening for reading answers, call by call, with what S3 shows; what is cached is what is answered, and inodes go to the keys asked for alone |
| FileSystem.S3FS.CreatePlaceholder | internal/s3fs/filesystem.go:151-164 | the bucket gains one empty object with default metadata; it fails, changing nothing, exactly for want of an inode or a failed put |
| FileSystem.S3FS.OpenDirectory | internal/s3fs/filesystem.go:166-202 | never reports a file; a directory has its key's inode and the default attributes if the listing succeeds, the marker's otherwise, so its mode is right exactly if the listing failed, there is no marker, or the marker has the default mode; with no failing call it is not found exactly if no object is under its key; it fails only for want of an inode; it is found exactly if the listing shows something or the marker is reported, call by call |
| FileSystem.S3FS.Stat | internal/s3fs/filesystem.go:206-277 | a file reported is the object, with its size, mode, inode and name; a directory has the key, name and inode of the path, and is either served from a live cache entry, with its size, mode and time, or has some object under it, with the marker's size, mode and time or the defaults; with no failing call and inodes left an existing object is reported exactly if its entry is served or no directory entry of that name is, and not found comes exactly if nothing of the name and nothing below it exists and no such entry is served; where the directory's entry is served and the file's is not, the answer has that entry's attributes; it fails only for want of an inode; the caches stay right; where neither entry is served the answer is, call by call, the file if HeadObject reports it, else the directory if its marker or a listing shows it, else not found; only what is answered is cached, so a directory entry only while something is below it, and inodes go to the two keys alone |
| FileSystem.S3FS.StatFromCache | internal/s3fs/filesystem.go:215-234 | with inodes left there is an answer exactly if the file's or the directory's entry is live and positive, the file's first, with the attributes of that entry |
| FileSystem.S3FS.StatFromS3 | internal/s3fs/filesystem.go:236-277 | a file has the object's attributes and the key's inode; a directory has some object under its key, the key's inode, and the marker's size, time and mode or the defaults; with no failing call not found comes exactly if nothing of the name and nothing below it exists; it fails only for want of an inode; what is answered is what is then cached, not found as negative entries for both keys; the caches stay right; the answer is, call by call, what S3 shows; nothing else is cached, in particular no directory entry for a file |
| FileSystem.S3FS.FoundFile | internal/s3fs/filesystem.go:236-247 | an object found is answered with its attributes and its key's inode, and just that is cached; it fails exactly for want of an inode |
| FileSystem.S3FS.StatDirectory | internal/s3fs/filesystem.go:249-277 | a directory is answered exactly if its marker is reported or a listing shows something, and it can have an inode, with the marker's attributes or the defaults; just that is cached |
| FileSystem.S3FS.Chmod | internal/s3fs/filesystem.go:280-306 | stores the permission bits on the located object, which read back as those bits, with the directory bit for a directory, and drops exactly its entry and listing; not-exist exactly if nothing is located, refused exactly if the rewrite fails |
| FileSystem.S3FS.Chown | internal/s3fs/filesystem.go:309-340 | stores the ids that are not negative, which read back as decimal numbers, leaves content and mode alone, and drops exactly its entry and listing; not-exist exactly if nothing is located, refused exactly if the rewrite fails |
| FileSystem.S3FS.Symlink | internal/s3fs/filesystem.go:343-371 | done exactly for a target of 1 to 4080 bytes, a key not reported taken and a put that succeeds; then the one new object is empty, has mode 0777, and Readlink returns the target; exactly the directory's entry and the listing above it are dropped; and exactly when the caches stay right |
| FileSystem.S3FS.CacheInvalidateMoved | internal/s3fs/filesystem.go:411-414 | the four invalidations of a rename drop exactly the entries of both keys and both parents, and the listings that show them |
| FileSystem.S3FS.NoteLink | internal/s3fs/filesystem.go:365-370 | what a link already put does to the caches, and exactly when they stay right |
| FileSystem.S3FS.Readlink | internal/s3fs/filesystem.go:374-389 | not-exist exactly if the object is not reported; a target only if the metadata has one that is not empty, and then that one |
| FileSystem.S3FS.Rename | internal/s3fs/filesystem.go:397-441 | the effect on the bucket at each way of ending, the handle's move, exactly what is dropped from the caches, and when a failed delete leaves them right; a directory marker goes to a directory key, a file to a file key |
| FileSystem.S3FS.Remove | internal/s3fs/filesystem.go:444-474 | deletes exactly the located object, drops exactly its entry and listing and those of its directory, and removes its handle if that transaction commits |
| FileSystem.S3FS.MkdirAll | internal/s3fs/filesystem.go:477-496 | puts exactly the directory's marker, gives it an inode, drops exactly the entries of its two keys and its parent with the listings that show them; done exactly if the put succeeds and an inode can be had |
| FileSystem.S3FS.CopyFile | internal/s3fs/copy.go:14-24 | the whole object under a second key, exactly if the source exists and the copy succeeds; exactly the target's entry and listing and those of its directory are dropped |
| FileSystem.S3FS.CommitUpload | internal/s3fs/file.go:401-425 | one put of the whole content with mode 0644, after which the cached entry has the new object's size, mode and time, the directory's entry, its listing and the one above are gone, and no other listing |
| FileSystem.S3FS.Readdir | internal/s3fs/file.go:137-223 | the full answer, of which a positive count takes the front, has exactly the directory's existing files with their sizes, and with their modes but for 0 in an answer from a cached listing, files put since that listing excepted; no entry comes twice, each has the inode of its key, and directories have mode 0755 and no size; an answer from S3 also has the files' times and exactly the subdirectories, one from a cached listing exactly if the listing shows them; and an answer from S3 leaves the caches right exactly if each file whose HeadObject failed has the default mode; there is no answer only if the listing failed or an entry can get no inode; from a cached listing every entry has the name, size, time and kind of the listing's; from S3 the listing cached has those of the answer, each file has the mode its own HeadObject gave, or the default, whatever fails for others, and directories have no time; entries and inodes go to what was listed alone |
| FileSystem.S3FS.ListedInfos | internal/s3fs/file.go:168-222 | the answer from S3 has every file of the directory and exactly its subdirectories, none twice, each with the inode of its key, directories with mode 0755, and what it caches is right exactly if each file whose HeadObject failed has the default mode, its subdirectories always; there is none only if an entry can get no inode; each file has the mode its own HeadObject gave, or the default, whatever fails for others, and the listing cached has the fields of the answer |
| FileSystem.S3FS.CachedInfos | internal/s3fs/file.go:148-166 | the answer from a cached listing has its named entries in order, with their keys' inodes; there is none only if an entry can get no inode |
| FileSystem.S3FS.SetXattr | internal/s3fs/xattr.go:111-155 | on success the located object has the metadata the attribute store computes and its old content, and exactly its entry and listing are dropped; on an error nothing changes, in the bucket or the caches, and unless the rewrite failed it is the error the store gives; a long value or an invalid name is refused before the object is looked for, and then a missing object is not-exist |
| FileSystem.S3FS.RemoveXattr | internal/s3fs/xattr.go:175-199 | likewise for removal |
| FileSystem.S3FS.GetXattr | internal/s3fs/xattr.go:87-107 | the decoded value of the exact slot where it is present, else of some other spelling of it, not-exist where there is none or no object, and invalid for an invalid name |
| FileSystem.S3FS.CacheGet | internal/s3fs/cache_integration.go:17-52 | a hit is a positive entry no older than the TTL of its kind, with all its attributes and the key's inode; a stale entry goes |
| FileSystem.S3FS.CachePut | internal/s3fs/cache_integration.go:55-68 | the table gains this entry, every field as given, and may forget others |
| FileSystem.S3FS.CacheInvalidate | internal/s3fs/cache_integration.go:79-84 | drops the entry and the listing of the directory that holds the key |
| FileSystem.S3FS.CacheInvalidateParent | internal/s3fs/cache_integration.go:96-102 | drops the directory's own entry and the listing one level above it |
| FileSystem.S3FS.EvictTick | internal/cache/metadata.go:327-346 | the background eviction drops exactly the entries and listings past their TTL, and keeps the rest right |
| FileSystem.RenameLosesNothing | internal/s3fs/filesystem.go:403-409 | after every step that the contract of Rename can stop at only the two keys differ and the content is under one of them, at the end exactly if the keys differ |
| FileSystem.DirectoryRenameCompleteIff | internal/s3fs/filesystem.go:420-438 | a directory rename to somewhere else leaves nothing under the old name exactly if the marker was all there was; every other object stays where it was |
| FileSystem.DirShownRightIff | internal/s3fs/file.go:185-207 | a directory in an answer of Readdir has its marker's mode exactly if there is no marker or its mode is 0755 |
| FileSystem.ListedAnswersWell | internal/s3fs/file.go:168-222 | in an answer from S3 no entry comes twice, and each has the inode of its key |
| FileSystem.CachedAnswersWell | internal/s3fs/file.go:148-166 | so in an answer from a cached listing |
| FileSystem.RenameCrash | internal/s3fs/filesystem.go:403-410 | after a crash at any step of a rename, onto a free key or over another file, and a restart: the file's inode leads to a key that holds its content exactly if the crash was before the delete, or after the transaction and the target is neither the same key nor the key of one NUL |
| FileSystem.HandleFollowsRename | internal/s3fs/filesystem.go:76-93 | a handle from before a completed rename of a file resolves to the new path, and that path to the new key |
| FileSystem.ResolvesNotIff | internal/s3fs/filesystem.go:76-85 | a handle leads nowhere exactly if it has fewer than eight bytes or its inode has no key |
| FileSystem.StaleHandle | internal/s3fs/filesystem.go:82-85 | the handle of an inode that has no key leads nowhere, whatever follows it |
| FileSystem.HandleAfterRemove | internal/s3fs/filesystem.go:82-93 | after a completed removal the file's handle leads nowhere, and every other handle where it did |
| FileSystem.HandleResolves | internal/s3fs/filesystem.go:76-93 | a handle, whatever bytes follow it, leads to the path of its inode's key |
| FileSystem.ResolvedLeadsBack | internal/s3fs/filesystem.go:76-93 | that path leads back to the key, or to the directory of that name |
| FileSystem.LocateFinds | internal/s3fs/filesystem.go:284-292 | an operation on a path works on the file exactly if S3 reports it, and on the directory marker exactly if S3 reports that and not the file |
| FileSystem.RenameKeepsKind | internal/s3fs/filesystem.go:399-425 | a file is renamed to a file key, a directory marker to a directory key |
| FileSystem.NameOfPath | internal/s3fs/file.go:481-487 | the name of a path is its last component |
| FileSystem.NewFileAttributes | internal/s3fs/attrs.go:14-27 | a file the gateway writes has ids 1000, mode 0644 and no other metadata |
| FileSystem.LinkAttributes | internal/s3fs/filesystem.go:358-363 | a link has ids 1000, mode 0777 and its target |
| FileSystem.CopyLeavesGoodIff | internal/s3fs/filesystem.go:404-409 | with one object put under any key and nothing dropped, entries and listings stay right exactly if neither the key's entry nor its directory's listing contradicts the object |
| FileSystem.OneNewObject | internal/s3fs/filesystem.go:365-370 | with one object put under a file key a coherent table stays so exactly if its entry for the key is right |
| Listings.CachedAnswer | internal/s3fs/file.go:148-166 | the answer from a listing that is right has exactly the directory's files, with their modes but for 0, which is shown as 0644 |
| Listings.ModeShownIff | internal/s3fs/cache_integration.go:163-185 | in an answer that lists a file, the file has its own mode exactly if the answer comes from S3 or the mode is not 0, and 0644 otherwise |
| Listings.NewListing | internal/s3fs/file.go:173-216 | the listing just cached is right exactly if each file whose HeadObject failed has the default mode, and then the answer has every file of the directory with its mode |
| Listings.ListingShows | internal/s3fs/file.go:191-210 | the cached listing shows a file as it is exactly if the mode it was given, the default where HeadObject failed, is the file's |
| Listings.AllListedSeen | internal/s3fs/file.go:191-200 | in an answer from S3 every existing file of the directory, and no other, has its size and time and the mode its own HeadObject gave, or the default |
| Listings.DirTimes | internal/s3fs/file.go:200 | the directories of an answer from S3 have no time |
| Listings.ListedChild | internal/s3fs/file.go:175-183 | a named entry of a listing is a child of the directory, under the name recomputed from its key |
| Listings.ListingDirs | internal/s3fs/file.go:175-183 | an answer from S3 shows a directory of a name exactly if some object is under it |
| Listings.DirsStayIff | internal/s3fs/cache_integration.go:94-118 | a cached listing that is not dropped when the bucket changes still shows exactly the subdirectories that hold something, if and only if below each of them something was there already where a key has come, and something is left where one has gone |
| Listings.OneKeyUnnoticedIff | internal/s3fs/cache_integration.go:94-103 | one key put or deleted makes no difference to a subdirectory exactly if it was there before as after, is not below it, or something else is |
| Listings.AllShowDirsIff | internal/s3fs/cache_integration.go:94-118 | the same for all listings that survive a change |
| Listings.ListingShowsDirs | internal/s3fs/file.go:175-216 | a listing just cached shows exactly the subdirectories that hold something |
| Listings.CachedDirsIff | internal/s3fs/file.go:148-166 | an answer from a cached listing has exactly the subdirectories that hold something if and only if the listing does |
| Listings.SomethingListed | internal/s3/client.go:152-181 | a listing is empty exactly if no object is under the prefix |
| Writing.Session | internal/s3fs/file.go:248-426 | in every session: the bucket changes only on Close; an operation before any got through is rejected exactly if it needs the object and cannot get all of it; the first that gets it finds it behind what broken downloads left; Close publishes what the file then holds, if its put succeeds |
| Writing.ActsAsPlainFile | internal/s3fs/file.go:290-365 | where no download breaks off half-way, exactly the operations before the first that truncates or gets the object are rejected; from there on every outcome and the content published are those of a plain file of the object's bytes |
| Writing.FindsObjectIff | internal/s3fs/file.go:290-307 | after operations that did not get the object, the first that does finds it behind all that broken downloads delivered, so as it is if and only if none of them delivered a byte; closed before that, the file is what was received |
| Writing.PilesUp | internal/s3fs/file.go:299-301 | operations that do not get the object are rejected, and what their downloads delivered piles up |
| Writing.RetrySession | internal/s3fs/file.go:290-405 | a session with a download that breaks off and a retry publishes the part received followed by the whole object |
| Writing.BrokenSession | internal/s3fs/file.go:290-405 | a session closed after a broken download publishes the part received |
| Writing.WriteLaw | internal/s3fs/file.go:330-340 | a write changes exactly the bytes it covers; the rest stays, and a gap before it is zeros |
| Writing.WriteReadBack | internal/s3fs/file.go:317-353 | what is written is what a seek back and a read deliver |
| Writing.ReadLaw | internal/s3fs/file.go:317-327 | a read delivers the bytes at the position, as many as there are, moves behind them, and tells the end exactly if there are none |
| Writing.ReadsJoin | internal/s3fs/file.go:317-327 | reading a and then b bytes is reading a + b |
| Writing.SeekLaw | internal/s3fs/file.go:343-353 | a seek goes from the start, the position or the end, and is rejected before the start or with another whence |
| Writing.TruncateLaw | internal/s3fs/file.go:356-365 | a truncation leaves nothing to read and keeps the position |
| Writing.TruncateLeavesGap | internal/s3fs/file.go:355-365 | what is written after a broken download and a truncation comes behind as many zeros as bytes were received |
| Writing.WritableFile.constructor | internal/s3fs/file.go:263-286 | a new temporary file is empty, and counts as downloaded exactly for an object just created |
| Writing.WritableFile.EnsureDownloaded | internal/s3fs/file.go:290-307 | what each way a download can go leaves in the temporary file; one that succeeds leaves the object's bytes exactly if no earlier one had left anything |
| Writing.WritableFile.Do | internal/s3fs/file.go:317-365 | each operation acts as the reference says, in every state; after Close it is rejected and changes nothing |
| Writing.WritableFile.Close | internal/s3fs/file.go:375-426 | one put of the temporary file, a coherent cached entry, no effect the second time; a file never used leaves the object as it was exactly if it was empty |
| Writing.RetryAppends | internal/s3fs/file.go:299-301 | a download goes behind what the temporary file has, so it leaves the object's bytes exactly if that was nothing |
| ReadRuns.Replay | internal/s3fs/reader.go:61-177 | for any interleaving of operations of several files over one data cache with other traffic: each outcome is a cursor's at that position, or if a request was refused meanwhile the same cut short, or an error that keeps the position, up to an event, if any, that leaves a part cached for the whole; that event is a read above 0 of what its buffer does not hold; a run that is safe has none, and on a lasting cache without other traffic every other run has one |
| ReadRuns.ServedRun | internal/s3fs/file.go:47-102 | a run in which every request was served gives exactly the outcomes of independent cursors |
| ReadRuns.BreakThenRead | internal/s3fs/reader.go:152-165 | after a read whose body breaks off, a read inside the old window delivers what is left there, which is the object's bytes exactly if each byte overwritten by the body or lost to a larger buffer happens to agree |
| ReadRuns.AfterBreakRightIff | internal/s3fs/reader.go:152-165 | any stretch of a right window is right after a broken body exactly if no byte of it was harmed |
| ReadRuns.WrongBytes | internal/s3fs/reader.go:152-165 | a reader of "abcd" that after one request served and one broken off delivers "cb" for the first two bytes from its own window, without a further request |
| ReadRuns.PartForWhole | internal/s3fs/reader.go:118-143 | a cache that after the only request has the second byte of a two-byte object for the whole; other readers get it for the first byte and nothing for the second, without a request |
| ReaderInterleaving.ReadsRight | internal/s3fs/reader.go:108-174 | in every interleaving of lookups, requests, cache writes, evictions and restarts, with names that tell objects apart, if nothing is cached that was fetched above 0 or answered short, every buffer and every read shows the object's own bytes |
| ReaderInterleaving.WholeObjectsIff | internal/s3fs/reader.go:171-174 | the cache has been given only whole objects exactly if no fetch above 0 or answered short was cached |
| ReaderInterleaving.SafeFromStart | internal/s3fs/reader.go:108-174 | and that is so in every interleaving in which each fetch of a small object into an empty buffer starts at 0 and its request is answered in full |
| ReaderInterleaving.CopyDelivers | internal/s3fs/reader.go:78-86 | in every such interleaving a copy hands over all the bytes asked for, the object's at that offset |
| ReaderInterleaving.FetchFills | internal/s3fs/reader.go:118-165 | and a hit fills the buffer with all that was asked for, a request with as much as it was answered |
| ReadRuns.ReadThrough | internal/s3fs/reader.go:61-73 | reads in sequence deliver the front of the object in order, and the chunk grows to 4 MB with the fifth of them and to 16 MB with the thirteenth |
| Reading.DeliveredRightIff | internal/s3fs/reader.go:77-84 | the bytes a read delivers are the object's exactly if the part of the buffer they come from is right |
| Reading.S3File.Do | internal/s3fs/file.go:47-102 | with a right buffer and no broken body, a read or seek acts as on a cursor over the object, cut short or rejected in place if a request was refused, and what it does to buffer and cache is determined |
| Reading.CursorReads | internal/s3fs/file.go:47-66 | a cursor delivers the bytes at its position, as many as there are, and tells the end with the last of them or when nothing is asked for |
| Reading.CursorReadsJoin | internal/s3fs/file.go:47-66 | reading a and then b bytes is reading a + b |
| Reading.CursorSeeks | internal/s3fs/file.go:73-102 | a cursor seeks from the start, the position or the end, and rejects what is before the start or has another whence |
| Reading.SeekAndReturn | internal/s3fs/file.go:73-102 | a seek and its reverse lead back; n bytes before the end a read of n delivers the tail and the end |
| Reading.S3File.Read | internal/s3fs/file.go:47-66 | delivers what the buffer shows at the offset and then the object's bytes, in full if every request is served; end of file exactly at the end or when nothing is asked for; an error only where nothing could be delivered; keeps a right buffer right unless a body breaks off |
| Reading.S3File.Seek | internal/s3fs/file.go:73-102 | the new offset counted from the start, the position or the end, case by case, or the error for one before the start or another whence; the buffer is kept exactly if the offset does not change or the buffer holds the new one |
| Reading.ChunkReader.constructor | internal/s3fs/reader.go:47-57 | an empty buffer and the smallest chunk |
| Reading.ChunkReader.ReadAt | internal/s3fs/reader.go:61-106 | delivers what the buffer shows and then the object's bytes, in full if every request is served; end of file exactly at the end or when nothing is asked for; counts a read as sequential exactly if it starts where the last one ended; k requests with full replies only if k - 1 chunks are fewer bytes than wanted; a right buffer stays right unless a body breaks off; a small object is fetched at most once, and the cached file is then the object exactly if that was a hit, refused, not stored, evicted, or from 0 |
| Reading.ChunkReader.ReadLoop | internal/s3fs/reader.go:75-94 | the loop ends with all bytes wanted or at the first request that is not served; a right buffer stays right unless a body breaks off, and a fetch that fails first leaves the window over what its reply made of the buffer |
| Reading.ChunkReader.FetchChunk | internal/s3fs/reader.go:109-177 | whatever is cached and answered: a hit takes what the cached file has at the offset, a miss what the server delivers; a failed fetch leaves the window over what the reply made of the buffer; what a small fetch caches is the whole object exactly if it starts at 0 and is complete |
| Reading.ChunkReader.LookUp | internal/s3fs/reader.go:118-143 | a hit exactly if the entry is fresh and its file there, and then the file, whole or not; a whole file stays whole |
| Reading.ChunkReader.TakeCached | internal/s3fs/reader.go:121-136 | the buffer after a hit: what the cached file has at the offset, nothing if it ends before |
| Reading.ChunkReader.FetchRange | internal/s3fs/reader.go:145-169 | what each reply does to the buffer; after a served request the loop can go on exactly if the body was not empty |
| Reading.ChunkReader.BreakOff | internal/s3fs/reader.go:152-165 | what the old window shows after a body that breaks off, in a buffer that was large enough and in one that had to grow |
| Reading.ChunkReader.AdaptChunkSize | internal/s3fs/reader.go:180-187 | the chunk is 1, 4 or 16 MB exactly as the count is below 4, below 12 or more |
| Reading.ChunkReader.Track | internal/s3fs/reader.go:66-73 | the chunk size always follows the count of sequential reads |
| Reading.ChunkReader.SeekTo | internal/s3fs/reader.go:194-209 | the buffer is kept exactly if it holds the new offset, and tracking starts over |
| DataCaching.DataCache.constructor | internal/cache/data.go:99-129 | the rebuilt index is accounted and within the limit, each entry has its file's size and time and no S3 key, and what was evicted is determined, whichever files and shards the scan could not read; the defaults; the files that stay are as found, and with no TTL and room for all of them all are indexed and stay |
| DataCaching.DataCache.Get | internal/cache/data.go:133-178 | a hit, exactly if the entry is within the TTL and its file there, is the file's content, and moves the entry to the front with the time of access; the index after each of the four ways a lookup can go; a miss drops exactly the entry and the file of that name, if there is one, and leaves every other entry as it was |
| DataCaching.DataCache.Put | internal/cache/data.go:182-238 | the file holds the data put, others are as before or gone, and the index is what recording and evicting make of it; what fits is there afterwards, under the S3 key it was first recorded with; the others that stay are as they were, in their order, and with no TTL and room for all of them all stay |
| DataCaching.DataCache.InvalidateKey | internal/cache/data.go:241-257 | drops exactly the entries recorded under one S3 key, index and files; an entry found by the scan at start is recorded under none |
| DataCaching.InvalidateMissesScanned | internal/cache/data.go:216-222 | a version found by the scan and put again survives the invalidation of its S3 key: its file and its entry stay, the entry carries no S3 key though no other entry carries that one any more, and the next lookup hits |
| DataCaching.DataCache.EvictNow | internal/cache/data.go:293-324 | leaves the prefix the two counting functions determine, deletes the other files, and keeps the books |
| DataCaching.FitCountIsLongest | internal/cache/data.go:315-323 | size eviction keeps the longest most-recent prefix whose total is within the limit |
| DataCaching.FrontSurvives | internal/cache/data.go:293-324 | eviction spares the entry at the front if it is fresh and fits on its own |
| DataCaching.TtlPassExactIff | internal/cache/data.go:298-312 | the TTL pass removes exactly the stale entries if and only if none stands ahead of a fresh one |
| DataCaching.TtlPassExact | internal/cache/data.go:298-312 | on a list in access order it removes exactly the entries whose last access is further back than the TTL |
| DataCaching.VersionsApart | internal/cache/data.go:281-284 | two versions of one object have two file names, and so have two objects of one ETag |
| DataCaching.EvictedRemains | internal/cache/data.go:293-324 | what eviction leaves is indexed as before, and its total is within the limit |
| DataCaching.ScannedAccounted | internal/cache/data.go:328-363 | the rebuilt index is a bijection and its size the sum of the files' |
| DataCaching.UnlinkKeeps | internal/cache/data.go:308-310 | removing a linked element keeps the bijection, the sum and the access order |
| DataCaching.RefreshKeeps | internal/cache/data.go:216-222 | resizing and moving an element to the front keeps them too |
| DataCaching.RecordKeeps | internal/cache/data.go:214-234 | so does recording a put |
| DataCaching.RecordSpares | internal/cache/data.go:214-234 | recording a put leaves every other entry and its element alone, puts a new key in front of the list as it was or moves a known one there, and adds what was written, less what the key had |
| DataCaching.PutSpares | internal/cache/data.go:214-238 | after a put with its eviction the list is a front part of that, within the limit, with the same entries; all of it with no TTL and room for all |
| DataCaching.AllSurvive | internal/cache/data.go:293-326 | eviction changes nothing where there is no TTL and everything fits |
| DataCaching.ScannedAll | internal/cache/data.go:328-363 | the scan indexes every file it meets and deletes none |
| DataCaching.ScannedInOrder | internal/cache/data.go:328-363 | in the order in which it meets them |
| DataRetention.Retention | internal/cache/data.go:133-238 | what a call puts or finds is found again after any run of calls about other names in which it is not invalidated and stays fresh, if at every point it fits with the bytes of all that was put or found since |
| DataRetention.Perform | internal/cache/data.go:133-257 | any sequence of calls on a cache leads through states in which each call did what Get, Put or Invalidate does |
| DataRetention.SizesThrough | internal/cache/data.go:214-234 | over every run the recorded sizes are those of the files |
| DataCacheInterleaving.HitsAreWholePuts | internal/cache/data.go:164-177 | in every interleaving, with lost files and restarts, a hit is the whole of one single put of its name |
| DataCacheInterleaving.CachedReadsAreObjects | internal/s3fs/reader.go:171-174 | if only whole objects are put and pairs that run together to one name stand for the same bytes, every hit for a pair in use is its object |
| DataCacheInterleaving.TransparentIff | internal/cache/data.go:281-284 | every run that puts only whole objects is transparent if and only if pairs in use that run together to one name stand for the same bytes |
| DataCacheInterleaving.NamesRunTogether | internal/cache/data.go:281-284 | of any two pairs with one concatenation either is served for the other |
| DataCacheInterleaving.CleanKeepsAccountsIff | internal/cache/data.go:164-174 | the clean-up of Get keeps the books exactly if its element is still linked, or is empty and not cached again |
| DataCacheInterleaving.LateCleanUpBreaksAccounts | internal/cache/data.go:164-174 | a run of two lookups of a lost file that leaves a list element no key leads to, and its bytes counted as free |
| DataCacheInterleaving.RunAccountedIff | internal/cache/data.go:133-257 | in every interleaving the books are right at every point if and only if each clean-up finds its element linked, or empty and not cached again |
| DataCacheInterleaving.RunRecent | internal/cache/data.go:159-162 | with a monotonic clock and no restart the list is in access order in every interleaving |
| DataCacheInterleaving.TtlPassExactInRuns | internal/cache/data.go:298-312 | and so the TTL pass is exact in every such run |
| DataCacheInterleaving.RestartKeepsStale | internal/cache/data.go:298-363 | a run with a restart after which the TTL pass leaves a stale entry |
| DataCacheInterleaving.Serial | internal/cache/data.go:133-257 | for any sequence of calls on a new cache: a hit is the latest content stored under the name, and the calls are a run of the step machine with the same hits, index and files |
| DataCacheInterleaving.GetSteps | internal/cache/data.go:133-178 | a Get alone is its critical sections in a row |
| DataCacheInterleaving.PutSteps | internal/cache/data.go:182-238 | so is a Put with its eviction |
| DataCacheInterleaving.InvalidateSteps | internal/cache/data.go:241-257 | so is an Invalidate |
| MetadataCaching.MetadataCache.constructor | internal/cache/metadata.go:92-120 | an empty cache; each setting that is not positive replaced by its default |
| MetadataCaching.MetadataCache.GetEntry | internal/cache/metadata.go:124-144 | the entry if its age is within the TTL of its kind, moved to the front; an older one goes; nothing else changes |
| MetadataCaching.MetadataCache.PutEntry | internal/cache/metadata.go:147-169 | the entry, stamped with the time and positive, goes to the front, and a full list loses its last |
| MetadataCaching.MetadataCache.PutNegativeEntry | internal/cache/metadata.go:172-195 | likewise for a negative entry |
| MetadataCaching.MetadataCache.GetDirListing | internal/cache/metadata.go:204-222 | the listing if it is no older than the directory TTL |
| MetadataCaching.MetadataCache.PutDirListing | internal/cache/metadata.go:225-236 | replaces one listing |
| MetadataCaching.MetadataCache.InvalidateKey | internal/cache/metadata.go:240-251 | drops exactly the key's entry and its directory's listing |
| MetadataCaching.MetadataCache.InvalidateUnder | internal/cache/metadata.go:255-272 | drops exactly the entries and listings under a prefix |
| MetadataCaching.MetadataCache.EvictExpiredEntries | internal/cache/metadata.go:327-346 | drops exactly the entries older than the TTL of their kind and the listings older than the directory TTL |
| MetadataCaching.MetadataCache.EvictOldest | internal/cache/metadata.go:301-308 | drops exactly the last of the list |
| MetadataCaching.AppliedTable | internal/cache/metadata.go:124-272 | every operation keeps the list sound, and at most forgets or rebinds the one key it stores |
| MetadataCaching.ForgetfulMap | internal/cache/metadata.go:124-346 | in every run a hit is the latest write, not invalidated since, and its age is within the TTL of its kind: negative, directory or file; so for listings; never more entries than the maximum |
| MetadataCaching.GoneUntilStored | internal/cache/metadata.go:240-272 | after an invalidation that covers the key every lookup misses until the key is stored again, whatever came before |
| MetadataCaching.ListingGoneUntilPut | internal/cache/metadata.go:240-272 | so for the listing of a directory a child of which is invalidated |
| MetadataCaching.Retention | internal/cache/metadata.go:139-168 | the entry an operation stores or finds survives any run after it while its age is within the TTL of its kind, it is not invalidated, and fewer than the maximum of other keys are touched |
| MetadataCaching.SecondStays | internal/s3fs/filesystem.go:272-274 | two negative entries stored one after the other are both there, unless the list holds but one |
| MetadataCaching.NotLast | internal/cache/metadata.go:161-164 | with fewer keys ahead than the maximum, a key is not the one a full list pushes out |
| Handles.HandleStore.constructor | internal/s3fs/handle.go:57-99 | opening ensures the root and loads every mapping, the largest inode of a key winning |
| Handles.HandleStore.GetOrCreateInode | internal/s3fs/handle.go:102-146 | the key's inode, new or old; an error exactly on exhaustion or a failed transaction; the whole new state, with the number used up if the transaction fails |
| Handles.HandleStore.RemoveByKey | internal/s3fs/handle.go:164-186 | the whole new state and when it fails |
| Handles.HandleStore.RenameKey | internal/s3fs/handle.go:189-218 | the whole new state and when it fails |
| Handles.InodeIdentity | internal/s3fs/handle.go:57-218 | over all runs a key's inode resolves to the key, and no inode number is issued twice, across failures, crashes and the counter's wrap |
| Handles.CrashRecovery | internal/s3fs/handle.go:57-99 | at every point of a run whose durable transactions are careful the maps are inverses, reopening rebuilds them exactly, and the counter is above every inode issued |
| Handles.InodeKept | internal/s3fs/handle.go:102-231 | over every run whose durable transactions are careful, with failures, crashes and restarts, a key keeps its inode until a call removes it, renames it or renames another onto it |
| Handles.KeysBucket | internal/s3fs/handle.go:102-218 | in every such run the keys bucket holds exactly the inode of each key |
| Handles.AlwaysSafeIff | internal/s3fs/handle.go:57-218 | the maps are inverses and a restart rebuilds them at every point of a run, if and only if each transaction that reached the disk avoids the key "\0", the removal of the root and a rename onto another mapped key |
| Handles.CommitSafeIff | internal/s3fs/handle.go:102-218 | the same for one transaction |
| Handles.RootComesBack | internal/s3fs/handle.go:57-99 | a store whose root was removed finds it again on a restart |
| Handles.NulKeyLost | internal/s3fs/handle.go:252-265 | a store that has the key "\0" for any inode loses it on a restart |
| Handles.StepSound | internal/s3fs/handle.go:102-218 | each call, however it ends, keeps look-up and resolution consistent and numbers below the counters |
| Handles.RenameKeepsInverseIff | internal/s3fs/handle.go:214-216 | a rename keeps the maps inverse exactly if the target is unmapped or the key itself |
| Handles.RenameOntoMappedRecoversIff | internal/s3fs/handle.go:91-97 | after a rename onto a mapped key a restart finds the right inode exactly if it is the larger one |
| Handles.NulKeyTakesTheRoot | internal/s3fs/handle.go:252-257 | after a restart the key "\0" has taken the root's place |
| Handles.BoltRoundTrip | internal/s3fs/handle.go:252-265 | decoding undoes encoding exactly on keys other than "\0" |
| Handles.HandleToInode | internal/s3fs/handle.go:226-231 | an error exactly for fewer than eight bytes |
| Handles.HandleRoundTrip | internal/s3fs/handle.go:221-231 | a handle names its inode, whatever bytes follow |
| Handles.HandleBytes | internal/s3fs/handle.go:221-231 | handles are big-endian: eight bytes, the most significant first |
| Xattrs.RunRefines | internal/s3fs/xattr.go:111-199 | any run of sets and removes acts as a map from names to bytes with its own size account, leaves other metadata and slots with invalid names alone and keeps the total within its limit |
| Xattrs.SetRefines | internal/s3fs/xattr.go:111-155 | a set fails as the map says it must, or for size, and otherwise stores the value |
| Xattrs.RemoveRefines | internal/s3fs/xattr.go:175-199 | a remove acts on the map and never makes the total grow |
| Xattrs.GetRefines | internal/s3fs/xattr.go:87-107 | a get returns the bytes last set, and not-exist exactly where there are none |
| Xattrs.ListRefines | internal/s3fs/xattr.go:160-172 | the valid names listed are exactly those with a value, each once |
| Xattrs.SetMeta | internal/s3fs/xattr.go:111-149 | the new metadata or the error, checks in order |
| Xattrs.SetTakenIff | internal/s3fs/xattr.go:111-149 | a set is taken exactly for a value of at most 2048 bytes, a name that is not empty and in none of the four namespaces, an option of 0 to 2 with create and replace as the slot is there or not, and a total of at most 6144 bytes; and exactly when it ends in exists or not-exist |
| Xattrs.ValidNames | internal/s3fs/xattr.go:52-62 | the names accepted, spelled out |
| Xattrs.SetReadsBack | internal/s3fs/xattr.go:87-149 | a set that is taken reads back and touches no other key |
| Xattrs.RemoveMeta | internal/s3fs/xattr.go:175-193 | every spelling of the slot goes |
| Xattrs.RemoveClears | internal/s3fs/xattr.go:175-193 | after a removal no spelling of the slot is left and every other key is as before; it fails exactly for an invalid name or where there is none |
| Xattrs.ReadsAbsentIff | internal/s3fs/xattr.go:95-106 | a stored value reads as absent exactly if it is not groups of four base64 digits with at most two pads at the end; newlines make no difference |
| Xattrs.ListNames | internal/s3fs/xattr.go:160-172 | a name is listed as often as it is spelled in the metadata |
| Xattrs.FindXattr | internal/s3fs/xattr.go:203-213 | found exactly if some spelling of the slot is there, the exact one first |
| Xattrs.TotalXattrBytes | internal/s3fs/xattr.go:237-245 | the sum over all slots, whatever the order of the map; each key that is a slot, in whatever case, counts with its own length and its value's, no other key does |
| Xattrs.TotalOneKey | internal/s3fs/xattr.go:237-245 | taking one key away lowers the total by its length and its value's if it is a slot in any case, else by nothing |
| Xattrs.NameSurvivesCase | internal/s3fs/xattr.go:219-232 | a name comes back from its slot whatever the case of each letter of the key, prefix included, has become |
| Xattrs.NamesApart | internal/s3fs/xattr.go:52-62 | distinct names never match each other's slots |
| Xattrs.SlotSpellings | internal/s3fs/xattr.go:219-232 | a metadata key holds a name, never the empty one, exactly if it is the name's slot but for the case of letters |
| Xattrs.SetLeavesOneSlotIff | internal/s3fs/xattr.go:144-145 | after a set the new value is what is found; the name has one slot, and is listed once, exactly if there was no other spelling before; the total is that of the other keys and the new slot, and every other spelling still counts |
| Xattrs.ChangedCaseDuplicates | internal/s3fs/xattr.go:144-145 | a concrete replace that leaves two slots |
| Codecs.HexRoundTrip | internal/s3fs/xattr.go:226-231 | hexadecimal decoding undoes encoding whatever the case of the digits |
| Codecs.HexSpelling | internal/s3fs/xattr.go:226-231 | what decodes to a name is its encoding in some mixture of cases |
| Codecs.HexOfBytes | internal/s3fs/xattr.go:52-62 | each byte is two lower-case digits, the high half first |
| Codecs.EqualFoldIsAlike | internal/s3fs/xattr.go:203-223 | folding makes equal exactly the strings that differ in the case of the 26 letters |
| Codecs.Base64RoundTrip | internal/s3fs/xattr.go:100-106 | base64 decoding undoes encoding for every byte string |
| Codecs.DecodesIff | internal/s3fs/xattr.go:100-106 | exactly the strings of groups of four digits decode, where the last group may end in one or two pads |
| Codecs.Base64Digits | internal/s3fs/xattr.go:100-106 | exactly the 64 digits have a value, each its own |
| Codecs.NewlinesSkipped | internal/s3fs/xattr.go:100-106 | a carriage return or newline makes no difference wherever it stands, and nothing else is skipped |
| Codecs.DecodesOnlyGroups | internal/s3fs/xattr.go:100-106 | what decodes is groups of four digits with at most two pads at the end, and gives three bytes a group less the pads |
| Codecs.SameBits | internal/s3fs/xattr.go:100-106 | three bytes and their four digits are the same 24 bits in the same order |
| Codecs.Base64Table | internal/s3fs/xattr.go:100-106 | the standard alphabet |
| Codecs.Base64Vectors | internal/s3fs/xattr.go:100-106 | the shortest test vectors of the standard |
| Storage.Bucket.PutObject | internal/s3/client.go:184-190 | one object replaced, or nothing |
| Storage.Bucket.DeleteObject | internal/s3/client.go:193-195 | one object gone, or nothing |
| Storage.Bucket.CopyObject | internal/s3/client.go:198-203 | content and metadata under the target, or nothing |
| Storage.Bucket.RewriteMetadata | internal/s3/client.go:206-219 | new metadata, same content, or nothing |
| Storage.Bucket.ListObjects | internal/s3/client.go:152-181 | a listing with delimiter: the direct objects and the common prefixes, each once |
| Storage.FileIsListed | internal/s3/client.go:155-178 | every file of a directory is in its listing |
| Storage.ListedFile | internal/s3/client.go:165-175 | a listed key without a trailing slash is an object with that size |
| Storage.ModeRoundTrip | internal/s3fs/attrs.go:93-116 | the permission bits written are the ones read back, with the directory bit for a directory |
| Storage.ModeOf | internal/s3fs/attrs.go:93-107 | a stored mode that parses is the mode, with bit 31 set for a directory; otherwise 0644 or 0755 stands in |
| Storage.AttributesReadBack | internal/s3fs/attrs.go:110-116 | the ids and the permission bits stored are those given, and nothing else is stored |
| Storage.OctalRoundTrip | internal/s3fs/attrs.go:93-116 | an octal numeral reads back and has no leading zero |
| Storage.DecimalRoundTrip | internal/s3fs/filesystem.go:327-332 | so does a decimal one |
| Storage.OctalParses | internal/s3fs/attrs.go:93-94 | a mode parses exactly if it is a string of octal digits, leading zeros allowed, for a number of 32 bits, and every such number that is formatted reads back |
| Storage.StoredModeReads | internal/s3fs/attrs.go:93-107 | any mode of 32 bits stored in octal is the file's, with bit 31 set for a directory |
| Storage.ParsesOctalDigits | internal/s3fs/attrs.go:93-94 | exactly the strings of octal digits have an octal value |
| Storage.LinkMode | internal/s3fs/filesystem.go:362 | the mode stored for a link reads back as 0777 |
| Paths.ListedUnderParentOnly | internal/s3fs/cache_integration.go:122-138 | the prefix whose listing shows a key is its parent prefix, and the two ways of computing a name agree |
| Paths.KeyFromPathCanonical | internal/s3fs/file.go:448-461 | every path maps to a key without empty, "." or ".." components |
| Paths.KeyPathRoundTrip | internal/s3fs/file.go:448-461 | such a key is the key of its own path, rooted or not |
| Paths.CleanRewrites | internal/s3fs/file.go:448-461 | a doubled slash, a ".", and a name with ".." after it make no difference, wherever they stand in a path |
| Paths.TrailingSlash | internal/s3fs/file.go:448-461 | nor does a slash at the end |
| Paths.ClimbingOut | internal/s3fs/file.go:448-461 | nor ".." at the root; a relative path that climbs out has the key of the root |
| Paths.ParentAndName | internal/s3fs/cache_integration.go:122-138 | a child's key, with or without the slash of a directory, has the directory as parent and its own name |
| Paths.CanonicalShape | internal/s3fs/file.go:464-478 | such a key has no slash at either end, has a name, and its directory form adds one slash |
| RateLimit.Limiter.constructor | internal/ratelimit/limiter.go:22-32 | a full bucket, or no limiting for a rate that is not positive |
| RateLimit.Limiter.Allow | internal/ratelimit/limiter.go:35-56 | refill, cap and take one token if there is one |
| RateLimit.Run | internal/ratelimit/limiter.go:35-56 | the answers to any sequence of calls are those of the run functions |
| RateLimit.AvailableIsLeastSlack | internal/ratelimit/limiter.go:43-53 | the tokens a call finds are the least slack over all windows that end at it |
| RateLimit.AllowedIffEveryWindowFits | internal/ratelimit/limiter.go:35-56 | a call is let through exactly if no window ending at it goes over burst plus earnings |
| RateLimit.WindowBound | internal/ratelimit/limiter.go:35-56 | over any window at most burst + rate * time calls are let through |
| RateLimit.TokensInRange | internal/ratelimit/limiter.go:43-54 | the tokens stay between 0 and the burst |

## Left out

- FileSystem.S3FS.Readdir: says nothing about the order of the full answer.
- FileSystem.S3FS.GetXattr: where several spellings of a slot are present and none is the exact one, which of their values is returned depends on map order.
- Reading.ChunkReader.ReadAt: covers reads that end: served bodies have at least one byte, a cached file is the whole object, and replies for an object that is being cached are full. What a single fetch does otherwise is in the contract of Reading.ChunkReader.FetchChunk.
- Reading.S3File.Read: the same.
- ReadRuns.ReadThrough: covers objects too large for the data cache, with every request served; smaller ones never fill a chunk.
- ReadRuns.Replay: covers runs in which no body breaks off; what such a body does to later reads is in ReadRuns.BreakThenRead. Each operation is one step here; ReaderInterleaving cuts them into steps.
- ReaderInterleaving.SafeFromStart: covers fetches that do not break off; positions and ends of file are in ReadRuns.Replay.
- MetadataInterleaving.CoherentIffScheduled: covers entries of files, those a Readdir makes included; cached listings, negative entries and the handle store are not cut into steps.
- DataCacheInterleaving.CachedReadsAreObjects: that only whole objects are put is assumed here; ReaderInterleaving.SafeFromStart and ReadRuns.Replay derive it.
- DataCaching.DataCache.constructor: one file name found under two shard directories, and temporary files, are not in the model.
- Paths.KeyFromPathCanonical: `filepath.Clean` is modelled by its documented component rules, not by its byte loop.
- The data cache inside `S3FS`: `Close`, `Rename` and `Remove` also invalidate it; it is keyed by ETag, and its transparency is proved on its own.
- A gateway without a metadata cache, where every cache helper does nothing.
- ETags, content types and times of modification are not part of coherence; ids and ETag fields of cache entries, which the gateway never sets, are not modelled.
- Go's `EqualFold` beyond ASCII: the letters of metadata keys compared here have no other case variants.
- SHA-256 is taken as injective and left out of cache file names; the sharded directory is a map from names to contents.
- An S3 call that fails after it has taken effect, and changes made to the bucket by others.
- Floating-point rounding in the limiter, hit and miss counters, and 64-bit overflow of offsets, sizes and times.
- Failures of the local disk under `s3WritableFile`, and of temporary-file creation.
- Tickers and stop channels: background eviction is a step that may happen at any time.
- `dirFile`, hard links, `s3File.Write`, `s3File.Truncate`, `s3File.Close`: constant or one-line answers.
- NFS sessions and the server, configuration, TLS, health and metrics, backend detection.
