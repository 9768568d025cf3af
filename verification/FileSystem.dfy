/**
 * The filesystem operations of internal/s3fs: each a sequence of S3 calls, handle-store transactions and cache
 * updates. `down` names the S3 calls that fail during the operation and `txDown` the keys whose handle-store
 * transactions fail; the clock is a parameter.
 */
module FileSystem {
  import opened Base
  import opened Paths
  import opened Storage
  import opened Coherence
  import opened Listings
  import Handles
  import Xattrs
  import C = MetadataCaching

  datatype Lookup = Miss | Negative | Hit(info: FileInfo)

  /** How an operation ends: done, os.ErrNotExist, or another error. */
  datatype Result = Done | NotExist | Refused

  /** The key an operation on existing objects works on: the file's, or else the directory marker's. */
  function Locate(objects: Objects, key: string, down: set<S3Call>): Option<string> {
    if Head(key) !in down && key in objects then Some(key)
    else if Head(DirKey(key)) !in down && DirKey(key) in objects then Some(DirKey(key))
    else None
  }

  /** The key has no inode, and cannot get one: the numbers are used up or its transaction fails. */
  predicate WantsInode(inodes: map<string, Handles.U64>, next: Handles.U64, key: string, txDown: set<string>) {
    key !in inodes && (next == 0 || key in txDown)
  }

  /** What S3 shows of a name: the file's object, else the marker or something below the directory, else nothing. */
  datatype Sight = File | Directory | Neither

  ghost predicate SeesDirectory(objects: Objects, dir: string, down: set<S3Call>) {
    (dir in objects && Head(dir) !in down) || (List(dir) !in down && exists k :: k in objects && dir <= k)
  }

  ghost function Sighted(objects: Objects, key: string, dir: string, down: set<S3Call>): Sight {
    if key in objects && Head(key) !in down then File
    else if SeesDirectory(objects, dir, down) then Directory
    else Neither
  }

  /** The answer to what S3 shows, which needs an inode for what is there. */
  ghost predicate Answers(r: Opened, sight: Sight, inodes: map<string, Handles.U64>, next: Handles.U64, key: string,
                          dir: string, txDown: set<string>) {
    && (r.OpenedFile? <==> sight == File && !WantsInode(inodes, next, key, txDown))
    && (r.OpenedDir? <==> sight == Directory && !WantsInode(inodes, next, dir, txDown))
    && (r.NotFound? <==> sight == Neither)
  }

  datatype LinkAnswer = LinksTo(target: string) | NoLink | NoObject

  datatype Opened =
    | OpenedFile(key: string, info: FileInfo, created: bool)
    | OpenedDir(key: string, info: FileInfo)
    | NotFound
    | Failed

  /** The entry cachePut stores for the object of a file, with the mode that was seen. */
  function FileEntry(key: string, o: Object, mode: nat, inode: nat, now: int): C.CacheEntry {
    C.CacheEntry(key, |o.data|, o.modified, mode, false, inode, now, false)
  }

  /** Of the files, the new table has old entries, and at most for `key` one just made from its object. */
  ghost predicate Fetched(objects: Objects, t: map<string, C.CacheEntry>, t': map<string, C.CacheEntry>, key: string,
                          now: int) {
    forall k :: k in t' && !t'[k].negative && IsFile(k) ==>
      || (k in t && t[k] == t'[k])
      || (k == key && k in objects &&
          t'[k] == FileEntry(k, objects[k], ParseMode(objects[k].meta, false), t'[k].inode, now))
  }

  /** The entry cachePut stores for a subdirectory of a listing. */
  function SubdirEntry(key: string, inode: nat, now: int): C.CacheEntry {
    C.CacheEntry(key, 0, 0, 0x8000_0000 + 493, true, inode, now, false)
  }

  /** The new table has old entries, and for files and subdirectories of the directory some just made from the listing. */
  ghost predicate ListedIn(objects: Objects, t: map<string, C.CacheEntry>, t': map<string, C.CacheEntry>, prefix: string,
                           down: set<S3Call>, now: int) {
    forall k :: k in t' ==>
      || (k in t && t[k] == t'[k])
      || (k in objects && !HasSlashSuffix(k) && ParentPrefix(k) == prefix &&
          t'[k] == FileEntry(k, objects[k], SeenMode(objects, k, down), t'[k].inode, now))
      || (HasSlashSuffix(k) && Occupied(objects, k) && ParentPrefix(k) == prefix &&
          t'[k] == SubdirEntry(k, t'[k].inode, now))
  }

  /** What a lookup with this answer caches: what it answers, or that both keys do not exist. */
  function Noted(r: Opened, key: string, dir: string, now: int): map<string, C.CacheEntry> {
    match r
    case OpenedFile(at, info, _) => map[at := C.Stamped(EntryFor(at, info), now)]
    case OpenedDir(at, info) => map[at := C.Stamped(EntryFor(at, info), now)]
    case NotFound => map[key := C.NegativeEntry(key, now), dir := C.NegativeEntry(dir, now)]
    case Failed => map[]
  }

  /** A lookup with this answer has cached that or nothing, and nothing else. */
  ghost predicate Notes(t: map<string, C.CacheEntry>, t': map<string, C.CacheEntry>, r: Opened, key: string, dir: string,
                        now: int) {
    SubMap(t', t) || SubMap(t', t + Noted(r, key, dir, now))
  }

  lemma NotesNothing(t: map<string, C.CacheEntry>, r: Opened, key: string, dir: string, now: int)
    ensures Notes(t, t, r, key, dir, now)
  {
  }

  lemma NotesLess(t: map<string, C.CacheEntry>, t': map<string, C.CacheEntry>, t'': map<string, C.CacheEntry>, r: Opened,
                  key: string, dir: string, now: int)
    requires SubMap(t', t) && Notes(t', t'', r, key, dir, now)
    ensures Notes(t, t'', r, key, dir, now)
  {
  }

  lemma NotesPut(t: map<string, C.CacheEntry>, t': map<string, C.CacheEntry>, r: Opened, key: string, dir: string, now: int)
    requires r.OpenedFile? || r.OpenedDir?
    requires SubMap(t', t[r.key := C.Stamped(EntryFor(r.key, r.info), now)])
    ensures Notes(t, t', r, key, dir, now)
  {
  }

  lemma NotesAbsent(t: map<string, C.CacheEntry>, t': map<string, C.CacheEntry>, key: string, dir: string, now: int)
    requires key != dir && SubMap(t', t[key := C.NegativeEntry(key, now)][dir := C.NegativeEntry(dir, now)])
    ensures Notes(t, t', NotFound, key, dir, now)
  {
  }

  /** Every positive directory entry is an old one, or was made now, when something is below the directory. */
  ghost predicate DirsNoted(objects: Objects, t: map<string, C.CacheEntry>, t': map<string, C.CacheEntry>, now: int) {
    forall k :: k in t' && !t'[k].negative && HasSlashSuffix(k) ==>
      (k in t && t[k] == t'[k]) || (Occupied(objects, k) && t'[k].cachedAt == now)
  }

  lemma NotesDirs(objects: Objects, t: map<string, C.CacheEntry>, t': map<string, C.CacheEntry>, r: Opened, key: string,
                  dir: string, now: int)
    requires Notes(t, t', r, key, dir, now)
    requires r.OpenedFile? ==> !HasSlashSuffix(r.key)
    requires r.OpenedDir? && r.key != "" ==> exists k :: k in objects && r.key <= k
    ensures DirsNoted(objects, t, t', now)
  {
    EmptyIsNoDirectory();
    hide HasSlashSuffix;
    assert r.OpenedDir? && r.key != "" ==> Occupied(objects, r.key);
    hide Occupied;
  }

  lemma DirsNotedLess(objects: Objects, t: map<string, C.CacheEntry>, t': map<string, C.CacheEntry>,
                      t'': map<string, C.CacheEntry>, now: int)
    requires SubMap(t', t) && (t'' == t' || DirsNoted(objects, t', t'', now))
    ensures DirsNoted(objects, t, t'', now)
  {
    hide HasSlashSuffix, Occupied;
  }

  lemma EmptyIsNoDirectory()
    ensures !HasSlashSuffix("")
  {
  }

  /** A cachePut of the object's attributes fetches that one entry. */
  lemma FetchedPut(objects: Objects, t: map<string, C.CacheEntry>, t': map<string, C.CacheEntry>, key: string,
                   e: C.CacheEntry, now: int)
    requires SubMap(t', t[key := e])
    requires IsFile(key) ==>
               key in objects && e == FileEntry(key, objects[key], ParseMode(objects[key].meta, false), e.inode, now)
    ensures Fetched(objects, t, t', key, now)
  {
    hide ParseMode, HasSlashSuffix;
  }

  /** A cachePut for a directory fetches none for a file, and neither do negative entries. */
  lemma FetchedNone(objects: Objects, t: map<string, C.CacheEntry>, t': map<string, C.CacheEntry>, key: string, now: int)
    requires forall k :: k in t' ==> (k in t && t[k] == t'[k]) || t'[k].negative || HasSlashSuffix(k)
    ensures Fetched(objects, t, t', key, now)
  {
    hide ParseMode, HasSlashSuffix;
  }

  lemma NothingNew(objects: Objects, t: map<string, C.CacheEntry>, prefix: string, down: set<S3Call>, now: int)
    ensures ListedIn(objects, t, t, prefix, down, now)
  {
    hide ParentPrefix, SeenMode;
  }

  lemma ListedMore(objects: Objects, t: map<string, C.CacheEntry>, t': map<string, C.CacheEntry>,
                   t'': map<string, C.CacheEntry>, prefix: string, down: set<S3Call>, now: int)
    requires ListedIn(objects, t, t', prefix, down, now) && ListedIn(objects, t', t'', prefix, down, now)
    ensures ListedIn(objects, t, t'', prefix, down, now)
  {
    hide ParentPrefix, SeenMode;
  }

  ghost function Parents(keys: set<string>): set<string> {
    set k | k in keys :: ParentPrefix(k)
  }

  lemma JoinDrops(t: map<string, C.CacheEntry>, ls: map<string, C.DirListing>, a: set<string>, b: set<string>)
    ensures t - a - b == t - (a + b) && ls - Parents(a) - Parents(b) == ls - Parents(a + b)
  {
    hide ParentPrefix;
    assert Parents(a) + Parents(b) == Parents(a + b);
  }

  class S3FS {
    const bucket: Bucket
    const handles: Handles.HandleStore
    const cache: C.MetadataCache
    /** Files put by OpenFile or Symlink since their directory's cached listing was taken. */
    ghost var pending: set<string>

    ghost predicate Valid()
      reads this, bucket, handles, cache
    {
      bucket.Valid() && cache.Valid() && Handles.Sound(handles.State())
    }

    /** The metadata cache as a map. */
    ghost function Cached(): map<string, C.CacheEntry>
      requires cache.Valid()
      reads this, cache
    {
      C.Table(cache.State().entries)
    }

    ghost predicate Good()
      reads this, bucket, handles, cache
    {
      && Valid()
      && Coherent(bucket.objects, Cached())
      && FreshListings(bucket.objects, cache.dirListings, pending)
    }

    constructor (bucket: Bucket, handles: Handles.HandleStore, cfg: C.Config)
      requires bucket.Valid() && Handles.Sound(handles.State())
      ensures Good() && this.bucket == bucket && this.handles == handles && fresh(cache)
      ensures Cached() == map[] && cache.dirListings == map[] && cache.config == C.WithDefaults(cfg) && pending == {}
    {
      this.bucket, this.handles := bucket, handles;
      this.cache := new C.MetadataCache(cfg);
      pending := {};
    }

    /** Keys keep the inodes they have, and used-up numbers do not come back. */
    twostate predicate InodesGrow()
      reads this, handles
    {
      && SubMap(old(handles.keyToInode), handles.keyToInode)
      && (old(handles.nextInode) == 0 ==> handles.nextInode == 0)
    }

    /** At most these keys have got an inode. */
    twostate predicate InodesOnlyFor(keys: set<string>)
      reads this, handles
    {
      handles.keyToInode.Keys <= old(handles.keyToInode.Keys) + keys
    }

    /** The keys have been invalidated: their entries and the listings of their directories are gone, and no others. */
    twostate predicate Dropped(keys: set<string>)
      requires old(cache.Valid()) && cache.Valid()
      reads this, cache
    {
      && Cached() == old(Cached()) - keys
      && cache.dirListings == old(cache.dirListings) - Parents(keys)
    }

    /** The attributes are cached under the key, as of now. */
    ghost predicate Remembers(key: string, info: FileInfo, now: int)
      requires cache.Valid()
      reads this, cache
    {
      && key in Cached()
      && Cached()[key] == C.CacheEntry(key, info.size, info.modTime, info.mode, info.isDir, info.inode, now, false)
    }

    // ----- Glue to the cache and the handle store -----

    method Inode(key: string, txDown: set<string>) returns (r: Option<Handles.U64>)
      requires Valid()
      modifies handles
      ensures Valid()
      ensures handles.State() == Handles.Step(old(handles.State()), Handles.Create(key),
                                              if key in txDown then Handles.Aborts else Handles.Commits)
      ensures r.Some? ==> key in handles.keyToInode && r.value == handles.keyToInode[key]
      ensures r.None? <==> WantsInode(old(handles.keyToInode), old(handles.nextInode), key, txDown)
      ensures r.None? ==> WantsInode(handles.keyToInode, handles.nextInode, key, txDown)
      ensures InodesGrow() && InodesOnlyFor({key})
      ensures handles.nextInode == old(handles.nextInode) || handles.nextInode == Handles.Successor(old(handles.nextInode))
    {
      Handles.StepSound(handles.State(), Handles.Create(key), if key in txDown then Handles.Aborts else Handles.Commits);
      r := handles.GetOrCreateInode(key, key !in txDown);
    }

    method CacheGet(key: string, now: int, txDown: set<string>) returns (r: Lookup)
      requires Valid()
      modifies handles, cache
      ensures Valid() && cache.dirListings == old(cache.dirListings)
      ensures InodesGrow() && InodesOnlyFor({key})
      ensures Cached() == if key in old(Cached()) && !Live(old(Cached()), key, now) then old(Cached()) - {key}
                          else old(Cached())
      ensures r.Hit? ==> Live(old(Cached()), key, now) && !old(Cached())[key].negative && key in handles.keyToInode &&
                         var e := old(Cached())[key];
                         r.info == FileInfo(NameFromKey(key), e.size, e.mode, e.modTime, e.isDir, handles.keyToInode[key])
      ensures r.Negative? ==> Live(old(Cached()), key, now) && old(Cached())[key].negative
      ensures !Served(old(Cached()), key, now) ==> !r.Hit? && handles.State() == old(handles.State())
      ensures r.Miss? && Live(old(Cached()), key, now) && !old(Cached())[key].negative ==>
                key !in old(handles.keyToInode) && (old(handles.nextInode) == 0 || key in txDown)
      ensures handles.nextInode == old(handles.nextInode) || handles.nextInode == Handles.Successor(old(handles.nextInode))
    {
      var entry := cache.GetEntry(key, now);
      if entry.None? {
        return Miss;
      }
      if entry.value.negative {
        return Negative;
      }
      var inode := Inode(key, txDown);
      if inode.None? {
        return Miss;
      }
      var e := entry.value;
      return Hit(FileInfo(NameFromKey(key), e.size, e.mode, e.modTime, e.isDir, inode.value));
    }

    /** The table has an entry for `key` that has not expired. */
    ghost predicate Live(t: map<string, C.CacheEntry>, key: string, now: int)
    {
      key in t && now - t[key].cachedAt <=
        (if t[key].negative then cache.config.negativeTtl
         else if t[key].isDir then cache.config.dirTtl else cache.config.fileTtl)
    }

    method CachePut(key: string, info: FileInfo, now: int)
      requires Valid()
      modifies cache
      ensures Valid() && cache.dirListings == old(cache.dirListings)
      ensures SubMap(Cached(), old(Cached())[key := C.Stamped(EntryFor(key, info), now)])
      ensures Remembers(key, info, now)
    {
      cache.PutEntry(key, EntryFor(key, info), now);
    }

    /** cachePutNegative for a file key and for the directory key of the same name; a list of one has only the last. */
    method CachePutNegatives(key: string, dirKey: string, now: int)
      requires Valid() && key != dirKey
      modifies cache
      ensures Valid() && cache.dirListings == old(cache.dirListings)
      ensures SubMap(Cached(), old(Cached())[key := C.NegativeEntry(key, now)][dirKey := C.NegativeEntry(dirKey, now)])
      ensures dirKey in Cached() && (cache.config.maxEntries > 1 ==> key in Cached())
    {
      hide C.Apply, C.Table, C.Linked, C.ItemsOf, Handles.Sound;
      cache.StateShape();
      C.SecondStays(cache.config, cache.State(), key, dirKey, now);
      cache.PutNegativeEntry(key, now);
      cache.PutNegativeEntry(dirKey, now);
    }

    /** cacheInvalidate: drops the entry, and the listing of the directory that holds the key. */
    method CacheInvalidate(key: string)
      requires Valid()
      modifies cache, this`pending
      ensures Valid() && Cached() == old(Cached()) - {key}
      ensures cache.dirListings == old(cache.dirListings) - {ParentPrefix(key)}
      ensures pending == set k | k in old(pending) && ParentPrefix(k) != ParentPrefix(key)
    {
      cache.InvalidateKey(key);
      pending := set k | k in pending && ParentPrefix(k) != ParentPrefix(key);
    }

    /** cacheInvalidateParent: drops the directory's own entry, and the listing one level above it. */
    method CacheInvalidateParent(key: string)
      requires Valid()
      modifies cache, this`pending
      ensures Valid() && Cached() == old(Cached()) - {ParentPrefix(key)}
      ensures cache.dirListings == old(cache.dirListings) - {ParentPrefix(ParentPrefix(key))}
      ensures pending == set k | k in old(pending) && ParentPrefix(k) != ParentPrefix(ParentPrefix(key))
    {
      CacheInvalidate(ParentPrefix(key));
    }

    /** Two invalidations, one after the other. */
    method CacheInvalidateTwo(a: string, b: string)
      requires Valid()
      modifies cache, this`pending
      ensures Valid() && Dropped({a, b}) && pending <= old(pending)
      ensures forall k :: k in old(pending) && k !in pending ==> ParentPrefix(k) !in cache.dirListings
    {
      hide C.Table, C.Linked, C.ItemsOf, Handles.Sound, ParentPrefix;
      CacheInvalidate(a);
      CacheInvalidate(b);
      assert Cached() == old(Cached()) - {a, b};
    }

    /** The four invalidations at the end of Rename: the two keys, then their parents. */
    method CacheInvalidateMoved(src: string, dst: string)
      requires Valid()
      modifies cache, this`pending
      ensures Valid() && Dropped({src, dst, ParentPrefix(src), ParentPrefix(dst)}) && pending <= old(pending)
      ensures forall k :: k in old(pending) && k !in pending ==> ParentPrefix(k) !in cache.dirListings
    {
      hide C.Table, C.Linked, C.ItemsOf, Handles.Sound, ParentPrefix;
      CacheInvalidateTwo(src, dst);
      CacheInvalidateTwo(ParentPrefix(src), ParentPrefix(dst));
      JoinDrops(old(Cached()), old(cache.dirListings), {src, dst}, {ParentPrefix(src), ParentPrefix(dst)});
      assert {src, dst} + {ParentPrefix(src), ParentPrefix(dst)} == {src, dst, ParentPrefix(src), ParentPrefix(dst)};
    }

    /** The three invalidations at the end of MkdirAll: the marker, the file of that name, the marker's parent. */
    method CacheInvalidateMade(dirKey: string, s3Key: string)
      requires Valid()
      modifies cache, this`pending
      ensures Valid() && Dropped({dirKey, s3Key, ParentPrefix(dirKey)}) && pending <= old(pending)
      ensures forall k :: k in old(pending) && k !in pending ==> ParentPrefix(k) !in cache.dirListings
    {
      hide C.Table, C.Linked, C.ItemsOf, Handles.Sound, ParentPrefix;
      CacheInvalidateTwo(dirKey, s3Key);
      CacheInvalidateParent(dirKey);
      JoinDrops(old(Cached()), old(cache.dirListings), {dirKey, s3Key}, {ParentPrefix(dirKey)});
      assert {dirKey, s3Key} + {ParentPrefix(dirKey)} == {dirKey, s3Key, ParentPrefix(dirKey)};
    }

    /** Good again after the bucket changed at `changed` and the caches as the conditions say. */
    twostate lemma StaysGood(changed: set<string>)
      requires old(Good()) && Valid()
      requires AgreeOutside(old(bucket.objects), bucket.objects, changed)
      requires EntriesFrom(old(Cached()), Cached(), bucket.objects, changed)
      requires ListingsFrom(old(cache.dirListings), cache.dirListings, old(pending), pending, changed)
      ensures Good()
    {
      StaysCoherent(old(bucket.objects), bucket.objects, old(Cached()), Cached(), changed);
      StaysFresh(old(bucket.objects), bucket.objects, old(cache.dirListings), cache.dirListings,
                 old(pending), pending, changed);
    }

    // ----- Operations -----

    /** Replace the metadata of the located object and drop what was cached about it. */
    method Rewrite(at: string, meta: Meta, now: int, down: set<S3Call>) returns (r: Result)
      requires Good() && at in bucket.objects
      modifies bucket, cache, this`pending
      ensures pending <= old(pending)
      ensures Good()
      ensures r == if Storage.Rewrite(at) in down then Refused else Done
      ensures r == Done ==> bucket.objects == old(bucket.objects)[at := Object(old(bucket.objects)[at].data, meta, now)]
      ensures r == Refused ==> bucket.objects == old(bucket.objects)
      ensures Dropped(if r == Done then {at} else {})
    {
      hide Coherent, FreshListings, Handles.Sound, Handles.Step, C.Table, C.Linked, C.ItemsOf;
      hide KeyFromPath, ParentPrefix, DirKey, NameFromKey, IsListing, Format, ParseMode;
      var ok := bucket.RewriteMetadata(at, meta, now, down);
      if !ok {
        return Refused;
      }
      CacheInvalidate(at);
      StaysGood({at});
      return Done;
    }

    /** Chmod stores the permission bits on the located object; a file's mode then reads back as just those bits. */
    method Chmod(path: string, mode: nat, now: int, down: set<S3Call>) returns (r: Result)
      requires Good()
      modifies bucket, cache, this`pending
      ensures pending <= old(pending)
      ensures Good()
      ensures var at := Locate(old(bucket.objects), KeyFromPath(path), down);
              && (r == NotExist <==> at.None?)
              && (r == Refused <==> at.Some? && Storage.Rewrite(at.value) in down)
              && (r != Done ==> bucket.objects == old(bucket.objects))
              && (r == Done ==>
                    var o := old(bucket.objects)[at.value];
                    var meta := o.meta["Mode" := Format(mode % 512, 8)];
                    && bucket.objects == old(bucket.objects)[at.value := Object(o.data, meta, now)]
                    && ParseMode(bucket.objects[at.value].meta, false) == mode % 512
                    && ParseMode(bucket.objects[at.value].meta, true) == 0x8000_0000 + mode % 512)
              && Dropped(if r == Done then {at.value} else {})
    {
      hide Coherent, FreshListings, Handles.Sound, Handles.Step, C.Table, C.Linked, C.ItemsOf;
      hide KeyFromPath, ParentPrefix, DirKey, NameFromKey, IsListing, Format, ParseMode;
      var at := Locate(bucket.objects, KeyFromPath(path), down);
      if at.None? {
        return NotExist;
      }
      var meta := bucket.objects[at.value].meta["Mode" := Format(mode % 512, 8)];
      ModeRoundTrip(meta, mode);
      r := Rewrite(at.value, meta, now, down);
    }

    /** Chown stores the ids that are not negative on the located object. */
    method Chown(path: string, uid: int, gid: int, now: int, down: set<S3Call>) returns (r: Result)
      requires Good()
      modifies bucket, cache, this`pending
      ensures pending <= old(pending)
      ensures Good()
      ensures var at := Locate(old(bucket.objects), KeyFromPath(path), down);
              && (r == NotExist <==> at.None?)
              && (r == Refused <==> at.Some? && Storage.Rewrite(at.value) in down)
              && (r != Done ==> bucket.objects == old(bucket.objects))
              && (r == Done ==>
                    var o := old(bucket.objects)[at.value];
                    var m1 := if uid >= 0 then o.meta["Uid" := Format(uid, 10)] else o.meta;
                    var m2 := if gid >= 0 then m1["Gid" := Format(gid, 10)] else m1;
                    && bucket.objects == old(bucket.objects)[at.value := Object(o.data, m2, now)]
                    && (uid >= 0 ==> DecimalValue(m2["Uid"]) == Some(uid))
                    && (gid >= 0 ==> DecimalValue(m2["Gid"]) == Some(gid))
                    && ParseMode(m2, false) == ParseMode(o.meta, false))
              && Dropped(if r == Done then {at.value} else {})
    {
      hide Coherent, FreshListings, Handles.Sound, Handles.Step, C.Table, C.Linked, C.ItemsOf;
      hide KeyFromPath, ParentPrefix, DirKey, NameFromKey, IsListing, Format, ParseMode;
      var at := Locate(bucket.objects, KeyFromPath(path), down);
      if at.None? {
        return NotExist;
      }
      var meta := bucket.objects[at.value].meta;
      if uid >= 0 {
        DecimalRoundTrip(uid);
        meta := meta["Uid" := Format(uid, 10)];
      }
      if gid >= 0 {
        DecimalRoundTrip(gid);
        meta := meta["Gid" := Format(gid, 10)];
      }
      SameMode(bucket.objects[at.value].meta, meta);
      r := Rewrite(at.value, meta, now, down);
    }

    /**
     * Symlink. Its one bucket effect is a new empty object that carries the target. The caches stay right exactly
     * if no positive entry for the key contradicts that object, so always when the key was free.
     */
    method Symlink(target: string, linkPath: string, now: int, down: set<S3Call>) returns (r: Result)
      requires Good()
      modifies bucket, cache, this`pending
      ensures pending <= old(pending) + {KeyFromPath(linkPath)}
      ensures Valid()
      ensures var key := KeyFromPath(linkPath);
              && (r == Done <==> 0 < |target| <= 4080 && key != "" && Put(key) !in down &&
                                 (key !in old(bucket.objects) || Head(key) in down))
              && (r != Done ==> r == Refused && bucket.objects == old(bucket.objects) && Good())
              && (r == Done ==> bucket.objects == old(bucket.objects)[key := LinkObject(target, now)])
              && (r == Done ==> bucket.objects[key].data == [] && ParseMode(bucket.objects[key].meta, false) == 511
                                && Readlink(linkPath, {}) == LinksTo(target))
              && (r == Done ==>
                    (Good() <==> (key in old(Cached()) && !old(Cached())[key].negative ==>
                                    Current(LinkObject(target, now), old(Cached())[key]))))
              && (Head(key) !in down || key !in old(bucket.objects) ==> Good())
              && (r == Done ==> (key in pending <==> ParentPrefix(key) in cache.dirListings))
              && Dropped(if r == Done then {ParentPrefix(key)} else {})
    {
      hide Coherent, FreshListings, Handles.Sound, Handles.Step, C.Table, C.Linked, C.ItemsOf;
      hide KeyFromPath, ParentPrefix, DirKey, NameFromKey, IsListing, Format, ParseMode;
      if target == "" || |target| > 4080 {
        return Refused;
      }
      var s3Key := KeyFromPath(linkPath);
      KeyIsNoDirectory(linkPath);
      if bucket.HeadObject(s3Key, down).Some? {
        return Refused;
      }
      var ok := bucket.PutObject(s3Key, [], LinkObject(target, now).meta, now, down);
      if !ok {
        return Refused;
      }
      LinkMode(LinkObject(target, now).meta);
      NoteLink(s3Key, LinkObject(target, now), old(bucket.objects));
      hide S3FS.Dropped, Current;
      if s3Key !in old(bucket.objects) {
        NotCached(old(bucket.objects), old(Cached()), s3Key);
      }
      return Done;
    }

    /** What Symlink does to the caches once the link is put. */
    method NoteLink(s3Key: string, ghost link: Object, ghost before: Objects)
      requires Valid() && IsFile(s3Key) && bucket.objects == before[s3Key := link]
      requires Coherent(before, Cached()) && FreshListings(before, cache.dirListings, pending)
      modifies cache, this`pending
      ensures Valid() && Dropped({ParentPrefix(s3Key)}) && pending <= old(pending) + {s3Key}
      ensures Good() <==> (s3Key in old(Cached()) && !old(Cached())[s3Key].negative ==> Current(link, old(Cached())[s3Key]))
      ensures s3Key in pending <==> ParentPrefix(s3Key) in cache.dirListings
    {
      hide Coherent, FreshListings, Handles.Sound, C.Table, C.Linked, C.ItemsOf, ParentPrefix, Current;
      ParentIsDirectory(s3Key);
      CacheInvalidateParent(s3Key);
      MarkPending(s3Key);
      OneNewObject(before, old(Cached()), Cached(), s3Key, link);
      StaysFresh(before, bucket.objects, old(cache.dirListings), cache.dirListings, old(pending), pending, {s3Key});
    }

    /** Readlink: the target an object carries in its metadata; an object without one, or with "", is no link. */
    function Readlink(path: string, down: set<S3Call>): (r: LinkAnswer)
      reads this, bucket
      ensures r.NoObject? <==> KeyFromPath(path) !in bucket.objects || Head(KeyFromPath(path)) in down
      ensures r.LinksTo? ==> r.target != "" && var meta := bucket.objects[KeyFromPath(path)].meta;
                                               "Symlink-Target" in meta && meta["Symlink-Target"] == r.target
      ensures r.NoLink? ==> var meta := bucket.objects[KeyFromPath(path)].meta;
                            "Symlink-Target" in meta ==> meta["Symlink-Target"] == ""
    {
      var o := bucket.HeadObject(KeyFromPath(path), down);
      if o.None? then NoObject
      else
        var target := if "Symlink-Target" in o.value.meta then o.value.meta["Symlink-Target"] else "";
        if target == "" then NoLink else LinksTo(target)
    }

    /** Note a file just created, if its directory's listing is still cached. */
    ghost method MarkPending(key: string)
      modifies this`pending
      ensures pending == (if ParentPrefix(key) in cache.dirListings then old(pending) + {key} else old(pending) - {key})
    {
      pending := if ParentPrefix(key) in cache.dirListings then pending + {key} else pending - {key};
    }

    /** Copy: the whole object under a second key. */
    method CopyFile(srcPath: string, dstPath: string, now: int, down: set<S3Call>) returns (ok: bool)
      requires Good()
      modifies bucket, cache, this`pending
      ensures pending <= old(pending)
      ensures Good()
      ensures var src, dst := KeyFromPath(srcPath), KeyFromPath(dstPath);
              && (ok <==> src in old(bucket.objects) && dst != "" && Copy(src, dst) !in down)
              && (!ok ==> bucket.objects == old(bucket.objects))
              && (ok ==> bucket.objects == old(bucket.objects)[dst := old(bucket.objects)[src].(modified := now)])
              && Dropped(if ok then {dst, ParentPrefix(dst)} else {})
    {
      hide Coherent, FreshListings, Handles.Sound, Handles.Step, C.Table, C.Linked, C.ItemsOf;
      hide KeyFromPath, ParentPrefix, DirKey, NameFromKey, IsListing, Format, ParseMode;
      var src, dst := KeyFromPath(srcPath), KeyFromPath(dstPath);
      ok := bucket.CopyObject(src, dst, now, down);
      if !ok {
        return;
      }
      CacheInvalidateTwo(dst, ParentPrefix(dst));
      StaysGood({dst});
    }

    /**
     * The upload at the end of s3WritableFile.Close: one put of the whole content, after which the entry cached for
     * the key is the new object's.
     */
    method CommitUpload(key: string, path: string, data: Bytes, inode: nat, now: int, down: set<S3Call>) returns (ok: bool)
      requires Good() && IsFile(key)
      modifies bucket, cache, this`pending
      ensures pending <= old(pending)
      ensures Good()
      ensures ok <==> Put(key) !in down
      ensures !ok ==> bucket.objects == old(bucket.objects)
      ensures ok ==> bucket.objects == old(bucket.objects)[key := NewFile(data, now)]
      ensures ok ==> bucket.objects[key].data == data && ParseMode(bucket.objects[key].meta, false) == 420
      ensures ok ==> key in Cached() &&
                     Cached()[key] == C.CacheEntry(key, |data|, now, 420, false, inode, now, false)
      ensures ok ==> SubMap(Cached() - {key}, old(Cached()) - {ParentPrefix(key)}) && key !in pending
      ensures ok ==> cache.dirListings == old(cache.dirListings) - {ParentPrefix(key), ParentPrefix(ParentPrefix(key))}
      ensures !ok ==> Dropped({})
    {
      hide Coherent, FreshListings, Handles.Sound, Handles.Step, C.Table, C.Linked, C.ItemsOf;
      hide KeyFromPath, ParentPrefix, DirKey, NameFromKey, IsListing, Format, ParseMode;
      ok := bucket.PutObject(key, data, PosixMetadata(DEFAULT_ID, DEFAULT_ID, DEFAULT_FILE_MODE), now, down);
      if !ok {
        return;
      }
      CacheInvalidate(key);
      CacheInvalidateParent(key);
      CachePut(key, FileInfo(NameFromPath(path), |data|, DEFAULT_FILE_MODE, now, false, inode), now);
      NewFileMode(data, now);
      StaysGood({key});
    }

    /** MkdirAll writes only the marker of the directory itself, without metadata. */
    method MkdirAll(path: string, now: int, down: set<S3Call>, txDown: set<string>) returns (r: Result)
      requires Good()
      modifies bucket, handles, cache, this`pending
      ensures pending <= old(pending)
      ensures Good() && InodesGrow()
      ensures InodesOnlyFor({DirKey(KeyFromPath(path))})
      ensures handles.nextInode == old(handles.nextInode) || handles.nextInode == Handles.Successor(old(handles.nextInode))
      ensures var key, dirKey := KeyFromPath(path), DirKey(KeyFromPath(path));
              Dropped(if r == Done then {dirKey, key, ParentPrefix(dirKey)} else {})
      ensures var dirKey := DirKey(KeyFromPath(path));
              && bucket.objects == (if dirKey == "" || Put(dirKey) in down then old(bucket.objects)
                                    else old(bucket.objects)[dirKey := Object([], map[], now)])
              && r == (if dirKey != "" && Put(dirKey) !in down &&
                          !WantsInode(old(handles.keyToInode), old(handles.nextInode), dirKey, txDown)
                       then Done else Refused)
              && (r == Done ==> dirKey in bucket.objects && dirKey in handles.keyToInode)
    {
      hide Coherent, FreshListings, Handles.Sound, Handles.Step, C.Table, C.Linked, C.ItemsOf;
      hide KeyFromPath, ParentPrefix, DirKey, NameFromKey, IsListing, Format, ParseMode;
      var s3Key := KeyFromPath(path);
      var dirKey := DirKey(s3Key);
      DirKeyIsDirectory(path);
      var ok := bucket.PutObject(dirKey, [], map[], now, down);
      if !ok {
        return Refused;
      }
      var inode := Inode(dirKey, txDown);
      if inode.None? {
        StaysGood({});
        return Refused;
      }
      CacheInvalidateMade(dirKey, s3Key);
      StaysGood({});
      return Done;
    }

    /**
     * What a rename of the object `src` to `dst` leaves: the bucket, the handle and the caches. If the delete fails
     * after the copy, the caches stay right exactly if neither an entry cached for the target nor the cached listing of
     * its directory contradicts the copied object.
     */
    twostate predicate Renamed(src: string, dst: string, now: int, down: set<S3Call>, txDown: set<string>, done: bool)
      requires old(Good()) && Valid() && src in old(bucket.objects)
      reads this, bucket, handles, cache
    {
      && (done || Delete(src) !in down || bucket.objects == old(bucket.objects) ==> Good())
      && (!done && bucket.objects != old(bucket.objects) ==>
            (Good() <==> CopyUnnoticed(old(bucket.objects), old(Cached()), old(cache.dirListings), old(pending), dst,
                                       old(bucket.objects)[src].(modified := now))))
      && RenameEffect(old(bucket.objects), bucket.objects, src, dst, now, down, done)
      && handles.State() == (if done then Handles.Step(old(handles.State()), Handles.Rename(src, dst),
                                                       if src in txDown then Handles.Aborts else Handles.Commits)
                             else old(handles.State()))
      && Dropped(if done then {src, dst, ParentPrefix(src), ParentPrefix(dst)} else {})
    }

    /**
     * Rename copies the file, or else the directory marker, deletes the source, and moves the handle. Nothing under a
     * renamed directory moves.
     */
    method Rename(oldPath: string, newPath: string, now: int, down: set<S3Call>, txDown: set<string>) returns (r: Result)
      requires Good()
      modifies bucket, handles, cache, this`pending
      ensures pending <= old(pending)
      ensures Valid() && handles.nextInode == old(handles.nextInode)
      ensures var src := Locate(old(bucket.objects), KeyFromPath(oldPath), down);
              && (r == NotExist <==> src.None?)
              && (src.None? ==> Good() && bucket.objects == old(bucket.objects) &&
                                handles.State() == old(handles.State()) && Dropped({}))
              && (src.Some? ==>
                    var dst := RenameTarget(src.value, newPath);
                    && dst == (if KeyFromPath(newPath) == "" then ""
                               else if HasSlashSuffix(src.value) then KeyFromPath(newPath) + "/"
                               else KeyFromPath(newPath))
                    && Renamed(src.value, dst, now, down, txDown, r == Done))
    {
      hide Coherent, FreshListings, Handles.Sound, Handles.Step, C.Table, C.Linked, C.ItemsOf;
      hide KeyFromPath, ParentPrefix, DirKey, NameFromKey, IsListing, Format, ParseMode;
      var src := Locate(bucket.objects, KeyFromPath(oldPath), down);
      if src.None? {
        return NotExist;
      }
      hide RenameTarget, S3FS.Renamed;
      RenameKeepsKind(src.value, newPath);
      r := RenameAt(src.value, RenameTarget(src.value, newPath), now, down, txDown);
    }

    method RenameAt(src: string, dst: string, now: int, down: set<S3Call>, txDown: set<string>) returns (r: Result)
      requires Good() && src in bucket.objects
      modifies bucket, handles, cache, this`pending
      ensures pending <= old(pending)
      ensures Valid() && r != NotExist && handles.nextInode == old(handles.nextInode)
      ensures Renamed(src, dst, now, down, txDown, r == Done)
    {
      hide Coherent, FreshListings, Handles.Sound, Handles.Step, C.Table, C.Linked, C.ItemsOf;
      hide KeyFromPath, ParentPrefix, DirKey, NameFromKey, IsListing, Format, ParseMode;
      var ok := bucket.CopyObject(src, dst, now, down);
      if !ok {
        return Refused;
      }
      ok := bucket.DeleteObject(src, down);
      if !ok {
        CopyLeavesGoodIff(old(bucket.objects), Cached(), cache.dirListings, pending, dst,
                          old(bucket.objects)[src].(modified := now));
        return Refused;
      }
      RenameHandle(src, dst, txDown);
      CacheInvalidateMoved(src, dst);
      StaysGood({src, dst});
      return Done;
    }

    method RenameHandle(src: string, dst: string, txDown: set<string>)
      requires Valid()
      modifies handles
      ensures Valid()
      ensures handles.State() == Handles.Step(old(handles.State()), Handles.Rename(src, dst),
                                              if src in txDown then Handles.Aborts else Handles.Commits)
      ensures handles.nextInode == old(handles.nextInode)
    {
      var outcome := if src in txDown then Handles.Aborts else Handles.Commits;
      Handles.StepSound(handles.State(), Handles.Rename(src, dst), outcome);
      var ok := handles.RenameKey(src, dst, src !in txDown);
    }

    /**
     * Stat. When the object exists and every call succeeds, the answer is that object's size and mode exactly if the
     * file's own entry is served from the cache or no directory entry of the same name is: a cached directory entry is
     * consulted before the object.
     */
    method Stat(path: string, now: int, down: set<S3Call>, txDown: set<string>) returns (r: Opened)
      requires Good()
      modifies handles, cache
      ensures Good() && InodesGrow() && cache.dirListings == old(cache.dirListings)
      ensures InodesOnlyFor({KeyFromPath(path), DirKey(KeyFromPath(path))})
      ensures Fetched(bucket.objects, old(Cached()), Cached(), KeyFromPath(path), now)
      ensures Notes(old(Cached()), Cached(), r, KeyFromPath(path), DirKey(KeyFromPath(path)), now)
      ensures DirsNoted(bucket.objects, old(Cached()), Cached(), now)
      ensures var key, dir := KeyFromPath(path), DirKey(KeyFromPath(path));
              && (key == "" ==>
                    && r.OpenedDir? && r.key == ""
                    && r.info == FileInfo("/", 0, 0x8000_0000 + 493, now, true,
                                          if "" in handles.keyToInode then handles.keyToInode[""] else 0))
              && (r.OpenedDir? && key != "" ==>
                    && r.key == dir && r.info.isDir && r.info.name == NameFromPath(path)
                    && dir in handles.keyToInode && r.info.inode == handles.keyToInode[dir]
                    && ((Served(old(Cached()), dir, now) && HasAttributes(r.info, old(Cached())[dir])) ||
                        ((exists k :: k in bucket.objects && dir <= k) &&
                         r.info == (if dir in bucket.objects && Head(dir) !in down
                                    then FromObject(r.info.name, bucket.objects[dir], true, r.info.inode)
                                    else FileInfo(r.info.name, 0, 0x8000_0000 + 493, now, true, r.info.inode)))))
              && (down == {} && txDown == {} && 0 < old(handles.nextInode) < Handles.U64_LIMIT - 2 && key != "" ==>
                    (r.NotFound? <==> Absent(bucket.objects, key, dir) && !Served(old(Cached()), dir, now)))
              && (r.OpenedFile? ==> r.key == key && key in bucket.objects && AnswersFor(r.info, bucket.objects[key])
                                    && r.info.name == NameFromPath(path) && !r.created
                                    && (r.info.modTime == bucket.objects[key].modified ||
                                        (Served(old(Cached()), key, now) &&
                                         r.info.modTime == old(Cached())[key].modTime))
                                    && key in handles.keyToInode && r.info.inode == handles.keyToInode[key])
              && (down == {} && txDown == {} && 0 < old(handles.nextInode) < Handles.U64_LIMIT - 2
                  && key in bucket.objects ==>
                    (r.OpenedFile? <==> Served(old(Cached()), key, now) || !Served(old(Cached()), dir, now)))
              && (txDown == {} && 0 < old(handles.nextInode) < Handles.U64_LIMIT - 2 && key != "" &&
                  Served(old(Cached()), dir, now) && !Served(old(Cached()), key, now) ==>
                    r.OpenedDir? && HasAttributes(r.info, old(Cached())[dir]))
              && (r.NotFound? && down == {} ==> Absent(bucket.objects, key, dir))
              && (key != "" && !Served(old(Cached()), key, now) && !Served(old(Cached()), dir, now) ==>
                    Answers(r, Sighted(bucket.objects, key, dir, down), old(handles.keyToInode), old(handles.nextInode),
                            key, dir, txDown))
              && (key != "" && Served(old(Cached()), key, now) &&
                  !WantsInode(old(handles.keyToInode), old(handles.nextInode), key, txDown) ==>
                    r.OpenedFile?)
              && (key != "" && !Served(old(Cached()), key, now) && Served(old(Cached()), dir, now) &&
                  !WantsInode(old(handles.keyToInode), old(handles.nextInode), dir, txDown) ==>
                    r.OpenedDir?)
              && (r.Failed? ==> WantsInode(handles.keyToInode, handles.nextInode, key, txDown) ||
                                WantsInode(handles.keyToInode, handles.nextInode, dir, txDown))
    {
      hide Coherent, FreshListings, Handles.Sound, Handles.Step, C.Table, C.Linked, C.ItemsOf;
      hide KeyFromPath, ParentPrefix, DirKey, NameFromKey, IsListing, Format, ParseMode;
      var s3Key := KeyFromPath(path);
      if s3Key == "" {
        var root := Inode("", txDown);
        return OpenedDir("", DirInfo("/", if root.Some? then root.value else 0, now));
      }
      hide Notes, DirsNoted;
      var dirKey := DirKey(s3Key);
      DirKeyIsDirectory(path);
      KeyIsNoDirectory(path);
      var cached := StatFromCache(path, s3Key, dirKey, now, txDown);
      ghost var t := Cached();
      if cached.Some? {
        NotesNothing(t, cached.value, s3Key, dirKey, now);
        NotesLess(old(Cached()), t, t, cached.value, s3Key, dirKey, now);
        DirsNotedLess(bucket.objects, old(Cached()), t, t, now);
        return cached.value;
      }
      r := StatFromS3(path, s3Key, dirKey, now, down, txDown);
      NotesLess(old(Cached()), t, Cached(), r, s3Key, dirKey, now);
      NotesDirs(bucket.objects, t, Cached(), r, s3Key, dirKey, now);
      DirsNotedLess(bucket.objects, old(Cached()), t, Cached(), now);
    }

    /** The part of Stat that asks the cache: the file's entry, then the directory's. */
    method StatFromCache(path: string, s3Key: string, dirKey: string, now: int, txDown: set<string>)
        returns (r: Option<Opened>)
      requires Good() && IsFile(s3Key) && HasSlashSuffix(dirKey)
      modifies handles, cache
      ensures Good() && InodesGrow() && SubMap(Cached(), old(Cached())) && cache.dirListings == old(cache.dirListings)
      ensures InodesOnlyFor({s3Key, dirKey})
      ensures r.Some? ==> r.value.OpenedFile? || r.value.OpenedDir?
      ensures !Served(old(Cached()), s3Key, now) && !Served(old(Cached()), dirKey, now) ==>
                r.None? && handles.State() == old(handles.State())
      ensures Served(old(Cached()), s3Key, now) &&
              !WantsInode(old(handles.keyToInode), old(handles.nextInode), s3Key, txDown) ==>
                r.Some? && r.value.OpenedFile?
      ensures !Served(old(Cached()), s3Key, now) && Served(old(Cached()), dirKey, now) &&
              !WantsInode(old(handles.keyToInode), old(handles.nextInode), dirKey, txDown) ==>
                r.Some? && r.value.OpenedDir?
      ensures r.Some? && r.value.OpenedFile? ==>
                && Served(old(Cached()), s3Key, now) && r.value.key == s3Key && r.value.info.name == NameFromPath(path)
                && !r.value.created
                && s3Key in bucket.objects && AnswersFor(r.value.info, bucket.objects[s3Key])
                && r.value.info.modTime == old(Cached())[s3Key].modTime
                && s3Key in handles.keyToInode && r.value.info.inode == handles.keyToInode[s3Key]
      ensures r.Some? && r.value.OpenedDir? ==>
                && Served(old(Cached()), dirKey, now) && r.value.key == dirKey && r.value.info.name == NameFromPath(path)
                && r.value.info.isDir && HasAttributes(r.value.info, old(Cached())[dirKey])
                && dirKey in handles.keyToInode && r.value.info.inode == handles.keyToInode[dirKey]
      ensures txDown == {} && 0 < old(handles.nextInode) < Handles.U64_LIMIT - 2 ==>
                && handles.nextInode != 0
                && (r.None? <==> !Served(old(Cached()), s3Key, now) && !Served(old(Cached()), dirKey, now))
                && (r.Some? ==> (r.value.OpenedFile? <==> Served(old(Cached()), s3Key, now)))
    {
      hide Coherent, FreshListings, Handles.Sound, Handles.Step, C.Table, C.Linked, C.ItemsOf;
      hide KeyFromPath, ParentPrefix, DirKey, NameFromKey, IsListing, Format, ParseMode;
      var file := CacheGet(s3Key, now, txDown);
      if file.Hit? {
        StaysGood({});
        HitIsCurrent(bucket.objects, old(Cached()), s3Key);
        return Some(OpenedFile(s3Key, file.info.(name := NameFromPath(path)), false));
      }
      var dir := CacheGet(dirKey, now, txDown);
      StaysGood({});
      if dir.Hit? {
        HitIsDirectory(bucket.objects, old(Cached()), dirKey);
        return Some(OpenedDir(dirKey, dir.info.(name := NameFromPath(path))));
      }
      return None;
    }

    /** The table would answer for `key` with a positive entry. */
    ghost predicate Served(t: map<string, C.CacheEntry>, key: string, now: int)
    {
      Live(t, key, now) && !t[key].negative
    }

    /** The part of Stat that asks S3. */
    method StatFromS3(path: string, s3Key: string, dirKey: string, now: int, down: set<S3Call>, txDown: set<string>)
        returns (r: Opened)
      requires Good() && IsFile(s3Key) && HasSlashSuffix(dirKey)
      modifies handles, cache
      ensures Good() && InodesGrow() && cache.dirListings == old(cache.dirListings)
      ensures InodesOnlyFor({s3Key, dirKey})
      ensures Fetched(bucket.objects, old(Cached()), Cached(), s3Key, now)
      ensures Notes(old(Cached()), Cached(), r, s3Key, dirKey, now)
      ensures Answers(r, Sighted(bucket.objects, s3Key, dirKey, down), old(handles.keyToInode), old(handles.nextInode),
                      s3Key, dirKey, txDown)
      ensures r.OpenedFile? ==> r.key == s3Key && s3Key in bucket.objects && AnswersFor(r.info, bucket.objects[s3Key])
                                && !r.created
                                && r.info.name == NameFromPath(path)
                                && r.info.modTime == bucket.objects[s3Key].modified
                                && s3Key in handles.keyToInode && r.info.inode == handles.keyToInode[s3Key]
      ensures r.OpenedDir? ==>
                && r.key == dirKey && r.info.isDir && r.info.name == NameFromPath(path)
                && dirKey in handles.keyToInode && r.info.inode == handles.keyToInode[dirKey]
                && (exists k :: k in bucket.objects && dirKey <= k)
                && r.info == (if dirKey in bucket.objects && Head(dirKey) !in down
                              then FromObject(r.info.name, bucket.objects[dirKey], true, r.info.inode)
                              else FileInfo(r.info.name, 0, 0x8000_0000 + 493, now, true, r.info.inode))
      ensures r.OpenedFile? || r.OpenedDir? ==> Remembers(r.key, r.info, now)
      ensures r.NotFound? ==>
                && dirKey in Cached() && Cached()[dirKey] == C.NegativeEntry(dirKey, now)
                && (cache.config.maxEntries > 1 ==> s3Key in Cached() && Cached()[s3Key] == C.NegativeEntry(s3Key, now))
      ensures down == {} && txDown == {} && old(handles.nextInode) != 0 && s3Key in bucket.objects ==> r.OpenedFile?
      ensures down == {} ==> (r.NotFound? <==> Absent(bucket.objects, s3Key, dirKey))
      ensures r.Failed? ==> WantsInode(handles.keyToInode, handles.nextInode, s3Key, txDown) ||
                            WantsInode(handles.keyToInode, handles.nextInode, dirKey, txDown)
    {
      hide Coherent, FreshListings, Handles.Sound, Handles.Step, C.Table, C.Linked, C.ItemsOf;
      hide KeyFromPath, ParentPrefix, DirKey, NameFromKey, IsListing, Format, ParseMode, Fetched, Notes;
      FetchedNone(bucket.objects, Cached(), Cached(), s3Key, now);
      NotesNothing(Cached(), Failed, s3Key, dirKey, now);
      var o := bucket.HeadObject(s3Key, down);
      if o.Some? {
        r := FoundFile(path, s3Key, dirKey, o.value, now, txDown);
        return;
      }
      r := StatDirectory(path, dirKey, now, down, txDown);
      if r.OpenedDir? {
        FetchedNone(bucket.objects, old(Cached()), Cached(), s3Key, now);
        NotesPut(old(Cached()), Cached(), r, s3Key, dirKey, now);
      } else if r.NotFound? {
        CachePutNegatives(s3Key, dirKey, now);
        FetchedNone(bucket.objects, old(Cached()), Cached(), s3Key, now);
        NotesAbsent(old(Cached()), Cached(), s3Key, dirKey, now);
        StaysGood({});
      }
    }

    /** Stat and OpenFile once HeadObject has found the file: its inode, its attributes, and cachePut. */
    method FoundFile(path: string, s3Key: string, ghost dirKey: string, o: Object, now: int, txDown: set<string>)
        returns (r: Opened)
      requires Good() && IsFile(s3Key) && s3Key in bucket.objects && o == bucket.objects[s3Key]
      modifies handles, cache
      ensures Good() && InodesGrow() && cache.dirListings == old(cache.dirListings)
      ensures InodesOnlyFor({s3Key})
      ensures handles.nextInode == old(handles.nextInode) || handles.nextInode == Handles.Successor(old(handles.nextInode))
      ensures Fetched(bucket.objects, old(Cached()), Cached(), s3Key, now)
      ensures Notes(old(Cached()), Cached(), r, s3Key, dirKey, now)
      ensures DirsNoted(bucket.objects, old(Cached()), Cached(), now)
      ensures if WantsInode(old(handles.keyToInode), old(handles.nextInode), s3Key, txDown)
              then r.Failed? && WantsInode(handles.keyToInode, handles.nextInode, s3Key, txDown)
              else
                && s3Key in handles.keyToInode
                && r == OpenedFile(s3Key, FromObject(NameFromPath(path), o, false, handles.keyToInode[s3Key]), false)
                && Remembers(s3Key, r.info, now)
    {
      hide Coherent, FreshListings, Handles.Sound, Handles.Step, C.Table, C.Linked, C.ItemsOf;
      hide KeyFromPath, ParentPrefix, DirKey, NameFromKey, IsListing, Format, ParseMode, Fetched, Notes, DirsNoted;
      FetchedNone(bucket.objects, Cached(), Cached(), s3Key, now);
      NotesNothing(Cached(), Failed, s3Key, dirKey, now);
      DirsNotedLess(bucket.objects, Cached(), Cached(), Cached(), now);
      var inode := Inode(s3Key, txDown);
      if inode.None? {
        StaysGood({});
        return Failed;
      }
      var info := FromObject(NameFromPath(path), o, false, inode.value);
      r := OpenedFile(s3Key, info, false);
      CachePut(s3Key, info, now);
      FetchedPut(bucket.objects, old(Cached()), Cached(), s3Key, C.Stamped(EntryFor(s3Key, info), now), now);
      NotesPut(old(Cached()), Cached(), r, s3Key, dirKey, now);
      NotesDirs(bucket.objects, old(Cached()), Cached(), r, s3Key, dirKey, now);
      StaysGood({});
    }

    /** Stat once there is no file: the marker, or a listing that shows something. */
    method StatDirectory(path: string, dirKey: string, now: int, down: set<S3Call>, txDown: set<string>) returns (r: Opened)
      requires Good() && HasSlashSuffix(dirKey)
      modifies handles, cache
      ensures Good() && InodesGrow() && cache.dirListings == old(cache.dirListings)
      ensures InodesOnlyFor({dirKey})
      ensures r.OpenedDir? ==> SubMap(Cached(), old(Cached())[dirKey := C.Stamped(EntryFor(dirKey, r.info), now)])
      ensures !r.OpenedDir? ==> Cached() == old(Cached())
      ensures var seen := SeesDirectory(bucket.objects, dirKey, down);
              var wants := WantsInode(old(handles.keyToInode), old(handles.nextInode), dirKey, txDown);
              && !r.OpenedFile? && (r.OpenedDir? <==> seen && !wants) && (r.NotFound? <==> !seen)
      ensures r.OpenedDir? ==>
                && r.key == dirKey && r.info.isDir && r.info.name == NameFromPath(path)
                && dirKey in handles.keyToInode && r.info.inode == handles.keyToInode[dirKey]
                && r.info == (if dirKey in bucket.objects && Head(dirKey) !in down
                              then FromObject(r.info.name, bucket.objects[dirKey], true, r.info.inode)
                              else FileInfo(r.info.name, 0, 0x8000_0000 + 493, now, true, r.info.inode))
                && Remembers(dirKey, r.info, now)
      ensures r.Failed? ==> WantsInode(handles.keyToInode, handles.nextInode, dirKey, txDown)
    {
      hide Coherent, FreshListings, Handles.Sound, Handles.Step, C.Table, C.Linked, C.ItemsOf;
      hide KeyFromPath, ParentPrefix, DirKey, NameFromKey, IsListing, Format, ParseMode;
      var marker := bucket.HeadObject(dirKey, down);
      var listing := None;
      if marker.None? {
        listing := bucket.ListObjects(dirKey, down);
        if listing.Some? {
          SomethingListed(bucket.objects, dirKey, listing.value);
        }
      }
      if marker.None? && (listing.None? || |listing.value| == 0) {
        return NotFound;
      }
      var inode := Inode(dirKey, txDown);
      if inode.None? {
        StaysGood({});
        return Failed;
      }
      var info := if marker.Some? then FromObject(NameFromPath(path), marker.value, true, inode.value)
                  else DirInfo(NameFromPath(path), inode.value, now);
      CachePut(dirKey, info, now);
      StaysGood({});
      return OpenedDir(dirKey, info);
    }

    /**
     * OpenFile. Opening for writing what S3 does not report creates an empty placeholder at once; that leaves the
     * cached listing of the directory, if it is still cached, without the new file.
     */
    method OpenFile(path: string, writable: bool, now: int, down: set<S3Call>, txDown: set<string>) returns (r: Opened)
      requires Good()
      modifies bucket, handles, cache, this`pending
      ensures pending <= old(pending) + (if writable then {KeyFromPath(path)} else {})
      ensures Good() && InodesGrow()
      ensures InodesOnlyFor({KeyFromPath(path)} + (if writable then {} else {DirKey(KeyFromPath(path))}))
      ensures Fetched(bucket.objects, old(Cached()), Cached(), KeyFromPath(path), now)
      ensures Notes(old(Cached()), Cached(), r, KeyFromPath(path), DirKey(KeyFromPath(path)), now)
      ensures DirsNoted(bucket.objects, old(Cached()), Cached(), now)
      ensures handles.nextInode == old(handles.nextInode) || handles.nextInode == Handles.Successor(old(handles.nextInode))
      ensures var key := KeyFromPath(path);
              && (key == "" ==>
                    && r.OpenedDir? && r.key == ""
                    && r.info == FileInfo("/", 0, 0x8000_0000 + 493, now, true,
                                          if "" in handles.keyToInode then handles.keyToInode[""] else 0))
              && (r.OpenedFile? ==> r.key == key && key in bucket.objects && AnswersFor(r.info, bucket.objects[key])
                                    && r.info.name == NameFromPath(path) && r.info.modTime == bucket.objects[key].modified
                                    && key in handles.keyToInode && r.info.inode == handles.keyToInode[key])
              && (r.OpenedFile? && r.created ==>
                    && writable && (key !in old(bucket.objects) || Head(key) in down)
                    && bucket.objects == old(bucket.objects)[key := NewFile([], now)]
                    && (key in pending <==> ParentPrefix(key) in cache.dirListings))
              && (!(r.OpenedFile? && r.created) ==> bucket.objects == old(bucket.objects))
              && (r.OpenedFile? ==> (r.created <==> key !in old(bucket.objects) || Head(key) in down))
              && (writable && key != "" ==> r.OpenedFile? || r.Failed?)
              && (key in old(bucket.objects) && Head(key) !in down && key != "" ==>
                    if WantsInode(old(handles.keyToInode), old(handles.nextInode), key, txDown) then r.Failed?
                    else r.OpenedFile?)
              && (writable && key != "" && (key !in old(bucket.objects) || Head(key) in down) ==>
                    (r.Failed? <==> WantsInode(old(handles.keyToInode), old(handles.nextInode), key, txDown) ||
                                    Put(key) in down))
              && (r.Failed? ==>
                    || WantsInode(old(handles.keyToInode), old(handles.nextInode), key, txDown)
                    || (writable && Put(key) in down)
                    || (!writable && WantsInode(old(handles.keyToInode), old(handles.nextInode), DirKey(key), txDown)))
              && (r.OpenedDir? && key != "" ==>
                    && r.key == DirKey(key) && r.info.isDir && r.info.name == NameFromPath(path) && !writable
                    && DirKey(key) in handles.keyToInode && r.info.inode == handles.keyToInode[DirKey(key)]
                    && (exists k :: k in bucket.objects && DirKey(key) <= k)
                    && (if List(DirKey(key)) !in down then
                          r.info == FileInfo(r.info.name, 0, 0x8000_0000 + 493, now, true, r.info.inode)
                        else
                          DirKey(key) in bucket.objects &&
                          r.info == FromObject(r.info.name, bucket.objects[DirKey(key)], true, r.info.inode)))
              && (key != "" && (r.OpenedFile? || r.OpenedDir?) ==> Remembers(r.key, r.info, now))
              && cache.dirListings == (if r.OpenedFile? && r.created
                                       then old(cache.dirListings) - {ParentPrefix(ParentPrefix(key))}
                                       else old(cache.dirListings))
              && (r.OpenedFile? && r.created ==> ParentPrefix(key) !in Cached())
              && (down == {} && key != "" && !writable ==> (r.NotFound? <==> Absent(bucket.objects, key, DirKey(key))))
              && (key != "" && !writable ==>
                    Answers(r, Sighted(bucket.objects, key, DirKey(key), down), old(handles.keyToInode),
                            old(handles.nextInode), key, DirKey(key), txDown))
    {
      hide Coherent, FreshListings, Handles.Sound, Handles.Step, C.Table, C.Linked, C.ItemsOf;
      hide KeyFromPath, ParentPrefix, DirKey, NameFromKey, IsListing, Format, ParseMode;
      var s3Key := KeyFromPath(path);
      if s3Key == "" {
        var root := Inode("", txDown);
        return OpenedDir("", DirInfo("/", if root.Some? then root.value else 0, now));
      }
      hide Notes, DirsNoted;
      NotesNothing(Cached(), Failed, s3Key, DirKey(s3Key), now);
      DirsNotedLess(bucket.objects, Cached(), Cached(), Cached(), now);
      DirKeyIsDirectory(path);
      KeyIsNoDirectory(path);
      var o := bucket.HeadObject(s3Key, down);
      if o.Some? {
        r := FoundFile(path, s3Key, DirKey(s3Key), o.value, now, txDown);
        return;
      }
      if writable {
        r := CreatePlaceholder(path, s3Key, now, down, txDown);
        NotesDirs(bucket.objects, old(Cached()), Cached(), r, s3Key, DirKey(s3Key), now);
        return;
      }
      r := OpenDirectory(path, DirKey(s3Key), now, down, txDown);
      if r.OpenedDir? {
        NotesPut(old(Cached()), Cached(), r, s3Key, DirKey(s3Key), now);
      } else {
        NotesNothing(Cached(), r, s3Key, DirKey(s3Key), now);
      }
      NotesDirs(bucket.objects, old(Cached()), Cached(), r, s3Key, DirKey(s3Key), now);
    }

    /** The creating branch of OpenFile. */
    method CreatePlaceholder(path: string, s3Key: string, now: int, down: set<S3Call>, txDown: set<string>)
        returns (r: Opened)
      requires Good() && IsFile(s3Key)
      modifies bucket, handles, cache, this`pending
      ensures pending <= old(pending) + {s3Key}
      ensures Good() && InodesGrow()
      ensures InodesOnlyFor({s3Key})
      ensures Fetched(bucket.objects, old(Cached()), Cached(), s3Key, now)
      ensures Notes(old(Cached()), Cached(), r, s3Key, DirKey(s3Key), now)
      ensures handles.nextInode == old(handles.nextInode) || handles.nextInode == Handles.Successor(old(handles.nextInode))
      ensures r.Failed? <==>
                WantsInode(old(handles.keyToInode), old(handles.nextInode), s3Key, txDown) || Put(s3Key) in down
      ensures r.Failed? ==> bucket.objects == old(bucket.objects)
      ensures !r.Failed? ==>
                && bucket.objects == old(bucket.objects)[s3Key := NewFile([], now)]
                && r.OpenedFile? && r.key == s3Key && r.created && AnswersFor(r.info, NewFile([], now))
                && r.info.name == NameFromPath(path) && r.info.modTime == now
                && s3Key in handles.keyToInode && r.info.inode == handles.keyToInode[s3Key]
                && (s3Key in pending <==> ParentPrefix(s3Key) in cache.dirListings)
                && Remembers(s3Key, r.info, now) && ParentPrefix(s3Key) !in Cached()
      ensures cache.dirListings == (if r.Failed? then old(cache.dirListings)
                                    else old(cache.dirListings) - {ParentPrefix(ParentPrefix(s3Key))})
    {
      hide Coherent, FreshListings, Handles.Sound, Handles.Step, C.Table, C.Linked, C.ItemsOf;
      hide KeyFromPath, ParentPrefix, DirKey, NameFromKey, IsListing, Format, ParseMode, Fetched, Notes;
      ParentIsDirectory(s3Key);
      FetchedNone(bucket.objects, Cached(), Cached(), s3Key, now);
      NotesNothing(Cached(), Failed, s3Key, DirKey(s3Key), now);
      var inode := Inode(s3Key, txDown);
      if inode.None? {
        StaysGood({});
        return Failed;
      }
      var meta := PosixMetadata(DEFAULT_ID, DEFAULT_ID, DEFAULT_FILE_MODE);
      var ok := bucket.PutObject(s3Key, [], meta, now, down);
      if !ok {
        StaysGood({});
        return Failed;
      }
      NewFileMode([], now);
      var info := FileInfo(NameFromPath(path), 0, DEFAULT_FILE_MODE, now, false, inode.value);
      CachePut(s3Key, info, now);
      CacheInvalidateParent(s3Key);
      FetchedPut(bucket.objects, old(Cached()), Cached(), s3Key, C.Stamped(EntryFor(s3Key, info), now), now);
      NotesPut(old(Cached()), Cached(), OpenedFile(s3Key, info, true), s3Key, DirKey(s3Key), now);
      MarkPending(s3Key);
      StaysGood({s3Key});
      return OpenedFile(s3Key, info, true);
    }

    /** The directory branches of OpenFile. */
    method OpenDirectory(path: string, dirKey: string, now: int, down: set<S3Call>, txDown: set<string>) returns (r: Opened)
      requires Good() && HasSlashSuffix(dirKey)
      modifies handles, cache
      ensures Good() && InodesGrow()
      ensures InodesOnlyFor({dirKey})
      ensures Fetched(bucket.objects, old(Cached()), Cached(), dirKey, now)
      ensures r.OpenedDir? ==> SubMap(Cached(), old(Cached())[dirKey := C.Stamped(EntryFor(dirKey, r.info), now)])
      ensures !r.OpenedDir? ==> Cached() == old(Cached())
      ensures handles.nextInode == old(handles.nextInode) || handles.nextInode == Handles.Successor(old(handles.nextInode))
      ensures var seen := SeesDirectory(bucket.objects, dirKey, down);
              var wants := WantsInode(old(handles.keyToInode), old(handles.nextInode), dirKey, txDown);
              && !r.OpenedFile? && (r.OpenedDir? <==> seen && !wants) && (r.NotFound? <==> !seen)
      ensures r.OpenedDir? ==>
                && r.key == dirKey && r.info.isDir && r.info.name == NameFromPath(path)
                && dirKey in handles.keyToInode && r.info.inode == handles.keyToInode[dirKey]
                && (exists k :: k in bucket.objects && dirKey <= k)
                && (if List(dirKey) !in down then
                      r.info == FileInfo(r.info.name, 0, 0x8000_0000 + 493, now, true, r.info.inode)
                    else
                      dirKey in bucket.objects &&
                      r.info == FromObject(r.info.name, bucket.objects[dirKey], true, r.info.inode))
                && Remembers(dirKey, r.info, now)
                && (MarkerAgrees(bucket.objects, dirKey, r.info.mode) <==>
                    List(dirKey) in down || MarkerAgrees(bucket.objects, dirKey, 0x8000_0000 + 493))
      ensures cache.dirListings == old(cache.dirListings)
      ensures down == {} ==> (r.NotFound? <==> !(exists k :: k in bucket.objects && dirKey <= k))
      ensures r.Failed? ==> WantsInode(old(handles.keyToInode), old(handles.nextInode), dirKey, txDown)
    {
      hide Coherent, FreshListings, Handles.Sound, Handles.Step, C.Table, C.Linked, C.ItemsOf;
      hide KeyFromPath, ParentPrefix, DirKey, NameFromKey, IsListing, Format, ParseMode, Fetched;
      FetchedNone(bucket.objects, Cached(), Cached(), dirKey, now);
      var listing := bucket.ListObjects(dirKey, down);
      if listing.Some? {
        SomethingListed(bucket.objects, dirKey, listing.value);
      }
      var marker := None;
      if listing.None? || |listing.value| == 0 {
        marker := bucket.HeadObject(dirKey, down);
        if marker.None? {
          return NotFound;
        }
      }
      var inode := Inode(dirKey, txDown);
      if inode.None? {
        StaysGood({});
        return Failed;
      }
      var info := if marker.Some? then FromObject(NameFromPath(path), marker.value, true, inode.value)
                  else DirInfo(NameFromPath(path), inode.value, now);
      CachePut(dirKey, info, now);
      FetchedNone(bucket.objects, old(Cached()), Cached(), dirKey, now);
      StaysGood({});
      return OpenedDir(dirKey, info);
    }

    /**
     * Readdir, from the cached listing or from S3. The full answer, of which a positive count takes the front, has
     * exactly the existing files of the directory, with their sizes and modes, except files created since the cached
     * listing was taken. An answer from S3 also has exactly the subdirectories, and it leaves the caches right exactly
     * if each file whose HeadObject failed has the default mode.
     */
    method Readdir(dirKey: string, count: int, now: int, down: set<S3Call>, txDown: set<string>)
        returns (r: Option<seq<FileInfo>>, ghost full: seq<FileInfo>)
      requires Good()
      modifies handles, cache, this`pending
      ensures pending <= old(pending)
      ensures Valid() && InodesGrow()
      ensures var listed := C.ListingAnswer(cache.config, old(cache.State()), AsPrefix(dirKey), now);
              && (listed.Some? || HeadsHarmless(bucket.objects, AsPrefix(dirKey), down) ==> Good())
              && (listed.None? && r.Some? ==> (Good() <==> HeadsHarmless(bucket.objects, AsPrefix(dirKey), down)))
              && (listed.None? && r.Some? ==> ListsDirs(bucket.objects, AsPrefix(dirKey), full))
              && (listed.Some? && r.Some? ==>
                    (ListsDirs(bucket.objects, AsPrefix(dirKey), full) <==>
                     ShowsDirs(bucket.objects, AsPrefix(dirKey), listed.value)))
              && (r.None? && listed.Some? ==>
                    exists e :: e in listed.value &&
                                WantsInode(old(handles.keyToInode), handles.nextInode, e.s3Key, txDown))
              && (r.None? && listed.None? && List(AsPrefix(dirKey)) !in down ==>
                    exists k :: k in bucket.objects && AsPrefix(dirKey) <= k &&
                                WantsInode(old(handles.keyToInode), handles.nextInode,
                                           ListedAs(AsPrefix(dirKey), k), txDown))
              && (listed.None? && List(AsPrefix(dirKey)) in down ==> r.None?)
      ensures ListedIn(bucket.objects, old(Cached()), Cached(), AsPrefix(dirKey), down, now)
      ensures var p := AsPrefix(dirKey);
              var listed := C.ListingAnswer(cache.config, old(cache.State()), p, now);
              forall k :: k in handles.keyToInode && k !in old(handles.keyToInode) ==>
                if listed.Some? then exists e :: e in listed.value && e.s3Key == k
                else exists j :: j in bucket.objects && p <= j && ListedAs(p, j) == k
      ensures KeptOrRight(bucket.objects, old(cache.dirListings), cache.dirListings)
      ensures C.ListingAnswer(cache.config, old(cache.State()), AsPrefix(dirKey), now).None? && r.Some? ==>
                var p := AsPrefix(dirKey);
                && p in cache.dirListings && ShowsDirs(bucket.objects, p, cache.dirListings[p].entries)
                && cache.dirListings[p].cachedAt == now
      ensures r.Some? ==>
                var p := AsPrefix(dirKey);
                var listed := C.ListingAnswer(cache.config, old(cache.State()), p, now);
                if listed.Some? then FromEntries(listed.value, full)
                else
                  && p in cache.dirListings && SameFields(p, cache.dirListings[p].entries, full)
                  && (forall k :: IsFile(k) && ParentPrefix(k) == p ==> ListsSeen(bucket.objects, full, k, down))
                  && (forall i :: 0 <= i < |full| && full[i].isDir ==> full[i].modTime == 0)
      ensures r.Some? ==> r.value == if count > 0 && |full| > count then full[..count] else full
      ensures r.Some? ==> WellAnswered(handles.keyToInode, AsPrefix(dirKey), full)
      ensures var cached := C.ListingAnswer(cache.config, old(cache.State()), AsPrefix(dirKey), now).Some?;
              r.Some? && (cached || HeadsHarmless(bucket.objects, AsPrefix(dirKey), down)) ==>
                forall k :: IsFile(k) && ParentPrefix(k) == AsPrefix(dirKey) && k !in old(pending) ==>
                  ListsFile(bucket.objects, full, k, cached)
    {
      hide Coherent, FreshListings, Handles.Sound, Handles.Step, C.Table, C.Linked, C.ItemsOf;
      hide KeyFromPath, ParentPrefix, DirKey, NameFromKey, IsListing, Format, ParseMode;
      hide ListsDirs, WellAnswered, HaveInodes, FromEntries, ShowsDirs, ListsSeen, SameFields, Named;
      var prefix := AsPrefix(dirKey);
      var cached := cache.GetDirListing(prefix, now);
      full := [];
      var infos;
      if cached.Some? {
        infos := CachedInfos(cached.value, txDown);
        StaysGood({});
        if infos.None? {
          return None, full;
        }
        CachedAnswer(bucket.objects, cache.dirListings, pending, prefix, infos.value);
        ChildrenListed(bucket.objects, cache.dirListings, pending, prefix);
        CachedAnswersWell(handles.keyToInode, prefix, cached.value, infos.value);
        CachedDirsIff(bucket.objects, prefix, cached.value, infos.value);
        AllNamed(prefix, cached.value);
      } else {
        var entries := bucket.ListObjects(prefix, down);
        if entries.None? {
          return None, full;
        }
        infos := ListedInfos(prefix, entries.value, now, down, txDown);
        EntryFromObject(bucket.objects, prefix, entries.value);
        if infos.None? {
          return None, full;
        }
      }
      full := infos.value;
      if count > 0 && |infos.value| > count {
        return Some(infos.value[..count]), full;
      }
      return infos, full;
    }

    /** The answer from a cached listing; None is a failed inode allocation. */
    method CachedInfos(entries: seq<C.CacheEntry>, txDown: set<string>) returns (r: Option<seq<FileInfo>>)
      requires Valid()
      modifies handles
      ensures Valid() && InodesGrow()
      ensures InodesOnlyFor(set e | e in entries :: e.s3Key)
      ensures r.Some? ==> FromEntries(Named(entries), r.value)
      ensures r.Some? ==> HaveInodes(handles.keyToInode, Named(entries), r.value)
      ensures r.None? ==>
                exists e :: e in entries && WantsInode(old(handles.keyToInode), handles.nextInode, e.s3Key, txDown)
    {
      hide Handles.Sound, Handles.Step, C.Linked, C.ItemsOf, NameFromKey;
      var infos: seq<FileInfo> := [];
      assert FromEntries(Named([]), infos) && HaveInodes(handles.keyToInode, Named([]), infos) && entries[..0] == [];
      hide FromEntries, HaveInodes, Named;
      for i := 0 to |entries|
        invariant Valid() && InodesGrow() && InodesOnlyFor(set e | e in entries :: e.s3Key)
        invariant FromEntries(Named(entries[..i]), infos) && HaveInodes(handles.keyToInode, Named(entries[..i]), infos)
      {
        NamedOneMore(entries, i);
        var ce := entries[i];
        var name := NameFromKey(ce.s3Key);
        if name == "" {
          continue;
        }
        ghost var before := handles.keyToInode;
        var inode := Inode(ce.s3Key, txDown);
        if inode.None? {
          return None;
        }
        ShownOneMore(Named(entries[..i]), infos, ce, inode.value);
        var info := FileInfo(name, ce.size, ShownMode(ce), ce.modTime, ce.isDir, inode.value);
        InodesOneMore(before, handles.keyToInode, Named(entries[..i]), infos, ce, info);
        infos := infos + [info];
      }
      assert entries[..|entries|] == entries;
      return Some(infos);
    }

    /** The answer from an S3 listing, which also fills the entry cache and the listing cache. */
    method ListedInfos(prefix: string, entries: seq<ListEntry>, now: int, down: set<S3Call>, txDown: set<string>)
        returns (r: Option<seq<FileInfo>>)
      requires Good() && IsDirPrefix(prefix) && IsListing(bucket.objects, prefix, entries)
      modifies handles, cache, this`pending
      ensures pending <= old(pending)
      ensures Valid() && InodesGrow()
      ensures InodesOnlyFor(set e | e in entries :: e.key)
      ensures ListedIn(bucket.objects, old(Cached()), Cached(), prefix, down, now)
      ensures KeptOrRight(bucket.objects, old(cache.dirListings), cache.dirListings)
      ensures r.Some? ==>
                && prefix in cache.dirListings && ShowsDirs(bucket.objects, prefix, cache.dirListings[prefix].entries)
                && cache.dirListings[prefix].cachedAt == now
                && SameFields(prefix, cache.dirListings[prefix].entries, r.value)
      ensures r.Some? ==>
                && (forall k :: IsFile(k) && ParentPrefix(k) == prefix ==> ListsSeen(bucket.objects, r.value, k, down))
                && (forall i :: 0 <= i < |r.value| && r.value[i].isDir ==> r.value[i].modTime == 0)
      ensures HeadsHarmless(bucket.objects, prefix, down) ==> Good()
      ensures r.Some? ==> (Good() <==> HeadsHarmless(bucket.objects, prefix, down))
      ensures r.Some? && HeadsHarmless(bucket.objects, prefix, down) ==>
                forall k :: IsFile(k) && ParentPrefix(k) == prefix ==> ListsFile(bucket.objects, r.value, k, false)
      ensures r.Some? ==> ListsDirs(bucket.objects, prefix, r.value)
      ensures r.Some? ==> WellAnswered(handles.keyToInode, prefix, r.value)
      ensures r.None? ==>
                exists e :: e in entries && WantsInode(old(handles.keyToInode), handles.nextInode, e.key, txDown)
    {
      hide Coherent, FreshListings, Handles.Sound, Handles.Step, C.Table, C.Linked, C.ItemsOf;
      hide KeyFromPath, ParentPrefix, DirKey, NameFromKey, IsListing, Format, ParseMode;
      hide Kept, FromListing, SameFields, HeadsHarmless, ListsDirs, WellAnswered, HaveInodes, ShowsDirs, ListsSeen;
      var infos, ces := ListedEntries(prefix, entries, now, down, txDown);
      if infos.None? {
        return None;
      }
      CachePutDirListing(prefix, ces, now);
      NewListing(bucket.objects, prefix, entries, ces, infos.value, old(cache.dirListings), old(pending), now, down);
      ListingDirs(bucket.objects, prefix, entries, ces, infos.value, down);
      ListingShowsDirs(bucket.objects, prefix, entries, ces, infos.value, down);
      AllListedSeen(bucket.objects, prefix, entries, ces, infos.value, down);
      DirTimes(bucket.objects, prefix, entries, ces, infos.value, down);
      ListedAnswersWell(handles.keyToInode, bucket.objects, prefix, entries, ces, infos.value, down);
      return infos;
    }

    /** The entries of an S3 listing: the answer and what goes to the listing cache. */
    method ListedEntries(prefix: string, entries: seq<ListEntry>, now: int, down: set<S3Call>, txDown: set<string>)
        returns (r: Option<seq<FileInfo>>, ces: seq<C.CacheEntry>)
      requires Good() && IsDirPrefix(prefix) && IsListing(bucket.objects, prefix, entries)
      modifies handles, cache
      ensures Valid() && InodesGrow()
      ensures InodesOnlyFor(set e | e in entries :: e.key)
      ensures cache.dirListings == old(cache.dirListings)
      ensures ListedIn(bucket.objects, old(Cached()), Cached(), prefix, down, now)
      ensures HeadsHarmless(bucket.objects, prefix, down) ==> Coherent(bucket.objects, Cached())
      ensures r.Some? ==> FromListing(bucket.objects, prefix, Kept(prefix, entries), ces, down)
      ensures r.Some? ==> SameFields(prefix, ces, r.value) && HaveInodes(handles.keyToInode, ces, r.value)
      ensures r.None? ==>
                exists e :: e in entries && WantsInode(old(handles.keyToInode), handles.nextInode, e.key, txDown)
    {
      hide Coherent, FreshListings, Handles.Sound, Handles.Step, C.Table, C.Linked, C.ItemsOf;
      hide KeyFromPath, ParentPrefix, DirKey, NameFromKey, IsListing, Format, ParseMode;
      hide Kept, FromListing, SameFields, HeadsHarmless;
      var infos: seq<FileInfo> := [];
      ces := [];
      NothingNew(bucket.objects, Cached(), prefix, down, now);
      ghost var keys := set e | e in entries :: e.key;
      assert forall i :: 0 <= i < |entries| ==> entries[i].key in keys;
      NothingListed(bucket.objects, prefix, entries, down);
      hide ListedIn, Occupied, HaveInodes, EntryAnswer, TrimSlash;
      for i := 0 to |entries|
        invariant Valid() && InodesGrow() && InodesOnlyFor(keys)
        invariant cache.dirListings == old(cache.dirListings)
        invariant ListedIn(bucket.objects, old(Cached()), Cached(), prefix, down, now)
        invariant HeadsHarmless(bucket.objects, prefix, down) ==> Coherent(bucket.objects, Cached())
        invariant FromListing(bucket.objects, prefix, Kept(prefix, entries[..i]), ces, down)
        invariant SameFields(prefix, ces, infos) && HaveInodes(handles.keyToInode, ces, infos)
      {
        var entry := entries[i];
        PrefixOfEntry(bucket.objects, prefix, entries, i);
        KeptOneMore(prefix, entries, i);
        var name := TrimSlash(entry.key[|prefix|..]);
        if name == "" {
          continue;
        }
        ListedFileChild(bucket.objects, prefix, entries, i);
        ListedDirChild(bucket.objects, prefix, entries, i);
        ghost var before, inodes := Cached(), handles.keyToInode;
        var fi := ListedInfo(entry, name, prefix, now, down, txDown);
        ListedMore(bucket.objects, old(Cached()), before, Cached(), prefix, down, now);
        if fi.None? {
          return None, [];
        }
        ListedOneMore(bucket.objects, prefix, Kept(prefix, entries[..i]), entry, ces, infos, fi.value, down);
        InodesOneMore(inodes, handles.keyToInode, ces, infos, EntryFor(entry.key, fi.value), fi.value);
        infos := infos + [fi.value];
        ces := ces + [EntryFor(entry.key, fi.value)];
      }
      assert entries[..|entries|] == entries;
      return Some(infos), ces;
    }

    /** One entry of an S3 listing: its attributes, which also go to the entry cache. */
    method ListedInfo(entry: ListEntry, name: string, ghost prefix: string, now: int, down: set<S3Call>,
                      txDown: set<string>) returns (r: Option<FileInfo>)
      requires Valid() && (HeadsHarmless(bucket.objects, prefix, down) ==> Coherent(bucket.objects, Cached()))
      requires entry.isDir ==> HasSlashSuffix(entry.key)
      requires HasSlashSuffix(entry.key) ==>
                 entry.size == 0 && entry.modified == 0 && Occupied(bucket.objects, entry.key) && ParentPrefix(entry.key) == prefix
      requires !HasSlashSuffix(entry.key) ==> entry.key in bucket.objects && entry.size == |bucket.objects[entry.key].data|
                                              && entry.modified == bucket.objects[entry.key].modified
                                              && ParentPrefix(entry.key) == prefix
      modifies handles, cache
      ensures Valid() && InodesGrow()
      ensures InodesOnlyFor({entry.key})
      ensures cache.dirListings == old(cache.dirListings)
      ensures ListedIn(bucket.objects, old(Cached()), Cached(), prefix, down, now)
      ensures HeadsHarmless(bucket.objects, prefix, down) ==> Coherent(bucket.objects, Cached())
      ensures r.Some? ==>
                && EntryAnswer(bucket.objects, entry, name, r.value, down)
                && Remembers(entry.key, r.value, now)
                && entry.key in handles.keyToInode && r.value.inode == handles.keyToInode[entry.key]
      ensures r.None? ==> WantsInode(old(handles.keyToInode), handles.nextInode, entry.key, txDown)
    {
      hide Coherent, FreshListings, Handles.Sound, Handles.Step, C.Table, C.Linked, C.ItemsOf;
      hide KeyFromPath, ParentPrefix, DirKey, NameFromKey, IsListing, Format, ParseMode;
      var isDir := entry.isDir || HasSlashSuffix(entry.key);
      var inode := Inode(entry.key, txDown);
      if inode.None? {
        return None;
      }
      var meta: Meta := map[];
      NoMetaMode();
      if !isDir {
        var o := bucket.HeadObject(entry.key, down);
        if o.Some? {
          meta := o.value.meta;
        }
      }
      var fi := FileInfo(name, entry.size, ParseMode(meta, isDir), entry.modified, isDir, inode.value);
      ghost var t := Cached();
      CachePut(entry.key, fi, now);
      if HeadsHarmless(bucket.objects, prefix, down) {
        if !isDir {
          SeenRight(bucket.objects, prefix, down, entry.key);
        }
        StaysCoherent(bucket.objects, bucket.objects, t, Cached(), {});
      }
      return Some(fi);
    }

    method CachePutDirListing(prefix: string, entries: seq<C.CacheEntry>, now: int)
      requires Valid()
      modifies cache, this`pending
      ensures Valid() && Cached() == old(Cached())
      ensures cache.dirListings == old(cache.dirListings)[prefix := C.DirListing(entries, now)]
      ensures pending == set k | k in old(pending) && ParentPrefix(k) != prefix
    {
      cache.PutDirListing(prefix, entries, now);
      pending := set k | k in pending && ParentPrefix(k) != prefix;
    }

    /** Remove deletes the file, or else the directory marker, and only that. */
    method Remove(path: string, down: set<S3Call>, txDown: set<string>) returns (r: Result)
      requires Good()
      modifies bucket, handles, cache, this`pending
      ensures pending <= old(pending)
      ensures Good() && handles.nextInode == old(handles.nextInode)
      ensures var at := Locate(old(bucket.objects), KeyFromPath(path), down);
              && (r == NotExist <==> at.None?)
              && (r == Refused <==> at.Some? && Delete(at.value) in down)
              && (r != Done ==> bucket.objects == old(bucket.objects) && handles.State() == old(handles.State()))
              && (r == Done ==>
                    && bucket.objects == old(bucket.objects) - {at.value}
                    && handles.State() == Handles.Step(old(handles.State()), Handles.Remove(at.value),
                                                       if at.value in txDown then Handles.Aborts else Handles.Commits))
              && Dropped(if r == Done then {at.value, ParentPrefix(at.value)} else {})
    {
      hide Coherent, FreshListings, Handles.Sound, Handles.Step, C.Table, C.Linked, C.ItemsOf;
      hide KeyFromPath, ParentPrefix, DirKey, NameFromKey, IsListing, Format, ParseMode;
      var at := Locate(bucket.objects, KeyFromPath(path), down);
      if at.None? {
        return NotExist;
      }
      r := RemoveAt(at.value, down, txDown);
    }

    method RemoveAt(key: string, down: set<S3Call>, txDown: set<string>) returns (r: Result)
      requires Good() && key in bucket.objects
      modifies bucket, handles, cache, this`pending
      ensures pending <= old(pending)
      ensures Good() && handles.nextInode == old(handles.nextInode)
      ensures r == if Delete(key) in down then Refused else Done
      ensures r == Refused ==> bucket.objects == old(bucket.objects) && handles.State() == old(handles.State())
      ensures r == Done ==>
                && bucket.objects == old(bucket.objects) - {key}
                && handles.State() == Handles.Step(old(handles.State()), Handles.Remove(key),
                                                   if key in txDown then Handles.Aborts else Handles.Commits)
      ensures Dropped(if r == Done then {key, ParentPrefix(key)} else {})
    {
      hide Coherent, FreshListings, Handles.Sound, Handles.Step, C.Table, C.Linked, C.ItemsOf;
      hide KeyFromPath, ParentPrefix, DirKey, NameFromKey, IsListing, Format, ParseMode;
      var ok := bucket.DeleteObject(key, down);
      if !ok {
        return Refused;
      }
      RemoveHandle(key, txDown);
      CacheInvalidateTwo(key, ParentPrefix(key));
      StaysGood({key});
      return Done;
    }

    /** SetXattr on the located object; the object's content never changes. */
    method SetXattr(path: string, name: Bytes, value: Bytes, option: int, now: int, down: set<S3Call>)
        returns (r: Xattrs.XResult<()>)
      requires Good()
      modifies bucket, cache, this`pending
      ensures pending <= old(pending)
      ensures Good()
      ensures r.Err? ==> bucket.objects == old(bucket.objects)
      ensures var at := Locate(old(bucket.objects), KeyFromPath(path), down);
              && (r.Ok? ==>
                    && at.Some?
                    && var o := old(bucket.objects)[at.value];
                       var meta := Xattrs.SetResult(o.meta, name, value, option);
                       && meta.Ok? && bucket.objects == old(bucket.objects)[at.value := Object(o.data, meta.value, now)]
                       && Storage.Rewrite(at.value) !in down && Dropped({at.value}))
              && (r.Err? ==> Dropped({}))
              && (r.Err? && at.Some? && Storage.Rewrite(at.value) !in down ==>
                    Xattrs.SetResult(old(bucket.objects)[at.value].meta, name, value, option) == Xattrs.Err(r.error))
              && (|value| > 2048 || !Xattrs.ValidName(name) ==> r == Xattrs.Err(Xattrs.Invalid))
              && (at.None? && |value| <= 2048 && Xattrs.ValidName(name) ==> r == Xattrs.Err(Xattrs.NotExist))
    {
      hide Coherent, FreshListings, Handles.Sound, Handles.Step, C.Table, C.Linked, C.ItemsOf;
      hide KeyFromPath, ParentPrefix, DirKey, NameFromKey, IsListing, Format, ParseMode;
      hide Xattrs.SetResult;
      if |value| > Xattrs.VALUE_MAX || Xattrs.MetaKey(name).Err? {
        SetRefusedEarly(name, value, option);
        return Xattrs.Err(Xattrs.Invalid);
      }
      var at := Locate(bucket.objects, KeyFromPath(path), down);
      if at.None? {
        return Xattrs.Err(Xattrs.NotExist);
      }
      var meta := Xattrs.SetMeta(bucket.objects[at.value].meta, name, value, option);
      if meta.Err? {
        return Xattrs.Err(meta.error);
      }
      var done := Rewrite(at.value, meta.value, now, down);
      return if done == Done then Xattrs.Ok(()) else Xattrs.Err(Xattrs.Invalid);
    }

    /** RemoveXattr on the located object. */
    method RemoveXattr(path: string, name: Bytes, now: int, down: set<S3Call>) returns (r: Xattrs.XResult<()>)
      requires Good()
      modifies bucket, cache, this`pending
      ensures pending <= old(pending)
      ensures Good()
      ensures r.Err? ==> bucket.objects == old(bucket.objects)
      ensures var at := Locate(old(bucket.objects), KeyFromPath(path), down);
              && (r.Ok? ==>
                    && at.Some?
                    && var o := old(bucket.objects)[at.value];
                       var meta := Xattrs.RemoveResult(o.meta, name);
                       && meta.Ok? && bucket.objects == old(bucket.objects)[at.value := Object(o.data, meta.value, now)]
                       && Storage.Rewrite(at.value) !in down && Dropped({at.value}))
              && (r.Err? ==> Dropped({}))
              && (r.Err? && at.Some? && Storage.Rewrite(at.value) !in down ==>
                    Xattrs.RemoveResult(old(bucket.objects)[at.value].meta, name) == Xattrs.Err(r.error))
              && (!Xattrs.ValidName(name) ==> r == Xattrs.Err(Xattrs.Invalid))
              && (at.None? && Xattrs.ValidName(name) ==> r == Xattrs.Err(Xattrs.NotExist))
    {
      hide Coherent, FreshListings, Handles.Sound, Handles.Step, C.Table, C.Linked, C.ItemsOf;
      hide KeyFromPath, ParentPrefix, DirKey, NameFromKey, IsListing, Format, ParseMode;
      if Xattrs.MetaKey(name).Err? {
        return Xattrs.Err(Xattrs.Invalid);
      }
      hide Xattrs.RemoveResult;
      var at := Locate(bucket.objects, KeyFromPath(path), down);
      if at.None? {
        return Xattrs.Err(Xattrs.NotExist);
      }
      var meta := Xattrs.RemoveMeta(bucket.objects[at.value].meta, name);
      if meta.Err? {
        return Xattrs.Err(meta.error);
      }
      var done := Rewrite(at.value, meta.value, now, down);
      return if done == Done then Xattrs.Ok(()) else Xattrs.Err(Xattrs.Invalid);
    }

    /** GetXattr on the located object. */
    method GetXattr(path: string, name: Bytes, down: set<S3Call>) returns (r: Xattrs.XResult<Bytes>)
      requires Good()
      ensures var at := Locate(bucket.objects, KeyFromPath(path), down);
              && (!Xattrs.ValidName(name) ==> r == Xattrs.Err(Xattrs.Invalid))
              && (at.None? && Xattrs.ValidName(name) ==> r == Xattrs.Err(Xattrs.NotExist))
              && (at.Some? && Xattrs.ValidName(name)
                  && Xattrs.HasSlot(bucket.objects[at.value].meta, Xattrs.SlotKey(name)) ==>
                    exists k :: k in Xattrs.Spellings(bucket.objects[at.value].meta, name) &&
                                r == Xattrs.Read(Some(bucket.objects[at.value].meta[k])))
              && (at.Some? && Xattrs.ValidName(name) && Xattrs.SlotKey(name) in bucket.objects[at.value].meta ==>
                    r == Xattrs.Read(Some(bucket.objects[at.value].meta[Xattrs.SlotKey(name)])))
              && (at.Some? && Xattrs.ValidName(name)
                  && !Xattrs.HasSlot(bucket.objects[at.value].meta, Xattrs.SlotKey(name)) ==>
                    r == Xattrs.Err(Xattrs.NotExist))
    {
      var key := Xattrs.MetaKey(name);
      if key.Err? {
        return Xattrs.Err(Xattrs.Invalid);
      }
      var at := Locate(bucket.objects, KeyFromPath(path), down);
      if at.None? {
        return Xattrs.Err(Xattrs.NotExist);
      }
      var found := Xattrs.FindXattr(bucket.objects[at.value].meta, key.value);
      Xattrs.SpellingsMatch(bucket.objects[at.value].meta, name);
      return Xattrs.Read(found);
    }

    /** One turn of the background eviction. */
    method EvictTick(now: int)
      requires Good()
      modifies cache
      ensures Good()
      ensures Cached() == map k | k in old(Cached()) && Live(old(Cached()), k, now) :: old(Cached())[k]
      ensures cache.dirListings == map d | d in old(cache.dirListings) &&
                                           now - old(cache.dirListings)[d].cachedAt <= cache.config.dirTtl ::
                                     old(cache.dirListings)[d]
    {
      hide Coherent, FreshListings, Handles.Sound, C.Table, C.Linked, C.ItemsOf;
      cache.StateShape();
      C.AppliedTable(cache.config, cache.State(), C.EvictExpired, now);
      cache.EvictExpiredEntries(now);
      StaysGood({});
    }

    /** ResolveHandle: the path a handle leads to. */
    function ResolveHandle(handle: seq<Byte>): Option<string>
      reads this, handles
    {
      var inode := Handles.HandleToInode(handle);
      if inode.None? || inode.value !in handles.inodeToKey then None
      else
        var key := handles.inodeToKey[inode.value];
        Some(if key == "" then "/" else "/" + TrimSlash(key))
    }

    method RemoveHandle(key: string, txDown: set<string>)
      requires Valid()
      modifies handles
      ensures Valid()
      ensures handles.State() == Handles.Step(old(handles.State()), Handles.Remove(key),
                                              if key in txDown then Handles.Aborts else Handles.Commits)
      ensures handles.nextInode == old(handles.nextInode)
    {
      Handles.StepSound(handles.State(), Handles.Remove(key), if key in txDown then Handles.Aborts else Handles.Commits);
      var ok := handles.RemoveByKey(key, key !in txDown);
    }
  }

  /** Neither the object nor anything under the directory of its name exists. */
  ghost predicate Absent(objects: Objects, key: string, dirKey: string) {
    key !in objects && !(exists k :: k in objects && dirKey <= k)
  }

  /** The directory's marker, if there is one, has this mode. */
  ghost predicate MarkerAgrees(objects: Objects, dirKey: string, mode: nat) {
    dirKey in objects ==> ParseMode(objects[dirKey].meta, true) == mode
  }

  /**
   * A directory in an answer of Readdir, which is what goes to the entry cache for it, is right exactly if there is no
   * marker or the marker has the default mode.
   */
  lemma DirShownRightIff(inodes: map<string, Handles.U64>, objects: Objects, prefix: string, infos: seq<FileInfo>, i: nat)
    requires WellAnswered(inodes, prefix, infos) && i < |infos| && infos[i].isDir
    ensures var key := prefix + infos[i].name + "/";
            MarkerAgrees(objects, key, infos[i].mode) <==>
            key !in objects || ParseMode(objects[key].meta, true) == 0x8000_0000 + 7 * 64 + 5 * 8 + 5
  {
  }

  /** Each attribute has the inode of its entry's key. */
  ghost predicate HaveInodes(inodes: map<string, Handles.U64>, entries: seq<C.CacheEntry>, infos: seq<FileInfo>) {
    && |entries| == |infos|
    && (forall i :: 0 <= i < |infos| ==> entries[i].s3Key in inodes && infos[i].inode == inodes[entries[i].s3Key])
  }

  lemma InodesOneMore(before: map<string, Handles.U64>, inodes: map<string, Handles.U64>, entries: seq<C.CacheEntry>,
                      infos: seq<FileInfo>, e: C.CacheEntry, info: FileInfo)
    requires HaveInodes(before, entries, infos) && SubMap(before, inodes)
    requires e.s3Key in inodes && info.inode == inodes[e.s3Key]
    ensures HaveInodes(inodes, entries + [e], infos + [info])
  {
  }

  /** The key of an entry of a directory's answer. */
  function EntryKey(prefix: string, info: FileInfo): string {
    prefix + info.name + (if info.isDir then "/" else "")
  }

  /**
   * What an answer has of every entry, from S3 or from the cache: the inode of its key, and for a directory no size and
   * mode 0755; and no entry twice.
   */
  ghost predicate WellAnswered(inodes: map<string, Handles.U64>, prefix: string, infos: seq<FileInfo>) {
    && (forall i :: 0 <= i < |infos| ==>
          && infos[i].name != ""
          && EntryKey(prefix, infos[i]) in inodes && infos[i].inode == inodes[EntryKey(prefix, infos[i])]
          && (infos[i].isDir ==> infos[i].size == 0 && infos[i].mode == 0x8000_0000 + 493))
    && (forall i, j :: 0 <= i < j < |infos| ==> infos[i].name != infos[j].name || infos[i].isDir != infos[j].isDir)
  }

  lemma ChildrenListed(objects: Objects, ls: map<string, C.DirListing>, pending: set<string>, p: string)
    requires FreshListings(objects, ls, pending) && p in ls
    ensures ChildrenOnly(p, ls[p].entries)
  {
  }

  lemma AnswersWell(inodes: map<string, Handles.U64>, p: string, entries: seq<C.CacheEntry>, infos: seq<FileInfo>)
    requires ChildrenOnly(p, entries) && HaveInodes(inodes, entries, infos)
    requires forall i :: 0 <= i < |infos| ==>
               && infos[i].name == NameFromKey(entries[i].s3Key) && infos[i].isDir == entries[i].isDir
               && (infos[i].isDir ==> infos[i].size == entries[i].size && infos[i].mode == entries[i].mode)
    ensures WellAnswered(inodes, p, infos)
  {
    hide ParentPrefix, NameFromKey;
    forall i | 0 <= i < |infos| ensures EntryKey(p, infos[i]) == entries[i].s3Key {
      assert ChildEntry(p, entries[i]);
      KeyOfChild(entries[i].s3Key);
    }
  }

  lemma CachedAnswersWell(inodes: map<string, Handles.U64>, p: string, entries: seq<C.CacheEntry>, infos: seq<FileInfo>)
    requires ChildrenOnly(p, entries) && HaveInodes(inodes, Named(entries), infos) && FromEntries(Named(entries), infos)
    ensures WellAnswered(inodes, p, infos)
  {
    hide ParentPrefix, NameFromKey, Named;
    AllNamed(p, entries);
    forall i | 0 <= i < |infos| && infos[i].isDir ensures infos[i].mode == entries[i].mode {
      assert ChildEntry(p, entries[i]);
    }
    AnswersWell(inodes, p, entries, infos);
  }

  lemma ListedAnswersWell(inodes: map<string, Handles.U64>, objects: Objects, prefix: string, entries: seq<ListEntry>,
                          ces: seq<C.CacheEntry>, infos: seq<FileInfo>, down: set<S3Call>)
    requires IsListing(objects, prefix, entries) && IsDirPrefix(prefix) && HaveInodes(inodes, ces, infos)
    requires FromListing(objects, prefix, Kept(prefix, entries), ces, down) && SameFields(prefix, ces, infos)
    ensures WellAnswered(inodes, prefix, infos)
  {
    hide ParentPrefix, NameFromKey, Kept, IsListing, FromListing, ChildrenOnly, TrimSlash;
    ListingChildren(objects, prefix, entries, ces, infos, down);
    AnswersWell(inodes, prefix, ces, infos);
  }

  /** Renaming a file goes to the file key of the new path; renaming a marker, to its directory key. */
  function RenameTarget(src: string, newPath: string): string {
    if HasSlashSuffix(src) then DirKey(KeyFromPath(newPath)) else KeyFromPath(newPath)
  }

  /** A file is renamed to a file key and a directory marker to a directory key. */
  lemma RenameKeepsKind(src: string, newPath: string)
    ensures var to := KeyFromPath(newPath);
            RenameTarget(src, newPath) == if to == "" then "" else if HasSlashSuffix(src) then to + "/" else to
  {
    hide KeyFromPath, DirKey;
    KeyFromPathCanonical(newPath);
    CanonicalShape(KeyFromPath(newPath));
    DirKeyIsDirectory(newPath);
  }

  /** An operation on a path works on the file if S3 reports it, and otherwise on the directory marker if it reports that. */
  lemma LocateFinds(objects: Objects, path: string, down: set<S3Call>)
    requires KeyFromPath(path) != ""
    ensures var key := KeyFromPath(path);
            && (Locate(objects, key, down) == Some(key) <==> key in objects && Head(key) !in down)
            && (Locate(objects, key, down) == Some(key + "/") <==>
                  !(key in objects && Head(key) !in down) && key + "/" in objects && Head(key + "/") !in down)
            && (Locate(objects, key, down).Some? ==> Locate(objects, key, down).value in {key, key + "/"})
  {
    hide KeyFromPath, DirKey;
    KeyFromPathCanonical(path);
    CanonicalShape(KeyFromPath(path));
  }

  /**
   * Nothing cached contradicts `o` put under `dst`: the entry for the key is right for it, and the listing of the
   * directory is not cached, or already leaves the key open, or shows a file just like it. Markers are never noticed.
   */
  ghost predicate CopyUnnoticed(objects: Objects, t: map<string, C.CacheEntry>, ls: map<string, C.DirListing>,
                                pending: set<string>, dst: string, o: Object) {
    HasSlashSuffix(dst) ||
    (&& (dst in t && !t[dst].negative ==> Current(o, t[dst]))
     && (ParentPrefix(dst) !in ls || dst in pending || (dst in objects && LooksLike(objects[dst], o))))
  }

  /** With one object put under any key and nothing dropped, the caches stay right exactly if it goes unnoticed. */
  lemma CopyLeavesGoodIff(objects: Objects, t: map<string, C.CacheEntry>, ls: map<string, C.DirListing>,
                          pending: set<string>, dst: string, o: Object)
    requires Coherent(objects, t) && FreshListings(objects, ls, pending) && dst != ""
    ensures Coherent(objects[dst := o], t) && FreshListings(objects[dst := o], ls, pending) <==>
            CopyUnnoticed(objects, t, ls, pending, dst, o)
  {
    hide ParentPrefix, FreshListings;
    if HasSlashSuffix(dst) {
      StaysFresh(objects, objects[dst := o], ls, ls, pending, pending, {});
    } else {
      OneNewObject(objects, t, t, dst, o);
      if dst in pending {
        StaysFresh(objects, objects[dst := o], ls, ls, pending, pending, {dst});
      } else {
        PutKeepsListingsIff(objects, ls, pending, dst, o);
      }
    }
  }

  /** What a rename of `src` to `dst` makes of the bucket, and when it is done. */
  ghost predicate RenameEffect(before: Objects, after: Objects, src: string, dst: string, now: int,
                               down: set<S3Call>, done: bool)
    requires src in before
  {
    var copied := dst != "" && Copy(src, dst) !in down;
    && (done <==> copied && Delete(src) !in down)
    && after == RenameSteps(before, src, dst, now, if !copied then 0 else if !done then 1 else 2)
  }

  /** The bucket after the first n bucket calls of a rename that finds `src`: the copy, then the delete. */
  function RenameSteps(objects: Objects, src: string, dst: string, now: int, n: nat): Objects
    requires src in objects
  {
    var copied := if n >= 1 then objects[dst := objects[src].(modified := now)] else objects;
    if n >= 2 then copied - {src} else copied
  }

  /**
   * A crash anywhere in a rename loses nothing: after every step the content and metadata are still there under the
   * old key or the new one, and no third key has changed. On completion this holds exactly if the keys differ.
   */
  lemma RenameLosesNothing(objects: Objects, src: string, dst: string, now: int, n: nat)
    requires src in objects
    ensures var s := RenameSteps(objects, src, dst, now, n);
            && s - {src, dst} == objects - {src, dst}
            && ((src in s && s[src].data == objects[src].data && s[src].meta == objects[src].meta) ||
                (dst in s && s[dst].data == objects[src].data && s[dst].meta == objects[src].meta)
                <==> src != dst || n < 2)
  {
  }

  /**
   * A directory is renamed by its marker alone: what was under it stays there. So a rename to somewhere else is complete,
   * with nothing left under the old name, exactly if the marker was all there was.
   */
  lemma DirectoryRenameCompleteIff(objects: Objects, src: string, dst: string, now: int)
    requires src in objects && HasSlashSuffix(src) && !(src <= dst)
    ensures var after := RenameSteps(objects, src, dst, now, 2);
            && ((forall k :: k in after ==> !(src <= k)) <==> (forall k :: k in objects && src <= k ==> k == src))
            && (forall k :: k in objects && k != src && k != dst ==> k in after && after[k] == objects[k])
  {
    var after := RenameSteps(objects, src, dst, now, 2);
    forall k | k in objects && src <= k && k != src ensures k in after && src <= k {
    }
    forall k | k in after && src <= k ensures k in objects && k != src {
    }
  }

  /**
   * A crash after n steps of a rename (copy, delete, handle transaction), onto a free key or over another file,
   * followed by a restart: the inode the file had leads to a key that holds its content, except in the one gap between
   * the delete and the transaction, and except for a rename to itself or to the key "\0".
   */
  lemma RenameCrash(objects: Objects, s: Handles.Store, src: string, dst: string, now: int, n: nat)
    requires Handles.Tidy(s) && src in objects && src in s.keyToInode
    requires "" !in objects
    ensures var after := RenameSteps(objects, src, dst, now, n);
            var reopened := Handles.Reopen(if n >= 3 then Handles.Written(s, Handles.Rename(src, dst)) else s.db);
            var inode := s.keyToInode[src];
            && inode in reopened.inodeToKey
            && var key := reopened.inodeToKey[inode];
               (key in after && after[key].data == objects[src].data && after[key].meta == objects[src].meta <==>
                n < 2 || (n >= 3 && src != dst && dst != "\0"))
  {
    hide Handles.Tidy;
    Handles.TidyRecovers(s);
    SoundOfTidy(s);
    if n >= 3 {
      Handles.BoltRoundTrip(dst);
    }
  }

  lemma SoundOfTidy(s: Handles.Store)
    requires Handles.Tidy(s)
    ensures forall k :: k in s.keyToInode ==> s.keyToInode[k] in s.inodeToKey && s.inodeToKey[s.keyToInode[k]] == k
  {
  }

  lemma SetRefusedEarly(name: Bytes, value: Bytes, option: int)
    requires |value| > Xattrs.VALUE_MAX || Xattrs.MetaKey(name).Err?
    ensures forall meta :: Xattrs.SetResult(meta, name, value, option) == Xattrs.Err(Xattrs.Invalid)
  {
  }

  /** A handle leads to the path of its inode's key... */
  lemma HandleResolves(fs: S3FS, key: string, extra: seq<Byte>)
    requires Handles.Sound(fs.handles.State()) && key in fs.handles.keyToInode
    ensures fs.ResolveHandle(Handles.InodeToHandle(fs.handles.keyToInode[key]) + extra) == Some("/" + TrimSlash(key))
  {
    hide Handles.HandleToInode, Handles.InodeToHandle;
    Handles.HandleRoundTrip(fs.handles.keyToInode[key], extra);
    assert fs.handles.inodeToKey[fs.handles.keyToInode[key]] == key;
    assert key == "" ==> "/" + TrimSlash(key) == "/";
  }

  /** A handle leads nowhere exactly if it has fewer than eight bytes or its inode has no key. */
  lemma ResolvesNotIff(fs: S3FS, handle: seq<Byte>)
    ensures fs.ResolveHandle(handle).None? <==>
            |handle| < 8 || Handles.HandleToInode(handle).value !in fs.handles.inodeToKey
  {
    hide Handles.HandleToInode;
  }

  lemma StaleHandle(fs: S3FS, inode: Handles.U64, extra: seq<Byte>)
    requires inode !in fs.handles.inodeToKey
    ensures fs.ResolveHandle(Handles.InodeToHandle(inode) + extra).None?
  {
    hide Handles.HandleToInode, Handles.InodeToHandle;
    Handles.HandleRoundTrip(inode, extra);
  }

  /** A handle the file had before a completed removal leads nowhere afterwards, and those of other files where they did. */
  lemma HandleAfterRemove(s: Handles.Store, fs: S3FS, key: string, other: string, extra: seq<Byte>)
    requires Handles.Sound(s) && key in s.keyToInode && other in s.keyToInode && other != key
    requires fs.handles.State() == Handles.Step(s, Handles.Remove(key), Handles.Commits)
    ensures fs.ResolveHandle(Handles.InodeToHandle(s.keyToInode[key]) + extra).None?
    ensures fs.ResolveHandle(Handles.InodeToHandle(s.keyToInode[other]) + extra) == Some("/" + TrimSlash(other))
  {
    hide Handles.HandleToInode, Handles.InodeToHandle;
    StaleHandle(fs, s.keyToInode[key], extra);
    Handles.HandleRoundTrip(s.keyToInode[other], extra);
    assert other == "" ==> "/" + TrimSlash(other) == "/";
  }

  /** ... and that path leads back to the key, or to the directory of that name. */
  lemma ResolvedLeadsBack(fs: S3FS, key: string, dir: bool, extra: seq<Byte>)
    requires Handles.Sound(fs.handles.State()) && CanonicalKey(key) && (dir ==> key != "")
    requires (if dir then key + "/" else key) in fs.handles.keyToInode
    ensures var path := fs.ResolveHandle(
                          Handles.InodeToHandle(fs.handles.keyToInode[if dir then key + "/" else key]) + extra);
            && path == Some("/" + key) && KeyFromPath(path.value) == key
            && (dir ==> DirKey(KeyFromPath(path.value)) == key + "/")
  {
    hide KeyFromPath, CanonicalKey, DirKey, S3FS.ResolveHandle, Handles.Sound;
    KeyPathRoundTrip(key);
    CanonicalShape(key);
    HandleResolves(fs, if dir then key + "/" else key, extra);
    assert (key + "/")[..|key|] == key;
  }

  /**
   * A handle the file had before a completed rename leads to the new path afterwards, and that path to the new key.
   */
  lemma HandleFollowsRename(s: Handles.Store, fs: S3FS, src: string, newPath: string, extra: seq<Byte>)
    requires Handles.Sound(s) && src in s.keyToInode && !HasSlashSuffix(src) && KeyFromPath(newPath) != ""
    requires fs.handles.State() == Handles.Step(s, Handles.Rename(src, KeyFromPath(newPath)), Handles.Commits)
    ensures var path := fs.ResolveHandle(Handles.InodeToHandle(s.keyToInode[src]) + extra);
            path == Some("/" + KeyFromPath(newPath)) && KeyFromPath(path.value) == KeyFromPath(newPath)
  {
    hide KeyFromPath;
    Handles.HandleRoundTrip(s.keyToInode[src], extra);
    KeyFromPathCanonical(newPath);
    CanonicalShape(KeyFromPath(newPath));
    KeyPathRoundTrip(KeyFromPath(newPath));
  }

  /** nameFromPath. */
  function NameFromPath(path: string): string {
    NameFromKey(path)
  }

  /** The name of a path is its last component. */
  lemma NameOfPath(parent: string, name: string)
    requires IsDirPrefix(parent) && '/' !in name && name != ""
    ensures NameFromPath(parent + name) == name && NameFromPath(parent + name + "/") == name
  {
    ParentAndName(parent, name);
  }

  function LinkObject(target: string, now: int): Object {
    Object([], map["Symlink-Target" := target, "Uid" := Format(DEFAULT_ID, 10), "Gid" := Format(DEFAULT_ID, 10),
                   "Mode" := "0777"], now)
  }

  function NewFile(data: Bytes, now: int): Object {
    Object(data, PosixMetadata(DEFAULT_ID, DEFAULT_ID, DEFAULT_FILE_MODE), now)
  }

  /** A file written by the gateway has the default ids and mode, and no other metadata. */
  lemma NewFileAttributes(data: Bytes, now: int)
    ensures var o := NewFile(data, now);
            && o.data == data && o.modified == now && o.meta.Keys == {"Uid", "Gid", "Mode"}
            && DecimalValue(o.meta["Uid"]) == Some(1000) && DecimalValue(o.meta["Gid"]) == Some(1000)
            && ParseMode(o.meta, false) == 6 * 64 + 4 * 8 + 4
  {
    AttributesReadBack(DEFAULT_ID, DEFAULT_ID, DEFAULT_FILE_MODE);
  }

  /** A link has the default ids, mode 0777 and its target. */
  lemma LinkAttributes(target: string, now: int)
    ensures var o := LinkObject(target, now);
            && o.data == [] && o.modified == now && o.meta.Keys == {"Symlink-Target", "Uid", "Gid", "Mode"}
            && o.meta["Symlink-Target"] == target
            && DecimalValue(o.meta["Uid"]) == Some(1000) && DecimalValue(o.meta["Gid"]) == Some(1000)
            && ParseMode(o.meta, false) == 7 * 64 + 7 * 8 + 7
  {
    hide ParseMode, Format;
    DecimalRoundTrip(DEFAULT_ID);
    LinkMode(LinkObject(target, now).meta);
  }

  /** The attributes reported are the entry's. */
  predicate HasAttributes(info: FileInfo, e: C.CacheEntry) {
    info.size == e.size && info.mode == e.mode && info.modTime == e.modTime && info.isDir == e.isDir
  }

  /** The attributes reported are the object's. */
  predicate AnswersFor(info: FileInfo, o: Object) {
    info.size == |o.data| && info.mode == ParseMode(o.meta, false) && !info.isDir
  }

  lemma HitIsDirectory(objects: Objects, t: map<string, C.CacheEntry>, key: string)
    requires Coherent(objects, t) && key in t && !t[key].negative && HasSlashSuffix(key)
    ensures t[key].isDir
  {
  }

  lemma HitIsCurrent(objects: Objects, t: map<string, C.CacheEntry>, key: string)
    requires Coherent(objects, t) && key in t && !t[key].negative && !HasSlashSuffix(key)
    ensures key in objects && Current(objects[key], t[key])
  {
  }

  lemma SameMode(a: Meta, b: Meta)
    requires ("Mode" in a <==> "Mode" in b) && ("Mode" in a ==> a["Mode"] == b["Mode"])
    ensures ParseMode(a, false) == ParseMode(b, false)
  {
  }

  lemma NewFileMode(data: Bytes, now: int)
    ensures ParseMode(NewFile(data, now).meta, false) == DEFAULT_FILE_MODE
  {
    ModeRoundTrip(NewFile(data, now).meta, DEFAULT_FILE_MODE);
  }

  lemma KeyIsNoDirectory(path: string)
    ensures !HasSlashSuffix(KeyFromPath(path))
  {
    KeyFromPathCanonical(path);
    CanonicalShape(KeyFromPath(path));
  }

  lemma DirKeyIsDirectory(path: string)
    ensures KeyFromPath(path) == "" ==> DirKey(KeyFromPath(path)) == ""
    ensures KeyFromPath(path) != "" ==> HasSlashSuffix(DirKey(KeyFromPath(path)))
  {
    KeyFromPathCanonical(path);
    CanonicalShape(KeyFromPath(path));
  }

  lemma ParentIsDirectory(key: string)
    ensures IsDirPrefix(ParentPrefix(key))
  {
    ParentListsChild(key);
  }

  lemma NotCached(objects: Objects, t: map<string, C.CacheEntry>, key: string)
    requires Coherent(objects, t) && key !in objects && !HasSlashSuffix(key)
    ensures key in t ==> t[key].negative
  {
  }

  /** With one object put under a file key, a coherent table stays so exactly if its entry for the key is right. */
  lemma OneNewObject(objects: Objects, t: map<string, C.CacheEntry>, t': map<string, C.CacheEntry>, key: string, o: Object)
    requires Coherent(objects, t) && !HasSlashSuffix(key)
    requires SubMap(t', t) && (key in t ==> key in t')
    ensures Coherent(objects[key := o], t') <==> (key in t && !t[key].negative ==> Current(o, t[key]))
  {
  }
}
