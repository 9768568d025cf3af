/**
 * Directory answers: the attributes of internal/s3fs/attrs.go, and how the answers of Readdir, from a cached listing
 * or from S3, relate to the files of the directory.
 */
module Listings {
  import opened Base
  import opened Paths
  import opened Storage
  import opened Coherence
  import C = MetadataCaching

  datatype FileInfo = FileInfo(name: string, size: int, mode: nat, modTime: int, isDir: bool, inode: nat)

  function FromObject(name: string, o: Object, isDir: bool, inode: nat): FileInfo {
    FileInfo(name, |o.data|, ParseMode(o.meta, isDir), o.modified, isDir, inode)
  }

  function DirInfo(name: string, inode: nat, now: int): FileInfo {
    FileInfo(name, 0, MODE_DIR + DEFAULT_DIR_MODE, now, true, inode)
  }

  function EntryFor(key: string, info: FileInfo): C.CacheEntry {
    C.CacheEntry(key, info.size, info.modTime, info.mode, info.isDir, info.inode, 0, false)
  }

  /** No HeadObject call fails. */
  ghost predicate HeadsUp(down: set<S3Call>) {
    forall k :: Head(k) !in down
  }

  /** The mode Readdir gives a listed file: the default if its HeadObject fails. */
  function SeenMode(objects: Objects, key: string, down: set<S3Call>): nat
    requires key in objects
  {
    ParseMode(if Head(key) in down then map[] else objects[key].meta, false)
  }

  /** Each file of the directory whose HeadObject fails has the default mode. */
  predicate HeadsHarmless(objects: Objects, prefix: string, down: set<S3Call>) {
    forall k :: k in objects && IsFile(k) && ParentPrefix(k) == prefix && Head(k) in down ==>
      ParseMode(objects[k].meta, false) == DEFAULT_FILE_MODE
  }

  lemma SeenRight(objects: Objects, prefix: string, down: set<S3Call>, k: string)
    requires k in objects && IsFile(k) && ParentPrefix(k) == prefix && HeadsHarmless(objects, prefix, down)
    ensures SeenMode(objects, k, down) == ParseMode(objects[k].meta, false)
  {
  }

  function AsPrefix(dirKey: string): (p: string)
    ensures IsDirPrefix(p) && TrimSlash(p) == TrimSlash(dirKey) && (p == "" <==> dirKey == "")
  {
    if dirKey != "" && !HasSlashSuffix(dirKey) then dirKey + "/" else dirKey
  }

  /** The mode an answer shows for a file of this mode: one from a cached listing shows the default for zero. */
  function AnsweredMode(mode: nat, cached: bool): nat {
    if cached && mode == 0 then DEFAULT_FILE_MODE else mode
  }

  /** The answer, from a cached listing or from S3, has file `k` as such an answer shows it exactly if it exists. */
  ghost predicate ListsFile(objects: Objects, infos: seq<FileInfo>, k: string, cached: bool) {
    && (k in objects <==> exists i :: 0 <= i < |infos| && infos[i].name == NameFromKey(k) && !infos[i].isDir)
    && (forall i :: 0 <= i < |infos| && infos[i].name == NameFromKey(k) && !infos[i].isDir && k in objects ==>
          && infos[i].size == |objects[k].data|
          && infos[i].mode == AnsweredMode(ParseMode(objects[k].meta, false), cached)
          && (!cached ==> infos[i].modTime == objects[k].modified))
  }

  /** In such an answer a file has its own mode exactly if the answer comes from S3 or the mode is not zero. */
  lemma ModeShownIff(objects: Objects, infos: seq<FileInfo>, k: string, cached: bool, i: nat)
    requires ListsFile(objects, infos, k, cached) && k in objects && i < |infos|
    requires infos[i].name == NameFromKey(k) && !infos[i].isDir
    ensures var mode := ParseMode(objects[k].meta, false);
            && (infos[i].mode == mode <==> !cached || mode != 0)
            && (infos[i].mode != mode ==> infos[i].mode == 420)
  {
  }

  /** cacheEntryToFileInfo shows the default mode where the cached mode is zero. */
  function ShownMode(e: C.CacheEntry): nat {
    if e.mode != 0 then e.mode else if e.isDir then MODE_DIR + DEFAULT_DIR_MODE else DEFAULT_FILE_MODE
  }

  function Named(entries: seq<C.CacheEntry>): seq<C.CacheEntry> {
    if entries == [] then []
    else
      var e := entries[|entries| - 1];
      Named(entries[..|entries| - 1]) + (if NameFromKey(e.s3Key) == "" then [] else [e])
  }

  ghost predicate FromEntries(entries: seq<C.CacheEntry>, infos: seq<FileInfo>) {
    && |infos| == |entries|
    && (forall i :: 0 <= i < |infos| ==>
          && infos[i].name == NameFromKey(entries[i].s3Key) && infos[i].size == entries[i].size
          && infos[i].isDir == entries[i].isDir && infos[i].modTime == entries[i].modTime
          && infos[i].mode == (if entries[i].mode != 0 then entries[i].mode
                               else if entries[i].isDir then 0x8000_0000 + 493 else 420))
  }

  lemma NamedOneMore(entries: seq<C.CacheEntry>, i: nat)
    requires i < |entries|
    ensures Named(entries[..i + 1]) ==
            if NameFromKey(entries[i].s3Key) == "" then Named(entries[..i]) else Named(entries[..i]) + [entries[i]]
  {
    hide NameFromKey;
    assert entries[..i + 1][..i] == entries[..i];
  }

  lemma ShownOneMore(entries: seq<C.CacheEntry>, infos: seq<FileInfo>, e: C.CacheEntry, inode: nat)
    requires FromEntries(entries, infos)
    ensures FromEntries(entries + [e],
                        infos + [FileInfo(NameFromKey(e.s3Key), e.size, ShownMode(e), e.modTime, e.isDir, inode)])
  {
    hide NameFromKey;
  }

  lemma {:induction false} AllNamed(p: string, entries: seq<C.CacheEntry>)
    requires ChildrenOnly(p, entries)
    ensures Named(entries) == entries
  {
    hide ParentPrefix, NameFromKey;
    if entries == [] {
    } else {
      AllNamed(p, entries[..|entries| - 1]);
    }
  }

  /** A key is its parent, its name and, for a directory, a slash. */
  lemma KeyOfChild(key: string)
    ensures key == ParentPrefix(key) + NameFromKey(key) + (if HasSlashSuffix(key) then "/" else "")
  {
    assert TrimSlash(key) == ParentPrefix(key) + NameFromKey(key);
    assert HasSlashSuffix(key) ==> key == TrimSlash(key) + "/";
  }

  /** Two files of one directory with one name are one file. */
  lemma SameFile(a: string, b: string)
    requires !HasSlashSuffix(a) && !HasSlashSuffix(b)
    requires ParentPrefix(a) == ParentPrefix(b) && NameFromKey(a) == NameFromKey(b)
    ensures a == b
  {
    assert a == ParentPrefix(a) + NameFromKey(a) && b == ParentPrefix(b) + NameFromKey(b);
  }

  /** Entries that show the files of a directory make an answer that lists them. */
  lemma ShownIsListed(objects: Objects, p: string, entries: seq<C.CacheEntry>, infos: seq<FileInfo>, k: string)
    requires ChildrenOnly(p, entries) && FromEntries(entries, infos)
    requires IsFile(k) && ParentPrefix(k) == p && Shows(objects, entries, k)
    ensures ListsFile(objects, infos, k, true)
  {
    hide ParentPrefix, NameFromKey, ParseMode;
    forall i | 0 <= i < |infos| && infos[i].name == NameFromKey(k) && !infos[i].isDir
      ensures entries[i].s3Key == k
    {
      assert ChildEntry(p, entries[i]);
      SameFile(entries[i].s3Key, k);
    }
    if k in objects {
      var i :| 0 <= i < |entries| && entries[i].s3Key == k;
      assert ChildEntry(p, entries[i]);
      assert infos[i].name == NameFromKey(k) && !infos[i].isDir;
    }
  }

  lemma CachedAnswer(objects: Objects, ls: map<string, C.DirListing>, pending: set<string>, p: string, infos: seq<FileInfo>)
    requires FreshListings(objects, ls, pending) && p in ls && FromEntries(Named(ls[p].entries), infos)
    ensures forall k :: IsFile(k) && ParentPrefix(k) == p && k !in pending ==> ListsFile(objects, infos, k, true)
  {
    hide ListsFile, Shows, ParentPrefix;
    AllNamed(p, ls[p].entries);
    forall k | IsFile(k) && ParentPrefix(k) == p && k !in pending ensures ListsFile(objects, infos, k, true) {
      ShownIsListed(objects, p, ls[p].entries, infos, k);
    }
  }

  /** The entries of a listing that have a name below the prefix. */
  function Kept(prefix: string, entries: seq<ListEntry>): seq<ListEntry> {
    if entries == [] then []
    else
      var e := entries[|entries| - 1];
      Kept(prefix, entries[..|entries| - 1]) +
      (if prefix <= e.key && TrimSlash(e.key[|prefix|..]) != "" then [e] else [])
  }

  lemma {:induction false} KeptFrom(prefix: string, entries: seq<ListEntry>)
    ensures forall j :: 0 <= j < |Kept(prefix, entries)| ==>
              Kept(prefix, entries)[j] in entries && prefix <= Kept(prefix, entries)[j].key &&
              TrimSlash(Kept(prefix, entries)[j].key[|prefix|..]) != ""
    ensures forall i :: 0 <= i < |entries| && prefix <= entries[i].key && TrimSlash(entries[i].key[|prefix|..]) != "" ==>
              entries[i] in Kept(prefix, entries)
  {
    hide TrimSlash;
    if entries == [] {
    } else {
      KeptFrom(prefix, entries[..|entries| - 1]);
    }
  }

  lemma {:induction false} KeptApart(prefix: string, entries: seq<ListEntry>)
    requires DistinctEntries(entries)
    ensures DistinctEntries(Kept(prefix, entries))
  {
    hide TrimSlash;
    if entries == [] {
    } else {
      var front, last := entries[..|entries| - 1], entries[|entries| - 1];
      KeptApart(prefix, front);
      KeptFrom(prefix, front);
      forall j | 0 <= j < |Kept(prefix, front)| ensures Kept(prefix, front)[j].key != last.key {
        var i :| 0 <= i < |front| && front[i] == Kept(prefix, front)[j];
        assert entries[i].key != last.key;
      }
    }
  }

  /** Cache entries built from listing entries. */
  ghost predicate FromListing(objects: Objects, prefix: string, kept: seq<ListEntry>, ces: seq<C.CacheEntry>,
                              down: set<S3Call>) {
    && |ces| == |kept|
    && (forall j :: 0 <= j < |ces| ==>
          && ces[j].s3Key == kept[j].key && ces[j].size == kept[j].size && ces[j].modTime == kept[j].modified
          && ces[j].isDir == (kept[j].isDir || HasSlashSuffix(kept[j].key))
          && (ces[j].isDir ==> ces[j].mode == MODE_DIR + DEFAULT_DIR_MODE)
          && (!ces[j].isDir && kept[j].key in objects ==> ces[j].mode == SeenMode(objects, kept[j].key, down)))
  }

  /** The answer has the fields of the cache entries, under the names left after the prefix. */
  ghost predicate SameFields(prefix: string, ces: seq<C.CacheEntry>, infos: seq<FileInfo>) {
    && |ces| == |infos|
    && (forall j :: 0 <= j < |ces| ==>
          && prefix <= ces[j].s3Key && infos[j].name == TrimSlash(ces[j].s3Key[|prefix|..])
          && infos[j].size == ces[j].size && infos[j].mode == ces[j].mode && infos[j].isDir == ces[j].isDir
          && infos[j].modTime == ces[j].modTime)
  }

  lemma NothingListed(objects: Objects, prefix: string, entries: seq<ListEntry>, down: set<S3Call>)
    ensures FromListing(objects, prefix, Kept(prefix, entries[..0]), [], down) && SameFields(prefix, [], [])
  {
  }

  lemma KeptOneMore(prefix: string, entries: seq<ListEntry>, i: nat)
    requires i < |entries| && prefix <= entries[i].key
    ensures Kept(prefix, entries[..i + 1]) ==
            if TrimSlash(entries[i].key[|prefix|..]) == "" then Kept(prefix, entries[..i])
            else Kept(prefix, entries[..i]) + [entries[i]]
  {
    assert entries[..i + 1][..i] == entries[..i];
  }

  /** The attributes an entry of an S3 listing gets. */
  ghost predicate EntryAnswer(objects: Objects, e: ListEntry, name: string, fi: FileInfo, down: set<S3Call>) {
    && fi.name == name && fi.size == e.size && fi.modTime == e.modified && fi.isDir == HasSlashSuffix(e.key)
    && (if fi.isDir then fi.mode == 0x8000_0000 + 493 else e.key in objects ==> fi.mode == SeenMode(objects, e.key, down))
  }

  lemma ListedOneMore(objects: Objects, prefix: string, kept: seq<ListEntry>, e: ListEntry, ces: seq<C.CacheEntry>,
                      infos: seq<FileInfo>, fi: FileInfo, down: set<S3Call>)
    requires FromListing(objects, prefix, kept, ces, down) && SameFields(prefix, ces, infos)
    requires prefix <= e.key && (e.isDir ==> HasSlashSuffix(e.key))
    requires EntryAnswer(objects, e, TrimSlash(e.key[|prefix|..]), fi, down)
    ensures FromListing(objects, prefix, kept + [e], ces + [EntryFor(e.key, fi)], down)
    ensures SameFields(prefix, ces + [EntryFor(e.key, fi)], infos + [fi])
  {
    hide SeenMode, TrimSlash;
  }

  /** A listing is empty exactly if no object is under the prefix. */
  lemma SomethingListed(objects: Objects, prefix: string, entries: seq<ListEntry>)
    requires IsListing(objects, prefix, entries)
    ensures entries != [] <==> exists k :: k in objects && prefix <= k
  {
    if entries != [] {
      var e := entries[0];
      assert IsObjectEntry(objects, prefix, e) || IsPrefixEntry(objects, prefix, e);
    }
  }

  /** Every entry of a listing stands for an object. */
  lemma EntryFromObject(objects: Objects, prefix: string, entries: seq<ListEntry>)
    requires IsListing(objects, prefix, entries)
    ensures forall e :: e in entries ==> exists k :: k in objects && prefix <= k && e.key == ListedAs(prefix, k)
  {
    forall i | 0 <= i < |entries| ensures exists k :: k in objects && prefix <= k && entries[i].key == ListedAs(prefix, k) {
      if IsObjectEntry(objects, prefix, entries[i]) {
        assert entries[i].key == ListedAs(prefix, entries[i].key);
      } else {
        var k :| k in objects && prefix <= k && !Direct(prefix, k) && entries[i].key == CommonPrefix(prefix, k);
        assert entries[i].key == ListedAs(prefix, k);
      }
    }
  }

  lemma PrefixOfEntry(objects: Objects, prefix: string, entries: seq<ListEntry>, i: nat)
    requires IsListing(objects, prefix, entries) && i < |entries|
    ensures prefix <= entries[i].key && (entries[i].isDir ==> HasSlashSuffix(entries[i].key))
  {
    var e := entries[i];
    if !IsObjectEntry(objects, prefix, e) {
      var k :| k in objects && prefix <= k && !Direct(prefix, k) && e.key == CommonPrefix(prefix, k);
      CommonPrefixShape(prefix, k);
    }
  }

  /** A named entry of a listing is a child of the directory listed. */
  lemma ListedChild(objects: Objects, prefix: string, entries: seq<ListEntry>, i: nat)
    requires IsListing(objects, prefix, entries) && i < |entries| && IsDirPrefix(prefix)
    requires prefix <= entries[i].key && TrimSlash(entries[i].key[|prefix|..]) != ""
    ensures ParentPrefix(entries[i].key) == prefix && NameFromKey(entries[i].key) == TrimSlash(entries[i].key[|prefix|..])
  {
    hide ParentPrefix, NameFromKey, TrimSlash, Direct;
    var e := entries[i];
    if IsObjectEntry(objects, prefix, e) {
      DirectIsOne(prefix, e.key);
    } else {
      var k :| k in objects && prefix <= k && !Direct(prefix, k) && e.key == CommonPrefix(prefix, k);
      CommonPrefixIsOne(prefix, k);
    }
    ListedUnderParentOnly(prefix, e.key);
  }

  /** A named entry without a trailing slash is a file of the directory listed, with its size. */
  lemma ListedFileChild(objects: Objects, prefix: string, entries: seq<ListEntry>, i: nat)
    requires IsListing(objects, prefix, entries) && i < |entries| && IsDirPrefix(prefix)
    requires prefix <= entries[i].key && TrimSlash(entries[i].key[|prefix|..]) != ""
    ensures var e := entries[i];
            !HasSlashSuffix(e.key) ==>
              && e.key in objects && e.size == |objects[e.key].data| && e.modified == objects[e.key].modified
              && ParentPrefix(e.key) == prefix
  {
    hide ParentPrefix, NameFromKey, TrimSlash, Direct;
    if !HasSlashSuffix(entries[i].key) {
      ListedFile(objects, prefix, entries, i);
      ListedChild(objects, prefix, entries, i);
    }
  }

  /** A named entry with a trailing slash stands for a common prefix, and has no size. */
  lemma ListedDirHasNoSize(objects: Objects, prefix: string, entries: seq<ListEntry>, i: nat)
    requires IsListing(objects, prefix, entries) && i < |entries|
    requires prefix <= entries[i].key && TrimSlash(entries[i].key[|prefix|..]) != ""
    ensures HasSlashSuffix(entries[i].key) ==> entries[i].size == 0 && entries[i].modified == 0
  {
  }

  /** And it is a child of the directory, with something below it. */
  lemma ListedDirChild(objects: Objects, prefix: string, entries: seq<ListEntry>, i: nat)
    requires IsListing(objects, prefix, entries) && i < |entries| && IsDirPrefix(prefix)
    requires prefix <= entries[i].key && TrimSlash(entries[i].key[|prefix|..]) != ""
    ensures var e := entries[i];
            HasSlashSuffix(e.key) ==>
              e.size == 0 && e.modified == 0 && Occupied(objects, e.key) && ParentPrefix(e.key) == prefix
  {
    hide ParentPrefix, NameFromKey, TrimSlash, HasSlashSuffix;
    if HasSlashSuffix(entries[i].key) {
      ListedDirHasNoSize(objects, prefix, entries, i);
      ListedChild(objects, prefix, entries, i);
      ListedEither(objects, prefix, entries, i);
      hide IsListing;
      if IsObjectEntry(objects, prefix, entries[i]) {
        assert entries[i].key in objects && entries[i].key <= entries[i].key;
      } else {
        var k :| k in objects && prefix <= k && !Direct(prefix, k) && entries[i].key == CommonPrefix(prefix, k);
        CommonPrefixShape(prefix, k);
      }
    }
  }

  lemma DirectIsOne(prefix: string, key: string)
    requires Direct(prefix, key)
    ensures '/' !in TrimSlash(key[|prefix|..])
  {
  }

  lemma CommonPrefixIsOne(prefix: string, key: string)
    requires prefix <= key && !Direct(prefix, key)
    ensures prefix <= CommonPrefix(prefix, key) && '/' !in TrimSlash(CommonPrefix(prefix, key)[|prefix|..])
  {
    CommonPrefixShape(prefix, key);
    var tail := key[|prefix|..];
    var rest := CommonPrefix(prefix, key)[|prefix|..];
    assert rest == tail[..FirstSlash(tail) + 1];
    assert TrimSlash(rest) == tail[..FirstSlash(tail)];
  }

  /**
   * The listing just cached shows every file of its directory as it is exactly if each file whose HeadObject failed has
   * the default mode; the answer built with it then has every file too.
   */
  lemma NewListing(objects: Objects, prefix: string, entries: seq<ListEntry>, ces: seq<C.CacheEntry>, infos: seq<FileInfo>,
                   ls: map<string, C.DirListing>, pending: set<string>, now: int, down: set<S3Call>)
    requires IsListing(objects, prefix, entries) && IsDirPrefix(prefix) && FreshListings(objects, ls, pending)
    requires FromListing(objects, prefix, Kept(prefix, entries), ces, down) && SameFields(prefix, ces, infos)
    ensures FreshListings(objects, ls[prefix := C.DirListing(ces, now)], set k | k in pending && ParentPrefix(k) != prefix)
            <==> HeadsHarmless(objects, prefix, down)
    ensures HeadsHarmless(objects, prefix, down) ==>
              forall k :: IsFile(k) && ParentPrefix(k) == prefix ==> ListsFile(objects, infos, k, false)
  {
    hide ListsFile, Shows, ParentPrefix, FreshListings, IsListing, FromListing, SameFields, Kept;
    ListingChildren(objects, prefix, entries, ces, infos, down);
    if HeadsHarmless(objects, prefix, down) {
      forall k | IsFile(k) && ParentPrefix(k) == prefix
        ensures Shows(objects, ces, k) && ListsFile(objects, infos, k, false)
      {
        if k in objects {
          SeenRight(objects, prefix, down, k);
        }
        ListingShows(objects, prefix, entries, ces, k, down);
        ListsAsShown(objects, prefix, ces, infos, k);
      }
      FreshWith(objects, prefix, ces, ls, pending, now);
    } else {
      var k :| k in objects && IsFile(k) && ParentPrefix(k) == prefix && Head(k) in down &&
        ParseMode(objects[k].meta, false) != DEFAULT_FILE_MODE;
      NoMetaMode();
      ListingShows(objects, prefix, entries, ces, k, down);
      StaleWith(objects, prefix, ces, ls, pending, now, k);
    }
  }

  /** A listing that shows every file of its directory joins the right ones. */
  lemma FreshWith(objects: Objects, prefix: string, ces: seq<C.CacheEntry>, ls: map<string, C.DirListing>,
                  pending: set<string>, now: int)
    requires FreshListings(objects, ls, pending) && ChildrenOnly(prefix, ces)
    requires forall k :: IsFile(k) && ParentPrefix(k) == prefix ==> Shows(objects, ces, k)
    ensures FreshListings(objects, ls[prefix := C.DirListing(ces, now)], set k | k in pending && ParentPrefix(k) != prefix)
  {
    hide Shows, ParentPrefix;
  }

  /** One that shows some file wrong does not. */
  lemma StaleWith(objects: Objects, prefix: string, ces: seq<C.CacheEntry>, ls: map<string, C.DirListing>,
                  pending: set<string>, now: int, k: string)
    requires IsFile(k) && ParentPrefix(k) == prefix && !Shows(objects, ces, k)
    ensures !FreshListings(objects, ls[prefix := C.DirListing(ces, now)], set j | j in pending && ParentPrefix(j) != prefix)
  {
    hide Shows, ParentPrefix;
    assert !Shows(objects, ls[prefix := C.DirListing(ces, now)][prefix].entries, k);
  }

  lemma NoMetaMode()
    ensures ParseMode(map[], false) == DEFAULT_FILE_MODE && ParseMode(map[], true) == MODE_DIR + DEFAULT_DIR_MODE
  {
  }

  lemma ListingChildren(objects: Objects, prefix: string, entries: seq<ListEntry>, ces: seq<C.CacheEntry>,
                        infos: seq<FileInfo>, down: set<S3Call>)
    requires IsListing(objects, prefix, entries) && IsDirPrefix(prefix)
    requires FromListing(objects, prefix, Kept(prefix, entries), ces, down) && SameFields(prefix, ces, infos)
    ensures ChildrenOnly(prefix, ces)
    ensures forall j :: 0 <= j < |ces| ==> infos[j].name == NameFromKey(ces[j].s3Key)
  {
    hide ParentPrefix, NameFromKey, Kept, SeenMode, TrimSlash, IsObjectEntry, IsPrefixEntry, Stands;
    KeptFrom(prefix, entries);
    KeptApart(prefix, entries);
    hide IsListing;
    forall j | 0 <= j < |ces| ensures ChildEntry(prefix, ces[j]) && infos[j].name == NameFromKey(ces[j].s3Key) {
      var i :| 0 <= i < |entries| && entries[i] == Kept(prefix, entries)[j];
      ListedChild(objects, prefix, entries, i);
      PrefixOfEntry(objects, prefix, entries, i);
      ListedDirHasNoSize(objects, prefix, entries, i);
    }
  }

  /** A listing shows a file as it is exactly if the mode it was given is the file's. */
  lemma ListingShows(objects: Objects, prefix: string, entries: seq<ListEntry>, ces: seq<C.CacheEntry>, k: string,
                     down: set<S3Call>)
    requires IsListing(objects, prefix, entries) && IsDirPrefix(prefix)
    requires FromListing(objects, prefix, Kept(prefix, entries), ces, down)
    requires IsFile(k) && ParentPrefix(k) == prefix
    ensures Shows(objects, ces, k) <==> k !in objects || SeenMode(objects, k, down) == ParseMode(objects[k].meta, false)
    ensures forall j :: 0 <= j < |ces| && ces[j].s3Key == k ==>
              && k in objects && ces[j].modTime == objects[k].modified && ces[j].size == |objects[k].data|
              && !ces[j].isDir && ces[j].mode == SeenMode(objects, k, down)
    ensures k in objects ==> exists j :: 0 <= j < |ces| && ces[j].s3Key == k
  {
    hide ParentPrefix, NameFromKey, IsListing, Kept, ParseMode, SeenMode, TrimSlash;
    KeptFrom(prefix, entries);
    forall j | 0 <= j < |ces| && ces[j].s3Key == k
      ensures k in objects && ces[j].size == |objects[k].data| && !ces[j].isDir && ces[j].mode == SeenMode(objects, k, down)
      ensures ces[j].modTime == objects[k].modified
    {
      var i :| 0 <= i < |entries| && entries[i] == Kept(prefix, entries)[j];
      ListedFile(objects, prefix, entries, i);
    }
    if k in objects {
      var i := FileIsListed(objects, prefix, entries, k);
      NameOfFile(k);
      ListedUnderParentOnly(prefix, k);
      var j :| 0 <= j < |ces| && Kept(prefix, entries)[j] == entries[i];
      assert ces[j].s3Key == k;
    }
  }

  lemma ListsAsShown(objects: Objects, prefix: string, ces: seq<C.CacheEntry>, infos: seq<FileInfo>, k: string)
    requires ChildrenOnly(prefix, ces) && SameFields(prefix, ces, infos)
    requires forall j :: 0 <= j < |ces| ==> infos[j].name == NameFromKey(ces[j].s3Key)
    requires IsFile(k) && ParentPrefix(k) == prefix && Shows(objects, ces, k)
    requires forall j :: 0 <= j < |ces| && ces[j].s3Key == k && k in objects ==> ces[j].modTime == objects[k].modified
    ensures ListsFile(objects, infos, k, false)
  {
    hide ParentPrefix, NameFromKey, ParseMode, TrimSlash;
    forall i | 0 <= i < |infos| && infos[i].name == NameFromKey(k) && !infos[i].isDir ensures ces[i].s3Key == k {
      assert ChildEntry(prefix, ces[i]);
      SameFile(ces[i].s3Key, k);
    }
    if k in objects {
      var i :| 0 <= i < |ces| && ces[i].s3Key == k;
      assert ChildEntry(prefix, ces[i]);
      assert infos[i].name == NameFromKey(k) && !infos[i].isDir;
    }
  }

  /** The answer from S3 has file `k` exactly if it exists, with the mode its HeadObject gave, or the default. */
  ghost predicate ListsSeen(objects: Objects, infos: seq<FileInfo>, k: string, down: set<S3Call>) {
    && (k in objects <==> exists i :: 0 <= i < |infos| && infos[i].name == NameFromKey(k) && !infos[i].isDir)
    && (forall i :: 0 <= i < |infos| && infos[i].name == NameFromKey(k) && !infos[i].isDir && k in objects ==>
          && infos[i].size == |objects[k].data| && infos[i].modTime == objects[k].modified
          && infos[i].mode == ParseMode(if Head(k) in down then map[] else objects[k].meta, false))
  }

  /** So a HeadObject that fails spoils the mode of its own file and nothing else. */
  lemma AllListedSeen(objects: Objects, prefix: string, entries: seq<ListEntry>, ces: seq<C.CacheEntry>,
                      infos: seq<FileInfo>, down: set<S3Call>)
    requires IsListing(objects, prefix, entries) && IsDirPrefix(prefix)
    requires FromListing(objects, prefix, Kept(prefix, entries), ces, down) && SameFields(prefix, ces, infos)
    ensures forall k :: IsFile(k) && ParentPrefix(k) == prefix ==> ListsSeen(objects, infos, k, down)
  {
    hide ListsSeen, ParentPrefix, IsListing, FromListing, SameFields, Kept;
    ListingChildren(objects, prefix, entries, ces, infos, down);
    forall k | IsFile(k) && ParentPrefix(k) == prefix ensures ListsSeen(objects, infos, k, down) {
      ListingShows(objects, prefix, entries, ces, k, down);
      ListsAsSeen(objects, prefix, ces, infos, k, down);
    }
  }

  lemma ListsAsSeen(objects: Objects, prefix: string, ces: seq<C.CacheEntry>, infos: seq<FileInfo>, k: string,
                    down: set<S3Call>)
    requires ChildrenOnly(prefix, ces) && SameFields(prefix, ces, infos) && IsFile(k) && ParentPrefix(k) == prefix
    requires forall j :: 0 <= j < |ces| ==> infos[j].name == NameFromKey(ces[j].s3Key)
    requires forall j :: 0 <= j < |ces| && ces[j].s3Key == k ==>
               && k in objects && ces[j].modTime == objects[k].modified && ces[j].size == |objects[k].data|
               && !ces[j].isDir && ces[j].mode == SeenMode(objects, k, down)
    requires k in objects ==> exists j :: 0 <= j < |ces| && ces[j].s3Key == k
    ensures ListsSeen(objects, infos, k, down)
  {
    hide ParentPrefix, NameFromKey, ParseMode, TrimSlash;
    forall i | 0 <= i < |infos| && infos[i].name == NameFromKey(k) && !infos[i].isDir ensures ces[i].s3Key == k {
      assert ChildEntry(prefix, ces[i]);
      SameFile(ces[i].s3Key, k);
    }
    if k in objects {
      var i :| 0 <= i < |ces| && ces[i].s3Key == k;
      assert infos[i].name == NameFromKey(k) && !infos[i].isDir;
    }
  }

  // ----- Subdirectories -----

  /** The answer shows a directory of this name exactly if some object is under it. */
  ghost predicate ListsDirs(objects: Objects, prefix: string, infos: seq<FileInfo>) {
    forall name :: name != "" && '/' !in name ==>
      ((exists i :: 0 <= i < |infos| && infos[i].name == name && infos[i].isDir) <==>
       (exists k :: k in objects && prefix + name + "/" <= k))
  }

  lemma ListingDirs(objects: Objects, prefix: string, entries: seq<ListEntry>, ces: seq<C.CacheEntry>,
                    infos: seq<FileInfo>, down: set<S3Call>)
    requires IsListing(objects, prefix, entries)
    requires FromListing(objects, prefix, Kept(prefix, entries), ces, down) && SameFields(prefix, ces, infos)
    ensures ListsDirs(objects, prefix, infos)
  {
    hide IsListing, FromListing, SameFields, Kept;
    forall name | name != "" && '/' !in name
      ensures (exists i :: 0 <= i < |infos| && infos[i].name == name && infos[i].isDir) <==>
              (exists k :: k in objects && prefix + name + "/" <= k)
    {
      if i :| 0 <= i < |infos| && infos[i].name == name && infos[i].isDir {
        var k := DirHasObject(objects, prefix, entries, ces, infos, down, i);
      }
      if k :| k in objects && prefix + name + "/" <= k {
        var i := ObjectShowsDir(objects, prefix, entries, ces, infos, down, name, k);
      }
    }
  }

  /** The key of an object below a subdirectory: the common prefix is the subdirectory. */
  lemma Below(prefix: string, name: string, key: string)
    requires '/' !in name && prefix + name + "/" <= key
    ensures !Direct(prefix, key) && CommonPrefix(prefix, key) == prefix + name + "/"
    ensures TrimSlash((prefix + name + "/")[|prefix|..]) == name
  {
    var rest := key[|prefix|..];
    assert rest[|name|] == key[|prefix| + |name|] == '/';
    assert forall i :: 0 <= i < |name| ==> rest[i] == key[|prefix| + i] == (prefix + name + "/")[|prefix| + i] == name[i];
    assert FirstSlash(rest) == |name|;
    assert key[..|prefix| + |name| + 1] == prefix + name + "/";
    assert (prefix + name + "/")[|prefix|..] == name + "/";
  }

  lemma ObjectShowsDir(objects: Objects, prefix: string, entries: seq<ListEntry>, ces: seq<C.CacheEntry>,
                       infos: seq<FileInfo>, down: set<S3Call>, name: string, k: string) returns (j: nat)
    requires IsListing(objects, prefix, entries)
    requires FromListing(objects, prefix, Kept(prefix, entries), ces, down) && SameFields(prefix, ces, infos)
    requires name != "" && '/' !in name && k in objects && prefix + name + "/" <= k
    ensures j < |infos| && infos[j].name == name && infos[j].isDir
  {
    hide Kept, SeenMode, TrimSlash, Direct, CommonPrefix, FromListing, SameFields;
    Below(prefix, name, k);
    var i :| 0 <= i < |entries| && Stands(prefix, k, entries[i]);
    hide IsListing;
    j := AnsweredAs(objects, prefix, entries, ces, infos, down, i);
  }

  /** The attribute a named listing entry shows as. */
  lemma AnsweredAs(objects: Objects, prefix: string, entries: seq<ListEntry>, ces: seq<C.CacheEntry>,
                   infos: seq<FileInfo>, down: set<S3Call>, i: nat) returns (j: nat)
    requires FromListing(objects, prefix, Kept(prefix, entries), ces, down) && SameFields(prefix, ces, infos)
    requires i < |entries| && prefix <= entries[i].key && TrimSlash(entries[i].key[|prefix|..]) != ""
    ensures j < |infos| && infos[j].name == TrimSlash(entries[i].key[|prefix|..])
    ensures infos[j].isDir == (entries[i].isDir || HasSlashSuffix(entries[i].key))
  {
    hide Kept, SeenMode, TrimSlash;
    KeptFrom(prefix, entries);
    j :| 0 <= j < |Kept(prefix, entries)| && Kept(prefix, entries)[j] == entries[i];
  }

  /** The listing entry an attribute of the answer was made from. */
  lemma AnsweredFrom(objects: Objects, prefix: string, entries: seq<ListEntry>, ces: seq<C.CacheEntry>,
                     infos: seq<FileInfo>, down: set<S3Call>, j: nat) returns (i: nat)
    requires FromListing(objects, prefix, Kept(prefix, entries), ces, down) && SameFields(prefix, ces, infos)
    requires j < |infos|
    ensures i < |entries| && prefix <= entries[i].key && infos[j].name == TrimSlash(entries[i].key[|prefix|..])
    ensures infos[j].isDir == (entries[i].isDir || HasSlashSuffix(entries[i].key))
  {
    hide Kept, SeenMode, TrimSlash;
    KeptFrom(prefix, entries);
    assert Kept(prefix, entries)[j] in entries;
    i :| 0 <= i < |entries| && entries[i] == Kept(prefix, entries)[j];
  }

  lemma ListedEither(objects: Objects, prefix: string, entries: seq<ListEntry>, i: nat)
    requires IsListing(objects, prefix, entries) && i < |entries|
    ensures IsObjectEntry(objects, prefix, entries[i]) || IsPrefixEntry(objects, prefix, entries[i])
  {
    hide Direct, CommonPrefix;
  }

  /** The directories of an answer from S3 have no time of their own. */
  lemma DirTimes(objects: Objects, prefix: string, entries: seq<ListEntry>, ces: seq<C.CacheEntry>,
                 infos: seq<FileInfo>, down: set<S3Call>)
    requires IsListing(objects, prefix, entries)
    requires FromListing(objects, prefix, Kept(prefix, entries), ces, down) && SameFields(prefix, ces, infos)
    ensures forall j :: 0 <= j < |infos| && infos[j].isDir ==> infos[j].modTime == 0
  {
    hide IsListing, Kept, SeenMode, TrimSlash;
    KeptFrom(prefix, entries);
    forall j | 0 <= j < |infos| && infos[j].isDir ensures infos[j].modTime == 0 {
      var i :| 0 <= i < |entries| && entries[i] == Kept(prefix, entries)[j];
      ListedDirHasNoSize(objects, prefix, entries, i);
      if !HasSlashSuffix(entries[i].key) {
        ListedFile(objects, prefix, entries, i);
      }
    }
  }

  lemma DirHasObject(objects: Objects, prefix: string, entries: seq<ListEntry>, ces: seq<C.CacheEntry>,
                     infos: seq<FileInfo>, down: set<S3Call>, j: nat) returns (k: string)
    requires IsListing(objects, prefix, entries)
    requires FromListing(objects, prefix, Kept(prefix, entries), ces, down) && SameFields(prefix, ces, infos)
    requires j < |infos| && infos[j].name != "" && infos[j].isDir
    ensures k in objects && prefix + infos[j].name + "/" <= k
  {
    hide Kept, SeenMode, Direct, CommonPrefix, FromListing, SameFields, IsListing;
    var i := AnsweredFrom(objects, prefix, entries, ces, infos, down, j);
    PrefixOfEntry(objects, prefix, entries, i);
    ListedEither(objects, prefix, entries, i);
    var key := entries[i].key;
    assert key == prefix + infos[j].name + "/" by {
      assert key == prefix + key[|prefix|..];
    }
    if IsObjectEntry(objects, prefix, entries[i]) {
      k := key;
    } else {
      k :| k in objects && prefix <= k && !Direct(prefix, k) && key == CommonPrefix(prefix, k);
      CommonPrefixShape(prefix, k);
    }
  }

  // ----- Subdirectories of cached listings -----

  predicate OneComponent(name: string) {
    name != "" && '/' !in name
  }

  /** The subdirectory of `p` with this name. */
  function Sub(p: string, name: string): string {
    p + name + "/"
  }

  ghost predicate Occupied(objects: Objects, dir: string) {
    exists k :: k in objects && dir <= k
  }

  ghost predicate HasEntry(entries: seq<C.CacheEntry>, key: string) {
    exists i :: 0 <= i < |entries| && entries[i].s3Key == key
  }

  /** A listing of `p` shows exactly the subdirectories that hold something. */
  ghost predicate ShowsDirs(objects: Objects, p: string, entries: seq<C.CacheEntry>) {
    forall name :: OneComponent(name) ==> (HasEntry(entries, Sub(p, name)) <==> Occupied(objects, Sub(p, name)))
  }

  /** A listing just taken does. */
  lemma NewListingDirs(objects: Objects, prefix: string, ces: seq<C.CacheEntry>, infos: seq<FileInfo>)
    requires ListsDirs(objects, prefix, infos) && SameFields(prefix, ces, infos)
    requires forall j :: 0 <= j < |ces| ==> (ces[j].isDir <==> HasSlashSuffix(ces[j].s3Key))
    ensures ShowsDirs(objects, prefix, ces)
  {
    forall name | OneComponent(name)
      ensures HasEntry(ces, Sub(prefix, name)) <==> exists i :: 0 <= i < |infos| && infos[i].name == name && infos[i].isDir
    {
      forall j | 0 <= j < |ces| ensures ces[j].s3Key == Sub(prefix, name) <==> infos[j].name == name && infos[j].isDir {
        SubKey(prefix, name, ces[j].s3Key);
      }
      if i :| 0 <= i < |infos| && infos[i].name == name && infos[i].isDir {
        assert ces[i].s3Key == Sub(prefix, name);
      }
    }
    hide SameFields, HasSlashSuffix;
    forall name | OneComponent(name) ensures HasEntry(ces, Sub(prefix, name)) <==> Occupied(objects, Sub(prefix, name)) {
    }
  }

  /** An answer from a cached listing has the right subdirectories exactly if the listing does. */
  lemma CachedDirsIff(objects: Objects, p: string, entries: seq<C.CacheEntry>, infos: seq<FileInfo>)
    requires ChildrenOnly(p, entries) && FromEntries(Named(entries), infos)
    ensures ListsDirs(objects, p, infos) <==> ShowsDirs(objects, p, entries)
  {
    hide ParentPrefix, NameFromKey, HasSlashSuffix, Named;
    AllNamed(p, entries);
    forall name | OneComponent(name)
      ensures HasEntry(entries, Sub(p, name)) <==> exists i :: 0 <= i < |infos| && infos[i].name == name && infos[i].isDir
    {
      forall j | 0 <= j < |entries| ensures entries[j].s3Key == Sub(p, name) <==> infos[j].name == name && infos[j].isDir {
        assert ChildEntry(p, entries[j]);
        ChildDir(p, name, entries[j].s3Key);
      }
      if i :| 0 <= i < |infos| && infos[i].name == name && infos[i].isDir {
        assert entries[i].s3Key == Sub(p, name);
      }
    }
    hide FromEntries, ChildrenOnly, HasEntry;
    SubdirsByName(objects, p, entries, infos);
  }

  lemma SubdirsByName(objects: Objects, p: string, entries: seq<C.CacheEntry>, infos: seq<FileInfo>)
    requires forall name :: OneComponent(name) ==>
               (HasEntry(entries, Sub(p, name)) <==> exists i :: 0 <= i < |infos| && infos[i].name == name && infos[i].isDir)
    ensures ListsDirs(objects, p, infos) <==> ShowsDirs(objects, p, entries)
  {
    hide HasEntry;
    if ListsDirs(objects, p, infos) {
      forall name | OneComponent(name) ensures HasEntry(entries, Sub(p, name)) <==> Occupied(objects, Sub(p, name)) {
      }
    }
    if ShowsDirs(objects, p, entries) {
      forall name | name != "" && '/' !in name
        ensures (exists i :: 0 <= i < |infos| && infos[i].name == name && infos[i].isDir) <==>
                (exists k :: k in objects && p + name + "/" <= k)
      {
        assert OneComponent(name) && (Occupied(objects, Sub(p, name)) <==> exists k :: k in objects && p + name + "/" <= k);
      }
    }
  }

  /** A child of `p` is the subdirectory of a name exactly if it has that name and is a directory. */
  lemma ChildDir(p: string, name: string, key: string)
    requires ParentPrefix(key) == p && OneComponent(name)
    ensures key == Sub(p, name) <==> NameFromKey(key) == name && HasSlashSuffix(key)
  {
    KeyOfChild(key);
    if key == Sub(p, name) {
      assert HasSlashSuffix(key) && key == p + NameFromKey(key) + "/";
      assert key[|p|..|key| - 1] == name && key[|p|..|key| - 1] == NameFromKey(key);
    }
  }

  lemma ListingShowsDirs(objects: Objects, prefix: string, entries: seq<ListEntry>, ces: seq<C.CacheEntry>,
                         infos: seq<FileInfo>, down: set<S3Call>)
    requires IsListing(objects, prefix, entries) && IsDirPrefix(prefix)
    requires FromListing(objects, prefix, Kept(prefix, entries), ces, down) && SameFields(prefix, ces, infos)
    ensures ShowsDirs(objects, prefix, ces)
  {
    hide IsListing, FromListing, SameFields, Kept, ListsDirs, ShowsDirs, ParentPrefix, NameFromKey;
    ListingDirs(objects, prefix, entries, ces, infos, down);
    ListingChildren(objects, prefix, entries, ces, infos, down);
    NewListingDirs(objects, prefix, ces, infos);
  }

  lemma SubKey(prefix: string, name: string, key: string)
    requires prefix <= key
    ensures key == Sub(prefix, name) <==> TrimSlash(key[|prefix|..]) == name && HasSlashSuffix(key) && prefix < key
  {
    assert key == prefix + key[|prefix|..];
    var rest := key[|prefix|..];
    if key == Sub(prefix, name) {
      assert rest == name + "/";
    }
  }

  /**
   * For the subdirectory the change of the bucket makes no difference: if a key below it has come, there was something
   * below it before, and if one has gone, there still is.
   */
  ghost predicate Unnoticed(objects: Objects, objects': Objects, dir: string) {
    && (forall k :: k in objects' && k !in objects && dir <= k ==> Occupied(objects, dir))
    && (forall k :: k in objects && k !in objects' && dir <= k ==> Occupied(objects', dir))
  }

  /**
   * A listing that is not dropped when the bucket changes still shows exactly the subdirectories that hold something, if
   * and only if the change makes no difference to any of its subdirectories.
   */
  lemma DirsStayIff(objects: Objects, objects': Objects, p: string, entries: seq<C.CacheEntry>)
    requires ShowsDirs(objects, p, entries)
    ensures ShowsDirs(objects', p, entries) <==>
            forall name :: OneComponent(name) ==> Unnoticed(objects, objects', Sub(p, name))
  {
    hide HasEntry, OneComponent, Sub;
    forall name | OneComponent(name)
      ensures (Occupied(objects', Sub(p, name)) <==> Occupied(objects, Sub(p, name))) <==>
              Unnoticed(objects, objects', Sub(p, name))
    {
      OccupiedIff(objects, objects', Sub(p, name));
    }
    hide Occupied, Unnoticed;
    if forall name :: OneComponent(name) ==> Unnoticed(objects, objects', Sub(p, name)) {
    } else {
      var name :| OneComponent(name) && !Unnoticed(objects, objects', Sub(p, name));
      assert HasEntry(entries, Sub(p, name)) <==> Occupied(objects, Sub(p, name));
    }
  }

  lemma OccupiedIff(objects: Objects, objects': Objects, dir: string)
    ensures (Occupied(objects', dir) <==> Occupied(objects, dir)) <==> Unnoticed(objects, objects', dir)
  {
  }

  /** One key goes unnoticed exactly if it was there before as after, it is not below, or something else is. */
  lemma OneKeyUnnoticedIff(objects: Objects, objects': Objects, dir: string, k: string)
    requires objects - {k} == objects' - {k}
    ensures Unnoticed(objects, objects', dir) <==>
            (k in objects <==> k in objects') || !(dir <= k) || exists j :: j in objects && j != k && dir <= j
  {
    assert forall j :: j != k ==> (j in objects <==> j in objects - {k}) && (j in objects' <==> j in objects' - {k});
  }

  /** Every listing is an old one, or shows the right subdirectories. */
  ghost predicate KeptOrRight(objects: Objects, ls: map<string, C.DirListing>, ls': map<string, C.DirListing>) {
    forall p :: p in ls' ==> (p in ls && ls'[p] == ls[p]) || ShowsDirs(objects, p, ls'[p].entries)
  }

  ghost predicate AllShowDirs(objects: Objects, ls: map<string, C.DirListing>) {
    forall p :: p in ls ==> ShowsDirs(objects, p, ls[p].entries)
  }

  /** So of the listings that survive a change of the bucket all are right exactly if none of them notices it. */
  lemma AllShowDirsIff(objects: Objects, objects': Objects, ls: map<string, C.DirListing>, ls': map<string, C.DirListing>)
    requires AllShowDirs(objects, ls) && KeptOrRight(objects', ls, ls')
    ensures AllShowDirs(objects', ls') <==>
            forall p, name :: p in ls' && p in ls && ls'[p] == ls[p] && OneComponent(name) ==>
              Unnoticed(objects, objects', Sub(p, name))
  {
    hide ShowsDirs, OneComponent, Sub, Unnoticed;
    forall p | p in ls' && p in ls && ls'[p] == ls[p]
      ensures ShowsDirs(objects', p, ls'[p].entries) <==>
              forall name :: OneComponent(name) ==> Unnoticed(objects, objects', Sub(p, name))
    {
      DirsStayIff(objects, objects', p, ls[p].entries);
    }
  }
}
