/** What it means for cached metadata and cached listings to agree with the bucket, and what keeps them so. */
module Coherence {
  import opened Base
  import opened Paths
  import opened Storage
  import opened MetadataCaching

  predicate IsFile(key: string) {
    key != "" && !HasSlashSuffix(key)
  }

  /** The entry has the object's size and mode. */
  ghost predicate Current(o: Object, e: CacheEntry) {
    e.size == |o.data| && e.mode == ParseMode(o.meta, false) && !e.isDir
  }

  /**
   * Every positive entry for a key without a trailing slash names an object and has its size and mode; entries for
   * keys with a trailing slash are directories.
   */
  ghost predicate Coherent(objects: Objects, t: map<string, CacheEntry>) {
    forall k :: k in t && !t[k].negative ==>
      if HasSlashSuffix(k) then t[k].isDir else k in objects && Current(objects[k], t[k])
  }

  /** A listing shows file `k` exactly if it exists, and then as it is. */
  ghost predicate Shows(objects: Objects, entries: seq<CacheEntry>, k: string) {
    && (k in objects <==> exists i :: 0 <= i < |entries| && entries[i].s3Key == k)
    && (forall i :: 0 <= i < |entries| && entries[i].s3Key == k && k in objects ==> Current(objects[k], entries[i]))
  }

  /** The entry names a child of directory `p`; directories have no size and the default mode. */
  ghost predicate ChildEntry(p: string, e: CacheEntry) {
    && ParentPrefix(e.s3Key) == p && NameFromKey(e.s3Key) != "" && (e.isDir <==> HasSlashSuffix(e.s3Key))
    && (e.isDir ==> e.size == 0 && e.mode == MODE_DIR + DEFAULT_DIR_MODE)
  }

  /** The entries are children of the directory, none of them twice. */
  ghost predicate ChildrenOnly(p: string, entries: seq<CacheEntry>) {
    && (forall i :: 0 <= i < |entries| ==> ChildEntry(p, entries[i]))
    && (forall i, j :: 0 <= i < j < |entries| ==> entries[i].s3Key != entries[j].s3Key)
  }

  /** Every cached listing shows the files of its directory, those in `pending` excepted. */
  ghost predicate FreshListings(objects: Objects, ls: map<string, DirListing>, pending: set<string>) {
    && (forall p :: p in ls ==> ChildrenOnly(p, ls[p].entries))
    && (forall p, k :: p in ls && IsFile(k) && ParentPrefix(k) == p && k !in pending ==> Shows(objects, ls[p].entries, k))
  }

  /** Directory markers apart, the buckets differ only at the keys in `changed`. */
  ghost predicate AgreeOutside(a: Objects, b: Objects, changed: set<string>) {
    forall k :: !HasSlashSuffix(k) && k !in changed ==> (k in a <==> k in b) && (k in a && k in b ==> a[k] == b[k])
  }

  /** Entries of the new table are either old ones for untouched keys, negative, directories or current. */
  ghost predicate EntriesFrom(t: map<string, CacheEntry>, t': map<string, CacheEntry>, objects': Objects,
                              changed: set<string>) {
    forall k :: k in t' ==>
      || (k in t && t[k] == t'[k] && k !in changed)
      || t'[k].negative
      || (if HasSlashSuffix(k) then t'[k].isDir else k in objects' && Current(objects'[k], t'[k]))
  }

  lemma StaysCoherent(objects: Objects, objects': Objects, t: map<string, CacheEntry>, t': map<string, CacheEntry>,
                      changed: set<string>)
    requires Coherent(objects, t) && AgreeOutside(objects, objects', changed) && EntriesFrom(t, t', objects', changed)
    ensures Coherent(objects', t')
  {
  }

  /** Listings survive unchanged, and each changed file is pending or has lost its directory's listing. */
  ghost predicate ListingsFrom(ls: map<string, DirListing>, ls': map<string, DirListing>, pending: set<string>,
                               pending': set<string>, changed: set<string>) {
    && SubMap(ls', ls)
    && (forall k :: k in pending && k !in pending' ==> ParentPrefix(k) !in ls')
    && (forall k :: k in changed && IsFile(k) && k !in pending' ==> ParentPrefix(k) !in ls')
  }

  lemma StaysFresh(objects: Objects, objects': Objects, ls: map<string, DirListing>, ls': map<string, DirListing>,
                   pending: set<string>, pending': set<string>, changed: set<string>)
    requires FreshListings(objects, ls, pending) && AgreeOutside(objects, objects', changed)
    requires ListingsFrom(ls, ls', pending, pending', changed)
    ensures FreshListings(objects', ls', pending')
  {
    forall p, k | p in ls' && IsFile(k) && ParentPrefix(k) == p && k !in pending'
      ensures Shows(objects', ls'[p].entries, k)
    {
      assert Shows(objects, ls[p].entries, k);
    }
  }

  /** The two objects have the same size and mode: a listing cannot tell them apart. */
  predicate LooksLike(a: Object, b: Object) {
    |a.data| == |b.data| && ParseMode(a.meta, false) == ParseMode(b.meta, false)
  }

  /**
   * Putting a file in the bucket without touching the listings leaves them right exactly if the listing of its own
   * directory is not cached, or it replaces a file of the same size and mode.
   */
  lemma PutKeepsListingsIff(objects: Objects, ls: map<string, DirListing>, pending: set<string>, k: string, o: Object)
    requires FreshListings(objects, ls, pending) && IsFile(k) && k !in pending
    ensures FreshListings(objects[k := o], ls, pending) <==>
            ParentPrefix(k) !in ls || (k in objects && LooksLike(objects[k], o))
  {
    hide ParentPrefix, ParseMode, ChildrenOnly, Shows;
    var p := ParentPrefix(k);
    if p !in ls {
      StaysFresh(objects, objects[k := o], ls, ls, pending, pending, {k});
    } else {
      ShownAfter(objects, ls[p].entries, k, o);
      if k in objects && LooksLike(objects[k], o) {
        forall q, j | q in ls && IsFile(j) && ParentPrefix(j) == q && j !in pending
          ensures Shows(objects[k := o], ls[q].entries, j)
        {
          if j != k {
            ShownAside(objects, ls[q].entries, j, k, o);
          }
        }
      } else {
        assert !Shows(objects[k := o], ls[p].entries, k);
      }
    }
  }

  lemma ShownAfter(objects: Objects, entries: seq<CacheEntry>, k: string, o: Object)
    requires Shows(objects, entries, k)
    ensures Shows(objects[k := o], entries, k) <==> k in objects && LooksLike(objects[k], o)
  {
    hide ParseMode;
  }

  lemma ShownAside(objects: Objects, entries: seq<CacheEntry>, j: string, k: string, o: Object)
    requires Shows(objects, entries, j) && j != k
    ensures Shows(objects[k := o], entries, j)
  {
    hide ParseMode;
  }

  /** So a new file is missing from the listings exactly if the listing of its own directory is cached. */
  lemma NewFileListedIff(objects: Objects, ls: map<string, DirListing>, pending: set<string>, k: string, o: Object)
    requires FreshListings(objects, ls, pending) && IsFile(k) && k !in objects && k !in pending
    ensures FreshListings(objects[k := o], ls, pending) <==> ParentPrefix(k) !in ls
  {
    PutKeepsListingsIff(objects, ls, pending, k, o);
  }
}
