/**
 * The operations of the gateway, one at a time, as runs of the step machine of MetadataInterleaving: each of them is its
 * S3 calls and its cache calls in a row.
 */
module MetadataSteps {
  import opened Base
  import opened Paths
  import opened Storage
  import opened Coherence
  import opened FileSystem
  import opened Listings
  import opened MetadataInterleaving
  import Gateway
  import Codecs
  import Handles
  import Xattrs
  import C = MetadataCaching

  /** The positive entries for files. */
  ghost function FileEntries(t: map<string, C.CacheEntry>): map<string, C.CacheEntry> {
    map k | k in t && IsFile(k) && !t[k].negative :: t[k]
  }

  /** After the run the machine stands at the bucket and at the cached entries for files, and owes nothing. */
  ghost predicate StandsAt(start: Objects, run: seq<Step>, objects: Objects, t: map<string, C.CacheEntry>) {
    var m := After(start, run);
    m.objects == objects && m.table == FileEntries(t) && m.owed == multiset{}
  }

  /** Entries forgotten, one after the other. */
  function Forgets(keys: seq<string>): seq<Step> {
    seq(|keys|, i requires 0 <= i < |keys| => ForgetStep(keys[i]))
  }

  ghost function Elements(keys: seq<string>): set<string> {
    set k | k in keys
  }

  // ----- Steps in a row -----

  lemma {:induction false} ForgetAll(start: Objects, run: seq<Step>, keys: seq<string>)
    ensures var m := After(start, run);
            After(start, run + Forgets(keys)) == m.(table := m.table - Elements(keys))
    decreases |keys|
  {
    hide After;
    if keys == [] {
      assert run + Forgets(keys) == run;
      assert After(start, run).table - Elements(keys) == After(start, run).table;
    } else {
      var n := |keys| - 1;
      ForgetAll(start, run, keys[..n]);
      OneMore(start, run + Forgets(keys[..n]), ForgetStep(keys[n]));
      assert run + Forgets(keys[..n]) + [ForgetStep(keys[n])] == run + Forgets(keys);
      assert Elements(keys) == Elements(keys[..n]) + {keys[n]};
      var t := After(start, run).table;
      assert t - Elements(keys[..n]) - {keys[n]} == t - Elements(keys);
    }
  }

  /** The keys of a set in some order. */
  lemma {:induction false} InOrder(keys: set<string>) returns (s: seq<string>)
    ensures Elements(s) == keys
    decreases keys
  {
    if keys == {} {
      s := [];
    } else {
      var k :| k in keys;
      var rest := InOrder(keys - {k});
      s := rest + [k];
      assert Elements(s) == Elements(rest) + {k};
    }
  }

  /** Whatever the cache gives up, by eviction, expiry or a negative entry in its place, is forgotten. */
  lemma {:induction false} ForgetTo(start: Objects, run: seq<Step>, objects: Objects, t: map<string, C.CacheEntry>,
                                    t': map<string, C.CacheEntry>) returns (keys: seq<string>)
    requires StandsAt(start, run, objects, t) && SubMap(FileEntries(t'), FileEntries(t))
    ensures StandsAt(start, run + Forgets(keys), objects, t')
  {
    hide After, FileEntries;
    keys := InOrder(FileEntries(t).Keys - FileEntries(t').Keys);
    ForgetAll(start, run, keys);
    assert FileEntries(t) - Elements(keys) == FileEntries(t');
  }

  lemma EntriesLess(t: map<string, C.CacheEntry>, keys: set<string>)
    ensures FileEntries(t - keys) == FileEntries(t) - keys
  {
    hide IsFile;
  }

  /** A write, the invalidation it owes, and other invalidations. */
  function WriteSteps(key: string, after: Option<Object>, others: seq<string>): seq<Step> {
    [WriteStep(0, key, after, true), DropStep(key)] + Forgets(others)
  }

  lemma WroteOnce(start: Objects, run: seq<Step>, objects: Objects, t: map<string, C.CacheEntry>, key: string,
                  after: Option<Object>, others: seq<string>)
    requires StandsAt(start, run, objects, t)
    ensures StandsAt(start, run + WriteSteps(key, after, others), With(objects, key, after), t - ({key} + Elements(others)))
  {
    hide After, With, FileEntries, LookOf;
    var write, drop := WriteStep(0, key, after, true), DropStep(key);
    AfterWrite(start, run, 0, key, after, true);
    AfterDrop(start, run + [write], key);
    assert multiset{} + multiset{key} - multiset{key} == multiset{};
    ForgetAll(start, run + [write] + [drop], others);
    assert run + [write] + [drop] + Forgets(others) == run + WriteSteps(key, after, others);
    EntriesLess(t, {key} + Elements(others));
    assert FileEntries(t) - {key} - Elements(others) == FileEntries(t) - ({key} + Elements(others));
  }

  /** Metadata read, edited, written back and invalidated. */
  function RewriteSteps(key: string, sets: Meta, dels: set<string>, now: int): seq<Step> {
    [HeadStep(0, key), RewriteStep(0, sets, dels, now), DropStep(key)]
  }

  lemma Rewrote(start: Objects, run: seq<Step>, objects: Objects, t: map<string, C.CacheEntry>, key: string, sets: Meta,
                dels: set<string>, now: int)
    requires StandsAt(start, run, objects, t) && key in objects
    ensures StandsAt(start, run + RewriteSteps(key, sets, dels, now),
                     objects[key := Object(objects[key].data, Edited(objects[key].meta, sets, dels), now)], t - {key})
  {
    hide After, Edited, ParseMode, FileEntries;
    var head, rewrite := HeadStep(0, key), RewriteStep(0, sets, dels, now);
    AfterHead(start, run, 0, key);
    AfterRewrite(start, run + [head], 0, sets, dels, now);
    AfterDrop(start, run + [head] + [rewrite], key);
    assert multiset{} + multiset{key} - multiset{key} == multiset{};
    assert run + [head] + [rewrite] + [DropStep(key)] == run + RewriteSteps(key, sets, dels, now);
    EntriesLess(t, {key});
  }

  /** A copy, a delete, and the four invalidations. */
  function MoveSteps(src: string, dst: string, o: Object): seq<Step> {
    [WriteStep(0, dst, Some(o), true), WriteStep(0, src, None, true), DropStep(src), DropStep(dst)] +
    Forgets([ParentPrefix(src), ParentPrefix(dst)])
  }

  lemma Moved(start: Objects, run: seq<Step>, objects: Objects, t: map<string, C.CacheEntry>, src: string, dst: string,
              o: Object)
    requires StandsAt(start, run, objects, t)
    ensures StandsAt(start, run + MoveSteps(src, dst, o), objects[dst := o] - {src},
                     t - {src, dst, ParentPrefix(src), ParentPrefix(dst)})
  {
    hide After, FileEntries, LookOf, ParentPrefix;
    var a, b := WriteStep(0, dst, Some(o), true), WriteStep(0, src, None, true);
    AfterWrite(start, run, 0, dst, Some(o), true);
    AfterWrite(start, run + [a], 0, src, None, true);
    AfterDrop(start, run + [a] + [b], src);
    assert multiset{} + multiset{dst} + multiset{src} - multiset{src} == multiset{dst};
    AfterDrop(start, run + [a] + [b] + [DropStep(src)], dst);
    assert multiset{dst} - multiset{dst} == multiset{};
    MovedAway(start, run, objects, t, src, dst, o);
  }

  lemma MovedAway(start: Objects, run: seq<Step>, objects: Objects, t: map<string, C.CacheEntry>, src: string, dst: string,
                  o: Object)
    requires var moved := run + [WriteStep(0, dst, Some(o), true)] + [WriteStep(0, src, None, true)] + [DropStep(src)] +
                          [DropStep(dst)];
             var m := After(start, moved);
             m.objects == objects[dst := o] - {src} && m.table == FileEntries(t) - {src} - {dst} && m.owed == multiset{}
    ensures StandsAt(start, run + MoveSteps(src, dst, o), objects[dst := o] - {src},
                     t - {src, dst, ParentPrefix(src), ParentPrefix(dst)})
  {
    hide After, FileEntries, ParentPrefix;
    var moved := run + [WriteStep(0, dst, Some(o), true)] + [WriteStep(0, src, None, true)] + [DropStep(src)] +
                 [DropStep(dst)];
    var others, all := [ParentPrefix(src), ParentPrefix(dst)], {src, dst, ParentPrefix(src), ParentPrefix(dst)};
    ForgetAll(start, moved, others);
    assert moved + Forgets(others) == run + MoveSteps(src, dst, o);
    assert Elements(others) == {ParentPrefix(src), ParentPrefix(dst)};
    EntriesLess(t, all);
    assert FileEntries(t) - {src} - {dst} - Elements(others) == FileEntries(t) - all;
  }

  /** At most one entry from a HeadObject: nothing, or the call and the cachePut. */
  ghost predicate IsRead(key: string, now: int, calls: seq<Step>) {
    calls == [] || exists inode :: calls == [HeadStep(0, key), CacheStep(0, inode, now)]
  }

  lemma {:induction false} FetchTo(start: Objects, run: seq<Step>, objects: Objects, t: map<string, C.CacheEntry>,
                                   t': map<string, C.CacheEntry>, key: string, now: int)
      returns (calls: seq<Step>, gone: seq<string>)
    requires StandsAt(start, run, objects, t) && Fetched(objects, t, t', key, now)
    ensures IsRead(key, now, calls) && StandsAt(start, run + calls + Forgets(gone), objects, t')
  {
    hide After, HasSlashSuffix, ParseMode;
    if SubMap(FileEntries(t'), FileEntries(t)) {
      calls := [];
      assert run + calls == run;
      gone := ForgetTo(start, run, objects, t, t');
    } else {
      assert key in FileEntries(t') && key in objects;
      var inode := t'[key].inode;
      calls := [HeadStep(0, key), CacheStep(0, inode, now)];
      AfterHead(start, run, 0, key);
      AfterCache(start, run + [HeadStep(0, key)], 0, inode, now);
      assert run + [HeadStep(0, key)] + [CacheStep(0, inode, now)] == run + calls;
      EntriesMore(t, key, t'[key]);
      gone := ForgetTo(start, run + calls, objects, t[key := t'[key]], t');
    }
  }

  lemma EntriesMore(t: map<string, C.CacheEntry>, key: string, e: C.CacheEntry)
    requires IsFile(key) && !e.negative
    ensures FileEntries(t[key := e]) == FileEntries(t)[key := e]
  {
    hide HasSlashSuffix;
  }

  /** A put without an invalidation, whose attributes are then cached. */
  lemma {:induction false} CreateTo(start: Objects, run: seq<Step>, objects: Objects, t: map<string, C.CacheEntry>,
                                    t': map<string, C.CacheEntry>, key: string, o: Object, inode: nat, now: int)
      returns (gone: seq<string>)
    requires StandsAt(start, run, objects, t) && IsFile(key)
    requires key in t' && t'[key] == FileEntry(key, o, ParseMode(o.meta, false), inode, now)
    requires SubMap(FileEntries(t') - {key}, FileEntries(t))
    ensures var calls := [WriteStep(0, key, Some(o), false), CacheStep(0, inode, now)];
            StandsAt(start, run + calls + Forgets(gone), objects[key := o], t')
  {
    hide After, HasSlashSuffix, ParseMode;
    var write, put := WriteStep(0, key, Some(o), false), CacheStep(0, inode, now);
    AfterWrite(start, run, 0, key, Some(o), false);
    AfterCache(start, run + [write], 0, inode, now);
    assert run + [write] + [put] == run + [write, put];
    EntriesMore(t, key, t'[key]);
    hide FileEntry;
    assert FileEntries(t')[key] == t'[key];
    gone := ForgetTo(start, run + [write, put], objects[key := o], t[key := t'[key]], t');
  }

  /** The upload of Close: the put, the two invalidations, and the attributes cached anew. */
  function CloseSteps(key: string, o: Object, inode: nat, now: int): seq<Step> {
    WriteSteps(key, Some(o), [ParentPrefix(key)]) + [CacheStep(0, inode, now)]
  }

  lemma {:induction false} CloseTo(start: Objects, run: seq<Step>, objects: Objects, t: map<string, C.CacheEntry>,
                                   t': map<string, C.CacheEntry>, key: string, o: Object, inode: nat, now: int)
      returns (gone: seq<string>)
    requires StandsAt(start, run, objects, t) && IsFile(key)
    requires key in t' && t'[key] == FileEntry(key, o, ParseMode(o.meta, false), inode, now)
    requires SubMap(t' - {key}, t - {ParentPrefix(key)})
    ensures StandsAt(start, run + CloseSteps(key, o, inode, now) + Forgets(gone), objects[key := o], t')
  {
    hide After, HasSlashSuffix, ParseMode, ParentPrefix;
    var others := [ParentPrefix(key)];
    var wrote := run + WriteSteps(key, Some(o), others);
    WroteOnce(start, run, objects, t, key, Some(o), others);
    LooksAtWritten(start, run, key, o, others);
    AfterCache(start, wrote, 0, inode, now);
    assert wrote + [CacheStep(0, inode, now)] == run + CloseSteps(key, o, inode, now);
    var t1 := t - ({key} + Elements(others));
    EntriesMore(t1, key, t'[key]);
    assert Elements(others) == {ParentPrefix(key)};
    EntriesClosed(t, t', key, ParentPrefix(key));
    gone := ForgetTo(start, run + CloseSteps(key, o, inode, now), objects[key := o], t1[key := t'[key]], t');
  }

  lemma EntriesClosed(t: map<string, C.CacheEntry>, t': map<string, C.CacheEntry>, key: string, parent: string)
    requires key in t' && SubMap(t' - {key}, t - {parent})
    ensures SubMap(FileEntries(t'), FileEntries((t - ({key} + {parent}))[key := t'[key]]))
  {
    hide IsFile;
    forall k | k in FileEntries(t') && k != key ensures k in t && k != parent && t[k] == t'[k] {
      assert k in t' - {key};
    }
  }

  lemma LooksAtWritten(start: Objects, run: seq<Step>, key: string, o: Object, others: seq<string>)
    ensures var m := After(start, run + WriteSteps(key, Some(o), others));
            0 in m.looks && m.looks[0] == LookOf(key, o)
  {
    hide After, LookOf;
    var write, drop := WriteStep(0, key, Some(o), true), DropStep(key);
    AfterWrite(start, run, 0, key, Some(o), true);
    AfterDrop(start, run + [write], key);
    ForgetAll(start, run + [write] + [drop], others);
    assert run + [write] + [drop] + Forgets(others) == run + WriteSteps(key, Some(o), others);
  }

  /** HeadObject and cachePut for one listed file. */
  function ListedRead(key: string, ok: bool, inode: nat, now: int): seq<Step> {
    [ListedHeadStep(0, key, ok), CacheStep(0, inode, now)]
  }

  /** The same for several, one after the other. */
  ghost function ListedReads(keys: seq<string>, t: map<string, C.CacheEntry>, down: set<S3Call>, now: int): seq<Step> {
    if keys == [] then []
    else
      var n := |keys| - 1;
      ListedReads(keys[..n], t, down, now) +
      ListedRead(keys[n], Head(keys[n]) !in down, if keys[n] in t then t[keys[n]].inode else 0, now)
  }

  /** The entry is the one a Readdir of this bucket makes. */
  ghost predicate AsListed(objects: Objects, k: string, t: map<string, C.CacheEntry>, down: set<S3Call>, now: int) {
    && k in t && k in objects && IsFile(k) && !t[k].negative
    && t[k] == FileEntry(k, objects[k], SeenMode(objects, k, down), t[k].inode, now)
  }

  ghost function Chosen(keys: seq<string>, t: map<string, C.CacheEntry>): map<string, C.CacheEntry> {
    map k | k in keys && k in t :: t[k]
  }

  lemma NoneChosen(base: map<string, C.CacheEntry>, t: map<string, C.CacheEntry>)
    ensures base + Chosen([], t) == base
  {
  }

  lemma ChosenMore(base: map<string, C.CacheEntry>, keys: seq<string>, t: map<string, C.CacheEntry>)
    requires keys != [] && keys[|keys| - 1] in t
    ensures var n := |keys| - 1;
            base + Chosen(keys, t) == (base + Chosen(keys[..n], t))[keys[n] := t[keys[n]]]
  {
    var n := |keys| - 1;
    assert keys == keys[..n] + [keys[n]];
    assert forall k :: k in keys <==> k in keys[..n] || k == keys[n];
  }

  lemma {:induction false} ReadListed(start: Objects, run: seq<Step>, keys: seq<string>, t: map<string, C.CacheEntry>,
                                      down: set<S3Call>, now: int)
    requires var m := After(start, run); 0 in m.lists && m.lists[0] == m.objects
    requires forall k :: k in keys ==> AsListed(After(start, run).objects, k, t, down, now)
    ensures var m, m' := After(start, run), After(start, run + ListedReads(keys, t, down, now));
            && m'.objects == m.objects && m'.owed == m.owed && m'.lists == m.lists
            && m'.table == m.table + Chosen(keys, t)
    decreases |keys|
  {
    hide After, FileEntry, SeenMode, IsFile, ListedRead, Chosen;
    if keys == [] {
      assert run + ListedReads(keys, t, down, now) == run;
      NoneChosen(After(start, run).table, t);
    } else {
      var n := |keys| - 1;
      ReadListed(start, run, keys[..n], t, down, now);
      assert keys[n] in keys;
      var ok, inode := Head(keys[n]) !in down, t[keys[n]].inode;
      ReadOneListed(start, run + ListedReads(keys[..n], t, down, now), keys[n], t, down, ok, now);
      assert run + ListedReads(keys[..n], t, down, now) + ListedRead(keys[n], ok, inode, now) ==
             run + ListedReads(keys, t, down, now);
      ChosenMore(After(start, run).table, keys, t);
    }
  }

  lemma ReadOneListed(start: Objects, run: seq<Step>, key: string, t: map<string, C.CacheEntry>, down: set<S3Call>,
                      ok: bool, now: int)
    requires var m := After(start, run); 0 in m.lists && m.lists[0] == m.objects && AsListed(m.objects, key, t, down, now)
    requires ok <==> Head(key) !in down
    ensures var m, m' := After(start, run), After(start, run + ListedRead(key, ok, t[key].inode, now));
            m'.objects == m.objects && m'.owed == m.owed && m'.lists == m.lists && m'.table == m.table[key := t[key]]
  {
    hide After, ParseMode, HasSlashSuffix;
    var head, put := ListedHeadStep(0, key, ok), CacheStep(0, t[key].inode, now);
    AfterListedHead(start, run, 0, key, ok);
    AfterCache(start, run + [head], 0, t[key].inode, now);
    assert run + [head] + [put] == run + ListedRead(key, ok, t[key].inode, now);
  }

  /** The ListObjects of a Readdir and what it then reads and caches. */
  ghost predicate IsReaddir(t: map<string, C.CacheEntry>, down: set<S3Call>, now: int, calls: seq<Step>) {
    calls == [] || exists keys :: calls == [ListStep(0)] + ListedReads(keys, t, down, now)
  }

  lemma {:induction false} ListTo(start: Objects, run: seq<Step>, objects: Objects, t: map<string, C.CacheEntry>,
                                  t': map<string, C.CacheEntry>, prefix: string, down: set<S3Call>, now: int)
      returns (calls: seq<Step>, gone: seq<string>)
    requires StandsAt(start, run, objects, t) && ListedIn(objects, t, t', prefix, down, now)
    ensures IsReaddir(t', down, now, calls) && StandsAt(start, run + calls + Forgets(gone), objects, t')
  {
    hide After, ListedIn, AsListed, FileEntries, Chosen, ListedReads;
    var keys := NewlyListed(objects, t, t', prefix, down, now);
    calls := [ListStep(0)] + ListedReads(keys, t', down, now);
    AfterList(start, run, 0);
    ReadListed(start, run + [ListStep(0)], keys, t', down, now);
    assert run + [ListStep(0)] + ListedReads(keys, t', down, now) == run + calls;
    gone := ForgetTo(start, run + calls, objects, t + Chosen(keys, t'), t');
  }

  /** What a Readdir adds for files. */
  lemma ListedFiles(objects: Objects, t: map<string, C.CacheEntry>, t': map<string, C.CacheEntry>, prefix: string,
                    down: set<S3Call>, now: int)
    requires ListedIn(objects, t, t', prefix, down, now)
    ensures forall k :: k in t' && !t'[k].negative && IsFile(k) ==>
              (k in t && t[k] == t'[k]) || AsListed(objects, k, t', down, now)
  {
    hide ParentPrefix, SeenMode, FileEntry, HasSlashSuffix, Occupied;
  }

  /** The files of the new table that are not as before. */
  lemma NewlyListed(objects: Objects, t: map<string, C.CacheEntry>, t': map<string, C.CacheEntry>, prefix: string,
                    down: set<S3Call>, now: int) returns (keys: seq<string>)
    requires ListedIn(objects, t, t', prefix, down, now)
    ensures forall k :: k in keys ==> AsListed(objects, k, t', down, now)
    ensures FileEntries(t + Chosen(keys, t')) == FileEntries(t) + Chosen(keys, t')
    ensures SubMap(FileEntries(t'), FileEntries(t + Chosen(keys, t')))
  {
    ListedFiles(objects, t, t', prefix, down, now);
    hide ListedIn, AsListed, IsFile;
    var kept := set k | k in FileEntries(t') && k in t && t[k] == t'[k];
    keys := InOrder(FileEntries(t').Keys - kept);
    forall k ensures k in keys <==> k in FileEntries(t') && k !in kept {
      assert k in keys <==> k in Elements(keys);
    }
    ChosenAdds(t, t', keys);
  }

  lemma ChosenAdds(t: map<string, C.CacheEntry>, t': map<string, C.CacheEntry>, keys: seq<string>)
    requires forall k :: k in keys ==> k in FileEntries(t')
    requires forall k :: k in FileEntries(t') && k !in keys ==> k in t && t[k] == t'[k]
    ensures FileEntries(t + Chosen(keys, t')) == FileEntries(t) + Chosen(keys, t')
    ensures SubMap(FileEntries(t'), FileEntries(t + Chosen(keys, t')))
  {
    hide IsFile;
    var c := Chosen(keys, t');
    assert forall k :: k in keys <==> k in c;
    assert forall k :: k in c ==> IsFile(k) && !c[k].negative && c[k] == t'[k];
  }

  /** A put that owes no invalidation, and others that follow it. */
  function PutSteps(key: string, o: Object, others: seq<string>): seq<Step> {
    [WriteStep(0, key, Some(o), false)] + Forgets(others)
  }

  lemma PutQuietly(start: Objects, run: seq<Step>, objects: Objects, t: map<string, C.CacheEntry>, key: string, o: Object,
                   others: seq<string>)
    requires StandsAt(start, run, objects, t)
    ensures StandsAt(start, run + PutSteps(key, o, others), objects[key := o], t - Elements(others))
  {
    hide After, FileEntries, LookOf;
    var write := WriteStep(0, key, Some(o), false);
    AfterWrite(start, run, 0, key, Some(o), false);
    ForgetAll(start, run + [write], others);
    assert run + [write] + Forgets(others) == run + PutSteps(key, o, others);
    EntriesLess(t, Elements(others));
  }

  // ----- Events as steps -----

  /** The metadata keys an event sets and those it deletes. */
  ghost function Sets(op: Gateway.Op): Meta {
    match op
    case Chmod(_, mode) => map["Mode" := Format(mode % 512, 8)]
    case Chown(_, uid, gid) =>
      (if uid >= 0 then map["Uid" := Format(uid, 10)] else map[]) + (if gid >= 0 then map["Gid" := Format(gid, 10)] else map[])
    case SetXattr(_, name, value, _) => map[Xattrs.SlotKey(name) := Codecs.Base64Encode(value)]
    case _ => map[]
  }

  ghost function Deletes(meta: Meta, op: Gateway.Op): set<string> {
    if op.RemoveXattr? then set k | k in meta && Codecs.EqualFold(k, Xattrs.SlotKey(op.name)) else {}
  }

  /** The operations on metadata edit what they have read. */
  lemma MetaIsEdited(meta: Meta, op: Gateway.Op)
    requires Gateway.NewMeta(meta, op).Some?
    ensures Gateway.NewMeta(meta, op).value == Edited(meta, Sets(op), Deletes(meta, op))
  {
    hide Format, Codecs.EqualFold, Codecs.Base64Encode, Xattrs.SlotKey, Xattrs.MetaKey, Xattrs.Total, Xattrs.HasSlot;
  }

  /**
   * The calls an event consists of: each S3 call that takes effect and each cache call, in the order of the code. `t` are
   * the entries cached afterwards.
   */
  ghost predicate Performs(objects: Objects, t: map<string, C.CacheEntry>, e: Gateway.Event, created: bool,
                           calls: seq<Step>) {
    match e.op
    case Open(path, _) =>
      var key := KeyFromPath(path);
      if !created then IsRead(key, e.now, calls)
      else exists inode :: calls == [WriteStep(0, key, Some(NewFile([], e.now)), false), CacheStep(0, inode, e.now)]
    case StatPath(path) => IsRead(KeyFromPath(path), e.now, calls)
    case ListDir(_, _) => IsReaddir(t, e.down, e.now, calls)
    case Close(key, _, data, inode) =>
      calls == if Put(key) in e.down then [] else CloseSteps(key, NewFile(data, e.now), inode, e.now)
    case Symlink(target, link) =>
      var key := KeyFromPath(link);
      calls == if Gateway.Links(objects, e) then PutSteps(key, LinkObject(target, e.now), [ParentPrefix(key)]) else []
    case Rename(oldPath, newPath) =>
      var src := Locate(objects, KeyFromPath(oldPath), e.down);
      calls == if Gateway.RenameDrops(objects, e) == {} then []
               else MoveSteps(src.value, RenameTarget(src.value, newPath), objects[src.value].(modified := e.now))
    case Remove(path) =>
      var at := Locate(objects, KeyFromPath(path), e.down);
      calls == if at.None? || Delete(at.value) in e.down then [] else WriteSteps(at.value, None, [ParentPrefix(at.value)])
    case Mkdir(path) =>
      var key, dir, marker := KeyFromPath(path), DirKey(KeyFromPath(path)), Object([], map[], e.now);
      if dir == "" || Put(dir) in e.down then calls == []
      else calls == PutSteps(dir, marker, []) || calls == WriteSteps(dir, Some(marker), [key, ParentPrefix(dir)])
    case CopyTo(src, dst) =>
      var from, to := KeyFromPath(src), KeyFromPath(dst);
      calls == if from in objects && to != "" && Copy(from, to) !in e.down
               then WriteSteps(to, Some(objects[from].(modified := e.now)), [ParentPrefix(to)]) else []
    case EvictTick => calls == []
    case _ =>
      && Gateway.ChangesMeta(e.op)
      && var at := Gateway.Changes(objects, e);
         calls == if at.None? then []
                  else RewriteSteps(at.value, Sets(e.op), Deletes(objects[at.value].meta, e.op), e.now)
  }

  lemma {:induction false} MetaSteps(start: Objects, run: seq<Step>, before: Objects, t: map<string, C.CacheEntry>,
                                     e: Gateway.Event) returns (calls: seq<Step>)
    requires StandsAt(start, run, before, t) && Gateway.ChangesMeta(e.op)
    ensures var at := Gateway.Changes(before, e);
            && calls == (if at.None? then []
                         else RewriteSteps(at.value, Sets(e.op), Deletes(before[at.value].meta, e.op), e.now))
            && StandsAt(start, run + calls, Gateway.MetaEffect(before, e), t - (if at.Some? then {at.value} else {}))
  {
    hide After, StandsAt, KeyFromPath, DirKey, Gateway.NewMeta, Sets, Deletes, Edited;
    var at := Gateway.Changes(before, e);
    if at.None? {
      calls := [];
      assert run + calls == run && t - {} == t;
    } else {
      var meta := before[at.value].meta;
      MetaIsEdited(meta, e.op);
      calls := RewriteSteps(at.value, Sets(e.op), Deletes(meta, e.op), e.now);
      Rewrote(start, run, before, t, at.value, Sets(e.op), Deletes(meta, e.op), e.now);
    }
  }

  lemma {:induction false} OpenSteps(start: Objects, run: seq<Step>, before: Objects, t: map<string, C.CacheEntry>,
                                     t': map<string, C.CacheEntry>, e: Gateway.Event)
      returns (calls: seq<Step>, gone: seq<string>)
    requires StandsAt(start, run, before, t) && Gateway.Places(before, e)
    requires Gateway.CacheEffect(before, Gateway.Effect(before, e, true), t, t', e, true)
    ensures Performs(before, t', e, true, calls)
    ensures StandsAt(start, run + calls + Forgets(gone), Gateway.Effect(before, e, true), t')
  {
    hide After, StandsAt, KeyFromPath, FileEntry, ParseMode, HasSlashSuffix, NewFile;
    var key, o := KeyFromPath(e.op.path), NewFile([], e.now);
    KeyIsNoDirectory(e.op.path);
    NewFileMode([], e.now);
    var inode := t'[key].inode;
    gone := CreateTo(start, run, before, t, t', key, o, inode, e.now);
    calls := [WriteStep(0, key, Some(o), false), CacheStep(0, inode, e.now)];
  }

  lemma {:induction false} UploadSteps(start: Objects, run: seq<Step>, before: Objects, t: map<string, C.CacheEntry>,
                                       t': map<string, C.CacheEntry>, e: Gateway.Event)
      returns (calls: seq<Step>, gone: seq<string>)
    requires StandsAt(start, run, before, t) && e.op.Close? && IsFile(e.op.key)
    requires Gateway.CacheEffect(before, Gateway.Effect(before, e, false), t, t', e, false)
    ensures Performs(before, t', e, false, calls)
    ensures StandsAt(start, run + calls + Forgets(gone), Gateway.Effect(before, e, false), t')
  {
    hide After, StandsAt, FileEntry, ParseMode, HasSlashSuffix, NewFile, CloseSteps, ParentPrefix;
    var o := NewFile(e.op.data, e.now);
    if Put(e.op.key) in e.down {
      calls, gone := [], [];
      assert run + calls + Forgets(gone) == run;
    } else {
      NewFileMode(e.op.data, e.now);
      gone := CloseTo(start, run, before, t, t', e.op.key, o, e.op.inode, e.now);
      calls := CloseSteps(e.op.key, o, e.op.inode, e.now);
    }
  }

  lemma {:induction false} RenamedSteps(start: Objects, run: seq<Step>, before: Objects, t: map<string, C.CacheEntry>,
                                        e: Gateway.Event) returns (calls: seq<Step>)
    requires StandsAt(start, run, before, t) && e.op.Rename? && Gateway.Benign(before, e)
    ensures Performs(before, t - Gateway.RenameDrops(before, e), e, false, calls)
    ensures StandsAt(start, run + calls, Gateway.Effect(before, e, false), t - Gateway.RenameDrops(before, e))
  {
    hide After, StandsAt, KeyFromPath, DirKey, RenameTarget, ParentPrefix, MoveSteps;
    var src := Locate(before, KeyFromPath(e.op.oldPath), e.down);
    if Gateway.RenameDrops(before, e) == {} {
      calls := [];
      assert run + calls == run && t - {} == t;
    } else {
      var dst, o := RenameTarget(src.value, e.op.newPath), before[src.value].(modified := e.now);
      Moved(start, run, before, t, src.value, dst, o);
      calls := MoveSteps(src.value, dst, o);
    }
  }

  /** Symlink, Remove, MkdirAll and Copy: one write and exact invalidations. */
  lemma {:induction false} OneWriteSteps(start: Objects, run: seq<Step>, before: Objects, t: map<string, C.CacheEntry>,
                                         t': map<string, C.CacheEntry>, e: Gateway.Event) returns (calls: seq<Step>)
    requires StandsAt(start, run, before, t) && (e.op.Symlink? || e.op.Remove? || e.op.Mkdir? || e.op.CopyTo?)
    requires Gateway.CacheEffect(before, Gateway.Effect(before, e, false), t, t', e, false)
    ensures Performs(before, t', e, false, calls)
    ensures StandsAt(start, run + calls, Gateway.Effect(before, e, false), t')
  {
    hide After, StandsAt, KeyFromPath, DirKey, ParentPrefix, LinkObject, WriteSteps, PutSteps, Elements;
    calls := [];
    assert run + calls == run && t - {} == t;
    match e.op
    case Symlink(target, link) =>
      if Gateway.Links(before, e) {
        var key, o := KeyFromPath(link), LinkObject(target, e.now);
        OnlyElement(ParentPrefix(key));
        PutQuietly(start, run, before, t, key, o, [ParentPrefix(key)]);
        calls := PutSteps(key, o, [ParentPrefix(key)]);
      }
    case Remove(path) =>
      var at := Locate(before, KeyFromPath(path), e.down);
      if at.Some? && Delete(at.value) !in e.down {
        OnlyElement(ParentPrefix(at.value));
        WroteOnce(start, run, before, t, at.value, None, [ParentPrefix(at.value)]);
        assert {at.value} + {ParentPrefix(at.value)} == {at.value, ParentPrefix(at.value)};
        calls := WriteSteps(at.value, None, [ParentPrefix(at.value)]);
      }
    case Mkdir(path) => calls := MkdirSteps(start, run, before, t, t', e);
    case CopyTo(src, dst) =>
      var from, to := KeyFromPath(src), KeyFromPath(dst);
      if from in before && to != "" && Copy(from, to) !in e.down {
        var o := before[from].(modified := e.now);
        OnlyElement(ParentPrefix(to));
        WroteOnce(start, run, before, t, to, Some(o), [ParentPrefix(to)]);
        assert {to} + {ParentPrefix(to)} == {to, ParentPrefix(to)};
        calls := WriteSteps(to, Some(o), [ParentPrefix(to)]);
      }
  }

  lemma OnlyElement(k: string)
    ensures Elements([k]) == {k} && Elements([]) == {}
  {
  }

  lemma {:induction false} MkdirSteps(start: Objects, run: seq<Step>, before: Objects, t: map<string, C.CacheEntry>,
                                      t': map<string, C.CacheEntry>, e: Gateway.Event) returns (calls: seq<Step>)
    requires StandsAt(start, run, before, t) && e.op.Mkdir?
    requires Gateway.CacheEffect(before, Gateway.Effect(before, e, false), t, t', e, false)
    ensures Performs(before, t', e, false, calls)
    ensures StandsAt(start, run + calls, Gateway.Effect(before, e, false), t')
  {
    hide After, StandsAt, KeyFromPath, DirKey, ParentPrefix, WriteSteps, PutSteps;
    var key, dir, marker := KeyFromPath(e.op.path), DirKey(KeyFromPath(e.op.path)), Object([], map[], e.now);
    if dir == "" || Put(dir) in e.down {
      calls := [];
      assert run + calls == run;
    } else if t' == t {
      PutQuietly(start, run, before, t, dir, marker, []);
      assert t - Elements([]) == t;
      calls := PutSteps(dir, marker, []);
    } else {
      var others := [key, ParentPrefix(dir)];
      WroteOnce(start, run, before, t, dir, Some(marker), others);
      assert {dir} + Elements(others) == {dir, key, ParentPrefix(dir)};
      calls := WriteSteps(dir, Some(marker), others);
    }
  }

  /** From a run that stands at the gateway, an event leads to the run extended by its own calls and what is forgotten. */
  lemma {:induction false} EventSteps(start: Objects, run: seq<Step>, before: Objects, after: Objects,
                                      t: map<string, C.CacheEntry>, t': map<string, C.CacheEntry>, e: Gateway.Event,
                                      created: bool) returns (calls: seq<Step>, gone: seq<string>)
    requires StandsAt(start, run, before, t) && Gateway.Benign(before, e) && (created ==> Gateway.Places(before, e))
    requires after == Gateway.Effect(before, e, created) && Gateway.CacheEffect(before, after, t, t', e, created)
    ensures Performs(before, t', e, created, calls) && StandsAt(start, run + calls + Forgets(gone), after, t')
  {
    hide After, StandsAt, KeyFromPath, DirKey, ParentPrefix, Fetched, ListedIn, FileEntry, Gateway.RenameDrops;
    hide Gateway.RenameResult, Gateway.MetaEffect, Gateway.Changes, IsRead, IsReaddir, CloseSteps, MoveSteps, WriteSteps;
    hide PutSteps, RewriteSteps;
    gone := [];
    if created {
      calls, gone := OpenSteps(start, run, before, t, t', e);
    } else if Gateway.ChangesMeta(e.op) {
      calls := MetaSteps(start, run, before, t, e);
    } else {
      match e.op
      case Open(path, _) => calls, gone := FetchTo(start, run, before, t, t', KeyFromPath(path), e.now);
      case StatPath(path) => calls, gone := FetchTo(start, run, before, t, t', KeyFromPath(path), e.now);
      case ListDir(dirKey, _) => calls, gone := ListTo(start, run, before, t, t', AsPrefix(dirKey), e.down, e.now);
      case Close(_, _, _, _) => calls, gone := UploadSteps(start, run, before, t, t', e);
      case Rename(_, _) => calls := RenamedSteps(start, run, before, t, e);
      case EvictTick =>
        calls := [];
        FewerEntries(t, t');
        gone := ForgetTo(start, run, before, t, t');
        assert run + calls == run;
      case _ => calls := OneWriteSteps(start, run, before, t, t', e);
    }
    assert run + calls + Forgets([]) == run + calls;
  }

  lemma FewerEntries(t: map<string, C.CacheEntry>, t': map<string, C.CacheEntry>)
    requires SubMap(t', t)
    ensures SubMap(FileEntries(t'), FileEntries(t))
  {
    hide IsFile;
  }

  /** One operation of a run: its calls, what the cache gave up then, and the entries it was left with. */
  datatype Part = Part(created: bool, calls: seq<Step>, gone: seq<string>, entries: map<string, C.CacheEntry>)

  /** The calls of each operation followed by what was forgotten, one operation after the other. */
  ghost function Joined(parts: seq<Part>): seq<Step> {
    if parts == [] then []
    else
      var last := parts[|parts| - 1];
      Joined(parts[..|parts| - 1]) + last.calls + Forgets(last.gone)
  }

  /** The parts are the calls of the events, in order. */
  ghost predicate PerformAll(start: Objects, events: seq<Gateway.Event>, parts: seq<Part>) {
    && |parts| <= |events|
    && (forall i :: 0 <= i < |parts| ==>
          Performs(After(start, Joined(parts[..i])).objects, parts[i].entries, events[i], parts[i].created, parts[i].calls))
  }

  lemma OnePartMore(start: Objects, events: seq<Gateway.Event>, parts: seq<Part>, part: Part, objects: Objects,
                    t: map<string, C.CacheEntry>)
    requires PerformAll(start, events, parts) && |parts| < |events| && StandsAt(start, Joined(parts), objects, t)
    requires Performs(objects, part.entries, events[|parts|], part.created, part.calls)
    ensures PerformAll(start, events, parts + [part])
  {
    hide After, Performs, FileEntries, Joined, Forgets;
    var more := parts + [part];
    forall i | 0 <= i < |more|
      ensures Performs(After(start, Joined(more[..i])).objects, more[i].entries, events[i], more[i].created, more[i].calls)
    {
      assert more[..i] == parts[..i] && parts[..|parts|] == parts;
    }
  }

  lemma JoinedMore(parts: seq<Part>, part: Part)
    ensures Joined(parts + [part]) == Joined(parts) + part.calls + Forgets(part.gone)
  {
    hide Forgets;
    assert (parts + [part])[..|parts|] == parts;
  }

  lemma Begin(objects: Objects, events: seq<Gateway.Event>)
    ensures StandsAt(objects, Joined([]), objects, map[]) && PerformAll(objects, events, [])
  {
    Nothing(objects);
  }

  /**
   * Operations one at a time are runs of the step machine: for any sequence of operations on a new gateway, up to the
   * first that is not benign, there is a run of the calls of these operations, in order, that stands where the gateway
   * does.
   */
  method Serial(bucket: Bucket, handles: Handles.HandleStore, cfg: C.Config, events: seq<Gateway.Event>)
      returns (fs: S3FS, n: nat, ghost parts: seq<Part>)
    requires bucket.Valid() && Handles.Sound(handles.State())
    modifies bucket, handles
    ensures fs.bucket == bucket && fs.Good() && n == |parts|
    ensures n <= |events| && (n < |events| ==> !Gateway.Benign(bucket.objects, events[n]))
    ensures PerformAll(old(bucket.objects), events, parts)
    ensures StandsAt(old(bucket.objects), Joined(parts), bucket.objects, fs.Cached())
  {
    hide Gateway.Benign, Gateway.Effect, Gateway.CacheEffect, Performs, Coherent, FreshListings, Handles.Sound;
    hide C.Table, C.Linked, C.ItemsOf, KeyFromPath;
    fs := new S3FS(bucket, handles, cfg);
    n, parts := 0, [];
    Begin(bucket.objects, events);
    hide PerformAll, Joined, StandsAt;
    while n < |events| && Gateway.Benign(bucket.objects, events[n])
      invariant fresh(fs) && fresh(fs.cache) && fs.bucket == bucket && fs.handles == handles && fs.Good()
      invariant n <= |events| && n == |parts| && PerformAll(old(bucket.objects), events, parts)
      invariant StandsAt(old(bucket.objects), Joined(parts), bucket.objects, fs.Cached())
    {
      ghost var before, t := bucket.objects, fs.Cached();
      var created := Gateway.Perform(fs, events[n]);
      assert created ==> Gateway.Places(before, events[n]);
      ghost var calls, gone := EventSteps(old(bucket.objects), Joined(parts), before, bucket.objects, t, fs.Cached(),
                                          events[n], created);
      ghost var part := Part(created, calls, gone, fs.Cached());
      OnePartMore(old(bucket.objects), events, parts, part, before, t);
      JoinedMore(parts, part);
      n, parts := n + 1, parts + [part];
    }
  }
}
