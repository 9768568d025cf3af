/** Runs of the gateway: any sequence of filesystem operations, with failing calls, on one bucket. */
module Gateway {
  import opened Base
  import opened Paths
  import opened Storage
  import opened Coherence
  import opened FileSystem
  import opened Listings
  import Handles
  import Xattrs

  datatype Op =
    | Open(path: string, writable: bool)
    | Close(key: string, path: string, data: Bytes, inode: nat)
    | StatPath(path: string)
    | ListDir(dirKey: string, count: int)
    | Chmod(path: string, mode: nat)
    | Chown(path: string, uid: int, gid: int)
    | Symlink(target: string, linkPath: string)
    | Rename(oldPath: string, newPath: string)
    | Remove(path: string)
    | Mkdir(path: string)
    | CopyTo(srcPath: string, dstPath: string)
    | SetXattr(path: string, name: Bytes, value: Bytes, option: int)
    | RemoveXattr(path: string, name: Bytes)
    | EvictTick

  /** An operation with the time it reads, the S3 calls that fail and the handle transactions that fail. */
  datatype Event = Event(op: Op, now: int, down: set<S3Call>, txDown: set<string>)

  /**
   * The event cannot leave the caches wrong, as far as the bucket shows: no HeadObject fails under Symlink for a key that
   * is taken, nor under Readdir for a file whose mode is not the default, and no DeleteObject under Rename after the copy.
   * A file is closed under a file key.
   */
  predicate Benign(objects: Objects, e: Event) {
    match e.op
    case Symlink(_, link) => Head(KeyFromPath(link)) !in e.down || KeyFromPath(link) !in objects
    case Rename(oldPath, newPath) =>
      var src := Locate(objects, KeyFromPath(oldPath), e.down);
      src.None? || Delete(src.value) !in e.down ||
      RenameTarget(src.value, newPath) == "" || Copy(src.value, RenameTarget(src.value, newPath)) in e.down
    case ListDir(dirKey, _) => HeadsHarmless(objects, AsPrefix(dirKey), e.down)
    case Close(key, _, _, _) => IsFile(key)
    case _ => true
  }

  /** No HeadObject fails under Symlink or Readdir and no DeleteObject under Rename: that is benign on any bucket. */
  lemma CalmIsBenign(objects: Objects, e: Event)
    requires match e.op
             case Symlink(_, link) => Head(KeyFromPath(link)) !in e.down
             case Rename(src, _) => Delete(KeyFromPath(src)) !in e.down && Delete(DirKey(KeyFromPath(src))) !in e.down
             case ListDir(_, _) => HeadsUp(e.down)
             case Close(key, _, _, _) => IsFile(key)
             case _ => true
    ensures Benign(objects, e)
  {
    hide KeyFromPath, DirKey, ParentPrefix, ParseMode;
  }

  /** The files an event may create without dropping the cached listing of their directory. */
  function Creates(e: Event): set<string> {
    match e.op
    case Open(path, true) => {KeyFromPath(path)}
    case Symlink(_, link) => {KeyFromPath(link)}
    case _ => {}
  }

  // ----- What an event does to the bucket -----

  /** The object at `at` gets new metadata, unless that call fails. */
  function Rewritten(objects: Objects, at: string, meta: Meta, e: Event): Objects
    requires at in objects
  {
    if Storage.Rewrite(at) in e.down then objects else objects[at := Object(objects[at].data, meta, e.now)]
  }

  /** The metadata an event gives an object, if it does. */
  ghost function NewMeta(meta: Meta, op: Op): Option<Meta> {
    match op
    case Chmod(_, mode) => Some(meta["Mode" := Format(mode % 512, 8)])
    case Chown(_, uid, gid) =>
      var m := if uid >= 0 then meta["Uid" := Format(uid, 10)] else meta;
      Some(if gid >= 0 then m["Gid" := Format(gid, 10)] else m)
    case SetXattr(_, name, value, option) =>
      var r := Xattrs.SetResult(meta, name, value, option);
      if r.Ok? then Some(r.value) else None
    case RemoveXattr(_, name) =>
      var r := Xattrs.RemoveResult(meta, name);
      if r.Ok? then Some(r.value) else None
    case _ => None
  }

  predicate ChangesMeta(op: Op) {
    op.Chmod? || op.Chown? || op.SetXattr? || op.RemoveXattr?
  }

  ghost function MetaEffect(objects: Objects, e: Event): Objects
    requires ChangesMeta(e.op)
  {
    var at := Locate(objects, KeyFromPath(e.op.path), e.down);
    if at.None? || NewMeta(objects[at.value].meta, e.op).None? then objects
    else Rewritten(objects, at.value, NewMeta(objects[at.value].meta, e.op).value, e)
  }

  function RenameResult(objects: Objects, oldPath: string, newPath: string, e: Event): Objects {
    var src := Locate(objects, KeyFromPath(oldPath), e.down);
    if src.None? then objects
    else
      var dst := RenameTarget(src.value, newPath);
      var copied := dst != "" && Copy(src.value, dst) !in e.down;
      RenameSteps(objects, src.value, dst, e.now, if !copied then 0 else if Delete(src.value) in e.down then 1 else 2)
  }

  /** The event makes a symbolic link: its target fits, S3 does not report its key, and the put succeeds. */
  predicate Links(objects: Objects, e: Event) {
    && e.op.Symlink? && 0 < |e.op.target| <= 4080
    && var key := KeyFromPath(e.op.linkPath);
       key != "" && Put(key) !in e.down && (key !in objects || Head(key) in e.down)
  }

  /** The bucket after an event; `created` says that an Open put a placeholder. */
  ghost function Effect(objects: Objects, e: Event, created: bool): Objects {
    match e.op
    case Open(path, _) => if created then objects[KeyFromPath(path) := NewFile([], e.now)] else objects
    case Close(key, _, data, _) => if Put(key) in e.down then objects else objects[key := NewFile(data, e.now)]
    case Symlink(target, link) =>
      if Links(objects, e) then objects[KeyFromPath(link) := LinkObject(target, e.now)] else objects
    case Rename(oldPath, newPath) => RenameResult(objects, oldPath, newPath, e)
    case Remove(path) =>
      var at := Locate(objects, KeyFromPath(path), e.down);
      if at.None? || Delete(at.value) in e.down then objects else objects - {at.value}
    case Mkdir(path) =>
      var dir := DirKey(KeyFromPath(path));
      if dir == "" || Put(dir) in e.down then objects else objects[dir := Object([], map[], e.now)]
    case CopyTo(src, dst) =>
      var from, to := KeyFromPath(src), KeyFromPath(dst);
      if from in objects && to != "" && Copy(from, to) !in e.down then objects[to := objects[from].(modified := e.now)]
      else objects
    case _ => if ChangesMeta(e.op) then MetaEffect(objects, e) else objects
  }

  /** The event opens for writing a file that S3 does not report, and the put of its placeholder succeeds. */
  predicate Places(objects: Objects, e: Event) {
    && e.op.Open? && e.op.writable
    && var key := KeyFromPath(e.op.path);
       key != "" && (key !in objects || Head(key) in e.down) && Put(key) !in e.down
  }

  /**
   * Of the events of a run, those marked are the placeholders put: only opens that place one, and every such open but
   * for want of an inode number, because its transaction failed or the numbers are used up.
   */
  ghost predicate Marked(objects: Objects, events: seq<Event>, created: seq<bool>, usedUp: bool)
    requires |created| == |events|
  {
    forall i :: 0 <= i < |events| ==>
      var before := EffectAll(objects, events[..i], created[..i]);
      && (created[i] ==> Places(before, events[i]))
      && (Places(before, events[i]) && !created[i] ==> usedUp || KeyFromPath(events[i].op.path) in events[i].txDown)
  }

  /** The bucket after a sequence of events when every transaction commits. */
  ghost function Plan(objects: Objects, events: seq<Event>): Objects {
    if events == [] then objects
    else
      var before, last := Plan(objects, events[..|events| - 1]), events[|events| - 1];
      Effect(before, last, Places(before, last))
  }

  lemma MarkedFewer(objects: Objects, events: seq<Event>, created: seq<bool>)
    requires |created| == |events| && events != [] && Marked(objects, events, created, false)
    ensures var n := |events| - 1;
            var before := EffectAll(objects, events[..n], created[..n]);
            && Marked(objects, events[..n], created[..n], false)
            && (created[n] ==> Places(before, events[n]))
            && (Places(before, events[n]) && !created[n] ==> KeyFromPath(events[n].op.path) in events[n].txDown)
  {
    hide Effect, EffectAll, Places, KeyFromPath;
    var n := |events| - 1;
    assert forall i :: 0 <= i < n ==> events[..n][..i] == events[..i] && created[..n][..i] == created[..i];
  }

  /** So with numbers left and no failing transaction the bucket is determined by the events. */
  lemma {:induction false} MarkedPlan(objects: Objects, events: seq<Event>, created: seq<bool>)
    requires |created| == |events| && Marked(objects, events, created, false)
    requires forall i :: 0 <= i < |events| ==> events[i].txDown == {}
    ensures EffectAll(objects, events, created) == Plan(objects, events)
    decreases |events|
  {
    hide Effect, Places, KeyFromPath, Marked;
    if events == [] {
    } else {
      var n := |events| - 1;
      MarkedFewer(objects, events, created);
      MarkedPlan(objects, events[..n], created[..n]);
    }
  }

  lemma NothingMarked(objects: Objects, events: seq<Event>, usedUp: bool)
    ensures Marked(objects, events[..0], [], usedUp)
  {
  }

  lemma MarkedOneMore(objects: Objects, events: seq<Event>, created: seq<bool>, usedUp: bool, usedUp': bool, c: bool)
    requires |events| == |created| + 1 && Marked(objects, events[..|created|], created, usedUp) && (usedUp ==> usedUp')
    requires var n := |created|;
             var before := EffectAll(objects, events[..n], created);
             && (c ==> Places(before, events[n]))
             && (Places(before, events[n]) && !c ==> usedUp' || KeyFromPath(events[n].op.path) in events[n].txDown)
    ensures Marked(objects, events, created + [c], usedUp')
  {
    hide Effect, Places, KeyFromPath;
    var n := |created|;
    assert forall i :: 0 <= i <= n ==> (created + [c])[..i] == created[..i];
    assert forall i :: 0 <= i <= n ==> events[..n][..i] == events[..i];
    assert created[..n] == created;
  }

  /** An Open may put a placeholder only for a key S3 does not report, and must if nothing fails. */
  predicate CreatesRightly(objects: Objects, inodes: map<string, Handles.U64>, next: Handles.U64, e: Event, created: bool) {
    if e.op.Open? then
      var key := KeyFromPath(e.op.path);
      var wanted := e.op.writable && key != "" && (key !in objects || Head(key) in e.down);
      created <==> wanted && Put(key) !in e.down && !WantsInode(inodes, next, key, e.txDown)
    else !created
  }

  // ----- What an event does to the entry cache -----

  /** The object whose metadata the event changes, if it does. */
  ghost function Changes(objects: Objects, e: Event): Option<string>
    requires ChangesMeta(e.op)
  {
    var at := Locate(objects, KeyFromPath(e.op.path), e.down);
    if at.None? || NewMeta(objects[at.value].meta, e.op).None? || Storage.Rewrite(at.value) in e.down then None else at
  }

  /** The keys a Rename invalidates. */
  ghost function RenameDrops(objects: Objects, e: Event): set<string>
    requires e.op.Rename?
  {
    var src := Locate(objects, KeyFromPath(e.op.oldPath), e.down);
    if src.None? then {}
    else
      var dst := RenameTarget(src.value, e.op.newPath);
      if dst == "" || Copy(src.value, dst) in e.down then {}
      else {src.value, dst, ParentPrefix(src.value), ParentPrefix(dst)}
  }

  /** The cached entries after an event that leaves the bucket as `after`. */
  ghost predicate CacheEffect(before: Objects, after: Objects, t: map<string, C.CacheEntry>,
                              t': map<string, C.CacheEntry>, e: Event, created: bool) {
    match e.op
    case Open(path, _) =>
      var key := KeyFromPath(path);
      && Fetched(after, t, t', key, e.now) && DirsNoted(after, t, t', e.now)
      && (created ==> key in t' && t'[key] == FileEntry(key, NewFile([], e.now), 420, t'[key].inode, e.now))
    case Close(key, _, data, inode) =>
      if Put(key) in e.down then t' == t
      else && key in t' && t'[key] == FileEntry(key, NewFile(data, e.now), 420, inode, e.now)
           && SubMap(t' - {key}, t - {ParentPrefix(key)})
    case StatPath(path) => Fetched(before, t, t', KeyFromPath(path), e.now) && DirsNoted(before, t, t', e.now)
    case ListDir(dirKey, _) => ListedIn(before, t, t', AsPrefix(dirKey), e.down, e.now)
    case Symlink(_, link) => t' == t - (if Links(before, e) then {ParentPrefix(KeyFromPath(link))} else {})
    case Rename(_, _) => t' == t - RenameDrops(before, e)
    case Remove(path) =>
      var at := Locate(before, KeyFromPath(path), e.down);
      t' == t - (if at.None? || Delete(at.value) in e.down then {} else {at.value, ParentPrefix(at.value)})
    case Mkdir(path) =>
      var key, dir := KeyFromPath(path), DirKey(KeyFromPath(path));
      t' == t || (dir != "" && Put(dir) !in e.down && t' == t - {dir, key, ParentPrefix(dir)})
    case CopyTo(src, dst) =>
      var from, to := KeyFromPath(src), KeyFromPath(dst);
      t' == t - (if from in before && to != "" && Copy(from, to) !in e.down then {to, ParentPrefix(to)} else {})
    case EvictTick => SubMap(t', t)
    case _ => ChangesMeta(e.op) && t' == t - (if Changes(before, e).Some? then {Changes(before, e).value} else {})
  }

  // ----- Events -----

  method Perform(fs: S3FS, e: Event) returns (created: bool)
    requires fs.Good() && Benign(fs.bucket.objects, e)
    modifies fs.bucket, fs.handles, fs.cache, fs`pending
    ensures old(fs.handles.nextInode) == 0 ==> fs.handles.nextInode == 0
    ensures fs.Good() && fs.pending <= old(fs.pending) + Creates(e)
    ensures fs.bucket.objects == Effect(old(fs.bucket.objects), e, created)
    ensures CreatesRightly(old(fs.bucket.objects), old(fs.handles.keyToInode), old(fs.handles.nextInode), e, created)
    ensures CacheEffect(old(fs.bucket.objects), fs.bucket.objects, old(fs.Cached()), fs.Cached(), e, created)
    ensures KeptOrRight(fs.bucket.objects, old(fs.cache.dirListings), fs.cache.dirListings)
  {
    hide Coherent, FreshListings, Handles.Sound, Handles.Step, KeyFromPath, DirKey, Locate, NewMeta, Absent, ParentPrefix;
    created := false;
    if ChangesMeta(e.op) {
      PerformMeta(fs, e);
    } else if e.op.Close? || e.op.ListDir? || e.op.Symlink? || e.op.Rename? {
      PerformFragile(fs, e);
    } else if e.op.Open? {
      created := PerformOpen(fs, e);
    } else if e.op.StatPath? || e.op.EvictTick? {
      PerformQuiet(fs, e);
    } else {
      PerformRest(fs, e);
    }
  }

  method PerformOpen(fs: S3FS, e: Event) returns (created: bool)
    requires fs.Good() && e.op.Open?
    modifies fs.bucket, fs.handles, fs.cache, fs`pending
    ensures old(fs.handles.nextInode) == 0 ==> fs.handles.nextInode == 0
    ensures fs.Good() && fs.pending <= old(fs.pending) + Creates(e)
    ensures fs.bucket.objects == Effect(old(fs.bucket.objects), e, created)
    ensures CreatesRightly(old(fs.bucket.objects), old(fs.handles.keyToInode), old(fs.handles.nextInode), e, created)
    ensures CacheEffect(old(fs.bucket.objects), fs.bucket.objects, old(fs.Cached()), fs.Cached(), e, created)
    ensures KeptOrRight(fs.bucket.objects, old(fs.cache.dirListings), fs.cache.dirListings)
  {
    hide Coherent, FreshListings, Handles.Sound, Handles.Step, KeyFromPath, DirKey, Absent, ParentPrefix, WantsInode;
    hide C.Table, C.Linked, C.ItemsOf, Fetched, ParseMode;
    hide Notes, DirsNoted, Answers, Sighted, HasSlashSuffix;
    NothingElseCreates(e);
    NewFileMode([], e.now);
    var r := fs.OpenFile(e.op.path, e.op.writable, e.now, e.down, e.txDown);
    created := r.OpenedFile? && r.created;
  }

  lemma NothingElseCreates(e: Event)
    ensures e.op.Open? && e.op.writable ==> Creates(e) == {KeyFromPath(e.op.path)}
  {
  }

  /** Chmod, Chown and the attribute operations. */
  method PerformMeta(fs: S3FS, e: Event)
    requires fs.Good() && ChangesMeta(e.op)
    modifies fs.bucket, fs.cache, fs`pending
    ensures fs.Good() && fs.pending <= old(fs.pending)
    ensures fs.bucket.objects == MetaEffect(old(fs.bucket.objects), e)
    ensures CacheEffect(old(fs.bucket.objects), fs.bucket.objects, old(fs.Cached()), fs.Cached(), e, false)
    ensures KeptOrRight(fs.bucket.objects, old(fs.cache.dirListings), fs.cache.dirListings)
  {
    hide Coherent, FreshListings, Handles.Sound, KeyFromPath, DirKey, ParentPrefix, ParseMode, Format;
    hide Xattrs.SetResult, Xattrs.RemoveResult, C.Table, C.Linked, C.ItemsOf;
    match e.op
    case Chmod(path, mode) =>
      var r := fs.Chmod(path, mode, e.now, e.down);
    case Chown(path, uid, gid) =>
      var r := fs.Chown(path, uid, gid, e.now, e.down);
    case _ => PerformXattr(fs, e);
  }

  method PerformXattr(fs: S3FS, e: Event)
    requires fs.Good() && (e.op.SetXattr? || e.op.RemoveXattr?)
    modifies fs.bucket, fs.cache, fs`pending
    ensures fs.Good() && fs.pending <= old(fs.pending)
    ensures fs.bucket.objects == MetaEffect(old(fs.bucket.objects), e)
    ensures CacheEffect(old(fs.bucket.objects), fs.bucket.objects, old(fs.Cached()), fs.Cached(), e, false)
    ensures KeptOrRight(fs.bucket.objects, old(fs.cache.dirListings), fs.cache.dirListings)
  {
    hide Coherent, FreshListings, Handles.Sound, KeyFromPath, DirKey, ParentPrefix, ParseMode, Format;
    hide Xattrs.SetResult, Xattrs.RemoveResult, C.Table, C.Linked, C.ItemsOf;
    match e.op
    case SetXattr(path, name, value, option) =>
      var r := fs.SetXattr(path, name, value, option, e.now, e.down);
    case RemoveXattr(path, name) =>
      var r := fs.RemoveXattr(path, name, e.now, e.down);
  }

  method PerformRest(fs: S3FS, e: Event)
    requires fs.Good() && (e.op.Remove? || e.op.Mkdir? || e.op.CopyTo?)
    modifies fs.bucket, fs.handles, fs.cache, fs`pending
    ensures old(fs.handles.nextInode) == 0 ==> fs.handles.nextInode == 0
    ensures fs.Good() && fs.pending <= old(fs.pending)
    ensures fs.bucket.objects == Effect(old(fs.bucket.objects), e, false)
    ensures CacheEffect(old(fs.bucket.objects), fs.bucket.objects, old(fs.Cached()), fs.Cached(), e, false)
    ensures KeptOrRight(fs.bucket.objects, old(fs.cache.dirListings), fs.cache.dirListings)
  {
    hide Coherent, FreshListings, Handles.Sound, Handles.Step, KeyFromPath, DirKey, ParentPrefix;
    hide C.Table, C.Linked, C.ItemsOf;
    match e.op
    case Remove(path) =>
      var r := fs.Remove(path, e.down, e.txDown);
    case Mkdir(path) =>
      var r := fs.MkdirAll(path, e.now, e.down, e.txDown);
    case CopyTo(src, dst) =>
      var r := fs.CopyFile(src, dst, e.now, e.down);
  }

  /** The operations that leave the bucket alone. */
  method PerformQuiet(fs: S3FS, e: Event)
    requires fs.Good() && (e.op.StatPath? || e.op.EvictTick?)
    modifies fs.handles, fs.cache
    ensures old(fs.handles.nextInode) == 0 ==> fs.handles.nextInode == 0
    ensures fs.Good()
    ensures CacheEffect(old(fs.bucket.objects), fs.bucket.objects, old(fs.Cached()), fs.Cached(), e, false)
    ensures KeptOrRight(fs.bucket.objects, old(fs.cache.dirListings), fs.cache.dirListings)
  {
    hide Coherent, FreshListings, Handles.Sound, KeyFromPath, DirKey, ParentPrefix, ParseMode, Absent, NameFromPath;
    hide C.Table, C.Linked, C.ItemsOf;
    match e.op
    case StatPath(path) => PerformStat(fs, e);
    case EvictTick =>
      fs.EvictTick(e.now);
  }

  method PerformStat(fs: S3FS, e: Event)
    requires fs.Good() && e.op.StatPath?
    modifies fs.handles, fs.cache
    ensures old(fs.handles.nextInode) == 0 ==> fs.handles.nextInode == 0
    ensures fs.Good() && fs.cache.dirListings == old(fs.cache.dirListings)
    ensures CacheEffect(fs.bucket.objects, fs.bucket.objects, old(fs.Cached()), fs.Cached(), e, false)
  {
    hide Coherent, FreshListings, Handles.Sound, KeyFromPath, DirKey, ParentPrefix, ParseMode, Absent, NameFromPath;
    hide C.Table, C.Linked, C.ItemsOf, Notes, Fetched, DirsNoted, Answers, Sighted, HasSlashSuffix;
    var r := fs.Stat(e.op.path, e.now, e.down, e.txDown);
  }

  /** The operations that need their failures to be benign. */
  method PerformFragile(fs: S3FS, e: Event)
    requires fs.Good() && Benign(fs.bucket.objects, e)
    requires e.op.Close? || e.op.ListDir? || e.op.Symlink? || e.op.Rename?
    modifies fs.bucket, fs.handles, fs.cache, fs`pending
    ensures old(fs.handles.nextInode) == 0 ==> fs.handles.nextInode == 0
    ensures fs.Good() && fs.pending <= old(fs.pending) + Creates(e)
    ensures fs.bucket.objects == Effect(old(fs.bucket.objects), e, false)
    ensures CacheEffect(old(fs.bucket.objects), fs.bucket.objects, old(fs.Cached()), fs.Cached(), e, false)
    ensures KeptOrRight(fs.bucket.objects, old(fs.cache.dirListings), fs.cache.dirListings)
  {
    hide Coherent, FreshListings, Handles.Sound, KeyFromPath, DirKey;
    hide RenameTarget, RenameSteps, CopyUnnoticed, ListsFile, ListsDirs, HeadsHarmless, ListedIn, ParentPrefix, ParseMode;
    hide ShowsDirs, C.Table, C.Linked, C.ItemsOf, RenameDrops, C.ListingAnswer, WellAnswered, AsPrefix;
    match e.op
    case Close(key, path, data, inode) =>
      var r := fs.CommitUpload(key, path, data, inode, e.now, e.down);
    case ListDir(dirKey, count) =>
      var r, full := fs.Readdir(dirKey, count, e.now, e.down, e.txDown);
    case Symlink(target, link) =>
      var r := fs.Symlink(target, link, e.now, e.down);
    case Rename(src, dst) =>
      PerformRename(fs, e);
  }

  method PerformRename(fs: S3FS, e: Event)
    requires fs.Good() && Benign(fs.bucket.objects, e) && e.op.Rename?
    modifies fs.bucket, fs.handles, fs.cache, fs`pending
    ensures old(fs.handles.nextInode) == 0 ==> fs.handles.nextInode == 0
    ensures fs.Good() && fs.pending <= old(fs.pending)
    ensures fs.bucket.objects == Effect(old(fs.bucket.objects), e, false)
    ensures CacheEffect(old(fs.bucket.objects), fs.bucket.objects, old(fs.Cached()), fs.Cached(), e, false)
    ensures KeptOrRight(fs.bucket.objects, old(fs.cache.dirListings), fs.cache.dirListings)
  {
    hide Coherent, FreshListings, Handles.Sound, Handles.Step, KeyFromPath, DirKey, ParentPrefix, RenameTarget;
    hide CopyUnnoticed, HasSlashSuffix, C.Table, C.Linked, C.ItemsOf;
    var r := fs.Rename(e.op.oldPath, e.op.newPath, e.now, e.down, e.txDown);
  }

  /** The bucket after a sequence of events. */
  ghost function EffectAll(objects: Objects, events: seq<Event>, created: seq<bool>): Objects
    requires |created| == |events|
  {
    if events == [] then objects
    else
      var n := |events| - 1;
      Effect(EffectAll(objects, events[..n], created[..n]), events[n], created[n])
  }

  /**
   * Coherence over every run: from a new gateway on any bucket, through any sequence of operations up to the first that
   * is not benign, if any, every positive entry cached for a file names an existing object with its current size and
   * mode, and every cached listing shows exactly the files of its directory, except files created since it was taken.
   * The bucket is what the events make of it one by one, whatever is cached.
   */
  method Run(bucket: Bucket, handles: Handles.HandleStore, cfg: C.Config, events: seq<Event>)
      returns (fs: S3FS, created: seq<bool>, n: nat)
    requires bucket.Valid() && Handles.Sound(handles.State())
    modifies bucket, handles
    ensures fs.bucket == bucket && fs.handles == handles && fs.Valid()
    ensures n <= |events| && (n < |events| ==> !Benign(bucket.objects, events[n]))
    ensures Coherent(bucket.objects, fs.Cached())
    ensures FreshListings(bucket.objects, fs.cache.dirListings, fs.pending)
    ensures forall k :: k in fs.pending ==> exists i :: 0 <= i < n && k in Creates(events[i])
    ensures |created| == n && bucket.objects == EffectAll(old(bucket.objects), events[..n], created)
    ensures Marked(old(bucket.objects), events[..n], created, handles.nextInode == 0)
    ensures handles.nextInode != 0 && (forall i :: 0 <= i < n ==> events[i].txDown == {}) ==>
              bucket.objects == Plan(old(bucket.objects), events[..n])
  {
    hide Coherent, FreshListings, Handles.Sound, Benign, Creates, Effect, CacheEffect, KeptOrRight, Marked;
    hide C.Table, C.Linked, C.ItemsOf;
    fs := new S3FS(bucket, handles, cfg);
    created := [];
    n := 0;
    NothingMarked(bucket.objects, events, handles.nextInode == 0);
    while n < |events| && Benign(bucket.objects, events[n])
      invariant fresh(fs) && fresh(fs.cache) && fs.bucket == bucket && fs.handles == handles && fs.Good() && n <= |events|
      invariant forall k :: k in fs.pending ==> exists j :: 0 <= j < n && k in Creates(events[j])
      invariant |created| == n && bucket.objects == EffectAll(old(bucket.objects), events[..n], created)
      invariant Marked(old(bucket.objects), events[..n], created, handles.nextInode == 0)
    {
      ghost var usedUp := handles.nextInode == 0;
      var c := Perform(fs, events[n]);
      assert events[..n + 1][..n] == events[..n];
      MarkedOneMore(old(bucket.objects), events[..n + 1], created, usedUp, handles.nextInode == 0, c);
      created := created + [c];
      assert created[..n] == created[..|created| - 1];
      n := n + 1;
    }
    if handles.nextInode != 0 && (forall i :: 0 <= i < n ==> events[i].txDown == {}) {
      MarkedPlan(old(bucket.objects), events[..n], created);
    }
  }

  // ----- Content over runs -----

  /** The keys an event may write or delete. */
  function Names(e: Event): set<string> {
    match e.op
    case Open(path, _) => {KeyFromPath(path)}
    case Close(key, _, _, _) => {key}
    case Chmod(path, _) => Either(path)
    case Chown(path, _, _) => Either(path)
    case Symlink(_, link) => {KeyFromPath(link)}
    case Rename(oldPath, newPath) => Either(oldPath) + Either(newPath)
    case Remove(path) => Either(path)
    case Mkdir(path) => {DirKey(KeyFromPath(path))}
    case CopyTo(_, dst) => {KeyFromPath(dst)}
    case SetXattr(path, _, _, _) => Either(path)
    case RemoveXattr(path, _) => Either(path)
    case _ => {}
  }

  function Either(path: string): set<string> {
    {KeyFromPath(path), DirKey(KeyFromPath(path))}
  }

  lemma EffectOutside(objects: Objects, e: Event, created: bool)
    ensures Effect(objects, e, created) - Names(e) == objects - Names(e)
  {
    hide KeyFromPath, DirKey, NewMeta, Format, MetaEffect, RenameResult;
    if ChangesMeta(e.op) {
      MetaOutside(objects, e);
    } else if e.op.Rename? {
      RenameOutside(objects, e);
    }
  }

  lemma MetaOutside(objects: Objects, e: Event)
    requires ChangesMeta(e.op)
    ensures MetaEffect(objects, e) - Names(e) == objects - Names(e)
  {
    hide KeyFromPath, DirKey, NewMeta, Format;
  }

  lemma RenameOutside(objects: Objects, e: Event)
    requires e.op.Rename?
    ensures RenameResult(objects, e.op.oldPath, e.op.newPath, e) - Names(e) == objects - Names(e)
  {
    hide KeyFromPath, DirKey;
  }

  /** Whatever a run does, a key that no event names keeps its object, or stays free. */
  lemma {:induction false} Untouched(objects: Objects, events: seq<Event>, created: seq<bool>, key: string)
    requires |created| == |events| && forall i :: 0 <= i < |events| ==> key !in Names(events[i])
    ensures var after := EffectAll(objects, events, created);
            (key in after <==> key in objects) && (key in objects ==> after[key] == objects[key])
    decreases |events|
  {
    hide Effect, Names;
    if events == [] {
    } else {
      var n := |events| - 1;
      Untouched(objects, events[..n], created[..n], key);
      var before := EffectAll(objects, events[..n], created[..n]);
      EffectOutside(before, events[n], created[n]);
      assert key !in Names(events[n]);
      var after := Effect(before, events[n], created[n]);
      assert key in after <==> key in after - Names(events[n]);
      assert key in before <==> key in before - Names(events[n]);
    }
  }

  /** The content is empty, or was there at the start, or was closed by one of the events. */
  ghost predicate Known(objects: Objects, events: seq<Event>, data: Bytes) {
    || data == []
    || (exists j :: j in objects && objects[j].data == data)
    || (exists i :: 0 <= i < |events| && events[i].op.Close? && events[i].op.data == data)
  }

  lemma EffectKnown(objects: Objects, e: Event, created: bool, key: string)
    requires key in Effect(objects, e, created)
    ensures Known(objects, [e], Effect(objects, e, created)[key].data)
  {
    hide KeyFromPath, DirKey, NewMeta, Format, RenameTarget;
    assert e.op.Close? ==> [e][0].op.data == e.op.data;
  }

  /** No run invents content: every object is empty, or has the bytes of an object at the start or of a file closed. */
  lemma {:induction false} ContentIsKnown(objects: Objects, events: seq<Event>, created: seq<bool>, key: string)
    requires |created| == |events| && key in EffectAll(objects, events, created)
    ensures Known(objects, events, EffectAll(objects, events, created)[key].data)
    decreases |events|
  {
    hide Effect;
    if events == [] {
    } else {
      var n := |events| - 1;
      var before := EffectAll(objects, events[..n], created[..n]);
      var data := Effect(before, events[n], created[n])[key].data;
      EffectKnown(before, events[n], created[n], key);
      if data != [] {
        if exists j :: j in before && before[j].data == data {
          var j :| j in before && before[j].data == data;
          ContentIsKnown(objects, events[..n], created[..n], j);
          KnownLater(objects, events, data);
        } else {
          assert events[n].op.Close? && events[n].op.data == data;
        }
      }
    }
  }

  lemma KnownLater(objects: Objects, events: seq<Event>, data: Bytes)
    requires events != [] && Known(objects, events[..|events| - 1], data)
    ensures Known(objects, events, data)
  {
    var before := events[..|events| - 1];
    if exists i :: 0 <= i < |before| && before[i].op.Close? && before[i].op.data == data {
      var i :| 0 <= i < |before| && before[i].op.Close? && before[i].op.data == data;
      assert events[i].op.Close? && events[i].op.data == data;
    }
  }

  /** What is closed is what the key holds after any run of events that do not name it. */
  lemma {:induction false} ClosedStays(objects: Objects, close: Event, events: seq<Event>, created: seq<bool>)
    requires close.op.Close? && Put(close.op.key) !in close.down
    requires |created| == |events| && forall i :: 0 <= i < |events| ==> close.op.key !in Names(events[i])
    ensures var after := EffectAll(Effect(objects, close, false), events, created);
            && close.op.key in after && after[close.op.key].data == close.op.data
            && ParseMode(after[close.op.key].meta, false) == 6 * 64 + 4 * 8 + 4
  {
    hide Names, ParseMode, PosixMetadata;
    Untouched(Effect(objects, close, false), events, created, close.op.key);
    NewFileAttributes(close.op.data, close.now);
  }

  // ----- The three harmful failures -----

  method NewGateway(cfg: C.Config) returns (fs: S3FS)
    ensures fresh(fs) && fresh(fs.bucket) && fresh(fs.handles) && fresh(fs.cache) && fs.Good()
    ensures fs.bucket.objects == map[] && fs.handles.nextInode == 2 && fs.handles.keyToInode.Keys == {""}
    ensures fs.cache.config == C.WithDefaults(cfg) && fs.cache.dirListings == map[]
  {
    hide Coherent, FreshListings, Handles.Sound;
    var bucket := new Bucket();
    var db := Handles.Db(map[], map[], None);
    Handles.ReopenSound(db);
    var handles := new Handles.HandleStore(db);
    fs := new S3FS(bucket, handles, cfg);
  }

  /** A name of one letter is a file's key, at the top. */
  lemma TopFile(path: string, key: string)
    requires |key| == 1 && key[0] != '/' && key[0] != '.' && path == "/" + key
    ensures KeyFromPath(path) == key && IsFile(key) && ParentPrefix(key) == "" && ListedAs("", key) == key
  {
    assert FirstSlash(key) == 1 && Split(key) == [key];
    KeyPathRoundTrip(key);
    assert LastSlash(key) == -1;
  }

  /** A new file of the given bytes, with its entry in the cache. */
  method Upload(fs: S3FS, key: string, path: string, data: Bytes)
    requires fs.Good() && IsFile(key)
    modifies fs.bucket, fs.cache, fs`pending
    ensures fs.Good() && fs.bucket.objects == old(fs.bucket.objects)[key := NewFile(data, 0)]
    ensures key in fs.Cached() && !fs.Cached()[key].negative && fs.Cached()[key].size == |data|
  {
    hide Coherent, FreshListings, Handles.Sound, C.Table, C.Linked, C.ItemsOf, ParentPrefix, HasSlashSuffix, ParseMode;
    var up := fs.CommitUpload(key, path, data, 2, 0, {});
    HitIsCurrent(fs.bucket.objects, fs.Cached(), key);
  }

  /** A HeadObject that fails under Symlink: the link replaces a file of one byte, whose entry stays. */
  method SymlinkBreaks(cfg: C.Config) returns (fs: S3FS)
    ensures fs.Valid() && !fs.Good()
  {
    hide Coherent, FreshListings, Handles.Sound, C.Table, C.Linked, C.ItemsOf, KeyFromPath, ParentPrefix, ParseMode;
    fs := NewGateway(cfg);
    TopFile("/a", "a");
    Upload(fs, "a", "/a", [0 as char]);
    var r := fs.Symlink("t", "/a", 0, {Head("a")});
  }

  /** A DeleteObject that fails under Rename: a file of one byte is copied over one of two, whose entry stays. */
  method RenameBreaks(cfg: C.Config) returns (fs: S3FS)
    ensures fs.Valid() && !fs.Good()
  {
    hide Coherent, FreshListings, Handles.Sound, C.Table, C.Linked, C.ItemsOf, KeyFromPath, ParentPrefix, ParseMode;
    fs := NewGateway(cfg);
    TopFile("/a", "a");
    TopFile("/b", "b");
    Upload(fs, "a", "/a", [0 as char]);
    Upload(fs, "b", "/b", [0 as char, 0 as char]);
    CopyOver(fs);
  }

  method CopyOver(fs: S3FS)
    requires fs.Good() && "a" in fs.bucket.objects && "b" in fs.bucket.objects
    requires |fs.bucket.objects["a"].data| == 1 && |fs.bucket.objects["b"].data| == 2
    requires "b" in fs.Cached() && !fs.Cached()["b"].negative && fs.Cached()["b"].size == 2
    requires KeyFromPath("/a") == "a" && KeyFromPath("/b") == "b"
    modifies fs.bucket, fs.handles, fs.cache, fs`pending
    ensures fs.Valid() && !fs.Good()
  {
    hide Coherent, FreshListings, Handles.Sound, Handles.Step, C.Table, C.Linked, C.ItemsOf, KeyFromPath, DirKey;
    hide ParentPrefix, ParseMode;
    ghost var before := fs.bucket.objects;
    var r := fs.Rename("/a", "/b", 0, {Delete("a")}, {});
    assert |fs.bucket.objects["b"].data| == 1 && |before["b"].data| == 2;
  }

  /** A HeadObject that fails under Readdir: a file of mode 0 is cached with the default mode. */
  method ReaddirBreaks(cfg: C.Config) returns (fs: S3FS)
    ensures fs.Valid() && !fs.Good()
  {
    hide Coherent, FreshListings, Handles.Sound, C.Table, C.Linked, C.ItemsOf;
    hide KeyFromPath, ParentPrefix, ParseMode, ListedAs;
    fs := NewGateway(cfg);
    TopFile("/a", "a");
    OpenNew(fs);
    ZeroMode(fs);
    ListWithoutHead(fs);
  }

  method OpenNew(fs: S3FS)
    requires fs.Good() && fs.bucket.objects == map[] && fs.handles.nextInode == 2 && KeyFromPath("/a") == "a"
    modifies fs.bucket, fs.handles, fs.cache, fs`pending
    ensures fs.Good() && fs.bucket.objects.Keys == {"a"} && "a" in fs.handles.keyToInode
  {
    hide Coherent, FreshListings, Handles.Sound, Handles.Step, C.Table, C.Linked, C.ItemsOf, KeyFromPath, DirKey;
    hide ParentPrefix, ParseMode, Absent;
    var o := fs.OpenFile("/a", true, 0, {}, {});
  }

  method ZeroMode(fs: S3FS)
    requires fs.Good() && fs.bucket.objects.Keys == {"a"} && KeyFromPath("/a") == "a" && ParentPrefix("a") == ""
    modifies fs.bucket, fs.cache, fs`pending
    ensures fs.Good() && fs.bucket.objects.Keys == {"a"} && ParseMode(fs.bucket.objects["a"].meta, false) == 0
    ensures "" !in fs.cache.dirListings
  {
    hide Coherent, FreshListings, Handles.Sound, C.Table, C.Linked, C.ItemsOf, KeyFromPath, DirKey;
    hide ParentPrefix, ParseMode, Format;
    assert "a" in fs.bucket.objects;
    var r := fs.Chmod("/a", 0, 0, {});
  }

  method ListWithoutHead(fs: S3FS)
    requires fs.Good() && fs.bucket.objects.Keys == {"a"} && ParseMode(fs.bucket.objects["a"].meta, false) == 0
    requires "a" in fs.handles.keyToInode && "" !in fs.cache.dirListings
    requires IsFile("a") && ParentPrefix("a") == "" && ListedAs("", "a") == "a"
    modifies fs.bucket, fs.handles, fs.cache, fs`pending
    ensures fs.Valid() && !fs.Good()
  {
    hide Coherent, FreshListings, Handles.Sound, Handles.Step, C.Table, C.Linked, C.ItemsOf, ParentPrefix, ParseMode;
    hide ListedAs, ListsFile, ListsDirs, ListsSeen, SameFields, FromEntries, KeptOrRight, ListedIn, ShowsDirs, WellAnswered;
    var infos, full := fs.Readdir("", 0, 0, {Head("a")}, {});
    assert !HeadsHarmless(fs.bucket.objects, "", {Head("a")}) by {
      assert "a" in fs.bucket.objects;
    }
  }

  // ----- Directories -----

  /** A directory at the top, made with MkdirAll. */
  method MakeTop(fs: S3FS, path: string, key: string)
    requires fs.Good() && fs.bucket.objects == map[] && fs.handles.nextInode == 2 && fs.handles.keyToInode.Keys == {""}
    requires KeyFromPath(path) == key && DirKey(key) == key + "/" && key != ""
    modifies fs.bucket, fs.handles, fs.cache, fs`pending
    ensures fs.Good() && fs.bucket.objects == map[key + "/" := Object([], map[], 0)] && 2 <= fs.handles.nextInode <= 3
  {
    hide Coherent, FreshListings, Handles.Sound, Handles.Step, C.Table, C.Linked, C.ItemsOf, KeyFromPath, DirKey;
    hide ParentPrefix;
    var r := fs.MkdirAll(path, 0, {}, {});
  }

  /**
   * A directory of mode 0700 that is opened: the gateway then caches, and Stat answers, 0755, while every entry cached
   * for a file is right.
   */
  method DirectoryModeLost(cfg: C.Config) returns (fs: S3FS, r: Opened)
    ensures fs.Good() && "d/" in fs.bucket.objects && ParseMode(fs.bucket.objects["d/"].meta, true) == 0x8000_0000 + 448
    ensures r.OpenedDir? && r.key == "d/" && r.info.mode == 0x8000_0000 + 493
  {
    hide Coherent, FreshListings, Handles.Sound, Handles.Step, C.Table, C.Linked, C.ItemsOf, KeyFromPath, DirKey;
    hide ParentPrefix, ParseMode, Format, Absent, NameFromPath;
    fs := NewGateway(cfg);
    TopFile("/d", "d");
    TopDir("d");
    MakeTop(fs, "/d", "d");
    assert "d" + "/" == "d/";
    var c := fs.Chmod("/d", 448, 0, {});
    r := OpenAndStat(fs);
  }

  method OpenAndStat(fs: S3FS) returns (r: Opened)
    requires fs.Good() && "d/" in fs.bucket.objects && "d" !in fs.bucket.objects && 2 <= fs.handles.nextInode <= 3
    requires KeyFromPath("/d") == "d" && DirKey("d") == "d/" && fs.cache.config.dirTtl > 0
    modifies fs.bucket, fs.handles, fs.cache, fs`pending
    ensures fs.Good() && fs.bucket.objects == old(fs.bucket.objects)
    ensures r.OpenedDir? && r.key == "d/" && r.info.mode == 0x8000_0000 + 493
  {
    hide Coherent, FreshListings, Handles.Sound, Handles.Step, C.Table, C.Linked, C.ItemsOf, KeyFromPath, DirKey;
    hide ParentPrefix, ParseMode, NameFromPath;
    assert !Absent(fs.bucket.objects, "d", "d/") by {
      assert "d/" in fs.bucket.objects && "d/" <= "d/";
    }
    hide Absent;
    var o := fs.OpenFile("/d", false, 0, {}, {});
    assert o.OpenedDir?;
    NotCached(fs.bucket.objects, fs.Cached(), "d");
    r := fs.Stat("/d", 0, {}, {});
  }

  lemma TopDir(key: string)
    requires |key| == 1 && key[0] != '/'
    ensures DirKey(key) == key + "/"
  {
  }

  /** A directory with a file in it, renamed: the marker moves, the file stays under the old name. */
  method DirectoryLeftBehind(cfg: C.Config, data: Bytes) returns (fs: S3FS, r: Result)
    ensures fs.Good() && r == Done
    ensures fs.bucket.objects.Keys == {"e/", "d/a"} && fs.bucket.objects["d/a"].data == data
  {
    hide Coherent, FreshListings, Handles.Sound, Handles.Step, C.Table, C.Linked, C.ItemsOf, KeyFromPath, DirKey;
    hide ParentPrefix, ParseMode, HasSlashSuffix;
    fs := NewGateway(cfg);
    TopFile("/d", "d");
    TopFile("/e", "e");
    TopDir("d");
    MakeTop(fs, "/d", "d");
    assert "d" + "/" == "d/";
    assert IsFile("d/a") by {
      TwoLevels();
    }
    Upload(fs, "d/a", "/d/a", data);
    r := MoveTop(fs);
  }

  lemma TwoLevels()
    ensures IsFile("d/a") && HasSlashSuffix("d/")
  {
  }

  method MoveTop(fs: S3FS) returns (r: Result)
    requires fs.Good() && fs.bucket.objects.Keys == {"d/", "d/a"}
    requires KeyFromPath("/d") == "d" && DirKey("d") == "d/" && KeyFromPath("/e") == "e"
    modifies fs.bucket, fs.handles, fs.cache, fs`pending
    ensures fs.Good() && r == Done && fs.bucket.objects.Keys == {"e/", "d/a"}
    ensures fs.bucket.objects["d/a"] == old(fs.bucket.objects)["d/a"]
  {
    hide Coherent, FreshListings, Handles.Sound, Handles.Step, C.Table, C.Linked, C.ItemsOf, KeyFromPath, DirKey;
    hide ParentPrefix, ParseMode, S3FS.Dropped, CopyUnnoticed;
    TwoLevels();
    assert "d/" in fs.bucket.objects && "d" !in fs.bucket.objects && "d/a" in fs.bucket.objects;
    r := fs.Rename("/d", "/e", 0, {}, {});
    assert "e" + "/" == "e/";
    assert fs.bucket.objects.Keys == {"e/", "d/a"};
  }

  // ----- A listing and the answer from it -----

  /** How an answer from a cached listing shows an entry: with the default mode where the mode is zero. */
  function ShownAgain(info: FileInfo): FileInfo {
    info.(mode := if info.mode != 0 then info.mode else if info.isDir then 0x8000_0000 + 493 else 420)
  }

  /** The two answers have the same entries in the same order, modes of zero apart. */
  ghost predicate Repeats(a: seq<FileInfo>, b: seq<FileInfo>) {
    |a| == |b| && forall i :: 0 <= i < |a| ==> b[i] == ShownAgain(a[i])
  }

  lemma KeyOfAnswer(p: string, e: C.CacheEntry, info: FileInfo)
    requires ChildEntry(p, e) && p <= e.s3Key && info.name == TrimSlash(e.s3Key[|p|..]) && info.isDir == e.isDir
    ensures info.name == NameFromKey(e.s3Key) && EntryKey(p, info) == e.s3Key
  {
    KeyOfChild(e.s3Key);
    assert e.s3Key[|p|..] == NameFromKey(e.s3Key) + (if HasSlashSuffix(e.s3Key) then "/" else "");
  }

  lemma SecondRepeats(p: string, entries: seq<C.CacheEntry>, a: seq<FileInfo>, b: seq<FileInfo>,
                      inodes: map<string, Handles.U64>, inodes': map<string, Handles.U64>)
    requires ChildrenOnly(p, entries) && SameFields(p, entries, a) && FromEntries(entries, b)
    requires WellAnswered(inodes, p, a) && WellAnswered(inodes', p, b) && SubMap(inodes, inodes')
    ensures Repeats(a, b)
  {
    hide NameFromKey, TrimSlash, ParentPrefix, HasSlashSuffix;
    forall i | 0 <= i < |a| ensures b[i] == ShownAgain(a[i]) {
      assert ChildEntry(p, entries[i]);
      KeyOfAnswer(p, entries[i], a[i]);
      assert EntryKey(p, a[i]) == EntryKey(p, b[i]);
    }
  }

  lemma AllHaveInodes(p: string, entries: seq<C.CacheEntry>, a: seq<FileInfo>, inodes: map<string, Handles.U64>)
    requires ChildrenOnly(p, entries) && SameFields(p, entries, a) && WellAnswered(inodes, p, a)
    ensures forall e :: e in entries ==> e.s3Key in inodes
  {
    hide NameFromKey, TrimSlash, ParentPrefix, HasSlashSuffix;
    forall i | 0 <= i < |entries| ensures entries[i].s3Key in inodes {
      assert ChildEntry(p, entries[i]);
      KeyOfAnswer(p, entries[i], a[i]);
    }
  }

  /**
   * Readdir twice with nothing between, the second time within the directory TTL and whatever fails then: the second
   * answer repeats the first, names, sizes, times and inodes, with the default for a mode of zero.
   */
  method ReaddirAgain(fs: S3FS, dirKey: string, now: int, later: int, down: set<S3Call>, laterDown: set<S3Call>,
                      txDown: set<string>, laterTxDown: set<string>)
      returns (first: Option<seq<FileInfo>>, second: Option<seq<FileInfo>>)
    requires fs.Good() && HeadsHarmless(fs.bucket.objects, AsPrefix(dirKey), down)
    requires C.ListingAnswer(fs.cache.config, fs.cache.State(), AsPrefix(dirKey), now).None?
    requires later - now <= fs.cache.config.dirTtl
    modifies fs.handles, fs.cache, fs`pending
    ensures fs.Good() && (first.Some? ==> second.Some? && Repeats(first.value, second.value))
  {
    hide Coherent, FreshListings, Handles.Sound, Handles.Step, C.Table, C.Linked, C.ItemsOf, ParentPrefix, ParseMode;
    hide ShowsDirs, ListsDirs, ListsFile, ListsSeen, WellAnswered, SameFields, FromEntries, KeptOrRight, ListedIn, AsPrefix;
    hide ChildrenOnly, Repeats, NameFromKey, HeadsHarmless;
    var p := AsPrefix(dirKey);
    ghost var full, full';
    first, full := fs.Readdir(dirKey, 0, now, down, txDown);
    if first.Some? {
      ChildrenListed(fs.bucket.objects, fs.cache.dirListings, fs.pending, p);
      AllHaveInodes(p, fs.cache.dirListings[p].entries, full, fs.handles.keyToInode);
      ghost var entries, inodes := fs.cache.dirListings[p].entries, fs.handles.keyToInode;
      second, full' := fs.Readdir(dirKey, 0, later, laterDown, laterTxDown);
      if second.Some? {
        SecondRepeats(p, entries, full, full', inodes, fs.handles.keyToInode);
      }
    } else {
      second := None;
    }
  }

  // ----- Subdirectories of cached listings -----

  /** The bucket, the cached listings and the cached entries at one moment. */
  datatype Shot = Shot(objects: Objects, listings: map<string, C.DirListing>, entries: map<string, C.CacheEntry>)

  /** No listing that survives has a subdirectory whose first object has come or whose last one has gone. */
  ghost predicate NoneNotices(a: Shot, b: Shot) {
    forall p, name :: p in b.listings && p in a.listings && b.listings[p] == a.listings[p] && OneComponent(name) ==>
      Unnoticed(a.objects, b.objects, Sub(p, name))
  }

  ghost predicate Succeed(shots: seq<Shot>) {
    forall i :: 0 <= i < |shots| - 1 ==> KeptOrRight(shots[i + 1].objects, shots[i].listings, shots[i + 1].listings)
  }

  ghost predicate AlwaysShowDirs(shots: seq<Shot>) {
    forall i :: 0 <= i < |shots| ==> AllShowDirs(shots[i].objects, shots[i].listings)
  }

  lemma {:induction false} DirsShownIff(shots: seq<Shot>)
    requires shots != [] && AllShowDirs(shots[0].objects, shots[0].listings) && Succeed(shots)
    ensures AlwaysShowDirs(shots) <==> forall i :: 0 <= i < |shots| - 1 ==> NoneNotices(shots[i], shots[i + 1])
    decreases |shots|
  {
    hide AllShowDirs, KeptOrRight, NoneNotices;
    if |shots| == 1 {
    } else {
      var n := |shots| - 1;
      DirsShownIff(shots[..n]);
      var a, b := shots[n - 1], shots[n];
      if AlwaysShowDirs(shots[..n]) {
        assert AllShowDirs(shots[..n][n - 1].objects, shots[..n][n - 1].listings);
        ShowDirsStepIff(a, b);
      }
      assert forall i :: 0 <= i < n ==> shots[..n][i] == shots[i];
      DirsShownOneMore(shots);
    }
  }

  lemma ShowDirsStepIff(a: Shot, b: Shot)
    requires AllShowDirs(a.objects, a.listings) && KeptOrRight(b.objects, a.listings, b.listings)
    ensures AllShowDirs(b.objects, b.listings) <==> NoneNotices(a, b)
  {
    hide AllShowDirs, KeptOrRight, OneComponent, Sub, Unnoticed;
    AllShowDirsIff(a.objects, b.objects, a.listings, b.listings);
  }

  lemma DirsShownOneMore(shots: seq<Shot>)
    requires |shots| > 1
    ensures var n := |shots| - 1;
            && (AlwaysShowDirs(shots) <==> AlwaysShowDirs(shots[..n]) && AllShowDirs(shots[n].objects, shots[n].listings))
            && ((forall i :: 0 <= i < n ==> NoneNotices(shots[i], shots[i + 1])) <==>
                (forall i :: 0 <= i < n - 1 ==> NoneNotices(shots[..n][i], shots[..n][i + 1])) &&
                NoneNotices(shots[n - 1], shots[n]))
  {
    hide AllShowDirs, NoneNotices;
    var n := |shots| - 1;
    assert forall i :: 0 <= i < n ==> shots[..n][i] == shots[i];
  }

  /**
   * The subdirectories over every run: at every point all cached listings show exactly the subdirectories that hold
   * something, if and only if no event brings the first object below a subdirectory, or takes the last one, of a listing
   * that survives it.
   */
  method RunDirs(bucket: Bucket, handles: Handles.HandleStore, cfg: C.Config, events: seq<Event>)
      returns (fs: S3FS, n: nat, ghost shots: seq<Shot>, ghost created: seq<bool>)
    requires bucket.Valid() && Handles.Sound(handles.State())
    modifies bucket, handles
    ensures fs.bucket == bucket && fs.Good()
    ensures n <= |events| && (n < |events| ==> !Benign(bucket.objects, events[n]))
    ensures |shots| == n + 1 && |created| == n
    ensures shots[0] == Shot(old(bucket.objects), map[], map[]) && shots[n] == Shot(bucket.objects, fs.cache.dirListings, fs.Cached())
    ensures forall i :: 0 <= i < n ==> shots[i + 1].objects == Effect(shots[i].objects, events[i], created[i])
    ensures AlwaysShowDirs(shots) <==> forall i :: 0 <= i < n ==> NoneNotices(shots[i], shots[i + 1])
    ensures DirEntriesMade(shots, events)
  {
    hide Coherent, FreshListings, Handles.Sound, Benign, Creates, Effect, CacheEffect, C.Table, C.Linked, C.ItemsOf;
    hide CreatesRightly, KeptOrRight;
    fs := new S3FS(bucket, handles, cfg);
    n, shots, created := 0, [Shot(bucket.objects, fs.cache.dirListings, fs.Cached())], [];
    while n < |events| && Benign(bucket.objects, events[n])
      invariant fresh(fs) && fresh(fs.cache) && fs.bucket == bucket && fs.handles == handles && fs.Good() && n <= |events|
      invariant |shots| == n + 1 && |created| == n && shots[0] == Shot(old(bucket.objects), map[], map[])
      invariant shots[n] == Shot(bucket.objects, fs.cache.dirListings, fs.Cached()) && Succeed(shots)
      invariant EntriesNoted(shots, events)
      invariant forall i :: 0 <= i < n ==> shots[i + 1].objects == Effect(shots[i].objects, events[i], created[i])
    {
      ghost var before, t := bucket.objects, fs.Cached();
      var c := Perform(fs, events[n]);
      EffectDirs(before, t, fs.Cached(), events[n], c);
      n, shots, created := n + 1, shots + [Shot(bucket.objects, fs.cache.dirListings, fs.Cached())], created + [c];
    }
    NoListings(old(bucket.objects));
    DirsShownIff(shots);
    AllDirEntriesMade(shots, events);
  }

  /** From each moment to the next, positive directory entries are kept, or made then for directories with something below. */
  ghost predicate EntriesNoted(shots: seq<Shot>, events: seq<Event>) {
    && |shots| <= |events| + 1
    && (forall i :: 0 <= i < |shots| - 1 ==>
          DirsNoted(shots[i + 1].objects, shots[i].entries, shots[i + 1].entries, events[i].now))
  }

  /** Event i made the entry the directory now has, when something was below it, and the entry has been there ever since. */
  ghost predicate MadeBy(shots: seq<Shot>, events: seq<Event>, k: string, i: nat)
    requires 0 < |shots| <= |events| + 1 && k in shots[|shots| - 1].entries && i < |shots| - 1
  {
    var e := shots[|shots| - 1].entries[k];
    && Occupied(shots[i + 1].objects, k) && e.cachedAt == events[i].now
    && (forall j :: i < j < |shots| ==> k in shots[j].entries && shots[j].entries[k] == e)
  }

  /** Every positive directory entry at the last moment was made so. */
  ghost predicate DirEntriesMade(shots: seq<Shot>, events: seq<Event>) {
    0 < |shots| <= |events| + 1 &&
    var t := shots[|shots| - 1].entries;
    forall k :: k in t && !t[k].negative && HasSlashSuffix(k) ==> exists i :: 0 <= i < |shots| - 1 && MadeBy(shots, events, k, i)
  }

  lemma {:induction false} AllDirEntriesMade(shots: seq<Shot>, events: seq<Event>)
    requires shots != [] && EntriesNoted(shots, events) && shots[0].entries == map[]
    ensures DirEntriesMade(shots, events)
  {
    hide HasSlashSuffix, MadeBy;
    var t := shots[|shots| - 1].entries;
    forall k | k in t && !t[k].negative && HasSlashSuffix(k)
      ensures exists i :: 0 <= i < |shots| - 1 && MadeBy(shots, events, k, i)
    {
      var i := DirEntryOrigin(shots, events, k);
    }
  }

  /**
   * Every positive directory entry was made by some event while something was below the directory, and has not been
   * dropped since: a directory answered from the cache is one that was there within its TTL.
   */
  lemma {:induction false} DirEntryOrigin(shots: seq<Shot>, events: seq<Event>, k: string) returns (i: nat)
    requires shots != [] && EntriesNoted(shots, events) && shots[0].entries == map[]
    requires var t := shots[|shots| - 1].entries; k in t && !t[k].negative && HasSlashSuffix(k)
    ensures i < |shots| - 1 && MadeBy(shots, events, k, i)
    decreases |shots|
  {
    hide HasSlashSuffix, Occupied;
    var n := |shots| - 1;
    var before, t, t' := shots[..n], shots[n - 1].entries, shots[n].entries;
    if k in t && t[k] == t'[k] {
      i := DirEntryOrigin(before, events, k);
      assert before[i + 1] == shots[i + 1];
      assert forall j :: i < j < n ==> before[j] == shots[j];
    } else {
      i := n - 1;
    }
  }

  lemma EffectDirs(before: Objects, t: map<string, C.CacheEntry>, t': map<string, C.CacheEntry>, e: Event, created: bool)
    requires Benign(before, e) && CacheEffect(before, Effect(before, e, created), t, t', e, created)
    ensures DirsNoted(Effect(before, e, created), t, t', e.now)
  {
    hide KeyFromPath, DirKey, ParentPrefix, Fetched, HasSlashSuffix, Occupied, NewMeta, RenameDrops, Links, Locate, Changes;
    hide RenameResult, MetaEffect;
    if e.op.Close? {
      forall k | k in t' && HasSlashSuffix(k) && Put(e.op.key) !in e.down ensures k in t && t[k] == t'[k] {
        assert k in t' - {e.op.key};
      }
    }
  }

  lemma NoListings(objects: Objects)
    ensures AllShowDirs(objects, map[])
  {
  }

  /**
   * The first file two levels below a directory whose listing is cached: the listing stays, and does not show the new
   * subdirectory.
   */
  method SubdirectoryMissed(cfg: C.Config, data: Bytes) returns (fs: S3FS)
    ensures fs.Good() && fs.bucket.objects.Keys == {"d/e/a"} && fs.bucket.objects["d/e/a"].data == data
    ensures "" in fs.cache.dirListings && !ShowsDirs(fs.bucket.objects, "", fs.cache.dirListings[""].entries)
  {
    hide Coherent, FreshListings, Handles.Sound, Handles.Step, C.Table, C.Linked, C.ItemsOf, ParentPrefix, ParseMode;
    hide ShowsDirs, ListsDirs, ListsFile, WellAnswered;
    fs := NewGateway(cfg);
    ListEmpty(fs);
    ghost var entries := fs.cache.dirListings[""].entries;
    ThreeLevels();
    assert fs.bucket.objects == map[];
    var ok := fs.CommitUpload("d/e/a", "/d/e/a", data, 2, 0, {});
    FirstBelow(fs.bucket.objects, entries);
  }

  method ListEmpty(fs: S3FS)
    requires fs.Good() && fs.bucket.objects == map[] && fs.cache.dirListings == map[]
    modifies fs.handles, fs.cache, fs`pending
    ensures fs.Good() && "" in fs.cache.dirListings && ShowsDirs(map[], "", fs.cache.dirListings[""].entries)
  {
    hide Coherent, FreshListings, Handles.Sound, Handles.Step, C.Table, C.Linked, C.ItemsOf, ParentPrefix, ParseMode;
    hide ShowsDirs, ListsDirs, ListsFile, WellAnswered;
    var r, full := fs.Readdir("", 0, 0, {}, {});
  }

  lemma ThreeLevels()
    ensures IsFile("d/e/a") && ParentPrefix("d/e/a") == "d/e/" && ParentPrefix("d/e/") == "d/"
  {
    assert LastSlash("d/e/a") == 3 && LastSlash("d/e") == 1;
  }

  lemma FirstBelow(objects: Objects, entries: seq<C.CacheEntry>)
    requires objects.Keys == {"d/e/a"} && ShowsDirs(map[], "", entries)
    ensures !ShowsDirs(objects, "", entries)
  {
    hide ShowsDirs;
    DirsStayIff(map[], objects, "", entries);
    assert OneComponent("d") && Sub("", "d") == "d/";
    assert !Unnoticed(map[], objects, Sub("", "d")) by {
      assert "d/e/a" in objects && "d/" <= "d/e/a";
    }
  }
}
