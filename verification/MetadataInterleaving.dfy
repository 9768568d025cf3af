/**
 * The entry cache under concurrency: the operations of internal/s3fs/filesystem.go and the Readdir of
 * internal/s3fs/file.go cut between their S3 calls and their cache calls. Nothing holds them together, so a reply can be
 * cached, or metadata written back, after the object has changed.
 */
module MetadataInterleaving {
  import opened Base
  import opened Paths
  import opened Storage
  import opened Coherence
  import C = MetadataCaching

  /** What an operation knows of an object, and may cache or write back. */
  datatype Look = Look(key: string, size: nat, modified: int, mode: nat, meta: Meta)

  function LookOf(key: string, o: Object): Look {
    Look(key, |o.data|, o.modified, ParseMode(o.meta, false), o.meta)
  }

  datatype Machine = Machine(
    objects: Objects,
    table: map<string, C.CacheEntry>,
    lists: map<nat, Objects>,   // by operation: the bucket its listing was taken of
    looks: map<nat, Look>,      // by operation: what it knows of the object it is at
    owed: multiset<string>)     // keys that have been written and are about to be invalidated

  datatype Step =
    | ListStep(id: nat)                                          // the ListObjects of a Readdir
    | HeadStep(id: nat, key: string)                             // the HeadObject of Stat, OpenFile, Chmod and the like
    | ListedHeadStep(id: nat, key: string, ok: bool)             // the HeadObject of a Readdir for a listed file
    | CacheStep(id: nat, inode: nat, now: int)                   // cachePut of what the operation knows
    | WriteStep(id: nat, key: string, after: Option<Object>, drops: bool)       // put, copy or delete
    | RewriteStep(id: nat, sets: Meta, dels: set<string>, now: int)             // CopyObjectWithMetadata
    | DropStep(key: string)                                      // the cacheInvalidate a write owes
    | ForgetStep(key: string)                                    // eviction, expiry, or another invalidation

  predicate Enabled(m: Machine, step: Step) {
    match step
    case ListStep(_) => true
    case HeadStep(_, key) => key in m.objects
    case ListedHeadStep(id, key, _) => id in m.lists && key in m.lists[id] && IsFile(key)
    case CacheStep(id, _, _) => id in m.looks && IsFile(m.looks[id].key)
    case WriteStep(_, _, _, _) => true
    case RewriteStep(id, _, _, _) => id in m.looks && m.looks[id].key in m.objects
    case DropStep(key) => key in m.owed
    case ForgetStep(_) => true
  }

  /** The operation whose knowledge the step takes, uses up or replaces. */
  function By(step: Step): Option<nat> {
    match step
    case HeadStep(id, _) => Some(id)
    case ListedHeadStep(id, _, _) => Some(id)
    case CacheStep(id, _, _) => Some(id)
    case WriteStep(id, _, _, _) => Some(id)
    case RewriteStep(id, _, _, _) => Some(id)
    case _ => None
  }

  /**
   * What the step lets its operation know. A Readdir takes size and time from its listing, and only the metadata from
   * HeadObject, without which it takes the default mode; an operation that puts an object knows what it has put.
   */
  function LookMade(m: Machine, step: Step): Option<Look>
    requires Enabled(m, step)
  {
    match step
    case HeadStep(_, key) => Some(LookOf(key, m.objects[key]))
    case ListedHeadStep(id, key, ok) =>
      var listed := m.lists[id][key];
      var meta := if ok && key in m.objects then m.objects[key].meta else map[];
      Some(Look(key, |listed.data|, listed.modified, ParseMode(meta, false), meta))
    case WriteStep(_, key, after, _) => if after.Some? then Some(LookOf(key, after.value)) else None
    case _ => None
  }

  /** Metadata with some keys set and others deleted. */
  function Edited(meta: Meta, sets: Meta, dels: set<string>): Meta {
    (meta - dels) + sets
  }

  /** The key the step writes, and the object it leaves there, if any. */
  function Written(m: Machine, step: Step): Option<(string, Option<Object>)>
    requires Enabled(m, step)
  {
    match step
    case WriteStep(_, key, after, _) => Some((key, after))
    case RewriteStep(id, sets, dels, now) =>
      var look := m.looks[id];
      Some((look.key, Some(Object(m.objects[look.key].data, Edited(look.meta, sets, dels), now))))
    case _ => None
  }

  function With(objects: Objects, key: string, o: Option<Object>): Objects {
    if o.Some? then objects[key := o.value] else objects - {key}
  }

  function At(objects: Objects, key: string): Option<Object> {
    if key in objects then Some(objects[key]) else None
  }

  /** The entry cachePut stores for a file. */
  function CachedLook(look: Look, inode: nat, now: int): C.CacheEntry {
    C.CacheEntry(look.key, look.size, look.modified, look.mode, false, inode, now, false)
  }

  /** The write owes an invalidation of its key. OpenFile and Symlink, which create, do not. */
  predicate Drops(step: Step) {
    step.RewriteStep? || (step.WriteStep? && step.drops)
  }

  function Next(m: Machine, step: Step): Machine
    requires Enabled(m, step)
  {
    var w, made := Written(m, step), LookMade(m, step);
    Machine(
      if w.Some? then With(m.objects, w.value.0, w.value.1) else m.objects,
      match step {
        case CacheStep(id, inode, now) => m.table[m.looks[id].key := CachedLook(m.looks[id], inode, now)]
        case DropStep(key) => m.table - {key}
        case ForgetStep(key) => m.table - {key}
        case _ => m.table
      },
      if step.ListStep? then m.lists[step.id := m.objects] else m.lists,
      if By(step).None? then m.looks
      else if made.Some? then m.looks[By(step).value := made.value]
      else m.looks - {By(step).value},
      if Drops(step) && w.Some? then m.owed + multiset{w.value.0}
      else if step.DropStep? then m.owed - multiset{step.key}
      else m.owed)
  }

  /** Every positive entry for a file has its object's size and mode, unless its invalidation is still owed. */
  ghost predicate CoherentButOwed(m: Machine) {
    forall k :: k in m.table && !m.table[k].negative && IsFile(k) && k !in m.owed ==>
      k in m.objects && Current(m.objects[k], m.table[k])
  }

  /** A machine at rest owes nothing: then this is coherence of files. */
  lemma AtRest(m: Machine, k: string)
    requires CoherentButOwed(m) && m.owed == multiset{}
    requires k in m.table && !m.table[k].negative && IsFile(k)
    ensures k in m.objects && m.table[k].size == |m.objects[k].data| && m.table[k].mode == ParseMode(m.objects[k].meta, false)
  {
    hide ParseMode;
    assert k !in m.owed;
  }

  // ----- One step -----

  /** What is known of the object is still so. */
  ghost predicate LookFits(m: Machine, look: Look) {
    look.key in m.objects && |m.objects[look.key].data| == look.size &&
    ParseMode(m.objects[look.key].meta, false) == look.mode
  }

  /** The two objects exist and look alike. */
  predicate BothLike(a: Option<Object>, b: Option<Object>) {
    a.Some? && b.Some? && LooksLike(a.value, b.value)
  }

  /** The step fits the state: see Scheduled for what that takes of a run. */
  ghost predicate Fits(m: Machine, step: Step)
    requires Enabled(m, step)
  {
    match step
    case CacheStep(id, _, _) =>
      m.looks[id].key !in m.owed ==> LookFits(m, m.looks[id])
    case WriteStep(_, key, after, false) =>
      IsFile(key) && key !in m.owed && key in m.table && !m.table[key].negative ==> BothLike(At(m.objects, key), after)
    case _ => true
  }

  lemma OwedOthers(owed: multiset<string>, key: string)
    ensures forall k :: k != key ==> (k in owed + multiset{key} <==> k in owed) && (k in owed - multiset{key} <==> k in owed)
    ensures key in owed + multiset{key}
  {
  }

  lemma StepFits(m: Machine, step: Step)
    requires CoherentButOwed(m) && Enabled(m, step)
    ensures CoherentButOwed(Next(m, step)) <==> Fits(m, step)
  {
    hide CoherentButOwed, Next, Enabled;
    match step
    case CacheStep(_, _, _) => CacheFits(m, step);
    case WriteStep(_, _, _, _) => WriteFits(m, step);
    case RewriteStep(_, _, _, _) => RewriteFits(m, step);
    case _ => OtherFits(m, step);
  }

  lemma CacheFits(m: Machine, step: Step)
    requires CoherentButOwed(m) && Enabled(m, step) && step.CacheStep?
    ensures CoherentButOwed(Next(m, step)) <==> Fits(m, step)
  {
    hide ParseMode, HasSlashSuffix;
    assert Next(m, step).table[m.looks[step.id].key] == CachedLook(m.looks[step.id], step.inode, step.now);
  }

  lemma WriteFits(m: Machine, step: Step)
    requires CoherentButOwed(m) && Enabled(m, step) && step.WriteStep?
    ensures CoherentButOwed(Next(m, step)) <==> Fits(m, step)
  {
    hide ParseMode, HasSlashSuffix, LookOf;
    OwedOthers(m.owed, step.key);
  }

  lemma RewriteFits(m: Machine, step: Step)
    requires CoherentButOwed(m) && Enabled(m, step) && step.RewriteStep?
    ensures CoherentButOwed(Next(m, step))
  {
    hide ParseMode, HasSlashSuffix, Edited, Current;
    OwedOthers(m.owed, m.looks[step.id].key);
  }

  lemma OtherFits(m: Machine, step: Step)
    requires CoherentButOwed(m) && Enabled(m, step) && !step.CacheStep? && !step.WriteStep? && !step.RewriteStep?
    ensures CoherentButOwed(Next(m, step))
  {
    hide ParseMode, HasSlashSuffix, LookMade, By, Current;
    if step.DropStep? {
      OwedOthers(m.owed, step.key);
    }
  }

  // ----- Runs -----

  /** The machine after a run from a bucket and an empty cache; steps that are not enabled are passed over. */
  ghost function After(objects: Objects, run: seq<Step>): Machine {
    if run == [] then Machine(objects, map[], map[], map[], multiset{})
    else
      var m := After(objects, run[..|run| - 1]);
      if Enabled(m, run[|run| - 1]) then Next(m, run[|run| - 1]) else m
  }

  /** The step of index n is taken. */
  ghost predicate Taken(objects: Objects, run: seq<Step>, n: nat)
    requires n < |run|
  {
    Enabled(After(objects, run[..n]), run[n])
  }

  /** What the last write of `key` among the steps from index `from` on left there; None if there is no such write. */
  ghost function WrittenSince(objects: Objects, run: seq<Step>, from: nat, key: string): Option<Option<Object>> {
    if |run| <= from then None
    else
      var n := |run| - 1;
      var w := if Taken(objects, run, n) then Written(After(objects, run[..n]), run[n]) else None;
      if w.Some? && w.value.0 == key then Some(w.value.1) else WrittenSince(objects, run[..n], from, key)
  }

  /** How many invalidations of `key` are owed: one for each write that drops, less those made. */
  ghost function Owing(objects: Objects, run: seq<Step>, key: string): int {
    if run == [] then 0
    else
      var n := |run| - 1;
      var w := if Taken(objects, run, n) then Written(After(objects, run[..n]), run[n]) else None;
      Owing(objects, run[..n], key) +
      (if w.Some? && w.value.0 == key && Drops(run[n]) then 1
       else if run[n] == DropStep(key) && Taken(objects, run, n) then -1 else 0)
  }

  /** The last step by which operation `id` came to know something, or used it up. */
  ghost function LookIndex(objects: Objects, run: seq<Step>, id: nat): nat {
    if run == [] then 0
    else
      var n := |run| - 1;
      if By(run[n]) == Some(id) && Taken(objects, run, n) then n else LookIndex(objects, run[..n], id)
  }

  /** The last listing of operation `id`. */
  ghost function ListIndex(run: seq<Step>, id: nat): nat {
    if run == [] then 0 else if run[|run| - 1] == ListStep(id) then |run| - 1 else ListIndex(run[..|run| - 1], id)
  }

  // ----- What the schedule says -----

  /** The mode a Readdir gives a listed file. */
  function ModeGiven(head: Option<Object>, ok: bool): nat {
    if ok && head.Some? then ParseMode(head.value.meta, false) else DEFAULT_FILE_MODE
  }

  predicate HasSize(o: Option<Object>, size: nat) {
    o.Some? && |o.value.data| == size
  }

  predicate HasMode(o: Option<Object>, mode: nat) {
    o.Some? && ParseMode(o.value.meta, false) == mode
  }

  /**
   * What operation `id` knows is still so, as the schedule shows: the object has not been written since the operation
   * looked, or the last write left one of the same size and mode. For a Readdir the size counts from its listing, and the
   * mode from its HeadObject; one that failed is right for the default mode.
   */
  ghost predicate StillSo(objects: Objects, run: seq<Step>, id: nat) {
    var h := LookIndex(objects, run, id);
    h < |run| &&
    match run[h]
    case HeadStep(_, key) =>
      var last := WrittenSince(objects, run, h + 1, key);
      last.None? || BothLike(last.value, At(After(objects, run[..h]).objects, key))
    case WriteStep(_, key, after, _) =>
      var last := WrittenSince(objects, run, h + 1, key);
      last.None? || BothLike(last.value, after)
    case ListedHeadStep(_, key, ok) =>
      var l := ListIndex(run[..h], id);
      var sized, moded := WrittenSince(objects, run, l + 1, key), WrittenSince(objects, run, h + 1, key);
      var head := At(After(objects, run[..h]).objects, key);
      && l <= h && key in After(objects, run[..l]).objects
      && (sized.None? || HasSize(sized.value, |After(objects, run[..l]).objects[key].data|))
      && (if moded.None? then ok || HasMode(head, DEFAULT_FILE_MODE) else HasMode(moded.value, ModeGiven(head, ok)))
    case _ => false
  }

  /** The key operation `id` is at. */
  ghost function KeyAt(m: Machine, id: nat): string {
    if id in m.looks then m.looks[id].key else ""
  }

  /**
   * Step n of the run is in time. A cachePut is, if what it stores is still so or an invalidation of the key is owed. A
   * write that owes none is, if the key has no entry, or is owed one by another, or the object it leaves looks like the
   * one it replaces.
   */
  ghost predicate Scheduled(objects: Objects, run: seq<Step>, n: nat)
    requires n < |run|
  {
    var before := run[..n];
    var m := After(objects, before);
    Taken(objects, run, n) ==>
      match run[n]
      case CacheStep(id, _, _) =>
        Owing(objects, before, KeyAt(m, id)) > 0 || StillSo(objects, before, id)
      case WriteStep(_, key, after, false) =>
        || !IsFile(key) || Owing(objects, before, key) > 0 || key !in m.table || m.table[key].negative
        || BothLike(At(m.objects, key), after)
      case _ => true
  }

  ghost predicate AlwaysCoherent(objects: Objects, run: seq<Step>) {
    forall n :: 0 <= n <= |run| ==> CoherentButOwed(After(objects, run[..n]))
  }

  /** The last write of a key decides what is there; without one it is what was there. */
  lemma {:induction false} SinceHolds(objects: Objects, run: seq<Step>, from: nat, key: string)
    requires from <= |run|
    ensures var last := WrittenSince(objects, run, from, key);
            At(After(objects, run).objects, key) ==
            if last.Some? then last.value else At(After(objects, run[..from]).objects, key)
    decreases |run|
  {
    if from == |run| {
      assert run[..from] == run;
    } else {
      var n := |run| - 1;
      SinceHolds(objects, run[..n], from, key);
      assert run[..n][..from] == run[..from];
      OneStepAt(objects, run, key);
    }
  }

  lemma OneStepAt(objects: Objects, run: seq<Step>, key: string)
    requires run != []
    ensures var n := |run| - 1;
            var w := if Taken(objects, run, n) then Written(After(objects, run[..n]), run[n]) else None;
            At(After(objects, run).objects, key) ==
            if w.Some? && w.value.0 == key then w.value.1 else At(After(objects, run[..n]).objects, key)
  {
    hide Written, LookMade, Drops, By, CachedLook, Enabled;
  }

  lemma {:induction false} OwingIsOwed(objects: Objects, run: seq<Step>, key: string)
    ensures After(objects, run).owed[key] == Owing(objects, run, key)
    decreases |run|
  {
    if run == [] {
    } else {
      OwingIsOwed(objects, run[..|run| - 1], key);
      OneStepOwed(objects, run, key);
    }
  }

  lemma OneStepOwed(objects: Objects, run: seq<Step>, key: string)
    requires run != []
    ensures var n := |run| - 1;
            var m := After(objects, run[..n]);
            var w := if Taken(objects, run, n) then Written(m, run[n]) else None;
            After(objects, run).owed[key] ==
            m.owed[key] + (if w.Some? && w.value.0 == key && Drops(run[n]) then 1
                           else if run[n] == DropStep(key) && Taken(objects, run, n) then -1 else 0)
  {
    hide LookMade, By, CachedLook, With, Edited;
  }

  /** What an operation knows is what its last look let it know. */
  lemma {:induction false} LookFrom(objects: Objects, run: seq<Step>, id: nat)
    requires id in After(objects, run).looks
    ensures var h := LookIndex(objects, run, id);
            && h < |run| && By(run[h]) == Some(id) && Taken(objects, run, h)
            && LookMade(After(objects, run[..h]), run[h]) == Some(After(objects, run).looks[id])
    decreases |run|
  {
    hide Written, LookMade, Drops, CachedLook, Enabled, By;
    var n := |run| - 1;
    var before := run[..n];
    if !(By(run[n]) == Some(id) && Taken(objects, run, n)) {
      LookFrom(objects, before, id);
      assert before[..LookIndex(objects, before, id)] == run[..LookIndex(objects, before, id)];
    }
  }

  lemma {:induction false} ListFrom(objects: Objects, run: seq<Step>, id: nat)
    requires id in After(objects, run).lists
    ensures var l := ListIndex(run, id);
            l < |run| && run[l] == ListStep(id) && After(objects, run).lists[id] == After(objects, run[..l]).objects
    decreases |run|
  {
    hide Written, LookMade, Drops, CachedLook, By;
    var n := |run| - 1;
    if run[n] != ListStep(id) {
      ListFrom(objects, run[..n], id);
      assert run[..n][..ListIndex(run[..n], id)] == run[..ListIndex(run[..n], id)];
    }
  }

  /** The schedule tells exactly whether what an operation knows is still so. */
  lemma {:induction false} StillSoIff(objects: Objects, run: seq<Step>, id: nat)
    requires id in After(objects, run).looks
    ensures StillSo(objects, run, id) <==> LookFits(After(objects, run), After(objects, run).looks[id])
  {
    hide After, WrittenSince, ParseMode, HasSlashSuffix;
    LookFrom(objects, run, id);
    var h := LookIndex(objects, run, id);
    hide LookIndex;
    match run[h]
    case HeadStep(_, key) =>
      SinceHolds(objects, run, h + 1, key);
      QuietAt(objects, run, h, key);
    case WriteStep(_, key, after, _) =>
      SinceHolds(objects, run, h + 1, key);
      WrittenAt(objects, run, h, key);
    case ListedHeadStep(_, key, ok) => ListedStillSoIff(objects, run, id, h, key, ok);
    case _ =>
  }

  /** A step that writes nothing leaves every object as it was. */
  lemma QuietAt(objects: Objects, run: seq<Step>, h: nat, key: string)
    requires h < |run| && !run[h].WriteStep? && !run[h].RewriteStep?
    ensures At(After(objects, run[..h + 1]).objects, key) == At(After(objects, run[..h]).objects, key)
  {
    hide LookMade, By, CachedLook, Edited;
    assert run[..h + 1][..h] == run[..h];
  }

  lemma WrittenAt(objects: Objects, run: seq<Step>, h: nat, key: string)
    requires h < |run| && run[h].WriteStep? && run[h].key == key
    ensures At(After(objects, run[..h + 1]).objects, key) == run[h].after
  {
    hide LookMade, By, CachedLook, Edited;
    assert run[..h + 1][..h] == run[..h];
  }

  lemma {:induction false} ListedStillSoIff(objects: Objects, run: seq<Step>, id: nat, h: nat, key: string, ok: bool)
    requires id in After(objects, run).looks && h == LookIndex(objects, run, id) && h < |run|
    requires run[h] == ListedHeadStep(id, key, ok) && Taken(objects, run, h)
    requires LookMade(After(objects, run[..h]), run[h]) == Some(After(objects, run).looks[id])
    ensures StillSo(objects, run, id) <==> LookFits(After(objects, run), After(objects, run).looks[id])
  {
    hide After, WrittenSince, HasSlashSuffix, LookIndex, ListIndex;
    NoMeta();
    hide ParseMode;
    var l := ListIndex(run[..h], id);
    ListFrom(objects, run[..h], id);
    assert run[..h][..l] == run[..l] && run[l] == ListStep(id);
    SinceHolds(objects, run, l + 1, key);
    QuietAt(objects, run, l, key);
    SinceHolds(objects, run, h + 1, key);
    QuietAt(objects, run, h, key);
  }

  lemma NoMeta()
    ensures ParseMode(map[], false) == DEFAULT_FILE_MODE
  {
  }

  /**
   * In every interleaving, with Readdir's mixture of listed sizes and later modes, the cache is coherent at every point,
   * invalidations still owed apart, if and only if every step is in time, which the schedule shows.
   */
  lemma {:induction false} CoherentIffScheduled(objects: Objects, run: seq<Step>)
    ensures AlwaysCoherent(objects, run) <==> forall n :: 0 <= n < |run| ==> Scheduled(objects, run, n)
    decreases |run|
  {
    hide After, CoherentButOwed, Scheduled;
    if run == [] {
      StartCoherent(objects);
    } else {
      var before, n := run[..|run| - 1], |run| - 1;
      CoherentIffScheduled(objects, before);
      assert forall i :: 0 <= i <= n ==> before[..i] == run[..i];
      assert run[..|run|] == run && before[..n] == before;
      forall i | 0 <= i < n ensures Scheduled(objects, before, i) <==> Scheduled(objects, run, i) {
        SameTime(objects, run, i);
      }
      if AlwaysCoherent(objects, before) {
        LastCoherent(objects, run);
      }
    }
  }

  lemma StartCoherent(objects: Objects)
    ensures CoherentButOwed(After(objects, []))
  {
  }

  lemma SameTime(objects: Objects, run: seq<Step>, i: nat)
    requires i < |run| - 1
    ensures Scheduled(objects, run[..|run| - 1], i) <==> Scheduled(objects, run, i)
  {
    hide After, StillSo, Owing;
    assert run[..|run| - 1][..i] == run[..i];
  }

  lemma {:induction false} LastCoherent(objects: Objects, run: seq<Step>)
    requires run != [] && CoherentButOwed(After(objects, run[..|run| - 1]))
    ensures CoherentButOwed(After(objects, run)) <==> Scheduled(objects, run, |run| - 1)
  {
    hide CoherentButOwed, Next, Fits, Scheduled, Enabled;
    var n := |run| - 1;
    if Enabled(After(objects, run[..n]), run[n]) {
      StepFits(After(objects, run[..n]), run[n]);
      FitsIffScheduled(objects, run);
    } else {
      PassedOver(objects, run);
    }
  }

  lemma PassedOver(objects: Objects, run: seq<Step>)
    requires run != [] && !Taken(objects, run, |run| - 1)
    ensures Scheduled(objects, run, |run| - 1)
  {
    hide After, StillSo, Owing;
  }

  lemma {:induction false} FitsIffScheduled(objects: Objects, run: seq<Step>)
    requires run != [] && Taken(objects, run, |run| - 1)
    ensures Fits(After(objects, run[..|run| - 1]), run[|run| - 1]) <==> Scheduled(objects, run, |run| - 1)
  {
    hide After, StillSo, Owing, LookFits, HasSlashSuffix, LooksLike;
    var before, step := run[..|run| - 1], run[|run| - 1];
    if step.CacheStep? {
      StillSoIff(objects, before, step.id);
      OwingIsOwed(objects, before, KeyAt(After(objects, before), step.id));
    } else if step.WriteStep? {
      OwingIsOwed(objects, before, step.key);
    }
  }

  // ----- Schedules -----

  /**
   * A lookup whose object is not written after its HeadObject is in time, whatever else runs beside it; a Readdir's, if
   * it is not written after the listing and its HeadObject did not fail.
   */
  lemma {:induction false} UndisturbedInTime(objects: Objects, run: seq<Step>, id: nat, key: string)
    requires id in After(objects, run).looks
    requires var h := LookIndex(objects, run, id);
             h < |run| &&
             ((run[h] == HeadStep(id, key) && WrittenSince(objects, run, h + 1, key).None?) ||
              (run[h] == ListedHeadStep(id, key, true) && WrittenSince(objects, run, ListIndex(run[..h], id) + 1, key).None?))
    ensures StillSo(objects, run, id)
  {
    hide After, WrittenSince, ParseMode, HasSlashSuffix;
    var h := LookIndex(objects, run, id);
    LookFrom(objects, run, id);
    hide LookIndex;
    if run[h].ListedHeadStep? {
      var l := ListIndex(run[..h], id);
      ListFrom(objects, run[..h], id);
      assert run[..h][..l] == run[..l];
      FewerSince(objects, run, l + 1, h + 1, key);
    }
  }

  lemma {:induction false} FewerSince(objects: Objects, run: seq<Step>, from: nat, later: nat, key: string)
    requires from <= later && WrittenSince(objects, run, from, key).None?
    ensures WrittenSince(objects, run, later, key).None?
    decreases |run|
  {
    hide After, Taken;
    if |run| > later {
      FewerSince(objects, run[..|run| - 1], from, later, key);
    }
  }

  lemma OneMore(objects: Objects, run: seq<Step>, step: Step)
    ensures After(objects, run + [step]) ==
            (if Enabled(After(objects, run), step) then Next(After(objects, run), step) else After(objects, run))
  {
    assert (run + [step])[..|run|] == run;
  }

  // What each kind of step does to the machine.

  lemma AfterWrite(objects: Objects, run: seq<Step>, id: nat, key: string, o: Option<Object>, drops: bool)
    ensures var m, m' := After(objects, run), After(objects, run + [WriteStep(id, key, o, drops)]);
            && m'.objects == With(m.objects, key, o) && m'.table == m.table && m'.lists == m.lists
            && m'.looks == (if o.Some? then m.looks[id := LookOf(key, o.value)] else m.looks - {id})
            && m'.owed == if drops then m.owed + multiset{key} else m.owed
  {
    hide After, LookOf;
    OneMore(objects, run, WriteStep(id, key, o, drops));
  }

  lemma AfterHead(objects: Objects, run: seq<Step>, id: nat, key: string)
    requires key in After(objects, run).objects
    ensures var m := After(objects, run);
            After(objects, run + [HeadStep(id, key)]) == m.(looks := m.looks[id := LookOf(key, m.objects[key])])
  {
    hide After, LookOf;
    OneMore(objects, run, HeadStep(id, key));
  }

  lemma AfterDrop(objects: Objects, run: seq<Step>, key: string)
    requires key in After(objects, run).owed
    ensures var m := After(objects, run);
            After(objects, run + [DropStep(key)]) == m.(table := m.table - {key}, owed := m.owed - multiset{key})
  {
    hide After;
    OneMore(objects, run, DropStep(key));
  }

  lemma AfterCache(objects: Objects, run: seq<Step>, id: nat, inode: nat, now: int)
    requires id in After(objects, run).looks && IsFile(After(objects, run).looks[id].key)
    ensures var m := After(objects, run);
            After(objects, run + [CacheStep(id, inode, now)]) ==
            m.(table := m.table[m.looks[id].key := CachedLook(m.looks[id], inode, now)], looks := m.looks - {id})
  {
    hide After, HasSlashSuffix;
    OneMore(objects, run, CacheStep(id, inode, now));
  }

  lemma AfterRewrite(objects: Objects, run: seq<Step>, id: nat, sets: Meta, dels: set<string>, now: int)
    requires id in After(objects, run).looks && After(objects, run).looks[id].key in After(objects, run).objects
    ensures var m := After(objects, run);
            var look := m.looks[id];
            After(objects, run + [RewriteStep(id, sets, dels, now)]) ==
            m.(objects := m.objects[look.key := Object(m.objects[look.key].data, Edited(look.meta, sets, dels), now)],
               looks := m.looks - {id}, owed := m.owed + multiset{look.key})
  {
    hide After, Edited;
    OneMore(objects, run, RewriteStep(id, sets, dels, now));
  }

  lemma AfterList(objects: Objects, run: seq<Step>, id: nat)
    ensures var m := After(objects, run);
            After(objects, run + [ListStep(id)]) == m.(lists := m.lists[id := m.objects])
  {
    hide After;
    OneMore(objects, run, ListStep(id));
  }

  lemma AfterListedHead(objects: Objects, run: seq<Step>, id: nat, key: string, ok: bool)
    requires var m := After(objects, run); id in m.lists && key in m.lists[id] && IsFile(key)
    ensures var m := After(objects, run);
            var listed, meta := m.lists[id][key], if ok && key in m.objects then m.objects[key].meta else map[];
            After(objects, run + [ListedHeadStep(id, key, ok)]) ==
            m.(looks := m.looks[id := Look(key, |listed.data|, listed.modified, ParseMode(meta, false), meta)])
  {
    hide After, ParseMode, HasSlashSuffix;
    OneMore(objects, run, ListedHeadStep(id, key, ok));
  }

  lemma Nothing(objects: Objects)
    ensures After(objects, []) == Machine(objects, map[], map[], map[], multiset{})
  {
  }

  /** Another operation replaces the object, invalidates its entry and is done. */
  function Replace(key: string, after: Object): seq<Step> {
    [WriteStep(1, key, Some(after), true), DropStep(key)]
  }

  /** After that nothing is owed and the new object is there. */
  lemma Replaced(objects: Objects, run: seq<Step>, key: string, after: Object)
    requires After(objects, run).owed == multiset{}
    ensures var m := After(objects, run);
            After(objects, run + Replace(key, after)) ==
            m.(objects := m.objects[key := after], table := m.table - {key}, looks := m.looks[1 := LookOf(key, after)])
  {
    hide After, LookOf;
    var write, drop := WriteStep(1, key, Some(after), true), DropStep(key);
    AfterWrite(objects, run, 1, key, Some(after), true);
    AfterDrop(objects, run + [write], key);
    assert run + [write] + [drop] == run + Replace(key, after);
    assert multiset{} + multiset{key} - multiset{key} == multiset{};
  }

  /**
   * A Stat that has its reply when the object is replaced: the reply then goes to the cache, nothing is owed any more, and
   * the entry contradicts the bucket, exactly if the two versions of the object differ in size or mode.
   */
  lemma {:induction false} LateReplyStaleIff(objects: Objects, key: string, after: Object, inode: nat, now: int)
    requires key in objects && IsFile(key)
    ensures var m := After(objects, [HeadStep(0, key)] + Replace(key, after) + [CacheStep(0, inode, now)]);
            && m.owed == multiset{} && m.objects == objects[key := after]
            && key in m.table && !m.table[key].negative
            && (CoherentButOwed(m) <==> LooksLike(objects[key], after))
  {
    hide ParseMode, HasSlashSuffix, After, LooksLike, Current;
    Nothing(objects);
    AfterHead(objects, [], 0, key);
    assert [] + [HeadStep(0, key)] == [HeadStep(0, key)];
    Replaced(objects, [HeadStep(0, key)], key, after);
    AfterCache(objects, [HeadStep(0, key)] + Replace(key, after), 0, inode, now);
    var m := After(objects, [HeadStep(0, key)] + Replace(key, after) + [CacheStep(0, inode, now)]);
    assert m.table.Keys == {key} && m.table[key] == CachedLook(LookOf(key, objects[key]), inode, now);
    AloneCoherentIff(m, key);
    SameLook(objects[key], after, key, inode, now);
  }

  lemma AloneCoherentIff(m: Machine, key: string)
    requires m.table.Keys == {key} && !m.table[key].negative && IsFile(key) && m.owed == multiset{} && key in m.objects
    ensures CoherentButOwed(m) <==> Current(m.objects[key], m.table[key])
  {
    hide Current, HasSlashSuffix;
    assert key in m.table && key !in m.owed;
  }

  lemma SameLook(seen: Object, after: Object, key: string, inode: nat, now: int)
    ensures Current(after, CachedLook(LookOf(key, seen), inode, now)) <==> LooksLike(seen, after)
  {
    hide ParseMode;
  }

  /**
   * A Readdir whose object is replaced between its listing and its HeadObject: it caches the old size with the new mode,
   * though nothing is written between its HeadObject and its cachePut. The entry is right exactly if the size is the same.
   */
  lemma {:induction false} LateListingStaleIff(objects: Objects, key: string, after: Object, inode: nat, now: int)
    requires key in objects && IsFile(key)
    ensures var run := [ListStep(0)] + Replace(key, after) + [ListedHeadStep(0, key, true)] + [CacheStep(0, inode, now)];
            var m := After(objects, run);
            && m.owed == multiset{} && m.objects == objects[key := after]
            && key in m.table && !m.table[key].negative
            && (CoherentButOwed(m) <==> |objects[key].data| == |after.data|)
  {
    hide ParseMode, HasSlashSuffix, After;
    Nothing(objects);
    AfterList(objects, [], 0);
    assert [] + [ListStep(0)] == [ListStep(0)];
    Replaced(objects, [ListStep(0)], key, after);
    var listed := [ListStep(0)] + Replace(key, after);
    AfterListedHead(objects, listed, 0, key, true);
    AfterCache(objects, listed + [ListedHeadStep(0, key, true)], 0, inode, now);
    var m := After(objects, listed + [ListedHeadStep(0, key, true)] + [CacheStep(0, inode, now)]);
    assert m.table.Keys == {key};
    AloneCoherentIff(m, key);
  }

  // ----- Metadata written back -----

  /**
   * Chmod, Chown and the attribute operations read the metadata, edit it and write it back whole. The edit is made to
   * what the object has at that moment exactly if the object has not been written since the HeadObject, or the last
   * write differs only in what the edit overwrites.
   */
  lemma {:induction false} RewriteKeepsIff(objects: Objects, run: seq<Step>, id: nat, key: string, sets: Meta,
                                           dels: set<string>, now: int)
    requires Enabled(After(objects, run), RewriteStep(id, sets, dels, now))
    requires var h := LookIndex(objects, run, id); h < |run| && run[h] == HeadStep(id, key)
    ensures var m, h := After(objects, run), LookIndex(objects, run, id);
            var last := WrittenSince(objects, run, h + 1, key);
            && key in m.objects && key in After(objects, run[..h]).objects && (last.Some? ==> last.value.Some?)
            && var after := Next(m, RewriteStep(id, sets, dels, now)).objects;
               && key in after && after[key].data == m.objects[key].data
               && (after[key].meta == Edited(m.objects[key].meta, sets, dels) <==>
                   || last.None?
                   || Edited(last.value.value.meta, sets, dels) ==
                      Edited(After(objects, run[..h]).objects[key].meta, sets, dels))
  {
    hide After, WrittenSince, ParseMode, Edited, HasSlashSuffix;
    var h := LookIndex(objects, run, id);
    LookFrom(objects, run, id);
    hide LookIndex;
    SinceHolds(objects, run, h + 1, key);
    QuietAt(objects, run, h, key);
  }

  /**
   * Two such operations that have both read before either writes: what the first set and the second leaves alone is lost.
   */
  lemma {:induction false} LostUpdate(objects: Objects, key: string, sets: Meta, dels: set<string>, laterSets: Meta,
                                      laterDels: set<string>, name: string, now: int)
    requires key in objects && name in sets && name !in laterSets && name !in laterDels
    ensures var run := [HeadStep(0, key)] + [HeadStep(1, key)] + [RewriteStep(0, sets, dels, now)] +
                       [RewriteStep(1, laterSets, laterDels, now)];
            var after := After(objects, run).objects;
            && key in after && after[key].meta == Edited(objects[key].meta, laterSets, laterDels)
            && (name in after[key].meta && after[key].meta[name] == sets[name] <==>
                name in objects[key].meta && objects[key].meta[name] == sets[name])
  {
    hide After, ParseMode, HasSlashSuffix;
    Nothing(objects);
    AfterHead(objects, [], 0, key);
    assert [] + [HeadStep(0, key)] == [HeadStep(0, key)];
    var looked := [HeadStep(0, key)] + [HeadStep(1, key)];
    AfterHead(objects, [HeadStep(0, key)], 1, key);
    AfterRewrite(objects, looked, 0, sets, dels, now);
    AfterRewrite(objects, looked + [RewriteStep(0, sets, dels, now)], 1, laterSets, laterDels, now);
  }
}
