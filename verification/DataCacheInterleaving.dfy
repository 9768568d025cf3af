/**
 * The data cache under concurrency: Get, Put, Invalidate and evict cut at their lock boundaries, with files
 * that vanish and restarts. Any number of calls may be in flight.
 */
module DataCacheInterleaving {
  import opened Base
  import opened DataCaching

  /** A Get that has left its first critical section with a list element in hand. */
  datatype Reader = Reader(s3Key: string, etag: string, id: nat)

  /** A completed rename of a temporary file holding `data` into the place of (s3Key, etag). */
  datatype Placed = Placed(s3Key: string, etag: string, data: Bytes)

  datatype Machine = Machine(
    ix: Index,
    opening: multiset<Reader>,   // about to open the file
    failed: multiset<Reader>,    // failed to open it, about to clean the index up
    recording: multiset<Placed>, // renamed, about to update the index
    places: set<Placed>,         // every rename so far
    hits: seq<Placed>)           // every hit so far

  datatype Step =
    | ProbeStep(s3Key: string, etag: string, now: int)
    | OpenStep(reader: Reader)
    | CleanStep(reader: Reader)
    | PlaceStep(placed: Placed)
    | RecordStep(placed: Placed, now: int)
    | DiscardStep(id: nat)       // one removal by Invalidate or by either loop of evict
    | LoseStep(key: string)      // a file vanishes from the cache directory
    | RestartStep(listing: seq<string>, modTime: map<string, int>)

  function Name(s3Key: string, etag: string): string {
    CacheKey(s3Key, etag)
  }

  /** The step is one the machine can take now. */
  ghost predicate Enabled(m: Machine, step: Step) {
    match step
    case ProbeStep(_, _, _) => true
    case OpenStep(r) => r in m.opening
    case CleanStep(r) => r in m.failed
    case PlaceStep(_) => true
    case RecordStep(p, _) => p in m.recording
    case DiscardStep(id) => id in m.ix.order
    case LoseStep(_) => true
    case RestartStep(listing, modTime) => Scannable(m.ix.disk, listing, modTime)
  }

  ghost function Next(cfg: Config, m: Machine, step: Step): Machine
    requires Enabled(m, step) && Sane(m)
  {
    match step
    case ProbeStep(k, e, now) =>
      var (ix, found) := Probe(cfg, m.ix, Name(k, e), now);
      m.(ix := ix, opening := m.opening + if found.Some? then multiset{Reader(k, e, found.value)} else multiset{})
    case OpenStep(r) =>
      var m' := m.(opening := m.opening - multiset{r});
      if Name(r.s3Key, r.etag) in m.ix.disk then
        m'.(hits := m.hits + [Placed(r.s3Key, r.etag, m.ix.disk[Name(r.s3Key, r.etag)])])
      else
        m'.(failed := m.failed + multiset{r})
    case CleanStep(r) =>
      m.(failed := m.failed - multiset{r}, ix := Unlink(m.ix, r.id, Name(r.s3Key, r.etag)))
    case PlaceStep(p) =>
      m.(ix := m.ix.(disk := m.ix.disk[Name(p.s3Key, p.etag) := p.data]),
         recording := m.recording + multiset{p}, places := m.places + {p})
    case RecordStep(p, now) =>
      m.(recording := m.recording - multiset{p},
         ix := Record(m.ix, Name(p.s3Key, p.etag), p.s3Key, |p.data|, now))
    case DiscardStep(id) =>
      var key := m.ix.elems[id].key;
      m.(ix := Unlink(m.ix.(disk := m.ix.disk - {key}), id, key))
    case LoseStep(key) => m.(ix := m.ix.(disk := m.ix.disk - {key}))
    case RestartStep(listing, modTime) =>
      Machine(Scanned(m.ix.disk, listing, modTime, |listing|), multiset{}, multiset{}, multiset{}, m.places, m.hits)
  }

  /** The index points at linked elements, and the elements readers hold exist under the readers' keys. */
  ghost predicate Sane(m: Machine) {
    && Pointing(m.ix)
    && (forall r :: r in m.opening || r in m.failed ==>
          r.id in m.ix.elems && m.ix.elems[r.id].key == Name(r.s3Key, r.etag))
  }

  /** `p` is a file content that was renamed into the place named `key`. */
  ghost predicate CameFrom(m: Machine, key: string, data: Bytes) {
    exists p :: p in m.places && Name(p.s3Key, p.etag) == key && p.data == data
  }

  /** Every file is a whole put of its own name, and so was everything a hit returned. */
  ghost predicate WholeFiles(m: Machine) {
    && (forall key :: key in m.ix.disk ==> CameFrom(m, key, m.ix.disk[key]))
    && (forall n :: 0 <= n < |m.hits| ==> CameFrom(m, Name(m.hits[n].s3Key, m.hits[n].etag), m.hits[n].data))
  }

  const Start := Machine(Index(map[], 0, map[], [], 0, map[]), multiset{}, multiset{}, multiset{}, {}, [])

  // ----- One step -----

  lemma StaleUnlinkPoints(s: Index, id: nat)
    requires Pointing(s) && id in s.elems && id !in s.order
    ensures Pointing(Unlink(s, id, s.elems[id].key)) && Unlink(s, id, s.elems[id].key).order == s.order
  {
    WithoutNothing(s.order, {id});
  }

  lemma CleanSane(m: Machine, r: Reader)
    requires Sane(m) && r in m.failed
    ensures Pointing(Unlink(m.ix, r.id, Name(r.s3Key, r.etag)))
  {
    if r.id in m.ix.order {
      UnlinkPointing(m.ix, r.id);
    } else {
      StaleUnlinkPoints(m.ix, r.id);
    }
  }

  lemma NextPoints(cfg: Config, m: Machine, step: Step)
    requires Sane(m) && Enabled(m, step)
    ensures Pointing(Next(cfg, m, step).ix)
  {
    hide Without;
    var ix := m.ix;
    match step
    case ProbeStep(k, e, now) => ProbePoints(cfg, ix, Name(k, e), now);
    case OpenStep(r) =>
    case CleanStep(r) => CleanSane(m, r);
    case PlaceStep(p) =>
    case RecordStep(p, now) => RecordKeeps(ix, Name(p.s3Key, p.etag), p.s3Key, |p.data|, now, now);
    case DiscardStep(id) => UnlinkPointing(ix.(disk := ix.disk - {ix.elems[id].key}), id);
    case LoseStep(key) =>
    case RestartStep(listing, modTime) =>
      ScannedAccounted(ix.disk, listing, modTime, |listing|);
  }

  lemma ProbePoints(cfg: Config, ix: Index, key: string, now: int)
    requires Pointing(ix)
    ensures Pointing(Probe(cfg, ix, key, now).0)
  {
    hide Without;
    if key in ix.items {
      var id := ix.items[key];
      if Stale(cfg, ix.elems[id], now) {
        UnlinkPointing(ix.(disk := ix.disk - {key}), id);
      } else {
        RefreshPointing(ix, id, ix.elems[id].size, now);
      }
    }
  }

  lemma ProbeFinds(cfg: Config, ix: Index, key: string, now: int)
    requires Pointing(ix)
    ensures var (ix', found) := Probe(cfg, ix, key, now);
            found.Some? ==> found.value in ix'.elems && ix'.elems[found.value].key == key
  {
    hide Without;
  }

  /** Elements are never renamed or forgotten while the process lives. */
  lemma ElementsStay(cfg: Config, m: Machine, step: Step)
    requires Sane(m) && Enabled(m, step) && !step.RestartStep?
    ensures forall id :: id in m.ix.elems ==>
              id in Next(cfg, m, step).ix.elems && Next(cfg, m, step).ix.elems[id].key == m.ix.elems[id].key
  {
    hide Without;
  }

  lemma NextSane(cfg: Config, m: Machine, step: Step)
    requires Sane(m) && Enabled(m, step)
    ensures Sane(Next(cfg, m, step))
  {
    hide Without, Total, Pointing, ScannedFiles;
    NextPoints(cfg, m, step);
    if !step.RestartStep? {
      ElementsStay(cfg, m, step);
      ReadersHold(cfg, m, step);
    }
  }

  /** A reader is an old one, or the one whose probe has just found its element. */
  lemma ReadersHold(cfg: Config, m: Machine, step: Step)
    requires Sane(m) && Enabled(m, step) && !step.RestartStep?
    ensures var m' := Next(cfg, m, step);
            forall r :: (r in m'.opening || r in m'.failed) && !(r in m.opening || r in m.failed) ==>
              r.id in m'.ix.elems && m'.ix.elems[r.id].key == Name(r.s3Key, r.etag)
  {
    hide Without, Unlink, Record, Pointing;
    if step.ProbeStep? {
      ProbeFinds(cfg, m.ix, Name(step.s3Key, step.etag), step.now);
      hide Probe;
    }
  }

  lemma DiskAfter(cfg: Config, m: Machine, step: Step)
    requires Sane(m) && Enabled(m, step)
    ensures forall key :: key in Next(cfg, m, step).ix.disk ==>
              || (key in m.ix.disk && Next(cfg, m, step).ix.disk[key] == m.ix.disk[key])
              || (step.PlaceStep? && key == Name(step.placed.s3Key, step.placed.etag) &&
                  Next(cfg, m, step).ix.disk[key] == step.placed.data)
  {
    hide Without, Next;
    if step.RestartStep? {
      RestartKeepsDisk(cfg, m, step);
    } else {
      StepOnDisk(cfg, m, step);
    }
  }

  lemma RestartKeepsDisk(cfg: Config, m: Machine, step: Step)
    requires Sane(m) && Enabled(m, step) && step.RestartStep?
    ensures Next(cfg, m, step).ix.disk == m.ix.disk
  {
    hide Without, Pointing;
    ScannedDisk(m.ix.disk, step.listing, step.modTime, |step.listing|);
  }

  lemma StepOnDisk(cfg: Config, m: Machine, step: Step)
    requires Sane(m) && Enabled(m, step) && !step.RestartStep?
    ensures var disk := Next(cfg, m, step).ix.disk;
            if step.PlaceStep? then disk == m.ix.disk[Name(step.placed.s3Key, step.placed.etag) := step.placed.data]
            else SubMap(disk, m.ix.disk)
  {
    hide Without, Unlink, Refresh, Record, Probe, Scanned, Name;
    var ix := m.ix;
    match step
    case ProbeStep(k, e, now) => ProbeOnDisk(cfg, ix, Name(k, e), now);
    case CleanStep(r) => UnlinkOnDisk(ix, r.id, Name(r.s3Key, r.etag));
    case RecordStep(p, now) => RecordOnDisk(ix, Name(p.s3Key, p.etag), p.s3Key, |p.data|, now);
    case DiscardStep(id) => UnlinkOnDisk(ix.(disk := ix.disk - {ix.elems[id].key}), id, ix.elems[id].key);
    case _ =>
  }

  lemma UnlinkOnDisk(ix: Index, id: nat, key: string)
    requires id in ix.elems
    ensures Unlink(ix, id, key).disk == ix.disk
  {
  }

  lemma RecordOnDisk(ix: Index, key: string, s3Key: string, written: nat, now: int)
    requires Pointing(ix)
    ensures Record(ix, key, s3Key, written, now).disk == ix.disk
  {
    hide Without;
  }

  lemma ProbeOnDisk(cfg: Config, ix: Index, key: string, now: int)
    requires Pointing(ix)
    ensures SubMap(Probe(cfg, ix, key, now).0.disk, ix.disk)
  {
    hide Without;
  }

  lemma {:induction false} ScannedDisk(files: map<string, Bytes>, listing: seq<string>, modTime: map<string, int>, n: nat)
    requires n <= |listing| && Scannable(files, listing, modTime)
    ensures ScannedFiles(files, listing, modTime, n).disk == files
  {
    if n == 0 {
    } else {
      ScannedDisk(files, listing, modTime, n - 1);
    }
  }

  lemma NextWhole(cfg: Config, m: Machine, step: Step)
    requires Sane(m) && Enabled(m, step) && WholeFiles(m)
    ensures WholeFiles(Next(cfg, m, step))
  {
    hide Without, Pointing;
    var m' := Next(cfg, m, step);
    assert m.places <= m'.places;
    forall key, data | CameFrom(m, key, data) ensures CameFrom(m', key, data) {
      var p :| p in m.places && Name(p.s3Key, p.etag) == key && p.data == data;
      assert p in m'.places;
    }
    DiskAfter(cfg, m, step);
    forall key | key in m'.ix.disk ensures CameFrom(m', key, m'.ix.disk[key]) {
      if !(key in m.ix.disk && m'.ix.disk[key] == m.ix.disk[key]) {
        assert step.placed in m'.places;
      }
    }
    forall n | 0 <= n < |m'.hits| ensures CameFrom(m', Name(m'.hits[n].s3Key, m'.hits[n].etag), m'.hits[n].data) {
      if n < |m.hits| {
        assert m'.hits[n] == m.hits[n];
      }
    }
  }

  // ----- Runs -----

  ghost function After(cfg: Config, run: seq<Step>): Machine {
    if run == [] then Start
    else
      var m := After(cfg, run[..|run| - 1]);
      if Sane(m) && Enabled(m, run[|run| - 1]) then Next(cfg, m, run[|run| - 1]) else m
  }

  lemma {:induction false} RunWhole(cfg: Config, run: seq<Step>)
    ensures Sane(After(cfg, run)) && WholeFiles(After(cfg, run))
    decreases |run|
  {
    if run == [] {
    } else {
      var before := run[..|run| - 1];
      RunWhole(cfg, before);
      var m := After(cfg, before);
      if Enabled(m, run[|run| - 1]) {
        NextSane(cfg, m, run[|run| - 1]);
        NextWhole(cfg, m, run[|run| - 1]);
      }
    }
  }

  /** In every interleaving, with lost files and restarts, a hit returns the whole of one single put of its name. */
  lemma {:induction false} HitsAreWholePuts(cfg: Config, run: seq<Step>)
    ensures forall h :: h in After(cfg, run).hits ==>
              exists p :: p in After(cfg, run).places && p.data == h.data &&
                          CacheKey(p.s3Key, p.etag) == CacheKey(h.s3Key, h.etag)
  {
    hide After, Sane;
    RunWhole(cfg, run);
    forall h | h in After(cfg, run).hits
      ensures exists p :: p in After(cfg, run).places && p.data == h.data &&
                          CacheKey(p.s3Key, p.etag) == CacheKey(h.s3Key, h.etag)
    {
      assert CameFrom(After(cfg, run), Name(h.s3Key, h.etag), h.data);
    }
  }

  /** The step taken after a run. */
  lemma OneMore(cfg: Config, run: seq<Step>, step: Step)
    requires Enabled(After(cfg, run), step)
    ensures Sane(After(cfg, run)) && After(cfg, run + [step]) == Next(cfg, After(cfg, run), step)
  {
    RunWhole(cfg, run);
    assert (run + [step])[..|run|] == run;
  }

  // ----- Transparency -----

  /** The object each (key, ETag) pair stands for. */
  type Objects = map<(string, string), Bytes>

  /** The run puts only whole objects: every fetch that fills the cache starts at 0 and is complete. */
  ghost predicate PutsWholeObjects(run: seq<Step>, objects: Objects) {
    forall n :: 0 <= n < |run| && run[n].PlaceStep? ==>
      var p := run[n].placed;
      (p.s3Key, p.etag) in objects && objects[(p.s3Key, p.etag)] == p.data
  }

  /** Pairs that run together to the same name stand for the same bytes. */
  ghost predicate NamesTellApart(objects: Objects) {
    forall a, b :: a in objects && b in objects && CacheKey(a.0, a.1) == CacheKey(b.0, b.1) ==> objects[a] == objects[b]
  }

  /** Every hit for a pair in use is the pair's object. */
  ghost predicate Transparent(cfg: Config, run: seq<Step>, objects: Objects) {
    forall h :: h in After(cfg, run).hits && (h.s3Key, h.etag) in objects ==> h.data == objects[(h.s3Key, h.etag)]
  }

  lemma PlacesNext(cfg: Config, m: Machine, step: Step)
    requires Sane(m) && Enabled(m, step)
    ensures Next(cfg, m, step).places == m.places + if step.PlaceStep? then {step.placed} else {}
  {
    hide Probe, Record, Unlink, Scanned, Pointing;
  }

  lemma {:induction false} PlacesFromRun(cfg: Config, run: seq<Step>)
    ensures forall p :: p in After(cfg, run).places ==> PlaceStep(p) in run
    decreases |run|
  {
    hide Next, Enabled, Sane;
    if run == [] {
    } else {
      var before, last := run[..|run| - 1], run[|run| - 1];
      PlacesFromRun(cfg, before);
      assert run == before + [last];
      if Sane(After(cfg, before)) && Enabled(After(cfg, before), last) {
        PlacesNext(cfg, After(cfg, before), last);
      }
    }
  }

  /**
   * Shared-cache transparency: if the run puts only whole objects and names tell them apart, then over all
   * interleavings of readers, versions, evictions and restarts every hit for a pair in use is its object.
   */
  lemma {:induction false} CachedReadsAreObjects(cfg: Config, run: seq<Step>, objects: Objects)
    requires PutsWholeObjects(run, objects) && NamesTellApart(objects)
    ensures Transparent(cfg, run, objects)
  {
    hide After;
    HitsAreWholePuts(cfg, run);
    PlacesFromRun(cfg, run);
    forall h | h in After(cfg, run).hits && (h.s3Key, h.etag) in objects
      ensures h.data == objects[(h.s3Key, h.etag)]
    {
      var p :| p in After(cfg, run).places && p.data == h.data && CacheKey(p.s3Key, p.etag) == CacheKey(h.s3Key, h.etag);
      var i :| 0 <= i < |run| && run[i] == PlaceStep(p);
      assert run[i].placed == p;
    }
  }

  /**
   * The condition is exact: every run that puts only whole objects is transparent if and only if no two pairs in use
   * run together to one name while standing for different bytes.
   */
  lemma {:induction false} TransparentIff(cfg: Config, objects: Objects)
    ensures (forall run: seq<Step> :: PutsWholeObjects(run, objects) ==> Transparent(cfg, run, objects))
            <==> NamesTellApart(objects)
  {
    hide After;
    if NamesTellApart(objects) {
      forall run: seq<Step> | PutsWholeObjects(run, objects) ensures Transparent(cfg, run, objects) {
        CachedReadsAreObjects(cfg, run, objects);
      }
    } else {
      var a, b :| a in objects && b in objects && CacheKey(a.0, a.1) == CacheKey(b.0, b.1) && objects[a] != objects[b];
      var p, run := Placed(a.0, a.1, objects[a]), ServedFor(Placed(a.0, a.1, objects[a]), b.0, b.1);
      NamesRunTogether(cfg, p, b.0, b.1);
      assert Placed(b.0, b.1, p.data) in After(cfg, run).hits;
      assert !Transparent(cfg, run, objects);
      assert PutsWholeObjects(run, objects);
    }
  }

  /** One object is put in the cache and another pair looked up. */
  function ServedFor(p: Placed, s3Key: string, etag: string): seq<Step> {
    [PlaceStep(p), RecordStep(p, 0)] + [ProbeStep(s3Key, etag, 0)] + [OpenStep(Reader(s3Key, etag, 0))]
  }

  /** Of any two pairs that run together to one name, either is served for the other: "ab" + "c" for "a" + "bc". */
  lemma {:induction false} NamesRunTogether(cfg: Config, p: Placed, s3Key: string, etag: string)
    requires CacheKey(s3Key, etag) == CacheKey(p.s3Key, p.etag)
    ensures After(cfg, ServedFor(p, s3Key, etag)).hits == [Placed(s3Key, etag, p.data)]
  {
    var r := Reader(s3Key, etag, 0);
    CachedOnce(cfg, p);
    hide After, Sane, Without;
    var cached, probed := [PlaceStep(p), RecordStep(p, 0)], [ProbeStep(s3Key, etag, 0)];
    OneMore(cfg, cached, probed[0]);
    assert r in After(cfg, cached + probed).opening;
    OneMore(cfg, cached + probed, OpenStep(r));
  }

  /** The index once one object has been cached in an empty directory. */
  function OneCached(p: Placed): Index {
    var name := Name(p.s3Key, p.etag);
    Index(map[0 := DataEntry(name, p.s3Key, |p.data|, 0)], 1, map[name := 0], [0], |p.data|, map[name := p.data])
  }

  lemma {:induction false} CachedOnce(cfg: Config, p: Placed)
    ensures After(cfg, [PlaceStep(p), RecordStep(p, 0)]) ==
            Machine(OneCached(p), multiset{}, multiset{}, multiset{}, {p}, [])
  {
    hide Without, After, Sane;
    AfterPlacing(cfg, p);
    OneMore(cfg, [PlaceStep(p)], RecordStep(p, 0));
    assert [PlaceStep(p)] + [RecordStep(p, 0)] == [PlaceStep(p), RecordStep(p, 0)];
    assert [0] + [] == [0];
  }

  lemma {:induction false} AfterPlacing(cfg: Config, p: Placed)
    ensures After(cfg, [PlaceStep(p)]) ==
            Machine(Index(map[], 0, map[], [], 0, map[Name(p.s3Key, p.etag) := p.data]),
                    multiset{}, multiset{}, multiset{p}, {p}, [])
  {
    OneMore(cfg, [], PlaceStep(p));
    assert [] + [PlaceStep(p)] == [PlaceStep(p)];
  }

  // ----- Accounting -----

  /**
   * Get's clean-up of a file it could not open keeps the books exactly when the element it found is still
   * linked, or when it is empty and its key has not been cached again.
   */
  lemma CleanKeepsAccountsIff(s: Index, id: nat)
    requires Accounted(s) && id in s.elems
    ensures var key := s.elems[id].key;
            Accounted(Unlink(s, id, key)) <==> id in s.order || (s.elems[id].size == 0 && key !in s.items)
  {
    hide Without;
    var key := s.elems[id].key;
    if id in s.order {
      UnlinkAccounted(s, id);
    } else {
      StaleUnlinkPoints(s, id);
      if key in s.items {
        assert s.items[key] in s.order && s.elems[s.items[key]].key == key;
      }
    }
  }

  /**
   * Two lookups of one file that has vanished: the first to clean up makes room for a new put, whose element the
   * second clean-up then strips of its key.
   */
  function LateCleanUp(p: Placed): seq<Step> {
    var probe, r := ProbeStep(p.s3Key, p.etag, 0), Reader(p.s3Key, p.etag, 0);
    [PlaceStep(p), RecordStep(p, 0)] + [probe] + [probe] + [LoseStep(Name(p.s3Key, p.etag))] + [OpenStep(r)] + [OpenStep(r)]
    + [CleanStep(r)] + [PlaceStep(p)] + [RecordStep(p, 0)] + [CleanStep(r)]
  }

  /** Such a run leaves an element on the list that no key leads to, and counts its bytes as free. */
  lemma {:induction false} LateCleanUpBreaksAccounts(cfg: Config, p: Placed)
    ensures var ix := After(cfg, LateCleanUp(p)).ix;
            ix.order == [1] && ix.items == map[] && ix.currentSize == 0 && !Accounted(ix)
  {
    hide After, Sane, Next, Enabled, Accounted;
    var name, probe, r := Name(p.s3Key, p.etag), ProbeStep(p.s3Key, p.etag, 0), Reader(p.s3Key, p.etag, 0);
    var probed := [PlaceStep(p), RecordStep(p, 0)] + [probe] + [probe];
    BothProbed(cfg, p);
    BothOpened(cfg, p, probed);
    var both := probed + [LoseStep(name)] + [OpenStep(r)] + [OpenStep(r)];
    OneCleaned(cfg, p, both);
    CleanedUp(cfg, p, both + [CleanStep(r)]);
  }

  lemma {:induction false} BothOpened(cfg: Config, p: Placed, run: seq<Step>)
    requires var r := Reader(p.s3Key, p.etag, 0);
             After(cfg, run) == Machine(OneCached(p), multiset{r, r}, multiset{}, multiset{}, {p}, [])
    ensures var name, r := Name(p.s3Key, p.etag), Reader(p.s3Key, p.etag, 0);
            After(cfg, run + [LoseStep(name)] + [OpenStep(r)] + [OpenStep(r)]) ==
              Machine(OneCached(p).(disk := map[]), multiset{}, multiset{r, r}, multiset{}, {p}, [])
  {
    hide After, Sane;
    var name, r := Name(p.s3Key, p.etag), Reader(p.s3Key, p.etag, 0);
    OneMore(cfg, run, LoseStep(name));
    assert OneCached(p).disk - {name} == map[];
    OneMore(cfg, run + [LoseStep(name)], OpenStep(r));
    OneMore(cfg, run + [LoseStep(name)] + [OpenStep(r)], OpenStep(r));
  }

  lemma {:induction false} OneCleaned(cfg: Config, p: Placed, run: seq<Step>)
    requires var r := Reader(p.s3Key, p.etag, 0);
             After(cfg, run) == Machine(OneCached(p).(disk := map[]), multiset{}, multiset{r, r}, multiset{}, {p}, [])
    ensures var r := Reader(p.s3Key, p.etag, 0);
            After(cfg, run + [CleanStep(r)]) ==
              Machine(Index(OneCached(p).elems, 1, map[], [], 0, map[]), multiset{}, multiset{r}, multiset{}, {p}, [])
  {
    hide After, Sane;
    OneMore(cfg, run, CleanStep(Reader(p.s3Key, p.etag, 0)));
    ShortLists();
    assert OneCached(p).items - {Name(p.s3Key, p.etag)} == map[];
  }

  lemma {:induction false} BothProbed(cfg: Config, p: Placed)
    ensures var probe, r := ProbeStep(p.s3Key, p.etag, 0), Reader(p.s3Key, p.etag, 0);
            After(cfg, [PlaceStep(p), RecordStep(p, 0)] + [probe] + [probe]) ==
              Machine(OneCached(p), multiset{r, r}, multiset{}, multiset{}, {p}, [])
  {
    hide After, Sane;
    var cached, probe := [PlaceStep(p), RecordStep(p, 0)], ProbeStep(p.s3Key, p.etag, 0);
    CachedOnce(cfg, p);
    OneMore(cfg, cached, probe);
    ShortLists();
    assert After(cfg, cached + [probe]).ix == OneCached(p) by {
      assert OneCached(p).elems[0 := OneCached(p).elems[0]] == OneCached(p).elems;
    }
    OneMore(cfg, cached + [probe], probe);
  }

  /** The second half: the object is cached again, and then the other reader cleans up. */
  lemma {:induction false} CleanedUp(cfg: Config, p: Placed, run: seq<Step>)
    requires After(cfg, run) ==
             Machine(Index(map[0 := DataEntry(Name(p.s3Key, p.etag), p.s3Key, |p.data|, 0)], 1, map[], [], 0, map[]),
                     multiset{}, multiset{Reader(p.s3Key, p.etag, 0)}, multiset{}, {p}, [])
    ensures var ix := After(cfg, run + [PlaceStep(p)] + [RecordStep(p, 0)] + [CleanStep(Reader(p.s3Key, p.etag, 0))]).ix;
            ix.order == [1] && ix.items == map[] && ix.currentSize == 0 && !Accounted(ix)
  {
    hide After, Sane;
    var r := Reader(p.s3Key, p.etag, 0);
    OneMore(cfg, run, PlaceStep(p));
    OneMore(cfg, run + [PlaceStep(p)], RecordStep(p, 0));
    OneMore(cfg, run + [PlaceStep(p)] + [RecordStep(p, 0)], CleanStep(r));
    ShortLists();
    var ix := After(cfg, run + [PlaceStep(p)] + [RecordStep(p, 0)] + [CleanStep(r)]).ix;
    assert ix.order == [1] by {
      assert [1] + [] == [1];
    }
    assert ix.order[0] == 1 && ix.elems[1].key == Name(p.s3Key, p.etag);
    assert ix.items == map[];
  }

  lemma ShortLists()
    ensures Without([0 as nat], {0}) == [] && Without([1 as nat], {0}) == [1]
  {
    WithoutNothing([1 as nat], {0});
  }

  /** A clean-up finds its element still linked, or empty and not cached again. */
  ghost predicate CleansInTime(ix: Index, r: Reader)
    requires r.id in ix.elems
  {
    r.id in ix.order || (ix.elems[r.id].size == 0 && Name(r.s3Key, r.etag) !in ix.items)
  }

  lemma NextAccounted(cfg: Config, m: Machine, step: Step)
    requires Sane(m) && Enabled(m, step) && Accounted(m.ix)
    ensures Accounted(Next(cfg, m, step).ix) <==> step.CleanStep? ==> CleansInTime(m.ix, step.reader)
  {
    hide Without, Total;
    var ix := m.ix;
    match step
    case ProbeStep(k, e, now) =>
      var key := Name(k, e);
      if key in ix.items {
        var id := ix.items[key];
        if Stale(cfg, ix.elems[id], now) {
          DiskIsNotCounted(ix, ix.disk - {key});
          UnlinkAccounted(ix.(disk := ix.disk - {key}), id);
        } else {
          RefreshAccounted(ix, id, ix.elems[id].size, now);
        }
      }
    case OpenStep(r) =>
    case CleanStep(r) => CleanKeepsAccountsIff(ix, r.id);
    case PlaceStep(p) => DiskIsNotCounted(ix, ix.disk[Name(p.s3Key, p.etag) := p.data]);
    case RecordStep(p, now) => RecordKeeps(ix, Name(p.s3Key, p.etag), p.s3Key, |p.data|, now, now);
    case DiscardStep(id) =>
      DiskIsNotCounted(ix, ix.disk - {ix.elems[id].key});
      UnlinkAccounted(ix.(disk := ix.disk - {ix.elems[id].key}), id);
    case LoseStep(key) => DiskIsNotCounted(ix, ix.disk - {key});
    case RestartStep(listing, modTime) => ScannedAccounted(ix.disk, listing, modTime, |listing|);
  }

  /** The index is a bijection and currentSize the sum of the sizes, at every point of the run. */
  ghost predicate AlwaysAccounted(cfg: Config, run: seq<Step>) {
    forall n :: 0 <= n <= |run| ==> Accounted(After(cfg, run[..n]).ix)
  }

  /** Every clean-up of the run is in time. */
  ghost predicate TimelyCleanUps(cfg: Config, run: seq<Step>) {
    forall n :: 0 <= n < |run| ==> InTimeAt(cfg, run, n)
  }

  ghost predicate InTimeAt(cfg: Config, run: seq<Step>, n: nat)
    requires n < |run|
  {
    var m := After(cfg, run[..n]);
    Sane(m) && run[n].CleanStep? && Enabled(m, run[n]) ==> CleansInTime(m.ix, run[n].reader)
  }

  /** In every interleaving the books are right at every point if and only if every clean-up is in time. */
  lemma {:induction false} RunAccountedIff(cfg: Config, run: seq<Step>)
    ensures AlwaysAccounted(cfg, run) <==> TimelyCleanUps(cfg, run)
    decreases |run|
  {
    hide Accounted, After, Sane, Enabled, CleansInTime;
    if run == [] {
      StartAccounted(cfg);
    } else {
      var before, n := run[..|run| - 1], |run| - 1;
      RunAccountedIff(cfg, before);
      assert forall i :: 0 <= i <= n ==> before[..i] == run[..i];
      assert run[..|run|] == run && before[..n] == before;
      assert forall i :: 0 <= i < n ==> (InTimeAt(cfg, before, i) <==> InTimeAt(cfg, run, i)) by {
        hide *;
        forall i | 0 <= i < n ensures InTimeAt(cfg, before, i) <==> InTimeAt(cfg, run, i) {
          SameTime(cfg, run, i);
        }
      }
      if AlwaysAccounted(cfg, before) {
        LastAccounted(cfg, run);
      }
    }
  }

  lemma SameTime(cfg: Config, run: seq<Step>, i: nat)
    requires i < |run| - 1
    ensures InTimeAt(cfg, run[..|run| - 1], i) <==> InTimeAt(cfg, run, i)
  {
    assert run[..|run| - 1][..i] == run[..i];
  }

  lemma StartAccounted(cfg: Config)
    ensures Accounted(After(cfg, []).ix)
  {
  }

  lemma {:induction false} LastAccounted(cfg: Config, run: seq<Step>)
    requires run != [] && Accounted(After(cfg, run[..|run| - 1]).ix)
    ensures Accounted(After(cfg, run).ix) <==> InTimeAt(cfg, run, |run| - 1)
  {
    hide Accounted, Next, Enabled, CleansInTime;
    var before, last := run[..|run| - 1], run[|run| - 1];
    RunWhole(cfg, before);
    var m := After(cfg, before);
    hide Sane;
    if Enabled(m, last) {
      NextAccounted(cfg, m, last);
    }
  }

  // ----- Recency -----

  function TimeOf(step: Step, before: int): int {
    match step
    case ProbeStep(_, _, now) => now
    case RecordStep(_, now) => now
    case _ => before
  }

  /** The times read by the run's critical sections never go back, and it has no restart. */
  ghost predicate Monotonic(run: seq<Step>, now: int) {
    run == [] || (var last := run[|run| - 1];
                  !last.RestartStep? && TimeOf(last, now) <= now &&
                  Monotonic(run[..|run| - 1], TimeOf(last, now)))
  }

  lemma NextRecent(cfg: Config, m: Machine, step: Step, before: int)
    requires Sane(m) && Enabled(m, step) && Recent(m.ix, before) && !step.RestartStep?
    requires before <= TimeOf(step, before)
    ensures Recent(Next(cfg, m, step).ix, TimeOf(step, before))
  {
    hide Without;
    var ix := m.ix;
    match step
    case ProbeStep(k, e, now) =>
      var key := Name(k, e);
      if key in ix.items {
        var id := ix.items[key];
        if Stale(cfg, ix.elems[id], now) {
          UnlinkKeeps(ix.(disk := ix.disk - {key}), id, now);
        } else {
          RefreshKeeps(ix, id, ix.elems[id].size, before, now);
        }
      }
    case CleanStep(r) =>
      if r.id in ix.order {
        UnlinkKeeps(ix, r.id, before);
      } else {
        StaleUnlinkPoints(ix, r.id);
      }
    case RecordStep(p, now) => RecordKeeps(ix, Name(p.s3Key, p.etag), p.s3Key, |p.data|, before, now);
    case DiscardStep(id) => UnlinkKeeps(ix.(disk := ix.disk - {ix.elems[id].key}), id, before);
    case _ =>
  }

  lemma {:induction false} RunRecent(cfg: Config, run: seq<Step>, now: int)
    requires Monotonic(run, now)
    ensures Recent(After(cfg, run).ix, now)
    decreases |run|
  {
    if run == [] {
    } else {
      var before, last := run[..|run| - 1], run[|run| - 1];
      RunRecent(cfg, before, TimeOf(last, now));
      RunWhole(cfg, before);
      if Enabled(After(cfg, before), last) {
        NextRecent(cfg, After(cfg, before), last, TimeOf(last, now));
      }
    }
  }

  /**
   * From an empty directory with a monotonic clock, whatever the interleaving, the TTL pass of evict removes
   * exactly the entries that have expired.
   */
  lemma {:induction false} TtlPassExactInRuns(cfg: Config, run: seq<Step>, now: int)
    requires Monotonic(run, now)
    ensures var s := After(cfg, run).ix;
            forall i :: 0 <= i < |s.order| ==> (i < FreshCount(cfg, s, |s.order|, now) <==> !StaleAt(cfg, s, i, now))
  {
    RunRecent(cfg, run, now);
    TtlPassExact(cfg, After(cfg, run).ix, now);
  }

  /** Two files and a restart that meets the older one first. */
  function RestartOldFirst(): seq<Step> {
    var x, y := Placed("x", "", []), Placed("y", "", []);
    [PlaceStep(x)] + [PlaceStep(y)] + [RestartStep(["x", "y"], map["x" := 0, "y" := 100])]
  }

  /** With a TTL of 10, the pass at time 100 leaves the entry of time 0: it stands ahead of the fresh one. */
  lemma {:induction false} RestartKeepsStale(cfg: Config)
    requires cfg.ttl == 10
    ensures var s := After(cfg, RestartOldFirst()).ix;
            && s.order == [0, 1] && StaleAt(cfg, s, 0, 100)
            && FreshCount(cfg, s, 2, 100) == 2
  {
    hide After, Sane;
    var x, y := Placed("x", "", []), Placed("y", "", []);
    var files: map<string, Bytes>, times := map["x" := [], "y" := []], map["x" := 0, "y" := 100];
    AfterPlacing(cfg, x);
    assert Name("x", "") == "x" && Name("y", "") == "y";
    OneMore(cfg, [PlaceStep(x)], PlaceStep(y));
    var placed := [PlaceStep(x)] + [PlaceStep(y)];
    assert After(cfg, placed).ix.disk == files;
    OneMore(cfg, placed, RestartStep(["x", "y"], times));
    ScannedTwo(files, times);
  }

  lemma ScannedTwo(files: map<string, Bytes>, times: map<string, int>)
    requires files == map["x" := [], "y" := []] && times == map["x" := 0, "y" := 100]
    ensures Scannable(files, ["x", "y"], times)
    ensures var s := Scanned(files, ["x", "y"], times, 2);
            s.order == [0, 1] && s.elems == map[0 := DataEntry("x", "", 0, 0), 1 := DataEntry("y", "", 0, 100)]
  {
    assert ScannedFiles(files, ["x", "y"], times, 0).order == [];
    assert ScannedFiles(files, ["x", "y"], times, 1) ==
           Appended(ScannedFiles(files, ["x", "y"], times, 0), "x", 0, 0);
    assert ScannedFiles(files, ["x", "y"], times, 2) ==
           Appended(ScannedFiles(files, ["x", "y"], times, 1), "y", 0, 100);
  }

  // ----- Calls made one at a time -----

  /** No call is in flight. */
  ghost predicate Quiet(m: Machine) {
    m.opening == multiset{} && m.failed == multiset{} && m.recording == multiset{}
  }

  /** A Get alone is a probe, then an open, then a clean-up if the open failed. */
  lemma {:induction false} GetSteps(cfg: Config, run: seq<Step>, s3Key: string, etag: string, now: int)
      returns (run': seq<Step>)
    requires Quiet(After(cfg, run))
    ensures run <= run' && Quiet(After(cfg, run')) && Sane(After(cfg, run))
    ensures var m, m', key := After(cfg, run), After(cfg, run'), CacheKey(s3Key, etag);
            var (p, found) := Probe(cfg, m.ix, key, now);
            && m'.places == m.places
            && m'.ix == (if found.Some? && key !in p.disk && found.value in p.elems then Unlink(p, found.value, key) else p)
            && m'.hits == m.hits + (if found.Some? && key in p.disk then [Placed(s3Key, etag, p.disk[key])] else [])
  {
    hide After, Without, Unlink, Refresh;
    RunWhole(cfg, run);
    run' := run + [ProbeStep(s3Key, etag, now)];
    OneMore(cfg, run, ProbeStep(s3Key, etag, now));
    var (p, found) := Probe(cfg, After(cfg, run).ix, CacheKey(s3Key, etag), now);
    if found.Some? {
      var r := Reader(s3Key, etag, found.value);
      assert r in After(cfg, run').opening;
      OneMore(cfg, run', OpenStep(r));
      run' := run' + [OpenStep(r)];
      if CacheKey(s3Key, etag) !in p.disk {
        OneMore(cfg, run', CleanStep(r));
        run' := run' + [CleanStep(r)];
      }
    }
  }

  /** Cutting a list down may start with its last element. */
  lemma CutOneFirst(s: Index, t: Index, n: nat)
    requires Accounted(s) && Accounted(t) && CutTo(s, t, n) && n < |s.order|
    ensures s.order[|s.order| - 1] in s.elems
    ensures Accounted(PopBack(s)) && CutTo(PopBack(s), t, n) && |PopBack(s).order| == |s.order| - 1
  {
    hide Total, Without;
    var last := |s.order| - 1;
    assert s.order[last] in s.order;
    var key := s.elems[s.order[last]].key;
    PopBackOrder(s);
    DiskIsNotCounted(s, s.disk - {key});
    UnlinkAccounted(s.(disk := s.disk - {key}), s.order[last]);
    assert key !in t.items;
    hide Accounted;
    CutRest(s, PopBack(s), t, n, key);
  }

  lemma CutRest(s: Index, u: Index, t: Index, n: nat, key: string)
    requires CutTo(s, t, n) && n < |s.order| && key !in t.items && key in s.items
    requires u.elems == s.elems && u.nextId == s.nextId && u.order == s.order[..|s.order| - 1]
    requires u.items == s.items - {key} && u.disk == s.disk - {key}
    ensures CutTo(u, t, n)
  {
    assert u.items.Keys - t.items.Keys == (s.items.Keys - t.items.Keys) - {key};
    assert t.order == u.order[..n];
  }

  /** An eviction is a sequence of removals. */
  lemma {:induction false} CutSteps(cfg: Config, run: seq<Step>, t: Index, n: nat) returns (run': seq<Step>)
    requires Accounted(After(cfg, run).ix) && Accounted(t) && CutTo(After(cfg, run).ix, t, n)
    ensures run <= run' && After(cfg, run') == After(cfg, run).(ix := t)
    decreases |After(cfg, run).ix.order|
  {
    hide After, Accounted, Without, CutTo;
    var m := After(cfg, run);
    assert n <= |m.ix.order| by {
      CutIsShorter(m.ix, t, n);
    }
    if n == |m.ix.order| {
      CutToAll(m.ix, t);
      run' := run;
    } else {
      CutOneFirst(m.ix, t, n);
      var last := m.ix.order[|m.ix.order| - 1];
      OneMore(cfg, run, DiscardStep(last));
      assert After(cfg, run + [DiscardStep(last)]) == m.(ix := PopBack(m.ix));
      run' := CutSteps(cfg, run + [DiscardStep(last)], t, n);
    }
  }

  lemma CutIsShorter(s: Index, t: Index, n: nat)
    requires CutTo(s, t, n)
    ensures n <= |s.order|
  {
  }

  /** A Put alone is a rename, an index update and the removals of its eviction. */
  lemma {:induction false} PutSteps(cfg: Config, run: seq<Step>, p: Placed, now: int, t: Index) returns (run': seq<Step>)
    requires Quiet(After(cfg, run)) && Pointing(After(cfg, run).ix) && Accounted(t)
    requires var key := CacheKey(p.s3Key, p.etag);
             var recorded := Record(After(cfg, run).ix.(disk := After(cfg, run).ix.disk[key := p.data]),
                                    key, p.s3Key, |p.data|, now);
             Accounted(recorded) && Evicted(cfg, recorded, t, now)
    ensures run <= run' && Quiet(After(cfg, run')) && After(cfg, run').ix == t
    ensures After(cfg, run').places == After(cfg, run).places + {p} && After(cfg, run').hits == After(cfg, run).hits
  {
    hide After, Without, Accounted, Record, CutTo;
    OneMore(cfg, run, PlaceStep(p));
    var placed := run + [PlaceStep(p)];
    assert p in After(cfg, placed).recording;
    OneMore(cfg, placed, RecordStep(p, now));
    var recorded := placed + [RecordStep(p, now)];
    var s := After(cfg, recorded).ix;
    AccountedPoints(s);
    FreshCountShape(cfg, s, |s.order|, now);
    run' := CutSteps(cfg, recorded, t, FitCount(cfg, s, FreshCount(cfg, s, |s.order|, now)));
  }

  /** `t` is `s` without the keys in `doomed`, their elements and their files. */
  ghost predicate Cleared(s: Index, t: Index, doomed: set<string>) {
    && doomed <= s.items.Keys
    && t.elems == s.elems && t.nextId == s.nextId && t.items == s.items - doomed && t.disk == s.disk - doomed
    && t.order == Without(s.order, set k | k in doomed :: s.items[k])
  }

  lemma ClearedOfNone(s: Index, t: Index)
    requires Accounted(s) && Accounted(t) && Cleared(s, t, {})
    ensures s == t
  {
    hide Total, Without;
    var none: set<string> := {};
    assert (set k | k in none :: s.items[k]) == {};
    WithoutNothing(s.order, {});
  }

  /** Clearing may start with any of the keys. */
  lemma ClearOneFirst(s: Index, t: Index, doomed: set<string>, key: string)
    requires Accounted(s) && Cleared(s, t, doomed) && key in doomed
    ensures key in s.items && s.items[key] in s.order && s.items[key] in s.elems && s.elems[s.items[key]].key == key
    ensures var u := Unlink(s.(disk := s.disk - {key}), s.items[key], key);
            Accounted(u) && Cleared(u, t, doomed - {key})
  {
    hide Total, Without;
    var id, rest := s.items[key], doomed - {key};
    DiskIsNotCounted(s, s.disk - {key});
    UnlinkAccounted(s.(disk := s.disk - {key}), id);
    hide Accounted;
    var u := Unlink(s.(disk := s.disk - {key}), id, key);
    var ids := set k | k in rest :: s.items[k];
    WithoutTwice(s.order, {id}, ids);
    assert {id} + ids == set k | k in doomed :: s.items[k];
    assert ids == set k | k in rest :: u.items[k];
  }

  /** An Invalidate alone is the removals of the versions it finds. */
  lemma {:induction false} InvalidateSteps(cfg: Config, run: seq<Step>, doomed: set<string>, t: Index)
      returns (run': seq<Step>)
    requires Accounted(After(cfg, run).ix) && Accounted(t) && Cleared(After(cfg, run).ix, t, doomed)
    ensures run <= run' && After(cfg, run') == After(cfg, run).(ix := t)
    decreases doomed
  {
    hide After, Accounted, Cleared;
    var m := After(cfg, run);
    if doomed == {} {
      ClearedOfNone(m.ix, t);
      run' := run;
    } else {
      var key :| key in doomed;
      ClearOneFirst(m.ix, t, doomed, key);
      var id := m.ix.items[key];
      OneMore(cfg, run, DiscardStep(id));
      run' := InvalidateSteps(cfg, run + [DiscardStep(id)], doomed - {key}, t);
    }
  }

  datatype Call =
    | GetCall(s3Key: string, etag: string)
    | PutCall(s3Key: string, etag: string, data: Bytes, stored: bool)
    | InvalidateCall(s3Key: string)

  /** The latest content stored under a name. */
  function LastPut(calls: seq<(Call, int)>, name: string): Option<Bytes> {
    if calls == [] then None
    else
      var c := calls[|calls| - 1].0;
      if c.PutCall? && c.stored && CacheKey(c.s3Key, c.etag) == name then Some(c.data)
      else LastPut(calls[..|calls| - 1], name)
  }

  /** Every file holds the latest content stored under its name. */
  ghost predicate HoldsLatest(disk: map<string, Bytes>, calls: seq<(Call, int)>) {
    forall k :: k in disk ==> LastPut(calls, k) == Some(disk[k])
  }

  /**
   * Calls made one at a time on a new cache: a hit is the latest content stored under the name, and the calls are
   * a run of the step machine, with the same hits, that leads to the same index and files.
   */
  method Serial(cfg: Config, calls: seq<(Call, int)>, start: int)
      returns (dc: DataCache, answers: seq<Option<Bytes>>, ghost run: seq<Step>)
    ensures fresh(dc) && dc.Valid() && |answers| == |calls|
    ensures After(dc.config, run).ix == dc.State()
    ensures forall n :: 0 <= n < |calls| && answers[n].Some? ==>
              calls[n].0.GetCall? &&
              answers[n] == LastPut(calls[..n], CacheKey(calls[n].0.s3Key, calls[n].0.etag))
    ensures After(dc.config, run).hits == HitsOf(calls, answers)
  {
    hide After, Accounted, Evicted, Without, Record, Probe, Unlink, Spares;
    dc := new DataCache(cfg, map[], [], map[], start);
    answers, run := [], [];
    StartsEmpty(dc.config, dc.State(), start);
    for i := 0 to |calls|
      invariant fresh(dc) && dc.Valid() && |answers| == i
      invariant Quiet(After(dc.config, run)) && After(dc.config, run).ix == dc.State()
      invariant HoldsLatest(dc.disk, calls[..i])
      invariant forall n :: 0 <= n < i && answers[n].Some? ==>
                  calls[n].0.GetCall? &&
                  answers[n] == LastPut(calls[..n], CacheKey(calls[n].0.s3Key, calls[n].0.etag))
      invariant After(dc.config, run).hits == HitsOf(calls[..i], answers)
    {
      assert calls[..i + 1][..i] == calls[..i];
      var a;
      a, run := Serve(dc, calls[..i], calls[i].0, calls[i].1, run);
      answers := answers + [a];
      assert answers[..i] == answers[..|answers| - 1];
    }
    assert calls[..|calls|] == calls;
  }

  /** The hits among the answers, as the step machine records them. */
  function HitsOf(calls: seq<(Call, int)>, answers: seq<Option<Bytes>>): seq<Placed>
    requires |answers| == |calls|
  {
    if calls == [] then []
    else
      var n := |calls| - 1;
      HitsOf(calls[..n], answers[..n]) +
      (if answers[n].Some? && calls[n].0.GetCall?
       then [Placed(calls[n].0.s3Key, calls[n].0.etag, answers[n].value)] else [])
  }

  lemma {:induction false} StartsEmpty(cfg: Config, t: Index, now: int)
    requires Accounted(t) && Evicted(cfg, Scanned(map[], [], map[], 0), t, now)
    ensures After(cfg, []) == Start && t == Start.ix && Quiet(Start)
  {
    CutToAll(Start.ix, t);
  }

  /** One call of a serial run. */
  method Serve(dc: DataCache, ghost before: seq<(Call, int)>, c: Call, now: int, ghost run: seq<Step>)
      returns (r: Option<Bytes>, ghost run': seq<Step>)
    requires dc.Valid() && Quiet(After(dc.config, run)) && After(dc.config, run).ix == dc.State()
    requires HoldsLatest(dc.disk, before)
    modifies dc
    ensures dc.Valid() && Quiet(After(dc.config, run')) && After(dc.config, run').ix == dc.State()
    ensures HoldsLatest(dc.disk, before + [(c, now)])
    ensures r.Some? ==> c.GetCall? && r == LastPut(before, CacheKey(c.s3Key, c.etag))
    ensures After(dc.config, run').hits ==
            After(dc.config, run).hits + (if r.Some? && c.GetCall? then [Placed(c.s3Key, c.etag, r.value)] else [])
  {
    hide After, Accounted, Evicted, Without, Record, Unlink, Spares;
    assert (before + [(c, now)])[..|before|] == before;
    run' := run;
    match c {
      case GetCall(s3Key, etag) =>
        run' := GetSteps(dc.config, run, s3Key, etag, now);
        r := dc.Get(s3Key, etag, now);
      case PutCall(s3Key, etag, data, stored) =>
        r := None;
        AccountedPoints(dc.State());
        var ok := dc.Put(s3Key, etag, data, now, stored);
        if stored {
          run' := PutSteps(dc.config, run, Placed(s3Key, etag, data), now, dc.State());
        }
      case InvalidateCall(s3Key) =>
        r := None;
        dc.ItemsAreElements();
        ghost var doomed := set k | k in dc.items && dc.elems[dc.items[k]].s3Key == s3Key;
        dc.InvalidateKey(s3Key);
        run' := InvalidateSteps(dc.config, run, doomed, dc.State());
    }
  }
}
