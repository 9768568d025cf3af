/**
 * Runs of the read path: several files of one object over one data cache, and reads after a body that broke off.
 */
module ReadRuns {
  import opened Base
  import opened DataCaching
  import opened Reading

  // ----- Several files over one data cache -----

  /** An operation on one of the open files of an object, or something else that happens to the data cache. */
  datatype Event =
    | Use(file: nat, op: FileOp)
    | Evict(now: int)
    | Forget(s3Key: string)
    | PutOther(s3Key: string, etag: string, data: Bytes, now: int, stored: bool)
    | LookUp(s3Key: string, etag: string, now: int)
    | Lose(name: string)

  /** The files are among the open ones, and other objects go by other names. */
  ghost predicate Proper(count: nat, name: string, e: Event) {
    (e.Use? ==> e.file < count) && (e.PutOther? ==> CacheKey(e.s3Key, e.etag) != name)
  }

  function Starts(count: nat): seq<nat> {
    seq(count, _ => 0)
  }

  function NoGrips(count: nat): seq<Grip> {
    seq(count, _ => None)
  }

  /** One outcome for each event, none for what only happens to the cache. */
  type Outcomes = seq<Option<Outcome>>

  /** What independent cursors that start at 0 give for a sequence of events, and where they end. */
  function Cursors(data: Bytes, count: nat, events: seq<Event>): (r: (Outcomes, seq<nat>))
    ensures |r.0| == |events| && |r.1| == count
  {
    if events == [] then ([], Starts(count))
    else
      var (outs, ats) := Cursors(data, count, events[..|events| - 1]);
      var e := events[|events| - 1];
      if e.Use? && e.file < count then
        var (out, at) := Cursor(data, ats[e.file], e.op);
        (outs + [Some(out)], ats[e.file := at])
      else (outs + [None], ats)
  }

  /** Where the outcomes leave the positions. */
  function Positions(count: nat, events: seq<Event>, outs: Outcomes): (ats: seq<nat>)
    requires |outs| == |events|
    ensures |ats| == count
  {
    if events == [] then Starts(count)
    else
      var n := |events| - 1;
      PositionsAfter(Positions(count, events[..n], outs[..n]), events[n], outs[n])
  }

  function PositionsAfter(ats: seq<nat>, e: Event, out: Option<Outcome>): (ats': seq<nat>)
    ensures |ats'| == |ats|
  {
    if e.Use? && e.file < |ats| && out.Some? then ats[e.file := NextAt(ats[e.file], out.value)] else ats
  }

  /** The outcome of an event at these positions, during which requests i, ..., j - 1 were made. */
  ghost predicate Matches(source: Source, ats: seq<nat>, e: Event, out: Option<Outcome>, i: nat, j: nat) {
    && i <= j
    && (out.Some? <==> e.Use?)
    && (e.Use? && e.file < |ats| && out.Some? ==>
          && Follows(source.data, ats[e.file], e.op, out.value)
          && (source.AllServed(i, j) ==> out.value == Cursor(source.data, ats[e.file], e.op).0))
  }

  /**
   * Each outcome is the cursor's at that position, or that of a read cut short or rejected because a request was refused
   * while it ran; turns[k] is the number of the next request before event k.
   */
  ghost predicate FollowsAll(source: Source, count: nat, events: seq<Event>, outs: Outcomes, turns: seq<nat>) {
    && |outs| == |events| && |turns| == |events| + 1
    && (events == [] ||
        var n := |events| - 1;
        && FollowsAll(source, count, events[..n], outs[..n], turns[..n + 1])
        && Matches(source, Positions(count, events[..n], outs[..n]), events[n], outs[n], turns[n], turns[n + 1]))
  }

  /** Where every request was served, the outcomes are those of the cursors. */
  lemma {:induction false} ServedRun(source: Source, count: nat, events: seq<Event>, outs: Outcomes, turns: seq<nat>)
    requires FollowsAll(source, count, events, outs, turns) && source.AllServed(turns[0], turns[|events|])
    requires forall e :: e in events ==> e.Use? ==> e.file < count
    ensures (outs, Positions(count, events, outs)) == Cursors(source.data, count, events)
    ensures turns[0] <= turns[|events|]
    decreases |events|
  {
    hide Cursor;
    if events == [] {
      assert outs == [];
    } else {
      var n := |events| - 1;
      assert turns[..n + 1][0] == turns[0] && turns[..n + 1][n] == turns[n];
      assert forall e :: e in events[..n] ==> e in events;
      TurnsGrow(source, count, events[..n], outs[..n], turns[..n + 1]);
      ServedRun(source, count, events[..n], outs[..n], turns[..n + 1]);
      var e := events[n];
      assert e in events && outs == outs[..n] + [outs[n]];
      if e.Use? {
        CursorMoves(source.data, Positions(count, events[..n], outs[..n])[e.file], e.op);
      }
    }
  }

  lemma {:induction false} TurnsGrow(source: Source, count: nat, events: seq<Event>, outs: Outcomes, turns: seq<nat>)
    requires FollowsAll(source, count, events, outs, turns)
    ensures turns[0] <= turns[|events|]
    decreases |events|
  {
    hide Positions;
    if events == [] {
    } else {
      var n := |events| - 1;
      TurnsGrow(source, count, events[..n], outs[..n], turns[..n + 1]);
      assert turns[..n + 1][0] == turns[0] && turns[..n + 1][n] == turns[n];
    }
  }

  /** What the buffers hold, whether the object is known to be cached, and whether no fetch could be cached in part. */
  datatype Hold = Hold(grips: seq<Grip>, kept: bool, safe: bool)

  predicate Refused(out: Option<Outcome>) {
    out == Some(Rejected)
  }

  function HoldAfter(size: nat, lasting: bool, ats: seq<nat>, h: Hold, e: Event, refused: bool): (h': Hold)
    requires |ats| == |h.grips|
    ensures |h'.grips| == |h.grips|
  {
    if e.Use? && e.file < |ats| then
      var at, g := ats[e.file], h.grips[e.file];
      var fetched := Fetches(size, at, e.op, g) && !refused;
      Hold(h.grips[e.file := GripAfter(size, at, e.op, g, refused)],
           if fetched && at == 0 then lasting else h.kept,
           h.safe && (!fetched || at == 0 || h.kept))
    else h.(kept := false)
  }

  /** How events go on a cache that, if `lasting`, drops nothing by itself, and that has the object at first if `kept`. */
  function Holds(data: Bytes, lasting: bool, kept: bool, count: nat, events: seq<Event>, outs: Outcomes): (h: Hold)
    requires |outs| == |events|
    ensures |h.grips| == count
  {
    if events == [] then Hold(NoGrips(count), kept, true)
    else
      var n := |events| - 1;
      var ats, h := Positions(count, events[..n], outs[..n]), Holds(data, lasting, kept, count, events[..n], outs[..n]);
      HoldAfter(|data|, lasting, ats, h, events[n], Refused(outs[n]))
  }

  /** The cache has the object and its entry. */
  ghost predicate Kept(dc: DataCache?, name: string)
    reads dc
  {
    dc != null && name in dc.items && name in dc.disk
  }

  /** The cache has no TTL and room for the object, and every put succeeds. */
  ghost predicate Lasting(source: Source, dc: DataCache?) {
    dc != null && dc.config.ttl <= 0 && |source.data| <= dc.config.maxSize && forall t: nat :: source.stores(t)
  }

  lemma KeptHits(dc: DataCache, name: string, now: int)
    requires dc.Valid() && dc.config.ttl <= 0
    ensures Kept(dc, name) <==> Hits(dc.config, dc.State(), name, now)
  {
  }

  /** An unsafe event makes every longer run unsafe. */
  lemma {:induction false} SafePrefix(data: Bytes, lasting: bool, kept: bool, count: nat, events: seq<Event>, outs: Outcomes,
                                      n: nat)
    requires n <= |events| == |outs| && Holds(data, lasting, kept, count, events, outs).safe
    ensures Holds(data, lasting, kept, count, events[..n], outs[..n]).safe
    decreases |events|
  {
    hide Positions;
    if n == |events| {
      assert events[..n] == events && outs[..n] == outs;
    } else {
      var before, past := events[..|events| - 1], outs[..|events| - 1];
      SafePrefix(data, lasting, kept, count, before, past, n);
      assert before[..n] == events[..n] && past[..n] == outs[..n];
    }
  }

  lemma {:induction false} CursorsPrefix(data: Bytes, count: nat, events: seq<Event>, n: nat)
    requires n <= |events|
    ensures Cursors(data, count, events[..n]).0 == Cursors(data, count, events).0[..n]
    decreases |events|
  {
    hide Cursor;
    if n == |events| {
      assert events[..n] == events;
    } else {
      CursorsPrefix(data, count, events[..|events| - 1], n);
      assert events[..|events| - 1][..n] == events[..n];
    }
  }

  /**
   * The read path refines cursors: however the operations of several files of an object are interleaved over one data
   * cache, with evictions and other traffic, each outcome is that of a cursor over the object's bytes at that position,
   * or, if a request was refused while it ran, the same cut short, or an error that leaves the position. Replies may be
   * short, if the object is not cached, and no body breaks off. This goes on until a part of the object is cached as the
   * whole of it, by a read above offset 0 that its buffer does not hold and that misses the cache; that never happens in
   * a run that is safe, and on a lasting cache with no other traffic it happens in every other.
   */
  method Replay(source: Source, s3Key: string, etag: string, dc: DataCache?, count: nat, events: seq<Event>)
      returns (outs: Outcomes, done: nat, ghost turns: seq<nat>)
    requires source.Productive() && source.Unbroken() && ValidCache(dc) && WholeIn(dc, s3Key, etag, source.data)
    requires Cacheable(dc, etag, source.data) ==> source.Full()
    requires forall e :: e in events ==> Proper(count, CacheKey(s3Key, etag), e)
    modifies source, dc
    ensures done <= |events| && FollowsAll(source, count, events[..done], outs, turns)
    ensures turns[0] == old(source.turn) && turns[done] == source.turn
    ensures Cacheable(dc, etag, source.data) || WholeIn(dc, s3Key, etag, source.data)
    ensures var lasting := Lasting(source, dc);
            var kept := old(Kept(dc, CacheKey(s3Key, etag))) && lasting;
            Ending(source.data, lasting, kept, count, events, outs, done, WholeIn(dc, s3Key, etag, source.data),
                   lasting && Cacheable(dc, etag, source.data) && forall e :: e in events ==> e.Use?)
  {
    hide FollowsAll, Positions, Lasting, Shelf, Holds, KeptSoFar, Kept, Ending, Unsafe;
    hide S3File.Footprint, WholeIn, ValidCache;
    ghost var name, lasting, data := CacheKey(s3Key, etag), Lasting(source, dc), source.data;
    ghost var kept, uses := Kept(dc, name) && lasting, forall e :: e in events ==> e.Use?;
    ghost var cached := Cacheable(dc, etag, data);
    ghost var exact := lasting && cached && uses;
    BeforeEvents(source, lasting, kept, count);
    StartKept(Kept(dc, name), lasting, count, exact);
    var files, own := OpenAll(source, s3Key, etag, dc, count);
    outs, turns := [], [source.turn];
    for k := 0 to |events|
      invariant |files| == count && fresh(own) && (forall i :: 0 <= i < count ==> files[i].Footprint() <= own)
      invariant |outs| == k && |turns| == k + 1 && turns[0] == old(source.turn) && turns[k] == source.turn
      invariant FollowsAll(source, count, events[..k], outs, turns)
      invariant Shelf(files, source, s3Key, etag, dc, Positions(count, events[..k], outs),
                      Holds(data, lasting, kept, count, events[..k], outs).grips)
      invariant ValidCache(dc) && WholeIn(dc, s3Key, etag, data)
      invariant cached ==> KeptSoFar(Kept(dc, name), lasting, Holds(data, lasting, kept, count, events[..k], outs), exact)
    {
      assert events[k] in events;
      var out, grown := Happen(files, events, k, outs, turns, source, s3Key, etag, dc, lasting, kept, exact);
      own, outs, turns := own + grown, outs + [out], turns + [source.turn];
      if !WholeIn(dc, s3Key, etag, source.data) {
        EndsEarly(data, lasting, kept, count, events, outs, k, exact);
        return outs, k + 1, turns;
      }
    }
    assert events[..|events|] == events;
    EndsWhole(data, lasting, kept, count, events, outs, exact, Kept(dc, name));
    done := |events|;
  }

  /** One event of a replay. */
  method Happen(files: seq<S3File>, events: seq<Event>, k: nat, ghost outs: Outcomes, ghost turns: seq<nat>, source: Source,
                s3Key: string, etag: string, dc: DataCache?, ghost lasting: bool, ghost kept: bool, ghost exact: bool)
      returns (out: Option<Outcome>, ghost grown: set<object>)
    requires k < |events| && Proper(|files|, CacheKey(s3Key, etag), events[k]) && |outs| == k && |turns| == k + 1
    requires FollowsAll(source, |files|, events[..k], outs, turns) && turns[k] == source.turn
    requires Shelf(files, source, s3Key, etag, dc, Positions(|files|, events[..k], outs),
                   Holds(source.data, lasting, kept, |files|, events[..k], outs).grips)
    requires source.Productive() && source.Unbroken() && (Cacheable(dc, etag, source.data) ==> source.Full())
    requires ValidCache(dc) && WholeIn(dc, s3Key, etag, source.data) && lasting == Lasting(source, dc)
    requires exact ==> lasting && Cacheable(dc, etag, source.data) && events[k].Use?
    requires Cacheable(dc, etag, source.data) ==>
               KeptSoFar(Kept(dc, CacheKey(s3Key, etag)), lasting,
                         Holds(source.data, lasting, kept, |files|, events[..k], outs), exact)
    modifies if events[k].Use? then files[events[k].file].Footprint() else {}, source, dc
    ensures FollowsAll(source, |files|, events[..k + 1], outs + [out], turns + [source.turn])
    ensures Shelf(files, source, s3Key, etag, dc, Positions(|files|, events[..k + 1], outs + [out]),
                  Holds(source.data, lasting, kept, |files|, events[..k + 1], outs + [out]).grips)
    ensures fresh(grown) && forall j :: 0 <= j < |files| ==> files[j].Footprint() <= old(files[j].Footprint()) + grown
    ensures ValidCache(dc) && (Cacheable(dc, etag, source.data) || WholeIn(dc, s3Key, etag, source.data))
    ensures Cacheable(dc, etag, source.data) ==>
              if WholeIn(dc, s3Key, etag, source.data)
              then KeptSoFar(Kept(dc, CacheKey(s3Key, etag)), lasting,
                             Holds(source.data, lasting, kept, |files|, events[..k + 1], outs + [out]), exact)
              else Unsafe(source.data, lasting, kept, |files|, events, outs + [out], k)
  {
    hide FollowsAll, Positions, GripAfter, Fetches, Lasting, Shelf, CacheFate, Holds, HoldAfter, KeptSoFar, Kept;
    hide S3File.Footprint, WholeIn, ValidCache, Follows, Cursor;
    var e := events[k];
    ghost var ats := Positions(|files|, events[..k], outs);
    ghost var h := Holds(source.data, lasting, kept, |files|, events[..k], outs);
    if e.Use? {
      ghost var had := Kept(dc, CacheKey(s3Key, etag));
      var o;
      o, grown := UseOne(files, e.file, e.op, source, s3Key, etag, dc, ats, h.grips);
      out := Some(o);
      OneMoreEvent(source, lasting, kept, |files|, events, k, outs, out, turns, source.turn);
      if Cacheable(dc, etag, source.data) {
        StillKept(source, dc, s3Key, etag, ats, h, e, Refused(out), had, exact);
      }
    } else {
      OtherTraffic(dc, e, s3Key, etag, source.data);
      NotKept(Kept(dc, CacheKey(s3Key, etag)), lasting, h, exact);
      out, grown := None, {};
      OneMoreEvent(source, lasting, kept, |files|, events, k, outs, out, turns, source.turn);
    }
  }

  /** Event k is a read above offset 0 of something the buffer does not hold and the cache is not known to have. */
  ghost predicate Unsafe(data: Bytes, lasting: bool, kept: bool, count: nat, events: seq<Event>, outs: Outcomes, k: nat)
  {
    && k < |events| && |outs| == k + 1 && events[k].Use? && events[k].file < count
    && !Holds(data, lasting, kept, count, events[..k + 1], outs).safe
    && var e, at := events[k], Positions(count, events[..k], outs[..k])[events[k].file];
       at > 0 && !Refused(outs[k]) &&
       Fetches(|data|, at, e.op, Holds(data, lasting, kept, count, events[..k], outs[..k]).grips[e.file])
  }

  /**
   * How a replay ends. While the cached object is whole it goes to the end; the event that leaves it otherwise is a read
   * above offset 0 of something the buffer does not hold; a safe run never gets there, and where the cache is lasting
   * and has no other traffic, `exact`, every other run does. Whether a run with every request served is safe can be told
   * from its operations alone.
   */
  ghost predicate Ending(data: Bytes, lasting: bool, kept: bool, count: nat, events: seq<Event>, outs: Outcomes, done: nat,
                         whole: bool, exact: bool)
  {
    && done <= |events| && |outs| == done
    && (whole ==> done == |events|)
    && (!whole ==> done > 0 && Unsafe(data, lasting, kept, count, events, outs, done - 1))
    && (Holds(data, lasting, kept, count, events[..done], outs).safe ==> whole)
    && (exact && whole ==> Holds(data, lasting, kept, count, events[..done], outs).safe)
    && (outs == Cursors(data, count, events[..done]).0 ==>
          var ahead := Holds(data, lasting, kept, count, events, Cursors(data, count, events).0).safe;
          (ahead ==> whole) && (exact && whole ==> ahead))
  }

  lemma EndsEarly(data: Bytes, lasting: bool, kept: bool, count: nat, events: seq<Event>, outs: Outcomes, k: nat,
                  exact: bool)
    requires Unsafe(data, lasting, kept, count, events, outs, k)
    ensures Ending(data, lasting, kept, count, events, outs, k + 1, false, exact)
  {
    hide Cursors, Holds, Fetches, Positions;
    var all := Cursors(data, count, events).0;
    CursorsPrefix(data, count, events, k + 1);
    if Holds(data, lasting, kept, count, events, all).safe {
      SafePrefix(data, lasting, kept, count, events, all, k + 1);
    }
  }

  lemma EndsWhole(data: Bytes, lasting: bool, kept: bool, count: nat, events: seq<Event>, outs: Outcomes, exact: bool,
                  now: bool)
    requires |outs| == |events|
    requires exact ==> KeptSoFar(now, lasting, Holds(data, lasting, kept, count, events, outs), exact)
    ensures Ending(data, lasting, kept, count, events, outs, |events|, true, exact)
  {
    hide Cursors, Holds, Fetches, Positions;
    assert events[..|events|] == events;
  }

  lemma BeforeEvents(source: Source, lasting: bool, kept: bool, count: nat)
    ensures FollowsAll(source, count, [], [], [source.turn]) && Positions(count, [], []) == Starts(count)
    ensures Holds(source.data, lasting, kept, count, [], []) == Hold(NoGrips(count), kept, true)
  {
  }

  lemma StartKept(kept: bool, lasting: bool, count: nat, exact: bool)
    requires exact ==> lasting
    ensures KeptSoFar(kept, lasting, Hold(NoGrips(count), kept && lasting, true), exact)
  {
  }

  lemma OneMoreEvent(source: Source, lasting: bool, kept: bool, count: nat, events: seq<Event>, k: nat, outs: Outcomes,
                     out: Option<Outcome>, turns: seq<nat>, turn: nat)
    requires k < |events| && |outs| == k && |turns| == k + 1
    ensures var ats, h := Positions(count, events[..k], outs), Holds(source.data, lasting, kept, count, events[..k], outs);
            var e, refused := events[k], Refused(out);
            && Positions(count, events[..k + 1], outs + [out]) == PositionsAfter(ats, e, out)
            && Holds(source.data, lasting, kept, count, events[..k + 1], outs + [out]) ==
                 HoldAfter(|source.data|, lasting, ats, h, e, refused)
            && (FollowsAll(source, count, events[..k], outs, turns) && Matches(source, ats, e, out, turns[k], turn) ==>
                  FollowsAll(source, count, events[..k + 1], outs + [out], turns + [turn]))
            && (e.Use? && e.file < count ==>
                  HoldAfter(|source.data|, lasting, ats, h, e, refused).grips ==
                    h.grips[e.file := GripAfter(|source.data|, ats[e.file], e.op, h.grips[e.file], refused)])
            && (!e.Use? ==> HoldAfter(|source.data|, lasting, ats, h, e, refused) == h.(kept := false))
  {
    hide Cursor, GripAfter, Fetches, Matches, PositionsAfter;
    assert events[..k + 1][..k] == events[..k];
    assert (outs + [out])[..k] == outs && (turns + [turn])[..k + 1] == turns;
  }

  lemma NotKept(kept: bool, lasting: bool, h: Hold, exact: bool)
    ensures !exact ==> KeptSoFar(kept, lasting, h.(kept := false), exact)
  {
  }

  /** What Holds says of a cache that has the object or not. */
  ghost predicate KeptSoFar(kept: bool, lasting: bool, h: Hold, exact: bool) {
    (h.kept ==> lasting && kept) && (exact ==> h.safe && (h.kept <==> kept))
  }

  lemma StillKept(source: Source, dc: DataCache, s3Key: string, etag: string, ats: seq<nat>, h: Hold, e: Event,
                  refused: bool, kept: bool, exact: bool)
    requires |ats| == |h.grips| && e.Use? && e.file < |ats| && KeptSoFar(kept, Lasting(source, dc), h, exact)
    requires exact ==> Lasting(source, dc)
    requires var fetches := Fetches(|source.data|, ats[e.file], e.op, h.grips[e.file]);
             CacheFate(source, dc, s3Key, etag, ats[e.file], fetches, refused, kept)
    ensures var h' := HoldAfter(|source.data|, Lasting(source, dc), ats, h, e, refused);
            if WholeIn(dc, s3Key, etag, source.data)
            then KeptSoFar(Kept(dc, CacheKey(s3Key, etag)), Lasting(source, dc), h', exact)
            else ats[e.file] > 0 && Fetches(|source.data|, ats[e.file], e.op, h.grips[e.file]) && !refused && !h'.safe
  {
    hide Fetches, GripAfter, WholeIn, Kept;
  }

  method OpenAll(source: Source, s3Key: string, etag: string, dc: DataCache?, count: nat)
      returns (files: seq<S3File>, ghost own: set<object>)
    ensures |files| == count && fresh(own) && (forall i :: 0 <= i < count ==> files[i].Footprint() <= own)
    ensures Shelf(files, source, s3Key, etag, dc, Starts(count), NoGrips(count))
  {
    files, own := [], {};
    for i := 0 to count
      invariant |files| == i && fresh(own) && (forall f :: f in files ==> f.Footprint() <= own)
      invariant forall i, j :: 0 <= i < j < |files| ==> files[i].Footprint() !! files[j].Footprint()
      invariant forall f :: f in files ==>
                  f.Of(source, s3Key, etag, dc) && f.Ready() && f.offset == 0 && f.chunked == null
    {
      var f := new S3File(source, s3Key, etag, dc, false);
      files, own := files + [f], own + {f};
    }
  }

  /** Evictions, invalidations and puts of other objects leave the cached object whole, if they leave it. */
  method OtherTraffic(dc: DataCache?, e: Event, s3Key: string, etag: string, data: Bytes)
    requires ValidCache(dc) && WholeIn(dc, s3Key, etag, data)
    requires !e.Use? && (e.PutOther? ==> CacheKey(e.s3Key, e.etag) != CacheKey(s3Key, etag))
    modifies dc
    ensures ValidCache(dc) && WholeIn(dc, s3Key, etag, data)
  {
    if dc != null {
      hide Accounted;
      match e
      case Evict(now) => dc.EvictNow(now);
      case Forget(key) => dc.InvalidateKey(key);
      case PutOther(k, t, d, now, stored) => var ok := dc.Put(k, t, d, now, stored);
      case LookUp(k, t, now) => var found := dc.Get(k, t, now);
      case Lose(name) => dc.LoseFile(name);
    }
  }

  /** The open files: apart from each other, ready, and where the cursors and the grips say. */
  ghost predicate Shelf(files: seq<S3File>, source: Source, s3Key: string, etag: string, dc: DataCache?,
                        ats: seq<nat>, grips: seq<Grip>)
    reads files, set f | f in files && f.chunked != null :: f.chunked,
          set f | f in files && f.chunked != null :: f.chunked.buf
  {
    && |files| == |ats| == |grips|
    && (forall i, j :: 0 <= i < j < |files| ==> files[i].Footprint() !! files[j].Footprint())
    && (forall i :: 0 <= i < |files| ==>
          && files[i].Of(source, s3Key, etag, dc) && files[i].Ready() && files[i].offset == ats[i]
          && (Cacheable(dc, etag, source.data) ==> files[i].Grips() == grips[i]))
  }

  lemma FateOf(f: S3File, op: FileOp, at: nat, g: Grip, tick: nat, was: Index, refused: bool, kept: bool)
    requires f.Small() && f.CacheAfter(op, at, g, tick, was, refused)
    requires var name := CacheKey(f.s3Key, f.etag);
             && (kept <==> name in was.items && name in was.disk)
             && (f.dc.config.ttl <= 0 ==> (kept <==> Hits(f.dc.config, was, name, f.source.clock(tick))))
             && (name in was.disk ==> was.disk[name] == f.source.data)
    ensures CacheFate(f.source, f.dc, f.s3Key, f.etag, at, Fetches(|f.source.data|, at, op, g), refused, kept)
  {
    hide Fetches;
  }

  /** One operation on one of the files. */
  method UseOne(files: seq<S3File>, i: nat, op: FileOp, source: Source, s3Key: string, etag: string, dc: DataCache?,
                ghost ats: seq<nat>, ghost grips: seq<Grip>) returns (out: Outcome, ghost grown: set<object>)
    requires Shelf(files, source, s3Key, etag, dc, ats, grips) && i < |files|
    requires source.Productive() && source.Unbroken() && (Cacheable(dc, etag, source.data) ==> source.Full())
    requires ValidCache(dc) && WholeIn(dc, s3Key, etag, source.data)
    modifies files[i].Footprint(), source, dc
    ensures source.turn >= old(source.turn) && Follows(source.data, ats[i], op, out)
    ensures source.AllServed(old(source.turn), source.turn) ==> out == Cursor(source.data, ats[i], op).0
    ensures Shelf(files, source, s3Key, etag, dc, ats[i := NextAt(ats[i], out)],
                  grips[i := GripAfter(|source.data|, ats[i], op, grips[i], out.Rejected?)])
    ensures fresh(grown) && files[i].Footprint() <= old(files[i].Footprint()) + grown
    ensures forall j :: 0 <= j < |files| && j != i ==> files[j].Footprint() == old(files[j].Footprint())
    ensures ValidCache(dc) && (!Cacheable(dc, etag, source.data) ==> WholeIn(dc, s3Key, etag, source.data))
    ensures Cacheable(dc, etag, source.data) ==>
              CacheFate(source, dc, s3Key, etag, ats[i], Fetches(|source.data|, ats[i], op, grips[i]), out.Rejected?,
                        old(Kept(dc, CacheKey(s3Key, etag))))
  {
    hide Cursor, Follows, GripAfter, Fetches, CacheFate, Kept, WholeIn, ValidCache, NextAt;
    hide S3File.Ready, S3File.Grips;
    out := UseFile(files[i], op);
    grown := files[i].Footprint() - old(files[i].Footprint());
    forall j | 0 <= j < |files| && j != i
      ensures files[j].Footprint() == old(files[j].Footprint()) && files[j].Ready()
      ensures files[j].offset == ats[j] && (Cacheable(dc, etag, source.data) ==> files[j].Grips() == grips[j])
    {
      assert files[j].Footprint() !! old(files[i].Footprint());
    }
  }

  method UseFile(f: S3File, op: FileOp) returns (out: Outcome)
    requires f.Ready() && f.source.Productive() && f.source.Unbroken() && (f.Small() ==> f.source.Full())
    requires ValidCache(f.dc) && WholeIn(f.dc, f.s3Key, f.etag, f.source.data)
    modifies f.Footprint(), f.source, f.dc
    ensures f.Ready() && fresh(f.Footprint() - old(f.Footprint())) && f.source.turn >= old(f.source.turn)
    ensures Follows(f.source.data, old(f.offset), op, out) && f.offset == NextAt(old(f.offset), out)
    ensures f.source.AllServed(old(f.source.turn), f.source.turn) ==> out == Cursor(f.source.data, old(f.offset), op).0
    ensures ValidCache(f.dc) && (!f.Small() ==> WholeIn(f.dc, f.s3Key, f.etag, f.source.data))
    ensures f.Small() ==>
              && f.Grips() == GripAfter(|f.source.data|, old(f.offset), op, old(f.Grips()), out.Rejected?)
              && CacheFate(f.source, f.dc, f.s3Key, f.etag, old(f.offset),
                           Fetches(|f.source.data|, old(f.offset), op, old(f.Grips())), out.Rejected?,
                           old(Kept(f.dc, CacheKey(f.s3Key, f.etag))))
  {
    hide Accounted, Hits, Cursor, Follows, GripAfter, Fetches, CacheFate, NextAt;
    hide S3File.Ready, S3File.Grips, S3File.CacheAfter;
    if f.dc != null && f.dc.config.ttl <= 0 {
      KeptHits(f.dc, CacheKey(f.s3Key, f.etag), f.source.clock(f.source.tick));
    }
    ReadyIsSteady(f);
    out := f.Do(op);
    if f.Small() {
      FateOf(f, op, old(f.offset), old(f.Grips()), old(f.source.tick), old(f.dc.State()), out.Rejected?,
             old(Kept(f.dc, CacheKey(f.s3Key, f.etag))));
    }
  }

  lemma ReadyIsSteady(f: S3File)
    requires f.Ready() && f.source.Productive() && f.WholeInCache() && (f.Small() ==> f.source.Full())
    ensures f.Steady()
  {
  }

  /** What an operation on a small object does to the data cache: see S3File.CacheAfter. */
  ghost predicate CacheFate(source: Source, dc: DataCache, s3Key: string, etag: string, at: nat, fetches: bool,
                            refused: bool, kept: bool)
    reads dc
  {
    var name, whole := CacheKey(s3Key, etag), WholeIn(dc, s3Key, etag, source.data);
    && (!fetches || refused || at == 0 ==> whole)
    && (!fetches ==> (Kept(dc, name) <==> kept))
    && (kept && dc.config.ttl <= 0 ==> whole && Kept(dc, name))
    && (fetches && refused ==> (Kept(dc, name) ==> kept) && (dc.config.ttl <= 0 ==> !kept))
    && (fetches && !refused && Lasting(source, dc) ==> Kept(dc, name) && (at == 0 || kept <==> whole))
  }

  // ----- After a body that breaks off -----

  /**
   * Byte k of an object, in a window from `start`, is not harmed by m bytes for `off` at the front of the buffer: if it
   * was overwritten, it happens to be the same, and if it was lost because the buffer grew, to be zero.
   */
  ghost predicate Unharmed(data: Bytes, start: nat, off: nat, m: nat, grew: bool, k: nat)
    requires start <= k < |data| && off + m <= |data|
  {
    if k - start < m then data[off + (k - start)] == data[k] else grew ==> data[k] == 0 as char
  }

  ghost predicate AllUnharmed(data: Bytes, start: nat, off: nat, m: nat, grew: bool, i: nat, j: nat)
    requires start <= i <= j <= |data| && off + m <= |data|
  {
    forall k :: i <= k < j ==> Unharmed(data, start, off, m, grew, k)
  }

  lemma AfterBreakRightIff(data: Bytes, held: Bytes, start: nat, len: nat, off: nat, length: nat, count: nat,
                           i: nat, j: nat)
    requires start + len <= |data| && len <= |held| && held[..len] == data[start..start + len] && off + length <= |data|
    requires start <= i <= j <= start + len
    ensures AfterBreak(data, held, len, off, length, count)[i - start..j - start] == data[i..j] <==>
            AllUnharmed(data, start, off, Min(length, count), |held| < length, i, j)
  {
    var m, grew, shown := Min(length, count), |held| < length, AfterBreak(data, held, len, off, length, count);
    var a, b := shown[i - start..j - start], data[i..j];
    forall k | i <= k < j ensures shown[k - start] == data[k] <==> Unharmed(data, start, off, m, grew, k) {
      if k - start >= m && !grew {
        assert shown[k - start] == held[k - start] == held[..len][k - start];
      }
    }
    if a == b {
      forall k | i <= k < j ensures shown[k - start] == data[k] {
        assert a[k - i] == b[k - i];
      }
      assert AllUnharmed(data, start, off, m, grew, i, j);
    }
    if AllUnharmed(data, start, off, m, grew, i, j) {
      forall x | 0 <= x < j - i ensures a[x] == b[x] {
        assert Unharmed(data, start, off, m, grew, x + i);
      }
      assert a == b;
    }
  }

  /**
   * A read whose fetch breaks off and then a read back inside the old window: it delivers the object's bytes exactly if
   * the broken body did not harm them.
   */
  method BreakThenRead(r: ChunkReader, q: array<Byte>, off: nat, p: array<Byte>, at: nat)
    requires r.Valid() && r.CacheValid() && r.Steady() && r.Right() && q != r.buf && p != r.buf && p != q
    requires off < |r.source.data| && q.Length > 0 && !r.InWindow(off) && !r.NextHits()
    requires r.source.replies(r.source.turn).Broken?
    requires r.InWindow(at) && at + p.Length <= r.bufStart + r.bufLen
    modifies r, r.buf, q, p, r.source, r.dc
    ensures q[..] == old(q[..]) && r.Valid() && r.bufStart == old(r.bufStart) && r.bufLen == old(r.bufLen)
    ensures r.source.turn == old(r.source.turn) + 1
    ensures var length := Min(old(r.ChunkAt(off)), |r.source.data| - off);
            var count := r.source.replies(old(r.source.turn)).count;
            && p[..] == AfterBreak(r.source.data, old(r.buf[..]), old(r.bufLen), off, length, count)
                          [at - old(r.bufStart)..at - old(r.bufStart) + p.Length]
            && (p[..] == r.source.data[at..at + p.Length] <==>
                AllUnharmed(r.source.data, old(r.bufStart), off, Min(length, count), old(r.buf.Length) < length,
                            at, at + p.Length))
  {
    hide AfterBreak, Hits, AllUnharmed;
    hide ChunkReader.Steady, ChunkReader.Right, ChunkReader.CacheValid, ChunkReader.ChunkAt;
    ghost var data, held, start, len := r.source.data, r.buf[..], r.bufStart, r.bufLen;
    ghost var length, count := Min(r.ChunkAt(off), |data| - off), r.source.replies(r.source.turn).count;
    RightWindow(r);
    BreakAndSeek(r, q, off, at);
    ReadInside(r, p, at);
    AfterBreakRightIff(data, held, start, len, off, length, count, at, at + p.Length);
  }

  /** A read inside the window delivers what the window shows. */
  method ReadInside(r: ChunkReader, p: array<Byte>, at: nat)
    requires r.Valid() && r.CacheValid() && r.Steady() && p != r.buf
    requires r.InWindow(at) && at + p.Length <= r.bufStart + r.bufLen
    modifies r, r.buf, p, r.source, r.dc
    ensures p[..] == old(r.buf[..r.bufLen])[at - old(r.bufStart)..at - old(r.bufStart) + p.Length]
    ensures r.Valid() && r.bufStart == old(r.bufStart) && r.bufLen == old(r.bufLen) && r.source.turn == old(r.source.turn)
  {
    hide ChunkFor, AfterBreak, Delivered, Hits;
    ghost var data, window, start := r.source.data, r.buf[..r.bufLen], r.bufStart;
    var n, err := r.ReadAt(p, at);
    WindowDelivered(data, window, start, at, p.Length);
    assert p[..p.Length] == p[..];
  }

  lemma RightWindow(r: ChunkReader)
    requires r.Right()
    ensures r.bufStart + r.bufLen <= |r.source.data| && r.bufLen <= r.buf.Length
    ensures r.buf[..][..r.bufLen] == r.source.data[r.bufStart..r.bufStart + r.bufLen]
  {
    assert r.buf[..][..r.bufLen] == r.buf[..r.bufLen];
  }

  method BreakAndSeek(r: ChunkReader, q: array<Byte>, off: nat, at: nat)
    requires r.Valid() && r.CacheValid() && r.Steady() && q != r.buf
    requires off < |r.source.data| && q.Length > 0 && !r.InWindow(off) && !r.NextHits()
    requires r.source.replies(r.source.turn).Broken? && r.InWindow(at)
    modifies r, r.buf, q, r.source, r.dc
    ensures r.Valid() && r.CacheValid() && r.Steady() && (r.buf == old(r.buf) || fresh(r.buf)) && q[..] == old(q[..])
    ensures r.bufStart == old(r.bufStart) && r.bufLen == old(r.bufLen) && r.source.turn == old(r.source.turn) + 1
    ensures r.buf[..r.bufLen] ==
            AfterBreak(r.source.data, old(r.buf[..]), r.bufLen, off, Min(old(r.ChunkAt(off)), |r.source.data| - off),
                       r.source.replies(old(r.source.turn)).count)
  {
    hide ChunkFor, AfterBreak, Delivered, Hits;
    var n, err := r.ReadAt(q, off);
    assert q[0..] == q[..] && old(q[0..]) == old(q[..]);
    r.SeekTo(at);
  }

  lemma WindowDelivered(data: Bytes, window: Bytes, start: nat, at: nat, n: nat)
    requires start <= at < start + |window| && at + n <= start + |window| <= |data|
    ensures Delivered(data, window, start, at, n) == window[at - start..at - start + n]
  {
    assert data[at + n..at + n] == [];
  }

  /**
   * A run that delivers wrong bytes: of "abcd" the first two are fetched, the fetch of the next breaks off after one, and
   * the first two are read again, from the reader's own window, without a request.
   */
  method WrongBytes() returns (r: ChunkReader, bytes: Bytes)
    ensures r.Valid() && r.dc == null && r.source.data == "abcd" && r.source.turn == 2
    ensures r.source.replies(0) == Served(2) && r.source.replies(1) == Broken(1)
    ensures r.bufStart == 0 && r.bufLen == |bytes| && bytes == "cb" && bytes != r.source.data[..2]
  {
    hide Hits, ChunkFor, ChunkReader.Right;
    var replies := (i: nat) => if i == 0 then Served(2) else if i == 1 then Broken(1) else Served(4);
    var source := new Source("abcd", replies, _ => 0, _ => true);
    assert source.Productive();
    r := FirstTwo(source);
    bytes := ReadBack(r);
    assert r.source.data[..2] == "ab";
  }

  method ReadBack(r: ChunkReader) returns (bytes: Bytes)
    requires r.source.data == "abcd" && r.dc == null && r.Valid() && r.Right() && r.source.Productive()
    requires r.bufStart == 0 && r.bufLen == 2 && r.buf.Length >= 4 && r.buf[..][..2] == "ab"
    requires r.source.replies(r.source.turn) == Broken(1)
    modifies r, r.buf, r.source
    ensures bytes == "cb" && r.Valid() && r.bufStart == 0 && r.bufLen == 2 && r.source.turn == old(r.source.turn) + 1
  {
    hide Hits, ChunkFor, AfterBreak, AllUnharmed, ChunkReader.Right;
    ghost var held := r.buf[..];
    var q, p := new Byte[1](_ => 0 as char), new Byte[2](_ => 0 as char);
    BreakThenRead(r, q, 2, p, 0);
    OneOverTwo(held);
    bytes := p[..];
  }

  method FirstTwo(source: Source) returns (r: ChunkReader)
    requires source.data == "abcd" && source.replies(source.turn) == Served(2)
    modifies source
    ensures fresh(r) && fresh(r.buf) && r.source == source && r.dc == null && r.Valid() && r.Right()
    ensures r.bufStart == 0 && r.bufLen == 2 && r.buf.Length >= 4 && r.buf[..][..2] == "ab"
    ensures source.turn == old(source.turn) + 1
  {
    hide Hits, ChunkFor, AfterBreak;
    r := new ChunkReader(source, "key", null, "");
    var ok := r.FetchChunk(0);
    assert r.buf[..r.bufLen] == "ab" && r.buf[..][..2] == r.buf[..2];
  }

  lemma OneOverTwo(held: Bytes)
    requires |held| >= 4 && held[..2] == "ab"
    ensures AfterBreak("abcd", held, 2, 2, 2, 1)[0..2] == "cb"
  {
    assert "abcd"[2..3] == "c" && held[1] == held[..2][1];
  }

  /**
   * A run that caches a part for the whole: of "ab" the second byte is fetched and cached. Another reader then gets it
   * for the first byte, and for the second byte gets nothing, again and again: no request is made any more.
   */
  method PartForWhole() returns (dc: DataCache, source: Source, first: Bytes, second: Bytes)
    ensures source.data == "ab" && source.turn == 1
    ensures dc.Valid() && Kept(dc, CacheKey("key", "etag")) && dc.disk[CacheKey("key", "etag")] == source.data[1..]
    ensures first == source.data[1..] && first != source.data[..1] && second == []
  {
    hide Accounted, ChunkFor, AfterBreak, Hits, Kept;
    source := new Source("ab", _ => Served(2), _ => 0, _ => true);
    dc := EmptyCache();
    CacheSecond(source, dc);
    first := FromCache(source, dc, 0);
    second := FromCache(source, dc, 1);
    assert source.data[1..] == "b" && source.data[..1] == "a" && CacheKey("key", "etag") == "keyetag";
  }

  method EmptyCache() returns (dc: DataCache)
    ensures fresh(dc) && dc.Valid() && dc.config == DataCaching.Config(10, 0) && dc.disk == map[]
  {
    hide Accounted;
    dc := new DataCache(DataCaching.Config(10, 0), map[], [], map[], 0);
  }

  method CacheSecond(source: Source, dc: DataCache)
    requires source.data == "ab" && source.replies(source.turn) == Served(2) && source.stores(source.tick)
    requires dc.Valid() && dc.config == DataCaching.Config(10, 0) && dc.disk == map[]
    modifies source, dc
    ensures dc.Valid() && Kept(dc, "keyetag") && dc.disk["keyetag"] == "b" && source.turn == old(source.turn) + 1
  {
    hide Accounted, ChunkFor, AfterBreak;
    var r := new ChunkReader(source, "key", dc, "etag");
    assert r.Name() == "keyetag";
    var ok := r.FetchChunk(1);
    assert r.buf[..r.bufLen] == "b";
  }

  /** What a new reader's fetch takes from a cache that has "b" for "ab". */
  method FromCache(source: Source, dc: DataCache, off: nat) returns (bytes: Bytes)
    requires source.data == "ab" && off < 2 && dc.Valid() && dc.config == DataCaching.Config(10, 0)
    requires Kept(dc, "keyetag") && dc.disk["keyetag"] == "b"
    modifies source, dc
    ensures bytes == (if off == 0 then "b" else "") && dc.Valid() && Kept(dc, "keyetag") && dc.disk["keyetag"] == "b"
    ensures source.turn == old(source.turn)
  {
    hide Accounted, ChunkFor, AfterBreak, Hits;
    var r := new ChunkReader(source, "key", dc, "etag");
    assert r.Name() == "keyetag";
    KeptHits(dc, "keyetag", source.clock(source.tick));
    var ok := r.FetchChunk(off);
    bytes := r.buf[..r.bufLen];
  }

  // ----- Sequential reads -----

  /**
   * Reads one after the other from the start, after a seek or on a new reader: they deliver the front of the object in
   * order, and the chunk grows to 4 MB with the fifth read and to 16 MB with the thirteenth. For objects that are
   * written to the data cache, which are smaller than the smallest chunk, see Replay.
   */
  method ReadThrough(r: ChunkReader, p: array<Byte>, count: nat) returns (content: Bytes)
    requires r.Valid() && r.CacheValid() && r.Steady() && !r.Small() && r.Right() && p != r.buf && p.Length > 0
    requires r.lastEnd == -1 && r.seqCount == 0 && count * p.Length <= |r.source.data|
    requires forall i: nat :: r.source.replies(i).Served?
    modifies r, r.buf, p, r.source, r.dc
    ensures content == r.source.data[..count * p.Length]
    ensures r.chunkSize == (if count <= 4 then 0x10_0000 else if count <= 12 then 0x40_0000 else 0x100_0000)
  {
    hide Accounted, Hits, AfterBreak, Delivered;
    var off := 0;
    content := [];
    for i := 0 to count
      invariant r.Valid() && r.CacheValid() && r.Steady() && r.Right() && p != r.buf && (r.buf == old(r.buf) || fresh(r.buf))
      invariant off == i * p.Length <= count * p.Length
      invariant if i == 0 then r.seqCount == 0 && r.lastEnd == -1 else r.seqCount == i - 1 && r.lastEnd == off
      invariant content == r.source.data[..off]
    {
      OneMoreFits(i, count, p.Length);
      ghost var window, start := r.buf[..r.bufLen], r.bufStart;
      var n, err := r.ReadAt(p, off);
      DeliveredRightIff(r.source.data, window, start, off, n);
      content := content + p[..n];
      off := off + n;
    }
  }

  lemma OneMoreFits(i: nat, count: nat, len: nat)
    requires i < count
    ensures (i + 1) * len == i * len + len && (i + 1) * len <= count * len
  {
  }
}
