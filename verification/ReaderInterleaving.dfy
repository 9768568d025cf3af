/**
 * Readers over one data cache with every step of a fetch interleaved: the lookup, the range request and the cache write
 * of internal/s3fs/reader.go between the critical sections of the cache that DataCacheInterleaving cuts it into.
 */
module ReaderInterleaving {
  import opened Base
  import opened DataCaching
  import opened Reading
  import I = DataCacheInterleaving

  /** An open reader: its buffer, the offset it is fetching, and whether what it has fetched is about to be cached. */
  datatype Buffer = Buffer(s3Key: string, etag: string, start: nat, bytes: Bytes, wants: Option<nat>, puts: bool)

  /** Bytes handed to the caller. */
  datatype Delivery = Delivery(s3Key: string, etag: string, off: nat, bytes: Bytes)

  datatype Joint = Joint(
    run: seq<I.Step>,            // what has happened in the cache
    buffers: map<nat, Buffer>,
    given: seq<Delivery>)

  datatype Step =
    | Cache(step: I.Step)                          // a lookup, a record, an eviction, a loss, a restart
    | OpenReader(id: nat, s3Key: string, etag: string)
    | Miss(id: nat, off: nat)                      // a read of what the buffer does not hold
    | Take(id: nat, reader: I.Reader, length: nat) // the lookup has found a file
    | Range(id: nat, length: nat, count: nat)      // the range request is answered
    | PutFetched(id: nat)                          // the rename at the heart of the cache write
    | SeekOut(id: nat)                             // a seek that drops the buffer
    | Copy(id: nat, off: nat, length: nat)         // bytes from the buffer to the caller

  /** The object a buffer is for. */
  function Object(objects: I.Objects, b: Buffer): Bytes {
    if (b.s3Key, b.etag) in objects then objects[(b.s3Key, b.etag)] else []
  }

  predicate IsSmall(objects: I.Objects, b: Buffer) {
    |Object(objects, b)| <= SMALL && b.etag != ""
  }

  predicate InBuffer(b: Buffer, off: nat) {
    b.start <= off < b.start + |b.bytes|
  }

  ghost predicate Enabled(cfg: Config, objects: I.Objects, j: Joint, step: Step) {
    match step
    case Cache(s) => !s.PlaceStep?
    case OpenReader(id, s3Key, etag) => id !in j.buffers && (s3Key, etag) in objects
    case Miss(id, off) =>
      id in j.buffers && off < |Object(objects, j.buffers[id])| && !InBuffer(j.buffers[id], off)
    case Take(id, r, length) =>
      && id in j.buffers && j.buffers[id].wants.Some?
      && r.s3Key == j.buffers[id].s3Key && r.etag == j.buffers[id].etag
      && Fits(objects, j.buffers[id], length)
      && r in I.After(cfg, j.run).opening && I.Name(r.s3Key, r.etag) in I.After(cfg, j.run).ix.disk
    case Range(id, length, _) => id in j.buffers && j.buffers[id].wants.Some? && Fits(objects, j.buffers[id], length)
    case PutFetched(id) => id in j.buffers && j.buffers[id].puts
    case SeekOut(id) => id in j.buffers
    case Copy(id, off, length) =>
      id in j.buffers && j.buffers[id].start <= off && off + length <= j.buffers[id].start + |j.buffers[id].bytes|
  }

  /** The length of a fetch: the chunk, or what is left of the object, which is all of it if the object is small. */
  predicate Fits(objects: I.Objects, b: Buffer, length: nat) {
    && b.wants.Some? && b.wants.value + length <= |Object(objects, b)|
    && (IsSmall(objects, b) ==> b.wants.value + length == |Object(objects, b)|)
  }

  ghost function Next(cfg: Config, objects: I.Objects, j: Joint, step: Step): Joint
    requires Enabled(cfg, objects, j, step)
  {
    match step
    case Cache(s) => j.(run := j.run + [s])
    case OpenReader(id, s3Key, etag) => j.(buffers := j.buffers[id := Buffer(s3Key, etag, 0, [], None, false)])
    case Miss(id, off) => j.(buffers := j.buffers[id := j.buffers[id].(wants := Some(off), puts := false)])
    case Take(id, r, length) =>
      var b := j.buffers[id];
      var file := I.After(cfg, j.run).ix.disk[I.Name(r.s3Key, r.etag)];
      j.(run := j.run + [I.OpenStep(r)],
         buffers := j.buffers[id := b.(start := b.wants.value, bytes := Part(file, b.wants.value, length), wants := None)])
    case Range(id, length, count) =>
      var b := j.buffers[id];
      var bytes := Object(objects, b)[b.wants.value..b.wants.value + Min(length, count)];
      j.(buffers := j.buffers[id := b.(start := b.wants.value, bytes := bytes, wants := None, puts := IsSmall(objects, b))])
    case PutFetched(id) =>
      var b := j.buffers[id];
      j.(run := j.run + [I.PlaceStep(I.Placed(b.s3Key, b.etag, b.bytes))],
         buffers := j.buffers[id := b.(puts := false)])
    case SeekOut(id) => j.(buffers := j.buffers[id := j.buffers[id].(bytes := [], wants := None, puts := false)])
    case Copy(id, off, length) =>
      var b := j.buffers[id];
      j.(given := j.given + [Delivery(b.s3Key, b.etag, off, b.bytes[off - b.start..off - b.start + length])])
  }

  /** After a run from no readers and an empty cache; steps that are not enabled are passed over. */
  ghost function After(cfg: Config, objects: I.Objects, steps: seq<Step>): Joint {
    if steps == [] then Joint([], map[], [])
    else
      var j := After(cfg, objects, steps[..|steps| - 1]);
      if Enabled(cfg, objects, j, steps[|steps| - 1]) then Next(cfg, objects, j, steps[|steps| - 1]) else j
  }

  // ----- What is right -----

  /** The buffer shows the object's bytes. */
  ghost predicate RightBuffer(objects: I.Objects, b: Buffer) {
    && (b.s3Key, b.etag) in objects && b.start + |b.bytes| <= |Object(objects, b)|
    && b.bytes == Object(objects, b)[b.start..b.start + |b.bytes|]
  }

  ghost predicate RightRead(objects: I.Objects, d: Delivery) {
    && (d.s3Key, d.etag) in objects && d.off + |d.bytes| <= |objects[(d.s3Key, d.etag)]|
    && d.bytes == objects[(d.s3Key, d.etag)][d.off..d.off + |d.bytes|]
  }

  ghost predicate AllRight(objects: I.Objects, j: Joint) {
    && (forall id :: id in j.buffers ==> RightBuffer(objects, j.buffers[id]))
    && (forall n :: 0 <= n < |j.given| ==> RightRead(objects, j.given[n]))
    && I.PutsWholeObjects(j.run, objects)
  }

  /** What the step caches, if it does, has been fetched from offset 0 and is complete. */
  ghost predicate PutsWhole(objects: I.Objects, j: Joint, step: Step) {
    step.PutFetched? && step.id in j.buffers ==>
      var b := j.buffers[step.id];
      b.start == 0 && |b.bytes| == |Object(objects, b)|
  }

  /** In the whole run nothing is cached that was fetched above 0 or answered short. */
  ghost predicate AlwaysWhole(cfg: Config, objects: I.Objects, steps: seq<Step>) {
    forall n :: 0 <= n < |steps| && Enabled(cfg, objects, After(cfg, objects, steps[..n]), steps[n]) ==>
      PutsWhole(objects, After(cfg, objects, steps[..n]), steps[n])
  }

  // ----- One step -----

  /** A file of the cache, if only whole objects have been put, is the object. */
  lemma FileIsObject(cfg: Config, objects: I.Objects, run: seq<I.Step>, r: I.Reader)
    requires I.PutsWholeObjects(run, objects) && I.NamesTellApart(objects) && (r.s3Key, r.etag) in objects
    requires r in I.After(cfg, run).opening && I.Name(r.s3Key, r.etag) in I.After(cfg, run).ix.disk
    ensures I.After(cfg, run).ix.disk[I.Name(r.s3Key, r.etag)] == objects[(r.s3Key, r.etag)]
  {
    hide I.After, I.Sane;
    var m := I.After(cfg, run);
    I.OneMore(cfg, run, I.OpenStep(r));
    var h := I.Placed(r.s3Key, r.etag, m.ix.disk[I.Name(r.s3Key, r.etag)]);
    assert I.After(cfg, run + [I.OpenStep(r)]).hits == m.hits + [h];
    PutsOneMore(run, I.OpenStep(r), objects);
    I.CachedReadsAreObjects(cfg, run + [I.OpenStep(r)], objects);
    assert h in I.After(cfg, run + [I.OpenStep(r)]).hits;
  }

  lemma PutsOneMore(run: seq<I.Step>, step: I.Step, objects: I.Objects)
    requires I.PutsWholeObjects(run, objects)
    ensures I.PutsWholeObjects(run + [step], objects) <==>
            (step.PlaceStep? ==> var p := step.placed; (p.s3Key, p.etag) in objects && objects[(p.s3Key, p.etag)] == p.data)
  {
    assert (run + [step])[|run|] == step;
    assert forall n :: 0 <= n < |run| ==> (run + [step])[n] == run[n];
  }

  /** From a right state the puts stay whole exactly if the step caches a fetch from 0 that is complete. */
  lemma PutsStayIff(cfg: Config, objects: I.Objects, j: Joint, step: Step)
    requires AllRight(objects, j) && Enabled(cfg, objects, j, step)
    ensures I.PutsWholeObjects(Next(cfg, objects, j, step).run, objects) <==> PutsWhole(objects, j, step)
  {
    hide I.After, I.PutsWholeObjects;
    match step
    case Cache(s) => PutsOneMore(j.run, s, objects);
    case Take(_, r, _) => PutsOneMore(j.run, I.OpenStep(r), objects);
    case PutFetched(id) =>
      var b := j.buffers[id];
      PutsOneMore(j.run, I.PlaceStep(I.Placed(b.s3Key, b.etag, b.bytes)), objects);
      assert RightBuffer(objects, b);
    case _ =>
  }

  lemma BuffersStayRight(cfg: Config, objects: I.Objects, j: Joint, step: Step)
    requires AllRight(objects, j) && I.NamesTellApart(objects) && Enabled(cfg, objects, j, step)
    ensures forall id :: id in Next(cfg, objects, j, step).buffers ==>
              RightBuffer(objects, Next(cfg, objects, j, step).buffers[id])
  {
    hide I.After, I.PutsWholeObjects, I.NamesTellApart, RightRead;
    if step.Take? {
      var b := j.buffers[step.id];
      assert RightBuffer(objects, b);
      FileIsObject(cfg, objects, j.run, step.reader);
      var part := Part(Object(objects, b), b.wants.value, step.length);
      assert part == Object(objects, b)[b.wants.value..b.wants.value + |part|];
    }
  }

  lemma ReadsStayRight(cfg: Config, objects: I.Objects, j: Joint, step: Step)
    requires AllRight(objects, j) && Enabled(cfg, objects, j, step)
    ensures forall n :: 0 <= n < |Next(cfg, objects, j, step).given| ==>
              RightRead(objects, Next(cfg, objects, j, step).given[n])
  {
    hide I.After, I.PutsWholeObjects;
    if step.Copy? {
      var b := j.buffers[step.id];
      assert RightBuffer(objects, b);
      SliceOfSlice(Object(objects, b), b.start, b.start + |b.bytes|, step.off - b.start, step.off - b.start + step.length);
    }
  }

  // ----- Runs -----

  /**
   * In every interleaving of the steps of any number of readers, lookups, requests and cache writes, if nothing is cached
   * that was fetched above 0 or answered short, every buffer and every read shows the object's own bytes.
   */
  lemma {:induction false} ReadsRight(cfg: Config, objects: I.Objects, steps: seq<Step>)
    requires I.NamesTellApart(objects) && AlwaysWhole(cfg, objects, steps)
    ensures AllRight(objects, After(cfg, objects, steps))
    decreases |steps|
  {
    hide Next, Enabled, I.NamesTellApart, I.PutsWholeObjects, RightBuffer, RightRead, PutsWhole;
    if steps == [] {
      NoPuts(objects);
    } else {
      var before, last := steps[..|steps| - 1], steps[|steps| - 1];
      WholePrefix(cfg, objects, steps);
      ReadsRight(cfg, objects, before);
      var j := After(cfg, objects, before);
      if Enabled(cfg, objects, j, last) {
        PutsStayIff(cfg, objects, j, last);
        BuffersStayRight(cfg, objects, j, last);
        ReadsStayRight(cfg, objects, j, last);
      }
    }
  }

  lemma NoPuts(objects: I.Objects)
    ensures I.PutsWholeObjects([], objects)
  {
  }

  lemma WholePrefix(cfg: Config, objects: I.Objects, steps: seq<Step>)
    requires steps != [] && AlwaysWhole(cfg, objects, steps)
    ensures AlwaysWhole(cfg, objects, steps[..|steps| - 1])
  {
    hide After, Enabled, PutsWhole;
    var before := steps[..|steps| - 1];
    assert forall n :: 0 <= n < |before| ==> before[..n] == steps[..n];
  }

  /** The cache has been given only whole objects exactly if no fetch above 0 or answered short was cached. */
  lemma {:induction false} WholeObjectsIff(cfg: Config, objects: I.Objects, steps: seq<Step>)
    requires I.NamesTellApart(objects)
    ensures I.PutsWholeObjects(After(cfg, objects, steps).run, objects) <==> AlwaysWhole(cfg, objects, steps)
    decreases |steps|
  {
    hide Next, Enabled, I.NamesTellApart, I.PutsWholeObjects, RightBuffer, RightRead, PutsWhole;
    if steps == [] {
      NoPuts(objects);
    } else {
      var before, last := steps[..|steps| - 1], steps[|steps| - 1];
      WholeObjectsIff(cfg, objects, before);
      if I.PutsWholeObjects(After(cfg, objects, steps).run, objects) {
        LongerRun(cfg, objects, steps);
      }
      WholeOneMore(cfg, objects, steps);
      var j := After(cfg, objects, before);
      if AlwaysWhole(cfg, objects, before) {
        ReadsRight(cfg, objects, before);
        if Enabled(cfg, objects, j, last) {
          PutsStayIff(cfg, objects, j, last);
        }
      }
    }
  }

  lemma WholeOneMore(cfg: Config, objects: I.Objects, steps: seq<Step>)
    requires steps != []
    ensures var before, last := steps[..|steps| - 1], steps[|steps| - 1];
            var j := After(cfg, objects, before);
            AlwaysWhole(cfg, objects, steps) <==>
            AlwaysWhole(cfg, objects, before) && (Enabled(cfg, objects, j, last) ==> PutsWhole(objects, j, last))
  {
    hide After, Enabled, PutsWhole;
    var before := steps[..|steps| - 1];
    assert forall n :: 0 <= n < |before| ==> before[..n] == steps[..n];
  }

  /** A put that was not whole stays in the history. */
  lemma LongerRun(cfg: Config, objects: I.Objects, steps: seq<Step>)
    requires steps != [] && I.PutsWholeObjects(After(cfg, objects, steps).run, objects)
    ensures I.PutsWholeObjects(After(cfg, objects, steps[..|steps| - 1]).run, objects)
  {
    hide I.After;
    var j, j' := After(cfg, objects, steps[..|steps| - 1]), After(cfg, objects, steps);
    assert j.run <= j'.run;
    assert forall n :: 0 <= n < |j.run| ==> j.run[n] == j'.run[n];
  }

  lemma OneMore(cfg: Config, objects: I.Objects, steps: seq<Step>, step: Step)
    requires Enabled(cfg, objects, After(cfg, objects, steps), step)
    ensures After(cfg, objects, steps + [step]) == Next(cfg, objects, After(cfg, objects, steps), step)
  {
    hide Next, Enabled;
    assert (steps + [step])[..|steps|] == steps;
  }

  /** A copy hands over all the bytes asked for, and they are the object's at that offset. */
  lemma {:induction false} CopyDelivers(cfg: Config, objects: I.Objects, steps: seq<Step>, id: nat, off: nat, length: nat)
    requires I.NamesTellApart(objects) && AlwaysWhole(cfg, objects, steps)
    requires Enabled(cfg, objects, After(cfg, objects, steps), Copy(id, off, length))
    ensures var j, j' := After(cfg, objects, steps), After(cfg, objects, steps + [Copy(id, off, length)]);
            var b := j.buffers[id];
            && (b.s3Key, b.etag) in objects && off + length <= |objects[(b.s3Key, b.etag)]|
            && j'.given == j.given + [Delivery(b.s3Key, b.etag, off, objects[(b.s3Key, b.etag)][off..off + length])]
            && j'.buffers == j.buffers && j'.run == j.run
  {
    hide After, I.After, I.NamesTellApart, I.PutsWholeObjects, RightRead, AlwaysWhole;
    ReadsRight(cfg, objects, steps);
    OneMore(cfg, objects, steps, Copy(id, off, length));
    var b := After(cfg, objects, steps).buffers[id];
    assert RightBuffer(objects, b);
    SliceOfSlice(Object(objects, b), b.start, b.start + |b.bytes|, off - b.start, off - b.start + length);
  }

  /** A hit fills the buffer with all that was asked for, as a request does that is answered in full. */
  lemma {:induction false} FetchFills(cfg: Config, objects: I.Objects, steps: seq<Step>, step: Step)
    requires I.NamesTellApart(objects) && AlwaysWhole(cfg, objects, steps) && (step.Take? || step.Range?)
    requires Enabled(cfg, objects, After(cfg, objects, steps), step)
    ensures var b, b' := After(cfg, objects, steps).buffers[step.id], After(cfg, objects, steps + [step]).buffers[step.id];
            var n := if step.Range? then Min(step.length, step.count) else step.length;
            && b.wants.Some? && b.wants.value + n <= |Object(objects, b)|
            && b'.start == b.wants.value && b'.bytes == Object(objects, b)[b.wants.value..b.wants.value + n]
  {
    hide After, I.After, I.NamesTellApart, I.PutsWholeObjects, RightRead, AlwaysWhole;
    ReadsRight(cfg, objects, steps);
    OneMore(cfg, objects, steps, step);
    var j := After(cfg, objects, steps);
    var b := j.buffers[step.id];
    assert RightBuffer(objects, b);
    if step.Take? {
      FileIsObject(cfg, objects, j.run, step.reader);
      var part := Part(Object(objects, b), b.wants.value, step.length);
      assert part == Object(objects, b)[b.wants.value..b.wants.value + step.length];
    }
  }

  // ----- Schedules -----

  /**
   * The step is harmless to a cache of whole objects: a reader of a small object whose buffer is empty, because it is new
   * or has sought, asks for offset 0, and the answer to its request is complete.
   */
  ghost predicate FromStart(objects: I.Objects, j: Joint, step: Step) {
    match step
    case Miss(id, off) => id in j.buffers && IsSmall(objects, j.buffers[id]) && j.buffers[id].bytes == [] ==> off == 0
    case Range(id, length, count) => id in j.buffers && IsSmall(objects, j.buffers[id]) ==> count >= length
    case _ => true
  }

  ghost predicate AlwaysFromStart(cfg: Config, objects: I.Objects, steps: seq<Step>) {
    forall n :: 0 <= n < |steps| && Enabled(cfg, objects, After(cfg, objects, steps[..n]), steps[n]) ==>
      FromStart(objects, After(cfg, objects, steps[..n]), steps[n])
  }

  /** A small object is held whole or not at all, and only ever asked for from the start. */
  ghost predicate WholeOrNone(objects: I.Objects, b: Buffer) {
    IsSmall(objects, b) ==>
      && (b.bytes == [] || (b.start == 0 && b.bytes == Object(objects, b)))
      && (b.wants.Some? ==> b.wants.value == 0)
      && (b.puts ==> b.start == 0 && |b.bytes| == |Object(objects, b)|)
  }

  lemma WholeOrNoneStays(cfg: Config, objects: I.Objects, j: Joint, step: Step)
    requires AllRight(objects, j) && I.NamesTellApart(objects) && Enabled(cfg, objects, j, step) && FromStart(objects, j, step)
    requires forall id :: id in j.buffers ==> WholeOrNone(objects, j.buffers[id])
    ensures forall id :: id in Next(cfg, objects, j, step).buffers ==>
              WholeOrNone(objects, Next(cfg, objects, j, step).buffers[id])
  {
    hide I.After, I.PutsWholeObjects, I.NamesTellApart, RightRead, I.Name;
    if step.Take? {
      assert RightBuffer(objects, j.buffers[step.id]);
      FileIsObject(cfg, objects, j.run, step.reader);
    }
  }

  lemma OnlyWholePuts(cfg: Config, objects: I.Objects, steps: seq<Step>)
    requires steps != [] && AlwaysWhole(cfg, objects, steps[..|steps| - 1])
    requires var j := After(cfg, objects, steps[..|steps| - 1]);
             forall id :: id in j.buffers && j.buffers[id].puts ==>
               j.buffers[id].start == 0 && |j.buffers[id].bytes| == |Object(objects, j.buffers[id])|
    ensures AlwaysWhole(cfg, objects, steps)
  {
    hide After, AlwaysWhole, Object;
    WholeOneMore(cfg, objects, steps);
  }

  /** Only small objects are cached. */
  ghost predicate SmallPuts(objects: I.Objects, j: Joint) {
    forall id :: id in j.buffers && j.buffers[id].puts ==> IsSmall(objects, j.buffers[id])
  }

  lemma SmallPutsStay(cfg: Config, objects: I.Objects, j: Joint, step: Step)
    requires SmallPuts(objects, j) && Enabled(cfg, objects, j, step)
    ensures SmallPuts(objects, Next(cfg, objects, j, step))
  {
    hide I.After, Part;
  }

  /**
   * So over every interleaving: if each fetch of a small object into an empty buffer starts at 0, and its requests are
   * answered in full, only whole objects are cached, and every read is the object's own bytes.
   */
  lemma {:induction false} SafeFromStart(cfg: Config, objects: I.Objects, steps: seq<Step>)
    requires I.NamesTellApart(objects) && AlwaysFromStart(cfg, objects, steps)
    ensures AlwaysWhole(cfg, objects, steps) && AllRight(objects, After(cfg, objects, steps))
    ensures forall id :: id in After(cfg, objects, steps).buffers ==>
              WholeOrNone(objects, After(cfg, objects, steps).buffers[id])
    ensures SmallPuts(objects, After(cfg, objects, steps))
    decreases |steps|
  {
    hide Next, Enabled, I.NamesTellApart, AllRight, WholeOrNone, FromStart, SmallPuts;
    if steps == [] {
      ReadsRight(cfg, objects, steps);
      SmallNone(objects);
    } else {
      var before, last := steps[..|steps| - 1], steps[|steps| - 1];
      assert forall n :: 0 <= n < |before| ==> before[..n] == steps[..n];
      SafeFromStart(cfg, objects, before);
      var j := After(cfg, objects, before);
      WholeIfPut(objects, j);
      OnlyWholePuts(cfg, objects, steps);
      ReadsRight(cfg, objects, steps);
      hide AlwaysWhole;
      if Enabled(cfg, objects, j, last) {
        WholeOrNoneStays(cfg, objects, j, last);
        SmallPutsStay(cfg, objects, j, last);
      }
    }
  }

  lemma SmallNone(objects: I.Objects)
    ensures SmallPuts(objects, Joint([], map[], []))
  {
  }

  lemma WholeIfPut(objects: I.Objects, j: Joint)
    requires SmallPuts(objects, j) && forall id :: id in j.buffers ==> WholeOrNone(objects, j.buffers[id])
    ensures forall id :: id in j.buffers && j.buffers[id].puts ==>
              j.buffers[id].start == 0 && |j.buffers[id].bytes| == |Object(objects, j.buffers[id])|
  {
    hide IsSmall, Object;
  }
}
