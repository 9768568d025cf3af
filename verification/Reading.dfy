/**
 * The read path: the chunkReader of internal/s3fs/reader.go and the s3File of internal/s3fs/file.go, against an
 * object that does not change while it is open and a server that may answer short, refuse or break off.
 */
module Reading {
  import opened Base
  import opened DataCaching

  const MB: nat := 0x10_0000
  const SMALL: nat := 128 * 1024

  /** How GetObjectRange and the read of its body go: the count is of bytes delivered. */
  datatype Reply = Refused | Served(count: nat) | Broken(count: nat)

  /**
   * The object being read, and what its readers meet: the reply to each range request (numbered by `turn`), and
   * the time and the fate of a cache write at each fetch (numbered by `tick`).
   */
  class Source {
    const data: Bytes
    const replies: nat -> Reply
    const clock: nat -> int
    const stores: nat -> bool
    var turn: nat
    var tick: nat

    constructor (data: Bytes, replies: nat -> Reply, clock: nat -> int, stores: nat -> bool)
      ensures this.data == data && this.replies == replies && this.clock == clock && this.stores == stores
      ensures turn == 0 && tick == 0
    {
      this.data, this.replies, this.clock, this.stores := data, replies, clock, stores;
      turn, tick := 0, 0;
    }

    /** A served body has at least one byte. */
    ghost predicate Productive() {
      forall i: nat :: replies(i).Served? ==> replies(i).count >= 1
    }

    /** A served body has all that was asked for, as far as the object goes. */
    ghost predicate Full() {
      forall i: nat :: replies(i).Served? ==> replies(i).count >= |data|
    }

    /** No body breaks off: a request that fails does so before its body. */
    ghost predicate Unbroken() {
      forall i: nat :: !replies(i).Broken?
    }

    /** None of the bodies of requests i, ..., j - 1 broke off. */
    ghost predicate NoneBroken(i: nat, j: nat) {
      forall k: nat :: i <= k < j ==> !replies(k).Broken?
    }

    /** Requests i, ..., j - 1 were served. */
    ghost predicate AllServed(i: nat, j: nat) {
      forall k: nat :: i <= k < j ==> replies(k).Served?
    }

    /** Requests i, ..., j - 1 were served with at least `need` bytes. */
    ghost predicate AllFull(i: nat, j: nat, need: int) {
      forall k: nat :: i <= k < j ==> replies(k).Served? && replies(k).count >= need
    }
  }

  /** The chunk size that goes with a count of sequential reads. */
  function ChunkFor(seqCount: nat): (size: nat)
    ensures size >= MB > SMALL
  {
    if seqCount >= 12 then 16 * MB else if seqCount >= 4 then 4 * MB else MB
  }

  datatype ReadError = Nil | Eof | Failed

  ghost predicate ValidCache(dc: DataCache?)
    reads dc
  {
    dc != null ==> dc.Valid()
  }

  /** What the data cache holds for this version of the object, if anything, is all of it. */
  predicate WholeIn(dc: DataCache?, s3Key: string, etag: string, data: Bytes)
    reads dc
  {
    dc != null && etag != "" && CacheKey(s3Key, etag) in dc.disk ==> dc.disk[CacheKey(s3Key, etag)] == data
  }

  /** Fetches of the object are written to the data cache. */
  ghost predicate Cacheable(dc: DataCache?, etag: string, data: Bytes) {
    dc != null && etag != "" && |data| <= 128 * 1024
  }

  /** The bytes a fetch of `length` at `off` takes from a cached file: none if the file ends before. */
  function Part(file: Bytes, off: nat, length: nat): (part: Bytes)
    ensures off >= |file| ==> part == []
    ensures off < |file| ==> |part| == (if off + length < |file| then length else |file| - off)
    ensures forall i :: 0 <= i < |part| ==> off + i < |file| && part[i] == file[off + i]
  {
    if off >= |file| then [] else file[off..off + Min(length, |file| - off)]
  }

  /** What a read wants, where from, and what it found: the numbers of the next request and fetch, and the cache. */
  datatype Ask = Ask(want: nat, off: nat, turn0: nat, tick0: nat, s0: Index)

  /** A fetch in the loop of a read that has delivered `got` bytes. */
  datatype Turn = Turn(a: Ask, got: nat, ok: bool) {
    function At(): nat {
      a.off + got
    }
  }

  class ChunkReader {
    const source: Source
    const s3Key: string
    const etag: string
    const dc: DataCache?
    var offset: int
    var buf: array<Byte>
    var bufStart: nat
    var bufLen: nat
    var chunkSize: nat
    var seqCount: nat
    var lastEnd: int

    predicate InWindow(off: int)
      reads this`bufStart, this`bufLen
    {
      bufLen > 0 && bufStart <= off < bufStart + bufLen
    }

    ghost predicate Valid()
      reads this
    {
      && bufLen <= buf.Length && bufStart + bufLen <= |source.data|
      && chunkSize == ChunkFor(seqCount)
    }

    ghost predicate CacheValid()
      reads dc
    {
      ValidCache(dc)
    }

    /** The buffer holds the object's bytes where it claims to. */
    ghost predicate Right()
      reads this`buf, this`bufStart, this`bufLen, buf
    {
      bufLen <= buf.Length && bufStart + bufLen <= |source.data| &&
      buf[..bufLen] == source.data[bufStart..bufStart + bufLen]
    }

    ghost predicate Caches()
    {
      dc != null && etag != ""
    }

    ghost predicate Small()
    {
      Cacheable(dc, etag, source.data)
    }

    function Name(): string {
      CacheKey(s3Key, etag)
    }

    ghost predicate WholeInCache()
      reads dc
    {
      WholeIn(dc, s3Key, etag, source.data)
    }

    /** The next fetch is a hit in the data cache. */
    ghost predicate NextHits()
      reads source, dc
    {
      Caches() && Hits(dc.config, dc.State(), Name(), source.clock(source.tick))
    }

    /** The length of a fetch at `off`. */
    ghost function Length(off: nat): nat
      requires off <= |source.data|
      reads this
    {
      Min(chunkSize, |source.data| - off)
    }

    constructor (source: Source, s3Key: string, dc: DataCache?, etag: string)
      ensures Valid() && fresh(buf) && bufStart == bufLen == 0 && Right() && seqCount == 0 && lastEnd == -1
      ensures this.source == source && this.s3Key == s3Key && this.dc == dc && this.etag == etag
    {
      this.source, this.s3Key, this.dc, this.etag := source, s3Key, dc, etag;
      buf := new Byte[0];
      offset, bufStart, bufLen, chunkSize, seqCount, lastEnd := 0, 0, 0, MB, 0, -1;
    }

    /** A buffer that is too small is replaced by a larger one of zeros. */
    method Grow(length: nat)
      modifies this`buf
      ensures buf.Length >= length && buf.Length >= old(buf.Length) && (buf == old(buf) || fresh(buf))
      ensures buf[..] == if old(buf.Length) < length then Zeros(length) else old(buf[..])
      ensures length <= old(buf.Length) ==> buf == old(buf)
    {
      if buf.Length < length {
        buf := new Byte[length](_ => 0 as char);
        assert buf[..] == Zeros(length);
      }
    }

    /** Overwrite the front of the buffer. */
    method Fill(bytes: Bytes)
      requires |bytes| <= buf.Length
      modifies buf
      ensures buf[..|bytes|] == bytes && buf[|bytes|..] == old(buf[|bytes|..])
      ensures buf[..] == bytes + old(buf[..])[|bytes|..]
    {
      forall i | 0 <= i < |bytes| {
        buf[i] := bytes[i];
      }
    }

    /** Make the buffer hold `bytes` for the object's bytes at `off`. */
    method Load(off: nat, bytes: Bytes, length: nat)
      requires |bytes| <= length
      modifies this`buf, this`bufStart, this`bufLen, buf
      ensures buf == old(buf) || fresh(buf)
      ensures bufStart == off && bufLen == |bytes| <= length <= buf.Length && buf[..bufLen] == bytes
    {
      Grow(length);
      Fill(bytes);
      bufStart, bufLen := off, |bytes|;
    }

    /** The look-up of the data-cache half of fetchChunk: the cached file, whole or not. */
    method LookUp(now: int) returns (cached: Option<Bytes>)
      requires CacheValid() && Caches()
      modifies dc
      ensures CacheValid()
      ensures cached.Some? <==> Hits(dc.config, old(dc.State()), Name(), now)
      ensures cached.Some? ==> Name() in old(dc.disk) && cached.value == old(dc.disk)[Name()]
      ensures cached.Some? ==> dc.items == old(dc.items) && dc.disk == old(dc.disk)
      ensures old(WholeInCache()) ==> WholeInCache()
      ensures dc.items.Keys <= old(dc.items.Keys) && SubMap(dc.disk, old(dc.disk))
    {
      hide Accounted, Probe, Unlink, Hits;
      cached := dc.Get(s3Key, etag, now);
    }

    /** And what a hit makes of the buffer. */
    method TakeCached(off: nat, length: nat, file: Bytes)
      requires Valid() && off + length <= |source.data|
      modifies this`buf, this`bufStart, this`bufLen, buf
      ensures Valid() && (buf == old(buf) || fresh(buf))
      ensures bufStart == off && buf[..bufLen] == Part(file, off, length)
    {
      Load(off, Part(file, off, length), length);
    }

    /**
     * A body that breaks off after `count` bytes has overwritten the front of the buffer, and lost the rest if the
     * buffer had to grow, while the buffer still claims its old window.
     */
    method BreakOff(off: nat, length: nat, count: nat)
      requires Valid() && off + length <= |source.data|
      modifies this`buf, buf
      ensures Valid() && (buf == old(buf) || fresh(buf))
      ensures buf[..bufLen] == AfterBreak(source.data, old(buf[..]), bufLen, off, length, count)
    {
      ghost var n := Min(length, count);
      Grow(length);
      ghost var room := buf[..];
      Fill(source.data[off..off + Min(length, count)]);
      assert buf[..] == source.data[off..off + n] + room[n..];
    }

    /**
     * The S3 half of fetchChunk. After a served request the loop of ReadAt can go on exactly if the body was not empty:
     * an empty one leaves it asking for the same offset again.
     */
    method FetchRange(off: nat, length: nat, turn: nat) returns (ok: bool)
      requires Valid() && 1 <= length && off + length <= |source.data|
      modifies this`buf, this`bufStart, this`bufLen, buf
      ensures Valid() && (buf == old(buf) || fresh(buf))
      ensures ok <==> source.replies(turn).Served?
      ensures ok ==> bufStart == off && bufLen == Min(length, source.replies(turn).count)
      ensures ok ==> Right() && buf.Length >= length
      ensures ok ==> (InWindow(off) <==> source.replies(turn).count > 0)
      ensures !ok ==> bufStart == old(bufStart) && bufLen == old(bufLen)
      ensures source.replies(turn).Refused? ==> buf == old(buf) && buf[..] == old(buf[..])
      ensures source.replies(turn).Broken? ==>
                buf[..bufLen] == AfterBreak(source.data, old(buf[..]), bufLen, off, length, source.replies(turn).count)
    {
      match source.replies(turn)
      case Refused =>
        return false;
      case Broken(count) =>
        BreakOff(off, length, count);
        return false;
      case Served(count) =>
        var n := Min(length, count);
        Load(off, source.data[off..off + n], length);
        return true;
    }

    /** Put what was fetched in the data cache: it is the whole object exactly if it starts at 0 and is complete. */
    method CacheChunk(tick: nat)
      requires Valid() && Right() && CacheValid() && Caches()
      modifies dc
      ensures CacheValid()
      ensures source.stores(tick) && Name() in dc.disk ==> dc.disk[Name()] == buf[..bufLen]
      ensures source.stores(tick) && dc.config.ttl <= 0 && bufLen <= dc.config.maxSize ==>
                Name() in dc.items && Name() in dc.disk
      ensures old(WholeInCache()) ==>
                (WholeInCache() <==> Name() !in dc.disk || !source.stores(tick) ||
                                     (bufStart == 0 && bufLen == |source.data|))
    {
      hide Accounted, Record, Evicted;
      var chunk := buf[..bufLen];
      assert chunk == source.data <==> bufStart == 0 && bufLen == |source.data|;
      var stored := dc.Put(s3Key, etag, chunk, source.clock(tick), source.stores(tick));
    }

    /** How a fetch at `off` left the window, given the data cache and the window before it. */
    twostate predicate FetchedWindow(off: nat, ok: bool)
      requires old(Valid()) && Valid() && off < |source.data| && chunkSize == old(chunkSize)
      reads this, buf, source, dc
    {
      var reply := source.replies(old(source.turn));
      if old(NextHits()) then
        && ok && source.turn == old(source.turn)
        && bufStart == off && buf[..bufLen] == Part(old(dc.disk)[Name()], off, Length(off))
      else
        && source.turn == old(source.turn) + 1 && (ok <==> reply.Served?)
        && (ok ==> bufStart == off && bufLen == Min(Length(off), reply.count) && Right() && buf.Length >= Length(off))
        && (!ok ==> bufStart == old(bufStart) && bufLen == old(bufLen))
        && (reply.Refused? ==> buf == old(buf) && buf[..] == old(buf[..]))
        && (reply.Broken? ==>
              buf[..bufLen] == AfterBreak(source.data, old(buf[..]), bufLen, off, Length(off), reply.count))
    }

    /** How a fetch at `off` left the data cache. */
    twostate predicate FetchedCache(off: nat, ok: bool)
      reads this, buf, source, dc
    {
      && (old(NextHits()) ==> dc != null && dc.items == old(dc.items) && dc.disk == old(dc.disk))
      && (!ok && dc != null ==> dc.items.Keys <= old(dc.items.Keys) && SubMap(dc.disk, old(dc.disk)))
      && (old(WholeInCache()) ==>
            (WholeInCache() <==> || old(NextHits()) || !ok || !Small() || Name() !in dc.disk
                                 || !source.stores(old(source.tick)) || (off == 0 && bufLen == |source.data|)))
      && (!old(NextHits()) && ok && Small() && source.stores(old(source.tick)) && bufLen <= buf.Length ==>
            && (Name() in dc.disk ==> dc.disk[Name()] == buf[..bufLen])
            && (dc.config.ttl <= 0 && bufLen <= dc.config.maxSize ==> Name() in dc.items && Name() in dc.disk))
    }

    /** fetchChunk, whatever the cache holds and the server answers. */
    method FetchChunk(off: nat) returns (ok: bool)
      requires Valid() && CacheValid()
      modifies this`buf, this`bufStart, this`bufLen, buf, source, dc
      ensures Valid() && CacheValid() && (buf == old(buf) || fresh(buf))
      ensures off >= |source.data| ==>
                && !ok && source.turn == old(source.turn) && source.tick == old(source.tick)
                && bufStart == old(bufStart) && bufLen == old(bufLen) && buf == old(buf) && buf[..] == old(buf[..])
      ensures off < |source.data| ==>
                source.tick == old(source.tick) + 1 && FetchedWindow(off, ok) && FetchedCache(off, ok)
    {
      hide Accounted, Hits, ChunkFor, AfterBreak, Part;
      var size := |source.data|;
      var length := chunkSize;
      if off + length > size {
        length := size - off;
      }
      if length <= 0 {
        return false;
      }
      var tick := source.tick;
      source.tick := tick + 1;
      if dc != null && etag != "" {
        var cached := LookUp(source.clock(tick));
        if cached.Some? {
          TakeCached(off, length, cached.value);
          return true;
        }
      }
      ok := FetchAndCache(off, length, tick);
    }

    /** A range request, and for a small object the data-cache write that follows it. */
    method FetchAndCache(off: nat, length: nat, tick: nat) returns (ok: bool)
      requires Valid() && CacheValid() && 1 <= length && off + length <= |source.data|
      modifies this`buf, this`bufStart, this`bufLen, buf, source`turn, dc
      ensures Valid() && CacheValid() && (buf == old(buf) || fresh(buf)) && source.turn == old(source.turn) + 1
      ensures var reply := source.replies(old(source.turn));
              && (ok <==> reply.Served?)
              && (ok ==> bufStart == off && bufLen == Min(length, reply.count) && Right() && buf.Length >= length)
              && (!ok ==> bufStart == old(bufStart) && bufLen == old(bufLen))
              && (reply.Refused? ==> buf == old(buf) && buf[..] == old(buf[..]))
              && (reply.Broken? ==>
                    buf[..bufLen] == AfterBreak(source.data, old(buf[..]), bufLen, off, length, reply.count))
      ensures !ok || !Small() ==> (WholeInCache() <==> old(WholeInCache()))
      ensures !ok || !Small() ==> (dc != null ==> dc.State() == old(dc.State()))
      ensures ok && Small() && source.stores(tick) ==>
                && (Name() in dc.disk ==> dc.disk[Name()] == buf[..bufLen])
                && (dc.config.ttl <= 0 && bufLen <= dc.config.maxSize ==> Name() in dc.items && Name() in dc.disk)
      ensures ok && Small() && old(WholeInCache()) ==>
                (WholeInCache() <==> Name() !in dc.disk || !source.stores(tick) || (off == 0 && bufLen == |source.data|))
    {
      hide Accounted, ChunkFor, AfterBreak;
      source.turn := source.turn + 1;
      ok := FetchRange(off, length, source.turn - 1);
      if ok && dc != null && etag != "" && |source.data| <= SMALL {
        CacheChunk(tick);
      }
    }

    /** adaptChunkSize. */
    method AdaptChunkSize()
      requires seqCount > 0 && chunkSize == ChunkFor(seqCount - 1)
      modifies this`chunkSize
      ensures chunkSize == ChunkFor(seqCount)
      ensures chunkSize == (if seqCount < 4 then 0x10_0000 else if seqCount < 12 then 0x40_0000 else 0x100_0000)
    {
      if seqCount >= 12 && chunkSize < 16 * MB {
        chunkSize := 16 * MB;
      } else if seqCount >= 4 && chunkSize < 4 * MB {
        chunkSize := 4 * MB;
      }
    }

    // ----- ReadAt -----

    /** The buffer, if it holds anything, goes to the end of the object. */
    ghost predicate ReachesEnd()
      reads this`bufStart, this`bufLen
    {
      bufLen == 0 || bufStart + bufLen == |source.data|
    }

    /**
     * What it takes for a read to end: no body is served empty, and the cached file of the object, if there is one, is
     * the object. Replies for an object that is cached on the way must be full, for a short one would be cached in its
     * place.
     */
    ghost predicate Steady()
      reads this`bufStart, this`bufLen, dc
    {
      source.Productive() && WholeInCache() && (Small() ==> source.Full() && ReachesEnd())
    }

    /** Copy from the buffer into p at `at`. */
    method CopyOut(p: array<Byte>, at: nat, off: nat) returns (n: nat)
      requires Valid() && InWindow(off) && at < p.Length && p != buf
      modifies p
      ensures n == Min(p.Length - at, bufStart + bufLen - off)
      ensures p[..at] == old(p[..at]) && p[at..at + n] == buf[off - bufStart..off - bufStart + n]
      ensures p[at + n..] == old(p[at + n..])
    {
      var bufOff := off - bufStart;
      n := Min(p.Length - at, bufLen - bufOff);
      var chunk := buf[bufOff..bufOff + n];
      forall i | 0 <= i < n {
        p[at + i] := chunk[i];
      }
      assert p[at..at + n] == chunk;
    }

    /**
     * Where the loop of ReadAt stands: `got` of the bytes `exp` are delivered, of which the first `lead` come from the
     * buffer as the loop found it, and every request so far was served.
     */
    ghost predicate Reading(p: array<Byte>, p0: Bytes, exp: Bytes, lead: nat, off: nat, got: nat)
      reads this, buf, p
    {
      && Valid() && p != buf && |p0| == p.Length && off < |source.data|
      && |exp| == Min(p.Length, |source.data| - off) && lead <= |exp| && got <= |exp|
      && exp[lead..] == source.data[off + lead..off + |exp|]
      && p[..got] == exp[..got] && p[got..] == p0[got..]
      && (got < lead ==>
            && got == 0 && InWindow(off) && lead == Min(|exp|, bufStart + bufLen - off)
            && buf[off - bufStart..off - bufStart + lead] == exp[..lead])
      && (lead <= got < |exp| && InWindow(off + got) ==> Right())
    }

    /** What the loop has asked for, and what it has done to the data cache. */
    ghost predicate Asking(a: Ask, got: nat)
      reads this, source, dc
    {
      var Ask(want, off, turn0, tick0, s0) := a;
      && CacheValid()
      && tick0 <= source.tick && turn0 <= source.turn <= turn0 + (source.tick - tick0)
      && source.AllServed(turn0, source.turn)
      && (source.AllFull(turn0, source.turn, chunkSize) ==> OnTrack(off, off + got, want, source.tick - tick0))
      && (source.tick == tick0 && dc != null ==> dc.State() == s0)
      && (!Small() ==> WholeInCache())
      && (Small() ==> ReachesEnd() && Caching(a, got))
    }

    /** After g full fetches the buffer starts at least g - 1 chunks in. */
    ghost predicate OnTrack(off: nat, cur: nat, want: int, g: nat)
      reads this
    {
      g > 0 ==>
        && bufStart >= off + (g - 1) * chunkSize
        && bufStart <= cur <= bufStart + bufLen
        && bufLen == Min(chunkSize, |source.data| - bufStart)
        && (g - 1) * chunkSize < want
    }

    /**
     * A small object is fetched at most once in a read, at the read's own offset, as the buffer then goes to the end.
     * The cache holds the object, if anything, exactly if that fetch was a hit, or was not stored, or was from 0.
     */
    ghost predicate Caching(a: Ask, got: nat)
      requires Small()
      reads this, source, dc
    {
      && (got > 0 || source.tick > a.tick0 ==> bufLen > 0 && bufStart <= a.off)
      && (source.tick == a.tick0 ==> WholeInCache())
      && (source.tick > a.tick0 ==> source.tick == a.tick0 + 1 && bufStart == a.off && CachedOnce(a))
    }

    ghost predicate CachedOnce(a: Ask)
      requires Small()
      reads source, dc
    {
      var hit := Hits(dc.config, a.s0, Name(), source.clock(a.tick0));
      && (source.turn == a.turn0 <==> hit)
      && (hit ==> dc.items == a.s0.items && dc.disk == a.s0.disk)
      && (WholeInCache() <==> hit || Name() !in dc.disk || !source.stores(a.tick0) || a.off == 0)
      && (!hit && source.stores(a.tick0) && dc.config.ttl <= 0 && |source.data| <= dc.config.maxSize ==>
            Name() in dc.items && Name() in dc.disk)
    }

    /** The turn of the loop that copies. */
    method CopyTurn(p: array<Byte>, ghost p0: Bytes, ghost exp: Bytes, ghost lead: nat, off: nat, got: nat)
        returns (n: nat)
      requires Reading(p, p0, exp, lead, off, got) && got < |exp| && InWindow(off + got)
      modifies p
      ensures Reading(p, p0, exp, lead, off, got + n) && n == Min(p.Length - got, bufStart + bufLen - (off + got))
    {
      n := CopyOut(p, got, off + got);
      CopySource(p, p0, exp, lead, off, got, n);
      MoreTaken(p[..], p0, exp, got, n);
    }

    /** What is copied is what is expected. */
    lemma CopySource(p: array<Byte>, p0: Bytes, exp: Bytes, lead: nat, off: nat, got: nat, n: nat)
      requires Valid() && InWindow(off + got) && got < |exp| && off + |exp| <= |source.data| && lead <= |exp|
      requires exp[lead..] == source.data[off + lead..off + |exp|] && got + n <= |exp| && off + got + n <= bufStart + bufLen
      requires got < lead ==> got == 0 && n <= lead && off - bufStart + lead <= buf.Length
                              && buf[off - bufStart..off - bufStart + lead] == exp[..lead]
      requires lead <= got ==> Right()
      ensures buf[off + got - bufStart..off + got - bufStart + n] == exp[got..got + n]
    {
      if got >= lead {
        TailSlice(source.data, exp, lead, off, got, got + n);
        WindowSlice(off + got, n);
      } else {
        var b := off - bufStart;
        assert buf[b..b + n] == buf[b..b + lead][..n];
        assert exp[..n] == exp[..lead][..n];
      }
    }

    /** How a failing fetch leaves ReadAt: the bytes delivered are right, and there is room and object left. */
    ghost predicate Stopped(p: array<Byte>, p0: Bytes, exp: Bytes, off: nat, got: nat, turn0: nat)
      reads this, p, source, dc
    {
      && Valid() && CacheValid() && WholeInCache() && (Small() ==> ReachesEnd())
      && |p0| == p.Length && off < |source.data| && |exp| == Min(p.Length, |source.data| - off) && got < |exp|
      && p[..got] == exp[..got] && p[got..] == p0[got..]
      && turn0 < source.turn && !source.replies(source.turn - 1).Served?
    }

    /** A fetch that failed: the window stands, over what the reply has made of the buffer. */
    twostate predicate Unfetched(off: nat)
      requires old(Valid()) && Valid() && off < |source.data| && chunkSize == old(chunkSize)
      reads this, buf, source
    {
      var reply := source.replies(old(source.turn));
      && source.turn == old(source.turn) + 1 && !reply.Served?
      && bufStart == old(bufStart) && bufLen == old(bufLen)
      && (reply.Refused? ==> buf == old(buf) && buf[..] == old(buf[..]))
      && (reply.Broken? ==> buf[..bufLen] == AfterBreak(source.data, old(buf[..]), bufLen, off, Length(off), reply.count))
    }

    /** The turn of the loop that fetches. */
    method FetchTurn(p: array<Byte>, ghost p0: Bytes, ghost exp: Bytes, ghost lead: nat, ghost a: Ask, off: nat, got: nat)
        returns (ok: bool)
      requires a.off == off && a.want == |exp| && Reading(p, p0, exp, lead, off, got) && Asking(a, got)
      requires got < |exp| && !InWindow(off + got) && source.Productive() && (Small() ==> source.Full())
      modifies this`buf, this`bufStart, this`bufLen, buf, source, dc
      ensures (buf == old(buf) || fresh(buf)) && source.tick == old(source.tick) + 1 && source.turn >= old(source.turn)
      ensures ok <==> old(NextHits()) || source.replies(old(source.turn)).Served?
      ensures ok ==> Reading(p, p0, exp, lead, off, got) && Asking(a, got) && InWindow(off + got) && Right()
      ensures !ok ==> Stopped(p, p0, exp, off, got, a.turn0) && Unfetched(off + got)
      ensures !ok && Small() ==> got == 0 && Missed(a)
      ensures !ok && old(Right()) && !source.replies(old(source.turn)).Broken? ==> Right()
    {
      hide Accounted, AfterBreak, Hits, ChunkFor, Asking, OnTrack, Caching;
      AskingValid(a, got);
      ok := FetchChunk(off + got);
      Fetched(Turn(a, got, ok));
    }

    lemma AskingValid(a: Ask, got: nat)
      requires Asking(a, got)
      ensures CacheValid() && (Small() ==> ReachesEnd())
    {
    }

    /** What a fetch makes of the loop's state. */
    twostate lemma Fetched(t: Turn)
      requires old(Valid()) && Valid() && t.At() < |source.data| && chunkSize == old(chunkSize) && t.got < t.a.want
      requires old(Asking(t.a, t.got)) && old(!InWindow(t.At())) && CacheValid()
      requires source.Productive() && (Small() ==> source.Full()) && source.tick == old(source.tick) + 1
      requires FetchedWindow(t.At(), t.ok) && FetchedCache(t.At(), t.ok)
      ensures t.ok ==> Asking(t.a, t.got) && Right() && bufStart == t.At() && bufLen >= 1
      ensures !t.ok ==> WholeInCache() && (Small() ==> ReachesEnd()) && t.a.turn0 < source.turn && Unfetched(t.At())
      ensures !t.ok && Small() ==> t.got == 0 && Missed(t.a)
    {
      hide Hits, AfterBreak, Part, OnTrack, CachedOnce;
      if t.ok {
        FetchedRight(t.At());
        TrackOn(t);
        if Small() {
          assert source.AllFull(old(source.turn), source.turn, Length(t.At()));
          CachingOn(t.a);
        }
      }
    }

    /** A successful fetch from a steady source shows the object's bytes, at least one. */
    twostate lemma FetchedRight(off: nat)
      requires old(Valid()) && Valid() && off < |source.data| && chunkSize == old(chunkSize)
      requires FetchedWindow(off, true) && old(WholeInCache()) && source.Productive()
      ensures Right() && bufStart == off && bufLen >= 1
      ensures source.AllFull(old(source.turn), source.turn, Length(off)) ==> bufLen == Length(off)
      ensures source.AllServed(old(source.turn), source.turn)
    {
      hide AfterBreak;
      if old(NextHits()) {
        assert Part(source.data, off, Length(off)) == source.data[off..off + Length(off)];
        assert bufLen == |buf[..bufLen]|;
      }
    }

    /** A full fetch where the last one ended keeps the loop on track. */
    twostate lemma TrackOn(t: Turn)
      requires old(Valid()) && Valid() && t.At() < |source.data| && chunkSize == old(chunkSize) && t.got < t.a.want
      requires t.a.turn0 <= old(source.turn) <= source.turn && t.a.tick0 <= old(source.tick) == source.tick - 1
      requires old(source.AllFull(t.a.turn0, source.turn, chunkSize) ==>
                     OnTrack(t.a.off, t.At(), t.a.want, source.tick - t.a.tick0))
      requires old(!InWindow(t.At())) && bufStart == t.At() && bufLen >= 1
      requires source.AllFull(old(source.turn), source.turn, Length(t.At())) ==> bufLen == Length(t.At())
      ensures source.AllFull(t.a.turn0, source.turn, chunkSize) ==>
                OnTrack(t.a.off, t.At(), t.a.want, source.tick - t.a.tick0)
    {
      var c, g: nat := chunkSize, old(source.tick) - t.a.tick0;
      if source.AllFull(t.a.turn0, source.turn, c) {
        assert source.AllFull(t.a.turn0, old(source.turn), c);
        assert source.AllFull(old(source.turn), source.turn, Length(t.At()));
        NextChunk(g, c);
        if g > 0 {
          assert t.At() >= old(bufStart) + c;
        }
        assert g * c <= t.got;
      }
    }

    twostate lemma CachingOn(a: Ask)
      requires Small() && old(source.tick) == a.tick0 && old(source.turn) == a.turn0 && old(dc.State()) == a.s0
      requires old(WholeInCache()) && source.tick == a.tick0 + 1 && a.off < |source.data|
      requires old(Valid()) && Valid() && chunkSize == old(chunkSize)
      requires FetchedWindow(a.off, true) && FetchedCache(a.off, true) && bufStart == a.off
      requires bufLen == |source.data| - a.off
      ensures CachedOnce(a)
    {
      hide Hits, AfterBreak, Part;
      assert old(NextHits()) <==> Hits(dc.config, a.s0, Name(), source.clock(a.tick0));
    }

    /** A fetch for the read has missed the data cache, and left there at most what was there. */
    ghost predicate Missed(a: Ask)
      requires Small()
      reads dc
    {
      && !Hits(dc.config, a.s0, Name(), source.clock(a.tick0))
      && dc.items.Keys <= a.s0.items.Keys && SubMap(dc.disk, a.s0.disk)
    }

    /** The buffer has all of a read of n bytes at `off`. */
    ghost predicate Covers(off: nat, n: nat)
      reads this`bufStart, this`bufLen
    {
      InWindow(off) && (off + n <= bufStart + bufLen || ReachesEnd())
    }

    /** A read at `off` has to fetch, and will fail to. */
    ghost predicate Doomed(off: nat)
      reads this`bufStart, this`bufLen, source, dc
    {
      !InWindow(off) && !NextHits() && !source.replies(source.turn).Served?
    }

    /** The loop of ReadAt; `failed` says that a fetch ended it. */
    method ReadLoop(p: array<Byte>, ghost p0: Bytes, ghost exp: Bytes, ghost lead: nat, ghost a: Ask, off: nat)
        returns (got: nat, failed: bool)
      requires a.off == off && a.want == |exp| && a.tick0 == source.tick
      requires Reading(p, p0, exp, lead, off, 0) && Asking(a, 0) && source.Productive() && (Small() ==> source.Full())
      modifies this`buf, this`bufStart, this`bufLen, buf, p, source, dc
      ensures buf == old(buf) || fresh(buf)
      ensures !failed ==> got == |exp| && Reading(p, p0, exp, lead, off, got) && Asking(a, got)
      ensures old(Right()) && source.NoneBroken(old(source.turn), source.turn) ==> Right()
      ensures failed ==> Stopped(p, p0, exp, off, got, a.turn0) && (Small() ==> got == 0 && Missed(a))
      ensures failed ==> source.tick > old(source.tick) && (got == 0 ==> Unfetched(off))
      ensures source.tick >= old(source.tick)
      ensures old(Doomed(off)) && p.Length > 0 ==> failed && got == 0
      ensures source.tick == old(source.tick) ==> bufStart == old(bufStart) && bufLen == old(bufLen)
      ensures p.Length == 0 || old(Covers(off, p.Length)) ==> source.tick == old(source.tick)
    {
      hide Reading, Asking, Stopped, AfterBreak, Right, Missed;
      ReadingBounds(p, p0, exp, lead, off, 0);
      got := 0;
      while got < p.Length && off + got < |source.data|
        invariant Reading(p, p0, exp, lead, off, got) && Asking(a, got)
        invariant Valid() && p != buf && got <= |exp| && (buf == old(buf) || fresh(buf))
        invariant old(Right()) ==> Right()
        invariant source.tick >= old(source.tick) && source.turn >= old(source.turn)
        invariant source.tick == old(source.tick) ==> Untouched()
        invariant got == 0 && !InWindow(off) ==> source.tick == old(source.tick)
        invariant old(Doomed(off)) ==> got == 0 && Doomed(off)
        invariant p.Length == 0 || old(Covers(off, p.Length)) ==> source.tick == old(source.tick)
        decreases |exp| - got, if InWindow(off + got) then 0 else 1
      {
        if InWindow(off + got) {
          var n := CopyTurn(p, p0, exp, lead, off, got);
          Copied(a, got, n);
          got := got + n;
          ReadingBounds(p, p0, exp, lead, off, got);
          continue;
        }
        var ok := FetchTurn(p, p0, exp, lead, a, off, got);
        if !ok {
          return got, true;
        }
        ReadingBounds(p, p0, exp, lead, off, got);
      }
      return got, false;
    }

    lemma ReadingBounds(p: array<Byte>, p0: Bytes, exp: Bytes, lead: nat, off: nat, got: nat)
      requires Reading(p, p0, exp, lead, off, got)
      ensures Valid() && p != buf && off < |source.data| && got <= |exp| == Min(p.Length, |source.data| - off)
    {
    }

    /** The window, the buffer and the number of the next request are as they were. */
    twostate predicate Untouched()
      reads this, buf, source
    {
      && bufStart == old(bufStart) && bufLen == old(bufLen) && buf == old(buf) && buf[..] == old(buf[..])
      && source.turn == old(source.turn)
    }

    lemma Copied(a: Ask, got: nat, n: nat)
      requires Valid() && Asking(a, got) && InWindow(a.off + got) && a.off + got + n <= bufStart + bufLen
      ensures Asking(a, got + n)
    {
      hide Hits, Accounted;
    }

    /** The chunk size a read at `off` goes on with. */
    ghost function ChunkAt(off: nat): nat
      reads this`seqCount, this`lastEnd
    {
      ChunkFor(if off == lastEnd then seqCount + 1 else 0)
    }

    ghost function CacheState(): Index
      reads dc
    {
      if dc == null then Index(map[], 0, map[], [], 0, map[]) else dc.State()
    }

    /** How many of the wanted bytes the buffer has. */
    ghost function Lead(off: nat, want: nat): nat
      reads this
    {
      if InWindow(off) then Min(want, bufStart + bufLen - off) else 0
    }

    lemma StartReading(p: array<Byte>, off: nat, want: nat)
      requires Valid() && CacheValid() && Steady() && p != buf && off < |source.data|
      requires want == Min(p.Length, |source.data| - off)
      ensures Reading(p, p[..], Delivered(source.data, buf[..bufLen], bufStart, off, want), Lead(off, want), off, 0)
      ensures Asking(Ask(want, off, source.turn, source.tick, CacheState()), 0)
    {
      hide Accounted, Hits;
      var exp, lead := Delivered(source.data, buf[..bufLen], bufStart, off, want), Lead(off, want);
      if InWindow(off) {
        assert exp[..lead] == buf[..bufLen][off - bufStart..off - bufStart + lead];
        assert exp[lead..] == source.data[off + lead..off + want];
      }
    }

    /** The part of ReadAt after the tracking. */
    method ReadFrom(p: array<Byte>, off: nat) returns (got: nat, failed: bool)
      requires Valid() && CacheValid() && Steady() && p != buf && off < |source.data|
      modifies this`buf, this`bufStart, this`bufLen, buf, p, source, dc
      ensures Valid() && CacheValid() && (buf == old(buf) || fresh(buf))
      ensures got <= Min(p.Length, |source.data| - off) && p[got..] == old(p[got..])
      ensures p[..got] == Delivered(source.data, old(buf[..bufLen]), old(bufStart), off, got)
      ensures source.turn >= old(source.turn) && source.tick >= old(source.tick)
      ensures source.AllServed(old(source.turn), source.turn) <==> !failed
      ensures failed <==> got < Min(p.Length, |source.data| - off)
      ensures old(Right()) && source.NoneBroken(old(source.turn), source.turn) ==> Right()
      ensures Small() && failed ==>
                got == 0 && Missed(Ask(0, off, old(source.turn), old(source.tick), old(CacheState())))
      ensures source.turn > old(source.turn) && source.AllFull(old(source.turn), source.turn, chunkSize) ==>
                (source.turn - old(source.turn) - 1) * chunkSize < Min(p.Length, |source.data| - off)
      ensures failed && got == 0 ==> Unfetched(off)
      ensures old(Doomed(off)) && p.Length > 0 ==> failed && got == 0
      ensures source.tick == old(source.tick) ==>
                && bufStart == old(bufStart) && bufLen == old(bufLen) && source.turn == old(source.turn)
                && CacheState() == old(CacheState())
      ensures failed ==> WholeInCache() && source.tick > old(source.tick)
      ensures !Small() ==> WholeInCache()
      ensures Small() ==> ReachesEnd()
      ensures p.Length == 0 || old(Covers(off, p.Length)) ==> source.tick == old(source.tick)
      ensures Small() && !failed && p.Length > 0 ==> bufLen > 0 && bufStart <= off
      ensures Small() && !failed && source.tick > old(source.tick) ==>
                bufStart == off && CachedOnce(Ask(0, off, old(source.turn), old(source.tick), old(CacheState())))
    {
      hide Accounted, Hits, Reading, Asking, Stopped, ChunkFor, AfterBreak, Delivered, Unfetched;
      ghost var want := Min(p.Length, |source.data| - off);
      ghost var window, start, lead := buf[..bufLen], bufStart, Lead(off, want);
      ghost var exp := Delivered(source.data, window, start, off, want);
      ghost var a := Ask(want, off, source.turn, source.tick, CacheState());
      StartReading(p, off, want);
      got, failed := ReadLoop(p, p[..], exp, lead, a, off);
      if failed {
        StoppedReading(p, old(p[..]), exp, off, got, a.turn0);
      } else {
        DoneReading(p, old(p[..]), exp, lead, a, off);
      }
      DeliveredPrefix(source.data, window, start, off, want, got);
    }

    /**
     * ReadAt. It delivers what the buffer shows and then the object's bytes, in full unless some request was not served;
     * io.EOF exactly when the end is reached (or nothing was asked for); and with full replies it makes k requests only
     * if k - 1 chunks are fewer bytes than were wanted. The last clauses say what it leaves in the buffer and the cache.
     */
    method ReadAt(p: array<Byte>, off: nat) returns (n: nat, err: ReadError)
      requires Valid() && CacheValid() && Steady() && p != buf
      modifies this, buf, p, source, dc
      ensures Valid() && CacheValid() && (buf == old(buf) || fresh(buf))
      ensures n <= p.Length && (n > 0 ==> off + n <= |source.data|) && p[n..] == old(p[n..])
      ensures n > 0 ==> p[..n] == Delivered(source.data, old(buf[..bufLen]), old(bufStart), off, n)
      ensures err == Failed <==> n == 0 && p.Length > 0 && off < |source.data|
      ensures err == Eof <==> off + n >= |source.data| || p.Length == 0
      ensures seqCount == (if off >= |source.data| then old(seqCount) else if off == old(lastEnd) then old(seqCount) + 1 else 0)
      ensures lastEnd == (if off >= |source.data| || err == Failed then old(lastEnd) else off + n)
      ensures source.turn >= old(source.turn) && source.tick >= old(source.tick)
      ensures var served := source.AllServed(old(source.turn), source.turn);
              && (off < |source.data| && served ==> n == Min(p.Length, |source.data| - off))
              && (Small() && !served ==>
                    err == Failed && Missed(Ask(0, off, old(source.turn), old(source.tick), old(CacheState()))))
      ensures old(Right()) && source.NoneBroken(old(source.turn), source.turn) ==> Right()
      ensures off < |source.data| && source.turn > old(source.turn) &&
              source.AllFull(old(source.turn), source.turn, chunkSize) ==>
                (source.turn - old(source.turn) - 1) * chunkSize < Min(p.Length, |source.data| - off)
      ensures off < |source.data| && p.Length > 0 && old(Doomed(off)) ==> err == Failed
      ensures err == Failed ==>
                var reply := source.replies(old(source.turn));
                && source.turn == old(source.turn) + 1 && bufStart == old(bufStart) && bufLen == old(bufLen)
                && (reply.Broken? ==>
                      buf[..bufLen] == AfterBreak(source.data, old(buf[..]), bufLen, off,
                                                  Min(old(ChunkAt(off)), |source.data| - off), reply.count))
      ensures source.tick == old(source.tick) ==>
                && bufStart == old(bufStart) && bufLen == old(bufLen) && source.turn == old(source.turn)
                && CacheState() == old(CacheState())
      ensures !Small() || !source.AllServed(old(source.turn), source.turn) ==> WholeInCache()
      ensures Small() ==> ReachesEnd()
      ensures off >= |source.data| || p.Length == 0 || old(Covers(off, p.Length)) ==> source.tick == old(source.tick)
      ensures Small() && source.AllServed(old(source.turn), source.turn) ==>
                && (off < |source.data| && p.Length > 0 ==> bufLen > 0 && bufStart <= off)
                && (source.tick > old(source.tick) ==>
                      && bufStart == off
                      && CachedOnce(Ask(0, off, old(source.turn), old(source.tick), old(CacheState()))))
    {
      hide Hits, ChunkFor, AfterBreak, Delivered, CachedOnce, Missed, Steady, Doomed, Covers;
      hide Right, InWindow, ReachesEnd, WholeInCache, CacheValid;
      var size := |source.data|;
      if off >= size {
        SteadyAlready();
        return 0, Eof;
      }
      Track(off);
      var totalRead, failed := ReadFrom(p, off);
      if failed && totalRead == 0 {
        return 0, Failed;
      }
      lastEnd := off + totalRead;
      if totalRead == 0 {
        return 0, Eof;
      }
      return totalRead, if off + totalRead >= size then Eof else Nil;
    }

    lemma SteadyAlready()
      requires Steady()
      ensures WholeInCache() && (Small() ==> ReachesEnd())
    {
    }

    /** SeekTo, for an offset that is not negative: the buffer is kept exactly if it holds the new offset. */
    method SeekTo(target: nat)
      requires Valid()
      modifies this`offset, this`bufLen, this`seqCount, this`chunkSize, this`lastEnd
      ensures Valid() && offset == target && seqCount == 0 && lastEnd == -1
      ensures bufLen == if old(InWindow(target)) then old(bufLen) else 0
    {
      offset := target;
      if bufLen > 0 && (target < bufStart || target >= bufStart + bufLen) {
        bufLen := 0;
      }
      seqCount, chunkSize, lastEnd := 0, MB, -1;
    }

    /** Sequential-access tracking: the chunk size always follows the count. */
    method Track(off: nat)
      requires chunkSize == ChunkFor(seqCount)
      modifies this`seqCount, this`chunkSize
      ensures chunkSize == ChunkFor(seqCount) == old(ChunkAt(off))
      ensures chunkSize == (if seqCount < 4 then 0x10_0000 else if seqCount < 12 then 0x40_0000 else 0x100_0000)
      ensures seqCount == if off == lastEnd then old(seqCount) + 1 else 0
    {
      if off == lastEnd {
        seqCount := seqCount + 1;
        AdaptChunkSize();
      } else {
        seqCount := 0;
        chunkSize := MB;
      }
    }

    lemma StoppedReading(p: array<Byte>, p0: Bytes, exp: Bytes, off: nat, got: nat, turn0: nat)
      requires Stopped(p, p0, exp, off, got, turn0)
      ensures Valid() && CacheValid() && WholeInCache() && (Small() ==> ReachesEnd())
      ensures |p0| == p.Length && off < |source.data| && got < |exp| == Min(p.Length, |source.data| - off)
      ensures p[..got] == exp[..got] && p[got..] == p0[got..]
      ensures turn0 < source.turn && !source.AllServed(turn0, source.turn)
      ensures forall need :: !source.AllFull(turn0, source.turn, need)
    {
      assert !source.replies(source.turn - 1).Served?;
    }

    lemma DoneReading(p: array<Byte>, p0: Bytes, exp: Bytes, lead: nat, a: Ask, off: nat)
      requires Reading(p, p0, exp, lead, off, |exp|) && Asking(a, |exp|) && a.off == off && a.want == |exp|
      ensures Valid() && CacheValid() && |p0| == p.Length && off < |source.data|
      ensures |exp| == Min(p.Length, |source.data| - off)
      ensures p[..|exp|] == exp && p[|exp|..] == p0[|exp|..]
      ensures a.turn0 <= source.turn && a.tick0 <= source.tick && source.AllServed(a.turn0, source.turn)
      ensures source.tick == a.tick0 ==> source.turn == a.turn0 && (dc != null ==> dc.State() == a.s0)
      ensures source.turn > a.turn0 && source.AllFull(a.turn0, source.turn, chunkSize) ==>
                (source.turn - a.turn0 - 1) * chunkSize < |exp|
      ensures !Small() ==> WholeInCache()
      ensures Small() ==> ReachesEnd() && Caching(a, |exp|)
    {
      hide Accounted, Hits, CachedOnce;
      if source.turn > a.turn0 && source.AllFull(a.turn0, source.turn, chunkSize) {
        FewerChunks(source.turn - a.turn0, source.tick - a.tick0, chunkSize);
      }
      assert exp[..|exp|] == exp;
    }

    lemma WindowSlice(at: nat, n: nat)
      requires Valid() && Right() && bufStart <= at && at + n <= bufStart + bufLen
      ensures buf[at - bufStart..at - bufStart + n] == source.data[at..at + n]
    {
      var w, b := buf[..bufLen], at - bufStart;
      SliceOfSlice(source.data, bufStart, bufStart + bufLen, b, b + n);
      assert buf[b..b + n] == w[b..b + n];
    }
  }

  lemma FewerChunks(a: int, b: int, c: nat)
    requires a <= b
    ensures (a - 1) * c <= (b - 1) * c
  {
    assert (b - a) * c >= 0;
  }

  lemma NextChunk(g: int, c: nat)
    ensures (g - 1) * c + c == g * c
  {
  }

  lemma MoreTaken(p: Bytes, p0: Bytes, exp: Bytes, got: nat, n: nat)
    requires got + n <= |exp| && got + n <= |p| == |p0|
    requires p[..got] == exp[..got] && p[got..got + n] == exp[got..got + n] && p[got + n..] == p0[got..][n..]
    ensures p[..got + n] == exp[..got + n] && p[got + n..] == p0[got + n..]
  {
    assert p[..got + n] == p[..got] + p[got..got + n];
    assert exp[..got + n] == exp[..got] + exp[got..got + n];
    assert p0[got + n..] == p0[got..][n..];
  }

  lemma TailSlice(data: Bytes, exp: Bytes, lead: nat, off: nat, i: nat, j: nat)
    requires lead <= i <= j <= |exp| && off + |exp| <= |data| && exp[lead..] == data[off + lead..off + |exp|]
    ensures exp[i..j] == data[off + i..off + j]
  {
    SliceOfSlice(data, off + lead, off + |exp|, i - lead, j - lead);
    SliceOfSlice(exp, lead, |exp|, i - lead, j - lead);
  }

  /**
   * The bytes a read of n bytes at `off` delivers when the buffer shows `window` for the object's bytes at `start`: what
   * the window shows, if it holds `off`, and then the object's.
   */
  function Delivered(data: Bytes, window: Bytes, start: nat, off: nat, n: nat): (bytes: Bytes)
    requires off + n <= |data|
    ensures |bytes| == n
  {
    if start <= off < start + |window| then
      var m := Min(n, start + |window| - off);
      window[off - start..off - start + m] + data[off + m..off + n]
    else data[off..off + n]
  }

  /** They are the object's bytes exactly if the part of the window they come from is right. */
  lemma DeliveredRightIff(data: Bytes, window: Bytes, start: nat, off: nat, n: nat)
    requires off + n <= |data| && start + |window| <= |data|
    ensures Delivered(data, window, start, off, n) == data[off..off + n] <==>
            (start <= off ==> forall i :: off <= i < off + n && i < start + |window| ==> window[i - start] == data[i])
  {
    var got, want := Delivered(data, window, start, off, n), data[off..off + n];
    if start <= off < start + |window| {
      var m := Min(n, start + |window| - off);
      assert forall k :: 0 <= k < m ==> got[k] == window[off - start + k] && want[k] == data[off + k];
      assert forall k :: m <= k < n ==> got[k] == data[off + k] == want[k];
      if got == want {
        forall i | off <= i < off + n && i < start + |window| ensures window[i - start] == data[i] {
          assert got[i - off] == want[i - off];
        }
      }
    }
  }

  lemma RightDelivered(data: Bytes, window: Bytes, start: nat, off: nat, n: nat)
    requires off + n <= |data| && start + |window| <= |data| && window == data[start..start + |window|]
    ensures Delivered(data, window, start, off, n) == data[off..off + n]
  {
    DeliveredRightIff(data, window, start, off, n);
  }

  lemma DeliveredPrefix(data: Bytes, window: Bytes, start: nat, off: nat, n: nat, m: nat)
    requires m <= n && off + n <= |data| && start + |window| <= |data|
    ensures Delivered(data, window, start, off, n)[..m] == Delivered(data, window, start, off, m)
  {
    var long, short := Delivered(data, window, start, off, n), Delivered(data, window, start, off, m);
    if start <= off < start + |window| {
      var w := start + |window| - off;
      assert forall k :: 0 <= k < m ==> long[k] == (if k < w then window[off - start + k] else data[off + k]) == short[k];
    } else {
      assert forall k :: 0 <= k < m ==> long[k] == data[off + k] == short[k];
    }
  }

  /**
   * What a window of `len` bytes shows of a buffer `held` after a body for `off` breaks off: `count` bytes of the object
   * at `off`, and then what was there before, or zeros if the buffer had to grow to `length`.
   */
  function AfterBreak(data: Bytes, held: Bytes, len: nat, off: nat, length: nat, count: nat): (shown: Bytes)
    requires off + length <= |data| && len <= |held|
    ensures |shown| == len
  {
    var n := Min(length, count);
    var room := if |held| < length then Zeros(length) else held;
    (data[off..off + n] + room[n..])[..len]
  }

  // ----- s3File -----

  /** What a file position does: the reference s3File is held to. */
  datatype FileOp = ReadOp(len: nat) | SeekOp(offset: int, whence: int)

  datatype Outcome = Data(bytes: Bytes, eof: bool) | Position(to: nat) | Rejected

  function Target(size: nat, at: int, offset: int, whence: int): Option<nat> {
    var t := if whence == 0 then offset else if whence == 1 then at + offset else size + offset;
    if whence < 0 || whence > 2 || t < 0 then None else Some(t)
  }

  /** A cursor over `data` at `at`: the outcome of one operation and the position after it. */
  function Cursor(data: Bytes, at: nat, op: FileOp): (Outcome, nat) {
    match op
    case ReadOp(len) =>
      if at >= |data| then (Data([], true), at)
      else
        var n := Min(len, |data| - at);
        (Data(data[at..at + n], at + n >= |data| || len == 0), at + n)
    case SeekOp(offset, whence) =>
      var t := Target(|data|, at, offset, whence);
      if t.None? then (Rejected, at) else (Position(t.value), t.value)
  }

  /** A cursor delivers the bytes at its position, as many as there are; the end is told with the last of them. */
  lemma CursorReads(data: Bytes, at: nat, len: nat)
    ensures var (out, to) := Cursor(data, at, ReadOp(len));
            && out.Data? && to == at + |out.bytes| && |out.bytes| <= len
            && (forall i :: 0 <= i < |out.bytes| ==> at + i < |data| && out.bytes[i] == data[at + i])
            && (|out.bytes| < len ==> to >= |data|)
            && (out.eof <==> to >= |data| || len == 0)
  {
  }

  /** Reading a and then b bytes is reading a + b, so reads in pieces deliver the object. */
  lemma CursorReadsJoin(data: Bytes, at: nat, a: nat, b: nat)
    ensures var (first, mid) := Cursor(data, at, ReadOp(a));
            var (second, end) := Cursor(data, mid, ReadOp(b));
            Cursor(data, at, ReadOp(a + b)).0.bytes == first.bytes + second.bytes &&
            Cursor(data, at, ReadOp(a + b)).1 == end
  {
    var (first, mid) := Cursor(data, at, ReadOp(a));
    var (second, end) := Cursor(data, mid, ReadOp(b));
    var both := Cursor(data, at, ReadOp(a + b)).0.bytes;
    assert |both| == |first.bytes + second.bytes|;
    assert forall i :: 0 <= i < |both| ==> both[i] == (first.bytes + second.bytes)[i];
  }

  /** Seeks go from the start, from the position or from the end, and never before the start. */
  lemma CursorSeeks(data: Bytes, at: nat, n: int)
    requires n >= 0
    ensures Cursor(data, at, SeekOp(n, 0)) == (Position(n), n)
    ensures Cursor(data, at, SeekOp(n, 1)) == (Position(at + n), at + n)
    ensures Cursor(data, at, SeekOp(n, 2)) == (Position(|data| + n), |data| + n)
    ensures n > 0 ==> Cursor(data, at, SeekOp(-n, 0)) == (Rejected, at)
    ensures Cursor(data, at, SeekOp(-n, 1)) == if n <= at then (Position(at - n), at - n) else (Rejected, at)
    ensures Cursor(data, at, SeekOp(-n, 2)) == if n <= |data| then (Position(|data| - n), |data| - n) else (Rejected, at)
    ensures forall w, d :: w < 0 || w > 2 ==> Cursor(data, at, SeekOp(d, w)) == (Rejected, at)
  {
  }

  /** There and back again; and what a seek from the end leads to is the tail. */
  lemma SeekAndReturn(data: Bytes, at: nat, n: int)
    requires n >= 0
    ensures Cursor(data, Cursor(data, at, SeekOp(n, 1)).1, SeekOp(-n, 1)) == (Position(at), at)
    ensures 0 < n <= |data| ==>
              Cursor(data, Cursor(data, at, SeekOp(-n, 2)).1, ReadOp(n)) == (Data(data[|data| - n..], true), |data|)
  {
    assert n <= |data| ==> data[|data| - n..|data|] == data[|data| - n..];
  }

  /** Where an outcome leaves the position. */
  function NextAt(at: nat, out: Outcome): nat {
    match out
    case Data(bytes, _) => at + |bytes|
    case Position(to) => to
    case Rejected => at
  }

  /**
   * The outcome is the cursor's, or that of a read whose requests were not all served: the first bytes of what the
   * cursor would deliver, not at the end, or none and an error.
   */
  predicate Follows(data: Bytes, at: nat, op: FileOp, out: Outcome) {
    || out == Cursor(data, at, op).0
    || (op.ReadOp? && at < |data| && op.len > 0 &&
        (out.Rejected? ||
         (out.Data? && !out.eof && 0 < |out.bytes| < Min(op.len, |data| - at) && out.bytes == data[at..at + |out.bytes|])))
  }

  lemma CursorMoves(data: Bytes, at: nat, op: FileOp)
    ensures Follows(data, at, op, Cursor(data, at, op).0)
    ensures NextAt(at, Cursor(data, at, op).0) == Cursor(data, at, op).1
  {
  }

  /** The offset the buffer of a reader of a small object starts from, if it holds anything; it goes to the end. */
  type Grip = Option<nat>

  /** The operation fetches: it is a read of something that the buffer does not hold. */
  predicate Fetches(size: nat, at: nat, op: FileOp, g: Grip) {
    op.ReadOp? && op.len > 0 && at < size && !(g.Some? && g.value <= at)
  }

  /** The grip after an operation; a fetch that was refused leaves it. */
  function GripAfter(size: nat, at: nat, op: FileOp, g: Grip, refused: bool): Grip {
    match op
    case ReadOp(_) => if Fetches(size, at, op, g) && !refused then Some(at) else g
    case SeekOp(offset, whence) =>
      var t := Target(size, at, offset, whence);
      if t.None? || t.value == at || (g.Some? && g.value <= t.value < size) then g else None
  }

  class S3File {
    const source: Source
    const s3Key: string
    const etag: string
    const dc: DataCache?
    const isDir: bool
    var offset: nat
    var chunked: ChunkReader?
    var closed: bool

    ghost function Footprint(): set<object>
      reads this, chunked
    {
      {this} + if chunked != null then {chunked as object, chunked.buf} else {}
    }

    ghost predicate Valid()
      reads this, chunked
    {
      chunked != null ==>
        && chunked.source == source && chunked.s3Key == s3Key && chunked.etag == etag && chunked.dc == dc
        && chunked.Valid()
    }

    /** What the buffer shows, and for which offset. */
    ghost function Window(): Bytes
      requires Valid()
      reads this, chunked, if chunked != null then {chunked.buf} else {}
    {
      if chunked == null then [] else chunked.buf[..chunked.bufLen]
    }

    ghost function WindowStart(): nat
      reads this, chunked
    {
      if chunked == null then 0 else chunked.bufStart
    }

    ghost predicate Right()
      reads this, chunked, if chunked != null then {chunked.buf} else {}
    {
      chunked != null ==> chunked.Right()
    }

    ghost predicate ReachesEnd()
      reads this, chunked
    {
      chunked != null ==> chunked.ReachesEnd()
    }

    ghost function Grips(): Grip
      reads this, chunked
    {
      if chunked == null || chunked.bufLen == 0 then None else Some(chunked.bufStart)
    }

    ghost predicate Small() {
      Cacheable(dc, etag, source.data)
    }

    ghost predicate WholeInCache()
      reads dc
    {
      WholeIn(dc, s3Key, etag, source.data)
    }

    /** See ChunkReader.Steady. */
    ghost predicate Steady()
      reads this, chunked, dc
    {
      source.Productive() && WholeInCache() && (Small() ==> source.Full() && ReachesEnd())
    }

    constructor (source: Source, s3Key: string, etag: string, dc: DataCache?, isDir: bool)
      ensures Valid() && offset == 0 && !closed && chunked == null
      ensures this.source == source && this.s3Key == s3Key && this.etag == etag && this.dc == dc && this.isDir == isDir
    {
      this.source, this.s3Key, this.etag, this.dc, this.isDir := source, s3Key, etag, dc, isDir;
      offset, chunked, closed := 0, null, false;
    }

    /**
     * Read: None is an error that delivers nothing. What is delivered is what the buffer shows at the offset and then
     * the object's bytes.
     */
    method Read(p: array<Byte>) returns (r: Option<(nat, bool)>)
      requires Valid() && ValidCache(dc) && Steady() && p !in Footprint()
      modifies Footprint(), p, source, dc
      ensures Valid() && ValidCache(dc) && closed == old(closed) && fresh(Footprint() - old(Footprint()))
      ensures closed || isDir ==> r.None? && source.turn == old(source.turn)
      ensures r.None? ==> offset == old(offset) && p[..] == old(p[..])
      ensures r.Some? ==>
                var (n, eof) := r.value;
                && n <= p.Length && offset == old(offset) + n && p[n..] == old(p[n..])
                && (n > 0 ==> offset <= |source.data| &&
                              p[..n] == Delivered(source.data, old(Window()), old(WindowStart()), old(offset), n))
                && (eof <==> offset >= |source.data| || p.Length == 0)
      ensures source.turn >= old(source.turn)
      ensures !closed && !isDir ==>
                && (old(Right()) && source.NoneBroken(old(source.turn), source.turn) ==> Right())
                && (r.None? ==> p.Length > 0 && old(offset) < |source.data|)
                && (r.Some? && p.Length > 0 && old(offset) < |source.data| ==> r.value.0 > 0)
                && (source.AllServed(old(source.turn), source.turn) ==> r.Some?)
                && (source.AllServed(old(source.turn), source.turn) && old(offset) < |source.data| ==>
                      r.value.0 == Min(p.Length, |source.data| - old(offset)))
                && (Small() ==>
                      && Grips() == GripAfter(|source.data|, old(offset), ReadOp(p.Length), old(Grips()), r.None?)
                      && CacheAfter(ReadOp(p.Length), old(offset), old(Grips()), old(source.tick), old(dc.State()), r.None?))
      ensures Small() ==> ReachesEnd()
      ensures !Small() || !source.AllServed(old(source.turn), source.turn) ==> WholeInCache()
    {
      hide ChunkFor, AfterBreak, Delivered, Hits, Right, ReachesEnd, Grips, GripAfter, Window, WholeInCache;
      if closed || isDir {
        SteadyAlready();
        return None;
      }
      InitReader();
      r := ReadOn(p);
    }

    lemma SteadyAlready()
      requires Steady()
      ensures WholeInCache()
    {
    }

    /** The lazy start of the chunk reader, whose buffer is empty. */
    method InitReader()
      requires Valid()
      modifies this`chunked
      ensures Valid() && chunked != null && fresh(Footprint() - old(Footprint()))
      ensures Window() == old(Window()) && WindowStart() == old(WindowStart()) && Grips() == old(Grips())
      ensures (old(Right()) ==> Right()) && (old(ReachesEnd()) ==> ReachesEnd())
    {
      hide ChunkFor;
      if chunked == null {
        chunked := new ChunkReader(source, s3Key, dc, etag);
      }
    }

    method ReadOn(p: array<Byte>) returns (r: Option<(nat, bool)>)
      requires Valid() && ValidCache(dc) && Steady() && p !in Footprint() && chunked != null
      modifies this`offset, chunked, chunked.buf, p, source, dc
      ensures Valid() && ValidCache(dc) && (chunked.buf == old(chunked.buf) || fresh(chunked.buf))
      ensures r.None? ==> offset == old(offset) && p[..] == old(p[..])
      ensures r.Some? ==>
                var (n, eof) := r.value;
                && n <= p.Length && offset == old(offset) + n && p[n..] == old(p[n..])
                && (n > 0 ==> offset <= |source.data| &&
                              p[..n] == Delivered(source.data, old(Window()), old(WindowStart()), old(offset), n))
                && (eof <==> offset >= |source.data| || p.Length == 0)
      ensures source.turn >= old(source.turn)
      ensures && (old(Right()) && source.NoneBroken(old(source.turn), source.turn) ==> Right())
                && (r.None? ==> p.Length > 0 && old(offset) < |source.data|)
                && (r.Some? && p.Length > 0 && old(offset) < |source.data| ==> r.value.0 > 0)
                && (source.AllServed(old(source.turn), source.turn) ==> r.Some?)
                && (source.AllServed(old(source.turn), source.turn) && old(offset) < |source.data| ==>
                      r.value.0 == Min(p.Length, |source.data| - old(offset)))
                && (Small() ==>
                      && Grips() == GripAfter(|source.data|, old(offset), ReadOp(p.Length), old(Grips()), r.None?)
                      && CacheAfter(ReadOp(p.Length), old(offset), old(Grips()), old(source.tick), old(dc.State()), r.None?))
      ensures Small() ==> ReachesEnd()
      ensures !Small() || !source.AllServed(old(source.turn), source.turn) ==> WholeInCache()
    {
      hide ChunkFor, AfterBreak, Delivered, Hits;
      var n, err := chunked.ReadAt(p, offset);
      offset := offset + n;
      if err == Failed {
        return None;
      }
      return Some((n, err == Eof));
    }

    /** What an operation at `at` on a small object, refused or not, makes of the data cache. */
    ghost predicate CacheAfter(op: FileOp, at: nat, g: Grip, tick: nat, was: Index, refused: bool)
      requires Small()
      reads dc
    {
      var name := CacheKey(s3Key, etag);
      if !Fetches(|source.data|, at, op, g) then dc.State() == was
      else
        var hit := Hits(dc.config, was, name, source.clock(tick));
        if refused then !hit && dc.items.Keys <= was.items.Keys && SubMap(dc.disk, was.disk) else
        && (hit ==> dc.items == was.items && dc.disk == was.disk)
        && (WholeInCache() <==> hit || name !in dc.disk || !source.stores(tick) || at == 0)
        && (!hit && source.stores(tick) && dc.config.ttl <= 0 && |source.data| <= dc.config.maxSize ==>
              name in dc.items && name in dc.disk)
    }

    /** Seek: None is the error for an unknown whence or a negative target. The buffer stays if it holds the target. */
    method Seek(delta: int, whence: int) returns (r: Option<nat>)
      requires Valid()
      modifies this`offset, chunked
      ensures Valid() && r == Target(|source.data|, old(offset), delta, whence)
      ensures whence == 0 ==> r == if delta >= 0 then Some(delta) else None
      ensures whence == 1 ==> r == if old(offset) + delta >= 0 then Some(old(offset) + delta) else None
      ensures whence == 2 ==> r == if |source.data| + delta >= 0 then Some(|source.data| + delta) else None
      ensures whence < 0 || whence > 2 ==> r.None?
      ensures offset == if r.Some? then r.value else old(offset)
      ensures chunked != null ==> chunked.buf == old(chunked.buf) && chunked.bufStart == old(chunked.bufStart)
      ensures Window() == old(Window()) || Window() == []
      ensures (old(Right()) ==> Right()) && (old(ReachesEnd()) ==> ReachesEnd())
      ensures chunked != null ==>
                chunked.bufLen == if r.Some? && r.value != old(offset) && !old(chunked.InWindow(r.value)) then 0
                                  else old(chunked.bufLen)
      ensures old(ReachesEnd()) ==>
                Grips() == GripAfter(|source.data|, old(offset), SeekOp(delta, whence), old(Grips()), r.None?)
    {
      hide ChunkFor;
      var target;
      if whence == 0 {
        target := delta;
      } else if whence == 1 {
        target := offset + delta;
      } else if whence == 2 {
        target := |source.data| + delta;
      } else {
        return None;
      }
      if target < 0 {
        return None;
      }
      if chunked != null && target != offset {
        chunked.SeekTo(target);
      }
      offset := target;
      return Some(offset);
    }

    ghost predicate Of(source: Source, s3Key: string, etag: string, dc: DataCache?) {
      this.source == source && this.s3Key == s3Key && this.etag == etag && this.dc == dc
    }

    /** The file is open, its buffer right, and whole to the end for a small object. */
    ghost predicate Ready()
      reads this, chunked, if chunked != null then {chunked.buf} else {}
    {
      Valid() && !closed && !isDir && Right() && (Small() ==> ReachesEnd())
    }

    method DoRead(len: nat) returns (out: Outcome)
      requires Ready() && ValidCache(dc) && Steady() && source.Unbroken()
      modifies Footprint(), source, dc
      ensures Ready() && ValidCache(dc) && fresh(Footprint() - old(Footprint())) && source.turn >= old(source.turn)
      ensures Follows(source.data, old(offset), ReadOp(len), out) && offset == NextAt(old(offset), out)
      ensures source.AllServed(old(source.turn), source.turn) ==> out == Cursor(source.data, old(offset), ReadOp(len)).0
      ensures !Small() ==> WholeInCache()
      ensures Small() ==>
                && Grips() == GripAfter(|source.data|, old(offset), ReadOp(len), old(Grips()), out.Rejected?)
                && CacheAfter(ReadOp(len), old(offset), old(Grips()), old(source.tick), old(dc.State()), out.Rejected?)
    {
      hide ChunkFor, Hits, Accounted, GripAfter, Grips, Delivered, WholeInCache, ReachesEnd;
      ghost var window, start, at := Window(), WindowStart(), offset;
      assert start + |window| <= |source.data| && window == source.data[start..start + |window|];
      var p := new Byte[len];
      var r := Read(p);
      assert source.NoneBroken(old(source.turn), source.turn);
      if r.None? {
        return Rejected;
      }
      var n := r.value.0;
      if n > 0 {
        RightDelivered(source.data, window, start, at, n);
      }
      assert p[..n] == if at >= |source.data| then [] else source.data[at..at + n];
      out := Data(p[..n], r.value.1);
    }

    /** One operation, with no body that breaks off: it acts as on a cursor over the object, cut short if refused. */
    method Do(op: FileOp) returns (out: Outcome)
      requires Ready() && ValidCache(dc) && Steady() && source.Unbroken()
      modifies Footprint(), source, dc
      ensures Ready() && ValidCache(dc) && fresh(Footprint() - old(Footprint())) && source.turn >= old(source.turn)
      ensures Follows(source.data, old(offset), op, out) && offset == NextAt(old(offset), out)
      ensures source.AllServed(old(source.turn), source.turn) ==> out == Cursor(source.data, old(offset), op).0
      ensures !Small() ==> WholeInCache()
      ensures Small() ==>
                && Grips() == GripAfter(|source.data|, old(offset), op, old(Grips()), out.Rejected?)
                && CacheAfter(op, old(offset), old(Grips()), old(source.tick), old(dc.State()), out.Rejected?)
    {
      hide ChunkFor, Hits, Accounted, GripAfter, Grips;
      match op
      case ReadOp(len) => out := DoRead(len);
      case SeekOp(delta, whence) =>
        var r := Seek(delta, whence);
        out := if r.Some? then Position(r.value) else Rejected;
    }
  }
}
