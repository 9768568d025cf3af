/**
 * The disk-backed data cache of internal/cache/data.go: an LRU index with byte accounting over files named
 * by a digest of key and ETag. SHA-256 stands for an injective function and is left out of the names.
 */
module DataCaching {
  import opened Base

  type Bytes = seq<Byte>

  datatype Config = Config(maxSize: int, ttl: int)

  /** NewDataCache: a size that is not positive means 10 GB; a TTL of zero means none. */
  function WithDefaults(c: Config): (d: Config)
    ensures d.maxSize > 0
  {
    if c.maxSize <= 0 then c.(maxSize := 10 * 1024 * 1024 * 1024) else c
  }

  /** The name of the file that caches one version of one object. */
  function CacheKey(s3Key: string, etag: string): string {
    s3Key + etag
  }

  /** Two versions of one object have two files, and so have two objects of one ETag. */
  lemma VersionsApart(s3Key: string, etag: string, other: string)
    ensures CacheKey(s3Key, etag) == CacheKey(s3Key, other) <==> etag == other
    ensures CacheKey(etag, s3Key) == CacheKey(other, s3Key) <==> etag == other
  {
    assert CacheKey(s3Key, etag)[|s3Key|..] == etag && CacheKey(s3Key, other)[|s3Key|..] == other;
    assert CacheKey(etag, s3Key)[..|etag|] == etag && CacheKey(other, s3Key)[..|other|] == other;
  }

  datatype DataEntry = DataEntry(key: string, s3Key: string, size: nat, accessTime: int)

  /**
   * The index and the cache directory. List elements are known by number, so that an element a thread still
   * holds can be told from a newer one for the same key.
   */
  datatype Index = Index(
    elems: map<nat, DataEntry>, nextId: nat, items: map<string, nat>, order: seq<nat>, currentSize: int,
    disk: map<string, Bytes>)

  // ----- Invariants -----

  /** Every key in the map leads to a linked element of that key. */
  ghost predicate Pointing(s: Index) {
    && Distinct(s.order)
    && (forall id :: id in s.order ==> id in s.elems && id < s.nextId)
    && (forall id :: id in s.elems ==> id < s.nextId)
    && (forall k :: k in s.items ==> s.items[k] in s.order && s.elems[s.items[k]].key == k)
  }

  function Total(elems: map<nat, DataEntry>, order: seq<nat>): nat
    requires forall id :: id in order ==> id in elems
  {
    if order == [] then 0 else elems[order[0]].size + Total(elems, order[1..])
  }

  /** `items` matches `order`, and currentSize is the sum of the entry sizes. */
  ghost predicate Accounted(s: Index) {
    && Pointing(s)
    && (forall id :: id in s.order ==> s.elems[id].key in s.items && s.items[s.elems[id].key] == id)
    && s.currentSize == Total(s.elems, s.order)
  }

  ghost predicate InAccessOrder(elems: map<nat, DataEntry>, order: seq<nat>, now: int) {
    && (forall i :: 0 <= i < |order| ==> order[i] in elems && elems[order[i]].accessTime <= now)
    && (forall i, j :: 0 <= i < j < |order| ==> elems[order[i]].accessTime >= elems[order[j]].accessTime)
  }

  /** The list runs from the latest access back, and no access is later than `now`. */
  ghost predicate Recent(s: Index, now: int) {
    InAccessOrder(s.elems, s.order, now)
  }

  lemma {:induction false} TotalWithout(elems: map<nat, DataEntry>, order: seq<nat>, id: nat)
    requires Distinct(order) && id in order && forall x :: x in order ==> x in elems
    ensures forall x :: x in Without(order, {id}) ==> x in elems
    ensures Total(elems, order) == Total(elems, Without(order, {id})) + elems[id].size
  {
    WithoutMembers(order, {id});
    if order[0] == id {
      WithoutAt(order, 0);
      assert Without(order, {id}) == order[1..];
    } else {
      var rest := Without(order[1..], {id});
      assert id in order[1..];
      assert forall x :: x in order[1..] ==> x in order;
      TotalWithout(elems, order[1..], id);
      assert Without(order, {id}) == [order[0]] + rest;
      assert ([order[0]] + rest)[1..] == rest;
    }
  }

  lemma {:induction false} TotalSame(a: map<nat, DataEntry>, b: map<nat, DataEntry>, order: seq<nat>)
    requires forall id :: id in order ==> id in a && id in b && a[id].size == b[id].size
    ensures Total(a, order) == Total(b, order)
  {
    if order == [] {
    } else {
      assert order[0] in order;
      TotalSame(a, b, order[1..]);
    }
  }

  // ----- Critical sections -----

  /** Subtract an element's size, take it off the list and delete the key: every removal in the source. */
  function Unlink(s: Index, id: nat, key: string): Index
    requires id in s.elems
  {
    s.(currentSize := s.currentSize - s.elems[id].size, order := Without(s.order, {id}), items := s.items - {key})
  }

  /** Set an element's size and access time and move it to the front. */
  function Refresh(s: Index, id: nat, size: nat, now: int): Index
    requires id in s.elems
  {
    s.(elems := s.elems[id := s.elems[id].(size := size, accessTime := now)],
       currentSize := s.currentSize - s.elems[id].size + size,
       order := [id] + Without(s.order, {id}))
  }

  predicate Stale(cfg: Config, e: DataEntry, now: int) {
    cfg.ttl > 0 && now - e.accessTime > cfg.ttl
  }

  /** The first critical section of Get. Some(id) means that the file is opened next. */
  function Probe(cfg: Config, s: Index, key: string, now: int): (Index, Option<nat>)
    requires forall k :: k in s.items ==> s.items[k] in s.elems
  {
    if key !in s.items then (s, None)
    else
      var id := s.items[key];
      if Stale(cfg, s.elems[id], now) then (Unlink(s.(disk := s.disk - {key}), id, key), None)
      else (Refresh(s, id, s.elems[id].size, now), Some(id))
  }

  /** A lookup of `key` finds a fresh entry and its file. */
  predicate Hits(cfg: Config, s: Index, key: string, now: int) {
    key in s.items && s.items[key] in s.elems && !Stale(cfg, s.elems[s.items[key]], now) && key in s.disk
  }

  /** The index update of Put, after the file has been renamed into place. */
  function Record(s: Index, key: string, s3Key: string, written: nat, now: int): Index
    requires forall k :: k in s.items ==> s.items[k] in s.elems
  {
    if key in s.items then Refresh(s, s.items[key], written, now)
    else
      s.(elems := s.elems[s.nextId := DataEntry(key, s3Key, written, now)], nextId := s.nextId + 1,
         order := [s.nextId] + s.order, items := s.items[key := s.nextId], currentSize := s.currentSize + written)
  }

  /**
   * What the update of Put does to the other entries: nothing. A new key goes in front of the list as it was, a known one
   * moves there, and the size grows by what was written, less what the key had before.
   */
  ghost predicate Recorded(s: Index, t: Index, key: string, s3Key: string, written: nat, now: int) {
    && (key in s.items ==> s.items[key] in s.elems)
    && t.items.Keys == s.items.Keys + {key} && t.disk == s.disk
    && (forall k :: k in s.items && k != key ==> t.items[k] == s.items[k])
    && (forall id :: id in s.order && id in s.elems && s.elems[id].key != key ==> id in t.elems && t.elems[id] == s.elems[id])
    && t.order != [] && t.order[0] == t.items[key] == (if key in s.items then s.items[key] else s.nextId)
    && t.order[1..] == (if key in s.items then Without(s.order, {s.items[key]}) else s.order)
    && t.currentSize == s.currentSize + written - (if key in s.items then s.elems[s.items[key]].size else 0)
    && t.items[key] in t.elems
    && t.elems[t.items[key]] == DataEntry(key, if key in s.items then s.elems[s.items[key]].s3Key else s3Key, written, now)
  }

  lemma RecordSpares(s: Index, key: string, s3Key: string, written: nat, now: int)
    requires Accounted(s)
    ensures Recorded(s, Record(s, key, s3Key, written, now), key, s3Key, written, now)
  {
    hide Without, Total;
    if key in s.items {
      KnownSpares(s, key, s3Key, written, now);
    } else {
      NewSpares(s, key, s3Key, written, now);
    }
  }

  lemma KnownSpares(s: Index, key: string, s3Key: string, written: nat, now: int)
    requires Accounted(s) && key in s.items
    ensures Recorded(s, Record(s, key, s3Key, written, now), key, s3Key, written, now)
  {
    hide Without, Total;
  }

  lemma NewSpares(s: Index, key: string, s3Key: string, written: nat, now: int)
    requires Accounted(s) && key !in s.items
    ensures Recorded(s, Record(s, key, s3Key, written, now), key, s3Key, written, now)
  {
    hide Without, Total;
  }

  function PopBack(s: Index): Index
    requires s.order != [] && s.order[|s.order| - 1] in s.elems
  {
    var back := s.order[|s.order| - 1];
    var key := s.elems[back].key;
    Unlink(s.(disk := s.disk - {key}), back, key)
  }

  ghost predicate Backed(s: Index) {
    Distinct(s.order) && forall id :: id in s.order ==> id in s.elems
  }

  // ----- What the critical sections keep -----

  lemma OrderWithout(order: seq<nat>, id: nat) returns (i: nat)
    requires Distinct(order) && id in order
    ensures i < |order| && order[i] == id && Without(order, {id}) == order[..i] + order[i + 1..]
    ensures Distinct(Without(order, {id})) && forall x :: x in Without(order, {id}) <==> x in order && x != id
  {
    i :| 0 <= i < |order| && order[i] == id;
    WithoutAt(order, i);
    WithoutMembers(order, {id});
    WithoutDistinct(order, {id});
  }

  lemma AccountedPoints(s: Index)
    requires Accounted(s)
    ensures Pointing(s) && Backed(s)
  {
  }

  lemma DiskIsNotCounted(s: Index, disk: map<string, Bytes>)
    requires Accounted(s)
    ensures Accounted(s.(disk := disk))
  {
  }

  lemma UnlinkPointing(s: Index, id: nat)
    requires Pointing(s) && id in s.order
    ensures Pointing(Unlink(s, id, s.elems[id].key))
  {
    var i := OrderWithout(s.order, id);
  }

  lemma UnlinkAccounted(s: Index, id: nat)
    requires Accounted(s) && id in s.order
    ensures Accounted(Unlink(s, id, s.elems[id].key))
  {
    UnlinkPointing(s, id);
    var i := OrderWithout(s.order, id);
    TotalWithout(s.elems, s.order, id);
  }

  lemma WithoutInOrder(elems: map<nat, DataEntry>, order: seq<nat>, id: nat, now: int)
    requires Distinct(order) && id in order && InAccessOrder(elems, order, now)
    ensures InAccessOrder(elems, Without(order, {id}), now)
  {
    var i := OrderWithout(order, id);
  }

  lemma UnlinkKeeps(s: Index, id: nat, now: int)
    requires Pointing(s) && id in s.order
    ensures Pointing(Unlink(s, id, s.elems[id].key))
    ensures Accounted(s) ==> Accounted(Unlink(s, id, s.elems[id].key))
    ensures Recent(s, now) ==> Recent(Unlink(s, id, s.elems[id].key), now)
  {
    UnlinkPointing(s, id);
    if Accounted(s) {
      UnlinkAccounted(s, id);
    }
    if Recent(s, now) {
      WithoutInOrder(s.elems, s.order, id, now);
    }
  }

  lemma RefreshPointing(s: Index, id: nat, size: nat, now: int)
    requires Pointing(s) && id in s.order
    ensures Pointing(Refresh(s, id, size, now))
  {
    MoveToFront(s.order, id);
  }

  lemma RefreshAccounted(s: Index, id: nat, size: nat, now: int)
    requires Accounted(s) && id in s.order
    ensures Accounted(Refresh(s, id, size, now))
  {
    hide Without;
    RefreshPointing(s, id, size, now);
    RefreshTotal(s, id, size, now);
    hide Total;
    MoveToFront(s.order, id);
  }

  lemma RefreshTotal(s: Index, id: nat, size: nat, now: int)
    requires Pointing(s) && id in s.order && s.currentSize == Total(s.elems, s.order)
    ensures Backed(Refresh(s, id, size, now))
    ensures Refresh(s, id, size, now).currentSize == Total(Refresh(s, id, size, now).elems, Refresh(s, id, size, now).order)
  {
    hide Without;
    var t, rest := Refresh(s, id, size, now), Without(s.order, {id});
    RefreshPointing(s, id, size, now);
    var i := OrderWithout(s.order, id);
    TotalWithout(s.elems, s.order, id);
    TotalSame(s.elems, t.elems, rest);
    assert t.order[1..] == rest;
  }

  lemma FrontInOrder(elems: map<nat, DataEntry>, order: seq<nat>, id: nat, e: DataEntry, before: int, now: int)
    requires InAccessOrder(elems, order, before) && before <= now && id !in order && e.accessTime == now
    ensures InAccessOrder(elems[id := e], [id] + order, now)
  {
    assert forall q :: 0 <= q < |order| ==> order[q] in order;
  }

  lemma RefreshKeeps(s: Index, id: nat, size: nat, before: int, now: int)
    requires Pointing(s) && id in s.order
    ensures Pointing(Refresh(s, id, size, now))
    ensures Accounted(s) ==> Accounted(Refresh(s, id, size, now))
    ensures Recent(s, before) && before <= now ==> Recent(Refresh(s, id, size, now), now)
  {
    RefreshPointing(s, id, size, now);
    if Accounted(s) {
      RefreshAccounted(s, id, size, now);
    }
    if Recent(s, before) && before <= now {
      WithoutInOrder(s.elems, s.order, id, before);
      WithoutMembers(s.order, {id});
      FrontInOrder(s.elems, Without(s.order, {id}), id, Refresh(s, id, size, now).elems[id], before, now);
    }
  }

  lemma PushPointing(s: Index, key: string, s3Key: string, written: nat, now: int)
    requires Pointing(s) && key !in s.items
    ensures Pointing(Record(s, key, s3Key, written, now))
  {
    assert s.nextId !in s.order;
  }

  lemma PushAccounted(s: Index, key: string, s3Key: string, written: nat, now: int)
    requires Accounted(s) && key !in s.items
    ensures Accounted(Record(s, key, s3Key, written, now))
  {
    var t := Record(s, key, s3Key, written, now);
    PushPointing(s, key, s3Key, written, now);
    assert s.nextId !in s.order && t.order[1..] == s.order;
    TotalSame(s.elems, t.elems, s.order);
  }

  lemma RecordKeeps(s: Index, key: string, s3Key: string, written: nat, before: int, now: int)
    requires Pointing(s)
    ensures Pointing(Record(s, key, s3Key, written, now))
    ensures Accounted(s) ==> Accounted(Record(s, key, s3Key, written, now))
    ensures Recent(s, before) && before <= now ==> Recent(Record(s, key, s3Key, written, now), now)
  {
    if key in s.items {
      RefreshKeeps(s, s.items[key], written, before, now);
    } else {
      PushPointing(s, key, s3Key, written, now);
      if Accounted(s) {
        PushAccounted(s, key, s3Key, written, now);
      }
      if Recent(s, before) && before <= now {
        FrontInOrder(s.elems, s.order, s.nextId, DataEntry(key, s3Key, written, now), before, now);
      }
    }
  }

  // ----- Eviction -----

  /** `t` is `s` cut down to its first n list elements, with the files of the others deleted. */
  ghost predicate CutTo(s: Index, t: Index, n: nat) {
    && n <= |s.order|
    && t.elems == s.elems && t.nextId == s.nextId
    && t.order == s.order[..n]
    && t.items.Keys <= s.items.Keys
    && t.disk == s.disk - (s.items.Keys - t.items.Keys)
  }

  lemma PopBackOrder(s: Index)
    requires Backed(s) && s.order != []
    ensures s.order[|s.order| - 1] in s.order && PopBack(s).order == s.order[..|s.order| - 1]
  {
    var n := |s.order| - 1;
    assert s.order[n] in s.order;
    WithoutAt(s.order, n);
    assert s.order[..n] + s.order[n + 1..] == s.order[..n];
  }

  lemma PopBackCuts(s: Index, t: Index, n: nat)
    requires Accounted(t) && CutTo(s, t, n) && n > 0
    ensures t.order[|t.order| - 1] in t.elems
    ensures Accounted(PopBack(t)) && CutTo(s, PopBack(t), n - 1)
    ensures PopBack(t).order == t.order[..|t.order| - 1]
  {
    hide Total, Without;
    PopBackOrder(t);
    var back := t.order[n - 1];
    var key := t.elems[back].key;
    UnlinkAccounted(t.(disk := t.disk - {key}), back);
    CutFurther(s, t, n, PopBack(t), key);
  }

  lemma CutFurther(s: Index, t: Index, n: nat, u: Index, key: string)
    requires CutTo(s, t, n) && n > 0 && key in t.items
    requires u.elems == t.elems && u.nextId == t.nextId && u.order == t.order[..|t.order| - 1]
    requires u.items == t.items - {key} && u.disk == t.disk - {key}
    ensures CutTo(s, u, n - 1)
  {
    assert s.items.Keys - u.items.Keys == (s.items.Keys - t.items.Keys) + {key};
  }

  ghost predicate StaleAt(cfg: Config, s: Index, i: nat, now: int) {
    i < |s.order| && s.order[i] in s.elems && Stale(cfg, s.elems[s.order[i]], now)
  }

  /** How many of the first n elements the TTL loop leaves. */
  ghost function FreshCount(cfg: Config, s: Index, n: nat, now: int): nat {
    if n == 0 || !StaleAt(cfg, s, n - 1, now) then n else FreshCount(cfg, s, n - 1, now)
  }

  /** The first n elements are together within the limit. */
  ghost predicate Fits(cfg: Config, s: Index, n: nat)
    requires Backed(s) && n <= |s.order|
  {
    Total(s.elems, s.order[..n]) <= cfg.maxSize
  }

  /** How many of the first n elements the size loop leaves. */
  ghost function FitCount(cfg: Config, s: Index, n: nat): nat
    requires Backed(s) && n <= |s.order|
  {
    if n == 0 || Fits(cfg, s, n) then n else FitCount(cfg, s, n - 1)
  }

  /** Size eviction leaves the longest most-recent prefix whose total fits. */
  lemma {:induction false} FitCountIsLongest(cfg: Config, s: Index, n: nat)
    requires Backed(s) && n <= |s.order| && cfg.maxSize >= 0
    ensures FitCount(cfg, s, n) <= n && Total(s.elems, s.order[..FitCount(cfg, s, n)]) <= cfg.maxSize
    ensures forall m :: FitCount(cfg, s, n) < m <= n ==> Total(s.elems, s.order[..m]) > cfg.maxSize
  {
    if n > 0 && !Fits(cfg, s, n) {
      FitCountIsLongest(cfg, s, n - 1);
    }
  }

  lemma {:induction false} FreshCountShape(cfg: Config, s: Index, n: nat, now: int)
    requires n <= |s.order|
    ensures FreshCount(cfg, s, n, now) <= n
    ensures FreshCount(cfg, s, n, now) > 0 ==> !StaleAt(cfg, s, FreshCount(cfg, s, n, now) - 1, now)
    ensures forall j :: FreshCount(cfg, s, n, now) <= j < n ==> StaleAt(cfg, s, j, now)
  {
    if n > 0 && StaleAt(cfg, s, n - 1, now) {
      FreshCountShape(cfg, s, n - 1, now);
    }
  }

  /**
   * The TTL pass removes exactly the stale entries if and only if no stale entry stands ahead of a fresh one,
   * as it may after a restart, when the list is in directory order.
   */
  lemma TtlPassExactIff(cfg: Config, s: Index, now: int)
    ensures (forall i :: 0 <= i < |s.order| ==> (i < FreshCount(cfg, s, |s.order|, now) <==> !StaleAt(cfg, s, i, now)))
            <==>
            (forall i, j :: 0 <= i < j < |s.order| && StaleAt(cfg, s, i, now) ==> StaleAt(cfg, s, j, now))
  {
    FreshCountShape(cfg, s, |s.order|, now);
    var n := FreshCount(cfg, s, |s.order|, now);
    if forall i, j :: 0 <= i < j < |s.order| && StaleAt(cfg, s, i, now) ==> StaleAt(cfg, s, j, now) {
      forall i | 0 <= i < n ensures !StaleAt(cfg, s, i, now) {
        assert !StaleAt(cfg, s, n - 1, now);
      }
    }
  }

  /** With the list in access order the TTL pass is exact. */
  lemma TtlPassExact(cfg: Config, s: Index, now: int)
    requires Recent(s, now)
    ensures forall i :: 0 <= i < |s.order| ==>
              (i < FreshCount(cfg, s, |s.order|, now) <==>
               cfg.ttl <= 0 || now - s.elems[s.order[i]].accessTime <= cfg.ttl)
  {
    TtlPassExactIff(cfg, s, now);
    var n := FreshCount(cfg, s, |s.order|, now);
    assert forall i :: 0 <= i < |s.order| ==> (i < n <==> !StaleAt(cfg, s, i, now));
    forall i | 0 <= i < |s.order|
      ensures i < n <==> cfg.ttl <= 0 || now - s.elems[s.order[i]].accessTime <= cfg.ttl
    {
      assert StaleAt(cfg, s, i, now) <==> cfg.ttl > 0 && now - s.elems[s.order[i]].accessTime > cfg.ttl;
    }
  }

  /** What evict makes of an index. */
  ghost predicate Evicted(cfg: Config, s: Index, t: Index, now: int)
    requires Backed(s)
  {
    FreshCountShape(cfg, s, |s.order|, now);
    CutTo(s, t, FitCount(cfg, s, FreshCount(cfg, s, |s.order|, now)))
  }

  lemma CutFits(cfg: Config, s: Index, t: Index, n: nat)
    requires Backed(s) && Accounted(t) && CutTo(s, t, n)
    ensures Fits(cfg, s, n) <==> t.currentSize <= cfg.maxSize
  {
  }

  /** Eviction spares an entry at the front that is fresh and fits on its own. */
  lemma FrontSurvives(cfg: Config, s: Index, t: Index, now: int, key: string)
    requires Accounted(s) && Accounted(t) && Evicted(cfg, s, t, now)
    requires key in s.items && key in s.disk && s.order != [] && s.order[0] == s.items[key]
    requires s.elems[s.items[key]].size <= cfg.maxSize && !Stale(cfg, s.elems[s.items[key]], now)
    ensures key in t.items && key in t.disk && t.items[key] == s.items[key] && t.elems == s.elems
  {
    FreshCountShape(cfg, s, |s.order|, now);
    var n := FreshCount(cfg, s, |s.order|, now);
    assert n > 0 by {
      assert !StaleAt(cfg, s, 0, now);
    }
    assert s.order[..1] == [s.order[0]];
    assert Total(s.elems, s.order[..1]) == s.elems[s.order[0]].size by {
      assert s.order[..1][1..] == [];
    }
    assert Fits(cfg, s, 1);
    AtLeastOne(cfg, s, n);
    assert t.order[0] == s.order[0] && t.order[0] in t.order;
  }

  lemma {:induction false} AtLeastOne(cfg: Config, s: Index, n: nat)
    requires Backed(s) && 1 <= n <= |s.order| && Fits(cfg, s, 1)
    ensures 1 <= FitCount(cfg, s, n) <= n
  {
    if n == 1 || Fits(cfg, s, n) {
    } else {
      AtLeastOne(cfg, s, n - 1);
    }
  }

  /** Two indexes with books in order, one the other cut down to all of it, are the same. */
  lemma CutToAll(s: Index, t: Index)
    requires Accounted(s) && Accounted(t) && CutTo(s, t, |s.order|)
    ensures s == t
  {
    hide Total;
    assert s.order[..|s.order|] == s.order;
    forall k | k in s.items ensures k in t.items && t.items[k] == s.items[k] {
      assert s.items[k] in t.order;
    }
    assert s.items == t.items;
    assert s.items.Keys - t.items.Keys == {};
  }

  /** Where nothing can be stale and all of it fits, eviction changes nothing. */
  lemma AllSurvive(cfg: Config, s: Index, t: Index, now: int)
    requires Accounted(s) && Accounted(t) && Evicted(cfg, s, t, now) && cfg.ttl <= 0 && s.currentSize <= cfg.maxSize
    ensures s == t
  {
    hide Total;
    FreshCountShape(cfg, s, |s.order|, now);
    assert FreshCount(cfg, s, |s.order|, now) == |s.order|;
    assert s.order[..|s.order|] == s.order;
    CutToAll(s, t);
  }

  /** Every key of `t` but `key` leads to the element and the entry it had in `s`. */
  ghost predicate SameEntries(s: Index, t: Index, key: string) {
    forall k :: k in t.items && k != key ==>
      && k in s.items && t.items[k] == s.items[k] && t.items[k] in s.elems && t.items[k] in t.elems
      && t.elems[t.items[k]] == s.elems[t.items[k]]
  }

  /** The list of `t` is a front part of the key's element and then the others of `s` in their order. */
  ghost predicate FrontPart(s: Index, t: Index, key: string) {
    t.order <= if key in s.items then [s.items[key]] + Without(s.order, {s.items[key]}) else [s.nextId] + s.order
  }

  /** If there is no TTL and everything fits, everything stays. */
  ghost predicate AllStay(cfg: Config, s: Index, t: Index, key: string, data: Bytes) {
    var had := if key in s.items && s.items[key] in s.elems then s.elems[s.items[key]].size else 0;
    cfg.ttl <= 0 && s.currentSize + |data| - had <= cfg.maxSize ==>
      t.items.Keys == s.items.Keys + {key} && t.disk == s.disk[key := data]
  }

  /** What a put under `key` that led from `s` to `t` has left of the other entries. */
  ghost predicate Spares(cfg: Config, s: Index, t: Index, key: string, data: Bytes) {
    t.currentSize <= cfg.maxSize && FrontPart(s, t, key) && SameEntries(s, t, key) && AllStay(cfg, s, t, key, data)
  }

  lemma PutSpares(cfg: Config, s: Index, t: Index, key: string, s3Key: string, data: Bytes, now: int)
    requires Accounted(s) && Accounted(t) && cfg.maxSize > 0
    requires var u := Record(s.(disk := s.disk[key := data]), key, s3Key, |data|, now);
             Accounted(u) && Evicted(cfg, u, t, now)
    ensures Spares(cfg, s, t, key, data)
  {
    hide Without, Total, Evicted, Accounted, Backed, FrontPart, SameEntries, AllStay, Recorded, Record;
    var placed := s.(disk := s.disk[key := data]);
    DiskIsNotCounted(s, placed.disk);
    AccountedPoints(placed);
    var u := Record(placed, key, s3Key, |data|, now);
    RecordSpares(placed, key, s3Key, |data|, now);
    hide Pointing;
    AccountedPoints(u);
    EvictedRemains(cfg, u, t, now);
    EvictedPrefix(cfg, u, t, now);
    if cfg.ttl <= 0 && u.currentSize <= cfg.maxSize {
      AllSurvive(cfg, u, t, now);
    }
    AccountedPoints(s);
    EntriesSpared(s, u, t, key, s3Key, data, now);
    OrderSpared(s, u, t, key, s3Key, data, now);
    AllSpared(cfg, s, u, t, key, s3Key, data, now);
  }

  lemma OrderSpared(s: Index, u: Index, t: Index, key: string, s3Key: string, data: Bytes, now: int)
    requires Recorded(s.(disk := s.disk[key := data]), u, key, s3Key, |data|, now) && t.order <= u.order
    ensures FrontPart(s, t, key)
  {
    hide Without;
    assert u.order == [u.order[0]] + u.order[1..];
  }

  lemma AllSpared(cfg: Config, s: Index, u: Index, t: Index, key: string, s3Key: string, data: Bytes, now: int)
    requires Recorded(s.(disk := s.disk[key := data]), u, key, s3Key, |data|, now)
    requires cfg.ttl <= 0 && u.currentSize <= cfg.maxSize ==> t == u
    ensures AllStay(cfg, s, t, key, data)
  {
    hide Without;
  }

  lemma EntriesSpared(s: Index, u: Index, t: Index, key: string, s3Key: string, data: Bytes, now: int)
    requires Pointing(s) && Recorded(s.(disk := s.disk[key := data]), u, key, s3Key, |data|, now)
    requires t.elems == u.elems && SubMap(t.items, u.items)
    ensures SameEntries(s, t, key)
  {
    hide Without;
    forall k | k in t.items && k != key ensures k in s.items && s.items[k] in s.order {
      assert k in u.items;
    }
  }

  lemma EvictedPrefix(cfg: Config, s: Index, t: Index, now: int)
    requires Backed(s) && Evicted(cfg, s, t, now)
    ensures t.order <= s.order && t.elems == s.elems
  {
  }

  lemma EvictedFiles(cfg: Config, s: Index, t: Index, now: int)
    requires Backed(s) && Evicted(cfg, s, t, now)
    ensures forall k :: k in t.disk ==> k in s.disk && t.disk[k] == s.disk[k]
  {
  }

  /** What eviction leaves is indexed as before, and its total is within the limit. */
  lemma EvictedRemains(cfg: Config, s: Index, t: Index, now: int)
    requires Accounted(s) && Accounted(t) && Evicted(cfg, s, t, now) && cfg.maxSize > 0
    ensures forall k :: k in t.items ==> k in s.items && t.items[k] == s.items[k]
    ensures t.currentSize <= cfg.maxSize
  {
    hide Total;
    FreshCountShape(cfg, s, |s.order|, now);
    var n := FreshCount(cfg, s, |s.order|, now);
    FitCountIsLongest(cfg, s, n);
    CutFits(cfg, s, t, FitCount(cfg, s, n));
    forall k | k in t.items ensures k in s.items && t.items[k] == s.items[k] {
      assert t.items[k] in s.order;
    }
  }

  class DataCache {
    const config: Config
    var elems: map<nat, DataEntry>
    var nextId: nat
    var items: map<string, nat>
    var order: seq<nat>
    var currentSize: int
    var disk: map<string, Bytes>

    ghost function State(): Index
      reads this
    {
      Index(elems, nextId, items, order, currentSize, disk)
    }

    ghost predicate Valid()
      reads this
    {
      config.maxSize > 0 && Accounted(State())
    }

    /**
     * scanDir and the eviction that follows it: index the files found, in directory order, with the modification
     * times found and no record of their S3 keys.
     */
    constructor (cfg: Config, files: map<string, Bytes>, listing: seq<string>, modTime: map<string, int>, now: int)
      requires Scannable(files, listing, modTime)
      ensures Valid() && config == WithDefaults(cfg)
      ensures config == Config(if cfg.maxSize > 0 then cfg.maxSize else 10 * 1024 * 1024 * 1024, cfg.ttl)
      ensures Evicted(config, Scanned(files, listing, modTime, |listing|), State(), now)
      ensures forall k :: k in items ==> k in files && k in modTime && items[k] in elems &&
                                         elems[items[k]] == DataEntry(k, "", |files[k]|, modTime[k])
      ensures currentSize <= config.maxSize
      ensures forall k :: k in disk ==> k in files && disk[k] == files[k]
      ensures cfg.ttl <= 0 && BytesOf(files, listing) <= config.maxSize ==>
                items.Keys == (set f | f in listing) && disk == files
    {
      config := WithDefaults(cfg);
      elems, nextId, items, order, currentSize, disk := map[], 0, map[], [], 0, files;
      new;
      for i := 0 to |listing|
        invariant State() == Scanned(files, listing, modTime, i)
      {
        assert listing[i] in listing;
        Append(listing[i], |files[listing[i]]|, modTime[listing[i]]);
      }
      ScannedAccounted(files, listing, modTime, |listing|);
      ScannedEntries(files, listing, modTime, |listing|);
      EvictNow(now);
      ScannedKept(config, files, listing, modTime, State(), now);
    }

    /** One file met by scanDir: list.PushBack. */
    method Append(f: string, size: nat, modTime: int)
      modifies this`elems, this`nextId, this`items, this`order, this`currentSize
      ensures State() == Appended(old(State()), f, size, modTime)
    {
      elems := elems[nextId := DataEntry(f, "", size, modTime)];
      order := order + [nextId];
      items := items[f := nextId];
      nextId := nextId + 1;
      currentSize := currentSize + size;
    }

    /** evict: drop stale entries from the back, then drop from the back until the total fits. */
    method EvictNow(now: int)
      requires Valid()
      modifies this`items, this`order, this`currentSize, this`disk
      ensures Valid() && Evicted(config, old(State()), State(), now)
    {
      hide Accounted, Total;
      ghost var s := State();
      FreshCountShape(config, s, |s.order|, now);
      AccountedPoints(s);
      DropStale(now);
      DropLarge(s, FreshCount(config, s, |s.order|, now));
    }

    /** The TTL loop. */
    method DropStale(now: int)
      requires Valid()
      modifies this`items, this`order, this`currentSize, this`disk
      ensures Valid() && CutTo(old(State()), State(), FreshCount(config, old(State()), |old(order)|, now))
    {
      hide Accounted;
      ghost var s := State();
      assert s.order[..|s.order|] == s.order;
      ghost var n: nat := |order|;
      while config.ttl > 0 && |order| > 0
        invariant Valid() && CutTo(s, State(), n) && n == |order|
        invariant FreshCount(config, s, |s.order|, now) == FreshCount(config, s, n, now)
        decreases |order|
      {
        LastIsElement();
        assert s.order[n - 1] == order[|order| - 1];
        if now - elems[order[|order| - 1]].accessTime <= config.ttl {
          break;
        }
        DropBack(s, n);
        n := n - 1;
      }
      assert FreshCount(config, s, n, now) == n;
    }

    /** The size loop. */
    method DropLarge(ghost s: Index, ghost kept: nat)
      requires Valid() && Backed(s) && CutTo(s, State(), kept)
      modifies this`items, this`order, this`currentSize, this`disk
      ensures Valid() && CutTo(s, State(), FitCount(config, s, kept))
    {
      hide Accounted, Total;
      ghost var n: nat := kept;
      CutFits(config, s, State(), n);
      while currentSize > config.maxSize && |order| > 0
        invariant Valid() && CutTo(s, State(), n) && n == |order| <= kept
        invariant FitCount(config, s, kept) == FitCount(config, s, n)
        invariant Fits(config, s, n) <==> currentSize <= config.maxSize
        decreases |order|
      {
        LastIsElement();
        DropBack(s, n);
        n := n - 1;
        CutFits(config, s, State(), n);
      }
    }

    /** A hit is the content of the file at the moment it is opened. */
    method Get(s3Key: string, etag: string, now: int) returns (r: Option<Bytes>)
      requires Valid()
      modifies this`elems, this`items, this`order, this`currentSize, this`disk
      ensures Valid()
      ensures forall k :: k in disk ==> k in old(disk) && disk[k] == old(disk[k])
      ensures items.Keys <= old(items.Keys)
      ensures var key := CacheKey(s3Key, etag);
              var (p, found) := Probe(config, old(State()), key, now);
              && (r.Some? <==> found.Some? && key in p.disk)
              && (r.Some? ==> r.value == old(disk)[key])
              && (r.Some? <==> Hits(config, old(State()), key, now))
              && (r.Some? ==> items == old(items) && disk == old(disk))
              && State() == (if found.Some? && key !in p.disk && found.value in p.elems
                             then Unlink(p, found.value, key) else p)
      ensures var key := CacheKey(s3Key, etag);
              && (r.Some? <==> key in old(items) && key in old(disk) && old(items)[key] in old(elems) &&
                               (config.ttl <= 0 || now - old(elems)[old(items)[key]].accessTime <= config.ttl))
              && (r.Some? ==>
                    var id := old(items)[key];
                    && order == [id] + Without(old(order), {id})
                    && elems == old(elems)[id := old(elems)[id].(accessTime := now)])
              && (r.None? ==>
                    var gone := if key in old(items) then {key} else {};
                    && items == old(items) - gone && disk == old(disk) - gone
                    && order == (if key in old(items) then Without(old(order), {old(items)[key]}) else old(order))
                    && (forall k :: k in items ==> items[k] in old(elems) && elems[items[k]] == old(elems)[items[k]]))
    {
      hide Accounted, Without;
      ItemsAreElements();
      var key := CacheKey(s3Key, etag);
      if key !in items {
        return None;
      }
      var id := items[key];
      if config.ttl > 0 && now - elems[id].accessTime > config.ttl {
        DiskIsNotCounted(State(), disk - {key});
        UnlinkAccounted(State().(disk := disk - {key}), id);
        disk := disk - {key};
        RemoveElement(id, key);
        return None;
      }
      RefreshAccounted(State(), id, elems[id].size, now);
      RefreshElement(id, elems[id].size, now);
      if key !in disk {
        ItemsAreElements();
        UnlinkAccounted(State(), id);
        RemoveElement(id, key);
        WithoutCons(id, Without(old(order), {id}), {id});
        WithoutTwice(old(order), {id}, {id});
        assert {id} + {id} == {id};
        return None;
      }
      return Some(disk[key]);
    }

    lemma ItemsAreElements()
      requires Valid()
      ensures forall k :: k in items ==> items[k] in order && items[k] in elems && elems[items[k]].key == k
    {
    }

    /** Subtract the size, unlink the element, delete the key. */
    method RemoveElement(id: nat, key: string)
      requires id in elems
      modifies this`items, this`order, this`currentSize
      ensures State() == Unlink(old(State()), id, key)
    {
      currentSize := currentSize - elems[id].size;
      order := Without(order, {id});
      items := items - {key};
    }

    /** A file vanishes from the cache directory; the index does not notice. */
    method LoseFile(name: string)
      requires Valid()
      modifies this`disk
      ensures Valid() && State() == old(State()).(disk := old(disk) - {name})
    {
      DiskIsNotCounted(State(), disk - {name});
      disk := disk - {name};
    }

    /** Give the element a size and an access time, and move it to the front. */
    method RefreshElement(id: nat, size: nat, now: int)
      requires id in elems
      modifies this`elems, this`order, this`currentSize
      ensures State() == Refresh(old(State()), id, size, now)
    {
      currentSize := currentSize - elems[id].size;
      elems := elems[id := elems[id].(size := size, accessTime := now)];
      currentSize := currentSize + size;
      order := [id] + Without(order, {id});
    }

    /** `stored` is false when creating, writing or renaming the temporary file fails. */
    method Put(s3Key: string, etag: string, data: Bytes, now: int, stored: bool) returns (ok: bool)
      requires Valid()
      modifies this`elems, this`nextId, this`items, this`order, this`currentSize, this`disk
      ensures Valid() && ok == stored
      ensures !stored ==> State() == old(State())
      ensures forall k :: k in disk ==>
                if stored && k == CacheKey(s3Key, etag) then disk[k] == data else k in old(disk) && disk[k] == old(disk)[k]
      ensures stored ==>
                var key := CacheKey(s3Key, etag);
                var placed := old(State()).(disk := old(disk)[key := data]);
                && Accounted(Record(placed, key, s3Key, |data|, now))
                && Evicted(config, Record(placed, key, s3Key, |data|, now), State(), now)
      ensures stored && |data| <= config.maxSize ==>
                var key := CacheKey(s3Key, etag);
                && key in items && key in disk && items[key] in elems
                && elems[items[key]] == DataEntry(key, if key in old(items) && old(items)[key] in old(elems)
                                                       then old(elems)[old(items)[key]].s3Key else s3Key, |data|, now)
      ensures stored ==> Spares(config, old(State()), State(), CacheKey(s3Key, etag), data)
    {
      if !stored {
        return false;
      }
      hide Accounted, Without, Evicted, Spares;
      var key := CacheKey(s3Key, etag);
      DiskIsNotCounted(State(), disk[key := data]);
      AccountedPoints(State().(disk := disk[key := data]));
      RecordKeeps(State().(disk := disk[key := data]), key, s3Key, |data|, now, now);
      disk := disk[key := data];
      RecordElement(key, s3Key, |data|, now);
      ghost var before := State();
      EvictNow(now);
      EvictedFiles(config, before, State(), now);
      PutSpares(config, old(State()), State(), key, s3Key, data, now);
      if |data| <= config.maxSize {
        FrontSurvives(config, before, State(), now, key);
      }
      return true;
    }

    /** The index update of Put. */
    method RecordElement(key: string, s3Key: string, size: nat, now: int)
      requires forall k :: k in items ==> items[k] in elems
      modifies this`elems, this`nextId, this`items, this`order, this`currentSize
      ensures State() == Record(old(State()), key, s3Key, size, now)
      ensures key in items && items[key] in elems && order != [] && order[0] == items[key]
      ensures elems[items[key]] == if key in old(items) then old(elems)[items[key]].(size := size, accessTime := now)
                                   else DataEntry(key, s3Key, size, now)
    {
      if key in items {
        RefreshElement(items[key], size, now);
      } else {
        elems := elems[nextId := DataEntry(key, s3Key, size, now)];
        order := [nextId] + order;
        items := items[key := nextId];
        nextId := nextId + 1;
        currentSize := currentSize + size;
      }
    }

    /**
     * Invalidate: drop every cached version of an S3 key, as far as the index knows it. An entry found by the scan at
     * start has no S3 key, and a later put of the same name does not give it one, so such an entry stays.
     */
    method InvalidateKey(s3Key: string)
      requires Valid()
      modifies this`items, this`order, this`currentSize, this`disk
      ensures Valid()
      ensures var doomed := set k | k in old(items) && elems[old(items)[k]].s3Key == s3Key;
              && items == old(items) - doomed
              && disk == old(disk) - doomed
              && order == Without(old(order), set k | k in doomed :: old(items)[k])
      ensures forall k :: k in items <==> k in old(items) && elems[old(items)[k]].s3Key != s3Key
    {
      hide Accounted, Without;
      ItemsAreElements();
      ghost var items0, disk0, order0 := items, disk, order;
      var doomed := set k | k in items && elems[items[k]].s3Key == s3Key;
      var todo := doomed;
      ghost var gone: set<nat> := {};
      WithoutNothing(order, {});
      while todo != {}
        invariant Valid() && todo <= doomed
        invariant items == items0 - (doomed - todo) && disk == disk0 - (doomed - todo)
        invariant gone == (set k | k in doomed && k !in todo :: items0[k])
        invariant order == Without(order0, gone)
        decreases todo
      {
        var key :| key in todo;
        ghost var id := items[key];
        DropVersion(key);
        WithoutTwice(order0, gone, {id});
        todo := todo - {key};
        gone := gone + {id};
      }
      assert gone == (set k | k in doomed :: items0[k]);
    }

    /** One removal by Invalidate: the file, the element and the key. */
    method DropVersion(key: string)
      requires Valid() && key in items
      modifies this`items, this`order, this`currentSize, this`disk
      ensures Valid() && items == old(items) - {key} && disk == old(disk) - {key}
      ensures order == Without(old(order), {old(items)[key]})
    {
      hide Accounted, Without;
      ItemsAreElements();
      var id := items[key];
      DiskIsNotCounted(State(), disk - {key});
      UnlinkAccounted(State().(disk := disk - {key}), id);
      disk := disk - {key};
      RemoveElement(id, key);
    }

    lemma LastIsElement()
      requires Valid()
      ensures Backed(State()) && (order != [] ==> order[|order| - 1] in elems)
    {
    }

    /** One turn of either eviction loop. */
    method DropBack(ghost s: Index, ghost n: nat)
      requires Valid() && |order| > 0 && n > 0 && CutTo(s, State(), n) && order[|order| - 1] in elems
      modifies this`items, this`order, this`currentSize, this`disk
      ensures Valid() && CutTo(s, State(), n - 1) && |order| == old(|order|) - 1
    {
      hide Accounted, Without, CutTo;
      PopBackCuts(s, State(), n);
      var back := order[|order| - 1];
      var key := elems[back].key;
      disk := disk - {key};
      currentSize := currentSize - elems[back].size;
      order := order[..|order| - 1];
      items := items - {key};
    }
  }

  /**
   * A version found by a scan at start and put again: the invalidation of its S3 key leaves it, and the next lookup hits.
   * No entry carries the S3 key then, and this one carries none, though it was put under that key.
   */
  method InvalidateMissesScanned(cfg: Config, s3Key: string, etag: string, data: Bytes, now: int)
      returns (dc: DataCache, hit: Option<Bytes>)
    requires s3Key != "" && |data| <= WithDefaults(cfg).maxSize
    ensures hit == Some(data) && dc.Valid() && dc.config == WithDefaults(cfg)
    ensures forall k :: k in dc.items ==> dc.items[k] in dc.elems && dc.elems[dc.items[k]].s3Key != s3Key
    ensures var name := CacheKey(s3Key, etag);
            && name in dc.items && dc.elems[dc.items[name]] == DataEntry(name, "", |data|, now)
            && name in dc.disk && dc.disk[name] == data
  {
    hide Accounted, Evicted, Without;
    var name := CacheKey(s3Key, etag);
    dc := ScanOne(cfg, name, data, now);
    var ok := dc.Put(s3Key, etag, data, now, true);
    assert dc.elems[dc.items[name]].s3Key == "";
    dc.InvalidateKey(s3Key);
    hit := dc.Get(s3Key, etag, now);
    dc.ItemsAreElements();
  }

  method ScanOne(cfg: Config, name: string, data: Bytes, now: int) returns (dc: DataCache)
    requires |data| <= WithDefaults(cfg).maxSize
    ensures fresh(dc) && dc.Valid() && dc.config == WithDefaults(cfg)
    ensures name in dc.items && dc.items[name] in dc.elems && dc.elems[dc.items[name]] == DataEntry(name, "", |data|, now)
  {
    hide Accounted, Evicted, Without, Scanned;
    var files, modTime := map[name := data], map[name := now];
    OneScanned(name, data, now);
    dc := new DataCache(cfg, files, [name], modTime, now);
    FrontSurvives(dc.config, Scanned(files, [name], modTime, 1), dc.State(), now, name);
  }

  lemma OneScanned(name: string, data: Bytes, now: int)
    ensures var s := Scanned(map[name := data], [name], map[name := now], 1);
            && Scannable(map[name := data], [name], map[name := now]) && Accounted(s)
            && name in s.items && name in s.disk && s.order == [s.items[name]]
            && s.items[name] in s.elems && s.elems[s.items[name]] == DataEntry(name, "", |data|, now)
  {
    ScannedAccounted(map[name := data], [name], map[name := now], 1);
  }

  function Appended(s: Index, f: string, size: nat, modTime: int): Index {
    s.(elems := s.elems[s.nextId := DataEntry(f, "", size, modTime)], nextId := s.nextId + 1,
       order := s.order + [s.nextId], items := s.items[f := s.nextId], currentSize := s.currentSize + size)
  }

  lemma AppendedAccounted(s: Index, f: string, size: nat, modTime: int)
    requires Accounted(s) && f !in s.items
    ensures Accounted(Appended(s, f, size, modTime))
  {
    var t := Appended(s, f, size, modTime);
    assert s.nextId !in s.order;
    TotalAppend(s.elems, t.elems, s.order, s.nextId);
  }

  /** A scan meets files of the directory, none twice; shards and files it cannot read are passed over. */
  ghost predicate Scannable(files: map<string, Bytes>, listing: seq<string>, modTime: map<string, int>) {
    Distinct(listing) && (forall f :: f in listing ==> f in files) && files.Keys <= modTime.Keys
  }

  /** The index scanDir has built from the first n files it met. */
  ghost function Scanned(files: map<string, Bytes>, listing: seq<string>, modTime: map<string, int>, n: nat): (s: Index)
    requires n <= |listing| && Scannable(files, listing, modTime)
    ensures Backed(s)
  {
    ScannedAccounted(files, listing, modTime, n);
    ScannedFiles(files, listing, modTime, n)
  }

  ghost function ScannedFiles(files: map<string, Bytes>, listing: seq<string>, modTime: map<string, int>, n: nat): Index
    requires n <= |listing| && Scannable(files, listing, modTime)
  {
    if n == 0 then Index(map[], 0, map[], [], 0, files)
    else
      var f := listing[n - 1];
      assert f in listing;
      Appended(ScannedFiles(files, listing, modTime, n - 1), f, |files[f]|, modTime[f])
  }

  lemma {:induction false} ScannedAccounted(files: map<string, Bytes>, listing: seq<string>, modTime: map<string, int>,
                                            n: nat)
    requires n <= |listing| && Scannable(files, listing, modTime)
    ensures Accounted(ScannedFiles(files, listing, modTime, n))
    ensures forall k :: k in ScannedFiles(files, listing, modTime, n).items ==> k in listing[..n]
  {
    if n == 0 {
    } else {
      hide Accounted, Total;
      ScannedAccounted(files, listing, modTime, n - 1);
      LastListed(listing, n);
      var before, f := ScannedFiles(files, listing, modTime, n - 1), listing[n - 1];
      AppendedAccounted(before, f, |files[f]|, modTime[f]);
      assert ScannedFiles(files, listing, modTime, n) == Appended(before, f, |files[f]|, modTime[f]);
    }
  }

  /** Each scanned file is indexed with its size and modification time, and no S3 key. */
  lemma {:induction false} ScannedEntries(files: map<string, Bytes>, listing: seq<string>, modTime: map<string, int>,
                                          n: nat)
    requires n <= |listing| && Scannable(files, listing, modTime)
    ensures var s := ScannedFiles(files, listing, modTime, n);
            forall k :: k in s.items ==>
              k in files && k in modTime && s.items[k] in s.elems && s.items[k] < s.nextId &&
              s.elems[s.items[k]] == DataEntry(k, "", |files[k]|, modTime[k])
  {
    if n == 0 {
    } else {
      ScannedEntries(files, listing, modTime, n - 1);
      assert listing[n - 1] in listing;
    }
  }

  /** The bytes of the files listed. */
  function BytesOf(files: map<string, Bytes>, listing: seq<string>): nat
    requires forall f :: f in listing ==> f in files
  {
    if listing == [] then 0
    else
      var n := |listing| - 1;
      assert forall f :: f in listing[..n] ==> f in listing;
      assert listing[n] in listing;
      BytesOf(files, listing[..n]) + |files[listing[n]]|
  }

  /** Every file met is indexed, and none is deleted. */
  lemma {:induction false} ScannedAll(files: map<string, Bytes>, listing: seq<string>, modTime: map<string, int>, n: nat)
    requires n <= |listing| && Scannable(files, listing, modTime)
    ensures var s := ScannedFiles(files, listing, modTime, n);
            s.items.Keys == (set f | f in listing[..n]) && s.disk == files
  {
    if n == 0 {
    } else {
      ScannedAll(files, listing, modTime, n - 1);
      LastListed(listing, n);
      var before, f := ScannedFiles(files, listing, modTime, n - 1), listing[n - 1];
      var s := ScannedFiles(files, listing, modTime, n);
      hide ScannedFiles, Scannable;
      assert s.items.Keys == before.items.Keys + {f};
    }
  }

  lemma {:induction false} ScannedBytes(files: map<string, Bytes>, listing: seq<string>, modTime: map<string, int>, n: nat)
    requires n <= |listing| && Scannable(files, listing, modTime)
    ensures (forall f :: f in listing[..n] ==> f in files)
    ensures ScannedFiles(files, listing, modTime, n).currentSize == BytesOf(files, listing[..n])
  {
    assert forall f :: f in listing[..n] ==> f in listing;
    if n == 0 {
    } else {
      ScannedBytes(files, listing, modTime, n - 1);
      assert listing[..n][..n - 1] == listing[..n - 1] && listing[..n][n - 1] == listing[n - 1];
    }
  }

  /** They are indexed in the order in which they were met. */
  lemma {:induction false} ScannedInOrder(files: map<string, Bytes>, listing: seq<string>, modTime: map<string, int>, n: nat)
    requires n <= |listing| && Scannable(files, listing, modTime)
    ensures var s := ScannedFiles(files, listing, modTime, n);
            && |s.order| == n
            && (forall i :: 0 <= i < n ==> s.order[i] in s.elems && s.order[i] < s.nextId && s.elems[s.order[i]].key == listing[i])
  {
    if n == 0 {
    } else {
      ScannedInOrder(files, listing, modTime, n - 1);
      var before := ScannedFiles(files, listing, modTime, n - 1);
      var s := ScannedFiles(files, listing, modTime, n);
      assert listing[n - 1] in listing;
      hide ScannedFiles;
      assert s == Appended(before, listing[n - 1], |files[listing[n - 1]]|, modTime[listing[n - 1]]);
    }
  }

  lemma ScannedKept(cfg: Config, files: map<string, Bytes>, listing: seq<string>, modTime: map<string, int>, t: Index, now: int)
    requires Scannable(files, listing, modTime) && cfg.maxSize > 0 && Accounted(t)
    requires Evicted(cfg, Scanned(files, listing, modTime, |listing|), t, now)
    ensures t.currentSize <= cfg.maxSize
    ensures var s := ScannedFiles(files, listing, modTime, |listing|);
            t.elems == s.elems && SubMap(t.items, s.items)
    ensures forall k :: k in t.disk ==> k in files && t.disk[k] == files[k]
    ensures cfg.ttl <= 0 && BytesOf(files, listing) <= cfg.maxSize ==>
              t.items.Keys == (set f | f in listing) && t.disk == files
  {
    hide Accounted, Evicted, Total;
    var s := Scanned(files, listing, modTime, |listing|);
    ScannedAccounted(files, listing, modTime, |listing|);
    ScannedAll(files, listing, modTime, |listing|);
    ScannedBytes(files, listing, modTime, |listing|);
    assert listing[..|listing|] == listing;
    EvictedRemains(cfg, s, t, now);
    EvictedFiles(cfg, s, t, now);
    EvictedPrefix(cfg, s, t, now);
    if cfg.ttl <= 0 && s.currentSize <= cfg.maxSize {
      AllSurvive(cfg, s, t, now);
    }
  }

  lemma LastListed(listing: seq<string>, n: nat)
    requires Distinct(listing) && 0 < n <= |listing|
    ensures listing[n - 1] in listing && listing[n - 1] !in listing[..n - 1]
    ensures forall f :: f in listing[..n] <==> f in listing[..n - 1] || f == listing[n - 1]
  {
    assert listing[..n] == listing[..n - 1] + [listing[n - 1]];
  }

  lemma {:induction false} TotalAppend(a: map<nat, DataEntry>, b: map<nat, DataEntry>, order: seq<nat>, id: nat)
    requires (forall x :: x in order ==> x in a && x in b && a[x] == b[x]) && id in b
    ensures forall x :: x in order + [id] ==> x in b
    ensures Total(b, order + [id]) == Total(a, order) + b[id].size
  {
    if order == [] {
      assert order + [id] == [id];
    } else {
      assert order[0] in order;
      TotalAppend(a, b, order[1..], id);
      assert (order + [id])[1..] == order[1..] + [id];
    }
  }
}
