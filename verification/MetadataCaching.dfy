/**
 * The metadata cache of internal/cache/metadata.go: an LRU list with a map into it, three TTLs, negative
 * entries and cached directory listings. The clock is a parameter of every call.
 */
module MetadataCaching {
  import opened Base
  import opened Paths

  datatype CacheEntry = CacheEntry(
    s3Key: string, size: int, modTime: int, mode: nat, isDir: bool, inode: nat, cachedAt: int, negative: bool)

  datatype DirListing = DirListing(entries: seq<CacheEntry>, cachedAt: int)

  datatype Config = Config(maxEntries: int, fileTtl: int, dirTtl: int, negativeTtl: int)

  /** NewMetadataCache replaces values that are not positive by the defaults; times are in nanoseconds. */
  function WithDefaults(c: Config): (d: Config)
    ensures d.maxEntries >= 1
  {
    Config(if c.maxEntries <= 0 then 10000 else c.maxEntries,
           if c.fileTtl <= 0 then 300_000_000_000 else c.fileTtl,
           if c.dirTtl <= 0 then 60_000_000_000 else c.dirTtl,
           if c.negativeTtl <= 0 then 10_000_000_000 else c.negativeTtl)
  }

  predicate Expired(cfg: Config, e: CacheEntry, now: int) {
    var age := now - e.cachedAt;
    if e.negative then age > cfg.negativeTtl
    else if e.isDir then age > cfg.dirTtl
    else age > cfg.fileTtl
  }

  function Stamped(e: CacheEntry, now: int): CacheEntry {
    e.(cachedAt := now, negative := false)
  }

  function NegativeEntry(key: string, now: int): CacheEntry {
    CacheEntry(key, 0, 0, 0, false, 0, now, true)
  }

  // ----- Recency lists -----

  datatype Item = Item(key: string, entry: CacheEntry)

  ghost function Keys(v: seq<Item>): set<string> {
    set i | 0 <= i < |v| :: v[i].key
  }

  ghost predicate DistinctKeys(v: seq<Item>) {
    forall i, j :: 0 <= i < j < |v| ==> v[i].key != v[j].key
  }

  /** `v` without the items whose key is in `ks`. */
  function Drop(v: seq<Item>, ks: set<string>): seq<Item> {
    if v == [] then []
    else (if v[0].key in ks then [] else [v[0]]) + Drop(v[1..], ks)
  }

  function Lookup(v: seq<Item>, key: string): Option<CacheEntry> {
    if v == [] then None
    else if v[0].key == key then Some(v[0].entry)
    else Lookup(v[1..], key)
  }

  lemma {:induction false} DropKeeps(v: seq<Item>, ks: set<string>)
    ensures forall x :: x in Drop(v, ks) <==> x in v && x.key !in ks
    ensures |Drop(v, ks)| <= |v|
    ensures DistinctKeys(v) ==> DistinctKeys(Drop(v, ks))
  {
    if v == [] {
    } else {
      DropKeeps(v[1..], ks);
      assert v == [v[0]] + v[1..];
      var rest := Drop(v[1..], ks);
      if DistinctKeys(v) && v[0].key !in ks {
        forall j | 0 <= j < |rest| ensures rest[j].key != v[0].key {
          assert rest[j] in v[1..];
        }
      }
    }
  }

  lemma {:induction false} LookupFinds(v: seq<Item>, i: nat)
    requires DistinctKeys(v) && i < |v|
    ensures Lookup(v, v[i].key) == Some(v[i].entry)
  {
    if i == 0 {
    } else {
      assert v[0].key != v[i].key;
      LookupFinds(v[1..], i - 1);
    }
  }

  lemma {:induction false} LookupWhere(v: seq<Item>, key: string) returns (i: nat)
    ensures Lookup(v, key).Some? ==> i < |v| && v[i] == Item(key, Lookup(v, key).value)
    ensures Lookup(v, key).None? <==> key !in Keys(v)
  {
    i := 0;
    if v == [] {
    } else {
      if v[0].key == key {
        assert key in Keys(v);
      } else {
        var j := LookupWhere(v[1..], key);
        i := j + 1;
        assert forall q :: 0 < q < |v| ==> v[q] == v[1..][q - 1];
        if key in Keys(v) {
          var q :| 0 <= q < |v| && v[q].key == key;
          assert v[1..][q - 1].key == key;
        }
      }
    }
  }

  // ----- The cache as a value -----

  datatype CacheState = CacheState(entries: seq<Item>, listings: map<string, DirListing>)

  datatype Op =
    | Get(key: string)
    | Put(key: string, entry: CacheEntry)
    | PutNegative(key: string)
    | GetListing(prefix: string)
    | PutListing(prefix: string, entries: seq<CacheEntry>)
    | Invalidate(key: string)
    | InvalidatePrefix(prefix: string)
    | EvictExpired

  /** Store at the front; a new key first pushes the last item out of a full list. */
  function Stored(v: seq<Item>, key: string, e: CacheEntry, max: int): seq<Item> {
    if Lookup(v, key).Some? then [Item(key, e)] + Drop(v, {key})
    else if |v| >= max && v != [] then [Item(key, e)] + v[..|v| - 1]
    else [Item(key, e)] + v
  }

  ghost function ExpiredKeys(cfg: Config, v: seq<Item>, now: int): set<string> {
    set i | 0 <= i < |v| && Expired(cfg, v[i].entry, now) :: v[i].key
  }

  ghost function PrefixedKeys(v: seq<Item>, prefix: string): set<string> {
    set i | 0 <= i < |v| && prefix <= v[i].key :: v[i].key
  }

  function Answer(cfg: Config, s: CacheState, key: string, now: int): Option<CacheEntry> {
    var e := Lookup(s.entries, key);
    if e.Some? && !Expired(cfg, e.value, now) then e else None
  }

  function ListingAnswer(cfg: Config, s: CacheState, prefix: string, now: int): Option<seq<CacheEntry>> {
    if prefix in s.listings && now - s.listings[prefix].cachedAt <= cfg.dirTtl then Some(s.listings[prefix].entries)
    else None
  }

  ghost function Apply(cfg: Config, s: CacheState, op: Op, now: int): CacheState {
    match op
    case Get(key) =>
      var e := Lookup(s.entries, key);
      if e.None? then s
      else if Expired(cfg, e.value, now) then s.(entries := Drop(s.entries, {key}))
      else s.(entries := [Item(key, e.value)] + Drop(s.entries, {key}))
    case Put(key, entry) => s.(entries := Stored(s.entries, key, Stamped(entry, now), cfg.maxEntries))
    case PutNegative(key) => s.(entries := Stored(s.entries, key, NegativeEntry(key, now), cfg.maxEntries))
    case GetListing(_) => s
    case PutListing(prefix, entries) => s.(listings := s.listings[prefix := DirListing(entries, now)])
    case Invalidate(key) => CacheState(Drop(s.entries, {key}), s.listings - {ParentPrefix(key)})
    case InvalidatePrefix(prefix) =>
      CacheState(Drop(s.entries, PrefixedKeys(s.entries, prefix)),
                 map p | p in s.listings && !(prefix <= p) :: s.listings[p])
    case EvictExpired =>
      CacheState(Drop(s.entries, ExpiredKeys(cfg, s.entries, now)),
                 map p | p in s.listings && now - s.listings[p].cachedAt <= cfg.dirTtl :: s.listings[p])
  }

  // ----- List elements by identity -----

  /** The items the list elements `order` hold. */
  function ItemsOf(elems: map<nat, Item>, order: seq<nat>): (v: seq<Item>)
    requires forall id :: id in order ==> id in elems
    ensures |v| == |order| && forall i :: 0 <= i < |v| ==> v[i] == elems[order[i]]
  {
    seq(|order|, i requires 0 <= i < |order| => elems[order[i]])
  }

  /** Unlinking elements drops exactly their keys. */
  lemma {:induction false} UnlinkDrops(elems: map<nat, Item>, order: seq<nat>, gone: set<nat>, ks: set<string>)
    requires forall id :: id in order ==> id in elems && (id in gone <==> elems[id].key in ks)
    ensures forall id :: id in Without(order, gone) ==> id in elems
    ensures ItemsOf(elems, Without(order, gone)) == Drop(ItemsOf(elems, order), ks)
  {
    WithoutMembers(order, gone);
    if order == [] {
    } else {
      var first, rest := order[0], order[1..];
      assert first in order && order == [first] + rest;
      assert forall id :: id in rest ==> id in order;
      UnlinkDrops(elems, rest, gone, ks);
      UnlinkStep(elems, first, rest, gone, ks);
    }
  }

  lemma UnlinkStep(elems: map<nat, Item>, first: nat, rest: seq<nat>, gone: set<nat>, ks: set<string>)
    requires first in elems && (first in gone <==> elems[first].key in ks)
    requires (forall id :: id in rest ==> id in elems) && (forall id :: id in Without(rest, gone) ==> id in elems)
    requires ItemsOf(elems, Without(rest, gone)) == Drop(ItemsOf(elems, rest), ks)
    ensures forall id :: id in [first] + rest ==> id in elems
    ensures forall id :: id in Without([first] + rest, gone) ==> id in elems
    ensures ItemsOf(elems, Without([first] + rest, gone)) == Drop(ItemsOf(elems, [first] + rest), ks)
  {
    hide Without, Drop;
    ItemsOfCons(elems, first, rest);
    DropCons(elems[first], ItemsOf(elems, rest), ks);
    WithoutCons(first, rest, gone);
    if first !in gone {
      ItemsOfCons(elems, first, Without(rest, gone));
    }
  }

  lemma DropCons(x: Item, v: seq<Item>, ks: set<string>)
    ensures Drop([x] + v, ks) == if x.key in ks then Drop(v, ks) else [x] + Drop(v, ks)
  {
    assert ([x] + v)[1..] == v;
  }

  lemma ItemsOfCons(elems: map<nat, Item>, id: nat, order: seq<nat>)
    requires id in elems && forall x :: x in order ==> x in elems
    ensures forall x :: x in [id] + order ==> x in elems
    ensures ItemsOf(elems, [id] + order) == [elems[id]] + ItemsOf(elems, order)
    ensures ItemsOf(elems, [id] + order)[1..] == ItemsOf(elems, order)
  {
  }

  /** The list has no element twice, and the map points at exactly its elements, each under its own key. */
  ghost predicate Linked(elems: map<nat, Item>, nextId: nat, items: map<string, nat>, order: seq<nat>) {
    && Distinct(order)
    && (forall id :: id in order ==> id in elems && id < nextId &&
                                     elems[id].key in items && items[elems[id].key] == id)
    && (forall k :: k in items ==> items[k] in order && elems[items[k]].key == k)
  }

  /** list.MoveToFront with a new value keeps the links... */
  lemma PromoteLinks(elems: map<nat, Item>, nextId: nat, items: map<string, nat>, order: seq<nat>,
                     key: string, e: CacheEntry)
    requires Linked(elems, nextId, items, order) && key in items
    ensures var id := items[key];
            && Linked(elems[id := Item(key, e)], nextId, items, [id] + Without(order, {id}))
            && |[id] + Without(order, {id})| == |order|
  {
    hide Without;
    MoveToFront(order, items[key]);
  }

  /** ... and puts the item in front of the others. */
  lemma PromoteItems(elems: map<nat, Item>, nextId: nat, items: map<string, nat>, order: seq<nat>,
                     key: string, e: CacheEntry)
    requires Linked(elems, nextId, items, order) && key in items
    ensures var id := items[key];
            var order', elems' := [id] + Without(order, {id}), elems[id := Item(key, e)];
            && (forall x :: x in order' ==> x in elems')
            && ItemsOf(elems', order') == [Item(key, e)] + Drop(ItemsOf(elems, order), {key})
  {
    hide Without, Drop;
    var id := items[key];
    var rest, elems' := Without(order, {id}), elems[id := Item(key, e)];
    UnlinkDrops(elems, order, {id}, {key});
    WithoutMembers(order, {id});
    assert forall q :: 0 <= q < |rest| ==> rest[q] in rest;
    assert ItemsOf(elems', [id] + rest) == [Item(key, e)] + ItemsOf(elems, rest);
  }

  /** list.PushFront of a new element. */
  lemma PushLinks(elems: map<nat, Item>, nextId: nat, items: map<string, nat>, order: seq<nat>,
                  key: string, e: CacheEntry)
    requires Linked(elems, nextId, items, order) && key !in items
    ensures var elems' := elems[nextId := Item(key, e)];
            && Linked(elems', nextId + 1, items[key := nextId], [nextId] + order)
            && ItemsOf(elems', [nextId] + order) == [Item(key, e)] + ItemsOf(elems, order)
  {
    var elems' := elems[nextId := Item(key, e)];
    assert nextId !in order;
    assert forall q :: 0 <= q < |order| ==> order[q] in order;
    assert ItemsOf(elems', [nextId] + order) == [Item(key, e)] + ItemsOf(elems, order);
    forall x | x in order ensures x in [nextId] + order {
    }
  }

  class MetadataCache {
    const config: Config
    var elems: map<nat, Item>
    var nextId: nat
    var items: map<string, nat>
    var order: seq<nat>
    var dirListings: map<string, DirListing>

    /** `items` and `order` are in bijection, and the list is within capacity. */
    ghost predicate Valid()
      reads this
    {
      && config.maxEntries >= 1
      && |order| <= config.maxEntries
      && Linked(elems, nextId, items, order)
    }

    ghost function State(): CacheState
      requires Valid()
      reads this
    {
      CacheState(ItemsOf(elems, order), dirListings)
    }

    /** The abstract list and the map agree. */
    lemma StateShape()
      requires Valid()
      ensures Sound(config, State())
      ensures Keys(State().entries) == items.Keys
      ensures forall k :: k in items ==> Lookup(State().entries, k) == Some(elems[items[k]].entry)
    {
      var v := ItemsOf(elems, order);
      assert forall i :: 0 <= i < |v| ==> order[i] in order;
      assert DistinctKeys(v);
      forall k | k in items
        ensures k in Keys(v) && Lookup(v, k) == Some(elems[items[k]].entry)
      {
        var i: nat :| i < |order| && order[i] == items[k];
        assert v[i].key == k;
        LookupFinds(v, i);
      }
    }

    lemma ItemsAreElements()
      requires Valid()
      ensures forall k :: k in items ==> items[k] in elems
    {
    }

    constructor (cfg: Config)
      ensures Valid() && config == WithDefaults(cfg)
      ensures config.maxEntries == if cfg.maxEntries > 0 then cfg.maxEntries else 10_000
      ensures config.fileTtl == if cfg.fileTtl > 0 then cfg.fileTtl else 5 * 60 * 1_000_000_000
      ensures config.dirTtl == if cfg.dirTtl > 0 then cfg.dirTtl else 60 * 1_000_000_000
      ensures config.negativeTtl == if cfg.negativeTtl > 0 then cfg.negativeTtl else 10 * 1_000_000_000
      ensures State() == CacheState([], map[])
    {
      config := WithDefaults(cfg);
      elems, nextId, items, order, dirListings := map[], 0, map[], [], map[];
    }

    /** removeLocked. */
    method RemoveElement(key: string)
      requires Valid() && key in items
      modifies this`items, this`order
      ensures Valid()
      ensures State() == CacheState(Drop(old(State()).entries, {key}), dirListings)
      ensures items == old(items) - {key} && order == Without(old(order), {old(items)[key]})
    {
      var id := items[key];
      UnlinkDrops(elems, order, {id}, {key});
      WithoutMembers(order, {id});
      WithoutDistinct(order, {id});
      MoveToFront(order, id);
      order := Without(order, {id});
      items := items - {key};
    }

    /** Move the element of `key` to the front, with a new entry. */
    method Promote(key: string, e: CacheEntry)
      requires Valid() && key in items
      modifies this`elems, this`order
      ensures Valid()
      ensures State() == CacheState([Item(key, e)] + Drop(old(State()).entries, {key}), dirListings)
    {
      PromoteLinks(elems, nextId, items, order, key, e);
      PromoteItems(elems, nextId, items, order, key, e);
      var id := items[key];
      elems := elems[id := Item(key, e)];
      order := [id] + Without(order, {id});
    }

    /** evictOldestLocked. */
    method EvictOldest()
      requires Valid() && order != []
      modifies this`items, this`order
      ensures Valid() && |order| == old(|order|) - 1 && items.Keys <= old(items.Keys)
      ensures State() == CacheState(old(State()).entries[..old(|order|) - 1], dirListings)
    {
      var last := |order| - 1;
      var back := order[last];
      assert back in order;
      var key := elems[back].key;
      ghost var v := State().entries;
      WithoutAt(order, last);
      RemoveElement(key);
      assert order == old(order)[..last];
      assert State().entries == v[..last];
    }

    /** The shared tail of PutEntry and PutNegative. */
    method Store(key: string, e: CacheEntry)
      requires Valid()
      modifies this`elems, this`nextId, this`items, this`order
      ensures Valid()
      ensures State() == CacheState(Stored(old(State()).entries, key, e, config.maxEntries), dirListings)
    {
      ghost var v := State().entries;
      StateShape();
      if key in items {
        Promote(key, e);
        return;
      }
      var at := LookupWhere(v, key);
      if |order| >= config.maxEntries {
        EvictOldest();
      }
      PushLinks(elems, nextId, items, order, key, e);
      elems := elems[nextId := Item(key, e)];
      order := [nextId] + order;
      items := items[key := nextId];
      nextId := nextId + 1;
    }

    method GetEntry(key: string, now: int) returns (r: Option<CacheEntry>)
      requires Valid()
      modifies this`elems, this`items, this`order
      ensures Valid() && State() == Apply(config, old(State()), Get(key), now)
      ensures r == Answer(config, old(State()), key, now)
      ensures var t := Table(old(State()).entries);
              var stale := key in t && now - t[key].cachedAt >
                            (if t[key].negative then config.negativeTtl
                             else if t[key].isDir then config.dirTtl else config.fileTtl);
              && Table(State().entries) == (if stale then t - {key} else t)
              && r == (if key in t && !stale then Some(t[key]) else None)
    {
      ghost var s := State();
      StateShape();
      var at := LookupWhere(s.entries, key);
      AppliedTable(config, s, Get(key), now);
      if key !in items {
        return None;
      }
      var e := elems[items[key]].entry;
      if Expired(config, e, now) {
        RemoveElement(key);
        return None;
      }
      Promote(key, e);
      return Some(e);
    }

    method PutEntry(key: string, entry: CacheEntry, now: int)
      requires Valid()
      modifies this`elems, this`nextId, this`items, this`order
      ensures Valid() && State() == Apply(config, old(State()), Put(key, entry), now)
      ensures SubMap(Table(State().entries), Table(old(State()).entries)[key := Stamped(entry, now)])
      ensures key in Table(State().entries)
      ensures Table(State().entries)[key] == entry.(cachedAt := now, negative := false)
    {
      StateShape();
      AppliedTable(config, State(), Put(key, entry), now);
      Store(key, entry.(cachedAt := now, negative := false));
    }

    method PutNegativeEntry(key: string, now: int)
      requires Valid()
      modifies this`elems, this`nextId, this`items, this`order
      ensures Valid() && State() == Apply(config, old(State()), PutNegative(key), now)
      ensures SubMap(Table(State().entries), Table(old(State()).entries)[key := NegativeEntry(key, now)])
      ensures key in Table(State().entries)
      ensures var e := Table(State().entries)[key]; e.negative && e.cachedAt == now && e.s3Key == key
    {
      StateShape();
      AppliedTable(config, State(), PutNegative(key), now);
      Store(key, CacheEntry(key, 0, 0, 0, false, 0, now, true));
    }

    method GetDirListing(prefix: string, now: int) returns (r: Option<seq<CacheEntry>>)
      requires Valid()
      ensures r == ListingAnswer(config, State(), prefix, now)
      ensures r == if prefix in dirListings && now - dirListings[prefix].cachedAt <= config.dirTtl
                   then Some(dirListings[prefix].entries) else None
    {
      if prefix !in dirListings {
        return None;
      }
      var dl := dirListings[prefix];
      if now - dl.cachedAt > config.dirTtl {
        return None;
      }
      return Some(dl.entries);
    }

    method PutDirListing(prefix: string, entries: seq<CacheEntry>, now: int)
      requires Valid()
      modifies this`dirListings
      ensures Valid() && State() == Apply(config, old(State()), PutListing(prefix, entries), now)
      ensures State() == old(State()).(listings := old(dirListings)[prefix := DirListing(entries, now)])
    {
      dirListings := dirListings[prefix := DirListing(entries, now)];
    }

    method InvalidateKey(key: string)
      requires Valid()
      modifies this`items, this`order, this`dirListings
      ensures Valid() && forall now :: State() == Apply(config, old(State()), Invalidate(key), now)
      ensures Table(State().entries) == Table(old(State()).entries) - {key}
      ensures dirListings == old(dirListings) - {ParentPrefix(key)}
    {
      hide Linked, ItemsOf, Table, Drop;
      ghost var s := State();
      StateShape();
      AppliedTable(config, s, Invalidate(key), 0);
      if key in items {
        RemoveElement(key);
      } else {
        DropAbsent(s.entries, {key});
      }
      dirListings := dirListings - {ParentPrefix(key)};
    }

    /** Remove every key of `todo`, in whatever order the map iteration yields them. */
    method RemoveAll(keys: set<string>)
      requires Valid() && keys <= items.Keys
      modifies this`items, this`order
      ensures Valid()
      ensures State() == CacheState(Drop(old(State()).entries, keys), dirListings)
    {
      hide Drop, Linked, ItemsOf;
      ghost var v := State().entries;
      var todo := keys;
      DropAbsent(v, {});
      assert keys - todo == {};
      while todo != {}
        invariant Valid() && todo <= items.Keys && todo <= keys
        invariant State() == CacheState(Drop(v, keys - todo), dirListings)
        decreases todo
      {
        var k :| k in todo;
        ghost var done := keys - todo;
        RemoveElement(k);
        DropTwice(v, done, {k});
        todo := todo - {k};
        assert keys - todo == done + {k};
      }
      assert keys - {} == keys;
    }

    method InvalidateUnder(prefix: string)
      requires Valid()
      modifies this`items, this`order, this`dirListings
      ensures Valid() && forall now :: State() == Apply(config, old(State()), InvalidatePrefix(prefix), now)
      ensures var t := Table(old(State()).entries);
              Table(State().entries) == map k | k in t && !(prefix <= k) :: t[k]
      ensures dirListings == map p | p in old(dirListings) && !(prefix <= p) :: old(dirListings)[p]
    {
      hide Drop, Linked, ItemsOf, Lookup;
      ghost var s := State();
      StateShape();
      var doomed := set k | k in items && prefix <= k;
      assert doomed == PrefixedKeys(s.entries, prefix) by {
        forall k | k in doomed ensures k in PrefixedKeys(s.entries, prefix) {
          var i: nat :| i < |s.entries| && s.entries[i].key == k;
        }
      }
      RemoveAll(doomed);
      PrefixTable(s.entries, prefix);
      dirListings := map p | p in dirListings && !(prefix <= p) :: dirListings[p];
    }

    /** The body of the background eviction tick. */
    method EvictExpiredEntries(now: int)
      requires Valid()
      modifies this`items, this`order, this`dirListings
      ensures Valid() && State() == Apply(config, old(State()), EvictExpired, now)
      ensures var t := Table(old(State()).entries);
              Table(State().entries) ==
              map k | k in t && now - t[k].cachedAt <=
                        (if t[k].negative then config.negativeTtl
                         else if t[k].isDir then config.dirTtl else config.fileTtl) :: t[k]
      ensures dirListings == map p | p in old(dirListings) && now - old(dirListings)[p].cachedAt <= config.dirTtl ::
                               old(dirListings)[p]
    {
      hide Drop, Lookup, Linked, ItemsOf, Table, Expired;
      ghost var s := State();
      assert forall k :: k in items ==> items[k] in elems by {
        ItemsAreElements();
      }
      StateShape();
      var doomed := set k | k in items && Expired(config, elems[items[k]].entry, now);
      ExpiredByLookup(config, s.entries, now);
      assert doomed == ExpiredKeys(config, s.entries, now);
      RemoveAll(doomed);
      ExpiredTable(config, s.entries, now);
      dirListings := map p | p in dirListings && now - dirListings[p].cachedAt <= config.dirTtl :: dirListings[p];
    }
  }

  lemma ExpiredByLookup(cfg: Config, v: seq<Item>, now: int)
    requires DistinctKeys(v)
    ensures forall k :: k in ExpiredKeys(cfg, v, now) <==>
              k in Keys(v) && Lookup(v, k).Some? && Expired(cfg, Lookup(v, k).value, now)
  {
    forall i | 0 <= i < |v| ensures Lookup(v, v[i].key) == Some(v[i].entry) {
      LookupFinds(v, i);
    }
  }

  lemma {:induction false} DropAbsent(v: seq<Item>, ks: set<string>)
    requires Keys(v) !! ks
    ensures Drop(v, ks) == v
  {
    if v == [] {
    } else {
      assert v[0].key in Keys(v);
      forall k | k in Keys(v[1..]) ensures k in Keys(v) {
        var i :| 0 <= i < |v| - 1 && v[1..][i].key == k;
        assert v[i + 1].key == k;
      }
      DropAbsent(v[1..], ks);
    }
  }

  lemma {:induction false} DropTwice(v: seq<Item>, a: set<string>, b: set<string>)
    ensures Drop(Drop(v, a), b) == Drop(v, a + b)
  {
    if v == [] {
    } else {
      DropTwice(v[1..], a, b);
      var rest := Drop(v[1..], a);
      if v[0].key in a {
        assert Drop(v, a) == rest;
      } else {
        assert Drop(v, a) == [v[0]] + rest && ([v[0]] + rest)[1..] == rest;
      }
    }
  }

  // ----- The cache as a forgetful map -----

  /** What the list binds each key to. */
  ghost function Table(v: seq<Item>): map<string, CacheEntry> {
    map k | k in Keys(v) && Lookup(v, k).Some? :: Lookup(v, k).value
  }

  ghost predicate Sound(cfg: Config, s: CacheState) {
    DistinctKeys(s.entries) && |s.entries| <= cfg.maxEntries && cfg.maxEntries >= 1
  }

  lemma TableBinds(v: seq<Item>)
    requires DistinctKeys(v)
    ensures Table(v).Keys == Keys(v)
    ensures forall x :: x in v ==> x.key in Table(v) && Table(v)[x.key] == x.entry
    ensures forall k :: k in Table(v) ==> Item(k, Table(v)[k]) in v
  {
    forall i | 0 <= i < |v| ensures Lookup(v, v[i].key) == Some(v[i].entry) {
      LookupFinds(v, i);
    }
    forall k | k in Table(v) ensures Item(k, Table(v)[k]) in v {
      var i := LookupWhere(v, k);
    }
    forall k | k in Keys(v) ensures Lookup(v, k).Some? {
      var i := LookupWhere(v, k);
    }
  }

  /** Each item of `w` is an item of `v`, so `w` binds nothing `v` does not. */
  lemma FewerItems(v: seq<Item>, w: seq<Item>)
    requires DistinctKeys(v) && DistinctKeys(w) && forall x :: x in w ==> x in v
    ensures SubMap(Table(w), Table(v))
  {
    TableBinds(v);
    TableBinds(w);
    forall k | k in Table(w) ensures k in Table(v) && Table(w)[k] == Table(v)[k] {
      assert Item(k, Table(w)[k]) in v;
    }
  }

  lemma StoredShape(v: seq<Item>, key: string, e: CacheEntry, max: int)
    requires DistinctKeys(v) && |v| <= max && max >= 1
    ensures var w := Stored(v, key, e, max);
            && w != [] && w[0] == Item(key, e) && |w| <= max && DistinctKeys(w)
            && forall x :: x in w[1..] ==> x in v && x.key != key
  {
    DropKeeps(v, {key});
    var at := LookupWhere(v, key);
    if Lookup(v, key).Some? {
      DropShorter(v, at);
      assert Stored(v, key, e, max)[1..] == Drop(v, {key});
    }
  }

  lemma StoredSound(v: seq<Item>, key: string, e: CacheEntry, max: int)
    requires DistinctKeys(v) && |v| <= max && max >= 1
    ensures DistinctKeys(Stored(v, key, e, max)) && |Stored(v, key, e, max)| <= max
    ensures SubMap(Table(Stored(v, key, e, max)), Table(v)[key := e])
    ensures key in Table(Stored(v, key, e, max))
  {
    StoredShape(v, key, e, max);
    HeadAndOthers(v, Stored(v, key, e, max), key, e);
  }

  lemma HeadAndOthers(v: seq<Item>, w: seq<Item>, key: string, e: CacheEntry)
    requires DistinctKeys(v) && DistinctKeys(w) && w != [] && w[0] == Item(key, e)
    requires forall x :: x in w[1..] ==> x in v && x.key != key
    ensures SubMap(Table(w), Table(v)[key := e]) && key in Table(w)
  {
    TableBinds(v);
    TableBinds(w);
    assert w[0] in w;
    assert w == [w[0]] + w[1..];
    forall k | k in Table(w) && k != key ensures k in Table(v) && Table(w)[k] == Table(v)[k] {
      assert Item(k, Table(w)[k]) in w[1..];
    }
  }

  lemma {:induction false} DropShorter(v: seq<Item>, i: nat)
    requires i < |v|
    ensures |Drop(v, {v[i].key})| < |v|
  {
    DropKeeps(v[1..], {v[i].key});
    if i == 0 {
    } else {
      DropShorter(v[1..], i - 1);
    }
  }

  /** Every operation keeps the list sound, and at most forgets or rebinds the one key it stores. */
  lemma AppliedTable(cfg: Config, s: CacheState, op: Op, now: int)
    requires Sound(cfg, s)
    ensures Sound(cfg, Apply(cfg, s, op, now))
    ensures var t, t' := Table(s.entries), Table(Apply(cfg, s, op, now).entries);
            match op
            case Put(key, entry) => SubMap(t', t[key := Stamped(entry, now)]) && key in t'
            case PutNegative(key) => SubMap(t', t[key := NegativeEntry(key, now)]) && key in t'
            case Invalidate(key) => t' == t - {key}
            case Get(key) =>
              && t' == (if key in t && Expired(cfg, t[key], now) then t - {key} else t)
              && Answer(cfg, s, key, now) == (if key in t && !Expired(cfg, t[key], now) then Some(t[key]) else None)
            case _ => SubMap(t', t)
  {
    hide Drop, Stored, Table, Answer;
    var v := s.entries;
    match op
    case Put(key, entry) => StoredSound(v, key, Stamped(entry, now), cfg.maxEntries);
    case PutNegative(key) => StoredSound(v, key, NegativeEntry(key, now), cfg.maxEntries);
    case Invalidate(key) => DroppedTable(v, {key});
    case Get(key) => GotTable(cfg, s, key, now);
    case InvalidatePrefix(prefix) => DroppedItems(v, PrefixedKeys(v, prefix));
    case EvictExpired => DroppedItems(v, ExpiredKeys(cfg, v, now));
    case _ =>
  }

  lemma DroppedItems(v: seq<Item>, ks: set<string>)
    requires DistinctKeys(v)
    ensures DistinctKeys(Drop(v, ks)) && |Drop(v, ks)| <= |v| && SubMap(Table(Drop(v, ks)), Table(v))
  {
    hide Drop, Table;
    DropKeeps(v, ks);
    FewerItems(v, Drop(v, ks));
  }

  lemma DroppedTable(v: seq<Item>, ks: set<string>)
    requires DistinctKeys(v)
    ensures DistinctKeys(Drop(v, ks)) && |Drop(v, ks)| <= |v|
    ensures Table(Drop(v, ks)) == Table(v) - ks
  {
    hide Drop, Table;
    var w := Drop(v, ks);
    DropKeeps(v, ks);
    TableBinds(v);
    TableBinds(w);
    forall k | k in Table(w) ensures k in Table(v) && k !in ks && Table(w)[k] == Table(v)[k] {
      assert Item(k, Table(w)[k]) in v;
    }
    forall k | k in Table(v) && k !in ks ensures k in Table(w) {
      assert Item(k, Table(v)[k]) in w;
    }
  }

  lemma PrefixTable(v: seq<Item>, prefix: string)
    requires DistinctKeys(v)
    ensures Table(Drop(v, PrefixedKeys(v, prefix))) == map k | k in Table(v) && !(prefix <= k) :: Table(v)[k]
  {
    hide Drop, Table;
    DroppedTable(v, PrefixedKeys(v, prefix));
    TableBinds(v);
  }

  lemma ExpiredTable(cfg: Config, v: seq<Item>, now: int)
    requires DistinctKeys(v)
    ensures var t := Table(v);
            Table(Drop(v, ExpiredKeys(cfg, v, now))) ==
            map k | k in t && now - t[k].cachedAt <=
                      (if t[k].negative then cfg.negativeTtl else if t[k].isDir then cfg.dirTtl else cfg.fileTtl) :: t[k]
  {
    hide Drop, Table;
    DroppedTable(v, ExpiredKeys(cfg, v, now));
    TableBinds(v);
    ExpiredByLookup(cfg, v, now);
    forall k | k in Table(v) ensures Lookup(v, k) == Some(Table(v)[k]) {
      var i :| 0 <= i < |v| && v[i] == Item(k, Table(v)[k]);
      LookupFinds(v, i);
    }
  }

  lemma GotTable(cfg: Config, s: CacheState, key: string, now: int)
    requires Sound(cfg, s)
    ensures Sound(cfg, Apply(cfg, s, Get(key), now))
    ensures var t, t' := Table(s.entries), Table(Apply(cfg, s, Get(key), now).entries);
            && t' == (if key in t && Expired(cfg, t[key], now) then t - {key} else t)
            && Answer(cfg, s, key, now) == (if key in t && !Expired(cfg, t[key], now) then Some(t[key]) else None)
  {
    var v := s.entries;
    var w := Apply(cfg, s, Get(key), now).entries;
    var i := LookupWhere(v, key);
    DropKeeps(v, {key});
    if Lookup(v, key).Some? {
      DropShorter(v, i);
      assert forall x :: x in v ==> x in w || (x.key == key && Expired(cfg, Lookup(v, key).value, now)) by {
        LookupFinds(v, i);
        forall x | x in v && x.key == key ensures x == v[i] {
        }
      }
    }
    SameOrFewer(v, w, key);
  }

  lemma SameOrFewer(v: seq<Item>, w: seq<Item>, key: string)
    requires DistinctKeys(v) && DistinctKeys(w) && (forall x :: x in w ==> x in v)
    requires forall x :: x in v && x.key != key ==> x in w
    ensures Table(w) == if key in Table(w) then Table(v) else Table(v) - {key}
    ensures forall k :: k in Table(v) <==> Lookup(v, k).Some?
    ensures forall k :: k in Table(v) ==> Table(v)[k] == Lookup(v, k).value
    ensures key in Table(w) <==> exists x :: x in w && x.key == key
  {
    TableBinds(v);
    TableBinds(w);
    FewerItems(v, w);
    forall k | k in Table(v) && k != key ensures k in Table(w) {
      assert Item(k, Table(v)[k]) in w;
    }
    forall k | Lookup(v, k).Some? ensures k in Table(v) {
      var i := LookupWhere(v, k);
    }
  }

  // ----- Runs -----

  /** Operations in the order they took the lock, each with the time it read. */
  type Run = seq<(Op, int)>

  ghost function ApplyAll(cfg: Config, s: CacheState, run: Run): CacheState {
    if run == [] then s
    else Apply(cfg, ApplyAll(cfg, s, run[..|run| - 1]), run[|run| - 1].0, run[|run| - 1].1)
  }

  /** The state a new cache reaches. */
  ghost function After(cfg: Config, run: Run): CacheState {
    ApplyAll(cfg, CacheState([], map[]), run)
  }

  /** The latest write of `key` that no later operation of the run invalidated. */
  function LastWrite(run: Run, key: string): Option<CacheEntry> {
    if run == [] then None
    else
      var (op, now) := run[|run| - 1];
      if op.Put? && op.key == key then Some(Stamped(op.entry, now))
      else if op.PutNegative? && op.key == key then Some(NegativeEntry(key, now))
      else if op.Invalidate? && op.key == key then None
      else if op.InvalidatePrefix? && op.prefix <= key then None
      else LastWrite(run[..|run| - 1], key)
  }

  function LastListing(run: Run, prefix: string): Option<DirListing> {
    if run == [] then None
    else
      var (op, now) := run[|run| - 1];
      if op.PutListing? && op.prefix == prefix then Some(DirListing(op.entries, now))
      else if op.Invalidate? && ParentPrefix(op.key) == prefix then None
      else if op.InvalidatePrefix? && op.prefix <= prefix then None
      else LastListing(run[..|run| - 1], prefix)
  }

  lemma {:induction false} RunBinds(cfg: Config, run: Run)
    requires cfg.maxEntries >= 1
    ensures Sound(cfg, After(cfg, run))
    ensures forall k :: k in Table(After(cfg, run).entries) ==> LastWrite(run, k) == Some(Table(After(cfg, run).entries)[k])
    ensures forall p :: p in After(cfg, run).listings ==> LastListing(run, p) == Some(After(cfg, run).listings[p])
    decreases |run|
  {
    if run == [] {
    } else {
      var before := run[..|run| - 1];
      RunBinds(cfg, before);
      var s, op, now := After(cfg, before), run[|run| - 1].0, run[|run| - 1].1;
      AppliedTable(cfg, s, op, now);
      var t' := Table(Apply(cfg, s, op, now).entries);
      if op.InvalidatePrefix? {
        PrefixGone(s.entries, op.prefix);
      }
      forall k | k in t' ensures LastWrite(run, k) == Some(t'[k]) {
      }
    }
  }

  lemma PrefixGone(v: seq<Item>, prefix: string)
    requires DistinctKeys(v)
    ensures forall k :: k in Table(Drop(v, PrefixedKeys(v, prefix))) ==> !(prefix <= k)
  {
    var w := Drop(v, PrefixedKeys(v, prefix));
    DropKeeps(v, PrefixedKeys(v, prefix));
    TableBinds(w);
    forall k | k in Table(w) ensures !(prefix <= k) {
      assert Item(k, Table(w)[k]) in v;
    }
  }

  /**
   * The cache is a map that may forget: in every run a hit is the latest write of that key, not invalidated
   * since and no older than the TTL of its kind; the same holds of listings; and the entries never outnumber
   * the configured maximum.
   */
  lemma {:induction false} ForgetfulMap(cfg: Config, run: Run, key: string, prefix: string, now: int)
    requires cfg.maxEntries >= 1
    ensures var s := After(cfg, run);
            && |s.entries| <= cfg.maxEntries
            && (Answer(cfg, s, key, now).Some? ==>
                  && LastWrite(run, key) == Answer(cfg, s, key, now)
                  && var e := Answer(cfg, s, key, now).value;
                     now - e.cachedAt <=
                       (if e.negative then cfg.negativeTtl else if e.isDir then cfg.dirTtl else cfg.fileTtl))
            && (ListingAnswer(cfg, s, prefix, now).Some? ==>
                  && LastListing(run, prefix).Some?
                  && LastListing(run, prefix).value.entries == ListingAnswer(cfg, s, prefix, now).value
                  && now - LastListing(run, prefix).value.cachedAt <= cfg.dirTtl)
  {
    RunBinds(cfg, run);
    GotTable(cfg, After(cfg, run), key, now);
  }

  /** The operation stores an entry for the key. */
  predicate Stores(op: Op, key: string) {
    (op.Put? || op.PutNegative?) && op.key == key
  }

  /**
   * Invalidation is final: after one that covers the key, whatever came before, every lookup misses until the key is
   * stored again.
   */
  lemma {:induction false} GoneUntilStored(cfg: Config, before: Run, inv: Op, at: int, after: Run, key: string, now: int)
    requires cfg.maxEntries >= 1
    requires inv == Invalidate(key) || (inv.InvalidatePrefix? && inv.prefix <= key)
    requires forall i :: 0 <= i < |after| ==> !Stores(after[i].0, key)
    ensures Answer(cfg, After(cfg, before + [(inv, at)] + after), key, now).None?
  {
    hide Apply, Answer;
    var run := before + [(inv, at)] + after;
    NoWriteLeft(before, inv, at, after, key);
    RunBinds(cfg, run);
    GotTable(cfg, After(cfg, run), key, now);
  }

  lemma {:induction false} NoWriteLeft(before: Run, inv: Op, at: int, after: Run, key: string)
    requires inv == Invalidate(key) || (inv.InvalidatePrefix? && inv.prefix <= key)
    requires forall i :: 0 <= i < |after| ==> !Stores(after[i].0, key)
    ensures LastWrite(before + [(inv, at)] + after, key).None?
    decreases |after|
  {
    var run := before + [(inv, at)] + after;
    if after == [] {
      assert run == before + [(inv, at)];
    } else {
      NoWriteLeft(before, inv, at, after[..|after| - 1], key);
      assert run[..|run| - 1] == before + [(inv, at)] + after[..|after| - 1];
      assert run[|run| - 1] == after[|after| - 1];
    }
  }

  /** So for listings: one is gone once a child is invalidated, until the directory is listed again. */
  lemma {:induction false} ListingGoneUntilPut(cfg: Config, before: Run, inv: Op, at: int, after: Run, prefix: string, now: int)
    requires cfg.maxEntries >= 1
    requires (inv.Invalidate? && ParentPrefix(inv.key) == prefix) || (inv.InvalidatePrefix? && inv.prefix <= prefix)
    requires forall i :: 0 <= i < |after| ==> !(after[i].0.PutListing? && after[i].0.prefix == prefix)
    ensures ListingAnswer(cfg, After(cfg, before + [(inv, at)] + after), prefix, now).None?
  {
    hide Apply;
    var run := before + [(inv, at)] + after;
    NoListingLeft(before, inv, at, after, prefix);
    RunBinds(cfg, run);
  }

  lemma {:induction false} NoListingLeft(before: Run, inv: Op, at: int, after: Run, prefix: string)
    requires (inv.Invalidate? && ParentPrefix(inv.key) == prefix) || (inv.InvalidatePrefix? && inv.prefix <= prefix)
    requires forall i :: 0 <= i < |after| ==> !(after[i].0.PutListing? && after[i].0.prefix == prefix)
    ensures LastListing(before + [(inv, at)] + after, prefix).None?
    decreases |after|
  {
    hide ParentPrefix;
    var run := before + [(inv, at)] + after;
    if after == [] {
      assert run == before + [(inv, at)];
    } else {
      NoListingLeft(before, inv, at, after[..|after| - 1], prefix);
      assert run[..|run| - 1] == before + [(inv, at)] + after[..|after| - 1];
      assert run[|run| - 1] == after[|after| - 1];
    }
  }

  // ----- Retention -----

  /** The key an operation moves to the front: a store, or a lookup that hits. */
  ghost function Touched(cfg: Config, s: CacheState, op: Op, now: int): set<string> {
    match op
    case Put(key, _) => {key}
    case PutNegative(key) => {key}
    case Get(key) => if Answer(cfg, s, key, now).Some? then {key} else {}
    case _ => {}
  }

  ghost function TouchedIn(cfg: Config, s: CacheState, run: Run): set<string> {
    if run == [] then {}
    else
      var before := run[..|run| - 1];
      TouchedIn(cfg, s, before) + Touched(cfg, ApplyAll(cfg, s, before), run[|run| - 1].0, run[|run| - 1].1)
  }

  /** The operation neither touches nor invalidates `key`. */
  predicate LeavesAlone(op: Op, key: string) {
    match op
    case Put(k, _) => k != key
    case PutNegative(k) => k != key
    case Get(k) => k != key
    case Invalidate(k) => k != key
    case InvalidatePrefix(p) => !(p <= key)
    case _ => true
  }

  /** `key` stands at position p, and only keys in `ahead` stand before it. */
  ghost predicate StandsBehind(v: seq<Item>, p: nat, key: string, e: CacheEntry, ahead: set<string>) {
    && p < |v| && v[p] == Item(key, e)
    && forall q :: 0 <= q < p ==> v[q].key in ahead
  }

  lemma AheadFits(v: seq<Item>, p: nat, ahead: set<string>)
    requires DistinctKeys(v) && p <= |v| && forall q :: 0 <= q < p ==> v[q].key in ahead
    ensures p <= |ahead|
  {
    var names := seq(p, q requires 0 <= q < p => v[q].key);
    DistinctFits(names, ahead);
  }

  /** Where an item of a list stands after some other items are dropped. */
  lemma {:induction false} DropPosition(v: seq<Item>, p: nat, ks: set<string>, ahead: set<string>) returns (p': nat)
    requires p < |v| && v[p].key !in ks && forall q :: 0 <= q < p ==> v[q].key in ahead
    ensures p' <= p && p' < |Drop(v, ks)| && Drop(v, ks)[p'] == v[p]
    ensures forall q :: 0 <= q < p' ==> Drop(v, ks)[q].key in ahead
    decreases p
  {
    if p == 0 {
      p' := 0;
    } else {
      var r := DropPosition(v[1..], p - 1, ks, ahead);
      p' := if v[0].key in ks then r else r + 1;
    }
  }

  /** With fewer than `max` keys ahead, counting the newcomer, a key is not the one a full list pushes out. */
  lemma NotLast(v: seq<Item>, p: nat, key: string, ahead: set<string>, other: string, max: int)
    requires DistinctKeys(v) && p < |v| && v[p].key == key && |v| >= max
    requires forall q :: 0 <= q < p ==> v[q].key in ahead
    requires other != key && Lookup(v, other).None? && |(ahead + {other}) - {key}| < max
    ensures p < |v| - 1
  {
    hide Lookup;
    var i := LookupWhere(v, other);
    var others := ahead - {key} - {other};
    forall q | 0 <= q < p ensures v[q].key in others {
      assert v[q].key in Keys(v);
      assert v[q].key != v[p].key;
    }
    hide Keys, DistinctKeys;
    assert p <= |others| by {
      AheadFits(v, p, others);
    }
    assert others + {other} == (ahead + {other}) - {key};
  }

  lemma StoredPosition(v: seq<Item>, p: nat, key: string, e: CacheEntry, ahead: set<string>,
                       other: string, oe: CacheEntry, max: int) returns (p': nat)
    requires DistinctKeys(v) && |v| <= max && other != key && StandsBehind(v, p, key, e, ahead)
    requires |(ahead + {other}) - {key}| < max
    ensures StandsBehind(Stored(v, other, oe, max), p', key, e, ahead + {other})
  {
    var w := Stored(v, other, oe, max);
    if Lookup(v, other).Some? {
      var r := DropPosition(v, p, {other}, ahead);
      p' := r + 1;
    } else {
      p' := p + 1;
      if |v| >= max {
        NotLast(v, p, key, ahead, other, max);
      }
    }
  }

  lemma ApplyPosition(cfg: Config, s: CacheState, op: Op, now: int, p: nat, key: string, e: CacheEntry,
                      ahead: set<string>) returns (p': nat)
    requires Sound(cfg, s) && LeavesAlone(op, key) && !Expired(cfg, e, now)
    requires StandsBehind(s.entries, p, key, e, ahead)
    requires |(ahead + Touched(cfg, s, op, now)) - {key}| < cfg.maxEntries
    ensures StandsBehind(Apply(cfg, s, op, now).entries, p', key, e, ahead + Touched(cfg, s, op, now))
  {
    var v := s.entries;
    match op
    case Put(k, entry) =>
      p' := StoredPosition(v, p, key, e, ahead, k, Stamped(entry, now), cfg.maxEntries);
    case PutNegative(k) =>
      p' := StoredPosition(v, p, key, e, ahead, k, NegativeEntry(k, now), cfg.maxEntries);
    case Get(k) =>
      p' := p;
      if Lookup(v, k).Some? {
        p' := DropPosition(v, p, {k}, ahead);
        if !Expired(cfg, Lookup(v, k).value, now) {
          p' := p' + 1;
        }
      }
    case Invalidate(k) => p' := DropPosition(v, p, {k}, ahead);
    case InvalidatePrefix(prefix) => p' := DropPosition(v, p, PrefixedKeys(v, prefix), ahead);
    case EvictExpired =>
      assert key !in ExpiredKeys(cfg, v, now) by {
        assert forall i :: 0 <= i < |v| && v[i].key == key ==> i == p;
      }
      p' := DropPosition(v, p, ExpiredKeys(cfg, v, now), ahead);
    case _ => p' := p;
  }

  lemma {:induction false} RunPosition(cfg: Config, s: CacheState, run: Run, key: string, e: CacheEntry, now: int)
      returns (p: nat)
    requires Sound(cfg, s) && s.entries != [] && s.entries[0] == Item(key, e)
    requires forall n :: 0 <= n < |run| ==> LeavesAlone(run[n].0, key) && run[n].1 <= now
    requires !Expired(cfg, e, now)
    requires |TouchedIn(cfg, s, run) - {key}| < cfg.maxEntries
    ensures Sound(cfg, ApplyAll(cfg, s, run))
    ensures StandsBehind(ApplyAll(cfg, s, run).entries, p, key, e, TouchedIn(cfg, s, run))
    decreases |run|
  {
    if run == [] {
      p := 0;
    } else {
      var before, last := run[..|run| - 1], run[|run| - 1];
      var all, some := TouchedIn(cfg, s, run) - {key}, TouchedIn(cfg, s, before) - {key};
      assert some <= all;
      SmallerSet(some, all);
      var r := RunPosition(cfg, s, before, key, e, now);
      AppliedTable(cfg, ApplyAll(cfg, s, before), last.0, last.1);
      p := ApplyPosition(cfg, ApplyAll(cfg, s, before), last.0, last.1, r, key, e, TouchedIn(cfg, s, before));
    }
  }

  /** Two negative entries stored one after the other are both there, unless the list holds but one. */
  lemma SecondStays(cfg: Config, s: CacheState, a: string, b: string, now: int)
    requires Sound(cfg, s) && a != b
    ensures cfg.maxEntries > 1 ==>
              var after := Apply(cfg, Apply(cfg, s, PutNegative(a), now), PutNegative(b), now);
              a in Table(after.entries) && Table(after.entries)[a] == NegativeEntry(a, now)
  {
    var first := Apply(cfg, s, PutNegative(a), now);
    AppliedTable(cfg, s, PutNegative(a), now);
    AppliedTable(cfg, first, PutNegative(b), now);
    StoredShape(s.entries, a, NegativeEntry(a, now), cfg.maxEntries);
    if cfg.maxEntries > 1 {
      assert {b} - {a} == {b};
      var p := StoredPosition(first.entries, 0, a, NegativeEntry(a, now), {}, b, NegativeEntry(b, now), cfg.maxEntries);
      TableBinds(Apply(cfg, first, PutNegative(b), now).entries);
    }
  }

  /** What a touching operation leaves at the front: the entry it stored, or the one it found. */
  function TouchedEntry(cfg: Config, s: CacheState, op: Op, now: int): Option<CacheEntry> {
    match op
    case Put(_, entry) => Some(Stamped(entry, now))
    case PutNegative(key) => Some(NegativeEntry(key, now))
    case Get(key) => Answer(cfg, s, key, now)
    case _ => None
  }

  lemma TouchedIsFirst(cfg: Config, s: CacheState, op: Op, now: int, key: string)
    requires Sound(cfg, s) && key in Touched(cfg, s, op, now)
    ensures TouchedEntry(cfg, s, op, now).Some?
    ensures var v := Apply(cfg, s, op, now).entries;
            v != [] && v[0] == Item(key, TouchedEntry(cfg, s, op, now).value)
  {
  }

  /** An entry at the front survives: see Retention. */
  lemma {:induction false} FrontRetention(cfg: Config, s: CacheState, run: Run, key: string, e: CacheEntry, now: int)
    requires Sound(cfg, s) && s.entries != [] && s.entries[0] == Item(key, e)
    requires forall n :: 0 <= n < |run| ==> LeavesAlone(run[n].0, key) && run[n].1 <= now
    requires !Expired(cfg, e, now)
    requires |TouchedIn(cfg, s, run) - {key}| < cfg.maxEntries
    ensures Answer(cfg, ApplyAll(cfg, s, run), key, now) == Some(e)
  {
    var p := RunPosition(cfg, s, run, key, e, now);
    LookupFinds(ApplyAll(cfg, s, run).entries, p);
  }

  /**
   * Retention: the entry an operation stores or finds survives any run after it that does not invalidate it, in which
   * it does not expire, and in which fewer than maxEntries other keys are touched.
   */
  lemma {:induction false} Retention(cfg: Config, s: CacheState, op: Op, at: int, run: Run, key: string, now: int)
    requires Sound(cfg, s) && key in Touched(cfg, s, op, at)
    requires forall n :: 0 <= n < |run| ==> LeavesAlone(run[n].0, key) && run[n].1 <= now
    requires TouchedEntry(cfg, s, op, at).Some?
    requires var e := TouchedEntry(cfg, s, op, at).value;
             now - e.cachedAt <= (if e.negative then cfg.negativeTtl else if e.isDir then cfg.dirTtl else cfg.fileTtl)
    requires |TouchedIn(cfg, Apply(cfg, s, op, at), run) - {key}| < cfg.maxEntries
    ensures Answer(cfg, ApplyAll(cfg, Apply(cfg, s, op, at), run), key, now) == TouchedEntry(cfg, s, op, at)
  {
    hide Apply, Touched, TouchedIn, ApplyAll;
    AppliedTable(cfg, s, op, at);
    TouchedIsFirst(cfg, s, op, at, key);
    FrontRetention(cfg, Apply(cfg, s, op, at), run, key, TouchedEntry(cfg, s, op, at).value, now);
  }
}
