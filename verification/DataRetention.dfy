/** Runs of calls on the data cache, and what its LRU list retains over them. */
module DataRetention {
  import opened Base
  import opened DataCaching
  import I = DataCacheInterleaving

  /** A lookup: what it answers and what it leaves. */
  ghost predicate Looked(cfg: Config, s: Index, key: string, now: int, r: Option<Bytes>, t: Index)
    requires Pointing(s)
  {
    var hit := Hits(cfg, s, key, now);
    && r == (if hit then Some(s.disk[key]) else None)
    && (hit ==>
          var id := s.items[key];
          && t.items == s.items && t.disk == s.disk && t.order == [id] + Without(s.order, {id})
          && t.elems == s.elems[id := s.elems[id].(accessTime := now)])
    && (!hit ==>
          var gone := if key in s.items then {key} else {};
          && t.items == s.items - gone && t.disk == s.disk - gone
          && t.order == (if key in s.items then Without(s.order, {s.items[key]}) else s.order)
          && (forall k :: k in t.items ==> t.items[k] in t.elems && t.elems[t.items[k]] == s.elems[s.items[k]]))
  }

  /** A put whose file is in place. */
  ghost predicate Stored(cfg: Config, s: Index, key: string, s3Key: string, data: Bytes, now: int, t: Index)
    requires Pointing(s)
  {
    var u := Record(s.(disk := s.disk[key := data]), key, s3Key, |data|, now);
    Accounted(u) && Evicted(cfg, u, t, now)
  }

  ghost function Doomed(s: Index, s3Key: string): set<string>
    requires Pointing(s)
  {
    set k | k in s.items && s.elems[s.items[k]].s3Key == s3Key
  }

  /** The call leads from `s` to `t` and answers `r`. */
  ghost predicate Does(cfg: Config, s: Index, c: I.Call, now: int, r: Option<Bytes>, t: Index) {
    && Accounted(s) && Accounted(t)
    && match c
       case GetCall(k, e) => Looked(cfg, s, CacheKey(k, e), now, r, t)
       case PutCall(k, e, data, stored) =>
         r.None? && if stored then Stored(cfg, s, CacheKey(k, e), k, data, now, t) else t == s
       case InvalidateCall(k) => r.None? && I.Cleared(s, t, Doomed(s, k))
  }

  /** Calls with their times, what they answered, and the states between them. */
  ghost predicate Traced(cfg: Config, calls: seq<(I.Call, int)>, answers: seq<Option<Bytes>>, states: seq<Index>) {
    && |answers| == |calls| && |states| == |calls| + 1
    && (forall i :: 0 <= i < |calls| ==> Does(cfg, states[i], calls[i].0, calls[i].1, answers[i], states[i + 1]))
  }

  /** Calls made one at a time on a cache. */
  method Perform(dc: DataCache, calls: seq<(I.Call, int)>) returns (answers: seq<Option<Bytes>>, ghost states: seq<Index>)
    requires dc.Valid()
    modifies dc
    ensures dc.Valid() && Traced(dc.config, calls, answers, states)
    ensures states[0] == old(dc.State()) && states[|calls|] == dc.State()
  {
    hide Does, Accounted;
    answers, states := [], [dc.State()];
    for i := 0 to |calls|
      invariant dc.Valid() && |answers| == i && |states| == i + 1
      invariant states[0] == old(dc.State()) && states[i] == dc.State()
      invariant forall n :: 0 <= n < i ==> Does(dc.config, states[n], calls[n].0, calls[n].1, answers[n], states[n + 1])
    {
      var r := Call(dc, calls[i].0, calls[i].1);
      answers, states := answers + [r], states + [dc.State()];
    }
  }

  method Call(dc: DataCache, c: I.Call, now: int) returns (r: Option<Bytes>)
    requires dc.Valid()
    modifies dc
    ensures dc.Valid() && Does(dc.config, old(dc.State()), c, now, r, dc.State())
  {
    hide Accounted, Without, Evicted, Record, Probe, Unlink, Spares;
    AccountedPoints(dc.State());
    match c {
      case GetCall(s3Key, etag) =>
        r := dc.Get(s3Key, etag, now);
        dc.ItemsAreElements();
        assert Looked(dc.config, old(dc.State()), CacheKey(s3Key, etag), now, r, dc.State());
      case PutCall(s3Key, etag, data, stored) =>
        var ok := dc.Put(s3Key, etag, data, now, stored);
        r := None;
        assert stored ==> Stored(dc.config, old(dc.State()), CacheKey(s3Key, etag), s3Key, data, now, dc.State());
      case InvalidateCall(s3Key) =>
        ghost var doomed := Doomed(dc.State(), s3Key);
        dc.InvalidateKey(s3Key);
        r := None;
        assert I.Cleared(old(dc.State()), dc.State(), doomed);
    }
  }

  // ----- What has been touched -----

  /** The names that moved to the front, with the bytes they then had: puts, and lookups that hit. */
  function Touched(calls: seq<(I.Call, int)>, answers: seq<Option<Bytes>>): map<string, nat>
    requires |answers| == |calls|
  {
    if calls == [] then map[]
    else
      var n := |calls| - 1;
      TouchedBy(Touched(calls[..n], answers[..n]), calls[n].0, answers[n])
  }

  function TouchedBy(touched: map<string, nat>, c: I.Call, r: Option<Bytes>): map<string, nat> {
    match c
    case GetCall(k, e) => if r.Some? then touched[CacheKey(k, e) := |r.value|] else touched
    case PutCall(k, e, data, stored) => if stored then touched[CacheKey(k, e) := |data|] else touched
    case InvalidateCall(_) => touched
  }

  /** Their bytes together. */
  ghost function Load(touched: map<string, nat>): nat
    decreases touched.Keys
  {
    if touched == map[] then 0
    else
      var k :| k in touched;
      touched[k] + Load(touched - {k})
  }

  lemma {:induction false} LoadSplit(touched: map<string, nat>, key: string)
    requires key in touched
    ensures Load(touched) == touched[key] + Load(touched - {key})
    decreases touched.Keys
  {
    var k :| k in touched && Load(touched) == touched[k] + Load(touched - {k});
    if k != key {
      assert touched - {key} - {k} == touched - {k} - {key};
      LoadSplit(touched - {k}, key);
      LoadSplit(touched - {key}, k);
    }
  }

  /** The elements are for different names, all touched, with no more than the bytes they then had. */
  ghost predicate Covered(elems: map<nat, DataEntry>, ids: seq<nat>, touched: map<string, nat>) {
    && (forall i :: 0 <= i < |ids| ==>
          ids[i] in elems && elems[ids[i]].key in touched && elems[ids[i]].size <= touched[elems[ids[i]].key])
    && (forall i, j :: 0 <= i < j < |ids| ==> elems[ids[i]].key != elems[ids[j]].key)
  }

  lemma {:induction false} CoveredLoad(elems: map<nat, DataEntry>, ids: seq<nat>, touched: map<string, nat>)
    requires Covered(elems, ids, touched)
    ensures (forall id :: id in ids ==> id in elems) && Total(elems, ids) <= Load(touched)
    decreases |ids|
  {
    if ids == [] {
    } else {
      var key := elems[ids[0]].key;
      LoadSplit(touched, key);
      assert Covered(elems, ids[1..], touched - {key}) by {
        forall i | 0 <= i < |ids[1..]| ensures elems[ids[1..][i]].key in touched - {key} {
          assert ids[1..][i] == ids[i + 1];
        }
      }
      CoveredLoad(elems, ids[1..], touched - {key});
    }
  }

  // ----- One call -----

  /** The recorded sizes are those of the files. */
  ghost predicate SizesRight(s: Index) {
    forall k :: k in s.items && k in s.disk ==> s.items[k] in s.elems && s.elems[s.items[k]].size == |s.disk[k]|
  }

  /** `name` is cached with entry `e` and content `d`, and what stands ahead of it in the list, `ahead`, was touched. */
  ghost predicate Held(s: Index, name: string, e: DataEntry, d: Bytes, ahead: seq<nat>, behind: seq<nat>,
                       touched: map<string, nat>) {
    && name in s.items && s.items[name] in s.elems && s.elems[s.items[name]] == e
    && name in s.disk && s.disk[name] == d
    && s.order == ahead + [s.items[name]] + behind
    && Covered(s.elems, ahead, touched)
  }

  /** The call is about something else. */
  predicate LeavesAlone(c: I.Call, name: string, s3Key: string) {
    match c
    case GetCall(k, e) => CacheKey(k, e) != name
    case PutCall(k, e, _, _) => CacheKey(k, e) != name
    case InvalidateCall(k) => k != s3Key
  }

  lemma WithoutAround(ahead: seq<nat>, id: nat, behind: seq<nat>, gone: set<nat>)
    requires id !in gone
    ensures Without(ahead + [id] + behind, gone) == Without(ahead, gone) + [id] + Without(behind, gone)
  {
    WithoutConcat(ahead + [id], behind, gone);
    WithoutConcat(ahead, [id], gone);
    WithoutCons(id, [], gone);
    assert [id] + [] == [id];
  }

  /** Fewer elements, and entries that are the same, are still covered. */
  lemma CoveredLess(elems: map<nat, DataEntry>, elems': map<nat, DataEntry>, ids: seq<nat>, gone: set<nat>,
                    touched: map<string, nat>)
    requires Covered(elems, ids, touched) && Distinct(ids)
    requires forall id :: id in ids && id !in gone ==> id in elems' && elems'[id] == elems[id]
    ensures Covered(elems', Without(ids, gone), touched)
  {
    WithoutMembers(ids, gone);
    WithoutDistinct(ids, gone);
    var rest := Without(ids, gone);
    forall i | 0 <= i < |rest| ensures rest[i] in ids && rest[i] !in gone {
      assert rest[i] in rest;
    }
    forall i, j | 0 <= i < j < |rest| ensures elems'[rest[i]].key != elems'[rest[j]].key {
      var a :| 0 <= a < |ids| && ids[a] == rest[i];
      var b :| 0 <= b < |ids| && ids[b] == rest[j];
      assert a != b;
    }
  }

  /** One more in front, under a name that no other has. */
  lemma CoveredFront(elems: map<nat, DataEntry>, id: nat, ids: seq<nat>, touched: map<string, nat>, size: nat)
    requires Covered(elems, ids, touched) && id in elems && elems[id].size <= size
    requires forall i :: 0 <= i < |ids| ==> elems[ids[i]].key != elems[id].key
    ensures Covered(elems, [id] + ids, touched[elems[id].key := size])
  {
  }

  /** Another element is for another name. */
  lemma KeysApart(s: Index, id: nat, ids: seq<nat>)
    requires Accounted(s) && id in s.order && forall x :: x in ids ==> x in s.order && x != id
    ensures forall i :: 0 <= i < |ids| ==> ids[i] in s.elems && s.elems[ids[i]].key != s.elems[id].key
  {
    hide Total;
    forall i | 0 <= i < |ids| ensures ids[i] in s.elems && s.elems[ids[i]].key != s.elems[id].key {
      assert ids[i] in ids;
    }
  }

  /** The parts of the list have no element twice, and are of the list. */
  lemma HeldParts(s: Index, name: string, e: DataEntry, d: Bytes, ahead: seq<nat>, behind: seq<nat>,
                  touched: map<string, nat>)
    requires Pointing(s) && Held(s, name, e, d, ahead, behind, touched)
    ensures Distinct(ahead) && s.items[name] !in ahead && forall x :: x in ahead ==> x in s.order && x in s.elems
  {
    var order, id := s.order, s.items[name];
    assert forall i :: 0 <= i < |ahead| ==> order[i] == ahead[i];
    assert order[|ahead|] == id;
    forall x | x in ahead ensures x in order && x != id {
      var i :| 0 <= i < |ahead| && ahead[i] == x;
      assert order[i] == x;
    }
  }

  lemma {:induction false} AfterHit(cfg: Config, s: Index, key: string, now: int, t: Index, name: string, e: DataEntry,
                                    d: Bytes, ahead: seq<nat>, behind: seq<nat>, touched: map<string, nat>)
    requires Accounted(s) && Held(s, name, e, d, ahead, behind, touched) && SizesRight(s)
    requires Hits(cfg, s, key, now) && Looked(cfg, s, key, now, Some(s.disk[key]), t) && key != name
    ensures var id := s.items[key];
            Held(t, name, e, d, [id] + Without(ahead, {id}), Without(behind, {id}), touched[key := |s.disk[key]|])
  {
    hide Accounted, Without, Covered, Stale;
    AccountedPoints(s);
    HeldParts(s, name, e, d, ahead, behind, touched);
    var id := s.items[key];
    WithoutAround(ahead, s.items[name], behind, {id});
    WithoutMembers(ahead, {id});
    var rest := Without(ahead, {id});
    KeysApart(s, id, rest);
    CoveredLess(s.elems, t.elems, ahead, {id}, touched);
    CoveredFront(t.elems, id, rest, touched, |s.disk[key]|);
    assert [id] + (rest + [s.items[name]] + Without(behind, {id})) == [id] + rest + [s.items[name]] + Without(behind, {id});
  }

  lemma {:induction false} AfterMiss(cfg: Config, s: Index, key: string, now: int, t: Index, name: string, e: DataEntry,
                                     d: Bytes, ahead: seq<nat>, behind: seq<nat>, touched: map<string, nat>)
      returns (ahead': seq<nat>, behind': seq<nat>)
    requires Accounted(s) && Held(s, name, e, d, ahead, behind, touched)
    requires !Hits(cfg, s, key, now) && Looked(cfg, s, key, now, None, t) && key != name
    ensures Held(t, name, e, d, ahead', behind', touched)
  {
    hide Without, Covered, Stale, Total;
    HeldParts(s, name, e, d, ahead, behind, touched);
    var gone := if key in s.items then {s.items[key]} else {};
    WithoutAround(ahead, s.items[name], behind, gone);
    WithoutNothing(s.order, {});
    ahead', behind' := Without(ahead, gone), Without(behind, gone);
    forall x | x in ahead && x !in gone ensures x in t.elems && t.elems[x] == s.elems[x] {
      assert s.items[s.elems[x].key] == x;
      assert s.elems[x].key in t.items;
    }
    CoveredLess(s.elems, t.elems, ahead, gone, touched);
  }

  lemma {:induction false} AfterClear(s: Index, t: Index, s3Key: string, name: string, e: DataEntry, d: Bytes,
                                      ahead: seq<nat>, behind: seq<nat>, touched: map<string, nat>)
      returns (ahead': seq<nat>, behind': seq<nat>)
    requires Accounted(s) && Held(s, name, e, d, ahead, behind, touched)
    requires I.Cleared(s, t, Doomed(s, s3Key)) && e.s3Key != s3Key
    ensures Held(t, name, e, d, ahead', behind', touched)
  {
    hide Without, Covered, Total;
    HeldParts(s, name, e, d, ahead, behind, touched);
    var gone := set k | k in Doomed(s, s3Key) :: s.items[k];
    WithoutAround(ahead, s.items[name], behind, gone);
    ahead', behind' := Without(ahead, gone), Without(behind, gone);
    CoveredLess(s.elems, t.elems, ahead, gone, touched);
  }

  /** The index update of a put. */
  lemma {:induction false} AfterRecord(s: Index, u: Index, key: string, s3Key: string, data: Bytes, now: int, name: string,
                                       e: DataEntry, d: Bytes, ahead: seq<nat>, behind: seq<nat>, touched: map<string, nat>)
    requires Accounted(s) && Held(s, name, e, d, ahead, behind, touched) && key != name
    requires Recorded(s.(disk := s.disk[key := data]), u, key, s3Key, |data|, now)
    ensures var id := u.order[0];
            Held(u, name, e, d, [id] + Without(ahead, {id}), Without(behind, {id}), touched[key := |data|])
  {
    hide Accounted, Without, Covered, Recorded, Held;
    RecordCovered(s, u, key, s3Key, data, now, name, e, d, ahead, behind, touched);
    RecordOrder(s, u, key, s3Key, data, now, name, e, d, ahead, behind, touched);
    RecordHolds(s, u, key, s3Key, data, now, name, e, d, ahead, behind, touched);
  }

  lemma RecordOrder(s: Index, u: Index, key: string, s3Key: string, data: Bytes, now: int, name: string, e: DataEntry,
                    d: Bytes, ahead: seq<nat>, behind: seq<nat>, touched: map<string, nat>)
    requires Accounted(s) && Held(s, name, e, d, ahead, behind, touched) && key != name
    requires Recorded(s.(disk := s.disk[key := data]), u, key, s3Key, |data|, now)
    ensures var id := u.order[0];
            u.order == [id] + Without(ahead, {id}) + [s.items[name]] + Without(behind, {id})
  {
    hide Without, Covered, Recorded, Accounted;
    RecordTail(s, u, key, s3Key, data, now, name);
    var id, at := u.order[0], s.items[name];
    WithoutAround(ahead, at, behind, {id});
    assert u.order == [id] + u.order[1..];
    assert [id] + (Without(ahead, {id}) + [at] + Without(behind, {id})) ==
           [id] + Without(ahead, {id}) + [at] + Without(behind, {id});
  }

  /** Behind its front the list is the old one without that element, which is not the one of another name. */
  lemma RecordTail(s: Index, u: Index, key: string, s3Key: string, data: Bytes, now: int, name: string)
    requires Accounted(s) && name in s.items && key != name
    requires Recorded(s.(disk := s.disk[key := data]), u, key, s3Key, |data|, now)
    ensures u.order != [] && u.order[0] != s.items[name] && u.order[1..] == Without(s.order, {u.order[0]})
  {
    hide Without, Total;
    if key !in s.items {
      assert s.nextId !in s.order;
      WithoutNothing(s.order, {s.nextId});
    }
  }

  lemma RecordCovered(s: Index, u: Index, key: string, s3Key: string, data: Bytes, now: int, name: string, e: DataEntry,
                      d: Bytes, ahead: seq<nat>, behind: seq<nat>, touched: map<string, nat>)
    requires Accounted(s) && Held(s, name, e, d, ahead, behind, touched) && key != name
    requires Recorded(s.(disk := s.disk[key := data]), u, key, s3Key, |data|, now)
    ensures var id := u.order[0];
            Covered(u.elems, [id] + Without(ahead, {id}), touched[key := |data|])
  {
    hide Without, Covered, Total;
    HeldParts(s, name, e, d, ahead, behind, touched);
    var id := u.order[0];
    WithoutMembers(ahead, {id});
    forall x | x in ahead && x != id ensures x in u.elems && u.elems[x] == s.elems[x] && s.elems[x].key != key {
      assert s.items[s.elems[x].key] == x;
    }
    CoveredLess(s.elems, u.elems, ahead, {id}, touched);
    FrontRecorded(u, id, Without(ahead, {id}), key, |data|, touched);
  }

  lemma RecordHolds(s: Index, u: Index, key: string, s3Key: string, data: Bytes, now: int, name: string, e: DataEntry,
                    d: Bytes, ahead: seq<nat>, behind: seq<nat>, touched: map<string, nat>)
    requires Accounted(s) && Held(s, name, e, d, ahead, behind, touched) && key != name
    requires Recorded(s.(disk := s.disk[key := data]), u, key, s3Key, |data|, now)
    requires var id := u.order[0];
             && u.order == [id] + Without(ahead, {id}) + [s.items[name]] + Without(behind, {id})
             && Covered(u.elems, [id] + Without(ahead, {id}), touched[key := |data|])
    ensures var id := u.order[0];
            Held(u, name, e, d, [id] + Without(ahead, {id}), Without(behind, {id}), touched[key := |data|])
  {
    hide Without, Covered, Total;
    assert s.items[name] in s.order && s.elems[s.items[name]].key == name;
  }

  lemma FrontRecorded(u: Index, id: nat, rest: seq<nat>, key: string, size: nat, touched: map<string, nat>)
    requires id in u.elems && u.elems[id].key == key && u.elems[id].size == size && Covered(u.elems, rest, touched)
    requires forall x :: x in rest ==> x in u.elems && u.elems[x].key != key
    ensures Covered(u.elems, [id] + rest, touched[key := size])
  {
    CoveredFront(u.elems, id, rest, touched, size);
  }

  lemma {:induction false} FitAtLeast(cfg: Config, s: Index, n: nat, m: nat)
    requires Backed(s) && m <= n <= |s.order| && Fits(cfg, s, m)
    ensures m <= FitCount(cfg, s, n) <= n
  {
    hide Fits;
    if n == m || Fits(cfg, s, n) {
    } else {
      FitAtLeast(cfg, s, n - 1, m);
    }
  }

  lemma {:induction false} TotalAppended(elems: map<nat, DataEntry>, ids: seq<nat>, id: nat)
    requires id in elems && forall x :: x in ids ==> x in elems
    ensures Total(elems, ids + [id]) == Total(elems, ids) + elems[id].size
  {
    if ids == [] {
      assert ids + [id] == [id];
      assert [id][1..] == [];
    } else {
      assert (ids + [id])[1..] == ids[1..] + [id];
      TotalAppended(elems, ids[1..], id);
    }
  }

  /** Eviction spares a fresh entry that fits together with what stands ahead of it. */
  lemma {:induction false} AfterEviction(cfg: Config, u: Index, t: Index, now: int, name: string, e: DataEntry, d: Bytes,
                                         ahead: seq<nat>, behind: seq<nat>, touched: map<string, nat>)
      returns (behind': seq<nat>)
    requires Accounted(u) && Accounted(t) && Evicted(cfg, u, t, now) && Held(u, name, e, d, ahead, behind, touched)
    requires !Stale(cfg, e, now) && e.size + Load(touched) <= cfg.maxSize
    ensures Held(t, name, e, d, ahead, behind', touched)
  {
    hide Total, Accounted, Load, Stale, Covered;
    AccountedPoints(u);
    var m := |ahead| + 1;
    var all := |u.order|;
    FitsAhead(cfg, u, name, e, d, ahead, behind, touched);
    FreshCountShape(cfg, u, all, now);
    assert !StaleAt(cfg, u, |ahead|, now);
    FitAtLeast(cfg, u, FreshCount(cfg, u, all, now), m);
    var n := FitCount(cfg, u, FreshCount(cfg, u, all, now));
    hide FitCount, FreshCount, StaleAt, Pointing, Backed;
    behind' := behind[..n - m];
    assert t.order == ahead + [u.items[name]] + behind';
    StillIndexed(u, t, name, |ahead|);
  }

  lemma FitsAhead(cfg: Config, u: Index, name: string, e: DataEntry, d: Bytes, ahead: seq<nat>, behind: seq<nat>,
                  touched: map<string, nat>)
    requires Backed(u) && Held(u, name, e, d, ahead, behind, touched) && e.size + Load(touched) <= cfg.maxSize
    ensures Fits(cfg, u, |ahead| + 1)
  {
    hide Total, Covered;
    CoveredLoad(u.elems, ahead, touched);
    TotalAppended(u.elems, ahead, u.items[name]);
    assert u.order[..|ahead| + 1] == ahead + [u.items[name]];
  }

  /** A name whose element stays in the list stays in the index, and its file stays. */
  lemma StillIndexed(u: Index, t: Index, name: string, p: nat)
    requires Accounted(u) && Accounted(t) && CutTo(u, t, |t.order|) && name in u.items && name in u.disk
    requires p < |t.order| && t.order[p] == u.items[name]
    ensures name in t.items && t.items[name] == u.items[name] && name in t.disk && t.disk[name] == u.disk[name]
  {
    hide Total;
    assert t.order[p] in t.order;
  }

  /** The sizes stay right. */
  lemma SizesStay(cfg: Config, s: Index, c: I.Call, now: int, r: Option<Bytes>, t: Index)
    requires SizesRight(s) && Does(cfg, s, c, now, r, t)
    ensures SizesRight(t)
  {
    hide Without, Total, Evicted, Record, Stale;
    match c
    case PutCall(k, e, data, true) => PutSizes(cfg, s, CacheKey(k, e), k, data, now, t);
    case _ =>
  }

  lemma PutSizes(cfg: Config, s: Index, key: string, s3Key: string, data: Bytes, now: int, t: Index)
    requires Accounted(s) && Accounted(t) && SizesRight(s) && Stored(cfg, s, key, s3Key, data, now, t)
    ensures SizesRight(t)
  {
    hide Without, Total, Evicted;
    var placed := s.(disk := s.disk[key := data]);
    var u := Record(placed, key, s3Key, |data|, now);
    DiskIsNotCounted(s, placed.disk);
    RecordSpares(placed, key, s3Key, |data|, now);
    hide Record;
    AccountedPoints(u);
    EvictedFiles(cfg, u, t, now);
    EvictedPrefix(cfg, u, t, now);
    RecordedSizes(s, u, key, s3Key, data, now);
    forall k | k in t.items ensures k in u.items && t.items[k] == u.items[k] {
      assert t.items[k] in t.order;
      assert t.items[k] in u.order;
    }
  }

  lemma RecordedSizes(s: Index, u: Index, key: string, s3Key: string, data: Bytes, now: int)
    requires Pointing(s) && SizesRight(s) && Recorded(s.(disk := s.disk[key := data]), u, key, s3Key, |data|, now)
    ensures SizesRight(u)
  {
    hide Without;
    forall k | k in u.items && k in u.disk ensures u.items[k] in u.elems && u.elems[u.items[k]].size == |u.disk[k]| {
      if k != key {
        assert s.items[k] in s.order;
      }
    }
  }

  /** A call about something else leaves the entry held. */
  lemma {:induction false} HeldStays(cfg: Config, s: Index, c: I.Call, now: int, r: Option<Bytes>, t: Index, name: string,
                                     e: DataEntry, d: Bytes, ahead: seq<nat>, behind: seq<nat>, touched: map<string, nat>)
      returns (ahead': seq<nat>, behind': seq<nat>)
    requires Does(cfg, s, c, now, r, t) && Held(s, name, e, d, ahead, behind, touched) && SizesRight(s)
    requires LeavesAlone(c, name, e.s3Key) && !Stale(cfg, e, now)
    requires e.size + Load(TouchedBy(touched, c, r)) <= cfg.maxSize
    ensures Held(t, name, e, d, ahead', behind', TouchedBy(touched, c, r))
  {
    hide Accounted, Held, Looked, Stored, Stale, SizesRight, Load, I.Cleared;
    AccountedPoints(s);
    ahead', behind' := ahead, behind;
    match c
    case GetCall(k, tag) =>
      var key := CacheKey(k, tag);
      LookedAnswer(cfg, s, key, now, r, t);
      if Hits(cfg, s, key, now) {
        AfterHit(cfg, s, key, now, t, name, e, d, ahead, behind, touched);
        ahead', behind' := [s.items[key]] + Without(ahead, {s.items[key]}), Without(behind, {s.items[key]});
      } else {
        ahead', behind' := AfterMiss(cfg, s, key, now, t, name, e, d, ahead, behind, touched);
      }
    case PutCall(k, tag, data, stored) =>
      if stored {
        ahead', behind' := AfterStore(cfg, s, CacheKey(k, tag), k, data, now, t, name, e, d, ahead, behind, touched);
      }
    case InvalidateCall(k) => ahead', behind' := AfterClear(s, t, k, name, e, d, ahead, behind, touched);
  }

  lemma LookedAnswer(cfg: Config, s: Index, key: string, now: int, r: Option<Bytes>, t: Index)
    requires Pointing(s) && Looked(cfg, s, key, now, r, t)
    ensures r == if Hits(cfg, s, key, now) then Some(s.disk[key]) else None
  {
    hide Without;
  }

  lemma {:induction false} AfterStore(cfg: Config, s: Index, key: string, s3Key: string, data: Bytes, now: int, t: Index,
                                      name: string, e: DataEntry, d: Bytes, ahead: seq<nat>, behind: seq<nat>,
                                      touched: map<string, nat>) returns (ahead': seq<nat>, behind': seq<nat>)
    requires Accounted(s) && Accounted(t) && Stored(cfg, s, key, s3Key, data, now, t) && key != name
    requires Held(s, name, e, d, ahead, behind, touched)
    requires !Stale(cfg, e, now) && e.size + Load(touched[key := |data|]) <= cfg.maxSize
    ensures Held(t, name, e, d, ahead', behind', touched[key := |data|])
  {
    hide Accounted, Held, Evicted, Recorded, Stale, Load, Without;
    var placed := s.(disk := s.disk[key := data]);
    AccountedPoints(s);
    DiskIsNotCounted(s, placed.disk);
    var u := Record(placed, key, s3Key, |data|, now);
    RecordSpares(placed, key, s3Key, |data|, now);
    hide Record;
    AfterRecord(s, u, key, s3Key, data, now, name, e, d, ahead, behind, touched);
    ahead' := [u.order[0]] + Without(ahead, {u.order[0]});
    behind' := AfterEviction(cfg, u, t, now, name, e, d, ahead', Without(behind, {u.order[0]}), touched[key := |data|]);
  }

  // ----- Runs -----

  /** The entry is fresh at every call, and fits at every point with all that was touched by then. */
  ghost predicate Room(cfg: Config, e: DataEntry, calls: seq<(I.Call, int)>, answers: seq<Option<Bytes>>)
    requires |answers| == |calls|
  {
    && (forall n :: 0 <= n < |calls| ==> !Stale(cfg, e, calls[n].1))
    && (forall n :: 0 <= n <= |calls| ==> e.size + Load(Touched(calls[..n], answers[..n])) <= cfg.maxSize)
  }

  lemma {:induction false} HeldThrough(cfg: Config, calls: seq<(I.Call, int)>, answers: seq<Option<Bytes>>, states: seq<Index>,
                                       name: string, e: DataEntry, d: Bytes, behind: seq<nat>)
      returns (ahead': seq<nat>, behind': seq<nat>)
    requires Traced(cfg, calls, answers, states) && SizesRight(states[0]) && Room(cfg, e, calls, answers)
    requires Held(states[0], name, e, d, [], behind, map[])
    requires forall n :: 0 <= n < |calls| ==> LeavesAlone(calls[n].0, name, e.s3Key)
    ensures Held(states[|calls|], name, e, d, ahead', behind', Touched(calls, answers)) && SizesRight(states[|calls|])
    decreases |calls|
  {
    hide Does, Held, SizesRight, Load, Stale, LeavesAlone;
    if calls == [] {
      ahead', behind' := [], behind;
    } else {
      var n := |calls| - 1;
      var before, past := calls[..n], answers[..n];
      assert forall i :: 0 <= i <= n ==> before[..i] == calls[..i] && past[..i] == answers[..i];
      ahead', behind' := HeldThrough(cfg, before, past, states[..n + 1], name, e, d, behind);
      assert states[..n + 1][n] == states[n];
      assert calls[..|calls|] == calls && answers[..|calls|] == answers;
      ahead', behind' := HeldStays(cfg, states[n], calls[n].0, calls[n].1, answers[n], states[n + 1], name, e, d,
                                   ahead', behind', Touched(before, past));
      SizesStay(cfg, states[n], calls[n].0, calls[n].1, answers[n], states[n + 1]);
    }
  }

  /** The call puts `name` and there is room for it, or looks it up and finds it. */
  predicate Touches(cfg: Config, c: I.Call, r: Option<Bytes>, name: string) {
    match c
    case GetCall(k, e) => CacheKey(k, e) == name && r.Some?
    case PutCall(k, e, data, stored) => CacheKey(k, e) == name && stored && |data| <= cfg.maxSize
    case InvalidateCall(_) => false
  }

  /** What it puts or finds. */
  function Content(c: I.Call, r: Option<Bytes>): Bytes {
    if c.PutCall? then c.data else if r.Some? then r.value else []
  }

  /** Then it is at the front, fresh, with that content. */
  lemma {:induction false} TouchedIsFirst(cfg: Config, s: Index, c: I.Call, now: int, r: Option<Bytes>, t: Index, name: string)
      returns (behind: seq<nat>)
    requires Does(cfg, s, c, now, r, t) && Touches(cfg, c, r, name) && SizesRight(s)
    ensures name in t.items && t.items[name] in t.elems
    ensures Held(t, name, t.elems[t.items[name]], Content(c, r), [], behind, map[])
    ensures var e := t.elems[t.items[name]];
            && e.accessTime == now && e.size == |Content(c, r)|
            && (c.PutCall? && name !in s.items ==> e.s3Key == c.s3Key)
            && (name in s.items && s.items[name] in s.elems ==> e.s3Key == s.elems[s.items[name]].s3Key)
  {
    hide Accounted, Looked, Stored, SizesRight, Stale;
    AccountedPoints(s);
    if c.GetCall? {
      FoundIsFirst(cfg, s, name, now, r, t);
    } else {
      StoredIsFirst(cfg, s, name, c.s3Key, c.data, now, t);
    }
    hide Pointing;
    behind := t.order[1..];
    assert t.order == [] + [t.items[name]] + behind;
  }

  lemma FoundIsFirst(cfg: Config, s: Index, key: string, now: int, r: Option<Bytes>, t: Index)
    requires Accounted(s) && Looked(cfg, s, key, now, r, t) && r.Some? && SizesRight(s)
    ensures key in t.items && t.items[key] in t.elems && t.order != [] && t.order[0] == t.items[key]
    ensures key in t.disk && t.disk[key] == r.value && key in s.items && s.items[key] in s.elems
    ensures t.elems[t.items[key]] == DataEntry(key, s.elems[s.items[key]].s3Key, |r.value|, now)
  {
    hide Without, Total, Stale;
  }

  lemma StoredIsFirst(cfg: Config, s: Index, key: string, s3Key: string, data: Bytes, now: int, t: Index)
    requires Accounted(s) && Accounted(t) && Stored(cfg, s, key, s3Key, data, now, t) && |data| <= cfg.maxSize
    ensures key in t.items && t.items[key] in t.elems && t.order != [] && t.order[0] == t.items[key]
    ensures key in t.disk && t.disk[key] == data
    ensures t.elems[t.items[key]] == DataEntry(key, if key in s.items && s.items[key] in s.elems
                                                    then s.elems[s.items[key]].s3Key else s3Key, |data|, now)
  {
    hide Without, Total, Evicted;
    var placed := s.(disk := s.disk[key := data]);
    var u := Record(placed, key, s3Key, |data|, now);
    DiskIsNotCounted(s, placed.disk);
    RecordSpares(placed, key, s3Key, |data|, now);
    hide Record;
    AccountedPoints(u);
    FrontSurvives(cfg, u, t, now, key);
    EvictedFiles(cfg, u, t, now);
    EvictedPrefix(cfg, u, t, now);
    assert t.items[key] in t.order;
  }

  /**
   * Retention: what a call puts or finds is found again after any run of calls about other names, in which it is not
   * invalidated and stays fresh, as long as it fits at every point with all that was put or found since.
   */
  lemma {:induction false} Retention(cfg: Config, calls: seq<(I.Call, int)>, answers: seq<Option<Bytes>>, states: seq<Index>,
                                     name: string, now: int)
    requires Traced(cfg, calls, answers, states) && calls != [] && SizesRight(states[0])
    requires Touches(cfg, calls[0].0, answers[0], name)
    requires var content := Content(calls[0].0, answers[0]);
             forall n :: 1 <= n <= |calls| ==> |content| + Load(Touched(calls[1..n], answers[1..n])) <= cfg.maxSize
    requires forall n :: 1 <= n < |calls| ==> cfg.ttl <= 0 || calls[n].1 - calls[0].1 <= cfg.ttl
    requires cfg.ttl <= 0 || now - calls[0].1 <= cfg.ttl
    requires name in states[1].items && states[1].items[name] in states[1].elems ==>
               var s3Key := states[1].elems[states[1].items[name]].s3Key;
               forall n :: 1 <= n < |calls| ==> LeavesAlone(calls[n].0, name, s3Key)
    ensures Hits(cfg, states[|calls|], name, now) && states[|calls|].disk[name] == Content(calls[0].0, answers[0])
  {
    hide Does, SizesRight, Load, LeavesAlone, Touches, Content, Covered;
    var rest, past, after := calls[1..], answers[1..], states[1..];
    SizesStay(cfg, states[0], calls[0].0, calls[0].1, answers[0], states[1]);
    var behind := TouchedIsFirst(cfg, states[0], calls[0].0, calls[0].1, answers[0], states[1], name);
    var e := states[1].elems[states[1].items[name]];
    assert Traced(cfg, rest, past, after) by {
      forall i | 0 <= i < |rest| ensures Does(cfg, after[i], rest[i].0, rest[i].1, past[i], after[i + 1]) {
        assert rest[i] == calls[i + 1] && past[i] == answers[i + 1];
      }
    }
    assert forall n :: 0 <= n <= |rest| ==> rest[..n] == calls[1..n + 1] && past[..n] == answers[1..n + 1];
    var ahead', behind' := HeldThrough(cfg, rest, past, after, name, e, Content(calls[0].0, answers[0]), behind);
    assert after[|rest|] == states[|calls|];
  }

  /** Sizes are right in a new cache, whatever it finds on disk... */
  method Start(cfg: Config, files: map<string, Bytes>, listing: seq<string>, modTime: map<string, int>, now: int)
      returns (dc: DataCache)
    requires Scannable(files, listing, modTime)
    ensures fresh(dc) && dc.Valid() && dc.config == WithDefaults(cfg) && SizesRight(dc.State())
  {
    hide Accounted, Evicted;
    dc := new DataCache(cfg, files, listing, modTime, now);
  }

  /** ... and stay so in every run. */
  lemma {:induction false} SizesThrough(cfg: Config, calls: seq<(I.Call, int)>, answers: seq<Option<Bytes>>,
                                        states: seq<Index>, n: nat)
    requires Traced(cfg, calls, answers, states) && SizesRight(states[0]) && n <= |calls|
    ensures SizesRight(states[n])
    decreases n
  {
    hide Does, SizesRight;
    if n == 0 {
    } else {
      SizesThrough(cfg, calls, answers, states, n - 1);
      SizesStay(cfg, states[n - 1], calls[n - 1].0, calls[n - 1].1, answers[n - 1], states[n]);
    }
  }
}
