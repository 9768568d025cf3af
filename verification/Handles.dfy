/**
 * Inode identity: the HandleStore of internal/s3fs/handle.go over a bbolt database whose transactions
 * are atomic, with failed transactions, crashes and restarts.
 */
module Handles {
  import opened Base

  const U64_LIMIT := 0x1_0000_0000_0000_0000

  type U64 = x: int | 0 <= x < 0x1_0000_0000_0000_0000

  const ROOT_INODE: U64 := 1

  // ----- NFS handles -----

  function Pow256(n: nat): nat {
    if n == 0 then 1 else 256 * Pow256(n - 1)
  }

  /** The n low bytes of v, most significant first. */
  function BigEndian(v: nat, n: nat): (b: seq<Byte>)
    ensures |b| == n
  {
    if n == 0 then [] else BigEndian(v / 256, n - 1) + [(v % 256) as char]
  }

  function Value(b: seq<Byte>): nat {
    if b == [] then 0 else Value(b[..|b| - 1]) * 256 + b[|b| - 1] as int
  }

  lemma {:induction false} ValueBigEndian(v: nat, n: nat)
    requires v < Pow256(n)
    ensures Value(BigEndian(v, n)) == v
  {
    if n == 0 {
    } else {
      ValueBigEndian(v / 256, n - 1);
      assert BigEndian(v, n)[..n - 1] == BigEndian(v / 256, n - 1);
    }
  }

  lemma {:induction false} ValueInRange(b: seq<Byte>)
    ensures Value(b) < Pow256(|b|)
  {
    if b == [] {
    } else {
      ValueInRange(b[..|b| - 1]);
    }
  }

  lemma Pow256Of8()
    ensures Pow256(8) == U64_LIMIT
  {
    assert Pow256(4) == 0x1_0000_0000;
    assert Pow256(6) == 0x1_0000_0000_0000;
  }

  function InodeToHandle(inode: U64): seq<Byte> {
    BigEndian(inode, 8)
  }

  /** None is the "invalid handle length" error; bytes after the eighth are ignored. */
  function HandleToInode(handle: seq<Byte>): (r: Option<U64>)
    ensures r.None? <==> |handle| < 8
  {
    if |handle| < 8 then None
    else
      ValueInRange(handle[..8]);
      Pow256Of8();
      Some(Value(handle[..8]))
  }

  /** A handle names its inode, whatever bytes follow it; so distinct inodes have distinct handles. */
  lemma HandleRoundTrip(inode: U64, extra: seq<Byte>)
    ensures HandleToInode(InodeToHandle(inode) + extra) == Some(inode)
  {
    Pow256Of8();
    ValueBigEndian(inode, 8);
    assert (InodeToHandle(inode) + extra)[..8] == InodeToHandle(inode);
  }

  /** Handles are big-endian: the root's ends in 1, and 256 * hi + lo is hi moved up by one byte, with lo at the end. */
  lemma HandleBytes(hi: nat, lo: nat)
    requires lo < 256 && 256 * hi + lo < U64_LIMIT
    ensures InodeToHandle(256 * hi + lo) == InodeToHandle(hi)[1..] + [lo as char]
    ensures InodeToHandle(0) == seq(8, _ => 0 as char)
    ensures InodeToHandle(ROOT_INODE) == seq(7, _ => 0 as char) + [1 as char]
  {
    TopByteOff(hi, 7);
    ZeroBytes(8);
    ZeroBytes(7);
    assert BigEndian(1, 8) == BigEndian(0, 7) + [1 as char];
  }

  lemma {:induction false} TopByteOff(v: nat, n: nat)
    ensures BigEndian(v, n + 1)[1..] == BigEndian(v, n)
  {
    if n == 0 {
    } else {
      TopByteOff(v / 256, n - 1);
      assert BigEndian(v, n + 1)[1..] == BigEndian(v / 256, n)[1..] + [(v % 256) as char];
    }
  }

  lemma {:induction false} ZeroBytes(n: nat)
    ensures BigEndian(0, n) == seq(n, _ => 0 as char)
  {
    if n == 0 {
    } else {
      ZeroBytes(n - 1);
    }
  }

  // ----- Keys as bbolt stores them -----

  function KeyToBolt(key: string): string {
    if key == "" then "\0" else key
  }

  function BoltToKey(b: string): string {
    if b == "\0" then "" else b
  }

  /** Decoding undoes encoding on every key but "\0", which comes back as the root. */
  lemma BoltRoundTrip(key: string)
    ensures BoltToKey(KeyToBolt(key)) == key <==> key != "\0"
    ensures KeyToBolt(key) != ""
  {
  }

  // ----- The database and the store -----

  /** The buckets "inodes", "keys" and "meta". */
  datatype Db = Db(inodes: map<U64, string>, keys: map<string, U64>, next: Option<U64>)

  datatype Store = Store(db: Db, next: U64, inodeToKey: map<U64, string>, keyToInode: map<string, U64>)

  function Successor(inode: U64): U64 {
    if inode + 1 == U64_LIMIT then 0 else inode + 1
  }

  function WithRoot(db: Db): Db {
    if ROOT_INODE in db.inodes then db
    else db.(inodes := db.inodes[ROOT_INODE := "\0"], keys := db.keys["\0" := ROOT_INODE])
  }

  function Decoded(inodes: map<U64, string>): map<U64, string> {
    map i | i in inodes :: BoltToKey(inodes[i])
  }

  /** `m` sends each key to the largest of its inodes: what an ascending load leaves. */
  ghost predicate LastWins(inodeToKey: map<U64, string>, m: map<string, U64>) {
    && (forall k :: k in m ==> m[k] in inodeToKey && inodeToKey[m[k]] == k)
    && (forall i :: i in inodeToKey ==> inodeToKey[i] in m && i <= m[inodeToKey[i]])
  }

  lemma LastWinsUnique(inodeToKey: map<U64, string>, a: map<string, U64>, b: map<string, U64>)
    requires LastWins(inodeToKey, a) && LastWins(inodeToKey, b)
    ensures a == b
  {
    forall k | k in a ensures k in b && a[k] == b[k] {
      assert inodeToKey[a[k]] == k;
    }
    forall k | k in b ensures k in a {
      assert inodeToKey[b[k]] == k;
    }
  }

  /** Loading inodes in ascending order, the last one loaded being `i`. */
  lemma LastWinsStep(before: map<U64, string>, m: map<string, U64>, i: U64, key: string)
    requires LastWins(before, m) && forall j :: j in before ==> j < i
    ensures LastWins(before[i := key], m[key := i])
  {
  }

  lemma {:induction false} LeastInode(s: set<U64>) returns (i: U64)
    requires s != {}
    ensures i in s && forall j :: j in s ==> i <= j
  {
    i :| i in s;
    if s != {i} {
      var r := LeastInode(s - {i});
      assert s == {i} + (s - {i});
      if r < i {
        i := r;
      }
    }
  }

  lemma {:induction false} LastWinsExists(inodeToKey: map<U64, string>) returns (m: map<string, U64>)
    ensures LastWins(inodeToKey, m)
    decreases inodeToKey.Keys
  {
    if inodeToKey == map[] {
      m := map[];
    } else {
      var top := GreatestInode(inodeToKey.Keys);
      var rest := inodeToKey - {top};
      var m0 := LastWinsExists(rest);
      LastWinsStep(rest, m0, top, inodeToKey[top]);
      assert rest[top := inodeToKey[top]] == inodeToKey;
      m := m0[inodeToKey[top] := top];
    }
  }

  lemma {:induction false} GreatestInode(s: set<U64>) returns (i: U64)
    requires s != {}
    ensures i in s && forall j :: j in s ==> j <= i
  {
    i :| i in s;
    if s != {i} {
      var r := GreatestInode(s - {i});
      assert s == {i} + (s - {i});
      if r > i {
        i := r;
      }
    }
  }

  ghost function LoadedKeys(inodeToKey: map<U64, string>): (m: map<string, U64>)
    ensures LastWins(inodeToKey, m)
  {
    assert exists m :: LastWins(inodeToKey, m) by {
      var w := LastWinsExists(inodeToKey);
    }
    var m :| LastWins(inodeToKey, m);
    m
  }

  lemma LoadedIs(inodeToKey: map<U64, string>, m: map<string, U64>)
    requires LastWins(inodeToKey, m)
    ensures LoadedKeys(inodeToKey) == m
  {
    LastWinsUnique(inodeToKey, m, LoadedKeys(inodeToKey));
  }

  /** NewHandleStore on an existing database. */
  ghost function Reopen(db: Db): Store {
    var d := WithRoot(db);
    Store(d, if d.next.Some? then d.next.value else ROOT_INODE + 1, Decoded(d.inodes), LoadedKeys(Decoded(d.inodes)))
  }

  // ----- Operations -----

  /** The calls that write, each one critical section under the write lock. */
  datatype Call = Create(key: string) | Remove(key: string) | Rename(oldKey: string, newKey: string)

  /** How the call ends; a crash is followed by reopening the store. */
  datatype Outcome = Commits | Aborts | CrashesBeforeCommit | CrashesAfterCommit

  /** The call runs a transaction; otherwise it only reads the maps. */
  predicate Writes(s: Store, c: Call) {
    match c
    case Create(key) => key !in s.keyToInode && s.next != 0
    case Remove(key) => key in s.keyToInode
    case Rename(oldKey, _) => oldKey in s.keyToInode
  }

  /** The database after the call's transaction. */
  function Written(s: Store, c: Call): Db
    requires Writes(s, c)
  {
    match c
    case Create(key) =>
      Db(s.db.inodes[s.next := KeyToBolt(key)], s.db.keys[KeyToBolt(key) := s.next], Some(Successor(s.next)))
    case Remove(key) =>
      Db(s.db.inodes - {s.keyToInode[key]}, s.db.keys - {KeyToBolt(key)}, s.db.next)
    case Rename(oldKey, newKey) =>
      var i := s.keyToInode[oldKey];
      Db(s.db.inodes[i := KeyToBolt(newKey)], (s.db.keys - {KeyToBolt(oldKey)})[KeyToBolt(newKey) := i], s.db.next)
  }

  /** The store after the call when its transaction commits. */
  function Committed(s: Store, c: Call): Store
    requires Writes(s, c)
  {
    match c
    case Create(key) =>
      Store(Written(s, c), Successor(s.next), s.inodeToKey[s.next := key], s.keyToInode[key := s.next])
    case Remove(key) =>
      Store(Written(s, c), s.next, s.inodeToKey - {s.keyToInode[key]}, s.keyToInode - {key})
    case Rename(oldKey, newKey) =>
      var i := s.keyToInode[oldKey];
      Store(Written(s, c), s.next, s.inodeToKey[i := newKey], (s.keyToInode - {oldKey})[newKey := i])
  }

  /** The store after the call when its transaction fails: only the in-memory counter has moved. */
  function Aborted(s: Store, c: Call): Store
    requires Writes(s, c)
  {
    if c.Create? then s.(next := Successor(s.next)) else s
  }

  ghost function Step(s: Store, c: Call, o: Outcome): Store {
    if !Writes(s, c) then
      if o.Commits? || o.Aborts? then s else Reopen(s.db)
    else match o
      case Commits => Committed(s, c)
      case Aborts => Aborted(s, c)
      case CrashesBeforeCommit => Reopen(s.db)
      case CrashesAfterCommit => Reopen(Written(s, c))
  }

  /** The inode the call made durable, if any. */
  function Allocated(s: Store, c: Call, o: Outcome): seq<U64> {
    if c.Create? && Writes(s, c) && (o.Commits? || o.CrashesAfterCommit?) then [s.next] else []
  }

  class HandleStore {
    var db: Db
    var nextInode: U64
    var inodeToKey: map<U64, string>
    var keyToInode: map<string, U64>

    ghost function State(): Store
      reads this
    {
      Store(db, nextInode, inodeToKey, keyToInode)
    }

    /** NewHandleStore: ensure the root exists, then load every mapping in ascending inode order. */
    constructor (onDisk: Db)
      ensures State() == Reopen(onDisk)
    {
      var d := WithRoot(onDisk);
      db := d;
      nextInode := if d.next.Some? then d.next.value else ROOT_INODE + 1;
      var i2k, k2i := Load(d.inodes);
      inodeToKey := i2k;
      keyToInode := k2i;
      LoadedIs(i2k, k2i);
    }

    /** The loading loop. */
    static method Load(inodes: map<U64, string>) returns (i2k: map<U64, string>, k2i: map<string, U64>)
      ensures i2k == Decoded(inodes) && LastWins(i2k, k2i)
    {
      i2k, k2i := map[], map[];
      var todo := inodes.Keys;
      while todo != {}
        invariant todo <= inodes.Keys
        invariant i2k.Keys == inodes.Keys - todo
        invariant forall i :: i in i2k ==> i2k[i] == BoltToKey(inodes[i])
        invariant forall i, j :: i in i2k && j in todo ==> i < j
        invariant LastWins(i2k, k2i)
        decreases todo
      {
        hide LastWins, BoltToKey;
        ghost var least := LeastInode(todo);
        var i :| i in todo && forall j :: j in todo ==> i <= j;
        var key := BoltToKey(inodes[i]);
        LastWinsStep(i2k, k2i, i, key);
        i2k, k2i := i2k[i := key], k2i[key := i];
        todo := todo - {i};
      }
    }

    /** None is the overflow or the failed-transaction error. */
    method GetOrCreateInode(key: string, commits: bool) returns (r: Option<U64>)
      modifies this
      ensures State() == Step(old(State()), Create(key), if commits then Commits else Aborts)
      ensures r.None? <==> key !in keyToInode
      ensures r.Some? ==> r.value == keyToInode[key]
      ensures r.None? <==> key !in old(keyToInode) && (old(nextInode) == 0 || !commits)
      ensures r.Some? && key !in old(keyToInode) ==>
                && r.value == old(nextInode) && nextInode == (r.value + 1) % 0x1_0000_0000_0000_0000
                && keyToInode == old(keyToInode)[key := r.value] && inodeToKey == old(inodeToKey)[r.value := key]
      ensures key in old(keyToInode) ==> State() == old(State())
      ensures r.None? ==> State() == old(State()).(next := nextInode)
      ensures r.None? ==> nextInode == if old(nextInode) == 0 then 0 else (old(nextInode) + 1) % 0x1_0000_0000_0000_0000
    {
      if key in keyToInode {
        return Some(keyToInode[key]);
      }
      if nextInode == 0 {
        return None;
      }
      var inode := nextInode;
      nextInode := Successor(nextInode);
      if !commits {
        return None;
      }
      db := Db(db.inodes[inode := KeyToBolt(key)], db.keys[KeyToBolt(key) := inode], Some(nextInode));
      inodeToKey := inodeToKey[inode := key];
      keyToInode := keyToInode[key := inode];
      return Some(inode);
    }

    /** The reported error is a failed transaction. */
    method RemoveByKey(key: string, commits: bool) returns (ok: bool)
      modifies this
      ensures State() == Step(old(State()), Remove(key), if commits then Commits else Aborts)
      ensures ok <==> key !in keyToInode
      ensures ok <==> key !in old(keyToInode) || commits
      ensures ok && key in old(keyToInode) ==>
                keyToInode == old(keyToInode) - {key} && inodeToKey == old(inodeToKey) - {old(keyToInode)[key]} &&
                nextInode == old(nextInode)
      ensures !ok || key !in old(keyToInode) ==> State() == old(State())
    {
      if key !in keyToInode {
        return true;
      }
      var inode := keyToInode[key];
      if !commits {
        return false;
      }
      db := Db(db.inodes - {inode}, db.keys - {KeyToBolt(key)}, db.next);
      inodeToKey := inodeToKey - {inode};
      keyToInode := keyToInode - {key};
      return true;
    }

    /** The reported error is a key without an inode, or a failed transaction. */
    method RenameKey(oldKey: string, newKey: string, commits: bool) returns (ok: bool)
      modifies this
      ensures State() == Step(old(State()), Rename(oldKey, newKey), if commits then Commits else Aborts)
      ensures ok <==> oldKey in old(keyToInode) && commits
      ensures ok ==> var inode := old(keyToInode)[oldKey];
                     keyToInode == (old(keyToInode) - {oldKey})[newKey := inode] &&
                     inodeToKey == old(inodeToKey)[inode := newKey] && nextInode == old(nextInode)
      ensures !ok ==> State() == old(State())
    {
      if oldKey !in keyToInode {
        return false;
      }
      var inode := keyToInode[oldKey];
      if !commits {
        return false;
      }
      db := Db(db.inodes[inode := KeyToBolt(newKey)],
               (db.keys - {KeyToBolt(oldKey)})[KeyToBolt(newKey) := inode], db.next);
      keyToInode := keyToInode - {oldKey};
      keyToInode := keyToInode[newKey := inode];
      inodeToKey := inodeToKey[inode := newKey];
      return true;
    }
  }

  // ----- Invariants over all runs -----

  /** The counter as a bound: 0 means that every number has been used. */
  function Bound(next: U64): int {
    if next == 0 then U64_LIMIT else next
  }

  function DbBound(db: Db): int {
    if db.next.Some? then Bound(db.next.value) else ROOT_INODE + 1
  }

  /** Looking a key up and resolving the inode found gives the key back; numbers in use are below the counters. */
  ghost predicate Sound(s: Store) {
    && (forall k :: k in s.keyToInode ==> s.keyToInode[k] in s.inodeToKey && s.inodeToKey[s.keyToInode[k]] == k)
    && s.db.inodes.Keys == s.inodeToKey.Keys
    && (forall i :: i in s.inodeToKey ==> 1 <= i < DbBound(s.db))
    && DbBound(s.db) <= Bound(s.next)
    && DbBound(s.db) > ROOT_INODE
  }

  /** The two maps are inverses of each other. */
  ghost predicate Inverse(s: Store) {
    && (forall k :: k in s.keyToInode ==> s.keyToInode[k] in s.inodeToKey && s.inodeToKey[s.keyToInode[k]] == k)
    && (forall i :: i in s.inodeToKey ==> s.inodeToKey[i] in s.keyToInode && s.keyToInode[s.inodeToKey[i]] == i)
  }

  /** The inodes bucket holds the in-memory map. */
  ghost predicate Mirrored(s: Store) {
    s.inodeToKey == Decoded(s.db.inodes)
  }

  /** A database some store may leave behind. */
  ghost predicate SoundDb(db: Db) {
    && (forall i :: i in db.inodes ==> 1 <= i < DbBound(db))
    && DbBound(db) > ROOT_INODE
  }

  lemma ReopenSound(db: Db)
    requires SoundDb(db)
    ensures Sound(Reopen(db)) && Mirrored(Reopen(db)) && DbBound(Reopen(db).db) == DbBound(db)
  {
    var d := WithRoot(db);
    assert SoundDb(d);
    assert LastWins(Decoded(d.inodes), LoadedKeys(Decoded(d.inodes)));
  }

  lemma CommittedSound(s: Store, c: Call)
    requires Sound(s) && Writes(s, c)
    ensures Sound(Committed(s, c))
    ensures DbBound(s.db) <= DbBound(Committed(s, c).db)
  {
    var t := Committed(s, c);
    forall k | k in t.keyToInode
      ensures t.keyToInode[k] in t.inodeToKey && t.inodeToKey[t.keyToInode[k]] == k
    {
      if k in s.keyToInode {
        assert s.inodeToKey[s.keyToInode[k]] == k;
      }
    }
  }

  lemma StepSound(s: Store, c: Call, o: Outcome)
    requires Sound(s)
    ensures Sound(Step(s, c, o))
    ensures DbBound(s.db) <= DbBound(Step(s, c, o).db)
    ensures Allocated(s, c, o) != [] ==> DbBound(s.db) <= s.next < DbBound(Step(s, c, o).db)
  {
    if !Writes(s, c) {
      ReopenSound(s.db);
    } else {
      match o
      case Commits => CommittedSound(s, c);
      case Aborts =>
      case CrashesBeforeCommit => ReopenSound(s.db);
      case CrashesAfterCommit =>
        CommittedSound(s, c);
        assert Committed(s, c).db == Written(s, c);
        ReopenSound(Written(s, c));
    }
  }

  /** A run: calls in the order their critical sections were entered, each with its outcome. */
  type Run = seq<(Call, Outcome)>

  ghost function After(run: Run): Store {
    if run == [] then Reopen(Db(map[], map[], None))
    else Step(After(run[..|run| - 1]), run[|run| - 1].0, run[|run| - 1].1)
  }

  /** Every inode number made durable in the run, in order. */
  ghost function Issued(run: Run): seq<U64> {
    if run == [] then []
    else Issued(run[..|run| - 1]) + Allocated(After(run[..|run| - 1]), run[|run| - 1].0, run[|run| - 1].1)
  }

  lemma {:induction false} RunSound(run: Run)
    ensures Sound(After(run))
    ensures forall k :: 0 <= k < |Issued(run)| ==> ROOT_INODE < Issued(run)[k] < DbBound(After(run).db)
    ensures Distinct(Issued(run))
    decreases |run|
  {
    if run == [] {
      ReopenSound(Db(map[], map[], None));
    } else {
      var before := run[..|run| - 1];
      RunSound(before);
      StepSound(After(before), run[|run| - 1].0, run[|run| - 1].1);
    }
  }

  /**
   * Identity over all runs with failed transactions, crashes and restarts: a key's inode resolves to that key,
   * and no inode number is handed out twice, not even the root's, not even when the counter wraps.
   */
  lemma {:induction false} InodeIdentity(run: Run)
    ensures forall k :: k in After(run).keyToInode ==>
              After(run).keyToInode[k] in After(run).inodeToKey &&
              After(run).inodeToKey[After(run).keyToInode[k]] == k
    ensures Distinct([ROOT_INODE] + Issued(run))
  {
    RunSound(run);
  }

  /** What a caller must respect for the maps to stay inverses and for the disk to hold them. */
  ghost predicate Careful(s: Store, c: Call) {
    match c
    case Create(key) => key != "\0"
    case Remove(key) => key in s.keyToInode ==> s.keyToInode[key] != ROOT_INODE
    case Rename(oldKey, newKey) =>
      newKey != "\0" && (oldKey in s.keyToInode && newKey in s.keyToInode ==> newKey == oldKey)
  }

  /** The call's transaction reaches the disk. */
  predicate Durable(s: Store, c: Call, o: Outcome) {
    Writes(s, c) && (o.Commits? || o.CrashesAfterCommit?)
  }

  ghost predicate CarefulRun(run: Run) {
    forall n :: 0 <= n < |run| && Durable(After(run[..n]), run[n].0, run[n].1) ==> Careful(After(run[..n]), run[n].0)
  }

  /** Reopening gives the in-memory state back, and a counter above every inode the database holds. */
  ghost predicate Recoverable(s: Store) {
    && Reopen(s.db).inodeToKey == s.inodeToKey
    && Reopen(s.db).keyToInode == s.keyToInode
    && Reopen(s.db).db == s.db
    && Bound(Reopen(s.db).next) == DbBound(s.db)
  }

  ghost predicate Tidy(s: Store) {
    Sound(s) && Inverse(s) && Mirrored(s) && ROOT_INODE in s.inodeToKey
  }

  lemma TidyRecovers(s: Store)
    requires Tidy(s)
    ensures Recoverable(s)
  {
    assert WithRoot(s.db) == s.db;
    LastWinsUnique(s.inodeToKey, s.keyToInode, LoadedKeys(s.inodeToKey));
  }

  lemma CommittedTidy(s: Store, c: Call)
    requires Tidy(s) && Careful(s, c) && Writes(s, c)
    ensures Tidy(Committed(s, c))
  {
    hide Sound, Inverse, Mirrored, Committed;
    CommittedSound(s, c);
    CommittedInverse(s, c);
    CommittedMirrored(s, c);
    CommittedRoot(s, c);
  }

  lemma CommittedRoot(s: Store, c: Call)
    requires Sound(s) && Careful(s, c) && Writes(s, c) && ROOT_INODE in s.inodeToKey
    ensures ROOT_INODE in Committed(s, c).inodeToKey
  {
  }

  lemma CommittedInverse(s: Store, c: Call)
    requires Sound(s) && Inverse(s) && Careful(s, c) && Writes(s, c)
    ensures Inverse(Committed(s, c))
  {
    CommittedSound(s, c);
    var t := Committed(s, c);
    forall i | i in t.inodeToKey
      ensures t.inodeToKey[i] in t.keyToInode && t.keyToInode[t.inodeToKey[i]] == i
    {
      if i in s.inodeToKey {
        assert s.keyToInode[s.inodeToKey[i]] == i;
      }
    }
  }

  lemma CommittedMirrored(s: Store, c: Call)
    requires Sound(s) && Mirrored(s) && Careful(s, c) && Writes(s, c)
    ensures Mirrored(Committed(s, c))
  {
    var t := Committed(s, c);
    assert t.inodeToKey.Keys == t.db.inodes.Keys;
    assert forall i :: i in t.inodeToKey ==> t.inodeToKey[i] == BoltToKey(t.db.inodes[i]);
  }

  lemma ReopenTidy(s: Store)
    requires Tidy(s)
    ensures Tidy(Reopen(s.db))
  {
    TidyRecovers(s);
    assert SoundDb(s.db);
    ReopenSound(s.db);
  }

  lemma StepTidy(s: Store, c: Call, o: Outcome)
    requires Tidy(s) && (Durable(s, c, o) ==> Careful(s, c))
    ensures Tidy(Step(s, c, o))
  {
    if !Writes(s, c) {
      ReopenTidy(s);
    } else {
      match o
      case Commits => CommittedTidy(s, c);
      case Aborts =>
      case CrashesBeforeCommit => ReopenTidy(s);
      case CrashesAfterCommit =>
        CommittedTidy(s, c);
        assert Committed(s, c).db == Written(s, c);
        ReopenTidy(Committed(s, c));
    }
  }

  lemma FreshTidy()
    ensures Tidy(After([]))
  {
    var db := Db(map[], map[], None);
    ReopenSound(db);
    var s := Reopen(db);
    assert s.inodeToKey == map[ROOT_INODE := ""];
    assert s.inodeToKey[ROOT_INODE] == "";
  }

  lemma {:induction false} CarefulRunTidy(run: Run)
    requires CarefulRun(run)
    ensures Tidy(After(run))
    decreases |run|
  {
    if run == [] {
      FreshTidy();
    } else {
      var before := run[..|run| - 1];
      forall n | 0 <= n < |before| && Durable(After(before[..n]), before[n].0, before[n].1)
        ensures Careful(After(before[..n]), before[n].0)
      {
        assert run[..n] == before[..n];
      }
      assert before == run[..|run| - 1];
      CarefulRunTidy(before);
      StepTidy(After(before), run[|run| - 1].0, run[|run| - 1].1);
    }
  }

  /** The bucket holds exactly the inode of each key. */
  ghost predicate KeysMirrored(keys: map<string, U64>, keyToInode: map<string, U64>) {
    && "\0" !in keyToInode
    && (forall k :: k in keyToInode ==> KeyToBolt(k) in keys && keys[KeyToBolt(k)] == keyToInode[k])
    && (forall b :: b in keys ==> BoltToKey(b) in keyToInode && KeyToBolt(BoltToKey(b)) == b)
  }

  lemma MirrorPut(keys: map<string, U64>, keyToInode: map<string, U64>, key: string, i: U64)
    requires KeysMirrored(keys, keyToInode) && key != "\0"
    ensures KeysMirrored(keys[KeyToBolt(key) := i], keyToInode[key := i])
  {
  }

  lemma MirrorDrop(keys: map<string, U64>, keyToInode: map<string, U64>, key: string)
    requires KeysMirrored(keys, keyToInode) && key in keyToInode
    ensures KeysMirrored(keys - {KeyToBolt(key)}, keyToInode - {key})
  {
  }

  lemma CommittedKeysMirrored(s: Store, c: Call)
    requires KeysMirrored(s.db.keys, s.keyToInode) && Careful(s, c) && Writes(s, c)
    ensures KeysMirrored(Committed(s, c).db.keys, Committed(s, c).keyToInode)
  {
    hide KeysMirrored;
    match c
    case Create(key) => MirrorPut(s.db.keys, s.keyToInode, key, s.next);
    case Remove(key) => MirrorDrop(s.db.keys, s.keyToInode, key);
    case Rename(oldKey, newKey) =>
      MirrorDrop(s.db.keys, s.keyToInode, oldKey);
      MirrorPut(s.db.keys - {KeyToBolt(oldKey)}, s.keyToInode - {oldKey}, newKey, s.keyToInode[oldKey]);
  }

  lemma StepKeysMirrored(s: Store, c: Call, o: Outcome)
    requires Tidy(s) && KeysMirrored(s.db.keys, s.keyToInode) && (Durable(s, c, o) ==> Careful(s, c))
    ensures var t := Step(s, c, o); KeysMirrored(t.db.keys, t.keyToInode)
  {
    hide Tidy, Sound, KeysMirrored, Reopen;
    TidyRecovers(s);
    if Durable(s, c, o) {
      CommittedTidy(s, c);
      CommittedKeysMirrored(s, c);
      TidyRecovers(Committed(s, c));
    }
  }

  /** In every careful run the keys bucket holds exactly the inode of each key. */
  lemma {:induction false} KeysBucket(run: Run)
    requires CarefulRun(run)
    ensures KeysMirrored(After(run).db.keys, After(run).keyToInode)
    decreases |run|
  {
    hide KeysMirrored, Tidy, Careful, Durable;
    if run == [] {
      FreshKeys();
    } else {
      var before := run[..|run| - 1];
      forall n | 0 <= n < |before| && Durable(After(before[..n]), before[n].0, before[n].1)
        ensures Careful(After(before[..n]), before[n].0)
      {
        assert run[..n] == before[..n];
      }
      KeysBucket(before);
      CarefulRunTidy(before);
      StepKeysMirrored(After(before), run[|run| - 1].0, run[|run| - 1].1);
    }
  }

  lemma FreshKeys()
    ensures KeysMirrored(After([]).db.keys, After([]).keyToInode)
  {
    FreshTidy();
    var s := Reopen(Db(map[], map[], None));
    assert s.inodeToKey == map[ROOT_INODE := ""];
    assert s.keyToInode == map["" := ROOT_INODE] by {
      assert s.inodeToKey[ROOT_INODE] == "";
      LastWinsUnique(s.inodeToKey, s.keyToInode, map["" := ROOT_INODE]);
    }
  }

  /**
   * Crash recovery: at every point of every careful run the two maps are inverses, reopening the database
   * rebuilds exactly the in-memory maps, and the loaded counter is above every inode ever issued.
   */
  lemma {:induction false} CrashRecovery(run: Run)
    requires CarefulRun(run)
    ensures Inverse(After(run)) && Recoverable(After(run))
    ensures forall k :: 0 <= k < |Issued(run)| ==> Issued(run)[k] < Bound(Reopen(After(run).db).next)
  {
    CarefulRunTidy(run);
    TidyRecovers(After(run));
    RunSound(run);
  }

  /** The call is not about the key. */
  predicate Spares(c: Call, key: string) {
    match c
    case Create(_) => true
    case Remove(k) => k != key
    case Rename(oldKey, newKey) => oldKey != key && newKey != key
  }

  lemma StepSpares(s: Store, c: Call, o: Outcome, key: string)
    requires Tidy(s) && (Durable(s, c, o) ==> Careful(s, c)) && Spares(c, key) && key in s.keyToInode
    ensures key in Step(s, c, o).keyToInode && Step(s, c, o).keyToInode[key] == s.keyToInode[key]
  {
    hide KeyToBolt, BoltToKey, LastWins;
    TidyRecovers(s);
    if Writes(s, c) && Durable(s, c, o) {
      CommittedTidy(s, c);
      TidyRecovers(Committed(s, c));
      assert Committed(s, c).db == Written(s, c);
    }
  }

  /**
   * Over every careful run, with failed transactions, crashes and restarts, a key keeps its inode from any point on for
   * as long as no call removes it, renames it or renames another onto it.
   */
  lemma {:induction false} InodeKept(run: Run, n: nat, key: string)
    requires n <= |run| && CarefulRun(run) && key in After(run[..n]).keyToInode
    requires forall i :: n <= i < |run| ==> Spares(run[i].0, key)
    ensures key in After(run).keyToInode && After(run).keyToInode[key] == After(run[..n]).keyToInode[key]
    decreases |run|
  {
    hide Step, Careful, Durable, Spares;
    if n == |run| {
      assert run[..n] == run;
    } else {
      var before := run[..|run| - 1];
      CarefulPrefix(run);
      assert before[..n] == run[..n];
      InodeKept(before, n, key);
      CarefulRunTidy(before);
      StepSpares(After(before), run[|run| - 1].0, run[|run| - 1].1, key);
    }
  }

  lemma CarefulPrefix(run: Run)
    requires run != [] && CarefulRun(run)
    ensures CarefulRun(run[..|run| - 1])
    ensures var n := |run| - 1;
            Durable(After(run[..n]), run[n].0, run[n].1) ==> Careful(After(run[..n]), run[n].0)
  {
    hide After, Careful, Durable;
    var before := run[..|run| - 1];
    assert forall n :: 0 <= n < |before| ==> before[..n] == run[..n];
  }

  /**
   * Renaming onto a mapped key leaves that key's old inode behind, so the maps stay inverses exactly when the
   * target is unmapped or is the key itself.
   */
  lemma RenameKeepsInverseIff(s: Store, oldKey: string, newKey: string)
    requires Tidy(s) && oldKey in s.keyToInode
    ensures Inverse(Committed(s, Rename(oldKey, newKey))) <==> newKey !in s.keyToInode || newKey == oldKey
  {
    var t := Committed(s, Rename(oldKey, newKey));
    if newKey in s.keyToInode && newKey != oldKey {
      var stale := s.keyToInode[newKey];
      assert s.inodeToKey[stale] == newKey;
      assert t.inodeToKey[stale] == newKey && t.keyToInode[newKey] != stale;
    } else {
      forall i | i in t.inodeToKey
        ensures t.inodeToKey[i] in t.keyToInode && t.keyToInode[t.inodeToKey[i]] == i
      {
        assert i in s.inodeToKey && s.keyToInode[s.inodeToKey[i]] == i;
      }
      CommittedSound(s, Rename(oldKey, newKey));
    }
  }

  /**
   * After a rename onto a mapped key, a restart still finds the renamed file's inode exactly when that inode
   * is larger than the one left behind.
   */
  lemma RenameOntoMappedRecoversIff(s: Store, oldKey: string, newKey: string)
    requires Tidy(s) && oldKey in s.keyToInode && newKey in s.keyToInode && newKey != oldKey && newKey != "\0"
    ensures var t := Committed(s, Rename(oldKey, newKey));
            && newKey in Reopen(t.db).keyToInode
            && (Reopen(t.db).keyToInode[newKey] == t.keyToInode[newKey] <==> s.keyToInode[oldKey] > s.keyToInode[newKey])
  {
    var t := Committed(s, Rename(oldKey, newKey));
    var moved, stale := s.keyToInode[oldKey], s.keyToInode[newKey];
    assert s.inodeToKey[stale] == newKey && s.inodeToKey[moved] == oldKey;
    assert WithRoot(t.db) == t.db;
    var m := Decoded(t.db.inodes);
    assert m == t.inodeToKey by {
      assert forall i :: i in m ==> m[i] == t.inodeToKey[i];
    }
    var loaded := LoadedKeys(m);
    assert m[stale] == newKey && m[moved] == newKey;
    var top := loaded[newKey];
    assert m[top] == newKey;
    assert top == moved || s.keyToInode[s.inodeToKey[top]] == top;
  }

  /** The maps are inverses and a restart would rebuild them. */
  ghost predicate Safe(s: Store) {
    Inverse(s) && Recoverable(s)
  }

  lemma TidySafe(s: Store)
    requires Tidy(s)
    ensures Safe(s)
  {
    TidyRecovers(s);
  }

  /** The care is exactly what it takes: a transaction that commits leaves the store safe if and only if it was taken. */
  lemma CommitSafeIff(s: Store, c: Call)
    requires Tidy(s) && Writes(s, c)
    ensures Safe(Committed(s, c)) <==> Careful(s, c)
  {
    hide Recoverable;
    if Careful(s, c) {
      CommittedTidy(s, c);
      TidySafe(Committed(s, c));
    } else {
      match c
      case Create(key) => NulKeyLost(Committed(s, c), s.next);
      case Remove(key) => RootComesBack(Committed(s, c));
      case Rename(oldKey, newKey) =>
        if newKey == "\0" {
          NulKeyLost(Committed(s, c), s.keyToInode[oldKey]);
        } else {
          RenameKeepsInverseIff(s, oldKey, newKey);
        }
    }
  }

  /** A store that has the key "\0" for an inode loses it: a restart reads it as the root's key. */
  lemma NulKeyLost(s: Store, i: U64)
    requires i in s.inodeToKey && s.inodeToKey[i] == "\0" && i in s.db.inodes && s.db.inodes[i] == "\0"
    ensures !Recoverable(s)
  {
    assert i in WithRoot(s.db).inodes && WithRoot(s.db).inodes[i] == "\0";
    assert Reopen(s.db).inodeToKey[i] == "";
  }

  /** A store whose root was removed gets it back. */
  lemma RootComesBack(s: Store)
    requires ROOT_INODE !in s.inodeToKey && ROOT_INODE !in s.db.inodes
    ensures !Recoverable(s) && ROOT_INODE in Reopen(s.db).inodeToKey
  {
    assert ROOT_INODE in WithRoot(s.db).inodes;
  }

  /** The store is safe at every point of the run, those between a commit and a crash included. */
  ghost predicate AlwaysSafe(run: Run) {
    && (forall n :: 0 <= n <= |run| ==> Safe(After(run[..n])))
    && (forall n :: 0 <= n < |run| && Durable(After(run[..n]), run[n].0, run[n].1) ==>
          Safe(Committed(After(run[..n]), run[n].0)))
  }

  /** Over every run: the store is safe at every point if and only if each transaction that reached the disk was careful. */
  lemma {:induction false} AlwaysSafeIff(run: Run)
    ensures AlwaysSafe(run) <==> CarefulRun(run)
  {
    hide Safe, Careful;
    if CarefulRun(run) {
      forall n | 0 <= n <= |run| ensures Tidy(After(run[..n])) && Safe(After(run[..n])) {
        PrefixTidy(run, n);
        TidySafe(After(run[..n]));
      }
      forall n | 0 <= n < |run| && Durable(After(run[..n]), run[n].0, run[n].1)
        ensures Safe(Committed(After(run[..n]), run[n].0))
      {
        CommitSafeIff(After(run[..n]), run[n].0);
      }
    }
    if AlwaysSafe(run) {
      forall n | 0 <= n < |run| && Durable(After(run[..n]), run[n].0, run[n].1) ensures Careful(After(run[..n]), run[n].0) {
        SafePrefixTidy(run, n);
        CommitSafeIff(After(run[..n]), run[n].0);
      }
    }
  }

  lemma {:induction false} PrefixTidy(run: Run, n: nat)
    requires n <= |run| && CarefulRun(run)
    ensures Tidy(After(run[..n]))
  {
    hide Tidy, Careful, Durable;
    forall m | 0 <= m < n && Durable(After(run[..n][..m]), run[..n][m].0, run[..n][m].1)
      ensures Careful(After(run[..n][..m]), run[..n][m].0)
    {
      assert run[..n][..m] == run[..m];
    }
    CarefulRunTidy(run[..n]);
  }

  lemma {:induction false} SafePrefixTidy(run: Run, n: nat)
    requires n <= |run| && AlwaysSafe(run)
    ensures Tidy(After(run[..n]))
    decreases n
  {
    hide Tidy, Careful, Durable, Safe;
    if n == 0 {
      assert run[..n] == [];
      FreshTidy();
    } else {
      SafePrefixTidy(run, n - 1);
      var s, c, o := After(run[..n - 1]), run[n - 1].0, run[n - 1].1;
      assert run[..n][..n - 1] == run[..n - 1];
      assert Durable(s, c, o) ==> Careful(s, c) by {
        if Durable(s, c, o) {
          DurableWrites(s, c, o);
          CommitSafeIff(s, c);
        }
      }
      StepTidy(s, c, o);
    }
  }

  lemma DurableWrites(s: Store, c: Call, o: Outcome)
    requires Durable(s, c, o)
    ensures Writes(s, c)
  {
  }

  /** The key "\0" is stored as the root: after a restart the root's key leads to its inode. */
  lemma NulKeyTakesTheRoot()
    ensures var run := [(Create("\0"), CrashesAfterCommit)];
            && "" in After(run).keyToInode && After(run).keyToInode[""] == 2
            && InodeToHandle(2) != InodeToHandle(ROOT_INODE)
  {
    var run := [(Create("\0"), CrashesAfterCommit)];
    FreshTidy();
    assert run[..0] == [];
    var s := After([]);
    assert s.inodeToKey.Keys == {ROOT_INODE};
    assert "\0" !in s.keyToInode;
    var d := Written(s, Create("\0"));
    var t := Reopen(d);
    assert t.inodeToKey[2] == "" && t.inodeToKey.Keys == {1, 2};
    HandleRoundTrip(2, []);
    HandleRoundTrip(1, []);
  }
}
