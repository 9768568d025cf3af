/**
 * The S3 bucket behind the gateway (the calls of internal/s3/interface.go) and the POSIX attributes kept in user
 * metadata (internal/s3fs/attrs.go). A call that fails changes nothing.
 */
module Storage {
  import opened Base
  import opened Paths

  type Bytes = seq<Byte>
  type Meta = map<string, string>

  // ----- Modes -----

  const MODE_DIR: nat := 0x8000_0000
  const DEFAULT_FILE_MODE: nat := 420 // 0644
  const DEFAULT_DIR_MODE: nat := 493 // 0755
  const DEFAULT_ID: nat := 1000

  /** strconv.FormatUint for bases up to ten. */
  function Format(n: nat, base: nat): (s: string)
    requires 2 <= base <= 10
    ensures s != ""
  {
    var digit := [(n % base + '0' as int) as char];
    if n < base then digit else Format(n / base, base) + digit
  }

  /** The numbers strings of digits stand for. */
  function OctalValue(s: string): Option<nat> {
    if s == "" then Some(0)
    else
      var front, c := OctalValue(s[..|s| - 1]), s[|s| - 1];
      if front.None? || !('0' <= c <= '7') then None
      else Some(front.value * 8 + (c as int - '0' as int))
  }

  function DecimalValue(s: string): Option<nat> {
    if s == "" then Some(0)
    else
      var front, c := DecimalValue(s[..|s| - 1]), s[|s| - 1];
      if front.None? || !('0' <= c <= '9') then None
      else Some(front.value * 10 + (c as int - '0' as int))
  }

  /** strconv.ParseUint(s, 8, 32). */
  function ParseOctal(s: string): Option<nat> {
    var v := OctalValue(s);
    if s == "" || v.None? || v.value >= 0x1_0000_0000 then None else v
  }

  /** Format gives the numeral of the number: it reads back, and it has no leading zero. */
  lemma {:induction false} OctalRoundTrip(n: nat)
    ensures OctalValue(Format(n, 8)) == Some(n)
    ensures n > 0 ==> Format(n, 8)[0] != '0'
  {
    var s := Format(n, 8);
    if n < 8 {
      assert s[..|s| - 1] == "";
    } else {
      OctalRoundTrip(n / 8);
      assert s[..|s| - 1] == Format(n / 8, 8);
    }
  }

  lemma {:induction false} DecimalRoundTrip(n: nat)
    ensures DecimalValue(Format(n, 10)) == Some(n)
    ensures n > 0 ==> Format(n, 10)[0] != '0'
  {
    var s := Format(n, 10);
    if n < 10 {
      assert s[..|s| - 1] == "";
    } else {
      DecimalRoundTrip(n / 10);
      assert s[..|s| - 1] == Format(n / 10, 10);
    }
  }

  /** Exactly the strings of octal digits have an octal value. */
  lemma {:induction false} ParsesOctalDigits(s: string)
    ensures OctalValue(s).Some? <==> forall i :: 0 <= i < |s| ==> '0' <= s[i] <= '7'
  {
    if s == "" {
    } else {
      ParsesOctalDigits(s[..|s| - 1]);
      assert forall i :: 0 <= i < |s| - 1 ==> s[i] == s[..|s| - 1][i];
    }
  }

  /**
   * A stored mode parses exactly if it is a numeral of octal digits, leading zeros allowed, for a number of 32 bits; so
   * every such number that is formatted reads back.
   */
  lemma OctalParses(s: string, n: nat)
    ensures ParseOctal(s).Some? <==>
            && |s| > 0 && (forall i :: 0 <= i < |s| ==> '0' <= s[i] <= '7')
            && (OctalValue(s).Some? ==> OctalValue(s).value < 0x1_0000_0000)
    ensures n < 0x1_0000_0000 ==> ParseOctal(Format(n, 8)) == Some(n)
    ensures ParseOctal("0" + s) == if s == "" then Some(0) else ParseOctal(s)
  {
    ParsesOctalDigits(s);
    OctalRoundTrip(n);
    LeadingZero(s);
  }

  lemma {:induction false} LeadingZero(s: string)
    ensures OctalValue("0" + s) == OctalValue(s)
  {
    if s == "" {
      assert "0" + s == "0" && "0"[..0] == "";
    } else {
      LeadingZero(s[..|s| - 1]);
      assert ("0" + s)[..|s|] == "0" + s[..|s| - 1];
    }
  }

  function WithDirBit(mode: nat): nat {
    if mode >= MODE_DIR then mode else mode + MODE_DIR
  }

  function ParseMode(meta: Meta, isDir: bool): nat {
    var parsed := if "Mode" in meta then ParseOctal(meta["Mode"]) else None;
    if parsed.Some? then (if isDir then WithDirBit(parsed.value) else parsed.value)
    else if isDir then MODE_DIR + DEFAULT_DIR_MODE
    else DEFAULT_FILE_MODE
  }

  function PosixMetadata(uid: nat, gid: nat, mode: nat): Meta {
    map["Uid" := Format(uid, 10), "Gid" := Format(gid, 10), "Mode" := Format(mode % 512, 8)]
  }

  /** The permission bits written to metadata are the ones read back. */
  lemma ModeRoundTrip(meta: Meta, mode: nat)
    requires "Mode" in meta && meta["Mode"] == Format(mode % 512, 8)
    ensures ParseMode(meta, false) == mode % 512
    ensures ParseMode(meta, true) == 0x8000_0000 + mode % 512
  {
    OctalRoundTrip(mode % 512);
  }

  /** The ids and the mode posixMetadata stores are the ones it was given. */
  lemma AttributesReadBack(uid: nat, gid: nat, mode: nat)
    ensures var meta := PosixMetadata(uid, gid, mode);
            && meta.Keys == {"Uid", "Gid", "Mode"}
            && DecimalValue(meta["Uid"]) == Some(uid) && DecimalValue(meta["Gid"]) == Some(gid)
            && ParseMode(meta, false) == mode % 512
  {
    DecimalRoundTrip(uid);
    DecimalRoundTrip(gid);
    ModeRoundTrip(PosixMetadata(uid, gid, mode), mode);
  }

  /** Any mode of 32 bits that is stored as an octal numeral is the mode of the file. */
  lemma StoredModeReads(meta: Meta, n: nat)
    requires n < 0x1_0000_0000 && "Mode" in meta && meta["Mode"] == Format(n, 8)
    ensures ParseMode(meta, false) == n
    ensures ParseMode(meta, true) == if n < 0x8000_0000 then n + 0x8000_0000 else n
  {
    OctalParses("", n);
  }

  /** A stored mode that parses is the mode, with bit 31 set for a directory; otherwise 0644 or 0755 stands in. */
  lemma ModeOf(meta: Meta, isDir: bool)
    ensures var stored := if "Mode" in meta then ParseOctal(meta["Mode"]) else None;
            if stored.None? then
              ParseMode(meta, isDir) == if isDir then 0x8000_0000 + 7 * 64 + 5 * 8 + 5 else 6 * 64 + 4 * 8 + 4
            else if !isDir then
              ParseMode(meta, isDir) == stored.value
            else
              && 0x8000_0000 <= ParseMode(meta, isDir) < 0x1_0000_0000
              && ParseMode(meta, isDir) % 0x8000_0000 == stored.value % 0x8000_0000
  {
  }

  /** The mode of a symbolic link. */
  lemma LinkMode(meta: Meta)
    requires "Mode" in meta && meta["Mode"] == "0777"
    ensures ParseMode(meta, false) == 7 * 64 + 7 * 8 + 7
  {
    var s := "0777";
    assert s[..3] == "077" && s[..3][..2] == "07" && "07"[..1] == "0" && "0"[..0] == "";
    assert OctalValue("0") == Some(0);
    assert OctalValue("07") == Some(7);
    assert OctalValue("077") == Some(63);
    assert OctalValue(s) == Some(511);
  }

  // ----- The bucket -----

  datatype Object = Object(data: Bytes, meta: Meta, modified: int)

  datatype ListEntry = ListEntry(key: string, size: nat, modified: int, isDir: bool)

  /** The calls an operation may make; a set of these names the ones that fail. */
  datatype S3Call =
    | Head(key: string)
    | Get(key: string)
    | Put(key: string)
    | Delete(key: string)
    | Copy(src: string, dst: string)
    | Rewrite(key: string)
    | List(prefix: string)

  type Objects = map<string, Object>

  /** What is left of a key after a prefix has no inner slash: the key itself is listed, not a common prefix. */
  predicate Direct(prefix: string, key: string) {
    prefix <= key && '/' !in key[|prefix|..]
  }

  /** The common prefix that stands for a deeper key. */
  function CommonPrefix(prefix: string, key: string): string
    requires prefix <= key && !Direct(prefix, key)
  {
    key[..|prefix| + FirstSlash(key[|prefix|..]) + 1]
  }

  predicate IsObjectEntry(objects: Objects, prefix: string, e: ListEntry) {
    && e.key in objects && Direct(prefix, e.key)
    && e.size == |objects[e.key].data| && e.modified == objects[e.key].modified
    && e.isDir == (e.size == 0 && HasSlashSuffix(e.key))
  }

  ghost predicate IsPrefixEntry(objects: Objects, prefix: string, e: ListEntry) {
    && e.size == 0 && e.modified == 0 && e.isDir
    && exists k :: k in objects && prefix <= k && !Direct(prefix, k) && e.key == CommonPrefix(prefix, k)
  }

  /** The key under which an object shows in a listing. */
  function ListedAs(prefix: string, k: string): string
    requires prefix <= k
  {
    if Direct(prefix, k) then k else CommonPrefix(prefix, k)
  }

  ghost predicate Stands(prefix: string, k: string, e: ListEntry) {
    prefix <= k && e.key == ListedAs(prefix, k)
  }

  ghost predicate DistinctEntries(entries: seq<ListEntry>) {
    forall i, j :: 0 <= i < j < |entries| ==> entries[i].key != entries[j].key
  }

  /** A listing with delimiter "/": the direct objects and one entry for each common prefix. */
  ghost predicate IsListing(objects: Objects, prefix: string, entries: seq<ListEntry>) {
    && DistinctEntries(entries)
    && (forall i :: 0 <= i < |entries| ==>
          IsObjectEntry(objects, prefix, entries[i]) || IsPrefixEntry(objects, prefix, entries[i]))
    && (forall k :: k in objects && prefix <= k ==>
          exists i :: 0 <= i < |entries| && Stands(prefix, k, entries[i]))
  }

  lemma CommonPrefixShape(prefix: string, key: string)
    requires prefix <= key && !Direct(prefix, key)
    ensures HasSlashSuffix(CommonPrefix(prefix, key)) && CommonPrefix(prefix, key) <= key
  {
    var rest := key[|prefix|..];
    var i := FirstSlash(rest);
    assert i < |rest|;
    assert key[|prefix| + i] == rest[i];
  }

  lemma CommonPrefixNotDirect(prefix: string, key: string)
    requires prefix <= key && !Direct(prefix, key)
    ensures prefix <= CommonPrefix(prefix, key) && !Direct(prefix, CommonPrefix(prefix, key))
  {
    var rest, cut := key[|prefix|..], CommonPrefix(prefix, key);
    assert cut[|prefix|..][FirstSlash(rest)] == '/';
  }

  /** A listed key without a trailing slash is an object, with the object's size. */
  lemma ListedFile(objects: Objects, prefix: string, entries: seq<ListEntry>, i: nat)
    requires IsListing(objects, prefix, entries) && i < |entries| && !HasSlashSuffix(entries[i].key)
    ensures IsObjectEntry(objects, prefix, entries[i]) && !entries[i].isDir
  {
    var e := entries[i];
    if IsPrefixEntry(objects, prefix, e) {
      var k :| k in objects && prefix <= k && !Direct(prefix, k) && e.key == CommonPrefix(prefix, k);
      CommonPrefixShape(prefix, k);
    }
  }

  /** Every object that is a file of the directory `prefix` is listed. */
  lemma FileIsListed(objects: Objects, prefix: string, entries: seq<ListEntry>, k: string) returns (i: nat)
    requires IsListing(objects, prefix, entries) && IsDirPrefix(prefix)
    requires k in objects && k != "" && !HasSlashSuffix(k) && ParentPrefix(k) == prefix
    ensures i < |entries| && entries[i].key == k
  {
    NameOfFile(k);
    ListedUnderParentOnly(prefix, k);
    var rest := k[|prefix|..];
    assert k[|k| - 1] == rest[|rest| - 1];
    assert Direct(prefix, k);
    i :| 0 <= i < |entries| && Stands(prefix, k, entries[i]);
  }

  class Bucket {
    var objects: Objects

    constructor ()
      ensures objects == map[]
    {
      objects := map[];
    }

    /** The store refuses an empty key. */
    ghost predicate Valid()
      reads this
    {
      "" !in objects
    }

    function HeadObject(key: string, down: set<S3Call>): (r: Option<Object>)
      reads this
    {
      if Head(key) in down || key !in objects then None else Some(objects[key])
    }

    function GetObject(key: string, down: set<S3Call>): (r: Option<Object>)
      reads this
    {
      if Get(key) in down || key !in objects then None else Some(objects[key])
    }

    /** PutObject and CreateDirMarker. */
    method PutObject(key: string, data: Bytes, meta: Meta, now: int, down: set<S3Call>) returns (ok: bool)
      modifies this
      ensures ok <==> key != "" && Put(key) !in down
      ensures objects == if ok then old(objects)[key := Object(data, meta, now)] else old(objects)
    {
      ok := key != "" && Put(key) !in down;
      if ok {
        objects := objects[key := Object(data, meta, now)];
      }
    }

    /** Deleting what does not exist succeeds. */
    method DeleteObject(key: string, down: set<S3Call>) returns (ok: bool)
      modifies this
      ensures ok <==> Delete(key) !in down
      ensures objects == if ok then old(objects) - {key} else old(objects)
    {
      ok := Delete(key) !in down;
      if ok {
        objects := objects - {key};
      }
    }

    method CopyObject(src: string, dst: string, now: int, down: set<S3Call>) returns (ok: bool)
      modifies this
      ensures ok <==> src in old(objects) && dst != "" && Copy(src, dst) !in down
      ensures ok ==> objects == old(objects)[dst := old(objects)[src].(modified := now)]
      ensures !ok ==> objects == old(objects)
    {
      ok := src in objects && dst != "" && Copy(src, dst) !in down;
      if ok {
        objects := objects[dst := objects[src].(modified := now)];
      }
    }

    /** CopyObjectWithMetadata: the object copied onto itself with new metadata. */
    method RewriteMetadata(key: string, meta: Meta, now: int, down: set<S3Call>) returns (ok: bool)
      modifies this
      ensures ok <==> key in old(objects) && Rewrite(key) !in down
      ensures ok ==> objects == old(objects)[key := Object(old(objects)[key].data, meta, now)]
      ensures !ok ==> objects == old(objects)
    {
      ok := key in objects && Rewrite(key) !in down;
      if ok {
        objects := objects[key := Object(objects[key].data, meta, now)];
      }
    }

    method ListObjects(prefix: string, down: set<S3Call>) returns (r: Option<seq<ListEntry>>)
      ensures r.None? <==> List(prefix) in down
      ensures r.Some? ==> IsListing(objects, prefix, r.value)
    {
      if List(prefix) in down {
        return None;
      }
      var entries: seq<ListEntry> := [];
      var todo := objects.Keys;
      while todo != {}
        invariant todo <= objects.Keys && PartListing(objects, prefix, objects.Keys - todo, entries)
        decreases todo
      {
        hide PartListing, EntryOf;
        var k :| k in todo;
        PartListed(objects, prefix, objects.Keys - todo, entries, k);
        if prefix <= k && EntryOf(objects, prefix, k) !in entries {
          entries := entries + [EntryOf(objects, prefix, k)];
        }
        assert objects.Keys - (todo - {k}) == objects.Keys - todo + {k};
        todo := todo - {k};
      }
      AllListed(objects, prefix, entries);
      return Some(entries);
    }
  }

  /** The entry that stands for an object in a listing. */
  function EntryOf(objects: Objects, prefix: string, k: string): ListEntry
    requires k in objects && prefix <= k
  {
    if Direct(prefix, k) then
      ListEntry(k, |objects[k].data|, objects[k].modified, |objects[k].data| == 0 && HasSlashSuffix(k))
    else ListEntry(CommonPrefix(prefix, k), 0, 0, true)
  }

  /** The entries of the objects in `done`, each once. */
  ghost predicate PartListing(objects: Objects, prefix: string, done: set<string>, entries: seq<ListEntry>)
    requires done <= objects.Keys
  {
    && DistinctEntries(entries)
    && (forall e :: e in entries ==> exists k :: k in done && prefix <= k && e == EntryOf(objects, prefix, k))
    && (forall k :: k in done && prefix <= k ==> EntryOf(objects, prefix, k) in entries)
  }

  /** Entries under one key are one entry. */
  lemma EntriesApart(objects: Objects, prefix: string, j: string, k: string)
    requires j in objects && prefix <= j && k in objects && prefix <= k
    requires EntryOf(objects, prefix, j).key == EntryOf(objects, prefix, k).key
    ensures EntryOf(objects, prefix, j) == EntryOf(objects, prefix, k)
  {
    hide CommonPrefix;
    if !Direct(prefix, j) {
      CommonPrefixNotDirect(prefix, j);
    }
    if !Direct(prefix, k) {
      CommonPrefixNotDirect(prefix, k);
    }
  }

  lemma PartListed(objects: Objects, prefix: string, done: set<string>, entries: seq<ListEntry>, k: string)
    requires done <= objects.Keys && k in objects && PartListing(objects, prefix, done, entries)
    ensures PartListing(objects, prefix, done + {k},
                        if prefix <= k && EntryOf(objects, prefix, k) !in entries
                        then entries + [EntryOf(objects, prefix, k)] else entries)
  {
    hide EntryOf;
    if prefix <= k && EntryOf(objects, prefix, k) !in entries {
      var e := EntryOf(objects, prefix, k);
      forall i | 0 <= i < |entries| ensures entries[i].key != e.key {
        assert entries[i] in entries;
        var j :| j in done && prefix <= j && entries[i] == EntryOf(objects, prefix, j);
        if entries[i].key == e.key {
          EntriesApart(objects, prefix, j, k);
        }
      }
      assert DistinctEntries(entries + [e]);
    }
  }

  lemma AllListed(objects: Objects, prefix: string, entries: seq<ListEntry>)
    requires PartListing(objects, prefix, objects.Keys, entries)
    ensures IsListing(objects, prefix, entries)
  {
    hide CommonPrefix, Direct;
    forall i | 0 <= i < |entries|
      ensures IsObjectEntry(objects, prefix, entries[i]) || IsPrefixEntry(objects, prefix, entries[i])
    {
      assert entries[i] in entries;
    }
    forall k | k in objects && prefix <= k ensures exists i :: 0 <= i < |entries| && Stands(prefix, k, entries[i]) {
      var i :| 0 <= i < |entries| && entries[i] == EntryOf(objects, prefix, k);
      assert Stands(prefix, k, entries[i]);
    }
  }
}
