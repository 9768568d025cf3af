/**
 * Extended attributes kept in S3 user metadata (internal/s3fs/xattr.go), with the CREATE, REPLACE and EITHER
 * semantics of sections 8.4.1 to 8.4.4 of RFC 8276.
 */
module Xattrs {
  import opened Base
  import opened Codecs

  type Meta = map<string, string>

  const PREFIX := "Xattr-"
  const VALUE_MAX := 2048
  const TOTAL_MAX := 6144

  datatype XError = Invalid | Exists | NotExist

  datatype XResult<+T> = Ok(value: T) | Err(error: XError)

  // ----- Names -----

  const RESERVED: seq<string> := ["user.", "trusted.", "security.", "system."]

  /** A wire name: not empty, and without a namespace prefix. */
  predicate ValidName(name: Bytes) {
    name != [] && forall i :: 0 <= i < |RESERVED| ==> !(RESERVED[i] <= name)
  }

  function SlotKey(name: Bytes): string {
    PREFIX + HexEncode(name)
  }

  /** xattrMetaKey. */
  function MetaKey(name: Bytes): XResult<string> {
    if ValidName(name) then Ok(SlotKey(name)) else Err(Invalid)
  }

  /** shortFromMetaKey: the name a metadata key holds, if it is an xattr slot. */
  function ShortName(key: string): Option<Bytes> {
    if |key| <= |PREFIX| then None
    else if !EqualFold(key[..|PREFIX|], PREFIX) then None
    else HexDecode(key[|PREFIX|..])
  }

  predicate IsSlot(key: string) {
    ShortName(key).Some?
  }

  /** A name comes back from its slot whatever a server has made of the case of each letter of the key. */
  lemma NameSurvivesCase(name: Bytes, key: string)
    requires name != [] && Alike(key, "Xattr-" + HexEncode(name))
    ensures ShortName(key) == Some(name)
  {
    EqualFoldIsAlike(key, SlotKey(name));
    NameUnderFold(name, key);
  }

  lemma NameUnderFold(name: Bytes, key: string)
    requires name != [] && EqualFold(key, SlotKey(name))
    ensures ShortName(key) == Some(name)
  {
    var slot := SlotKey(name);
    forall i | 0 <= i < 6 ensures Fold(key[..6][i]) == Fold(PREFIX[i]) {
      assert slot[i] == PREFIX[i];
    }
    forall i | 0 <= i < |key| - 6 ensures Fold(key[6..][i]) == Fold(HexEncode(name)[i]) {
      assert slot[i + 6] == HexEncode(name)[i];
    }
    HexRoundTrip(name, key[6..]);
  }

  /** Distinct names never match each other's slots, not even case-insensitively. */
  lemma NamesApart(a: Bytes, b: Bytes)
    requires a != [] && b != [] && EqualFold(SlotKey(a), SlotKey(b))
    ensures a == b
  {
    NameUnderFold(b, SlotKey(a));
    NameUnderFold(a, SlotKey(a));
  }

  /** A metadata key holds a name, never the empty one, exactly if it is the name's slot but for the case of letters. */
  lemma SlotSpellings(key: string, name: Bytes)
    ensures ShortName(key) == Some(name) <==> name != [] && EqualFold(key, SlotKey(name))
    ensures ShortName(key) == Some(name) <==> name != [] && Alike(key, "Xattr-" + HexEncode(name))
  {
    EqualFoldIsAlike(key, SlotKey(name));
    if name != [] && EqualFold(key, SlotKey(name)) {
      NameUnderFold(name, key);
    }
    if ShortName(key) == Some(name) {
      HexSpelling(key[|PREFIX|..], name);
      assert key == key[..|PREFIX|] + key[|PREFIX|..];
      assert name != [] by {
        assert |HexEncode(name)| == |key[|PREFIX|..]| > 0;
      }
    }
  }

  // ----- The slots of a metadata map -----

  /** Some key of `meta` matches `slot` case-insensitively. */
  predicate HasSlot(meta: Meta, slot: string) {
    exists k :: k in meta && EqualFold(k, slot)
  }

  /** findXattr: an exact match first, otherwise the first match the map iteration meets. */
  method FindXattr(meta: Meta, slot: string) returns (r: Option<string>)
    ensures r.Some? <==> HasSlot(meta, slot)
    ensures slot in meta ==> r == Some(meta[slot])
    ensures r.Some? ==> exists k :: k in meta && EqualFold(k, slot) && meta[k] == r.value
  {
    if slot in meta {
      assert EqualFold(slot, slot);
      return Some(meta[slot]);
    }
    var todo := meta.Keys;
    while todo != {}
      invariant todo <= meta.Keys
      invariant forall k :: k in meta && k !in todo ==> !EqualFold(k, slot)
      decreases todo
    {
      var k :| k in todo;
      if EqualFold(k, slot) {
        return Some(meta[k]);
      }
      todo := todo - {k};
    }
    return None;
  }

  function Weight(key: string, value: string): nat {
    if IsSlot(key) then |key| + |value| else 0
  }

  /** The encoded size of all slots. */
  ghost function Total(meta: Meta): nat
    decreases meta.Keys
  {
    if meta == map[] then 0
    else
      var k :| k in meta;
      Weight(k, meta[k]) + Total(meta - {k})
  }

  /** The total is the same whichever key is counted first. */
  lemma {:induction false} TotalSplit(meta: Meta, key: string)
    requires key in meta
    ensures Total(meta) == Weight(key, meta[key]) + Total(meta - {key})
    decreases meta.Keys
  {
    hide Weight;
    var k :| k in meta && Total(meta) == Weight(k, meta[k]) + Total(meta - {k});
    if k != key {
      var both := meta - {k} - {key};
      assert meta - {key} - {k} == both;
      TotalSplit(meta - {k}, key);
      TotalSplit(meta - {key}, k);
    }
  }

  lemma {:induction false} TotalOfFewer(meta: Meta, gone: set<string>)
    ensures Total(meta - gone) <= Total(meta)
    decreases gone
  {
    if gone == {} {
      assert meta - gone == meta;
    } else {
      var k :| k in gone;
      TotalOfFewer(meta, gone - {k});
      var rest := meta - (gone - {k});
      assert meta - gone == rest - {k};
      if k in rest {
        TotalSplit(rest, k);
      } else {
        assert rest - {k} == rest;
      }
    }
  }

  /**
   * Every key that is a slot counts with its length and that of its value, whatever its case, and no other key does: so
   * the total is determined key by key.
   */
  lemma TotalOneKey(meta: Meta, key: string)
    requires key in meta
    ensures Total(map[]) == 0
    ensures Total(meta) == Total(meta - {key}) + (if ShortName(key).Some? then |key| + |meta[key]| else 0)
  {
    TotalSplit(meta, key);
  }

  /** totalXattrBytes. */
  method TotalXattrBytes(meta: Meta) returns (total: nat)
    ensures total == Total(meta)
    ensures meta == map[] ==> total == 0
    ensures forall key :: key in meta ==>
              total == Total(meta - {key}) + (if ShortName(key).Some? then |key| + |meta[key]| else 0)
  {
    total := 0;
    var rest := meta;
    while rest.Keys != {}
      invariant total + Total(rest) == Total(meta)
      decreases rest.Keys
    {
      var k :| k in rest.Keys;
      TotalSplit(rest, k);
      if ShortName(k).Some? {
        total := total + |k| + |rest[k]|;
      }
      rest := rest - {k};
    }
    assert rest == map[];
    forall key | key in meta
      ensures total == Total(meta - {key}) + (if ShortName(key).Some? then |key| + |meta[key]| else 0)
    {
      TotalOneKey(meta, key);
    }
  }

  // ----- Operations on metadata -----

  /** SetXattr on the metadata: the new metadata, or the error. */
  ghost function SetResult(meta: Meta, name: Bytes, value: Bytes, option: int): XResult<Meta> {
    if |value| > VALUE_MAX then Err(Invalid)
    else if MetaKey(name).Err? then Err(Invalid)
    else
      var slot := SlotKey(name);
      if option == 1 && HasSlot(meta, slot) then Err(Exists)
      else if option == 2 && !HasSlot(meta, slot) then Err(NotExist)
      else if option != 0 && option != 1 && option != 2 then Err(Invalid)
      else
        var meta' := meta[slot := Base64Encode(value)];
        if Total(meta') > TOTAL_MAX then Err(Invalid) else Ok(meta')
  }

  /** RemoveXattr on the metadata: every key that matches the slot goes. */
  ghost function RemoveResult(meta: Meta, name: Bytes): XResult<Meta> {
    if MetaKey(name).Err? then Err(Invalid)
    else if !HasSlot(meta, SlotKey(name)) then Err(NotExist)
    else Ok(map k | k in meta && !EqualFold(k, SlotKey(name)) :: meta[k])
  }

  /** GetXattr on the metadata; a value that is not base64 reads as absent. */
  function Read(found: Option<string>): XResult<Bytes> {
    if found.None? then Err(NotExist)
    else
      var d := Base64Decode(found.value);
      if d.None? then Err(NotExist) else Ok(d.value)
  }

  /** A wire name, spelled out: not empty, and without one of the four namespaces in front. */
  predicate WireName(name: Bytes) {
    && |name| > 0
    && !("user." <= name) && !("trusted." <= name) && !("security." <= name) && !("system." <= name)
  }

  lemma ValidNames(name: Bytes)
    ensures ValidName(name) <==> WireName(name)
  {
    assert RESERVED[0] == "user." && RESERVED[1] == "trusted." && RESERVED[2] == "security." && RESERVED[3] == "system.";
  }

  /**
   * A set is taken exactly for a value of at most 2048 bytes, a wire name, an option of 0 to 2 with create and replace
   * as the slot is there or not, and a total of at most 6144 bytes; and exactly when it fails otherwise than as invalid.
   */
  lemma SetTakenIff(meta: Meta, name: Bytes, value: Bytes, option: int)
    ensures var r := SetResult(meta, name, value, option);
            var there := HasSlot(meta, "Xattr-" + HexEncode(name));
            var asked := |value| <= 2048 && WireName(name);
            && (r.Ok? <==> && asked && 0 <= option <= 2 && (option == 1 ==> !there) && (option == 2 ==> there)
                           && Total(meta["Xattr-" + HexEncode(name) := Base64Encode(value)]) <= 6144)
            && (r == Err(Exists) <==> asked && option == 1 && there)
            && (r == Err(NotExist) <==> asked && option == 2 && !there)
  {
    hide Total, HexEncode, Base64Encode;
    ValidNames(name);
  }

  /** A set that is taken reads back, and touches no other key. */
  lemma SetReadsBack(meta: Meta, name: Bytes, value: Bytes, option: int)
    ensures var r := SetResult(meta, name, value, option);
            r.Ok? ==>
              && SlotKey(name) in r.value && Read(Some(r.value[SlotKey(name)])) == Ok(value)
              && r.value - {SlotKey(name)} == meta - {SlotKey(name)}
  {
    hide Total, HexEncode, Base64Encode, Base64Decode;
    Base64RoundTrip(value);
  }

  /** A removal leaves no spelling of the slot, and every other key as it was; without one it fails. */
  lemma RemoveClears(meta: Meta, name: Bytes)
    ensures var r := RemoveResult(meta, name);
            && (r.Ok? ==> !HasSlot(r.value, SlotKey(name)) &&
                          forall k :: k in meta && !EqualFold(k, SlotKey(name)) ==> k in r.value && r.value[k] == meta[k])
            && (r.Ok? ==> r.value.Keys < meta.Keys)
            && (r == Err(NotExist) <==> ValidName(name) && !HasSlot(meta, SlotKey(name)))
            && (r == Err(Invalid) <==> !ValidName(name))
  {
    hide HexEncode, EqualFold;
    var r := RemoveResult(meta, name);
    if r.Ok? {
      var k :| k in meta && EqualFold(k, SlotKey(name));
      assert k !in r.value;
    }
  }

  /**
   * A stored value reads as absent exactly if, newlines apart, it is not groups of four base64 digits with at most two
   * "=" at the end.
   */
  lemma ReadsAbsentIff(stored: string)
    requires '\r' !in stored && '\n' !in stored
    ensures Read(Some(stored)) == Err(NotExist) <==> !WellPadded(stored)
    ensures forall a, b, c :: stored == a + b && (c == '\r' || c == '\n') ==> Read(Some(a + [c] + b)) == Read(Some(stored))
  {
    hide DecodeGroups, Base64Decode, WellPadded, WithoutNewlines;
    NewlinesSkipped("", '\r', stored);
    DecodesIff(stored);
    forall a, b, c | stored == a + b && (c == '\r' || c == '\n')
      ensures Read(Some(a + [c] + b)) == Read(Some(stored))
    {
      NewlinesSkipped(a, c, b);
    }
  }

  method SetMeta(meta: Meta, name: Bytes, value: Bytes, option: int) returns (r: XResult<Meta>)
    ensures r == SetResult(meta, name, value, option)
  {
    if |value| > VALUE_MAX {
      return Err(Invalid);
    }
    var key := MetaKey(name);
    if key.Err? {
      return Err(Invalid);
    }
    var found := FindXattr(meta, key.value);
    if option == 1 {
      if found.Some? {
        return Err(Exists);
      }
    } else if option == 2 {
      if found.None? {
        return Err(NotExist);
      }
    } else if option != 0 {
      return Err(Invalid);
    }
    var meta' := meta[key.value := Base64Encode(value)];
    var total := TotalXattrBytes(meta');
    if total > TOTAL_MAX {
      return Err(Invalid);
    }
    return Ok(meta');
  }

  method RemoveMeta(meta: Meta, name: Bytes) returns (r: XResult<Meta>)
    ensures r == RemoveResult(meta, name)
  {
    var key := MetaKey(name);
    if key.Err? {
      return Err(Invalid);
    }
    var found := FindXattr(meta, key.value);
    if found.None? {
      return Err(NotExist);
    }
    var left := meta;
    var todo := meta.Keys;
    while todo != {}
      invariant todo <= meta.Keys
      invariant left == map k | k in meta && (k in todo || !EqualFold(k, key.value)) :: meta[k]
      decreases todo
    {
      var k :| k in todo;
      if EqualFold(k, key.value) {
        left := left - {k};
      }
      todo := todo - {k};
    }
    assert left == RemoveResult(meta, name).value;
    return Ok(left);
  }

  /** The keys of `meta` that hold `name`. */
  ghost function Spellings(meta: Meta, name: Bytes): set<string> {
    set k | k in meta && ShortName(k) == Some(name)
  }

  /** They are the keys findXattr may match. */
  lemma SpellingsMatch(meta: Meta, name: Bytes)
    requires name != []
    ensures forall k :: k in Spellings(meta, name) <==> k in meta && EqualFold(k, SlotKey(name))
  {
    hide ShortName, EqualFold;
    forall k ensures ShortName(k) == Some(name) <==> EqualFold(k, SlotKey(name)) {
      SlotSpellings(k, name);
    }
  }

  /** ListXattrs: a name for each slot, in map order, so as often as the name is spelled. */
  method ListNames(meta: Meta) returns (names: seq<Bytes>)
    ensures forall n :: multiset(names)[n] == |Spellings(meta, n)|
  {
    hide ShortName;
    names := [];
    var todo := meta.Keys;
    ghost var done: set<string> := {};
    while todo != {}
      invariant todo <= meta.Keys && done == meta.Keys - todo
      invariant forall n :: multiset(names)[n] == |set k | k in done && ShortName(k) == Some(n)|
      decreases todo
    {
      var k :| k in todo;
      var short := ShortName(k);
      forall n ensures |set j | j in done + {k} && ShortName(j) == Some(n)| ==
                       |set j | j in done && ShortName(j) == Some(n)| + (if short == Some(n) then 1 else 0) {
        OneMoreSpelling(done, k, n);
      }
      if short.Some? {
        names := names + [short.value];
      }
      todo := todo - {k};
      done := done + {k};
    }
    forall n ensures multiset(names)[n] == |Spellings(meta, n)| {
      assert (set k | k in done && ShortName(k) == Some(n)) == Spellings(meta, n);
    }
  }

  lemma OneMoreSpelling(done: set<string>, key: string, name: Bytes)
    requires key !in done
    ensures |set j | j in done + {key} && ShortName(j) == Some(name)| ==
            |set j | j in done && ShortName(j) == Some(name)| + (if ShortName(key) == Some(name) then 1 else 0)
  {
    hide ShortName;
    var before := set j | j in done && ShortName(j) == Some(name);
    var after := set j | j in done + {key} && ShortName(j) == Some(name);
    if ShortName(key) == Some(name) {
      assert after == before + {key};
    } else {
      assert after == before;
    }
  }

  // ----- Refinement of a map from names to bytes -----

  /** Every slot is spelled as this gateway spells it: what a case-preserving backend gives back. */
  ghost predicate Canonical(meta: Meta) {
    forall k :: k in meta && IsSlot(k) ==> k == SlotKey(ShortName(k).value)
  }

  /** `meta` stores exactly the attributes of `attrs`, as far as valid names go. */
  ghost predicate Represents(meta: Meta, attrs: map<Bytes, Bytes>) {
    && Canonical(meta)
    && (forall n :: n in attrs ==> ValidName(n))
    && (forall n :: ValidName(n) ==> (n in attrs <==> SlotKey(n) in meta))
    && (forall n :: n in attrs ==> SlotKey(n) in meta && meta[SlotKey(n)] == Base64Encode(attrs[n]))
  }

  lemma SelfFold(s: string)
    ensures EqualFold(s, s)
  {
  }

  lemma SlotIsCanonical(name: Bytes)
    requires name != []
    ensures ShortName(SlotKey(name)) == Some(name)
  {
    SelfFold(SlotKey(name));
    NameUnderFold(name, SlotKey(name));
  }

  /** In canonical metadata a slot matches only itself. */
  lemma CanonicalMatch(meta: Meta, name: Bytes, key: string)
    requires Canonical(meta) && name != [] && key in meta
    ensures EqualFold(key, SlotKey(name)) <==> key == SlotKey(name)
  {
    SelfFold(key);
    if EqualFold(key, SlotKey(name)) {
      NameUnderFold(name, key);
    }
  }

  lemma CanonicalHasSlot(meta: Meta, name: Bytes)
    requires Canonical(meta) && name != []
    ensures HasSlot(meta, SlotKey(name)) <==> SlotKey(name) in meta
  {
    SelfFold(SlotKey(name));
    if HasSlot(meta, SlotKey(name)) {
      var k :| k in meta && EqualFold(k, SlotKey(name));
      CanonicalMatch(meta, name, k);
    }
  }

  /** Keys that are no slots are as before. */
  ghost predicate SameOtherMeta(a: Meta, b: Meta) {
    forall k :: !IsSlot(k) ==> (k in a <==> k in b) && (k in a && k in b ==> a[k] == b[k])
  }

  /** What a map from names to bytes answers to SETXATTR, the size limits apart. */
  function SetVerdict(attrs: map<Bytes, Bytes>, name: Bytes, option: int): Option<XError> {
    if !WireName(name) then Some(Invalid)
    else if option == 1 && name in attrs then Some(Exists)
    else if option == 2 && name !in attrs then Some(NotExist)
    else if option < 0 || option > 2 then Some(Invalid)
    else None
  }

  /** The slots whose names the gateway does not accept; nothing it does touches them. */
  ghost function Foreign(meta: Meta): Meta {
    map k | k in meta && IsSlot(k) && !ValidName(ShortName(k).value) :: meta[k]
  }

  /** The encoded size of a map from names to bytes. */
  ghost function Load(attrs: map<Bytes, Bytes>): nat
    decreases attrs.Keys
  {
    if attrs == map[] then 0
    else
      var n :| n in attrs;
      |SlotKey(n)| + |Base64Encode(attrs[n])| + Load(attrs - {n})
  }

  lemma {:induction false} TotalOfSlots(meta: Meta)
    ensures Total(map k | k in meta && IsSlot(k) :: meta[k]) == Total(meta)
    decreases meta.Keys
  {
    hide IsSlot;
    var slots: Meta := map k | k in meta && IsSlot(k) :: meta[k];
    if meta == map[] {
      assert slots == map[];
    } else {
      var key :| key in meta;
      var rest := meta - {key};
      TotalOfSlots(rest);
      TotalSplit(meta, key);
      var left: Meta := map k | k in rest && IsSlot(k) :: rest[k];
      if IsSlot(key) {
        TotalSplit(slots, key);
        assert slots - {key} == left;
      } else {
        assert slots == left;
      }
    }
  }

  /** The total is that of the attributes and of the foreign slots. */
  lemma {:induction false} TotalOfAttrs(meta: Meta, attrs: map<Bytes, Bytes>)
    requires Represents(meta, attrs)
    ensures Total(meta) == Load(attrs) + Total(Foreign(meta))
    decreases attrs.Keys
  {
    hide Total, SlotKey, Base64Encode, Represents, Foreign;
    if attrs == map[] {
      OnlyForeign(meta, attrs);
      TotalOfSlots(meta);
    } else {
      var n :| n in attrs && Load(attrs) == |SlotKey(n)| + |Base64Encode(attrs[n])| + Load(attrs - {n});
      OneFewer(meta, attrs, n);
      TotalOfAttrs(meta - {SlotKey(n)}, attrs - {n});
      TotalSplit(meta, SlotKey(n));
    }
  }

  lemma OnlyForeign(meta: Meta, attrs: map<Bytes, Bytes>)
    requires Represents(meta, attrs) && attrs == map[]
    ensures (map k | k in meta && IsSlot(k) :: meta[k]) == Foreign(meta)
  {
    hide HexEncode, Base64Encode, ShortName;
  }

  lemma OneFewer(meta: Meta, attrs: map<Bytes, Bytes>, name: Bytes)
    requires Represents(meta, attrs) && name in attrs
    ensures Represents(meta - {SlotKey(name)}, attrs - {name}) && Foreign(meta - {SlotKey(name)}) == Foreign(meta)
    ensures SlotKey(name) in meta && meta[SlotKey(name)] == Base64Encode(attrs[name]) && IsSlot(SlotKey(name))
  {
    hide HexEncode, Base64Encode, ShortName;
    SlotIsCanonical(name);
    forall x | ValidName(x) && SlotKey(x) == SlotKey(name) ensures x == name {
      SlotIsCanonical(x);
    }
  }

  lemma StoreKeepsForeign(meta: Meta, name: Bytes, value: Bytes)
    requires ValidName(name)
    ensures Foreign(meta[SlotKey(name) := Base64Encode(value)]) == Foreign(meta)
  {
    hide HexEncode, Base64Encode, ShortName;
    SlotIsCanonical(name);
  }

  lemma RemoveKeepsForeign(meta: Meta, name: Bytes)
    requires ValidName(name) && RemoveResult(meta, name).Ok?
    ensures Foreign(RemoveResult(meta, name).value) == Foreign(meta)
  {
    hide HexEncode, ShortName, EqualFold;
    forall k | EqualFold(k, SlotKey(name)) ensures ShortName(k) == Some(name) {
      NameUnderFold(name, k);
    }
  }

  /**
   * SetXattr refines the map: it fails as the map says it must, or for size, and otherwise stores the value, with
   * the metadata of other kinds untouched and the total within its limit.
   */
  lemma SetRefines(meta: Meta, attrs: map<Bytes, Bytes>, name: Bytes, value: Bytes, option: int)
    requires Represents(meta, attrs)
    ensures var r := SetResult(meta, name, value, option);
            if |value| > 2048 then r == Err(Invalid)
            else if SetVerdict(attrs, name, option).Some? then r == Err(SetVerdict(attrs, name, option).value)
            else if Load(attrs[name := value]) + Total(Foreign(meta)) > 6144 then r == Err(Invalid)
            else r.Ok? && Represents(r.value, attrs[name := value]) && SameOtherMeta(meta, r.value) &&
                 Foreign(r.value) == Foreign(meta) && Total(r.value) <= 6144
  {
    hide Total, HexEncode, Base64Encode, ShortName, SameOtherMeta, Represents, Foreign, Load, ValidName, WireName;
    ValidNames(name);
    if ValidName(name) {
      CanonicalHasSlotOf(meta, attrs, name);
      StoreRepresents(meta, attrs, name, value);
      StoreKeepsForeign(meta, name, value);
      TotalOfAttrs(meta[SlotKey(name) := Base64Encode(value)], attrs[name := value]);
    }
  }

  lemma CanonicalHasSlotOf(meta: Meta, attrs: map<Bytes, Bytes>, name: Bytes)
    requires Represents(meta, attrs) && ValidName(name)
    ensures HasSlot(meta, SlotKey(name)) <==> name in attrs
  {
    hide HexEncode, Base64Encode, ShortName;
    CanonicalHasSlot(meta, name);
  }

  lemma StoreRepresents(meta: Meta, attrs: map<Bytes, Bytes>, name: Bytes, value: Bytes)
    requires Represents(meta, attrs) && ValidName(name)
    ensures Represents(meta[SlotKey(name) := Base64Encode(value)], attrs[name := value])
    ensures SameOtherMeta(meta, meta[SlotKey(name) := Base64Encode(value)])
  {
    hide HexEncode, Base64Encode, ShortName;
    SlotIsCanonical(name);
    forall n | ValidName(n) && SlotKey(n) == SlotKey(name) ensures n == name {
      SlotIsCanonical(n);
    }
  }

  /** RemoveXattr refines the map, touches no other metadata and never makes the total grow. */
  lemma RemoveRefines(meta: Meta, attrs: map<Bytes, Bytes>, name: Bytes)
    requires Represents(meta, attrs)
    ensures var r := RemoveResult(meta, name);
            if !WireName(name) then r == Err(Invalid)
            else if name !in attrs then r == Err(NotExist)
            else r.Ok? && Represents(r.value, attrs - {name}) && SameOtherMeta(meta, r.value) &&
                 Foreign(r.value) == Foreign(meta) && Total(r.value) <= Total(meta)
  {
    hide Total, HexEncode, Base64Encode, ShortName;
    ValidNames(name);
    hide WireName;
    if ValidName(name) {
      CanonicalHasSlot(meta, name);
    }
    if ValidName(name) && name in attrs {
      RemoveKeepsForeign(meta, name);
      SlotIsCanonical(name);
      var slot := SlotKey(name);
      var left := RemoveResult(meta, name).value;
      assert left == meta - {slot} by {
        forall k | k in meta ensures EqualFold(k, slot) <==> k == slot {
          CanonicalMatch(meta, name, k);
        }
      }
      TotalOfFewer(meta, {slot});
      forall n | ValidName(n) && SlotKey(n) == slot ensures n == name {
        SlotIsCanonical(n);
      }
    }
  }

  /** GetXattr refines the map: it returns the bytes last set, and NOTEXIST exactly where there are none. */
  lemma GetRefines(meta: Meta, attrs: map<Bytes, Bytes>, name: Bytes)
    requires Represents(meta, attrs) && ValidName(name)
    ensures HasSlot(meta, SlotKey(name)) <==> name in attrs
    ensures name in attrs ==> Read(Some(meta[SlotKey(name)])) == Ok(attrs[name])
    ensures name !in attrs ==> Read(None) == Err(NotExist)
  {
    hide HexEncode, Base64Encode, Base64Decode, ShortName;
    CanonicalHasSlot(meta, name);
    if name in attrs {
      Base64RoundTrip(attrs[name]);
    }
  }

  /** ListXattrs refines the map: the valid names listed are exactly those that have a value, each listed once. */
  lemma ListRefines(meta: Meta, attrs: map<Bytes, Bytes>, name: Bytes)
    requires Represents(meta, attrs) && ValidName(name)
    ensures |Spellings(meta, name)| == if name in attrs then 1 else 0
  {
    hide HexEncode, ShortName;
    SlotIsCanonical(name);
    assert Spellings(meta, name) == if name in attrs then {SlotKey(name)} else {};
  }

  // ----- Runs -----

  datatype XOp = SetOp(name: Bytes, value: Bytes, option: int) | RemoveOp(name: Bytes)

  ghost function MetaAfter(meta: Meta, ops: seq<XOp>): Meta {
    if ops == [] then meta
    else
      var m := MetaAfter(meta, ops[..|ops| - 1]);
      var r := match ops[|ops| - 1]
               case SetOp(n, v, o) => SetResult(m, n, v, o)
               case RemoveOp(n) => RemoveResult(m, n);
      if r.Ok? then r.value else m
  }

  /**
   * The reference: a map that takes every set the verdict allows and the size limits admit, and every remove, with
   * `taken` bytes of the total already used by foreign slots.
   */
  ghost function AttrsAfter(taken: nat, attrs: map<Bytes, Bytes>, ops: seq<XOp>): map<Bytes, Bytes> {
    if ops == [] then attrs
    else
      var a := AttrsAfter(taken, attrs, ops[..|ops| - 1]);
      match ops[|ops| - 1]
      case SetOp(n, v, o) =>
        var admitted := |v| <= 2048 && Load(a[n := v]) + taken <= 6144;
        if SetVerdict(a, n, o).None? && admitted then a[n := v] else a
      case RemoveOp(n) => a - {n}
  }

  /**
   * Every run of sets and removes on a case-preserving backend acts as a map from names to bytes, leaves the
   * metadata of other kinds alone, and keeps the total within 6144 if it started so.
   */
  lemma {:induction false} RunRefines(meta: Meta, attrs: map<Bytes, Bytes>, ops: seq<XOp>)
    requires Represents(meta, attrs)
    ensures Represents(MetaAfter(meta, ops), AttrsAfter(Total(Foreign(meta)), attrs, ops))
    ensures SameOtherMeta(meta, MetaAfter(meta, ops)) && Foreign(MetaAfter(meta, ops)) == Foreign(meta)
    ensures Total(meta) <= 6144 ==> Total(MetaAfter(meta, ops)) <= 6144
    decreases |ops|
  {
    hide Total, Represents, SetResult, RemoveResult, Foreign, Load, WireName, ValidName;
    if ops == [] {
    } else {
      var before := ops[..|ops| - 1];
      RunRefines(meta, attrs, before);
      var m, a := MetaAfter(meta, before), AttrsAfter(Total(Foreign(meta)), attrs, before);
      match ops[|ops| - 1]
      case SetOp(n, v, o) => SetRefines(m, a, n, v, o);
      case RemoveOp(n) =>
        RemoveRefines(m, a, n);
        ValidNames(n);
        if !ValidName(n) || n !in a {
          RemoveInvalid(m, a, n);
        }
    }
  }

  lemma RemoveInvalid(meta: Meta, attrs: map<Bytes, Bytes>, name: Bytes)
    requires Represents(meta, attrs) && (!ValidName(name) || name !in attrs)
    ensures attrs - {name} == attrs
  {
  }

  // ----- Backends that change the case of keys -----

  /** Every spelling of the name's slot in `meta` is this gateway's. */
  ghost predicate OneSpelling(meta: Meta, name: Bytes) {
    forall k :: k in meta && EqualFold(k, SlotKey(name)) ==> k == SlotKey(name)
  }

  /** After a set the new slot counts, and so does every other spelling that stays. */
  lemma SetCounts(meta: Meta, name: Bytes, value: Bytes, option: int)
    requires SetResult(meta, name, value, option).Ok?
    ensures var meta' := SetResult(meta, name, value, option).value;
            && Total(meta') == Total(meta - {SlotKey(name)}) + |SlotKey(name)| + |Base64Encode(value)|
            && (forall k :: k in Spellings(meta, name) && k != SlotKey(name) ==>
                  Total(meta') == Total(meta' - {k}) + |k| + |meta[k]|)
  {
    hide HexEncode, Base64Encode, ShortName, EqualFold, Total, HasSlot;
    var slot, meta' := SlotKey(name), SetResult(meta, name, value, option).value;
    SelfFold(slot);
    SlotSpellings(slot, name);
    TotalOneKey(meta', slot);
    assert meta' - {slot} == meta - {slot};
    forall k | k in Spellings(meta, name) && k != slot ensures Total(meta') == Total(meta' - {k}) + |k| + |meta[k]| {
      TotalOneKey(meta', k);
    }
  }

  /**
   * A set leaves one slot for the name exactly if there was no other spelling before. The new value is found either
   * way, but the name is then listed once for each spelling, and each still counts against the total.
   */
  lemma SetLeavesOneSlotIff(meta: Meta, name: Bytes, value: Bytes, option: int)
    requires SetResult(meta, name, value, option).Ok?
    ensures var meta' := SetResult(meta, name, value, option).value;
            && SlotKey(name) in meta' && Read(Some(meta'[SlotKey(name)])) == Ok(value)
            && (OneSpelling(meta', name) <==> OneSpelling(meta, name))
            && (|Spellings(meta', name)| == 1 <==> OneSpelling(meta, name))
            && Spellings(meta', name) == Spellings(meta, name) + {SlotKey(name)}
            && Total(meta') == Total(meta - {SlotKey(name)}) + |SlotKey(name)| + |Base64Encode(value)|
            && (forall k :: k in Spellings(meta, name) && k != SlotKey(name) ==>
                  Total(meta') == Total(meta' - {k}) + |k| + |meta[k]|)
  {
    SetCounts(meta, name, value, option);
    hide HexEncode, Base64Encode, Base64Decode, ShortName, EqualFold, Total;
    var slot, meta' := SlotKey(name), SetResult(meta, name, value, option).value;
    Base64RoundTrip(value);
    forall k ensures ShortName(k) == Some(name) <==> EqualFold(k, slot) {
      SlotSpellings(k, name);
    }
    SelfFold(slot);
    assert Spellings(meta', name) == Spellings(meta, name) + {slot};
    if OneSpelling(meta, name) {
      assert Spellings(meta', name) == {slot};
    } else {
      var k :| k in meta && EqualFold(k, slot) && k != slot;
      assert {k, slot} <= Spellings(meta', name);
      SmallerSet({k, slot}, Spellings(meta', name));
    }
  }

  /** So it goes where a server hands "Xattr-A1" back for "Xattr-a1": a replace leaves both. */
  lemma ChangedCaseDuplicates(stale: string)
    requires |stale| <= 100
    ensures var meta: Meta := map["Xattr-A1" := stale];
            SetResult(meta, ['\U{A1}'], [], 2) == Ok(map["Xattr-A1" := stale, "Xattr-a1" := ""])
  {
    var meta: Meta := map["Xattr-A1" := stale];
    var name: Bytes := ['\U{A1}'];
    assert HexEncode(name) == "a1" by {
      assert HexEncode(name[1..]) == "";
    }
    assert SlotKey(name) == "Xattr-a1";
    assert EqualFold("Xattr-A1", "Xattr-a1");
    assert "Xattr-A1" in meta;
    assert HasSlot(meta, "Xattr-a1");
    assert ValidName(name) by {
      assert forall i :: 0 <= i < |RESERVED| ==> |RESERVED[i]| > 1;
    }
    var meta' := meta["Xattr-a1" := ""];
    TotalSplit(meta', "Xattr-A1");
    var rest := meta' - {"Xattr-A1"};
    assert rest == map["Xattr-a1" := ""];
    TotalSplit(rest, "Xattr-a1");
    assert rest - {"Xattr-a1"} == map[];
  }
}
