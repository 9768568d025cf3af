/**
 * Paths and keys: the string functions of internal/s3fs/file.go and internal/s3fs/cache_integration.go,
 * with the lexical rules of Go's filepath.Clean.
 */
module Paths {

  predicate HasSlashSuffix(s: string) {
    |s| > 0 && s[|s| - 1] == '/'
  }

  function TrimSlash(s: string): string {
    if HasSlashSuffix(s) then s[..|s| - 1] else s
  }

  /** strings.LastIndex(s, "/"). */
  function LastSlash(s: string): (i: int)
    ensures -1 <= i < |s|
    ensures i >= 0 ==> s[i] == '/'
    ensures forall j :: i < j < |s| ==> s[j] != '/'
  {
    if s == "" then -1
    else if s[|s| - 1] == '/' then |s| - 1
    else LastSlash(s[..|s| - 1])
  }

  /** The prefix of the directory that holds `key`: "foo/bar/baz.txt" -> "foo/bar/", "foo/" -> "". */
  function ParentPrefix(key: string): string {
    var k := TrimSlash(key);
    k[..LastSlash(k) + 1]
  }

  function NameFromKey(key: string): string {
    var k := TrimSlash(key);
    k[LastSlash(k) + 1..]
  }

  /** A prefix ListObjects is asked for: the root's, or one that ends in "/". */
  predicate IsDirPrefix(p: string) {
    p == "" || HasSlashSuffix(p)
  }

  /** A listing of `p` shows `key` under a name: it starts with `p` and the rest is one component. */
  predicate ListedUnder(p: string, key: string) {
    p <= key && TrimSlash(key[|p|..]) != "" && '/' !in TrimSlash(key[|p|..])
  }

  /**
   * The prefix whose listing shows a key is the key's ParentPrefix, and the name Readdir strips from a
   * listing is the name it recomputes from a cached entry.
   */
  lemma ListedUnderParentOnly(p: string, key: string)
    requires IsDirPrefix(p)
    ensures ListedUnder(p, key) <==> ParentPrefix(key) == p && NameFromKey(key) != ""
    ensures ListedUnder(p, key) ==> NameFromKey(key) == TrimSlash(key[|p|..])
  {
    if ListedUnder(p, key) {
      ListedHasParent(p, key);
    }
    if ParentPrefix(key) == p && NameFromKey(key) != "" {
      ParentLists(p, key);
    }
  }

  lemma ListedHasParent(p: string, key: string)
    requires IsDirPrefix(p) && ListedUnder(p, key)
    ensures ParentPrefix(key) == p && NameFromKey(key) == TrimSlash(key[|p|..])
  {
    var t := TrimSlash(key[|p|..]);
    assert TrimSlash(key) == p + t;
    LastSlashOf(p, t);
  }

  lemma LastSlashOf(p: string, t: string)
    requires IsDirPrefix(p) && '/' !in t
    ensures LastSlash(p + t) == |p| - 1
    ensures (p + t)[..|p|] == p && (p + t)[|p|..] == t
  {
    hide LastSlash;
    var k := p + t;
    assert forall j :: |p| <= j < |k| ==> k[j] == t[j - |p|] && k[j] in t;
    assert p != "" ==> k[|p| - 1] == '/';
  }

  lemma ParentLists(p: string, key: string)
    requires ParentPrefix(key) == p && NameFromKey(key) != ""
    ensures ListedUnder(p, key)
  {
    hide LastSlash;
    var k, t := TrimSlash(key), NameFromKey(key);
    assert k == p + t;
    assert key[|p|..] == t || key[|p|..] == t + "/";
    assert t[|t| - 1] == k[|k| - 1];
  }

  /** A child's key, with or without the trailing slash of a directory, has the directory as parent and its own name. */
  lemma ParentAndName(p: string, name: string)
    requires IsDirPrefix(p) && '/' !in name && name != ""
    ensures ParentPrefix(p + name) == p && NameFromKey(p + name) == name
    ensures ParentPrefix(p + name + "/") == p && NameFromKey(p + name + "/") == name
  {
    hide LastSlash;
    var key := p + name;
    assert key[|key| - 1] == name[|name| - 1];
    assert name[|name| - 1] in name;
    assert (key + "/")[..|key|] == key;
    LastSlashOf(p, name);
  }

  /** Every parent is a listing prefix, and listing it shows each of its named children. */
  lemma ParentListsChild(key: string)
    ensures IsDirPrefix(ParentPrefix(key))
    ensures NameFromKey(key) != "" ==> ListedUnder(ParentPrefix(key), key)
  {
    ListedUnderParentOnly(ParentPrefix(key), key);
  }

  // ----- Components -----

  function FirstSlash(s: string): (i: nat)
    ensures i <= |s|
    ensures i < |s| ==> s[i] == '/'
    ensures forall j :: 0 <= j < i ==> s[j] != '/'
  {
    if s == "" || s[0] == '/' then 0 else 1 + FirstSlash(s[1..])
  }

  /** strings.Split(s, "/"). */
  function Split(s: string): (parts: seq<string>)
    ensures |parts| >= 1
    decreases |s|
  {
    var i := FirstSlash(s);
    if i == |s| then [s] else [s[..i]] + Split(s[i + 1..])
  }

  function Join(parts: seq<string>): string {
    if parts == [] then ""
    else if |parts| == 1 then parts[0]
    else parts[0] + "/" + Join(parts[1..])
  }

  lemma JoinCons(name: string, rest: seq<string>)
    ensures Join([name] + rest) == if rest == [] then name else name + "/" + Join(rest)
  {
    assert ([name] + rest)[1..] == rest;
  }

  lemma {:induction false} JoinSplit(s: string)
    ensures Join(Split(s)) == s
    decreases |s|
  {
    hide Join;
    var i := FirstSlash(s);
    if i == |s| {
      JoinCons(s, []);
      assert [s] + [] == [s];
    } else {
      JoinSplit(s[i + 1..]);
      JoinCons(s[..i], Split(s[i + 1..]));
      assert s == s[..i] + "/" + s[i + 1..];
    }
  }

  ghost predicate SlashFree(parts: seq<string>) {
    forall i :: 0 <= i < |parts| ==> '/' !in parts[i]
  }

  lemma {:induction false} SplitSlashFree(s: string)
    ensures SlashFree(Split(s))
    decreases |s|
  {
    var i := FirstSlash(s);
    if i < |s| {
      SplitSlashFree(s[i + 1..]);
    }
  }

  lemma SplitCons(name: string, rest: string)
    requires '/' !in name
    ensures Split(name + "/" + rest) == [name] + Split(rest)
  {
    var s := name + "/" + rest;
    assert s[|name|] == '/';
    assert forall j :: 0 <= j < |name| ==> s[j] == name[j];
    assert FirstSlash(s) == |name|;
    assert s[..|name|] == name && s[|name| + 1..] == rest;
  }

  lemma {:induction false} SplitJoin(parts: seq<string>)
    requires parts != [] && SlashFree(parts)
    ensures Split(Join(parts)) == parts
  {
    var s := Join(parts);
    if |parts| == 1 {
      assert FirstSlash(s) == |s|;
    } else {
      SplitJoin(parts[1..]);
      SplitCons(parts[0], Join(parts[1..]));
    }
  }

  // ----- filepath.Clean and s3KeyFromPath -----

  /** Clean's component rules: drop "" and ".", let ".." cancel, drop ".." at a root. */
  function Enter(rooted: bool, acc: seq<string>, p: string): seq<string> {
    if p == "" || p == "." then acc
    else if p == ".." then
      if acc != [] && acc[|acc| - 1] != ".." then acc[..|acc| - 1]
      else if rooted then acc
      else acc + [p]
    else acc + [p]
  }

  function CleanParts(rooted: bool, parts: seq<string>, acc: seq<string>): seq<string>
    decreases |parts|
  {
    if parts == [] then acc else CleanParts(rooted, parts[1..], Enter(rooted, acc, parts[0]))
  }

  function Clean(path: string): string {
    var rooted := path != "" && path[0] == '/';
    var body := Join(CleanParts(rooted, Split(path), []));
    if rooted then "/" + body else if body == "" then "." else body
  }

  function KeyFromPath(path: string): string {
    var c := Clean(path);
    var k := if c != "" && c[0] == '/' then c[1..] else c;
    if k == "." then "" else if ".." in Split(k) then "" else k
  }

  /** The directory form of a key. */
  function DirKey(key: string): string {
    if key == "" then ""
    else if ".." in Split(key) then ""
    else if HasSlashSuffix(key) then key
    else key + "/"
  }

  predicate OrdinaryNames(parts: seq<string>) {
    forall i :: 0 <= i < |parts| ==> parts[i] != "" && parts[i] != "." && parts[i] != ".."
  }

  /** A key made of ordinary names: no empty, "." or ".." component. */
  predicate CanonicalKey(key: string) {
    key == "" || OrdinaryNames(Split(key))
  }

  ghost predicate Ordinary(parts: seq<string>) {
    forall i :: 0 <= i < |parts| ==> parts[i] != "" && parts[i] != "."
  }

  lemma {:induction false} CleanPartsOrdinary(rooted: bool, parts: seq<string>, acc: seq<string>)
    requires SlashFree(parts) && SlashFree(acc) && Ordinary(acc)
    ensures SlashFree(CleanParts(rooted, parts, acc)) && Ordinary(CleanParts(rooted, parts, acc))
    decreases |parts|
  {
    if parts == [] {
    } else {
      CleanPartsOrdinary(rooted, parts[1..], Enter(rooted, acc, parts[0]));
    }
  }

  /** Every path maps to a canonical key, so no path reaches a key with a trailing slash or a ".." component. */
  lemma KeyFromPathCanonical(path: string)
    ensures CanonicalKey(KeyFromPath(path))
  {
    hide Split, Join, CleanParts;
    var rooted := path != "" && path[0] == '/';
    var parts := CleanParts(rooted, Split(path), []);
    SplitSlashFree(path);
    CleanPartsOrdinary(rooted, Split(path), []);
    if parts == [] {
      JoinNothing();
    } else {
      SplitJoin(parts);
      FirstOfJoin(parts);
    }
  }

  lemma JoinNothing()
    ensures Join([]) == ""
  {
  }

  lemma FirstOfJoin(parts: seq<string>)
    requires parts != [] && SlashFree(parts) && parts[0] != ""
    ensures Join(parts) != "" && Join(parts)[0] != '/'
  {
    assert Join(parts)[0] == parts[0][0];
    assert parts[0][0] in parts[0];
  }

  lemma CanonicalShape(key: string)
    requires CanonicalKey(key)
    ensures !HasSlashSuffix(key) && (key != "" ==> key[0] != '/')
    ensures key != "" ==> NameFromKey(key) != "" && DirKey(key) == key + "/"
  {
    if key != "" {
      CanonicalEnds(key);
      NameOfFile(key);
      NoDotDot(Split(key));
    }
  }

  lemma NameOfFile(key: string)
    requires key != "" && !HasSlashSuffix(key)
    ensures NameFromKey(key) != ""
  {
    assert LastSlash(key) != |key| - 1;
  }

  lemma NoDotDot(parts: seq<string>)
    requires OrdinaryNames(parts)
    ensures ".." !in parts
  {
  }

  lemma CanonicalEnds(key: string)
    requires CanonicalKey(key) && key != ""
    ensures !HasSlashSuffix(key) && key[0] != '/'
  {
    SplitSlashFree(key);
    JoinSplit(key);
    FirstOfJoin(Split(key));
    LastOfJoin(Split(key));
  }

  lemma {:induction false} LastOfJoin(parts: seq<string>)
    requires parts != [] && SlashFree(parts) && parts[|parts| - 1] != ""
    ensures Join(parts) != "" && !HasSlashSuffix(Join(parts))
  {
    var last := parts[|parts| - 1];
    if |parts| == 1 {
      assert last[|last| - 1] in last;
    } else {
      LastOfJoin(parts[1..]);
    }
  }

  lemma {:induction false} CleanPartsKeeps(rooted: bool, parts: seq<string>, acc: seq<string>)
    requires OrdinaryNames(parts)
    ensures CleanParts(rooted, parts, acc) == acc + parts
    decreases |parts|
  {
    if parts == [] {
    } else {
      CleanPartsKeeps(rooted, parts[1..], acc + [parts[0]]);
      assert acc + [parts[0]] + parts[1..] == acc + parts;
    }
  }

  /** A canonical key is the key of its own path: KeyFromPath is onto the canonical keys and idempotent. */
  lemma KeyPathRoundTrip(key: string)
    requires CanonicalKey(key)
    ensures KeyFromPath("/" + key) == key && KeyFromPath(key) == key
  {
    RootedRoundTrip(key);
    if key != "" {
      RelativeRoundTrip(key);
    }
  }

  lemma RelativeRoundTrip(key: string)
    requires CanonicalKey(key) && key != ""
    ensures KeyFromPath(key) == key
  {
    hide Split, Join;
    CanonicalEnds(key);
    CleanPartsKeeps(false, Split(key), []);
    assert [] + Split(key) == Split(key);
    JoinSplit(key);
    SplitDot();
  }

  lemma RootedRoundTrip(key: string)
    requires CanonicalKey(key)
    ensures KeyFromPath("/" + key) == key
  {
    var path := "/" + key;
    SplitCons("", key);
    assert path == "" + "/" + key;
    var parts := Split(path);
    assert parts[1..] == Split(key) && parts[0] == "";
    assert CleanParts(true, parts, []) == CleanParts(true, Split(key), []);
    if key == "" {
      assert CleanParts(true, [""], []) == CleanParts(true, [], []);
      assert [""][1..] == [];
    } else {
      CleanPartsKeeps(true, Split(key), []);
      assert [] + Split(key) == Split(key);
      JoinSplit(key);
      assert path[0] == '/';
      assert Clean(path) == "/" + key;
      SplitDot();
    }
  }

  // ----- Clean by rewriting -----

  lemma SplitOne(x: string)
    requires '/' !in x
    ensures Split(x) == [x]
  {
    assert FirstSlash(x) == |x|;
  }

  lemma {:induction false} SplitApart(x: string, y: string)
    ensures Split(x + "/" + y) == Split(x) + Split(y)
    decreases |x|
  {
    hide Split, FirstSlash;
    var i := FirstSlash(x);
    if i == |x| {
      SplitOne(x);
      SplitCons(x, y);
    } else {
      var name, rest := x[..i], x[i + 1..];
      SplitApart(rest, y);
      SplitCons(name, rest);
      assert x == name + "/" + rest;
      SplitCons(name, rest + "/" + y);
      assert x + "/" + y == name + "/" + (rest + "/" + y);
    }
  }

  lemma {:induction false} CleanPartsInTurn(rooted: bool, a: seq<string>, b: seq<string>, acc: seq<string>)
    ensures CleanParts(rooted, a + b, acc) == CleanParts(rooted, b, CleanParts(rooted, a, acc))
    decreases |a|
  {
    if a == [] {
      assert a + b == b;
    } else {
      assert (a + b)[1..] == a[1..] + b;
      CleanPartsInTurn(rooted, a[1..], b, Enter(rooted, acc, a[0]));
    }
  }

  /** The components `mid` between two paths are without effect. */
  lemma CleanSkips(x: string, mid: seq<string>, y: string)
    requires mid != [] && SlashFree(mid)
    requires forall acc :: CleanParts(true, mid, acc) == acc && CleanParts(false, mid, acc) == acc
    ensures Clean(x + "/" + Join(mid) + "/" + y) == Clean(x + "/" + y)
  {
    hide CleanParts, Split, Join;
    var p, q := x + "/" + Join(mid) + "/" + y, x + "/" + y;
    SplitApart(x + "/" + Join(mid), y);
    SplitApart(x, Join(mid));
    SplitApart(x, y);
    SplitJoin(mid);
    assert p[0] == (x + "/")[0] == q[0];
    var rooted := p[0] == '/';
    CleanPartsInTurn(rooted, Split(x) + mid, Split(y), []);
    CleanPartsInTurn(rooted, Split(x), mid, []);
    CleanPartsInTurn(rooted, Split(x), Split(y), []);
  }

  lemma TrailingSlash(x: string)
    requires x != ""
    ensures Clean(x + "/") == Clean(x)
  {
    hide Split, Join;
    SplitApart(x, "");
    SplitOne("");
    assert x + "/" + "" == x + "/" && (x + "/")[0] == x[0];
    SkippedParts("a");
    CleanPartsInTurn(x[0] == '/', Split(x), [""], []);
  }

  /** A doubled slash, a ".", and a name with ".." after it make no difference, wherever they stand in a path. */
  lemma CleanRewrites(x: string, name: string, y: string)
    requires '/' !in name && name != "" && name != "." && name != ".."
    ensures Clean(x + "//" + y) == Clean(x + "/" + y)
    ensures Clean(x + "/./" + y) == Clean(x + "/" + y)
    ensures Clean(x + "/" + name + "/../" + y) == Clean(x + "/" + y)
  {
    hide Clean;
    SkippedParts(name);
    CleanSkips(x, [""], y);
    CleanSkips(x, ["."], y);
    CleanSkips(x, [name, ".."], y);
    assert x + "/" + "" + "/" + y == x + "//" + y;
    assert x + "/" + "." + "/" + y == x + "/./" + y;
    assert [name, ".."][1..] == [".."];
    assert Join([name, ".."]) == name + "/" + "..";
    assert x + "/" + (name + "/" + "..") + "/" + y == x + "/" + name + "/../" + y;
  }

  lemma SkippedParts(name: string)
    requires name != "" && name != "." && name != ".."
    ensures forall rooted, acc :: CleanParts(rooted, [""], acc) == acc && CleanParts(rooted, ["."], acc) == acc
    ensures forall rooted, acc :: CleanParts(rooted, [name, ".."], acc) == acc
  {
    forall rooted, acc
      ensures CleanParts(rooted, [""], acc) == acc && CleanParts(rooted, ["."], acc) == acc
      ensures CleanParts(rooted, [name, ".."], acc) == acc
    {
      assert [""][1..] == [] && ["."][1..] == [] && [name, ".."][1..] == [".."] && [".."][1..] == [];
      assert (acc + [name])[..|acc|] == acc;
      assert CleanParts(rooted, [name, ".."], acc) == CleanParts(rooted, [".."], acc + [name]);
    }
  }

  /** At the root ".." makes no difference; a relative path that climbs out has the key of the root. */
  lemma ClimbingOut(y: string)
    ensures Clean("/../" + y) == Clean("/" + y)
    ensures KeyFromPath("../" + y) == ""
  {
    RootStays(y);
    LeadingDots(y);
  }

  lemma RootStays(y: string)
    ensures Clean("/../" + y) == Clean("/" + y)
  {
    hide Split;
    SplitCons("", y);
    SplitCons("..", y);
    SplitCons("", "../" + y);
    assert "" + "/" + y == "/" + y && ".." + "/" + y == "../" + y && "" + "/" + ("../" + y) == "/../" + y;
    var parts := Split(y);
    assert ([""] + parts)[1..] == parts && ([""] + ([".."] + parts))[1..] == [".."] + parts;
    assert ([".."] + parts)[1..] == parts;
    assert CleanParts(true, [""] + parts, []) == CleanParts(true, parts, []);
    assert CleanParts(true, [""] + ([".."] + parts), []) == CleanParts(true, [".."] + parts, []);
  }

  lemma {:induction false} DotsStay(parts: seq<string>, acc: seq<string>)
    requires SlashFree(parts) && SlashFree(acc) && acc != [] && acc[0] == ".."
    ensures var c := CleanParts(false, parts, acc); SlashFree(c) && c != [] && c[0] == ".."
    decreases |parts|
  {
    if parts == [] {
    } else {
      DotsStay(parts[1..], Enter(false, acc, parts[0]));
    }
  }

  lemma LeadingDots(y: string)
    ensures KeyFromPath("../" + y) == ""
  {
    hide Split, Join;
    SplitCons("..", y);
    assert ".." + "/" + y == "../" + y;
    SplitSlashFree(y);
    var parts := Split(y);
    assert ([".."] + parts)[1..] == parts;
    assert CleanParts(false, [".."] + parts, []) == CleanParts(false, parts, [".."]) by {
      assert [] + [".."] == [".."];
    }
    DotsStay(parts, [".."]);
    var c := CleanParts(false, parts, [".."]);
    SplitJoin(c);
    FirstOfJoin(c);
    assert ".." in c;
  }

  lemma SplitDot()
    ensures !CanonicalKey(".")
  {
    assert FirstSlash(".") == 1;
    assert Split(".")[0] == ".";
  }
}
