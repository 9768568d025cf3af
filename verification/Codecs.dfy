/**
 * The codecs of internal/s3fs/xattr.go: hexadecimal names inside metadata keys, and the standard base64 of
 * sections 4 and 8 of RFC 4648 as Go's base64.StdEncoding reads it.
 */
module Codecs {
  import opened Base

  type Bytes = seq<Byte>

  // ----- Hexadecimal -----

  function HexDigit(n: int): char
    requires 0 <= n < 16
  {
    if n < 10 then (n + '0' as int) as char else (n - 10 + 'a' as int) as char
  }

  function HexValue(c: char): Option<int> {
    if '0' <= c <= '9' then Some(c as int - '0' as int)
    else if 'a' <= c <= 'f' then Some(c as int - 'a' as int + 10)
    else if 'A' <= c <= 'F' then Some(c as int - 'A' as int + 10)
    else None
  }

  function HexEncode(b: Bytes): (s: string)
    ensures |s| == 2 * |b|
  {
    if b == [] then ""
    else [HexDigit(b[0] as int / 16), HexDigit(b[0] as int % 16)] + HexEncode(b[1..])
  }

  function HexDecode(s: string): Option<Bytes>
    decreases |s|
  {
    if s == "" then Some([])
    else if |s| == 1 then None
    else
      var hi, lo, rest := HexValue(s[0]), HexValue(s[1]), HexDecode(s[2..]);
      if hi.None? || lo.None? || rest.None? then None
      else
        assert 0 <= hi.value < 16 && 0 <= lo.value < 16;
        Some([(hi.value * 16 + lo.value) as char] + rest.value)
  }

  /** ASCII case folding, which is all strings.EqualFold does on the letters of metadata keys. */
  function Fold(c: char): char {
    if 'A' <= c <= 'Z' then (c as int + 32) as char else c
  }

  predicate EqualFold(a: string, b: string) {
    |a| == |b| && forall i :: 0 <= i < |a| ==> Fold(a[i]) == Fold(b[i])
  }

  /** The two characters are the same, or the two cases of one of the 26 letters. */
  predicate SameLetter(a: char, b: char) {
    || a == b
    || ('A' <= a <= 'Z' && b as int == a as int + 32)
    || ('A' <= b <= 'Z' && a as int == b as int + 32)
  }

  /** The strings differ only in the case of letters. */
  predicate Alike(a: string, b: string) {
    |a| == |b| && forall i :: 0 <= i < |a| ==> SameLetter(a[i], b[i])
  }

  /** Folding makes exactly the two cases of each letter equal. */
  lemma EqualFoldIsAlike(a: string, b: string)
    ensures EqualFold(a, b) <==> Alike(a, b)
  {
    assert forall c: char, d: char :: Fold(c) == Fold(d) <==> SameLetter(c, d);
  }

  lemma HexDigitSurvivesFold(c: char, n: int)
    requires 0 <= n < 16 && Fold(c) == Fold(HexDigit(n))
    ensures HexValue(c) == Some(n)
  {
  }

  lemma HexDigitSpelling(c: char, n: int)
    requires HexValue(c) == Some(n)
    ensures 0 <= n < 16 && Fold(c) == Fold(HexDigit(n))
  {
  }

  /** What decodes to `b` spells its encoding in some mixture of cases. */
  lemma {:induction false} HexSpelling(s: string, b: Bytes)
    requires HexDecode(s) == Some(b)
    ensures EqualFold(s, HexEncode(b))
    decreases |s|
  {
    if s == "" {
    } else {
      var hi, lo := HexValue(s[0]).value, HexValue(s[1]).value;
      HexSpelling(s[2..], b[1..]);
      HexDigitSpelling(s[0], hi);
      HexDigitSpelling(s[1], lo);
      assert b[0] as int / 16 == hi && b[0] as int % 16 == lo;
      var code := HexEncode(b);
      assert code[2..] == HexEncode(b[1..]);
      forall i | 0 <= i < |s| ensures Fold(s[i]) == Fold(code[i]) {
        if i >= 2 {
          assert s[i] == s[2..][i - 2] && code[i] == code[2..][i - 2];
        }
      }
    }
  }

  /** Decoding undoes encoding, whatever the case of the digits has become. */
  lemma {:induction false} HexRoundTrip(b: Bytes, s: string)
    requires EqualFold(s, HexEncode(b))
    ensures HexDecode(s) == Some(b)
    decreases |b|
  {
    if b == [] {
    } else {
      var code := HexEncode(b);
      var hi, lo := b[0] as int / 16, b[0] as int % 16;
      assert code[2..] == HexEncode(b[1..]);
      assert Fold(s[0]) == Fold(code[0]) && Fold(s[1]) == Fold(code[1]);
      HexDigitSurvivesFold(s[0], hi);
      HexDigitSurvivesFold(s[1], lo);
      forall i | 0 <= i < |s| - 2 ensures Fold(s[2..][i]) == Fold(code[2..][i]) {
        assert s[2..][i] == s[i + 2] && code[2..][i] == code[i + 2];
      }
      HexRoundTrip(b[1..], s[2..]);
      assert [b[0]] + b[1..] == b;
    }
  }

  /** Each byte is two digits of the lower-case alphabet, the high half first, and bytes are encoded one by one. */
  lemma {:induction false} HexOfBytes(b: Bytes, i: nat)
    requires i < |b|
    ensures HexEncode(b)[2 * i..2 * i + 2] == ["0123456789abcdef"[b[i] as int / 16], "0123456789abcdef"[b[i] as int % 16]]
    decreases |b|
  {
    if i == 0 {
      HexTable(b[0] as int / 16);
      HexTable(b[0] as int % 16);
    } else {
      HexOfBytes(b[1..], i - 1);
      assert HexEncode(b)[2..] == HexEncode(b[1..]);
      assert HexEncode(b)[2 * i..2 * i + 2] == HexEncode(b)[2..][2 * (i - 1)..2 * (i - 1) + 2];
    }
  }

  lemma HexTable(n: int)
    requires 0 <= n < 16
    ensures HexDigit(n) == "0123456789abcdef"[n]
  {
  }

  // ----- Base64 -----

  function Base64Digit(n: int): char
    requires 0 <= n < 64
  {
    if n < 26 then (n + 'A' as int) as char
    else if n < 52 then (n - 26 + 'a' as int) as char
    else if n < 62 then (n - 52 + '0' as int) as char
    else if n == 62 then '+'
    else '/'
  }

  function Base64Value(c: char): (r: Option<int>)
    ensures r.Some? ==> 0 <= r.value < 64
  {
    if 'A' <= c <= 'Z' then Some(c as int - 'A' as int)
    else if 'a' <= c <= 'z' then Some(c as int - 'a' as int + 26)
    else if '0' <= c <= '9' then Some(c as int - '0' as int + 52)
    else if c == '+' then Some(62)
    else if c == '/' then Some(63)
    else None
  }

  /** 24 bits as four 6-bit numbers. */
  function Sixes(x: int, y: int, z: int): (r: (int, int, int, int))
    requires 0 <= x < 256 && 0 <= y < 256 && 0 <= z < 256
    ensures 0 <= r.0 < 64 && 0 <= r.1 < 64 && 0 <= r.2 < 64 && 0 <= r.3 < 64
  {
    var v := x * 65536 + y * 256 + z;
    (v / 262144, v / 4096 % 64, v / 64 % 64, v % 64)
  }

  /** Four 6-bit numbers as 24 bits. */
  function Eights(a: int, b: int, c: int, d: int): (r: (int, int, int))
    requires 0 <= a < 64 && 0 <= b < 64 && 0 <= c < 64 && 0 <= d < 64
    ensures 0 <= r.0 < 256 && 0 <= r.1 < 256 && 0 <= r.2 < 256
  {
    var v := a * 262144 + b * 4096 + c * 64 + d;
    (v / 65536, v / 256 % 256, v % 256)
  }

  function Base64Encode(b: Bytes): string {
    if b == [] then ""
    else if |b| == 1 then
      var q := Sixes(b[0] as int, 0, 0);
      [Base64Digit(q.0), Base64Digit(q.1), '=', '=']
    else if |b| == 2 then
      var q := Sixes(b[0] as int, b[1] as int, 0);
      [Base64Digit(q.0), Base64Digit(q.1), Base64Digit(q.2), '=']
    else
      var q := Sixes(b[0] as int, b[1] as int, b[2] as int);
      [Base64Digit(q.0), Base64Digit(q.1), Base64Digit(q.2), Base64Digit(q.3)] + Base64Encode(b[3..])
  }

  /** Go's decoder skips carriage returns and newlines. */
  function WithoutNewlines(s: string): string {
    if s == "" then "" else (if s[0] == '\r' || s[0] == '\n' then "" else [s[0]]) + WithoutNewlines(s[1..])
  }

  /** Groups of four; padding only in the last group; the unused low bits of a padded group are ignored. */
  function DecodeGroups(s: string): Option<Bytes>
    decreases |s|
  {
    if s == "" then Some([])
    else if |s| < 4 then None
    else
      var a, b, c, d := Base64Value(s[0]), Base64Value(s[1]), Base64Value(s[2]), Base64Value(s[3]);
      if a.None? || b.None? then None
      else if c.Some? && d.Some? then
        var rest := DecodeGroups(s[4..]);
        if rest.None? then None
        else
          var e := Eights(a.value, b.value, c.value, d.value);
          Some([e.0 as char, e.1 as char, e.2 as char] + rest.value)
      else if |s| > 4 then None
      else if c.Some? && s[3] == '=' then
        var e := Eights(a.value, b.value, c.value, 0);
        Some([e.0 as char, e.1 as char])
      else if s[2] == '=' && s[3] == '=' then Some([Eights(a.value, b.value, 0, 0).0 as char])
      else None
  }

  function Base64Decode(s: string): Option<Bytes> {
    DecodeGroups(WithoutNewlines(s))
  }

  /** A carriage return or a newline makes no difference wherever it stands; nothing else is skipped. */
  lemma {:induction false} NewlinesSkipped(a: string, c: char, b: string)
    requires c == '\r' || c == '\n'
    ensures Base64Decode(a + [c] + b) == Base64Decode(a + b)
    ensures '\r' !in b && '\n' !in b ==> Base64Decode(b) == DecodeGroups(b)
  {
    NewlineGone(a, c, b);
    if '\r' !in b && '\n' !in b {
      NothingSkipped(b);
    }
  }

  lemma {:induction false} NewlineGone(a: string, c: char, b: string)
    requires c == '\r' || c == '\n'
    ensures WithoutNewlines(a + [c] + b) == WithoutNewlines(a + b)
    decreases |a|
  {
    if a == "" {
      assert (a + [c] + b)[1..] == b && a + b == b;
    } else {
      NewlineGone(a[1..], c, b);
      assert (a + [c] + b)[1..] == a[1..] + [c] + b && (a + b)[1..] == a[1..] + b;
    }
  }

  lemma {:induction false} NothingSkipped(b: string)
    requires '\r' !in b && '\n' !in b
    ensures WithoutNewlines(b) == b
  {
    if b == "" {
    } else {
      assert b[0] in b;
      NothingSkipped(b[1..]);
    }
  }

  /** Exactly the 64 digits have a value, each its own. */
  lemma Base64Digits(c: char, n: int)
    requires 0 <= n < 64
    ensures Base64Value(c) == Some(n) <==> c == Base64Digit(n)
    ensures Base64Value(c).Some? ==> Base64Digit(Base64Value(c).value) == c
  {
  }

  /** Groups of four digits; in the last group "=" may stand for the last digit or for the last two. */
  ghost predicate WellPadded(s: string) {
    && |s| % 4 == 0
    && (forall i :: 0 <= i < |s| - 2 ==> Base64Value(s[i]).Some?)
    && (s != "" ==>
          || (Base64Value(s[|s| - 2]).Some? && (Base64Value(s[|s| - 1]).Some? || s[|s| - 1] == '='))
          || (s[|s| - 2] == '=' && s[|s| - 1] == '='))
  }

  /** Exactly such strings decode. */
  lemma {:induction false} DecodesIff(s: string)
    ensures DecodeGroups(s).Some? <==> WellPadded(s)
    decreases |s|
  {
    if |s| <= 4 {
      ShortDecodesIff(s);
    } else {
      hide Base64Value, Eights;
      var rest := s[4..];
      DecodesIff(rest);
      assert forall i :: 4 <= i < |s| ==> s[i] == rest[i - 4];
      if WellPadded(s) {
        assert forall i :: 0 <= i < 4 ==> Base64Value(s[i]).Some?;
        assert forall i :: 0 <= i < |rest| - 2 ==> rest[i] == s[i + 4];
      }
    }
  }

  lemma ShortDecodesIff(s: string)
    requires |s| <= 4
    ensures DecodeGroups(s).Some? <==> WellPadded(s)
  {
    hide Base64Value, Eights;
    PaddingIsNoDigit();
    assert |s| == 4 ==> s[4..] == "";
  }

  /**
   * What decodes is groups of four digits, but for one or two "=" at the end, and gives three bytes a group, less one
   * for each "=".
   */
  lemma {:induction false} DecodesOnlyGroups(s: string)
    requires DecodeGroups(s).Some?
    ensures |s| % 4 == 0
    ensures forall i :: 0 <= i < |s| - 2 ==> Base64Value(s[i]).Some?
    ensures var pads := if s == "" || s[|s| - 1] != '=' then 0 else if s[|s| - 2] != '=' then 1 else 2;
            |DecodeGroups(s).value| == |s| / 4 * 3 - pads
    decreases |s|
  {
    hide DecodeGroups, Base64Value;
    if |s| <= 4 {
      LastGroup(s);
    } else {
      FirstGroup(s);
      DecodesOnlyGroups(s[4..]);
      assert forall i :: 4 <= i < |s| ==> s[i] == s[4..][i - 4];
    }
  }

  /** The last group has at most two pads, at its end. */
  lemma LastGroup(s: string)
    requires |s| <= 4 && DecodeGroups(s).Some?
    ensures s == "" || |s| == 4
    ensures |s| == 4 ==> Base64Value(s[0]).Some? && Base64Value(s[1]).Some?
    ensures |DecodeGroups(s).value| ==
            (if s == "" then 0 else if s[3] != '=' then 3 else if s[2] != '=' then 2 else 1)
  {
    hide Base64Value, Eights;
    PaddingIsNoDigit();
    assert |s| == 4 ==> s[4..] == "";
  }

  /** A group that is not the last is four digits. */
  lemma FirstGroup(s: string)
    requires |s| > 4 && DecodeGroups(s).Some?
    ensures forall i :: 0 <= i < 4 ==> Base64Value(s[i]).Some?
    ensures DecodeGroups(s[4..]).Some? && |DecodeGroups(s).value| == 3 + |DecodeGroups(s[4..]).value|
  {
    hide Base64Value, Eights;
  }

  /** The alphabet of Table 1 of RFC 4648. */
  lemma Base64Table(n: int)
    requires 0 <= n < 64
    ensures Base64Digit(n) == if n < 26 then "ABCDEFGHIJKLMNOPQRSTUVWXYZ"[n]
                              else if n < 52 then "abcdefghijklmnopqrstuvwxyz"[n - 26] else "0123456789+/"[n - 52]
  {
  }

  /** Three bytes are four digits, the same 24 bits in the same order. */
  lemma SameBits(x: int, y: int, z: int)
    requires 0 <= x < 256 && 0 <= y < 256 && 0 <= z < 256
    ensures var q := Sixes(x, y, z);
            q.0 * 262144 + q.1 * 4096 + q.2 * 64 + q.3 == x * 65536 + y * 256 + z
  {
    Recombine(x * 65536 + y * 256 + z);
  }

  /** Test vectors of section 10 of RFC 4648: a whole group, and both kinds of padding. */
  lemma Base64Vectors()
    ensures Base64Encode("f") == "Zg==" && Base64Encode("fo") == "Zm8=" && Base64Encode("foo") == "Zm9v"
  {
    assert "foo"[3..] == "";
  }

  lemma DigitRoundTrip(n: int)
    requires 0 <= n < 64
    ensures Base64Value(Base64Digit(n)) == Some(n)
    ensures Base64Digit(n) != '=' && Base64Digit(n) != '\r' && Base64Digit(n) != '\n'
  {
  }

  lemma SixesRoundTrip(x: int, y: int, z: int)
    requires 0 <= x < 256 && 0 <= y < 256 && 0 <= z < 256
    ensures var q := Sixes(x, y, z); Eights(q.0, q.1, q.2, q.3) == (x, y, z)
    ensures z == 0 ==> Sixes(x, y, z).3 == 0
    ensures y == 0 && z == 0 ==> Sixes(x, y, z).2 == 0
  {
    var v := x * 65536 + y * 256 + z;
    Recombine(v);
    ThreeBytes(x, y, z);
    LowZeros(x, y);
  }

  lemma Recombine(v: int)
    requires v >= 0
    ensures v / 262144 * 262144 + v / 4096 % 64 * 4096 + v / 64 % 64 * 64 + v % 64 == v
  {
    var a, b := v / 64, v / 4096;
    assert v == 64 * a + v % 64;
    assert a / 64 == b && a == 64 * b + a % 64;
    assert b / 64 == v / 262144 && b == 64 * (v / 262144) + b % 64;
  }

  lemma ThreeBytes(x: int, y: int, z: int)
    requires 0 <= x < 256 && 0 <= y < 256 && 0 <= z < 256
    ensures var v := x * 65536 + y * 256 + z; v / 65536 == x && v / 256 % 256 == y && v % 256 == z
  {
    var v := x * 65536 + y * 256 + z;
    assert v == 256 * (x * 256 + y) + z;
    assert v / 256 == x * 256 + y;
  }

  lemma LowZeros(x: int, y: int)
    requires 0 <= x < 256 && 0 <= y < 256
    ensures (x * 65536 + y * 256) % 64 == 0 && x * 65536 / 64 % 64 == 0
  {
    assert x * 65536 + y * 256 == 64 * (x * 1024 + y * 4);
    assert x * 65536 == 64 * (64 * (x * 16));
  }

  lemma QuantumRoundTrip(x: Byte, y: Byte, z: Byte, rest: string)
    ensures var q := Sixes(x as int, y as int, z as int);
            DecodeGroups([Base64Digit(q.0), Base64Digit(q.1), Base64Digit(q.2), Base64Digit(q.3)] + rest) ==
            if DecodeGroups(rest).None? then None else Some([x, y, z] + DecodeGroups(rest).value)
  {
    hide Base64Digit, Base64Value, Sixes, Eights;
    var q := Sixes(x as int, y as int, z as int);
    var s := [Base64Digit(q.0), Base64Digit(q.1), Base64Digit(q.2), Base64Digit(q.3)] + rest;
    SixesRoundTrip(x as int, y as int, z as int);
    DigitRoundTrip(q.0);
    DigitRoundTrip(q.1);
    DigitRoundTrip(q.2);
    DigitRoundTrip(q.3);
    assert s[4..] == rest;
  }

  lemma OneByteRoundTrip(x: Byte)
    ensures DecodeGroups(Base64Encode([x])) == Some([x])
  {
    hide Base64Digit, Base64Value, Sixes, Eights;
    var q := Sixes(x as int, 0, 0);
    SixesRoundTrip(x as int, 0, 0);
    DigitRoundTrip(q.0);
    DigitRoundTrip(q.1);
    PaddingIsNoDigit();
  }

  lemma TwoBytesRoundTrip(x: Byte, y: Byte)
    ensures DecodeGroups(Base64Encode([x, y])) == Some([x, y])
  {
    hide Base64Digit, Base64Value, Sixes, Eights;
    var q := Sixes(x as int, y as int, 0);
    SixesRoundTrip(x as int, y as int, 0);
    DigitRoundTrip(q.0);
    DigitRoundTrip(q.1);
    DigitRoundTrip(q.2);
    PaddingIsNoDigit();
  }

  lemma PaddingIsNoDigit()
    ensures Base64Value('=').None?
  {
  }

  lemma {:induction false} GroupsRoundTrip(b: Bytes)
    ensures DecodeGroups(Base64Encode(b)) == Some(b)
    decreases |b|
  {
    hide DecodeGroups, Sixes, Base64Digit;
    if b == [] {
      EmptyRoundTrip();
    } else if |b| == 1 {
      OneByteRoundTrip(b[0]);
      assert b == [b[0]];
    } else if |b| == 2 {
      TwoBytesRoundTrip(b[0], b[1]);
      assert b == [b[0], b[1]];
    } else {
      GroupsRoundTrip(b[3..]);
      QuantumRoundTrip(b[0], b[1], b[2], Base64Encode(b[3..]));
      assert [b[0], b[1], b[2]] + b[3..] == b;
    }
  }

  lemma EmptyRoundTrip()
    ensures DecodeGroups("") == Some([])
  {
  }

  lemma {:induction false} EncodeHasNoNewlines(b: Bytes)
    ensures WithoutNewlines(Base64Encode(b)) == Base64Encode(b)
    decreases |b|
  {
    var s := Base64Encode(b);
    forall i | 0 <= i < |s| ensures s[i] != '\r' && s[i] != '\n' {
      EncodeDigits(b, i);
    }
    NothingToStrip(s);
  }

  lemma {:induction false} EncodeDigits(b: Bytes, i: nat)
    requires i < |Base64Encode(b)|
    ensures Base64Encode(b)[i] != '\r' && Base64Encode(b)[i] != '\n'
    decreases |b|
  {
    if |b| >= 3 && i >= 4 {
      EncodeDigits(b[3..], i - 4);
    }
  }

  lemma {:induction false} NothingToStrip(s: string)
    requires forall i :: 0 <= i < |s| ==> s[i] != '\r' && s[i] != '\n'
    ensures WithoutNewlines(s) == s
  {
    if s == "" {
    } else {
      NothingToStrip(s[1..]);
    }
  }

  /** Base64 decoding undoes encoding for every byte string. */
  lemma Base64RoundTrip(b: Bytes)
    ensures Base64Decode(Base64Encode(b)) == Some(b)
  {
    EncodeHasNoNewlines(b);
    GroupsRoundTrip(b);
  }
}
