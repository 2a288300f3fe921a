/** The base64 encoding of the graph image: Python's `base64.b64encode`
    on the producing side, and the forgiving-base64 decode of the WHATWG
    Infra standard (the algorithm behind the browser's `atob`) on the
    consuming side. Both use the alphabet of section 4 of RFC 4648.

    Each direction is taken in two layers: bytes and 6-bit values (the
    arithmetic), and 6-bit values and alphabet characters (the alphabet). */
module Base64 {
  import opened Wrappers

  type byte = x: int | 0 <= x < 256
  type sextet = x: int | 0 <= x < 64

  // ---------------------------------------------------------------------
  // The alphabet
  // ---------------------------------------------------------------------

  /** The 64 characters of the base64 alphabet (RFC 4648, section 4, table 1). */
  predicate IsAlphabetChar(c: char) {
    ('A' <= c <= 'Z') || ('a' <= c <= 'z') || ('0' <= c <= '9') || c == '+' || c == '/'
  }

  predicate AllAlphabet(s: string) {
    forall i :: 0 <= i < |s| ==> IsAlphabetChar(s[i])
  }

  /** The character that encodes a 6-bit value. */
  function CharOf(v: sextet): (c: char)
    ensures IsAlphabetChar(c)
  {
    if v < 26 then ('A' as int + v) as char
    else if v < 52 then ('a' as int + (v - 26)) as char
    else if v < 62 then ('0' as int + (v - 52)) as char
    else if v == 62 then '+'
    else '/'
  }

  /** The 6-bit value a character of the alphabet encodes. */
  function SextetOf(c: char): (v: sextet)
    requires IsAlphabetChar(c)
    ensures CharOf(v) == c
  {
    if 'A' <= c <= 'Z' then c as int - 'A' as int
    else if 'a' <= c <= 'z' then c as int - 'a' as int + 26
    else if '0' <= c <= '9' then c as int - '0' as int + 52
    else if c == '+' then 62
    else 63
  }

  lemma CharOfInjective(v: sextet, w: sextet)
    ensures CharOf(v) == CharOf(w) ==> v == w
  {
  }

  lemma SextetOfCharOf(v: sextet)
    ensures SextetOf(CharOf(v)) == v
  {
    CharOfInjective(SextetOf(CharOf(v)), v);
  }

  /** The characters for a run of 6-bit values. */
  function Chars(v: seq<sextet>): (s: string)
    ensures |s| == |v| && AllAlphabet(s)
  {
    seq(|v|, i requires 0 <= i < |v| => CharOf(v[i]))
  }

  /** The 6-bit values for a run of alphabet characters. */
  function SextetsOf(d: string): (v: seq<sextet>)
    requires AllAlphabet(d)
    ensures |v| == |d|
  {
    seq(|d|, i requires 0 <= i < |d| => SextetOf(d[i]))
  }

  lemma SextetsOfChars(v: seq<sextet>)
    ensures SextetsOf(Chars(v)) == v
  {
    forall i | 0 <= i < |v| ensures SextetsOf(Chars(v))[i] == v[i] {
      SextetOfCharOf(v[i]);
    }
  }

  // ---------------------------------------------------------------------
  // Bytes and 6-bit values
  // ---------------------------------------------------------------------

  /** Three bytes as four 6-bit values, most significant bits first. */
  function Split(b0: byte, b1: byte, b2: byte): (v: seq<sextet>)
    ensures |v| == 4
  {
    [b0 / 4, (b0 % 4) * 16 + b1 / 16, (b1 % 16) * 4 + b2 / 64, b2 % 64]
  }

  /** Four 6-bit values as the three bytes of their 24 bits. */
  function Join(s0: sextet, s1: sextet, s2: sextet, s3: sextet): (b: seq<byte>)
    ensures |b| == 3
  {
    [s0 * 4 + s1 / 16, (s1 % 16) * 16 + s2 / 4, (s2 % 4) * 64 + s3]
  }

  /** The 6-bit values of the encoding: four for every three bytes, and the
      first three or two of a group for a final two or one bytes (the low bits
      beyond the data are zero). */
  function SplitAll(b: seq<byte>): (v: seq<sextet>)
    decreases |b|
  {
    if |b| >= 3 then Split(b[0], b[1], b[2]) + SplitAll(b[3..])
    else if |b| == 2 then Split(b[0], b[1], 0)[..3]
    else if |b| == 1 then Split(b[0], 0, 0)[..2]
    else []
  }

  /** The bytes of a run of 6-bit values: three for each group of four, two for
      a final three and one for a final two; bits left over are discarded. A
      single leftover value is refused by `ForgivingDecode` before this runs. */
  function JoinAll(v: seq<sextet>): (b: seq<byte>)
    ensures |b| == |v| * 3 / 4
    decreases |v|
  {
    if |v| >= 4 then Join(v[0], v[1], v[2], v[3]) + JoinAll(v[4..])
    else if |v| == 3 then Join(v[0], v[1], v[2], 0)[..2]
    else if |v| == 2 then Join(v[0], v[1], 0, 0)[..1]
    else []
  }

  lemma JoinSplit(b0: byte, b1: byte, b2: byte)
    ensures var v := Split(b0, b1, b2); Join(v[0], v[1], v[2], v[3]) == [b0, b1, b2]
  {
  }

  /** Joining the split of any bytes gives the bytes back. */
  lemma {:induction false} JoinAllSplitAll(b: seq<byte>)
    ensures JoinAll(SplitAll(b)) == b
    decreases |b|
  {
    if |b| >= 3 {
      var v, rest := Split(b[0], b[1], b[2]), SplitAll(b[3..]);
      var w := v + rest;
      assert w[..4] == v && w[4..] == rest;
      JoinSplit(b[0], b[1], b[2]);
      JoinAllSplitAll(b[3..]);
      assert b == [b[0], b[1], b[2]] + b[3..];
    } else if |b| == 2 {
      JoinSplit(b[0], b[1], 0);
    } else if |b| == 1 {
      JoinSplit(b[0], 0, 0);
    }
  }

  /** The split has four values per group of three bytes, plus three for a
      final two bytes or two for a final byte. */
  lemma {:induction false} SplitAllLength(b: seq<byte>)
    ensures |SplitAll(b)| == 4 * (|b| / 3) + (if |b| % 3 == 0 then 0 else |b| % 3 + 1)
    ensures |SplitAll(b)| % 4 == (if |b| % 3 == 0 then 0 else |b| % 3 + 1)
    ensures |SplitAll(b)| == 0 <==> |b| == 0
    decreases |b|
  {
    if |b| >= 3 {
      SplitAllLength(b[3..]);
      assert |b[3..]| / 3 == |b| / 3 - 1 && |b[3..]| % 3 == |b| % 3;
    }
  }

  // ---------------------------------------------------------------------
  // Encoding (Python's base64.b64encode)
  // ---------------------------------------------------------------------

  /** The alphabet characters for `b`, before padding. */
  function EncodeUnpadded(b: seq<byte>): (s: string)
    ensures AllAlphabet(s)
  {
    Chars(SplitAll(b))
  }

  /** The '=' characters that complete the last group of four. */
  function Padding(n: nat): (p: string)
    ensures |p| == (if n % 3 == 1 then 2 else if n % 3 == 2 then 1 else 0)
    ensures forall i :: 0 <= i < |p| ==> p[i] == '='
  {
    if n % 3 == 1 then "==" else if n % 3 == 2 then "=" else ""
  }

  /** `base64.b64encode(b).decode('utf-8')`: the padded standard encoding,
      without line breaks. It has four characters for every started group of
      three bytes: it fills whole groups of four and is empty exactly for
      no bytes. */
  function Encode(b: seq<byte>): (s: string)
    ensures |s| % 4 == 0
    ensures |s| == 0 <==> |b| == 0
  {
    SplitAllLength(b);
    EncodeSize(|b|, |SplitAll(b)|, |Padding(|b|)|);
    EncodeUnpadded(b) + Padding(|b|)
  }

  /** The length arithmetic of `Encode`: n bytes give u characters before and
      p characters of padding. */
  lemma EncodeSize(n: nat, u: nat, p: nat)
    requires u == 4 * (n / 3) + (if n % 3 == 0 then 0 else n % 3 + 1)
    requires p == (if n % 3 == 1 then 2 else if n % 3 == 2 then 1 else 0)
    ensures (u + p) % 4 == 0
    ensures u + p == 0 <==> n == 0
  {
    var q := n / 3;
    assert u + p == 4 * q || u + p == 4 * (q + 1);
  }

  // ---------------------------------------------------------------------
  // Decoding (forgiving-base64 decode, as used by atob)
  // ---------------------------------------------------------------------

  /** ASCII whitespace: TAB, LF, FF, CR and SPACE. */
  predicate IsAsciiWhitespace(c: char) {
    c == '\t' || c == '\n' || c as int == 0x0C || c == '\r' || c == ' '
  }

  predicate NoWhitespace(s: string) {
    forall i :: 0 <= i < |s| ==> !IsAsciiWhitespace(s[i])
  }

  /** Step 1: drop every ASCII whitespace character, keeping the others in order. */
  function RemoveWhitespace(s: string): (r: string)
    ensures NoWhitespace(r) && |r| <= |s|
  {
    if s == [] then []
    else if IsAsciiWhitespace(s[0]) then RemoveWhitespace(s[1..])
    else [s[0]] + RemoveWhitespace(s[1..])
  }

  /** Step 2: when the length is a multiple of four, drop one or two trailing '='. */
  function RemovePadding(s: string): (r: string)
    ensures |r| <= |s| && |s| - |r| <= 2 && r == s[..|r|]
    ensures forall i :: |r| <= i < |s| ==> s[i] == '='
    ensures |s| % 4 != 0 ==> r == s
    ensures |s| % 4 == 0 && |s| >= 1 && s[|s| - 1] == '=' ==> |r| < |s|
    ensures |s| % 4 == 0 && |s| >= 2 && s[|s| - 2] == '=' && s[|s| - 1] == '=' ==> |r| == |s| - 2
    ensures forall c :: c in s && c != '=' ==> c in r
  {
    if |s| % 4 == 0 && |s| >= 2 && s[|s| - 2] == '=' && s[|s| - 1] == '=' then
      assert forall c :: c in s && c != '=' ==> c in s[..|s| - 2] by {
        assert s == s[..|s| - 2] + [s[|s| - 2], s[|s| - 1]];
      }
      s[..|s| - 2]
    else if |s| % 4 == 0 && |s| >= 1 && s[|s| - 1] == '=' then
      assert forall c :: c in s && c != '=' ==> c in s[..|s| - 1] by {
        assert s == s[..|s| - 1] + [s[|s| - 1]];
      }
      s[..|s| - 1]
    else
      s
  }

  /** Forgiving-base64 decode; `None` is the failure that makes `atob` throw:
      a length of one more than a multiple of four, or a character outside the
      alphabet, once whitespace and padding are removed. */
  function ForgivingDecode(s: string): (r: Option<seq<byte>>)
    ensures r.Some? ==> |r.value| == |RemovePadding(RemoveWhitespace(s))| * 3 / 4
  {
    var d := RemovePadding(RemoveWhitespace(s));
    if |d| % 4 == 1 then None
    else if !AllAlphabet(d) then None
    else Some(JoinAll(SextetsOf(d)))
  }

  /** The "binary string" `atob` returns: one character per decoded byte, whose
      code is that byte. */
  function BinaryString(b: seq<byte>): (s: string)
    ensures |s| == |b|
    ensures forall i :: 0 <= i < |b| ==> s[i] as int == b[i]
  {
    seq(|b|, i requires 0 <= i < |b| => b[i] as char)
  }

  /** `atob(s)`: the binary string of the decoded bytes, or `None` when it throws. */
  function Atob(s: string): (r: Option<string>)
    ensures r.Some? <==> ForgivingDecode(s).Some?
    ensures r.Some? ==> |r.value| == |ForgivingDecode(s).value|
    ensures r.Some? ==> forall i :: 0 <= i < |r.value| ==> r.value[i] as int < 256
    ensures r.Some? ==> forall i :: 0 <= i < |r.value| ==> r.value[i] as int == ForgivingDecode(s).value[i]
  {
    match ForgivingDecode(s)
    case None => None
    case Some(b) => Some(BinaryString(b))
  }

  /** `Uint8Array.from(str, (c) => c.charCodeAt(0))` on a binary string: one
      byte per character, holding its code. */
  function CharCodes(str: string): (b: seq<byte>)
    requires forall i :: 0 <= i < |str| ==> str[i] as int < 256
    ensures |b| == |str|
    ensures forall i :: 0 <= i < |str| ==> b[i] == str[i] as int
  {
    seq(|str|, i requires 0 <= i < |str| => str[i] as int)
  }

  // ---------------------------------------------------------------------
  // Properties
  // ---------------------------------------------------------------------

  /** The byte array built from `atob`'s output is exactly the decoded bytes. */
  lemma CharCodesOfBinaryString(b: seq<byte>)
    ensures CharCodes(BinaryString(b)) == b
  {
    var s := BinaryString(b);
    assert forall i :: 0 <= i < |b| ==> CharCodes(s)[i] == b[i];
  }

  /** Whitespace removal works character by character: it keeps the order
      and the number of the other characters. */
  lemma {:induction false} RemoveWhitespaceAppend(a: string, b: string)
    ensures RemoveWhitespace(a + b) == RemoveWhitespace(a) + RemoveWhitespace(b)
    decreases |a|
  {
    if a != [] {
      assert (a + b)[0] == a[0] && (a + b)[1..] == a[1..] + b;
      RemoveWhitespaceAppend(a[1..], b);
    } else {
      assert a + b == b;
    }
  }

  /** The characters left are exactly the input's characters that are not whitespace. */
  lemma {:induction false} RemoveWhitespaceMembers(s: string)
    ensures forall c :: c in RemoveWhitespace(s) <==> c in s && !IsAsciiWhitespace(c)
    decreases |s|
  {
    if s != [] {
      RemoveWhitespaceMembers(s[1..]);
      assert s == [s[0]] + s[1..];
    }
  }

  /** A string without whitespace is left as it is. */
  lemma {:induction false} RemoveWhitespaceKeeps(s: string)
    requires NoWhitespace(s)
    ensures RemoveWhitespace(s) == s
  {
    if s != [] {
      assert NoWhitespace(s[1..]) by {
        forall i | 0 <= i < |s[1..]| ensures !IsAsciiWhitespace(s[1..][i]) {
          assert s[1..][i] == s[i + 1];
        }
      }
      RemoveWhitespaceKeeps(s[1..]);
      assert s == [s[0]] + s[1..];
    }
  }

  lemma EncodeHasNoWhitespace(b: seq<byte>)
    ensures NoWhitespace(Encode(b))
  {
    var u, p := EncodeUnpadded(b), Padding(|b|);
    forall i | 0 <= i < |u + p| ensures !IsAsciiWhitespace((u + p)[i]) {
      if i < |u| {
        assert IsAlphabetChar(u[i]);
      } else {
        assert p[i - |u|] == '=';
      }
    }
  }

  /** The output of `Encode` has padding only where `RemovePadding` takes it off. */
  lemma RemovePaddingOfEncode(b: seq<byte>)
    ensures RemovePadding(Encode(b)) == EncodeUnpadded(b)
  {
    var u, p := EncodeUnpadded(b), Padding(|b|);
    var s := u + p;
    assert s == Encode(b);
    assert |s| % 4 == 0;
    assert |s| == |u| + |p|;
    if |b| % 3 == 1 {
      assert s[..|s| - 2] == u;
    } else if |b| % 3 == 2 {
      assert |u| >= 1 && s[|s| - 2] == u[|u| - 1];
      assert s[..|s| - 1] == u;
    } else {
      assert s == u;
      if |s| >= 1 {
        assert IsAlphabetChar(u[|u| - 1]);
      }
    }
  }

  /** Round trip: `atob` decodes what `base64.b64encode` produced. */
  lemma ForgivingDecodeOfEncode(b: seq<byte>)
    ensures ForgivingDecode(Encode(b)) == Some(b)
  {
    EncodeHasNoWhitespace(b);
    RemoveWhitespaceKeeps(Encode(b));
    RemovePaddingOfEncode(b);
    SplitAllLength(b);
    SextetsOfChars(SplitAll(b));
    JoinAllSplitAll(b);
  }

  /** The image bytes the page builds from the encoded graph are the original bytes. */
  lemma ImageBytesRoundTrip(b: seq<byte>)
    ensures Atob(Encode(b)) == Some(BinaryString(b))
    ensures CharCodes(BinaryString(b)) == b
  {
    ForgivingDecodeOfEncode(b);
    CharCodesOfBinaryString(b);
  }

  /** A character outside the alphabet, other than whitespace and '=', makes `atob` throw. */
  lemma ForeignCharacterFails(s: string, c: char)
    requires c in s && !IsAsciiWhitespace(c) && !IsAlphabetChar(c) && c != '='
    ensures ForgivingDecode(s) == None
  {
    RemoveWhitespaceMembers(s);
    var d := RemovePadding(RemoveWhitespace(s));
    assert c in d;
    var i :| 0 <= i < |d| && d[i] == c;
    assert !IsAlphabetChar(d[i]);
  }

  /** A lone leftover character makes `atob` throw: a string without
      whitespace and '=' whose length is one more than a multiple of four. */
  lemma DanglingCharacterFails(s: string)
    requires NoWhitespace(s) && '=' !in s && |s| % 4 == 1
    ensures ForgivingDecode(s) == None
  {
    RemoveWhitespaceKeeps(s);
  }
}
