/**
 * The browser's `atob`, which the page calls to turn a received payload
 * into a binary string, written out as the forgiving-base64 decode of the
 * WHATWG Infra standard over the alphabet of section 4 of RFC 4648, and
 * its partner `btoa`, the padded encoder of that section.
 *
 * A binary string is a string whose every character has a code below 256;
 * it stands for the byte sequence of those codes.
 */
module Base64 {
  import opened Wrappers

  predicate IsBinary(s: string)
  {
    forall i :: 0 <= i < |s| ==> s[i] as int < 256
  }

  /** TAB, LF, FF, CR and SPACE: the characters `atob` skips. */
  predicate IsAsciiWhitespace(c: char)
  {
    var k := c as int;
    k == 9 || k == 10 || k == 12 || k == 13 || k == 32
  }

  /** A character of the 64-letter alphabet ('=' is not one). */
  predicate IsBase64Char(c: char)
  {
    ('A' <= c <= 'Z') || ('a' <= c <= 'z') || ('0' <= c <= '9') || c == '+' || c == '/'
  }

  predicate AllBase64(s: string)
  {
    forall i :: 0 <= i < |s| ==> IsBase64Char(s[i])
  }

  /** The six-bit value of an alphabet character. */
  function SextetOf(c: char): (v: int)
    requires IsBase64Char(c)
    ensures 0 <= v < 64
  {
    if 'A' <= c <= 'Z' then c as int - 'A' as int
    else if 'a' <= c <= 'z' then c as int - 'a' as int + 26
    else if '0' <= c <= '9' then c as int - '0' as int + 52
    else if c == '+' then 62
    else 63
  }

  /** The alphabet character of a six-bit value. */
  function SextetChar(v: int): (c: char)
    requires 0 <= v < 64
    ensures IsBase64Char(c)
  {
    if v < 26 then ('A' as int + v) as char
    else if v < 52 then ('a' as int + v - 26) as char
    else if v < 62 then ('0' as int + v - 52) as char
    else if v == 62 then '+'
    else '/'
  }

  /** Each six-bit value and its alphabet character determine each other. */
  lemma SextetRoundTrip(v: int)
    requires 0 <= v < 64
    ensures SextetOf(SextetChar(v)) == v
  {
  }

  /** `data` with its ASCII whitespace removed. */
  function StripWhitespace(data: string): (r: string)
    ensures |r| <= |data|
    ensures forall c :: c in r <==> c in data && !IsAsciiWhitespace(c)
  {
    if data == [] then []
    else
      assert data == [data[0]] + data[1..];
      if IsAsciiWhitespace(data[0]) then StripWhitespace(data[1..])
      else [data[0]] + StripWhitespace(data[1..])
  }

  /** Stripping works character by character: it distributes over concatenation. */
  lemma {:induction false} StripWhitespaceConcat(a: string, b: string)
    ensures StripWhitespace(a + b) == StripWhitespace(a) + StripWhitespace(b)
    decreases |a|
  {
    if a == [] {
      assert a + b == b;
    } else {
      assert (a + b)[0] == a[0];
      assert (a + b)[1..] == a[1..] + b;
      StripWhitespaceConcat(a[1..], b);
    }
  }

  /** One character is dropped if it is whitespace and kept otherwise. */
  lemma StripWhitespaceChar(c: char)
    ensures StripWhitespace([c]) == if IsAsciiWhitespace(c) then [] else [c]
  {
    assert [c][1..] == [];
  }

  /** A string without whitespace is left as it is. */
  lemma {:induction false} StripWhitespaceNone(data: string)
    requires forall i :: 0 <= i < |data| ==> !IsAsciiWhitespace(data[i])
    ensures StripWhitespace(data) == data
    decreases |data|
  {
    if data != [] {
      StripWhitespaceNone(data[1..]);
      assert data == [data[0]] + data[1..];
    }
  }

  /** When the length is a multiple of four, one or two trailing '=' are dropped. */
  function DropPadding(data: string): (r: string)
    ensures r <= data && |data| - 2 <= |r|
  {
    if |data| % 4 == 0 && |data| >= 2 && data[|data| - 1] == '=' && data[|data| - 2] == '=' then
      data[..|data| - 2]
    else if |data| % 4 == 0 && |data| >= 1 && data[|data| - 1] == '=' then
      data[..|data| - 1]
    else
      data
  }

  /** First byte of a group: six bits of `a` and the top two of `b`. */
  function Byte0(a: int, b: int): (x: char)
    requires 0 <= a < 64 && 0 <= b < 64
    ensures x as int < 256
  {
    (a * 4 + b / 16) as char
  }

  /** Second byte of a group: the low four bits of `b` and the top four of `c`. */
  function Byte1(b: int, c: int): (x: char)
    requires 0 <= b < 64 && 0 <= c < 64
    ensures x as int < 256
  {
    ((b % 16) * 16 + c / 4) as char
  }

  /** Third byte of a group: the low two bits of `c` and all six of `d`. */
  function Byte2(c: int, d: int): (x: char)
    requires 0 <= c < 64 && 0 <= d < 64
    ensures x as int < 256
  {
    ((c % 4) * 64 + d) as char
  }

  /**
   * Decodes one group of two to four alphabet characters into one to three
   * bytes; the bits left over after the last whole byte are discarded.
   */
  function DecodeGroup(g: string): (r: string)
    requires AllBase64(g) && 2 <= |g| <= 4
    ensures IsBinary(r) && |r| == |g| - 1
  {
    [Byte0(SextetOf(g[0]), SextetOf(g[1]))]
    + (if |g| >= 3 then [Byte1(SextetOf(g[1]), SextetOf(g[2]))] else [])
    + (if |g| == 4 then [Byte2(SextetOf(g[2]), SextetOf(g[3]))] else [])
  }

  /** Decodes alphabet characters group by group, four characters to three bytes. */
  function DecodeSextets(t: string): (r: string)
    requires AllBase64(t) && |t| % 4 != 1
    ensures IsBinary(r)
    ensures |r| == |t| * 3 / 4
    decreases |t|
  {
    if |t| == 0 then []
    else if |t| < 4 then DecodeGroup(t)
    else DecodeGroup(t[..4]) + DecodeSextets(t[4..])
  }

  /**
   * `atob`: `None` is the exception it throws (a length of 1 modulo 4 after
   * whitespace and padding are removed, or a character outside the alphabet).
   */
  function Atob(data: string): (r: Option<string>)
    ensures r.Some? ==> IsBinary(r.value)
    ensures r.Some? ==> |r.value| <= |data| * 3 / 4
  {
    var t := DropPadding(StripWhitespace(data));
    if |t| % 4 == 1 || !AllBase64(t) then None
    else Some(DecodeSextets(t))
  }

  /** Padded encoding of a binary string, three characters to four. */
  function Btoa(s: string): (r: string)
    requires IsBinary(s)
    ensures |r| % 4 == 0
  {
    var e := EncodeSextets(s);
    assert |Padding(s)| == (if |s| % 3 == 0 then 0 else 3 - |s| % 3);
    e + Padding(s)
  }

  /** The '=' characters that complete the last group of four. */
  function Padding(s: string): string
  {
    if |s| % 3 == 1 then "==" else if |s| % 3 == 2 then "=" else ""
  }

  /** The encoding without its padding. */
  function EncodeSextets(s: string): (r: string)
    requires IsBinary(s)
    ensures AllBase64(r)
    ensures |r| % 4 == (if |s| % 3 == 0 then 0 else |s| % 3 + 1)
    ensures |s| > 0 ==> |r| >= 2
    decreases |s|
  {
    if |s| == 0 then []
    else if |s| < 3 then EncodeChunk(s)
    else
      var rest := EncodeSextets(s[3..]);
      LengthStep(|s[3..]|, |rest|);
      EncodeChunk(s[..3]) + rest
  }

  /** Adding one group leaves the lengths' residues unchanged. */
  lemma LengthStep(n: nat, m: nat)
    ensures (n + 3) % 3 == n % 3 && (m + 4) % 4 == m % 4
  {
  }

  /** The four characters that carry the bytes `x`, `y`, `z`, six bits each. */
  function EncodeGroup(x: int, y: int, z: int): (g: string)
    requires 0 <= x < 256 && 0 <= y < 256 && 0 <= z < 256
    ensures |g| == 4 && AllBase64(g)
  {
    [SextetChar(x / 4), SextetChar((x % 4) * 16 + y / 16),
     SextetChar((y % 16) * 4 + z / 64), SextetChar(z % 64)]
  }

  /**
   * One to three characters become two to four: missing bytes count as
   * zero and only the characters that carry real bits are kept.
   */
  function EncodeChunk(s: string): (g: string)
    requires IsBinary(s) && 1 <= |s| <= 3
    ensures |g| == |s| + 1 && AllBase64(g)
  {
    var x := s[0] as int;
    var y := if |s| >= 2 then s[1] as int else 0;
    var z := if |s| == 3 then s[2] as int else 0;
    EncodeGroup(x, y, z)[..|s| + 1]
  }

  /** The byte formulas take back the six-bit values a group of three bytes is cut into. */
  lemma GroupRoundTrip(x: int, y: int, z: int)
    requires 0 <= x < 256 && 0 <= y < 256 && 0 <= z < 256
    ensures Byte0(x / 4, (x % 4) * 16 + y / 16) as int == x
    ensures Byte1((x % 4) * 16 + y / 16, (y % 16) * 4 + z / 64) as int == y
    ensures Byte2((y % 16) * 4 + z / 64, z % 64) as int == z
  {
  }

  /** Decoding the encoding of one chunk gives the chunk back. */
  lemma ChunkRoundTrip(s: string)
    requires IsBinary(s) && 1 <= |s| <= 3
    ensures DecodeGroup(EncodeChunk(s)) == s
  {
    var x := s[0] as int;
    var y := if |s| >= 2 then s[1] as int else 0;
    var z := if |s| == 3 then s[2] as int else 0;
    SextetRoundTrip(x / 4);
    SextetRoundTrip((x % 4) * 16 + y / 16);
    SextetRoundTrip((y % 16) * 4 + z / 64);
    SextetRoundTrip(z % 64);
    GroupRoundTrip(x, y, z);
  }

  /** Decoding a whole group followed by more characters decodes them one after the other. */
  lemma DecodeSextetsSplit(g: string, rest: string)
    requires AllBase64(g) && |g| == 4 && AllBase64(rest) && |rest| % 4 != 1
    ensures AllBase64(g + rest)
    ensures DecodeSextets(g + rest) == DecodeGroup(g) + DecodeSextets(rest)
  {
    var t := g + rest;
    assert t[..4] == g && t[4..] == rest;
  }

  /** Decoding undoes the unpadded encoding. */
  lemma {:induction false} DecodeEncodeSextets(s: string)
    requires IsBinary(s)
    ensures DecodeSextets(EncodeSextets(s)) == s
    decreases |s|
  {
    if |s| == 0 {
    } else if |s| < 3 {
      ChunkRoundTrip(s);
    } else {
      var head, tail := s[..3], s[3..];
      ChunkRoundTrip(head);
      DecodeEncodeSextets(tail);
      DecodeSextetsSplit(EncodeChunk(head), EncodeSextets(tail));
      assert s == head + tail;
    }
  }

  /** The output of `btoa` holds no whitespace, so `atob`'s first step keeps it whole. */
  lemma BtoaStripped(s: string)
    requires IsBinary(s)
    ensures StripWhitespace(Btoa(s)) == Btoa(s)
  {
    var e := EncodeSextets(s);
    var b := Btoa(s);
    forall i | 0 <= i < |b| ensures !IsAsciiWhitespace(b[i]) {
      if i < |e| { assert IsBase64Char(e[i]); } else { assert b[i] == '='; }
    }
    StripWhitespaceNone(b);
  }

  /** Removing the padding from the output of `btoa` leaves the unpadded encoding. */
  lemma BtoaUnpadded(s: string)
    requires IsBinary(s)
    ensures DropPadding(Btoa(s)) == EncodeSextets(s)
  {
    var e := EncodeSextets(s);
    var b := Btoa(s);
    assert b == e + Padding(s);
    if |s| % 3 == 1 {
      assert IsBase64Char(e[|e| - 2]) && b[|b| - 1] == '=' && b[|b| - 2] == '=';
      assert b[..|b| - 2] == e;
    } else if |s| % 3 == 2 {
      assert IsBase64Char(e[|e| - 1]) && b[|b| - 1] == '=' && b[|b| - 2] != '=';
      assert b[..|b| - 1] == e;
    } else {
      assert b == e;
      assert |e| > 0 ==> IsBase64Char(e[|e| - 1]);
    }
  }

  /** `atob` inverts `btoa`: every binary string survives the round trip. */
  lemma AtobBtoa(s: string)
    requires IsBinary(s)
    ensures Atob(Btoa(s)) == Some(s)
  {
    BtoaStripped(s);
    BtoaUnpadded(s);
    DecodeEncodeSextets(s);
  }
}
