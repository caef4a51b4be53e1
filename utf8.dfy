/** Well-formed UTF-8, as mbstring's strict check accepts it, and the Latin-1
    to UTF-8 conversion of PHP's utf8_encode(). */
module Utf8 {
  import opened Common

  predicate IsCont(b: byte)
  {
    0x80 <= b <= 0xBF
  }

  /** The length of the well-formed UTF-8 character at the start of s, or 0 when
      s does not start with one (overlong forms, surrogates and code points above
      U+10FFFF are not well formed). */
  function CharLen(s: Bytes): (r: nat)
    ensures r <= |s| && r <= 4
    ensures s != [] && s[0] < 0x80 ==> r == 1
    ensures r > 1 ==> 0xC2 <= s[0] <= 0xF4 && forall k :: 1 <= k < r ==> IsCont(s[k])
  {
    if |s| == 0 then 0
    else if s[0] < 0x80 then 1
    else if 0xC2 <= s[0] <= 0xDF then
      if |s| >= 2 && IsCont(s[1]) then 2 else 0
    else if s[0] == 0xE0 then
      if |s| >= 3 && 0xA0 <= s[1] <= 0xBF && IsCont(s[2]) then 3 else 0
    else if 0xE1 <= s[0] <= 0xEC || 0xEE <= s[0] <= 0xEF then
      if |s| >= 3 && IsCont(s[1]) && IsCont(s[2]) then 3 else 0
    else if s[0] == 0xED then
      if |s| >= 3 && 0x80 <= s[1] <= 0x9F && IsCont(s[2]) then 3 else 0
    else if s[0] == 0xF0 then
      if |s| >= 4 && 0x90 <= s[1] <= 0xBF && IsCont(s[2]) && IsCont(s[3]) then 4 else 0
    else if 0xF1 <= s[0] <= 0xF3 then
      if |s| >= 4 && IsCont(s[1]) && IsCont(s[2]) && IsCont(s[3]) then 4 else 0
    else if s[0] == 0xF4 then
      if |s| >= 4 && 0x80 <= s[1] <= 0x8F && IsCont(s[2]) && IsCont(s[3]) then 4 else 0
    else 0
  }

  /** s is a sequence of well-formed UTF-8 characters (pure ASCII included): the
      strings for which mb_detect_encoding(s, ['ASCII', 'UTF-8'], true) is not false. */
  predicate IsUtf8(s: Bytes)
    decreases |s|
  {
    s == [] || (CharLen(s) > 0 && IsUtf8(s[CharLen(s)..]))
  }

  predicate IsAscii(s: Bytes)
  {
    forall i :: 0 <= i < |s| ==> s[i] < 0x80
  }

  /** The UTF-8 form of one Latin-1 character. */
  function Latin1Char(b: byte): (r: Bytes)
    ensures CharLen(r) == |r| > 0
  {
    if b < 0x80 then [b] else [0xC0 + b / 64, 0x80 + b % 64]
  }

  /** utf8_encode(): every byte is read as a Latin-1 character and written in UTF-8. */
  function Latin1ToUtf8(s: Bytes): Bytes
  {
    if s == [] then [] else Latin1Char(s[0]) + Latin1ToUtf8(s[1..])
  }

  /** The inverse conversion, utf8_decode() restricted to the characters that
      utf8_encode() produces. */
  function Utf8ToLatin1(s: Bytes): Bytes
    decreases |s|
  {
    if s == [] then []
    else if s[0] < 0x80 || |s| == 1 then [s[0]] + Utf8ToLatin1(s[1..])
    else [((s[0] as int - 0xC0) * 64 + s[1] as int - 0x80) % 256] + Utf8ToLatin1(s[2..])
  }

  /** A character followed by a valid string is a valid string. */
  lemma CharThenUtf8(c: Bytes, rest: Bytes)
    requires CharLen(c) == |c| > 0 && IsUtf8(rest)
    ensures IsUtf8(c + rest)
  {
    var s := c + rest;
    assert s[..|c|] == c;
    assert CharLen(s) == CharLen(c);
    assert s[|c|..] == rest;
  }

  /** The output of utf8_encode() always passes the strict UTF-8 check. */
  lemma {:induction false} Latin1ToUtf8IsUtf8(s: Bytes)
    ensures IsUtf8(Latin1ToUtf8(s))
    decreases |s|
  {
    if s != [] {
      Latin1ToUtf8IsUtf8(s[1..]);
      CharThenUtf8(Latin1Char(s[0]), Latin1ToUtf8(s[1..]));
    }
  }

  /** utf8_encode() loses nothing: decoding its output gives the input back. */
  lemma {:induction false} Latin1RoundTrip(s: Bytes)
    ensures Utf8ToLatin1(Latin1ToUtf8(s)) == s
    decreases |s|
  {
    if s != [] {
      var c, rest := Latin1Char(s[0]), Latin1ToUtf8(s[1..]);
      Latin1RoundTrip(s[1..]);
      assert (c + rest)[|c|..] == rest;
      if s[0] >= 0x80 {
        assert ((s[0] as int / 64) * 64 + s[0] as int % 64) % 256 == s[0];
      }
    }
  }

  /** ASCII text is valid UTF-8 and utf8_encode() leaves it as it is. */
  lemma {:induction false} AsciiUnchanged(s: Bytes)
    requires IsAscii(s)
    ensures IsUtf8(s) && Latin1ToUtf8(s) == s
    decreases |s|
  {
    if s != [] {
      AsciiUnchanged(s[1..]);
      assert [s[0]] + s[1..] == s;
      CharThenUtf8([s[0]], s[1..]);
    }
  }
}
