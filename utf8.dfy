/**
 * UTF-8, as `wcstombs` produces it under the indexer's ru_RU.UTF-8 locale: the
 * encoding of a wide-character term as the byte string the query engine
 * compares its query terms with.
 */
module Utf8 {
  import opened ByteCodec

  /** The bytes of one code point: 1 to 4 of them, by its size. */
  function EncodeChar(c: char): (r: Bytes)
    ensures 1 <= |r| <= 4
  {
    var x := c as int;
    if x < 0x80 then [x as byte]
    else if x < 0x800 then [(0xC0 + x / 64) as byte, (0x80 + x % 64) as byte]
    else if x < 0x10000 then [(0xE0 + x / 4096) as byte, (0x80 + (x / 64) % 64) as byte, (0x80 + x % 64) as byte]
    else [(0xF0 + x / 262144) as byte, (0x80 + (x / 4096) % 64) as byte, (0x80 + (x / 64) % 64) as byte, (0x80 + x % 64) as byte]
  }

  function Encode(s: seq<char>): (r: Bytes)
    ensures |s| <= |r| <= 4 * |s|
  {
    if s == [] then [] else EncodeChar(s[0]) + Encode(s[1..])
  }

  /** How many bytes a sequence that starts with lead occupies. */
  function SequenceLength(lead: byte): (n: nat)
    ensures 1 <= n <= 4
  {
    if lead < 0xC0 then 1 else if lead < 0xE0 then 2 else if lead < 0xF0 then 3 else 4
  }

  function Payload(b: byte): int { b as int - 0x80 }

  /** The code point of one encoded sequence. */
  function DecodePoint(bs: Bytes): int
    requires 1 <= |bs| <= 4
  {
    if |bs| == 1 then bs[0] as int
    else if |bs| == 2 then (bs[0] as int - 0xC0) * 64 + Payload(bs[1])
    else if |bs| == 3 then (bs[0] as int - 0xE0) * 4096 + Payload(bs[1]) * 64 + Payload(bs[2])
    else (bs[0] as int - 0xF0) * 262144 + Payload(bs[1]) * 4096 + Payload(bs[2]) * 64 + Payload(bs[3])
  }

  /** The code points of a byte string, read one sequence at a time. */
  function DecodePoints(bs: Bytes): seq<int>
    decreases |bs|
  {
    if bs == [] then []
    else
      var n := SequenceLength(bs[0]);
      if n > |bs| then [] else [DecodePoint(bs[..n])] + DecodePoints(bs[n..])
  }

  function CodePoints(s: seq<char>): (r: seq<int>)
    ensures |r| == |s| && forall i :: 0 <= i < |s| ==> r[i] == s[i] as int
  {
    if s == [] then [] else [s[0] as int] + CodePoints(s[1..])
  }

  /** A code point's encoding announces its own length and decodes to it. */
  lemma CharRoundTrip(c: char)
    ensures SequenceLength(EncodeChar(c)[0]) == |EncodeChar(c)|
    ensures DecodePoint(EncodeChar(c)) == c as int
  {
    var x := c as int;
    if x < 0x80 {
    } else if x < 0x800 {
      assert x == (x / 64) * 64 + x % 64;
    } else if x < 0x10000 {
      assert x / 64 == (x / 4096) * 64 + (x / 64) % 64;
      assert x == (x / 64) * 64 + x % 64;
    } else {
      assert x / 4096 == (x / 262144) * 64 + (x / 4096) % 64;
      assert x / 64 == (x / 4096) * 64 + (x / 64) % 64;
      assert x == (x / 64) * 64 + x % 64;
    }
  }

  lemma {:induction false} RoundTrip(s: seq<char>)
    ensures DecodePoints(Encode(s)) == CodePoints(s)
  {
    if s != [] {
      var e := EncodeChar(s[0]);
      var bs := Encode(s);
      assert bs == e + Encode(s[1..]);
      CharRoundTrip(s[0]);
      assert bs[0] == e[0];
      assert bs[..|e|] == e && bs[|e|..] == Encode(s[1..]);
      RoundTrip(s[1..]);
    }
  }

  /** Different terms have different encodings, so the engine can tell them apart. */
  lemma Injective(s: seq<char>, t: seq<char>)
    requires Encode(s) == Encode(t)
    ensures s == t
  {
    RoundTrip(s);
    RoundTrip(t);
    assert CodePoints(s) == CodePoints(t);
    assert |s| == |t|;
    forall i | 0 <= i < |s|
      ensures s[i] == t[i]
    {
      assert CodePoints(s)[i] == CodePoints(t)[i];
    }
  }

  /** NUL is the only code point encoded with a zero byte. */
  lemma {:induction false} NoZeroByte(s: seq<char>)
    requires forall i :: 0 <= i < |s| ==> s[i] != '\0'
    ensures forall i :: 0 <= i < |Encode(s)| ==> Encode(s)[i] != 0
  {
    if s != [] {
      NoZeroByte(s[1..]);
      var e := EncodeChar(s[0]);
      assert s[0] != '\0';
      assert forall i :: 0 <= i < |e| ==> e[i] != 0;
      assert Encode(s) == e + Encode(s[1..]);
    }
  }
}
