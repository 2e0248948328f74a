/** UTF-8, the encoding the signer applies to its plaintext before it is
    MAC'd. Characters are Unicode scalar values (Dafny's `char`), bytes are
    integers below 256. Encoding is total on scalar values; the strict
    decoder is its partner and inverts it, which is what makes the MAC input
    determine the plaintext. */
module Utf8 {
  import opened Wrappers

  type byte = b: int | 0 <= b < 0x100

  /** A continuation byte: 10xxxxxx. */
  predicate IsContinuation(b: byte) {
    0x80 <= b < 0xC0
  }

  /** Integers that are Unicode scalar values (no surrogates, at most U+10FFFF). */
  predicate IsScalar(cp: int) {
    (0 <= cp < 0xD800) || (0xE000 <= cp < 0x11_0000)
  }

  /** The shortest encoding of one character: 1 to 4 bytes, with the lead byte
      announcing the length and every other byte a continuation byte. */
  function EncodeChar(c: char): (bs: seq<byte>)
    ensures 1 <= |bs| <= 4
    ensures |bs| == 1 <==> (c as int) < 0x80
    ensures |bs| == 1 ==> bs[0] == c as int
    ensures forall i :: 1 <= i < |bs| ==> IsContinuation(bs[i])
  {
    var cp := c as int;
    if cp < 0x80 then
      [cp]
    else if cp < 0x800 then
      [0xC0 + cp / 0x40, 0x80 + cp % 0x40]
    else if cp < 0x1_0000 then
      [0xE0 + cp / 0x1000, 0x80 + (cp / 0x40) % 0x40, 0x80 + cp % 0x40]
    else
      [0xF0 + cp / 0x4_0000, 0x80 + (cp / 0x1000) % 0x40, 0x80 + (cp / 0x40) % 0x40, 0x80 + cp % 0x40]
  }

  /** Encodes a string character by character. */
  function Encode(s: string): (bs: seq<byte>)
    ensures |s| <= |bs| <= 4 * |s|
    ensures (forall i :: 0 <= i < |s| ==> (s[i] as int) < 0x80) ==>
              |bs| == |s| && forall i :: 0 <= i < |s| ==> bs[i] == s[i] as int
  {
    if |s| == 0 then [] else EncodeChar(s[0]) + Encode(s[1..])
  }

  /** Decodes the character at the front of `bs`, returning it and the number of
      bytes it occupied. Overlong forms, surrogates and code points above
      U+10FFFF are rejected. */
  function DecodeChar(bs: seq<byte>): (r: Option<(char, nat)>)
    ensures r.Some? ==> 1 <= r.value.1 <= |bs| && r.value.1 <= 4
  {
    if |bs| == 0 then None
    else if bs[0] < 0x80 then Some((bs[0] as char, 1))
    else if 0xC2 <= bs[0] < 0xE0 && |bs| >= 2 && IsContinuation(bs[1]) then
      var cp: int := (bs[0] as int - 0xC0) * 0x40 + (bs[1] as int - 0x80);
      Some((cp as char, 2))
    else if 0xE0 <= bs[0] < 0xF0 && |bs| >= 3 && IsContinuation(bs[1]) && IsContinuation(bs[2]) then
      var cp: int := (bs[0] as int - 0xE0) * 0x1000 + (bs[1] as int - 0x80) * 0x40 + (bs[2] as int - 0x80);
      if 0x800 <= cp && IsScalar(cp) then Some((cp as char, 3)) else None
    else if 0xF0 <= bs[0] < 0xF5 && |bs| >= 4 && IsContinuation(bs[1]) && IsContinuation(bs[2])
            && IsContinuation(bs[3]) then
      var cp: int := (bs[0] as int - 0xF0) * 0x4_0000 + (bs[1] as int - 0x80) * 0x1000 + (bs[2] as int - 0x80) * 0x40 + (bs[3] as int - 0x80);
      if 0x1_0000 <= cp && IsScalar(cp) then Some((cp as char, 4)) else None
    else None
  }

  /** Decodes a whole byte string, or None when any part of it is not UTF-8. */
  function Decode(bs: seq<byte>): (r: Option<string>)
    decreases |bs|
  {
    if |bs| == 0 then Some([])
    else
      match DecodeChar(bs)
      case None => None
      case Some((c, n)) =>
        match Decode(bs[n..])
        case None => None
        case Some(rest) => Some([c] + rest)
  }

  /** Decoding the encoding of a character, followed by anything, yields that
      character and consumes exactly its encoding. */
  lemma DecodeEncodeChar(c: char, rest: seq<byte>)
    ensures DecodeChar(EncodeChar(c) + rest) == Some((c, |EncodeChar(c)|))
  {
    var cp := c as int;
    var bs := EncodeChar(c) + rest;
    if cp < 0x80 {
    } else if cp < 0x800 {
      assert cp == (cp / 0x40) * 0x40 + cp % 0x40;
      assert bs[0] == 0xC0 + cp / 0x40 && bs[1] == 0x80 + cp % 0x40;
    } else if cp < 0x1_0000 {
      Split3(cp);
      assert bs[0] == 0xE0 + cp / 0x1000;
      assert bs[1] == 0x80 + (cp / 0x40) % 0x40 && bs[2] == 0x80 + cp % 0x40;
    } else {
      Split4(cp);
      assert bs[0] == 0xF0 + cp / 0x4_0000;
      assert bs[1] == 0x80 + (cp / 0x1000) % 0x40;
      assert bs[2] == 0x80 + (cp / 0x40) % 0x40 && bs[3] == 0x80 + cp % 0x40;
    }
  }

  lemma Split3(cp: int)
    requires 0 <= cp
    ensures cp == (cp / 0x1000) * 0x1000 + ((cp / 0x40) % 0x40) * 0x40 + cp % 0x40
  {
    var q := cp / 0x40;
    assert cp == q * 0x40 + cp % 0x40;
    assert q == (q / 0x40) * 0x40 + q % 0x40;
    assert q / 0x40 == cp / 0x1000;
  }

  lemma Split4(cp: int)
    requires 0 <= cp
    ensures cp == (cp / 0x4_0000) * 0x4_0000 + ((cp / 0x1000) % 0x40) * 0x1000
                  + ((cp / 0x40) % 0x40) * 0x40 + cp % 0x40
  {
    var q := cp / 0x1000;
    Split3(cp);
    assert q == (q / 0x40) * 0x40 + q % 0x40;
    assert q / 0x40 == cp / 0x4_0000;
  }

  /** The decoder inverts the encoder. */
  lemma {:induction false} DecodeEncode(s: string)
    ensures Decode(Encode(s)) == Some(s)
  {
    if |s| > 0 {
      var head := EncodeChar(s[0]);
      var tail := Encode(s[1..]);
      DecodeEncodeChar(s[0], tail);
      assert (head + tail)[|head|..] == tail;
      DecodeEncode(s[1..]);
      assert [s[0]] + s[1..] == s;
    }
  }

  /** Distinct strings have distinct encodings. */
  lemma EncodeInjective(s: string, t: string)
    requires Encode(s) == Encode(t)
    ensures s == t
  {
    DecodeEncode(s);
    DecodeEncode(t);
  }
}
