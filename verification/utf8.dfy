/** UTF-8, the byte encoding of every Rust `str`. The base64 encoder of the
    credential provider works on the bytes of a string, so the model needs
    the encoding and, as its partner, a decoder that inverts it. */
module Utf8 {
  import opened Wrappers
  import opened Ints

  /** A continuation byte `10xxxxxx`. */
  predicate IsContinuation(b: u8) {
    0x80 <= b < 0xC0
  }

  /** The one to four bytes that encode one Unicode scalar value. */
  function EncodeChar(c: char): (r: seq<u8>)
    ensures 1 <= |r| <= 4
    ensures (r[0] < 0x80) == (|r| == 1)
    ensures forall i | 1 <= i < |r| :: IsContinuation(r[i])
  {
    var cp := c as int;
    if cp < 0x80 then
      [cp as u8]
    else if cp < 0x800 then
      [(0xC0 + cp / 0x40) as u8, (0x80 + cp % 0x40) as u8]
    else if cp < 0x1_0000 then
      [(0xE0 + cp / 0x1000) as u8, (0x80 + cp / 0x40 % 0x40) as u8, (0x80 + cp % 0x40) as u8]
    else
      [(0xF0 + cp / 0x4_0000) as u8, (0x80 + cp / 0x1000 % 0x40) as u8,
       (0x80 + cp / 0x40 % 0x40) as u8, (0x80 + cp % 0x40) as u8]
  }

  /** The bytes of a string: the concatenated encodings of its characters. */
  function Encode(s: string): (r: seq<u8>)
    ensures |s| <= |r| <= 4 * |s|
  {
    if s == [] then [] else EncodeChar(s[0]) + Encode(s[1..])
  }

  /** Is `cp` a Unicode scalar value (a code point that is not a surrogate)? */
  predicate IsScalar(cp: int) {
    0 <= cp < 0xD800 || 0xE000 <= cp < 0x11_0000
  }

  /** Decodes the first character of `bs` and says how many bytes it took;
      `None` for an invalid lead byte, a missing or wrong continuation byte,
      an overlong form, a surrogate or a value beyond U+10FFFF. */
  function DecodeChar(bs: seq<u8>): (r: Option<(char, nat)>)
    requires bs != []
    ensures r.Some? ==> 1 <= r.value.1 <= |bs|
  {
    var b0 := bs[0] as int;
    if b0 < 0x80 then
      Some((b0 as char, 1))
    else if 0xC0 <= b0 < 0xE0 && |bs| >= 2 && IsContinuation(bs[1]) then
      var cp := (b0 - 0xC0) * 0x40 + (bs[1] as int - 0x80);
      if 0x80 <= cp then Some((cp as char, 2)) else None
    else if 0xE0 <= b0 < 0xF0 && |bs| >= 3 && IsContinuation(bs[1]) && IsContinuation(bs[2]) then
      var cp := (b0 - 0xE0) * 0x1000 + (bs[1] as int - 0x80) * 0x40 + (bs[2] as int - 0x80);
      if 0x800 <= cp && IsScalar(cp) then Some((cp as char, 3)) else None
    else if 0xF0 <= b0 < 0xF8 && |bs| >= 4
            && IsContinuation(bs[1]) && IsContinuation(bs[2]) && IsContinuation(bs[3]) then
      var cp := (b0 - 0xF0) * 0x4_0000 + (bs[1] as int - 0x80) * 0x1000
                + (bs[2] as int - 0x80) * 0x40 + (bs[3] as int - 0x80);
      if 0x1_0000 <= cp && IsScalar(cp) then Some((cp as char, 4)) else None
    else
      None
  }

  /** Decodes a whole byte string, or `None` if it is not valid UTF-8. */
  function Decode(bs: seq<u8>): (r: Option<string>)
    decreases |bs|
  {
    if bs == [] then Some([])
    else match DecodeChar(bs)
      case None => None
      case Some((c, n)) =>
        match Decode(bs[n..])
        case None => None
        case Some(rest) => Some([c] + rest)
  }

  /** The digit decomposition behind the multi-byte forms. */
  lemma SplitSixBits(cp: nat)
    ensures cp / 0x40 * 0x40 + cp % 0x40 == cp
    ensures cp / 0x1000 * 0x1000 + cp / 0x40 % 0x40 * 0x40 + cp % 0x40 == cp
    ensures cp / 0x4_0000 * 0x4_0000 + cp / 0x1000 % 0x40 * 0x1000
            + cp / 0x40 % 0x40 * 0x40 + cp % 0x40 == cp
  {
    assert cp / 0x1000 == cp / 0x40 / 0x40;
    assert cp / 0x4_0000 == cp / 0x1000 / 0x40;
  }

  /** Decoding the encoding of one character gives it back, whatever follows. */
  lemma DecodeEncodeChar(c: char, rest: seq<u8>)
    ensures DecodeChar(EncodeChar(c) + rest) == Some((c, |EncodeChar(c)|))
  {
    var cp := c as int;
    var bs := EncodeChar(c) + rest;
    SplitSixBits(cp);
    if cp < 0x80 {
    } else if cp < 0x800 {
      assert bs[0] as int == 0xC0 + cp / 0x40 && bs[1] as int == 0x80 + cp % 0x40;
    } else if cp < 0x1_0000 {
      assert bs[0] as int == 0xE0 + cp / 0x1000;
      assert bs[1] as int == 0x80 + cp / 0x40 % 0x40 && bs[2] as int == 0x80 + cp % 0x40;
    } else {
      assert bs[0] as int == 0xF0 + cp / 0x4_0000;
      assert bs[1] as int == 0x80 + cp / 0x1000 % 0x40;
      assert bs[2] as int == 0x80 + cp / 0x40 % 0x40 && bs[3] as int == 0x80 + cp % 0x40;
    }
  }

  /** The decoder inverts the encoder: the bytes of a string determine it. */
  lemma {:induction false} DecodeEncode(s: string)
    ensures Decode(Encode(s)) == Some(s)
  {
    if s != [] {
      var e, tail := EncodeChar(s[0]), Encode(s[1..]);
      assert Encode(s) == e + tail;
      DecodeEncodeChar(s[0], tail);
      assert (e + tail)[|e|..] == tail;
      DecodeEncode(s[1..]);
      assert [s[0]] + s[1..] == s;
    }
  }

  /** Consequently distinct strings have distinct bytes. */
  lemma EncodeInjective(s: string, t: string)
    requires Encode(s) == Encode(t)
    ensures s == t
  {
    DecodeEncode(s);
    DecodeEncode(t);
  }

  /** One character of each encoded length of section 3 of RFC 3629: the
      encoder is UTF-8 itself, not merely some code that its own decoder
      inverts. */
  lemma TestVectors()
    ensures Encode("A") == [0x41]
    ensures Encode("\U{E9}") == [0xC3, 0xA9]
    ensures Encode("\U{20AC}") == [0xE2, 0x82, 0xAC]
    ensures Encode("\U{1F600}") == [0xF0, 0x9F, 0x98, 0x80]
  {
  }
}
