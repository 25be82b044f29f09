/** Base64 with the standard alphabet and `=` padding (section 4 of
    RFC 4648), the engine the credential provider uses for every token.

    The encoding is written in two layers: bytes are regrouped into
    six-bit symbols (`Sextets`), and symbols are spelled as characters
    (`Spell`). The decoder inverts each layer; it is strict: it rejects
    characters outside the alphabet, misplaced padding and non-zero
    trailing bits. */
module Base64 {
  import opened Wrappers
  import opened Ints

  /** A symbol of an encoding: six bits, or the padding marker. */
  datatype Sym = Digit(bits: nat) | Padding

  predicate WellFormed(syms: seq<Sym>) {
    forall i | 0 <= i < |syms| :: syms[i].Digit? ==> syms[i].bits < 64
  }

  const Pad: char := '='

  predicate IsAlphabetChar(c: char) {
    'A' <= c <= 'Z' || 'a' <= c <= 'z' || '0' <= c <= '9' || c == '+' || c == '/'
  }

  /** The character that stands for the six bits `v` in the standard
      alphabet `A`-`Z`, `a`-`z`, `0`-`9`, `+`, `/` (values 0 to 63 in that order). */
  function CharOf(v: nat): (c: char)
    requires v < 64
    ensures IsAlphabetChar(c)
  {
    if v < 26 then ('A' as int + v) as char
    else if v < 52 then ('a' as int + v - 26) as char
    else if v < 62 then ('0' as int + v - 52) as char
    else if v == 62 then '+'
    else '/'
  }

  /** The six bits a character stands for, or `None` outside the alphabet. */
  function ValueOf(c: char): (r: Option<nat>)
    ensures r.Some? <==> IsAlphabetChar(c)
    ensures r.Some? ==> r.value < 64 && CharOf(r.value) == c
  {
    if 'A' <= c <= 'Z' then Some(c as int - 'A' as int)
    else if 'a' <= c <= 'z' then Some(c as int - 'a' as int + 26)
    else if '0' <= c <= '9' then Some(c as int - '0' as int + 52)
    else if c == '+' then Some(62)
    else if c == '/' then Some(63)
    else None
  }

  /** The alphabet is a bijection between 0..63 and its 64 characters. */
  lemma ValueOfCharOf(v: nat)
    requires v < 64
    ensures ValueOf(CharOf(v)) == Some(v)
  {
  }

  // ---------------------------------------------------------------------
  // Layer 1: bytes and six-bit symbols

  /** Three bytes as four six-bit symbols. */
  function Split3(b0: u8, b1: u8, b2: u8): seq<Sym> {
    [Digit(b0 as int / 4), Digit(b0 as int % 4 * 16 + b1 as int / 16),
     Digit(b1 as int % 16 * 4 + b2 as int / 64), Digit(b2 as int % 64)]
  }

  /** The symbols of `bs`: four per three bytes, the last group filled
      with padding when one or two bytes remain. */
  function Sextets(bs: seq<u8>): (r: seq<Sym>)
    ensures WellFormed(r)
    decreases |bs|
  {
    if |bs| == 0 then
      []
    else if |bs| == 1 then
      [Digit(bs[0] as int / 4), Digit(bs[0] as int % 4 * 16), Padding, Padding]
    else if |bs| == 2 then
      [Digit(bs[0] as int / 4), Digit(bs[0] as int % 4 * 16 + bs[1] as int / 16),
       Digit(bs[1] as int % 16 * 4), Padding]
    else
      Split3(bs[0], bs[1], bs[2]) + Sextets(bs[3..])
  }

  /** Joins one group of four symbols back into bytes; padding is accepted
      only in the last group, and the bits it drops must be zero. */
  function Join4(s0: Sym, s1: Sym, s2: Sym, s3: Sym, last: bool): (r: Option<seq<u8>>)
    ensures r.Some? ==> 1 <= |r.value| <= 3 && (|r.value| < 3 ==> last)
  {
    if !(s0.Digit? && s1.Digit? && s0.bits < 64 && s1.bits < 64) then
      None
    else
      var v0, v1 := s0.bits, s1.bits;
      if s2.Digit? && s3.Digit? && s2.bits < 64 && s3.bits < 64 then
        Some([(v0 * 4 + v1 / 16) as u8, (v1 % 16 * 16 + s2.bits / 4) as u8,
              (s2.bits % 4 * 64 + s3.bits) as u8])
      else if last && s2.Digit? && s2.bits < 64 && s3.Padding? && s2.bits % 4 == 0 then
        Some([(v0 * 4 + v1 / 16) as u8, (v1 % 16 * 16 + s2.bits / 4) as u8])
      else if last && s2.Padding? && s3.Padding? && v1 % 16 == 0 then
        Some([(v0 * 4 + v1 / 16) as u8])
      else
        None
  }

  /** The bytes a symbol sequence stands for, or `None`. */
  function Unsextets(syms: seq<Sym>): (r: Option<seq<u8>>)
    decreases |syms|
  {
    if |syms| == 0 then
      Some([])
    else if |syms| < 4 then
      None
    else
      match Join4(syms[0], syms[1], syms[2], syms[3], |syms| == 4)
      case None => None
      case Some(head) =>
        match Unsextets(syms[4..])
        case None => None
        case Some(tail) => Some(head + tail)
  }

  /** The bit regrouping of one full group, 3 x 8 bits as 4 x 6 bits. */
  lemma Regroup(b0: int, b1: int, b2: int)
    requires 0 <= b0 < 0x100 && 0 <= b1 < 0x100 && 0 <= b2 < 0x100
    ensures var v0, v1, v2, v3 := b0 / 4, b0 % 4 * 16 + b1 / 16, b1 % 16 * 4 + b2 / 64, b2 % 64;
      v0 * 4 + v1 / 16 == b0 && v1 % 16 * 16 + v2 / 4 == b1 && v2 % 4 * 64 + v3 == b2
  {
  }

  lemma JoinSplit3(b0: u8, b1: u8, b2: u8, last: bool)
    ensures var g := Split3(b0, b1, b2);
      Join4(g[0], g[1], g[2], g[3], last) == Some([b0, b1, b2])
  {
    Regroup(b0 as int, b1 as int, b2 as int);
  }

  lemma JoinOne(b0: u8)
    ensures Join4(Digit(b0 as int / 4), Digit(b0 as int % 4 * 16), Padding, Padding, true) == Some([b0])
  {
    var b := b0 as int;
    assert b % 4 * 16 % 16 == 0 && b / 4 * 4 + b % 4 * 16 / 16 == b;
  }

  lemma JoinTwo(b0: u8, b1: u8)
    ensures Join4(Digit(b0 as int / 4), Digit(b0 as int % 4 * 16 + b1 as int / 16),
                  Digit(b1 as int % 16 * 4), Padding, true) == Some([b0, b1])
  {
    Regroup(b0 as int, b1 as int, 0);
    assert b1 as int % 16 * 4 % 4 == 0;
  }

  /** Joining one group in front of a sequence that joins. */
  lemma UnsextetsCons(g: seq<Sym>, tail: seq<Sym>, head: seq<u8>, rest: seq<u8>)
    requires |g| == 4 && Join4(g[0], g[1], g[2], g[3], tail == []) == Some(head)
    requires Unsextets(tail) == Some(rest)
    ensures Unsextets(g + tail) == Some(head + rest)
  {
    var syms := g + tail;
    assert syms[0] == g[0] && syms[1] == g[1] && syms[2] == g[2] && syms[3] == g[3];
    assert syms[4..] == tail;
  }

  /** A full group in front of a symbol sequence that joins back. */
  lemma UnsextetsStep(bs: seq<u8>, tail: seq<Sym>)
    requires |bs| >= 3
    requires Unsextets(tail) == Some(bs[3..])
    ensures Unsextets(Split3(bs[0], bs[1], bs[2]) + tail) == Some(bs)
  {
    var head := [bs[0], bs[1], bs[2]];
    assert bs == head + bs[3..];
    JoinSplit3(bs[0], bs[1], bs[2], tail == []);
    UnsextetsCons(Split3(bs[0], bs[1], bs[2]), tail, head, bs[3..]);
  }

  /** Joining the symbols of `bs` gives back `bs`. */
  lemma {:induction false} UnsextetsSextets(bs: seq<u8>)
    ensures Unsextets(Sextets(bs)) == Some(bs)
    decreases |bs|
  {
    if |bs| == 1 {
      JoinOne(bs[0]);
      assert bs == [bs[0]];
      UnsextetsCons(Sextets(bs), [], bs, []);
      assert Sextets(bs) + [] == Sextets(bs) && bs + [] == bs;
    } else if |bs| == 2 {
      JoinTwo(bs[0], bs[1]);
      assert bs == [bs[0], bs[1]];
      UnsextetsCons(Sextets(bs), [], bs, []);
      assert Sextets(bs) + [] == Sextets(bs) && bs + [] == bs;
    } else if |bs| >= 3 {
      var tail := Sextets(bs[3..]);
      UnsextetsSextets(bs[3..]);
      UnsextetsStep(bs, tail);
      assert Sextets(bs) == Split3(bs[0], bs[1], bs[2]) + tail;
    }
  }

  // ---------------------------------------------------------------------
  // Layer 2: symbols and characters

  function SymChar(s: Sym): (c: char)
    requires s.Digit? ==> s.bits < 64
  {
    match s
    case Digit(v) => CharOf(v)
    case Padding => Pad
  }

  function CharSym(c: char): (r: Option<Sym>) {
    if c == Pad then Some(Padding)
    else match ValueOf(c)
      case None => None
      case Some(v) => Some(Digit(v))
  }

  /** Spells a symbol sequence in the alphabet. */
  function Spell(syms: seq<Sym>): (s: string)
    requires WellFormed(syms)
    ensures |s| == |syms|
  {
    seq(|syms|, i requires 0 <= i < |syms| => SymChar(syms[i]))
  }

  /** Reads a string as symbols, or `None` if a character is outside the
      alphabet and is not `=`. */
  function Read(s: string): (r: Option<seq<Sym>>) {
    if forall i | 0 <= i < |s| :: CharSym(s[i]).Some? then
      Some(seq(|s|, i requires 0 <= i < |s| => CharSym(s[i]).value))
    else
      None
  }

  lemma ReadSpell(syms: seq<Sym>)
    requires WellFormed(syms)
    ensures Read(Spell(syms)) == Some(syms)
  {
    var s := Spell(syms);
    forall i | 0 <= i < |s|
      ensures CharSym(s[i]) == Some(syms[i])
    {
      if syms[i].Digit? {
        ValueOfCharOf(syms[i].bits);
      }
    }
    assert forall i | 0 <= i < |s| :: CharSym(s[i]).Some?;
    assert seq(|s|, i requires 0 <= i < |s| => CharSym(s[i]).value) == syms;
  }

  // ---------------------------------------------------------------------
  // The codec

  /** The encoding of `bs`. */
  function Encode(bs: seq<u8>): (r: string)
    ensures forall i | 0 <= i < |r| :: IsAlphabetChar(r[i]) || r[i] == Pad
  {
    Spell(Sextets(bs))
  }

  /** Four symbols per started group of three bytes. */
  lemma {:induction false} SextetsLength(bs: seq<u8>)
    ensures |Sextets(bs)| == 4 * ((|bs| + 2) / 3)
    decreases |bs|
  {
    if |bs| >= 3 {
      SextetsLength(bs[3..]);
    }
  }

  /** An encoding is 4 * ceil(n / 3) characters long. */
  lemma EncodeLength(bs: seq<u8>)
    ensures |Encode(bs)| == 4 * ((|bs| + 2) / 3)
  {
    SextetsLength(bs);
  }

  /** Decodes a padded base64 string, or `None` if it is not one. */
  function Decode(s: string): (r: Option<seq<u8>>) {
    match Read(s)
    case None => None
    case Some(syms) => Unsextets(syms)
  }

  /** Decoding an encoding gives back exactly the bytes that were encoded. */
  lemma DecodeEncode(bs: seq<u8>)
    ensures Decode(Encode(bs)) == Some(bs)
  {
    ReadSpell(Sextets(bs));
    UnsextetsSextets(bs);
  }

  /** The test vectors of section 10 of RFC 4648, and one that reaches the
      last two values of the alphabet, 62 and 63. Together they fix the bit
      order, the padding, `+` and `/`, and every character they contain. */
  lemma TestVectors()
    ensures Encode([]) == ""
    ensures Encode([0x66]) == "Zg=="
    ensures Encode([0x66, 0x6f]) == "Zm8="
    ensures Encode([0x66, 0x6f, 0x6f]) == "Zm9v"
    ensures Encode([0x66, 0x6f, 0x6f, 0x62]) == "Zm9vYg=="
    ensures Encode([0x66, 0x6f, 0x6f, 0x62, 0x61]) == "Zm9vYmE="
    ensures Encode([0x66, 0x6f, 0x6f, 0x62, 0x61, 0x72]) == "Zm9vYmFy"
    ensures Encode([0xfb, 0xff]) == "+/8="
  {
    assert Sextets([0xfb, 0xff]) == [Digit(62), Digit(63), Digit(60), Padding];
    assert Spell([Digit(62), Digit(63), Digit(60), Padding]) == "+/8=";
    assert Sextets([0x66]) == [Digit(25), Digit(32), Padding, Padding];
    assert Spell([Digit(25), Digit(32), Padding, Padding]) == "Zg==";
    assert Sextets([0x66, 0x6f]) == [Digit(25), Digit(38), Digit(60), Padding];
    assert Spell([Digit(25), Digit(38), Digit(60), Padding]) == "Zm8=";
    var foo: seq<u8> := [0x66, 0x6f, 0x6f];
    assert Sextets(foo) == Split3(0x66, 0x6f, 0x6f) + Sextets(foo[3..]);
    assert foo[3..] == [];
    assert Sextets(foo) == [Digit(25), Digit(38), Digit(61), Digit(47)];
    assert Spell([Digit(25), Digit(38), Digit(61), Digit(47)]) == "Zm9v";
    var foob: seq<u8> := [0x66, 0x6f, 0x6f, 0x62];
    assert foob[3..] == [0x62];
    assert Sextets(foob) == [Digit(25), Digit(38), Digit(61), Digit(47), Digit(24), Digit(32), Padding, Padding];
    assert Spell([Digit(25), Digit(38), Digit(61), Digit(47), Digit(24), Digit(32), Padding, Padding]) == "Zm9vYg==";
    var fooba: seq<u8> := [0x66, 0x6f, 0x6f, 0x62, 0x61];
    assert fooba[3..] == [0x62, 0x61];
    assert Sextets(fooba) == [Digit(25), Digit(38), Digit(61), Digit(47), Digit(24), Digit(38), Digit(4), Padding];
    assert Spell([Digit(25), Digit(38), Digit(61), Digit(47), Digit(24), Digit(38), Digit(4), Padding]) == "Zm9vYmE=";
    var foobar: seq<u8> := [0x66, 0x6f, 0x6f, 0x62, 0x61, 0x72];
    assert foobar[3..] == [0x62, 0x61, 0x72];
    assert Sextets([0x62, 0x61, 0x72]) == Split3(0x62, 0x61, 0x72) + Sextets([0x62, 0x61, 0x72][3..]);
    assert [0x62, 0x61, 0x72][3..] == [];
    assert Sextets([0x62, 0x61, 0x72]) == [Digit(24), Digit(38), Digit(5), Digit(50)];
    assert Sextets(foobar) == [Digit(25), Digit(38), Digit(61), Digit(47), Digit(24), Digit(38), Digit(5), Digit(50)];
    assert Spell([Digit(25), Digit(38), Digit(61), Digit(47), Digit(24), Digit(38), Digit(5), Digit(50)]) == "Zm9vYmFy";
  }

  /** The encoding is injective: equal encodings come from equal bytes. */
  lemma EncodeInjective(xs: seq<u8>, ys: seq<u8>)
    requires Encode(xs) == Encode(ys)
    ensures xs == ys
  {
    DecodeEncode(xs);
    DecodeEncode(ys);
  }
}
