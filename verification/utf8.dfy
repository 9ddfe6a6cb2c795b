/**
  Strict UTF-8 as RFC 3629 defines it: what `bytes.decode('utf-8')` accepts and
  returns, and what `str.encode('utf-8')` produces. Decoding fails (returns
  `None`) on every ill-formed sequence: stray continuation bytes, overlong forms,
  encoded surrogates, code points above U+10FFFF and truncated sequences.
 */
module Utf8 {
  import opened Wrappers

  type Byte = b: int | 0 <= b < 0x100

  predicate IsContinuation(b: Byte) { 0x80 <= b < 0xC0 }

  /**
    The first character of `bs` and the number of bytes it occupies, when `bs`
    starts with a well-formed sequence (section 4 of RFC 3629).
   */
  function DecodeFirst(bs: seq<Byte>): (r: Option<(char, nat)>)
    ensures r.Some? ==> 1 <= r.value.1 <= 4 && r.value.1 <= |bs|
  {
    if |bs| == 0 then None
    else
      var b0 := bs[0] as int;
      if b0 < 0x80 then Some((b0 as char, 1))
      else if 0xC2 <= b0 <= 0xDF then
        if |bs| >= 2 && IsContinuation(bs[1])
        then Some((((b0 - 0xC0) * 64 + (bs[1] as int - 0x80)) as char, 2))
        else None
      else if 0xE0 <= b0 <= 0xEF then
        if |bs| >= 3 && IsContinuation(bs[1]) && IsContinuation(bs[2])
           && (b0 != 0xE0 || bs[1] >= 0xA0) && (b0 != 0xED || bs[1] < 0xA0)
        then Some((((b0 - 0xE0) * 0x1000 + (bs[1] as int - 0x80) * 64 + (bs[2] as int - 0x80)) as char, 3))
        else None
      else if 0xF0 <= b0 <= 0xF4 then
        if |bs| >= 4 && IsContinuation(bs[1]) && IsContinuation(bs[2]) && IsContinuation(bs[3])
           && (b0 != 0xF0 || bs[1] >= 0x90) && (b0 != 0xF4 || bs[1] < 0x90)
        then Some((((b0 - 0xF0) * 0x40000 + (bs[1] as int - 0x80) * 0x1000 + (bs[2] as int - 0x80) * 64 + (bs[3] as int - 0x80)) as char, 4))
        else None
      else None
  }

  /** `bytes.decode('utf-8')`; `None` stands for the `UnicodeDecodeError`. */
  function Decode(bs: seq<Byte>): Option<string>
    decreases |bs|
  {
    if bs == [] then Some([])
    else match DecodeFirst(bs)
      case None => None
      case Some((c, n)) =>
        match Decode(bs[n..])
        case None => None
        case Some(rest) => Some([c] + rest)
  }

  /** The bytes of one character. */
  function EncodeChar(c: char): (r: seq<Byte>)
    ensures 1 <= |r| <= 4
  {
    var cp := c as int;
    if cp < 0x80 then [cp]
    else if cp < 0x800 then [0xC0 + cp / 64, 0x80 + cp % 64]
    else if cp < 0x10000 then [0xE0 + cp / 0x1000, 0x80 + (cp / 64) % 64, 0x80 + cp % 64]
    else [0xF0 + cp / 0x40000, 0x80 + (cp / 0x1000) % 64, 0x80 + (cp / 64) % 64, 0x80 + cp % 64]
  }

  /** `str.encode('utf-8')`. */
  function Encode(s: string): seq<Byte>
  {
    if s == [] then [] else EncodeChar(s[0]) + Encode(s[1..])
  }

  lemma DivMod64(x: int, y: int)
    requires 0 <= y < 64
    ensures (x * 64 + y) / 64 == x && (x * 64 + y) % 64 == y
  {
  }

  /** Every character's bytes decode back to that character, whatever follows them. */
  lemma DecodeEncodeChar(c: char, rest: seq<Byte>)
    ensures DecodeFirst(EncodeChar(c) + rest) == Some((c, |EncodeChar(c)|))
  {
    var cp := c as int;
    var e := EncodeChar(c);
    if cp < 0x80 {
    } else if cp < 0x800 {
      assert cp == (cp / 64) * 64 + cp % 64;
    } else if cp < 0x10000 {
      var q := cp / 64;
      assert cp == q * 64 + cp % 64;
      assert q == (q / 64) * 64 + q % 64;
      assert q / 64 == cp / 0x1000;
    } else {
      var q := cp / 64;
      var q2 := q / 64;
      assert cp == q * 64 + cp % 64;
      assert q == q2 * 64 + q % 64;
      assert q2 == (q2 / 64) * 64 + q2 % 64;
      assert q2 == cp / 0x1000;
      assert q2 / 64 == cp / 0x40000;
    }
  }

  /** A well-formed first sequence is exactly the encoding of the character it decodes to. */
  lemma EncodeDecodeFirst(bs: seq<Byte>)
    requires DecodeFirst(bs).Some?
    ensures bs[..DecodeFirst(bs).value.1] == EncodeChar(DecodeFirst(bs).value.0)
  {
    var b0 := bs[0] as int;
    if b0 < 0x80 {
    } else if b0 <= 0xDF {
      ReencodeTwo(b0, bs[1]);
      assert bs[..2] == [bs[0], bs[1]];
    } else if b0 <= 0xEF {
      ReencodeThree(b0, bs[1], bs[2]);
      assert bs[..3] == [bs[0], bs[1], bs[2]];
    } else {
      ReencodeFour(b0, bs[1], bs[2], bs[3]);
      assert bs[..4] == [bs[0], bs[1], bs[2], bs[3]];
    }
  }

  /** The two-byte form: the code point it carries re-encodes to the same bytes. */
  lemma ReencodeTwo(b0: int, b1: int)
    requires 0xC2 <= b0 <= 0xDF && 0x80 <= b1 < 0xC0
    ensures var cp := (b0 - 0xC0) * 64 + (b1 - 0x80);
      0x80 <= cp < 0x800 && 0xC0 + cp / 64 == b0 && 0x80 + cp % 64 == b1
  {
    DivMod64(b0 - 0xC0, b1 - 0x80);
  }

  /** The three-byte form, without overlong forms and surrogates. */
  lemma ReencodeThree(b0: int, b1: int, b2: int)
    requires 0xE0 <= b0 <= 0xEF && 0x80 <= b1 < 0xC0 && 0x80 <= b2 < 0xC0
    requires (b0 != 0xE0 || b1 >= 0xA0) && (b0 != 0xED || b1 < 0xA0)
    ensures var cp := (b0 - 0xE0) * 0x1000 + (b1 - 0x80) * 64 + (b2 - 0x80);
      0x800 <= cp < 0x10000 && (cp < 0xD800 || 0xE000 <= cp)
      && 0xE0 + cp / 0x1000 == b0 && 0x80 + (cp / 64) % 64 == b1 && 0x80 + cp % 64 == b2
  {
    var q := (b0 - 0xE0) * 64 + (b1 - 0x80);
    DivMod64(q, b2 - 0x80);
    DivMod64(b0 - 0xE0, b1 - 0x80);
    assert (q * 64 + (b2 - 0x80)) / 0x1000 == q / 64;
  }

  /** The four-byte form, up to U+10FFFF and without overlong forms. */
  lemma ReencodeFour(b0: int, b1: int, b2: int, b3: int)
    requires 0xF0 <= b0 <= 0xF4 && 0x80 <= b1 < 0xC0 && 0x80 <= b2 < 0xC0 && 0x80 <= b3 < 0xC0
    requires (b0 != 0xF0 || b1 >= 0x90) && (b0 != 0xF4 || b1 < 0x90)
    ensures var cp := (b0 - 0xF0) * 0x40000 + (b1 - 0x80) * 0x1000 + (b2 - 0x80) * 64 + (b3 - 0x80);
      0x10000 <= cp < 0x110000
      && 0xF0 + cp / 0x40000 == b0 && 0x80 + (cp / 0x1000) % 64 == b1
      && 0x80 + (cp / 64) % 64 == b2 && 0x80 + cp % 64 == b3
  {
    var q2 := (b0 - 0xF0) * 64 + (b1 - 0x80);
    var q := q2 * 64 + (b2 - 0x80);
    var cp := q * 64 + (b3 - 0x80);
    DivMod64(q, b3 - 0x80);
    DivMod64(q2, b2 - 0x80);
    DivMod64(b0 - 0xF0, b1 - 0x80);
    assert cp / 0x1000 == q2;
    assert cp / 0x40000 == q2 / 64;
  }

  /** Encoding then decoding gives the text back (RFC 3629 encodings are decodable). */
  lemma {:induction false} DecodeEncode(s: string)
    ensures Decode(Encode(s)) == Some(s)
  {
    if s != [] {
      var e := EncodeChar(s[0]);
      DecodeEncodeChar(s[0], Encode(s[1..]));
      assert (e + Encode(s[1..]))[|e|..] == Encode(s[1..]);
      DecodeEncode(s[1..]);
      assert [s[0]] + s[1..] == s;
    }
  }

  /** Decoding then encoding gives the bytes back: a successful decode loses nothing. */
  lemma {:induction false} EncodeDecode(bs: seq<Byte>)
    requires Decode(bs).Some?
    ensures Encode(Decode(bs).value) == bs
  {
    if bs != [] {
      var n := EncodeDecodeStep(bs);
      EncodeDecode(bs[n..]);
      SplitJoin(bs, n, Encode(Decode(bs[n..]).value));
    }
  }

  lemma SplitJoin(bs: seq<Byte>, n: nat, tail: seq<Byte>)
    requires n <= |bs| && tail == bs[n..]
    ensures bs[..n] + tail == bs
  {
  }

  /** Re-encoding a successful decode gives the first sequence's bytes, then the re-encoding of the rest. */
  lemma EncodeDecodeStep(bs: seq<Byte>) returns (n: nat)
    requires bs != [] && Decode(bs).Some?
    ensures 1 <= n <= |bs| && Decode(bs[n..]).Some?
    ensures Encode(Decode(bs).value) == bs[..n] + Encode(Decode(bs[n..]).value)
  {
    DecodeCons(bs);
    var c;
    c, n := DecodeFirst(bs).value.0, DecodeFirst(bs).value.1;
    EncodeDecodeFirst(bs);
    EncodeCons(c, Decode(bs[n..]).value);
  }

  /** A successful decode is the first character followed by the decode of the remaining bytes. */
  lemma DecodeCons(bs: seq<Byte>)
    requires bs != [] && Decode(bs).Some?
    ensures DecodeFirst(bs).Some? && Decode(bs[DecodeFirst(bs).value.1..]).Some?
    ensures Decode(bs).value == [DecodeFirst(bs).value.0] + Decode(bs[DecodeFirst(bs).value.1..]).value
  {
  }

  lemma EncodeCons(c: char, s: string)
    ensures Encode([c] + s) == EncodeChar(c) + Encode(s)
  {
    assert ([c] + s)[1..] == s;
  }
}
