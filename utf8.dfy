/**
 * UTF-8 (RFC 3629) over Dafny strings, which are sequences of Unicode scalar
 * values. `Encode` is what `Buffer.from(text)` produces for a string without
 * lone surrogates; `Decode` is the strict inverse that rejects overlong forms,
 * surrogates and values above U+10FFFF.
 */
module Utf8 {
  import opened Wrappers
  import opened Bytes

  /** The byte count of a scalar value's encoding, decided by its range. */
  function Width(cp: int): nat {
    if cp < 0x80 then 1
    else if cp < 0x800 then 2
    else if cp < 0x1_0000 then 3
    else 4
  }

  function EncodeChar(c: char): (r: seq<byte>)
    ensures |r| == Width(c as int)
    ensures r[0] < 0x80 || 0xC0 <= r[0] < 0xF8
    ensures forall i :: 1 <= i < |r| ==> IsContinuation(r[i])
  {
    var cp := c as int;
    if cp < 0x80 then
      [cp]
    else if cp < 0x800 then
      [0xC0 + cp / 64, 0x80 + cp % 64]
    else if cp < 0x1_0000 then
      [0xE0 + cp / 4096, 0x80 + cp / 64 % 64, 0x80 + cp % 64]
    else
      [0xF0 + cp / 262144, 0x80 + cp / 4096 % 64, 0x80 + cp / 64 % 64, 0x80 + cp % 64]
  }

  /** The UTF-8 bytes of a text: each scalar value's encoding, in order. */
  function Encode(s: string): (r: seq<byte>)
    ensures |s| <= |r| <= 4 * |s|
  {
    if s == [] then [] else EncodeChar(s[0]) + Encode(s[1..])
  }

  predicate IsContinuation(b: byte) {
    0x80 <= b < 0xC0
  }

  /**
   * The scalar value at the front of `b` and the number of bytes it occupies,
   * or None when the front of `b` is not a well-formed UTF-8 sequence.
   */
  function DecodeFirst(b: seq<byte>): (r: Option<(char, nat)>)
    ensures r.Some? ==> 1 <= r.value.1 <= |b|
  {
    if |b| == 0 then None
    else if b[0] < 0x80 then
      Some((b[0] as char, 1))
    else if 0xC0 <= b[0] < 0xE0 then
      if |b| < 2 || !IsContinuation(b[1]) then None
      else
        var cp := (b[0] as int - 0xC0) * 64 + (b[1] as int - 0x80);
        if cp < 0x80 then None else Some((cp as char, 2))
    else if 0xE0 <= b[0] < 0xF0 then
      if |b| < 3 || !IsContinuation(b[1]) || !IsContinuation(b[2]) then None
      else
        var cp := (b[0] as int - 0xE0) * 4096 + (b[1] as int - 0x80) * 64 + (b[2] as int - 0x80);
        if cp < 0x800 || 0xD800 <= cp < 0xE000 then None else Some((cp as char, 3))
    else if 0xF0 <= b[0] < 0xF8 then
      if |b| < 4 || !IsContinuation(b[1]) || !IsContinuation(b[2]) || !IsContinuation(b[3]) then None
      else
        var cp := (b[0] as int - 0xF0) * 262144 + (b[1] as int - 0x80) * 4096
          + (b[2] as int - 0x80) * 64 + (b[3] as int - 0x80);
        if cp < 0x1_0000 || 0x11_0000 <= cp then None else Some((cp as char, 4))
    else
      None
  }

  function Decode(b: seq<byte>): Option<string>
    decreases |b|
  {
    if b == [] then Some([])
    else match DecodeFirst(b)
      case None => None
      case Some((c, n)) =>
        match Decode(b[n..])
        case None => None
        case Some(rest) => Some([c] + rest)
  }

  // ---------------------------------------------------------------------------
  // Arithmetic facts about splitting a scalar value into 6-bit groups.

  lemma DivDiv64(x: nat)
    ensures x / 64 / 64 == x / 4096
    ensures x / 4096 / 64 == x / 262144
  {
    var q, r := x / 4096, x % 4096;
    assert x == 4096 * q + r;
    assert x / 64 == 64 * q + r / 64;
    var q', r' := x / 262144, x % 262144;
    assert x == 262144 * q' + r';
    assert x / 4096 == 64 * q' + r' / 4096;
  }

  lemma Split64(x: int, q: int, r: int)
    requires 0 <= r < 64 && x == 64 * q + r
    ensures x / 64 == q && x % 64 == r
  {
  }

  /** Encodings of one scalar value from each width class, as given in RFC 3629. */
  lemma KnownEncodings()
    ensures Encode("A") == [0x41]
    ensures Encode("\U{E9}") == [0xC3, 0xA9]
    ensures Encode("\U{20AC}") == [0xE2, 0x82, 0xAC]
    ensures Encode("\U{1F600}") == [0xF0, 0x9F, 0x98, 0x80]
  {
  }

  // ---------------------------------------------------------------------------
  // Round trips.

  /** Decoding the front of an encoded scalar value gives it back, whatever follows it. */
  lemma DecodeFirstEncodeChar(c: char, rest: seq<byte>)
    ensures DecodeFirst(EncodeChar(c) + rest) == Some((c, |EncodeChar(c)|))
  {
    var cp := c as int;
    if 0x800 <= cp {
      DivDiv64(cp);
    }
    if 0x1_0000 <= cp {
      assert cp / 64 == (cp / 4096) * 64 + cp / 64 % 64;
      assert cp / 4096 == (cp / 262144) * 64 + cp / 4096 % 64;
    }
  }

  /** Decoding an encoding gives the text back, for every text including the empty one. */
  lemma {:induction false} DecodeEncode(s: string)
    ensures Decode(Encode(s)) == Some(s)
  {
    if s != [] {
      var head := EncodeChar(s[0]);
      var b := head + Encode(s[1..]);
      DecodeFirstEncodeChar(s[0], Encode(s[1..]));
      assert b[|head|..] == Encode(s[1..]);
      DecodeEncode(s[1..]);
      assert [s[0]] + s[1..] == s;
    }
  }

  /** A well-formed front sequence is exactly the encoding of the scalar value it decodes to. */
  lemma EncodeCharDecodeFirst(b: seq<byte>)
    requires DecodeFirst(b).Some?
    ensures EncodeChar(DecodeFirst(b).value.0) == b[..DecodeFirst(b).value.1]
  {
    var (c, n) := DecodeFirst(b).value;
    var cp := c as int;
    var b0 := b[0] as int;
    if n == 2 {
      var b1 := b[1] as int;
      Split64(cp, b0 - 0xC0, b1 - 0x80);
    } else if n == 3 {
      var b1, b2 := b[1] as int, b[2] as int;
      Split64(cp, (b0 - 0xE0) * 64 + (b1 - 0x80), b2 - 0x80);
      Split64(cp / 64, b0 - 0xE0, b1 - 0x80);
      DivDiv64(cp);
    } else if n == 4 {
      var b1, b2, b3 := b[1] as int, b[2] as int, b[3] as int;
      Split64(cp, (b0 - 0xF0) * 4096 + (b1 - 0x80) * 64 + (b2 - 0x80), b3 - 0x80);
      Split64(cp / 64, (b0 - 0xF0) * 64 + (b1 - 0x80), b2 - 0x80);
      Split64(cp / 4096, b0 - 0xF0, b1 - 0x80);
      DivDiv64(cp);
    }
  }

  lemma EncodeCons(c: char, rest: string)
    ensures Encode([c] + rest) == EncodeChar(c) + Encode(rest)
  {
    var s := [c] + rest;
    assert s[0] == c && s[1..] == rest;
  }

  /** A non-empty decodable byte string splits into its first scalar value and a decodable rest. */
  lemma DecodeFront(b: seq<byte>)
    requires b != [] && Decode(b).Some?
    ensures DecodeFirst(b).Some? && Decode(b[DecodeFirst(b).value.1..]).Some?
    ensures Decode(b).value == [DecodeFirst(b).value.0] + Decode(b[DecodeFirst(b).value.1..]).value
  {
  }

  /** A scalar value whose encoding starts `b`, in front of a text encoded as the rest of `b`, is encoded as `b`. */
  lemma EncodeDecodeStep(b: seq<byte>, c: char, n: nat, rest: string)
    requires n <= |b| && EncodeChar(c) == b[..n] && Encode(rest) == b[n..]
    ensures Encode([c] + rest) == b
  {
    EncodeCons(c, rest);
    assert b == b[..n] + b[n..];
  }

  /** Every byte sequence the decoder accepts is the encoding of what it decodes to. */
  lemma {:induction false} EncodeDecode(b: seq<byte>)
    requires Decode(b).Some?
    ensures Encode(Decode(b).value) == b
  {
    if b != [] {
      DecodeFront(b);
      var (c, n) := DecodeFirst(b).value;
      EncodeDecode(b[n..]);
      EncodeCharDecodeFirst(b);
      EncodeDecodeStep(b, c, n, Decode(b[n..]).value);
    }
  }
}
