/**
 * Base64 with the standard alphabet and `=` padding (section 4 of RFC 4648),
 * as produced by Node's `Buffer.toString('base64')`. `Decode` is the strict
 * inverse: it accepts only padded input in the standard alphabet whose unused
 * trailing bits are zero, so each byte sequence has exactly one encoding.
 */
module Base64 {
  import opened Wrappers
  import opened Bytes

  predicate IsAlphabetChar(c: char) {
    'A' <= c <= 'Z' || 'a' <= c <= 'z' || '0' <= c <= '9' || c == '+' || c == '/'
  }

  /** The character that stands for the 6-bit value `v`. */
  function Symbol(v: int): (c: char)
    requires 0 <= v < 64
    ensures IsAlphabetChar(c)
  {
    if v < 26 then ('A' as int + v) as char
    else if v < 52 then ('a' as int + (v - 26)) as char
    else if v < 62 then ('0' as int + (v - 52)) as char
    else if v == 62 then '+'
    else '/'
  }

  /** The 6-bit value a character stands for; None for characters outside the alphabet (padding included). */
  function Value(c: char): (r: Option<int>)
    ensures r.Some? <==> IsAlphabetChar(c)
    ensures r.Some? ==> 0 <= r.value < 64 && Symbol(r.value) == c
  {
    if 'A' <= c <= 'Z' then Some(c as int - 'A' as int)
    else if 'a' <= c <= 'z' then Some(c as int - 'a' as int + 26)
    else if '0' <= c <= '9' then Some(c as int - '0' as int + 52)
    else if c == '+' then Some(62)
    else if c == '/' then Some(63)
    else None
  }

  lemma ValueSymbol(v: int)
    requires 0 <= v < 64
    ensures Value(Symbol(v)) == Some(v)
  {
  }

  /** Four characters for three bytes: each character carries six of the 24 bits, high bits first. */
  function EncodeGroup(b0: byte, b1: byte, b2: byte): (r: string)
    ensures |r| == 4 && forall i :: 0 <= i < 4 ==> IsAlphabetChar(r[i])
  {
    [Symbol(b0 / 4), Symbol(b0 % 4 * 16 + b1 / 16), Symbol(b1 % 16 * 4 + b2 / 64), Symbol(b2 % 64)]
  }

  predicate IsPayloadChar(c: char) {
    IsAlphabetChar(c) || c == '='
  }

  function Encode(b: seq<byte>): (r: string)
    ensures |r| == 4 * ((|b| + 2) / 3)
    ensures forall i :: 0 <= i < |r| ==> IsPayloadChar(r[i])
    decreases |b|
  {
    if |b| == 0 then []
    else if |b| == 1 then EncodeGroup(b[0], 0, 0)[..2] + "=="
    else if |b| == 2 then EncodeGroup(b[0], b[1], 0)[..3] + "="
    else
      assert (|b| + 2) / 3 == (|b[3..]| + 2) / 3 + 1;
      EncodeGroup(b[0], b[1], b[2]) + Encode(b[3..])
  }

  /** The three bytes carried by four 6-bit values. */
  function Bytes3(v0: int, v1: int, v2: int, v3: int): seq<byte>
    requires 0 <= v0 < 64 && 0 <= v1 < 64 && 0 <= v2 < 64 && 0 <= v3 < 64
  {
    [v0 * 4 + v1 / 16, v1 % 16 * 16 + v2 / 4, v2 % 4 * 64 + v3]
  }

  /** A group of four characters without padding. */
  function DecodeGroup(c0: char, c1: char, c2: char, c3: char): Option<seq<byte>> {
    if IsAlphabetChar(c0) && IsAlphabetChar(c1) && IsAlphabetChar(c2) && IsAlphabetChar(c3) then
      Some(Bytes3(Value(c0).value, Value(c1).value, Value(c2).value, Value(c3).value))
    else
      None
  }

  /** The last group, which may end in one or two padding characters standing for zero bits. */
  function DecodeLastGroup(c0: char, c1: char, c2: char, c3: char): Option<seq<byte>> {
    if c2 == '=' && c3 == '=' then
      if IsAlphabetChar(c0) && IsAlphabetChar(c1) && Value(c1).value % 16 == 0 then
        Some(Bytes3(Value(c0).value, Value(c1).value, 0, 0)[..1])
      else None
    else if c3 == '=' then
      if IsAlphabetChar(c0) && IsAlphabetChar(c1) && IsAlphabetChar(c2) && Value(c2).value % 4 == 0 then
        Some(Bytes3(Value(c0).value, Value(c1).value, Value(c2).value, 0)[..2])
      else None
    else
      DecodeGroup(c0, c1, c2, c3)
  }

  function Decode(s: string): Option<seq<byte>>
    decreases |s|
  {
    if |s| == 0 then Some([])
    else if |s| < 4 then None
    else if |s| == 4 then DecodeLastGroup(s[0], s[1], s[2], s[3])
    else match DecodeGroup(s[0], s[1], s[2], s[3])
      case None => None
      case Some(group) =>
        match Decode(s[4..])
        case None => None
        case Some(rest) => Some(group + rest)
  }

  /** The test vectors of section 10 of RFC 4648 up to one group: the bytes of "", "f", "fo" and "foo". */
  lemma Rfc4648ShortVectors()
    ensures Encode([]) == ""
    ensures Encode([102]) == "Zg=="
    ensures Encode([102, 111]) == "Zm8="
    ensures Encode([102, 111, 111]) == "Zm9v"
  {
    EncodeOne(102);
    assert 102 / 4 == 25 && 102 % 4 * 16 == 32;
    assert Symbol(25) == 'Z' && Symbol(32) == 'g';
    EncodeTwo(102, 111);
    assert 102 % 4 * 16 + 111 / 16 == 38 && 111 % 16 * 4 == 60;
    assert Symbol(38) == 'm' && Symbol(60) == '8';
    EncodeThree([102, 111, 111]);
    GroupFoo();
  }

  /** The group of "foo" is "Zm9v". */
  lemma GroupFoo()
    ensures EncodeGroup(102, 111, 111) == "Zm9v"
  {
    assert 102 / 4 == 25 && 102 % 4 * 16 + 111 / 16 == 38 && 111 % 16 * 4 + 111 / 64 == 61 && 111 % 64 == 47;
    assert Symbol(25) == 'Z' && Symbol(38) == 'm' && Symbol(61) == '9' && Symbol(47) == 'v';
  }

  /** The test vector of section 10 of RFC 4648 for "foob": "foo", then "b" alone. */
  lemma Rfc4648VectorFoob()
    ensures Encode([102, 111, 111, 98]) == "Zm9vYg=="
  {
    EncodeGroupThen([102, 111, 111], [98]);
    assert [102, 111, 111] + [98] == [102, 111, 111, 98];
    GroupFoo();
    EncodeOne(98);
    assert 98 / 4 == 24 && 98 % 4 * 16 == 32;
    assert Symbol(24) == 'Y' && Symbol(32) == 'g';
  }

  /** The test vector of section 10 of RFC 4648 for "fooba": "foo", then "ba" padded with one `=`. */
  lemma Rfc4648VectorFooba()
    ensures Encode([102, 111, 111, 98, 97]) == "Zm9vYmE="
  {
    EncodeGroupThen([102, 111, 111], [98, 97]);
    assert [102, 111, 111] + [98, 97] == [102, 111, 111, 98, 97];
    GroupFoo();
    EncodeTwo(98, 97);
    assert 98 / 4 == 24 && 98 % 4 * 16 + 97 / 16 == 38 && 97 % 16 * 4 == 4;
    assert Symbol(24) == 'Y' && Symbol(38) == 'm' && Symbol(4) == 'E';
  }

  /** The test vector of section 10 of RFC 4648 for "foobar": the groups of "foo" and "bar". */
  lemma Rfc4648VectorFoobar()
    ensures Encode([102, 111, 111, 98, 97, 114]) == "Zm9vYmFy"
  {
    EncodeGroupThen([102, 111, 111], [98, 97, 114]);
    assert [102, 111, 111] + [98, 97, 114] == [102, 111, 111, 98, 97, 114];
    GroupFoo();
    EncodeThree([98, 97, 114]);
    GroupBar();
  }

  /** The group of "bar" is "YmFy". */
  lemma GroupBar()
    ensures EncodeGroup(98, 97, 114) == "YmFy"
  {
    assert 98 / 4 == 24 && 98 % 4 * 16 + 97 / 16 == 38 && 97 % 16 * 4 + 114 / 64 == 5 && 114 % 64 == 50;
    assert Symbol(24) == 'Y' && Symbol(38) == 'm' && Symbol(5) == 'F' && Symbol(50) == 'y';
  }

  // ---------------------------------------------------------------------------
  // Round trips.

  /** The bytes of a group are recovered from its four 6-bit values. */
  lemma Bytes3OfGroup(b0: byte, b1: byte, b2: byte)
    ensures Bytes3(b0 / 4, b0 % 4 * 16 + b1 / 16, b1 % 16 * 4 + b2 / 64, b2 % 64) == [b0, b1, b2]
  {
    var v1, v2 := b0 % 4 * 16 + b1 / 16, b1 % 16 * 4 + b2 / 64;
    assert v1 / 16 == b0 % 4 && v1 % 16 == b1 / 16;
    assert v2 / 4 == b1 % 16 && v2 % 4 == b2 / 64;
  }

  lemma DecodeGroupOfEncodeGroup(b0: byte, b1: byte, b2: byte)
    ensures var g := EncodeGroup(b0, b1, b2); DecodeGroup(g[0], g[1], g[2], g[3]) == Some([b0, b1, b2])
  {
    ValueSymbol(b0 / 4);
    ValueSymbol(b0 % 4 * 16 + b1 / 16);
    ValueSymbol(b1 % 16 * 4 + b2 / 64);
    ValueSymbol(b2 % 64);
    Bytes3OfGroup(b0, b1, b2);
  }

  /** One final byte is recovered from a group padded with two `=`. */
  lemma DecodeLastGroupOfOne(b0: byte)
    ensures DecodeLastGroup(Symbol(b0 / 4), Symbol(b0 % 4 * 16), '=', '=') == Some([b0])
  {
    ValueSymbol(b0 / 4);
    ValueSymbol(b0 % 4 * 16);
    var v1 := b0 % 4 * 16;
    assert v1 / 16 == b0 % 4 && v1 % 16 == 0;
    assert Bytes3(b0 / 4, v1, 0, 0)[0] == b0;
    var c0, c1 := Symbol(b0 / 4), Symbol(v1);
    assert IsAlphabetChar(c0) && IsAlphabetChar(c1);
    assert Value(c1).value % 16 == 0;
    assert Bytes3(Value(c0).value, Value(c1).value, 0, 0)[..1] == [b0];
  }

  /** Two final bytes are recovered from a group padded with one `=`. */
  lemma DecodeLastGroupOfTwo(b0: byte, b1: byte)
    ensures DecodeLastGroup(Symbol(b0 / 4), Symbol(b0 % 4 * 16 + b1 / 16), Symbol(b1 % 16 * 4), '=')
         == Some([b0, b1])
  {
    ValueSymbol(b0 / 4);
    ValueSymbol(b0 % 4 * 16 + b1 / 16);
    ValueSymbol(b1 % 16 * 4);
    var v2 := b1 % 16 * 4;
    assert v2 / 4 == b1 % 16 && v2 % 4 == 0;
    Bytes3OfGroup(b0, b1, 0);
    var c0, c1, c2 := Symbol(b0 / 4), Symbol(b0 % 4 * 16 + b1 / 16), Symbol(v2);
    assert IsAlphabetChar(c0) && IsAlphabetChar(c1) && IsAlphabetChar(c2);
    assert Value(c2).value % 4 == 0;
    assert Bytes3(Value(c0).value, Value(c1).value, Value(c2).value, 0)[..2] == [b0, b1];
  }

  /** A full group in front of a decodable string of at least one group decodes to the group's bytes and the rest's. */
  lemma DecodeCons(s: string)
    requires |s| > 4 && DecodeGroup(s[0], s[1], s[2], s[3]).Some? && Decode(s[4..]).Some?
    ensures Decode(s) == Some(DecodeGroup(s[0], s[1], s[2], s[3]).value + Decode(s[4..]).value)
  {
  }

  /** A full group in front of a decodable string contributes its three bytes. */
  lemma DecodeGroupThen(b0: byte, b1: byte, b2: byte, t: string)
    requires |t| >= 4 && Decode(t).Some?
    ensures Decode(EncodeGroup(b0, b1, b2) + t) == Some([b0, b1, b2] + Decode(t).value)
  {
    var g := EncodeGroup(b0, b1, b2);
    var s := g + t;
    DecodeGroupOfEncodeGroup(b0, b1, b2);
    assert s[0] == g[0] && s[1] == g[1] && s[2] == g[2] && s[3] == g[3];
    assert s[4..] == t;
    DecodeCons(s);
  }

  /** A string of exactly four characters is decoded as a last group. */
  lemma DecodeFour(s: string)
    requires |s| == 4
    ensures Decode(s) == DecodeLastGroup(s[0], s[1], s[2], s[3])
  {
  }

  lemma EncodeOne(b0: byte)
    ensures Encode([b0]) == [Symbol(b0 / 4), Symbol(b0 % 4 * 16), '=', '=']
  {
    assert b0 % 4 * 16 + 0 / 16 == b0 % 4 * 16;
  }

  lemma EncodeTwo(b0: byte, b1: byte)
    ensures Encode([b0, b1]) == [Symbol(b0 / 4), Symbol(b0 % 4 * 16 + b1 / 16), Symbol(b1 % 16 * 4), '=']
  {
    assert b1 % 16 * 4 + 0 / 64 == b1 % 16 * 4;
  }

  lemma DecodeEncodeOne(b0: byte)
    ensures Decode(Encode([b0])) == Some([b0])
  {
    EncodeOne(b0);
    DecodeFour(Encode([b0]));
    DecodeLastGroupOfOne(b0);
  }

  lemma DecodeEncodeTwo(b0: byte, b1: byte)
    ensures Decode(Encode([b0, b1])) == Some([b0, b1])
  {
    EncodeTwo(b0, b1);
    DecodeFour(Encode([b0, b1]));
    DecodeLastGroupOfTwo(b0, b1);
  }

  lemma DecodeEncodeThree(b0: byte, b1: byte, b2: byte)
    ensures Decode(Encode([b0, b1, b2])) == Some([b0, b1, b2])
  {
    assert Encode([b0, b1, b2]) == EncodeGroup(b0, b1, b2);
    DecodeGroupOfEncodeGroup(b0, b1, b2);
  }

  lemma Front3(b: seq<byte>)
    requires |b| >= 3
    ensures b == [b[0], b[1], b[2]] + b[3..]
  {
  }

  /** Decoding an encoding gives the bytes back, for every byte sequence including the empty one. */
  lemma {:induction false} DecodeEncode(b: seq<byte>)
    ensures Decode(Encode(b)) == Some(b)
    decreases |b|
  {
    if |b| == 1 {
      assert b == [b[0]];
      DecodeEncodeOne(b[0]);
    } else if |b| == 2 {
      assert b == [b[0], b[1]];
      DecodeEncodeTwo(b[0], b[1]);
    } else if |b| == 3 {
      assert b == [b[0], b[1], b[2]];
      DecodeEncodeThree(b[0], b[1], b[2]);
    } else if |b| > 3 {
      Front3(b);
      DecodeEncode(b[3..]);
      DecodeGroupThen(b[0], b[1], b[2], Encode(b[3..]));
    }
  }

  /** The four 6-bit values of a group are recovered from its bytes. */
  lemma GroupOfBytes3(v0: int, v1: int, v2: int, v3: int)
    requires 0 <= v0 < 64 && 0 <= v1 < 64 && 0 <= v2 < 64 && 0 <= v3 < 64
    ensures var b := Bytes3(v0, v1, v2, v3);
      && b[0] / 4 == v0 && b[0] % 4 * 16 + b[1] / 16 == v1
      && b[1] % 16 * 4 + b[2] / 64 == v2 && b[2] % 64 == v3
  {
  }

  lemma EncodeGroupOfDecodeGroup(c0: char, c1: char, c2: char, c3: char)
    requires DecodeGroup(c0, c1, c2, c3).Some?
    ensures var b := DecodeGroup(c0, c1, c2, c3).value; EncodeGroup(b[0], b[1], b[2]) == [c0, c1, c2, c3]
  {
    GroupOfBytes3(Value(c0).value, Value(c1).value, Value(c2).value, Value(c3).value);
  }

  /** The bytes of a group padded with two `=` give back its two 6-bit values. */
  lemma OneByteValues(v0: int, v1: int)
    requires 0 <= v0 < 64 && 0 <= v1 < 64 && v1 % 16 == 0
    ensures var b := Bytes3(v0, v1, 0, 0); b[0] / 4 == v0 && b[0] % 4 * 16 == v1
  {
    GroupOfBytes3(v0, v1, 0, 0);
  }

  /** The bytes of a group padded with one `=` give back its three 6-bit values. */
  lemma TwoByteValues(v0: int, v1: int, v2: int)
    requires 0 <= v0 < 64 && 0 <= v1 < 64 && 0 <= v2 < 64 && v2 % 4 == 0
    ensures var b := Bytes3(v0, v1, v2, 0); b[0] / 4 == v0 && b[0] % 4 * 16 + b[1] / 16 == v1 && b[1] % 16 * 4 == v2
  {
    GroupOfBytes3(v0, v1, v2, 0);
  }

  /** A group padded with two `=` that the decoder accepts is the encoding of its one byte. */
  lemma EncodeOfOneByteGroup(c0: char, c1: char)
    requires IsAlphabetChar(c0) && IsAlphabetChar(c1) && Value(c1).value % 16 == 0
    ensures Encode(Bytes3(Value(c0).value, Value(c1).value, 0, 0)[..1]) == [c0, c1, '=', '=']
  {
    var b := Bytes3(Value(c0).value, Value(c1).value, 0, 0);
    OneByteValues(Value(c0).value, Value(c1).value);
    assert b[..1] == [b[0]];
    EncodeOne(b[0]);
  }

  /** A group padded with one `=` that the decoder accepts is the encoding of its two bytes. */
  lemma EncodeOfTwoByteGroup(c0: char, c1: char, c2: char)
    requires IsAlphabetChar(c0) && IsAlphabetChar(c1) && IsAlphabetChar(c2) && Value(c2).value % 4 == 0
    ensures Encode(Bytes3(Value(c0).value, Value(c1).value, Value(c2).value, 0)[..2]) == [c0, c1, c2, '=']
  {
    var v0, v1, v2 := Value(c0).value, Value(c1).value, Value(c2).value;
    var b := Bytes3(v0, v1, v2, 0);
    TwoByteValues(v0, v1, v2);
    assert b[..2] == [b[0], b[1]];
    EncodeTwo(b[0], b[1]);
    assert Symbol(v0) == c0 && Symbol(v1) == c1 && Symbol(v2) == c2;
  }

  lemma EncodeThree(b: seq<byte>)
    requires |b| == 3
    ensures Encode(b) == EncodeGroup(b[0], b[1], b[2])
  {
    assert Encode(b[3..]) == [];
  }

  /** A last group the decoder accepts is the encoding of what it decodes to. */
  lemma EncodeOfDecodeLastGroup(c0: char, c1: char, c2: char, c3: char)
    requires DecodeLastGroup(c0, c1, c2, c3).Some?
    ensures Encode(DecodeLastGroup(c0, c1, c2, c3).value) == [c0, c1, c2, c3]
  {
    if c2 == '=' && c3 == '=' {
      EncodeOfOneByteGroup(c0, c1);
    } else if c3 == '=' {
      EncodeOfTwoByteGroup(c0, c1, c2);
    } else {
      var b := DecodeGroup(c0, c1, c2, c3).value;
      EncodeGroupOfDecodeGroup(c0, c1, c2, c3);
      EncodeThree(b);
    }
  }

  /** Three bytes in front of at least one more are encoded as a full group. */
  lemma EncodeGroupThen(group: seq<byte>, rest: seq<byte>)
    requires |group| == 3 && |rest| >= 1
    ensures Encode(group + rest) == EncodeGroup(group[0], group[1], group[2]) + Encode(rest)
  {
    var b := group + rest;
    assert b[0] == group[0] && b[1] == group[1] && b[2] == group[2];
    assert b[3..] == rest;
  }

  lemma Front4(s: string)
    requires |s| >= 4
    ensures s == [s[0], s[1], s[2], s[3]] + s[4..]
  {
  }

  /** A decodable string longer than one group splits into a full group and a decodable rest. */
  lemma DecodeFront(s: string)
    requires |s| > 4 && Decode(s).Some?
    ensures DecodeGroup(s[0], s[1], s[2], s[3]).Some? && Decode(s[4..]).Some?
    ensures Decode(s).value == DecodeGroup(s[0], s[1], s[2], s[3]).value + Decode(s[4..]).value
  {
  }

  lemma EncodeDecodeLast(s: string)
    requires |s| == 4 && Decode(s).Some?
    ensures Encode(Decode(s).value) == s
  {
    DecodeFour(s);
    EncodeOfDecodeLastGroup(s[0], s[1], s[2], s[3]);
    Front4(s);
    assert s[4..] == [];
  }

  /** A full group followed by a rest whose encoding is already known is re-encoded as the whole string. */
  lemma EncodeDecodeStep(s: string)
    requires |s| > 4 && DecodeGroup(s[0], s[1], s[2], s[3]).Some? && Decode(s[4..]).Some?
    requires Encode(Decode(s[4..]).value) == s[4..]
    ensures Encode(DecodeGroup(s[0], s[1], s[2], s[3]).value + Decode(s[4..]).value) == s
  {
    var group := DecodeGroup(s[0], s[1], s[2], s[3]).value;
    var rest := Decode(s[4..]).value;
    assert rest != [];
    Front4(s);
    EncodeGroupOfDecodeGroup(s[0], s[1], s[2], s[3]);
    EncodeGroupThen(group, rest);
  }

  /** Every string the decoder accepts is the encoding of what it decodes to: the encoding is unique. */
  lemma {:induction false} EncodeDecode(s: string)
    requires Decode(s).Some?
    ensures Encode(Decode(s).value) == s
    decreases |s|
  {
    if |s| == 4 {
      EncodeDecodeLast(s);
    } else if |s| > 4 {
      DecodeFront(s);
      EncodeDecode(s[4..]);
      EncodeDecodeStep(s);
    }
  }
}
