// Unpadded base64 as Go's encoding/base64 implements it: the URL-safe and the
// standard alphabet, with and without Strict, and its habit of skipping CR and LF.

module Base64 {
  import opened Common

  type Byte = b: int | 0 <= b < 256

  type Sextet = v: int | 0 <= v < 64

  datatype Alphabet = Url | Std

  // ----- Letters and six-bit values

  function Char(a: Alphabet, v: Sextet): (c: char)
    ensures c != '\r' && c != '\n'
    ensures SextetOf(a, c) == Some(v)
  {
    if v < 26 then (65 + v) as char
    else if v < 52 then (71 + v) as char
    else if v < 62 then (v - 4) as char
    else if v == 62 then (if a.Url? then '-' else '+')
    else if a.Url? then '_' else '/'
  }

  function SextetOf(a: Alphabet, c: char): (v: Option<Sextet>) {
    if 'A' <= c <= 'Z' then Some(c as int - 65)
    else if 'a' <= c <= 'z' then Some(c as int - 71)
    else if '0' <= c <= '9' then Some(c as int + 4)
    else if c == (if a.Url? then '-' else '+') then Some(62)
    else if c == (if a.Url? then '_' else '/') then Some(63)
    else None
  }

  function Letters(a: Alphabet, vs: seq<Sextet>): (s: string)
    ensures |s| == |vs|
    ensures forall i :: 0 <= i < |vs| ==> s[i] == Char(a, vs[i])
  {
    if vs == [] then "" else [Char(a, vs[0])] + Letters(a, vs[1..])
  }

  predicate InAlphabet(a: Alphabet, s: string) {
    forall i :: 0 <= i < |s| ==> SextetOf(a, s[i]).Some?
  }

  function Sextets(a: Alphabet, s: string): (vs: seq<Sextet>)
    requires InAlphabet(a, s)
    ensures |vs| == |s|
    ensures forall i :: 0 <= i < |s| ==> SextetOf(a, s[i]) == Some(vs[i])
  {
    if s == "" then [] else [SextetOf(a, s[0]).value] + Sextets(a, s[1..])
  }

  lemma CharOfSextet(a: Alphabet, c: char)
    requires SextetOf(a, c).Some?
    ensures Char(a, SextetOf(a, c).value) == c
  {
  }

  lemma {:induction false} LettersOfSextets(a: Alphabet, s: string)
    requires InAlphabet(a, s)
    ensures Letters(a, Sextets(a, s)) == s
  {
    forall i | 0 <= i < |s|
      ensures Letters(a, Sextets(a, s))[i] == s[i]
    {
      CharOfSextet(a, s[i]);
    }
  }

  lemma {:induction false} SextetsOfLetters(a: Alphabet, vs: seq<Sextet>)
    ensures InAlphabet(a, Letters(a, vs))
    ensures Sextets(a, Letters(a, vs)) == vs
  {
    forall i | 0 <= i < |vs|
      ensures SextetOf(a, Letters(a, vs)[i]) == Some(vs[i])
    {
    }
  }

  // ----- Bytes and six-bit values

  // Three bytes are four six-bit values: the four values of a group of bytes ...
  function Six0(b0: Byte): Sextet { b0 as int / 4 }
  function Six1(b0: Byte, b1: Byte): Sextet { b0 as int % 4 * 16 + b1 as int / 16 }
  function Six2(b1: Byte, b2: Byte): Sextet { b1 as int % 16 * 4 + b2 as int / 64 }
  function Six3(b2: Byte): Sextet { b2 as int % 64 }

  // ... and the three bytes of a group of values.
  function Byte0(v0: Sextet, v1: Sextet): Byte { v0 as int * 4 + v1 as int / 16 }
  function Byte1(v1: Sextet, v2: Sextet): Byte { v1 as int % 16 * 16 + v2 as int / 4 }
  function Byte2(v2: Sextet, v3: Sextet): Byte { v2 as int % 4 * 64 + v3 as int }

  lemma GroupOfBytes(b0: Byte, b1: Byte, b2: Byte)
    ensures Byte0(Six0(b0), Six1(b0, b1)) == b0
    ensures Byte1(Six1(b0, b1), Six2(b1, b2)) == b1
    ensures Byte2(Six2(b1, b2), Six3(b2)) == b2
  {
  }

  lemma GroupOfSextets(v0: Sextet, v1: Sextet, v2: Sextet, v3: Sextet)
    ensures Six0(Byte0(v0, v1)) == v0
    ensures Six1(Byte0(v0, v1), Byte1(v1, v2)) == v1
    ensures Six2(Byte1(v1, v2), Byte2(v2, v3)) == v2
    ensures Six3(Byte2(v2, v3)) == v3
  {
  }

  function Pack(b: seq<Byte>): (vs: seq<Sextet>)
    ensures b != [] ==> vs != []
  {
    if |b| == 0 then []
    else if |b| == 1 then [Six0(b[0]), Six1(b[0], 0)]
    else if |b| == 2 then [Six0(b[0]), Six1(b[0], b[1]), Six2(b[1], 0)]
    else [Six0(b[0]), Six1(b[0], b[1]), Six2(b[1], b[2]), Six3(b[2])] + Pack(b[3..])
  }

  /** strict refuses unused trailing bits that are not zero. */
  function Unpack(strict: bool, v: seq<Sextet>): Option<seq<Byte>> {
    if |v| == 0 then Some([])
    else if |v| == 1 then None
    else if |v| == 2 then
      if strict && v[1] % 16 != 0 then None else Some([Byte0(v[0], v[1])])
    else if |v| == 3 then
      if strict && v[2] % 4 != 0 then None else Some([Byte0(v[0], v[1]), Byte1(v[1], v[2])])
    else
      match Unpack(strict, v[4..])
      case None => None
      case Some(rest) => Some([Byte0(v[0], v[1]), Byte1(v[1], v[2]), Byte2(v[2], v[3])] + rest)
  }

  lemma {:induction false} UnpackUndoesPack(strict: bool, b: seq<Byte>)
    ensures Unpack(strict, Pack(b)) == Some(b)
  {
    if |b| == 1 {
      UnpackOneByte(strict, b[0]);
      assert b == [b[0]];
    } else if |b| == 2 {
      UnpackTwoBytes(strict, b[0], b[1]);
      assert b == [b[0], b[1]];
    } else if |b| >= 3 {
      var group := [Six0(b[0]), Six1(b[0], b[1]), Six2(b[1], b[2]), Six3(b[2])];
      UnpackUndoesPack(strict, b[3..]);
      GroupOfBytes(b[0], b[1], b[2]);
      UnpackGroup(strict, group, Pack(b[3..]));
      assert b == [b[0], b[1], b[2]] + b[3..];
    }
  }

  lemma UnpackOneByte(strict: bool, b0: Byte)
    ensures Unpack(strict, [Six0(b0), Six1(b0, 0)]) == Some([b0])
  {
    assert Byte0(Six0(b0), Six1(b0, 0)) == b0 by { GroupOfBytes(b0, 0, 0); }
    TrailingBits(b0);
    UnpackPair(strict, Six0(b0), Six1(b0, 0));
  }

  lemma UnpackPair(strict: bool, v0: Sextet, v1: Sextet)
    requires v1 % 16 == 0
    ensures Unpack(strict, [v0, v1]) == Some([Byte0(v0, v1)])
  {
  }

  lemma TrailingBits(b0: Byte)
    ensures Six1(b0, 0) % 16 == 0
  {
    var k := b0 % 4;
    assert Six1(b0, 0) == 16 * k;
    assert k == 0 || k == 1 || k == 2 || k == 3;
  }

  lemma UnpackTwoBytes(strict: bool, b0: Byte, b1: Byte)
    ensures Unpack(strict, [Six0(b0), Six1(b0, b1), Six2(b1, 0)]) == Some([b0, b1])
  {
    GroupOfBytes(b0, b1, 0);
  }

  lemma UnpackGroup(strict: bool, group: seq<Sextet>, rest: seq<Sextet>)
    requires |group| == 4 && Unpack(strict, rest).Some?
    ensures Unpack(strict, group + rest) ==
            Some([Byte0(group[0], group[1]), Byte1(group[1], group[2]), Byte2(group[2], group[3])] + Unpack(strict, rest).value)
  {
    assert (group + rest)[4..] == rest;
  }

  lemma {:induction false} PackUndoesStrictUnpack(v: seq<Sextet>)
    requires Unpack(true, v).Some?
    ensures Pack(Unpack(true, v).value) == v
  {
    if |v| == 2 {
      PackOfPair(v[0], v[1]);
      assert v == [v[0], v[1]];
    } else if |v| == 3 {
      PackOfTriple(v[0], v[1], v[2]);
      assert v == [v[0], v[1], v[2]];
    } else if |v| >= 4 {
      PackUndoesStrictUnpack(v[4..]);
      PackOfGroup(v[0], v[1], v[2], v[3], Unpack(true, v[4..]).value);
      assert v == [v[0], v[1], v[2], v[3]] + v[4..];
    }
  }

  lemma PackOfPair(v0: Sextet, v1: Sextet)
    requires v1 % 16 == 0
    ensures Pack([Byte0(v0, v1)]) == [v0, v1]
  {
    assert Six0(Byte0(v0, v1)) == v0 by { GroupOfSextets(v0, v1, 0, 0); }
    assert Byte1(v1, 0) == 0;
    assert Six1(Byte0(v0, v1), 0) == v1 by { GroupOfSextets(v0, v1, 0, 0); }
  }

  lemma PackOfTriple(v0: Sextet, v1: Sextet, v2: Sextet)
    requires v2 % 4 == 0
    ensures Pack([Byte0(v0, v1), Byte1(v1, v2)]) == [v0, v1, v2]
  {
    assert Byte2(v2, 0) == 0;
    GroupOfSextets(v0, v1, v2, 0);
  }

  lemma PackOfGroup(v0: Sextet, v1: Sextet, v2: Sextet, v3: Sextet, rest: seq<Byte>)
    ensures Pack([Byte0(v0, v1), Byte1(v1, v2), Byte2(v2, v3)] + rest) == [v0, v1, v2, v3] + Pack(rest)
  {
    var b := [Byte0(v0, v1), Byte1(v1, v2), Byte2(v2, v3)] + rest;
    assert b[3..] == rest;
    GroupOfSextets(v0, v1, v2, v3);
  }

  // ----- Text

  function Encode(a: Alphabet, b: seq<Byte>): string {
    Letters(a, Pack(b))
  }

  function WithoutLineBreaks(s: string): (r: string)
    ensures '\r' !in s && '\n' !in s ==> r == s
  {
    if s == "" then ""
    else (if s[0] == '\r' || s[0] == '\n' then "" else [s[0]]) + WithoutLineBreaks(s[1..])
  }

  /** Encoding.DecodeString: CR and LF are skipped wherever they stand, Strict or not. */
  function DecodeString(a: Alphabet, strict: bool, s: string): Option<seq<Byte>> {
    var text := WithoutLineBreaks(s);
    if InAlphabet(a, text) then Unpack(strict, Sextets(a, text)) else None
  }

  lemma {:induction false} EncodeStaysInAlphabet(a: Alphabet, b: seq<Byte>)
    ensures InAlphabet(a, Encode(a, b))
    ensures b != [] ==> Encode(a, b) != ""
    ensures WithoutLineBreaks(Encode(a, b)) == Encode(a, b)
  {
    SextetsOfLetters(a, Pack(b));
  }

  /** The alphabets of sections 4 and 5 of RFC 4648. */
  lemma {:induction false} AlphabetOf(a: Alphabet, v: Sextet)
    ensures v < 26 ==> Char(a, v) as int == 'A' as int + v
    ensures 26 <= v < 52 ==> Char(a, v) as int == 'a' as int + (v - 26)
    ensures 52 <= v < 62 ==> Char(a, v) as int == '0' as int + (v - 52)
    ensures v == 62 ==> Char(a, v) == if a.Url? then '-' else '+'
    ensures v == 63 ==> Char(a, v) == if a.Url? then '_' else '/'
  {
  }

  /** The number that the values of one group spell, most significant first. */
  function GroupValue(v0: Sextet, v1: Sextet, v2: Sextet, v3: Sextet): int {
    v0 as int * 0x4_0000 + v1 as int * 0x1000 + v2 as int * 64 + v3 as int
  }

  /** Three bytes and the four values they become are the same 24-bit number, and the rest follows in
      the same way (section 4 of RFC 4648). */
  lemma {:induction false} PackIsBigEndian(b0: Byte, b1: Byte, b2: Byte, rest: seq<Byte>)
    ensures exists v0, v1, v2, v3 ::
              && Pack([b0, b1, b2] + rest) == [v0, v1, v2, v3] + Pack(rest)
              && GroupValue(v0, v1, v2, v3) == b0 as int * 0x1_0000 + b1 as int * 0x100 + b2 as int
  {
    var b := [b0, b1, b2] + rest;
    assert b[3..] == rest;
    GroupNumber(b0, b1, b2);
    assert Pack(b) == [Six0(b0), Six1(b0, b1), Six2(b1, b2), Six3(b2)] + Pack(rest);
  }

  /** A last group of one or two bytes is filled up with zero bits, and its empty values left out. */
  lemma {:induction false} PackPadsOneByte(b0: Byte) returns (v0: Sextet, v1: Sextet)
    ensures Pack([b0]) == [v0, v1] && GroupValue(v0, v1, 0, 0) == b0 as int * 0x1_0000
  {
    v0, v1 := Six0(b0), Six1(b0, 0);
    OneByteNumber(b0);
  }

  lemma {:induction false} PackPadsTwoBytes(b0: Byte, b1: Byte) returns (v0: Sextet, v1: Sextet, v2: Sextet)
    ensures Pack([b0, b1]) == [v0, v1, v2] && GroupValue(v0, v1, v2, 0) == b0 as int * 0x1_0000 + b1 as int * 0x100
  {
    v0, v1, v2 := Six0(b0), Six1(b0, b1), Six2(b1, 0);
    TwoByteNumber(b0, b1);
  }

  lemma OneByteNumber(b0: Byte)
    ensures GroupValue(Six0(b0), Six1(b0, 0), 0, 0) == b0 as int * 0x1_0000
  {
  }

  lemma TwoByteNumber(b0: Byte, b1: Byte)
    ensures GroupValue(Six0(b0), Six1(b0, b1), Six2(b1, 0), 0) == b0 as int * 0x1_0000 + b1 as int * 0x100
  {
  }

  lemma GroupNumber(b0: Byte, b1: Byte, b2: Byte)
    ensures GroupValue(Six0(b0), Six1(b0, b1), Six2(b1, b2), Six3(b2)) == b0 as int * 0x1_0000 + b1 as int * 0x100 + b2 as int
  {
  }

  /** The unused bits of a last group of two or three values are zero. */
  predicate NoLooseBits(v: seq<Sextet>) {
    (|v| % 4 == 2 ==> v[|v| - 1] % 16 == 0) && (|v| % 4 == 3 ==> v[|v| - 1] % 4 == 0)
  }

  /** A single leftover value is refused; loose bits are refused by the strict decoder alone, and the
      other one answers as if they were zero. */
  lemma {:induction false} UnpackAccepts(v: seq<Sextet>)
    ensures Unpack(false, v).Some? <==> |v| % 4 != 1
    ensures Unpack(true, v).Some? <==> |v| % 4 != 1 && NoLooseBits(v)
    ensures Unpack(true, v).Some? ==> Unpack(true, v) == Unpack(false, v)
  {
    if |v| >= 4 {
      UnpackAccepts(v[4..]);
      assert |v[4..]| % 4 == |v| % 4;
    }
  }

  /** What was encoded decodes to itself, strictly or not. */
  lemma {:induction false} DecodeUndoesEncode(a: Alphabet, strict: bool, b: seq<Byte>)
    ensures DecodeString(a, strict, Encode(a, b)) == Some(b)
  {
    EncodeStaysInAlphabet(a, b);
    SextetsOfLetters(a, Pack(b));
    UnpackUndoesPack(strict, b);
  }

  /** Strict decoding of text without line breaks accepts only canonical text: encoding the
      result gives the text back. */
  lemma {:induction false} EncodeUndoesStrictDecode(a: Alphabet, s: string)
    requires '\r' !in s && '\n' !in s
    requires DecodeString(a, true, s).Some?
    ensures Encode(a, DecodeString(a, true, s).value) == s
  {
    PackUndoesStrictUnpack(Sextets(a, s));
    LettersOfSextets(a, s);
  }
}
