/**
 * Base64 in the standard alphabet with padding, as section 4 of RFC 4648
 * defines it and as Python's base64.b64encode produces it. The encoder works
 * over 24-bit groups of three octets; a final group of one or two octets is
 * padded with '=' to four characters. The decoder is the strict inverse: it
 * refuses characters outside the alphabet, misplaced padding and non-zero
 * pad bits, so that text and octets correspond one to one.
 */
module Base64 {
  import opened Wrappers

  /** One octet of a Python `bytes` value. */
  type byte = b: int | 0 <= b < 256

  /** The 6-bit value one alphabet character carries. */
  type sextet = v: int | 0 <= v < 64

  const PadChar: char := '='

  /** Table 1 of RFC 4648: 0..25 are 'A'..'Z', 26..51 'a'..'z', 52..61 '0'..'9', 62 '+', 63 '/'. */
  function CharOf(v: sextet): (c: char)
    ensures IsAlphabetChar(c)
  {
    if v < 26 then ('A' as int + v) as char
    else if v < 52 then ('a' as int + (v - 26)) as char
    else if v < 62 then ('0' as int + (v - 52)) as char
    else if v == 62 then '+'
    else '/'
  }

  predicate IsAlphabetChar(c: char) {
    ('A' <= c <= 'Z') || ('a' <= c <= 'z') || ('0' <= c <= '9') || c == '+' || c == '/'
  }

  /** The value of an alphabet character; None for the pad and for every other character. */
  function ValueOf(c: char): (r: Option<sextet>)
    ensures r.Some? <==> IsAlphabetChar(c)
  {
    if 'A' <= c <= 'Z' then Some(c as int - 'A' as int)
    else if 'a' <= c <= 'z' then Some(c as int - 'a' as int + 26)
    else if '0' <= c <= '9' then Some(c as int - '0' as int + 52)
    else if c == '+' then Some(62)
    else if c == '/' then Some(63)
    else None
  }

  /** ValueOf undoes CharOf on the 64 values... */
  lemma ValueOfCharOf(v: sextet)
    ensures ValueOf(CharOf(v)) == Some(v)
  {
  }

  /** ...and CharOf undoes ValueOf on the alphabet. */
  lemma CharOfValueOf(c: char)
    requires IsAlphabetChar(c)
    ensures CharOf(ValueOf(c).value) == c
  {
  }

  // ---------------------------------------------------------------- encoding

  /** A full 24-bit group: three octets as four characters. */
  function EncodeGroup(b0: byte, b1: byte, b2: byte): string {
    [CharOf(b0 / 4), CharOf(b0 % 4 * 16 + b1 / 16), CharOf(b1 % 16 * 4 + b2 / 64), CharOf(b2 % 64)]
  }

  /** A final group of one octet: two characters and two pad characters. */
  function EncodeFinal1(b0: byte): string {
    [CharOf(b0 / 4), CharOf(b0 % 4 * 16), PadChar, PadChar]
  }

  /** A final group of two octets: three characters and one pad character. */
  function EncodeFinal2(b0: byte, b1: byte): string {
    [CharOf(b0 / 4), CharOf(b0 % 4 * 16 + b1 / 16), CharOf(b1 % 16 * 4), PadChar]
  }

  /** The number of pad characters the encoding of n octets ends with. */
  function PadLength(n: nat): (p: nat)
    ensures p <= 2 && (p == 0 <==> n % 3 == 0)
  {
    (3 - n % 3) % 3
  }

  /** Four characters for every started group of three octets. */
  function EncodedLength(n: nat): nat {
    if n == 0 then 0 else if n <= 3 then 4 else 4 + EncodedLength(n - 3)
  }

  /** EncodedLength(n) is 4 * ceil(n / 3). */
  lemma {:induction false} EncodedLengthIsFourCeilThirds(n: nat)
    ensures EncodedLength(n) == 4 * ((n + 2) / 3)
  {
    if n > 3 {
      EncodedLengthIsFourCeilThirds(n - 3);
    }
  }

  /** base64.b64encode: the padded encoding, group by group from the front. */
  function Encode(data: seq<byte>): (text: string)
    ensures |text| == EncodedLength(|data|)
    decreases |data|
  {
    if |data| == 0 then []
    else if |data| == 1 then EncodeFinal1(data[0])
    else if |data| == 2 then EncodeFinal2(data[0], data[1])
    else EncodeGroup(data[0], data[1], data[2]) + Encode(data[3..])
  }

  /**
   * Alphabet characters followed by exactly `pads` pad characters: the pad
   * appears nowhere else, and nothing else appears after it.
   */
  predicate WellPadded(text: string, pads: nat) {
    forall i :: 0 <= i < |text| ==>
      && (IsAlphabetChar(text[i]) <==> i < |text| - pads)
      && (text[i] == PadChar <==> i >= |text| - pads)
  }

  /** The encoding of n octets ends in PadLength(n) pad characters (at most two) and has none elsewhere. */
  lemma {:induction false} EncodeShape(data: seq<byte>)
    ensures WellPadded(Encode(data), PadLength(|data|))
    decreases |data|
  {
    if |data| > 2 {
      var text := Encode(data);
      var head := EncodeGroup(data[0], data[1], data[2]);
      var tail := Encode(data[3..]);
      assert text == head + tail;
      EncodeShape(data[3..]);
      var pads := PadLength(|data|);
      assert pads == PadLength(|data[3..]|);
      assert |tail| >= pads;
      forall i | 0 <= i < |text|
        ensures (IsAlphabetChar(text[i]) <==> i < |text| - pads)
        ensures (text[i] == PadChar <==> i >= |text| - pads)
      {
        if i < 4 {
          assert text[i] == head[i];
          assert IsAlphabetChar(head[i]) && head[i] != PadChar by {
            if i == 0 {} else if i == 1 {} else if i == 2 {} else {}
          }
        } else {
          assert text[i] == tail[i - 4];
        }
      }
    }
  }

  // ---------------------------------------------------------------- decoding

  /** Four 6-bit values joined back into the three octets they carry. */
  function Join(s0: sextet, s1: sextet, s2: sextet, s3: sextet): (b: seq<byte>)
    ensures |b| == 3
  {
    var b0: byte := s0 * 4 + s1 / 16;
    var b1: byte := s1 % 16 * 16 + s2 / 4;
    var b2: byte := s2 % 4 * 64 + s3;
    [b0, b1, b2]
  }

  /** Four alphabet characters back to three octets; None if any is not in the alphabet. */
  function DecodeGroup(c0: char, c1: char, c2: char, c3: char): Option<seq<byte>> {
    if IsAlphabetChar(c0) && IsAlphabetChar(c1) && IsAlphabetChar(c2) && IsAlphabetChar(c3) then
      Some(Join(ValueOf(c0).value, ValueOf(c1).value, ValueOf(c2).value, ValueOf(c3).value))
    else None
  }

  /**
   * The last group of a text: a full group, or one or two octets followed by
   * padding. The bits the padding leaves unused must be zero (section 3.5).
   */
  function DecodeFinal(c0: char, c1: char, c2: char, c3: char): Option<seq<byte>> {
    if c2 == PadChar && c3 == PadChar then
      if IsAlphabetChar(c0) && IsAlphabetChar(c1) && ValueOf(c1).value % 16 == 0 then
        Some(Join(ValueOf(c0).value, ValueOf(c1).value, 0, 0)[..1])
      else None
    else if c3 == PadChar then
      if IsAlphabetChar(c0) && IsAlphabetChar(c1) && IsAlphabetChar(c2) && ValueOf(c2).value % 4 == 0 then
        Some(Join(ValueOf(c0).value, ValueOf(c1).value, ValueOf(c2).value, 0)[..2])
      else None
    else
      DecodeGroup(c0, c1, c2, c3)
  }

  /** The strict decoder: None unless the text is a well-formed padded encoding. */
  function Decode(text: string): (r: Option<seq<byte>>)
    decreases |text|
  {
    if |text| == 0 then Some([])
    else if |text| < 4 then None
    else if |text| == 4 then DecodeFinal(text[0], text[1], text[2], text[3])
    else
      match DecodeGroup(text[0], text[1], text[2], text[3])
      case None => None
      case Some(head) =>
        match Decode(text[4..])
        case None => None
        case Some(tail) => Some(head + tail)
  }

  // ---------------------------------------------------------------- round trips

  lemma Split(hi: int, lo: int, d: int)
    requires d == 4 || d == 16 || d == 64
    requires 0 <= lo < d
    ensures (hi * d + lo) / d == hi && (hi * d + lo) % d == lo
  {
  }

  /** Splitting three octets into 6-bit values and joining them is the identity. */
  lemma JoinSplit(b0: byte, b1: byte, b2: byte)
    ensures Join(b0 / 4, b0 % 4 * 16 + b1 / 16, b1 % 16 * 4 + b2 / 64, b2 % 64) == [b0, b1, b2]
  {
    Split(b0 % 4, b1 / 16, 16);
    Split(b1 % 16, b2 / 64, 4);
  }

  /** Joining 6-bit values and splitting the octets again gives them back. */
  lemma SplitJoin(s0: sextet, s1: sextet, s2: sextet, s3: sextet)
    ensures var b := Join(s0, s1, s2, s3);
      && b[0] / 4 == s0 && b[0] % 4 * 16 + b[1] / 16 == s1
      && b[1] % 16 * 4 + b[2] / 64 == s2 && b[2] % 64 == s3
  {
    Split(s0, s1 / 16, 4);
    Split(s1 % 16, s2 / 4, 16);
    Split(s2 % 4, s3, 64);
  }

  lemma GroupRoundTrip(b0: byte, b1: byte, b2: byte)
    ensures var t := EncodeGroup(b0, b1, b2); DecodeGroup(t[0], t[1], t[2], t[3]) == Some([b0, b1, b2])
  {
    ValueOfCharOf(b0 / 4);
    ValueOfCharOf(b0 % 4 * 16 + b1 / 16);
    ValueOfCharOf(b1 % 16 * 4 + b2 / 64);
    ValueOfCharOf(b2 % 64);
    JoinSplit(b0, b1, b2);
  }

  lemma Final1RoundTrip(b0: byte)
    ensures var t := EncodeFinal1(b0); DecodeFinal(t[0], t[1], t[2], t[3]) == Some([b0])
  {
    var s0: sextet, s1: sextet := b0 / 4, b0 % 4 * 16;
    var t := EncodeFinal1(b0);
    ValueOfCharOf(s0);
    ValueOfCharOf(s1);
    assert ValueOf(t[0]) == Some(s0) && ValueOf(t[1]) == Some(s1);
    Split(b0 % 4, 0, 16);
    assert Join(s0, s1, 0, 0)[..1] == [b0];
  }

  lemma Final2RoundTrip(b0: byte, b1: byte)
    ensures var t := EncodeFinal2(b0, b1); DecodeFinal(t[0], t[1], t[2], t[3]) == Some([b0, b1])
  {
    var s0: sextet, s1: sextet, s2: sextet := b0 / 4, b0 % 4 * 16 + b1 / 16, b1 % 16 * 4;
    var t := EncodeFinal2(b0, b1);
    ValueOfCharOf(s0);
    ValueOfCharOf(s1);
    ValueOfCharOf(s2);
    assert ValueOf(t[0]) == Some(s0) && ValueOf(t[1]) == Some(s1) && ValueOf(t[2]) == Some(s2);
    Split(b1 % 16, 0, 4);
    JoinSplit(b0, b1, 0);
    assert Join(s0, s1, s2, 0)[..2] == [b0, b1];
  }

  /** A text of four characters is the display of its characters. */
  lemma FourChars(text: string)
    requires |text| == 4
    ensures text == [text[0], text[1], text[2], text[3]]
  {
  }

  /** A text of more than four characters is its first four characters and the rest. */
  lemma FirstGroupAndRest(text: string)
    requires |text| > 4
    ensures text == [text[0], text[1], text[2], text[3]] + text[4..]
  {
    FourChars(text[..4]);
    assert text == text[..4] + text[4..];
  }

  /** A text of one group is decoded as a final group. */
  lemma DecodeOneGroup(text: string)
    requires |text| == 4
    ensures Decode(text) == DecodeFinal(text[0], text[1], text[2], text[3])
  {
  }

  /** A text of more than one group: the first group, then the rest. */
  lemma DecodeLonger(text: string, head: seq<byte>, tail: seq<byte>)
    requires |text| > 4
    requires DecodeGroup(text[0], text[1], text[2], text[3]) == Some(head)
    requires Decode(text[4..]) == Some(tail)
    ensures Decode(text) == Some(head + tail)
  {
  }

  /** The encodings of one, two and three octets are single groups. */
  lemma EncodeOneGroup(data: seq<byte>)
    requires 1 <= |data| <= 3
    ensures |data| == 1 ==> Encode(data) == EncodeFinal1(data[0]) && data == [data[0]]
    ensures |data| == 2 ==> Encode(data) == EncodeFinal2(data[0], data[1]) && data == [data[0], data[1]]
    ensures |data| == 3 ==> Encode(data) == EncodeGroup(data[0], data[1], data[2]) && data == [data[0], data[1], data[2]]
  {
    if |data| == 3 {
      assert data[3..] == [];
    }
  }

  /** Longer encodings start with a full group. */
  lemma EncodeLonger(data: seq<byte>)
    requires |data| > 3
    ensures var text := Encode(data);
      && |text| > 4
      && text[..4] == EncodeGroup(data[0], data[1], data[2])
      && text[4..] == Encode(data[3..])
      && data == [data[0], data[1], data[2]] + data[3..]
  {
    var text := Encode(data);
    assert text == EncodeGroup(data[0], data[1], data[2]) + Encode(data[3..]);
  }

  lemma DecodeEncodeOneGroup(data: seq<byte>, text: string)
    requires 1 <= |data| <= 3
    requires text == Encode(data)
    ensures Decode(text) == Some(data)
  {
    EncodeOneGroup(data);
    DecodeOneGroup(text);
    if |data| == 1 {
      Final1RoundTrip(data[0]);
    } else if |data| == 2 {
      Final2RoundTrip(data[0], data[1]);
    } else {
      GroupRoundTrip(data[0], data[1], data[2]);
      var t := EncodeGroup(data[0], data[1], data[2]);
      assert t[2] != PadChar && t[3] != PadChar;
    }
  }

  /** Decoding an encoding gives back the octets exactly. */
  lemma {:induction false} DecodeEncode(data: seq<byte>)
    ensures Decode(Encode(data)) == Some(data)
    decreases |data|
  {
    if |data| == 0 {
    } else if |data| <= 3 {
      DecodeEncodeOneGroup(data, Encode(data));
    } else {
      var text := Encode(data);
      EncodeLonger(data);
      GroupRoundTrip(data[0], data[1], data[2]);
      assert text[..4][0] == text[0] && text[..4][1] == text[1] && text[..4][2] == text[2] && text[..4][3] == text[3];
      DecodeEncode(data[3..]);
      DecodeLonger(text, [data[0], data[1], data[2]], data[3..]);
    }
  }

  lemma GroupUnique(c0: char, c1: char, c2: char, c3: char, b: seq<byte>)
    requires DecodeGroup(c0, c1, c2, c3) == Some(b)
    ensures |b| == 3 && EncodeGroup(b[0], b[1], b[2]) == [c0, c1, c2, c3]
  {
    CharOfValueOf(c0);
    CharOfValueOf(c1);
    CharOfValueOf(c2);
    CharOfValueOf(c3);
    SplitJoin(ValueOf(c0).value, ValueOf(c1).value, ValueOf(c2).value, ValueOf(c3).value);
  }

  lemma FinalUnique(c0: char, c1: char, c2: char, c3: char, b: seq<byte>)
    requires DecodeFinal(c0, c1, c2, c3) == Some(b)
    ensures 1 <= |b| <= 3
    ensures |b| == 1 ==> EncodeFinal1(b[0]) == [c0, c1, c2, c3]
    ensures |b| == 2 ==> EncodeFinal2(b[0], b[1]) == [c0, c1, c2, c3]
    ensures |b| == 3 ==> EncodeGroup(b[0], b[1], b[2]) == [c0, c1, c2, c3]
  {
    if c2 == PadChar && c3 == PadChar {
      CharOfValueOf(c0);
      CharOfValueOf(c1);
      SplitJoin(ValueOf(c0).value, ValueOf(c1).value, 0, 0);
    } else if c3 == PadChar {
      CharOfValueOf(c0);
      CharOfValueOf(c1);
      CharOfValueOf(c2);
      SplitJoin(ValueOf(c0).value, ValueOf(c1).value, ValueOf(c2).value, 0);
    } else {
      GroupUnique(c0, c1, c2, c3, b);
    }
  }

  /** What the decoder accepts in a text of more than one group. */
  lemma DecodeLongerParts(text: string)
    requires |text| > 4 && Decode(text).Some?
    ensures DecodeGroup(text[0], text[1], text[2], text[3]).Some? && Decode(text[4..]).Some?
    ensures Decode(text).value == DecodeGroup(text[0], text[1], text[2], text[3]).value + Decode(text[4..]).value
  {
  }

  lemma EncodeDecodeOneGroup(text: string, data: seq<byte>)
    requires |text| == 4 && Decode(text) == Some(data)
    ensures Encode(data) == text
  {
    DecodeOneGroup(text);
    FinalUnique(text[0], text[1], text[2], text[3], data);
    EncodeOneGroup(data);
    FourChars(text);
  }

  lemma EncodeDecodeLonger(text: string, head: seq<byte>, tail: seq<byte>)
    requires |text| > 4
    requires DecodeGroup(text[0], text[1], text[2], text[3]) == Some(head)
    requires Encode(tail) == text[4..]
    ensures Encode(head + tail) == text
  {
    GroupUnique(text[0], text[1], text[2], text[3], head);
    assert |tail| > 0;
    var data := head + tail;
    EncodeLonger(data);
    assert data[3..] == tail;
    assert head == [data[0], data[1], data[2]];
    var enc := Encode(data);
    FirstGroupAndRest(enc);
    FourChars(enc[..4]);
    FirstGroupAndRest(text);
  }

  /** Every text the decoder accepts is the encoding of what it decodes to. */
  lemma {:induction false} EncodeDecode(text: string, data: seq<byte>)
    requires Decode(text) == Some(data)
    ensures Encode(data) == text
    decreases |text|
  {
    if |text| == 0 {
    } else if |text| == 4 {
      EncodeDecodeOneGroup(text, data);
    } else {
      DecodeLongerParts(text);
      var head := DecodeGroup(text[0], text[1], text[2], text[3]).value;
      var tail := Decode(text[4..]).value;
      EncodeDecode(text[4..], tail);
      EncodeDecodeLonger(text, head, tail);
    }
  }

  /** The decoder accepts exactly the encodings: text decodes to data iff it is data's encoding. */
  lemma DecodeIffEncoding(text: string, data: seq<byte>)
    ensures Decode(text) == Some(data) <==> text == Encode(data)
  {
    if Decode(text) == Some(data) {
      EncodeDecode(text, data);
    }
    if text == Encode(data) {
      DecodeEncode(data);
    }
  }

  /** Distinct octet sequences have distinct encodings. */
  lemma EncodeInjective(a: seq<byte>, b: seq<byte>)
    requires Encode(a) == Encode(b)
    ensures a == b
  {
    DecodeEncode(a);
    DecodeEncode(b);
  }

  /** The test vectors of section 10 of RFC 4648 ("f", "fo", ..., "foobar" as octets). */
  lemma Rfc4648TestVectors()
    ensures Encode([]) == ""
    ensures Encode([102]) == "Zg=="
    ensures Encode([102, 111]) == "Zm8="
    ensures Encode([102, 111, 111]) == "Zm9v"
    ensures Encode([102, 111, 111, 98]) == "Zm9vYg=="
    ensures Encode([102, 111, 111, 98, 97]) == "Zm9vYmE="
    ensures Encode([102, 111, 111, 98, 97, 114]) == "Zm9vYmFy"
  {
    assert [102, 111, 111, 98][3..] == [98];
    assert [102, 111, 111, 98, 97][3..] == [98, 97];
    assert [102, 111, 111, 98, 97, 114][3..] == [98, 97, 114];
  }

  /** The groups of the octets 1..10. */
  lemma OneToTenGroups()
    ensures EncodeGroup(1, 2, 3) == "AQID" && EncodeGroup(4, 5, 6) == "BAUG"
    ensures EncodeGroup(7, 8, 9) == "BwgJ" && EncodeFinal1(10) == "Cg=="
  {
  }

  /** The octets 1..10: three full groups and a final group of one octet. */
  lemma OneToTenVector()
    ensures Encode([1, 2, 3, 4, 5, 6, 7, 8, 9, 10]) == "AQIDBAUGBwgJCg=="
  {
    OneToTenGroups();
    var data: seq<byte> := [1, 2, 3, 4, 5, 6, 7, 8, 9, 10];
    var d1, d2, d3 := data[3..], data[6..], data[9..];
    assert d1 == [4, 5, 6, 7, 8, 9, 10] && d1[3..] == d2;
    assert d2 == [7, 8, 9, 10] && d2[3..] == d3;
    assert d3 == [10];
    assert Encode(d3) == "Cg==";
    assert Encode(d2) == "BwgJ" + "Cg==";
    assert Encode(d1) == "BAUG" + "BwgJCg==";
    assert Encode(data) == "AQID" + "BAUGBwgJCg==";
  }
}
