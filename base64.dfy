/** The Base64 encoding of section 4 of RFC 4648 (standard alphabet, `=` padding), as the
    browser's `btoa` produces it, together with a decoder for it. */
module Base64 {
  import opened Wrappers

  /** An octet, as held by a `Uint8Array`. */
  type Byte = b: int | 0 <= b < 256

  /** The character of the Base64 alphabet (Table 1 of RFC 4648) for a 6-bit value. */
  function Char(v: int): (c: char)
    requires 0 <= v < 64
    ensures c != '='
  {
    if v < 26 then ('A' as int + v) as char
    else if v < 52 then ('a' as int + (v - 26)) as char
    else if v < 62 then ('0' as int + (v - 52)) as char
    else if v == 62 then '+'
    else '/'
  }

  /** The 6-bit value of an alphabet character; `None` for any other character. */
  function Value(c: char): (r: Option<int>)
    ensures r.Some? ==> 0 <= r.value < 64
  {
    if 'A' <= c <= 'Z' then Some(c as int - 'A' as int)
    else if 'a' <= c <= 'z' then Some(c as int - 'a' as int + 26)
    else if '0' <= c <= '9' then Some(c as int - '0' as int + 52)
    else if c == '+' then Some(62)
    else if c == '/' then Some(63)
    else None
  }

  /** `Value` undoes `Char`: the 64 characters of the alphabet are distinct. */
  lemma ValueOfChar(v: int)
    requires 0 <= v < 64
    ensures Value(Char(v)) == Some(v)
  {
  }

  /** A character that may occur in an encoding: the alphabet or the pad character. */
  predicate IsEncodingChar(c: char) {
    Value(c).Some? || c == '='
  }

  /** Three octets as four characters (section 4 of RFC 4648). */
  function EncodeBlock(a: Byte, b: Byte, c: Byte): string {
    [Char(a / 4), Char((a % 4) * 16 + b / 16), Char((b % 16) * 4 + c / 64), Char(c % 64)]
  }

  /** Encodes an octet sequence: full 24-bit groups, then a final group of one or two octets
      padded with `==` or `=`. */
  function Encode(bytes: seq<Byte>): string
    decreases |bytes|, 1
  {
    if |bytes| == 0 then "" else EncodeGroups(bytes)
  }

  /** Encodes a non-empty octet sequence: its first group, then the rest. */
  function EncodeGroups(bytes: seq<Byte>): string
    requires |bytes| > 0
    decreases |bytes|, 0
  {
    if |bytes| == 1 then
      [Char(bytes[0] / 4), Char((bytes[0] % 4) * 16), '=', '=']
    else if |bytes| == 2 then
      [Char(bytes[0] / 4), Char((bytes[0] % 4) * 16 + bytes[1] / 16), Char((bytes[1] % 16) * 4), '=']
    else
      EncodeBlock(bytes[0], bytes[1], bytes[2]) + Encode(bytes[3..])
  }

  /** The output has 4 characters per started group of 3 octets. */
  lemma {:induction false} EncodeLength(bytes: seq<Byte>)
    ensures |Encode(bytes)| == 4 * ((|bytes| + 2) / 3)
    decreases |bytes|
  {
    if |bytes| > 0 {
      assert Encode(bytes) == EncodeGroups(bytes);
    }
    if |bytes| > 3 {
      var n := |bytes| - 3;
      EncodeLength(bytes[3..]);
      assert (n + 3 + 2) / 3 == (n + 2) / 3 + 1;
    }
  }

  /** Every character of an encoding is taken from the alphabet or is the pad character. */
  lemma {:induction false} EncodeAlphabet(bytes: seq<Byte>)
    ensures forall i :: 0 <= i < |Encode(bytes)| ==> IsEncodingChar(Encode(bytes)[i])
    decreases |bytes|
  {
    var s := Encode(bytes);
    if |bytes| == 1 {
      ValueOfChar(bytes[0] / 4); ValueOfChar((bytes[0] % 4) * 16);
    } else if |bytes| == 2 {
      ValueOfChar(bytes[0] / 4); ValueOfChar((bytes[0] % 4) * 16 + bytes[1] / 16); ValueOfChar((bytes[1] % 16) * 4);
    } else if |bytes| > 2 {
      var a, b, c := bytes[0], bytes[1], bytes[2];
      ValueOfChar(a / 4); ValueOfChar((a % 4) * 16 + b / 16); ValueOfChar((b % 16) * 4 + c / 64); ValueOfChar(c % 64);
      var rest := Encode(bytes[3..]);
      EncodeAlphabet(bytes[3..]);
      assert s == EncodeBlock(a, b, c) + rest;
      forall i | 0 <= i < |s| ensures IsEncodingChar(s[i]) {
        if i >= 4 {
          assert s[i] == rest[i - 4];
        }
      }
    }
  }


  /** Decodes one quadruple; padding is accepted only in the last one. */
  function DecodeQuad(q: string, last: bool): Option<seq<Byte>>
    requires |q| == 4
  {
    var a, b := Value(q[0]), Value(q[1]);
    if a.None? || b.None? then None
    else if last && q[2] == '=' && q[3] == '=' then
      Some([a.value * 4 + b.value / 16])
    else
      var c := Value(q[2]);
      if c.None? then None
      else if last && q[3] == '=' then
        Some([a.value * 4 + b.value / 16, (b.value % 16) * 16 + c.value / 4])
      else
        var d := Value(q[3]);
        if d.None? then None
        else Some([a.value * 4 + b.value / 16, (b.value % 16) * 16 + c.value / 4, (c.value % 4) * 64 + d.value])
  }

  /** Decodes a padded Base64 text (the inverse `atob` applies to `btoa`'s output);
      `None` when the text is not a sequence of well-formed quadruples. */
  function Decode(s: string): Option<seq<Byte>>
    decreases |s|, 1
  {
    if |s| == 0 then Some([])
    else if |s| < 4 then None
    else DecodeGroups(s)
  }

  /** Decodes a text of at least one quadruple: the first one, then the rest; only the
      last quadruple may carry padding. */
  function DecodeGroups(s: string): Option<seq<Byte>>
    requires |s| >= 4
    decreases |s|, 0
  {
    if |s| == 4 then DecodeQuad(s, true)
    else
      match DecodeQuad(s[..4], false)
      case None => None
      case Some(head) =>
        match Decode(s[4..])
        case None => None
        case Some(tail) => Some(head + tail)
  }

  /** A block of four alphabet characters decodes to the three octets it encodes. */
  lemma DecodeEncodeBlock(a: Byte, b: Byte, c: Byte, last: bool)
    ensures DecodeQuad(EncodeBlock(a, b, c), last) == Some([a, b, c])
  {
    var v0, v1, v2, v3 := a / 4, (a % 4) * 16 + b / 16, (b % 16) * 4 + c / 64, c % 64;
    ValueOfChar(v0); ValueOfChar(v1); ValueOfChar(v2); ValueOfChar(v3);
    assert v1 / 16 == a % 4 && v1 % 16 == b / 16;
    assert v2 / 4 == b % 16 && v2 % 4 == c / 64;
  }

  /** Round trip: decoding an encoding gives back exactly the encoded octets. */
  lemma {:induction false} DecodeEncode(bytes: seq<Byte>)
    ensures Decode(Encode(bytes)) == Some(bytes)
    decreases |bytes|
  {
    if |bytes| == 1 {
      assert bytes == [bytes[0]];
      DecodeEncodeOne(bytes[0]);
    } else if |bytes| == 2 {
      assert bytes == [bytes[0], bytes[1]];
      DecodeEncodeTwo(bytes[0], bytes[1]);
    } else if |bytes| == 3 {
      assert bytes == [bytes[0], bytes[1], bytes[2]];
      DecodeEncodeThree(bytes[0], bytes[1], bytes[2]);
    } else if |bytes| > 3 {
      var a, b, c, rest := bytes[0], bytes[1], bytes[2], bytes[3..];
      assert bytes == [a, b, c] + rest;
      DecodeEncode(rest);
      DecodeEncodeFirstBlock(a, b, c, rest);
    }
  }

  /** A single full group decodes as itself. */
  lemma DecodeEncodeThree(a: Byte, b: Byte, c: Byte)
    ensures Decode(Encode([a, b, c])) == Some([a, b, c])
  {
    EncodeThree(a, b, c);
    DecodeEncodeLastBlock(a, b, c);
  }

  /** Three octets encode as one block with nothing after it. */
  lemma EncodeThree(a: Byte, b: Byte, c: Byte)
    ensures Encode([a, b, c]) == EncodeBlock(a, b, c)
  {
    var bytes := [a, b, c];
    assert bytes[3..] == [];
    assert Encode(bytes[3..]) == "";
  }

  /** An encoding of more than three octets decodes as its first block followed by the
      decoding of the encoding of the rest. */
  lemma DecodeEncodeFirstBlock(a: Byte, b: Byte, c: Byte, rest: seq<Byte>)
    requires |rest| > 0
    requires Decode(Encode(rest)) == Some(rest)
    ensures Decode(Encode([a, b, c] + rest)) == Some([a, b, c] + rest)
  {
    EncodeCons(a, b, c, rest);
    DecodeEncodeBlock(a, b, c, false);
    DecodeBlockThenRest(EncodeBlock(a, b, c), Encode(rest), [a, b, c], rest);
  }

  /** The encoding of more than three octets is the block of the first three, then the
      encoding of the rest, which is not empty. */
  lemma EncodeCons(a: Byte, b: Byte, c: Byte, rest: seq<Byte>)
    requires |rest| > 0
    ensures Encode([a, b, c] + rest) == EncodeBlock(a, b, c) + Encode(rest)
    ensures |Encode(rest)| > 0
  {
    var bytes := [a, b, c] + rest;
    assert bytes[0] == a && bytes[1] == b && bytes[2] == c && bytes[3..] == rest;
  }

  /** A block decodes to its octets when it is the last one. */
  lemma DecodeEncodeLastBlock(a: Byte, b: Byte, c: Byte)
    ensures Decode(EncodeBlock(a, b, c)) == Some([a, b, c])
  {
    DecodeEncodeBlock(a, b, c, true);
    assert Decode(EncodeBlock(a, b, c)) == DecodeGroups(EncodeBlock(a, b, c));
  }

  /** A quadruple followed by a decodable text decodes to the two decodings, joined. */
  lemma DecodeBlockThenRest(block: string, tail: string, head: seq<Byte>, rest: seq<Byte>)
    requires |block| == 4 && |tail| > 0
    requires DecodeQuad(block, false) == Some(head) && Decode(tail) == Some(rest)
    ensures Decode(block + tail) == Some(head + rest)
  {
    var s := block + tail;
    assert s[..4] == block && s[4..] == tail;
    assert Decode(s) == DecodeGroups(s);
  }

  /** A final group of one octet, padded with `==`. */
  lemma DecodeEncodeOne(a: Byte)
    ensures Decode(Encode([a])) == Some([a])
  {
    assert Decode(Encode([a])) == DecodeGroups(Encode([a]));
    ValueOfChar(a / 4); ValueOfChar((a % 4) * 16);
    assert ((a % 4) * 16) / 16 == a % 4;
  }

  /** A final group of two octets, padded with `=`. */
  lemma DecodeEncodeTwo(a: Byte, b: Byte)
    ensures Decode(Encode([a, b])) == Some([a, b])
  {
    assert Decode(Encode([a, b])) == DecodeGroups(Encode([a, b]));
    var v1 := (a % 4) * 16 + b / 16;
    ValueOfChar(a / 4); ValueOfChar(v1); ValueOfChar((b % 16) * 4);
    assert v1 / 16 == a % 4 && v1 % 16 == b / 16;
    assert ((b % 16) * 4) / 4 == b % 16;
  }

  /** Encoding is injective: different octet sequences never share an encoding. */
  lemma EncodeInjective(b1: seq<Byte>, b2: seq<Byte>)
    requires Encode(b1) == Encode(b2)
    ensures b1 == b2
  {
    DecodeEncode(b1);
    DecodeEncode(b2);
  }

  /** Every character of the string is a Latin-1 code unit (below 256). */
  predicate IsBinaryString(s: string) {
    forall i :: 0 <= i < |s| ==> s[i] as int < 256
  }

  /** The octets a binary string stands for, one per character. */
  function Octets(s: string): (bytes: seq<Byte>)
    requires IsBinaryString(s)
    ensures |bytes| == |s|
    ensures forall i :: 0 <= i < |s| ==> bytes[i] == s[i] as int
  {
    seq(|s|, i requires 0 <= i < |s| => s[i] as int)
  }

  /** `window.btoa`: a string with a character above U+00FF raises (`None`); any other
      string is encoded as the octets its characters stand for. */
  function Btoa(s: string): (r: Option<string>)
    ensures r.Some? <==> IsBinaryString(s)
    ensures r.Some? ==> Decode(r.value) == Some(Octets(s))
  {
    if IsBinaryString(s) then
      DecodeEncode(Octets(s));
      Some(Encode(Octets(s)))
    else None
  }
}
