/** The standard Base64 alphabet with `=` padding (section 4 of RFC 4648), which is what
    Node's `Buffer.prototype.toString("base64")` produces. */
module Base64 {
  import opened Wrappers

  type byte = x: int | 0 <= x < 256

  /** A 6-bit value, the unit one character of the alphabet stands for. */
  type sextet = v: int | 0 <= v < 64

  predicate IsAlphabetChar(c: char)
  {
    'A' <= c <= 'Z' || 'a' <= c <= 'z' || '0' <= c <= '9' || c == '+' || c == '/'
  }

  /** The character of the alphabet that stands for `v`. */
  function CharOf(v: sextet): (c: char)
    ensures IsAlphabetChar(c)
  {
    if v < 26 then ('A' as int + v) as char
    else if v < 52 then ('a' as int + v - 26) as char
    else if v < 62 then ('0' as int + v - 52) as char
    else if v == 62 then '+'
    else '/'
  }

  /** The value a character of the alphabet stands for; `None` off the alphabet. */
  function ValueOf(c: char): (r: Option<sextet>)
    ensures r.Some? <==> IsAlphabetChar(c)
  {
    if 'A' <= c <= 'Z' then Some(c as int - 'A' as int)
    else if 'a' <= c <= 'z' then Some(c as int - 'a' as int + 26)
    else if '0' <= c <= '9' then Some(c as int - '0' as int + 52)
    else if c == '+' then Some(62)
    else if c == '/' then Some(63)
    else None
  }

  /** The alphabet is a bijection between sextets and its 64 characters: `ValueOf`
      inverts `CharOf`, and `CharOf` inverts `ValueOf` on the alphabet. */
  lemma ValueOfCharOf(v: sextet)
    ensures ValueOf(CharOf(v)) == Some(v)
  {
  }

  lemma CharOfValueOf(c: char)
    requires IsAlphabetChar(c)
    ensures CharOf(ValueOf(c).value) == c
  {
  }

  // How three bytes x, y, z spread over four sextets: x / 4, Mid1(x, y), Mid2(y, z), z % 64.
  function Mid1(x: byte, y: byte): sextet { (x % 4) * 16 + y / 16 }
  function Mid2(y: byte, z: byte): sextet { (y % 16) * 4 + z / 64 }

  // And how decoding gathers them back.
  function Join0(v0: sextet, v1: sextet): byte { v0 * 4 + v1 / 16 }
  function Join1(v1: sextet, v2: sextet): byte { (v1 % 16) * 16 + v2 / 4 }
  function Join2(v2: sextet, v3: sextet): byte { (v2 % 4) * 64 + v3 }

  lemma JoinSplit(x: byte, y: byte, z: byte)
    ensures Join0(x / 4, Mid1(x, y)) == x
    ensures Join1(Mid1(x, y), Mid2(y, z)) == y
    ensures Join2(Mid2(y, z), z % 64) == z
  {
  }

  /** Base64 text of `b`: each group of three bytes becomes four characters, and a final
      group of one or two bytes is padded with `=` to four. */
  function Encode(b: seq<byte>): (r: string)
    ensures |r| == 4 * ((|b| + 2) / 3)
    ensures forall i :: 0 <= i < |r| ==> IsAlphabetChar(r[i]) || (r[i] == '=' && i >= |r| - 2)
    decreases |b|
  {
    if |b| == 0 then ""
    else if |b| == 1 then
      [CharOf(b[0] / 4), CharOf(Mid1(b[0], 0)), '=', '=']
    else if |b| == 2 then
      [CharOf(b[0] / 4), CharOf(Mid1(b[0], b[1])), CharOf(Mid2(b[1], 0)), '=']
    else Group(b[0], b[1], b[2]) + Encode(b[3..])
  }

  /** The four characters for three bytes. */
  function Group(x: byte, y: byte, z: byte): (r: string)
    ensures |r| == 4 && forall i :: 0 <= i < 4 ==> IsAlphabetChar(r[i])
  {
    [CharOf(x / 4), CharOf(Mid1(x, y)), CharOf(Mid2(y, z)), CharOf(z % 64)]
  }

  /** Decodes the last group of four characters, which may end in one or two `=`. The
      bits a padded group leaves unused must be zero, as the encoder writes them. */
  function DecodeLast(s: string): Option<seq<byte>>
    requires |s| == 4
  {
    var v0, v1, v2, v3 := ValueOf(s[0]), ValueOf(s[1]), ValueOf(s[2]), ValueOf(s[3]);
    if v0.None? || v1.None? then None
    else if s[2] == '=' && s[3] == '=' then
      if v1.value % 16 != 0 then None else Some([Join0(v0.value, v1.value)])
    else if v2.None? then None
    else if s[3] == '=' then
      if v2.value % 4 != 0 then None
      else Some([Join0(v0.value, v1.value), Join1(v1.value, v2.value)])
    else if v3.None? then None
    else Some([Join0(v0.value, v1.value), Join1(v1.value, v2.value), Join2(v2.value, v3.value)])
  }

  /** Decodes a group of four characters that is not the last: no padding allowed. */
  function DecodeFull(s: string): Option<seq<byte>>
    requires |s| >= 4
  {
    var v0, v1, v2, v3 := ValueOf(s[0]), ValueOf(s[1]), ValueOf(s[2]), ValueOf(s[3]);
    if v0.None? || v1.None? || v2.None? || v3.None? then None
    else Some([Join0(v0.value, v1.value), Join1(v1.value, v2.value), Join2(v2.value, v3.value)])
  }

  /** Decodes Base64 text, rejecting anything that is not a sequence of four-character
      groups over the alphabet with padding only at the very end, and any padded last
      group whose unused bits are not zero. */
  function Decode(s: string): (r: Option<seq<byte>>)
    decreases |s|
  {
    if |s| == 0 then Some([])
    else if |s| < 4 then None
    else if |s| == 4 then DecodeLast(s)
    else
      var group, rest := DecodeFull(s), Decode(s[4..]);
      if group.None? || rest.None? then None else Some(group.value + rest.value)
  }

  /** Decoding undoes encoding, so the Base64 text carries every byte of the buffer. */
  lemma {:induction false} DecodeEncode(b: seq<byte>)
    ensures Decode(Encode(b)) == Some(b)
    decreases |b|
  {
    if |b| == 1 {
      DecodeEncodeOne(b[0]);
      assert b == [b[0]];
    } else if |b| == 2 {
      DecodeEncodeTwo(b[0], b[1]);
      assert b == [b[0], b[1]];
    } else if |b| >= 3 {
      assert b == [b[0], b[1], b[2]] + b[3..];
      DecodeEncode(b[3..]);
      DecodeEncodeGroup(b[0], b[1], b[2], b[3..]);
    }
  }

  lemma DecodeEncodeOne(x: byte)
    ensures Decode(Encode([x])) == Some([x])
  {
  }

  lemma DecodeEncodeTwo(x: byte, y: byte)
    ensures Decode(Encode([x, y])) == Some([x, y])
  {
    var s := Encode([x, y]);
    assert s == [CharOf(x / 4), CharOf(Mid1(x, y)), CharOf(Mid2(y, 0)), '='];
    assert ValueOf(s[0]) == Some(x / 4) by { ValueOfCharOf(x / 4); }
    assert ValueOf(s[1]) == Some(Mid1(x, y)) by { ValueOfCharOf(Mid1(x, y)); }
    assert ValueOf(s[2]) == Some(Mid2(y, 0)) by { ValueOfCharOf(Mid2(y, 0)); }
    assert Join0(x / 4, Mid1(x, y)) == x && Join1(Mid1(x, y), Mid2(y, 0)) == y by {
      JoinSplit(x, y, 0);
    }
    assert s[2] != '=' && s[3] == '=';
    assert DecodeLast(s) == Some([x, y]);
    assert Decode(s) == DecodeLast(s);
  }

  /** A group's four characters decode back to its three bytes, wherever it stands. */
  lemma DecodeGroup(x: byte, y: byte, z: byte, s: string)
    requires |s| >= 4 && s[..4] == Group(x, y, z)
    ensures DecodeFull(s) == Some([x, y, z])
    ensures |s| == 4 ==> DecodeLast(s) == Some([x, y, z])
  {
    assert s[0] == s[..4][0] && s[1] == s[..4][1] && s[2] == s[..4][2] && s[3] == s[..4][3];
    ValueOfCharOf(x / 4);
    ValueOfCharOf(Mid1(x, y));
    ValueOfCharOf(Mid2(y, z));
    ValueOfCharOf(z % 64);
    JoinSplit(x, y, z);
  }

  lemma DecodeEncodeGroup(x: byte, y: byte, z: byte, rest: seq<byte>)
    requires Decode(Encode(rest)) == Some(rest)
    ensures Decode(Encode([x, y, z] + rest)) == Some([x, y, z] + rest)
  {
    var b := [x, y, z] + rest;
    assert b[0] == x && b[1] == y && b[2] == z && b[3..] == rest;
    var s := Encode(b);
    assert s == Group(x, y, z) + Encode(rest);
    assert s[..4] == Group(x, y, z) && s[4..] == Encode(rest);
    DecodeGroup(x, y, z, s);
    if rest == [] {
      assert Decode(s) == DecodeLast(s);
      assert b == [x, y, z];
    } else {
      assert Decode(s) == Some([x, y, z] + rest);
    }
  }

  /** A padded group whose unused bits are not zero is refused: "QR==" is not the
      encoding of any buffer ("QQ==" is the encoding of the byte 65). */
  lemma NonZeroPaddingRejected()
    ensures Decode("QR==") == None
    ensures Encode([65]) == "QQ=="
  {
  }

  /** Base64 text never contains a comma, so it can stand as the data part of a
      `data:` URI. */
  lemma EncodeHasNoComma(b: seq<byte>)
    ensures ',' !in Encode(b)
  {
  }
}
