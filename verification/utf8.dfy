/** UTF-8 as defined in RFC 3629: how `Buffer.from(string)` turns the reply
    text into the octets that are then Base 64 encoded.  A Dafny `char` is a
    Unicode scalar value, so every character has exactly one encoding. */
module Utf8 {
  import opened Wrappers
  import opened Bytes

  predicate IsScalar(v: int) {
    (0 <= v < 0xD800) || (0xE000 <= v < 0x11_0000)
  }

  /** Length of the sequence a lead octet announces (section 4 of RFC 3629),
      0 for an octet that cannot start one. */
  function SequenceLength(lead: Byte): nat {
    if lead < 0x80 then 1
    else if 0xC2 <= lead < 0xE0 then 2
    else if 0xE0 <= lead < 0xF0 then 3
    else if 0xF0 <= lead < 0xF5 then 4
    else 0
  }

  predicate IsContinuation(b: Byte) {
    0x80 <= b < 0xC0
  }

  /** The shortest encoding of one character (section 3 of RFC 3629). */
  function EncodeChar(c: char): (r: seq<Byte>)
    ensures 1 <= |r| <= 4
    ensures SequenceLength(r[0]) == |r|
    ensures DecodeChar(r) == Some(c)
  {
    var v := c as int;
    if v < 0x80 then
      [v]
    else if v < 0x800 then
      TwoOctets(v);
      [0xC0 + v / 64, 0x80 + v % 64]
    else if v < 0x1_0000 then
      ThreeOctets(v);
      [0xE0 + v / 4096, 0x80 + (v / 64) % 64, 0x80 + v % 64]
    else
      FourOctets(v);
      [0xF0 + v / 262144, 0x80 + (v / 4096) % 64, 0x80 + (v / 64) % 64, 0x80 + v % 64]
  }

  lemma TwoOctets(v: int)
    requires 0x80 <= v < 0x800
    ensures var r: seq<Byte> := [0xC0 + v / 64, 0x80 + v % 64];
      SequenceLength(r[0]) == 2 && DecodeChar(r) == Some(v as char)
  {
    var r: seq<Byte> := [0xC0 + v / 64, 0x80 + v % 64];
    assert (v / 64) * 64 + v % 64 == v;
    assert forall i :: 1 <= i < 2 ==> IsContinuation(r[i]);
    assert CodePoint(r) == v;
  }

  lemma ThreeOctets(v: int)
    requires 0x800 <= v < 0x1_0000 && IsScalar(v)
    ensures var r: seq<Byte> := [0xE0 + v / 4096, 0x80 + (v / 64) % 64, 0x80 + v % 64];
      SequenceLength(r[0]) == 3 && DecodeChar(r) == Some(v as char)
  {
    var h := v / 64;
    assert v == h * 64 + v % 64;
    assert h == (h / 64) * 64 + h % 64;
    assert h / 64 == v / 4096;
    var r: seq<Byte> := [0xE0 + v / 4096, 0x80 + (v / 64) % 64, 0x80 + v % 64];
    assert forall i :: 1 <= i < 3 ==> IsContinuation(r[i]);
    assert CodePoint(r) == v;
  }

  lemma FourOctets(v: int)
    requires 0x1_0000 <= v < 0x11_0000
    ensures var r: seq<Byte> := [0xF0 + v / 262144, 0x80 + (v / 4096) % 64, 0x80 + (v / 64) % 64, 0x80 + v % 64];
      SequenceLength(r[0]) == 4 && DecodeChar(r) == Some(v as char)
  {
    var h := v / 64;
    var k := h / 64;
    assert v == h * 64 + v % 64;
    assert h == k * 64 + h % 64;
    assert k == (k / 64) * 64 + k % 64;
    assert k == v / 4096;
    assert k / 64 == v / 262144;
    var r: seq<Byte> := [0xF0 + v / 262144, 0x80 + (v / 4096) % 64, 0x80 + (v / 64) % 64, 0x80 + v % 64];
    assert forall i :: 1 <= i < 4 ==> IsContinuation(r[i]);
    assert CodePoint(r) == v;
  }

  /** Decodes exactly one well-formed sequence: rejects a bad lead octet, a wrong
      length, a bad continuation octet, an overlong form, a surrogate and a value
      above U+10FFFF. */
  function DecodeChar(bs: seq<Byte>): (r: Option<char>)
  {
    if |bs| == 0 || SequenceLength(bs[0]) != |bs| then None
    else if exists i :: 1 <= i < |bs| && !IsContinuation(bs[i]) then None
    else
      var v := CodePoint(bs);
      var minimum: int :=
        if |bs| == 1 then 0 else if |bs| == 2 then 0x80 else if |bs| == 3 then 0x800 else 0x1_0000;
      if minimum <= v && IsScalar(v) then Some(v as char) else None
  }

  /** The value a sequence carries: the lead octet's payload bits followed by six
      bits from each continuation octet. */
  function CodePoint(bs: seq<Byte>): int
    requires 1 <= |bs| <= 4
  {
    var b0: int := bs[0];
    if |bs| == 1 then b0
    else
      var b1: int := bs[1];
      if |bs| == 2 then (b0 - 0xC0) * 64 + (b1 - 0x80)
      else
        var b2: int := bs[2];
        if |bs| == 3 then (b0 - 0xE0) * 4096 + (b1 - 0x80) * 64 + (b2 - 0x80)
        else
          var b3: int := bs[3];
          (b0 - 0xF0) * 262144 + (b1 - 0x80) * 4096 + (b2 - 0x80) * 64 + (b3 - 0x80)
  }

  /** Whatever `DecodeChar` accepts is the one encoding of what it returns. */
  lemma DecodeCharSound(bs: seq<Byte>)
    requires DecodeChar(bs).Some?
    ensures EncodeChar(DecodeChar(bs).value) == bs
  {
    var v := DecodeChar(bs).value as int;
    if |bs| == 2 {
      assert forall i :: 1 <= i < 2 ==> IsContinuation(bs[i]);
      SoundTwo(bs[0], bs[1], v);
    } else if |bs| == 3 {
      assert forall i :: 1 <= i < 3 ==> IsContinuation(bs[i]);
      SoundThree(bs[0], bs[1], bs[2], v);
    } else if |bs| == 4 {
      assert forall i :: 1 <= i < 4 ==> IsContinuation(bs[i]);
      SoundFour(bs[0], bs[1], bs[2], bs[3], v);
    }
  }

  lemma SoundTwo(b0: Byte, b1: Byte, v: int)
    requires 0xC2 <= b0 < 0xE0 && IsContinuation(b1)
    requires v == (b0 - 0xC0) * 64 + (b1 - 0x80)
    ensures 0xC0 + v / 64 == b0 && 0x80 + v % 64 == b1
  {
  }

  lemma SoundThree(b0: Byte, b1: Byte, b2: Byte, v: int)
    requires 0xE0 <= b0 < 0xF0 && IsContinuation(b1) && IsContinuation(b2)
    requires v == (b0 - 0xE0) * 4096 + (b1 - 0x80) * 64 + (b2 - 0x80)
    ensures 0xE0 + v / 4096 == b0 && 0x80 + (v / 64) % 64 == b1 && 0x80 + v % 64 == b2
  {
    var x, y, z: int := b0 - 0xE0, b1 - 0x80, b2 - 0x80;
    assert v / 64 == x * 64 + y;
    assert v / 4096 == x;
  }

  lemma SoundFour(b0: Byte, b1: Byte, b2: Byte, b3: Byte, v: int)
    requires 0xF0 <= b0 < 0xF5 && IsContinuation(b1) && IsContinuation(b2) && IsContinuation(b3)
    requires v == (b0 - 0xF0) * 262144 + (b1 - 0x80) * 4096 + (b2 - 0x80) * 64 + (b3 - 0x80)
    ensures 0xF0 + v / 262144 == b0 && 0x80 + (v / 4096) % 64 == b1
    ensures 0x80 + (v / 64) % 64 == b2 && 0x80 + v % 64 == b3
  {
    var w, x, y, z: int := b0 - 0xF0, b1 - 0x80, b2 - 0x80, b3 - 0x80;
    assert v / 64 == w * 4096 + x * 64 + y;
    assert v / 4096 == w * 64 + x;
    assert v / 262144 == w;
  }

  /** The octets of a whole string: its characters' encodings, in order. */
  function Encode(s: string): (r: seq<Byte>)
    ensures |r| >= |s|
    decreases |s|
  {
    if |s| == 0 then [] else EncodeChar(s[0]) + Encode(s[1..])
  }

  /** Decodes a whole octet sequence, failing on the first ill-formed sequence. */
  function Decode(bs: seq<Byte>): (r: Option<string>)
    ensures r.Some? ==> Encode(r.value) == bs
    decreases |bs|
  {
    if |bs| == 0 then Some([])
    else
      var n := SequenceLength(bs[0]);
      if n == 0 || |bs| < n then None
      else
        match DecodeChar(bs[..n])
        case None => None
        case Some(c) =>
          match Decode(bs[n..])
          case None => None
          case Some(rest) =>
            DecodeStep(bs, n, c, rest);
            Some([c] + rest)
  }

  /** One decoded character in front of the decoded rest re-encodes to the input. */
  lemma DecodeStep(bs: seq<Byte>, n: nat, c: char, rest: string)
    requires 1 <= n <= |bs| && DecodeChar(bs[..n]) == Some(c) && Encode(rest) == bs[n..]
    ensures Encode([c] + rest) == bs
  {
    DecodeCharSound(bs[..n]);
    assert ([c] + rest)[1..] == rest;
    assert bs == bs[..n] + bs[n..];
  }

  lemma {:induction false} DecodeEncode(s: string)
    ensures Decode(Encode(s)) == Some(s)
    decreases |s|
  {
    if |s| > 0 {
      var e := EncodeChar(s[0]);
      var bs := Encode(s);
      DecodeEncode(s[1..]);
      assert bs[..|e|] == e;
      assert bs[|e|..] == Encode(s[1..]);
      assert s == [s[0]] + s[1..];
    }
  }

  /** The decoder accepts exactly the encodings. */
  lemma DecodeIff(bs: seq<Byte>, s: string)
    ensures Decode(bs) == Some(s) <==> bs == Encode(s)
  {
    if bs == Encode(s) {
      DecodeEncode(s);
    }
  }
}
