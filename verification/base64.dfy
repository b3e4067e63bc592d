/** Base 64 as defined in RFC 4648: the standard alphabet of section 4, the
    URL- and filename-safe alphabet of RFC 4648 section 5, the `=` padding of
    RFC 4648 section 4 and its omission, which RFC 4648 section 3.2 permits.
    The decoders here are the reference against which the reply encoder's
    round trip is stated. */
module Base64 {
  import opened Wrappers
  import opened Bytes

  /** A 6-bit group: the index of one character of an alphabet. */
  type Sextet = x: int | 0 <= x < 64

  datatype Alphabet = Standard | UrlSafe

  /** The characters for values 62 and 63, the only ones the alphabets disagree on. */
  function Char62(a: Alphabet): char {
    if a == Standard then '+' else '-'
  }

  function Char63(a: Alphabet): char {
    if a == Standard then '/' else '_'
  }

  predicate InAlphabet(a: Alphabet, c: char) {
    ('A' <= c <= 'Z') || ('a' <= c <= 'z') || ('0' <= c <= '9') || c == Char62(a) || c == Char63(a)
  }

  /** The value a character stands for, when it belongs to the alphabet. */
  function Index(a: Alphabet, c: char): (r: Option<Sextet>)
    ensures r.Some? <==> InAlphabet(a, c)
  {
    if 'A' <= c <= 'Z' then Some(c as int - 'A' as int)
    else if 'a' <= c <= 'z' then Some(c as int - 'a' as int + 26)
    else if '0' <= c <= '9' then Some(c as int - '0' as int + 52)
    else if c == Char62(a) then Some(62)
    else if c == Char63(a) then Some(63)
    else None
  }

  /** The character standing for value `v` (the tables of RFC 4648 sections 4 and 5). */
  function Char(a: Alphabet, v: Sextet): (c: char)
    ensures InAlphabet(a, c) && c != '='
    ensures Index(a, c) == Some(v)
  {
    if v < 26 then ('A' as int + v) as char
    else if v < 52 then ('a' as int + (v - 26)) as char
    else if v < 62 then ('0' as int + (v - 52)) as char
    else if v == 62 then Char62(a)
    else Char63(a)
  }

  /** The other half of the alphabet bijection. */
  lemma CharOfIndex(a: Alphabet, c: char)
    requires InAlphabet(a, c)
    ensures Char(a, Index(a, c).value) == c
  {
  }

  /** Three octets as four sextets, most significant bits first. */
  function Group(x: Byte, y: Byte, z: Byte): seq<Sextet> {
    var a: int, b: int, c: int := x, y, z;
    [a / 4, (a % 4) * 16 + b / 16, (b % 16) * 4 + c / 64, c % 64]
  }

  /** Four sextets as the three octets they concatenate to. */
  function Ungroup(q: seq<Sextet>): seq<Byte>
    requires |q| == 4
  {
    var a: int, b: int, c: int, d: int := q[0], q[1], q[2], q[3];
    [a * 4 + b / 16, (b % 16) * 16 + c / 4, (c % 4) * 64 + d]
  }

  lemma UngroupGroup(x: Byte, y: Byte, z: Byte)
    ensures Ungroup(Group(x, y, z)) == [x, y, z]
  {
  }

  lemma GroupUngroup(q: seq<Sextet>)
    requires |q| == 4
    ensures var u := Ungroup(q); Group(u[0], u[1], u[2]) == q
  {
    var a: int, b: int, c: int, d: int := q[0], q[1], q[2], q[3];
    var b1, b2, c1, c2 := b / 16, b % 16, c / 4, c % 4;
    assert b == 16 * b1 + b2 && 0 <= b1 < 4;
    assert c == 4 * c1 + c2 && 0 <= c1 < 16;
    var u := Ungroup(q);
    assert u[0] == 4 * a + b1 && u[1] == 16 * b2 + c1 && u[2] == 64 * c2 + d;
  }

  /** Sextets a final quantum of 0, 1 or 2 octets contributes (RFC 4648 section 4). */
  function TailSextets(rem: nat): nat {
    if rem == 0 then 0 else rem + 1
  }

  /** The 6-bit groups of `b`: whole 24-bit quanta, then a final quantum of one or
      two octets completed with zero bits, as RFC 4648 section 4 prescribes. */
  function ToSextets(b: seq<Byte>): (xs: seq<Sextet>)
    ensures |xs| == 4 * (|b| / 3) + TailSextets(|b| % 3)
    decreases |b|
  {
    if |b| == 0 then []
    else if |b| == 1 then Group(b[0], 0, 0)[..2]
    else if |b| == 2 then Group(b[0], b[1], 0)[..3]
    else Group(b[0], b[1], b[2]) + ToSextets(b[3..])
  }

  /** Reassembles octets from sextets.  Rejects a length no encoding has and a
      final quantum whose filler bits are not zero, so whatever it accepts is
      the encoding of what it returns. */
  function FromSextets(xs: seq<Sextet>): (r: Option<seq<Byte>>)
    ensures r.Some? ==> ToSextets(r.value) == xs
    decreases |xs|
  {
    if |xs| == 0 then Some([])
    else if |xs| == 1 then None
    else if |xs| == 2 then
      if xs[1] % 16 == 0 then TailOne(xs); Some(Ungroup(xs + [0, 0])[..1]) else None
    else if |xs| == 3 then
      if xs[2] % 4 == 0 then TailTwo(xs); Some(Ungroup(xs + [0])[..2]) else None
    else
      match FromSextets(xs[4..])
      case None => None
      case Some(rest) =>
        QuantumCons(xs, rest);
        Some(Ungroup(xs[..4]) + rest)
  }

  /** Two characters with zero filler bits encode one octet. */
  lemma TailOne(xs: seq<Sextet>)
    requires |xs| == 2 && xs[1] % 16 == 0
    ensures ToSextets(Ungroup(xs + [0, 0])[..1]) == xs
  {
    var q := xs + [0, 0];
    var u := Ungroup(q);
    GroupUngroup(q);
    assert u[1] == 0;
    assert Group(u[0], 0, 0)[..2] == Group(u[0], u[1], u[2])[..2];
    assert [u[0]][0] == u[0];
  }

  /** Three characters with zero filler bits encode two octets. */
  lemma TailTwo(xs: seq<Sextet>)
    requires |xs| == 3 && xs[2] % 4 == 0
    ensures ToSextets(Ungroup(xs + [0])[..2]) == xs
  {
    var q := xs + [0];
    var u := Ungroup(q);
    GroupUngroup(q);
    assert u[2] == 0;
    assert Group(u[0], u[1], 0)[..3] == Group(u[0], u[1], u[2])[..3];
    assert u[..2][0] == u[0] && u[..2][1] == u[1];
  }

  /** A whole quantum in front of the encoding of `rest`. */
  lemma QuantumCons(xs: seq<Sextet>, rest: seq<Byte>)
    requires |xs| >= 4 && ToSextets(rest) == xs[4..]
    ensures ToSextets(Ungroup(xs[..4]) + rest) == xs
  {
    var u := Ungroup(xs[..4]);
    GroupUngroup(xs[..4]);
    assert (u + rest)[3..] == rest;
    assert (u + rest)[0] == u[0] && (u + rest)[1] == u[1] && (u + rest)[2] == u[2];
    assert xs == xs[..4] + xs[4..];
  }

  lemma {:induction false} FromToSextets(b: seq<Byte>)
    ensures FromSextets(ToSextets(b)) == Some(b)
    decreases |b|
  {
    if |b| == 1 {
      FromToOne(b[0]);
      assert b == [b[0]];
    } else if |b| == 2 {
      FromToTwo(b[0], b[1]);
      assert b == [b[0], b[1]];
    } else if |b| >= 3 {
      var xs := ToSextets(b);
      FromToSextets(b[3..]);
      assert xs[..4] == Group(b[0], b[1], b[2]);
      assert xs[4..] == ToSextets(b[3..]);
      UngroupGroup(b[0], b[1], b[2]);
      assert b == [b[0], b[1], b[2]] + b[3..];
    }
  }

  /** A final quantum of one octet: two characters whose filler bits are zero. */
  lemma FromToOne(x: Byte)
    ensures FromSextets(ToSextets([x])) == Some([x])
  {
    var xs := ToSextets([x]);
    var v: int := x;
    assert ((v % 4) * 16) % 16 == 0;
    assert xs == [x / 4, (v % 4) * 16];
    assert xs[1] % 16 == 0;
    assert xs + [0, 0] == Group(x, 0, 0);
    UngroupGroup(x, 0, 0);
    assert Ungroup(xs + [0, 0])[..1] == [x];
  }

  /** A final quantum of two octets: three characters whose filler bits are zero. */
  lemma FromToTwo(x: Byte, y: Byte)
    ensures FromSextets(ToSextets([x, y])) == Some([x, y])
  {
    var xs := ToSextets([x, y]);
    var v: int := y;
    assert ((v % 16) * 4) % 4 == 0;
    assert xs == Group(x, y, 0)[..3];
    assert xs[2] == (v % 16) * 4;
    assert xs[2] % 4 == 0;
    assert xs + [0] == Group(x, y, 0);
    UngroupGroup(x, y, 0);
    assert Ungroup(xs + [0])[..2] == [x, y];
  }

  /** Each sextet written as its character. */
  function Render(a: Alphabet, xs: seq<Sextet>): string {
    seq(|xs|, i requires 0 <= i < |xs| => Char(a, xs[i]))
  }

  /** Reads characters back as sextets; fails on any character outside the alphabet. */
  function Unrender(a: Alphabet, s: string): (r: Option<seq<Sextet>>)
    ensures r.Some? <==> forall i :: 0 <= i < |s| ==> InAlphabet(a, s[i])
    ensures r.Some? ==> Render(a, r.value) == s
    decreases |s|
  {
    if |s| == 0 then Some([])
    else
      match Index(a, s[0])
      case None => None
      case Some(v) =>
        match Unrender(a, s[1..])
        case None =>
          assert !InAlphabet(a, s[1..][0]) || exists i :: 0 <= i < |s[1..]| && !InAlphabet(a, s[1..][i]);
          None
        case Some(rest) =>
          CharOfIndex(a, s[0]);
          assert Render(a, [v] + rest) == [s[0]] + s[1..];
          Some([v] + rest)
  }

  lemma {:induction false} UnrenderRender(a: Alphabet, xs: seq<Sextet>)
    ensures Unrender(a, Render(a, xs)) == Some(xs)
    decreases |xs|
  {
    if |xs| > 0 {
      var s := Render(a, xs);
      assert s[1..] == Render(a, xs[1..]);
      UnrenderRender(a, xs[1..]);
      assert xs == [xs[0]] + xs[1..];
    }
  }

  /** How many `=` complete the final quantum of an `n`-octet input. */
  function PadLength(n: nat): nat {
    if n % 3 == 0 then 0 else 3 - n % 3
  }

  function Pad(k: nat): string {
    seq(k, _ => '=')
  }

  /** The padded encoding: the alphabet of RFC 4648 section 4 (`Standard`) or section 5
      (`UrlSafe`), with `=` completing the last quantum. */
  function Encode(a: Alphabet, b: seq<Byte>): (s: string)
    ensures |s| % 4 == 0
    ensures |s| == 4 * ((|b| + 2) / 3)
  {
    var body := Render(a, ToSextets(b));
    var pad := Pad(PadLength(|b|));
    PaddedLength(|b|);
    assert |body + pad| == 4 * (|b| / 3) + TailSextets(|b| % 3) + PadLength(|b|);
    body + pad
  }

  lemma PaddedLength(n: nat)
    ensures 4 * (n / 3) + TailSextets(n % 3) + PadLength(n) == 4 * ((n + 2) / 3)
    ensures (4 * ((n + 2) / 3)) % 4 == 0
  {
    var q, r := n / 3, n % 3;
    assert n == 3 * q + r;
    if r == 0 {
      assert n + 2 == 3 * q + 2;
    } else if r == 1 {
      assert n + 2 == 3 * (q + 1);
    } else {
      assert n + 2 == 3 * (q + 1) + 1;
    }
  }

  /** The encoding with its padding omitted (RFC 4648 section 3.2). */
  function EncodeUnpadded(a: Alphabet, b: seq<Byte>): (s: string)
    ensures |s| == 4 * (|b| / 3) + TailSextets(|b| % 3)
    ensures forall i :: 0 <= i < |s| ==> InAlphabet(a, s[i]) && s[i] != '='
  {
    Render(a, ToSextets(b))
  }

  /** Number of `=` that close a padded encoding: at most two. */
  function TrailingPad(p: string): (k: nat)
    ensures k <= 2 && k <= |p|
    ensures forall i :: |p| - k <= i < |p| ==> p[i] == '='
  {
    if |p| >= 2 && p[|p| - 1] == '=' && p[|p| - 2] == '=' then 2
    else if |p| >= 1 && p[|p| - 1] == '=' then 1
    else 0
  }

  /** Decodes a padded encoding.  Accepts exactly the strings `Encode` produces
      (see `DecodeIff`). */
  function Decode(a: Alphabet, p: string): (r: Option<seq<Byte>>)
    ensures r.Some? ==> p == Encode(a, r.value)
  {
    if |p| % 4 != 0 then None
    else
      var k := TrailingPad(p);
      match Unrender(a, p[..|p| - k])
      case None => None
      case Some(xs) =>
        DecodeSound(a, p, k, xs);
        FromSextets(xs)
  }

  lemma DecodeSound(a: Alphabet, p: string, k: nat, xs: seq<Sextet>)
    requires |p| % 4 == 0 && k == TrailingPad(p)
    requires Render(a, xs) == p[..|p| - k]
    ensures FromSextets(xs).Some? ==> p == Encode(a, FromSextets(xs).value)
  {
    if FromSextets(xs).Some? {
      var b := FromSextets(xs).value;
      assert |xs| == |p| - k;
      PadLengthOf(|b|, |p|, k);
      assert p == p[..|p| - k] + Pad(k);
    }
  }

  /** An encoding body of `m - k` characters, with `m` a multiple of four and
      `k` at most two, is completed by exactly `k` padding characters. */
  lemma PadLengthOf(n: nat, m: nat, k: nat)
    requires m % 4 == 0 && k <= 2 && k <= m
    requires 4 * (n / 3) + TailSextets(n % 3) == m - k
    ensures PadLength(n) == k
  {
    var q, r, t := n / 3, n % 3, m / 4;
    assert m == 4 * t;
    assert 4 * (t - q) == TailSextets(r) + k;
  }

  /** Appends the `=` a padding-free encoding left out (RFC 4648 section 3.2). */
  function RestorePadding(s: string): (p: string)
    ensures |p| % 4 == 0
    ensures s <= p
  {
    s + Pad((4 - |s| % 4) % 4)
  }

  /** Decodes the padding-free form: any `=` is rejected, then the padding is
      restored and the padded form decoded. */
  function DecodeUnpadded(a: Alphabet, s: string): (r: Option<seq<Byte>>)
    ensures r.Some? ==> s == EncodeUnpadded(a, r.value)
  {
    if '=' in s then None
    else
      var r := Decode(a, RestorePadding(s));
      if r.Some? then
        PadSplit(s, Pad((4 - |s| % 4) % 4), EncodeUnpadded(a, r.value), Pad(PadLength(|r.value|)));
        r
      else r
  }

  /** Length of the longest `=`-free prefix. */
  function UnpaddedLength(w: string): nat
    decreases |w|
  {
    if |w| == 0 || w[0] == '=' then 0 else 1 + UnpaddedLength(w[1..])
  }

  lemma {:induction false} UnpaddedLengthOf(s: string, ps: string)
    requires '=' !in s
    requires |ps| == 0 || ps[0] == '='
    ensures UnpaddedLength(s + ps) == |s|
    decreases |s|
  {
    if |s| > 0 {
      assert (s + ps)[1..] == s[1..] + ps;
      UnpaddedLengthOf(s[1..], ps);
    }
  }

  /** Two `=`-free strings followed by runs of `=` are equal if the whole are. */
  lemma PadSplit(s: string, ps: string, t: string, pt: string)
    requires '=' !in s && '=' !in t
    requires |ps| == 0 || ps[0] == '='
    requires |pt| == 0 || pt[0] == '='
    requires s + ps == t + pt
    ensures s == t
  {
    UnpaddedLengthOf(s, ps);
    UnpaddedLengthOf(t, pt);
    assert s == (s + ps)[..|s|];
    assert t == (t + pt)[..|t|];
  }

  lemma DecodeEncode(a: Alphabet, b: seq<Byte>)
    ensures Decode(a, Encode(a, b)) == Some(b)
  {
    var xs := ToSextets(b);
    var p := Encode(a, b);
    var k := PadLength(|b|);
    TrailingPadOfEncode(a, b);
    assert p[..|p| - k] == Render(a, xs);
    UnrenderRender(a, xs);
    FromToSextets(b);
  }

  /** The `=` the decoder strips from an encoding are exactly the padding. */
  lemma TrailingPadOfEncode(a: Alphabet, b: seq<Byte>)
    ensures TrailingPad(Encode(a, b)) == PadLength(|b|)
  {
    var xs := ToSextets(b);
    var body := Render(a, xs);
    var p := Encode(a, b);
    var k := PadLength(|b|);
    assert p == body + Pad(k);
    if k == 0 {
      if |p| > 0 {
        assert p[|p| - 1] == body[|body| - 1] == Char(a, xs[|xs| - 1]);
      }
    } else if k == 1 {
      assert p[|p| - 1] == '=';
      assert p[|p| - 2] == body[|body| - 1] == Char(a, xs[|xs| - 1]);
    } else {
      assert p[|p| - 1] == '=' && p[|p| - 2] == '=';
    }
  }

  /** Restoring the padding of the padding-free form gives the padded form. */
  lemma RestorePaddingOfUnpadded(a: Alphabet, b: seq<Byte>)
    ensures RestorePadding(EncodeUnpadded(a, b)) == Encode(a, b)
  {
    var s := EncodeUnpadded(a, b);
    assert (4 - |s| % 4) % 4 == PadLength(|b|);
  }

  lemma DecodeUnpaddedEncode(a: Alphabet, b: seq<Byte>)
    ensures DecodeUnpadded(a, EncodeUnpadded(a, b)) == Some(b)
  {
    var s := EncodeUnpadded(a, b);
    RestorePaddingOfUnpadded(a, b);
    DecodeEncode(a, b);
  }

  /** The padded decoder accepts exactly the padded encodings. */
  lemma DecodeIff(a: Alphabet, p: string, b: seq<Byte>)
    ensures Decode(a, p) == Some(b) <==> p == Encode(a, b)
  {
    if p == Encode(a, b) {
      DecodeEncode(a, b);
    }
  }

  /** The padding-free decoder accepts exactly the padding-free encodings. */
  lemma DecodeUnpaddedIff(a: Alphabet, s: string, b: seq<Byte>)
    ensures DecodeUnpadded(a, s) == Some(b) <==> s == EncodeUnpadded(a, b)
  {
    if s == EncodeUnpadded(a, b) {
      DecodeUnpaddedEncode(a, b);
    }
  }

  /** The encoding of `b` when its sextets and their characters are known:
      the step each test vector below takes. */
  lemma EncodeOfSextets(a: Alphabet, b: seq<Byte>, xs: seq<Sextet>, body: string, pad: string)
    requires ToSextets(b) == xs
    requires |body| == |xs| && forall i :: 0 <= i < |xs| ==> Char(a, xs[i]) == body[i]
    requires pad == Pad(PadLength(|b|))
    ensures Encode(a, b) == body + pad
  {
    assert Render(a, xs) == body;
  }

  /** The test vectors of RFC 4648 section 10, which fix the bit order of `Group`. */
  lemma Rfc4648Vectors()
    ensures Encode(Standard, [102]) == "Zg=="
    ensures Encode(Standard, [102, 111]) == "Zm8="
    ensures Encode(Standard, [102, 111, 111, 98, 97, 114]) == "Zm9vYmFy"
  {
    EncodeOfSextets(Standard, [102], [25, 32], "Zg", "==");
    EncodeOfSextets(Standard, [102, 111], [25, 38, 60], "Zm8", "=");
    FoobarSextets();
    EncodeOfSextets(Standard, [102, 111, 111, 98, 97, 114], [25, 38, 61, 47, 24, 38, 5, 50], "Zm9vYmFy", "");
  }

  /** The sextets of `foobar`: two whole quanta. */
  lemma FoobarSextets()
    ensures ToSextets([102, 111, 111, 98, 97, 114]) == [25, 38, 61, 47, 24, 38, 5, 50]
  {
    var foobar: seq<Byte> := [102, 111, 111, 98, 97, 114];
    assert foobar[3..] == [98, 97, 114];
    assert ToSextets([98, 97, 114]) == [24, 38, 5, 50];
  }

  /** The octets FB FF use the two characters in which the alphabets differ. */
  lemma AlphabetVectors()
    ensures Encode(Standard, [0xFB, 0xFF]) == "+/8="
    ensures Encode(UrlSafe, [0xFB, 0xFF]) == "-_8="
  {
    EncodeOfSextets(Standard, [0xFB, 0xFF], [62, 63, 60], "+/8", "=");
    EncodeOfSextets(UrlSafe, [0xFB, 0xFF], [62, 63, 60], "-_8", "=");
  }
}
