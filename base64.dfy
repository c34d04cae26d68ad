/** Base 64 encoding of section 4 of RFC 4648: the canonical alphabet, with
    `=` padding. Decoding is strict: the text length is a multiple of four,
    every character belongs to the alphabet, and `=` appears only as the
    padding of the final quantum. Like Python's decoder, it does not insist that
    the unused bits before the padding are zero. */
module Base64 {
  import opened Results

  type Byte = b: int | 0 <= b < 256
  type Sextet = v: int | 0 <= v < 64

  /** `binascii.Error`: the text is not base 64. */
  datatype DecodeError = InvalidBase64

  const PAD: char := '='

  /** The value of a character of the alphabet (table 1 of RFC 4648). */
  function SextetOf(c: char): Option<Sextet> {
    if 'A' <= c <= 'Z' then Some(c as int - 'A' as int)
    else if 'a' <= c <= 'z' then Some(c as int - 'a' as int + 26)
    else if '0' <= c <= '9' then Some(c as int - '0' as int + 52)
    else if c == '+' then Some(62)
    else if c == '/' then Some(63)
    else None
  }

  /** The character that encodes `v`; `SextetOf` reads it back. */
  function AlphabetChar(v: Sextet): (c: char)
    ensures SextetOf(c) == Some(v)
    ensures c != PAD
  {
    if v < 26 then ('A' as int + v) as char
    else if v < 52 then ('a' as int + v - 26) as char
    else if v < 62 then ('0' as int + v - 52) as char
    else if v == 62 then '+'
    else '/'
  }

  /** Every character with a value is the character that encodes that value, so
      the alphabet is a bijection and the pad character has no value. */
  lemma SextetOfInverse(c: char)
    ensures SextetOf(c).Some? ==> AlphabetChar(SextetOf(c).value) == c
    ensures SextetOf(PAD).None?
  {
  }

  /** The three bytes whose 24 bits are the four sextets, most significant first. */
  function Join(a: Sextet, b: Sextet, c: Sextet, d: Sextet): seq<Byte> {
    [a * 4 + b / 16, (b % 16) * 16 + c / 4, (c % 4) * 64 + d]
  }

  /** One quantum of four characters. Only the final quantum may end in
      `x=` (two bytes) or `==` (one byte). */
  function DecodeQuantum(q: string, final: bool): (r: Result<seq<Byte>, DecodeError>)
    requires |q| == 4
    ensures r.Ok? ==> 1 <= |r.value| <= 3 && (|r.value| < 3 ==> final)
  {
    var a, b, c, d := SextetOf(q[0]), SextetOf(q[1]), SextetOf(q[2]), SextetOf(q[3]);
    if a.None? || b.None? then Err(InvalidBase64)
    else if c.Some? && d.Some? then Ok(Join(a.value, b.value, c.value, d.value))
    else if final && c.Some? && q[3] == PAD then Ok(Join(a.value, b.value, c.value, 0)[..2])
    else if final && q[2] == PAD && q[3] == PAD then Ok(Join(a.value, b.value, 0, 0)[..1])
    else Err(InvalidBase64)
  }

  /** Decodes a text quantum by quantum; a leftover shorter than a quantum is
      an error. */
  function DecodeQuanta(s: string): (r: Result<seq<Byte>, DecodeError>)
    ensures r.Ok? ==> 4 * |r.value| <= 3 * |s| <= 4 * |r.value| + 8
    decreases |s|
  {
    if s == [] then Ok([])
    else if |s| < 4 then Err(InvalidBase64)
    else
      match DecodeQuantum(s[..4], |s| == 4)
      case Err(e) => Err(e)
      case Ok(head) =>
        match DecodeQuanta(s[4..])
        case Err(e) => Err(e)
        case Ok(tail) => Ok(head + tail)
  }

  /** `base64.b64decode`, strict. A decoded text of `4k` characters holds
      between `3k - 2` and `3k` bytes. */
  function Decode(s: string): (r: Result<seq<Byte>, DecodeError>)
    ensures r.Ok? ==> |s| % 4 == 0 && 4 * |r.value| <= 3 * |s| <= 4 * |r.value| + 8
  {
    if |s| % 4 != 0 then Err(InvalidBase64) else DecodeQuanta(s)
  }

  /** The four characters for a group of one to three bytes, padded with `=`. */
  function EncodeGroup(g: seq<Byte>): (q: string)
    requires 1 <= |g| <= 3
    ensures |q| == 4
  {
    if |g| == 1 then
      [AlphabetChar(g[0] / 4), AlphabetChar((g[0] % 4) * 16), PAD, PAD]
    else if |g| == 2 then
      [AlphabetChar(g[0] / 4), AlphabetChar((g[0] % 4) * 16 + g[1] / 16), AlphabetChar((g[1] % 16) * 4), PAD]
    else
      [AlphabetChar(g[0] / 4), AlphabetChar((g[0] % 4) * 16 + g[1] / 16),
       AlphabetChar((g[1] % 16) * 4 + g[2] / 64), AlphabetChar(g[2] % 64)]
  }

  /** `base64.b64encode`: every three bytes become four characters, and a
      final group of one or two bytes is padded. */
  function Encode(b: seq<Byte>): (s: string)
    ensures |s| == 4 * ((|b| + 2) / 3)
    decreases |b|
  {
    if |b| == 0 then ""
    else if |b| <= 3 then EncodeGroup(b)
    else
      GroupCount(|b|);
      EncodeGroup(b[..3]) + Encode(b[3..])
  }

  lemma GroupCount(n: nat)
    requires n > 3
    ensures 4 * ((n + 2) / 3) == 4 + 4 * ((n - 3 + 2) / 3)
  {
  }

  /** One byte: `xx==` decodes back to it as the final quantum. */
  lemma OneByteRoundTrip(x: Byte)
    ensures DecodeQuantum(EncodeGroup([x]), true) == Ok([x])
  {
    var q := EncodeGroup([x]);
    var a, b := x / 4, (x % 4) * 16;
    assert SextetOf(q[0]) == Some(a) && SextetOf(q[1]) == Some(b);
    assert q[2] == PAD && q[3] == PAD;
    assert SextetOf(q[2]).None? && SextetOf(q[3]).None?;
    assert Join(a, b, 0, 0)[..1] == [x];
  }

  /** Two bytes: `xxx=` decodes back to them as the final quantum. */
  lemma TwoBytesRoundTrip(x: Byte, y: Byte)
    ensures DecodeQuantum(EncodeGroup([x, y]), true) == Ok([x, y])
  {
    var q := EncodeGroup([x, y]);
    var a, b, c := x / 4, (x % 4) * 16 + y / 16, (y % 16) * 4;
    assert SextetOf(q[0]) == Some(a) && SextetOf(q[1]) == Some(b) && SextetOf(q[2]) == Some(c);
    assert q[3] == PAD && SextetOf(q[3]).None?;
    var j := Join(a, b, c, 0);
    assert j[0] == x && j[1] == y;
    assert j[..2] == [x, y];
  }

  /** Three bytes: four alphabet characters decode back to them, final or not. */
  lemma ThreeBytesRoundTrip(x: Byte, y: Byte, z: Byte, final: bool)
    ensures DecodeQuantum(EncodeGroup([x, y, z]), final) == Ok([x, y, z])
  {
    var q := EncodeGroup([x, y, z]);
    var a, b, c, d := x / 4, (x % 4) * 16 + y / 16, (y % 16) * 4 + z / 64, z % 64;
    assert SextetOf(q[0]) == Some(a) && SextetOf(q[1]) == Some(b);
    assert SextetOf(q[2]) == Some(c) && SextetOf(q[3]) == Some(d);
    var j := Join(a, b, c, d);
    assert j[0] == x && j[1] == y && j[2] == z;
  }

  /** A group decodes back to itself; a short group only as the final quantum. */
  lemma GroupRoundTrip(g: seq<Byte>, final: bool)
    requires 1 <= |g| <= 3
    requires |g| < 3 ==> final
    ensures DecodeQuantum(EncodeGroup(g), final) == Ok(g)
  {
    if |g| == 1 {
      assert g == [g[0]];
      OneByteRoundTrip(g[0]);
    } else if |g| == 2 {
      assert g == [g[0], g[1]];
      TwoBytesRoundTrip(g[0], g[1]);
    } else {
      assert g == [g[0], g[1], g[2]];
      ThreeBytesRoundTrip(g[0], g[1], g[2], final);
    }
  }

  /** Decoding a text quantum by quantum: the first quantum's bytes come first. */
  lemma DecodeQuantaCons(q: string, t: string, head: seq<Byte>, tail: seq<Byte>)
    requires |q| == 4
    requires DecodeQuantum(q, t == []) == Ok(head)
    requires DecodeQuanta(t) == Ok(tail)
    ensures DecodeQuanta(q + t) == Ok(head + tail)
  {
    var s := q + t;
    assert s[..4] == q && s[4..] == t;
    assert (|s| == 4) == (t == []);
  }

  /** The encoding of a non-empty byte string is that of its first group of at
      most three bytes, followed by that of the rest. */
  lemma EncodeSplit(b: seq<Byte>, n: nat)
    requires |b| > 0 && n == (if |b| < 3 then |b| else 3)
    ensures Encode(b) == EncodeGroup(b[..n]) + Encode(b[n..])
  {
    if |b| <= 3 {
      assert b[..n] == b && b[n..] == [];
    }
  }

  /** Decoding quantum by quantum undoes the encoding. */
  lemma {:induction false} DecodeQuantaEncode(b: seq<Byte>)
    ensures DecodeQuanta(Encode(b)) == Ok(b)
    decreases |b|
  {
    if |b| == 0 {
      assert Encode(b) == "";
    } else {
      var n := if |b| < 3 then |b| else 3;
      var group, rest := b[..n], b[n..];
      var q, t := EncodeGroup(group), Encode(rest);
      EncodeSplit(b, n);
      DecodeQuantaEncode(rest);
      if rest == [] {
        assert t == "";
      }
      GroupRoundTrip(group, t == []);
      DecodeQuantaCons(q, t, group, rest);
      assert group + rest == b;
    }
  }

  /** Round trip: decoding the encoding of any byte string gives it back. */
  lemma DecodeEncode(b: seq<Byte>)
    ensures Decode(Encode(b)) == Ok(b)
  {
    DecodeQuantaEncode(b);
    var s := Encode(b);
    QuadrupleIsAligned(|s|, (|b| + 2) / 3);
  }

  lemma QuadrupleIsAligned(n: nat, k: nat)
    requires n == 4 * k
    ensures n % 4 == 0
  {
  }
}
