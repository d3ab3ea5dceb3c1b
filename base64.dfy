/** Base64 as in section 4 of RFC 4648: the standard alphabet of 64
    characters, each encoding 6 bits, with `=` padding so that every encoded
    text is a whole number of 4-character quanta. The encoder is what the
    GitHub helper applies to the file content; the strict decoder is the
    reference it is proved against. */
module Base64 {
  import opened Wrappers

  type Byte = b: int | 0 <= b < 256

  /** The value of one Base64 character. */
  type Sextet = x: int | 0 <= x < 64

  const Pad: char := '='

  /** Membership in the alphabet of Table 1 of RFC 4648. */
  predicate IsAlphabetChar(c: char) {
    ('A' <= c <= 'Z') || ('a' <= c <= 'z') || ('0' <= c <= '9') || c == '+' || c == '/'
  }

  /** Table 1 of RFC 4648: 0..25 are `A`..`Z`, 26..51 are `a`..`z`,
      52..61 are `0`..`9`, 62 is `+` and 63 is `/`. */
  function CharOf(x: Sextet): (c: char)
    ensures IsAlphabetChar(c)
  {
    if x < 26 then ('A' as int + x) as char
    else if x < 52 then ('a' as int + (x - 26)) as char
    else if x < 62 then ('0' as int + (x - 52)) as char
    else if x == 62 then '+'
    else '/'
  }

  /** The inverse of the table: the value a character stands for. */
  function ValueOf(c: char): (x: Sextet)
    requires IsAlphabetChar(c)
    ensures CharOf(x) == c
  {
    if 'A' <= c <= 'Z' then c as int - 'A' as int
    else if 'a' <= c <= 'z' then c as int - 'a' as int + 26
    else if '0' <= c <= '9' then c as int - '0' as int + 52
    else if c == '+' then 62
    else 63
  }

  lemma ValueOfCharOf(x: Sextet)
    ensures ValueOf(CharOf(x)) == x
  {
    var c := CharOf(x);
    if x < 26 {
      assert 'A' <= c <= 'Z';
    } else if x < 52 {
      assert 'a' <= c <= 'z';
    } else if x < 62 {
      assert '0' <= c <= '9';
    }
  }

  /** Three bytes, 24 bits, become four characters. */
  function EncodeThree(x: Byte, y: Byte, z: Byte): string {
    [CharOf(x / 4), CharOf((x % 4) * 16 + y / 16), CharOf((y % 16) * 4 + z / 64), CharOf(z % 64)]
  }

  /** A final quantum of two bytes, 16 bits: three characters and one `=`. */
  function EncodeTwo(x: Byte, y: Byte): string {
    [CharOf(x / 4), CharOf((x % 4) * 16 + y / 16), CharOf((y % 16) * 4), Pad]
  }

  /** A final quantum of one byte, 8 bits: two characters and `==`. */
  function EncodeOne(x: Byte): string {
    [CharOf(x / 4), CharOf((x % 4) * 16), Pad, Pad]
  }

  /** Python's `base64.b64encode`: whole quanta of three bytes, then a
      padded final quantum for the one or two bytes left over. */
  function Encode(b: seq<Byte>): (r: string)
    ensures |r| == 4 * ((|b| + 2) / 3)
    ensures forall i :: 0 <= i < |r| ==> IsAlphabetChar(r[i]) || r[i] == Pad
    ensures forall i :: 0 <= i < |r| - 2 ==> IsAlphabetChar(r[i])
    decreases |b|
  {
    if |b| == 0 then ""
    else if |b| == 1 then EncodeOne(b[0])
    else if |b| == 2 then EncodeTwo(b[0], b[1])
    else EncodeThree(b[0], b[1], b[2]) + Encode(b[3..])
  }

  /** The bytes of a quantum without padding, or None when one of its
      characters is outside the alphabet. */
  function DecodeFull(q: string): Option<seq<Byte>>
    requires |q| == 4
  {
    if IsAlphabetChar(q[0]) && IsAlphabetChar(q[1]) && IsAlphabetChar(q[2]) && IsAlphabetChar(q[3]) then
      var a, b, c, d := ValueOf(q[0]), ValueOf(q[1]), ValueOf(q[2]), ValueOf(q[3]);
      Some([a * 4 + b / 16, (b % 16) * 16 + c / 4, (c % 4) * 64 + d])
    else
      None
  }

  /** The bytes of the last quantum, which may end in `=` or `==`. */
  function DecodeFinal(q: string): Option<seq<Byte>>
    requires |q| == 4
  {
    if q[2] == Pad && q[3] == Pad then
      if IsAlphabetChar(q[0]) && IsAlphabetChar(q[1]) then
        Some([ValueOf(q[0]) * 4 + ValueOf(q[1]) / 16])
      else None
    else if q[3] == Pad then
      if IsAlphabetChar(q[0]) && IsAlphabetChar(q[1]) && IsAlphabetChar(q[2]) then
        var a, b, c := ValueOf(q[0]), ValueOf(q[1]), ValueOf(q[2]);
        Some([a * 4 + b / 16, (b % 16) * 16 + c / 4])
      else None
    else
      DecodeFull(q)
  }

  /** A strict decoder: the text must be whole quanta of alphabet characters,
      with padding allowed only in the last one. */
  function Decode(s: string): Option<seq<Byte>>
    decreases |s|
  {
    if |s| == 0 then Some([])
    else if |s| < 4 then None
    else if |s| == 4 then DecodeFinal(s)
    else
      match DecodeFull(s[..4])
      case None => None
      case Some(head) =>
        match Decode(s[4..])
        case None => None
        case Some(tail) => Some(head + tail)
  }

  /** Splitting `q * 16 + r` back into quotient and remainder. */
  lemma DivMod16(q: int, r: int)
    requires 0 <= r < 16
    ensures (q * 16 + r) / 16 == q && (q * 16 + r) % 16 == r
  {
  }

  /** Splitting `q * 4 + r` back into quotient and remainder. */
  lemma DivMod4(q: int, r: int)
    requires 0 <= r < 4
    ensures (q * 4 + r) / 4 == q && (q * 4 + r) % 4 == r
  {
  }

  /** The two pieces `x` is cut into by the first two characters join up again. */
  lemma JoinFirst(x: Byte, y: Byte)
    ensures ((x % 4) * 16 + y / 16) / 16 == x % 4
    ensures ((x % 4) * 16 + y / 16) % 16 == y / 16
    ensures (x / 4) * 4 + x % 4 == x
  {
    DivMod16(x % 4, y / 16);
  }

  /** The same for `y`, cut by the second and third characters. */
  lemma JoinSecond(y: Byte, z: Byte)
    ensures ((y % 16) * 4 + z / 64) / 4 == y % 16
    ensures ((y % 16) * 4 + z / 64) % 4 == z / 64
    ensures (y / 16) * 16 + y % 16 == y
  {
    DivMod4(y % 16, z / 64);
  }

  lemma DecodeEncodeThree(x: Byte, y: Byte, z: Byte)
    ensures DecodeFull(EncodeThree(x, y, z)) == Some([x, y, z])
    ensures DecodeFinal(EncodeThree(x, y, z)) == Some([x, y, z])
  {
    var a, b, c, d := x / 4, (x % 4) * 16 + y / 16, (y % 16) * 4 + z / 64, z % 64;
    ValueOfCharOf(a);
    ValueOfCharOf(b);
    ValueOfCharOf(c);
    ValueOfCharOf(d);
    JoinFirst(x, y);
    JoinSecond(y, z);
    assert a * 4 + b / 16 == x;
    assert (b % 16) * 16 + c / 4 == y;
    assert (c % 4) * 64 + d == z;
    var q := EncodeThree(x, y, z);
    assert q == [CharOf(a), CharOf(b), CharOf(c), CharOf(d)];
    assert q[3] != Pad;
  }

  lemma DecodeEncodeTwo(x: Byte, y: Byte)
    ensures DecodeFinal(EncodeTwo(x, y)) == Some([x, y])
  {
    var a, b, c := x / 4, (x % 4) * 16 + y / 16, (y % 16) * 4;
    ValueOfCharOf(a);
    ValueOfCharOf(b);
    ValueOfCharOf(c);
    JoinFirst(x, y);
    JoinSecond(y, 0);
    assert a * 4 + b / 16 == x;
    assert (b % 16) * 16 + c / 4 == y;
    var q := EncodeTwo(x, y);
    assert q == [CharOf(a), CharOf(b), CharOf(c), Pad];
    assert q[2] != Pad;
  }

  lemma DecodeEncodeOne(x: Byte)
    ensures DecodeFinal(EncodeOne(x)) == Some([x])
  {
    var a, b := x / 4, (x % 4) * 16;
    ValueOfCharOf(a);
    ValueOfCharOf(b);
    JoinFirst(x, 0);
    assert a * 4 + b / 16 == x;
  }

  /** A full quantum in front of a decodable text decodes to its bytes in front. */
  lemma DecodeAppend(head: string, rest: string, h: seq<Byte>, t: seq<Byte>)
    requires |head| == 4 && |rest| > 0
    requires DecodeFull(head) == Some(h) && Decode(rest) == Some(t)
    ensures Decode(head + rest) == Some(h + t)
  {
    var s := head + rest;
    assert s[..4] == head;
    assert s[4..] == rest;
  }

  lemma SplitThree(b: seq<Byte>)
    requires |b| >= 3
    ensures [b[0], b[1], b[2]] + b[3..] == b
  {
  }

  /** One step of the round trip: a leading quantum of three bytes survives. */
  lemma DecodeEncodeStep(b: seq<Byte>)
    requires |b| > 3 && Decode(Encode(b[3..])) == Some(b[3..])
    ensures Decode(Encode(b)) == Some(b)
  {
    var head, rest := EncodeThree(b[0], b[1], b[2]), Encode(b[3..]);
    assert Encode(b) == head + rest;
    DecodeEncodeThree(b[0], b[1], b[2]);
    DecodeAppend(head, rest, [b[0], b[1], b[2]], b[3..]);
    SplitThree(b);
  }

  /** The round trip for a single final quantum of one, two or three bytes. */
  lemma DecodeEncodeLastOne(b: seq<Byte>)
    requires |b| == 1
    ensures Decode(Encode(b)) == Some(b)
  {
    DecodeEncodeOne(b[0]);
    assert b == [b[0]];
  }

  lemma DecodeEncodeLastTwo(b: seq<Byte>)
    requires |b| == 2
    ensures Decode(Encode(b)) == Some(b)
  {
    DecodeEncodeTwo(b[0], b[1]);
    assert b == [b[0], b[1]];
  }

  lemma DecodeEncodeLastThree(b: seq<Byte>)
    requires |b| == 3
    ensures Decode(Encode(b)) == Some(b)
  {
    assert b[3..] == [];
    var q := EncodeThree(b[0], b[1], b[2]);
    assert Encode(b) == q + "" == q;
    DecodeEncodeThree(b[0], b[1], b[2]);
    assert Decode(q) == DecodeFinal(q);
    assert b == [b[0], b[1], b[2]];
  }

  /** Decoding what was encoded gives back the original bytes. */
  lemma {:induction false} DecodeEncode(b: seq<Byte>)
    ensures Decode(Encode(b)) == Some(b)
    decreases |b|
  {
    if |b| == 1 {
      DecodeEncodeLastOne(b);
    } else if |b| == 2 {
      DecodeEncodeLastTwo(b);
    } else if |b| == 3 {
      DecodeEncodeLastThree(b);
    } else if |b| > 3 {
      DecodeEncode(b[3..]);
      DecodeEncodeStep(b);
    }
  }
}
