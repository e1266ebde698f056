/** Bytes and the little-endian integer layouts the writers use. */
module Bytes {

  type Byte = b: int | 0 <= b < 256
  type Uint16 = x: int | 0 <= x < 0x1_0000

  const TWO_TO_32: int := 0x1_0000_0000

  /** `x.to_bytes(length=4, byteorder='little', signed=False)`, defined when `x < 2^32`. */
  function LE32(x: nat): (r: seq<Byte>)
    requires x < TWO_TO_32
    ensures |r| == 4
  {
    [x % 256, (x / 256) % 256, (x / 0x1_0000) % 256, x / 0x100_0000]
  }

  /** Reads a 4-byte little-endian unsigned integer. */
  function DecodeLE32(b: seq<Byte>): nat
    requires |b| == 4
  {
    b[0] as int + 256 * b[1] as int + 0x1_0000 * b[2] as int + 0x100_0000 * b[3] as int
  }

  /** A reader of the 4 bytes gets the integer back. */
  lemma LE32RoundTrip(x: nat)
    requires x < TWO_TO_32
    ensures DecodeLE32(LE32(x)) == x
  {
    var q1 := x / 256;
    var q2 := q1 / 256;
    assert x == q1 * 256 + x % 256;
    assert q1 == q2 * 256 + q1 % 256;
    assert q2 == (q2 / 256) * 256 + q2 % 256;
    assert x / 0x1_0000 == q2;
    assert x / 0x100_0000 == q2 / 256;
  }

  /** Four zero bytes per entry: the placeholder the index starts as. */
  function Zeros(n: nat): (r: seq<Byte>)
    ensures |r| == n && forall k :: 0 <= k < n ==> r[k] == 0
  {
    seq(n, _ => 0)
  }

  /** NumPy's `tobytes()` of a `uint16` array on a little-endian machine: two bytes per element, low byte first. */
  function Uint16sToBytes(a: seq<Uint16>): (r: seq<Byte>)
    ensures |r| == 2 * |a|
  {
    if |a| == 0 then [] else [a[0] % 256, a[0] / 256] + Uint16sToBytes(a[1..])
  }

  /** Element `k` is recovered from bytes `2k` and `2k + 1`. */
  lemma {:induction false} Uint16sToBytesAt(a: seq<Uint16>, k: nat)
    requires k < |a|
    ensures Uint16sToBytes(a)[2 * k] as int + 256 * Uint16sToBytes(a)[2 * k + 1] as int == a[k]
  {
    if k > 0 {
      Uint16sToBytesAt(a[1..], k - 1);
      var r := Uint16sToBytes(a);
      assert r == [a[0] % 256, a[0] / 256] + Uint16sToBytes(a[1..]);
      assert r[2 * k] == Uint16sToBytes(a[1..])[2 * (k - 1)];
      assert r[2 * k + 1] == Uint16sToBytes(a[1..])[2 * (k - 1) + 1];
    }
  }
}

/** Standard base64 with padding, as in section 4 of RFC 4648. */
module Base64 {
  import opened Wrappers
  import opened Bytes

  /** The character of a 6-bit value: A-Z, a-z, 0-9, '+', '/'. */
  function Sextet(v: nat): (c: char)
    requires v < 64
    ensures SextetValue(c) == Some(v) && c != '='
  {
    if v < 26 then ('A' as int + v) as char
    else if v < 52 then ('a' as int + (v - 26)) as char
    else if v < 62 then ('0' as int + (v - 52)) as char
    else if v == 62 then '+'
    else '/'
  }

  /** The 6-bit value of an alphabet character, if it is one. */
  function SextetValue(c: char): (r: Option<nat>)
    ensures r.Some? ==> r.value < 64
  {
    if 'A' as int <= c as int <= 'Z' as int then Some(c as int - 'A' as int)
    else if 'a' as int <= c as int <= 'z' as int then Some(c as int - 'a' as int + 26)
    else if '0' as int <= c as int <= '9' as int then Some(c as int - '0' as int + 52)
    else if c == '+' then Some(62)
    else if c == '/' then Some(63)
    else None
  }

  predicate InAlphabet(c: char) { SextetValue(c).Some? }

  /** Three bytes as four characters. */
  function EncodeGroup(b0: Byte, b1: Byte, b2: Byte): (s: string)
    ensures |s| == 4 && forall k :: 0 <= k < 4 ==> InAlphabet(s[k])
  {
    [Sextet(b0 / 4), Sextet((b0 % 4) * 16 + b1 / 16), Sextet((b1 % 16) * 4 + b2 / 64), Sextet(b2 % 64)]
  }

  /** Two trailing bytes: three characters and one '='. */
  function EncodeTwo(b0: Byte, b1: Byte): (s: string)
    ensures |s| == 4 && s[3] == '=' && forall k :: 0 <= k < 3 ==> InAlphabet(s[k])
  {
    [Sextet(b0 / 4), Sextet((b0 % 4) * 16 + b1 / 16), Sextet((b1 % 16) * 4), '=']
  }

  /** One trailing byte: two characters and two '='. */
  function EncodeOne(b0: Byte): (s: string)
    ensures |s| == 4 && s[2] == '=' && s[3] == '=' && InAlphabet(s[0]) && InAlphabet(s[1])
  {
    [Sextet(b0 / 4), Sextet((b0 % 4) * 16), '=', '=']
  }

  /** The encoding of `b`: whole groups, then one or two trailing bytes padded with '='. */
  function Encode(b: seq<Byte>): string
    decreases |b|
  {
    if |b| == 0 then ""
    else if |b| == 1 then EncodeOne(b[0])
    else if |b| == 2 then EncodeTwo(b[0], b[1])
    else EncodeGroup(b[0], b[1], b[2]) + Encode(b[3..])
  }

  /** Four characters for every three bytes, the last group padded: `4 * ceil(n / 3)`. */
  lemma {:induction false} EncodeLength(b: seq<Byte>)
    ensures |Encode(b)| == 4 * ((|b| + 2) / 3)
    decreases |b|
  {
    var n := |b|;
    if n >= 3 {
      EncodeLength(b[3..]);
      assert |Encode(b)| == 4 + |Encode(b[3..])|;
      assert (n + 2) / 3 == (n - 3 + 2) / 3 + 1;
    } else if n > 0 {
      assert (n + 2) / 3 == 1;
    }
  }

  /** Every character of an encoding is in the alphabet or is the pad '='. */
  lemma {:induction false} EncodeAlphabet(b: seq<Byte>)
    ensures forall k :: 0 <= k < |Encode(b)| ==> InAlphabet(Encode(b)[k]) || Encode(b)[k] == '='
    decreases |b|
  {
    if |b| >= 3 {
      EncodeAlphabet(b[3..]);
      var g := EncodeGroup(b[0], b[1], b[2]);
      assert Encode(b) == g + Encode(b[3..]);
      forall k | 0 <= k < |Encode(b)|
        ensures InAlphabet(Encode(b)[k]) || Encode(b)[k] == '='
      {
        if k >= 4 {
          assert Encode(b)[k] == Encode(b[3..])[k - 4];
        }
      }
    }
  }

  /** Four characters back to up to three bytes; `None` when a character is outside the alphabet. */
  function DecodeGroup(s: string): Option<seq<Byte>>
    requires |s| == 4
  {
    var v0, v1 := SextetValue(s[0]), SextetValue(s[1]);
    if v0.None? || v1.None? then None
    else
      var b0 := v0.value * 4 + v1.value / 16;
      if s[2] == '=' && s[3] == '=' then Some([b0])
      else
        var v2 := SextetValue(s[2]);
        if v2.None? then None
        else
          var b1 := (v1.value % 16) * 16 + v2.value / 4;
          if s[3] == '=' then Some([b0, b1])
          else
            var v3 := SextetValue(s[3]);
            if v3.None? then None
            else Some([b0, b1, (v2.value % 4) * 64 + v3.value])
  }

  /** A decoder: group by group. */
  function Decode(s: string): Option<seq<Byte>>
    decreases |s|
  {
    if |s| == 0 then Some([])
    else if |s| < 4 then None
    else
      match DecodeGroup(s[..4])
      case None => None
      case Some(g) =>
        match Decode(s[4..])
        case None => None
        case Some(rest) => Some(g + rest)
  }

  lemma ThreeBytesArith(x: Byte, y: Byte, z: Byte)
    ensures (x / 4) * 4 + ((x % 4) * 16 + y / 16) / 16 == x
    ensures (((x % 4) * 16 + y / 16) % 16) * 16 + ((y % 16) * 4 + z / 64) / 4 == y
    ensures (((y % 16) * 4 + z / 64) % 4) * 64 + z % 64 == z
  {
  }

  lemma DecodeFour(v0: nat, v1: nat, v2: nat, v3: nat)
    requires v0 < 64 && v1 < 64 && v2 < 64 && v3 < 64
    ensures DecodeGroup([Sextet(v0), Sextet(v1), Sextet(v2), Sextet(v3)])
         == Some([v0 * 4 + v1 / 16, (v1 % 16) * 16 + v2 / 4, (v2 % 4) * 64 + v3])
  {
  }

  lemma GroupRoundTrip(b0: Byte, b1: Byte, b2: Byte)
    ensures DecodeGroup(EncodeGroup(b0, b1, b2)) == Some([b0, b1, b2])
  {
    DecodeFour(b0 / 4, (b0 % 4) * 16 + b1 / 16, (b1 % 16) * 4 + b2 / 64, b2 % 64);
    ThreeBytesArith(b0, b1, b2);
  }

  lemma TwoBytesArith(x: Byte, y: Byte)
    ensures (x / 4) * 4 + ((x % 4) * 16 + y / 16) / 16 == x
    ensures (((x % 4) * 16 + y / 16) % 16) * 16 + ((y % 16) * 4) / 4 == y
  {
  }

  lemma DecodeThree(v0: nat, v1: nat, v2: nat)
    requires v0 < 64 && v1 < 64 && v2 < 64
    ensures DecodeGroup([Sextet(v0), Sextet(v1), Sextet(v2), '=']) == Some([v0 * 4 + v1 / 16, (v1 % 16) * 16 + v2 / 4])
  {
  }

  lemma TwoRoundTrip(b0: Byte, b1: Byte)
    ensures DecodeGroup(EncodeTwo(b0, b1)) == Some([b0, b1])
  {
    DecodeThree(b0 / 4, (b0 % 4) * 16 + b1 / 16, (b1 % 16) * 4);
    TwoBytesArith(b0, b1);
  }

  lemma OneRoundTrip(b0: Byte)
    ensures DecodeGroup(EncodeOne(b0)) == Some([b0])
  {
    assert (b0 / 4) * 4 + ((b0 % 4) * 16) / 16 == b0;
  }

  /** A group followed by more text decodes to the group's bytes and then the rest's. */
  lemma DecodeCons(s: string, g: seq<Byte>, rest: seq<Byte>)
    requires |s| >= 4 && DecodeGroup(s[..4]) == Some(g) && Decode(s[4..]) == Some(rest)
    ensures Decode(s) == Some(g + rest)
  {
  }

  /** The encoding of three or more bytes: the first group, then the encoding of the rest. */
  lemma EncodeSplits(b: seq<Byte>)
    requires |b| >= 3
    ensures Encode(b)[..4] == EncodeGroup(b[0], b[1], b[2]) && Encode(b)[4..] == Encode(b[3..])
  {
    var g, r := EncodeGroup(b[0], b[1], b[2]), Encode(b[3..]);
    assert Encode(b) == g + r;
    assert (g + r)[..4] == g && (g + r)[4..] == r;
  }

  lemma DecodeEncodeOne(b: seq<Byte>)
    requires |b| == 1
    ensures Decode(Encode(b)) == Some(b)
  {
    var s := EncodeOne(b[0]);
    OneRoundTrip(b[0]);
    assert s[..4] == s && s[4..] == [];
    DecodeCons(s, [b[0]], []);
    assert [b[0]] + [] == b;
  }

  lemma DecodeEncodeTwo(b: seq<Byte>)
    requires |b| == 2
    ensures Decode(Encode(b)) == Some(b)
  {
    var s := EncodeTwo(b[0], b[1]);
    TwoRoundTrip(b[0], b[1]);
    assert s[..4] == s && s[4..] == [];
    DecodeCons(s, [b[0], b[1]], []);
    assert [b[0], b[1]] + [] == b;
  }

  lemma DecodeEncodeMore(b: seq<Byte>)
    requires |b| >= 3 && Decode(Encode(b[3..])) == Some(b[3..])
    ensures Decode(Encode(b)) == Some(b)
  {
    var s, g := Encode(b), [b[0], b[1], b[2]];
    GroupRoundTrip(b[0], b[1], b[2]);
    EncodeSplits(b);
    assert DecodeGroup(s[..4]) == Some(g);
    assert Decode(s[4..]) == Some(b[3..]);
    DecodeCons(s, g, b[3..]);
    assert g + b[3..] == b;
  }

  /** Decoding an encoding gives the bytes back. */
  lemma {:induction false} DecodeEncode(b: seq<Byte>)
    ensures Decode(Encode(b)) == Some(b)
    decreases |b|
  {
    if |b| == 0 {
    } else if |b| == 1 {
      DecodeEncodeOne(b);
    } else if |b| == 2 {
      DecodeEncodeTwo(b);
    } else {
      DecodeEncode(b[3..]);
      DecodeEncodeMore(b);
    }
  }
}
