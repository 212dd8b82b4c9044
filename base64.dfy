/**
 * Base64 as Node's `Buffer#toString('base64')` writes it: the alphabet and
 * the `=` padding of section 4 of RFC 4648. The decoder accepts exactly the
 * strings the encoder can produce (canonical padding, zero pad bits).
 */
module Base64 {

  import opened Bytes
  import opened Wrappers

  /** The 6-bit value a character stands for, if it is in the alphabet. */
  function IndexOf(c: char): (r: Option<int>)
    ensures r.Some? ==> 0 <= r.value < 64
  {
    if 'A' <= c <= 'Z' then Some(c as int - 'A' as int)
    else if 'a' <= c <= 'z' then Some(c as int - 'a' as int + 26)
    else if '0' <= c <= '9' then Some(c as int - '0' as int + 52)
    else if c == '+' then Some(62)
    else if c == '/' then Some(63)
    else None
  }

  predicate IsAlphabet(c: char)
  {
    IndexOf(c).Some?
  }

  /** The character that stands for a 6-bit value. */
  function CharOf(v: int): (c: char)
    requires 0 <= v < 64
    ensures IndexOf(c) == Some(v)
  {
    if v < 26 then ('A' as int + v) as char
    else if v < 52 then ('a' as int + v - 26) as char
    else if v < 62 then ('0' as int + v - 52) as char
    else if v == 62 then '+'
    else '/'
  }

  lemma CharOfIndexOf(c: char)
    requires IsAlphabet(c)
    ensures CharOf(IndexOf(c).value) == c
  {
  }

  /** The characters an encoding may hold: the alphabet and the pad. */
  predicate IsSymbol(c: char)
  {
    IsAlphabet(c) || c == '='
  }

  /** Three bytes as four characters. */
  function EncodeGroup(b0: byte, b1: byte, b2: byte): (s: string)
    ensures |s| == 4 && forall i :: 0 <= i < 4 ==> IsAlphabet(s[i])
  {
    [CharOf(b0 / 4), CharOf(b0 % 4 * 16 + b1 / 16), CharOf(b1 % 16 * 4 + b2 / 64), CharOf(b2 % 64)]
  }

  /** The last group when one byte is left: two characters and two pads. */
  function EncodeOne(b0: byte): (s: string)
    ensures |s| == 4 && forall i :: 0 <= i < 4 ==> IsSymbol(s[i])
  {
    [CharOf(b0 / 4), CharOf(b0 % 4 * 16), '=', '=']
  }

  /** The last group when two bytes are left: three characters and one pad. */
  function EncodeTwo(b0: byte, b1: byte): (s: string)
    ensures |s| == 4 && forall i :: 0 <= i < 4 ==> IsSymbol(s[i])
  {
    [CharOf(b0 / 4), CharOf(b0 % 4 * 16 + b1 / 16), CharOf(b1 % 16 * 4), '=']
  }

  /** The padded encoding of a byte string: four characters for every three bytes started. */
  function Encode(b: seq<byte>): (s: string)
    ensures |s| == 4 * ((|b| + 2) / 3)
    ensures forall i :: 0 <= i < |s| ==> IsSymbol(s[i])
    decreases |b|
  {
    if |b| == 0 then ""
    else if |b| == 1 then EncodeOne(b[0])
    else if |b| == 2 then EncodeTwo(b[0], b[1])
    else EncodeGroup(b[0], b[1], b[2]) + Encode(b[3..])
  }

  /** Four alphabet characters as three bytes. */
  function DecodeGroup(q: string): (r: Option<seq<byte>>)
    requires |q| == 4
    ensures r.Some? ==> |r.value| == 3
  {
    var v0, v1, v2, v3 := IndexOf(q[0]), IndexOf(q[1]), IndexOf(q[2]), IndexOf(q[3]);
    if v0.None? || v1.None? || v2.None? || v3.None? then None
    else
      Some([v0.value * 4 + v1.value / 16,
            v1.value % 16 * 16 + v2.value / 4,
            v2.value % 4 * 64 + v3.value])
  }

  /** The last four characters, which may end in one or two pads. */
  function DecodeLast(q: string): (r: Option<seq<byte>>)
    requires |q| == 4
    ensures r.Some? ==> 1 <= |r.value| <= 3
  {
    if q[2] == '=' && q[3] == '=' then
      var v0, v1 := IndexOf(q[0]), IndexOf(q[1]);
      if v0.None? || v1.None? || v1.value % 16 != 0 then None
      else Some([v0.value * 4 + v1.value / 16])
    else if q[3] == '=' then
      var v0, v1, v2 := IndexOf(q[0]), IndexOf(q[1]), IndexOf(q[2]);
      if v0.None? || v1.None? || v2.None? || v2.value % 4 != 0 then None
      else Some([v0.value * 4 + v1.value / 16, v1.value % 16 * 16 + v2.value / 4])
    else DecodeGroup(q)
  }

  /** The bytes a canonical encoding stands for; None for any other string. */
  function Decode(s: string): (r: Option<seq<byte>>)
    decreases |s|
  {
    if |s| == 0 then Some([])
    else if |s| < 4 then None
    else if |s| == 4 then DecodeLast(s)
    else
      match DecodeGroup(s[..4])
      case None => None
      case Some(g) =>
        match Decode(s[4..])
        case None => None
        case Some(rest) => Some(g + rest)
  }

  lemma DecodeEncodeGroup(b0: byte, b1: byte, b2: byte)
    ensures DecodeGroup(EncodeGroup(b0, b1, b2)) == Some([b0, b1, b2])
  {
    assert (b0 % 4 * 16 + b1 / 16) / 16 == b0 % 4;
    assert (b0 % 4 * 16 + b1 / 16) % 16 == b1 / 16;
    assert (b1 % 16 * 4 + b2 / 64) / 4 == b1 % 16;
    assert (b1 % 16 * 4 + b2 / 64) % 4 == b2 / 64;
  }

  lemma DecodeEncodeOne(b0: byte)
    ensures Decode(Encode([b0])) == Some([b0])
  {
    var s := Encode([b0]);
    assert IndexOf(s[1]) == Some(b0 % 4 * 16);
    assert (b0 % 4 * 16) / 16 == b0 % 4 && (b0 % 4 * 16) % 16 == 0;
  }

  lemma DecodeEncodeTwo(b0: byte, b1: byte)
    ensures Decode(Encode([b0, b1])) == Some([b0, b1])
  {
    var s := Encode([b0, b1]);
    assert IndexOf(s[1]) == Some(b0 % 4 * 16 + b1 / 16);
    assert IndexOf(s[2]) == Some(b1 % 16 * 4);
    assert (b0 % 4 * 16 + b1 / 16) / 16 == b0 % 4;
    assert (b0 % 4 * 16 + b1 / 16) % 16 == b1 / 16;
    assert (b1 % 16 * 4) / 4 == b1 % 16 && (b1 % 16 * 4) % 4 == 0;
  }

  /** A full group in front of more text decodes to its three bytes in front of the rest. */
  lemma DecodeCons(q: string, rest: string)
    requires |q| == 4 && DecodeGroup(q).Some? && |rest| > 0 && Decode(rest).Some?
    ensures Decode(q + rest) == Some(DecodeGroup(q).value + Decode(rest).value)
  {
    var s := q + rest;
    assert s[..4] == q && s[4..] == rest;
  }

  /** Decoding undoes encoding. */
  lemma {:induction false} DecodeEncode(b: seq<byte>)
    ensures Decode(Encode(b)) == Some(b)
    decreases |b|
  {
    if |b| == 0 {
    } else if |b| == 1 {
      assert b == [b[0]];
      DecodeEncodeOne(b[0]);
    } else if |b| == 2 {
      assert b == [b[0], b[1]];
      DecodeEncodeTwo(b[0], b[1]);
    } else {
      var q := EncodeGroup(b[0], b[1], b[2]);
      DecodeEncodeGroup(b[0], b[1], b[2]);
      assert b == [b[0], b[1], b[2]] + b[3..];
      if |b| == 3 {
        assert Encode(b) == q;
        assert DecodeLast(q) == DecodeGroup(q) by {
          assert IsAlphabet(q[2]) && IsAlphabet(q[3]);
        }
        assert Decode(q) == DecodeLast(q);
        assert b == [b[0], b[1], b[2]];
      } else {
        DecodeEncode(b[3..]);
        DecodeCons(q, Encode(b[3..]));
      }
    }
  }

  lemma EncodeDecodeGroup(q: string)
    requires |q| == 4 && DecodeGroup(q).Some?
    ensures var g := DecodeGroup(q).value; EncodeGroup(g[0], g[1], g[2]) == q
  {
    var v0, v1, v2, v3 := IndexOf(q[0]).value, IndexOf(q[1]).value, IndexOf(q[2]).value, IndexOf(q[3]).value;
    var g := DecodeGroup(q).value;
    assert g[0] / 4 == v0 && g[0] % 4 == v1 / 16;
    assert g[1] / 16 == v1 % 16 && g[1] % 16 == v2 / 4;
    assert g[2] / 64 == v2 % 4 && g[2] % 64 == v3;
    CharOfIndexOf(q[0]);
    CharOfIndexOf(q[1]);
    CharOfIndexOf(q[2]);
    CharOfIndexOf(q[3]);
  }

  /** A string the decoder accepts is the encoding of what it decodes to. */
  lemma {:induction false} EncodeDecode(s: string)
    requires Decode(s).Some?
    ensures Encode(Decode(s).value) == s
    decreases |s|
  {
    var b := Decode(s).value;
    if |s| == 0 {
    } else if |s| == 4 {
      if s[2] == '=' && s[3] == '=' {
        var v0, v1 := IndexOf(s[0]).value, IndexOf(s[1]).value;
        assert b[0] / 4 == v0 && b[0] % 4 * 16 == v1;
        CharOfIndexOf(s[0]);
        CharOfIndexOf(s[1]);
      } else if s[3] == '=' {
        var v0, v1, v2 := IndexOf(s[0]).value, IndexOf(s[1]).value, IndexOf(s[2]).value;
        assert b[0] / 4 == v0 && b[0] % 4 == v1 / 16;
        assert b[1] / 16 == v1 % 16 && b[1] % 16 * 4 == v2;
        CharOfIndexOf(s[0]);
        CharOfIndexOf(s[1]);
        CharOfIndexOf(s[2]);
      } else {
        EncodeDecodeGroup(s);
      }
    } else {
      var g := DecodeGroup(s[..4]).value;
      EncodeDecodeGroup(s[..4]);
      EncodeDecode(s[4..]);
      assert b == g + Decode(s[4..]).value;
      assert b[3..] == Decode(s[4..]).value;
      assert s == s[..4] + s[4..];
    }
  }

  /** Every string the decoder accepts has a length that is a multiple of four. */
  lemma {:induction false} DecodeLength(s: string)
    ensures Decode(s).Some? ==> |s| % 4 == 0
    decreases |s|
  {
    if |s| > 4 {
      DecodeLength(s[4..]);
      if Decode(s).Some? {
        assert Decode(s[4..]).Some?;
        assert |s| == |s[4..]| + 4;
      }
    }
  }

  /** The decoder accepts a string exactly when it is the encoding of the bytes it returns. */
  lemma DecodeIffEncode(s: string, b: seq<byte>)
    ensures Decode(s) == Some(b) <==> s == Encode(b)
  {
    if Decode(s) == Some(b) {
      EncodeDecode(s);
    }
    if s == Encode(b) {
      DecodeEncode(b);
    }
  }

  /** Encoding is injective: different byte strings never share an encoding. */
  lemma EncodeInjective(a: seq<byte>, b: seq<byte>)
    requires Encode(a) == Encode(b)
    ensures a == b
  {
    DecodeEncode(a);
    DecodeEncode(b);
  }
}
