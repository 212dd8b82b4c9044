/**
 * UTF-8, as `Buffer.from(text)` writes a string and `toString('utf-8')`
 * reads it back. Characters are Unicode scalar values, one to four bytes
 * each. The decoder rejects what is not well-formed UTF-8 (a bad lead byte,
 * a missing continuation byte, an overlong form, a surrogate, a value past
 * U+10FFFF).
 */
module Utf8 {

  import opened Bytes
  import opened Wrappers

  predicate IsContinuation(b: byte)
  {
    0x80 <= b < 0xC0
  }

  /** The one to four bytes of a character: the shortest form for its code point. */
  function EncodeChar(c: char): (b: seq<byte>)
    ensures 1 <= |b| <= 4
    ensures forall i :: 1 <= i < |b| ==> IsContinuation(b[i])
  {
    var n := c as int;
    if n < 0x80 then [n]
    else if n < 0x800 then [0xC0 + n / 64, 0x80 + n % 64]
    else if n < 0x10000 then [0xE0 + n / 4096, 0x80 + n / 64 % 64, 0x80 + n % 64]
    else [0xF0 + n / 262144, 0x80 + n / 4096 % 64, 0x80 + n / 64 % 64, 0x80 + n % 64]
  }

  /** The bytes of a string, character after character. */
  function Encode(s: string): (b: seq<byte>)
    ensures |s| <= |b| <= 4 * |s|
  {
    if s == [] then [] else EncodeChar(s[0]) + Encode(s[1..])
  }

  predicate IsScalar(n: int)
  {
    0 <= n < 0xD800 || 0xE000 <= n < 0x110000
  }

  /** The first character of a byte string, with the number of bytes it takes. */
  function DecodeChar(b: seq<byte>): (r: Option<(char, nat)>)
    ensures r.Some? ==> 1 <= r.value.1 <= |b| && r.value.1 <= 4
  {
    if |b| == 0 then None
    else
    var b0: int, b1: int, b2: int, b3: int := b[0], if |b| > 1 then b[1] else 0, if |b| > 2 then b[2] else 0, if |b| > 3 then b[3] else 0;
    if b0 < 0x80 then Some((b0 as char, 1))
    else if 0xC2 <= b0 < 0xE0 then
      if |b| < 2 || !IsContinuation(b[1]) then None
      else Some((((b0 - 0xC0) * 64 + (b1 - 0x80)) as char, 2))
    else if 0xE0 <= b0 < 0xF0 then
      if |b| < 3 || !IsContinuation(b[1]) || !IsContinuation(b[2]) then None
      else
        var n := (b0 - 0xE0) * 4096 + (b1 - 0x80) * 64 + (b2 - 0x80);
        if n < 0x800 || !IsScalar(n) then None else Some((n as char, 3))
    else if 0xF0 <= b0 < 0xF5 then
      if |b| < 4 || !IsContinuation(b[1]) || !IsContinuation(b[2]) || !IsContinuation(b[3]) then None
      else
        var n := (b0 - 0xF0) * 262144 + (b1 - 0x80) * 4096 + (b2 - 0x80) * 64 + (b3 - 0x80);
        if n < 0x10000 || !IsScalar(n) then None else Some((n as char, 4))
    else None
  }

  /** The string a well-formed byte string stands for; None for malformed input. */
  function Decode(b: seq<byte>): (r: Option<string>)
    decreases |b|
  {
    if b == [] then Some([])
    else
      match DecodeChar(b)
      case None => None
      case Some((c, k)) =>
        match Decode(b[k..])
        case None => None
        case Some(s) => Some([c] + s)
  }

  lemma SplitTwo(n: int)
    requires 0 <= n
    ensures n / 64 * 64 + n % 64 == n
  {
  }

  lemma SplitThree(n: int)
    requires 0 <= n
    ensures n / 4096 * 4096 + n / 64 % 64 * 64 + n % 64 == n
  {
    assert n / 64 / 64 == n / 4096;
  }

  lemma SplitFour(n: int)
    requires 0 <= n
    ensures n / 262144 * 262144 + n / 4096 % 64 * 4096 + n / 64 % 64 * 64 + n % 64 == n
  {
    assert n / 64 / 64 == n / 4096;
    assert n / 4096 / 64 == n / 262144;
  }

  /** The leading character of an encoding is read back whatever follows it. */
  lemma DecodeEncodeChar(c: char, rest: seq<byte>)
    ensures DecodeChar(EncodeChar(c) + rest) == Some((c, |EncodeChar(c)|))
  {
    var n := c as int;
    var b := EncodeChar(c) + rest;
    if n < 0x80 {
    } else if n < 0x800 {
      var b0: int, b1: int := b[0], b[1];
      SplitTwo(n);
      assert (b0 - 0xC0) * 64 + (b1 - 0x80) == n;
    } else if n < 0x10000 {
      var b0: int, b1: int, b2: int := b[0], b[1], b[2];
      SplitThree(n);
      assert (b0 - 0xE0) * 4096 + (b1 - 0x80) * 64 + (b2 - 0x80) == n;
    } else {
      var b0: int, b1: int, b2: int, b3: int := b[0], b[1], b[2], b[3];
      SplitFour(n);
      assert (b0 - 0xF0) * 262144 + (b1 - 0x80) * 4096 + (b2 - 0x80) * 64 + (b3 - 0x80) == n;
    }
  }

  /** Decoding undoes encoding. */
  lemma {:induction false} DecodeEncode(s: string)
    ensures Decode(Encode(s)) == Some(s)
  {
    if s != [] {
      var head := EncodeChar(s[0]);
      var b := Encode(s);
      DecodeEncodeChar(s[0], Encode(s[1..]));
      assert b[|head|..] == Encode(s[1..]);
      DecodeEncode(s[1..]);
      assert s == [s[0]] + s[1..];
    }
  }

  lemma DivMod(q: int, r: int)
    requires 0 <= q && 0 <= r < 64
    ensures (q * 64 + r) / 64 == q && (q * 64 + r) % 64 == r
  {
  }

  lemma EncodeTwo(b0: int, b1: int)
    requires 0xC2 <= b0 < 0xE0 && 0x80 <= b1 < 0xC0
    ensures EncodeChar(((b0 - 0xC0) * 64 + (b1 - 0x80)) as char) == [b0, b1]
  {
    DivMod(b0 - 0xC0, b1 - 0x80);
  }

  lemma EncodeThree(b0: int, b1: int, b2: int)
    requires 0xE0 <= b0 < 0xF0 && 0x80 <= b1 < 0xC0 && 0x80 <= b2 < 0xC0
    requires var n := (b0 - 0xE0) * 4096 + (b1 - 0x80) * 64 + (b2 - 0x80); 0x800 <= n && IsScalar(n)
    ensures EncodeChar(((b0 - 0xE0) * 4096 + (b1 - 0x80) * 64 + (b2 - 0x80)) as char) == [b0, b1, b2]
  {
    var hi := (b0 - 0xE0) * 64 + (b1 - 0x80);
    var n := hi * 64 + (b2 - 0x80);
    DivMod(hi, b2 - 0x80);
    DivMod(b0 - 0xE0, b1 - 0x80);
    assert n / 64 / 64 == n / 4096;
  }

  lemma EncodeFour(b0: int, b1: int, b2: int, b3: int)
    requires 0xF0 <= b0 < 0xF5 && 0x80 <= b1 < 0xC0 && 0x80 <= b2 < 0xC0 && 0x80 <= b3 < 0xC0
    requires var n := (b0 - 0xF0) * 262144 + (b1 - 0x80) * 4096 + (b2 - 0x80) * 64 + (b3 - 0x80); 0x10000 <= n && IsScalar(n)
    ensures EncodeChar(((b0 - 0xF0) * 262144 + (b1 - 0x80) * 4096 + (b2 - 0x80) * 64 + (b3 - 0x80)) as char) == [b0, b1, b2, b3]
  {
    var top := (b0 - 0xF0) * 64 + (b1 - 0x80);
    var hi := top * 64 + (b2 - 0x80);
    var n := hi * 64 + (b3 - 0x80);
    DivMod(hi, b3 - 0x80);
    DivMod(top, b2 - 0x80);
    DivMod(b0 - 0xF0, b1 - 0x80);
    assert n / 64 / 64 == n / 4096;
    assert n / 4096 / 64 == n / 262144;
  }

  /** A well-formed leading character is written back as the bytes it was read from. */
  lemma EncodeDecodeChar(b: seq<byte>)
    requires DecodeChar(b).Some?
    ensures var (c, k) := DecodeChar(b).value; EncodeChar(c) == b[..k]
  {
    var k := DecodeChar(b).value.1;
    var b0: int := b[0];
    if k == 2 {
      EncodeTwo(b0, b[1]);
      assert b[..2] == [b0, b[1]];
    } else if k == 3 {
      EncodeThree(b0, b[1], b[2]);
      assert b[..3] == [b0, b[1], b[2]];
    } else if k == 4 {
      EncodeFour(b0, b[1], b[2], b[3]);
      assert b[..4] == [b0, b[1], b[2], b[3]];
    }
  }

  /** One step of decoding: the first character, then the decoding of the rest. */
  lemma DecodeStep(b: seq<byte>)
    requires b != [] && Decode(b).Some?
    ensures DecodeChar(b).Some?
    ensures var (c, k) := DecodeChar(b).value;
            Decode(b[k..]).Some? && Decode(b).value == [c] + Decode(b[k..]).value
  {
  }

  /** A character written as the first `k` bytes, then a text written as the rest. */
  lemma EncodeCons(b: seq<byte>, c: char, k: nat, tail: string)
    requires k <= |b| && EncodeChar(c) == b[..k] && Encode(tail) == b[k..]
    ensures Encode([c] + tail) == b
  {
    assert ([c] + tail)[1..] == tail;
    assert b == b[..k] + b[k..];
  }

  /** A byte string the decoder accepts is the encoding of what it decodes to. */
  lemma {:induction false} EncodeDecode(b: seq<byte>)
    requires Decode(b).Some?
    ensures Encode(Decode(b).value) == b
    decreases |b|
  {
    if b != [] {
      DecodeStep(b);
      var first := DecodeChar(b).value;
      EncodeDecodeChar(b);
      EncodeDecode(b[first.1..]);
      EncodeCons(b, first.0, first.1, Decode(b[first.1..]).value);
    }
  }

  /** Encoding is injective: different strings never share their bytes. */
  lemma EncodeInjective(s: string, t: string)
    requires Encode(s) == Encode(t)
    ensures s == t
  {
    DecodeEncode(s);
    DecodeEncode(t);
  }

  lemma EncodeAppend(s: string, t: string)
    ensures Encode(s + t) == Encode(s) + Encode(t)
  {
    if s == [] {
      assert s + t == t;
    } else {
      assert (s + t)[1..] == s[1..] + t;
      EncodeAppend(s[1..], t);
    }
  }

  /** A character below U+0080 is the one byte of its code point. */
  lemma EncodeAscii(s: string)
    requires forall i :: 0 <= i < |s| ==> s[i] as int < 0x80
    ensures |Encode(s)| == |s|
    ensures forall i :: 0 <= i < |s| ==> Encode(s)[i] == s[i] as int
  {
    if s != [] {
      EncodeAscii(s[1..]);
    }
  }
}
