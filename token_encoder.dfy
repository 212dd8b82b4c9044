/**
 * The refresh-token envelope: an object written as JSON, its text as UTF-8
 * bytes, the bytes as padded Base64. Decoding runs the three steps
 * backwards and gives None (`null`) whenever a step fails, never an error.
 */
module TokenEncoder {

  import opened Wrappers
  import opened Bytes
  import Base64
  import Utf8
  import opened Json

  /** `tokenEncoder`: the Base64 of the UTF-8 of the JSON text. */
  function Encode(v: Value): (s: string)
    ensures |s| == 4 * ((|Utf8.Encode(Stringify(v))| + 2) / 3)
    ensures forall i :: 0 <= i < |s| ==> Base64.IsSymbol(s[i])
  {
    Base64.Encode(Utf8.Encode(Stringify(v)))
  }

  /**
   * `tokenDecoder`: whatever JSON value the text holds, with no check of
   * its shape; None where the Base64, the UTF-8 or the JSON is malformed.
   */
  function Decode(encoded: string): (r: Option<Value>)
    ensures r.Some? ==> |encoded| > 0 && |encoded| % 4 == 0
  {
    Base64.DecodeLength(encoded);
    match Base64.Decode(encoded)
    case None => None
    case Some(bytes) =>
      match Utf8.Decode(bytes)
      case None => None
      case Some(text) => Parse(text)
  }

  /**
   * The object `generateTokens` encodes: the new ledger row's id and the
   * signed refresh token, as `decoded.id` and `decoded.refreshToken` read
   * them back.
   */
  function Envelope(id: int, refreshToken: string): (v: Value)
    ensures Property(Some(v), "id") == Some(Number(id))
    ensures Property(Some(v), "refreshToken") == Some(String(refreshToken))
    ensures v.Object? && |v.members| == 2
  {
    var ms := [Member("id", Number(id)), Member("refreshToken", String(refreshToken))];
    assert ms[1].key != "id" by {
      assert |ms[1].key| != |"id"|;
    }
    assert ms[..1] == [Member("id", Number(id))];
    assert Lookup(ms[..1], "id") == Some(Number(id));
    assert Lookup(ms, "refreshToken") == Some(String(refreshToken));
    Object(ms)
  }

  /** Decoding gives back every value that was encoded. */
  lemma DecodeEncode(v: Value)
    ensures Decode(Encode(v)) == Some(v)
  {
    var bytes := Utf8.Encode(Stringify(v));
    Base64.DecodeEncode(bytes);
    Utf8.DecodeEncode(Stringify(v));
    ParseStringify(v);
  }

  /** Decoding an envelope gives back the id and the refresh token it was built from. */
  lemma DecodeEnvelope(id: int, refreshToken: string)
    ensures var decoded := Decode(Encode(Envelope(id, refreshToken)));
            Property(decoded, "id") == Some(Number(id)) &&
            Property(decoded, "refreshToken") == Some(String(refreshToken))
  {
    DecodeEncode(Envelope(id, refreshToken));
  }

  /** Text that is not JSON decodes to None, however well-formed its Base64 and UTF-8 are. */
  lemma DecodeNotJson(text: string)
    requires Parse(text).None?
    ensures Decode(Base64.Encode(Utf8.Encode(text))) == None
  {
    Base64.DecodeEncode(Utf8.Encode(text));
    Utf8.DecodeEncode(text);
  }

  /** A string the decoder accepts is the Base64 of the UTF-8 of a JSON text. */
  lemma DecodeAccepts(encoded: string)
    requires Decode(encoded).Some?
    ensures exists text :: encoded == Base64.Encode(Utf8.Encode(text)) && Parse(text) == Decode(encoded)
  {
    var bytes := Base64.Decode(encoded).value;
    var text := Utf8.Decode(bytes).value;
    Base64.EncodeDecode(encoded);
    Utf8.EncodeDecode(bytes);
  }

  /** The encoding is never the JSON text itself: it is always longer. */
  lemma EncodeLonger(v: Value)
    ensures |Encode(v)| > |Stringify(v)|
    ensures Encode(v) != Stringify(v)
  {
    StringifyStart(v);
    var n := |Utf8.Encode(Stringify(v))|;
    assert n >= 1;
    assert 4 * ((n + 2) / 3) > n;
  }

  /** A string whose length is not a multiple of four is not an encoding. */
  lemma DecodeBadLength(encoded: string)
    requires |encoded| % 4 != 0
    ensures Decode(encoded) == None
  {
    Base64.DecodeLength(encoded);
  }

  /** The malformed string of the decoder's own example decodes to None. */
  lemma DecodeMalformedExample()
    ensures Decode("invalid_base64_string") == None
  {
    DecodeBadLength("invalid_base64_string");
  }
}
