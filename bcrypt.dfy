/**
 * `hashValue` and `compareValue`, the two bcrypt calls the services make.
 *
 * bcrypt itself is not modelled. In its place stands a deterministic hash
 * with the two traits the services rely on: comparing a value with its own
 * hash succeeds, and bcrypt reads only the first 72 bytes of the UTF-8
 * encoding of its input. A hash carries the `$2b$` version and the cost
 * of 12 rounds in front, as bcrypt's output does.
 */
module Bcrypt {

  import opened Bytes
  import Base64
  import Utf8

  const SaltRounds := 12
  /** The version and cost at the head of every hash. */
  const Prefix := "$2b$12$"
  /** bcrypt ignores every byte after the 72nd. */
  const MaxBytes := 72

  /** The part of a value that bcrypt reads. */
  function Significant(value: string): (b: seq<byte>)
    ensures |b| == if |Utf8.Encode(value)| <= MaxBytes then |Utf8.Encode(value)| else MaxBytes
    ensures b == Utf8.Encode(value)[..|b|]
  {
    var bytes := Utf8.Encode(value);
    if |bytes| <= MaxBytes then bytes else bytes[..MaxBytes]
  }

  /** `hashValue`: the stored form of a value. */
  function HashValue(value: string): (h: string)
    ensures |h| >= |Prefix| && h[..|Prefix|] == Prefix
  {
    Prefix + Base64.Encode(Significant(value))
  }

  /** `compareValue`: whether a value matches a stored hash. */
  predicate CompareValue(value: string, hashed: string)
  {
    hashed == HashValue(value)
  }

  /** A value matches its own hash. */
  lemma CompareOwnHash(value: string)
    ensures CompareValue(value, HashValue(value))
  {
  }

  /** A value matches the hash of another exactly when bcrypt reads the same bytes from both. */
  lemma CompareIff(value: string, other: string)
    ensures CompareValue(value, HashValue(other)) <==> Significant(value) == Significant(other)
  {
    if CompareValue(value, HashValue(other)) {
      var a, b := Base64.Encode(Significant(other)), Base64.Encode(Significant(value));
      assert (Prefix + a)[|Prefix|..] == a;
      assert (Prefix + b)[|Prefix|..] == b;
      Base64.EncodeInjective(Significant(other), Significant(value));
    }
  }

  /** Values whose UTF-8 encodings are equal and at most 72 bytes long match only their own hashes. */
  lemma CompareShort(value: string, other: string)
    requires |Utf8.Encode(value)| <= MaxBytes && |Utf8.Encode(other)| <= MaxBytes
    ensures CompareValue(value, HashValue(other)) <==> value == other
  {
    CompareIff(value, other);
    if Significant(value) == Significant(other) {
      Utf8.EncodeInjective(value, other);
    }
  }

  /** Two values that agree on their first 72 bytes match each other's hashes. */
  lemma CompareLong(value: string, other: string)
    requires |Utf8.Encode(value)| >= MaxBytes && |Utf8.Encode(other)| >= MaxBytes
    requires Utf8.Encode(value)[..MaxBytes] == Utf8.Encode(other)[..MaxBytes]
    ensures CompareValue(value, HashValue(other))
  {
    assert Significant(value) == Significant(other);
  }

  /** A string without the hash prefix, such as a password stored as typed, matches no value. */
  lemma CompareUnhashed(value: string, stored: string)
    requires |stored| < |Prefix| || stored[..|Prefix|] != Prefix
    ensures !CompareValue(value, stored)
  {
  }
}
