/**
 * The cryptography the host tool calls, left uninterpreted: SHA-256, curve membership, scalar
 * validity, signing and verification are parameters, tied together only by `Lawful`.
 */
module Crypto {
  import opened Bytes
  import opened Layout
  import opened Results

  type Coordinate = c: Octets | |c| == 32 witness Zeros(32)

  /** An affine P-256 point. */
  datatype VerifyingKey = VerifyingKey(x: Coordinate, y: Coordinate)

  /** A P-256 private scalar. */
  type SigningKey = nat

  datatype Primitives = Primitives(
    sha256: Octets -> Digest,
    onCurve: VerifyingKey -> bool,
    validScalars: SignatureOctets -> bool,
    publicKey: SigningKey -> VerifyingKey,
    sign: (SigningKey, Octets) -> SignatureOctets,
    verify: (VerifyingKey, Octets, SignatureOctets) -> bool)
  {
    /** Key pairs lie on the curve, and a signature verifies under the key that made it. */
    ghost predicate Lawful() {
      forall key: SigningKey, message: Octets {:trigger sign(key, message)} ::
        && onCurve(publicKey(key))
        && validScalars(sign(key, message))
        && verify(publicKey(key), message, sign(key, message))
    }

    /** Section 2.3.3 of SEC 1 v2.0, without point compression. */
    static function ToEncodedPoint(key: VerifyingKey): PublicKeyOctets {
      [0x04] + key.x + key.y
    }

    /** Section 2.3.4 of SEC 1 v2.0, for 65 octets: only the uncompressed form has that length. */
    function FromSec1Bytes(encoded: PublicKeyOctets): Result<VerifyingKey> {
      var key := VerifyingKey(encoded[1..33], encoded[33..65]);
      if encoded[0] == 0x04 && onCurve(key) then Ok(key) else Err
    }

    /** The first eight octets of the digest of the uncompressed key. */
    function DeriveKeyId(key: VerifyingKey): KeyId {
      sha256(ToEncodedPoint(key))[..8]
    }

    /** The embedded key is a point and its derived ID is `keyId`. */
    predicate KeyBound(encoded: PublicKeyOctets, keyId: KeyId) {
      FromSec1Bytes(encoded).Ok? && sha256(encoded)[..8] == keyId
    }
  }

  /** Decoding 65 octets and encoding the point again gives the same octets. */
  lemma ReencodedPoint(p: Primitives, encoded: PublicKeyOctets)
    ensures p.FromSec1Bytes(encoded).Ok? ==>
              encoded[0] == 0x04 && Primitives.ToEncodedPoint(p.FromSec1Bytes(encoded).value) == encoded
  {
    assert encoded == [encoded[0]] + encoded[1..33] + encoded[33..65];
  }

  /** A point on the curve survives encoding and decoding. */
  lemma DecodedPoint(p: Primitives, key: VerifyingKey)
    ensures p.onCurve(key) ==> p.FromSec1Bytes(Primitives.ToEncodedPoint(key)) == Ok(key)
  {
    var encoded := Primitives.ToEncodedPoint(key);
    assert encoded[1..33] == key.x && encoded[33..65] == key.y;
  }

  /** The laws ask for nothing contradictory. */
  lemma LawIsSatisfiable()
    ensures exists p: Primitives :: p.Lawful()
  {
    var p := Primitives(_ => Zeros(32), _ => true, _ => true, _ => VerifyingKey(Zeros(32), Zeros(32)),
                        (_, _) => Zeros(64), (_, _, _) => true);
    assert p.Lawful();
  }
}
