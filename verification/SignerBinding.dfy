/** What ties the key embedded in an image to the trusted key its ID names: parsing and authorization together. */
module SignerBinding {
  import opened Bytes
  import opened Layout
  import opened Status
  import opened Utf8
  import opened Crypto
  import opened CCrypto
  import opened Trust
  import opened TrustTheorems
  import opened CodecTheorems
  import C = CImage
  import R = Results
  import Rust = RustParser
  import RustEncoder

  // ---------------------------------------------------------------------------
  // What the device leaves free
  // ---------------------------------------------------------------------------

  /** The section with another signature and other key coordinates. */
  function SectionWith(s: Octets, signature: SignatureOctets, publicKey: PublicKeyOctets): (t: Octets)
    requires |s| == SIGNATURE_SECTION_SIZE
    ensures |t| == SIGNATURE_SECTION_SIZE
  {
    s[..48] + signature + publicKey + s[177..]
  }

  lemma SectionWithLayout(s: Octets, signedSize: nat, r: SignatureRecord, signature: SignatureOctets,
                          publicKey: PublicKeyOctets)
    requires SignatureLayout(s, signedSize, r)
    ensures SignatureLayout(SectionWith(s, signature, publicKey), signedSize,
                            r.(signature := signature, publicKey := publicKey))
  {
    hide U16At, U32At;
    var t := SectionWith(s, signature, publicKey);
    SameOctetsReadSame(s, t, 0, 48, 0);
    assert t[0..8] == s[0..8] && t[32..40] == s[32..40];
    assert t[48..112] == signature && t[112..177] == publicKey;
    assert forall k :: 177 <= k < SIGNATURE_SECTION_SIZE ==> t[k] == s[k];
  }

  /** The image with another signature and other key coordinates. */
  function WithSignature(b: Octets, signature: SignatureOctets, key: VerifyingKey): Octets
    requires HoldsImage(b)
  {
    b[..|b| - SIGNATURE_SECTION_SIZE]
    + SectionWith(SignatureSectionOf(b), signature, Primitives.ToEncodedPoint(key))
  }

  /** The device accepts an image under any signature and any key coordinates if it accepts it under some. */
  lemma DeviceLeavesKeyFree(b: Octets, signature: SignatureOctets, key: VerifyingKey)
    requires ImageAccepted(b)
    ensures var c := WithSignature(b, signature, key);
            && ImageAccepted(c)
            && SignedRegionOf(c) == SignedRegionOf(b)
            && ImageOf(c) == ImageOf(b).(record := SignatureRecord(
                                           ImageOf(b).record.keyId, signature, Primitives.ToEncodedPoint(key)))
  {
    hide U16At, U32At, HeaderPreamble, SectionFields, ManifestLayout, SignatureLayout, ManifestSize, SectionWith;
    var i := ImageOf(b);
    var c := WithSignature(b, signature, key);
    AcceptedSizes(b);
    var manifestSize := ManifestSize(|i.manifest.artifactId|);
    var payloadOffset := IMAGE_HEADER_SIZE + manifestSize;
    var signatureOffset := payloadOffset + |i.payload|;
    SectionWithLayout(SignatureSectionOf(b), manifestSize + |i.payload|, i.record, signature,
                      Primitives.ToEncodedPoint(key));
    assert c[..IMAGE_HEADER_SIZE] == b[..IMAGE_HEADER_SIZE];
    RustEncoder.SectionTableCarriesOver(b, c, manifestSize, |i.payload|, SIGNATURE_SECTION_SIZE);
    assert c[IMAGE_HEADER_SIZE..payloadOffset] == b[IMAGE_HEADER_SIZE..payloadOffset];
    assert c[payloadOffset..signatureOffset] == b[payloadOffset..signatureOffset];
    var j := i.(record := SignatureRecord(i.record.keyId, signature, Primitives.ToEncodedPoint(key)));
    ImageLayoutReadsBack(c, j);
  }

  /** The images the device accepts over one signed region are one of them, under every signature and key. */
  lemma SameRegionExactly(a: Octets, b: Octets)
    requires ImageAccepted(a)
    ensures ImageAccepted(b) && SignedRegionOf(b) == SignedRegionOf(a)
            <==> exists signature, key :: b == WithSignature(a, signature, key)
  {
    hide ImageLayout, ManifestOf, WithSignature;
    forall signature, key | b == WithSignature(a, signature, key) {
      DeviceLeavesKeyFree(a, signature, key);
    }
    if ImageAccepted(b) && SignedRegionOf(b) == SignedRegionOf(a) {
      SignedRegionDetermines(a, b);
      var signature, encoded := ImageOf(b).record.signature, ImageOf(b).record.publicKey;
      var key := VerifyingKey(encoded[1..33], encoded[33..65]);
      assert Primitives.ToEncodedPoint(key) == encoded;
      DeviceLeavesKeyFree(a, signature, key);
      ReadingIsInjective(b, WithSignature(a, signature, key));
    }
  }

  // ---------------------------------------------------------------------------
  // What authorization adds
  // ---------------------------------------------------------------------------

  /** A request for the key ID an image names succeeds against a store of keys under the host's own hash. */
  ghost predicate Authorized(p: Primitives, b: Octets, recs: seq<TrustRecord>, hasher: Hasher, log: seq<Octets>,
                             request: TrustRequest)
  {
    && ImageAccepted(b)
    && WellFormedRequest(request)
    && request.keyId.value == ImageOf(b).record.keyId
    && Hashes(hasher, p.sha256)
    && AuthorizeStatus(recs, hasher, log, request) == OK
  }

  /**
   * For an image whose key ID is authorized, the host's comparison of the embedded key with that ID
   * is a comparison with the one trusted key: their digests share the first eight octets.
   */
  lemma AuthorizedBinding(p: Primitives, b: Octets, recs: seq<TrustRecord>, hasher: Hasher, log: seq<Octets>,
                          request: TrustRequest)
    requires Authorized(p, b, recs, hasher, log, request)
    ensures exists r :: r in recs && r.keyId == ImageOf(b).record.keyId
    ensures forall r :: r in recs && r.keyId == ImageOf(b).record.keyId ==>
              var embedded := ImageOf(b).record.publicKey;
              && (p.sha256(embedded)[..8] == ImageOf(b).record.keyId
                  <==> p.sha256(embedded)[..8] == p.sha256(r.publicKey)[..8])
              && (Rust.HostAccepted(p, b) <==>
                  && ValidUtf8(ImageOf(b).manifest.artifactId)
                  && p.FromSec1Bytes(embedded).Ok?
                  && p.sha256(embedded)[..8] == p.sha256(r.publicKey)[..8])
  {
    hide ImageAccepted, StoreStatus, ValidRecordShape, RoleSet;
    AuthorizedExactly(recs, hasher, log, request);
    ValidForHash(recs, hasher, p.sha256, log);
    assert recs[Lookup(recs, request.keyId.value).value] in recs;
    assert forall r :: r in recs ==> Sound(r, p.sha256);
  }

  /**
   * Parsing and authorization together still force nothing about the embedded key: whatever point
   * stands in its place, the device accepts the image and authorizes its ID, and the host alone
   * turns it down, unless its digest happens to start with that ID.
   */
  lemma AuthorizationLeavesKeyFree(p: Primitives, b: Octets, recs: seq<TrustRecord>, hasher: Hasher, log: seq<Octets>,
                                   request: TrustRequest, signature: SignatureOctets, key: VerifyingKey, sizeMax: nat)
    requires Authorized(p, b, recs, hasher, log, request)
    ensures var c := WithSignature(b, signature, key);
            && C.ImageStatus(c, sizeMax) == OK
            && ImageOf(c).record.publicKey == Primitives.ToEncodedPoint(key)
            && Authorized(p, c, recs, hasher, log, request)
            && (p.DeriveKeyId(key) != request.keyId.value ==> Rust.ParseImage(p, c).Err?)
  {
    hide ImageLayout, WellFormed, Rust.ParseImage, AuthorizeStatus;
    DeviceLeavesKeyFree(b, signature, key);
    Rust.ParseImageExact(p, WithSignature(b, signature, key));
  }
}
