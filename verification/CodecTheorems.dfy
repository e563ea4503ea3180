/** What the format, its two parsers and its encoder guarantee together. */
module CodecTheorems {
  import opened Bytes
  import opened Layout
  import opened Status
  import opened Utf8
  import opened Crypto
  import C = CImage
  import M = CManifest
  import R = Results
  import Rust = RustParser
  import RustEncoder
  import S = RustSigner
  import T = TextForms

  // ---------------------------------------------------------------------------
  // Canonicity
  // ---------------------------------------------------------------------------

  /** The accepted images are exactly the layouts of well-formed values. */
  lemma AcceptedIffLayout(b: Octets)
    ensures ImageAccepted(b) <==> exists i :: WellFormed(i) && ImageLayout(b, i)
  {
    hide ImageLayout;
    if i :| WellFormed(i) && ImageLayout(b, i) {
      ImageLayoutReadsBack(b, i);
    }
  }

  /** The accepted manifest sections are exactly the layouts of admissible manifests. */
  lemma AcceptedManifestIffLayout(b: Octets)
    ensures ManifestAccepted(b) <==> exists m :: Admissible(m) && ManifestLayout(b, m)
  {
    hide ManifestLayout;
    if m :| Admissible(m) && ManifestLayout(b, m) {
      ManifestLayoutReadsBack(b, m);
    }
  }

  /** Reading is injective: accepted images that carry the same values are the same octets. */
  lemma ReadingIsInjective(a: Octets, b: Octets)
    requires ImageAccepted(a) && ImageAccepted(b) && ImageOf(a) == ImageOf(b)
    ensures a == b
  {
    hide ImageLayout;
    ImageLayoutIsUnique(a, b, ImageOf(a));
  }

  /** Parsing on the host, then encoding what was parsed with the payload it points at, rebuilds the image. */
  method Reencode(p: Primitives, b: Octets) returns (again: R.Result<Octets>)
    ensures again == if Rust.HostAccepted(p, b) then R.Ok(b) else R.Err
  {
    hide ImageLayout, ManifestSize, Rust.ParseImage;
    Rust.ParseImageExact(p, b);
    AcceptedSizes(b);
    var parsed :- Rust.ParseImage(p, b);
    var i := Image(parsed.manifest, b[parsed.payloadRange.start..parsed.payloadRange.end], parsed.signature);
    again := S.EncodeAll(i);
    ImageLayoutIsUnique(again.value, b, i);
  }

  // ---------------------------------------------------------------------------
  // Agreement of the two parsers
  // ---------------------------------------------------------------------------

  /** The octets a C view borrows. */
  predicate Borrows(b: Octets, pointer: M.Pointer, len: nat, octets: Octets) {
    pointer.At? && pointer.offset + len <= |b| && b[pointer.offset..pointer.offset + len] == octets
  }

  /** The device's manifest view and the host's manifest say the same. */
  predicate ManifestsAgree(b: Octets, v: M.ManifestView, m: Manifest) {
    && v.formatVersion == v.digestAlgorithm == v.signatureAlgorithm == 1
    && Borrows(b, v.artifactId, v.artifactIdLen, m.artifactId)
    && Borrows(b, v.payloadDigest, v.payloadDigestLen, m.payloadDigest)
    && Borrows(b, v.keyId, v.keyIdLen, m.keyId)
    && (v.target, v.revisionMin, v.revisionMax, v.securityEpoch, v.versionMajor, v.versionMinor, v.versionPatch)
       == (m.target, m.revisionMin, m.revisionMax, m.securityEpoch, m.versionMajor, m.versionMinor, m.versionPatch)
    && (v.payloadSize, v.requiredRole, v.signatureThreshold, v.signatureCount)
       == (m.payloadSize, m.requiredRole, m.signatureThreshold, m.signatureCount)
    && (v.trialMaxAttempts, v.trialProbationMs, v.rollbackPolicy)
       == (m.trialMaxAttempts, m.trialProbationMs, m.rollbackPolicy)
    && (v.requirementCount, v.dependencyCount, v.healthRequiredCount)
       == (m.requirementCount, m.dependencyCount, m.healthRequiredCount)
  }

  predicate SignaturesAgree(b: Octets, v: C.SignatureView, r: SignatureRecord) {
    && v.signatureAlgorithm == 1
    && Borrows(b, v.keyId, v.keyIdLen, r.keyId)
    && Borrows(b, v.signature, v.signatureLen, r.signature)
    && Borrows(b, v.publicKey, v.publicKeyLen, r.publicKey)
  }

  function RangeFrom(offset: nat, size: nat): Rust.Range {
    Rust.Range(offset, offset + size)
  }

  /** The device's image view and the host's parsed image say the same. */
  predicate ImagesAgree(b: Octets, v: C.ImageView, r: Rust.ParsedImage) {
    && v.bytes == M.At(0) && v.len == |b|
    && r.manifestRange == RangeFrom(v.manifestOffset, v.manifestSize)
    && r.payloadRange == RangeFrom(v.payloadOffset, v.payloadSize)
    && r.signatureRange == RangeFrom(v.signatureOffset, v.signatureSize)
    && r.signedRegionRange == RangeFrom(v.signedRegionOffset, v.signedRegionSize)
    && ManifestsAgree(b, v.manifest, r.manifest)
    && SignaturesAgree(b, v.signature, r.signature)
  }

  lemma ViewsBorrow(b: Octets, i: Image)
    requires ImageLayout(b, i)
    ensures ManifestsAgree(b, C.ViewOfImage(i, |b|).manifest, i.manifest)
    ensures SignaturesAgree(b, C.ViewOfImage(i, |b|).signature, i.record)
  {
    hide U16At, U32At, HeaderPreamble, SectionFields, ManifestSize;
    var manifestSize := ManifestSize(|i.manifest.artifactId|);
    var payloadOffset := IMAGE_HEADER_SIZE + manifestSize;
    var signatureOffset := payloadOffset + |i.payload|;
    SliceOfSlice(b, IMAGE_HEADER_SIZE, payloadOffset, 128, 128 + |i.manifest.artifactId|);
    SliceOfSlice(b, IMAGE_HEADER_SIZE, payloadOffset, 56, 88);
    SliceOfSlice(b, IMAGE_HEADER_SIZE, payloadOffset, 96, 104);
    assert b[signatureOffset..] == b[signatureOffset..|b|];
    SliceOfSlice(b, signatureOffset, |b|, 32, 40);
    SliceOfSlice(b, signatureOffset, |b|, 48, 112);
    SliceOfSlice(b, signatureOffset, |b|, 112, 177);
  }

  /**
   * The host accepts exactly the images the device accepts whose artifact ID is UTF-8 and whose key
   * is a curve point hashing to the key ID, and then the two agree on every field, range and view.
   */
  lemma ParserAgreement(p: Primitives, b: Octets, sizeMax: nat)
    requires |b| <= sizeMax && 0xFFFF_FFFF <= sizeMax
    ensures Rust.ParseImage(p, b).Ok? <==>
            && C.ImageStatus(b, sizeMax) == OK
            && ValidUtf8(ImageOf(b).manifest.artifactId)
            && p.KeyBound(ImageOf(b).record.publicKey, ImageOf(b).record.keyId)
    ensures Rust.ParseImage(p, b).Ok? ==>
              ImagesAgree(b, C.ViewOfImage(ImageOf(b), |b|), Rust.ParseImage(p, b).value)
  {
    hide ImageLayout, WellFormed, Rust.ParseImage, C.TableOverflows, ManifestsAgree, SignaturesAgree, ManifestSize;
    Rust.ParseImageExact(p, b);
    if ImageAccepted(b) {
      AcceptedSizes(b);
      ViewsBorrow(b, ImageOf(b));
    }
  }

  // ---------------------------------------------------------------------------
  // What the signature covers
  // ---------------------------------------------------------------------------

  lemma SignatureSectionsDiffer(a: Octets, b: Octets, signedSize: nat, r: SignatureRecord, s: SignatureRecord)
    requires r.keyId == s.keyId && r.publicKey[0] == s.publicKey[0]
    ensures SignatureLayout(a, signedSize, r) && SignatureLayout(b, signedSize, s) ==>
              forall k {:trigger a[k]} :: 0 <= k < SIGNATURE_SECTION_SIZE && a[k] != b[k]
                ==> 48 <= k < 112 || 113 <= k < 177
  {
    if SignatureLayout(a, signedSize, r) && SignatureLayout(b, signedSize, s) {
      SameReads(a, b);
      SameSlices(a, b, 0, 8);
      SameSlices(a, b, 32, 40);
      assert a[112] == a[112..177][0] && b[112] == b[112..177][0];
    }
  }

  /** The manifest section's own size field says where, in a signed region, the payload starts. */
  lemma SplitFromSignedRegion(b: Octets)
    requires ImageAccepted(b)
    ensures HoldsImage(b) && |SignedRegionOf(b)| >= MANIFEST_HEADER_SIZE
    ensures U32At(SignedRegionOf(b), 12) == U32At(b, 20)
    ensures |SignedRegionOf(b)| == U32At(b, 20) + U32At(b, 28)
    ensures ManifestSectionOf(b) == SignedRegionOf(b)[..U32At(b, 20)]
    ensures PayloadOf(b) == SignedRegionOf(b)[U32At(b, 20)..]
  {
    hide HeaderPreamble, SignatureLayout, TargetFields, ReleaseFields, SigningFields, PolicyFields, TailFields;
    AcceptedSizes(b);
    var region := SignedRegionOf(b);
    assert ManifestSectionOf(b) == region[0..U32At(b, 20)];
    SliceReads(region, 0, U32At(b, 20), 12);
  }

  /**
   * Two images the device accepts over the same signed region have the same length, header, manifest
   * and payload, and can differ only in the signature and in the key after its 0x04 prefix.
   */
  lemma SignedRegionDetermines(a: Octets, b: Octets)
    requires ImageAccepted(a) && ImageAccepted(b)
    requires SignedRegionOf(a) == SignedRegionOf(b)
    ensures |a| == |b| && a[..IMAGE_HEADER_SIZE] == b[..IMAGE_HEADER_SIZE]
    ensures ImageOf(a).manifest == ImageOf(b).manifest && ImageOf(a).payload == ImageOf(b).payload
    ensures var signatureOffset := |a| - SIGNATURE_SECTION_SIZE;
            forall k :: 0 <= k < |a| && a[k] != b[k]
              ==> signatureOffset + 48 <= k < signatureOffset + 112
                  || signatureOffset + 113 <= k < signatureOffset + 177
  {
    hide HeaderPreamble, SectionFields, ManifestLayout, SignatureLayout, ManifestOf, RecordOf,
         ManifestSize, HoldsManifest;
    SplitFromSignedRegion(a);
    SplitFromSignedRegion(b);
    AcceptedSizes(a);
    AcceptedSizes(b);
    HeaderIsUnique(a, b, U32At(a, 20), U32At(a, 28), SIGNATURE_SECTION_SIZE);
    SignatureSectionsDiffer(SignatureSectionOf(a), SignatureSectionOf(b), U32At(a, 20) + U32At(a, 28),
                            ImageOf(a).record, ImageOf(b).record);
    DifferencesLie(a, b);
  }

  lemma DifferencesLie(a: Octets, b: Octets)
    requires |a| == |b| >= IMAGE_HEADER_SIZE + SIGNATURE_SECTION_SIZE
    requires a[..IMAGE_HEADER_SIZE] == b[..IMAGE_HEADER_SIZE] && SignedRegionOf(a) == SignedRegionOf(b)
    requires var s, t := SignatureSectionOf(a), SignatureSectionOf(b);
             forall k {:trigger s[k]} :: 0 <= k < SIGNATURE_SECTION_SIZE && s[k] != t[k]
               ==> 48 <= k < 112 || 113 <= k < 177
    ensures var signatureOffset := |a| - SIGNATURE_SECTION_SIZE;
            forall k :: 0 <= k < |a| && a[k] != b[k]
              ==> signatureOffset + 48 <= k < signatureOffset + 112
                  || signatureOffset + 113 <= k < signatureOffset + 177
  {
    var signatureOffset := |a| - SIGNATURE_SECTION_SIZE;
    SameSlices(a, b, 0, IMAGE_HEADER_SIZE);
    SameSlices(a, b, IMAGE_HEADER_SIZE, signatureOffset);
    var s, t := SignatureSectionOf(a), SignatureSectionOf(b);
    assert forall k :: signatureOffset <= k < |a| ==> a[k] == s[k - signatureOffset] && b[k] == t[k - signatureOffset];
  }

  // ---------------------------------------------------------------------------
  // Prefix-freeness
  // ---------------------------------------------------------------------------

  /** No proper prefix, hence no proper extension, of an accepted image is accepted. */
  lemma ImagesArePrefixFree(a: Octets, b: Octets)
    requires ImageAccepted(a) && ImageAccepted(b) && a <= b
    ensures a == b
  {
    hide U16At, U32At;
    AcceptedSizes(a);
    AcceptedSizes(b);
    SliceReads(b, 0, |a|, 20);
    SliceReads(b, 0, |a|, 28);
    assert a == b[0..|a|];
  }

  lemma ManifestsArePrefixFree(a: Octets, b: Octets)
    requires ManifestAccepted(a) && ManifestAccepted(b) && a <= b
    ensures a == b
  {
    hide TargetFields, ReleaseFields, SigningFields, PolicyFields, TailFields;
    SliceReads(b, 0, |a|, 12);
    assert a == b[0..|a|];
  }

  // ---------------------------------------------------------------------------
  // Memory and layout of the device's view
  // ---------------------------------------------------------------------------

  predicate PointsInto(pointer: M.Pointer, len: nat, offset: nat, size: nat) {
    pointer.At? && offset <= pointer.offset && pointer.offset + len <= offset + size
  }

  /** On acceptance the four sections tile the buffer and every borrowed view lies in its own section. */
  lemma ViewTiles(b: Octets)
    requires ImageAccepted(b)
    ensures var v := C.ViewOfImage(ImageOf(b), |b|);
            && v.manifestOffset == IMAGE_HEADER_SIZE
            && v.manifestOffset + v.manifestSize == v.payloadOffset
            && v.payloadOffset + v.payloadSize == v.signatureOffset
            && v.signatureOffset + v.signatureSize == |b|
            && v.signedRegionOffset == v.manifestOffset
            && v.signedRegionOffset + v.signedRegionSize == v.signatureOffset
            && PointsInto(v.manifest.artifactId, v.manifest.artifactIdLen, v.manifestOffset, v.manifestSize)
            && PointsInto(v.manifest.payloadDigest, v.manifest.payloadDigestLen, v.manifestOffset, v.manifestSize)
            && PointsInto(v.manifest.keyId, v.manifest.keyIdLen, v.manifestOffset, v.manifestSize)
            && PointsInto(v.signature.keyId, v.signature.keyIdLen, v.signatureOffset, v.signatureSize)
            && PointsInto(v.signature.signature, v.signature.signatureLen, v.signatureOffset, v.signatureSize)
            && PointsInto(v.signature.publicKey, v.signature.publicKeyLen, v.signatureOffset, v.signatureSize)
  {
    hide ImageAccepted, HoldsImage, ManifestOf, RecordOf;
    AcceptedSizes(b);
  }

  // ---------------------------------------------------------------------------
  // Width of size_t
  // ---------------------------------------------------------------------------

  /** Some sum of two 32-bit header fields exceeds `sizeMax`. */
  predicate FieldSumExceeds(b: Octets, sizeMax: nat) {
    |b| >= IMAGE_HEADER_SIZE
    && exists o, q :: o in {16, 24, 32} && q in {20, 28, 36} && U32At(b, o) + U32At(b, q) > sizeMax
  }

  /**
   * Acceptance does not depend on the width, BOUNDS never comes back, OVERFLOW needs a sum of two
   * fields beyond the width, and a wider size_t changes only OVERFLOW, and only into a format error.
   */
  lemma WidthIndependence(b: Octets, narrow: nat, wide: nat)
    requires 0xFFFF_FFFF <= narrow <= wide && |b| <= narrow
    ensures C.ImageStatus(b, narrow) == OK <==> C.ImageStatus(b, wide) == OK
    ensures C.ImageStatus(b, narrow) in {OK, ERR_OVERFLOW, ERR_IMAGE_FORMAT, ERR_MANIFEST_FORMAT}
    ensures C.ImageStatus(b, narrow) == ERR_OVERFLOW ==> FieldSumExceeds(b, narrow)
    ensures C.ImageStatus(b, narrow) != C.ImageStatus(b, wide) ==>
              C.ImageStatus(b, narrow) == ERR_OVERFLOW && C.ImageStatus(b, wide) == ERR_IMAGE_FORMAT
    ensures 2 * 0xFFFF_FFFF <= wide ==> C.ImageStatus(b, wide) != ERR_OVERFLOW
  {
    hide ImageAccepted, ManifestAccepted, HeaderPreamble, ManifestSectionOf;
    C.ConsistentBounds(b, narrow);
    if C.ImageStatus(b, narrow) == ERR_OVERFLOW {
      assert U32At(b, 16) + U32At(b, 20) > narrow
             || U32At(b, 24) + U32At(b, 28) > narrow
             || U32At(b, 32) + U32At(b, 36) > narrow;
    }
  }

  // ---------------------------------------------------------------------------
  // Payload substitution
  // ---------------------------------------------------------------------------

  function WithPayload(b: Octets, payload: Octets): Octets
    requires HoldsImage(b)
  {
    b[..IMAGE_HEADER_SIZE + U32At(b, 20)] + payload + SignatureSectionOf(b)
  }

  /** The header and sections do not see the payload's octets, only its length. */
  lemma SubstitutedLayout(b: Octets, i: Image, payload: Octets)
    requires ImageLayout(b, i) && HoldsImage(b) && |payload| == |i.payload|
    ensures ImageLayout(WithPayload(b, payload), i.(payload := payload))
  {
    hide U16At, U32At, HeaderPreamble, SectionFields, ManifestLayout, SignatureLayout, ManifestSize;
    ImageLayoutReadsBack(b, i);
    var c := WithPayload(b, payload);
    var manifestSize := ManifestSize(|i.manifest.artifactId|);
    HeaderSize(b, i);
    assert c[..IMAGE_HEADER_SIZE] == b[..IMAGE_HEADER_SIZE];
    RustEncoder.SectionTableCarriesOver(b, c, manifestSize, |payload|, SIGNATURE_SECTION_SIZE);
    var payloadOffset := IMAGE_HEADER_SIZE + manifestSize;
    assert c[IMAGE_HEADER_SIZE..payloadOffset] == b[IMAGE_HEADER_SIZE..payloadOffset];
    assert c[payloadOffset + |payload|..] == SignatureSectionOf(b);
  }

  lemma HeaderSize(b: Octets, i: Image)
    ensures ImageLayout(b, i) ==>
              U32At(b, 20) == ManifestSize(|i.manifest.artifactId|)
              && SignatureSectionOf(b) == b[IMAGE_HEADER_SIZE + U32At(b, 20) + |i.payload|..]
  {
    hide HeaderPreamble, ManifestLayout, SignatureLayout, ManifestSize;
  }

  /**
   * An image with another payload of the same length parses to the same result, so if both verify
   * as valid the payloads are equal or collide under the hash.
   */
  lemma PayloadSubstitution(p: Primitives, b: Octets, payload: Octets, device: R.Option<Target>, minimum: U32)
    requires Rust.HostAccepted(p, b) && |payload| == |PayloadOf(b)|
    ensures Rust.ParseImage(p, WithPayload(b, payload)) == Rust.ParseImage(p, b)
    ensures var first := Rust.VerifyImage(p, b, device, minimum);
            var second := Rust.VerifyImage(p, WithPayload(b, payload), device, minimum);
            first.Ok? && first.value.IsValid() && second.Ok? && second.value.IsValid()
            ==> p.sha256(payload) == p.sha256(PayloadOf(b))
  {
    hide ImageLayout, Rust.ParseImage, Rust.VerifyImage, U32At, ManifestOf, RecordOf;
    Rust.ParseImageExact(p, b);
    var i := ImageOf(b);
    var j := i.(payload := payload);
    var c := WithPayload(b, payload);
    SubstitutedLayout(b, i, payload);
    Rust.LayoutParses(p, c, j);
    Rust.LayoutVerifies(p, b, i, device, minimum);
    Rust.LayoutVerifies(p, c, j, device, minimum);
  }

  // ---------------------------------------------------------------------------
  // Validation after parsing
  // ---------------------------------------------------------------------------

  /** What each status of basic validation says about any view, parsed or not. */
  lemma ValidateBasicExactly(view: R.Option<M.ManifestView>, device: R.Option<Target>, minimumSecurityEpoch: U32)
    ensures var status := M.ValidateBasic(view, device, minimumSecurityEpoch);
            && (status == ERR_INVALID_ARGUMENT <==> view.None? || device.None?)
            && status in {OK, ERR_INVALID_ARGUMENT, ERR_MANIFEST_FORMAT, ERR_TARGET_MISMATCH, ERR_SECURITY_EPOCH}
            && (view.Some? && device.Some? ==>
                  var v := view.value;
                  var supported := v.formatVersion == v.digestAlgorithm == v.signatureAlgorithm == 1;
                  && (status == ERR_TARGET_MISMATCH <==> supported && v.target != device.value)
                  && (status == ERR_SECURITY_EPOCH <==>
                        supported && v.target == device.value && v.securityEpoch < minimumSecurityEpoch)
                  && (status == OK <==>
                        && supported && v.target == device.value && v.securityEpoch >= minimumSecurityEpoch
                        && v.payloadSize > 0 && v.payloadDigest.At? && v.payloadDigestLen == 32))
  {
  }

  /** On a manifest the device parsed, basic validation comes down to target, epoch and a payload. */
  lemma ParsedThenValidated(b: Octets, base: nat, device: Target, minimumSecurityEpoch: U32)
    requires ManifestAccepted(b)
    ensures var m := ManifestOf(b);
            M.ValidateBasic(R.Some(M.ViewOfManifest(m, base)), R.Some(device), minimumSecurityEpoch)
            == if m.target != device then ERR_TARGET_MISMATCH
               else if m.securityEpoch < minimumSecurityEpoch then ERR_SECURITY_EPOCH
               else if m.payloadSize == 0 then ERR_MANIFEST_FORMAT
               else OK
  {
  }

  /** Host policy checks and device basic validation agree on every image with a payload. */
  lemma PolicyAgreement(p: Primitives, b: Octets, device: Target, minimumSecurityEpoch: U32)
    requires Rust.HostAccepted(p, b)
    ensures var report := Rust.VerifyImage(p, b, R.Some(device), minimumSecurityEpoch);
            var view := C.ViewOfImage(ImageOf(b), |b|).manifest;
            report.Ok? ==>
              (M.ValidateBasic(R.Some(view), R.Some(device), minimumSecurityEpoch) == OK
               <==> report.value.targetValid && report.value.securityEpochValid && PayloadOf(b) != [])
  {
    hide ImageLayout, Rust.ParseImage, Rust.VerifyImage, ManifestOf, RecordOf, ManifestSize, ValidUtf8;
    Rust.LayoutVerifies(p, b, ImageOf(b), R.Some(device), minimumSecurityEpoch);
  }

  /**
   * Whatever the signing tool writes, the device's parser accepts, even when an overriding key ID
   * makes the tool's own closing parse fail: the device does not bind the key to its ID here.
   */
  lemma WrittenImageReachesDevice(p: Primitives, key: nat, payload: Octets, m: Manifest, image: Octets, sizeMax: nat)
    requires S.Signable(m, payload)
    requires IMAGE_HEADER_SIZE + SIGNATURE_SECTION_SIZE <= |image| <= sizeMax
    requires ImageLayout(image, S.Signed(p, key, payload, m, SignedRegionOf(image)))
    ensures C.ImageStatus(image, sizeMax) == OK
  {
    hide ImageLayout;
    ImageLayoutReadsBack(image, S.Signed(p, key, payload, m, SignedRegionOf(image)));
  }

  // ---------------------------------------------------------------------------
  // Signing under another key's ID
  // ---------------------------------------------------------------------------

  /** The tool has everything it needs to write an image, but under an ID that is not the key's own. */
  ghost predicate Mismatched(p: Primitives, key: SigningKey, payload: Octets, document: S.ManifestDocument,
                             keyId: KeyId)
  {
    && p.Lawful()
    && keyId != p.DeriveKeyId(p.publicKey(key))
    && 1 <= |payload|
    && IMAGE_HEADER_SIZE + ManifestSize(|document.artifactId|) + |payload| <= R.U32_MAX
    && (document.keyId.Some? ==> T.ParsedKeyId(document.keyId.value) == T.Parsed(keyId))
    && S.IntoManifest(document, |payload|, p.sha256(payload), keyId).Ok?
  }

  /** The tool then writes an image that its own closing parse rejects, and that every device's parser accepts. */
  method SignMismatched(p: Primitives, key: SigningKey, payload: Octets, document: S.ManifestDocument, keyId: KeyId)
    returns (outcome: S.SignOutcome)
    requires Mismatched(p, key, payload, document, keyId)
    ensures outcome.Written? && outcome.closing.Err?
    ensures forall sizeMax :: C.ImageStatus(outcome.image, sizeMax) == OK
  {
    hide S.IntoManifest, ImageLayout, Rust.ParseImage, ManifestSize, T.ParsedKeyId;
    var printed := T.KeyIdHex(keyId);
    AsciiIsUtf8(printed);
    T.KeyIdRoundTrip(keyId);
    outcome := S.SignImage(p, key, payload, document, R.Some(printed));
  }

  /** Every key, payload and foreign ID within the format's limits can be mismatched. */
  lemma MismatchOccurs(p: Primitives, key: SigningKey, payload: Octets, keyId: KeyId)
    requires p.Lawful() && keyId != p.DeriveKeyId(p.publicKey(key))
    requires 1 <= |payload| <= R.U32_MAX - IMAGE_HEADER_SIZE - MANIFEST_HEADER_SIZE - 4
    ensures exists document :: Mismatched(p, key, payload, document, keyId)
  {
    hide T.ParseSemverCore, T.VersionString, S.ParseRole, S.ParseRollbackPolicy, S.RoleName, S.RollbackPolicyName;
    var version := T.VersionString(1, 0, 0);
    S.NamesAreText(1, 0, 0, 1, 0);
    T.VersionRoundTrip(1, 0, 0);
    S.RoleNameRoundTrip(1);
    S.RollbackPolicyNameRoundTrip(0);
    var document := S.ManifestDocument([0x61], Target(0, 0, 0, 0), 0, 0, version, 0, R.Some(S.RoleName(1)),
                                       R.Some(S.RollbackPolicyName(0)), R.None, R.None);
    assert Mismatched(p, key, payload, document, keyId);
  }
}
