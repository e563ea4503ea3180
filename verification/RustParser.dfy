/** The host tool's image parser and verifier. */
module RustParser {
  import opened Bytes
  import opened Layout
  import opened Results
  import opened Utf8
  import opened Crypto

  datatype Range = Range(start: nat, end: nat)

  datatype ParsedImage = ParsedImage(
    manifest: Manifest,
    manifestRange: Range,
    payloadRange: Range,
    signatureRange: Range,
    signedRegionRange: Range,
    signature: SignatureRecord)

  function ReadU16(bytes: Octets, offset: nat): Result<U16> {
    var end :- CheckedAdd(offset, 2);
    if end > |bytes| then Err else Ok(U16At(bytes, offset))
  }

  function ReadU32(bytes: Octets, offset: nat): Result<U32> {
    var end :- CheckedAdd(offset, 4);
    if end > |bytes| then Err else Ok(U32At(bytes, offset))
  }

  /** `Ok` when the condition holds: the shape of every `require_*`. */
  function Require(condition: bool): Result<()> {
    if condition then Ok(()) else Err
  }

  function RequireU16(bytes: Octets, offset: nat, expected: U16): Result<()> {
    var actual :- ReadU16(bytes, offset);
    Require(actual == expected)
  }

  function RequireU32(bytes: Octets, offset: nat, expected: U32): Result<()> {
    var actual :- ReadU32(bytes, offset);
    Require(actual == expected)
  }

  function RequireZeroes(bytes: Octets): Result<()> {
    Require(Zeroed(bytes, 0, |bytes|))
  }

  function CheckedRange(offset: nat, len: nat, totalLen: nat): Result<Range> {
    var end :- CheckedAdd(offset, len);
    if end > totalLen then Err else Ok(Range(offset, end))
  }

  function ParseManifest(bytes: Octets): Result<Manifest> {
    if |bytes| < MANIFEST_HEADER_SIZE then Err else
    var _ :- Require(bytes[0..8] == MANIFEST_MAGIC);
    var _ :- RequireU16(bytes, 8, 1);
    var _ :- RequireU16(bytes, 10, MANIFEST_HEADER_SIZE);
    var manifestSize :- ReadU32(bytes, 12);
    if manifestSize != |bytes| then Err else
    var _ :- RequireU16(bytes, 50, 1);
    var _ :- RequireU16(bytes, 88, 1);
    var artifactIdLen :- ReadU16(bytes, 112);
    if artifactIdLen == 0 || artifactIdLen > ARTIFACT_ID_MAX then Err else
    var artifactIdEnd :- CheckedAdd(MANIFEST_HEADER_SIZE, artifactIdLen);
    var paddingLen := (4 - artifactIdEnd % 4) % 4;
    var canonicalManifestSize :- CheckedAdd(artifactIdEnd, paddingLen);
    if canonicalManifestSize != |bytes| then Err else
    var _ :- RequireZeroes(bytes[120..MANIFEST_HEADER_SIZE]);
    var _ :- RequireZeroes(bytes[artifactIdEnd..]);
    if !ValidUtf8(bytes[MANIFEST_HEADER_SIZE..artifactIdEnd]) then Err else
    ParseManifestFields(bytes, bytes[MANIFEST_HEADER_SIZE..artifactIdEnd])
  }

  /** The second half of `ParseManifest`: the fields proper. */
  function ParseManifestFields(bytes: Octets, artifactId: Octets): Result<Manifest>
    requires |bytes| >= MANIFEST_HEADER_SIZE
  {
    var revisionMin :- ReadU32(bytes, 28);
    var revisionMax :- ReadU32(bytes, 32);
    if revisionMin > revisionMax then Err else
    var role :- ReadU16(bytes, 90);
    if role !in {1, 2, 3, 4, 5, 6} then Err else
    var rollbackPolicy :- ReadU16(bytes, 106);
    if rollbackPolicy !in {0, 1} then Err else
    var threshold :- ReadU16(bytes, 92);
    var count :- ReadU16(bytes, 94);
    if threshold != 1 || count != 1 then Err else
    var requirementCount :- ReadU16(bytes, 114);
    var dependencyCount :- ReadU16(bytes, 116);
    var healthRequiredCount :- ReadU16(bytes, 118);
    if requirementCount != 0 || dependencyCount != 0 || healthRequiredCount != 0 then Err else
    var vendorId :- ReadU32(bytes, 16);
    var productId :- ReadU32(bytes, 20);
    var hardwareFamily :- ReadU32(bytes, 24);
    var componentId :- ReadU32(bytes, 36);
    var securityEpoch :- ReadU32(bytes, 40);
    var versionMajor :- ReadU16(bytes, 44);
    var versionMinor :- ReadU16(bytes, 46);
    var versionPatch :- ReadU16(bytes, 48);
    var payloadSize :- ReadU32(bytes, 52);
    var trialMaxAttempts :- ReadU16(bytes, 104);
    var trialProbationMs :- ReadU32(bytes, 108);
    Ok(Manifest(
         artifactId, Target(vendorId, productId, hardwareFamily, componentId), revisionMin, revisionMax,
         securityEpoch, versionMajor, versionMinor, versionPatch, payloadSize, bytes[56..88], role, threshold,
         count, bytes[96..104], trialMaxAttempts, trialProbationMs, rollbackPolicy, requirementCount,
         dependencyCount, healthRequiredCount))
  }

  function ParseSignatureSection(p: Primitives, bytes: Octets, signedRegionOffset: nat, signedRegionSize: nat,
                                 manifest: Manifest): Result<SignatureRecord>
  {
    if |bytes| != SIGNATURE_SECTION_SIZE then Err else
    var _ :- Require(bytes[0..8] == SIGNATURE_MAGIC);
    var _ :- RequireU16(bytes, 8, 1);
    var _ :- RequireU16(bytes, 10, 32);
    var _ :- RequireU32(bytes, 12, SIGNATURE_SECTION_SIZE);
    var offset32 :- CheckedU32(signedRegionOffset);
    var _ :- RequireU32(bytes, 16, offset32);
    var size32 :- CheckedU32(signedRegionSize);
    var _ :- RequireU32(bytes, 20, size32);
    var _ :- RequireU16(bytes, 24, 1);
    var _ :- RequireU16(bytes, 26, 1);
    var _ :- RequireU16(bytes, 28, 160);
    var _ :- RequireU16(bytes, 30, 0);
    var keyId: KeyId := bytes[32..40];
    if keyId != manifest.keyId then Err else
    var _ :- RequireU16(bytes, 40, 1);
    var _ :- RequireU16(bytes, 42, 1);
    var _ :- RequireU16(bytes, 44, 64);
    var _ :- RequireU16(bytes, 46, 65);
    var signature: SignatureOctets := bytes[48..112];
    var publicKey: PublicKeyOctets := bytes[112..177];
    var _ :- RequireZeroes(bytes[177..SIGNATURE_SECTION_SIZE]);
    var verifyingKey :- p.FromSec1Bytes(publicKey);
    if p.DeriveKeyId(verifyingKey) != keyId then Err else
    Ok(SignatureRecord(keyId, signature, publicKey))
  }

  function ParseImage(p: Primitives, bytes: Octets): Result<ParsedImage> {
    if |bytes| < IMAGE_HEADER_SIZE then Err else
    var _ :- Require(bytes[0..8] == IMAGE_MAGIC);
    var _ :- RequireU16(bytes, 8, 1);
    var _ :- RequireU16(bytes, 10, 1);
    var _ :- RequireU16(bytes, 12, IMAGE_HEADER_SIZE);
    var _ :- RequireU16(bytes, 14, 0);
    var manifestOffset :- ReadU32(bytes, 16);
    var manifestSize :- ReadU32(bytes, 20);
    var payloadOffset :- ReadU32(bytes, 24);
    var payloadSize :- ReadU32(bytes, 28);
    var signatureOffset :- ReadU32(bytes, 32);
    var signatureSize :- ReadU32(bytes, 36);
    var signedRegionOffset :- ReadU32(bytes, 40);
    var signedRegionSize :- ReadU32(bytes, 44);
    var _ :- RequireZeroes(bytes[48..IMAGE_HEADER_SIZE]);
    if manifestOffset != IMAGE_HEADER_SIZE then Err else
    var expectedPayloadOffset :- CheckedAdd(manifestOffset, manifestSize);
    if payloadOffset != expectedPayloadOffset then Err else
    var expectedSignatureOffset :- CheckedAdd(payloadOffset, payloadSize);
    if signatureOffset != expectedSignatureOffset then Err else
    var expectedFileLen :- CheckedAdd(signatureOffset, signatureSize);
    if expectedFileLen != |bytes| then Err else
    if signedRegionOffset != manifestOffset then Err else
    var expectedSignedRegionSize :- CheckedAdd(manifestSize, payloadSize);
    if signedRegionSize != expectedSignedRegionSize then Err else
    var manifestRange :- CheckedRange(manifestOffset, manifestSize, |bytes|);
    var payloadRange :- CheckedRange(payloadOffset, payloadSize, |bytes|);
    var signatureRange :- CheckedRange(signatureOffset, signatureSize, |bytes|);
    var signedRegionRange :- CheckedRange(signedRegionOffset, signedRegionSize, |bytes|);
    var manifest :- ParseManifest(bytes[manifestRange.start..manifestRange.end]);
    if manifest.payloadSize != payloadSize then Err else
    var signature :- ParseSignatureSection(p, bytes[signatureRange.start..signatureRange.end],
                                           signedRegionOffset, signedRegionSize, manifest);
    Ok(ParsedImage(manifest, manifestRange, payloadRange, signatureRange, signedRegionRange, signature))
  }

  // ---------------------------------------------------------------------------
  // Verification
  // ---------------------------------------------------------------------------

  datatype VerificationReport = VerificationReport(
    image: ParsedImage,
    payloadDigestValid: bool,
    signatureValid: bool,
    targetValid: bool,
    securityEpochValid: bool)
  {
    predicate IsValid() {
      payloadDigestValid && signatureValid && targetValid && securityEpochValid
    }
  }

  function VerifySignature(p: Primitives, bytes: Octets, image: ParsedImage): Result<bool>
    requires image.signedRegionRange.start <= image.signedRegionRange.end <= |bytes|
  {
    var signedRegion := bytes[image.signedRegionRange.start..image.signedRegionRange.end];
    var verifyingKey :- p.FromSec1Bytes(image.signature.publicKey);
    if !p.validScalars(image.signature.signature) then Err
    else Ok(p.verify(verifyingKey, signedRegion, image.signature.signature))
  }

  function VerifyImage(p: Primitives, bytes: Octets, device: Option<Target>, minimumSecurityEpoch: U32)
    : Result<VerificationReport>
  {
    ParseImageExact(p, bytes);
    AcceptedSizes(bytes);
    var image :- ParseImage(p, bytes);
    var payload := bytes[image.payloadRange.start..image.payloadRange.end];
    var payloadDigestValid := p.sha256(payload) == image.manifest.payloadDigest;
    var signatureValid :- VerifySignature(p, bytes, image);
    var targetValid := device.None? || image.manifest.target == device.value;
    var securityEpochValid := image.manifest.securityEpoch >= minimumSecurityEpoch;
    Ok(VerificationReport(image, payloadDigestValid, signatureValid, targetValid, securityEpochValid))
  }

  // ---------------------------------------------------------------------------
  // What the parsers accept
  // ---------------------------------------------------------------------------

  /** The ranges of an image carrying `i`. */
  function ParsedOf(i: Image): ParsedImage {
    var payloadOffset := IMAGE_HEADER_SIZE + ManifestSize(|i.manifest.artifactId|);
    var signatureOffset := payloadOffset + |i.payload|;
    ParsedImage(
      i.manifest, Range(IMAGE_HEADER_SIZE, payloadOffset), Range(payloadOffset, signatureOffset),
      Range(signatureOffset, signatureOffset + SIGNATURE_SECTION_SIZE), Range(IMAGE_HEADER_SIZE, signatureOffset),
      i.record)
  }

  /** What the host checks beyond the device: a UTF-8 artifact ID and a key bound to its ID. */
  predicate HostChecks(p: Primitives, i: Image) {
    ValidUtf8(i.manifest.artifactId) && p.KeyBound(i.record.publicKey, i.record.keyId)
  }

  /** The images the host accepts. */
  predicate HostAccepted(p: Primitives, b: Octets) {
    ImageAccepted(b) && HostChecks(p, ImageOf(b))
  }

  lemma ZeroesOfSlice(b: Octets, lo: nat, hi: nat)
    requires lo <= hi <= |b|
    ensures RequireZeroes(b[lo..hi]) == if Zeroed(b, lo, hi) then Ok(()) else Err
  {
    if Zeroed(b[lo..hi], 0, hi - lo) {
      assert forall k :: lo <= k < hi ==> b[k] == b[lo..hi][k - lo];
    }
  }

  lemma ParseManifestFieldsExact(b: Octets)
    requires HoldsManifest(b)
    ensures ParseManifestFields(b, ManifestOf(b).artifactId) ==
              if U32At(b, 28) <= U32At(b, 32) && 1 <= U16At(b, 90) <= 6 && U16At(b, 106) <= 1
                 && U16At(b, 92) == U16At(b, 94) == 1 && U16At(b, 114) == U16At(b, 116) == U16At(b, 118) == 0
              then Ok(ManifestOf(b)) else Err
  {
  }

  lemma ParseManifestExact(b: Octets)
    ensures ParseManifest(b) ==
              if ManifestAccepted(b) && ValidUtf8(ManifestOf(b).artifactId) then Ok(ManifestOf(b)) else Err
  {
    hide ParseManifestFields, RequireZeroes, ManifestAccepted, ManifestSize, ValidUtf8;
    ManifestChecksAreExact(b);
    if |b| >= MANIFEST_HEADER_SIZE {
      CanonicalSize(U16At(b, 112));
      ZeroesOfSlice(b, 120, MANIFEST_HEADER_SIZE);
      if HoldsManifest(b) {
        var idEnd := MANIFEST_HEADER_SIZE + U16At(b, 112);
        ZeroesOfSlice(b, idEnd, |b|);
        assert b[idEnd..] == b[idEnd..|b|];
        ParseManifestFieldsExact(b);
      }
    }
  }

  lemma ParseSignatureSectionExact(p: Primitives, b: Octets, signedSize: nat, m: Manifest)
    requires signedSize <= U32_MAX
    ensures ParseSignatureSection(p, b, IMAGE_HEADER_SIZE, signedSize, m) ==
              if |b| == SIGNATURE_SECTION_SIZE && SignatureLayout(b, signedSize, RecordOf(b))
                 && RecordOf(b).keyId == m.keyId && p.KeyBound(RecordOf(b).publicKey, m.keyId)
              then Ok(RecordOf(b)) else Err
  {
    hide RequireZeroes;
    if |b| == SIGNATURE_SECTION_SIZE {
      ZeroesOfSlice(b, 177, SIGNATURE_SECTION_SIZE);
      ReencodedPoint(p, RecordOf(b).publicKey);
    }
  }

  /** The checks `ParseImage` makes once the section table is consistent. */
  lemma ParseImageSections(p: Primitives, b: Octets)
    ensures ParseImage(p, b) ==
              if TableConsistent(b)
              then
                var payloadOffset := IMAGE_HEADER_SIZE + U32At(b, 20);
                var signatureOffset := payloadOffset + U32At(b, 28);
                var m := ParseManifest(b[IMAGE_HEADER_SIZE..payloadOffset]);
                if m.Err? || m.value.payloadSize != U32At(b, 28) then Err else
                var r := ParseSignatureSection(p, b[signatureOffset..|b|], IMAGE_HEADER_SIZE, U32At(b, 44), m.value);
                if r.Err? then Err else
                Ok(ParsedImage(
                     m.value, Range(IMAGE_HEADER_SIZE, payloadOffset), Range(payloadOffset, signatureOffset),
                     Range(signatureOffset, |b|), Range(IMAGE_HEADER_SIZE, signatureOffset), r.value))
              else Err
  {
    hide ParseManifest, ParseSignatureSection, RequireZeroes;
    if |b| >= IMAGE_HEADER_SIZE {
      ZeroesOfSlice(b, 48, IMAGE_HEADER_SIZE);
    }
  }

  /** The host accepts the images the device accepts that also pass its own checks, and reports what they carry. */
  lemma ParseImageExact(p: Primitives, b: Octets)
    ensures ParseImage(p, b) ==
              if HostAccepted(p, b) then Ok(ParsedOf(ImageOf(b))) else Err
  {
    hide ParseImage, ParseManifest, ParseSignatureSection, ManifestAccepted, ImageAccepted,
         HeaderPreamble, SignatureHeader, SignatureRecordFields, ManifestSize;
    AcceptanceFromParts(b);
    AcceptedSizes(b);
    ParseImageSections(p, b);
    if TableConsistent(b) {
      var section := ManifestSectionOf(b);
      ParseManifestExact(section);
      AcceptedManifestSize(section);
      var tail := b[IMAGE_HEADER_SIZE + U32At(b, 20) + U32At(b, 28)..|b|];
      if ManifestAccepted(section) {
        ParseSignatureSectionExact(p, tail, U32At(b, 44), ManifestOf(section));
        assert |tail| == SIGNATURE_SECTION_SIZE ==> tail == SignatureSectionOf(b);
      }
    }
  }

  /** Encode then parse, on every value: the host gets `i` back exactly when `i` passes every check. */
  lemma LayoutParses(p: Primitives, b: Octets, i: Image)
    ensures ImageLayout(b, i) ==>
              ParseImage(p, b) == if WellFormed(i) && HostChecks(p, i) then Ok(ParsedOf(i)) else Err
  {
    hide ImageLayout, ParseImage;
    ImageLayoutReadsBack(b, i);
    ParseImageExact(p, b);
  }

  /** Where an image keeps its payload and its signed region. */
  lemma LayoutSections(b: Octets, i: Image)
    ensures ImageLayout(b, i) ==>
              var payloadOffset := IMAGE_HEADER_SIZE + ManifestSize(|i.manifest.artifactId|);
              var signatureOffset := payloadOffset + |i.payload|;
              && |b| == signatureOffset + SIGNATURE_SECTION_SIZE
              && b[payloadOffset..signatureOffset] == i.payload
              && b[IMAGE_HEADER_SIZE..signatureOffset] == SignedRegionOf(b)
              && SignedRegionOf(b) == b[IMAGE_HEADER_SIZE..payloadOffset] + i.payload
  {
    hide HeaderPreamble, SectionFields, ManifestLayout, SignatureLayout;
  }

  /** What verification reports for an image carrying `i` that the host parses. */
  lemma LayoutVerifies(p: Primitives, b: Octets, i: Image, device: Option<Target>, minimumSecurityEpoch: U32)
    requires ImageLayout(b, i) && WellFormed(i) && HostChecks(p, i)
    ensures VerifyImage(p, b, device, minimumSecurityEpoch) ==
              if !p.validScalars(i.record.signature) then Err
              else Ok(VerificationReport(
                        ParsedOf(i),
                        p.sha256(i.payload) == i.manifest.payloadDigest,
                        p.verify(p.FromSec1Bytes(i.record.publicKey).value, SignedRegionOf(b), i.record.signature),
                        device.None? || i.manifest.target == device.value,
                        i.manifest.securityEpoch >= minimumSecurityEpoch))
  {
    hide ImageLayout, ParseImage, ManifestSize, ValidUtf8;
    LayoutParses(p, b, i);
    LayoutSections(b, i);
  }
}
