/**
 * The v1 image format as a relation between octet strings and values.
 *
 * Nothing here parses or encodes: a layout predicate says which octets stand where, and both
 * parsers and the encoder are proved against it.
 */
module Layout {
  import opened Bytes

  const IMAGE_MAGIC: Octets := [0x52, 0x4D, 0x50, 0x49, 0x4D, 0x47, 0x30, 0x31] // RMPIMG01
  const MANIFEST_MAGIC: Octets := [0x52, 0x50, 0x4D, 0x46, 0x53, 0x54, 0x30, 0x31] // RPMFST01
  const SIGNATURE_MAGIC: Octets := [0x52, 0x50, 0x53, 0x49, 0x47, 0x4E, 0x30, 0x31] // RPSIGN01

  const IMAGE_HEADER_SIZE: nat := 64
  const MANIFEST_HEADER_SIZE: nat := 128
  const ARTIFACT_ID_MAX: nat := 128
  const SIGNATURE_SECTION_SIZE: nat := 192

  type Digest = d: Octets | |d| == 32 witness Zeros(32)
  type KeyId = k: Octets | |k| == 8 witness Zeros(8)
  type SignatureOctets = s: Octets | |s| == 64 witness Zeros(64)
  type PublicKeyOctets = k: Octets | |k| == 65 witness Zeros(65)

  datatype Target = Target(vendorId: U32, productId: U32, hardwareFamily: U32, componentId: U32)

  datatype Manifest = Manifest(
    artifactId: Octets,
    target: Target,
    revisionMin: U32,
    revisionMax: U32,
    securityEpoch: U32,
    versionMajor: U16,
    versionMinor: U16,
    versionPatch: U16,
    payloadSize: U32,
    payloadDigest: Digest,
    requiredRole: U16,
    signatureThreshold: U16,
    signatureCount: U16,
    keyId: KeyId,
    trialMaxAttempts: U16,
    trialProbationMs: U32,
    rollbackPolicy: U16,
    requirementCount: U16,
    dependencyCount: U16,
    healthRequiredCount: U16)

  datatype SignatureRecord = SignatureRecord(
    keyId: KeyId,
    signature: SignatureOctets,
    publicKey: PublicKeyOctets)

  /** The value constraints both parsers place on a manifest. */
  predicate Admissible(m: Manifest) {
    && 1 <= |m.artifactId| <= ARTIFACT_ID_MAX
    && m.revisionMin <= m.revisionMax
    && 1 <= m.requiredRole <= 6
    && m.rollbackPolicy <= 1
    && m.signatureThreshold == m.signatureCount == 1
    && m.requirementCount == m.dependencyCount == m.healthRequiredCount == 0
  }

  /** The fixed header and the artifact ID, rounded up to a multiple of four. */
  function ManifestSize(artifactIdLength: nat): (size: nat)
    ensures MANIFEST_HEADER_SIZE + artifactIdLength <= size < MANIFEST_HEADER_SIZE + artifactIdLength + 4
    ensures size % 4 == 0
  {
    MANIFEST_HEADER_SIZE + (artifactIdLength + 3) / 4 * 4
  }

  /** The canonical size is the header and artifact ID rounded up to a multiple of four. */
  lemma CanonicalSize(artifactIdLen: nat)
    ensures var end := MANIFEST_HEADER_SIZE + artifactIdLen;
            end + (4 - end % 4) % 4 == ManifestSize(artifactIdLen)
  {
  }

  /** Magic, format version, header size and total size. */
  predicate ManifestPreamble(b: Octets)
    requires |b| >= MANIFEST_HEADER_SIZE
  {
    && b[0..8] == MANIFEST_MAGIC
    && U16At(b, 8) == 1
    && U16At(b, 10) == MANIFEST_HEADER_SIZE
    && U32At(b, 12) == |b|
  }

  /** Octets 16 to 44: what the image is for. */
  predicate TargetFields(b: Octets, m: Manifest)
    requires |b| >= MANIFEST_HEADER_SIZE
  {
    && U32At(b, 16) == m.target.vendorId
    && U32At(b, 20) == m.target.productId
    && U32At(b, 24) == m.target.hardwareFamily
    && U32At(b, 28) == m.revisionMin
    && U32At(b, 32) == m.revisionMax
    && U32At(b, 36) == m.target.componentId
    && U32At(b, 40) == m.securityEpoch
  }

  /** Octets 44 to 90: version, payload and algorithms. */
  predicate ReleaseFields(b: Octets, m: Manifest)
    requires |b| >= MANIFEST_HEADER_SIZE
  {
    && U16At(b, 44) == m.versionMajor
    && U16At(b, 46) == m.versionMinor
    && U16At(b, 48) == m.versionPatch
    && U16At(b, 50) == 1
    && U32At(b, 52) == m.payloadSize
    && b[56..88] == m.payloadDigest
    && U16At(b, 88) == 1
  }

  /** Octets 90 to 104: who must sign. */
  predicate SigningFields(b: Octets, m: Manifest)
    requires |b| >= MANIFEST_HEADER_SIZE
  {
    && U16At(b, 90) == m.requiredRole
    && U16At(b, 92) == m.signatureThreshold
    && U16At(b, 94) == m.signatureCount
    && b[96..104] == m.keyId
  }

  /** Octets 104 to 120: trial and rollback policy, artifact ID length and extension counts. */
  predicate PolicyFields(b: Octets, m: Manifest)
    requires |b| >= MANIFEST_HEADER_SIZE
  {
    && U16At(b, 104) == m.trialMaxAttempts
    && U16At(b, 106) == m.rollbackPolicy
    && U32At(b, 108) == m.trialProbationMs
    && U16At(b, 112) == |m.artifactId|
    && U16At(b, 114) == m.requirementCount
    && U16At(b, 116) == m.dependencyCount
    && U16At(b, 118) == m.healthRequiredCount
  }

  /** Octets 120 onwards: reserved zeros, the artifact ID and its zero padding. */
  predicate TailFields(b: Octets, m: Manifest)
    requires |b| >= MANIFEST_HEADER_SIZE + |m.artifactId|
  {
    var idEnd := MANIFEST_HEADER_SIZE + |m.artifactId|;
    && Zeroed(b, 120, MANIFEST_HEADER_SIZE)
    && b[MANIFEST_HEADER_SIZE..idEnd] == m.artifactId
    && Zeroed(b, idEnd, |b|)
  }

  /** `b` is a manifest section carrying exactly the fields of `m`. */
  predicate ManifestLayout(b: Octets, m: Manifest) {
    && |b| == ManifestSize(|m.artifactId|)
    && ManifestPreamble(b)
    && TargetFields(b, m)
    && ReleaseFields(b, m)
    && SigningFields(b, m)
    && PolicyFields(b, m)
    && TailFields(b, m)
  }

  /** The 32-octet header of a signature section over a signed region at the given place. */
  predicate SignatureHeader(b: Octets, signedOffset: nat, signedSize: nat)
    requires |b| == SIGNATURE_SECTION_SIZE
  {
    && b[0..8] == SIGNATURE_MAGIC
    && U16At(b, 8) == 1
    && U16At(b, 10) == 32
    && U32At(b, 12) == SIGNATURE_SECTION_SIZE
    && U32At(b, 16) == signedOffset
    && U32At(b, 20) == signedSize
    && U16At(b, 24) == 1
    && U16At(b, 26) == 1
    && U16At(b, 28) == 160
    && U16At(b, 30) == 0
  }

  /** The one 160-octet record that follows it. */
  predicate SignatureRecordFields(b: Octets, r: SignatureRecord)
    requires |b| == SIGNATURE_SECTION_SIZE
  {
    && b[32..40] == r.keyId
    && U16At(b, 40) == 1
    && U16At(b, 42) == 1
    && U16At(b, 44) == 64
    && U16At(b, 46) == 65
    && b[48..112] == r.signature
    && b[112..177] == r.publicKey
    && Zeroed(b, 177, SIGNATURE_SECTION_SIZE)
  }

  predicate SignatureLayout(b: Octets, signedSize: nat, r: SignatureRecord) {
    && |b| == SIGNATURE_SECTION_SIZE
    && SignatureHeader(b, IMAGE_HEADER_SIZE, signedSize)
    && SignatureRecordFields(b, r)
  }

  /** Magic, version, kind, header size, flags and reserved zeros of the 64-octet image header. */
  predicate HeaderPreamble(b: Octets)
    requires |b| >= IMAGE_HEADER_SIZE
  {
    && b[0..8] == IMAGE_MAGIC
    && U16At(b, 8) == 1
    && U16At(b, 10) == 1
    && U16At(b, 12) == IMAGE_HEADER_SIZE
    && U16At(b, 14) == 0
    && Zeroed(b, 48, IMAGE_HEADER_SIZE)
  }

  /** The eight section fields for sections of the given sizes, in order and without gaps. */
  predicate SectionFields(b: Octets, manifestSize: nat, payloadSize: nat, signatureSize: nat)
    requires |b| >= IMAGE_HEADER_SIZE
  {
    && U32At(b, 16) == IMAGE_HEADER_SIZE
    && U32At(b, 20) == manifestSize
    && U32At(b, 24) == IMAGE_HEADER_SIZE + manifestSize
    && U32At(b, 28) == payloadSize
    && U32At(b, 32) == IMAGE_HEADER_SIZE + manifestSize + payloadSize
    && U32At(b, 36) == signatureSize
    && U32At(b, 40) == IMAGE_HEADER_SIZE
    && U32At(b, 44) == manifestSize + payloadSize
  }

  /** The header cuts the whole of `b` into header, manifest, payload and signature section. */
  predicate SectionTable(b: Octets, manifestSize: nat, payloadSize: nat, signatureSize: nat) {
    && |b| == IMAGE_HEADER_SIZE + manifestSize + payloadSize + signatureSize
    && HeaderPreamble(b)
    && SectionFields(b, manifestSize, payloadSize, signatureSize)
  }

  /** What an image carries: everything in it that is not fixed or derived. */
  datatype Image = Image(manifest: Manifest, payload: Octets, record: SignatureRecord)

  /** `b` is the image carrying exactly `i`. */
  predicate ImageLayout(b: Octets, i: Image) {
    var manifestSize := ManifestSize(|i.manifest.artifactId|);
    var payloadOffset := IMAGE_HEADER_SIZE + manifestSize;
    var signatureOffset := payloadOffset + |i.payload|;
    && SectionTable(b, manifestSize, |i.payload|, SIGNATURE_SECTION_SIZE)
    && ManifestLayout(b[IMAGE_HEADER_SIZE..payloadOffset], i.manifest)
    && b[payloadOffset..signatureOffset] == i.payload
    && SignatureLayout(b[signatureOffset..], manifestSize + |i.payload|, i.record)
  }

  /** The constraints both parsers place across sections. */
  predicate WellFormed(i: Image) {
    && Admissible(i.manifest)
    && i.manifest.payloadSize == |i.payload|
    && i.record.keyId == i.manifest.keyId
    && i.record.publicKey[0] == 0x04
  }

  // ---------------------------------------------------------------------------
  // Reading the values back
  // ---------------------------------------------------------------------------

  /** `b` is long enough to hold a fixed header and the artifact ID it announces. */
  predicate HoldsManifest(b: Octets) {
    |b| >= MANIFEST_HEADER_SIZE && MANIFEST_HEADER_SIZE + U16At(b, 112) <= |b|
  }

  function ManifestOf(b: Octets): Manifest
    requires HoldsManifest(b)
  {
    Manifest(
      b[MANIFEST_HEADER_SIZE..MANIFEST_HEADER_SIZE + U16At(b, 112)],
      Target(U32At(b, 16), U32At(b, 20), U32At(b, 24), U32At(b, 36)),
      U32At(b, 28), U32At(b, 32), U32At(b, 40),
      U16At(b, 44), U16At(b, 46), U16At(b, 48),
      U32At(b, 52), b[56..88],
      U16At(b, 90), U16At(b, 92), U16At(b, 94), b[96..104],
      U16At(b, 104), U32At(b, 108), U16At(b, 106),
      U16At(b, 114), U16At(b, 116), U16At(b, 118))
  }

  /** The manifest sections the device accepts. */
  predicate ManifestAccepted(b: Octets) {
    HoldsManifest(b) && ManifestLayout(b, ManifestOf(b)) && Admissible(ManifestOf(b))
  }

  /** The checks that decide acceptance, in terms of the octets alone. */
  predicate ManifestChecks(b: Octets) {
    && |b| >= MANIFEST_HEADER_SIZE
    && ManifestPreamble(b)
    && U32At(b, 28) <= U32At(b, 32)
    && U16At(b, 50) == 1
    && U16At(b, 88) == 1
    && 1 <= U16At(b, 90) <= 6
    && U16At(b, 92) == 1
    && U16At(b, 94) == 1
    && U16At(b, 106) <= 1
    && 1 <= U16At(b, 112) <= ARTIFACT_ID_MAX
    && |b| == ManifestSize(U16At(b, 112))
    && U16At(b, 114) == 0
    && U16At(b, 116) == 0
    && U16At(b, 118) == 0
    && Zeroed(b, 120, MANIFEST_HEADER_SIZE)
    && Zeroed(b, MANIFEST_HEADER_SIZE + U16At(b, 112), |b|)
  }

  /** A section passes the checks exactly when it is the layout of an admissible manifest. */
  lemma ManifestChecksAreExact(b: Octets)
    ensures ManifestChecks(b) <==> ManifestAccepted(b)
  {
  }

  /** What an accepted section's own size says about its artifact ID. */
  lemma AcceptedManifestSize(b: Octets)
    ensures ManifestAccepted(b) ==>
              HoldsManifest(b) && |b| == ManifestSize(|ManifestOf(b).artifactId|) && b[96..104] == ManifestOf(b).keyId
  {
  }

  function RecordOf(b: Octets): SignatureRecord
    requires |b| == SIGNATURE_SECTION_SIZE
  {
    SignatureRecord(b[32..40], b[48..112], b[112..177])
  }

  /** The checks on a signature section, given where the signed region lies and whose key is expected. */
  predicate SignatureChecks(b: Octets, signedOffset: nat, signedSize: nat, keyId: Octets) {
    && |b| == SIGNATURE_SECTION_SIZE
    && SignatureHeader(b, signedOffset, signedSize)
    && SignatureRecordFields(b, RecordOf(b))
    && b[32..40] == keyId
    && b[112] == 0x04
  }

  /** The sizes in the header cut `b` into four sections, each long enough to read. */
  predicate HoldsImage(b: Octets) {
    && |b| >= IMAGE_HEADER_SIZE
    && |b| == IMAGE_HEADER_SIZE + U32At(b, 20) + U32At(b, 28) + SIGNATURE_SECTION_SIZE
    && HoldsManifest(ManifestSectionOf(b))
  }

  function ManifestSectionOf(b: Octets): Octets
    requires |b| >= IMAGE_HEADER_SIZE && |b| >= IMAGE_HEADER_SIZE + U32At(b, 20)
  {
    b[IMAGE_HEADER_SIZE..IMAGE_HEADER_SIZE + U32At(b, 20)]
  }

  function PayloadOf(b: Octets): Octets
    requires HoldsImage(b)
  {
    b[IMAGE_HEADER_SIZE + U32At(b, 20)..|b| - SIGNATURE_SECTION_SIZE]
  }

  function SignatureSectionOf(b: Octets): Octets
    requires |b| >= SIGNATURE_SECTION_SIZE
  {
    b[|b| - SIGNATURE_SECTION_SIZE..]
  }

  /** Manifest then payload: what the signature covers. */
  function SignedRegionOf(b: Octets): Octets
    requires |b| >= IMAGE_HEADER_SIZE + SIGNATURE_SECTION_SIZE
  {
    b[IMAGE_HEADER_SIZE..|b| - SIGNATURE_SECTION_SIZE]
  }

  function ImageOf(b: Octets): Image
    requires HoldsImage(b)
  {
    Image(ManifestOf(ManifestSectionOf(b)), PayloadOf(b), RecordOf(SignatureSectionOf(b)))
  }

  /** The images the device's parser accepts. */
  predicate ImageAccepted(b: Octets) {
    HoldsImage(b) && ImageLayout(b, ImageOf(b)) && WellFormed(ImageOf(b))
  }

  /** A manifest section carries one manifest, the one read back from it. */
  lemma ManifestLayoutReadsBack(b: Octets, m: Manifest)
    ensures ManifestLayout(b, m) ==> HoldsManifest(b) && ManifestOf(b) == m
  {
  }

  lemma SignatureLayoutReadsBack(b: Octets, signedSize: nat, r: SignatureRecord)
    ensures SignatureLayout(b, signedSize, r) ==> RecordOf(b) == r
  {
  }

  /** An octet string is the image of at most one value, the one read back from it. */
  lemma ImageLayoutReadsBack(b: Octets, i: Image)
    ensures ImageLayout(b, i) ==> HoldsImage(b) && ImageOf(b) == i
  {
    hide ManifestLayout, SignatureLayout, HeaderPreamble;
    if ImageLayout(b, i) {
      ManifestLayoutReadsBack(ManifestSectionOf(b), i.manifest);
      SignatureLayoutReadsBack(SignatureSectionOf(b), U32At(b, 20) + U32At(b, 28), i.record);
    }
  }

  /** The header's own numbers describe the whole buffer. */
  predicate TableConsistent(b: Octets) {
    |b| >= IMAGE_HEADER_SIZE && SectionTable(b, U32At(b, 20), U32At(b, 28), U32At(b, 36))
  }

  /** The checks left once the section table is consistent and the manifest accepted. */
  lemma AcceptanceFromParts(b: Octets)
    ensures ImageAccepted(b) <==>
            && TableConsistent(b)
            && ManifestAccepted(ManifestSectionOf(b))
            && ManifestOf(ManifestSectionOf(b)).payloadSize == U32At(b, 28)
            && U32At(b, 36) == SIGNATURE_SECTION_SIZE
            && SignatureChecks(SignatureSectionOf(b), IMAGE_HEADER_SIZE, U32At(b, 44),
                               ManifestOf(ManifestSectionOf(b)).keyId)
  {
    hide U16At, U32At, HeaderPreamble, SignatureHeader, SignatureRecordFields;
  }

  /** An accepted image's section sizes, as the view reports them. */
  lemma AcceptedSizes(b: Octets)
    ensures ImageAccepted(b) ==>
              && HoldsImage(b)
              && ImageOf(b).manifest == ManifestOf(ManifestSectionOf(b))
              && ManifestSize(|ImageOf(b).manifest.artifactId|) == U32At(b, 20)
              && |ImageOf(b).payload| == U32At(b, 28)
              && |b| == IMAGE_HEADER_SIZE + U32At(b, 20) + U32At(b, 28) + SIGNATURE_SECTION_SIZE
              && U32At(b, 32) == |b| - SIGNATURE_SECTION_SIZE
              && |ImageOf(b).manifest.artifactId| <= ARTIFACT_ID_MAX
  {
    hide HeaderPreamble, SignatureLayout, ManifestLayout;
  }

  // ---------------------------------------------------------------------------
  // A layout fixes every octet
  // ---------------------------------------------------------------------------

  /** Equal readings come from equal octets. */
  lemma SameReads16(a: Octets, b: Octets, offset: nat)
    requires offset + 2 <= |a| && offset + 2 <= |b|
    requires U16At(a, offset) == U16At(b, offset)
    ensures a[offset] == b[offset] && a[offset + 1] == b[offset + 1]
  {
    U16Octets(a, offset);
    U16Octets(b, offset);
  }

  lemma SameReads32(a: Octets, b: Octets, offset: nat)
    requires offset + 4 <= |a| && offset + 4 <= |b|
    requires U32At(a, offset) == U32At(b, offset)
    ensures forall k :: offset <= k < offset + 4 ==> a[k] == b[k]
  {
    U32Halves(a, offset);
    U32Halves(b, offset);
    SameReads16(a, b, offset);
    SameReads16(a, b, offset + 2);
  }

  lemma SameReads(a: Octets, b: Octets)
    ensures forall o: nat {:trigger U16At(a, o)} ::
              o + 2 <= |a| && o + 2 <= |b| && U16At(a, o) == U16At(b, o)
              ==> a[o] == b[o] && a[o + 1] == b[o + 1]
    ensures forall o: nat {:trigger U32At(a, o)} ::
              o + 4 <= |a| && o + 4 <= |b| && U32At(a, o) == U32At(b, o)
              ==> a[o] == b[o] && a[o + 1] == b[o + 1] && a[o + 2] == b[o + 2] && a[o + 3] == b[o + 3]
  {
    forall o: nat | o + 2 <= |a| && o + 2 <= |b| && U16At(a, o) == U16At(b, o)
      ensures a[o] == b[o] && a[o + 1] == b[o + 1]
    {
      SameReads16(a, b, o);
    }
    forall o: nat | o + 4 <= |a| && o + 4 <= |b| && U32At(a, o) == U32At(b, o)
      ensures a[o] == b[o] && a[o + 1] == b[o + 1] && a[o + 2] == b[o + 2] && a[o + 3] == b[o + 3]
    {
      SameReads32(a, b, o);
    }
  }

  lemma SameSlices(a: Octets, b: Octets, lo: nat, hi: nat)
    requires lo <= hi <= |a| && hi <= |b| && a[lo..hi] == b[lo..hi]
    ensures forall k :: lo <= k < hi ==> a[k] == b[k]
  {
    forall k | lo <= k < hi ensures a[k] == b[k] {
      assert a[lo..hi][k - lo] == b[lo..hi][k - lo];
    }
  }

  /** The field groups fix octets 16 to 120. */
  lemma FieldGroupsFixOctets(a: Octets, b: Octets, m: Manifest)
    requires |a| >= MANIFEST_HEADER_SIZE && |b| >= MANIFEST_HEADER_SIZE
    ensures TargetFields(a, m) && TargetFields(b, m) ==> forall k :: 16 <= k < 44 ==> a[k] == b[k]
    ensures ReleaseFields(a, m) && ReleaseFields(b, m) ==> forall k :: 44 <= k < 90 ==> a[k] == b[k]
    ensures SigningFields(a, m) && SigningFields(b, m) ==> forall k :: 90 <= k < 104 ==> a[k] == b[k]
    ensures PolicyFields(a, m) && PolicyFields(b, m) ==> forall k :: 104 <= k < 120 ==> a[k] == b[k]
  {
    SameReads(a, b);
    if ReleaseFields(a, m) && ReleaseFields(b, m) {
      SameSlices(a, b, 56, 88);
    }
    if SigningFields(a, m) && SigningFields(b, m) {
      SameSlices(a, b, 96, 104);
    }
  }

  lemma ManifestLayoutIsUnique(a: Octets, b: Octets, m: Manifest)
    ensures ManifestLayout(a, m) && ManifestLayout(b, m) ==> a == b
  {
    hide TargetFields, ReleaseFields, SigningFields, PolicyFields;
    if ManifestLayout(a, m) && ManifestLayout(b, m) {
      SameReads(a, b);
      FieldGroupsFixOctets(a, b, m);
      SameSlices(a, b, 0, 8);
      SameSlices(a, b, 128, 128 + |m.artifactId|);
    }
  }

  lemma SignatureLayoutIsUnique(a: Octets, b: Octets, signedSize: nat, r: SignatureRecord)
    ensures SignatureLayout(a, signedSize, r) && SignatureLayout(b, signedSize, r) ==> a == b
  {
    if SignatureLayout(a, signedSize, r) && SignatureLayout(b, signedSize, r) {
      SameReads(a, b);
      SameSlices(a, b, 0, 8);
      SameSlices(a, b, 32, 40);
      SameSlices(a, b, 48, 112);
      SameSlices(a, b, 112, 177);
    }
  }

  lemma HeaderIsUnique(a: Octets, b: Octets, manifestSize: nat, payloadSize: nat, signatureSize: nat)
    ensures SectionTable(a, manifestSize, payloadSize, signatureSize)
            && SectionTable(b, manifestSize, payloadSize, signatureSize)
            ==> a[..IMAGE_HEADER_SIZE] == b[..IMAGE_HEADER_SIZE]
  {
    if SectionTable(a, manifestSize, payloadSize, signatureSize)
       && SectionTable(b, manifestSize, payloadSize, signatureSize) {
      SameReads(a, b);
      SameSlices(a, b, 0, 8);
    }
  }

  lemma EqualSections(a: Octets, b: Octets, payloadOffset: nat, signatureOffset: nat)
    requires IMAGE_HEADER_SIZE <= payloadOffset <= signatureOffset <= |a| == |b|
    requires a[..IMAGE_HEADER_SIZE] == b[..IMAGE_HEADER_SIZE]
    requires a[IMAGE_HEADER_SIZE..payloadOffset] == b[IMAGE_HEADER_SIZE..payloadOffset]
    requires a[payloadOffset..signatureOffset] == b[payloadOffset..signatureOffset]
    requires a[signatureOffset..] == b[signatureOffset..]
    ensures a == b
  {
    SameSlices(a, b, 0, IMAGE_HEADER_SIZE);
    SameSlices(a, b, IMAGE_HEADER_SIZE, payloadOffset);
    SameSlices(a, b, payloadOffset, signatureOffset);
    SameSlices(a, b, signatureOffset, |a|);
  }

  /** Manifest, payload and record determine the whole image. */
  lemma ImageLayoutIsUnique(a: Octets, b: Octets, i: Image)
    ensures ImageLayout(a, i) && ImageLayout(b, i) ==> a == b
  {
    hide ManifestLayout, SignatureLayout, HeaderPreamble, SectionFields;
    if ImageLayout(a, i) && ImageLayout(b, i) {
      var manifestSize := ManifestSize(|i.manifest.artifactId|);
      var payloadOffset := IMAGE_HEADER_SIZE + manifestSize;
      var signatureOffset := payloadOffset + |i.payload|;
      HeaderIsUnique(a, b, manifestSize, |i.payload|, SIGNATURE_SECTION_SIZE);
      ManifestLayoutIsUnique(a[IMAGE_HEADER_SIZE..payloadOffset], b[IMAGE_HEADER_SIZE..payloadOffset], i.manifest);
      SignatureLayoutIsUnique(a[signatureOffset..], b[signatureOffset..], manifestSize + |i.payload|, i.record);
      EqualSections(a, b, payloadOffset, signatureOffset);
    }
  }
}
