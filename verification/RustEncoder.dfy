/**
 * The image encoder: a growable byte vector, filled field by field.
 *
 * The field writers are proved against the layout predicates of module `Layout`; as a layout fixes
 * every octet, that determines the encoders' output completely.
 */
module RustEncoder {
  import opened Bytes
  import opened Layout
  import opened Results

  /** `b` is `a` with something else written at `lo..hi`. */
  ghost predicate SameOutside(a: Octets, b: Octets, lo: nat, hi: nat) {
    && |a| == |b|
    && (forall k {:trigger b[k]} :: 0 <= k < |b| && !(lo <= k < hi) ==> b[k] == a[k])
    && (forall o: nat {:trigger U16At(b, o)} ::
          o + 2 <= |b| && (o + 2 <= lo || hi <= o) ==> U16At(b, o) == U16At(a, o))
    && (forall o: nat {:trigger U32At(b, o)} ::
          o + 4 <= |b| && (o + 4 <= lo || hi <= o) ==> U32At(b, o) == U32At(a, o))
  }

  /** The `Vec<u8>` under construction. */
  class ByteVec {
    var data: Octets

    constructor (size: nat)
      ensures data == Zeros(size)
    {
      data := Zeros(size);
    }

    method CopyInto(offset: nat, source: Octets)
      requires offset + |source| <= |data|
      modifies this
      ensures SameOutside(old(data), data, offset, offset + |source|)
      ensures data[offset..offset + |source|] == source
    {
      ghost var before := data;
      data := data[..offset] + source + data[offset + |source|..];
      SameOctetsReadSame(data, before, 0, offset, 0);
      SameOctetsReadSame(data, before, offset + |source|, |data|, 0);
    }

    method WriteU16(offset: nat, value: U16)
      requires offset + 2 <= |data|
      modifies this
      ensures SameOutside(old(data), data, offset, offset + 2)
      ensures U16At(data, offset) == value
    {
      CopyInto(offset, Le16(value));
      Le16Reads(data, offset, value);
    }

    method WriteU32(offset: nat, value: U32)
      requires offset + 4 <= |data|
      modifies this
      ensures SameOutside(old(data), data, offset, offset + 4)
      ensures U32At(data, offset) == value
    {
      CopyInto(offset, Le32(value));
      Le32Reads(data, offset, value);
    }

    method Extend(source: Octets)
      modifies this
      ensures data == old(data) + source
    {
      data := data + source;
    }

    method Push(byte: Byte)
      modifies this
      ensures data == old(data) + [byte]
    {
      data := data + [byte];
    }
  }

  method WriteTargetFields(out: ByteVec, m: Manifest)
    requires |out.data| == MANIFEST_HEADER_SIZE
    modifies out
    ensures SameOutside(old(out.data), out.data, 16, 44) && TargetFields(out.data, m)
  {
    out.WriteU32(16, m.target.vendorId);
    out.WriteU32(20, m.target.productId);
    out.WriteU32(24, m.target.hardwareFamily);
    out.WriteU32(28, m.revisionMin);
    out.WriteU32(32, m.revisionMax);
    out.WriteU32(36, m.target.componentId);
    out.WriteU32(40, m.securityEpoch);
  }

  method WriteReleaseFields(out: ByteVec, m: Manifest)
    requires |out.data| == MANIFEST_HEADER_SIZE
    modifies out
    ensures SameOutside(old(out.data), out.data, 44, 90) && ReleaseFields(out.data, m)
  {
    out.WriteU16(44, m.versionMajor);
    out.WriteU16(46, m.versionMinor);
    out.WriteU16(48, m.versionPatch);
    out.WriteU16(50, 1);
    out.WriteU32(52, m.payloadSize);
    out.CopyInto(56, m.payloadDigest);
    out.WriteU16(88, 1);
  }

  method WriteSigningFields(out: ByteVec, m: Manifest)
    requires |out.data| == MANIFEST_HEADER_SIZE
    modifies out
    ensures SameOutside(old(out.data), out.data, 90, 104) && SigningFields(out.data, m)
  {
    out.WriteU16(90, m.requiredRole);
    out.WriteU16(92, m.signatureThreshold);
    out.WriteU16(94, m.signatureCount);
    out.CopyInto(96, m.keyId);
  }

  method WritePolicyFields(out: ByteVec, m: Manifest)
    requires |out.data| == MANIFEST_HEADER_SIZE && |m.artifactId| <= ARTIFACT_ID_MAX
    modifies out
    ensures SameOutside(old(out.data), out.data, 104, 120) && PolicyFields(out.data, m)
  {
    out.WriteU16(104, m.trialMaxAttempts);
    out.WriteU16(106, m.rollbackPolicy);
    out.WriteU32(108, m.trialProbationMs);
    out.WriteU16(112, |m.artifactId|);
    out.WriteU16(114, m.requirementCount);
    out.WriteU16(116, m.dependencyCount);
    out.WriteU16(118, m.healthRequiredCount);
  }

  lemma TargetCarriesOver(a: Octets, b: Octets, m: Manifest)
    requires |a| >= MANIFEST_HEADER_SIZE && |b| >= MANIFEST_HEADER_SIZE && forall k :: 16 <= k < 44 ==> a[k] == b[k]
    ensures TargetFields(a, m) ==> TargetFields(b, m)
  {
    hide U16At, U32At;
    SameOctetsReadSame(a, b, 16, 44, 0);
  }

  lemma ReleaseCarriesOver(a: Octets, b: Octets, m: Manifest)
    requires |a| >= MANIFEST_HEADER_SIZE && |b| >= MANIFEST_HEADER_SIZE && forall k :: 44 <= k < 90 ==> a[k] == b[k]
    ensures ReleaseFields(a, m) ==> ReleaseFields(b, m)
  {
    hide U16At, U32At;
    SameOctetsReadSame(a, b, 44, 90, 0);
    assert a[56..88] == b[56..88];
  }

  lemma SigningCarriesOver(a: Octets, b: Octets, m: Manifest)
    requires |a| >= MANIFEST_HEADER_SIZE && |b| >= MANIFEST_HEADER_SIZE && forall k :: 90 <= k < 104 ==> a[k] == b[k]
    ensures SigningFields(a, m) ==> SigningFields(b, m)
  {
    hide U16At, U32At;
    SameOctetsReadSame(a, b, 90, 104, 0);
    assert a[96..104] == b[96..104];
  }

  lemma PolicyCarriesOver(a: Octets, b: Octets, m: Manifest)
    requires |a| >= MANIFEST_HEADER_SIZE && |b| >= MANIFEST_HEADER_SIZE && forall k :: 104 <= k < 120 ==> a[k] == b[k]
    ensures PolicyFields(a, m) ==> PolicyFields(b, m)
  {
    hide U16At, U32At;
    SameOctetsReadSame(a, b, 104, 120, 0);
  }

  /** Appends the artifact ID and pads with zeros to a multiple of four. */
  method AppendArtifactId(out: ByteVec, artifactId: Octets)
    requires |out.data| == MANIFEST_HEADER_SIZE
    modifies out
    ensures |out.data| == ManifestSize(|artifactId|)
    ensures out.data[..MANIFEST_HEADER_SIZE] == old(out.data)[..MANIFEST_HEADER_SIZE]
    ensures out.data[MANIFEST_HEADER_SIZE..MANIFEST_HEADER_SIZE + |artifactId|] == artifactId
    ensures Zeroed(out.data, MANIFEST_HEADER_SIZE + |artifactId|, |out.data|)
  {
    out.Extend(artifactId);
    ghost var unpadded := out.data;
    while |out.data| % 4 != 0
      invariant |unpadded| <= |out.data| <= ManifestSize(|artifactId|)
      invariant out.data[..|unpadded|] == unpadded
      invariant Zeroed(out.data, |unpadded|, |out.data|)
      decreases ManifestSize(|artifactId|) - |out.data|
    {
      out.Push(0);
    }
    assert out.data[..MANIFEST_HEADER_SIZE] == unpadded[..MANIFEST_HEADER_SIZE];
    assert out.data[MANIFEST_HEADER_SIZE..|unpadded|] == unpadded[MANIFEST_HEADER_SIZE..];
  }

  /** The fixed header, but for the total size at octet 12, which is written last. */
  ghost predicate ManifestHeader(b: Octets, m: Manifest)
    requires |b| >= MANIFEST_HEADER_SIZE
  {
    && b[0..8] == MANIFEST_MAGIC
    && U16At(b, 8) == 1
    && U16At(b, 10) == MANIFEST_HEADER_SIZE
    && TargetFields(b, m)
    && ReleaseFields(b, m)
    && SigningFields(b, m)
    && PolicyFields(b, m)
    && Zeroed(b, 120, MANIFEST_HEADER_SIZE)
  }

  lemma ManifestHeaderCarriesOver(a: Octets, b: Octets, m: Manifest)
    requires |a| >= MANIFEST_HEADER_SIZE && |b| >= MANIFEST_HEADER_SIZE
    requires forall k :: 0 <= k < 12 || 16 <= k < MANIFEST_HEADER_SIZE ==> a[k] == b[k]
    ensures ManifestHeader(a, m) ==> ManifestHeader(b, m)
  {
    hide TargetFields, ReleaseFields, SigningFields, PolicyFields;
    TargetCarriesOver(a, b, m);
    ReleaseCarriesOver(a, b, m);
    SigningCarriesOver(a, b, m);
    PolicyCarriesOver(a, b, m);
    SameOctetsReadSame(a, b, 0, 12, 0);
    assert a[0..8] == b[0..8];
  }

  method WriteManifestHeader(out: ByteVec, m: Manifest)
    requires out.data == Zeros(MANIFEST_HEADER_SIZE) && |m.artifactId| <= ARTIFACT_ID_MAX
    modifies out
    ensures |out.data| == MANIFEST_HEADER_SIZE && ManifestHeader(out.data, m)
  {
    hide TargetFields, ReleaseFields, SigningFields, PolicyFields;
    out.CopyInto(0, MANIFEST_MAGIC);
    out.WriteU16(8, 1);
    out.WriteU16(10, MANIFEST_HEADER_SIZE);
    WriteTargetFields(out, m);
    ghost var targeted := out.data;
    WriteReleaseFields(out, m);
    ghost var released := out.data;
    WriteSigningFields(out, m);
    ghost var signed := out.data;
    WritePolicyFields(out, m);
    TargetCarriesOver(targeted, out.data, m);
    ReleaseCarriesOver(released, out.data, m);
    SigningCarriesOver(signed, out.data, m);
    assert out.data[0..8] == targeted[0..8];
  }

  method EncodeManifest(m: Manifest) returns (r: Result<Octets>)
    ensures r.Ok? <==> |m.artifactId| <= ARTIFACT_ID_MAX
    ensures r.Ok? ==> ManifestLayout(r.value, m)
  {
    hide TargetFields, ReleaseFields, SigningFields, PolicyFields;
    if |m.artifactId| > ARTIFACT_ID_MAX {
      return Err;
    }
    var out := new ByteVec(MANIFEST_HEADER_SIZE);
    WriteManifestHeader(out, m);
    ghost var header := out.data;
    AppendArtifactId(out, m.artifactId);
    ghost var padded := out.data;
    out.WriteU32(12, |out.data|);

    SameSlices(header, padded, 0, MANIFEST_HEADER_SIZE);
    ManifestHeaderCarriesOver(header, out.data, m);
    var idEnd := MANIFEST_HEADER_SIZE + |m.artifactId|;
    assert out.data[MANIFEST_HEADER_SIZE..idEnd] == padded[MANIFEST_HEADER_SIZE..idEnd];
    return Ok(out.data);
  }

  method WriteSignatureHeader(out: ByteVec, signedSize: U32)
    requires |out.data| == SIGNATURE_SECTION_SIZE && U16At(out.data, 30) == 0
    modifies out
    ensures SameOutside(old(out.data), out.data, 0, 30) && SignatureHeader(out.data, IMAGE_HEADER_SIZE, signedSize)
  {
    out.CopyInto(0, SIGNATURE_MAGIC);
    ghost var started := out.data;
    out.WriteU16(8, 1);
    out.WriteU16(10, 32);
    out.WriteU32(12, SIGNATURE_SECTION_SIZE);
    out.WriteU32(16, IMAGE_HEADER_SIZE);
    out.WriteU32(20, signedSize);
    out.WriteU16(24, 1);
    out.WriteU16(26, 1);
    out.WriteU16(28, 160);
    assert out.data[0..8] == started[0..8];
  }

  method WriteSignatureRecord(out: ByteVec, record: SignatureRecord)
    requires |out.data| == SIGNATURE_SECTION_SIZE && Zeroed(out.data, 32, SIGNATURE_SECTION_SIZE)
    modifies out
    ensures |out.data| == SIGNATURE_SECTION_SIZE && SignatureRecordFields(out.data, record)
    ensures out.data[..32] == old(out.data)[..32]
  {
    out.CopyInto(32, record.keyId);
    out.WriteU16(40, 1);
    out.WriteU16(42, 1);
    out.WriteU16(44, 64);
    out.WriteU16(46, 65);
    out.CopyInto(48, record.signature);
    out.CopyInto(112, record.publicKey);
  }

  lemma SignatureHeaderCarriesOver(a: Octets, b: Octets, signedSize: nat)
    requires |a| == |b| == SIGNATURE_SECTION_SIZE && a[..32] == b[..32]
    ensures SignatureHeader(a, IMAGE_HEADER_SIZE, signedSize) ==> SignatureHeader(b, IMAGE_HEADER_SIZE, signedSize)
  {
    SameSlices(a, b, 0, 32);
    SameOctetsReadSame(a, b, 0, 32, 0);
    assert a[0..8] == b[0..8];
  }

  method EncodeSignatureSection(record: SignatureRecord, signedRegion: Octets) returns (r: Result<Octets>)
    ensures r.Ok? <==> |signedRegion| <= U32_MAX
    ensures r.Ok? ==> SignatureLayout(r.value, |signedRegion|, record)
  {
    hide SignatureHeader, SignatureRecordFields;
    var signedSize :- CheckedU32(|signedRegion|);
    var out := new ByteVec(SIGNATURE_SECTION_SIZE);
    U16Octets(out.data, 30);
    WriteSignatureHeader(out, signedSize);
    ghost var header := out.data;
    WriteSignatureRecord(out, record);
    SignatureHeaderCarriesOver(header, out.data, signedSize);
    return Ok(out.data);
  }

  method WriteHeaderPreamble(out: ByteVec)
    requires |out.data| >= IMAGE_HEADER_SIZE && Zeroed(out.data, 0, |out.data|)
    modifies out
    ensures |out.data| == |old(out.data)| && HeaderPreamble(out.data)
  {
    U16Octets(out.data, 14);
    out.CopyInto(0, IMAGE_MAGIC);
    out.WriteU16(8, 1);
    out.WriteU16(10, 1);
    out.WriteU16(12, IMAGE_HEADER_SIZE);
  }

  method WriteSectionFields(out: ByteVec, manifestSize: nat, payloadSize: nat, signatureSize: nat)
    requires IMAGE_HEADER_SIZE + manifestSize + payloadSize <= U32_MAX && signatureSize <= U32_MAX
    requires |out.data| >= IMAGE_HEADER_SIZE && HeaderPreamble(out.data)
    modifies out
    ensures |out.data| == |old(out.data)|
    ensures HeaderPreamble(out.data) && SectionFields(out.data, manifestSize, payloadSize, signatureSize)
  {
    ghost var before := out.data;
    out.WriteU32(16, IMAGE_HEADER_SIZE);
    out.WriteU32(20, manifestSize);
    out.WriteU32(24, IMAGE_HEADER_SIZE + manifestSize);
    out.WriteU32(28, payloadSize);
    out.WriteU32(32, IMAGE_HEADER_SIZE + manifestSize + payloadSize);
    out.WriteU32(36, signatureSize);
    out.WriteU32(40, IMAGE_HEADER_SIZE);
    out.WriteU32(44, manifestSize + payloadSize);
    assert out.data[0..8] == before[0..8];
  }

  lemma SectionTableCarriesOver(a: Octets, b: Octets, manifestSize: nat, payloadSize: nat, signatureSize: nat)
    requires |a| == |b| >= IMAGE_HEADER_SIZE && a[..IMAGE_HEADER_SIZE] == b[..IMAGE_HEADER_SIZE]
    ensures SectionTable(a, manifestSize, payloadSize, signatureSize)
            ==> SectionTable(b, manifestSize, payloadSize, signatureSize)
  {
    SameSlices(a, b, 0, IMAGE_HEADER_SIZE);
    SameOctetsReadSame(a, b, 0, IMAGE_HEADER_SIZE, 0);
    assert a[0..8] == b[0..8];
  }

  method EncodeImage(manifest: Octets, payload: Octets, signature: Octets) returns (r: Result<Octets>)
    ensures r.Ok? <==> IMAGE_HEADER_SIZE + |manifest| + |payload| <= U32_MAX && |signature| <= U32_MAX
    ensures r.Ok? ==> |r.value| == IMAGE_HEADER_SIZE + |manifest| + |payload| + |signature|
    ensures r.Ok? ==> SectionTable(r.value, |manifest|, |payload|, |signature|)
    ensures r.Ok? ==> r.value[IMAGE_HEADER_SIZE..] == manifest + payload + signature
  {
    hide U16At, U32At, HeaderPreamble, SectionFields;
    var manifestOffset := IMAGE_HEADER_SIZE;
    var payloadOffset :- CheckedAdd(manifestOffset, |manifest|);
    var signatureOffset :- CheckedAdd(payloadOffset, |payload|);
    var fileLength :- CheckedAdd(signatureOffset, |signature|);
    var signedRegionSize :- CheckedAdd(|manifest|, |payload|);
    if manifestOffset > U32_MAX { return Err; }
    var _ :- CheckedU32(|manifest|);
    var _ :- CheckedU32(payloadOffset);
    var _ :- CheckedU32(|payload|);
    var _ :- CheckedU32(signatureOffset);
    var _ :- CheckedU32(|signature|);
    if signedRegionSize > U32_MAX { return Err; }
    var out := new ByteVec(fileLength);
    WriteHeaderPreamble(out);
    WriteSectionFields(out, |manifest|, |payload|, |signature|);
    ghost var header := out.data;
    out.CopyInto(manifestOffset, manifest);
    out.CopyInto(payloadOffset, payload);
    out.CopyInto(signatureOffset, signature);
    SectionTableCarriesOver(header, out.data, |manifest|, |payload|, |signature|);
    return Ok(out.data);
  }
}
