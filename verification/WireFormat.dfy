/**
 * The format's tables, octet by octet: every field at its offset from the start of the file, every
 * fixed value as a number or as characters, with none of the names the parsers and the encoder share.
 */
module WireFormat {
  import opened Bytes
  import opened Layout
  import opened Status
  import opened Utf8
  import opened Crypto
  import C = CImage
  import M = CManifest
  import R = Results
  import Rust = RustParser

  /** The ASCII characters of `text` stand at `at`. */
  predicate Says(b: Octets, at: nat, text: string) {
    at + |text| <= |b| && forall k :: 0 <= k < |text| ==> b[at + k] == text[k] as int
  }

  /** What is the same in every image header: magic, version, kind, size, flags and 16 reserved octets. */
  predicate FixedOctets(b: Octets) {
    && |b| >= 64
    && Says(b, 0, "RMPIMG01")
    && U16At(b, 8) == 1
    && U16At(b, 10) == 1
    && U16At(b, 12) == 64
    && U16At(b, 14) == 0
    && forall k :: 48 <= k < 64 ==> b[k] == 0
  }

  /** The 64-octet image header for sections of the given sizes. */
  predicate HeaderOctets(b: Octets, manifestSize: nat, payloadSize: nat, signatureSize: nat) {
    && FixedOctets(b)
    && U32At(b, 16) == 64
    && U32At(b, 20) == manifestSize
    && U32At(b, 24) == 64 + manifestSize
    && U32At(b, 28) == payloadSize
    && U32At(b, 32) == 64 + manifestSize + payloadSize
    && U32At(b, 36) == signatureSize
    && U32At(b, 40) == 64
    && U32At(b, 44) == manifestSize + payloadSize
  }

  /** A manifest section from `at` to `end`. */
  predicate ManifestOctets(b: Octets, at: nat, end: nat, m: Manifest) {
    var idEnd := at + 128 + |m.artifactId|;
    && idEnd <= end < idEnd + 4
    && (end - at) % 4 == 0
    && end <= |b|
    && Says(b, at, "RPMFST01")
    && U16At(b, at + 8) == 1
    && U16At(b, at + 10) == 128
    && U32At(b, at + 12) == end - at
    && U32At(b, at + 16) == m.target.vendorId
    && U32At(b, at + 20) == m.target.productId
    && U32At(b, at + 24) == m.target.hardwareFamily
    && U32At(b, at + 28) == m.revisionMin
    && U32At(b, at + 32) == m.revisionMax
    && U32At(b, at + 36) == m.target.componentId
    && U32At(b, at + 40) == m.securityEpoch
    && U16At(b, at + 44) == m.versionMajor
    && U16At(b, at + 46) == m.versionMinor
    && U16At(b, at + 48) == m.versionPatch
    && U16At(b, at + 50) == 1
    && U32At(b, at + 52) == m.payloadSize
    && b[at + 56..at + 88] == m.payloadDigest
    && U16At(b, at + 88) == 1
    && U16At(b, at + 90) == m.requiredRole
    && U16At(b, at + 92) == m.signatureThreshold
    && U16At(b, at + 94) == m.signatureCount
    && b[at + 96..at + 104] == m.keyId
    && U16At(b, at + 104) == m.trialMaxAttempts
    && U16At(b, at + 106) == m.rollbackPolicy
    && U32At(b, at + 108) == m.trialProbationMs
    && U16At(b, at + 112) == |m.artifactId|
    && U16At(b, at + 114) == m.requirementCount
    && U16At(b, at + 116) == m.dependencyCount
    && U16At(b, at + 118) == m.healthRequiredCount
    && (forall k :: at + 120 <= k < at + 128 ==> b[k] == 0)
    && b[at + 128..idEnd] == m.artifactId
    && forall k :: idEnd <= k < end ==> b[k] == 0
  }

  /** A signature section from `at` to the end of the file, over a signed region of the given size. */
  predicate SignatureOctetsAt(b: Octets, at: nat, signedSize: nat, r: SignatureRecord) {
    && |b| == at + 192
    && Says(b, at, "RPSIGN01")
    && U16At(b, at + 8) == 1
    && U16At(b, at + 10) == 32
    && U32At(b, at + 12) == 192
    && U32At(b, at + 16) == 64
    && U32At(b, at + 20) == signedSize
    && U16At(b, at + 24) == 1
    && U16At(b, at + 26) == 1
    && U16At(b, at + 28) == 160
    && U16At(b, at + 30) == 0
    && b[at + 32..at + 40] == r.keyId
    && U16At(b, at + 40) == 1
    && U16At(b, at + 42) == 1
    && U16At(b, at + 44) == 64
    && U16At(b, at + 46) == 65
    && b[at + 48..at + 112] == r.signature
    && b[at + 112..at + 177] == r.publicKey
    && forall k :: at + 177 <= k < at + 192 ==> b[k] == 0
  }

  /** The whole file. */
  predicate FileOctets(b: Octets, i: Image) {
    var manifestSize := |b| - 64 - |i.payload| - 192;
    && manifestSize >= 0
    && HeaderOctets(b, manifestSize, |i.payload|, 192)
    && ManifestOctets(b, 64, 64 + manifestSize, i.manifest)
    && b[64 + manifestSize..|b| - 192] == i.payload
    && SignatureOctetsAt(b, |b| - 192, manifestSize + |i.payload|, i.record)
  }

  // ---------------------------------------------------------------------------
  // The layout relation is these tables
  // ---------------------------------------------------------------------------

  lemma SaysMagic(b: Octets, at: nat, text: string, magic: Octets)
    requires |text| == |magic| && at + |text| <= |b|
    requires forall k :: 0 <= k < |text| ==> magic[k] == text[k] as int
    ensures Says(b, at, text) <==> b[at..at + |text|] == magic
  {
    var s := b[at..at + |text|];
    assert forall k :: 0 <= k < |text| ==> s[k] == b[at + k];
    if Says(b, at, text) {
      assert forall k :: 0 <= k < |text| ==> s[k] == magic[k];
    }
  }

  lemma FixedInOctets(b: Octets)
    ensures |b| >= 64 ==> (HeaderPreamble(b) <==> FixedOctets(b))
  {
    hide U16At, U32At, Says;
    if |b| >= 64 {
      SaysMagic(b, 0, "RMPIMG01", IMAGE_MAGIC);
    }
  }

  lemma HeaderInOctets(b: Octets, manifestSize: nat, payloadSize: nat, signatureSize: nat)
    ensures |b| == 64 + manifestSize + payloadSize + signatureSize
            ==> (SectionTable(b, manifestSize, payloadSize, signatureSize)
                 <==> HeaderOctets(b, manifestSize, payloadSize, signatureSize))
  {
    hide U16At, U32At, HeaderPreamble, FixedOctets;
    FixedInOctets(b);
  }

  /** What a section reads at an offset, its buffer reads further on. */
  lemma SectionReads(b: Octets, at: nat, end: nat)
    requires at <= end <= |b|
    ensures forall o: nat {:trigger U16At(b[at..end], o)} ::
              o + 2 <= end - at ==> U16At(b[at..end], o) == U16At(b, at + o)
    ensures forall o: nat {:trigger U32At(b[at..end], o)} ::
              o + 4 <= end - at ==> U32At(b[at..end], o) == U32At(b, at + o)
  {
    SameOctetsReadSame(b[at..end], b, 0, end - at, at);
  }

  lemma ZeroedSection(b: Octets, at: nat, end: nat, lo: nat, hi: nat)
    requires at <= end <= |b| && lo <= hi <= end - at
    ensures Zeroed(b[at..end], lo, hi) <==> forall k :: at + lo <= k < at + hi ==> b[k] == 0
  {
    assert forall k :: at + lo <= k < at + hi ==> b[k] == b[at..end][k - at];
  }

  lemma ManifestInOctets(b: Octets, at: nat, end: nat, m: Manifest)
    requires at <= end <= |b|
    ensures ManifestLayout(b[at..end], m) <==> ManifestOctets(b, at, end, m)
  {
    hide U16At, U32At, Says, Zeroed;
    var s := b[at..end];
    if |s| >= 128 + |m.artifactId| {
      SectionReads(b, at, end);
      SaysMagic(b, at, "RPMFST01", MANIFEST_MAGIC);
      SliceOfSlice(b, at, end, 0, 8);
      SliceOfSlice(b, at, end, 56, 88);
      SliceOfSlice(b, at, end, 96, 104);
      SliceOfSlice(b, at, end, 128, 128 + |m.artifactId|);
      ZeroedSection(b, at, end, 120, 128);
      ZeroedSection(b, at, end, 128 + |m.artifactId|, |s|);
    }
  }

  lemma SignatureInOctets(b: Octets, at: nat, signedSize: nat, r: SignatureRecord)
    requires at <= |b|
    ensures SignatureLayout(b[at..], signedSize, r) <==> SignatureOctetsAt(b, at, signedSize, r)
  {
    hide U16At, U32At, Says, Zeroed;
    assert b[at..] == b[at..|b|];
    if |b| == at + 192 {
      SectionReads(b, at, |b|);
      SaysMagic(b, at, "RPSIGN01", SIGNATURE_MAGIC);
      SliceOfSlice(b, at, |b|, 0, 8);
      SliceOfSlice(b, at, |b|, 32, 40);
      SliceOfSlice(b, at, |b|, 48, 112);
      SliceOfSlice(b, at, |b|, 112, 177);
      ZeroedSection(b, at, |b|, 177, 192);
    }
  }

  /** The least multiple of four that holds header and artifact ID is the only one within three octets. */
  lemma SizeInOctets(manifestSize: nat, artifactIdLen: nat)
    ensures manifestSize == ManifestSize(artifactIdLen)
            <==> 128 + artifactIdLen <= manifestSize < 132 + artifactIdLen && manifestSize % 4 == 0
  {
  }

  lemma TableSize(b: Octets, manifestSize: nat, payloadSize: nat, signatureSize: nat)
    ensures SectionTable(b, manifestSize, payloadSize, signatureSize)
            ==> |b| == 64 + manifestSize + payloadSize + signatureSize
  {
  }

  /** An image carries `i` exactly when every octet of the file is what the tables say. */
  lemma ImageInOctets(b: Octets, i: Image)
    ensures ImageLayout(b, i) <==> FileOctets(b, i)
  {
    hide SectionTable, ManifestLayout, SignatureLayout, HeaderOctets, ManifestSize;
    var manifestSize := |b| - 64 - |i.payload| - 192;
    if manifestSize >= 0 {
      var end := 64 + manifestSize;
      SizeInOctets(manifestSize, |i.manifest.artifactId|);
      HeaderInOctets(b, manifestSize, |i.payload|, 192);
      ManifestInOctets(b, 64, end, i.manifest);
      SignatureInOctets(b, |b| - 192, manifestSize + |i.payload|, i.record);
      assert ManifestOctets(b, 64, end, i.manifest) ==> manifestSize == ManifestSize(|i.manifest.artifactId|);
    }
    TableSize(b, ManifestSize(|i.manifest.artifactId|), |i.payload|, 192);
  }

  // ---------------------------------------------------------------------------
  // What the parsers do with it
  // ---------------------------------------------------------------------------

  /** The values a manifest may have. */
  predicate SoundManifest(m: Manifest) {
    && 1 <= |m.artifactId| <= 128
    && m.revisionMin <= m.revisionMax
    && m.requiredRole in {1, 2, 3, 4, 5, 6}
    && m.signatureThreshold == 1
    && m.signatureCount == 1
    && m.rollbackPolicy in {0, 1}
    && m.requirementCount == 0
    && m.dependencyCount == 0
    && m.healthRequiredCount == 0
  }

  /** The values an image may have. */
  predicate SoundImage(i: Image) {
    && SoundManifest(i.manifest)
    && i.manifest.payloadSize == |i.payload|
    && i.record.keyId == i.manifest.keyId
    && i.record.publicKey[0] == 0x04
  }

  /** The device accepts a file exactly when every octet of it is what the tables say for sound values. */
  lemma DeviceAcceptsExactly(b: Octets)
    ensures ImageAccepted(b) <==> exists i :: FileOctets(b, i) && SoundImage(i)
    ensures ImageAccepted(b) ==> FileOctets(b, ImageOf(b)) && SoundImage(ImageOf(b))
  {
    hide ImageLayout, FileOctets;
    if i :| FileOctets(b, i) && SoundImage(i) {
      ImageInOctets(b, i);
      ImageLayoutReadsBack(b, i);
    }
    if ImageAccepted(b) {
      ImageInOctets(b, ImageOf(b));
    }
  }

  /** The same for a manifest section alone. */
  lemma DeviceAcceptsManifestExactly(b: Octets, at: nat, end: nat)
    requires at <= end <= |b|
    ensures ManifestAccepted(b[at..end]) <==> exists m :: ManifestOctets(b, at, end, m) && SoundManifest(m)
  {
    hide ManifestLayout, ManifestOctets;
    var s := b[at..end];
    if m :| ManifestOctets(b, at, end, m) && SoundManifest(m) {
      ManifestInOctets(b, at, end, m);
      ManifestLayoutReadsBack(s, m);
    }
    if ManifestAccepted(s) {
      ManifestInOctets(b, at, end, ManifestOf(s));
    }
  }

  /** The header is right and its section table ends where the file does. */
  predicate TableOctets(b: Octets) {
    && |b| >= 64
    && |b| == 64 + U32At(b, 20) + U32At(b, 28) + U32At(b, 36)
    && HeaderOctets(b, U32At(b, 20), U32At(b, 28), U32At(b, 36))
  }

  /** The header is right as far as the first section end that does not fit in a size_t. */
  predicate OverflowOctets(b: Octets, sizeMax: nat) {
    && FixedOctets(b)
    && U32At(b, 16) == 64
    && (64 + U32At(b, 20) > sizeMax
        || (U32At(b, 24) == 64 + U32At(b, 20)
            && (U32At(b, 24) + U32At(b, 28) > sizeMax
                || (U32At(b, 32) == U32At(b, 24) + U32At(b, 28)
                    && U32At(b, 32) + U32At(b, 36) > sizeMax))))
  }

  /** Which status the device's parser gives, in octets; every file that has none of the three is IMAGE_FORMAT. */
  lemma DeviceStatusExactly(b: Octets, sizeMax: nat)
    requires |b| <= sizeMax
    ensures var status := C.ImageStatus(b, sizeMax);
            && (status == OK <==> exists i :: FileOctets(b, i) && SoundImage(i))
            && (status == ERR_OVERFLOW <==> OverflowOctets(b, sizeMax))
            && (status == ERR_MANIFEST_FORMAT <==>
                  TableOctets(b)
                  && forall m :: !(ManifestOctets(b, 64, 64 + U32At(b, 20), m) && SoundManifest(m)))
            && status in {OK, ERR_OVERFLOW, ERR_MANIFEST_FORMAT, ERR_IMAGE_FORMAT}
  {
    hide U16At, U32At, Says, FileOctets, ManifestOctets, ImageAccepted, ManifestAccepted, HeaderPreamble;
    DeviceAcceptsExactly(b);
    FixedInOctets(b);
    C.ConsistentBounds(b, sizeMax);
    AcceptanceFromParts(b);
    if |b| >= 64 {
      HeaderInOctets(b, U32At(b, 20), U32At(b, 28), U32At(b, 36));
      if TableConsistent(b) {
        DeviceAcceptsManifestExactly(b, 64, 64 + U32At(b, 20));
      }
    }
  }

  /** On acceptance every field of the device's view is a reading or an address at a fixed place in the file. */
  lemma DeviceViewExactly(b: Octets)
    requires ImageAccepted(b)
    ensures |b| >= 64 + 128 + 192
    ensures var s := |b| - 192;
            C.ViewOfImage(ImageOf(b), |b|) == C.ImageView(
              M.At(0), |b|, 64, U32At(b, 20), 64 + U32At(b, 20), U32At(b, 28), s, 192, 64, U32At(b, 44),
              M.ManifestView(
                1, M.At(192), U16At(b, 176), Target(U32At(b, 80), U32At(b, 84), U32At(b, 88), U32At(b, 100)),
                U32At(b, 92), U32At(b, 96), U32At(b, 104), U16At(b, 108), U16At(b, 110), U16At(b, 112), 1,
                U32At(b, 116), M.At(120), 32, 1, U16At(b, 154), U16At(b, 156), U16At(b, 158), M.At(160), 8,
                U16At(b, 168), U32At(b, 172), U16At(b, 170), U16At(b, 178), U16At(b, 180), U16At(b, 182)),
              C.SignatureView(M.At(s + 32), 8, 1, M.At(s + 48), 64, M.At(s + 112), 65))
  {
    hide U16At, U32At, Says, ImageAccepted, ManifestSize;
    DeviceAcceptsExactly(b);
    AcceptedSizes(b);
  }

  /** The point that 65 octets from `at` on spell, without their first octet. */
  function PointAt(b: Octets, at: nat): VerifyingKey
    requires at + 65 <= |b|
  {
    VerifyingKey(b[at + 1..at + 33], b[at + 33..at + 65])
  }

  lemma KeyInOctets(b: Octets, i: Image)
    ensures FileOctets(b, i) ==>
              && |b| >= 192
              && i.record.publicKey == b[|b| - 80..|b| - 15]
              && PointAt(b, |b| - 80) == VerifyingKey(i.record.publicKey[1..33], i.record.publicKey[33..65])
  {
    hide HeaderOctets, ManifestOctets, Says;
    if FileOctets(b, i) {
      SliceOfSlice(b, |b| - 80, |b| - 15, 1, 33);
      SliceOfSlice(b, |b| - 80, |b| - 15, 33, 65);
    }
  }

  /** What the host checks beyond the device, in octets. */
  predicate HostOctets(p: Primitives, b: Octets, i: Image)
    requires |b| >= 192
  {
    && ValidUtf8(i.manifest.artifactId)
    && p.onCurve(PointAt(b, |b| - 80))
    && p.sha256(b[|b| - 80..|b| - 15])[..8] == i.manifest.keyId
  }

  lemma HostChecksInOctets(p: Primitives, b: Octets, i: Image)
    requires FileOctets(b, i) && SoundImage(i)
    ensures Rust.HostChecks(p, i) <==> HostOctets(p, b, i)
  {
    hide FileOctets, ValidUtf8;
    KeyInOctets(b, i);
  }

  /**
   * The host parses a file exactly when the device accepts it, its artifact ID is UTF-8, and its key
   * is a curve point whose digest starts with its key ID; the result is what the tables say is there.
   */
  lemma HostParsesExactly(p: Primitives, b: Octets)
    ensures Rust.ParseImage(p, b).Ok? <==> exists i :: FileOctets(b, i) && SoundImage(i) && HostOctets(p, b, i)
    ensures var r := Rust.ParseImage(p, b);
            r.Ok? ==>
              && |b| >= 64 + 128 + 192
              && 64 + U32At(b, 20) <= |b| - 192
              && r.value.manifestRange == Rust.Range(64, 64 + U32At(b, 20))
              && r.value.payloadRange == Rust.Range(64 + U32At(b, 20), |b| - 192)
              && r.value.signatureRange == Rust.Range(|b| - 192, |b|)
              && r.value.signedRegionRange == Rust.Range(64, |b| - 192)
              && FileOctets(b, Image(r.value.manifest, b[64 + U32At(b, 20)..|b| - 192], r.value.signature))
  {
    hide U32At, ImageAccepted, ManifestSize, ImageLayout, Rust.ParseImage, FileOctets, Rust.HostChecks, HostOctets,
         ManifestOf, RecordOf;
    Rust.ParseImageExact(p, b);
    DeviceAcceptsExactly(b);
    AcceptedSizes(b);
    if i :| FileOctets(b, i) && SoundImage(i) && HostOctets(p, b, i) {
      HostChecksInOctets(p, b, i);
      ImageInOctets(b, i);
      ImageLayoutReadsBack(b, i);
    }
    if ImageAccepted(b) {
      HostChecksInOctets(p, b, ImageOf(b));
    }
  }

  /** The verification report says valid exactly when signature, digest, target and epoch all are. */
  lemma HostVerdictExactly(p: Primitives, b: Octets, device: R.Option<Target>, minimumSecurityEpoch: U32)
    ensures var report := Rust.VerifyImage(p, b, device, minimumSecurityEpoch);
            report.Ok? && report.value.IsValid() <==>
            && Rust.HostAccepted(p, b)
            && var i := ImageOf(b);
            && p.validScalars(i.record.signature)
            && p.verify(PointAt(b, |b| - 80), b[64..|b| - 192], i.record.signature)
            && p.sha256(i.payload) == i.manifest.payloadDigest
            && (device.Some? ==>
                  && i.manifest.target.vendorId == device.value.vendorId
                  && i.manifest.target.productId == device.value.productId
                  && i.manifest.target.hardwareFamily == device.value.hardwareFamily
                  && i.manifest.target.componentId == device.value.componentId)
            && i.manifest.securityEpoch >= minimumSecurityEpoch
  {
    hide ImageLayout, Rust.ParseImage, Rust.VerifyImage, ManifestOf, ManifestSize, ValidUtf8, FileOctets;
    Rust.ParseImageExact(p, b);
    if Rust.HostAccepted(p, b) {
      DeviceAcceptsExactly(b);
      KeyInOctets(b, ImageOf(b));
      Rust.LayoutVerifies(p, b, ImageOf(b), device, minimumSecurityEpoch);
    } else {
      RejectedIsNotVerified(p, b, device, minimumSecurityEpoch);
    }
  }

  lemma RejectedIsNotVerified(p: Primitives, b: Octets, device: R.Option<Target>, minimumSecurityEpoch: U32)
    ensures Rust.ParseImage(p, b).Err? ==> Rust.VerifyImage(p, b, device, minimumSecurityEpoch).Err?
  {
    hide Rust.ParseImage, ImageAccepted;
  }
}
