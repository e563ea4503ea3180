/** The host tool's signing pipeline, from a manifest document to a closing parse. */
module RustSigner {
  import opened Bytes
  import opened Layout
  import opened Results
  import opened Utf8
  import opened Crypto
  import opened TextForms
  import opened RustEncoder
  import opened RustParser

  datatype Trial = Trial(maxAttempts: U16, probationPeriodMs: U32)

  datatype ManifestDocument = ManifestDocument(
    artifactId: Text,
    target: Target,
    revisionMin: U32,
    revisionMax: U32,
    version: Text,
    securityEpoch: U32,
    signatureRole: Option<Text>,
    rollbackPolicy: Option<Text>,
    keyId: Option<Text>,
    trial: Option<Trial>)

  /** The octets of an ASCII literal. */
  function Literal(s: string): (r: Octets)
    requires forall k :: 0 <= k < |s| ==> s[k] as int <= 0x7F
    ensures |r| == |s| && Ascii(r)
  {
    seq(|s|, k requires 0 <= k < |s| => s[k] as int)
  }

  function ParseRole(role: Octets): (r: Result<U16>)
    ensures r.Ok? ==> 1 <= r.value <= 6
  {
    if role == Literal("RELEASE") then Ok(1)
    else if role == Literal("SECURITY") then Ok(2)
    else if role == Literal("BOOT_MANAGER") then Ok(3)
    else if role == Literal("RECOVERY") then Ok(4)
    else if role == Literal("FACTORY") then Ok(5)
    else if role == Literal("DEVELOPMENT") then Ok(6)
    else Err
  }

  function ParseRollbackPolicy(policy: Octets): (r: Result<U16>)
    ensures r.Ok? ==> r.value <= 1
  {
    if policy == Literal("none") then Ok(0)
    else if policy == Literal("fallback") then Ok(1)
    else Err
  }

  function IntoManifest(document: ManifestDocument, payloadSize: U32, payloadDigest: Digest, keyId: KeyId)
    : Result<Manifest>
  {
    if document.artifactId == [] then Err else
    if |document.artifactId| > ARTIFACT_ID_MAX then Err else
    if 0 in document.artifactId then Err else
    if document.revisionMin > document.revisionMax then Err else
    var version :- ParseSemverCore(document.version);
    var role :- ParseRole(if document.signatureRole.Some? then document.signatureRole.value else Literal("RELEASE"));
    var rollbackPolicy :-
      ParseRollbackPolicy(if document.rollbackPolicy.Some? then document.rollbackPolicy.value else Literal("fallback"));
    var trial := if document.trial.Some? then document.trial.value else Trial(0, 0);
    Ok(Manifest(
         document.artifactId, document.target, document.revisionMin, document.revisionMax, document.securityEpoch,
         version.0, version.1, version.2, payloadSize, payloadDigest, role, 1, 1, keyId, trial.maxAttempts,
         trial.probationPeriodMs, rollbackPolicy, 0, 0, 0))
  }

  /**
   * A document that becomes a manifest at all becomes one both parsers admit. The converse fails for
   * an artifact ID with a NUL octet, which the parsers take and the tool refuses to write.
   */
  lemma IntoManifestAdmissible(document: ManifestDocument, payloadSize: U32, payloadDigest: Digest, keyId: KeyId)
    ensures var r := IntoManifest(document, payloadSize, payloadDigest, keyId);
            r.Ok? ==>
              && Admissible(r.value)
              && r.value.artifactId == document.artifactId
              && 0 !in document.artifactId
              && r.value.target == document.target
              && r.value.securityEpoch == document.securityEpoch
              && r.value.payloadSize == payloadSize
              && r.value.payloadDigest == payloadDigest
              && r.value.keyId == keyId
  {
    hide ParseSemverCore, ParseRole, ParseRollbackPolicy, Literal, ValidUtf8;
  }

  function RoleName(role: U16): Octets {
    if role == 1 then Literal("RELEASE")
    else if role == 2 then Literal("SECURITY")
    else if role == 3 then Literal("BOOT_MANAGER")
    else if role == 4 then Literal("RECOVERY")
    else if role == 5 then Literal("FACTORY")
    else if role == 6 then Literal("DEVELOPMENT")
    else Literal("UNKNOWN")
  }

  function RollbackPolicyName(policy: U16): Octets {
    if policy == 0 then Literal("none") else if policy == 1 then Literal("fallback") else Literal("unknown")
  }

  /** Naming a role and parsing the name gives the role back, for exactly the known roles. */
  lemma RoleNameRoundTrip(role: U16)
    ensures ParseRole(RoleName(role)) == if 1 <= role <= 6 then Ok(role) else Err
  {
    var name := RoleName(role);
    assert |Literal("SECURITY")| == |Literal("RECOVERY")| && Literal("SECURITY")[0] != Literal("RECOVERY")[0];
    assert |Literal("RELEASE")| == |Literal("FACTORY")| && Literal("RELEASE")[0] != Literal("FACTORY")[0];
    assert Literal("UNKNOWN")[0] !in {Literal("RELEASE")[0], Literal("FACTORY")[0]};
  }

  lemma RollbackPolicyNameRoundTrip(policy: U16)
    ensures ParseRollbackPolicy(RollbackPolicyName(policy)) == if policy <= 1 then Ok(policy) else Err
  {
  }

  /** `text` is the ASCII string `s`. */
  predicate IsText(text: Octets, s: string) {
    |text| == |s| && forall k :: 0 <= k < |s| ==> text[k] == s[k] as int
  }

  const ROLE_NAMES: seq<string> := ["RELEASE", "SECURITY", "BOOT_MANAGER", "RECOVERY", "FACTORY", "DEVELOPMENT"]
  const ROLLBACK_POLICY_NAMES: seq<string> := ["none", "fallback"]

  predicate NamesRole(text: Octets, role: U16) {
    1 <= role <= 6 && IsText(text, ROLE_NAMES[role - 1])
  }

  predicate NamesRollbackPolicy(text: Octets, policy: U16) {
    policy <= 1 && IsText(text, ROLLBACK_POLICY_NAMES[policy])
  }

  lemma LiteralIsText(text: Octets, s: string)
    requires forall k :: 0 <= k < |s| ==> s[k] as int <= 0x7F
    ensures text == Literal(s) <==> IsText(text, s)
  {
  }

  /** The six names a role is parsed from, and what each gives. */
  lemma RoleParsesExactly(text: Octets, role: U16)
    ensures ParseRole(text) == Ok(role) <==> NamesRole(text, role)
  {
    hide Literal, IsText;
    RoleNameRoundTrip(role);
    LiteralIsText(text, "RELEASE");
    LiteralIsText(text, "SECURITY");
    LiteralIsText(text, "BOOT_MANAGER");
    LiteralIsText(text, "RECOVERY");
    LiteralIsText(text, "FACTORY");
    LiteralIsText(text, "DEVELOPMENT");
  }

  /** What stands for a role or policy that has no name. */
  lemma UnknownNames(role: U16, policy: U16)
    ensures !(1 <= role <= 6) ==> IsText(RoleName(role), "UNKNOWN")
    ensures policy > 1 ==> IsText(RollbackPolicyName(policy), "unknown")
  {
    LiteralIsText(RoleName(role), "UNKNOWN");
    LiteralIsText(RollbackPolicyName(policy), "unknown");
  }

  lemma RollbackPolicyParsesExactly(text: Octets, policy: U16)
    ensures ParseRollbackPolicy(text) == Ok(policy) <==> NamesRollbackPolicy(text, policy)
  {
    hide Literal, IsText;
    RollbackPolicyNameRoundTrip(policy);
    LiteralIsText(text, "none");
    LiteralIsText(text, "fallback");
  }

  /** A role left out is RELEASE; one given is named. */
  predicate RoleOf(document: ManifestDocument, role: U16) {
    if document.signatureRole.None? then role == 1
    else NamesRole(document.signatureRole.value, role)
  }

  /** A rollback policy left out is fallback; one given is named. */
  predicate RollbackPolicyOf(document: ManifestDocument, policy: U16) {
    if document.rollbackPolicy.None? then policy == 1
    else NamesRollbackPolicy(document.rollbackPolicy.value, policy)
  }

  /** Which documents convert, and to what: every field copied, spelled, fixed or defaulted. */
  lemma IntoManifestExactly(document: ManifestDocument, payloadSize: U32, payloadDigest: Digest, keyId: KeyId,
                            m: Manifest)
    ensures IntoManifest(document, payloadSize, payloadDigest, keyId) == Ok(m) <==>
            && 1 <= |document.artifactId| <= 128
            && 0 !in document.artifactId
            && document.revisionMin <= document.revisionMax
            && SpellsVersion(document.version, m.versionMajor, m.versionMinor, m.versionPatch)
            && RoleOf(document, m.requiredRole)
            && RollbackPolicyOf(document, m.rollbackPolicy)
            && m.trialMaxAttempts == (if document.trial.None? then 0 else document.trial.value.maxAttempts)
            && m.trialProbationMs == (if document.trial.None? then 0 else document.trial.value.probationPeriodMs)
            && (m.artifactId, m.target, m.revisionMin, m.revisionMax, m.securityEpoch)
               == (document.artifactId, document.target, document.revisionMin, document.revisionMax,
                   document.securityEpoch)
            && (m.payloadSize, m.payloadDigest, m.keyId) == (payloadSize, payloadDigest, keyId)
            && (m.signatureThreshold, m.signatureCount) == (1, 1)
            && (m.requirementCount, m.dependencyCount, m.healthRequiredCount) == (0, 0, 0)
  {
    hide ParseSemverCore, SpellsVersion, ParseRole, ParseRollbackPolicy, NamesRole, NamesRollbackPolicy;
    VersionParsesExactly(document.version, m.versionMajor, m.versionMinor, m.versionPatch);
    DefaultNames();
    var role := if document.signatureRole.Some? then document.signatureRole.value else Literal("RELEASE");
    RoleParsesExactly(role, m.requiredRole);
    var policy := if document.rollbackPolicy.Some? then document.rollbackPolicy.value else Literal("fallback");
    RollbackPolicyParsesExactly(policy, m.rollbackPolicy);
  }

  lemma DefaultNames()
    ensures ParseRole(Literal("RELEASE")) == Ok(1) && ParseRollbackPolicy(Literal("fallback")) == Ok(1)
  {
    RoleNameRoundTrip(1);
    RollbackPolicyNameRoundTrip(1);
  }

  lemma NamesAreText(major: U16, minor: U16, patch: U16, role: U16, policy: U16)
    ensures ValidUtf8(VersionString(major, minor, patch)) && ValidUtf8(RoleName(role))
    ensures ValidUtf8(RollbackPolicyName(policy))
  {
    assert Ascii(VersionString(major, minor, patch)) && Ascii(RoleName(role)) && Ascii(RollbackPolicyName(policy)) by {
      hide Literal;
    }
    hide Literal, VersionString, RoleName, RollbackPolicyName;
    AsciiIsUtf8(VersionString(major, minor, patch));
    AsciiIsUtf8(RoleName(role));
    AsciiIsUtf8(RollbackPolicyName(policy));
  }

  /** The document that spells out a manifest. */
  function DocumentOf(m: Manifest): ManifestDocument
    requires ValidUtf8(m.artifactId)
  {
    NamesAreText(m.versionMajor, m.versionMinor, m.versionPatch, m.requiredRole, m.rollbackPolicy);
    AsciiIsUtf8(HexOf(m.keyId));
    ManifestDocument(
      m.artifactId, m.target, m.revisionMin, m.revisionMax,
      VersionString(m.versionMajor, m.versionMinor, m.versionPatch), m.securityEpoch,
      Some(RoleName(m.requiredRole)), Some(RollbackPolicyName(m.rollbackPolicy)), Some(HexOf(m.keyId)),
      Some(Trial(m.trialMaxAttempts, m.trialProbationMs)))
  }

  /**
   * Every manifest the parsers admit comes back from the document that spells it out, unless its
   * artifact ID has a NUL octet: the parsers take those, the signing tool does not.
   */
  lemma DocumentRoundTrip(m: Manifest)
    requires Admissible(m) && ValidUtf8(m.artifactId)
    ensures IntoManifest(DocumentOf(m), m.payloadSize, m.payloadDigest, m.keyId)
            == if 0 in m.artifactId then Err else Ok(m)
    ensures ParsedKeyId(DocumentOf(m).keyId.value) == Parsed(m.keyId)
  {
    hide ParseSemverCore, VersionString, ParseRole, RoleName, ParseRollbackPolicy, RollbackPolicyName, Literal,
         ParsedKeyId, HexOf;
    VersionRoundTrip(m.versionMajor, m.versionMinor, m.versionPatch);
    RoleNameRoundTrip(m.requiredRole);
    RollbackPolicyNameRoundTrip(m.rollbackPolicy);
    KeyIdRoundTrip(m.keyId);
  }

  /** Encodes the three sections and the image around them. */
  method EncodeAll(i: Image) returns (r: Result<Octets>)
    ensures r.Ok? <==>
            && |i.manifest.artifactId| <= ARTIFACT_ID_MAX
            && IMAGE_HEADER_SIZE + ManifestSize(|i.manifest.artifactId|) + |i.payload| <= U32_MAX
    ensures r.Ok? ==> ImageLayout(r.value, i)
  {
    hide SectionTable, ManifestLayout, SignatureLayout;
    var manifestBytes :- EncodeManifest(i.manifest);
    ManifestLayoutSize(manifestBytes, i.manifest);
    var signedRegion := manifestBytes + i.payload;
    var signatureBytes := EncodeSignatureSection(i.record, signedRegion);
    if signatureBytes.Err? {
      return Err;
    }
    SignatureLayoutSize(signatureBytes.value, |signedRegion|, i.record);
    var image :- EncodeImage(manifestBytes, i.payload, signatureBytes.value);
    AssembledSections(image, manifestBytes, i.payload, signatureBytes.value);
    return Ok(image);
  }

  lemma ManifestLayoutSize(b: Octets, m: Manifest)
    ensures ManifestLayout(b, m) ==> |b| == ManifestSize(|m.artifactId|)
  {
  }

  lemma SignatureLayoutSize(b: Octets, signedSize: nat, r: SignatureRecord)
    ensures SignatureLayout(b, signedSize, r) ==> |b| == SIGNATURE_SECTION_SIZE
  {
  }

  lemma AssembledSections(image: Octets, manifest: Octets, payload: Octets, signature: Octets)
    requires |image| >= IMAGE_HEADER_SIZE && image[IMAGE_HEADER_SIZE..] == manifest + payload + signature
    ensures var payloadOffset := IMAGE_HEADER_SIZE + |manifest|;
            var signatureOffset := payloadOffset + |payload|;
            && |image| == signatureOffset + |signature|
            && image[IMAGE_HEADER_SIZE..payloadOffset] == manifest
            && image[payloadOffset..signatureOffset] == payload
            && image[signatureOffset..] == signature
            && image[IMAGE_HEADER_SIZE..signatureOffset] == manifest + payload
  {
    var body := image[IMAGE_HEADER_SIZE..];
    var m, s := |manifest|, |manifest| + |payload|;
    assert image[IMAGE_HEADER_SIZE..IMAGE_HEADER_SIZE + m] == body[..m] == manifest;
    assert image[IMAGE_HEADER_SIZE + m..IMAGE_HEADER_SIZE + s] == body[m..s] == payload;
    assert image[IMAGE_HEADER_SIZE + s..] == body[s..] == signature;
    assert image[IMAGE_HEADER_SIZE..IMAGE_HEADER_SIZE + s] == body[..s] == manifest + payload;
  }

  // ---------------------------------------------------------------------------
  // Signing
  // ---------------------------------------------------------------------------

  /** `Written` is an image on disk, whatever the parse that follows says of it. */
  datatype SignOutcome = Refused | Aborted | Written(image: Octets, closing: Result<ParsedImage>)

  /** The key ID put in the image: the override if there is one, else the derived one. */
  function ChosenKeyId(p: Primitives, key: SigningKey, keyIdOverride: Option<Text>): HexOutcome {
    if keyIdOverride.Some? then ParsedKeyId(keyIdOverride.value) else Parsed(p.DeriveKeyId(p.publicKey(key)))
  }

  /** The image `sign_image` sets out to write. */
  function Signed(p: Primitives, key: SigningKey, payload: Octets, m: Manifest, signedRegion: Octets): Image {
    Image(m, payload, SignatureRecord(
            m.keyId, p.sign(key, signedRegion), Primitives.ToEncodedPoint(p.publicKey(key))))
  }

  /** No override means the first eight octets of the key's digest; an override, the ID it spells. */
  lemma ChosenKeyIdExactly(p: Primitives, key: SigningKey, keyIdOverride: Option<Text>, keyId: KeyId)
    ensures ChosenKeyId(p, key, keyIdOverride) == Parsed(keyId) <==>
            if keyIdOverride.None? then keyId == p.sha256([0x04] + p.publicKey(key).x + p.publicKey(key).y)[..8]
            else SpellsKeyId(keyIdOverride.value, keyId)
  {
    hide ParsedKeyId, SpellsKeyId;
    if keyIdOverride.Some? {
      KeyIdParsesExactly(keyIdOverride.value, keyId);
    }
  }

  /** What a written image carries: payload and digest, a key ID named or derived, the signature and the key. */
  predicate SignedContents(p: Primitives, key: SigningKey, payload: Octets, document: ManifestDocument,
                           keyIdOverride: Option<Text>, image: Octets)
    requires HoldsImage(image)
  {
    var i := ImageOf(image);
    var encoded := [0x04] + p.publicKey(key).x + p.publicKey(key).y;
    && i.payload == payload
    && i.manifest.payloadDigest == p.sha256(payload)
    && i.manifest.keyId == i.record.keyId
    && (if keyIdOverride.None? then i.record.keyId == p.sha256(encoded)[..8]
        else SpellsKeyId(keyIdOverride.value, i.record.keyId))
    && (document.keyId.Some? ==> SpellsKeyId(document.keyId.value, i.record.keyId))
    && i.record.signature == p.sign(key, image[64..|image| - 192])
    && i.record.publicKey == encoded
  }

  lemma ContentsOfSigned(p: Primitives, key: SigningKey, payload: Octets, document: ManifestDocument,
                         keyIdOverride: Option<Text>, m: Manifest, image: Octets)
    requires |image| >= IMAGE_HEADER_SIZE + SIGNATURE_SECTION_SIZE
    requires ImageLayout(image, Signed(p, key, payload, m, SignedRegionOf(image)))
    requires m.payloadDigest == p.sha256(payload) && ChosenKeyId(p, key, keyIdOverride) == Parsed(m.keyId)
    requires document.keyId.Some? ==> ParsedKeyId(document.keyId.value) == Parsed(m.keyId)
    ensures HoldsImage(image) && SignedContents(p, key, payload, document, keyIdOverride, image)
  {
    hide ImageLayout, ParsedKeyId, SpellsKeyId, ManifestOf, RecordOf, HoldsImage;
    ImageLayoutReadsBack(image, Signed(p, key, payload, m, SignedRegionOf(image)));
    ChosenKeyIdExactly(p, key, keyIdOverride, m.keyId);
    if document.keyId.Some? {
      KeyIdParsesExactly(document.keyId.value, m.keyId);
    }
  }

  /** Verification succeeds, on this device at this minimum epoch, with every flag set. */
  predicate Verifies(p: Primitives, image: Octets, device: Target, minimumSecurityEpoch: U32) {
    var report := VerifyImage(p, image, Some(device), minimumSecurityEpoch);
    report.Ok? && report.value.IsValid()
  }

  method SignImage(p: Primitives, key: SigningKey, payload: Octets, document: ManifestDocument,
                   keyIdOverride: Option<Text>)
    returns (outcome: SignOutcome)
    ensures outcome.Written? <==>
            && 1 <= |payload| <= U32_MAX
            && ChosenKeyId(p, key, keyIdOverride).Parsed?
            && (document.keyId.Some? ==> ParsedKeyId(document.keyId.value) == ChosenKeyId(p, key, keyIdOverride))
            && IntoManifest(document, |payload|, p.sha256(payload), ChosenKeyId(p, key, keyIdOverride).keyId).Ok?
            && IMAGE_HEADER_SIZE + ManifestSize(|document.artifactId|) + |payload| <= U32_MAX
    ensures outcome.Aborted? <==>
            && 1 <= |payload| <= U32_MAX
            && (ChosenKeyId(p, key, keyIdOverride).Panicked?
                || (ChosenKeyId(p, key, keyIdOverride).Parsed? && document.keyId.Some?
                    && ParsedKeyId(document.keyId.value).Panicked?))
    ensures outcome.Written? ==>
              var m := IntoManifest(document, |payload|, p.sha256(payload), ChosenKeyId(p, key, keyIdOverride).keyId);
              && |outcome.image| >= IMAGE_HEADER_SIZE + SIGNATURE_SECTION_SIZE
              && ImageLayout(outcome.image, Signed(p, key, payload, m.value, SignedRegionOf(outcome.image)))
              && ImageAccepted(outcome.image)
              && outcome.closing == ParseImage(p, outcome.image)
    ensures outcome.Written? ==>
              SignedContents(p, key, payload, document, keyIdOverride, outcome.image)
    ensures outcome.Written? && p.Lawful() && keyIdOverride.None? ==> outcome.closing.Ok?
    ensures outcome.Written? && p.Lawful() ==>
              (outcome.closing.Ok? <==> ChosenKeyId(p, key, keyIdOverride).keyId == p.DeriveKeyId(p.publicKey(key)))
    ensures outcome.Written? && p.Lawful() && outcome.closing.Ok? ==>
              forall minimum: U32 :: minimum <= document.securityEpoch
                ==> Verifies(p, outcome.image, document.target, minimum)
  {
    hide IntoManifest, ImageLayout, ManifestLayout, SignatureLayout, SectionTable, ManifestSize,
         ParsedKeyId, ParseImage, Verifies, SignedContents;
    if |payload| > U32_MAX || payload == [] {
      return Refused;
    }
    var chosen: HexOutcome;
    if keyIdOverride.Some? {
      chosen := ParseKeyIdHex(keyIdOverride.value);
    } else {
      chosen := Parsed(p.DeriveKeyId(p.publicKey(key)));
    }
    if !chosen.Parsed? {
      return if chosen.Panicked? then Aborted else Refused;
    }
    if document.keyId.Some? {
      var declared := ParseKeyIdHex(document.keyId.value);
      if declared != chosen {
        return if declared.Panicked? then Aborted else Refused;
      }
    }
    var into := IntoManifest(document, |payload|, p.sha256(payload), chosen.keyId);
    if into.Err? {
      return Refused;
    }
    var m := into.value;
    IntoManifestAdmissible(document, |payload|, p.sha256(payload), chosen.keyId);
    var manifestBytes := EncodeManifest(m);
    if manifestBytes.Err? {
      return Refused;
    }
    ManifestLayoutSize(manifestBytes.value, m);
    var signedRegion := manifestBytes.value + payload;
    var record := SignatureRecord(
      chosen.keyId, p.sign(key, signedRegion), Primitives.ToEncodedPoint(p.publicKey(key)));
    var signatureBytes := EncodeSignatureSection(record, signedRegion);
    if signatureBytes.Err? {
      return Refused;
    }
    SignatureLayoutSize(signatureBytes.value, |signedRegion|, record);
    var image := EncodeImage(manifestBytes.value, payload, signatureBytes.value);
    if image.Err? {
      return Refused;
    }
    AssembledSections(image.value, manifestBytes.value, payload, signatureBytes.value);
    AssembledLayout(image.value, manifestBytes.value, payload, signatureBytes.value, m, record);
    assert SignedRegionOf(image.value) == signedRegion;
    ImageLayoutReadsBack(image.value, Signed(p, key, payload, m, signedRegion));
    ContentsOfSigned(p, key, payload, document, keyIdOverride, m, image.value);
    if p.Lawful() {
      ClosingParse(p, key, payload, m, image.value);
      forall minimum: U32 |
        m.keyId == p.DeriveKeyId(p.publicKey(key)) && minimum <= document.securityEpoch
        ensures Verifies(p, image.value, document.target, minimum)
      {
        SignedImageVerifies(p, key, payload, m, image.value, minimum);
      }
    }
    return Written(image.value, ParseImage(p, image.value));
  }

  lemma AssembledLayout(image: Octets, manifest: Octets, payload: Octets, signature: Octets,
                        m: Manifest, record: SignatureRecord)
    requires |image| == IMAGE_HEADER_SIZE + |manifest| + |payload| + |signature|
    requires image[IMAGE_HEADER_SIZE..] == manifest + payload + signature
    ensures SectionTable(image, |manifest|, |payload|, |signature|)
            && ManifestLayout(manifest, m)
            && SignatureLayout(signature, |manifest| + |payload|, record)
            ==> ImageLayout(image, Image(m, payload, record))
  {
    hide HeaderPreamble, SectionFields, TargetFields, ReleaseFields, SigningFields, PolicyFields, TailFields,
         SignatureHeader, SignatureRecordFields;
    AssembledSections(image, manifest, payload, signature);
  }

  /** A manifest fit to be signed with this payload. */
  predicate Signable(m: Manifest, payload: Octets) {
    Admissible(m) && ValidUtf8(m.artifactId) && m.payloadSize == |payload|
  }

  /**
   * Once an image is written, the closing parse succeeds exactly when the key ID in it is the one
   * derived from the signing key, so an override either agrees or leaves an unparsable artifact behind.
   */
  lemma ClosingParse(p: Primitives, key: SigningKey, payload: Octets, m: Manifest, image: Octets)
    requires p.Lawful() && Signable(m, payload) && |image| >= IMAGE_HEADER_SIZE + SIGNATURE_SECTION_SIZE
    requires ImageLayout(image, Signed(p, key, payload, m, SignedRegionOf(image)))
    ensures ParseImage(p, image).Ok? <==> m.keyId == p.DeriveKeyId(p.publicKey(key))
  {
    hide ImageLayout, ParseImage;
    LayoutParses(p, image, Signed(p, key, payload, m, SignedRegionOf(image)));
    assert p.validScalars(p.sign(key, SignedRegionOf(image)));
    DecodedPoint(p, p.publicKey(key));
  }

  /** Signing under the derived key ID gives an image that verifies for its own target and any epoch up to its own. */
  lemma SignedImageVerifies(p: Primitives, key: SigningKey, payload: Octets, m: Manifest, image: Octets,
                            minimumSecurityEpoch: U32)
    requires p.Lawful() && Signable(m, payload) && |image| >= IMAGE_HEADER_SIZE + SIGNATURE_SECTION_SIZE
    requires m.payloadDigest == p.sha256(payload) && m.keyId == p.DeriveKeyId(p.publicKey(key))
    requires minimumSecurityEpoch <= m.securityEpoch
    requires ImageLayout(image, Signed(p, key, payload, m, SignedRegionOf(image)))
    ensures Verifies(p, image, m.target, minimumSecurityEpoch)
  {
    hide ImageLayout, ParseImage, VerifyImage;
    DecodedPoint(p, p.publicKey(key));
    assert p.validScalars(p.sign(key, SignedRegionOf(image)));
    LayoutVerifies(p, image, Signed(p, key, payload, m, SignedRegionOf(image)), Some(m.target), minimumSecurityEpoch);
  }
}
