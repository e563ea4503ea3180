/** The device's manifest parser. */
module CManifest {
  import opened Bytes
  import opened Layout
  import opened Results
  import opened Status
  import opened CBinary

  /** A pointer into the caller's buffer, or NULL. */
  datatype Pointer = Null | At(offset: nat)

  datatype ManifestView = ManifestView(
    formatVersion: U32,
    artifactId: Pointer,
    artifactIdLen: nat,
    target: Target,
    revisionMin: U32,
    revisionMax: U32,
    securityEpoch: U32,
    versionMajor: U16,
    versionMinor: U16,
    versionPatch: U16,
    digestAlgorithm: U16,
    payloadSize: U32,
    payloadDigest: Pointer,
    payloadDigestLen: nat,
    signatureAlgorithm: U16,
    requiredRole: U16,
    signatureThreshold: U16,
    signatureCount: U16,
    keyId: Pointer,
    keyIdLen: nat,
    trialMaxAttempts: U16,
    trialProbationMs: U32,
    rollbackPolicy: U16,
    requirementCount: U16,
    dependencyCount: U16,
    healthRequiredCount: U16)

  const ZERO_MANIFEST_VIEW: ManifestView :=
    ManifestView(0, Null, 0, Target(0, 0, 0, 0), 0, 0, 0, 0, 0, 0, 0, 0, Null, 0, 0, 0, 0, 0, Null, 0, 0, 0, 0, 0, 0, 0)

  /** The view of a manifest section that carries `m` and starts at `base`. */
  function ViewOfManifest(m: Manifest, base: nat): ManifestView {
    ManifestView(
      1, At(base + MANIFEST_HEADER_SIZE), |m.artifactId|, m.target, m.revisionMin, m.revisionMax, m.securityEpoch,
      m.versionMajor, m.versionMinor, m.versionPatch, 1, m.payloadSize, At(base + 56), 32, 1, m.requiredRole,
      m.signatureThreshold, m.signatureCount, At(base + 96), 8, m.trialMaxAttempts, m.trialProbationMs,
      m.rollbackPolicy, m.requirementCount, m.dependencyCount, m.healthRequiredCount)
  }

  predicate ValidKeyRole(role: U16) {
    role == 1 || role == 2 || role == 3 || role == 4 || role == 5 || role == 6
  }

  predicate ValidRollbackPolicy(policy: U16) {
    policy == 0 || policy == 1
  }

  /** Octets 16 to 44. */
  method ParseTarget(bytes: array<Byte>, base: nat, len: nat, view: ManifestView)
    returns (status: Status, parsed: ManifestView)
    requires MANIFEST_HEADER_SIZE <= len && base + len <= bytes.Length
    ensures var b := bytes[base..base + len];
            if U32At(b, 28) <= U32At(b, 32)
            then status == OK && parsed == view.(
              target := Target(U32At(b, 16), U32At(b, 20), U32At(b, 24), U32At(b, 36)),
              revisionMin := U32At(b, 28), revisionMax := U32At(b, 32), securityEpoch := U32At(b, 40))
            else status == ERR_MANIFEST_FORMAT
  {
    parsed := view;
    var word: U32;
    status, word := ReadU32Le(bytes, base, len, 16);
    if status != OK { return; }
    parsed := parsed.(target := parsed.target.(vendorId := word));
    status, word := ReadU32Le(bytes, base, len, 20);
    if status != OK { return; }
    parsed := parsed.(target := parsed.target.(productId := word));
    status, word := ReadU32Le(bytes, base, len, 24);
    if status != OK { return; }
    parsed := parsed.(target := parsed.target.(hardwareFamily := word));
    status, word := ReadU32Le(bytes, base, len, 28);
    if status != OK { return; }
    parsed := parsed.(revisionMin := word);
    status, word := ReadU32Le(bytes, base, len, 32);
    if status != OK { return; }
    parsed := parsed.(revisionMax := word);
    if parsed.revisionMin > parsed.revisionMax {
      return ERR_MANIFEST_FORMAT, parsed;
    }
    status, word := ReadU32Le(bytes, base, len, 36);
    if status != OK { return; }
    parsed := parsed.(target := parsed.target.(componentId := word));
    status, word := ReadU32Le(bytes, base, len, 40);
    if status != OK { return; }
    parsed := parsed.(securityEpoch := word);
  }

  /** Octets 44 to 90. */
  method ParseRelease(bytes: array<Byte>, base: nat, len: nat, view: ManifestView)
    returns (status: Status, parsed: ManifestView)
    requires MANIFEST_HEADER_SIZE <= len && base + len <= bytes.Length
    ensures var b := bytes[base..base + len];
            if U16At(b, 50) == 1 && U16At(b, 88) == 1
            then status == OK && parsed == view.(
              versionMajor := U16At(b, 44), versionMinor := U16At(b, 46), versionPatch := U16At(b, 48),
              digestAlgorithm := 1, payloadSize := U32At(b, 52), payloadDigest := At(base + 56), payloadDigestLen := 32,
              signatureAlgorithm := 1)
            else status == ERR_MANIFEST_FORMAT
  {
    parsed := view;
    var half: U16;
    status, half := ReadU16Le(bytes, base, len, 44);
    if status != OK { return; }
    parsed := parsed.(versionMajor := half);
    status, half := ReadU16Le(bytes, base, len, 46);
    if status != OK { return; }
    parsed := parsed.(versionMinor := half);
    status, half := ReadU16Le(bytes, base, len, 48);
    if status != OK { return; }
    parsed := parsed.(versionPatch := half);
    status, half := ReadU16Le(bytes, base, len, 50);
    if status != OK { return; }
    parsed := parsed.(digestAlgorithm := half);
    if parsed.digestAlgorithm != 1 {
      return ERR_MANIFEST_FORMAT, parsed;
    }
    var word: U32;
    status, word := ReadU32Le(bytes, base, len, 52);
    if status != OK { return; }
    parsed := parsed.(payloadSize := word);
    parsed := parsed.(payloadDigest := At(base + 56), payloadDigestLen := 32);
    status, half := ReadU16Le(bytes, base, len, 88);
    if status != OK { return; }
    parsed := parsed.(signatureAlgorithm := half);
    if parsed.signatureAlgorithm != 1 {
      return ERR_MANIFEST_FORMAT, parsed;
    }
  }

  /** Octets 90 to 112. */
  method ParsePolicy(bytes: array<Byte>, base: nat, len: nat, view: ManifestView)
    returns (status: Status, parsed: ManifestView)
    requires MANIFEST_HEADER_SIZE <= len && base + len <= bytes.Length
    ensures var b := bytes[base..base + len];
            if 1 <= U16At(b, 90) <= 6 && U16At(b, 92) == U16At(b, 94) == 1 && U16At(b, 106) <= 1
            then status == OK && parsed == view.(
              requiredRole := U16At(b, 90), signatureThreshold := 1, signatureCount := 1,
              keyId := At(base + 96), keyIdLen := 8, trialMaxAttempts := U16At(b, 104), rollbackPolicy := U16At(b, 106),
              trialProbationMs := U32At(b, 108))
            else status == ERR_MANIFEST_FORMAT
  {
    parsed := view;
    var half: U16;
    status, half := ReadU16Le(bytes, base, len, 90);
    if status != OK { return; }
    parsed := parsed.(requiredRole := half);
    if !ValidKeyRole(parsed.requiredRole) {
      return ERR_MANIFEST_FORMAT, parsed;
    }
    status, half := ReadU16Le(bytes, base, len, 92);
    if status != OK { return; }
    parsed := parsed.(signatureThreshold := half);
    status, half := ReadU16Le(bytes, base, len, 94);
    if status != OK { return; }
    parsed := parsed.(signatureCount := half);
    if parsed.signatureThreshold != 1 || parsed.signatureCount != 1 {
      return ERR_MANIFEST_FORMAT, parsed;
    }
    parsed := parsed.(keyId := At(base + 96), keyIdLen := 8);
    status, half := ReadU16Le(bytes, base, len, 104);
    if status != OK { return; }
    parsed := parsed.(trialMaxAttempts := half);
    status, half := ReadU16Le(bytes, base, len, 106);
    if status != OK { return; }
    parsed := parsed.(rollbackPolicy := half);
    if !ValidRollbackPolicy(parsed.rollbackPolicy) {
      return ERR_MANIFEST_FORMAT, parsed;
    }
    var word: U32;
    status, word := ReadU32Le(bytes, base, len, 108);
    if status != OK { return; }
    parsed := parsed.(trialProbationMs := word);
  }

  /** Octets 114 to 120. */
  method ParseCounts(bytes: array<Byte>, base: nat, len: nat, view: ManifestView)
    returns (status: Status, parsed: ManifestView)
    requires MANIFEST_HEADER_SIZE <= len && base + len <= bytes.Length
    ensures var b := bytes[base..base + len];
            if U16At(b, 114) == U16At(b, 116) == U16At(b, 118) == 0
            then status == OK && parsed == view.(requirementCount := 0, dependencyCount := 0, healthRequiredCount := 0)
            else status == ERR_MANIFEST_FORMAT
  {
    parsed := view;
    var half: U16;
    status, half := ReadU16Le(bytes, base, len, 114);
    if status != OK { return; }
    parsed := parsed.(requirementCount := half);
    status, half := ReadU16Le(bytes, base, len, 116);
    if status != OK { return; }
    parsed := parsed.(dependencyCount := half);
    status, half := ReadU16Le(bytes, base, len, 118);
    if status != OK { return; }
    parsed := parsed.(healthRequiredCount := half);
    if parsed.requirementCount != 0 || parsed.dependencyCount != 0 || parsed.healthRequiredCount != 0 {
      return ERR_MANIFEST_FORMAT, parsed;
    }
  }

  /** The magic, then the total size, then the format version and header size. */
  method ParsePreamble(bytes: array<Byte>, base: nat, len: nat, view: ManifestView)
    returns (status: Status, parsed: ManifestView)
    requires base + len <= bytes.Length
    ensures var b := bytes[base..base + len];
            if len >= MANIFEST_HEADER_SIZE && ManifestPreamble(b)
            then status == OK && parsed == view.(formatVersion := 1)
            else status == ERR_MANIFEST_FORMAT
  {
    parsed := view;
    if len < MANIFEST_HEADER_SIZE {
      return ERR_MANIFEST_FORMAT, parsed;
    }
    var matches := BytesMatch(bytes, base, Some(MANIFEST_MAGIC), 8);
    SubWindow(bytes, base, len, 0, 8);
    if !matches {
      return ERR_MANIFEST_FORMAT, parsed;
    }
    var word: U32;
    status, word := ReadU32Le(bytes, base, len, 12);
    if status != OK { return; }
    if word != len {
      return ERR_MANIFEST_FORMAT, parsed;
    }
    var half: U16;
    status, half := ReadU16Le(bytes, base, len, 8);
    if status != OK { return; }
    if half != 1 {
      return ERR_MANIFEST_FORMAT, parsed;
    }
    parsed := parsed.(formatVersion := half);
    status, half := ReadU16Le(bytes, base, len, 10);
    if status != OK { return; }
    if half != MANIFEST_HEADER_SIZE {
      return ERR_MANIFEST_FORMAT, parsed;
    }
  }

  /** Octets 112 to 114: where the artifact ID ends, if the section has the canonical size for it. */
  method ParseArtifactId(bytes: array<Byte>, base: nat, len: nat, sizeMax: nat, view: ManifestView)
    returns (status: Status, parsed: ManifestView, artifactIdEnd: nat)
    requires MANIFEST_HEADER_SIZE <= len && base + len <= bytes.Length
    requires len <= sizeMax && 0xFFFF_FFFF <= sizeMax
    ensures var idLen := U16At(bytes[base..base + len], 112);
            if 1 <= idLen <= ARTIFACT_ID_MAX && len == ManifestSize(idLen)
            then status == OK && artifactIdEnd == MANIFEST_HEADER_SIZE + idLen
                 && parsed == view.(artifactId := At(base + MANIFEST_HEADER_SIZE), artifactIdLen := idLen)
            else status == ERR_MANIFEST_FORMAT
  {
    hide ManifestSize;
    parsed, artifactIdEnd := view, 0;
    var artifactIdLen: U16;
    status, artifactIdLen := ReadU16Le(bytes, base, len, 112);
    if status != OK { return; }
    if artifactIdLen == 0 || artifactIdLen > ARTIFACT_ID_MAX {
      return ERR_MANIFEST_FORMAT, parsed, 0;
    }
    CanonicalSize(artifactIdLen);
    var end := new Cell<nat>(0);
    var canonicalManifestSize := new Cell<nat>(0);
    status := CheckedAddSize(MANIFEST_HEADER_SIZE, artifactIdLen, sizeMax, end);
    if status != OK { return; }
    artifactIdEnd := end.value;
    var paddingLen := (4 - artifactIdEnd % 4) % 4;
    status := CheckedAddSize(artifactIdEnd, paddingLen, sizeMax, canonicalManifestSize);
    if status != OK { return; }
    if canonicalManifestSize.value != len {
      return ERR_MANIFEST_FORMAT, parsed, artifactIdEnd;
    }
    parsed := parsed.(artifactId := At(base + MANIFEST_HEADER_SIZE), artifactIdLen := artifactIdLen);
  }

  method ParseManifestV1(bytes: array?<Byte>, base: nat, len: nat, sizeMax: nat, out: Cell?<ManifestView>)
    returns (status: Status)
    requires bytes != null ==> base + len <= bytes.Length
    requires len <= sizeMax && 0xFFFF_FFFF <= sizeMax
    modifies out
    ensures bytes == null || out == null ==> status == ERR_INVALID_ARGUMENT
    ensures bytes != null && out != null ==>
              status == if ManifestAccepted(bytes[base..base + len]) then OK else ERR_MANIFEST_FORMAT
    ensures status.OK? ==> out.value == ViewOfManifest(ManifestOf(bytes[base..base + len]), base)
    ensures out != null && !status.OK? ==> out.value == old(out.value)
  {
    hide U16At, U32At, ManifestAccepted, ManifestSize, Zeroed;
    var parsed := ZERO_MANIFEST_VIEW;
    if bytes == null || out == null {
      return ERR_INVALID_ARGUMENT;
    }
    ManifestChecksAreExact(bytes[base..base + len]);

    status, parsed := ParsePreamble(bytes, base, len, parsed);
    if status != OK { return; }
    status, parsed := ParseTarget(bytes, base, len, parsed);
    if status != OK { return; }
    status, parsed := ParseRelease(bytes, base, len, parsed);
    if status != OK { return; }
    status, parsed := ParsePolicy(bytes, base, len, parsed);
    if status != OK { return; }

    var artifactIdEnd: nat;
    status, parsed, artifactIdEnd := ParseArtifactId(bytes, base, len, sizeMax, parsed);
    if status != OK { return; }
    status, parsed := ParseCounts(bytes, base, len, parsed);
    if status != OK { return; }
    var reserved := AllZeroes(bytes, base + 120, MANIFEST_HEADER_SIZE - 120);
    ZeroedWindow(bytes, base, len, 120, MANIFEST_HEADER_SIZE);
    if !reserved {
      return ERR_MANIFEST_FORMAT;
    }
    var padding := AllZeroes(bytes, base + artifactIdEnd, len - artifactIdEnd);
    ZeroedWindow(bytes, base, len, artifactIdEnd, len);
    if !padding {
      return ERR_MANIFEST_FORMAT;
    }

    out.value := parsed;
    return OK;
  }

  predicate TargetMatches(artifact: Target, device: Target) {
    && artifact.vendorId == device.vendorId
    && artifact.productId == device.productId
    && artifact.hardwareFamily == device.hardwareFamily
    && artifact.componentId == device.componentId
  }

  /** `None` is a NULL argument. */
  function ValidateBasic(manifest: Option<ManifestView>, device: Option<Target>, minimumSecurityEpoch: U32): Status {
    if manifest.None? || device.None? then ERR_INVALID_ARGUMENT
    else if manifest.value.formatVersion != 1 then ERR_MANIFEST_FORMAT
    else if manifest.value.digestAlgorithm != 1 then ERR_MANIFEST_FORMAT
    else if manifest.value.signatureAlgorithm != 1 then ERR_MANIFEST_FORMAT
    else if !TargetMatches(manifest.value.target, device.value) then ERR_TARGET_MISMATCH
    else if manifest.value.securityEpoch < minimumSecurityEpoch then ERR_SECURITY_EPOCH
    else if manifest.value.payloadSize == 0 then ERR_MANIFEST_FORMAT
    else if manifest.value.payloadDigest.Null? || manifest.value.payloadDigestLen != 32 then ERR_MANIFEST_FORMAT
    else OK
  }
}
