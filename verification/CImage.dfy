/** The device's image parser. */
module CImage {
  import opened Bytes
  import opened Layout
  import opened Results
  import opened Status
  import opened CBinary
  import opened CManifest

  datatype SignatureView = SignatureView(
    keyId: Pointer,
    keyIdLen: nat,
    signatureAlgorithm: U16,
    signature: Pointer,
    signatureLen: nat,
    publicKey: Pointer,
    publicKeyLen: nat)

  datatype ImageView = ImageView(
    bytes: Pointer,
    len: nat,
    manifestOffset: nat,
    manifestSize: nat,
    payloadOffset: nat,
    payloadSize: nat,
    signatureOffset: nat,
    signatureSize: nat,
    signedRegionOffset: nat,
    signedRegionSize: nat,
    manifest: ManifestView,
    signature: SignatureView)

  const ZERO_SIGNATURE_VIEW: SignatureView := SignatureView(Null, 0, 0, Null, 0, Null, 0)
  const ZERO_IMAGE_VIEW: ImageView :=
    ImageView(Null, 0, 0, 0, 0, 0, 0, 0, 0, 0, ZERO_MANIFEST_VIEW, ZERO_SIGNATURE_VIEW)

  /** The view of a signature section that starts at `base`. */
  function ViewOfSignature(base: nat): SignatureView {
    SignatureView(At(base + 32), 8, 1, At(base + 48), 64, At(base + 112), 65)
  }

  /** The view of an accepted image of `len` octets carrying `i`. */
  function ViewOfImage(i: Image, len: nat): ImageView {
    var manifestSize := ManifestSize(|i.manifest.artifactId|);
    var payloadOffset := IMAGE_HEADER_SIZE + manifestSize;
    var signatureOffset := payloadOffset + |i.payload|;
    ImageView(
      At(0), len, IMAGE_HEADER_SIZE, manifestSize, payloadOffset, |i.payload|, signatureOffset,
      SIGNATURE_SECTION_SIZE, IMAGE_HEADER_SIZE, manifestSize + |i.payload|,
      ViewOfManifest(i.manifest, IMAGE_HEADER_SIZE), ViewOfSignature(signatureOffset))
  }

  // ---------------------------------------------------------------------------
  // What the status means
  // ---------------------------------------------------------------------------

  /** Some section end, reached through consistent offsets, is not representable. */
  predicate TableOverflows(b: Octets, sizeMax: nat) {
    && |b| >= IMAGE_HEADER_SIZE
    && HeaderPreamble(b)
    && U32At(b, 16) == IMAGE_HEADER_SIZE
    && (IMAGE_HEADER_SIZE + U32At(b, 20) > sizeMax
        || (U32At(b, 24) == IMAGE_HEADER_SIZE + U32At(b, 20)
            && (U32At(b, 24) + U32At(b, 28) > sizeMax
                || (U32At(b, 32) == U32At(b, 24) + U32At(b, 28)
                    && U32At(b, 32) + U32At(b, 36) > sizeMax))))
  }

  /** The status for a non-NULL buffer. */
  function ImageStatus(b: Octets, sizeMax: nat): Status {
    if ImageAccepted(b) then OK
    else if TableOverflows(b, sizeMax) then ERR_OVERFLOW
    else if TableConsistent(b) && !ManifestAccepted(ManifestSectionOf(b)) then ERR_MANIFEST_FORMAT
    else ERR_IMAGE_FORMAT
  }

  // ---------------------------------------------------------------------------
  // The parser
  // ---------------------------------------------------------------------------

  method RequireU16(bytes: array<Byte>, base: nat, len: nat, offset: nat, expected: U16) returns (status: Status)
    requires base + len <= bytes.Length
    ensures status == if offset + 2 > len then ERR_BOUNDS
                      else if U16At(bytes[base..base + len], offset) == expected then OK else ERR_IMAGE_FORMAT
  {
    var actual: U16;
    status, actual := ReadU16Le(bytes, base, len, offset);
    if status != OK {
      return;
    }
    if actual != expected {
      return ERR_IMAGE_FORMAT;
    }
  }

  method RequireU32(bytes: array<Byte>, base: nat, len: nat, offset: nat, expected: U32) returns (status: Status)
    requires base + len <= bytes.Length
    ensures status == if offset + 4 > len then ERR_BOUNDS
                      else if U32At(bytes[base..base + len], offset) == expected then OK else ERR_IMAGE_FORMAT
  {
    var actual: U32;
    status, actual := ReadU32Le(bytes, base, len, offset);
    if status != OK {
      return;
    }
    if actual != expected {
      return ERR_IMAGE_FORMAT;
    }
  }

  method ValidateSignatureHeader(bytes: array<Byte>, base: nat, len: nat,
                                 signedRegionOffset: nat, signedRegionSize: nat)
    returns (status: Status)
    requires base + len <= bytes.Length
    ensures var b := bytes[base..base + len];
            status == if |b| == SIGNATURE_SECTION_SIZE
                         && SignatureHeader(b, Truncate32(signedRegionOffset), Truncate32(signedRegionSize))
                      then OK else ERR_IMAGE_FORMAT
  {
    hide Truncate32;
    if len != SIGNATURE_SECTION_SIZE {
      return ERR_IMAGE_FORMAT;
    }
    var matches := BytesMatch(bytes, base, Some(SIGNATURE_MAGIC), 8);
    SubWindow(bytes, base, len, 0, 8);
    if !matches {
      return ERR_IMAGE_FORMAT;
    }
    status := RequireU16(bytes, base, len, 8, 1);
    if status != OK { return; }
    status := RequireU16(bytes, base, len, 10, 32);
    if status != OK { return; }
    status := RequireU32(bytes, base, len, 12, SIGNATURE_SECTION_SIZE);
    if status != OK { return; }
    status := RequireU32(bytes, base, len, 16, Truncate32(signedRegionOffset));
    if status != OK { return; }
    status := RequireU32(bytes, base, len, 20, Truncate32(signedRegionSize));
    if status != OK { return; }
    status := RequireU16(bytes, base, len, 24, 1);
    if status != OK { return; }
    status := RequireU16(bytes, base, len, 26, 1);
    if status != OK { return; }
    status := RequireU16(bytes, base, len, 28, 160);
    if status != OK { return; }
    status := RequireU16(bytes, base, len, 30, 0);
    if status != OK { return; }
  }

  /** `section` and `expectedKeyId` name the octets the two pointers borrow. */
  method ValidateSignatureSection(bytes: array?<Byte>, base: nat, len: nat,
                                  signedRegionOffset: nat, signedRegionSize: nat,
                                  manifest: ManifestView, out: Cell?<SignatureView>,
                                  ghost section: Octets, ghost expectedKeyId: Octets)
    returns (status: Status)
    requires bytes != null ==> base + len <= bytes.Length && section == bytes[base..base + len]
    requires bytes != null && manifest.keyId.At? ==>
               manifest.keyId.offset + 8 <= bytes.Length
               && expectedKeyId == bytes[manifest.keyId.offset..manifest.keyId.offset + 8]
    modifies out
    ensures bytes == null || out == null ==> status == ERR_INVALID_ARGUMENT
    ensures bytes != null && out != null ==>
              status == if manifest.keyId.At?
                           && SignatureChecks(section, Truncate32(signedRegionOffset),
                                              Truncate32(signedRegionSize), expectedKeyId)
                        then OK else ERR_IMAGE_FORMAT
    ensures status.OK? ==> out.value == ViewOfSignature(base)
    ensures out != null && !status.OK? ==> out.value == old(out.value)
  {
    hide Truncate32, SignatureHeader;
    if bytes == null || out == null {
      return ERR_INVALID_ARGUMENT;
    }
    status := ValidateSignatureHeader(bytes, base, len, signedRegionOffset, signedRegionSize);
    if status != OK { return; }

    var expected := if manifest.keyId.At? then bytes else null;
    var expectedAt := if manifest.keyId.At? then manifest.keyId.offset else 0;
    var keyIdMatches := BytesEqual(bytes, base + 32, expected, expectedAt, 8);
    SubWindow(bytes, base, len, 32, 40);
    if !keyIdMatches {
      return ERR_IMAGE_FORMAT;
    }
    status := RequireU16(bytes, base, len, 32 + 8, 1);
    if status != OK { return; }
    status := RequireU16(bytes, base, len, 32 + 10, 1);
    if status != OK { return; }
    status := RequireU16(bytes, base, len, 32 + 12, 64);
    if status != OK { return; }
    status := RequireU16(bytes, base, len, 32 + 14, 65);
    if status != OK { return; }
    if bytes[base + 32 + 80] != 0x04 {
      return ERR_IMAGE_FORMAT;
    }
    var padding := AllZeroes(bytes, base + 32 + 145, len - (32 + 145));
    ZeroedWindow(bytes, base, len, 177, len);
    if !padding {
      return ERR_IMAGE_FORMAT;
    }

    out.value := out.value.(keyId := At(base + 32), keyIdLen := 8);
    out.value := out.value.(signatureAlgorithm := 1);
    out.value := out.value.(signature := At(base + 32 + 16), signatureLen := 64);
    out.value := out.value.(publicKey := At(base + 32 + 80), publicKeyLen := 65);
    return OK;
  }

  /** Magic, version, kind, header size and flags. */
  method ParseFixedHeader(bytes: array<Byte>, len: nat) returns (status: Status)
    requires len <= bytes.Length
    ensures var b := bytes[..len];
            status == if |b| >= IMAGE_HEADER_SIZE && b[0..8] == IMAGE_MAGIC && U16At(b, 8) == U16At(b, 10) == 1
                         && U16At(b, 12) == IMAGE_HEADER_SIZE && U16At(b, 14) == 0
                      then OK else ERR_IMAGE_FORMAT
  {
    assert bytes[..len] == bytes[0..0 + len];
    if len < IMAGE_HEADER_SIZE {
      return ERR_IMAGE_FORMAT;
    }
    var matches := BytesMatch(bytes, 0, Some(IMAGE_MAGIC), 8);
    SubWindow(bytes, 0, len, 0, 8);
    if !matches {
      return ERR_IMAGE_FORMAT;
    }
    var imageVersion: U16;
    var imageKind: U16;
    var headerSize: U16;
    var flags: U16;
    status, imageVersion := ReadU16Le(bytes, 0, len, 8);
    if status != OK { return; }
    status, imageKind := ReadU16Le(bytes, 0, len, 10);
    if status != OK { return; }
    status, headerSize := ReadU16Le(bytes, 0, len, 12);
    if status != OK { return; }
    status, flags := ReadU16Le(bytes, 0, len, 14);
    if status != OK { return; }
    if imageVersion != 1 || imageKind != 1 || headerSize != IMAGE_HEADER_SIZE || flags != 0 {
      return ERR_IMAGE_FORMAT;
    }
  }

  /** The eight section fields, in order. */
  method ReadSectionFields(bytes: array<Byte>, len: nat)
    returns (status: Status, manifestOffset: U32, manifestSize: U32, payloadOffset: U32, payloadSize: U32,
             signatureOffset: U32, signatureSize: U32, signedRegionOffset: U32, signedRegionSize: U32)
    requires IMAGE_HEADER_SIZE <= len <= bytes.Length
    ensures var b := bytes[..len];
            && status == OK
            && manifestOffset == U32At(b, 16) && manifestSize == U32At(b, 20)
            && payloadOffset == U32At(b, 24) && payloadSize == U32At(b, 28)
            && signatureOffset == U32At(b, 32) && signatureSize == U32At(b, 36)
            && signedRegionOffset == U32At(b, 40) && signedRegionSize == U32At(b, 44)
  {
    hide U32At;
    assert bytes[..len] == bytes[0..0 + len];
    status, manifestOffset := ReadU32Le(bytes, 0, len, 16);
    if status != OK { return; }
    status, manifestSize := ReadU32Le(bytes, 0, len, 20);
    if status != OK { return; }
    status, payloadOffset := ReadU32Le(bytes, 0, len, 24);
    if status != OK { return; }
    status, payloadSize := ReadU32Le(bytes, 0, len, 28);
    if status != OK { return; }
    status, signatureOffset := ReadU32Le(bytes, 0, len, 32);
    if status != OK { return; }
    status, signatureSize := ReadU32Le(bytes, 0, len, 36);
    if status != OK { return; }
    status, signedRegionOffset := ReadU32Le(bytes, 0, len, 40);
    if status != OK { return; }
    status, signedRegionSize := ReadU32Le(bytes, 0, len, 44);
  }

  /** The fixed part of the header, then the eight section fields, then the reserved octets. */
  method ParseHeader(bytes: array<Byte>, len: nat, view: ImageView) returns (status: Status, parsed: ImageView)
    requires len <= bytes.Length
    ensures var b := bytes[..len];
            if len >= IMAGE_HEADER_SIZE && HeaderPreamble(b)
            then status == OK && parsed == view.(
              bytes := At(0), len := len,
              manifestOffset := U32At(b, 16), manifestSize := U32At(b, 20),
              payloadOffset := U32At(b, 24), payloadSize := U32At(b, 28),
              signatureOffset := U32At(b, 32), signatureSize := U32At(b, 36),
              signedRegionOffset := U32At(b, 40), signedRegionSize := U32At(b, 44))
            else status == ERR_IMAGE_FORMAT
  {
    hide U16At, U32At, Zeroed;
    parsed := view;
    status := ParseFixedHeader(bytes, len);
    if status != OK { return; }
    var manifestOffset: U32;
    var manifestSize: U32;
    var payloadOffset: U32;
    var payloadSize: U32;
    var signatureOffset: U32;
    var signatureSize: U32;
    var signedRegionOffset: U32;
    var signedRegionSize: U32;
    status, manifestOffset, manifestSize, payloadOffset, payloadSize,
    signatureOffset, signatureSize, signedRegionOffset, signedRegionSize := ReadSectionFields(bytes, len);
    if status != OK { return; }
    var reserved := AllZeroes(bytes, 48, IMAGE_HEADER_SIZE - 48);
    ZeroedWindow(bytes, 0, len, 48, IMAGE_HEADER_SIZE);
    assert bytes[0..0 + len] == bytes[..len];
    if !reserved {
      return ERR_IMAGE_FORMAT, parsed;
    }
    parsed := parsed.(bytes := At(0), len := len);
    parsed := parsed.(manifestOffset := manifestOffset);
    parsed := parsed.(manifestSize := manifestSize);
    parsed := parsed.(payloadOffset := payloadOffset);
    parsed := parsed.(payloadSize := payloadSize);
    parsed := parsed.(signatureOffset := signatureOffset);
    parsed := parsed.(signatureSize := signatureSize);
    parsed := parsed.(signedRegionOffset := signedRegionOffset);
    parsed := parsed.(signedRegionSize := signedRegionSize);
  }

  /** Checks that the section fields chain up to the buffer's end. */
  method CheckSections(parsed: ImageView, sizeMax: nat) returns (status: Status)
    requires 0xFFFF_FFFF <= sizeMax && parsed.len <= sizeMax
    requires parsed.manifestOffset <= sizeMax && parsed.manifestSize <= sizeMax
    requires parsed.payloadOffset <= sizeMax && parsed.payloadSize <= sizeMax
    requires parsed.signatureOffset <= sizeMax && parsed.signatureSize <= sizeMax
    ensures status == OK <==>
            && parsed.manifestOffset == parsed.signedRegionOffset == IMAGE_HEADER_SIZE
            && parsed.payloadOffset == IMAGE_HEADER_SIZE + parsed.manifestSize
            && parsed.signatureOffset == parsed.payloadOffset + parsed.payloadSize
            && parsed.len == parsed.signatureOffset + parsed.signatureSize
            && parsed.signedRegionSize == parsed.manifestSize + parsed.payloadSize
    ensures status == ERR_OVERFLOW <==>
            && parsed.manifestOffset == IMAGE_HEADER_SIZE
            && (IMAGE_HEADER_SIZE + parsed.manifestSize > sizeMax
                || (parsed.payloadOffset == IMAGE_HEADER_SIZE + parsed.manifestSize
                    && (parsed.payloadOffset + parsed.payloadSize > sizeMax
                        || (parsed.signatureOffset == parsed.payloadOffset + parsed.payloadSize
                            && parsed.signatureOffset + parsed.signatureSize > sizeMax))))
    ensures status in {OK, ERR_OVERFLOW, ERR_IMAGE_FORMAT}
  {
    var expectedPayloadOffset := new Cell<nat>(0);
    var expectedSignatureOffset := new Cell<nat>(0);
    var expectedFileLen := new Cell<nat>(0);
    var expectedSignedRegionSize := new Cell<nat>(0);
    if parsed.manifestOffset != IMAGE_HEADER_SIZE {
      return ERR_IMAGE_FORMAT;
    }
    status := CheckedAddSize(parsed.manifestOffset, parsed.manifestSize, sizeMax, expectedPayloadOffset);
    if status != OK { return; }
    if parsed.payloadOffset != expectedPayloadOffset.value {
      return ERR_IMAGE_FORMAT;
    }
    status := CheckedAddSize(parsed.payloadOffset, parsed.payloadSize, sizeMax, expectedSignatureOffset);
    if status != OK { return; }
    if parsed.signatureOffset != expectedSignatureOffset.value {
      return ERR_IMAGE_FORMAT;
    }
    status := CheckedAddSize(parsed.signatureOffset, parsed.signatureSize, sizeMax, expectedFileLen);
    if status != OK { return; }
    if expectedFileLen.value != parsed.len {
      return ERR_IMAGE_FORMAT;
    }
    if parsed.signedRegionOffset != parsed.manifestOffset {
      return ERR_IMAGE_FORMAT;
    }
    status := CheckedAddSize(parsed.manifestSize, parsed.payloadSize, sizeMax, expectedSignedRegionSize);
    if status != OK { return; }
    if parsed.signedRegionSize != expectedSignedRegionSize.value {
      return ERR_IMAGE_FORMAT;
    }
    var manifestFits := RangeAvailable(parsed.manifestOffset, parsed.manifestSize, parsed.len, null);
    var payloadFits := RangeAvailable(parsed.payloadOffset, parsed.payloadSize, parsed.len, null);
    var signatureFits := RangeAvailable(parsed.signatureOffset, parsed.signatureSize, parsed.len, null);
    var signedRegionFits := RangeAvailable(parsed.signedRegionOffset, parsed.signedRegionSize, parsed.len, null);
    // The ranges were just shown to chain up to `len`, so this branch is never taken.
    if !manifestFits || !payloadFits || !signatureFits || !signedRegionFits {
      return ERR_IMAGE_FORMAT;
    }
  }

  /** The header and section table together. */
  method ParseSectionTable(bytes: array<Byte>, len: nat, sizeMax: nat, view: ImageView)
    returns (status: Status, parsed: ImageView)
    requires len <= bytes.Length && len <= sizeMax && 0xFFFF_FFFF <= sizeMax
    ensures var b := bytes[..len];
            if TableConsistent(b)
            then status == OK && parsed == view.(
              bytes := At(0), len := len,
              manifestOffset := IMAGE_HEADER_SIZE, manifestSize := U32At(b, 20),
              payloadOffset := IMAGE_HEADER_SIZE + U32At(b, 20), payloadSize := U32At(b, 28),
              signatureOffset := IMAGE_HEADER_SIZE + U32At(b, 20) + U32At(b, 28), signatureSize := U32At(b, 36),
              signedRegionOffset := IMAGE_HEADER_SIZE, signedRegionSize := U32At(b, 20) + U32At(b, 28))
            else status == if TableOverflows(b, sizeMax) then ERR_OVERFLOW else ERR_IMAGE_FORMAT
  {
    hide HeaderPreamble;
    status, parsed := ParseHeader(bytes, len, view);
    if status != OK { return; }
    status := CheckSections(parsed, sizeMax);
  }

  /** A consistent table leaves no overflow, and its sizes add up to the buffer. */
  lemma ConsistentBounds(b: Octets, sizeMax: nat)
    requires |b| <= sizeMax
    ensures TableConsistent(b) ==>
              && !TableOverflows(b, sizeMax)
              && |b| == IMAGE_HEADER_SIZE + U32At(b, 20) + U32At(b, 28) + U32At(b, 36)
              && U32At(b, 44) == U32At(b, 20) + U32At(b, 28)
              && ManifestSectionOf(b) == b[IMAGE_HEADER_SIZE..IMAGE_HEADER_SIZE + U32At(b, 20)]
              && (U32At(b, 36) == SIGNATURE_SECTION_SIZE ==>
                    SignatureSectionOf(b) == b[IMAGE_HEADER_SIZE + U32At(b, 20) + U32At(b, 28)..|b|])
  {
  }

  /** What is left to check of an image whose section table is consistent. */
  lemma AcceptanceFromSections(b: Octets)
    ensures TableConsistent(b) ==>
              var payloadOffset := IMAGE_HEADER_SIZE + U32At(b, 20);
              var section := b[IMAGE_HEADER_SIZE..payloadOffset];
              var tail := b[payloadOffset + U32At(b, 28)..|b|];
              && section == ManifestSectionOf(b)
              && (ManifestAccepted(section) ==> |section| >= MANIFEST_HEADER_SIZE)
              && (ImageAccepted(b) <==>
                    && ManifestAccepted(section)
                    && ManifestOf(section).payloadSize == U32At(b, 28)
                    && SignatureChecks(tail, IMAGE_HEADER_SIZE, U32At(b, 20) + U32At(b, 28), b[160..168]))
  {
    hide HeaderPreamble, ImageAccepted, ManifestAccepted, ManifestOf;
    AcceptanceFromParts(b);
    if TableConsistent(b) {
      var section := ManifestSectionOf(b);
      AcceptedManifestSize(section);
      var tail := b[IMAGE_HEADER_SIZE + U32At(b, 20) + U32At(b, 28)..|b|];
      assert |tail| == SIGNATURE_SECTION_SIZE ==> tail == SignatureSectionOf(b);
      if |section| >= MANIFEST_HEADER_SIZE {
        SliceOfSlice(b, IMAGE_HEADER_SIZE, IMAGE_HEADER_SIZE + U32At(b, 20), 96, 104);
      }
    }
  }

  /** The call on `&parsed.manifest`. */
  method ParseManifestSection(bytes: array<Byte>, parsed: ImageView, sizeMax: nat, ghost b: Octets)
    returns (status: Status, view: ManifestView)
    requires parsed.len <= bytes.Length && b == bytes[..parsed.len]
    requires parsed.manifestOffset + parsed.manifestSize <= parsed.len <= sizeMax && 0xFFFF_FFFF <= sizeMax
    ensures var section := b[parsed.manifestOffset..parsed.manifestOffset + parsed.manifestSize];
            && status == (if ManifestAccepted(section) then OK else ERR_MANIFEST_FORMAT)
            && (status.OK? ==> view == ViewOfManifest(ManifestOf(section), parsed.manifestOffset))
  {
    hide ManifestAccepted, ManifestOf;
    var base, size := parsed.manifestOffset, parsed.manifestSize;
    var manifest := new Cell(ZERO_MANIFEST_VIEW);
    status := ParseManifestV1(bytes, base, size, sizeMax, manifest);
    assert b == bytes[0..0 + parsed.len];
    SubWindow(bytes, 0, parsed.len, base, base + size);
    view := manifest.value;
  }

  /** The call on `&parsed.signature`. */
  method ParseSignatureSection(bytes: array<Byte>, parsed: ImageView, ghost b: Octets)
    returns (status: Status, view: SignatureView)
    requires parsed.len <= bytes.Length && b == bytes[..parsed.len]
    requires parsed.signatureOffset + parsed.signatureSize <= parsed.len
    requires parsed.manifest.keyId.At? && parsed.manifest.keyId.offset + 8 <= parsed.len
    ensures var keyId := parsed.manifest.keyId.offset;
            status == if SignatureChecks(b[parsed.signatureOffset..parsed.signatureOffset + parsed.signatureSize],
                                         Truncate32(parsed.signedRegionOffset),
                                         Truncate32(parsed.signedRegionSize), b[keyId..keyId + 8])
                      then OK else ERR_IMAGE_FORMAT
    ensures status.OK? ==> view == ViewOfSignature(parsed.signatureOffset)
  {
    hide SignatureChecks, Truncate32;
    var base, size, keyId := parsed.signatureOffset, parsed.signatureSize, parsed.manifest.keyId.offset;
    assert b == bytes[0..0 + parsed.len];
    SubWindow(bytes, 0, parsed.len, base, base + size);
    SubWindow(bytes, 0, parsed.len, keyId, keyId + 8);
    var signature := new Cell(ZERO_SIGNATURE_VIEW);
    status := ValidateSignatureSection(bytes, base, size, parsed.signedRegionOffset, parsed.signedRegionSize,
                                       parsed.manifest, signature, b[base..base + size], b[keyId..keyId + 8]);
    view := signature.value;
  }

  /** The manifest and signature section of an image whose section table is consistent. */
  method ParseSections(bytes: array<Byte>, len: nat, sizeMax: nat, view: ImageView, ghost b: Octets)
    returns (status: Status, parsed: ImageView)
    requires len <= bytes.Length && len <= sizeMax && 0xFFFF_FFFF <= sizeMax
    requires b == bytes[..len] && TableConsistent(b)
    requires view == ZERO_IMAGE_VIEW.(
               bytes := At(0), len := len,
               manifestOffset := IMAGE_HEADER_SIZE, manifestSize := U32At(b, 20),
               payloadOffset := IMAGE_HEADER_SIZE + U32At(b, 20), payloadSize := U32At(b, 28),
               signatureOffset := IMAGE_HEADER_SIZE + U32At(b, 20) + U32At(b, 28), signatureSize := U32At(b, 36),
               signedRegionOffset := IMAGE_HEADER_SIZE, signedRegionSize := U32At(b, 20) + U32At(b, 28))
    ensures status == if ImageAccepted(b) then OK
                      else if !ManifestAccepted(ManifestSectionOf(b)) then ERR_MANIFEST_FORMAT
                      else ERR_IMAGE_FORMAT
    ensures status.OK? ==> parsed == ViewOfImage(ImageOf(b), len)
  {
    hide U16At, U32At, Truncate32, TableConsistent, SignatureChecks, ManifestAccepted, ImageAccepted, ManifestSize,
         ManifestOf, ImageOf, ManifestSectionOf;
    parsed := view;
    AcceptanceFromSections(b);
    AcceptedSizes(b);
    ConsistentBounds(b, sizeMax);
    AcceptedManifestSize(b[parsed.manifestOffset..parsed.payloadOffset]);
    var manifest: ManifestView;
    status, manifest := ParseManifestSection(bytes, parsed, sizeMax, b);
    if status != OK { return; }
    parsed := parsed.(manifest := manifest);
    if parsed.manifest.payloadSize != parsed.payloadSize {
      return ERR_IMAGE_FORMAT, parsed;
    }
    var signature: SignatureView;
    status, signature := ParseSignatureSection(bytes, parsed, b);
    if status != OK { return; }
    parsed := parsed.(signature := signature);
  }

  method ParseImage(bytes: array?<Byte>, len: nat, sizeMax: nat, out: Cell?<ImageView>) returns (status: Status)
    requires bytes != null ==> len <= bytes.Length
    requires len <= sizeMax && 0xFFFF_FFFF <= sizeMax
    modifies out
    ensures bytes == null || out == null ==> status == ERR_INVALID_ARGUMENT
    ensures bytes != null && out != null ==> status == ImageStatus(bytes[..len], sizeMax)
    ensures status.OK? ==> out.value == ViewOfImage(ImageOf(bytes[..len]), len)
    ensures out != null && !status.OK? ==> out.value == old(out.value)
  {
    hide TableConsistent, TableOverflows, SignatureChecks, ManifestAccepted, ImageAccepted, ManifestSize;
    var parsed := ZERO_IMAGE_VIEW;
    if bytes == null || out == null {
      return ERR_INVALID_ARGUMENT;
    }
    AcceptanceFromParts(bytes[..len]);
    ConsistentBounds(bytes[..len], sizeMax);
    status, parsed := ParseSectionTable(bytes, len, sizeMax, parsed);
    if status != OK { return; }
    status, parsed := ParseSections(bytes, len, sizeMax, parsed, bytes[..len]);
    if status != OK { return; }
    out.value := parsed;
    return OK;
  }
}
