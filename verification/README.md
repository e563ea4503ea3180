# Rampart boot: verified model

Rampart is a secure-boot core. This project models three connected parts of it in Dafny and proves
what they guarantee.

**The `.rampart` v1 image codec.** `Layout` says, as a relation, which octets stand where in an image
that carries a given manifest, payload and signature record. The device's C parser (`CBinary`,
`CManifest`, `CImage`), the host's Rust parser (`RustParser`) and the host's Rust encoder
(`RustEncoder`, `RustSigner`) are each proved against that relation. `CodecTheorems` then proves the
properties of the format: reading is injective, re-encoding an accepted image rebuilds it octet for
octet, the two parsers agree up to three named host checks, the signed region determines the rest,
accepted images are prefix-free, and acceptance does not depend on the width of `size_t`.
`WireFormat` writes the format's tables out once more as octets at offsets from the start of the file,
in plain numbers and characters, and proves that what the device accepts, every status and view field
it reports, and what the host parses and verifies are exactly those.

**The trust store.** `CCrypto` models the checked hash over a callback that may fail and may answer
differently each time, depending on everything it was asked before. `Trust` models validation and
authorization over it. `TrustTheorems` proves when validation succeeds, what each outcome of
authorization means, and which changes to a store or a request cannot change an outcome.
`SignerBinding` puts parsing and authorization together: what they force, and what they leave free,
about the key embedded in an image.

**Stage 0 selection.** `Stage0` proves that the two scanning loops pick the one winner of a single
order (trial before confirmed, higher epoch, lower slot ID, earlier position), that this is the
greatest of one number per candidate, and the algebra of the choice.

How the source's terms are rendered:

- Octets are integers from 0 to 255. `|` and `<<` in the C readers are bitwise operations on
  unbounded naturals (`Bytes.BitOr`, `Bytes.ShiftLeft`), proved equal to the little-endian value;
  role masks are 32-bit vectors. Casts to 32 bits are explicit (`Bytes.Truncate32`).
- `SIZE_MAX` is a parameter of the C parser, at least 2^32 - 1. The host's `usize` has 64 bits.
- A C pointer into the image is an offset or NULL (`CManifest.Pointer`); a caller-owned struct is a
  `Status.Cell`, written only by the assignment that publishes the result. Each C method is verified
  for every array that reaches just as far as its window, so no read can pass the window's end.
- The long C and Rust functions are cut into one method per group of fields, in source order.
- A Rust string is its UTF-8 octets: the grammar in section 4 of RFC 3629, proved to be exactly the
  encodings of section 3. A Rust error is a bare failure; C
  statuses are exact.
- SHA-256, curve membership, scalar validity, ECDSA signing and verification are parameters
  (`Crypto.Primitives`). The only law used is `Lawful`: key pairs lie on the curve, and a signature
  verifies under the key that made it. The SEC 1 form of a 65-octet point is concrete, so that
  re-encoding a decoded point gives the same octets (section 2.3.4 of SEC 1 v2.0) is proved.

Where the documentation and the code differ, the model follows the code:

- docs/image-format.md asks every verifier to reject a key that does not derive the key ID
  (lines 208-226). The device's parser checks only the 0x04 prefix. `ParserAgreement` says exactly
  what the host checks beyond the device.
- docs/image-format.md asks boot authorization to require that the embedded key agree with the trusted
  one (lines 174-178). `rampart_trust_authorize` takes only a key ID, and no modelled code compares the
  two keys. `AuthorizedBinding` says what the host's comparison amounts to once an ID is authorized, and
  `AuthorizationLeavesKeyFree` that the device accepts and authorizes whatever key is embedded.
- docs/image-format.md stores strings as UTF-8 (line 36). The device accepts any octets as artifact ID.
- The signing tool refuses an artifact ID with a NUL octet; both parsers accept one
  (`DocumentRoundTrip`).
- `sign_image` writes the artifact before its closing parse. `SignImage` says that the parse succeeds
  exactly when the key ID is the derived one. `SignMismatched` runs the tool with any other overriding
  ID: it writes an artifact that the host cannot parse and the device accepts. `MismatchOccurs` finds
  such a run for every key, payload and foreign ID within the format's limits.
- `parse_key_id_hex` slices a string at fixed octets and panics when a character straddles a slice
  edge. `KeyIdCanPanic` gives an input and `KeyIdPanicsExactly` the exact condition.

## Model

| member | source | states |
|---|---|---|
| Bytes.BitOrExactly | core/src/binary.c:90 | a bit of the bitwise or is set exactly when it is set in one of the operands |
| Bytes.ShiftOr16 | core/src/binary.c:90 | the shift-and-or of two octets is their little-endian value |
| Bytes.ShiftOr32 | core/src/binary.c:104-105 | the shift-and-or of four octets is their little-endian value |
| Bytes.U16Octets | core/src/binary.c:90 | the little-endian reading is the low octet plus 256 times the high one |
| Bytes.U32Halves | core/src/binary.c:104-105 | a four-octet reading is its low half plus 65536 times its high half |
| Bytes.TruncateWraps | core/src/image.c:73-77 | the cast to 32 bits drops multiples of 2^32 |
| Bytes.Le16Reads | host/rampart/src/format.rs:1061-1063 | octets at an offset are a value's rendering exactly when reading there gives the value |
| Bytes.Le32Reads | host/rampart/src/format.rs:1065-1067 | the same for four octets |
| CBinary.BytesEqual | core/src/binary.c:3-17 | true exactly when neither pointer is NULL and the two windows hold the same octets |
| CBinary.BytesMatch | core/src/binary.c:19-33 | true exactly when neither pointer is NULL and the window holds the expected octets |
| CBinary.AllZeroes | core/src/binary.c:35-49 | false for NULL, else true exactly when every octet of the window is zero |
| CBinary.RangeAvailable | core/src/binary.c:51-65 | the subtraction-only test decides whether offset plus length stays within the total, and then writes the end unless the pointer is NULL |
| CBinary.CheckedAddSize | core/src/binary.c:67-78 | INVALID_ARGUMENT for a NULL result, OVERFLOW exactly when the sum exceeds SIZE_MAX, else the sum is written |
| CBinary.ReadU16Le | core/src/binary.c:80-92 | BOUNDS exactly when two octets do not fit, else the little-endian value of the window's octets |
| CBinary.ReadU32Le | core/src/binary.c:94-107 | the same for four octets |
| Layout.ManifestSize | docs/image-format.md:76-77 | the canonical manifest size is the least multiple of four holding header and artifact ID |
| Layout.CanonicalSize | core/src/manifest.c:188-203 | the parsers' padding arithmetic computes that least multiple of four |
| Layout.ManifestChecksAreExact | core/src/manifest.c:31-232 | passing the field checks is the same as being the layout of an admissible manifest, the one read back |
| Layout.ManifestLayoutReadsBack | docs/image-format.md:79-112 | a manifest section carries one manifest, the one read from its octets |
| Layout.SignatureLayoutReadsBack | docs/image-format.md:127-157 | a signature section carries one record, the one read from its octets |
| Layout.ImageLayoutReadsBack | docs/image-format.md:41-72 | an image carries one manifest, payload and record, the ones read from its octets |
| Layout.ManifestLayoutIsUnique | docs/image-format.md:79-112 | a manifest has one octet form: every octet is fixed, derived or a field |
| Layout.SignatureLayoutIsUnique | docs/image-format.md:127-157 | a record and a signed-region size have one signature section |
| Layout.HeaderIsUnique | docs/image-format.md:43-59 | the section sizes determine all 64 header octets |
| Layout.ImageLayoutIsUnique | docs/image-format.md:27-37 | manifest, payload and record determine every octet of the image |
| Layout.AcceptanceFromParts | core/src/image.c:278-315 | acceptance splits into a consistent table, an accepted manifest, a matching payload size and the signature-section checks |
| WireFormat.ImageInOctets | docs/image-format.md:41-163 | the image of a value is the file with every octet as the three tables say |
| WireFormat.ManifestInOctets | docs/image-format.md:74-112 | the same for a manifest section anywhere in a file |
| WireFormat.SignatureInOctets | docs/image-format.md:127-157 | the same for the signature section at a file's end |
| WireFormat.DeviceAcceptsExactly | core/src/image.c:143-319 | the device accepts exactly the files that follow the tables for values in range, with RMPIMG01, RPMFST01 and RPSIGN01 in place |
| WireFormat.DeviceAcceptsManifestExactly | core/src/manifest.c:15-236 | the same for manifest sections alone |
| WireFormat.DeviceStatusExactly | core/src/image.c:143-319 | OK, OVERFLOW and MANIFEST_FORMAT each in octets, IMAGE_FORMAT for every other file |
| WireFormat.DeviceViewExactly | core/src/image.c:236-318 | each field of the published view is a reading, a size or an address at a fixed place in the file |
| WireFormat.HostParsesExactly | host/rampart/src/format.rs:333-412 | the host parses exactly those files with a UTF-8 ID and a curve point hashing to the key ID, with these values and ranges |
| WireFormat.HostVerdictExactly | host/rampart/src/format.rs:138-143 | the report is valid exactly when signature over octets 64 to the signature section, digest, target and epoch all are |
| CManifest.ParsePreamble | core/src/manifest.c:31-65 | OK exactly for magic, exact size, version 1 and header size 128; MANIFEST_FORMAT otherwise |
| CManifest.ParseTarget | core/src/manifest.c:67-99 | the target fields land in their own view fields, and an inverted revision range is rejected |
| CManifest.ParseRelease | core/src/manifest.c:100-135 | version, payload size and digest view land in their own fields, under the one supported pair of algorithms |
| CManifest.ParsePolicy | core/src/manifest.c:137-178 | role, single-signature policy, key ID view, trial and rollback fields, each within its allowed values |
| CManifest.ParseArtifactId | core/src/manifest.c:179-206 | OK exactly when the announced ID length is 1 to 128 and gives the section its canonical size |
| CManifest.ParseCounts | core/src/manifest.c:208-224 | OK exactly when all three extension counts are zero |
| CManifest.ParseManifestV1 | core/src/manifest.c:15-236 | OK exactly on layouts of admissible manifests, else MANIFEST_FORMAT; publishes the exact view only on OK |
| CImage.RequireU16 | core/src/image.c:5-19 | BOUNDS, IMAGE_FORMAT or OK according to the field's presence and value |
| CImage.RequireU32 | core/src/image.c:21-35 | the same for four octets |
| CImage.ValidateSignatureSection | core/src/image.c:37-141 | OK exactly when the section has the fixed layout, names the manifest's key and carries an uncompressed key; publishes the view only on OK |
| CImage.ReadSectionFields | core/src/image.c:199-230 | each of the eight section fields is read from its own offset |
| CImage.ParseHeader | core/src/image.c:168-245 | OK exactly on the fixed header with zero reserved octets, and then every section field lands in its own view field |
| CImage.CheckSections | core/src/image.c:247-298 | OK exactly when the sections chain to the buffer's end, OVERFLOW exactly when a reached section end exceeds SIZE_MAX |
| CImage.ParseSectionTable | core/src/image.c:168-298 | header and chaining together decide whether the table describes the whole buffer |
| CImage.ParseSections | core/src/image.c:300-315 | behind a consistent table, MANIFEST_FORMAT exactly for a rejected manifest, and OK exactly for an accepted image |
| CImage.ParseImage | core/src/image.c:143-319 | the status is the declarative one, the published view is exactly that of the image's contents, and nothing is published otherwise |
| CImage.ConsistentBounds | core/src/image.c:251-298 | a consistent table excludes overflow and its sizes add up to the buffer |
| RustEncoder.ByteVec.CopyInto | host/rampart/src/format.rs:431 | the copied octets stand at the offset and every other octet and reading is unchanged |
| RustEncoder.ByteVec.WriteU16 | host/rampart/src/format.rs:1061-1063 | reading back gives the value, everything outside the two octets is unchanged |
| RustEncoder.ByteVec.WriteU32 | host/rampart/src/format.rs:1065-1067 | reading back gives the value, everything outside the four octets is unchanged |
| RustEncoder.AppendArtifactId | host/rampart/src/format.rs:468-471 | the header stays, the ID follows, and zeros pad to the canonical size |
| RustEncoder.EncodeManifest | host/rampart/src/format.rs:422-478 | fails exactly for an over-long ID, else yields the layout of the manifest |
| RustEncoder.EncodeSignatureSection | host/rampart/src/format.rs:615-673 | fails exactly for a signed region beyond u32, else yields the layout of the record |
| RustEncoder.EncodeImage | host/rampart/src/format.rs:797-847 | fails exactly when a section offset or size exceeds u32, else yields a consistent table followed by the three sections |
| RustParser.ParseManifestExact | host/rampart/src/format.rs:480-585 | the host parses exactly the manifests the device accepts whose ID is UTF-8, into the manifest read back |
| RustParser.ParseSignatureSectionExact | host/rampart/src/format.rs:675-785 | the host parses exactly the laid-out sections naming the manifest's key whose key is a point that hashes to the key ID |
| RustParser.ParseImageExact | host/rampart/src/format.rs:333-412 | the host parses exactly the images the device accepts that pass the host checks, into what they carry |
| RustParser.LayoutParses | host/rampart/src/format.rs:333-412 | encode then parse: the image of any value parses back to that value exactly when the value passes every check |
| RustParser.LayoutVerifies | host/rampart/src/format.rs:293-314 | each flag of the report is the meaning it names: payload hash, signature over the signed region, target, epoch |
| Utf8.Utf8IsEncodedText | host/rampart/src/format.rs:522-523 | octets are well-formed UTF-8 exactly when they encode some sequence of scalar values |
| Crypto.ReencodedPoint | host/rampart/src/keys.rs:11-17 | decoding a 65-octet key and encoding it again gives the same octets, so the derived ID hashes the embedded ones |
| Crypto.LawIsSatisfiable | host/rampart/src/format.rs:247-262 | some primitives satisfy the laws assumed of keys and signatures |
| Crypto.DecodedPoint | host/rampart/src/format.rs:594-603 | a point on the curve survives encoding and decoding |
| RustSigner.IntoManifestAdmissible | host/rampart/src/format.rs:147-205 | a document that converts gives a manifest both parsers admit, bound to the given payload, digest and key |
| RustSigner.RoleNameRoundTrip | host/rampart/src/format.rs:918-940 | naming a role and parsing the name gives it back for exactly the six known roles |
| RustSigner.RollbackPolicyNameRoundTrip | host/rampart/src/format.rs:954-968 | naming a rollback policy and parsing the name gives it back for exactly the known policies |
| RustSigner.RoleParsesExactly | host/rampart/src/format.rs:918-928 | the six names a role is parsed from, character for character |
| RustSigner.RollbackPolicyParsesExactly | host/rampart/src/format.rs:954-960 | the two names a rollback policy is parsed from |
| RustSigner.UnknownNames | host/rampart/src/format.rs:930-968 | every other role or policy is named UNKNOWN or unknown |
| RustSigner.IntoManifestExactly | host/rampart/src/format.rs:147-205 | which documents convert, and to what: every field copied, spelled, fixed or defaulted |
| RustSigner.DocumentRoundTrip | host/rampart/src/format.rs:147-214 | every admissible manifest comes back from the document spelling it out, unless its ID has a NUL octet |
| RustSigner.EncodeAll | host/rampart/src/format.rs:264-273 | the three encoders together succeed exactly within the format's limits, and give the image of the value |
| RustSigner.SignImage | host/rampart/src/format.rs:225-283 | exactly when an image is written, which values it carries with and without an override, when the tool panics, that the device accepts whatever is written, and that without an override the closing parse succeeds and the image verifies |
| RustSigner.ChosenKeyIdExactly | host/rampart/src/format.rs:248-253 | no override gives the first eight octets of the key's digest, an override the ID it spells |
| RustSigner.ContentsOfSigned | host/rampart/src/format.rs:247-271 | payload and digest, the key ID in manifest and record, the signature over the signed region and the key |
| RustSigner.ClosingParse | host/rampart/src/format.rs:247-282 | once an image is written, the closing parse succeeds exactly when the chosen key ID is the derived one |
| RustSigner.SignedImageVerifies | host/rampart/src/format.rs:247-314 | an image signed under its derived key ID verifies as valid for its own target and any epoch up to its own |
| TextForms.VersionRoundTrip | host/rampart/src/format.rs:209-214 | printing three u16 components and parsing the text gives them back |
| TextForms.NumberParsesExactly | host/rampart/src/format.rs:913-915 | an unsigned decimal parses exactly when it is digits after at most one plus sign, of a value within range |
| TextForms.SplitJoins | host/rampart/src/format.rs:895 | the pieces, joined with the separator, are the text again |
| TextForms.VersionParsesExactly | host/rampart/src/format.rs:894-916 | a version parses exactly when it is three dotted 16-bit numbers, and gives those |
| TextForms.DecimalIsCanonical | host/rampart/src/format.rs:209-214 | a printed number is digits of that value without leading zeros |
| TextForms.SplitAfterPiece | host/rampart/src/format.rs:895-898 | a piece without separators is split off whole |
| TextForms.DecimalReads | host/rampart/src/format.rs:913-915 | a printed decimal parses to its value within any maximum that holds it |
| TextForms.KeyIdHex | host/rampart/src/keys.rs:19-27 | the loop prints every octet as two lower-case digits, in order |
| TextForms.ParseKeyIdHex | host/rampart/src/keys.rs:29-51 | the loop's outcome is that of reading the eight pairs in order, stopping at the first bad one |
| TextForms.KeyIdRoundTrip | host/rampart/src/keys.rs:19-51 | parsing a printed key ID gives it back, bare or with either prefix |
| TextForms.PairSpells | host/rampart/src/keys.rs:43-46 | two characters parse to an octet exactly when they are two hexadecimal digits of either case, or a plus sign and one digit |
| TextForms.KeyIdPrintsExactly | host/rampart/src/keys.rs:19-27 | every octet is printed as two characters of 0123456789abcdef, high before low |
| TextForms.KeyIdParsesExactly | host/rampart/src/keys.rs:29-51 | a string parses to a key ID exactly when it is sixteen octets that spell it pair by pair, or these after 0x or 0X |
| TextForms.KeyIdPanicsExactly | host/rampart/src/keys.rs:42-48 | the parse panics exactly when, after pairs that spell octets, a character runs on past its pair's end |
| TextForms.KeyIdCanPanic | host/rampart/src/keys.rs:42-48 | a sixteen-octet UTF-8 string on which the parse panics |
| CodecTheorems.AcceptedIffLayout | core/src/image.c:143-319 | the accepted images are exactly the layouts of well-formed values |
| CodecTheorems.AcceptedManifestIffLayout | core/src/manifest.c:15-236 | the accepted manifests are exactly the layouts of admissible ones |
| CodecTheorems.ReadingIsInjective | docs/image-format.md:27-37 | accepted images with equal contents are equal octet for octet |
| CodecTheorems.Reencode | host/rampart/src/format.rs:333-412 | re-encoding what the host parsed always succeeds and rebuilds the image exactly |
| CodecTheorems.ViewsBorrow | core/src/image.c:121-138 | every pointer view of the device denotes the octets of the field it names |
| CodecTheorems.ParserAgreement | core/src/image.c:143-319 | the host accepts what the device accepts plus three host checks, and both report the same fields, ranges and octets |
| CodecTheorems.SplitFromSignedRegion | core/src/manifest.c:39-46 | the signed region itself says where its payload starts |
| CodecTheorems.SignedRegionDetermines | core/src/image.c:236-315 | equal signed regions force equal length, header, manifest and payload; only signature and key coordinates can differ |
| CodecTheorems.ImagesArePrefixFree | core/src/image.c:269-276 | no accepted image is a proper prefix of another |
| CodecTheorems.ManifestsArePrefixFree | core/src/manifest.c:44-46 | no accepted manifest is a proper prefix of another |
| CodecTheorems.ViewTiles | core/src/image.c:236-315 | the sections of the view tile the buffer and every borrowed view lies in its own section |
| CodecTheorems.WidthIndependence | core/src/image.c:251-289 | acceptance is the same for every size_t width, BOUNDS never occurs, and OVERFLOW needs a sum of two fields beyond the width |
| CodecTheorems.SubstitutedLayout | host/rampart/src/format.rs:387-402 | replacing the payload by one of equal length gives the image of the new value |
| CodecTheorems.PayloadSubstitution | host/rampart/src/format.rs:293-314 | such a replacement parses the same, and both verify only if the payloads have the same hash |
| CodecTheorems.ValidateBasicExactly | core/src/manifest.c:238-278 | when each status of basic validation comes back, for any view |
| CodecTheorems.ParsedThenValidated | core/src/manifest.c:238-278 | after parsing, validation comes down to target, epoch and a nonempty payload, in that order |
| CodecTheorems.PolicyAgreement | core/src/manifest.c:238-278 | host policy flags and device validation agree on every parsed image with a payload |
| CodecTheorems.WrittenImageReachesDevice | host/rampart/src/format.rs:271-282 | every image the tool writes is accepted by the device, whatever key ID was chosen |
| CodecTheorems.SignMismatched | host/rampart/src/format.rs:225-283 | overriding the key ID with any other one writes an image whose closing parse fails and which the device accepts |
| CodecTheorems.MismatchOccurs | host/rampart/src/format.rs:225-283 | every key, payload and foreign key ID within the limits has a document with which that happens |
| SignerBinding.DeviceLeavesKeyFree | core/src/image.c:121-138 | an accepted image stays accepted, over the same signed region, under any signature and any key coordinates |
| SignerBinding.SameRegionExactly | core/src/image.c:236-315 | the accepted images over one signed region are one of them under every signature and key, and no others |
| SignerBinding.AuthorizedBinding | core/src/trust.c:69-116 | for an authorized key ID, the host's key check holds exactly when embedded and trusted key share their digest prefix |
| SignerBinding.AuthorizationLeavesKeyFree | core/src/trust.c:69-116 | the device accepts and authorizes whatever key is embedded; the host rejects it unless its digest starts with the ID |
| CCrypto.CopySha256Digest | core/src/crypto.c:3-9 | the destination becomes the source, even when they are one buffer |
| CCrypto.Provider.Sha256 | core/include/rampart/crypto.h:23-26 | one callback step: the message is logged, and status and digest depend on all messages so far |
| CCrypto.Hash | core/src/crypto.c:11-40 | every status, the digest published only on success, and the callback reached exactly when all arguments are in order |
| Trust.FirstOffender | core/src/trust.c:39-59 | all records before it pass, and it is rejected if it is one |
| Trust.KeyIdsEqual | core/src/trust.c:5-14 | true exactly when the first eight octets agree |
| Trust.ValidateRecord | core/src/trust.c:40-58 | one round of the loop: the record's status and whether its key was hashed |
| Trust.StoreValidate | core/src/trust.c:26-61 | the status is the first offender's, and the callback saw exactly the keys hashed so far, in order |
| Trust.FindRecord | core/src/trust.c:90-95 | the search finds the first record with the ID |
| Trust.Lookup | core/src/trust.c:90-95 | no record has the ID, or the found one has it and none before does |
| Trust.MaskTest | core/include/rampart/trust.h:17-25 | the bit of a role is set in the or-ed mask of a set of roles exactly when the role is in the set |
| Trust.RoleInSet | core/src/trust.c:110-111 | the mask test is membership in the set of roles whose or-ed bits make up the mask |
| Trust.Authorize | core/src/trust.c:69-116 | the outcome of the ordered policy, the call log of one validation, and a result written only on OK |
| TrustTheorems.RecordShapeExactly | core/src/trust.c:16-24 | the shape of a record in plain numbers, its mask as that of a nonempty set of roles |
| TrustTheorems.RecordStatusExactly | core/src/trust.c:40-58 | what the loop says of a record it reaches: shape, then provider, then binding and uniqueness |
| TrustTheorems.StoreValidExactly | core/src/trust.c:26-61 | a store is valid exactly when it holds 1 to 16 records with distinct IDs, each field in range and each ID the prefix of the provider's digest of its key |
| TrustTheorems.UnusableStore | core/src/trust.c:34-37 | a store of no records, or more than 16, is rejected without a hash |
| TrustTheorems.ValidStoreHashesEveryKey | core/src/trust.c:46-47 | a successful validation hashes each key once, in order |
| TrustTheorems.InvalidStoreStopsAtFirst | core/src/trust.c:39-59 | a failed validation reports the first offender, and hashed exactly the keys before it and, if it got that far, its own |
| TrustTheorems.ValidRequestExactly | core/src/trust.c:80-85 | what a request must be, in plain numbers |
| TrustTheorems.MaskValues | core/include/rampart/trust.h:17-25 | the masks of the six roles and of all together |
| TrustTheorems.RoleSetsHaveMasks | core/include/rampart/trust.h:17-25 | every set of the six roles comes back from its mask, which is accepted exactly when the set is nonempty |
| TrustTheorems.AcceptedMaskIsRoleSet | core/src/trust.c:18-19 | the accepted masks are exactly the masks of nonempty sets of the six roles, each of one set only |
| TrustTheorems.UniqueHolder | core/src/trust.c:93 | in a valid store an ID names at most one record, as the search assumes |
| TrustTheorems.AuthorizedExactly | core/src/trust.c:69-116 | authorization succeeds exactly for a valid store with a granting record, which is then the only one with its ID |
| TrustTheorems.RejectedExactly | core/src/trust.c:96-113 | each rejection, an unknown key included, occurs exactly for its own cause, and the most severe applicable one is reported |
| TrustTheorems.ProductionIsStricter | core/src/trust.c:105-109 | production authorizes exactly what development does, less development-only keys and the development role |
| TrustTheorems.NarrowingKeepsOutcome | core/src/trust.c:110-113 | clearing role bits other than the required one never changes an outcome, for any provider |
| TrustTheorems.DistinctKeys | core/src/trust.c:54-58 | with a real hash, distinct IDs mean distinct public keys |
| TrustTheorems.OrderIndependence | core/src/trust.c:86-98 | permuting the store changes neither the outcome nor the record found |
| TrustTheorems.Locality | core/src/trust.c:86-98 | inserting or removing a sound record that is neither requested nor colliding changes nothing |
| Stage0.SelectTrial | stage0/src/select.c:41-56 | none only if no trial candidate is eligible, else the one that comes before every other |
| Stage0.SelectConfirmed | stage0/src/select.c:58-73 | the same for confirmed candidates |
| Stage0.SelectStage1 | stage0/src/select.c:75-106 | OK exactly when an eligible candidate exists, the decision is the single winner's, and nothing is written otherwise |
| Stage0.EligibleExactly | stage0/src/select.c:3-22 | what makes a candidate eligible, field by field |
| Stage0.WinnerMaximizesScore | stage0/src/select.c:24-106 | the winner is the earliest eligible candidate with the greatest score: trial, epoch and slot ID as digits of one number |
| Stage0.BeatsIsTotalOrder | stage0/src/select.c:24-39 | coming before is a strict total order on eligible positions |
| Stage0.WinnerIsUnique | stage0/src/select.c:75-106 | there is at most one winner |
| Stage0.WinnerExists | stage0/src/select.c:75-106 | there is a winner whenever anything is eligible |
| Stage0.WinnerOfConcat | stage0/src/select.c:41-73 | the winner of a concatenation of lists with winners is the preferred of the two |
| Stage0.ChoiceOfConcat | stage0/src/select.c:41-106 | the choice over a concatenation is the preferred of the two choices, whichever of them exist |
| Stage0.OrderDoesNotMatter | stage0/src/select.c:24-39 | with distinct slot IDs, reordering the candidates chooses the same one, or none as before |
| Stage0.DeletingALoser | stage0/src/select.c:41-73 | deleting a loser keeps the winner |
| Stage0.RaisingTheMinimum | stage0/src/select.c:9-22 | raising the minimum epoch up to the winner's keeps the winner |

## Left out

- SHA-256, ECDSA and P-256 arithmetic, and platform/host/src/openssl_crypto.c: foreign calls, parameters here.
- `rampart_crypto_verify_signature` (core/src/crypto.c:42-75): argument checks around a foreign call, used by nothing modelled here.
- The command line, file and PEM reading and writing, the check that the output path is free, TOML deserialisation, report text and error messages: plumbing.
- `inspect_image` and `hex_lower`: reporting only.
- Text to value to text for versions and key IDs: the integer parsers accept more spellings (a leading plus sign, leading zeros, upper case) than the printers emit.
- NULL result pointers of `rampart_binary_read_u16_le` and `rampart_binary_read_u32_le`: every caller passes a local's address.
- NULL views inside a struct, other than the key ID and digest pointers the code itself compares with NULL.
- Allocation failure and vector capacity in the host tool.
- CCrypto.Provider.Sha256: the callback is a function of the messages it was given, so outside nondeterminism appears only as the choice of that function.
- Key epochs and hardware revisions against a device: stored by this code, enforced nowhere in it.
- `rampart_status_string`, stage 1, reset handlers, startup assembly and the linker script: tables, stubs and empty loops.
- Bundles, the boot journal, flash transactions, trial-attempt counting, epoch advancement and health contracts: described in the documentation, absent from the code.
