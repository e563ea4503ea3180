/** What store validation and authorization guarantee, over every store, request and provider. */
module TrustTheorems {
  import opened Bytes
  import opened Layout
  import opened Results
  import opened Status
  import opened CCrypto
  import opened Trust

  // ---------------------------------------------------------------------------
  // Validation is exact
  // ---------------------------------------------------------------------------

  predicate DistinctIds(recs: seq<TrustRecord>) {
    forall j, k :: 0 <= j < k < |recs| ==> recs[j].keyId != recs[k].keyId
  }

  /** Record `k` has a valid shape, and the provider's digest of its key starts with its ID. */
  predicate Bound(recs: seq<TrustRecord>, k: nat, hasher: Hasher, log: seq<Octets>)
    requires k < |recs|
  {
    && ValidRecordShape(recs[k])
    && hasher.present
    && ReplyFor(recs, k, hasher, log).status.OK?
    && recs[k].keyId == ReplyFor(recs, k, hasher, log).digest[..KEY_ID_SIZE]
  }

  lemma ValidWhenBound(recs: seq<TrustRecord>, hasher: Hasher, log: seq<Octets>)
    ensures StoreStatus(recs, hasher, log) == OK <==>
            && 1 <= |recs| <= MAX_KEYS
            && (forall k :: 0 <= k < |recs| ==> Bound(recs, k, hasher, log))
            && DistinctIds(recs)
  {
    hide ValidRecordShape, ReplyFor;
    if 1 <= |recs| <= MAX_KEYS {
      var n := FirstOffender(recs, 0, hasher, log);
      if n == |recs| {
        forall j, k | 0 <= j < k < |recs| ensures recs[j].keyId != recs[k].keyId {
          assert RecordStatus(recs, k, hasher, log) == OK;
          assert !Collides(recs, k);
        }
        forall k | 0 <= k < |recs| ensures Bound(recs, k, hasher, log) {
          assert RecordStatus(recs, k, hasher, log) == OK;
        }
      } else if (forall k :: 0 <= k < |recs| ==> Bound(recs, k, hasher, log)) && DistinctIds(recs) {
        assert Bound(recs, n, hasher, log);
        assert !Collides(recs, n);
      }
    }
  }

  /** The shape of a record, in plain numbers and as a set of roles. */
  lemma RecordShapeExactly(r: TrustRecord)
    ensures ValidRecordShape(r) <==>
            && r.algorithm == 1
            && r.publicKey[0] == 0x04
            && r.status in {1, 2, 3, 4}
            && exists roles :: roles != {} && roles <= {1, 2, 3, 4, 5, 6} && r.roles == MaskOf(roles)
  {
    hide MaskOf;
    AcceptedMaskIsRoleSet(r.roles);
    assert ROLES == {1, 2, 3, 4, 5, 6};
  }

  /**
   * Record `k` is for algorithm 1, has an uncompressed key, one of the four statuses and the mask of
   * a nonempty set of the six roles, and the provider's digest of its key starts with its ID.
   */
  ghost predicate SoundAt(recs: seq<TrustRecord>, k: nat, hasher: Hasher, log: seq<Octets>)
    requires k < |recs|
  {
    && recs[k].algorithm == 1
    && recs[k].publicKey[0] == 0x04
    && recs[k].status in {1, 2, 3, 4}
    && (exists roles :: roles != {} && roles <= {1, 2, 3, 4, 5, 6} && recs[k].roles == MaskOf(roles))
    && hasher.present
    && var reply := hasher.reply(log + Keys(recs)[..k], recs[k].publicKey);
    reply.status == OK && recs[k].keyId == reply.digest[..8]
  }

  lemma BoundExactly(recs: seq<TrustRecord>, k: nat, hasher: Hasher, log: seq<Octets>)
    requires k < |recs|
    ensures Bound(recs, k, hasher, log) <==> SoundAt(recs, k, hasher, log)
  {
    hide MaskOf, ValidRecordShape;
    RecordShapeExactly(recs[k]);
    assert Keys(recs)[..k] == Keys(recs[..k]);
  }

  /** A store is valid exactly when it holds 1 to 16 sound records with distinct IDs. */
  lemma StoreValidExactly(recs: seq<TrustRecord>, hasher: Hasher, log: seq<Octets>)
    ensures StoreStatus(recs, hasher, log) == OK <==>
            && 1 <= |recs| <= 16
            && (forall j, k :: 0 <= j < k < |recs| ==> recs[j].keyId != recs[k].keyId)
            && (forall k :: 0 <= k < |recs| ==> SoundAt(recs, k, hasher, log))
  {
    hide SoundAt, Bound, StoreStatus;
    ValidWhenBound(recs, hasher, log);
    forall k | 0 <= k < |recs| ensures Bound(recs, k, hasher, log) <==> SoundAt(recs, k, hasher, log) {
      BoundExactly(recs, k, hasher, log);
    }
  }

  /** Why the loop rejects record `k`, given that it got that far: shape, then provider, then binding and uniqueness. */
  lemma RecordStatusExactly(recs: seq<TrustRecord>, k: nat, hasher: Hasher, log: seq<Octets>)
    requires k < |recs|
    ensures var status := RecordStatus(recs, k, hasher, log);
            var reply := hasher.reply(log + Keys(recs)[..k], recs[k].publicKey);
            && (status == ERR_CRYPTO_PROVIDER <==> ValidRecordShape(recs[k]) && (!hasher.present || reply.status != OK))
            && (status == OK <==>
                  && ValidRecordShape(recs[k]) && hasher.present && reply.status == OK
                  && recs[k].keyId == reply.digest[..8]
                  && forall j :: 0 <= j < k ==> recs[j].keyId != recs[k].keyId)
            && status in {OK, ERR_CRYPTO_PROVIDER, ERR_TRUST_STORE}
  {
    hide ValidRecordShape;
    assert Keys(recs)[..k] == Keys(recs[..k]);
  }

  /** A store of no records or more than 16 is rejected without asking the provider anything. */
  lemma UnusableStore(recs: seq<TrustRecord>, hasher: Hasher, log: seq<Octets>)
    requires |recs| == 0 || |recs| > 16
    ensures StoreStatus(recs, hasher, log) == ERR_TRUST_STORE && HashedKeys(recs, hasher, log) == []
  {
  }

  /** Everything the provider was given, and nothing else, when validation succeeds: each key once, in order. */
  lemma ValidStoreHashesEveryKey(recs: seq<TrustRecord>, hasher: Hasher, log: seq<Octets>)
    requires StoreStatus(recs, hasher, log) == OK
    ensures HashedKeys(recs, hasher, log) == Keys(recs)
  {
    hide RecordStatus;
    assert recs[..|recs|] == recs;
  }

  /**
   * On failure the status is the first offender's, and the provider was given the keys before it,
   * and its own exactly when its shape is valid and there is a callback to give it to.
   */
  lemma InvalidStoreStopsAtFirst(recs: seq<TrustRecord>, hasher: Hasher, log: seq<Octets>)
    requires 1 <= |recs| <= 16 && StoreStatus(recs, hasher, log) != OK
    ensures exists n :: 0 <= n < |recs|
              && StoreStatus(recs, hasher, log) == RecordStatus(recs, n, hasher, log)
              && (forall k :: 0 <= k < n ==> RecordStatus(recs, k, hasher, log) == OK)
              && HashedKeys(recs, hasher, log)
                 == Keys(recs)[..if ValidRecordShape(recs[n]) && hasher.present then n + 1 else n]
  {
    hide RecordStatus, ValidRecordShape;
    var n := FirstOffender(recs, 0, hasher, log);
    KeysExtend(recs, n);
    assert Keys(recs)[..n] == Keys(recs[..n]) && Keys(recs)[..n + 1] == Keys(recs[..n + 1]);
  }

  // ---------------------------------------------------------------------------
  // What authorization means
  // ---------------------------------------------------------------------------

  /** The mask of each role, and of all six. */
  lemma MaskValues()
    ensures MaskOf({1}) == 0x02 && MaskOf({2}) == 0x04 && MaskOf({3}) == 0x08
    ensures MaskOf({4}) == 0x10 && MaskOf({5}) == 0x20 && MaskOf({6}) == 0x40
    ensures MaskOf({1, 2, 3, 4, 5, 6}) == 0x7E
  {
  }

  lemma MaskStaysInside(roles: set<nat>)
    ensures MaskOf(roles) & ROLES_ALL == MaskOf(roles)
    ensures roles == {} ==> MaskOf(roles) == 0
  {
  }

  /** Every set of roles has a mask that gives it back, and every nonempty one's is accepted. */
  lemma RoleSetsHaveMasks(roles: set<nat>)
    requires roles <= ROLES
    ensures RoleSet(MaskOf(roles)) == roles
    ensures AcceptedMask(MaskOf(roles)) <==> roles != {}
  {
    hide HasRole, MaskOf, RoleSet;
    var mask := MaskOf(roles);
    forall role | role in ROLES ensures role in RoleSet(mask) <==> role in roles {
      RoleInSet(mask, role);
      MaskTest(roles, role);
    }
    MaskStaysInside(roles);
    AcceptedIsMasked(mask);
    if role :| role in roles {
      MaskTest(roles, role);
      NonZero(mask, role);
    }
  }

  /**
   * The accepted masks are the masks of the nonempty sets of roles, each of exactly one. In
   * particular none has a bit outside 1 to 6.
   */
  lemma AcceptedMaskIsRoleSet(mask: bv32)
    ensures AcceptedMask(mask) <==> exists roles :: roles != {} && roles <= ROLES && MaskOf(roles) == mask
    ensures AcceptedMask(mask) ==> MaskOf(RoleSet(mask)) == mask
    ensures AcceptedMask(mask) <==>
            RoleSet(mask) != {} && forall bit :: 0 <= bit < 32 && HasRole(mask, bit) ==> 1 <= bit <= 6
  {
    hide RoleSet, MaskOf;
    BitsOutside(mask);
    AcceptedIsMasked(mask);
    RoleSetsHaveMasks(RoleSet(mask));
    if roles :| roles != {} && roles <= ROLES && MaskOf(roles) == mask {
      RoleSetsHaveMasks(roles);
    }
  }

  lemma AcceptedIsMasked(mask: bv32)
    ensures (mask & !ROLES_ALL) == 0 <==> mask & ROLES_ALL == mask
  {
  }

  lemma BitsOutside(roles: bv32)
    ensures (roles & !ROLES_ALL) == 0 <==> forall bit :: 0 <= bit < 32 && HasRole(roles, bit) ==> 1 <= bit <= 6
  {
    assert (roles & !ROLES_ALL) == 0 <==>
           !HasRole(roles, 0) && !HasRole(roles, 7) && !HasRole(roles, 8) && !HasRole(roles, 9) &&
           !HasRole(roles, 10) && !HasRole(roles, 11) && !HasRole(roles, 12) && !HasRole(roles, 13) &&
           !HasRole(roles, 14) && !HasRole(roles, 15) && !HasRole(roles, 16) && !HasRole(roles, 17) &&
           !HasRole(roles, 18) && !HasRole(roles, 19) && !HasRole(roles, 20) && !HasRole(roles, 21) &&
           !HasRole(roles, 22) && !HasRole(roles, 23) && !HasRole(roles, 24) && !HasRole(roles, 25) &&
           !HasRole(roles, 26) && !HasRole(roles, 27) && !HasRole(roles, 28) && !HasRole(roles, 29) &&
           !HasRole(roles, 30) && !HasRole(roles, 31);
    forall bit | 0 <= bit < 32 && !(1 <= bit <= 6) && (roles & !ROLES_ALL) == 0 ensures !HasRole(roles, bit) {
      assert bit == 0 || bit == 7 || bit == 8 || bit == 9 || bit == 10 || bit == 11 || bit == 12
             || bit == 13 || bit == 14 || bit == 15 || bit == 16 || bit == 17 || bit == 18 || bit == 19
             || bit == 20 || bit == 21 || bit == 22 || bit == 23 || bit == 24 || bit == 25 || bit == 26
             || bit == 27 || bit == 28 || bit == 29 || bit == 30 || bit == 31;
    }
  }

  /** In a valid store an ID names at most one record. */
  lemma UniqueHolder(recs: seq<TrustRecord>, hasher: Hasher, log: seq<Octets>, keyId: Octets, j: nat, k: nat)
    requires StoreStatus(recs, hasher, log) == OK && Holds(recs, keyId, j) && Holds(recs, keyId, k)
    ensures j == k
  {
    ValidWhenBound(recs, hasher, log);
  }

  predicate WellFormedRequest(request: TrustRequest) {
    ValidRequest(request) && |request.keyId.value| == KEY_ID_SIZE
  }

  /** What the code demands of a request, in plain numbers. */
  lemma ValidRequestExactly(request: TrustRequest)
    ensures ValidRequest(request) <==>
            && request.keyId.Some?
            && request.keyIdLen == 8
            && 1 <= request.requiredRole <= 6
            && 1 <= request.manifestRole <= 6
            && 1 <= request.lifecycle <= 2
  {
  }

  /** What a record must be for a request to succeed with it. */
  ghost predicate Grants(r: TrustRecord, request: TrustRequest) {
    && r.status in {1, 4}
    && (request.lifecycle == 2 ==> r.status == 1 && request.requiredRole != 6)
    && request.manifestRole == request.requiredRole
    && request.requiredRole in RoleSet(r.roles)
  }

  /**
   * A request succeeds exactly when the store is valid and holds a granting record with the
   * requested ID, and then no other record has that ID. In particular no revoked or expired key and
   * no key without the required role ever authorizes anything.
   */
  lemma AuthorizedExactly(recs: seq<TrustRecord>, hasher: Hasher, log: seq<Octets>, request: TrustRequest)
    requires WellFormedRequest(request)
    ensures AuthorizeStatus(recs, hasher, log, request) == OK <==>
            && StoreStatus(recs, hasher, log) == OK
            && exists k: nat :: Holds(recs, request.keyId.value, k) && Grants(recs[k], request)
    ensures AuthorizeStatus(recs, hasher, log, request) == OK ==>
              var found := Lookup(recs, request.keyId.value);
              found.Some? && forall k: nat :: Holds(recs, request.keyId.value, k) <==> k == found.value
  {
    hide StoreStatus, HasRole, RoleSet;
    var keyId := request.keyId.value;
    if StoreStatus(recs, hasher, log) == OK {
      var found := Lookup(recs, keyId);
      forall k: nat | Holds(recs, keyId, k) ensures found.Some? && k == found.value {
        UniqueHolder(recs, hasher, log, keyId, k, found.value);
      }
      if found.Some? {
        ValidStatuses(recs, hasher, log, found.value);
      }
    }
  }

  /** The record with the requested ID, in a valid store. */
  predicate Resolved(recs: seq<TrustRecord>, hasher: Hasher, log: seq<Octets>, request: TrustRequest, r: TrustRecord)
    requires WellFormedRequest(request)
  {
    StoreStatus(recs, hasher, log) == OK && r in recs && r.keyId == request.keyId.value
  }

  /** Each rejection has one cause; where several apply, the most severe is reported. */
  lemma RejectedExactly(recs: seq<TrustRecord>, hasher: Hasher, log: seq<Octets>, request: TrustRequest, r: TrustRecord)
    requires WellFormedRequest(request)
    ensures var status := AuthorizeStatus(recs, hasher, log, request);
            && (StoreStatus(recs, hasher, log) != OK ==> status == StoreStatus(recs, hasher, log)
                                                         && status in {ERR_TRUST_STORE, ERR_CRYPTO_PROVIDER})
            && (status == ERR_KEY_UNKNOWN <==>
                  StoreStatus(recs, hasher, log) == OK && forall k: nat :: !Holds(recs, request.keyId.value, k))
            && (Resolved(recs, hasher, log, request, r) ==>
                  && (status == ERR_KEY_REVOKED <==> r.status == 2)
                  && (status == ERR_KEY_EXPIRED <==> r.status == 3)
                  && (status == ERR_KEY_LIFECYCLE <==>
                        && request.lifecycle == 2
                        && (r.status == 4 || (r.status == 1 && request.requiredRole == 6)))
                  && (status == ERR_KEY_ROLE <==>
                        && (r.status == 1 || r.status == 4)
                        && (request.lifecycle == 2 ==> r.status == 1 && request.requiredRole != 6)
                        && (request.manifestRole != request.requiredRole
                            || request.requiredRole !in RoleSet(r.roles))))
  {
    hide StoreStatus, HasRole, RoleSet;
    StoreStatuses(recs, hasher, log);
    if Resolved(recs, hasher, log, request, r) {
      var k: nat :| k < |recs| && recs[k] == r;
      assert Holds(recs, request.keyId.value, k);
      UniqueHolder(recs, hasher, log, request.keyId.value, k, Lookup(recs, request.keyId.value).value);
      ValidStatuses(recs, hasher, log, k);
    }
  }

  lemma StoreStatuses(recs: seq<TrustRecord>, hasher: Hasher, log: seq<Octets>)
    ensures StoreStatus(recs, hasher, log) in {OK, ERR_TRUST_STORE, ERR_CRYPTO_PROVIDER}
  {
  }

  lemma ValidStatuses(recs: seq<TrustRecord>, hasher: Hasher, log: seq<Octets>, k: nat)
    requires StoreStatus(recs, hasher, log) == OK && k < |recs|
    ensures ValidRecordShape(recs[k])
    ensures recs[k].status in {KEY_TRUSTED, KEY_REVOKED, KEY_EXPIRED, KEY_DEVELOPMENT_ONLY}
  {
    ValidWhenBound(recs, hasher, log);
    assert Bound(recs, k, hasher, log);
  }

  /** Production authorizes exactly what development does, less development-only keys and the development role. */
  lemma ProductionIsStricter(recs: seq<TrustRecord>, hasher: Hasher, log: seq<Octets>, request: TrustRequest)
    requires WellFormedRequest(request)
    ensures var development := request.(lifecycle := 1);
            var production := request.(lifecycle := 2);
            AuthorizeStatus(recs, hasher, log, production) == OK <==>
            && AuthorizeStatus(recs, hasher, log, development) == OK
            && request.requiredRole != 6
            && recs[Lookup(recs, request.keyId.value).value].status != 4
  {
    hide StoreStatus, HasRole, RoleSet;
  }

  // ---------------------------------------------------------------------------
  // Narrowing a key's roles
  // ---------------------------------------------------------------------------

  /** `roles` loses bits but keeps the required one. */
  predicate Narrowed(roles: bv32, narrowed: bv32, requiredRole: nat)
    requires requiredRole < 32
  {
    (narrowed & !roles) == 0 && HasRole(roles, requiredRole) && HasRole(narrowed, requiredRole)
  }

  lemma NarrowedShape(r: TrustRecord, narrowed: bv32, requiredRole: nat)
    requires ValidRecordShape(r) && 1 <= requiredRole <= 6 && Narrowed(r.roles, narrowed, requiredRole)
    ensures ValidRecordShape(r.(roles := narrowed))
  {
    NarrowedMask(r.roles, narrowed);
    NonZero(narrowed, requiredRole);
  }

  lemma NarrowedMask(roles: bv32, narrowed: bv32)
    ensures (narrowed & !roles) == 0 && (roles & !ROLES_ALL) == 0 ==> (narrowed & !ROLES_ALL) == 0
  {
  }

  lemma NonZero(roles: bv32, role: nat)
    requires role < 32
    ensures HasRole(roles, role) ==> roles != 0
  {
    assert roles == 0 ==> roles & ((1 as bv32) << role) == 0;
  }

  lemma NarrowedRecordStatus(recs: seq<TrustRecord>, i: nat, narrowed: bv32, requiredRole: nat, k: nat,
                             hasher: Hasher, log: seq<Octets>)
    requires i < |recs| && k < |recs| && ValidRecordShape(recs[i])
    requires 1 <= requiredRole <= 6 && Narrowed(recs[i].roles, narrowed, requiredRole)
    ensures RecordStatus(recs[i := recs[i].(roles := narrowed)], k, hasher, log) == RecordStatus(recs, k, hasher, log)
  {
    hide ValidRecordShape, HasRole;
    var other := recs[i := recs[i].(roles := narrowed)];
    NarrowedShape(recs[i], narrowed, requiredRole);
    assert Keys(other[..k]) == Keys(recs[..k]);
    assert Collides(other, k) <==> Collides(recs, k) by {
      assert forall j :: 0 <= j < |recs| ==> other[j].keyId == recs[j].keyId;
    }
  }

  lemma {:induction false} NarrowedOffender(recs: seq<TrustRecord>, i: nat, narrowed: bv32, requiredRole: nat, k: nat,
                                           hasher: Hasher, log: seq<Octets>)
    requires i < |recs| && k <= |recs| && ValidRecordShape(recs[i])
    requires 1 <= requiredRole <= 6 && Narrowed(recs[i].roles, narrowed, requiredRole)
    ensures FirstOffender(recs[i := recs[i].(roles := narrowed)], k, hasher, log) == FirstOffender(recs, k, hasher, log)
    decreases |recs| - k
  {
    hide ValidRecordShape, HasRole, RecordStatus;
    if k < |recs| {
      NarrowedRecordStatus(recs, i, narrowed, requiredRole, k, hasher, log);
      NarrowedOffender(recs, i, narrowed, requiredRole, k + 1, hasher, log);
    }
  }

  lemma {:induction false} NarrowedLookup(recs: seq<TrustRecord>, i: nat, narrowed: bv32, keyId: Octets, k: nat)
    requires i < |recs| && k <= |recs|
    ensures LookupFrom(recs[i := recs[i].(roles := narrowed)], keyId, k) == LookupFrom(recs, keyId, k)
    decreases |recs| - k
  {
    if k < |recs| {
      NarrowedLookup(recs, i, narrowed, keyId, k + 1);
    }
  }

  lemma NarrowedRoles(roles: bv32, narrowed: bv32, requiredRole: nat)
    requires requiredRole in ROLES && Narrowed(roles, narrowed, requiredRole)
    ensures requiredRole in RoleSet(roles) && requiredRole in RoleSet(narrowed)
  {
    RoleInSet(roles, requiredRole);
    RoleInSet(narrowed, requiredRole);
  }

  /** Clearing role bits other than the required one, in any record that has it, never changes an outcome. */
  lemma NarrowingKeepsOutcome(recs: seq<TrustRecord>, i: nat, narrowed: bv32, hasher: Hasher, log: seq<Octets>,
                              request: TrustRequest)
    requires WellFormedRequest(request) && i < |recs| && ValidRecordShape(recs[i])
    requires Narrowed(recs[i].roles, narrowed, request.requiredRole)
    ensures AuthorizeStatus(recs[i := recs[i].(roles := narrowed)], hasher, log, request)
            == AuthorizeStatus(recs, hasher, log, request)
  {
    hide ValidRecordShape, HasRole, RoleSet, RecordStatus;
    var role := request.requiredRole;
    NarrowedRoles(recs[i].roles, narrowed, role);
    NarrowedOffender(recs, i, narrowed, role, 0, hasher, log);
    forall k: nat | k < |recs| {
      NarrowedRecordStatus(recs, i, narrowed, role, k, hasher, log);
    }
    NarrowedLookup(recs, i, narrowed, request.keyId.value, 0);
  }

  // ---------------------------------------------------------------------------
  // Order and locality, for a hash that is one
  // ---------------------------------------------------------------------------

  /** The provider always succeeds and its answer depends on the message alone. */
  ghost predicate Hashes(hasher: Hasher, hash: Octets -> Digest) {
    hasher.present && forall log, message :: hasher.reply(log, message) == HashReply(OK, hash(message))
  }

  /** Shape and binding of a record, with no store around it. */
  predicate Sound(r: TrustRecord, hash: Octets -> Digest) {
    ValidRecordShape(r) && r.keyId == hash(r.publicKey)[..KEY_ID_SIZE]
  }

  lemma ValidForHash(recs: seq<TrustRecord>, hasher: Hasher, hash: Octets -> Digest, log: seq<Octets>)
    requires Hashes(hasher, hash)
    ensures StoreStatus(recs, hasher, log) in {OK, ERR_TRUST_STORE}
    ensures StoreStatus(recs, hasher, log) == OK <==>
            1 <= |recs| <= MAX_KEYS && (forall r :: r in recs ==> Sound(r, hash)) && DistinctIds(recs)
  {
    hide ValidRecordShape;
    ValidWhenBound(recs, hasher, log);
    assert forall k :: 0 <= k < |recs| ==> (Bound(recs, k, hasher, log) <==> Sound(recs[k], hash));
  }

  /** In a valid store the keys are distinct too. */
  lemma DistinctKeys(recs: seq<TrustRecord>, hasher: Hasher, hash: Octets -> Digest, log: seq<Octets>, j: nat, k: nat)
    requires Hashes(hasher, hash) && StoreStatus(recs, hasher, log) == OK && j < k < |recs|
    ensures recs[j].publicKey != recs[k].publicKey
  {
    hide ValidRecordShape;
    ValidForHash(recs, hasher, hash, log);
    assert Sound(recs[j], hash) && Sound(recs[k], hash);
  }

  lemma TwiceInMultiset(recs: seq<TrustRecord>, j: nat, k: nat)
    requires j < k < |recs| && recs[j] == recs[k]
    ensures multiset(recs)[recs[j]] >= 2
  {
    assert recs == recs[..k] + recs[k..];
    assert recs[..k][j] == recs[j] && recs[k..][0] == recs[k];
    assert recs[j] in multiset(recs[..k]) && recs[k] in multiset(recs[k..]);
  }

  /** Distinct IDs, stated without positions. */
  lemma DistinctByMultiset(recs: seq<TrustRecord>)
    ensures DistinctIds(recs) <==>
            && (forall r :: r in multiset(recs) ==> multiset(recs)[r] == 1)
            && (forall r, s :: r in multiset(recs) && s in multiset(recs) && r != s ==> r.keyId != s.keyId)
  {
    if DistinctIds(recs) {
      forall r | r in multiset(recs) ensures multiset(recs)[r] == 1 {
        CountOfDistinct(recs, r);
      }
    } else {
      var j, k :| 0 <= j < k < |recs| && recs[j].keyId == recs[k].keyId;
      assert recs[j] in multiset(recs) && recs[k] in multiset(recs);
      if recs[j] == recs[k] {
        TwiceInMultiset(recs, j, k);
      }
    }
  }

  lemma {:induction false} CountOfDistinct(recs: seq<TrustRecord>, r: TrustRecord)
    requires DistinctIds(recs)
    ensures multiset(recs)[r] <= 1
  {
    if recs != [] {
      var last := recs[|recs| - 1];
      var front := recs[..|recs| - 1];
      assert recs == front + [last];
      CountOfDistinct(front, r);
      assert forall j :: 0 <= j < |front| ==> front[j] == recs[j] && front[j].keyId != last.keyId;
    }
  }

  lemma SameMembers(a: seq<TrustRecord>, b: seq<TrustRecord>)
    requires multiset(a) == multiset(b)
    ensures |a| == |b|
    ensures forall r :: r in a <==> r in b
  {
    assert |a| == |multiset(a)| && |b| == |multiset(b)|;
    assert forall r :: r in a <==> r in multiset(a);
    assert forall r :: r in b <==> r in multiset(b);
  }

  /** Permuting the store changes neither the status nor the record found. */
  lemma OrderIndependence(a: seq<TrustRecord>, b: seq<TrustRecord>, hasher: Hasher, hash: Octets -> Digest,
                          logA: seq<Octets>, logB: seq<Octets>, request: TrustRequest)
    requires Hashes(hasher, hash) && WellFormedRequest(request) && multiset(a) == multiset(b)
    ensures AuthorizeStatus(a, hasher, logA, request) == AuthorizeStatus(b, hasher, logB, request)
    ensures AuthorizeStatus(a, hasher, logA, request) == OK ==>
              a[Lookup(a, request.keyId.value).value] == b[Lookup(b, request.keyId.value).value]
  {
    hide StoreStatus, RecordDecision, Sound;
    SameMembers(a, b);
    DistinctByMultiset(a);
    DistinctByMultiset(b);
    ValidForHash(a, hasher, hash, logA);
    ValidForHash(b, hasher, hash, logB);
    if DistinctIds(a) {
      SameRecordFound(a, b, request.keyId.value);
    }
  }

  lemma SameRecordFound(a: seq<TrustRecord>, b: seq<TrustRecord>, keyId: Octets)
    requires DistinctIds(a) && forall r :: r in a <==> r in b
    ensures Lookup(a, keyId).Some? <==> Lookup(b, keyId).Some?
    ensures Lookup(a, keyId).Some? ==> a[Lookup(a, keyId).value] == b[Lookup(b, keyId).value]
  {
    var foundA, foundB := Lookup(a, keyId), Lookup(b, keyId);
    if foundA.Some? {
      var r := a[foundA.value];
      assert r in b;
      var k :| 0 <= k < |b| && b[k] == r;
      assert Holds(b, keyId, k);
    }
    if foundB.Some? {
      var r := b[foundB.value];
      assert r in a;
      var k :| 0 <= k < |a| && a[k] == r;
      assert Holds(a, keyId, k);
    }
  }

  lemma ValidWhenAppended(recs: seq<TrustRecord>, r: TrustRecord, hasher: Hasher, hash: Octets -> Digest,
                          logA: seq<Octets>, logB: seq<Octets>)
    requires Hashes(hasher, hash) && Sound(r, hash) && 1 <= |recs| < MAX_KEYS
    requires forall s :: s in recs ==> s.keyId != r.keyId
    ensures StoreStatus(recs + [r], hasher, logA) == StoreStatus(recs, hasher, logB)
  {
    hide StoreStatus, Sound;
    var appended := recs + [r];
    ValidForHash(recs, hasher, hash, logB);
    ValidForHash(appended, hasher, hash, logA);
    assert forall s :: s in appended <==> s in recs || s == r;
    assert DistinctIds(appended) <==> DistinctIds(recs) by {
      assert forall k :: 0 <= k < |recs| ==> appended[k] == recs[k] && recs[k] in recs;
    }
  }

  lemma {:induction false} LookupIgnoresAppended(recs: seq<TrustRecord>, r: TrustRecord, keyId: Octets, k: nat)
    requires k <= |recs| && r.keyId != keyId
    ensures LookupFrom(recs + [r], keyId, k) == LookupFrom(recs, keyId, k)
    decreases |recs| - k
  {
    if k < |recs| {
      LookupIgnoresAppended(recs, r, keyId, k + 1);
    }
  }

  /** A sound record whose ID is neither requested nor taken can stand anywhere without being noticed. */
  lemma Locality(recs: seq<TrustRecord>, r: TrustRecord, position: nat, hasher: Hasher, hash: Octets -> Digest,
                 logA: seq<Octets>, logB: seq<Octets>, request: TrustRequest)
    requires Hashes(hasher, hash) && WellFormedRequest(request)
    requires 1 <= |recs| < MAX_KEYS && position <= |recs|
    requires Sound(r, hash) && r.keyId != request.keyId.value
    requires forall s :: s in recs ==> s.keyId != r.keyId
    ensures var grown := recs[..position] + [r] + recs[position..];
            && AuthorizeStatus(grown, hasher, logA, request) == AuthorizeStatus(recs, hasher, logB, request)
            && (AuthorizeStatus(recs, hasher, logB, request) == OK ==>
                  grown[Lookup(grown, request.keyId.value).value] == recs[Lookup(recs, request.keyId.value).value])
  {
    hide StoreStatus, RecordDecision, Sound;
    var grown := recs[..position] + [r] + recs[position..];
    var appended := recs + [r];
    assert multiset(grown) == multiset(appended) by {
      assert recs == recs[..position] + recs[position..];
    }
    OrderIndependence(grown, appended, hasher, hash, logA, logA, request);
    ValidWhenAppended(recs, r, hasher, hash, logA, logB);
    LookupIgnoresAppended(recs, r, request.keyId.value, 0);
  }
}
