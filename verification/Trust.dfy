/** The trust store: validation of the provisioned records, and authorization against them. */
module Trust {
  import opened Bytes
  import opened Layout
  import opened Results
  import opened Status
  import opened CCrypto

  const MAX_KEYS: nat := 16
  const KEY_ID_SIZE: nat := 8

  const ROLE_DEVELOPMENT: U16 := 6
  /** The six key roles. */
  const ROLES: set<nat> := {1, 2, 3, 4, 5, 6}
  /** Bits 1 to 6, one per role: `MaskOf(ROLES)`. */
  const ROLES_ALL: bv32 := 0x7E

  const KEY_TRUSTED: U16 := 1
  const KEY_REVOKED: U16 := 2
  const KEY_EXPIRED: U16 := 3
  const KEY_DEVELOPMENT_ONLY: U16 := 4

  const LIFECYCLE_DEVELOPMENT: U16 := 1
  const LIFECYCLE_PRODUCTION: U16 := 2

  datatype TrustRecord = TrustRecord(
    roles: bv32,
    keyEpoch: U32,
    algorithm: U16,
    status: U16,
    keyId: KeyId,
    publicKey: PublicKeyOctets)

  /** A borrowed array of records, possibly NULL, and how many the caller says it holds. */
  datatype TrustStore = TrustStore(records: array?<TrustRecord>, count: nat)

  /** `None` is a NULL key ID. */
  datatype TrustRequest = TrustRequest(
    keyId: Option<Octets>,
    keyIdLen: nat,
    requiredRole: U16,
    manifestRole: U16,
    lifecycle: U16)

  predicate AcceptedMask(mask: bv32) {
    mask != 0 && (mask & !ROLES_ALL) == 0
  }

  predicate ValidRecordShape(r: TrustRecord) {
    && r.algorithm == 1
    && r.publicKey[0] == 0x04
    && AcceptedMask(r.roles)
    && (r.status == KEY_TRUSTED || r.status == KEY_REVOKED || r.status == KEY_EXPIRED
        || r.status == KEY_DEVELOPMENT_ONLY)
  }

  predicate ValidRole(role: U16) {
    role == 1 || role == 2 || role == 3 || role == 4 || role == 5 || role == 6
  }

  predicate ValidRequest(request: TrustRequest) {
    && request.keyId.Some? && request.keyIdLen == KEY_ID_SIZE
    && ValidRole(request.requiredRole) && ValidRole(request.manifestRole)
    && (request.lifecycle == LIFECYCLE_DEVELOPMENT || request.lifecycle == LIFECYCLE_PRODUCTION)
  }

  // ---------------------------------------------------------------------------
  // What validation means
  // ---------------------------------------------------------------------------

  function Keys(recs: seq<TrustRecord>): (keys: seq<Octets>)
    ensures |keys| == |recs|
  {
    seq(|recs|, k requires 0 <= k < |recs| => recs[k].publicKey)
  }

  predicate Collides(recs: seq<TrustRecord>, k: nat)
    requires k < |recs|
  {
    exists j :: 0 <= j < k && recs[j].keyId == recs[k].keyId
  }

  /** What the provider answers for record `k` when every record before it was hashed in order. */
  function ReplyFor(recs: seq<TrustRecord>, k: nat, hasher: Hasher, log: seq<Octets>): HashReply
    requires k < |recs|
  {
    hasher.reply(log + Keys(recs[..k]), recs[k].publicKey)
  }

  /** Why record `k` is rejected, given that none before it was. */
  function RecordStatus(recs: seq<TrustRecord>, k: nat, hasher: Hasher, log: seq<Octets>): Status
    requires k < |recs|
  {
    if !ValidRecordShape(recs[k]) then ERR_TRUST_STORE
    else if !hasher.present || !ReplyFor(recs, k, hasher, log).status.OK? then ERR_CRYPTO_PROVIDER
    else if recs[k].keyId != ReplyFor(recs, k, hasher, log).digest[..KEY_ID_SIZE] then ERR_TRUST_STORE
    else if Collides(recs, k) then ERR_TRUST_STORE
    else OK
  }

  /** The first rejected record from `k` on, or the number of records. */
  function FirstOffender(recs: seq<TrustRecord>, k: nat, hasher: Hasher, log: seq<Octets>): (n: nat)
    requires k <= |recs|
    ensures k <= n <= |recs|
    ensures forall j :: k <= j < n ==> RecordStatus(recs, j, hasher, log) == OK
    ensures n < |recs| ==> RecordStatus(recs, n, hasher, log) != OK
    decreases |recs| - k
  {
    if k == |recs| || RecordStatus(recs, k, hasher, log) != OK then k
    else FirstOffender(recs, k + 1, hasher, log)
  }

  function StoreStatus(recs: seq<TrustRecord>, hasher: Hasher, log: seq<Octets>): Status {
    if !(1 <= |recs| <= MAX_KEYS) then ERR_TRUST_STORE
    else
      var n := FirstOffender(recs, 0, hasher, log);
      if n == |recs| then OK else RecordStatus(recs, n, hasher, log)
  }

  /** The keys hashed while validating: those before the first offender, and its own if it got that far. */
  function HashedKeys(recs: seq<TrustRecord>, hasher: Hasher, log: seq<Octets>): seq<Octets> {
    if !(1 <= |recs| <= MAX_KEYS) then []
    else
      var n := FirstOffender(recs, 0, hasher, log);
      Keys(recs[..n])
      + if n < |recs| && ValidRecordShape(recs[n]) && hasher.present then [recs[n].publicKey] else []
  }

  /** The records a store lends; none when it is unusable. */
  function Records(store: TrustStore): seq<TrustRecord>
    requires Borrowed(store)
    reads store.records
  {
    if store.records == null || store.count > MAX_KEYS then [] else store.records[..store.count]
  }

  /** A usable store really holds the records it counts. */
  predicate Borrowed(store: TrustStore) {
    store.records != null && store.count <= MAX_KEYS ==> store.count <= store.records.Length
  }

  // ---------------------------------------------------------------------------
  // What authorization means
  // ---------------------------------------------------------------------------

  /** The code's test of one bit of a mask. */
  predicate HasRole(mask: bv32, role: nat)
    requires role < 32
  {
    mask & ((1 as bv32) << role) != 0
  }

  /** What `role` contributes to the mask of `roles`. */
  function RoleBit(roles: set<nat>, role: nat): bv32
    requires role < 32
  {
    if role in roles then (1 as bv32) << role else 0
  }

  /** The mask of a set of roles: the bit of each, or-ed together. */
  function MaskOf(roles: set<nat>): bv32 {
    RoleBit(roles, 1) | RoleBit(roles, 2) | RoleBit(roles, 3) | RoleBit(roles, 4) | RoleBit(roles, 5)
    | RoleBit(roles, 6)
  }

  /** Some set of roles makes up the role bits of any mask. */
  lemma RoleBitsAreMask(mask: bv32)
    ensures exists roles :: roles <= ROLES && MaskOf(roles) == mask & ROLES_ALL
  {
    var roles := set role: nat | role in ROLES && HasRole(mask, role);
    assert roles <= ROLES && MaskOf(roles) == mask & ROLES_ALL;
  }

  /** The roles a mask grants: those whose bits make up its role bits. */
  ghost function RoleSet(mask: bv32): (roles: set<nat>)
    ensures roles <= ROLES && MaskOf(roles) == mask & ROLES_ALL
  {
    RoleBitsAreMask(mask);
    var roles :| roles <= ROLES && MaskOf(roles) == mask & ROLES_ALL;
    roles
  }

  /** Or-ing bits together loses none of them and adds none. */
  lemma MaskTest(roles: set<nat>, role: nat)
    requires role in ROLES
    ensures HasRole(MaskOf(roles), role) <==> role in roles
  {
  }

  lemma TestIgnoresOtherBits(mask: bv32, role: nat)
    requires role in ROLES
    ensures HasRole(mask & ROLES_ALL, role) <==> HasRole(mask, role)
  {
  }

  /** The mask test is membership in the set of roles whose bits make up the mask. */
  lemma RoleInSet(mask: bv32, role: nat)
    requires role in ROLES
    ensures role in RoleSet(mask) <==> HasRole(mask, role)
  {
    hide HasRole, MaskOf;
    MaskTest(RoleSet(mask), role);
    TestIgnoresOtherBits(mask, role);
  }

  predicate Holds(recs: seq<TrustRecord>, keyId: Octets, k: nat) {
    k < |recs| && recs[k].keyId == keyId
  }

  /** The policy for one record, most severe reason first. */
  ghost function RecordDecision(r: TrustRecord, request: TrustRequest): Status {
    if r.status == KEY_REVOKED then ERR_KEY_REVOKED
    else if r.status == KEY_EXPIRED then ERR_KEY_EXPIRED
    else if request.lifecycle == LIFECYCLE_PRODUCTION
            && (r.status == KEY_DEVELOPMENT_ONLY || request.requiredRole == ROLE_DEVELOPMENT) then ERR_KEY_LIFECYCLE
    else if request.manifestRole != request.requiredRole || request.requiredRole !in RoleSet(r.roles) then ERR_KEY_ROLE
    else OK
  }

  /** The first record with the requested ID. */
  function Lookup(recs: seq<TrustRecord>, keyId: Octets): (found: Option<nat>)
    ensures found.None? ==> forall k: nat :: !Holds(recs, keyId, k)
    ensures found.Some? ==>
              Holds(recs, keyId, found.value) && forall k: nat :: k < found.value ==> !Holds(recs, keyId, k)
  {
    LookupFrom(recs, keyId, 0)
  }

  function LookupFrom(recs: seq<TrustRecord>, keyId: Octets, k: nat): (found: Option<nat>)
    requires k <= |recs|
    ensures found.None? ==> forall j: nat :: k <= j ==> !Holds(recs, keyId, j)
    ensures found.Some? ==>
              k <= found.value && Holds(recs, keyId, found.value)
              && forall j: nat :: k <= j < found.value ==> !Holds(recs, keyId, j)
    decreases |recs| - k
  {
    if k == |recs| then None
    else if recs[k].keyId == keyId then Some(k)
    else LookupFrom(recs, keyId, k + 1)
  }

  /** The outcome for a well-formed request. */
  ghost function AuthorizeStatus(recs: seq<TrustRecord>, hasher: Hasher, log: seq<Octets>, request: TrustRequest)
    : Status
    requires ValidRequest(request) && |request.keyId.value| == KEY_ID_SIZE
  {
    if StoreStatus(recs, hasher, log) != OK then StoreStatus(recs, hasher, log)
    else
      var found := Lookup(recs, request.keyId.value);
      if found.None? then ERR_KEY_UNKNOWN else RecordDecision(recs[found.value], request)
  }

  // ---------------------------------------------------------------------------
  // The code
  // ---------------------------------------------------------------------------

  method KeyIdsEqual(left: Octets, right: Octets) returns (equal: bool)
    requires |left| >= KEY_ID_SIZE && |right| >= KEY_ID_SIZE
    ensures equal <==> left[..KEY_ID_SIZE] == right[..KEY_ID_SIZE]
  {
    for index := 0 to KEY_ID_SIZE
      invariant left[..index] == right[..index]
    {
      if left[index] != right[index] {
        assert left[..KEY_ID_SIZE][index] != right[..KEY_ID_SIZE][index];
        return false;
      }
    }
    return true;
  }

  lemma KeysExtend(recs: seq<TrustRecord>, k: nat)
    requires k < |recs|
    ensures Keys(recs[..k + 1]) == Keys(recs[..k]) + [recs[k].publicKey]
  {
  }

  /** One round of the validation loop: `recs` are the records and `log` what was hashed before it began. */
  method ValidateRecord(records: array<TrustRecord>, index: nat, provider: Provider, digest: array<Byte>,
                        ghost recs: seq<TrustRecord>, ghost log: seq<Octets>)
    returns (status: Status)
    requires index < |recs| <= records.Length && recs == records[..|recs|] && digest.Length == DIGEST_SIZE
    requires provider.log == log + Keys(recs[..index])
    modifies provider, digest
    ensures status == RecordStatus(recs, index, provider.hasher, log)
    ensures provider.log == log + if ValidRecordShape(recs[index]) && provider.hasher.present
                                  then Keys(recs[..index + 1]) else Keys(recs[..index])
  {
    var record := records[index];
    if !ValidRecordShape(record) {
      return ERR_TRUST_STORE;
    }
    KeysExtend(recs, index);
    status := Hash(provider, 1, Some(record.publicKey), 65, digest, DIGEST_SIZE);
    if status != OK {
      return;
    }
    var bound := KeyIdsEqual(record.keyId, digest[..]);
    if !bound {
      return ERR_TRUST_STORE;
    }
    ghost var hashed := provider.log;
    for previous := 0 to index
      invariant forall j :: 0 <= j < previous ==> recs[j].keyId != record.keyId
      invariant provider.log == hashed
    {
      var same := KeyIdsEqual(record.keyId, records[previous].keyId);
      if same {
        return ERR_TRUST_STORE;
      }
    }
  }

  method StoreValidate(store: Option<TrustStore>, provider: Provider?) returns (status: Status)
    requires store.Some? ==> Borrowed(store.value)
    modifies provider
    ensures store.None? || provider == null ==> status == ERR_INVALID_ARGUMENT
    ensures store.Some? && provider != null ==>
              status == StoreStatus(Records(store.value), provider.hasher, old(provider.log))
    ensures provider != null ==>
              provider.log == if store.None? then old(provider.log)
                              else old(provider.log)
                                   + HashedKeys(Records(store.value), provider.hasher, old(provider.log))
  {
    hide RecordStatus, ValidRecordShape;
    if store.None? || provider == null {
      return ERR_INVALID_ARGUMENT;
    }
    var records, count := store.value.records, store.value.count;
    if records == null || count == 0 || count > MAX_KEYS {
      return ERR_TRUST_STORE;
    }
    ghost var recs := Records(store.value);
    ghost var log := provider.log;
    ghost var offender := FirstOffender(recs, 0, provider.hasher, log);
    var digest := new Byte[DIGEST_SIZE](_ => 0);
    for index := 0 to count
      invariant offender == FirstOffender(recs, index, provider.hasher, log)
      invariant provider.log == log + Keys(recs[..index])
      invariant recs == Records(store.value)
    {
      KeysExtend(recs, index);
      OnlyHashedPass(recs, index, provider.hasher, log);
      status := ValidateRecord(records, index, provider, digest, recs, log);
      if status != OK {
        return;
      }
    }
    assert recs[..count] == recs;
    return OK;
  }

  lemma OnlyHashedPass(recs: seq<TrustRecord>, k: nat, hasher: Hasher, log: seq<Octets>)
    requires k < |recs|
    ensures RecordStatus(recs, k, hasher, log) == OK ==> ValidRecordShape(recs[k]) && hasher.present
  {
  }

  lemma ValidStoreIsUsable(recs: seq<TrustRecord>, hasher: Hasher, log: seq<Octets>)
    ensures StoreStatus(recs, hasher, log) == OK ==> 1 <= |recs| <= MAX_KEYS
  {
  }

  /** The search loop: the first record with the requested ID, if any. */
  method FindRecord(records: array<TrustRecord>, count: nat, keyId: Octets) returns (matched: Option<nat>)
    requires count <= records.Length && |keyId| == KEY_ID_SIZE
    ensures matched == Lookup(records[..count], keyId)
  {
    ghost var recs := records[..count];
    for index := 0 to count
      invariant records[..count] == recs
      invariant Lookup(recs, keyId) == LookupFrom(recs, keyId, index)
    {
      var same := KeyIdsEqual(records[index].keyId, keyId);
      if same {
        return Some(index);
      }
    }
    return None;
  }

  method Authorize(store: Option<TrustStore>, provider: Provider?, request: Option<TrustRequest>,
                   result: Cell?<Option<nat>>)
    returns (status: Status)
    requires store.Some? ==> Borrowed(store.value)
    requires request.Some? && request.value.keyId.Some? ==> |request.value.keyId.value| == request.value.keyIdLen
    modifies provider, result
    ensures store.None? || provider == null || request.None? || result == null || !ValidRequest(request.value) ==>
              status == ERR_INVALID_ARGUMENT && (provider != null ==> provider.log == old(provider.log))
    ensures store.Some? && provider != null && request.Some? && result != null && ValidRequest(request.value) ==>
              && status == AuthorizeStatus(Records(store.value), provider.hasher, old(provider.log), request.value)
              && provider.log == old(provider.log)
                                 + HashedKeys(Records(store.value), provider.hasher, old(provider.log))
    ensures status.OK? ==> result.value == Lookup(Records(store.value), request.value.keyId.value)
    ensures result != null && !status.OK? ==> result.value == old(result.value)
  {
    hide StoreStatus, HashedKeys, Lookup, RoleSet, HasRole;
    var matched: Option<nat> := None;
    if store.None? || provider == null || request.None? || result == null {
      return ERR_INVALID_ARGUMENT;
    }
    var req := request.value;
    if req.keyId.None? || req.keyIdLen != KEY_ID_SIZE || !ValidRole(req.requiredRole) || !ValidRole(req.manifestRole)
       || (req.lifecycle != LIFECYCLE_DEVELOPMENT && req.lifecycle != LIFECYCLE_PRODUCTION) {
      return ERR_INVALID_ARGUMENT;
    }
    status := StoreValidate(store, provider);
    if status != OK {
      return;
    }
    var records := store.value.records;
    ValidStoreIsUsable(Records(store.value), provider.hasher, old(provider.log));
    matched := FindRecord(records, store.value.count, req.keyId.value);
    if matched.None? {
      return ERR_KEY_UNKNOWN;
    }
    var record := records[matched.value];
    if record.status == KEY_REVOKED {
      return ERR_KEY_REVOKED;
    }
    if record.status == KEY_EXPIRED {
      return ERR_KEY_EXPIRED;
    }
    if req.lifecycle == LIFECYCLE_PRODUCTION
       && (record.status == KEY_DEVELOPMENT_ONLY || req.requiredRole == ROLE_DEVELOPMENT) {
      return ERR_KEY_LIFECYCLE;
    }
    RoleInSet(record.roles, req.requiredRole);
    if req.manifestRole != req.requiredRole || !HasRole(record.roles, req.requiredRole) {
      return ERR_KEY_ROLE;
    }
    result.value := matched;
    return OK;
  }
}
