/**
 Wallet custody: one wallet encryption key (WKEK) encrypts the root and the policy signing seed,
 and is itself wrapped under every credential and at most one recovery factor.

 Authenticated encryption is symbolic: a sealed blob opens only under its own key and associated
 data. The root's associated data is kept at the byte level, as characters below 256.
 */
module Custody {
  import opened Limits
  import opened Wrappers

  const LAST_GENERATION: nat := U64_MAX
  const KEY_LENGTH: nat := 32
  const NONCE_LENGTH: nat := 24
  const WRAP_FORMAT_V2: nat := 2
  const WRAP_FORMAT_CURRENT: nat := 2

  type Nonce = s: string | |s| == 24 witness "------------------------"

  datatype Profile = Bip39MulticurveV1 | ImportedSecp256k1Scalar | LegacySecp {
    function Tag(): string {
      match this
      case Bip39MulticurveV1 => "bip39-multicurve-v1"
      case ImportedSecp256k1Scalar => "imported-secp256k1-scalar"
      case LegacySecp => "legacy-secp"
    }
  }

  // ---------------------------------------------------------------- symbolic encryption

  datatype Fingerprint = FingerprintOf(blob: Blob)

  /** Associated data: raw bytes, or one of the two canonical JSON records. */
  datatype Aad =
    | Raw(bytes: string)
    | CredentialAad(wallet: string, credential: string, root: Fingerprint, version: nat)
    | RecoveryAad(wallet: string, recovery: string, root: Fingerprint, version: nat)

  /** A stored ciphertext; `Garbled` is one nobody sealed. */
  datatype Blob =
    | Sealed(key: string, nonce: string, aad: Aad, plaintext: string)
    | Garbled(nonce: string)

  datatype Error =
    | InvalidKey | InvalidInput | Malformed | AuthenticationFailed | LengthMismatch | SessionMismatch
    | Revoked | NotFound | IdConflict | FinalCredential | Stale | KeysRequired | PersistFailed | GenerationExhausted

  function Decrypt(key: string, blob: Blob, aad: Aad): Result<string, Error> {
    if |key| != KEY_LENGTH then Err(InvalidKey)
    else if |blob.nonce| != NONCE_LENGTH then Err(Malformed)
    else if blob.Sealed? && blob.key == key && blob.aad == aad then Ok(blob.plaintext)
    else Err(AuthenticationFailed)
  }

  // ---------------------------------------------------------------- associated data

  /** Four bytes, most significant first. */
  function BigEndian(n: nat): (s: string)
    requires n < U32_LIMIT
    ensures |s| == 4
  {
    [(n / 0x100_0000) as char, (n / 0x1_0000 % 0x100) as char, (n / 0x100 % 0x100) as char, (n % 0x100) as char]
  }

  function EntropyField(bits: Option<nat>): string
    requires bits.Some? ==> bits.value < U32_LIMIT
  {
    if bits.Some? then [1 as char] + BigEndian(bits.value) else [0 as char]
  }

  const ROOT_AAD: string := "bloom-wallet-root/v1"
  const POLICY_KEY_AAD: string := "bloom-policy-signing-key/v1"

  function RootAad(wallet: string, version: nat, profile: Profile, bits: Option<nat>): string
    requires version < U32_LIMIT && (bits.Some? ==> bits.value < U32_LIMIT)
  {
    ROOT_AAD + wallet + BigEndian(version)
    + if version >= WRAP_FORMAT_V2 then profile.Tag() + EntropyField(bits) else ""
  }

  function PolicyKeyAad(wallet: string, version: nat): string
    requires version < U32_LIMIT
  {
    POLICY_KEY_AAD + wallet + BigEndian(version)
  }

  // ---------------------------------------------------------------- backup

  datatype Wrap = Wrap(id: string, active: bool, version: nat, wrapped: Blob)

  datatype RecoveryWrap = RecoveryWrap(id: string, version: nat, wrapped: Blob)

  datatype BackupData = BackupData(
    wallet: string, generation: nat, policyVersion: nat, version: nat,
    root: Blob, policyKey: Blob, wraps: seq<Wrap>, recovery: Option<RecoveryWrap>,
    profile: Profile, bits: Option<nat>)

  /** A backup whose machine integers are in range. */
  type Backup = b: BackupData | b.version < U32_LIMIT && (b.bits.Some? ==> b.bits.value < U32_LIMIT)
    witness BackupData("", 0, 1, 1, Garbled(""), Garbled(""), [], None, LegacySecp, None)

  datatype Unlocked = Unlocked(wallet: string, root: string, seed: string, wkek: string, profile: Profile, bits: Option<nat>)

  /** The secrets fixed at registration. */
  datatype Secret = Secret(root: string, seed: string, wkek: string)

  function EntropyBytes(bits: Option<nat>): Option<nat> {
    if bits.Some? && bits.value in {128, 160, 192, 224, 256} then Some(bits.value / 8) else None
  }

  /** Why a decrypted root of this length does not fit its recorded profile. */
  function RootMisfit(profile: Profile, bits: Option<nat>, length: nat): Option<Error> {
    match profile
    case Bip39MulticurveV1 =>
      if EntropyBytes(bits).None? then Some(Malformed)
      else if length != EntropyBytes(bits).value then Some(LengthMismatch) else None
    case ImportedSecp256k1Scalar => if length != 32 then Some(LengthMismatch) else None
    case LegacySecp => None
  }

  function CredentialData(b: Backup, id: string, version: nat): Aad {
    CredentialAad(b.wallet, id, FingerprintOf(b.root), version)
  }

  function RecoveryData(b: Backup, id: string, version: nat): Aad {
    RecoveryAad(b.wallet, id, FingerprintOf(b.root), version)
  }

  function RootData(b: Backup): Aad { Raw(RootAad(b.wallet, b.version, b.profile, b.bits)) }

  function PolicyData(b: Backup): Aad { Raw(PolicyKeyAad(b.wallet, b.version)) }

  /** `unlock_with_wkek`. */
  function UnlockWithWkek(b: Backup, wkek: string): Result<Unlocked, Error> {
    match Decrypt(wkek, b.root, RootData(b))
    case Err(e) => Err(e)
    case Ok(root) =>
      match RootMisfit(b.profile, b.bits, |root|)
      case Some(e) => Err(e)
      case None =>
        match Decrypt(wkek, b.policyKey, PolicyData(b))
        case Err(e) => Err(e)
        case Ok(seed) => Ok(Unlocked(b.wallet, root, seed, wkek, b.profile, b.bits))
  }

  /** The first wrap that satisfies `test`. */
  function Find(wraps: seq<Wrap>, test: Wrap -> bool): (r: Option<nat>)
    ensures r.Some? ==> r.value < |wraps| && test(wraps[r.value]) && forall i :: 0 <= i < r.value ==> !test(wraps[i])
    ensures r.None? ==> forall i :: 0 <= i < |wraps| ==> !test(wraps[i])
  {
    if |wraps| == 0 then None
    else if test(wraps[0]) then Some(0)
    else match Find(wraps[1..], test)
      case None => None
      case Some(i) => assert wraps[1..][i] == wraps[i + 1]; Some(i + 1)
  }

  function UnlockWithCredential(b: Backup, id: string, key: string): Result<Unlocked, Error> {
    if |key| != KEY_LENGTH then Err(InvalidKey)
    else match Find(b.wraps, (w: Wrap) => w.active && w.id == id)
      case None => Err(Revoked)
      case Some(i) =>
        match Decrypt(key, b.wraps[i].wrapped, CredentialData(b, id, b.wraps[i].version))
        case Err(e) => Err(e)
        case Ok(wkek) => UnlockWithWkek(b, wkek)
  }

  function UnlockWithRecovery(b: Backup, id: string, key: string): Result<Unlocked, Error> {
    if |key| != KEY_LENGTH then Err(InvalidKey)
    else if b.recovery.None? || b.recovery.value.id != id then Err(NotFound)
    else match Decrypt(key, b.recovery.value.wrapped, RecoveryData(b, id, b.recovery.value.version))
      case Err(e) => Err(e)
      case Ok(wkek) => UnlockWithWkek(b, wkek)
  }

  /** `recover_wkek_from_unlocked`: the session must open this very backup to the same secrets. */
  function SessionWkek(b: Backup, s: Unlocked): Result<string, Error> {
    match UnlockWithWkek(b, s.wkek)
    case Err(e) => Err(e)
    case Ok(candidate) =>
      if candidate.root != s.root then Err(SessionMismatch)
      else if |candidate.seed| != 32 || |s.seed| != 32 then Err(Malformed)
      else if candidate.seed != s.seed then Err(SessionMismatch)
      else Ok(s.wkek)
  }

  // ---------------------------------------------------------------- operations

  /** The backup in memory, and the one on disk when the wallet has a storage path. */
  datatype Store = Store(memory: Backup, disk: Option<Backup>)

  /** Write the new backup out; keep the old one when that fails. */
  function Publish(st: Store, next: Backup, persistOk: bool): (Store, Result<(), Error>) {
    if st.disk.None? then (Store(next, None), Ok(()))
    else if persistOk then (Store(next, Some(next)), Ok(()))
    else (st, Err(PersistFailed))
  }

  predicate HasId(wraps: seq<Wrap>, id: string) { exists i :: 0 <= i < |wraps| && wraps[i].id == id }

  function ActiveIds(wraps: seq<Wrap>): set<string> {
    set i | 0 <= i < |wraps| && wraps[i].active :: wraps[i].id
  }

  function ActiveCount(wraps: seq<Wrap>): nat {
    if |wraps| == 0 then 0 else ActiveCount(wraps[..|wraps| - 1]) + if wraps[|wraps| - 1].active then 1 else 0
  }

  function RegisterWithProfile(wallet: string, secret: Secret, id: string, key: string, profile: Profile,
                               bits: Option<nat>, nonces: nat -> Nonce): Result<Backup, Error>
    requires bits.Some? ==> bits.value < U32_LIMIT
  {
    if |secret.wkek| != KEY_LENGTH || |key| != KEY_LENGTH then Err(InvalidKey)
    else if secret.root == "" || |secret.seed| != 32 then Err(InvalidInput)
    else
      var version := WRAP_FORMAT_CURRENT;
      var root := Sealed(secret.wkek, nonces(0), Raw(RootAad(wallet, version, profile, bits)), secret.root);
      var policyKey := Sealed(secret.wkek, nonces(1), Raw(PolicyKeyAad(wallet, version)), secret.seed);
      var first := Sealed(key, nonces(2), CredentialAad(wallet, id, FingerprintOf(root), version), secret.wkek);
      Ok(BackupData(wallet, 0, 1, version, root, policyKey, [Wrap(id, true, version, first)], None, profile, bits))
  }

  function RegisterBip39(wallet: string, secret: Secret, id: string, key: string, nonces: nat -> Nonce): Result<Backup, Error> {
    if |secret.root| !in {16, 20, 24, 28, 32} then Err(InvalidInput)
    else RegisterWithProfile(wallet, secret, id, key, Bip39MulticurveV1, Some(|secret.root| * 8), nonces)
  }

  function RegisterImported(wallet: string, secret: Secret, id: string, key: string, nonces: nat -> Nonce): Result<Backup, Error> {
    if |secret.wkek| != KEY_LENGTH || |key| != KEY_LENGTH then Err(InvalidKey)
    else if |secret.root| != 32 || |secret.seed| != 32 then Err(InvalidInput)
    else RegisterWithProfile(wallet, secret, id, key, ImportedSecp256k1Scalar, None, nonces)
  }

  /** `validate_backup_shape`, which `restore` requires. */
  predicate ValidShape(b: Backup) {
    && b.version != 0
    && b.wraps != []
    && forall i :: 0 <= i < |b.wraps| ==>
         && b.wraps[i].version <= b.version
         && (b.wraps[i].active ==> b.wraps[i].version == b.version)
         && |b.wraps[i].wrapped.nonce| == NONCE_LENGTH
  }

  function NewWrap(b: Backup, id: string, key: string, wkek: string, nonce: Nonce): Wrap {
    Wrap(id, true, b.version, Sealed(key, nonce, CredentialData(b, id, b.version), wkek))
  }

  function NewRecovery(b: Backup, id: string, key: string, wkek: string, nonce: Nonce): RecoveryWrap {
    RecoveryWrap(id, b.version, Sealed(key, nonce, RecoveryData(b, id, b.version), wkek))
  }

  function AddCredential(st: Store, s: Unlocked, id: string, key: string, nonce: Nonce, persistOk: bool)
    : (Store, Result<(), Error>)
  {
    var b := st.memory;
    if |key| != KEY_LENGTH then (st, Err(InvalidKey))
    else if HasId(b.wraps, id) then (st, Err(IdConflict))
    else match SessionWkek(b, s)
      case Err(e) => (st, Err(e))
      case Ok(wkek) => Publish(st, b.(wraps := b.wraps + [NewWrap(b, id, key, wkek, nonce)]), persistOk)
  }

  function RevokeCredential(st: Store, id: string, persistOk: bool): (Store, Result<(), Error>) {
    var b := st.memory;
    match Find(b.wraps, (w: Wrap) => w.id == id)
    case None => (st, Err(NotFound))
    case Some(i) =>
      if b.wraps[i].active && ActiveCount(b.wraps) == 1 && b.recovery.None? then (st, Err(FinalCredential))
      else Publish(st, b.(wraps := b.wraps[i := b.wraps[i].(active := false)]), persistOk)
  }

  function SetRecovery(st: Store, s: Unlocked, id: string, key: string, nonce: Nonce, persistOk: bool)
    : (Store, Result<(), Error>)
  {
    var b := st.memory;
    if |key| != KEY_LENGTH then (st, Err(InvalidKey))
    else match SessionWkek(b, s)
      case Err(e) => (st, Err(e))
      case Ok(wkek) => Publish(st, b.(recovery := Some(NewRecovery(b, id, key, wkek, nonce))), persistOk)
  }

  function SetPolicyVersion(st: Store, next: nat, persistOk: bool): (Store, Result<(), Error>) {
    if next <= st.memory.policyVersion then (st, Err(Stale))
    else Publish(st, st.memory.(policyVersion := next), persistOk)
  }

  function Deactivated(wraps: seq<Wrap>): (r: seq<Wrap>)
    ensures |r| == |wraps| && forall i :: 0 <= i < |r| ==> r[i] == wraps[i].(active := false)
  {
    if |wraps| == 0 then [] else Deactivated(wraps[..|wraps| - 1]) + [wraps[|wraps| - 1].(active := false)]
  }

  /** `recover_replace_credentials`: exhaustion is noticed after the fields have changed. */
  function RecoverReplace(st: Store, s: Unlocked, id: string, key: string, recoveryId: string, recoveryKey: string,
                          nonces: nat -> Nonce, persistOk: bool): (Store, Result<(), Error>)
  {
    var b := st.memory;
    if |key| != KEY_LENGTH || |recoveryKey| != KEY_LENGTH then (st, Err(InvalidKey))
    else if HasId(b.wraps, id) then (st, Err(IdConflict))
    else match SessionWkek(b, s)
      case Err(e) => (st, Err(e))
      case Ok(wkek) =>
        var changed: Backup := b.(
          wraps := Deactivated(b.wraps) + [NewWrap(b, id, key, wkek, nonces(0))],
          recovery := Some(NewRecovery(b, recoveryId, recoveryKey, wkek, nonces(1))));
        if b.generation >= LAST_GENERATION then (st.(memory := changed), Err(GenerationExhausted))
        else Publish(st, changed.(generation := b.generation + 1), persistOk)
  }

  /** Re-encrypt every active wrap of a prefix of the wraps, in order, for the new root in `next`. */
  function Rewrap(next: Backup, wraps: seq<Wrap>, keys: map<string, string>, wkek: string, nonces: nat -> Nonce)
    : Result<seq<Wrap>, Error>
  {
    if |wraps| == 0 then Ok([])
    else match Rewrap(next, wraps[..|wraps| - 1], keys, wkek, nonces)
      case Err(e) => Err(e)
      case Ok(done) =>
        var w := wraps[|wraps| - 1];
        if !w.active then Ok(done + [w])
        else if w.id !in keys then Err(KeysRequired)
        else if |keys[w.id]| != KEY_LENGTH then Err(InvalidKey)
        else Ok(done + [NewWrap(next, w.id, keys[w.id], wkek, nonces(|wraps| - 1))])
  }

  function RewrapRecovery(next: Backup, recovery: Option<RecoveryWrap>, key: Option<string>, wkek: string, nonce: Nonce)
    : Result<Option<RecoveryWrap>, Error>
  {
    if recovery.None? then Ok(None)
    else if key.None? then Err(KeysRequired)
    else if |key.value| != KEY_LENGTH then Err(InvalidKey)
    else Ok(Some(NewRecovery(next, recovery.value.id, key.value, wkek, nonce)))
  }

  /** The backup with the root and policy key sealed again at the new version, wraps untouched. */
  function Resealed(b: Backup, s: Unlocked, version: nat, rootNonce: Nonce, policyNonce: Nonce): Backup
    requires version < U32_LIMIT
  {
    b.(version := version,
       root := Sealed(s.wkek, rootNonce, Raw(RootAad(b.wallet, version, b.profile, b.bits)), s.root),
       policyKey := Sealed(s.wkek, policyNonce, Raw(PolicyKeyAad(b.wallet, version)), s.seed))
  }

  /** Nonces of one rekey: root, policy key, recovery, and one for each wrap. */
  datatype RekeyNonces = RekeyNonces(root: Nonce, policyKey: Nonce, recovery: Nonce, wraps: nat -> Nonce)

  function RekeyWrapFormat(st: Store, s: Unlocked, version: nat, keys: map<string, string>, recoveryKey: Option<string>,
                           nonces: RekeyNonces, persistOk: bool): (Store, Result<(), Error>)
    requires version < U32_LIMIT
  {
    var b := st.memory;
    if version <= b.version then (st, Err(Stale))
    else match SessionWkek(b, s)
      case Err(e) => (st, Err(e))
      case Ok(wkek) =>
        var next := Resealed(b, s, version, nonces.root, nonces.policyKey);
        match Rewrap(next, b.wraps, keys, wkek, nonces.wraps)
        case Err(e) => (st, Err(e))
        case Ok(wraps) =>
          match RewrapRecovery(next, b.recovery, recoveryKey, wkek, nonces.recovery)
          case Err(e) => (st, Err(e))
          case Ok(recovery) => Publish(st, next.(wraps := wraps, recovery := recovery), persistOk)
  }
}
