/**
 The local backend's key registry: one encrypted backup, an in-memory index of its keys that must
 agree with it, and a file that holds the last backup persisted.

 The root material is sealed under one key. While that key is active the material is open, and
 what it determines is a function from families and paths to public keys. The locator of a derived
 key is a function of its path.
 */
module LocalBackend {
  import opened Limits
  import opened Wrappers
  import opened Decimal

  const WRAP_FORMAT_VERSION: nat := 1

  datatype Material = Bip32Seed | ImportedScalar | Bip39Entropy

  datatype Family = Bip32 | Bip39Evm | Bip39Solana

  datatype Derivation = Derivation(family: Family, root: string, path: string)

  datatype Key = Key(backend: string, instance: string, locator: string, ed25519: bool, fingerprint: string,
                     derivation: Option<Derivation>)

  datatype Description = Description(key: Key, spki: string, fingerprint: string)

  /** `next` is the next index to hand out and `limit` the first one that may not be. */
  datatype Namespace = Namespace(id: string, prefix: string, next: nat, limit: nat, authority: string)

  datatype Backup = Backup(
    rootId: string, material: Material, pinnedRoot: Option<Key>, version: nat, nonceLength: nat, authorityKeyLength: nat,
    descriptions: seq<Description>, registry: seq<Key>, namespaces: seq<Namespace>, tombstones: seq<string>,
    pending: map<string, Key>)

  datatype Error = InvalidRequest | DefinitiveRejected | Unsupported

  /**
   Hashes, path texts and derivation. An allocated child is located by its path, a registered one
   by profile and path. `opens` tells the keys that decrypt the sealed root, `canonical` the BIP-32
   paths, `parses` the paths of a BIP-39 profile, and `derive` the public key of a path from the
   open root: BIP-32 from the raw material, the profiles from the BIP-39 seed.
   */
  datatype Primitives = Primitives(
    digest: string -> string,
    locate: string -> string,
    locateRegistered: (Family, string) -> string,
    validPrefix: string -> bool,
    opens: string -> bool,
    canonical: string -> bool,
    parses: (Family, string) -> bool,
    derive: (Family, string) -> Result<string, Error>)

  const KEK_LENGTH: nat := 32

  /** `kek` is the active key; it is in memory only. */
  datatype State = State(instance: string, kek: Option<string>, backup: Backup, index: map<string, Key>, disk: Option<Backup>)

  // ---------------------------------------------------------------- queries

  predicate HasLocator(keys: seq<Key>, locator: string) {
    exists i :: 0 <= i < |keys| && keys[i].locator == locator
  }

  predicate HasPath(keys: seq<Key>, path: string) {
    exists i :: 0 <= i < |keys| && keys[i].derivation.Some? && keys[i].derivation.value.path == path
  }

  predicate Describes(descriptions: seq<Description>, locator: string) {
    exists i :: 0 <= i < |descriptions| && descriptions[i].key.locator == locator
  }

  function FindNamespace(namespaces: seq<Namespace>, id: string): (r: Option<nat>)
    ensures r.Some? ==> r.value < |namespaces| && namespaces[r.value].id == id
                        && forall i :: 0 <= i < r.value ==> namespaces[i].id != id
    ensures r.None? ==> forall i :: 0 <= i < |namespaces| ==> namespaces[i].id != id
  {
    if |namespaces| == 0 then None
    else if namespaces[0].id == id then Some(0)
    else match FindNamespace(namespaces[1..], id)
      case None => assert forall i :: 1 <= i < |namespaces| ==> namespaces[i] == namespaces[1..][i - 1]; None
      case Some(i) => assert namespaces[1..][i] == namespaces[i + 1]; Some(i + 1)
  }

  // ---------------------------------------------------------------- restore

  predicate RootFits(instance: string, b: Backup) {
    b.pinnedRoot.Some? ==>
      var root := b.pinnedRoot.value;
      root.backend == "local" && root.instance == instance && !root.ed25519
      && root.locator == "root:" + b.rootId && root.derivation == None
  }

  /** What `restore` asks of one key on its own. */
  predicate KeyFits(instance: string, b: Backup, key: Key) {
    && key.derivation.Some? && key.derivation.value.root == b.rootId
    && key.backend == "local" && key.instance == instance
    && key.derivation.value.path !in b.tombstones
  }

  /** And of two keys. */
  predicate KeysApart(j: Key, k: Key) {
    j.locator != k.locator && (j.derivation.Some? && k.derivation.Some? ==> j.derivation.value.path != k.derivation.value.path)
  }

  predicate RegistryFits(instance: string, b: Backup) {
    && (forall i :: 0 <= i < |b.registry| ==> KeyFits(instance, b, b.registry[i]))
    && (forall i, j :: 0 <= i < j < |b.registry| ==> KeysApart(b.registry[i], b.registry[j]))
  }

  predicate DescriptionFits(p: Primitives, b: Backup, d: Description) {
    && (d.key in b.registry || b.pinnedRoot == Some(d.key))
    && d.fingerprint == d.key.fingerprint
    && p.digest(d.spki) == d.key.fingerprint
  }

  predicate DescriptionsFit(p: Primitives, b: Backup) {
    && (forall i :: 0 <= i < |b.descriptions| ==> DescriptionFits(p, b, b.descriptions[i]))
    && (forall i, j :: 0 <= i < j < |b.descriptions| ==> b.descriptions[i].key.locator != b.descriptions[j].key.locator)
  }

  predicate NoDuplicates(s: seq<string>) {
    forall i, j :: 0 <= i < j < |s| ==> s[i] != s[j]
  }

  predicate NamespaceFits(p: Primitives, n: Namespace) {
    p.validPrefix(n.prefix) && n.next <= n.limit <= HARDENED_OFFSET
  }

  predicate NamespacesFit(p: Primitives, b: Backup) {
    && (forall i :: 0 <= i < |b.namespaces| ==> NamespaceFits(p, b.namespaces[i]))
    && (forall i, j :: 0 <= i < j < |b.namespaces| ==> b.namespaces[i].id != b.namespaces[j].id)
  }

  predicate HeaderFits(instance: string, b: Backup) {
    b.version == WRAP_FORMAT_VERSION && b.nonceLength == 24 && b.authorityKeyLength == 32 && RootFits(instance, b)
  }

  /** What `restore` accepts. */
  predicate Restorable(p: Primitives, instance: string, b: Backup) {
    HeaderFits(instance, b) && RegistryFits(instance, b) && DescriptionsFit(p, b) && NoDuplicates(b.tombstones) && NamespacesFit(p, b)
  }

  /** The index `restore` builds: the registry by locator. */
  function IndexOf(registry: seq<Key>): map<string, Key> {
    if |registry| == 0 then map[]
    else IndexOf(registry[..|registry| - 1])[registry[|registry| - 1].locator := registry[|registry| - 1]]
  }

  // ---------------------------------------------------------------- operations

  /** `commit_backup`: replace the backup, and put the old one back when persisting fails. */
  function CommitBackup(st: State, next: Backup, persistOk: bool): (State, Result<(), Error>) {
    if st.disk.None? then (st.(backup := next), Ok(()))
    else if persistOk then (st.(backup := next, disk := Some(next)), Ok(()))
    else (st, Err(DefinitiveRejected))
  }

  datatype Grant = Grant(namespace: string, prefix: string, start: nat, maximum: nat)

  predicate GrantFits(p: Primitives, g: Grant) {
    p.validPrefix(g.prefix) && g.maximum != 0 && g.start < HARDENED_OFFSET && g.maximum <= HARDENED_OFFSET && g.start + g.maximum <= HARDENED_OFFSET
  }

  /** `configure_namespace`; `authority` is the digest of a verified grant, none when unverified. */
  function ConfigureNamespace(p: Primitives, st: State, g: Grant, authority: Option<string>, persistOk: bool): (State, Result<(), Error>) {
    if st.backup.material == ImportedScalar then (st, Err(Unsupported))
    else if authority.None? then (st, Err(DefinitiveRejected))
    else if !GrantFits(p, g) then (st, Err(InvalidRequest))
    else match FindNamespace(st.backup.namespaces, g.namespace)
      case Some(i) =>
        var existing := st.backup.namespaces[i];
        (st, if existing.authority == authority.value && existing.prefix == g.prefix && existing.limit == g.start + g.maximum
             then Ok(()) else Err(InvalidRequest))
      case None =>
        var namespace := Namespace(g.namespace, g.prefix, g.start, g.start + g.maximum, authority.value);
        CommitBackup(st, st.backup.(namespaces := st.backup.namespaces + [namespace]), persistOk)
  }

  function PathAt(prefix: string, index: nat, ed25519: bool): string {
    prefix + "/" + Dec(index) + if ed25519 then "'" else ""
  }

  function SecpKey(p: Primitives, st: State, path: string, spki: string): Key {
    Key("local", st.instance, p.locate(path), false, p.digest(spki), Some(Derivation(Bip32, st.backup.rootId, path)))
  }

  // ---------------------------------------------------------------- deriving from the open root

  predicate Unlocked(p: Primitives, st: State) { st.kek.Some? && p.opens(st.kek.value) }

  /** Derive from the root; `active_seed` refuses while it is locked. */
  function Derive(p: Primitives, st: State, family: Family, path: string): Result<string, Error> {
    if Unlocked(p, st) then p.derive(family, path) else Err(DefinitiveRejected)
  }

  /** `describe_path`: only the root path derives from an imported scalar, and it never does from BIP-39 entropy. */
  function DescribePath(p: Primitives, st: State, path: string): Result<Description, Error> {
    if path != "m" && !p.canonical(path) then Err(InvalidRequest)
    else if path != "m" && st.backup.material == ImportedScalar then Err(Unsupported)
    else match Derive(p, st, Bip32, path)
      case Err(e) => Err(e)
      case Ok(spki) =>
        if path == "m" && st.backup.material == Bip39Entropy then Err(InvalidRequest)
        else Ok(Description(SecpKey(p, st, path, spki), spki, p.digest(spki)))
  }

  /** Describe a parent's child on the parent's curve. */
  function DescribeChild(p: Primitives, st: State, parent: Key, path: string): Result<Description, Error> {
    if !parent.ed25519 then DescribePath(p, st, path)
    else if parent.derivation.None? || parent.derivation.value.family != Bip39Solana || !p.parses(Bip39Solana, path) then
      Err(InvalidRequest)
    else match Derive(p, st, Bip39Solana, path)
      case Err(e) => Err(e)
      case Ok(spki) =>
        var key := Key("local", st.instance, p.locate(path), true, p.digest(spki),
                       Some(Derivation(Bip39Solana, parent.derivation.value.root, path)));
        Ok(Description(key, spki, key.fingerprint))
  }

  /** `describe_bip39_child`: the child must still have its fingerprint. */
  function DescribeProfile(p: Primitives, st: State, key: Key, d: Derivation): Result<Description, Error> {
    if !Unlocked(p, st) then Err(DefinitiveRejected)
    else if !p.parses(d.family, d.path) then Err(InvalidRequest)
    else match p.derive(d.family, d.path)
      case Err(e) => Err(e)
      case Ok(spki) =>
        if p.digest(spki) != key.fingerprint then Err(DefinitiveRejected) else Ok(Description(key, spki, key.fingerprint))
  }

  /** Describe a key again from its derivation. */
  function DescribeAgain(p: Primitives, st: State, key: Key): Result<Description, Error> {
    match key.derivation
    case None => Err(DefinitiveRejected)
    case Some(d) => if d.family == Bip32 then DescribePath(p, st, d.path) else DescribeProfile(p, st, key, d)
  }

  /** `root_key_ref`: the pinned root, or one described from the root path. BIP-39 entropy has none. */
  function RootKey(p: Primitives, st: State): Result<Key, Error> {
    if st.backup.material == Bip39Entropy then Err(InvalidRequest)
    else if st.backup.pinnedRoot.Some? then Ok(st.backup.pinnedRoot.value)
    else match DescribePath(p, st, "m")
      case Err(e) => Err(e)
      case Ok(d) => Ok(Key("local", st.instance, "root:" + st.backup.rootId, false, d.fingerprint, None))
  }

  /** What allocation asks of the parent. */
  function CheckParent(p: Primitives, st: State, parent: Key): Result<(), Error> {
    if st.backup.material == Bip39Entropy then
      if parent in st.backup.registry then Ok(()) else Err(InvalidRequest)
    else match RootKey(p, st)
      case Err(e) => Err(e)
      case Ok(root) => if root == parent then Ok(()) else Err(InvalidRequest)
  }

  predicate ValidParent(p: Primitives, st: State, parent: Key) { CheckParent(p, st, parent).Ok? }

  // ---------------------------------------------------------------- registering and dropping

  function PushKey(b: Backup, key: Key, description: Option<Description>, op: Option<string>): Backup {
    b.(registry := b.registry + [key],
       descriptions := if description.Some? then b.descriptions + [description.value] else b.descriptions,
       pending := if op.Some? then b.pending[op.value := key] else b.pending)
  }

  /** Commit a backup that registers one more key, then index the key. */
  function CommitKey(st: State, next: Backup, key: Key, persistOk: bool): (State, Result<(), Error>) {
    var (st', r) := CommitBackup(st, next, persistOk);
    if r.Ok? then (st'.(index := st'.index[key.locator := key]), r) else (st', r)
  }

  /** The backup with namespace `i` one index further. */
  function Advanced(b: Backup, i: nat): Backup
    requires i < |b.namespaces|
  {
    b.(namespaces := b.namespaces[i := b.namespaces[i].(next := b.namespaces[i].next + 1)])
  }

  /** The child at a namespace's next index, from the path check to the commit. */
  function AllocateAt(p: Primitives, st: State, parent: Key, i: nat, op: Option<string>, persistOk: bool)
    : (State, Result<Description, Error>)
    requires i < |st.backup.namespaces|
  {
    var n := st.backup.namespaces[i];
    var path := PathAt(n.prefix, n.next, parent.ed25519);
    if path in st.backup.tombstones || HasPath(st.backup.registry, path) then (st, Err(DefinitiveRejected))
    else match DescribeChild(p, st, parent, path)
      case Err(e) => (st, Err(e))
      case Ok(d) =>
        var (st', r) := CommitKey(st, PushKey(Advanced(st.backup, i), d.key, Some(d), op), d.key, persistOk);
        (st', if r.Ok? then Ok(d) else Err(r.error))
  }

  /** `allocate_derived_key_inner`. */
  function Allocate(p: Primitives, st: State, parent: Key, id: string, authority: Option<string>, op: Option<string>, persistOk: bool)
    : (State, Result<Description, Error>)
  {
    var b := st.backup;
    if authority.None? then (st, Err(DefinitiveRejected))
    else if CheckParent(p, st, parent).Err? then (st, Err(CheckParent(p, st, parent).error))
    else if op.Some? && op.value in b.pending then (st, DescribeAgain(p, st, b.pending[op.value]))
    else match FindNamespace(b.namespaces, id)
      case None => (st, Err(InvalidRequest))
      case Some(i) =>
        var n := b.namespaces[i];
        if authority.value != n.authority || n.next >= n.limit || n.next >= HARDENED_OFFSET then (st, Err(InvalidRequest))
        else AllocateAt(p, st, parent, i, op, persistOk)
  }

  /** `register_child`. */
  function RegisterChild(st: State, key: Key, description: Option<Description>, op: Option<string>, persistOk: bool): (State, Result<(), Error>) {
    var b := st.backup;
    if key in b.registry then
      if description.Some? && !(exists i :: 0 <= i < |b.descriptions| && b.descriptions[i].key == key) then
        CommitBackup(st, b.(descriptions := b.descriptions + [description.value]), persistOk)
      else (st, Ok(()))
    else CommitKey(st, PushKey(b, key, description, op), key, persistOk)
  }

  /** `register_bip39_child`: a child of the BIP-39 seed is derived again, a BIP-32 one taken as it is. */
  function RegisterKey(p: Primitives, st: State, key: Key, op: Option<string>, persistOk: bool): (State, Result<(), Error>) {
    match key.derivation
    case None => (st, Err(InvalidRequest))
    case Some(d) =>
      if d.family == Bip32 then RegisterChild(st, key, None, op, persistOk)
      else match DescribeProfile(p, st, key, d)
        case Err(e) => (st, Err(e))
        case Ok(description) => RegisterChild(st, key, Some(description), op, persistOk)
  }

  /** The description states its own BIP-39 key. */
  predicate StatesItself(p: Primitives, d: Description) {
    && d.key.derivation.Some? && d.key.derivation.value.family != Bip32
    && d.fingerprint == d.key.fingerprint && p.digest(d.spki) == d.key.fingerprint
  }

  /** `register_bip39_child_description`: nothing is derived. */
  function RegisterDescription(p: Primitives, st: State, d: Description, op: Option<string>, persistOk: bool): (State, Result<(), Error>) {
    if StatesItself(p, d) then RegisterChild(st, d.key, Some(d), op, persistOk) else (st, Err(InvalidRequest))
  }

  /** `finalize_derived_key`. */
  function Finalize(st: State, op: string, persistOk: bool): (State, Result<(), Error>) {
    if op !in st.backup.pending then (st, Err(InvalidRequest))
    else CommitBackup(st, st.backup.(pending := st.backup.pending - {op}), persistOk)
  }

  function WithoutKey(keys: seq<Key>, key: Key): seq<Key> {
    if |keys| == 0 then []
    else WithoutKey(keys[..|keys| - 1], key) + if keys[|keys| - 1] == key then [] else [keys[|keys| - 1]]
  }

  function WithoutDescription(ds: seq<Description>, key: Key): seq<Description> {
    if |ds| == 0 then []
    else WithoutDescription(ds[..|ds| - 1], key) + if ds[|ds| - 1].key == key then [] else [ds[|ds| - 1]]
  }

  function DropKey(b: Backup, key: Key, path: string): Backup {
    b.(registry := WithoutKey(b.registry, key),
       descriptions := WithoutDescription(b.descriptions, key),
       pending := map op | op in b.pending && b.pending[op] != key :: b.pending[op],
       tombstones := if path in b.tombstones then b.tombstones else b.tombstones + [path])
  }

  /** `tombstone_derived_key`, and `retire_bip39_child` for BIP-39 keys. */
  function Tombstone(st: State, key: Key, persistOk: bool): (State, Result<(), Error>) {
    if key.derivation.None? then (st, Err(InvalidRequest))
    else if key.locator !in st.index || st.index[key.locator] != key then (st, Err(InvalidRequest))
    else
      var (st', r) := CommitBackup(st, DropKey(st.backup, key, key.derivation.value.path), persistOk);
      if r.Ok? then (st'.(index := st'.index - {key.locator}), r) else (st', r)
  }

  // ---------------------------------------------------------------- activation

  /** The root still has the fingerprint it is known by. */
  predicate RootDescribed(p: Primitives, st: State) {
    st.backup.material == Bip39Entropy
    || (RootKey(p, st).Ok? && DescribePath(p, st, "m").Ok?
        && RootKey(p, st).value.fingerprint == DescribePath(p, st, "m").value.key.fingerprint)
  }

  /** The key is what its derivation gives. */
  predicate SelfDescribed(p: Primitives, st: State, key: Key) {
    key.derivation.Some? ==>
      && (key.derivation.value.family != Bip32 ==> st.backup.material == Bip39Entropy)
      && DescribeAgain(p, st, key).Ok? && DescribeAgain(p, st, key).value.key == key
  }

  /** `validate_registered_derivations`. */
  predicate DerivationsHold(p: Primitives, st: State) {
    RootDescribed(p, st) && forall l :: l in st.index ==> SelfDescribed(p, st, st.index[l])
  }

  /** `activate_blocking`: a refused key locks the backend, whatever was active before. */
  function Activate(p: Primitives, st: State, secret: string): (State, Result<(), Error>) {
    if |secret| != KEK_LENGTH then (st, Err(InvalidRequest))
    else
      var tried := st.(kek := Some(secret));
      if Unlocked(p, tried) && DerivationsHold(p, tried) then (tried, Ok(()))
      else (st.(kek := None), Err(DefinitiveRejected))
  }

  function Deactivate(st: State): State { st.(kek := None) }

  /** A new process over the file, or over the exported backup when there is no file: `restore` leaves it locked. */
  function Restart(p: Primitives, st: State): Result<State, Error> {
    var saved := if st.disk.Some? then st.disk.value else st.backup;
    if Restorable(p, st.instance, saved) then Ok(State(st.instance, None, saved, IndexOf(saved.registry), st.disk))
    else Err(InvalidRequest)
  }

  // ---------------------------------------------------------------- provisioning

  function EmptyBackup(rootId: string, material: Material): Backup {
    Backup(rootId, material, None, WRAP_FORMAT_VERSION, 24, 32, [], [], [], [], map[])
  }

  function ProvisionBip39(instance: string, rootId: string, kek: string, onDisk: bool): State {
    var b := EmptyBackup(rootId, Bip39Entropy);
    State(instance, Some(kek), b, map[], if onDisk then Some(b) else None)
  }

  /** An imported key: the root signs, is described, and is pinned. */
  function ProvisionImported(p: Primitives, instance: string, rootId: string, kek: string, onDisk: bool): Result<State, Error> {
    var empty := State(instance, Some(kek), EmptyBackup(rootId, ImportedScalar), map[], None);
    match DescribePath(p, empty, "m")
    case Err(e) => Err(e)
    case Ok(d) =>
      var root := Key("local", instance, "root:" + rootId, false, d.fingerprint, None);
      var b := empty.backup.(pinnedRoot := Some(root), descriptions := [d.(key := root)]);
      Ok(State(instance, Some(kek), b, map[], if onDisk then Some(b) else None))
  }

  // ---------------------------------------------------------------- runs

  datatype Command =
    | ConfigureCmd(grant: Grant, authority: Option<string>, persistOk: bool)
    | AllocateCmd(parent: Key, namespace: string, authority: Option<string>, op: Option<string>, persistOk: bool)
    | RegisterCmd(key: Key, op: Option<string>, persistOk: bool)
    | RegisterDescriptionCmd(description: Description, op: Option<string>, persistOk: bool)
    | FinalizeCmd(operation: string, persistOk: bool)
    | TombstoneCmd(key: Key, persistOk: bool)
    | ActivateCmd(secret: string)
    | DeactivateCmd
    | RestartCmd

  function Step(p: Primitives, st: State, c: Command): State {
    match c
    case ConfigureCmd(g, authority, ok) => ConfigureNamespace(p, st, g, authority, ok).0
    case AllocateCmd(parent, id, authority, op, ok) => Allocate(p, st, parent, id, authority, op, ok).0
    case RegisterCmd(key, op, ok) => RegisterKey(p, st, key, op, ok).0
    case RegisterDescriptionCmd(description, op, ok) => RegisterDescription(p, st, description, op, ok).0
    case FinalizeCmd(op, ok) => Finalize(st, op, ok).0
    case TombstoneCmd(key, ok) => Tombstone(st, key, ok).0
    case ActivateCmd(secret) => Activate(p, st, secret).0
    case DeactivateCmd => Deactivate(st)
    case RestartCmd => (match Restart(p, st) case Ok(restarted) => restarted case Err(_) => st)
  }

  function Run(p: Primitives, st: State, commands: seq<Command>): State
    decreases |commands|
  {
    if commands == [] then st else Run(p, Step(p, st, commands[0]), commands[1..])
  }
}
