/**
 When the service arms, completes and cancels a ceremony, and what each answer leaves behind, told
 in the fields of its state: deadlines, armed ids, generations, bindings and factor keys.
 */
module CeremonyAnswers {
  import opened Wrappers
  import opened CeremonyState
  import opened Ceremony
  import opened CeremonyRuns
  import opened CeremonyTheorems
  import Custody
  import Factors = CustodyTheorems

  // ---------------------------------------------------------------- arming

  /** The generation a ceremony on this wallet is armed at, and must still find when it completes. */
  function GenerationNow(wallets: map<string, Wallet>, wallet: Option<string>): nat {
    if wallet.Some? && wallet.value in wallets then wallets[wallet.value].table.generation else 0
  }

  /**
   An operation is armed if and only if it is admissible, unrecorded, its wallet has no other armed
   ceremony unless it is a recovery, and a wallet it would create does not exist. An armed one is
   answered again exactly to the same request.
   */
  lemma PrepareExactly(s: Service, q: PrepareRequest)
    ensures Prepare(s, q).1.Ok?
            <==> q.admissible
                 && if q.operation in s.pending then
                      s.pending[q.operation].request == q.request && s.pending[q.operation].kind == q.kind
                    else
                      && q.operation !in s.durable.receipts && q.operation !in s.durable.statuses
                      && (q.wallet.Some? && q.kind != WalletRecovery ==>
                            forall op :: op in s.pending ==> s.pending[op].wallet != q.wallet)
                      && (q.kind == WalletRegistration || q.kind == WalletImport ==>
                            q.wallet.Some? && q.wallet.value !in s.wallets)
    ensures Prepare(s, q).1.Ok? ==>
              && Prepare(s, q).0 == s.(pending := s.pending[q.operation := Prepare(s, q).1.value])
              && Prepare(s, q).1.value
                 == if q.operation in s.pending then s.pending[q.operation]
                    else Pending(q.kind, q.ceremony, q.request, q.wallet, q.target, GenerationNow(s.wallets, q.wallet), q.expires)
    ensures Prepare(s, q).1.Err? ==> Prepare(s, q).0 == s
  {
    if q.operation in s.pending {
      assert s.pending[q.operation := s.pending[q.operation]] == s.pending;
    }
  }

  /** Of two ceremonies armed on one wallet, one is a recovery. */
  predicate OneSession(pending: map<string, Pending>) {
    forall a, b :: a in pending && b in pending && a != b && pending[a].wallet.Some? && pending[a].wallet == pending[b].wallet ==>
      pending[a].kind == WalletRecovery || pending[b].kind == WalletRecovery
  }

  lemma ArmKeepsSessions(s: Service, q: PrepareRequest)
    requires OneSession(s.pending)
    ensures OneSession(Prepare(s, q).0.pending)
  {
    PrepareExactly(s, q);
  }

  lemma StepKeepsSessions(s: Service, c: Command)
    requires MemoryIsDurable(s) && OneSession(s.pending)
    ensures OneSession(Step(s, c).pending)
  {
    if c.PrepareCmd? {
      ArmKeepsSessions(s, c.prepare);
    } else {
      forall op | op in Step(s, c).pending ensures op in s.pending && Step(s, c).pending[op] == s.pending[op] {
        PendingFrame(s, c, op);
      }
    }
  }

  /** Over every run a wallet has at most one armed ceremony that is not a recovery. */
  lemma {:induction false} RunKeepsOneSession(s: Service, commands: seq<Command>)
    requires Invariant(s) && OneSession(s.pending)
    ensures OneSession(Run(s, commands).pending)
    decreases |commands|
  {
    if commands != [] {
      StepKeepsSessions(s, commands[0]);
      StepKeepsInvariant(s, commands[0]);
      RunKeepsOneSession(Step(s, commands[0]), commands[1..]);
    }
  }

  // ---------------------------------------------------------------- what a ceremony edits

  /** The presented credential is bound to the wallet and its latest key is shown. */
  predicate Presents(h: Holdings, wallet: string, c: Completion) {
    && c.authority in h.credentials && h.credentials[c.authority] == wallet && wallet in h.wallets
    && c.authority in h.wallets[wallet].table.active && h.wallets[wallet].table.active[c.authority] == c.authorityKey
  }

  /** A key for an id the wallet has never known and nobody has bound. */
  predicate Enrollable(h: Holdings, wallet: string, id: string, key: string)
    requires wallet in h.wallets
  {
    var t := h.wallets[wallet].table;
    |key| == Custody.KEY_LENGTH && id !in t.active && id !in t.spent && id !in h.credentials
  }

  /** Material a new wallet may be made of. */
  predicate NewMaterial(c: Completion) {
    && |c.secret.wkek| == Custody.KEY_LENGTH && |c.newKey| == Custody.KEY_LENGTH && |c.secret.seed| == 32
    && (if c.bip39 then |c.secret.root| in {16, 20, 24, 28, 32} else |c.secret.root| == 32)
    && (c.withRecovery ==> |c.recoveryKey| == Custody.KEY_LENGTH)
  }

  /** When a proven ceremony may edit the wallets and bindings. */
  predicate EditAccepted(h: Holdings, kind: Kind, wallet: string, target: Option<string>, c: Completion) {
    match kind
    case WalletRegistration => wallet !in h.wallets && NewMaterial(c) && c.newId !in h.credentials
    case WalletImport => wallet !in h.wallets && NewMaterial(c) && c.newId !in h.credentials
    case CredentialAdd => Presents(h, wallet, c) && Enrollable(h, wallet, c.newId, c.newKey)
    case CredentialReplace => Presents(h, wallet, c) && Enrollable(h, wallet, c.newId, c.newKey)
    case CredentialRemove =>
      && target.Some? && wallet in h.wallets && c.authority in h.credentials && h.credentials[c.authority] == wallet
      && var t := h.wallets[wallet].table;
         (target.value in t.active || target.value in t.spent)
         && (target.value in t.active ==> t.recovery.Some? || |t.active| > 1)
    case WalletRecovery =>
      && wallet in h.wallets
      && var t := h.wallets[wallet].table;
         && t.recovery == Some((c.recoveryId, c.recoveryKey)) && t.generation < Custody.LAST_GENERATION
         && |c.newKey| == Custody.KEY_LENGTH && |c.nextRecoveryKey| == Custody.KEY_LENGTH
         && c.newId !in t.active && c.newId !in t.spent
         && (c.newId in h.credentials ==> h.credentials[c.newId] == wallet)
    case SealedApproval => true
    case _ => Presents(h, wallet, c) && c.effectOk
  }

  function Retabled(h: Holdings, wallet: string, t: Factors.Table, credentials: map<string, string>): Holdings
    requires wallet in h.wallets
  {
    Holdings(h.wallets[wallet := h.wallets[wallet].(table := t)], credentials)
  }

  function Others(credentials: map<string, string>, wallet: string): map<string, string> {
    map id | id in credentials && credentials[id] != wallet :: credentials[id]
  }

  /** What it then leaves. */
  function Edited(h: Holdings, kind: Kind, wallet: string, target: Option<string>, c: Completion): Holdings
    requires EditAccepted(h, kind, wallet, target, c)
  {
    match kind
    case WalletRegistration => Created(h, wallet, c)
    case WalletImport => Created(h, wallet, c)
    case CredentialAdd =>
      var t := h.wallets[wallet].table;
      Retabled(h, wallet, t.(active := t.active[c.newId := c.newKey]), h.credentials[c.newId := wallet])
    case CredentialReplace =>
      var t := h.wallets[wallet].table;
      Retabled(h, wallet, t.(active := t.active[c.newId := c.newKey] - {c.authority}, spent := t.spent + {c.authority}),
               h.credentials[c.newId := wallet] - {c.authority})
    case CredentialRemove =>
      var t := h.wallets[wallet].table;
      Retabled(h, wallet, t.(active := t.active - {target.value}, spent := t.spent + {target.value}), h.credentials - {target.value})
    case WalletRecovery =>
      var t := h.wallets[wallet].table;
      Retabled(h, wallet,
               t.(active := map[c.newId := c.newKey], spent := t.spent + t.active.Keys,
                  recovery := Some((c.nextRecoveryId, c.nextRecoveryKey)), generation := t.generation + 1),
               Others(h.credentials, wallet)[c.newId := wallet])
    case WalletDelete => Holdings(h.wallets - {wallet}, Others(h.credentials, wallet))
    case _ => h
  }

  /** A wallet with one credential, its recovery factor if asked for, at generation 0. */
  function Created(h: Holdings, wallet: string, c: Completion): Holdings {
    var recovery := if c.withRecovery then Some((c.recoveryId, c.recoveryKey)) else None;
    var t := Factors.Table(map[c.newId := c.newKey], {}, recovery, 0, 1, Custody.WRAP_FORMAT_CURRENT);
    Holdings(h.wallets[wallet := Wallet(c.secret, t)], h.credentials[c.newId := wallet])
  }

  lemma CreationExactly(h: Holdings, wallet: string, c: Completion)
    ensures NewWallet(wallet, c).Some? <==> NewMaterial(c)
    ensures ApplyRegistration(h, wallet, c)
            == if wallet !in h.wallets && NewMaterial(c) && c.newId !in h.credentials then Some(Created(h, wallet, c)) else None
  {
  }

  lemma EnrolExactly(h: Holdings, wallet: string, secret: Custody.Secret, id: string, key: string)
    requires wallet in h.wallets && secret == h.wallets[wallet].secret
    ensures var t := h.wallets[wallet].table;
            Enrol(h, wallet, secret, id, key)
            == if Enrollable(h, wallet, id, key) then
                 Some(Retabled(h, wallet, t.(active := t.active[id := key]), h.credentials[id := wallet]))
               else None
  {
  }

  lemma RevokeExactly(w: Wallet, id: string)
    ensures RevokeFactor(w, id)
            == if (id in w.table.active || id in w.table.spent) && (id in w.table.active ==> w.table.recovery.Some? || |w.table.active| > 1)
               then Some(w.(table := w.table.(active := w.table.active - {id}, spent := w.table.spent + {id}))) else None
  {
  }

  lemma AuthorisedIsPresents(h: Holdings, wallet: string, c: Completion)
    ensures Authorised(h, wallet, c) <==> Presents(h, wallet, c)
  {
  }

  lemma AddExactly(h: Holdings, p: Pending, c: Completion)
    requires p.kind == CredentialAdd && p.wallet.Some? && c.proofOk
    ensures ApplyCustody(h, p, c)
            == if EditAccepted(h, p.kind, p.wallet.value, p.target, c) then Some(Edited(h, p.kind, p.wallet.value, p.target, c)) else None
  {
    var wallet := p.wallet.value;
    AuthorisedIsPresents(h, wallet, c);
    if Presents(h, wallet, c) {
      EnrolExactly(h, wallet, h.wallets[wallet].secret, c.newId, c.newKey);
    }
  }

  lemma TwoKeys(m: map<string, string>, a: string, b: string, key: string)
    requires a in m && b !in m
    ensures |m[b := key]| > 1
  {
    assert m[b := key].Keys == m.Keys + {b} && |m.Keys - {a}| == |m.Keys| - 1;
  }

  lemma ReplaceExactly(h: Holdings, p: Pending, c: Completion)
    requires p.kind == CredentialReplace && p.wallet.Some? && c.proofOk
    ensures ApplyCustody(h, p, c)
            == if EditAccepted(h, p.kind, p.wallet.value, p.target, c) then Some(Edited(h, p.kind, p.wallet.value, p.target, c)) else None
  {
    var wallet := p.wallet.value;
    AuthorisedIsPresents(h, wallet, c);
    if Presents(h, wallet, c) {
      EnrolExactly(h, wallet, h.wallets[wallet].secret, c.newId, c.newKey);
      if Enrollable(h, wallet, c.newId, c.newKey) {
        var added := Enrol(h, wallet, h.wallets[wallet].secret, c.newId, c.newKey).value;
        TwoKeys(h.wallets[wallet].table.active, c.authority, c.newId, c.newKey);
        RevokeExactly(added.wallets[wallet], c.authority);
        var w := RevokeFactor(added.wallets[wallet], c.authority).value;
        assert added.wallets[wallet := w] == h.wallets[wallet := w];
      }
    }
  }

  lemma RemoveExactly(h: Holdings, p: Pending, c: Completion)
    requires p.kind == CredentialRemove && p.wallet.Some? && c.proofOk
    ensures ApplyCustody(h, p, c)
            == if EditAccepted(h, p.kind, p.wallet.value, p.target, c) then Some(Edited(h, p.kind, p.wallet.value, p.target, c)) else None
  {
    if p.target.Some? && p.wallet.value in h.wallets {
      RevokeExactly(h.wallets[p.wallet.value], p.target.value);
    }
  }

  lemma ReplacementExactly(w: Wallet, c: Completion)
    ensures var t := w.table;
            ReplaceFactors(w, c.newId, c.newKey, c.nextRecoveryId, c.nextRecoveryKey)
            == if |c.newKey| == Custody.KEY_LENGTH && |c.nextRecoveryKey| == Custody.KEY_LENGTH
                  && c.newId !in t.active && c.newId !in t.spent && t.generation < Custody.LAST_GENERATION
               then Some(w.(table := t.(active := map[c.newId := c.newKey], spent := t.spent + t.active.Keys,
                                        recovery := Some((c.nextRecoveryId, c.nextRecoveryKey)), generation := t.generation + 1)))
               else None
  {
  }

  lemma RecoverExactly(h: Holdings, p: Pending, c: Completion)
    requires p.kind == WalletRecovery && p.wallet.Some? && c.proofOk
    ensures ApplyCustody(h, p, c)
            == if EditAccepted(h, p.kind, p.wallet.value, p.target, c) then Some(Edited(h, p.kind, p.wallet.value, p.target, c)) else None
  {
    assert Unbind(h.credentials, p.wallet.value) == Others(h.credentials, p.wallet.value);
    if p.wallet.value in h.wallets {
      ReplacementExactly(h.wallets[p.wallet.value], c);
    }
  }

  lemma RestExactly(h: Holdings, p: Pending, c: Completion)
    requires p.wallet.Some? && c.proofOk && p.kind != SealedApproval
    requires p.kind !in {CredentialAdd, CredentialReplace, CredentialRemove, WalletRecovery}
    ensures ApplyCustody(h, p, c)
            == if EditAccepted(h, p.kind, p.wallet.value, p.target, c) then Some(Edited(h, p.kind, p.wallet.value, p.target, c)) else None
  {
    CreationExactly(h, p.wallet.value, c);
    AuthorisedIsPresents(h, p.wallet.value, c);
    assert Unbind(h.credentials, p.wallet.value) == Others(h.credentials, p.wallet.value);
  }

  /** Every ceremony's edit: when it is made, and what it leaves. */
  lemma EditExactly(h: Holdings, p: Pending, c: Completion)
    requires p.kind != SealedApproval
    ensures ApplyCustody(h, p, c)
            == if p.wallet.Some? && c.proofOk && EditAccepted(h, p.kind, p.wallet.value, p.target, c)
               then Some(Edited(h, p.kind, p.wallet.value, p.target, c)) else None
  {
    if p.wallet.Some? && c.proofOk {
      match p.kind
      case CredentialAdd => AddExactly(h, p, c);
      case CredentialReplace => ReplaceExactly(h, p, c);
      case CredentialRemove => RemoveExactly(h, p, c);
      case WalletRecovery => RecoverExactly(h, p, c);
      case _ => RestExactly(h, p, c);
    }
  }

  // ---------------------------------------------------------------- completing

  /** The completion finds its ceremony armed, in time, of its kind and id, at the generation in force, with valid proofs. */
  predicate InForce(s: Service, c: Completion) {
    && c.operation in s.pending
    && var p := s.pending[c.operation];
       && p.wallet.Some? && c.kind == p.kind && c.ceremony == p.ceremony && c.now < p.expires
       && p.generation == GenerationNow(s.wallets, p.wallet) && c.proofOk
  }

  /** The generation column of a wallet, 0 for one it has never seen. */
  function Column(fence: map<string, nat>, wallet: string): nat { if wallet in fence then fence[wallet] else 0 }

  /** What an approval in force still needs. */
  predicate Approves(s: Service, c: Completion)
    requires InForce(s, c)
  {
    var p := s.pending[c.operation];
    && c.authority in s.credentials && s.credentials[c.authority] == p.wallet.value
    && (c.localActivation ==> Presents(HoldingsOf(s), p.wallet.value, c))
    && Column(s.durable.fence, p.wallet.value) == p.generation
    && c.operation !in s.durable.receipts && c.operation !in s.durable.statuses && c.commitOk
  }

  /** What a custody ceremony in force still needs to reach its commit. */
  predicate CommitsEdit(s: Service, c: Completion)
    requires InForce(s, c)
  {
    var p := s.pending[c.operation];
    && EditAccepted(HoldingsOf(s), p.kind, p.wallet.value, p.target, c)
    && (p.kind == WalletRegistration || p.kind == WalletImport ==> Column(s.durable.fence, p.wallet.value) == 0)
    && c.operation !in s.durable.receipts && c.commitOk
  }

  lemma ApprovalExactly(s: Service, c: Completion)
    requires c.operation in s.pending && c.kind == SealedApproval
    ensures var p := s.pending[c.operation];
            var s1 := s.(pending := s.pending - {c.operation});
            var (s', r) := CompleteApprovalOf(s1, p, c);
            && (r.Ok? <==> InForce(s, c) && Approves(s, c))
            && (if r.Ok? then
                  && r.value == Receipt(SealedApproval, p.ceremony, c.digest)
                  && s' == s1.(durable := s.durable.(receipts := s.durable.receipts[c.operation := r.value],
                                                     statuses := s.durable.statuses[c.operation := Succeeded]),
                               completed := s.completed[c.operation := r.value])
                else s' == s1)
  {
    if s.pending[c.operation].wallet.Some? {
      AuthorisedIsPresents(HoldingsOf(s), s.pending[c.operation].wallet.value, c);
    }
  }

  lemma EditKeepsOthers(h: Holdings, kind: Kind, wallet: string, target: Option<string>, c: Completion)
    requires EditAccepted(h, kind, wallet, target, c)
    ensures var h' := Edited(h, kind, wallet, target, c);
            && (forall w :: w in h'.wallets && w != wallet ==> w in h.wallets && h'.wallets[w] == h.wallets[w])
            && (wallet in h'.wallets ==>
                  h'.wallets[wallet].table.generation
                  == if kind == WalletRegistration || kind == WalletImport || wallet !in h.wallets then 0
                     else h.wallets[wallet].table.generation + if kind == WalletRecovery then 1 else 0)
            && (wallet in h'.wallets && !(kind == WalletRegistration || kind == WalletImport) ==> wallet in h.wallets)
  {
  }

  /** Wallets the edit leaves alone pass the fence; its own passes by its next generation. */
  lemma FenceByWallet(s: Service, h': Holdings, kind: Kind, wallet: string)
    requires Invariant(s)
    requires forall w :: w in h'.wallets && w != wallet ==> w in s.wallets && h'.wallets[w] == s.wallets[w]
    ensures var previous := Fence(s.durable, wallet);
            FenceAdmits(s.durable, h'.wallets, kind, Some(wallet))
            <==> (wallet in h'.wallets ==>
                    var next := h'.wallets[wallet].table.generation;
                    && next >= previous
                    && (kind == WalletRecovery ==> previous < Custody.LAST_GENERATION && next == previous + 1)
                    && (kind != WalletRecovery ==> next == previous))
  {
    forall w | w in h'.wallets && w != wallet ensures Fence(s.durable, w) == h'.wallets[w].table.generation {
      assert w in s.wallets;
    }
  }

  /** The fence stands only against a creation over the id of a wallet that had been recovered. */
  lemma FenceExactly(s: Service, kind: Kind, wallet: string, target: Option<string>, c: Completion)
    requires Invariant(s) && EditAccepted(HoldingsOf(s), kind, wallet, target, c) && kind != SealedApproval
    ensures FenceAdmits(s.durable, Edited(HoldingsOf(s), kind, wallet, target, c).wallets, kind, Some(wallet))
            <==> (kind == WalletRegistration || kind == WalletImport ==> Column(s.durable.fence, wallet) == 0)
  {
    var h, h' := HoldingsOf(s), Edited(HoldingsOf(s), kind, wallet, target, c);
    EditKeepsOthers(h, kind, wallet, target, c);
    FenceByWallet(s, h', kind, wallet);
    OwnWallet(h, kind, wallet, target, c);
    assert wallet in s.wallets ==> s.wallets[wallet].table.generation == Fence(s.durable, wallet);
  }

  /** Which wallets an edit leaves in place, and the limit a recovery respects. */
  lemma OwnWallet(h: Holdings, kind: Kind, wallet: string, target: Option<string>, c: Completion)
    requires EditAccepted(h, kind, wallet, target, c)
    ensures kind == WalletRegistration || kind == WalletImport ==> wallet in Edited(h, kind, wallet, target, c).wallets
    ensures kind == WalletRecovery ==> wallet in h.wallets && h.wallets[wallet].table.generation < Custody.LAST_GENERATION
  {
  }

  /** The receipt of a completed ceremony, and the books with it. */
  predicate Booked(s: Service, s': Service, c: Completion)
    requires c.operation in s.pending
  {
    var p := s.pending[c.operation];
    && s'.durable.receipts == s.durable.receipts[c.operation := Receipt(p.kind, p.ceremony, c.digest)]
    && s'.durable.statuses == s.durable.statuses[c.operation := Succeeded]
    && s'.durable.wallets == s'.wallets && s'.durable.credentials == s'.credentials
    && s'.pending == s.pending - {c.operation} && s'.pairs == s.pairs
  }

  /** What a committed custody ceremony leaves and answers. */
  predicate CommittedWith(s: Service, s': Service, r: Result<Receipt, Refusal>, c: Completion, h: Holdings)
    requires c.operation in s.pending
  {
    var p := s.pending[c.operation];
    && Booked(s, s', c) && HoldingsOf(s') == h
    && (if c.cleanupOk then r == Ok(Receipt(p.kind, p.ceremony, c.digest)) && s'.completed == s.completed[c.operation := r.value]
        else r.Err? && s'.completed == s.completed)
  }

  lemma CustodyCommits(s: Service, c: Completion)
    requires Invariant(s) && c.kind != SealedApproval && InForce(s, c) && CommitsEdit(s, c)
    ensures var p := s.pending[c.operation];
            var (s', r) := CompleteCustodyOf(s.(pending := s.pending - {c.operation}), p, c);
            CommittedWith(s, s', r, c, Edited(HoldingsOf(s), p.kind, p.wallet.value, p.target, c))
  {
    var p := s.pending[c.operation];
    EditExactly(HoldingsOf(s), p, c);
    FenceExactly(s, p.kind, p.wallet.value, p.target, c);
    CommitMade(s, c, Edited(HoldingsOf(s), p.kind, p.wallet.value, p.target, c));
  }

  lemma CustodyRefuses(s: Service, c: Completion)
    requires Invariant(s) && c.operation in s.pending && c.kind != SealedApproval && !(InForce(s, c) && CommitsEdit(s, c))
    ensures var s1 := s.(pending := s.pending - {c.operation});
            CompleteCustodyOf(s1, s.pending[c.operation], c).0 == s1 && CompleteCustodyOf(s1, s.pending[c.operation], c).1.Err?
  {
    var p := s.pending[c.operation];
    if InForce(s, c) && EditAccepted(HoldingsOf(s), p.kind, p.wallet.value, p.target, c) {
      EditExactly(HoldingsOf(s), p, c);
      FenceExactly(s, p.kind, p.wallet.value, p.target, c);
      CommitRefused(s, c, Edited(HoldingsOf(s), p.kind, p.wallet.value, p.target, c));
    } else {
      if p.kind != SealedApproval {
        EditExactly(HoldingsOf(s), p, c);
      }
      NotInForce(s, c);
    }
  }

  /** The transaction goes through. */
  lemma CommitMade(s: Service, c: Completion, h: Holdings)
    requires InForce(s, c) && c.kind != SealedApproval
    requires var p := s.pending[c.operation];
             ApplyCustody(HoldingsOf(s), p, c) == Some(h) && FenceAdmits(s.durable, h.wallets, p.kind, p.wallet)
    requires c.operation !in s.durable.receipts && c.commitOk
    ensures var (s', r) := CompleteCustodyOf(s.(pending := s.pending - {c.operation}), s.pending[c.operation], c);
            CommittedWith(s, s', r, c, h)
  {
    var p := s.pending[c.operation];
    CustodyAccepted(s.(pending := s.pending - {c.operation}), p, c, h);
    CleanupAnswers(s, c, h);
  }

  lemma CleanupAnswers(s: Service, c: Completion, h: Holdings)
    requires InForce(s, c) && c.kind != SealedApproval && ApplyCustody(HoldingsOf(s), s.pending[c.operation], c) == Some(h)
    requires var p := s.pending[c.operation];
             CommitCustody(s.durable, h, c.operation, ReceiptOf(p, c), p.wallet, c.commitOk).Some?
    ensures var p := s.pending[c.operation];
            var (s', r) := CompleteCustodyOf(s.(pending := s.pending - {c.operation}), p, c);
            if c.cleanupOk then r == Ok(Receipt(p.kind, p.ceremony, c.digest)) && s'.completed == s.completed[c.operation := r.value]
            else r.Err? && s'.completed == s.completed
  {
  }

  lemma CommitRefused(s: Service, c: Completion, h: Holdings)
    requires InForce(s, c) && c.kind != SealedApproval
    requires var p := s.pending[c.operation]; ApplyCustody(HoldingsOf(s), p, c) == Some(h)
    requires var p := s.pending[c.operation];
             !FenceAdmits(s.durable, h.wallets, p.kind, p.wallet) || c.operation in s.durable.receipts || !c.commitOk
    ensures var s1 := s.(pending := s.pending - {c.operation});
            CompleteCustodyOf(s1, s.pending[c.operation], c) == (s1, Err(Unavailable))
  {
  }

  lemma NotInForce(s: Service, c: Completion)
    requires c.operation in s.pending && c.kind != SealedApproval
    requires !InForce(s, c) || ApplyCustody(HoldingsOf(s), s.pending[c.operation], c).None?
    ensures var s1 := s.(pending := s.pending - {c.operation});
            CompleteCustodyOf(s1, s.pending[c.operation], c).0 == s1 && CompleteCustodyOf(s1, s.pending[c.operation], c).1.Err?
  {
  }

  /** The operation has no receipt that this completion would be answered with. */
  predicate Unrecorded(s: Service, c: Completion) {
    && (c.operation in s.completed ==> (s.completed[c.operation].kind == SealedApproval <==> c.kind != SealedApproval))
    && (c.operation in s.durable.receipts ==> (s.durable.receipts[c.operation].kind == SealedApproval <==> c.kind != SealedApproval))
  }

  lemma UnrecordedExactly(s: Service, c: Completion)
    ensures Retry(s, c).None? <==> Unrecorded(s, c)
  {
  }

  /** What an unrecorded completion of an armed operation commits. */
  predicate Commits(s: Service, c: Completion) {
    InForce(s, c) && if c.kind == SealedApproval then Approves(s, c) else CommitsEdit(s, c)
  }

  /** The failure a refused completion records, when storage takes it and no receipt stands. */
  function StatusesAfterFailure(s: Service, c: Completion): map<string, PublicState>
    requires c.operation in s.pending
  {
    if c.operation in s.durable.receipts || !c.statusOk then s.durable.statuses
    else s.durable.statuses[c.operation := if s.pending[c.operation].expires <= c.now then Expired else Failed]
  }

  /**
   An unrecorded completion succeeds if and only if its ceremony is armed, unexpired, of its kind and
   id, at the current generation, with valid proofs, an edit that the wallet accepts and a commit that
   goes through. Its commit writes the armed ceremony's receipt and makes exactly that edit.
   */
  lemma CompletionExactly(s: Service, c: Completion)
    requires Invariant(s) && Unrecorded(s, c)
    ensures Complete(s, c).1.Ok? <==> Commits(s, c) && (c.kind == SealedApproval || c.cleanupOk)
    ensures Complete(s, c).1.Ok? ==>
              && Complete(s, c).1.value == Receipt(c.kind, c.ceremony, c.digest)
              && Complete(s, c).0.completed == s.completed[c.operation := Complete(s, c).1.value]
    ensures Commits(s, c) ==>
              var p, s' := s.pending[c.operation], Complete(s, c).0;
              && Booked(s, s', c)
              && HoldingsOf(s') == if c.kind == SealedApproval then HoldingsOf(s) else Edited(HoldingsOf(s), p.kind, p.wallet.value, p.target, c)
  {
    UnrecordedExactly(s, c);
    if c.operation in s.pending {
      if c.kind == SealedApproval {
        ApprovalExactly(s, c);
      } else if InForce(s, c) && CommitsEdit(s, c) {
        CustodyCommits(s, c);
      } else {
        CustodyRefuses(s, c);
      }
    }
  }

  /** A completion that commits nothing consumes the ceremony, records its failure and changes nothing else. */
  lemma FailureExactly(s: Service, c: Completion)
    requires Invariant(s) && Unrecorded(s, c) && !Commits(s, c)
    ensures Complete(s, c).1.Err?
    ensures Complete(s, c).0
            == if c.operation !in s.pending then s
               else s.(pending := s.pending - {c.operation}, durable := s.durable.(statuses := StatusesAfterFailure(s, c)))
  {
    UnrecordedExactly(s, c);
    if c.operation in s.pending {
      if c.kind == SealedApproval {
        ApprovalExactly(s, c);
      } else {
        CustodyRefuses(s, c);
      }
    }
  }

  /** At or after its deadline nothing of a ceremony is applied, and it ends Expired while storage works. */
  lemma LateCompletionChangesNothing(s: Service, c: Completion)
    requires Invariant(s) && Unrecorded(s, c) && c.operation in s.pending && s.pending[c.operation].expires <= c.now
    ensures var s' := Complete(s, c).0;
            && Complete(s, c).1.Err? && HoldingsOf(s') == HoldingsOf(s) && s'.completed == s.completed
            && s'.durable.receipts == s.durable.receipts && s'.durable.fence == s.durable.fence
            && s'.durable.wallets == s.durable.wallets && s'.durable.credentials == s.durable.credentials
            && c.operation !in s'.pending
            && (c.statusOk && c.operation !in s.durable.receipts ==>
                  c.operation in s'.durable.statuses && s'.durable.statuses[c.operation] == Expired)
  {
    FailureExactly(s, c);
  }

  /** A recorded completion is answered its record: an approval's if of this ceremony, a custody result's if of this kind and still deliverable. */
  lemma RecordAnsweredExactly(s: Service, c: Completion)
    requires Invariant(s) && !Unrecorded(s, c)
    ensures var r := s.durable.receipts[c.operation];
            && c.operation in s.durable.receipts && Complete(s, c).0 == s
            && (Complete(s, c).1 == Ok(r)
                <==> if c.kind == SealedApproval then c.operation in s.completed || r.ceremony == c.ceremony
                     else (c.operation in s.completed || r.kind == c.kind) && (r.kind == WalletRecovery ==> c.deliverable))
            && (Complete(s, c).1.Ok? ==> Complete(s, c).1.value == r)
  {
  }

  // ---------------------------------------------------------------- cancelling

  predicate Paired(s: Service, op: string) { exists id :: id in s.pairs && s.pairs[id].operation == op }

  /**
   A cancellation is accepted if and only if the process remembers no completion and a live pairing
   without a custody receipt, or else an armed ceremony, is recorded Cancelled, or else an outcome
   other than success is on record already.
   */
  lemma CancelExactly(s: Service, op: string, statusOk: bool)
    ensures Cancel(s, op, statusOk).1.Ok?
            <==> op !in s.completed
                 && if Paired(s, op) then statusOk && (op in s.durable.receipts ==> s.durable.receipts[op].kind == SealedApproval)
                    else if op in s.pending then statusOk
                    else op !in s.durable.receipts && op in s.durable.statuses && s.durable.statuses[op] != Succeeded
  {
  }

  /** What it leaves: no pairing, or no armed ceremony, and the outcome Cancelled on record. */
  lemma CancelLeaves(s: Service, op: string, statusOk: bool)
    ensures var s' := Cancel(s, op, statusOk).0;
            if Cancel(s, op, statusOk).1.Ok? && (Paired(s, op) || op in s.pending) then
              && s'.durable == s.durable.(statuses := s.durable.statuses[op := Cancelled])
              && s'.pending == (if Paired(s, op) then s.pending else s.pending - {op})
              && (forall id :: id in s'.pairs <==> id in s.pairs && s.pairs[id].operation != op)
              && (forall id :: id in s'.pairs ==> s'.pairs[id] == s.pairs[id])
              && s'.completed == s.completed && HoldingsOf(s') == HoldingsOf(s)
            else s' == s || (op in s.pending && !Paired(s, op) && !statusOk && s' == s.(pending := s.pending - {op}))
  {
  }
}
