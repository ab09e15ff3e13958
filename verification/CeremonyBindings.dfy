/**
 Bound credentials and custody wraps: after every step, the credentials bound to a wallet are
 exactly the active factors of its custody, as long as credential ids are not reused across
 wallets. The one step that can break this is the removal of a credential that another wallet
 has bound, and it always does.
 */
module CeremonyBindings {
  import opened Wrappers
  import opened CeremonyState
  import opened Ceremony
  import opened CeremonyRuns
  import opened CeremonyTheorems
  import Pairing
  import Custody
  import Factors = CustodyTheorems

  predicate IsBound(h: Holdings, id: string, w: string) { id in h.credentials && h.credentials[id] == w }

  predicate IsActive(h: Holdings, id: string, w: string) { w in h.wallets && id in h.wallets[w].table.active }

  /** Bindings are exactly the active wraps. */
  ghost predicate Exact(h: Holdings) {
    forall id, w :: IsBound(h, id, w) <==> IsActive(h, id, w)
  }

  /** No two wallets know the same credential id, active or spent. */
  ghost predicate Separate(h: Holdings) {
    forall v, w, id ::
      v in h.wallets && w in h.wallets && Factors.Known(h.wallets[v].table, id) && Factors.Known(h.wallets[w].table, id) ==> v == w
  }

  // ---------------------------------------------------------------- edits

  lemma EnrolExact(h: Holdings, wallet: string, session: Custody.Secret, id: string, key: string)
    requires Exact(h) && Enrol(h, wallet, session, id, key).Some?
    ensures Exact(Enrol(h, wallet, session, id, key).value)
  {
    var h' := Enrol(h, wallet, session, id, key).value;
    forall x, w ensures IsBound(h', x, w) <==> IsActive(h', x, w) {
      assert IsBound(h, x, w) <==> IsActive(h, x, w);
      assert IsBound(h, id, w) <==> IsActive(h, id, w);
    }
  }

  lemma RegistrationExact(h: Holdings, wallet: string, c: Completion)
    requires Exact(h) && ApplyRegistration(h, wallet, c).Some?
    ensures Exact(ApplyRegistration(h, wallet, c).value)
  {
    var h' := ApplyRegistration(h, wallet, c).value;
    forall x, w ensures IsBound(h', x, w) <==> IsActive(h', x, w) {
      assert IsBound(h, x, w) <==> IsActive(h, x, w);
      assert IsBound(h, c.newId, w) <==> IsActive(h, c.newId, w);
    }
  }

  lemma ChangeExact(h: Holdings, wallet: string, replace: bool, c: Completion)
    requires Exact(h) && ApplyCredentialChange(h, wallet, replace, c).Some?
    ensures Exact(ApplyCredentialChange(h, wallet, replace, c).value)
  {
    var secret := h.wallets[wallet].secret;
    EnrolExact(h, wallet, secret, c.newId, c.newKey);
    if replace {
      var added := Enrol(h, wallet, secret, c.newId, c.newKey).value;
      var h' := ApplyCredentialChange(h, wallet, replace, c).value;
      assert IsBound(added, c.authority, wallet);
      RevokedExact(added, wallet, c.authority, h');
    }
  }

  /** Revoking a factor and dropping its binding keeps bindings exact, unless the binding was another wallet's. */
  lemma RevokedExact(h: Holdings, wallet: string, target: string, h': Holdings)
    requires Exact(h) && wallet in h.wallets && RevokeFactor(h.wallets[wallet], target).Some?
    requires h' == Holdings(h.wallets[wallet := RevokeFactor(h.wallets[wallet], target).value], h.credentials - {target})
    ensures Exact(h') <==> (target in h.credentials ==> h.credentials[target] == wallet)
  {
    if target in h.credentials && h.credentials[target] != wallet {
      var other := h.credentials[target];
      assert IsBound(h, target, other) && IsActive(h, target, other);
      assert IsActive(h', target, other) && !IsBound(h', target, other);
    } else {
      forall x, w ensures IsBound(h', x, w) <==> IsActive(h', x, w) {
        assert IsBound(h, x, w) <==> IsActive(h, x, w);
      }
    }
  }

  lemma RecoveryExact(h: Holdings, wallet: string, c: Completion)
    requires Exact(h) && ApplyRecovery(h, wallet, c).Some?
    ensures Exact(ApplyRecovery(h, wallet, c).value)
  {
    var h' := ApplyRecovery(h, wallet, c).value;
    forall x, w ensures IsBound(h', x, w) <==> IsActive(h', x, w) {
      assert IsBound(h, x, w) <==> IsActive(h, x, w);
      assert IsBound(h, c.newId, w) <==> IsActive(h, c.newId, w);
    }
  }

  lemma DeletionExact(h: Holdings, wallet: string)
    requires Exact(h)
    ensures Exact(ApplyDeletion(h, wallet))
  {
    var h' := ApplyDeletion(h, wallet);
    forall x, w ensures IsBound(h', x, w) <==> IsActive(h', x, w) {
      assert IsBound(h, x, w) <==> IsActive(h, x, w);
    }
  }

  /** The ceremony removes a credential that is bound to another wallet. */
  predicate StrayTarget(h: Holdings, p: Pending) {
    && p.kind == CredentialRemove && p.wallet.Some? && p.target.Some?
    && p.target.value in h.credentials && h.credentials[p.target.value] != p.wallet.value
  }

  lemma ApplyExact(h: Holdings, p: Pending, c: Completion)
    requires Exact(h) && ApplyCustody(h, p, c).Some?
    ensures Exact(ApplyCustody(h, p, c).value) <==> !StrayTarget(h, p)
  {
    var wallet := p.wallet.value;
    match p.kind
    case WalletRegistration => RegistrationExact(h, wallet, c);
    case WalletImport => RegistrationExact(h, wallet, c);
    case CredentialAdd => ChangeExact(h, wallet, false, c);
    case CredentialReplace => ChangeExact(h, wallet, true, c);
    case CredentialRemove => RevokedExact(h, wallet, p.target.value, ApplyCustody(h, p, c).value);
    case WalletRecovery => RecoveryExact(h, wallet, c);
    case WalletDelete => DeletionExact(h, wallet);
    case _ =>
  }

  // ---------------------------------------------------------------- steps

  predicate StrayRemoval(s: Service, c: Command) {
    && c.CompleteCmd? && CommitOf(s, c).Some? && c.completion.kind != SealedApproval
    && StrayTarget(HoldingsOf(s), s.pending[c.completion.operation])
  }

  /** A step keeps bindings exact if and only if it is not such a removal. */
  lemma StepKeepsBindingsExactly(s: Service, c: Command)
    requires Invariant(s) && Exact(HoldingsOf(s))
    ensures Exact(HoldingsOf(Step(s, c))) <==> !StrayRemoval(s, c)
  {
    if CommitOf(s, c).None? {
      StepWithoutCommit(s, c);
    } else {
      StepCommits(s, c);
      match c
      case CompleteCmd(q) =>
        if q.kind != SealedApproval {
          ApplyExact(HoldingsOf(s), s.pending[q.operation], q);
        }
      case PairDestinationCmd(q) =>
        var pair := Pairing.Retained(s.pairs, q.now)[q.id];
        AttemptKeepsPrepared(s, pair, q);
        EnrolExact(HoldingsOf(s), pair.prepared.value.wallet, pair.unlocked.value, q.newId, q.newKey);
    }
  }

  /** The credential a step enrols, and in which wallet. */
  function Enrolled(s: Service, c: Command): Option<(string, string)> {
    match CommitOf(s, c)
    case None => None
    case Some(k) =>
      match c
      case CompleteCmd(q) =>
        if k.receipt.kind in {WalletRegistration, WalletImport, CredentialAdd, CredentialReplace, WalletRecovery}
        then Some((k.wallet, q.newId)) else None
      case PairDestinationCmd(q) => Some((k.wallet, q.newId))
      case _ => None
  }

  /** The enrolled credential id is unknown to every other wallet. */
  predicate NotReused(s: Service, c: Command) {
    var e := Enrolled(s, c);
    e.Some? ==> forall w :: w in s.wallets && w != e.value.0 ==> !Factors.Known(s.wallets[w].table, e.value.1)
  }

  /** A wallet's known ids after an edit: those it had, and the one enrolled. */
  ghost predicate KnownGrows(h: Holdings, h': Holdings, wallet: string, extra: Option<string>) {
    forall id :: wallet in h'.wallets && Factors.Known(h'.wallets[wallet].table, id) ==>
      (wallet in h.wallets && Factors.Known(h.wallets[wallet].table, id)) || extra == Some(id)
  }

  lemma ApplyKnown(h: Holdings, p: Pending, c: Completion)
    requires ApplyCustody(h, p, c).Some?
    ensures KnownGrows(h, ApplyCustody(h, p, c).value, p.wallet.value,
                       if p.kind in {WalletRegistration, WalletImport, CredentialAdd, CredentialReplace, WalletRecovery}
                       then Some(c.newId) else None)
  {
  }

  lemma SeparateKept(h: Holdings, h': Holdings, kind: Kind, wallet: string, extra: Option<string>)
    requires Separate(h) && OneWalletEdited(h, h', kind, wallet) && KnownGrows(h, h', wallet, extra)
    requires extra.Some? ==> forall w :: w in h.wallets && w != wallet ==> !Factors.Known(h.wallets[w].table, extra.value)
    ensures Separate(h')
  {
  }

  lemma StepKeepsSeparate(s: Service, c: Command)
    requires Invariant(s) && Separate(HoldingsOf(s)) && NotReused(s, c)
    ensures Separate(HoldingsOf(Step(s, c)))
  {
    if CommitOf(s, c).None? {
      StepWithoutCommit(s, c);
    } else {
      StepCommits(s, c);
      var k := CommitOf(s, c).value;
      if k.receipt.kind != SealedApproval {
        CommitEdits(s, c);
        CommitKnown(s, c);
        var e := Enrolled(s, c);
        SeparateKept(HoldingsOf(s), k.holdings, k.receipt.kind, k.wallet, if e.Some? then Some(e.value.1) else None);
      }
    }
  }

  lemma CommitKnown(s: Service, c: Command)
    requires CommitOf(s, c).Some? && CommitOf(s, c).value.receipt.kind != SealedApproval
    ensures var k, e := CommitOf(s, c).value, Enrolled(s, c);
            && (e.Some? ==> e.value.0 == k.wallet)
            && KnownGrows(HoldingsOf(s), k.holdings, k.wallet, if e.Some? then Some(e.value.1) else None)
  {
    match c
    case CompleteCmd(q) => ApplyKnown(HoldingsOf(s), s.pending[q.operation], q);
    case PairDestinationCmd(q) =>
      var pair := Pairing.Retained(s.pairs, q.now)[q.id];
      AttemptKeepsPrepared(s, pair, q);
  }

  lemma NoStrayRemoval(s: Service, c: Command)
    requires Exact(HoldingsOf(s)) && Separate(HoldingsOf(s))
    ensures !StrayRemoval(s, c)
  {
    if StrayRemoval(s, c) {
      var p := s.pending[c.completion.operation];
      var target, other := p.target.value, s.credentials[p.target.value];
      assert IsBound(HoldingsOf(s), target, other);
      assert IsActive(HoldingsOf(s), target, other);
      assert Factors.Known(s.wallets[other].table, target);
      assert false;
    }
  }

  ghost predicate NeverReused(s: Service, commands: seq<Command>)
    decreases |commands|
  {
    commands != [] ==> NotReused(s, commands[0]) && NeverReused(Step(s, commands[0]), commands[1..])
  }

  lemma {:induction false} RunKeepsBindings(s: Service, commands: seq<Command>)
    requires Invariant(s) && Exact(HoldingsOf(s)) && Separate(HoldingsOf(s)) && NeverReused(s, commands)
    ensures Exact(HoldingsOf(Run(s, commands))) && Separate(HoldingsOf(Run(s, commands)))
    decreases |commands|
  {
    if commands != [] {
      var c := commands[0];
      NoStrayRemoval(s, c);
      StepKeepsBindingsExactly(s, c);
      StepKeepsSeparate(s, c);
      StepKeepsInvariant(s, c);
      RunKeepsBindings(Step(s, c), commands[1..]);
    }
  }

  /** From an empty service, in memory and in storage alike. */
  lemma BoundCredentialsAreActiveWraps(commands: seq<Command>, id: string, w: string)
    requires NeverReused(EMPTY, commands)
    ensures var s := Run(EMPTY, commands);
            && (Bound(s, id, w) <==> w in s.wallets && id in s.wallets[w].table.active)
            && s.durable.wallets == s.wallets && s.durable.credentials == s.credentials
  {
    RunKeepsInvariant(EMPTY, commands);
    RunKeepsBindings(EMPTY, commands);
    var h := HoldingsOf(Run(EMPTY, commands));
    assert IsBound(h, id, w) <==> IsActive(h, id, w);
  }
}
