/**
 The ceremony service's promises over every step and every run.
 */
module CeremonyTheorems {
  import opened Wrappers
  import opened CeremonyState
  import opened Ceremony
  import opened CeremonyRuns
  import Pairing

  predicate RecoveryOf(k: Option<Commit>, wallet: string) {
    k.Some? && k.value.receipt.kind == WalletRecovery && k.value.wallet == wallet
  }

  // ---------------------------------------------------------------- the generation fence

  /**
   Every commit was prepared at the generation that is current when it commits, and it moves the
   durable generation of exactly its own wallet, by exactly one, exactly when it is a recovery.
   */
  lemma CommitAtCurrentGeneration(s: Service, c: Command)
    requires Invariant(s) && CommitOf(s, c).Some?
    ensures CommitOf(s, c).value.generation == Fence(s.durable, CommitOf(s, c).value.wallet)
    ensures forall w :: Fence(Step(s, c).durable, w)
                        == Fence(s.durable, w) + if RecoveryOf(CommitOf(s, c), w) then 1 else 0
  {
    var k := CommitOf(s, c).value;
    StepCommits(s, c);
    if k.receipt.kind != SealedApproval {
      CommitEdits(s, c);
      FenceAfterEdit(s, k, Step(s, c));
    }
  }

  lemma FenceAfterEdit(s: Service, k: Commit, s': Service)
    requires Fenced(s) && k.receipt.kind != SealedApproval && Committed(s, k, s')
    requires OneWalletEdited(HoldingsOf(s), k.holdings, k.receipt.kind, k.wallet)
    ensures k.generation == Fence(s.durable, k.wallet)
    ensures forall w :: Fence(s'.durable, w) == Fence(s.durable, w) + if RecoveryOf(Some(k), w) then 1 else 0
  {
  }

  lemma FenceStep(s: Service, c: Command, wallet: string)
    requires Invariant(s)
    ensures Fence(Step(s, c).durable, wallet) == Fence(s.durable, wallet) + if RecoveryOf(CommitOf(s, c), wallet) then 1 else 0
  {
    if CommitOf(s, c).Some? {
      CommitAtCurrentGeneration(s, c);
    } else {
      StepWithoutCommit(s, c);
    }
  }

  // ---------------------------------------------------------------- preservation

  lemma KeepsMemory(s: Service, c: Command)
    requires MemoryIsDurable(s)
    ensures MemoryIsDurable(Step(s, c))
  {
    if CommitOf(s, c).Some? {
      StepCommits(s, c);
    } else {
      StepWithoutCommit(s, c);
    }
  }

  lemma KeepsFenced(s: Service, c: Command)
    requires Invariant(s)
    ensures Fenced(Step(s, c))
  {
    var s' := Step(s, c);
    if CommitOf(s, c).Some? {
      StepCommits(s, c);
      var k := CommitOf(s, c).value;
      if k.receipt.kind != SealedApproval {
        forall w | w in s'.wallets ensures s'.wallets[w].table.generation == Fence(s'.durable, w) {
          assert w in k.holdings.wallets;
        }
      }
    } else {
      StepWithoutCommit(s, c);
    }
  }

  lemma KeepsCompleted(s: Service, c: Command)
    requires MemoryIsDurable(s) && CompletedDurable(s)
    ensures CompletedDurable(Step(s, c))
  {
    if CommitOf(s, c).Some? {
      StepCommits(s, c);
    } else {
      StepWithoutCommit(s, c);
    }
  }

  /** A step arms at most one ceremony, at the generation in force. */
  lemma PendingFrame(s: Service, c: Command, op: string)
    requires MemoryIsDurable(s) && op in Step(s, c).pending
    ensures (op in s.pending && Step(s, c).pending[op] == s.pending[op])
            || (c.PrepareCmd? && c.prepare.operation == op
                && Step(s, c).pending[op].generation == AuthorityGeneration(s, Step(s, c).pending[op].wallet))
  {
    match c
    case PrepareCmd(q) => PrepareFrame(s, q);
    case CompleteCmd(q) =>
      if CompletionCommit(s, q).Some? {
        CompletionCommits(s, q);
      } else {
        CompleteWithoutCommit(s, q);
      }
    case CancelCmd(o, ok) => CancelFrame(s, o, ok);
    case PairDestinationCmd(q) =>
      if DestinationCommit(s, q).Some? {
        DestinationCommits(s, q);
      } else {
        DestinationWithoutCommit(s, q);
      }
    case PairAlreadyCmd(q) => AlreadyFrame(s, q);
    case RestartCmd =>
    case _ => PairStepsFrame(s, c);
  }

  lemma KeepsPendingFenced(s: Service, c: Command)
    requires Invariant(s)
    ensures PendingFenced(Step(s, c))
  {
    var s' := Step(s, c);
    forall op | op in s'.pending && s'.pending[op].wallet.Some?
      ensures s'.pending[op].generation <= Fence(s'.durable, s'.pending[op].wallet.value)
    {
      PendingFrame(s, c, op);
      FenceStep(s, c, s'.pending[op].wallet.value);
    }
  }

  /** A step opens at most one pairing and prepares at most one, at the generation in force. */
  predicate PairDescends(s: Service, c: Command, id: string, pair: Pair) {
    || (id in s.pairs && pair.operation == s.pairs[id].operation
        && (pair.prepared == s.pairs[id].prepared
            || (c.PairPrepareCmd? && c.sourcePrepare.id == id && pair.prepared.Some?
                && pair.prepared.value.generation == AuthorityGeneration(s, Some(pair.prepared.value.wallet)))))
    || (c.PairStartCmd? && c.start.id == id && pair == Pairing.NewPair(c.start) && Unopened(s.durable, pair.operation))
  }

  lemma PairFrame(s: Service, c: Command, id: string)
    requires MemoryIsDurable(s) && id in Step(s, c).pairs
    ensures PairDescends(s, c, id, Step(s, c).pairs[id])
  {
    match c
    case PairDestinationCmd(q) => DestinationPairFrame(s, q, id);
    case PairSourceCmd(q) => SourcePairFrame(s, q, id);
    case PairStartCmd(q) => StartPairFrame(s, q, id);
    case PairPrepareCmd(q) => PreparePairFrame(s, q, id);
    case _ => OtherPairFrame(s, c, id);
  }

  /** The other commands only drop pairings. */
  lemma OtherPairFrame(s: Service, c: Command, id: string)
    requires MemoryIsDurable(s) && id in Step(s, c).pairs
    requires !c.PairDestinationCmd? && !c.PairSourceCmd? && !c.PairStartCmd? && !c.PairPrepareCmd?
    ensures id in s.pairs && Step(s, c).pairs[id] == s.pairs[id]
  {
    match c
    case PrepareCmd(q) => PrepareFrame(s, q);
    case CompleteCmd(q) => CompletePairFrame(s, q);
    case CancelCmd(o, ok) => CancelFrame(s, o, ok);
    case PairAlreadyCmd(q) => AlreadyFrame(s, q);
    case ExpireCmd(_) =>
    case ClearCmd =>
    case RestartCmd =>
  }

  lemma CompletePairFrame(s: Service, q: Completion)
    requires MemoryIsDurable(s)
    ensures Complete(s, q).0.pairs == s.pairs
  {
    if CompletionCommit(s, q).Some? {
      CompletionCommits(s, q);
    } else {
      CompleteWithoutCommit(s, q);
    }
  }

  lemma StartPairFrame(s: Service, q: Pairing.StartRequest, id: string)
    requires id in Pairing.Start(s, q).0.pairs
    ensures PairDescends(s, PairStartCmd(q), id, Pairing.Start(s, q).0.pairs[id])
  {
    OpenPairFrame(Pairing.Unexpired(s.pairs, q.now), q);
  }

  lemma OpenPairFrame(kept: map<string, Pair>, q: Pairing.StartRequest)
    ensures Pairing.OpenPair(kept, q).0 == kept || Pairing.OpenPair(kept, q).0 == kept[q.id := Pairing.NewPair(q)]
  {
  }

  lemma PreparePairFrame(s: Service, q: Pairing.SourcePrepareRequest, id: string)
    requires id in Pairing.PrepareSource(s, q).0.pairs
    ensures PairDescends(s, PairPrepareCmd(q), id, Pairing.PrepareSource(s, q).0.pairs[id])
  {
  }

  lemma AttemptSourceKeeps(s: Service, pair: Pair, q: Pairing.SourceRequest)
    ensures var pair' := Pairing.AttemptSource(s, pair, q).0;
            pair'.operation == pair.operation && pair'.prepared == pair.prepared
  {
  }

  lemma SourcePairFrame(s: Service, q: Pairing.SourceRequest, id: string)
    requires id in Pairing.CompleteSource(s, q).0.pairs
    ensures var pair := Pairing.CompleteSource(s, q).0.pairs[id];
            id in s.pairs && pair.operation == s.pairs[id].operation && pair.prepared == s.pairs[id].prepared
  {
    if q.id in s.pairs {
      AttemptSourceKeeps(s, s.pairs[q.id], q);
    }
  }

  lemma DestinationPairFrame(s: Service, q: Pairing.DestinationRequest, id: string)
    requires id in Pairing.CompleteDestination(s, q).0.pairs
    ensures var pair := Pairing.CompleteDestination(s, q).0.pairs[id];
            id in s.pairs && pair.operation == s.pairs[id].operation && pair.prepared == s.pairs[id].prepared
  {
    var kept := Pairing.Retained(s.pairs, q.now);
    DestinationShapes(s, q);
    if q.id in kept {
      AttemptKeepsPrepared(s, kept[q.id], q);
    }
  }

  lemma KeepsPairsFenced(s: Service, c: Command)
    requires Invariant(s)
    ensures PairsFenced(Step(s, c))
  {
    var s' := Step(s, c);
    forall id | id in s'.pairs && s'.pairs[id].prepared.Some?
      ensures s'.pairs[id].prepared.value.generation <= Fence(s'.durable, s'.pairs[id].prepared.value.wallet)
    {
      PairFrame(s, c, id);
      FenceStep(s, c, s'.pairs[id].prepared.value.wallet);
    }
  }

  lemma StepKeepsInvariant(s: Service, c: Command)
    requires Invariant(s)
    ensures Invariant(Step(s, c))
  {
    KeepsMemory(s, c);
    KeepsFenced(s, c);
    KeepsCompleted(s, c);
    KeepsPendingFenced(s, c);
    KeepsPairsFenced(s, c);
  }

  /** Every run keeps memory equal to storage and every stored wallet equal to the fence. */
  lemma {:induction false} RunKeepsInvariant(s: Service, commands: seq<Command>)
    requires Invariant(s)
    ensures Invariant(Run(s, commands))
    decreases |commands|
  {
    if commands != [] {
      StepKeepsInvariant(s, commands[0]);
      RunKeepsInvariant(Step(s, commands[0]), commands[1..]);
    }
  }

  /** So the service can always start again, and starts with the wallets and bindings it had. */
  lemma RestartLosesNothingDurable(commands: seq<Command>)
    ensures var s := Run(EMPTY, commands);
            && CanStart(s.durable)
            && Restart(s).wallets == s.wallets && Restart(s).credentials == s.credentials
            && Restart(s).durable == s.durable
  {
    RunKeepsInvariant(EMPTY, commands);
  }

  function Recoveries(s: Service, commands: seq<Command>, wallet: string): nat
    decreases |commands|
  {
    if commands == [] then 0
    else (if RecoveryOf(CommitOf(s, commands[0]), wallet) then 1 else 0) + Recoveries(Step(s, commands[0]), commands[1..], wallet)
  }

  /** The durable generation counts the committed recoveries, across deletion and restart alike. */
  lemma {:induction false} GenerationCountsRecoveries(s: Service, commands: seq<Command>, wallet: string)
    requires Invariant(s)
    ensures Fence(Run(s, commands).durable, wallet) == Fence(s.durable, wallet) + Recoveries(s, commands, wallet)
    decreases |commands|
  {
    if commands != [] {
      FenceStep(s, commands[0], wallet);
      StepKeepsInvariant(s, commands[0]);
      GenerationCountsRecoveries(Step(s, commands[0]), commands[1..], wallet);
    }
  }

  /** Storage with one wallet's backup put back as it was. */
  function RolledBack(d: Durable, wallet: string, earlier: Wallet): Durable {
    d.(wallets := d.wallets[wallet := earlier])
  }

  /**
   An earlier backup of a wallet put back into storage, even of one deleted since, passes the check at the next start
   exactly when no recovery of the wallet was committed in between; credentials changed since are not noticed.
   */
  lemma RollbackRefusedExactly(s: Service, commands: seq<Command>, wallet: string)
    requires Invariant(s) && wallet in s.durable.wallets
    ensures CanStart(RolledBack(Run(s, commands).durable, wallet, s.durable.wallets[wallet]))
            <==> Recoveries(s, commands, wallet) == 0
  {
    var t := Run(s, commands);
    var d := RolledBack(t.durable, wallet, s.durable.wallets[wallet]);
    RunKeepsInvariant(s, commands);
    GenerationCountsRecoveries(s, commands, wallet);
    assert forall w :: Fence(d, w) == Fence(t.durable, w);
    if Recoveries(s, commands, wallet) > 0 {
      assert d.wallets[wallet].table.generation != Fence(d, wallet);
    }
  }

  /** A ceremony still armed after a recovery of its wallet can never commit. */
  lemma ArmedBeforeRecoveryNeverCommits(s: Service, commands: seq<Command>, op: string, q: Completion)
    requires Invariant(s) && op in s.pending && s.pending[op].wallet.Some? && q.operation == op
    requires Recoveries(s, commands, s.pending[op].wallet.value) > 0
    ensures var t := Run(s, commands);
            op in t.pending && t.pending[op] == s.pending[op] ==> CommitOf(t, CompleteCmd(q)).None?
  {
    var t := Run(s, commands);
    RunKeepsInvariant(s, commands);
    GenerationCountsRecoveries(s, commands, s.pending[op].wallet.value);
    if CommitOf(t, CompleteCmd(q)).Some? {
      CommitAtCurrentGeneration(t, CompleteCmd(q));
    }
  }

  /** Nor can a pairing prepared before it. */
  lemma PairedBeforeRecoveryNeverCommits(s: Service, commands: seq<Command>, id: string, q: Pairing.DestinationRequest)
    requires Invariant(s) && id in s.pairs && s.pairs[id].prepared.Some? && q.id == id
    requires Recoveries(s, commands, s.pairs[id].prepared.value.wallet) > 0
    ensures var t := Run(s, commands);
            id in t.pairs && t.pairs[id].prepared == s.pairs[id].prepared ==> CommitOf(t, PairDestinationCmd(q)).None?
  {
    var t := Run(s, commands);
    RunKeepsInvariant(s, commands);
    GenerationCountsRecoveries(s, commands, s.pairs[id].prepared.value.wallet);
    if id in t.pairs && t.pairs[id].prepared == s.pairs[id].prepared && CommitOf(t, PairDestinationCmd(q)).Some? {
      CommitAtCurrentGeneration(t, PairDestinationCmd(q));
      AttemptKeepsPrepared(t, Pairing.Retained(t.pairs, q.now)[id], q);
    }
  }
}
