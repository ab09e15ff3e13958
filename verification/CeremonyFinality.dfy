/**
 When outcomes hold: a terminal one exactly while no live pairing shares its operation id, and a
 completed one withstands cancellation exactly when it is remembered, still paired or not armed.
 */
module CeremonyFinality {
  import opened Wrappers
  import opened CeremonyState
  import opened Ceremony
  import opened CeremonyRuns
  import opened CeremonyTheorems
  import opened CeremonyStatus
  import Pairing
  import PairingTheorems

  predicate Ended(state: PublicState) { state == Cancelled || state == AlreadyRegistered }

  /** The two outcomes that end a pairing leave none behind. */
  ghost predicate EndedUnpaired(s: Service) {
    forall op :: op in s.durable.statuses && Ended(s.durable.statuses[op]) ==> !HasPair(s.pairs, op)
  }

  /** The outcomes a completion records do not end pairings. */
  lemma CompletionEndsNothing(s: Service, q: Completion)
    requires MemoryIsDurable(s) && Records(s, Complete(s, q).0, q.operation)
    ensures !Ended(Complete(s, q).0.durable.statuses[q.operation])
  {
    if CompletionCommit(s, q).Some? {
      CompletionCommits(s, q);
    } else if Consumes(s, q) {
      CompleteRefused(s, q);
    }
  }

  lemma DestinationEndsNothing(s: Service, q: Pairing.DestinationRequest, op: string)
    requires Records(s, Pairing.CompleteDestination(s, q).0, op)
    ensures !Ended(Pairing.CompleteDestination(s, q).0.durable.statuses[op])
  {
    if DestinationCommit(s, q).Some? {
      DestinationCommits(s, q);
    } else {
      DestinationWithoutCommit(s, q);
    }
  }

  lemma CancelRemovesPair(s: Service, o: string, ok: bool, op: string)
    requires Records(s, Cancel(s, o, ok).0, op)
    ensures op == o && !HasPair(Cancel(s, o, ok).0.pairs, op)
  {
  }

  lemma AlreadyRemovesPair(s: Service, q: Pairing.AlreadyRequest, op: string)
    requires PairingTheorems.OperationsDistinct(s.pairs) && Records(s, Pairing.AlreadyRegisteredHere(s, q).0, op)
    ensures !HasPair(Pairing.AlreadyRegisteredHere(s, q).0.pairs, op)
  {
    AlreadyFrame(s, q);
  }

  lemma OthersRecordNothing(s: Service, c: Command, op: string)
    requires c.PrepareCmd? || c.RestartCmd? || OnlyPairs(c)
    ensures !Records(s, Step(s, c), op)
  {
    match c
    case PrepareCmd(q) => PrepareFrame(s, q);
    case RestartCmd =>
    case _ => PairStepsFrame(s, c);
  }

  /** Whoever records such an outcome has removed the pairing. */
  lemma EndingRemovesPair(s: Service, c: Command, op: string)
    requires Invariant(s) && PairingTheorems.OperationsDistinct(s.pairs)
    requires Records(s, Step(s, c), op) && Ended(Step(s, c).durable.statuses[op])
    ensures !HasPair(Step(s, c).pairs, op)
  {
    match c
    case CompleteCmd(q) =>
      CompletionRecords(s, q);
      CompletionEndsNothing(s, q);
    case CancelCmd(o, ok) => CancelRemovesPair(s, o, ok, op);
    case PairAlreadyCmd(q) => AlreadyRemovesPair(s, q, op);
    case PairDestinationCmd(q) => DestinationEndsNothing(s, q, op);
    case _ => OthersRecordNothing(s, c, op);
  }

  lemma StepKeepsEndedUnpaired(s: Service, c: Command)
    requires Invariant(s) && PairingTheorems.OperationsDistinct(s.pairs) && EndedUnpaired(s)
    ensures EndedUnpaired(Step(s, c))
  {
    var s' := Step(s, c);
    forall op | op in s'.durable.statuses && Ended(s'.durable.statuses[op]) ensures !HasPair(s'.pairs, op) {
      if Records(s, s', op) {
        EndingRemovesPair(s, c, op);
      } else {
        ClosedStaysUnpaired(s, c, op);
      }
    }
  }

  /** No pairing opens under an operation with a durable outcome. */
  lemma ClosedStaysUnpaired(s: Service, c: Command, op: string)
    requires MemoryIsDurable(s) && !Unopened(s.durable, op) && !HasPair(s.pairs, op)
    ensures !HasPair(Step(s, c).pairs, op)
  {
    if HasPair(Step(s, c).pairs, op) {
      var id :| id in Step(s, c).pairs && Step(s, c).pairs[id].operation == op;
      PairFrame(s, c, id);
      assert false;
    }
  }

  lemma {:induction false} RunEndedUnpaired(s: Service, commands: seq<Command>)
    requires Invariant(s) && PairingTheorems.Bounded(s.pairs) && EndedUnpaired(s)
    ensures EndedUnpaired(Run(s, commands))
    decreases |commands|
  {
    if commands != [] {
      StepKeepsEndedUnpaired(s, commands[0]);
      StepKeepsInvariant(s, commands[0]);
      PairingTheorems.StepBounded(s, commands[0]);
      RunEndedUnpaired(Step(s, commands[0]), commands[1..]);
    }
  }

  /** A terminal outcome without a live pairing is final over every run. */
  lemma {:induction false} TerminalForever(s: Service, commands: seq<Command>, op: string)
    requires Invariant(s) && StatusOf(s, op).Terminal? && !HasPair(s.pairs, op)
    ensures StatusOf(Run(s, commands), op) == StatusOf(s, op)
    decreases |commands|
  {
    if commands != [] {
      StatusStep(s, commands[0], op);
      StepKeepsInvariant(s, commands[0]);
      ClosedStaysUnpaired(s, commands[0], op);
      TerminalForever(Step(s, commands[0]), commands[1..], op);
    }
  }

  /** With one, cancelling the pairing moves it, whatever it was. */
  lemma PairMovesTerminal(s: Service, op: string)
    requires Invariant(s) && EndedUnpaired(s) && StatusOf(s, op).Terminal? && HasPair(s.pairs, op)
    ensures StatusOf(Step(s, CancelCmd(op, true)), op) == Terminal(Cancelled) != StatusOf(s, op)
  {
  }

  ghost predicate Final(s: Service, op: string) {
    forall commands :: StatusOf(Run(s, commands), op) == StatusOf(s, op)
  }

  /** In every reachable state a terminal outcome is final if and only if no live pairing shares its operation. */
  lemma TerminalFinalExactly(history: seq<Command>, op: string)
    requires StatusOf(Run(EMPTY, history), op).Terminal?
    ensures Final(Run(EMPTY, history), op) <==> !HasPair(Run(EMPTY, history).pairs, op)
  {
    var s := Run(EMPTY, history);
    RunKeepsInvariant(EMPTY, history);
    RunEndedUnpaired(EMPTY, history);
    FinalExactly(s, op);
  }

  lemma FinalExactly(s: Service, op: string)
    requires Invariant(s) && EndedUnpaired(s) && StatusOf(s, op).Terminal?
    ensures Final(s, op) <==> !HasPair(s.pairs, op)
  {
    if HasPair(s.pairs, op) {
      PairMovesTerminal(s, op);
      RunOne(s, CancelCmd(op, true));
    } else {
      forall commands ensures StatusOf(Run(s, commands), op) == StatusOf(s, op) {
        TerminalForever(s, commands, op);
      }
    }
  }

  lemma RunOne(s: Service, c: Command)
    ensures Run(s, [c]) == Step(s, c)
  {
    assert [c][1..] == [];
    assert Run(s, [c]) == Run(Step(s, c), [c][1..]);
  }

  // ---------------------------------------------------------------- cancelling what is completed

  /** An approval that is completed and still paired is one the process remembers. */
  ghost predicate ApprovalsRemembered(s: Service) {
    forall op :: op in s.durable.receipts && IsApproval(s.durable.receipts[op]) && HasPair(s.pairs, op) ==> op in s.completed
  }

  lemma CompletedKept(s: Service, c: Command, op: string)
    requires MemoryIsDurable(s) && !c.RestartCmd? && op in s.completed
    ensures op in Step(s, c).completed
  {
    if CommitOf(s, c).Some? {
      StepCommits(s, c);
    } else {
      StepWithoutCommit(s, c);
    }
  }

  /** An approval's commit enters memory with the receipt. */
  lemma ApprovalRemembered(s: Service, q: Completion)
    requires MemoryIsDurable(s) && CompletionCommit(s, q).Some? && IsApproval(CompletionCommit(s, q).value.receipt)
    ensures q.operation in Complete(s, q).0.completed
  {
  }

  lemma ApprovalIsCompletion(s: Service, c: Command)
    requires CommitOf(s, c).Some? && IsApproval(CommitOf(s, c).value.receipt)
    ensures c.CompleteCmd? && CommitOf(s, c).value.operation == c.completion.operation
  {
    if c.PairDestinationCmd? {
      DestinationEnrols(s, c.destination);
    }
  }

  lemma StepRemembersApprovals(s: Service, c: Command)
    requires Invariant(s) && ApprovalsRemembered(s)
    ensures ApprovalsRemembered(Step(s, c))
  {
    var s' := Step(s, c);
    forall op | op in s'.durable.receipts && IsApproval(s'.durable.receipts[op]) && HasPair(s'.pairs, op) ensures op in s'.completed {
      ReceiptsKept(s, c);
      if op in s.durable.receipts {
        if !HasPair(s.pairs, op) {
          ClosedStaysUnpaired(s, c, op);
        }
        CompletedKept(s, c, op);
      } else {
        StepCommits(s, c);
        ApprovalIsCompletion(s, c);
        ApprovalRemembered(s, c.completion);
      }
    }
  }

  lemma {:induction false} RunRemembersApprovals(s: Service, commands: seq<Command>)
    requires Invariant(s) && ApprovalsRemembered(s)
    ensures ApprovalsRemembered(Run(s, commands))
    decreases |commands|
  {
    if commands != [] {
      StepRemembersApprovals(s, commands[0]);
      StepKeepsInvariant(s, commands[0]);
      RunRemembersApprovals(Step(s, commands[0]), commands[1..]);
    }
  }

  lemma PairedRefusesCancel(s: Service, op: string, statusOk: bool)
    requires Invariant(s) && ApprovalsRemembered(s) && HasPair(s.pairs, op) && StatusOf(s, op).CompletedWith?
    ensures Cancel(s, op, statusOk) == (s, Err(CommittedConflict))
  {
  }

  /**
   In every reachable state, cancelling a completed operation is refused with nothing changed if and
   only if the process remembers the completion, a pairing is live under it, or it is not armed.
   */
  lemma CancelRefusedExactly(history: seq<Command>, op: string, statusOk: bool)
    requires StatusOf(Run(EMPTY, history), op).CompletedWith?
    ensures var s := Run(EMPTY, history);
            Cancel(s, op, statusOk) == (s, Err(CommittedConflict)) <==> op in s.completed || HasPair(s.pairs, op) || op !in s.pending
  {
    RunKeepsInvariant(EMPTY, history);
    RunRemembersApprovals(EMPTY, history);
    var s := Run(EMPTY, history);
    if HasPair(s.pairs, op) {
      PairedRefusesCancel(s, op, statusOk);
    } else {
      CompletedRefusesCancelExactly(s, op, statusOk);
    }
  }
}
