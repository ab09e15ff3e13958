/**
 What the status of an operation can do. For an operation that no pairing uses it moves only
 Missing, Pending, then Completed, Terminal or Missing; Completed is final for every operation.
 */
module CeremonyStatus {
  import opened Wrappers
  import opened CeremonyState
  import opened Ceremony
  import opened CeremonyRuns
  import opened CeremonyTheorems
  import Pairing

  // ---------------------------------------------------------------- receipts

  /** A step writes at most one receipt, under an operation that had none, and rewrites none. */
  lemma ReceiptsKept(s: Service, c: Command)
    requires MemoryIsDurable(s)
    ensures forall op :: op in s.durable.receipts ==>
              op in Step(s, c).durable.receipts && Step(s, c).durable.receipts[op] == s.durable.receipts[op]
    ensures forall op :: op in Step(s, c).durable.receipts && op !in s.durable.receipts ==>
              CommitOf(s, c).Some? && CommitOf(s, c).value.operation == op
  {
    if CommitOf(s, c).Some? {
      StepCommits(s, c);
    } else {
      StepWithoutCommit(s, c);
    }
  }

  lemma RetryIsDurable(s: Service, q: Completion)
    requires CompletedDurable(s) && Retry(s, q).Some? && Retry(s, q).value.Ok?
    ensures q.operation in s.durable.receipts && Retry(s, q).value.value == s.durable.receipts[q.operation]
  {
  }

  /** Whatever a completion answers is the receipt on record. */
  lemma AnswerIsOnRecord(s: Service, q: Completion)
    requires Invariant(s) && Complete(s, q).1.Ok?
    ensures q.operation in Complete(s, q).0.durable.receipts
    ensures Complete(s, q).1.value == Complete(s, q).0.durable.receipts[q.operation]
  {
    if Retry(s, q).Some? {
      RetryIsDurable(s, q);
    } else if Consumes(s, q) {
      if CompletionCommit(s, q).None? {
        CompleteRefused(s, q);
      } else {
        CommitAnswers(s, q);
      }
    }
  }

  lemma CommitAnswers(s: Service, q: Completion)
    requires MemoryIsDurable(s) && CompletionCommit(s, q).Some? && Complete(s, q).1.Ok?
    ensures Complete(s, q).1.value == CompletionCommit(s, q).value.receipt
    ensures Committed(s, CompletionCommit(s, q).value, Complete(s, q).0) && CompletionCommit(s, q).value.operation == q.operation
  {
    CompletionCommits(s, q);
    var p := s.pending[q.operation];
    if q.kind == SealedApproval {
      ApprovalAccepted(Consumed(s, q), p, q);
    } else {
      CustodyAccepted(Consumed(s, q), p, q, CompletionCommit(s, q).value.holdings);
    }
  }

  /** So is what a pairing's destination answers. */
  lemma DestinationAnswerIsOnRecord(s: Service, q: Pairing.DestinationRequest)
    requires MemoryIsDurable(s) && Pairing.CompleteDestination(s, q).1.Ok?
    ensures var (s', r) := Pairing.CompleteDestination(s, q);
            q.operation in s'.durable.receipts && r.value == s'.durable.receipts[q.operation]
  {
  }

  // ---------------------------------------------------------------- one step

  /** Durable outcomes are only ever added, and only for the operation a step names. */
  predicate Records(s: Service, s': Service, op: string) {
    op in s'.durable.statuses && (op !in s.durable.statuses || s'.durable.statuses[op] != s.durable.statuses[op])
  }

  lemma StepRecords(s: Service, c: Command)
    requires MemoryIsDurable(s)
    ensures forall op :: op in s.durable.statuses ==> op in Step(s, c).durable.statuses
    ensures forall op :: Records(s, Step(s, c), op) ==>
              || (c.CompleteCmd? && c.completion.operation == op && op in s.pending && Retry(s, c.completion).None?)
              || (c.CancelCmd? && c.operation == op && (HasPair(s.pairs, op) || op in s.pending))
              || ((c.PairDestinationCmd? || c.PairAlreadyCmd?) && HasPair(s.pairs, op))
  {
    match c
    case PrepareCmd(q) => PrepareFrame(s, q);
    case CompleteCmd(q) => CompletionRecords(s, q);
    case CancelCmd(o, ok) => CancelFrame(s, o, ok);
    case PairDestinationCmd(q) => DestinationRecords(s, q);
    case PairAlreadyCmd(q) => AlreadyRecords(s, q);
    case RestartCmd =>
    case _ => PairStepsFrame(s, c);
  }

  lemma AlreadyRecords(s: Service, q: Pairing.AlreadyRequest)
    ensures forall op :: op in s.durable.statuses ==> op in Pairing.AlreadyRegisteredHere(s, q).0.durable.statuses
    ensures forall op :: Records(s, Pairing.AlreadyRegisteredHere(s, q).0, op) ==> HasPair(s.pairs, op)
  {
    AlreadyFrame(s, q);
  }

  lemma DestinationRecords(s: Service, q: Pairing.DestinationRequest)
    ensures forall op :: op in s.durable.statuses ==> op in Pairing.CompleteDestination(s, q).0.durable.statuses
    ensures forall op :: Records(s, Pairing.CompleteDestination(s, q).0, op) ==> HasPair(s.pairs, op)
  {
    if DestinationCommit(s, q).Some? {
      DestinationCommits(s, q);
      assert s.pairs[q.id].operation == q.operation;
    } else {
      DestinationWithoutCommit(s, q);
    }
  }

  lemma CompletionRecords(s: Service, q: Completion)
    requires MemoryIsDurable(s)
    ensures forall op :: op in s.durable.statuses ==> op in Complete(s, q).0.durable.statuses
    ensures forall op :: Records(s, Complete(s, q).0, op) ==> op == q.operation && Consumes(s, q)
  {
    if CompletionCommit(s, q).Some? {
      CompletionCommits(s, q);
    } else if Consumes(s, q) {
      CompleteRefused(s, q);
    }
  }

  predicate StatusMoves(a: Status, b: Status) {
    || a == b
    || (a.Missing? && b.IsPending?)
    || a.IsPending?
  }

  /**
   One step's effect on the status of any operation. Beyond the ceremony's own edges only a live
   pairing under the same operation can move it, and then only to an outcome; and nothing moves a
   completed one.
   */
  lemma StatusStep(s: Service, c: Command, op: string)
    requires Invariant(s)
    ensures var a, b := StatusOf(s, op), StatusOf(Step(s, c), op);
            || StatusMoves(a, b)
            || (HasPair(s.pairs, op) && !a.CompletedWith? && (b.CompletedWith? || b.Terminal?))
  {
    var s' := Step(s, c);
    var a, b := StatusOf(s, op), StatusOf(s', op);
    StepKeepsInvariant(s, c);
    ReceiptsKept(s, c);
    StepRecords(s, c);
    if op in s.durable.receipts {
      assert a == CompletedWith(s.durable.receipts[op]) == b;
    } else if op in s'.durable.receipts {
      ReceiptNeedsCeremony(s, c);
    } else if op in s'.pending && op !in s.pending {
      PendingFrame(s, c, op);
      PrepareFrame(s, c.prepare);
    } else if op !in s.pending {
      assert op !in s.completed && op !in s'.completed;
      assert Records(s, s', op) ==> HasPair(s.pairs, op);
    }
  }

  /** A receipt comes from an armed ceremony or from a live pairing. */
  lemma ReceiptNeedsCeremony(s: Service, c: Command)
    requires MemoryIsDurable(s) && CommitOf(s, c).Some?
    ensures CommitOf(s, c).value.operation in s.pending || HasPair(s.pairs, CommitOf(s, c).value.operation)
  {
  }

  // ---------------------------------------------------------------- runs

  /** Completed is final, with the same receipt, whatever follows. */
  lemma {:induction false} CompletedForever(s: Service, commands: seq<Command>, op: string)
    requires Invariant(s) && StatusOf(s, op).CompletedWith?
    ensures StatusOf(Run(s, commands), op) == StatusOf(s, op)
    decreases |commands|
  {
    if commands != [] {
      StatusStep(s, commands[0], op);
      StepKeepsInvariant(s, commands[0]);
      CompletedForever(Step(s, commands[0]), commands[1..], op);
    }
  }

  /** No pairing is opened under the operation. */
  predicate Unpaired(commands: seq<Command>, op: string) {
    forall c :: c in commands ==> !(c.PairStartCmd? && c.start.operation == op)
  }

  lemma StaysUnpaired(s: Service, c: Command, op: string)
    requires MemoryIsDurable(s) && !HasPair(s.pairs, op) && !(c.PairStartCmd? && c.start.operation == op)
    ensures !HasPair(Step(s, c).pairs, op)
  {
    if HasPair(Step(s, c).pairs, op) {
      var id :| id in Step(s, c).pairs && Step(s, c).pairs[id].operation == op;
      PairFrame(s, c, id);
      assert false;
    }
  }

  lemma {:induction false} UnpairedForever(s: Service, commands: seq<Command>, op: string)
    requires Invariant(s) && !HasPair(s.pairs, op) && Unpaired(commands, op)
    ensures !HasPair(Run(s, commands).pairs, op)
    decreases |commands|
  {
    if commands != [] {
      StepKeepsInvariant(s, commands[0]);
      StaysUnpaired(s, commands[0], op);
      UnpairedForever(Step(s, commands[0]), commands[1..], op);
    }
  }

  /** After any run, the next step of such an operation is one of the ceremony's own edges. */
  lemma OrdinaryStatusEdges(commands: seq<Command>, c: Command, op: string)
    requires Unpaired(commands, op)
    ensures StatusMoves(StatusOf(Run(EMPTY, commands), op), StatusOf(Step(Run(EMPTY, commands), c), op))
  {
    RunKeepsInvariant(EMPTY, commands);
    UnpairedForever(EMPTY, commands, op);
    StatusStep(Run(EMPTY, commands), c, op);
  }

  // ---------------------------------------------------------------- refusals

  /**
   A completion that commits nothing ends its ceremony: while storage works the operation becomes
   Expired past its deadline and Failed before it, and never goes missing.
   */
  lemma RefusedCompletionIsTerminal(s: Service, q: Completion)
    requires Invariant(s) && Consumes(s, q) && CompletionCommit(s, q).None? && q.operation !in s.durable.receipts && q.statusOk
    ensures Complete(s, q).1.Err?
    ensures StatusOf(Complete(s, q).0, q.operation) == Terminal(if s.pending[q.operation].expires <= q.now then Expired else Failed)
  {
    CompleteRefused(s, q);
    TerminalizedStatus(Consumed(s, q), s.pending[q.operation], q);
  }

  lemma TerminalizedStatus(s: Service, p: Pending, q: Completion)
    requires q.operation !in s.completed && q.operation !in s.durable.receipts && q.operation !in s.pending && q.statusOk
    ensures StatusOf(Terminalize(s, p, q), q.operation) == Terminal(if p.expires <= q.now then Expired else Failed)
  {
    var state := if p.expires <= q.now then Expired else Failed;
    assert Terminalize(s, p, q) == s.(durable := s.durable.(statuses := s.durable.statuses[q.operation := state]));
  }

  /** An accepted cancellation leaves an armed, unpaired ceremony without a receipt Cancelled. */
  lemma CancelEndsCeremony(s: Service, op: string, statusOk: bool)
    requires Invariant(s) && !HasPair(s.pairs, op)
    ensures Cancel(s, op, statusOk).1.Ok? && op !in s.durable.receipts ==>
              var after := StatusOf(Cancel(s, op, statusOk).0, op);
              after.Terminal? && (StatusOf(s, op).IsPending? ==> after.state == Cancelled)
  {
  }

  /**
   Cancelling a completed, unpaired operation is refused and changes nothing if and only if the
   process remembers the completion or the operation is no longer armed.
   */
  lemma CompletedRefusesCancelExactly(s: Service, op: string, statusOk: bool)
    requires Invariant(s) && !HasPair(s.pairs, op) && StatusOf(s, op).CompletedWith?
    ensures Cancel(s, op, statusOk) == (s, Err(CommittedConflict)) <==> op in s.completed || op !in s.pending
  {
  }
}
