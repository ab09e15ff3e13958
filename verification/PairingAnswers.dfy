/**
 When a pairing opens, is prepared, unlocks, enrols and ends, told in the fields of the service's
 state and the request, and that over every run nothing of it happens past its deadline.
 */
module PairingAnswers {
  import opened Limits
  import opened Wrappers
  import opened CeremonyState
  import opened CeremonyRuns
  import opened CeremonyTheorems
  import opened CeremonyAnswers
  import Ceremony
  import Pairing
  import Custody
  import PairingTheorems

  const TEN_MINUTES: nat := 600_000

  /** A pairing that has neither expired nor used up its attempts. */
  predicate Usable(s: Service, id: string, now: nat) {
    id in s.pairs && now < s.pairs[id].expires && s.pairs[id].attempts < 5
  }

  // ---------------------------------------------------------------- opening

  /** The same opening again. */
  predicate Repeats(p: Pair, q: Pairing.StartRequest) {
    && p.operation == q.operation && p.destination == q.destination && p.terms == q.terms
    && p.publicKey == q.publicKey && p.expires == q.expires
  }

  function LivePairs(pairs: map<string, Pair>, now: nat): set<string> { set id | id in pairs && now < pairs[id].expires }

  /** A request in time: unexpired, and at most ten minutes ahead of a 64-bit clock. */
  predicate InTime(q: Pairing.StartRequest) {
    q.now < q.expires && q.expires <= q.now + TEN_MINUTES && q.expires <= U64_MAX
  }

  lemma LiveIsUnexpired(pairs: map<string, Pair>, now: nat)
    ensures LivePairs(pairs, now) == Pairing.Unexpired(pairs, now).Keys
    ensures |LivePairs(pairs, now)| == |Pairing.Unexpired(pairs, now)|
  {
    var m := Pairing.Unexpired(pairs, now);
    assert |m| == |m.Keys|;
  }

  /**
   A pairing opens if and only if the surface and key are fit, its deadline lies within ten minutes,
   its operation is unrecorded and free among the live pairings, and fewer than 64 are live; the same
   request for a live one is answered again.
   */
  lemma StartExactly(s: Service, q: Pairing.StartRequest)
    ensures Pairing.Start(s, q).1.Ok?
            <==> && q.surfaceOk && q.keyOk && InTime(q)
                 && q.operation !in s.durable.receipts && q.operation !in s.durable.statuses
                 && ((exists id :: id in LivePairs(s.pairs, q.now) && Repeats(s.pairs[id], q))
                     || ((forall id :: id in LivePairs(s.pairs, q.now) ==> s.pairs[id].operation != q.operation)
                         && |LivePairs(s.pairs, q.now)| < 64))
  {
    LiveIsUnexpired(s.pairs, q.now);
    var kept := Pairing.Unexpired(s.pairs, q.now);
    assert Pairing.HasStart(kept, q) <==> exists id :: id in LivePairs(s.pairs, q.now) && Repeats(s.pairs[id], q) by {
      if Pairing.HasStart(kept, q) {
        var id :| id in kept && Pairing.SameStart(kept[id], q);
        assert id in LivePairs(s.pairs, q.now) && Repeats(s.pairs[id], q);
      }
      if id :| id in LivePairs(s.pairs, q.now) && Repeats(s.pairs[id], q) {
        assert Pairing.SameStart(kept[id], q);
      }
    }
    assert HasPair(kept, q.operation) <==> exists id :: id in LivePairs(s.pairs, q.now) && s.pairs[id].operation == q.operation;
  }

  function Live(pairs: map<string, Pair>, now: nat): map<string, Pair> { map id | id in pairs && now < pairs[id].expires :: pairs[id] }

  /** What an opening leaves: the live pairings, and the new one with nothing prepared. */
  lemma StartLeaves(s: Service, q: Pairing.StartRequest)
    ensures var s' := Pairing.Start(s, q).0;
            if !q.surfaceOk || !q.keyOk || !InTime(q) || q.operation in s.durable.receipts || q.operation in s.durable.statuses then s' == s
            else if Pairing.Start(s, q).1.Ok? && forall id :: id in LivePairs(s.pairs, q.now) ==> !Repeats(s.pairs[id], q) then
              s' == s.(pairs := Live(s.pairs, q.now)[q.id :=
                Pair(q.operation, q.destination, q.terms, q.publicKey, q.expires, None, false, false, None, None, None, false, None, 0)])
            else s' == s.(pairs := Live(s.pairs, q.now))
  {
    var kept := Pairing.Unexpired(s.pairs, q.now);
    assert kept == Live(s.pairs, q.now);
    assert Pairing.HasStart(kept, q) <==> exists id :: id in LivePairs(s.pairs, q.now) && Repeats(s.pairs[id], q) by {
      if Pairing.HasStart(kept, q) {
        var id :| id in kept && Pairing.SameStart(kept[id], q);
        assert id in LivePairs(s.pairs, q.now) && Repeats(s.pairs[id], q);
      }
      if id :| id in LivePairs(s.pairs, q.now) && Repeats(s.pairs[id], q) {
        assert Pairing.SameStart(kept[id], q);
      }
    }
  }

  // ---------------------------------------------------------------- preparing the source

  predicate BoundTo(s: Service, id: string, wallet: string) { id in s.credentials && s.credentials[id] == wallet }

  /** Another pairing of the wallet holds it unlocked or has handed out a capability. */
  predicate BusyElsewhere(s: Service, wallet: string, id: string) {
    exists other :: other in s.pairs && other != id && (s.pairs[other].unlocked.Some? || s.pairs[other].handoff)
                    && s.pairs[other].prepared.Some? && s.pairs[other].prepared.value.wallet == wallet
  }

  predicate PreparesNow(s: Service, q: Pairing.SourcePrepareRequest) {
    && q.sourceOk && q.wallet in s.wallets && !BusyElsewhere(s, q.wallet, q.id)
    && q.id in s.pairs && q.now < s.pairs[q.id].expires
    && s.pairs[q.id].operation == q.operation && s.pairs[q.id].terms == q.terms
  }

  /**
   A pairing is prepared if and only if the wallet exists and is not busy in another, the pairing is
   unexpired and of this operation and terms, and the source surface offers a credential of the
   wallet; a prepared one is answered again to its own surface and wallet.
   */
  lemma PrepareSourceExactly(s: Service, q: Pairing.SourcePrepareRequest)
    ensures Pairing.PrepareSource(s, q).1.Ok?
            <==> PreparesNow(s, q)
                 && if s.pairs[q.id].prepared.Some? then
                      s.pairs[q.id].prepared.value.surface == q.surface && s.pairs[q.id].prepared.value.wallet == q.wallet
                    else q.destinationOk && exists id :: id in q.sources && BoundTo(s, id, q.wallet)
    ensures var s' := Pairing.PrepareSource(s, q).0;
            if Pairing.PrepareSource(s, q).1.Ok? && s.pairs[q.id].prepared.None? then
              var prepared := Prepared(q.surface, q.wallet, GenerationNow(s.wallets, Some(q.wallet)),
                                       (set id | id in q.sources && BoundTo(s, id, q.wallet)), q.hasExisting);
              && Pairing.PrepareSource(s, q).1.value == prepared
              && s' == s.(pairs := s.pairs[q.id := s.pairs[q.id].(prepared := Some(prepared), sourceRecipient := true,
                                                                  destinationRecipient := true)])
            else s' == s
  {
    assert Pairing.BusyWallet(s.pairs, q.wallet, q.id) <==> BusyElsewhere(s, q.wallet, q.id);
    var offered := set id | id in q.sources && BoundTo(s, id, q.wallet);
    assert Pairing.OfferedSources(s, q) == offered;
    assert offered != {} <==> exists id :: id in q.sources && BoundTo(s, id, q.wallet) by {
      if id :| id in q.sources && BoundTo(s, id, q.wallet) {
        assert id in offered;
      }
      if offered != {} {
        var id :| id in offered;
        assert BoundTo(s, id, q.wallet);
      }
    }
  }

  // ---------------------------------------------------------------- the source leg

  function UsablePairs(s: Service, now: nat): map<string, Pair> { map id | Usable(s, id, now) && id in s.pairs :: s.pairs[id] }

  function UnlockedNow(s: Service, now: nat): set<string> { set id | id in s.pairs && Usable(s, id, now) && s.pairs[id].unlocked.Some? }

  lemma UsableIsRetained(s: Service, now: nat)
    ensures Pairing.Retained(s.pairs, now) == UsablePairs(s, now)
    ensures Pairing.UnlockedPairs(Pairing.Retained(s.pairs, now)) == UnlockedNow(s, now)
  {
  }

  /** A source leg of a usable pairing that has not unlocked yet, with a place among the four unlocked. */
  predicate AttemptsSource(s: Service, q: Pairing.SourceRequest) {
    && Usable(s, q.id, q.now) && s.pairs[q.id].operation == q.operation && !s.pairs[q.id].handoff
    && |UnlockedNow(s, q.now)| < 4
  }

  /** The attempt gets as far as the recipient key. */
  predicate SpendsSource(s: Service, q: Pairing.SourceRequest) {
    && AttemptsSource(s, q)
    && var pair := s.pairs[q.id];
       && pair.prepared.Some? && q.surfaceOk && q.credential in pair.prepared.value.sources
       && GenerationNow(s.wallets, Some(pair.prepared.value.wallet)) == pair.prepared.value.generation
       && q.assertionOk && pair.sourceRecipient
  }

  predicate UnlocksNow(s: Service, q: Pairing.SourceRequest) {
    && SpendsSource(s, q) && q.openOk
    && var wallet := s.pairs[q.id].prepared.value.wallet;
       wallet in s.wallets && q.credential in s.wallets[wallet].table.active && s.wallets[wallet].table.active[q.credential] == q.key
  }

  lemma AttemptSourceExactly(s: Service, q: Pairing.SourceRequest)
    requires AttemptsSource(s, q)
    ensures var pair := s.pairs[q.id];
            var tried := pair.(attempts := pair.attempts + 1);
            Pairing.AttemptSource(s, pair, q).0
            == if UnlocksNow(s, q) then
                 tried.(sourceRecipient := false, unlocked := Some(s.wallets[pair.prepared.value.wallet].secret), source := Some(q.credential),
                        capability := Some(q.capability), handoff := true, sourceDigest := Some(q.digest))
               else if SpendsSource(s, q) then tried.(sourceRecipient := false)
               else tried
    ensures Pairing.AttemptSource(s, s.pairs[q.id], q).1.Ok? <==> UnlocksNow(s, q)
  {
  }

  /**
   A source leg succeeds if and only if the pairing is unexpired with fewer than five attempts and of
   this operation, and either it unlocks now, or this very request has unlocked it before.
   */
  lemma SourceExactly(s: Service, q: Pairing.SourceRequest)
    ensures Pairing.CompleteSource(s, q).1.Ok?
            <==> UnlocksNow(s, q)
                 || (Usable(s, q.id, q.now) && s.pairs[q.id].operation == q.operation && s.pairs[q.id].handoff
                     && s.pairs[q.id].sourceDigest == Some(q.digest))
  {
    UsableIsRetained(s, q.now);
    if AttemptsSource(s, q) {
      AttemptSourceExactly(s, q);
    }
  }

  /** It leaves the usable pairings, the tried one with the attempt counted, its key spent if it was used, and the wallet's secrets if it unlocked. */
  lemma SourceLeaves(s: Service, q: Pairing.SourceRequest)
    ensures Pairing.CompleteSource(s, q).0
            == s.(pairs := if AttemptsSource(s, q) then
                             var pair := s.pairs[q.id];
                             var tried := pair.(attempts := pair.attempts + 1);
                             UsablePairs(s, q.now)[q.id :=
                               if UnlocksNow(s, q) then
                                 tried.(sourceRecipient := false, unlocked := Some(s.wallets[pair.prepared.value.wallet].secret),
                                        source := Some(q.credential), capability := Some(q.capability), handoff := true,
                                        sourceDigest := Some(q.digest))
                               else if SpendsSource(s, q) then tried.(sourceRecipient := false)
                               else tried]
                           else UsablePairs(s, q.now))
  {
    UsableIsRetained(s, q.now);
    if AttemptsSource(s, q) {
      AttemptSourceExactly(s, q);
    }
  }

  // ---------------------------------------------------------------- the destination leg

  /** The destination leg reaches its pairing, and no receipt answers it already. */
  predicate AttemptsDestination(s: Service, q: Pairing.DestinationRequest) {
    && Usable(s, q.id, q.now) && s.pairs[q.id].operation == q.operation
    && (q.operation in s.durable.receipts ==> s.durable.receipts[q.operation].kind == SealedApproval)
  }

  /** The attempt gets as far as the recipient key: own capability, current generation, source still bound, valid attestation. */
  predicate SpendsDestination(s: Service, q: Pairing.DestinationRequest) {
    && AttemptsDestination(s, q)
    && var pair := s.pairs[q.id];
       && pair.prepared.Some? && q.sourceOk && q.destinationOk && q.sourceSurfaceOk
       && pair.source.Some? && BoundTo(s, pair.source.value, pair.prepared.value.wallet)
       && pair.capability == Some(q.capability) && q.attestationOk
       && GenerationNow(s.wallets, Some(pair.prepared.value.wallet)) == pair.prepared.value.generation
       && pair.destinationRecipient
  }

  /** And enrols: the wallet it holds unlocked takes the new passkey and the commit goes through. */
  predicate EnrolsNow(s: Service, q: Pairing.DestinationRequest) {
    && SpendsDestination(s, q) && q.openOk && q.bindingOk && q.commitOk && q.operation !in s.durable.receipts
    && s.pairs[q.id].prepared.value.wallet in s.wallets
    && s.pairs[q.id].unlocked == Some(s.wallets[s.pairs[q.id].prepared.value.wallet].secret)
    && Enrollable(HoldingsOf(s), s.pairs[q.id].prepared.value.wallet, q.newId, q.newKey)
  }

  /** The holdings after an enrolment. */
  function Enrolled(s: Service, wallet: string, id: string, key: string): Holdings
    requires wallet in s.wallets
  {
    var t := s.wallets[wallet].table;
    Holdings(s.wallets[wallet := s.wallets[wallet].(table := t.(active := t.active[id := key]))], s.credentials[id := wallet])
  }

  lemma AddNeedsSecret(w: Wallet, secret: Custody.Secret, id: string, key: string)
    ensures AddFactor(w, secret, id, key).Some?
            <==> |key| == Custody.KEY_LENGTH && id !in w.table.active && id !in w.table.spent && secret == w.secret
  {
  }

  lemma EnrolNeedsSecret(h: Holdings, wallet: string, secret: Custody.Secret, id: string, key: string)
    ensures Enrol(h, wallet, secret, id, key).Some?
            <==> wallet in h.wallets && secret == h.wallets[wallet].secret && Enrollable(h, wallet, id, key)
  {
    if wallet in h.wallets {
      AddNeedsSecret(h.wallets[wallet], secret, id, key);
    }
  }

  lemma EnrolmentExactly(h: Holdings, wallet: string, secret: Custody.Secret, id: string, key: string)
    ensures Enrol(h, wallet, secret, id, key)
            == if wallet in h.wallets && secret == h.wallets[wallet].secret && Enrollable(h, wallet, id, key) then
                 var t := h.wallets[wallet].table;
                 Some(Retabled(h, wallet, t.(active := t.active[id := key]), h.credentials[id := wallet]))
               else None
  {
    EnrolNeedsSecret(h, wallet, secret, id, key);
    if wallet in h.wallets && secret == h.wallets[wallet].secret {
      EnrolExactly(h, wallet, secret, id, key);
    }
  }

  /** The pairing after an attempt of its destination leg. */
  function Tried(s: Service, q: Pairing.DestinationRequest): Pair
    requires AttemptsDestination(s, q)
  {
    var tried := s.pairs[q.id].(attempts := s.pairs[q.id].attempts + 1);
    if !SpendsDestination(s, q) then tried
    else tried.(destinationRecipient := false, unlocked := if q.openOk then None else tried.unlocked)
  }

  lemma AttemptDestinationExactly(s: Service, q: Pairing.DestinationRequest)
    requires AttemptsDestination(s, q)
    ensures Pairing.AttemptDestination(s, s.pairs[q.id], q).0 == Tried(s, q)
    ensures Pairing.AttemptDestination(s, s.pairs[q.id], q).1
            == if SpendsDestination(s, q) && q.openOk && q.bindingOk && s.pairs[q.id].unlocked.Some?
               then Enrol(HoldingsOf(s), s.pairs[q.id].prepared.value.wallet, s.pairs[q.id].unlocked.value, q.newId, q.newKey)
               else None
  {
  }

  /** An attempt commits exactly when its edit is made and the transaction goes through. */
  lemma AttemptCommits(s: Service, q: Pairing.DestinationRequest, h: Option<Holdings>)
    requires AttemptsDestination(s, q) && h == Pairing.AttemptDestination(s, s.pairs[q.id], q).1
    requires h.Some? ==> s.pairs[q.id].prepared.Some?
    ensures DestinationCommit(s, q).Some?
            <==> h.Some? && q.commitOk && q.operation !in s.durable.receipts
                 && FenceAdmits(s.durable, h.value.wallets, CredentialAdd, Some(s.pairs[q.id].prepared.value.wallet))
    ensures DestinationCommit(s, q).Some? ==> DestinationCommit(s, q).value.holdings == h.value
  {
    UsableIsRetained(s, q.now);
    AttemptDestinationExactly(s, q);
  }

  /** What an enrolment commits. */
  lemma EnrolmentCommits(s: Service, q: Pairing.DestinationRequest)
    requires Invariant(s) && AttemptsDestination(s, q)
    ensures DestinationCommit(s, q).Some? <==> EnrolsNow(s, q)
    ensures EnrolsNow(s, q) ==>
              DestinationCommit(s, q).value.holdings == Enrolled(s, s.pairs[q.id].prepared.value.wallet, q.newId, q.newKey)
  {
    AttemptDestinationExactly(s, q);
    AttemptCommits(s, q, Pairing.AttemptDestination(s, s.pairs[q.id], q).1);
    var pair := s.pairs[q.id];
    if SpendsDestination(s, q) && pair.unlocked.Some? {
      var wallet := pair.prepared.value.wallet;
      EnrolmentExactly(HoldingsOf(s), wallet, pair.unlocked.value, q.newId, q.newKey);
      if wallet in s.wallets && Enrollable(HoldingsOf(s), wallet, q.newId, q.newKey) {
        EnrolmentPassesFence(s, wallet, q.newId, q.newKey);
      }
    }
  }

  lemma EnrolmentPassesFence(s: Service, wallet: string, id: string, key: string)
    requires Invariant(s) && wallet in s.wallets
    ensures FenceAdmits(s.durable, Enrolled(s, wallet, id, key).wallets, CredentialAdd, Some(wallet))
  {
  }

  /**
   A destination leg writes a receipt if and only if it enrols, and succeeds if and only if it does or
   its operation's custody receipt is on record. It enrols only an unexpired pairing with attempts
   left, on the capability, the source credential and the unlocked wallet of its own source leg.
   */
  lemma DestinationExactly(s: Service, q: Pairing.DestinationRequest)
    requires Invariant(s)
    ensures Pairing.CompleteDestination(s, q).1.Ok?
            <==> EnrolsNow(s, q)
                 || (Usable(s, q.id, q.now) && s.pairs[q.id].operation == q.operation
                     && q.operation in s.durable.receipts && s.durable.receipts[q.operation].kind != SealedApproval)
    ensures Pairing.CompleteDestination(s, q).0.durable.receipts
            == if EnrolsNow(s, q) then s.durable.receipts[q.operation := Receipt(CredentialAdd, q.id, q.digest)] else s.durable.receipts
    ensures HoldingsOf(Pairing.CompleteDestination(s, q).0)
            == if EnrolsNow(s, q) then Enrolled(s, s.pairs[q.id].prepared.value.wallet, q.newId, q.newKey) else HoldingsOf(s)
  {
    UsableIsRetained(s, q.now);
    if AttemptsDestination(s, q) {
      EnrolmentCommits(s, q);
    }
    DestinationAnswers(s, q);
    if DestinationCommit(s, q).Some? {
      DestinationCommits(s, q);
    } else {
      DestinationWithoutCommit(s, q);
    }
  }

  lemma DestinationAnswers(s: Service, q: Pairing.DestinationRequest)
    ensures Pairing.CompleteDestination(s, q).1.Ok?
            <==> DestinationCommit(s, q).Some?
                 || (Usable(s, q.id, q.now) && s.pairs[q.id].operation == q.operation
                     && q.operation in s.durable.receipts && s.durable.receipts[q.operation].kind != SealedApproval)
    ensures DestinationCommit(s, q).Some?
            ==> AttemptsDestination(s, q) && DestinationCommit(s, q).value.receipt == Receipt(CredentialAdd, q.id, q.digest)
  {
    UsableIsRetained(s, q.now);
  }

  /** After a refusal the pairing can never complete. */
  predicate Doomed(s: Service, pair: Pair, q: Pairing.DestinationRequest) {
    || pair.attempts >= 5 || pair.expires <= q.now
    || (pair.prepared.Some? && !pair.destinationRecipient)
    || (pair.sourceDigest.Some? && pair.unlocked.None?)
    || (pair.prepared.Some? && (!q.sourceOk || !q.destinationOk))
    || (pair.prepared.Some? && GenerationNow(s.wallets, Some(pair.prepared.value.wallet)) != pair.prepared.value.generation)
    || (pair.prepared.Some? && pair.sourceDigest.Some?
        && (pair.source.None? || !BoundTo(s, pair.source.value, pair.prepared.value.wallet)))
  }

  function PairsAfterDestination(s: Service, q: Pairing.DestinationRequest): map<string, Pair> {
    var usable := UsablePairs(s, q.now);
    if EnrolsNow(s, q) then usable[q.id := Tried(s, q).(capability := None, handoff := false)]
    else if AttemptsDestination(s, q) then
      if Doomed(s, Tried(s, q), q) then usable[q.id := Tried(s, q)] - {q.id} else usable[q.id := Tried(s, q)]
    else if Usable(s, q.id, q.now) && s.pairs[q.id].operation != q.operation && Doomed(s, s.pairs[q.id], q) then usable - {q.id}
    else usable
  }

  lemma DoomedIsDead(s: Service, pair: Pair, q: Pairing.DestinationRequest)
    ensures Pairing.Dead(s, pair, q) <==> Doomed(s, pair, q)
  {
  }

  lemma AttemptedPairs(s: Service, q: Pairing.DestinationRequest)
    requires Invariant(s) && AttemptsDestination(s, q)
    ensures Pairing.CompleteDestination(s, q).0.pairs == PairsAfterDestination(s, q)
  {
    UsableIsRetained(s, q.now);
    var (pair, edited) := Pairing.AttemptDestination(s, s.pairs[q.id], q);
    AttemptDestinationExactly(s, q);
    EnrolmentCommits(s, q);
    CommittedPairs(s, q, pair, edited);
    DoomedIsDead(s, pair, q);
    DoomedIsDead(s.(pairs := UsablePairs(s, q.now)[q.id := pair]), pair, q);
  }

  lemma CommittedPairs(s: Service, q: Pairing.DestinationRequest, pair: Pair, edited: Option<Holdings>)
    requires AttemptsDestination(s, q) && (pair, edited) == Pairing.AttemptDestination(s, s.pairs[q.id], q)
    ensures var tried := s.(pairs := UsablePairs(s, q.now)[q.id := pair]);
            Pairing.CompleteDestination(s, q).0.pairs
            == if DestinationCommit(s, q).Some? then UsablePairs(s, q.now)[q.id := pair.(capability := None, handoff := false)]
               else if Pairing.Dead(tried, pair, q) then tried.pairs - {q.id} else tried.pairs
  {
    UsableIsRetained(s, q.now);
  }

  /** A destination leg leaves the usable pairings; the tried one with its attempt counted and its keys spent, or gone once doomed. */
  lemma DestinationLeaves(s: Service, q: Pairing.DestinationRequest)
    requires Invariant(s)
    ensures Pairing.CompleteDestination(s, q).0.pairs == PairsAfterDestination(s, q)
  {
    UsableIsRetained(s, q.now);
    if AttemptsDestination(s, q) {
      AttemptedPairs(s, q);
    } else if Usable(s, q.id, q.now) {
      DoomedIsDead(s.(pairs := UsablePairs(s, q.now)), s.pairs[q.id], q);
      DoomedIsDead(s, s.pairs[q.id], q);
    }
  }

  // ---------------------------------------------------------------- ending without an enrolment

  /** The destination shows the capability of an unexpired pairing whose wallet already has a passkey there. */
  predicate EndsNow(s: Service, q: Pairing.AlreadyRequest) {
    && q.id in s.pairs && s.pairs[q.id].operation == q.operation && q.now < s.pairs[q.id].expires
    && (q.operation in s.durable.receipts ==> s.durable.receipts[q.operation].kind == SealedApproval)
    && s.pairs[q.id].prepared.Some? && s.pairs[q.id].prepared.value.hasExisting
    && s.pairs[q.id].capability == Some(q.capability) && q.statusOk
  }

  lemma AlreadyExactly(s: Service, q: Pairing.AlreadyRequest)
    ensures Pairing.AlreadyRegisteredHere(s, q).1.Ok?
            <==> EndsNow(s, q)
                 || (q.id !in s.pairs && q.operation in s.durable.statuses && s.durable.statuses[q.operation] == AlreadyRegistered)
    ensures Pairing.AlreadyRegisteredHere(s, q).0
            == if EndsNow(s, q) then
                 s.(durable := s.durable.(statuses := s.durable.statuses[q.operation := AlreadyRegistered]), pairs := s.pairs - {q.id})
               else s
  {
  }

  // ---------------------------------------------------------------- deadlines over runs

  /** The step opens a pairing under this id. */
  predicate Opens(s: Service, c: Command) {
    c.PairStartCmd? && Pairing.Start(s, c.start).1.Ok? && forall id :: id in LivePairs(s.pairs, c.start.now) ==> !Repeats(s.pairs[id], c.start)
  }

  /** The deadline each pairing id was last opened with. */
  function DeadlinesAfter(s: Service, c: Command, deadlines: map<string, nat>): map<string, nat> {
    if Opens(s, c) then deadlines[c.start.id := c.start.expires] else deadlines
  }

  predicate Dated(pairs: map<string, Pair>, deadlines: map<string, nat>) {
    forall id :: id in pairs ==> id in deadlines && pairs[id].expires == deadlines[id]
  }

  predicate HeldUnlocked(s: Service, id: string) { id in s.pairs && s.pairs[id].unlocked.Some? }

  /** Whatever the step unlocks, enrols or completes, it does before the deadline. */
  ghost predicate Timely(s: Service, c: Command, deadlines: map<string, nat>) {
    var s' := Step(s, c);
    && (forall id :: HeldUnlocked(s', id) && !HeldUnlocked(s, id) ==>
          c.PairSourceCmd? && id == c.source.id && id in deadlines && c.source.now < deadlines[id])
    && (forall op :: op in s'.durable.receipts && op !in s.durable.receipts ==>
          || (c.CompleteCmd? && op == c.completion.operation && op in s.pending && c.completion.now < s.pending[op].expires)
          || (c.PairDestinationCmd? && op == c.destination.operation && c.destination.id in deadlines
              && c.destination.now < deadlines[c.destination.id]))
  }

  lemma CompletionTimely(s: Service, c: Ceremony.Completion)
    requires Invariant(s)
    ensures forall op :: op in Ceremony.Complete(s, c).0.durable.receipts && op !in s.durable.receipts ==>
              op == c.operation && op in s.pending && c.now < s.pending[op].expires
  {
    if !Unrecorded(s, c) {
      RecordAnsweredExactly(s, c);
    } else if Commits(s, c) {
      CompletionExactly(s, c);
    } else {
      FailureExactly(s, c);
    }
  }

  /** No pairing is new, has another deadline or is newly unlocked, but the one named. */
  predicate KeptBut(pairs: map<string, Pair>, pairs': map<string, Pair>, unlocked: Option<string>) {
    forall id :: id in pairs' ==>
      id in pairs && pairs'[id].expires == pairs[id].expires && (pairs'[id].unlocked.Some? ==> pairs[id].unlocked.Some? || unlocked == Some(id))
  }

  lemma SourceKeeps(s: Service, q: Pairing.SourceRequest)
    ensures KeptBut(s.pairs, Pairing.CompleteSource(s, q).0.pairs, if UnlocksNow(s, q) then Some(q.id) else None)
  {
    SourceLeaves(s, q);
  }

  lemma DestinationKeeps(s: Service, q: Pairing.DestinationRequest)
    requires Invariant(s)
    ensures KeptBut(s.pairs, Pairing.CompleteDestination(s, q).0.pairs, None)
  {
    DestinationLeaves(s, q);
  }

  lemma PrepareSourceKeeps(s: Service, q: Pairing.SourcePrepareRequest)
    ensures KeptBut(s.pairs, Pairing.PrepareSource(s, q).0.pairs, None)
  {
    PrepareSourceExactly(s, q);
  }

  lemma StartKeeps(s: Service, q: Pairing.StartRequest, id: string)
    requires id in Pairing.Start(s, q).0.pairs
    ensures var pair := Pairing.Start(s, q).0.pairs[id];
            if Opens(s, PairStartCmd(q)) && id == q.id then pair.expires == q.expires && pair.unlocked.None?
            else id in s.pairs && pair == s.pairs[id]
  {
    StartLeaves(s, q);
  }

  /** How a step may change the pairings it finds. */
  lemma PairsStep(s: Service, c: Command)
    requires Invariant(s)
    ensures !c.PairStartCmd? ==>
              KeptBut(s.pairs, Step(s, c).pairs, if c.PairSourceCmd? && UnlocksNow(s, c.source) then Some(c.source.id) else None)
  {
    match c
    case PairStartCmd(_) =>
    case PairPrepareCmd(q) => PrepareSourceKeeps(s, q);
    case PairSourceCmd(q) => SourceKeeps(s, q);
    case PairDestinationCmd(q) => DestinationKeeps(s, q);
    case _ => PairingTheorems.OtherStepsShrinkPairs(s, c);
  }

  lemma StartDated(s: Service, q: Pairing.StartRequest, deadlines: map<string, nat>)
    requires Dated(s.pairs, deadlines)
    ensures Dated(Pairing.Start(s, q).0.pairs, DeadlinesAfter(s, PairStartCmd(q), deadlines))
    ensures forall id :: HeldUnlocked(Pairing.Start(s, q).0, id) ==> HeldUnlocked(s, id)
  {
    forall id | id in Pairing.Start(s, q).0.pairs
      ensures var pair := Pairing.Start(s, q).0.pairs[id];
              if Opens(s, PairStartCmd(q)) && id == q.id then pair.expires == q.expires && pair.unlocked.None?
              else id in s.pairs && pair == s.pairs[id]
    {
      StartKeeps(s, q, id);
    }
  }

  lemma PairsTimely(s: Service, c: Command, deadlines: map<string, nat>)
    requires Invariant(s) && Dated(s.pairs, deadlines)
    ensures Dated(Step(s, c).pairs, DeadlinesAfter(s, c, deadlines))
    ensures forall id :: HeldUnlocked(Step(s, c), id) && !HeldUnlocked(s, id) ==>
              c.PairSourceCmd? && id == c.source.id && UnlocksNow(s, c.source)
  {
    if c.PairStartCmd? {
      StartDated(s, c.start, deadlines);
    } else {
      PairsStep(s, c);
    }
  }

  lemma ReceiptsStep(s: Service, c: Command)
    requires Invariant(s)
    ensures forall op :: op in Step(s, c).durable.receipts && op !in s.durable.receipts ==>
              || (c.CompleteCmd? && op == c.completion.operation && op in s.pending && c.completion.now < s.pending[op].expires)
              || (c.PairDestinationCmd? && op == c.destination.operation && EnrolsNow(s, c.destination))
  {
    if c.CompleteCmd? {
      CompletionTimely(s, c.completion);
    } else if c.PairDestinationCmd? {
      DestinationExactly(s, c.destination);
    } else {
      StepWithoutCommit(s, c);
    }
  }

  lemma StepTimely(s: Service, c: Command, deadlines: map<string, nat>)
    requires Invariant(s) && Dated(s.pairs, deadlines)
    ensures Timely(s, c, deadlines) && Dated(Step(s, c).pairs, DeadlinesAfter(s, c, deadlines))
  {
    PairsTimely(s, c, deadlines);
    ReceiptsStep(s, c);
  }

  ghost predicate AllTimely(s: Service, commands: seq<Command>, deadlines: map<string, nat>)
    decreases |commands|
  {
    commands != [] ==>
      Timely(s, commands[0], deadlines) && AllTimely(Step(s, commands[0]), commands[1..], DeadlinesAfter(s, commands[0], deadlines))
  }

  lemma {:induction false} RunTimely(s: Service, commands: seq<Command>, deadlines: map<string, nat>)
    requires Invariant(s) && Dated(s.pairs, deadlines)
    ensures AllTimely(s, commands, deadlines)
    decreases |commands|
  {
    if commands != [] {
      StepTimely(s, commands[0], deadlines);
      StepKeepsInvariant(s, commands[0]);
      RunTimely(Step(s, commands[0]), commands[1..], DeadlinesAfter(s, commands[0], deadlines));
    }
  }

  /**
   Over every run from an empty service nothing happens late: no wallet is unlocked and no passkey
   enrolled at or after the deadline its pairing was opened with, and no receipt is written at or
   after the deadline of the ceremony it consumes.
   */
  lemma NothingHappensLate(commands: seq<Command>)
    ensures AllTimely(EMPTY, commands, map[])
  {
    RunTimely(EMPTY, commands, map[]);
  }

  // ---------------------------------------------------------------- ends of many pairings

  /** Expiry drops the pairings that are past their deadline or out of attempts, clearing drops all, and neither touches anything else. */
  lemma ExpiryExactly(s: Service, now: nat)
    ensures Pairing.Expire(s, now) == s.(pairs := UsablePairs(s, now)) && Pairing.Clear(s) == s.(pairs := map[])
  {
  }

  /** A new process has no armed ceremony, no remembered completion and no pairing, and after any run the wallets and bindings of the old one. */
  lemma RestartExactly(history: seq<Command>)
    ensures var s := Run(EMPTY, history);
            Step(s, RestartCmd) == s.(pending := map[], completed := map[], pairs := map[])
  {
    RunKeepsInvariant(EMPTY, history);
  }
}
