/**
 What the root's associated data protects: the version, profile and entropy size that decide how
 the decrypted root is read. They are bound from wrap format 2 on, and only from then on.
 */
module CustodyMetadata {
  import opened Limits
  import opened Wrappers
  import opened Custody
  import opened CustodyTheorems

  lemma BigEndianInjective(a: nat, b: nat)
    requires a < U32_LIMIT && b < U32_LIMIT && BigEndian(a) == BigEndian(b)
    ensures a == b
  {
    Digits(a);
    Digits(b);
    assert BigEndian(a)[0] == BigEndian(b)[0] && BigEndian(a)[1] == BigEndian(b)[1];
    assert BigEndian(a)[2] == BigEndian(b)[2] && BigEndian(a)[3] == BigEndian(b)[3];
  }

  lemma Digits(n: nat)
    requires n < U32_LIMIT
    ensures n == (BigEndian(n)[0] as int * 0x100_0000 + BigEndian(n)[1] as int * 0x1_0000
                  + BigEndian(n)[2] as int * 0x100 + BigEndian(n)[3] as int)
  {
  }

  lemma SameSuffix(x: string, y: string, x': string, y': string)
    requires x + y == x' + y' && |x| == |x'|
    ensures x == x' && y == y'
  {
    assert x == (x + y)[..|x|] && x' == (x' + y')[..|x'|];
    assert y == (x + y)[|x|..] && y' == (x' + y')[|x'|..];
  }

  lemma TagFirst(p: Profile, q: Profile)
    ensures |p.Tag()| > 0 && (p != q ==> p.Tag()[0] != q.Tag()[0])
  {
  }

  lemma InterpretationInjective(p: Profile, bits: Option<nat>, p': Profile, bits': Option<nat>)
    requires bits.Some? ==> bits.value < U32_LIMIT
    requires bits'.Some? ==> bits'.value < U32_LIMIT
    requires p.Tag() + EntropyField(bits) == p'.Tag() + EntropyField(bits')
    ensures p == p' && bits == bits'
  {
    TagFirst(p, p');
    var s, s' := p.Tag() + EntropyField(bits), p'.Tag() + EntropyField(bits');
    assert s[0] == p.Tag()[0] && s'[0] == p'.Tag()[0];
    SameSuffix(p.Tag(), EntropyField(bits), p'.Tag(), EntropyField(bits'));
    if bits.Some? {
      SameSuffix([1 as char], BigEndian(bits.value), [1 as char], BigEndian(bits'.value));
      BigEndianInjective(bits.value, bits'.value);
    }
  }

  /** For one wallet, the root's associated data fixes version, profile and entropy bits from format 2 on. */
  lemma RootAadInjective(wallet: string, v: nat, p: Profile, bits: Option<nat>, v': nat, p': Profile, bits': Option<nat>)
    requires v < U32_LIMIT && v' < U32_LIMIT
    requires bits.Some? ==> bits.value < U32_LIMIT
    requires bits'.Some? ==> bits'.value < U32_LIMIT
    requires RootAad(wallet, v, p, bits) == RootAad(wallet, v', p', bits')
    ensures v == v' && (v >= WRAP_FORMAT_V2 ==> p == p' && bits == bits')
  {
    var head := ROOT_AAD + wallet;
    var tail := if v >= WRAP_FORMAT_V2 then p.Tag() + EntropyField(bits) else "";
    var tail' := if v' >= WRAP_FORMAT_V2 then p'.Tag() + EntropyField(bits') else "";
    SameSuffix(head + BigEndian(v), tail, head + BigEndian(v'), tail');
    SameSuffix(head, BigEndian(v), head, BigEndian(v'));
    BigEndianInjective(v, v');
    if v >= WRAP_FORMAT_V2 {
      InterpretationInjective(p, bits, p', bits');
    }
  }

  /** An edited copy: same wallet and ciphertexts, any other metadata. */
  predicate Edited(b: Backup, b': Backup) {
    b'.wallet == b.wallet && b'.root == b.root && b'.policyKey == b.policyKey
  }

  predicate SameReading(b: Backup, b': Backup) {
    b'.version == b.version && b'.profile == b.profile && b'.bits == b.bits
  }

  lemma EditsFail(b: Backup, secret: Secret, b': Backup, wkek: string)
    requires RootSound(b, secret) && Edited(b, b') && b.version >= WRAP_FORMAT_V2
    requires UnlockWithWkek(b', wkek).Ok?
    ensures SameReading(b, b')
  {
    RootAadInjective(b.wallet, b.version, b.profile, b.bits, b'.version, b'.profile, b'.bits);
  }

  ghost predicate EditsDetected(b: Backup) {
    forall b': Backup, wkek :: Edited(b, b') && UnlockWithWkek(b', wkek).Ok? ==> SameReading(b, b')
  }

  /**
   No edit of the metadata survives an unlock exactly when the backup is at format 2 or later. At
   format 1 relabelling the root as a legacy seed is enough.
   */
  lemma EditsDetectedExactly(b: Backup, secret: Secret)
    requires RootSound(b, secret)
    ensures EditsDetected(b) <==> b.version >= WRAP_FORMAT_V2
  {
    if b.version >= WRAP_FORMAT_V2 {
      forall b': Backup, wkek | Edited(b, b') && UnlockWithWkek(b', wkek).Ok? ensures SameReading(b, b') {
        EditsFail(b, secret, b', wkek);
      }
    } else {
      var b': Backup := b.(profile := LegacySecp, bits := if b.bits == None then Some(0) else None);
      assert Edited(b, b') && UnlockWithWkek(b', secret.wkek).Ok? && !SameReading(b, b');
    }
  }

  /**
   Whatever backup was restored, what an unlock answers is 32 bytes for an imported scalar, and for BIP-39 entropy one of
   the five lengths, the one its metadata records.
   */
  lemma UnlockedRootFits(b: Backup, wkek: string)
    requires UnlockWithWkek(b, wkek).Ok?
    ensures var u := UnlockWithWkek(b, wkek).value;
            && u.profile == b.profile && u.bits == b.bits
            && (u.profile == ImportedSecp256k1Scalar ==> |u.root| == 32)
            && (u.profile == Bip39MulticurveV1 ==> |u.root| in {16, 20, 24, 28, 32} && u.bits == Some(|u.root| * 8))
  {
  }

  /** Restore refuses every change of the format version alone while a credential is active. */
  lemma VersionEditAccepted(b: Backup, version: nat)
    requires ValidShape(b) && version != b.version && version < U32_LIMIT
    ensures ValidShape(b.(version := version))
            <==> version != 0 && forall w :: w in b.wraps ==> !w.active && w.version <= version
  {
    var b': Backup := b.(version := version);
    if ValidShape(b') {
      forall w | w in b.wraps ensures !w.active && w.version <= version {
        var i :| 0 <= i < |b.wraps| && b.wraps[i] == w;
        assert b'.wraps[i] == w;
      }
    } else if version != 0 {
      assert b'.wraps == b.wraps;
      var i :| 0 <= i < |b'.wraps| && !(b'.wraps[i].version <= version
                                        && (b'.wraps[i].active ==> b'.wraps[i].version == version)
                                        && |b'.wraps[i].wrapped.nonce| == NONCE_LENGTH);
      assert b.wraps[i] in b.wraps;
    }
  }

  /** One wrap may be replaced by any with a nonce of 24 bytes that is not newer than the backup, nor older while active. */
  lemma WrapEditAccepted(b: Backup, i: nat, w: Wrap)
    requires ValidShape(b) && i < |b.wraps|
    ensures ValidShape(b.(wraps := b.wraps[i := w]))
            <==> |w.wrapped.nonce| == NONCE_LENGTH && (if w.active then w.version == b.version else w.version <= b.version)
  {
    var b': Backup := b.(wraps := b.wraps[i := w]);
    assert b'.wraps[i] == w;
    assert forall j :: 0 <= j < |b.wraps| && j != i ==> b'.wraps[j] == b.wraps[j];
  }
}
