/**
 The path an allocation prints below its namespace's prefix, read back by the splitting and parsing that validate it.
 */
module LocalBackendPaths {
  import opened Limits
  import opened Wrappers
  import opened Decimal
  import opened Paths
  import opened LocalBackend

  function LastSegment(index: nat, ed25519: bool): string {
    Dec(index) + if ed25519 then "'" else ""
  }

  lemma LastSegmentReads(index: nat, ed25519: bool)
    ensures '/' !in LastSegment(index, ed25519) && EndsWith(LastSegment(index, ed25519), "'") == ed25519
    ensures LastSegment(index, ed25519) == (if ed25519 then Dec(index) + "'" else Dec(index))
  {
    DecSegment(index);
    var d := Dec(index);
    assert d + "" == d;
    assert d[|d| - 1] in d;
  }

  /** The last segment passes the check of its level, hardened on Ed25519, exactly for indices below 2^31, and as that index. */
  lemma LastSegmentParses(index: nat, ed25519: bool)
    ensures RequireChild(LastSegment(index, ed25519), ed25519, Some(index)) <==> index < HARDENED_OFFSET
    ensures ValidBip32Child(LastSegment(index, ed25519)) <==> index < HARDENED_OFFSET
  {
    var slot := Slot(ed25519, Some(index));
    LastSegmentReads(index, ed25519);
    assert LastSegment(index, ed25519) == Dec(index) + slot.Mark();
    ChildOfDec(index, slot);
    ChildOfDec(index, Slot(ed25519, None));
  }

  /** The levels of an allocated path are those of its prefix and one more. */
  lemma AllocatedLevels(prefix: string, index: nat, ed25519: bool)
    ensures Split(PathAt(prefix, index, ed25519)) == Split(prefix) + [LastSegment(index, ed25519)]
  {
    var last := LastSegment(index, ed25519);
    LastSegmentReads(index, ed25519);
    assert PathAt(prefix, index, ed25519) == prefix + "/" + last;
    SplitConcat(prefix, last);
    SplitSegment(last);
  }

  /** Prefix, index and family are read off an allocated path: no two namespaces allocate one path unless they share a prefix. */
  lemma AllocatedPathDetermines(prefix: string, index: nat, ed25519: bool, prefix': string, index': nat, ed25519': bool)
    ensures PathAt(prefix, index, ed25519) == PathAt(prefix', index', ed25519')
            <==> prefix == prefix' && index == index' && ed25519 == ed25519'
  {
    if PathAt(prefix, index, ed25519) == PathAt(prefix', index', ed25519') {
      var a, b := LastSegment(index, ed25519), LastSegment(index', ed25519');
      AllocatedLevels(prefix, index, ed25519);
      AllocatedLevels(prefix', index', ed25519');
      var parts, parts' := Split(prefix), Split(prefix');
      assert |parts| == |parts'|;
      assert (parts + [a])[..|parts|] == parts && (parts' + [b])[..|parts|] == parts';
      assert (parts + [a])[|parts|] == a && (parts' + [b])[|parts|] == b;
      JoinOfSplit(prefix);
      JoinOfSplit(prefix');
      LastSegmentReads(index, ed25519);
      LastSegmentReads(index', ed25519');
      assert (Dec(index) + "'")[..|Dec(index)|] == Dec(index);
      assert (Dec(index') + "'")[..|Dec(index')|] == Dec(index');
      DecInjective(index, index');
    }
  }

  /**
   Below a BIP-32 prefix of at most ten levels, an allocated path is a BIP-32 path exactly when its index is below 2^31,
   and its last level then parses to the index, hardened on Ed25519.
   */
  lemma AllocatedPathValid(prefix: string, index: nat, ed25519: bool)
    requires ValidBip32Path(prefix) && |Split(prefix)| <= 10
    ensures var path := PathAt(prefix, index, ed25519);
            && (ValidBip32Path(path) <==> index < HARDENED_OFFSET)
            && |Split(path)| == |Split(prefix)| + 1
            && (index < HARDENED_OFFSET ==> ParseChild(Split(path)[|Split(prefix)|], ed25519) == Some(index))
  {
    var parts, last := Split(prefix), LastSegment(index, ed25519);
    AllocatedLevels(prefix, index, ed25519);
    LastSegmentParses(index, ed25519);
    assert (parts + [last])[|parts|] == last;
    assert forall k :: 0 <= k < |parts| ==> (parts + [last])[k] == parts[k];
    assert Bip32Parts(parts + [last]) <==> ValidBip32Child(last);
  }
}
