/**
 The levels an account derivation walks are those its printed path names: reading the path text level
 by level and deriving along it gives the account's key.
 */
module Bip32Paths {
  import opened Limits
  import opened Wrappers
  import opened Decimal
  import Bip32
  import Paths

  /** One path segment: a number, hardened by a trailing mark. */
  function ReadLevel(segment: string): Option<Bip32.Level> {
    var hardened := Paths.EndsWith(segment, "'");
    match ParseU32(if hardened then segment[..|segment| - 1] else segment)
    case None => None
    case Some(n) => if n < HARDENED_OFFSET then Some(Bip32.Level(hardened, n)) else None
  }

  /** The levels of a path text after its `m`. */
  function ReadPath(path: string): Option<seq<Bip32.Level>> {
    var parts := Paths.Split(path);
    if parts[0] != "m" || exists k :: 1 <= k < |parts| && ReadLevel(parts[k]).None? then None
    else Some(seq(|parts| - 1, k requires 0 <= k < |parts| - 1 => ReadLevel(parts[k + 1]).value))
  }

  lemma PrintedLevel(n: nat, hardened: bool)
    requires n < HARDENED_OFFSET
    ensures ReadLevel(Dec(n) + if hardened then "'" else "") == Some(Bip32.Level(hardened, n))
  {
    DecIsCanonical(n);
    var segment := Dec(n) + if hardened then "'" else "";
    assert IsDigit(Dec(n)[0]) && IsDigit(Dec(n)[|Dec(n)| - 1]);
    if hardened {
      assert segment[..|segment| - 1] == Dec(n);
      assert Paths.EndsWith(segment, "'");
    } else {
      assert segment == Dec(n);
      assert !Paths.EndsWith(segment, "'");
    }
  }

  lemma EvmSegments(account: nat, index: nat)
    ensures Paths.Split(Paths.EvmPath(account, index))
            == ["m", Dec(44) + "'", Dec(60) + "'", Dec(account) + "'", Dec(0) + "", Dec(index) + ""]
  {
    Paths.EvmPathPrinted(account, index);
    Paths.SplitOfPrinted(Paths.Evm, Paths.EvmNumbers(account, index));
    assert Paths.Printed(Paths.Evm, Paths.EvmNumbers(account, index))
        == ["m", Dec(44) + "'", Dec(60) + "'", Dec(account) + "'", Dec(0) + "", Dec(index) + ""];
  }

  lemma ReadsAs(path: string, levels: seq<Bip32.Level>)
    requires var parts := Paths.Split(path);
             |parts| == |levels| + 1 && parts[0] == "m" && forall k :: 0 <= k < |levels| ==> ReadLevel(parts[k + 1]) == Some(levels[k])
    ensures ReadPath(path) == Some(levels)
  {
    var parts := Paths.Split(path);
    forall k | 1 <= k < |parts| ensures ReadLevel(parts[k]).Some? {
      assert ReadLevel(parts[k - 1 + 1]) == Some(levels[k - 1]);
    }
    assert ReadPath(path).value == levels;
  }

  /** A printed EVM path reads as the five levels of its account. */
  lemma EvmPathLevels(account: nat, index: nat)
    requires account < HARDENED_OFFSET && index < HARDENED_OFFSET
    ensures ReadPath(Paths.EvmPath(account, index))
            == Some([Bip32.Level(true, 44), Bip32.Level(true, 60), Bip32.Level(true, account), Bip32.Level(false, 0), Bip32.Level(false, index)])
  {
    var levels := [Bip32.Level(true, 44), Bip32.Level(true, 60), Bip32.Level(true, account), Bip32.Level(false, 0), Bip32.Level(false, index)];
    EvmSegments(account, index);
    var parts := Paths.Split(Paths.EvmPath(account, index));
    forall k | 0 <= k < 5 ensures ReadLevel(parts[k + 1]) == Some(levels[k]) {
      PrintedLevel(levels[k].index, levels[k].hardened);
      assert parts[k + 1] == Dec(levels[k].index) + if levels[k].hardened then "'" else "";
    }
    ReadsAs(Paths.EvmPath(account, index), levels);
  }

  /** Deriving an EVM account is deriving along its printed path. */
  lemma EvmAccountFollowsPath(p: Bip32.Primitives, seed: string, account: nat, index: nat)
    requires account < HARDENED_OFFSET && index < HARDENED_OFFSET
    ensures ReadPath(Paths.EvmPath(account, index)).Some?
    ensures Bip32.DeriveEvmAccount(p, seed, account, index) == Bip32.Derive(p, seed, ReadPath(Paths.EvmPath(account, index)).value)
  {
    EvmPathLevels(account, index);
    Bip32.EvmAccountIsChain(p, seed, account, index);
  }
}
