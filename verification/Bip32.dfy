/**
 The BIP-32 private scalar chain on secp256k1, with HMAC-SHA512 as an arbitrary function.

 The reference is a chain without any checks, in which a key is just the sum of the tweaks so far
 modulo the group order. The checked derivation succeeds exactly when no tweak reaches the order
 and no partial sum vanishes (BIP-32, "Private parent key -> private child key").
 */
module Bip32 {
  import opened Limits
  import opened Wrappers

  const ORDER: nat := 0xFFFFFFFF_FFFFFFFF_FFFFFFFF_FFFFFFFE_BAAEDCE6_AF48A03B_BFD25E8C_D0364141
  const PURPOSE: nat := 44
  const COIN: nat := 60

  /** What is hashed: the seed, or a parent key (hardened) or public key (not) with a child number. */
  datatype Message = Seed(seed: string) | FromPrivate(key: nat, number: nat) | FromPublic(point: string, number: nat)

  datatype Digest = Digest(tweak: nat, code: string)

  /** HMAC under a chain code, and the compressed public key of a private key. */
  datatype Primitives = Primitives(hmac: (string, Message) -> Digest, point: nat -> string)

  const MASTER_DOMAIN: string := "Bitcoin seed"

  datatype Error = InvalidMasterKey | InvalidSeedLength | InvalidIndex | InvalidChild | DescribePanic

  datatype Node = Node(key: nat, code: string)

  /** A number is a canonical scalar when reducing it changes nothing. */
  function ScalarFromCanonical(x: nat): (r: Option<nat>)
    ensures r.Some? <==> x < ORDER
    ensures r.Some? ==> r.value == x
  {
    var reduced := x % ORDER;
    if reduced == x then Some(reduced) else None
  }

  function ChildKeyFromTweak(tweak: nat, parent: nat): Result<nat, Error> {
    if ScalarFromCanonical(tweak).None? then Err(InvalidChild)
    else if ScalarFromCanonical(parent).None? then Err(InvalidMasterKey)
    else
      var child := (tweak + parent) % ORDER;
      if child == 0 then Err(InvalidChild) else Ok(child)
  }

  function ChildFromDigest(digest: Digest, parent: nat): Result<Node, Error> {
    match ChildKeyFromTweak(digest.tweak, parent)
    case Err(e) => Err(e)
    case Ok(key) => Ok(Node(key, digest.code))
  }

  function Master(p: Primitives, seed: string): Result<Node, Error> {
    if |seed| < 16 || |seed| > 64 then Err(InvalidSeedLength)
    else ChildFromDigest(p.hmac(MASTER_DOMAIN, Seed(seed)), 0)
  }

  predicate ValidKey(key: nat) { 1 <= key < ORDER }

  function HardenedChild(p: Primitives, parent: Node, index: nat): Result<Node, Error> {
    if index >= HARDENED_OFFSET then Err(InvalidIndex)
    else ChildFromDigest(p.hmac(parent.code, FromPrivate(parent.key, index + HARDENED_OFFSET)), parent.key)
  }

  /** Describing the parent panics unless it is a valid private key. */
  function NonHardenedChild(p: Primitives, parent: Node, index: nat): Result<Node, Error> {
    if index >= HARDENED_OFFSET then Err(InvalidIndex)
    else if !ValidKey(parent.key) then Err(DescribePanic)
    else ChildFromDigest(p.hmac(parent.code, FromPublic(p.point(parent.key), index)), parent.key)
  }

  datatype Level = Level(hardened: bool, index: nat)

  function Child(p: Primitives, parent: Node, level: Level): Result<Node, Error> {
    if level.hardened then HardenedChild(p, parent, level.index) else NonHardenedChild(p, parent, level.index)
  }

  /** The master key and one child step for each level. */
  function Derive(p: Primitives, seed: string, levels: seq<Level>): Result<Node, Error> {
    if |levels| == 0 then Master(p, seed)
    else match Derive(p, seed, levels[..|levels| - 1])
      case Err(e) => Err(e)
      case Ok(parent) => Child(p, parent, levels[|levels| - 1])
  }

  /** `derive_evm_account`, as the program spells it out. */
  function DeriveEvmAccount(p: Primitives, seed: string, account: nat, index: nat): Result<Node, Error> {
    if account >= HARDENED_OFFSET || index >= HARDENED_OFFSET then Err(InvalidIndex)
    else match Master(p, seed)
      case Err(e) => Err(e)
      case Ok(m) =>
        match HardenedChild(p, m, PURPOSE)
        case Err(e) => Err(e)
        case Ok(purpose) =>
          match HardenedChild(p, purpose, COIN)
          case Err(e) => Err(e)
          case Ok(coin) =>
            match HardenedChild(p, coin, account)
            case Err(e) => Err(e)
            case Ok(acct) =>
              match NonHardenedChild(p, acct, 0)
              case Err(e) => Err(e)
              case Ok(change) => NonHardenedChild(p, change, index)
  }

  function EvmLevels(account: nat, index: nat): seq<Level> {
    [Level(true, PURPOSE), Level(true, COIN), Level(true, account), Level(false, 0), Level(false, index)]
  }

  // ---------------------------------------------------------------- the unchecked reference

  function Sum(tweaks: seq<nat>): nat {
    if |tweaks| == 0 then 0 else Sum(tweaks[..|tweaks| - 1]) + tweaks[|tweaks| - 1]
  }

  /** The tweaks of every level, with keys that are plain sums, and the last chain code. */
  datatype Trail = Trail(tweaks: seq<nat>, code: string)

  function KeyOf(t: Trail): nat { Sum(t.tweaks) % ORDER }

  function LevelMessage(p: Primitives, key: nat, level: Level): Message {
    if level.hardened then FromPrivate(key, level.index + HARDENED_OFFSET) else FromPublic(p.point(key), level.index)
  }

  function Unchecked(p: Primitives, seed: string, levels: seq<Level>): (t: Trail)
    ensures |t.tweaks| == |levels| + 1
  {
    if |levels| == 0 then
      var d := p.hmac(MASTER_DOMAIN, Seed(seed));
      Trail([d.tweak], d.code)
    else
      var parent := Unchecked(p, seed, levels[..|levels| - 1]);
      var d := p.hmac(parent.code, LevelMessage(p, KeyOf(parent), levels[|levels| - 1]));
      Trail(parent.tweaks + [d.tweak], d.code)
  }

  /** Tweak `i` is below the order and the sum up to it does not vanish. */
  predicate TweakValid(tweaks: seq<nat>, i: nat)
    requires i < |tweaks|
  {
    tweaks[i] < ORDER && Sum(tweaks[..i + 1]) % ORDER != 0
  }

  predicate AllValid(tweaks: seq<nat>) {
    forall i :: 0 <= i < |tweaks| ==> TweakValid(tweaks, i)
  }

  predicate LevelsInRange(levels: seq<Level>) {
    forall i :: 0 <= i < |levels| ==> levels[i].index < HARDENED_OFFSET
  }

  lemma EarlierValid(tweaks: seq<nat>, tweak: nat, i: nat)
    requires i < |tweaks|
    ensures TweakValid(tweaks + [tweak], i) <==> TweakValid(tweaks, i)
  {
    assert (tweaks + [tweak])[..i + 1] == tweaks[..i + 1];
  }

  lemma LastValid(tweaks: seq<nat>, tweak: nat)
    ensures TweakValid(tweaks + [tweak], |tweaks|) <==> tweak < ORDER && (Sum(tweaks) + tweak) % ORDER != 0
  {
    var all := tweaks + [tweak];
    assert all[..|tweaks|] == tweaks && all[..|all|] == all;
    assert Sum(all) == Sum(tweaks) + tweak;
  }

  lemma AllValidPush(tweaks: seq<nat>, tweak: nat)
    ensures AllValid(tweaks + [tweak]) <==> AllValid(tweaks) && tweak < ORDER && (Sum(tweaks) + tweak) % ORDER != 0
  {
    LastValid(tweaks, tweak);
    forall i | 0 <= i < |tweaks| ensures TweakValid(tweaks + [tweak], i) <==> TweakValid(tweaks, i) {
      EarlierValid(tweaks, tweak, i);
    }
  }

  lemma AddModulo(a: nat, b: nat)
    ensures (b + a % ORDER) % ORDER == (a + b) % ORDER
  {
  }

  /** One checked step against one unchecked step. */
  lemma StepExact(p: Primitives, parent: Trail, level: Level)
    requires parent.tweaks != [] && AllValid(parent.tweaks) && level.index < HARDENED_OFFSET
    ensures var node := Node(KeyOf(parent), parent.code);
            var d := p.hmac(parent.code, LevelMessage(p, KeyOf(parent), level));
            Child(p, node, level)
            == if AllValid(parent.tweaks + [d.tweak]) then Ok(Node(Sum(parent.tweaks + [d.tweak]) % ORDER, d.code)) else Err(InvalidChild)
  {
    var d := p.hmac(parent.code, LevelMessage(p, KeyOf(parent), level));
    var last := |parent.tweaks| - 1;
    assert TweakValid(parent.tweaks, last) && parent.tweaks[..last + 1] == parent.tweaks;
    assert ValidKey(KeyOf(parent));
    AllValidPush(parent.tweaks, d.tweak);
    AddModulo(Sum(parent.tweaks), d.tweak);
    assert (parent.tweaks + [d.tweak])[..|parent.tweaks|] == parent.tweaks;
  }

  /**
   Derivation succeeds exactly when every tweak is below the order and no partial sum is zero; the
   key is then the sum of the tweaks modulo the order. Otherwise it is the invalid-child error:
   neither an invalid parent nor the panic of describing one ever occurs.
   */
  lemma {:induction false} DeriveExact(p: Primitives, seed: string, levels: seq<Level>)
    requires 16 <= |seed| <= 64 && LevelsInRange(levels)
    ensures var t := Unchecked(p, seed, levels);
            Derive(p, seed, levels) == if AllValid(t.tweaks) then Ok(Node(KeyOf(t), t.code)) else Err(InvalidChild)
    decreases |levels|
  {
    if |levels| == 0 {
      var d := p.hmac(MASTER_DOMAIN, Seed(seed));
      AllValidPush([], d.tweak);
      assert [] + [d.tweak] == [d.tweak];
      assert [d.tweak][..0] == [];
    } else {
      var front := levels[..|levels| - 1];
      DeriveExact(p, seed, front);
      var parent := Unchecked(p, seed, front);
      var level := levels[|levels| - 1];
      AllValidPush(parent.tweaks, p.hmac(parent.code, LevelMessage(p, KeyOf(parent), level)).tweak);
      if AllValid(parent.tweaks) {
        StepExact(p, parent, level);
      }
    }
  }

  /** Every key along a derivation is in 1..order-1. */
  lemma KeysInRange(p: Primitives, seed: string, levels: seq<Level>)
    requires 16 <= |seed| <= 64 && LevelsInRange(levels) && Derive(p, seed, levels).Ok?
    ensures 1 <= Derive(p, seed, levels).value.key < ORDER
  {
  }

  /** The spelled-out account derivation is the chain over its five levels. */
  lemma EvmAccountIsChain(p: Primitives, seed: string, account: nat, index: nat)
    requires account < HARDENED_OFFSET && index < HARDENED_OFFSET
    ensures DeriveEvmAccount(p, seed, account, index) == Derive(p, seed, EvmLevels(account, index))
  {
    var l := EvmLevels(account, index);
    assert l[..5] == l && l[..5][..4] == l[..4] && l[..4][..3] == l[..3] && l[..3][..2] == l[..2] && l[..2][..1] == l[..1] && l[..1][..0] == l[..0];
    DeriveStep(p, seed, l, 0);
    DeriveStep(p, seed, l, 1);
    DeriveStep(p, seed, l, 2);
    DeriveStep(p, seed, l, 3);
    DeriveStep(p, seed, l, 4);
  }

  lemma DeriveStep(p: Primitives, seed: string, levels: seq<Level>, n: nat)
    requires n < |levels|
    ensures Derive(p, seed, levels[..n + 1])
            == match Derive(p, seed, levels[..n]) case Err(e) => Err(e) case Ok(parent) => Child(p, parent, levels[n])
  {
    assert levels[..n + 1][..n] == levels[..n];
  }

  /** The account derivation errors exactly by the tweaks of its path, or an index out of range. */
  lemma EvmAccountExact(p: Primitives, seed: string, account: nat, index: nat)
    requires |seed| == 64
    ensures var t := Unchecked(p, seed, EvmLevels(account, index));
            DeriveEvmAccount(p, seed, account, index)
            == if account >= HARDENED_OFFSET || index >= HARDENED_OFFSET then Err(InvalidIndex)
               else if AllValid(t.tweaks) then Ok(Node(KeyOf(t), t.code)) else Err(InvalidChild)
  {
    if account < HARDENED_OFFSET && index < HARDENED_OFFSET {
      EvmAccountIsChain(p, seed, account, index);
      DeriveExact(p, seed, EvmLevels(account, index));
    }
  }
}
