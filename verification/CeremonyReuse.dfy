/**
 A run in which a credential id is used in two wallets: `x` is registered in wallet `v`, removed
 there, registered in wallet `w`, and then removed from `v` once more. The last removal succeeds
 and drops the binding that `w` still needs.
 */
module CeremonyReuse {
  import opened Wrappers
  import opened CeremonyState
  import opened Ceremony
  import opened CeremonyRuns
  import opened CeremonyScripts
  import opened CeremonyBindings
  import Factors = CustodyTheorems

  /** One ceremony on a wallet: prepare, then complete. */
  function Script(op: string, kind: Kind, wallet: string, target: string, authority: string, newId: string): seq<Command> {
    [PrepareCmd(Request(op, kind, wallet, target)), CompleteCmd(Proof(op, kind, authority, newId, true))]
  }

  /** An idle service with these holdings, in which only the operations in `done` left a trace. */
  ghost predicate Idle(s: Service, h: Holdings, done: set<string>) {
    && s.pending == map[] && HoldingsOf(s) == h
    && (forall op :: op !in done ==> op !in s.completed && Unopened(s.durable, op))
    && (forall w :: Fence(s.durable, w) == 0)
  }

  lemma Advances(s: Service, h: Holdings, done: set<string>, op: string, kind: Kind, wallet: string, target: string,
                 authority: string, newId: string, h': Holdings)
    requires Idle(s, h, done) && op !in done && kind != SealedApproval && kind != WalletRecovery
    requires CreatesWallet(kind) ==> wallet !in h.wallets
    requires ApplyCustody(h, Pending(kind, "ceremony", "request", Some(wallet), Some(target), AuthorityGeneration(s, Some(wallet)), 100),
                          Proof(op, kind, authority, newId, true)) == Some(h')
    requires forall w :: w in h'.wallets ==> h'.wallets[w].table.generation == 0
    ensures Idle(Run(s, Script(op, kind, wallet, target, authority, newId)), h', done + {op})
  {
    var q, c := Request(op, kind, wallet, target), Proof(op, kind, authority, newId, true);
    GoesThrough(s, q, c, h');
    forall w ensures Fence(After(s, q, c, h').durable, w) == 0 {
      assert Fence(s.durable, w) == 0;
    }
  }

  function Factored(active: map<string, string>, spent: set<string>): Wallet {
    Wallet(SECRET, Factors.FirstTable("x", KEY).(active := active, spent := spent))
  }

  const ONE: Holdings := Holdings(map["v" := Factored(map["x" := KEY], {})], map["x" := "v"])
  const TWO: Holdings := Holdings(map["v" := Factored(map["x" := KEY, "y" := KEY], {})], map["x" := "v", "y" := "v"])
  const THREE: Holdings := Holdings(map["v" := Factored(map["y" := KEY], {"x"})], map["y" := "v"])
  const FOUR: Holdings := Holdings(THREE.wallets["w" := Factored(map["x" := KEY], {})], map["y" := "v", "x" := "w"])
  const FIVE: Holdings := Holdings(FOUR.wallets, map["y" := "v"])

  lemma Registering(h: Holdings, p: Pending, c: Completion, wallet: string)
    requires p.kind == WalletRegistration && p.wallet == Some(wallet) && wallet !in h.wallets && "x" !in h.credentials
    requires c == Proof(c.operation, WalletRegistration, "x", "x", true)
    ensures ApplyCustody(h, p, c)
            == Some(Holdings(h.wallets[wallet := Factored(map["x" := KEY], {})], h.credentials["x" := wallet]))
  {
    assert NewWallet(wallet, c) == Some(Factored(map["x" := KEY], {}));
  }

  lemma Adding(p: Pending, c: Completion)
    requires p.kind == CredentialAdd && p.wallet == Some("v") && c == Proof(c.operation, CredentialAdd, "x", "y", true)
    ensures ApplyCustody(ONE, p, c) == Some(TWO)
  {
    var w := ONE.wallets["v"];
    assert AddFactor(w, SECRET, "y", KEY) == Some(TWO.wallets["v"]);
    assert ONE.wallets["v" := TWO.wallets["v"]] == TWO.wallets && ONE.credentials["y" := "v"] == TWO.credentials;
  }

  /** Wallet `v` gives the same table whether `x` is still active or already spent. */
  lemma Revokes(w: Wallet)
    requires w == TWO.wallets["v"] || w == THREE.wallets["v"]
    ensures RevokeFactor(w, "x") == Some(THREE.wallets["v"])
  {
    assert w.table.active - {"x"} == map["y" := KEY] && w.table.spent + {"x"} == {"x"};
    assert |map["x" := KEY, "y" := KEY]| == 2;
  }

  lemma Removing(h: Holdings, p: Pending, c: Completion, h': Holdings)
    requires p.kind == CredentialRemove && p.wallet == Some("v") && p.target == Some("x")
    requires c == Proof(c.operation, CredentialRemove, "y", "y", true)
    requires "v" in h.wallets && (h.wallets["v"] == TWO.wallets["v"] || h.wallets["v"] == THREE.wallets["v"])
    requires "y" in h.credentials && h.credentials["y"] == "v"
    requires h' == Holdings(h.wallets["v" := THREE.wallets["v"]], h.credentials - {"x"})
    ensures ApplyCustody(h, p, c) == Some(h')
  {
    Revokes(h.wallets["v"]);
  }

  lemma ReachesOne(s: Service)
    requires Idle(s, Holdings(map[], map[]), {})
    ensures Idle(Run(s, Script("1", WalletRegistration, "v", "", "x", "x")), ONE, {"1"})
  {
    var h := Holdings(map[], map[]);
    Registering(h, Pending(WalletRegistration, "ceremony", "request", Some("v"), Some(""), AuthorityGeneration(s, Some("v")), 100),
                Proof("1", WalletRegistration, "x", "x", true), "v");
    Advances(s, h, {}, "1", WalletRegistration, "v", "", "x", "x", ONE);
  }

  lemma ReachesTwo(s: Service)
    requires Idle(s, ONE, {"1"})
    ensures Idle(Run(s, Script("2", CredentialAdd, "v", "", "x", "y")), TWO, {"1"} + {"2"})
  {
    Adding(Pending(CredentialAdd, "ceremony", "request", Some("v"), Some(""), AuthorityGeneration(s, Some("v")), 100),
           Proof("2", CredentialAdd, "x", "y", true));
    Advances(s, ONE, {"1"}, "2", CredentialAdd, "v", "", "x", "y", TWO);
  }

  lemma ReachesThree(s: Service, done: set<string>)
    requires Idle(s, TWO, done) && "3" !in done
    ensures Idle(Run(s, Script("3", CredentialRemove, "v", "x", "y", "y")), THREE, done + {"3"})
  {
    assert TWO.wallets["v" := THREE.wallets["v"]] == THREE.wallets && TWO.credentials - {"x"} == THREE.credentials;
    Removing(TWO, Pending(CredentialRemove, "ceremony", "request", Some("v"), Some("x"), AuthorityGeneration(s, Some("v")), 100),
             Proof("3", CredentialRemove, "y", "y", true), THREE);
    Advances(s, TWO, done, "3", CredentialRemove, "v", "x", "y", "y", THREE);
  }

  lemma ReachesFour(s: Service, done: set<string>)
    requires Idle(s, THREE, done) && "4" !in done
    ensures Idle(Run(s, Script("4", WalletRegistration, "w", "", "x", "x")), FOUR, done + {"4"})
  {
    assert THREE.credentials["x" := "w"] == FOUR.credentials;
    Registering(THREE, Pending(WalletRegistration, "ceremony", "request", Some("w"), Some(""), AuthorityGeneration(s, Some("w")), 100),
                Proof("4", WalletRegistration, "x", "x", true), "w");
    Advances(s, THREE, done, "4", WalletRegistration, "w", "", "x", "x", FOUR);
  }

  lemma ReachesFive(s: Service, done: set<string>)
    requires Idle(s, FOUR, done) && "5" !in done
    ensures HoldingsOf(Run(s, Script("5", CredentialRemove, "v", "x", "y", "y"))) == FIVE
  {
    assert FOUR.wallets["v" := THREE.wallets["v"]] == FIVE.wallets && FOUR.credentials - {"x"} == FIVE.credentials;
    Removing(FOUR, Pending(CredentialRemove, "ceremony", "request", Some("v"), Some("x"), AuthorityGeneration(s, Some("v")), 100),
             Proof("5", CredentialRemove, "y", "y", true), FIVE);
    Advances(s, FOUR, done, "5", CredentialRemove, "v", "x", "y", "y", FIVE);
  }

  lemma FirstTwo(s: Service) returns (commands: seq<Command>)
    requires Idle(s, Holdings(map[], map[]), {})
    ensures Idle(Run(s, commands), TWO, {"1"} + {"2"})
  {
    var a, b := Script("1", WalletRegistration, "v", "", "x", "x"), Script("2", CredentialAdd, "v", "", "x", "y");
    commands := a + b;
    RunConcat(s, a, b);
    ReachesOne(s);
    ReachesTwo(Run(s, a));
  }

  lemma NextTwo(s: Service, done: set<string>) returns (commands: seq<Command>)
    requires Idle(s, TWO, done) && "3" !in done && "4" !in done
    ensures Idle(Run(s, commands), FOUR, done + {"3"} + {"4"})
  {
    var c, d := Script("3", CredentialRemove, "v", "x", "y", "y"), Script("4", WalletRegistration, "w", "", "x", "x");
    commands := c + d;
    RunConcat(s, c, d);
    ReachesThree(s, done);
    ReachesFour(Run(s, c), done + {"3"});
  }

  lemma BindingsAtReuse()
    ensures Exact(FOUR) && !Exact(FIVE)
  {
    assert IsActive(FIVE, "x", "w") && !IsBound(FIVE, "x", "w");
  }

  lemma ReachesReuse(s: Service) returns (commands: seq<Command>)
    requires Idle(s, Holdings(map[], map[]), {})
    ensures Idle(Run(s, commands), FOUR, {"1"} + {"2"} + {"3"} + {"4"})
  {
    var first := FirstTwo(s);
    var next := NextTwo(Run(s, first), {"1"} + {"2"});
    RunConcat(s, first, next);
    commands := first + next;
  }

  /** From an empty service: a run that keeps bindings exact, and one more removal that breaks them. */
  lemma ReuseBreaksBindings() returns (commands: seq<Command>, removal: seq<Command>)
    ensures Exact(HoldingsOf(Run(EMPTY, commands)))
    ensures !Exact(HoldingsOf(Run(Run(EMPTY, commands), removal)))
  {
    commands := ReachesReuse(EMPTY);
    removal := SecondRemoval(Run(EMPTY, commands));
    BindingsAtReuse();
  }

  lemma SecondRemoval(s: Service) returns (removal: seq<Command>)
    requires Idle(s, FOUR, {"1"} + {"2"} + {"3"} + {"4"})
    ensures HoldingsOf(Run(s, removal)) == FIVE
  {
    removal := Script("5", CredentialRemove, "v", "x", "y", "y");
    ReachesFive(s, {"1"} + {"2"} + {"3"} + {"4"});
  }
}
