/**
 What a derivation namespace hands out: consecutive indexes from its start, below its limit, never
 a path that is registered or tombstoned.
 */
module LocalBackendAllocation {
  import opened Limits
  import opened Wrappers
  import opened LocalBackend
  import opened LocalBackendTheorems

  function NamespaceOf(st: State, id: string): Option<Namespace> {
    match FindNamespace(st.backup.namespaces, id)
    case None => None
    case Some(i) => Some(st.backup.namespaces[i])
  }

  /** The namespace after `k` more allocations. */
  function Ahead(n: Namespace, k: nat): Namespace { n.(next := n.next + k) }

  /** The step allocates a new key in the namespace. */
  predicate AllocatesIn(p: Primitives, st: State, c: Command, id: string) {
    && c.AllocateCmd? && c.namespace == id
    && !(c.op.Some? && c.op.value in st.backup.pending)
    && Allocate(p, st, c.parent, c.namespace, c.authority, c.op, c.persistOk).1.Ok?
  }

  /** A new allocation takes the namespace's next index, below its limit, on an unused path. */
  lemma AllocationTakesNext(p: Primitives, st: State, c: Command, id: string)
    requires AllocatesIn(p, st, c, id)
    ensures NamespaceOf(st, id).Some?
    ensures var n := NamespaceOf(st, id).value;
            var d := Allocate(p, st, c.parent, id, c.authority, c.op, c.persistOk).1.value;
            && d.key.derivation.Some? && d.key.derivation.value.path == PathAt(n.prefix, n.next, c.parent.ed25519)
            && n.next < n.limit && n.next < HARDENED_OFFSET
            && d.key.derivation.value.path !in st.backup.tombstones
            && !HasPath(st.backup.registry, d.key.derivation.value.path)
            && HasPath(Step(p, st, c).backup.registry, d.key.derivation.value.path)
            && Step(p, st, c).backup.namespaces
               == st.backup.namespaces[FindNamespace(st.backup.namespaces, id).value := n.(next := n.next + 1)]
  {
    var d := Allocate(p, st, c.parent, id, c.authority, c.op, c.persistOk).1.value;
    var registry' := Step(p, st, c).backup.registry;
    assert registry' == st.backup.registry + [d.key];
    assert registry'[|st.backup.registry|] == d.key;
  }

  lemma FindUnchanged(a: seq<Namespace>, b: seq<Namespace>, id: string)
    requires |a| <= |b| && forall i :: 0 <= i < |a| ==> a[i].id == b[i].id
    requires FindNamespace(a, id).Some?
    ensures FindNamespace(b, id) == FindNamespace(a, id)
  {
  }

  lemma RegisterKeepsNamespaces(p: Primitives, st: State, c: Command)
    requires Registers(c)
    ensures Step(p, st, c).backup.namespaces == st.backup.namespaces
  {
    EnteredIsRegistered(p, st, c);
  }

  /** A request that allocates nothing changes nothing. */
  lemma RefusedKeepsBackup(p: Primitives, st: State, c: Command)
    requires c.AllocateCmd? && !AllocatesIn(p, st, c, c.namespace)
    ensures Step(p, st, c) == st
  {
  }

  /** Any other step leaves the namespaces alone, except that configuring may append one. */
  lemma OtherStepsKeepNamespaces(p: Primitives, st: State, c: Command, id: string)
    requires Persisted(st) && !AllocatesIn(p, st, c, id)
    ensures var a, b := st.backup.namespaces, Step(p, st, c).backup.namespaces;
            || b == a
            || (c.ConfigureCmd? && |b| == |a| + 1 && b[..|a|] == a)
            || (c.AllocateCmd? && c.namespace != id && AllocatesIn(p, st, c, c.namespace))
  {
    if Registers(c) {
      RegisterKeepsNamespaces(p, st, c);
    } else if c.AllocateCmd? && !AllocatesIn(p, st, c, c.namespace) {
      RefusedKeepsBackup(p, st, c);
    } else if LocksOnly(c) {
      LockStep(p, st, c);
    }
  }

  /** One step moves a namespace's counter by one exactly when it allocates in it, and nothing else of it. */
  lemma CounterStep(p: Primitives, st: State, c: Command, id: string)
    requires Persisted(st) && NamespaceOf(st, id).Some?
    ensures NamespaceOf(Step(p, st, c), id)
            == Some(Ahead(NamespaceOf(st, id).value, if AllocatesIn(p, st, c, id) then 1 else 0))
  {
    var a, b := st.backup.namespaces, Step(p, st, c).backup.namespaces;
    if AllocatesIn(p, st, c, id) {
      AllocationTakesNext(p, st, c, id);
      FindUnchanged(a, b, id);
    } else {
      OtherStepsKeepNamespaces(p, st, c, id);
      if c.AllocateCmd? && c.namespace != id && AllocatesIn(p, st, c, c.namespace) {
        AllocationTakesNext(p, st, c, c.namespace);
        FindUnchanged(a, b, id);
      } else if b != a {
        assert forall i :: 0 <= i < |a| ==> b[..|a|][i] == b[i];
        FindUnchanged(a, b, id);
      }
    }
  }

  function Allocations(p: Primitives, st: State, commands: seq<Command>, id: string): nat
    decreases |commands|
  {
    if commands == [] then 0
    else (if AllocatesIn(p, st, commands[0], id) then 1 else 0) + Allocations(p, Step(p, st, commands[0]), commands[1..], id)
  }

  // ---------------------------------------------------------------- counting, whatever the steps do

  function Fold<S, C>(step: (S, C) -> S, s: S, cs: seq<C>): S {
    if cs == [] then s else Fold(step, step(s, cs[0]), cs[1..])
  }

  function Count<S, C>(step: (S, C) -> S, hit: (S, C) -> bool, s: S, cs: seq<C>): nat {
    if cs == [] then 0 else (if hit(s, cs[0]) then 1 else 0) + Count(step, hit, step(s, cs[0]), cs[1..])
  }

  /** A namespace that every step moves by one when it hits and by nothing otherwise is moved by the number of hits. */
  lemma {:induction false} MovesByHits<S(!new), C(!new)>(step: (S, C) -> S, hit: (S, C) -> bool, look: S -> Option<Namespace>,
                                                         sound: S -> bool, s: S, cs: seq<C>, n: Namespace)
    requires forall t, c :: sound(t) && look(t).Some? ==>
               sound(step(t, c)) && look(step(t, c)) == Some(Ahead(look(t).value, if hit(t, c) then 1 else 0))
    requires sound(s) && look(s) == Some(n)
    ensures look(Fold(step, s, cs)) == Some(Ahead(n, Count(step, hit, s, cs)))
    decreases |cs|
  {
    if cs != [] {
      MovesByHits(step, hit, look, sound, step(s, cs[0]), cs[1..], Ahead(n, if hit(s, cs[0]) then 1 else 0));
    }
  }

  lemma {:induction false} RunIsFold(p: Primitives, step: (State, Command) -> State, st: State, commands: seq<Command>)
    requires forall s, c :: step(s, c) == Step(p, s, c)
    ensures Run(p, st, commands) == Fold(step, st, commands)
    decreases |commands|
  {
    if commands != [] {
      RunIsFold(p, step, step(st, commands[0]), commands[1..]);
    }
  }

  lemma {:induction false} AllocationsAreCount(p: Primitives, step: (State, Command) -> State, hit: (State, Command) -> bool,
                                               st: State, commands: seq<Command>, id: string)
    requires forall s, c :: step(s, c) == Step(p, s, c)
    requires forall s, c :: hit(s, c) == AllocatesIn(p, s, c, id)
    ensures Allocations(p, st, commands, id) == Count(step, hit, st, commands)
    decreases |commands|
  {
    if commands != [] {
      AllocationsAreCount(p, step, hit, step(st, commands[0]), commands[1..], id);
    }
  }

  /** The counter is the start plus the number of allocations, so the k-th allocation gets start + k. */
  lemma CounterCountsAllocations(p: Primitives, st: State, commands: seq<Command>, id: string, n: Namespace)
    requires Persisted(st) && NamespaceOf(st, id) == Some(n)
    ensures NamespaceOf(Run(p, st, commands), id) == Some(Ahead(n, Allocations(p, st, commands, id)))
  {
    var step, hit := (s, c) => Step(p, s, c), (s, c) => AllocatesIn(p, s, c, id);
    forall s, c | Persisted(s) && NamespaceOf(s, id).Some?
      ensures Persisted(Step(p, s, c))
              && NamespaceOf(Step(p, s, c), id) == Some(Ahead(NamespaceOf(s, id).value, if AllocatesIn(p, s, c, id) then 1 else 0))
    {
      CounterStep(p, s, c, id);
      StepKeepsBackend(p, s, c);
    }
    MovesByHits(step, hit, s => NamespaceOf(s, id), s => Persisted(s), st, commands, n);
    RunIsFold(p, step, st, commands);
    AllocationsAreCount(p, step, hit, st, commands, id);
  }

  /** An allocation in a namespace takes its next index. */
  lemma NextIn(p: Primitives, st: State, n: Namespace, c: Command)
    requires NamespaceOf(st, n.id) == Some(n) && AllocatesIn(p, st, c, n.id)
    ensures var d := Allocate(p, st, c.parent, n.id, c.authority, c.op, c.persistOk).1.value;
            && d.key.derivation.Some? && d.key.derivation.value.path == PathAt(n.prefix, n.next, c.parent.ed25519)
            && n.next < n.limit
  {
    AllocationTakesNext(p, st, c, n.id);
  }

  /** A freshly granted namespace: its k-th allocation has index start + k < start + maximum <= 2^31. */
  lemma KthAllocation(p: Primitives, st: State, g: Grant, authority: Option<string>, st1: State, commands: seq<Command>, c: Command)
    requires Persisted(st) && NamespaceOf(st, g.namespace).None?
    requires ConfigureNamespace(p, st, g, authority, true) == (st1, Ok(())) && AllocatesIn(p, Run(p, st1, commands), c, g.namespace)
    ensures var k := Allocations(p, st1, commands, g.namespace);
            var d := Allocate(p, Run(p, st1, commands), c.parent, g.namespace, c.authority, c.op, c.persistOk).1.value;
            && d.key.derivation.Some? && d.key.derivation.value.path == PathAt(g.prefix, g.start + k, c.parent.ed25519)
            && g.start + k < g.start + g.maximum <= HARDENED_OFFSET
  {
    Granted(p, st, g, authority, st1);
    var n := Namespace(g.namespace, g.prefix, g.start, g.start + g.maximum, authority.value);
    CounterCountsAllocations(p, st1, commands, g.namespace, n);
    NextIn(p, Run(p, st1, commands), Ahead(n, Allocations(p, st1, commands, g.namespace)), c);
  }

  lemma Granted(p: Primitives, st: State, g: Grant, authority: Option<string>, st1: State)
    requires Persisted(st) && NamespaceOf(st, g.namespace).None? && ConfigureNamespace(p, st, g, authority, true) == (st1, Ok(()))
    ensures Persisted(st1) && authority.Some?
    ensures NamespaceOf(st1, g.namespace) == Some(Namespace(g.namespace, g.prefix, g.start, g.start + g.maximum, authority.value))
    ensures g.start + g.maximum <= HARDENED_OFFSET
  {
    var a, b := st.backup.namespaces, st1.backup.namespaces;
    assert |b| == |a| + 1 && b[|a|].id == g.namespace;
    assert forall i :: 0 <= i < |a| ==> b[i] == a[i];
  }

  /** A tombstoned path stays tombstoned, and no later allocation returns it. */
  lemma {:induction false} TombstonedForever(p: Primitives, st: State, commands: seq<Command>, path: string)
    requires Persisted(st) && path in st.backup.tombstones
    ensures path in Run(p, st, commands).backup.tombstones
    decreases |commands|
  {
    if commands != [] {
      TombstonesStay(p, st, commands[0], path);
      StepKeepsBackend(p, st, commands[0]);
      TombstonedForever(p, Step(p, st, commands[0]), commands[1..], path);
    }
  }

  lemma AllocateKeepsTombstones(p: Primitives, st: State, c: Command)
    requires c.AllocateCmd?
    ensures Step(p, st, c).backup.tombstones == st.backup.tombstones
  {
  }

  lemma RegisterKeepsTombstones(p: Primitives, st: State, c: Command)
    requires Registers(c)
    ensures Step(p, st, c).backup.tombstones == st.backup.tombstones
  {
    EnteredIsRegistered(p, st, c);
  }

  lemma TombstonesStay(p: Primitives, st: State, c: Command, path: string)
    requires Persisted(st) && path in st.backup.tombstones
    ensures path in Step(p, st, c).backup.tombstones
  {
    if c.AllocateCmd? {
      AllocateKeepsTombstones(p, st, c);
    } else if Registers(c) {
      RegisterKeepsTombstones(p, st, c);
    } else if LocksOnly(c) {
      LockStep(p, st, c);
    }
  }

  lemma TombstonedNeverAllocated(p: Primitives, st: State, commands: seq<Command>, path: string, c: Command, id: string)
    requires Persisted(st) && path in st.backup.tombstones && AllocatesIn(p, Run(p, st, commands), c, id)
    ensures var d := Allocate(p, Run(p, st, commands), c.parent, id, c.authority, c.op, c.persistOk).1.value;
            d.key.derivation.Some? && d.key.derivation.value.path != path
  {
    TombstonedForever(p, st, commands, path);
    AllocationTakesNext(p, Run(p, st, commands), c, id);
  }
}
