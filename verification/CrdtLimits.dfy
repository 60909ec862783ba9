/**
 How far convergence over runs goes: which node ids the nodes may write under, and how much they may count,
 so that all states the same events have reached agree.
 */
module CrdtLimits {
  import opened Machine
  import opened Wrappers
  import opened Text
  import opened Maps
  import opened CrdtMemory
  import opened CrdtRuns

  // ---------- building runs ----------

  lemma RunMore<V>(nodes: set<string>, actions: seq<Action<V>>, a: Action<V>)
    ensures Run(nodes, actions + [a]) == Next(Run(nodes, actions), a)
  {
    assert (actions + [a])[..|actions|] == actions;
  }

  lemma Sends<V>(s: System<V>, n: string)
    requires n in s.replicas
    ensures Next(s, Send(n)) == System(s.log, s.replicas, s.network + {s.replicas[n]})
  {
  }

  lemma Delivers<V>(s: System<V>, n: string, message: Replica<V>)
    requires n in s.replicas && message in s.network
    ensures Next(s, Deliver(n, message))
         == System(s.log, s.replicas[n := Merged(s.replicas[n], message)], s.network)
  {
  }

  lemma Acts<V>(s: System<V>, n: string, op: Op<V>)
    requires n in s.replicas && n in s.log && Effective(op, s.replicas[n].memory)
    ensures Next(s, Local(n, op)) == System(LogWith(s.log, n, op), s.replicas[n := After(s, n, op)], s.network)
  {
  }

  ghost function After<V>(s: System<V>, n: string, op: Op<V>): Replica<V>
    requires n in s.replicas && n in s.log
  {
    Replica(ApplyOp(n, op, s.replicas[n].memory), SeenWith(s.log, n, s.replicas[n].seen))
  }

  // Two nodes send each other the states they have.
  lemma Exchange<V>(nodes: set<string>, before: seq<Action<V>>, n: string, m: string) returns (actions: seq<Action<V>>)
    requires n != m && n in Run(nodes, before).replicas && m in Run(nodes, before).replicas
    ensures var s, s' := Run(nodes, before), Run(nodes, actions);
      && s'.log == s.log && n in s'.replicas && m in s'.replicas
      && s'.replicas[n] == Merged(s.replicas[n], s.replicas[m])
      && s'.replicas[m] == Merged(s.replicas[m], s.replicas[n])
  {
    hide Run, Next, Merged;
    var s := Run(nodes, before);
    var x, y := s.replicas[n], s.replicas[m];
    var p, q, r := before + [Send(n)], before + [Send(n)] + [Send(m)], before + [Send(n)] + [Send(m)] + [Deliver(n, y)];
    actions := r + [Deliver(m, x)];
    RunMore(nodes, before, Send(n));
    RunMore(nodes, p, Send(m));
    RunMore(nodes, q, Deliver(n, y));
    RunMore(nodes, r, Deliver(m, x));
    Sends(s, n);
    Sends(Run(nodes, p), m);
    Delivers(Run(nodes, q), n, y);
    Delivers(Run(nodes, r), m, x);
  }

  // Node `n` acts between two deliveries of its state to node `m`.
  lemma FallBehind<V>(nodes: set<string>, before: seq<Action<V>>, n: string, m: string, op: Op<V>)
    returns (actions: seq<Action<V>>)
    requires n != m && n in Run(nodes, before).replicas && m in Run(nodes, before).replicas
    requires n in Run(nodes, before).log && Effective(op, Run(nodes, before).replicas[n].memory)
    ensures var s, s' := Run(nodes, before), Run(nodes, actions);
      && s'.log == LogWith(s.log, n, op) && n in s'.replicas && m in s'.replicas
      && s'.replicas[n] == After(s, n, op)
      && s'.replicas[m] == Merged(Merged(s.replicas[m], s.replicas[n]), After(s, n, op))
  {
    hide Run, Next, Merged, ApplyOp, Effective;
    var s := Run(nodes, before);
    var x, y := s.replicas[n], After(s, n, op);
    var p := before + [Send(n)];
    var q := p + [Deliver(m, x)];
    var r := q + [Local(n, op)];
    var t := r + [Send(n)];
    actions := t + [Deliver(m, y)];
    RunMore(nodes, before, Send(n));
    RunMore(nodes, p, Deliver(m, x));
    RunMore(nodes, q, Local(n, op));
    RunMore(nodes, r, Send(n));
    RunMore(nodes, t, Deliver(m, y));
    Sends(s, n);
    Delivers(Run(nodes, p), m, x);
    Acts(Run(nodes, q), n, op);
    Sends(Run(nodes, r), n);
    Delivers(Run(nodes, t), m, y);
  }

  // ---------- registers ----------

  // Which node may write under which id.
  type Policy = (string, string) -> bool

  ghost predicate KeepsTo<V>(allowed: Policy, log: Log<V>) {
    forall n, i :: n in log && 0 <= i < |log[n]| && log[n][i].Write? ==> allowed(n, log[n][i].register.nodeId)
  }

  ghost predicate SoleHolders(allowed: Policy) {
    forall n, m, id :: allowed(n, id) && allowed(m, id) ==> n == m
  }

  // In all runs that keep to the policy, states with the same events have the same registers.
  ghost predicate RegistersConverge<V(!new)>(allowed: Policy) {
    forall nodes, actions: seq<Action<V>>, a, b ::
      (&& KeepsTo(allowed, Run(nodes, actions).log)
       && Held(Run(nodes, actions), a) && Held(Run(nodes, actions), b) && a.seen == b.seen)
        ==> a.memory.hive == b.memory.hive
  }

  lemma KeptIsSole<V>(allowed: Policy, log: Log<V>)
    requires SoleHolders(allowed) && KeepsTo(allowed, log)
    ensures SoleAuthors(log)
  {
    forall n, m, id | WritesUnder(log, n, id) && WritesUnder(log, m, id) ensures n == m {
      assert allowed(n, id) && allowed(m, id);
    }
  }

  function Writing<V>(id: string, value: V): Op<V> {
    Write("k", Register(value, 0, id))
  }

  // Two nodes each write a register under the same id.
  lemma BothWrite<V>(n: string, m: string, id: string, v: V, w: V) returns (actions: seq<Action<V>>)
    requires n != m
    ensures var s := Run({n, m}, actions);
      && s.log == map[n := [Writing(id, v)], m := [Writing(id, w)]] && s.replicas.Keys == {n, m}
      && s.replicas[n].memory.hive == map["k" := Register(v, 0, id)]
      && s.replicas[m].memory.hive == map["k" := Register(w, 0, id)]
  {
    var none: seq<Action<V>> := [];
    var p := none + [Local(n, Writing(id, v))];
    actions := p + [Local(m, Writing(id, w))];
    RunMore({n, m}, none, Local(n, Writing(id, v)));
    RunMore({n, m}, p, Local(m, Writing(id, w)));
    WriteSets(n, id, v);
    WriteSets(m, id, w);
    var s := Initial<V>({n, m});
    assert Run({n, m}, none) == s;
    hide Run, Next, ApplyOp;
    Acts(s, n, Writing(id, v));
    Acts(Run({n, m}, p), m, Writing(id, w));
    assert s.log[n] + [Writing(id, v)] == [Writing(id, v)] && s.log[m] + [Writing(id, w)] == [Writing(id, w)];
    assert Run({n, m}, actions).log == map[n := [Writing(id, v)], m := [Writing(id, w)]];
  }

  lemma WriteSets<V>(n: string, id: string, v: V)
    ensures ApplyOp(n, Writing(id, v), Memory(map[], None, map[], map[])).hive == map["k" := Register(v, 0, id)]
  {
  }

  lemma FirstStays<V>(a: Memory<V>, b: Memory<V>, id: string, v: V, w: V)
    requires a.hive == map["k" := Register(v, 0, id)] && b.hive == map["k" := Register(w, 0, id)]
    ensures Join(a, b).hive == a.hive
  {
    LexTotal(id, id);
  }

  // Two nodes that write different values under one id end with the same events and different registers.
  lemma ForeignWritesDiverge<V>(n: string, m: string, id: string, v: V, w: V)
    returns (actions: seq<Action<V>>, a: Replica<V>, b: Replica<V>)
    requires n != m && v != w
    ensures Run({n, m}, actions).log == map[n := [Writing(id, v)], m := [Writing(id, w)]]
    ensures Held(Run({n, m}, actions), a) && Held(Run({n, m}, actions), b) && a.seen == b.seen
    ensures a.memory.hive == map["k" := Register(v, 0, id)] && b.memory.hive == map["k" := Register(w, 0, id)]
  {
    hide Run, Join;
    var before := BothWrite(n, m, id, v, w);
    var s := Run({n, m}, before);
    actions := Exchange({n, m}, before, n, m);
    a, b := Run({n, m}, actions).replicas[n], Run({n, m}, actions).replicas[m];
    FirstStays(s.replicas[n].memory, s.replicas[m].memory, id, v, w);
    FirstStays(s.replicas[m].memory, s.replicas[n].memory, id, w, v);
  }

  // Registers converge under a policy exactly when it lets no two nodes write under one id.
  lemma RegistersConvergeIff<V(!new)>(allowed: Policy, v: V, w: V)
    requires v != w
    ensures RegistersConverge<V>(allowed) <==> SoleHolders(allowed)
  {
    hide Run, Held;
    if SoleHolders(allowed) {
      forall nodes, actions: seq<Action<V>>, a, b |
        && KeepsTo(allowed, Run(nodes, actions).log)
        && Held(Run(nodes, actions), a) && Held(Run(nodes, actions), b) && a.seen == b.seen
        ensures a.memory.hive == b.memory.hive
      {
        KeptIsSole(allowed, Run(nodes, actions).log);
        EventualConvergence(nodes, actions, a, b);
      }
    } else {
      var n, m, id :| allowed(n, id) && allowed(m, id) && n != m;
      var actions, a, b := ForeignWritesDiverge(n, m, id, v, w);
      assert a.memory.hive["k"] != b.memory.hive["k"];
      assert KeepsTo(allowed, Run({n, m}, actions).log);
    }
  }

  // ---------- counts ----------

  function Unit<V>(kind: Kind): Op<V> {
    match kind
    case Ephemeral => Increment(1)
    case Clock => Tick
  }

  // One node has counted to `k` while the other did nothing.
  ghost predicate CountedTo<V>(kind: Kind, k: nat, s: System<V>) {
    && s.log.Keys == s.replicas.Keys == {"a", "b"}
    && Total(kind, s.log["a"]) == k && s.log["b"] == [] && s.replicas["b"].seen == {}
  }

  lemma CountedToNothing<V>(kind: Kind)
    ensures CountedTo(kind, 0, Run<V>({"a", "b"}, []))
  {
  }

  lemma CountedOneMore<V>(kind: Kind, k: nat, s: System<V>)
    requires CountedTo(kind, k, s)
    ensures CountedTo(kind, k + 1, Next(s, Local("a", Unit(kind))))
  {
    hide Next, ApplyOp, Total, Touched;
    Acts(s, "a", Unit(kind));
    OneUnit<V>(kind);
    TouchedAppend(kind, s.log["a"], Unit(kind));
  }

  lemma OneUnit<V>(kind: Kind)
    ensures Amount<V>(kind, Unit(kind)) == 1
  {
  }

  lemma {:induction false} CountTo<V>(kind: Kind, k: nat) returns (actions: seq<Action<V>>)
    ensures CountedTo(kind, k, Run({"a", "b"}, actions))
  {
    hide *;
    if k == 0 {
      actions := [];
      CountedToNothing<V>(kind);
    } else {
      var before := CountTo<V>(kind, k - 1);
      actions := before + [Local("a", Unit(kind))];
      RunMore({"a", "b"}, before, Local("a", Unit(kind)));
      CountedOneMore(kind, k - 1, Run({"a", "b"}, before));
    }
  }

  lemma OneMore<V>(kind: Kind, n: string, m: Memory<V>)
    ensures Read(CountsOf(kind, ApplyOp(n, Unit(kind), m)), n) == WrapAdd(Read(CountsOf(kind, m), n), 1)
  {
  }

  lemma LargerStays<V>(kind: Kind, a: Memory<V>, b: Memory<V>, c: Memory<V>, n: string)
    ensures Read(CountsOf(kind, Join(Join(a, b), c)), n) >= Read(CountsOf(kind, b), n)
  {
  }

  // The first count that wraps: one node has counted to 2^64, one step after another node was told, and
  // the two end with the same events and different counts.
  lemma WrappedCountsDiverge<V(!new)>(kind: Kind) returns (actions: seq<Action<V>>, a: Replica<V>, b: Replica<V>)
    ensures var s := Run({"a", "b"}, actions);
      && s.log.Keys == {"a", "b"} && Total(kind, s.log["a"]) == TWO64 && s.log["b"] == []
      && Held(s, a) && Held(s, b) && a.seen == b.seen
    ensures Read(CountsOf(kind, a.memory), "a") == 0 && Read(CountsOf(kind, b.memory), "a") == TWO64 - 1
  {
    hide Run, Total, Counted, Closed, Join, ApplyOp;
    var before := CountTo<V>(kind, TWO64 - 1);
    var s := Run({"a", "b"}, before);
    FullCount(kind, before);
    actions := FallBehind({"a", "b"}, before, "a", "b", Unit(kind));
    var s' := Run({"a", "b"}, actions);
    a, b := s'.replicas["a"], s'.replicas["b"];
    var x, y := s.replicas["a"].memory, s.replicas["b"].memory;
    OneMore(kind, "a", x);
    LargerStays(kind, y, x, a.memory, "a");
    TouchedAppend(kind, s.log["a"], Unit(kind));
  }

  lemma FullCount<V(!new)>(kind: Kind, actions: seq<Action<V>>)
    requires CountedTo(kind, TWO64 - 1, Run({"a", "b"}, actions))
    ensures "a" in Run({"a", "b"}, actions).replicas
    ensures Read(CountsOf(kind, Run({"a", "b"}, actions).replicas["a"].memory), "a") == TWO64 - 1
  {
    var s := Run({"a", "b"}, actions);
    hide Run, Counted, Closed;
    RunInv({"a", "b"}, actions);
    RunState(kind, {"a", "b"}, actions, s.replicas["a"]);
    CompleteReads(kind, s.log, "a", s.replicas["a"]);
  }

  ghost predicate TotalsWithin<V>(kind: Kind, bound: nat, log: Log<V>) {
    forall n :: n in log ==> Total(kind, log[n]) <= bound
  }

  // In all runs in which no node counts beyond the bound, states with the same events have the same counts.
  ghost predicate CountsConverge<V(!new)>(kind: Kind, bound: nat) {
    forall nodes, actions: seq<Action<V>>, a, b ::
      (&& TotalsWithin(kind, bound, Run(nodes, actions).log)
       && Held(Run(nodes, actions), a) && Held(Run(nodes, actions), b) && a.seen == b.seen)
        ==> CountsOf(kind, a.memory) == CountsOf(kind, b.memory)
  }

  // Counts converge within a bound exactly when the bound is below 2^64.
  lemma CountsConvergeIff<V(!new)>(kind: Kind, bound: nat)
    ensures CountsConverge<V>(kind, bound) <==> bound < TWO64
  {
    hide Run, Held, Total;
    if bound < TWO64 {
      forall nodes, actions: seq<Action<V>>, a, b |
        && TotalsWithin(kind, bound, Run(nodes, actions).log)
        && Held(Run(nodes, actions), a) && Held(Run(nodes, actions), b) && a.seen == b.seen
        ensures CountsOf(kind, a.memory) == CountsOf(kind, b.memory)
      {
        EventualConvergence(nodes, actions, a, b);
      }
    } else {
      var actions, a, b := WrappedCountsDiverge<V>(kind);
      NothingCounted<V>(kind);
      assert TotalsWithin(kind, bound, Run({"a", "b"}, actions).log);
    }
  }

  lemma NothingCounted<V>(kind: Kind)
    ensures Total<V>(kind, []) == 0
  {
  }
}
