/**
 Replicas of the memory exchanging states over a network that loses, repeats and reorders them.
 Every local operation is an event; a replica carries the set of events that have reached it, directly
 or through merges. The memory of a replica is a function of that set.
 */
module CrdtRuns {
  import opened Machine
  import opened Wrappers
  import opened Maps
  import opened CrdtMemory

  datatype Op<V> =
    | Write(key: string, register: Register<V>)
    | Add(element: string, author: string, timestamp: u64)
    | Remove(element: string, author: string, timestamp: u64)
    | Increment(delta: u64)
    | Tick

  datatype EventId = EventId(node: string, index: nat)

  datatype Replica<V> = Replica(memory: Memory<V>, seen: set<EventId>)

  type Log<V> = map<string, seq<Op<V>>>

  datatype System<V(==)> = System(log: Log<V>, replicas: map<string, Replica<V>>, network: set<Replica<V>>)

  datatype Action<V> = Local(node: string, op: Op<V>) | Send(node: string) | Deliver(node: string, message: Replica<V>)

  // A node writes a register by joining it in, and counts and ticks under its own name only.
  function ApplyOp<V>(node: string, op: Op<V>, m: Memory<V>): Memory<V> {
    match op
    case Write(key, register) => m.(hive := Pointwise(MergeRegister, m.hive, map[key := register]))
    case Add(element, author, timestamp) => m.(seal := Some(AddElement(Sealed(m.seal), element, author, timestamp)))
    case Remove(element, author, timestamp) =>
      m.(seal := Some(RemoveElement(Sealed(m.seal), element, author, timestamp)))
    case Increment(delta) => m.(ephemeral := m.ephemeral[node := WrapAdd(Read(m.ephemeral, node), delta)])
    case Tick => m.(clock := m.clock[node := WrapAdd(Read(m.clock, node), 1)])
  }

  // Removing an unknown element is no event: it changes nothing.
  predicate Effective<V>(op: Op<V>, m: Memory<V>) {
    op.Remove? ==> op.element in Sealed(m.seal)
  }

  function Merged<V>(a: Replica<V>, b: Replica<V>): Replica<V> {
    Replica(Join(a.memory, b.memory), a.seen + b.seen)
  }

  ghost function Initial<V>(nodes: set<string>): System<V> {
    System(map n | n in nodes :: [],
           map n | n in nodes :: Replica(Memory(map[], None, map[], map[]), {}),
           {})
  }

  ghost function Next<V>(s: System<V>, a: Action<V>): System<V> {
    match a
    case Local(n, op) =>
      if n in s.replicas && n in s.log && Effective(op, s.replicas[n].memory) then
        var r := s.replicas[n];
        System(s.log[n := s.log[n] + [op]],
               s.replicas[n := Replica(ApplyOp(n, op, r.memory), r.seen + {EventId(n, |s.log[n]|)})],
               s.network)
      else s
    case Send(n) =>
      if n in s.replicas then s.(network := s.network + {s.replicas[n]}) else s
    case Deliver(n, message) =>
      if n in s.replicas && message in s.network then
        s.(replicas := s.replicas[n := Merged(s.replicas[n], message)])
      else s
  }

  ghost function Run<V>(nodes: set<string>, actions: seq<Action<V>>): System<V> {
    if actions == [] then Initial(nodes)
    else Next(Run(nodes, actions[..|actions| - 1]), actions[|actions| - 1])
  }

  // ---------- what a set of events says the memory holds ----------

  ghost predicate Known<V>(log: Log<V>, e: EventId) {
    e.node in log && e.index < |log[e.node]|
  }

  // Only real events, and with an event all earlier ones of its node.
  ghost predicate Closed<V>(log: Log<V>, seen: set<EventId>) {
    && (forall e :: e in seen ==> Known(log, e))
    && (forall n, i: nat, j: nat :: EventId(n, i) in seen && j < i ==> EventId(n, j) in seen)
  }

  predicate Adds<V>(op: Op<V>, element: string, author: string) {
    op.Add? && op.element == element && op.author == author
  }

  predicate Removes<V>(op: Op<V>, element: string, author: string) {
    op.Remove? && op.element == element && op.author == author
  }

  ghost predicate Added<V>(log: Log<V>, e: EventId, element: string, author: string) {
    Known(log, e) && Adds(log[e.node][e.index], element, author)
  }

  ghost predicate Removed<V>(log: Log<V>, e: EventId, element: string, author: string) {
    Known(log, e) && Removes(log[e.node][e.index], element, author)
  }

  // The registers written by the events, each as a one-entry map.
  ghost function Writes<V>(log: Log<V>, seen: set<EventId>): set<map<string, Register<V>>> {
    set e, w | e in seen && Known(log, e) && w in WriteOf(log[e.node][e.index]) :: w
  }

  ghost function WriteOf<V>(op: Op<V>): set<map<string, Register<V>>> {
    if op.Write? then {map[op.key := op.register]} else {}
  }

  ghost predicate Explains<V(!new)>(log: Log<V>, r: Replica<V>) {
    && Closed(log, r.seen)
    && IsPick(Beats<V>, Writes(log, r.seen), r.memory.hive)
    && ExplainsSeal(log, r.seen, Sealed(r.memory.seal))
  }

  ghost predicate ExplainsSeal<V(!new)>(log: Log<V>, seen: set<EventId>, elements: Elements) {
    && (forall x, n :: AddedBy(elements, x, n) <==> exists e :: e in seen && Added(log, e, x, n))
    && (forall x, n :: RemovedBy(elements, x, n) <==> exists e :: e in seen && Removed(log, e, x, n))
  }

  // The counter and the clock are both counts per node; they differ in the operations they count.
  datatype Kind = Ephemeral | Clock

  function CountsOf<V>(kind: Kind, m: Memory<V>): Counts {
    match kind
    case Ephemeral => m.ephemeral
    case Clock => m.clock
  }

  predicate Touches<V>(kind: Kind, op: Op<V>) {
    match kind
    case Ephemeral => op.Increment?
    case Clock => op.Tick?
  }

  function Amount<V>(kind: Kind, op: Op<V>): nat {
    if !Touches(kind, op) then 0 else if op.Tick? then 1 else op.delta
  }

  ghost function Total<V>(kind: Kind, ops: seq<Op<V>>): nat {
    if ops == [] then 0 else Total(kind, ops[..|ops| - 1]) + Amount(kind, ops[|ops| - 1])
  }

  ghost predicate Touched<V>(kind: Kind, ops: seq<Op<V>>) {
    exists i :: 0 <= i < |ops| && Touches(kind, ops[i])
  }

  ghost predicate NoWrap<V>(kind: Kind, log: Log<V>) {
    forall n :: n in log ==> Total(kind, log[n]) < TWO64
  }

  // How many of a node's events are in the set: the largest index seen, plus one.
  ghost function Upto(seen: set<EventId>, n: string, bound: nat): (k: nat)
    ensures k <= bound
  {
    if bound == 0 then 0 else if EventId(n, bound - 1) in seen then bound else Upto(seen, n, bound - 1)
  }

  ghost function Prefix<V>(log: Log<V>, seen: set<EventId>, n: string): seq<Op<V>> {
    if n in log then log[n][..Upto(seen, n, |log[n]|)] else []
  }

  ghost predicate Counted<V>(kind: Kind, log: Log<V>, r: Replica<V>) {
    forall n ::
      && (n in CountsOf(kind, r.memory) <==> Touched(kind, Prefix(log, r.seen, n)))
      && Read(CountsOf(kind, r.memory), n) == Total(kind, Prefix(log, r.seen, n))
  }

  lemma {:induction false} UptoBounds(seen: set<EventId>, n: string, bound: nat)
    requires forall i: nat, j: nat :: EventId(n, i) in seen && j < i ==> EventId(n, j) in seen
    ensures forall i :: 0 <= i < bound ==> (EventId(n, i) in seen <==> i < Upto(seen, n, bound))
  {
    if bound > 0 && EventId(n, bound - 1) !in seen {
      UptoBounds(seen, n, bound - 1);
    }
  }

  // The events of node `n` in a closed set are exactly the indices below the length of its prefix.
  lemma PrefixBounds<V>(log: Log<V>, seen: set<EventId>, n: string)
    requires Closed(log, seen)
    ensures forall i: nat :: EventId(n, i) in seen <==> i < |Prefix(log, seen, n)|
    ensures n in log ==> Prefix(log, seen, n) <= log[n]
  {
    if n in log {
      UptoBounds(seen, n, |log[n]|);
    }
    forall i: nat ensures EventId(n, i) in seen <==> i < |Prefix(log, seen, n)| {
      if EventId(n, i) in seen {
        assert Known(log, EventId(n, i));
      }
    }
  }

  lemma PrefixIs<V>(log: Log<V>, seen: set<EventId>, n: string, k: nat)
    requires Closed(log, seen) && n in log && k <= |log[n]|
    requires forall i: nat :: EventId(n, i) in seen <==> i < k
    ensures Prefix(log, seen, n) == log[n][..k]
  {
    PrefixBounds(log, seen, n);
    var k' := |Prefix(log, seen, n)|;
    assert !(k < k') by { assert EventId(n, k) in seen <==> k < k'; }
    assert !(k' < k) by { assert EventId(n, k') in seen <==> k' < k'; }
  }

  lemma {:induction false} TotalMonotone<V>(kind: Kind, ops: seq<Op<V>>, i: nat, j: nat)
    requires i <= j <= |ops|
    ensures Total(kind, ops[..i]) <= Total(kind, ops[..j])
    ensures (forall k :: i <= k < j ==> !Touches(kind, ops[k])) ==> Total(kind, ops[..i]) == Total(kind, ops[..j])
    ensures kind.Clock? && (exists k :: i <= k < j && Touches(kind, ops[k])) ==>
      Total(kind, ops[..i]) < Total(kind, ops[..j])
    decreases j
  {
    if i < j {
      assert ops[..j][..j - 1] == ops[..j - 1];
      TotalMonotone(kind, ops, i, j - 1);
    }
  }

  // ---------- the steps keep it ----------

  ghost predicate Extends<V>(log: Log<V>, later: Log<V>) {
    log.Keys == later.Keys && forall n :: n in log ==> log[n] <= later[n]
  }

  lemma LaterLogPrefixes<V>(log: Log<V>, later: Log<V>, seen: set<EventId>)
    requires Extends(log, later) && Closed(log, seen)
    ensures Closed(later, seen)
    ensures forall n :: Prefix(later, seen, n) == Prefix(log, seen, n)
  {
    forall e | e in seen ensures Known(later, e) {
      assert Known(log, e);
    }
    forall n ensures Prefix(later, seen, n) == Prefix(log, seen, n) {
      PrefixBounds(log, seen, n);
      if n in log {
        PrefixIs(later, seen, n, |Prefix(log, seen, n)|);
      }
    }
  }

  lemma LaterLogExplains<V(!new)>(log: Log<V>, later: Log<V>, r: Replica<V>)
    requires Extends(log, later) && Explains(log, r)
    ensures Explains(later, r)
    ensures forall n :: Prefix(later, r.seen, n) == Prefix(log, r.seen, n)
  {
    LaterLogPrefixes(log, later, r.seen);
    assert Writes(later, r.seen) == Writes(log, r.seen) by {
      assert forall e :: e in r.seen ==> Known(log, e);
    }
    forall x, n, e | e in r.seen
      ensures Added(log, e, x, n) == Added(later, e, x, n) && Removed(log, e, x, n) == Removed(later, e, x, n)
    {
      assert Known(log, e);
    }
  }

  lemma MergeExplains<V(!new)>(log: Log<V>, a: Replica<V>, b: Replica<V>)
    requires Explains(log, a) && Explains(log, b)
    ensures Explains(log, Merged(a, b))
  {
    var r := Merged(a, b);
    assert Closed(log, r.seen);
    assert Writes(log, r.seen) == Writes(log, a.seen) + Writes(log, b.seen);
    RegisterSelects<V>();
    PickUnion(Beats<V>, MergeRegister<V>, Writes(log, a.seen), a.memory.hive, Writes(log, b.seen), b.memory.hive);
    SealJoinIsUnion(a.memory.seal, b.memory.seal);
    forall x, n ensures AddedBy(Sealed(r.memory.seal), x, n) <==> exists e :: e in r.seen && Added(log, e, x, n) {
      if e :| e in r.seen && Added(log, e, x, n) {
        assert e in a.seen || e in b.seen;
      }
    }
    forall x, n ensures RemovedBy(Sealed(r.memory.seal), x, n) <==> exists e :: e in r.seen && Removed(log, e, x, n) {
      if e :| e in r.seen && Removed(log, e, x, n) {
        assert e in a.seen || e in b.seen;
      }
    }
  }

  // Of two closed sets one holds the longer prefix of each node, and that is the prefix of the union.
  lemma PrefixOfUnion<V>(log: Log<V>, s: set<EventId>, t: set<EventId>, n: string)
    requires Closed(log, s) && Closed(log, t)
    ensures Prefix(log, s + t, n)
      == if |Prefix(log, s, n)| < |Prefix(log, t, n)| then Prefix(log, t, n) else Prefix(log, s, n)
  {
    PrefixBounds(log, s, n);
    PrefixBounds(log, t, n);
    if n in log {
      var i, j := |Prefix(log, s, n)|, |Prefix(log, t, n)|;
      PrefixIs(log, s + t, n, if i < j then j else i);
    }
  }

  lemma MergeCounted<V>(kind: Kind, log: Log<V>, a: Replica<V>, b: Replica<V>)
    requires Closed(log, a.seen) && Closed(log, b.seen)
    requires Counted(kind, log, a) && Counted(kind, log, b)
    ensures Counted(kind, log, Merged(a, b))
  {
    var r := Merged(a, b);
    forall n
      ensures n in CountsOf(kind, r.memory) <==> Touched(kind, Prefix(log, r.seen, n))
      ensures Read(CountsOf(kind, r.memory), n) == Total(kind, Prefix(log, r.seen, n))
    {
      var p, q := Prefix(log, a.seen, n), Prefix(log, b.seen, n);
      PrefixOfUnion(log, a.seen, b.seen, n);
      PrefixBounds(log, a.seen, n);
      PrefixBounds(log, b.seen, n);
      if n in log {
        assert p == log[n][..|p|] && q == log[n][..|q|];
        if |p| < |q| {
          TotalMonotone(kind, log[n], |p|, |q|);
          assert forall i :: 0 <= i < |p| ==> p[i] == q[i];
        } else {
          TotalMonotone(kind, log[n], |q|, |p|);
          assert forall i :: 0 <= i < |q| ==> q[i] == p[i];
        }
      }
    }
  }

  // A node knows all of its own events.
  ghost predicate OwnComplete<V>(log: Log<V>, n: string, r: Replica<V>) {
    n in log && forall i :: 0 <= i < |log[n]| ==> EventId(n, i) in r.seen
  }

  // The log and the events of node `n` after its next operation.
  ghost function LogWith<V>(log: Log<V>, n: string, op: Op<V>): Log<V>
    requires n in log
  {
    log[n := log[n] + [op]]
  }

  ghost function SeenWith<V>(log: Log<V>, n: string, seen: set<EventId>): set<EventId>
    requires n in log
  {
    seen + {EventId(n, |log[n]|)}
  }

  lemma LocalPrefixes<V>(log: Log<V>, n: string, op: Op<V>, seen: set<EventId>)
    requires n in log && Closed(log, seen) && forall i :: 0 <= i < |log[n]| ==> EventId(n, i) in seen
    ensures Closed(LogWith(log, n, op), SeenWith(log, n, seen))
    ensures Prefix(log, seen, n) == log[n]
    ensures Prefix(LogWith(log, n, op), SeenWith(log, n, seen), n) == log[n] + [op]
    ensures forall m :: m != n ==> Prefix(LogWith(log, n, op), SeenWith(log, n, seen), m) == Prefix(log, seen, m)
  {
    var later, seen' := LogWith(log, n, op), SeenWith(log, n, seen);
    assert Closed(later, seen') by {
      forall e | e in seen' ensures Known(later, e) {
        if e in seen {
          assert Known(log, e);
        }
      }
    }
    PrefixBounds(log, seen, n);
    PrefixIs(log, seen, n, |log[n]|);
    PrefixIs(later, seen', n, |log[n]| + 1);
    forall m | m != n ensures Prefix(later, seen', m) == Prefix(log, seen, m) {
      PrefixBounds(log, seen, m);
      if m in log {
        PrefixIs(later, seen', m, |Prefix(log, seen, m)|);
      }
    }
  }

  lemma WritesGrow<V>(log: Log<V>, seen: set<EventId>, e: EventId)
    requires Known(log, e)
    ensures Writes(log, seen + {e}) == Writes(log, seen) + WriteOf(log[e.node][e.index])
  {
    assert e in seen + {e};
  }

  lemma LocalWrites<V(!new)>(log: Log<V>, n: string, op: Op<V>, r: Replica<V>)
    requires Explains(log, r) && OwnComplete(log, n, r)
    ensures IsPick(Beats<V>, Writes(LogWith(log, n, op), SeenWith(log, n, r.seen)), ApplyOp(n, op, r.memory).hive)
  {
    var later, e := LogWith(log, n, op), EventId(n, |log[n]|);
    LaterLogExplains(log, later, r);
    WritesGrow(later, r.seen, e);
    hide IsPick, Selects, Writes, Beats, MergeRegister, Pointwise;
    if op.Write? {
      var one := map[op.key := op.register];
      RegisterSelects<V>();
      PickOne(Beats<V>, MergeRegister<V>, one);
      PickUnion(Beats<V>, MergeRegister<V>, Writes(later, r.seen), r.memory.hive, {one}, one);
    } else {
      assert Writes(later, r.seen) + WriteOf(op) == Writes(later, r.seen);
    }
  }

  lemma SealStep<V>(n: string, op: Op<V>, m: Memory<V>, x: string, author: string)
    requires Effective(op, m)
    ensures AddedBy(Sealed(ApplyOp(n, op, m).seal), x, author)
      <==> AddedBy(Sealed(m.seal), x, author) || Adds(op, x, author)
    ensures RemovedBy(Sealed(ApplyOp(n, op, m).seal), x, author)
      <==> RemovedBy(Sealed(m.seal), x, author) || Removes(op, x, author)
  {
  }

  lemma LocalSeal<V(!new)>(later: Log<V>, n: string, op: Op<V>, m: Memory<V>, seen: set<EventId>, e: EventId)
    requires ExplainsSeal(later, seen, Sealed(m.seal)) && Effective(op, m)
    requires Known(later, e) && later[e.node][e.index] == op
    ensures ExplainsSeal(later, seen + {e}, Sealed(ApplyOp(n, op, m).seal))
  {
    var after := Sealed(ApplyOp(n, op, m).seal);
    forall x, a ensures AddedBy(after, x, a) <==> exists d :: d in seen + {e} && Added(later, d, x, a) {
      SealStep(n, op, m, x, a);
      assert Added(later, e, x, a) <==> Adds(op, x, a);
      assert e in seen + {e};
    }
    forall x, a ensures RemovedBy(after, x, a) <==> exists d :: d in seen + {e} && Removed(later, d, x, a) {
      SealStep(n, op, m, x, a);
      assert Removed(later, e, x, a) <==> Removes(op, x, a);
      assert e in seen + {e};
    }
  }

  lemma LocalExplains<V(!new)>(log: Log<V>, n: string, op: Op<V>, r: Replica<V>)
    requires Explains(log, r) && OwnComplete(log, n, r) && Effective(op, r.memory)
    ensures Explains(LogWith(log, n, op), Replica(ApplyOp(n, op, r.memory), SeenWith(log, n, r.seen)))
  {
    var later := LogWith(log, n, op);
    LocalPrefixes(log, n, op, r.seen);
    LocalWrites(log, n, op, r);
    LaterLogExplains(log, later, r);
    LocalSeal(later, n, op, r.memory, r.seen, EventId(n, |log[n]|));
  }

  lemma TouchedAppend<V>(kind: Kind, ops: seq<Op<V>>, op: Op<V>)
    ensures Touched(kind, ops + [op]) <==> Touched(kind, ops) || Touches(kind, op)
    ensures Total(kind, ops + [op]) == Total(kind, ops) + Amount(kind, op)
  {
    assert (ops + [op])[..|ops|] == ops;
    if Touches(kind, op) {
      assert Touches(kind, (ops + [op])[|ops|]);
    }
    if i :| 0 <= i < |ops| && Touches(kind, ops[i]) {
      assert Touches(kind, (ops + [op])[i]);
    }
  }

  lemma CountStep<V>(kind: Kind, n: string, op: Op<V>, m: Memory<V>, x: string)
    ensures x != n ==> (x in CountsOf(kind, ApplyOp(n, op, m)) <==> x in CountsOf(kind, m))
    ensures x != n ==> Read(CountsOf(kind, ApplyOp(n, op, m)), x) == Read(CountsOf(kind, m), x)
    ensures n in CountsOf(kind, ApplyOp(n, op, m)) <==> n in CountsOf(kind, m) || Touches(kind, op)
    ensures Read(CountsOf(kind, m), n) + Amount(kind, op) < TWO64 ==>
      Read(CountsOf(kind, ApplyOp(n, op, m)), n) == Read(CountsOf(kind, m), n) + Amount(kind, op)
  {
    hide Pointwise, MergeRegister, AddElement, RemoveElement;
  }

  lemma LocalCounted<V>(kind: Kind, log: Log<V>, n: string, op: Op<V>, r: Replica<V>)
    requires Closed(log, r.seen) && OwnComplete(log, n, r) && Counted(kind, log, r)
    requires NoWrap(kind, LogWith(log, n, op))
    ensures Counted(kind, LogWith(log, n, op), Replica(ApplyOp(n, op, r.memory), SeenWith(log, n, r.seen)))
  {
    LocalPrefixes(log, n, op, r.seen);
    TouchedAppend(kind, log[n], op);
    assert Total(kind, LogWith(log, n, op)[n]) < TWO64;
    var later, r' := LogWith(log, n, op), Replica(ApplyOp(n, op, r.memory), SeenWith(log, n, r.seen));
    forall x
      ensures x in CountsOf(kind, r'.memory) <==> Touched(kind, Prefix(later, r'.seen, x))
      ensures Read(CountsOf(kind, r'.memory), x) == Total(kind, Prefix(later, r'.seen, x))
    {
      CountStep(kind, n, op, r.memory, x);
      assert x in CountsOf(kind, r.memory) <==> Touched(kind, Prefix(log, r.seen, x));
      assert Read(CountsOf(kind, r.memory), x) == Total(kind, Prefix(log, r.seen, x));
    }
  }

  // ---------- the invariant of every run ----------

  ghost predicate Held<V>(s: System<V>, r: Replica<V>) {
    r in s.network || exists n :: n in s.replicas && s.replicas[n] == r
  }

  ghost predicate Inv<V(!new)>(s: System<V>) {
    && s.log.Keys == s.replicas.Keys
    && (forall n :: n in s.replicas ==> OwnComplete(s.log, n, s.replicas[n]))
    && (forall r :: Held(s, r) ==> Explains(s.log, r))
  }

  ghost predicate InvCounts<V(!new)>(kind: Kind, s: System<V>) {
    forall r :: Held(s, r) ==> Counted(kind, s.log, r)
  }

  lemma NextExtends<V>(s: System<V>, a: Action<V>)
    ensures Extends(s.log, Next(s, a).log)
  {
  }

  lemma NextHeld<V>(s: System<V>, a: Action<V>, r: Replica<V>)
    requires Held(Next(s, a), r)
    ensures || Held(s, r)
            || (a.Local? && a.node in s.replicas && a.node in s.log && Effective(a.op, s.replicas[a.node].memory)
                && r == Replica(ApplyOp(a.node, a.op, s.replicas[a.node].memory),
                  SeenWith(s.log, a.node, s.replicas[a.node].seen))
                && Next(s, a).log == LogWith(s.log, a.node, a.op))
            || (a.Deliver? && a.node in s.replicas && a.message in s.network
                && r == Merged(s.replicas[a.node], a.message) && Next(s, a).log == s.log)
  {
  }

  lemma NextKeepsInv<V(!new)>(s: System<V>, a: Action<V>)
    requires Inv(s)
    ensures Inv(Next(s, a))
  {
    var s' := Next(s, a);
    NextExtends(s, a);
    forall r | Held(s', r) ensures Explains(s'.log, r) {
      NextHeld(s, a, r);
      if Held(s, r) {
        LaterLogExplains(s.log, s'.log, r);
      } else if a.Local? {
        assert Held(s, s.replicas[a.node]);
        LocalExplains(s.log, a.node, a.op, s.replicas[a.node]);
      } else {
        assert Held(s, s.replicas[a.node]) && Held(s, a.message);
        MergeExplains(s.log, s.replicas[a.node], a.message);
      }
    }
  }

  lemma NextKeepsCounts<V(!new)>(kind: Kind, s: System<V>, a: Action<V>)
    requires Inv(s) && InvCounts(kind, s) && NoWrap(kind, Next(s, a).log)
    ensures InvCounts(kind, Next(s, a))
  {
    var s' := Next(s, a);
    NextExtends(s, a);
    forall r | Held(s', r) ensures Counted(kind, s'.log, r) {
      NextHeld(s, a, r);
      if Held(s, r) {
        LaterLogExplains(s.log, s'.log, r);
      } else if a.Local? {
        assert Held(s, s.replicas[a.node]);
        LocalCounted(kind, s.log, a.node, a.op, s.replicas[a.node]);
      } else {
        assert Held(s, s.replicas[a.node]) && Held(s, a.message);
        MergeCounted(kind, s.log, s.replicas[a.node], a.message);
      }
    }
  }

  lemma NoWrapBefore<V>(kind: Kind, log: Log<V>, later: Log<V>)
    requires Extends(log, later) && NoWrap(kind, later)
    ensures NoWrap(kind, log)
  {
    forall n | n in log ensures Total(kind, log[n]) < TWO64 {
      TotalMonotone(kind, later[n], |log[n]|, |later[n]|);
      assert later[n][..|log[n]|] == log[n] && later[n][..|later[n]|] == later[n];
    }
  }

  lemma {:induction false} RunInv<V(!new)>(nodes: set<string>, actions: seq<Action<V>>)
    ensures Inv(Run(nodes, actions))
  {
    if actions != [] {
      RunInv(nodes, actions[..|actions| - 1]);
      NextKeepsInv(Run(nodes, actions[..|actions| - 1]), actions[|actions| - 1]);
    }
  }

  lemma {:induction false} RunInvCounts<V(!new)>(kind: Kind, nodes: set<string>, actions: seq<Action<V>>)
    requires NoWrap(kind, Run(nodes, actions).log)
    ensures InvCounts(kind, Run(nodes, actions))
  {
    if actions == [] {
      forall r | Held(Initial<V>(nodes), r) ensures Counted(kind, Initial<V>(nodes).log, r) {
      }
    } else {
      var s := Run(nodes, actions[..|actions| - 1]);
      NextExtends(s, actions[|actions| - 1]);
      NoWrapBefore(kind, s.log, Run(nodes, actions).log);
      RunInv(nodes, actions[..|actions| - 1]);
      RunInvCounts(kind, nodes, actions[..|actions| - 1]);
      NextKeepsCounts(kind, s, actions[|actions| - 1]);
    }
  }

  // What every state met in a run satisfies.
  lemma RunState<V(!new)>(kind: Kind, nodes: set<string>, actions: seq<Action<V>>, r: Replica<V>)
    requires Held(Run(nodes, actions), r)
    ensures Closed(Run(nodes, actions).log, r.seen) && Explains(Run(nodes, actions).log, r)
    ensures NoWrap(kind, Run(nodes, actions).log) ==> Counted(kind, Run(nodes, actions).log, r)
  {
    RunInv(nodes, actions);
    assert Explains(Run(nodes, actions).log, r);
    if NoWrap(kind, Run(nodes, actions).log) {
      RunInvCounts(kind, nodes, actions);
    }
  }

  // ---------- first writes ----------

  predicate WritesAt<V>(op: Op<V>, key: string, timestamp: u64, nodeId: string) {
    op.Write? && op.key == key && op.register.timestamp == timestamp && op.register.nodeId == nodeId
  }

  // Event `e` writes the register, and is its node's first write of that key, timestamp and node id.
  ghost predicate FirstWriteAt<V>(log: Log<V>, e: EventId, key: string, w: Register<V>) {
    && Known(log, e) && log[e.node][e.index] == Write(key, w)
    && forall j :: 0 <= j < e.index ==> !WritesAt(log[e.node][j], key, w.timestamp, w.nodeId)
  }

  ghost predicate HoldsFirstWrites<V>(log: Log<V>, m: Memory<V>) {
    forall k :: k in m.hive ==> exists e :: FirstWriteAt(log, e, k, m.hive[k])
  }

  ghost predicate WritesUnder<V>(log: Log<V>, n: string, id: string) {
    n in log && exists i :: 0 <= i < |log[n]| && log[n][i].Write? && log[n][i].register.nodeId == id
  }

  // No two nodes write under one id.
  ghost predicate SoleAuthors<V>(log: Log<V>) {
    forall n, m, id :: WritesUnder(log, n, id) && WritesUnder(log, m, id) ==> n == m
  }

  lemma FirstWriteUnique<V>(log: Log<V>, key: string, a: Register<V>, e: EventId, b: Register<V>, f: EventId)
    requires FirstWriteAt(log, e, key, a) && FirstWriteAt(log, f, key, b) && SoleAuthors(log)
    requires a.nodeId == b.nodeId && a.timestamp == b.timestamp
    ensures a == b
  {
    assert WritesUnder(log, e.node, a.nodeId) && WritesUnder(log, f.node, b.nodeId);
    assert WritesAt(log[e.node][e.index], key, a.timestamp, a.nodeId);
    assert WritesAt(log[f.node][f.index], key, b.timestamp, b.nodeId);
  }

  lemma LaterFirstWrites<V>(log: Log<V>, later: Log<V>, m: Memory<V>)
    requires Extends(log, later) && HoldsFirstWrites(log, m)
    ensures HoldsFirstWrites(later, m)
  {
    forall k | k in m.hive ensures exists e :: FirstWriteAt(later, e, k, m.hive[k]) {
      var e :| FirstWriteAt(log, e, k, m.hive[k]);
      assert FirstWriteAt(later, e, k, m.hive[k]);
    }
  }

  lemma LocalFirstWrites<V(!new)>(log: Log<V>, n: string, op: Op<V>, r: Replica<V>)
    requires Explains(log, r) && OwnComplete(log, n, r) && HoldsFirstWrites(log, r.memory)
    ensures HoldsFirstWrites(LogWith(log, n, op), ApplyOp(n, op, r.memory))
  {
    hide Explains, AddElement, RemoveElement, Sealed;
    var later, m := LogWith(log, n, op), ApplyOp(n, op, r.memory);
    LaterFirstWrites(log, later, r.memory);
    if op.Write? && !(op.key in r.memory.hive && m.hive[op.key] == r.memory.hive[op.key]) {
      NewWriteIsFirst(log, n, op, r);
      assert m.hive[op.key] == op.register;
      assert FirstWriteAt(later, EventId(n, |log[n]|), op.key, op.register);
    }
  }

  // A write that takes effect at its node is the first of its key, timestamp and node id: the memory of the
  // node outranks all its earlier ones.
  lemma NewWriteIsFirst<V(!new)>(log: Log<V>, n: string, op: Op<V>, r: Replica<V>)
    requires Explains(log, r) && OwnComplete(log, n, r) && op.Write?
    requires op.key in r.memory.hive ==> MergeRegister(r.memory.hive[op.key], op.register) != r.memory.hive[op.key]
    ensures FirstWriteAt(LogWith(log, n, op), EventId(n, |log[n]|), op.key, op.register)
  {
    var later, w := LogWith(log, n, op), op.register;
    assert later[n][|log[n]|] == op;
    hide Explains, Beats, MergeRegister, Closed, ExplainsSeal, IsPick;
    forall j | 0 <= j < |log[n]| ensures !WritesAt(log[n][j], op.key, w.timestamp, w.nodeId) {
      if WritesAt(log[n][j], op.key, w.timestamp, w.nodeId) {
        assert later[n][j] == log[n][j];
        WriteIsOutranked(log, r, EventId(n, j));
        SameRankBeaten(r.memory.hive[op.key], log[n][j].register, w);
        BeatenLoses(r.memory.hive[op.key], w);
      }
    }
  }

  lemma WriteIsOutranked<V(!new)>(log: Log<V>, r: Replica<V>, e: EventId)
    requires Explains(log, r) && e in r.seen && Known(log, e) && log[e.node][e.index].Write?
    ensures var op := log[e.node][e.index]; op.key in r.memory.hive && Beats(r.memory.hive[op.key], op.register)
  {
    hide Closed, ExplainsSeal, Writes, IsPick;
    var op := log[e.node][e.index];
    WriteListed(log, r.seen, e);
    PickBeats(Beats<V>, Writes(log, r.seen), r.memory.hive, map[op.key := op.register], op.key);
  }

  lemma WriteListed<V>(log: Log<V>, seen: set<EventId>, e: EventId)
    requires e in seen && Known(log, e) && log[e.node][e.index].Write?
    ensures map[log[e.node][e.index].key := log[e.node][e.index].register] in Writes(log, seen)
  {
    var op := log[e.node][e.index];
    assert map[op.key := op.register] in WriteOf(op);
  }

  lemma SameRankBeaten<V>(a: Register<V>, b: Register<V>, c: Register<V>)
    requires Beats(a, b) && b.timestamp == c.timestamp && b.nodeId == c.nodeId
    ensures Beats(a, c)
  {
  }

  lemma {:induction false} RunFirstWrites<V(!new)>(nodes: set<string>, actions: seq<Action<V>>, r: Replica<V>)
    requires Held(Run(nodes, actions), r)
    ensures HoldsFirstWrites(Run(nodes, actions).log, r.memory)
    decreases |actions|, 0
  {
    if actions != [] {
      hide Explains, HoldsFirstWrites, OwnComplete, Run, Next, Inv;
      RunStep(nodes, actions);
      var before, a := actions[..|actions| - 1], actions[|actions| - 1];
      StepFirstWrites(nodes, before, a, r);
    }
  }

  lemma RunStep<V>(nodes: set<string>, actions: seq<Action<V>>)
    requires actions != []
    ensures Run(nodes, actions) == Next(Run(nodes, actions[..|actions| - 1]), actions[|actions| - 1])
  {
  }

  lemma StepFirstWrites<V(!new)>(nodes: set<string>, before: seq<Action<V>>, a: Action<V>, r: Replica<V>)
    requires Held(Next(Run(nodes, before), a), r)
    ensures HoldsFirstWrites(Next(Run(nodes, before), a).log, r.memory)
    decreases |before|, 1
  {
    hide HoldsFirstWrites, OwnComplete, Run, Next, Explains;
    var s := Run(nodes, before);
    NextExtends(s, a);
    NextHeld(s, a, r);
    RunInv(nodes, before);
    if Held(s, r) {
      RunFirstWrites(nodes, before, r);
      LaterFirstWrites(s.log, Next(s, a).log, r.memory);
    } else {
      assert Held(s, s.replicas[a.node]);
      RunFirstWrites(nodes, before, s.replicas[a.node]);
      if a.Local? {
        LocalFirstWrites(s.log, a.node, a.op, s.replicas[a.node]);
      } else {
        RunFirstWrites(nodes, before, a.message);
        MergeFirstWrites(s.log, s.replicas[a.node].memory, a.message.memory);
      }
    }
  }

  lemma MergeFirstWrites<V>(log: Log<V>, a: Memory<V>, b: Memory<V>)
    requires HoldsFirstWrites(log, a) && HoldsFirstWrites(log, b)
    ensures HoldsFirstWrites(log, Join(a, b))
  {
    forall k | k in Join(a, b).hive ensures exists e :: FirstWriteAt(log, e, k, Join(a, b).hive[k]) {
      assert (k in a.hive && Join(a, b).hive[k] == a.hive[k]) || (k in b.hive && Join(a, b).hive[k] == b.hive[k]);
    }
  }

  lemma FirstWritesAgree<V(!new)>(log: Log<V>, a: Replica<V>, b: Replica<V>)
    requires Explains(log, a) && Explains(log, b) && a.seen == b.seen
    requires HoldsFirstWrites(log, a.memory) && HoldsFirstWrites(log, b.memory) && SoleAuthors(log)
    ensures a.memory.hive == b.memory.hive
  {
    hide ExplainsSeal, Closed, Writes, SoleAuthors, FirstWriteAt;
    var x, y := a.memory.hive, b.memory.hive;
    assert x.Keys == y.Keys;
    forall k | k in x ensures x[k] == y[k] {
      MutualBeatsIsEqualOrTie(x[k], y[k]);
      var e :| FirstWriteAt(log, e, k, x[k]);
      var f :| FirstWriteAt(log, f, k, y[k]);
      if Tie(x[k], y[k]) {
        FirstWriteUnique(log, k, x[k], e, y[k], f);
      }
    }
  }

  // ---------- stored times ----------

  ghost predicate Recorded<V>(log: Log<V>, seen: set<EventId>, op: Op<V>) {
    exists e :: e in seen && Known(log, e) && log[e.node][e.index] == op
  }

  // Each time stored with an element is that of an add or a removal seen, and no reference appears.
  ghost predicate TimesRecorded<V(!new)>(log: Log<V>, seen: set<EventId>, elements: Elements) {
    && (forall x, n :: AddedBy(elements, x, n) ==> Recorded(log, seen, Add(x, n, elements[x].addedBy[n])))
    && (forall x, n :: RemovedBy(elements, x, n) ==> Recorded(log, seen, Remove(x, n, elements[x].removedBy[n])))
    && (forall x :: x in elements ==> elements[x].encryptionRef == None)
  }

  lemma RecordedLater<V>(log: Log<V>, later: Log<V>, seen: set<EventId>, more: set<EventId>, op: Op<V>)
    requires Extends(log, later) && seen <= more && Recorded(log, seen, op)
    ensures Recorded(later, more, op)
  {
    var e :| e in seen && Known(log, e) && log[e.node][e.index] == op;
    assert e in more && Known(later, e) && later[e.node][e.index] == op;
  }

  lemma TimesLater<V(!new)>(log: Log<V>, later: Log<V>, seen: set<EventId>, more: set<EventId>, elements: Elements)
    requires Extends(log, later) && seen <= more && TimesRecorded(log, seen, elements)
    ensures TimesRecorded(later, more, elements)
  {
    hide Recorded;
    forall x, n | AddedBy(elements, x, n) ensures Recorded(later, more, Add(x, n, elements[x].addedBy[n])) {
      RecordedLater(log, later, seen, more, Add(x, n, elements[x].addedBy[n]));
    }
    forall x, n | RemovedBy(elements, x, n) ensures Recorded(later, more, Remove(x, n, elements[x].removedBy[n])) {
      RecordedLater(log, later, seen, more, Remove(x, n, elements[x].removedBy[n]));
    }
  }

  // After an operation an element's times are the old ones, except the one the operation gives.
  lemma OpTimes<V>(n: string, op: Op<V>, m: Memory<V>, x: string, a: string)
    ensures var before, after := Sealed(m.seal), Sealed(ApplyOp(n, op, m).seal);
      && (AddedBy(after, x, a) ==>
            || op == Add(x, a, after[x].addedBy[a])
            || (AddedBy(before, x, a) && before[x].addedBy[a] == after[x].addedBy[a]))
      && (RemovedBy(after, x, a) ==>
            || op == Remove(x, a, after[x].removedBy[a])
            || (RemovedBy(before, x, a) && before[x].removedBy[a] == after[x].removedBy[a]))
      && (x in after ==> after[x].encryptionRef == StateOf(before, x).encryptionRef)
  {
    hide Pointwise, MergeRegister;
  }

  lemma LocalTimes<V(!new)>(log: Log<V>, n: string, op: Op<V>, r: Replica<V>)
    requires n in log && TimesRecorded(log, r.seen, Sealed(r.memory.seal))
    ensures TimesRecorded(LogWith(log, n, op), SeenWith(log, n, r.seen), Sealed(ApplyOp(n, op, r.memory).seal))
  {
    var later, more := LogWith(log, n, op), SeenWith(log, n, r.seen);
    TimesLater(log, later, r.seen, more, Sealed(r.memory.seal));
    assert Recorded(later, more, op) by {
      assert Known(later, EventId(n, |log[n]|));
    }
    hide Recorded, ApplyOp, Sealed;
    var before, after := Sealed(r.memory.seal), Sealed(ApplyOp(n, op, r.memory).seal);
    forall x, a | AddedBy(after, x, a) ensures Recorded(later, more, Add(x, a, after[x].addedBy[a])) {
      OpTimes(n, op, r.memory, x, a);
    }
    forall x, a | RemovedBy(after, x, a) ensures Recorded(later, more, Remove(x, a, after[x].removedBy[a])) {
      OpTimes(n, op, r.memory, x, a);
    }
    forall x | x in after ensures after[x].encryptionRef == None {
      OpTimes(n, op, r.memory, x, "");
    }
  }

  lemma JoinTimes(a: Option<Elements>, b: Option<Elements>, x: string, n: string)
    ensures var s, t, r := Sealed(a), Sealed(b), Sealed(JoinSeal(a, b));
      && (AddedBy(r, x, n) ==>
            || (AddedBy(s, x, n) && s[x].addedBy[n] == r[x].addedBy[n])
            || (AddedBy(t, x, n) && t[x].addedBy[n] == r[x].addedBy[n]))
      && (RemovedBy(r, x, n) ==>
            || (RemovedBy(s, x, n) && s[x].removedBy[n] == r[x].removedBy[n])
            || (RemovedBy(t, x, n) && t[x].removedBy[n] == r[x].removedBy[n]))
      && (x in r ==> r[x].encryptionRef in {None, StateOf(s, x).encryptionRef, StateOf(t, x).encryptionRef})
  {
  }

  lemma MergeTimes<V(!new)>(log: Log<V>, a: Replica<V>, b: Replica<V>)
    requires TimesRecorded(log, a.seen, Sealed(a.memory.seal)) && TimesRecorded(log, b.seen, Sealed(b.memory.seal))
    ensures TimesRecorded(log, Merged(a, b).seen, Sealed(Merged(a, b).memory.seal))
  {
    hide Recorded, Sealed, JoinSeal;
    var seen, r := a.seen + b.seen, Sealed(JoinSeal(a.memory.seal, b.memory.seal));
    TimesLater(log, log, a.seen, seen, Sealed(a.memory.seal));
    TimesLater(log, log, b.seen, seen, Sealed(b.memory.seal));
    forall x, n | AddedBy(r, x, n) ensures Recorded(log, seen, Add(x, n, r[x].addedBy[n])) {
      JoinTimes(a.memory.seal, b.memory.seal, x, n);
    }
    forall x, n | RemovedBy(r, x, n) ensures Recorded(log, seen, Remove(x, n, r[x].removedBy[n])) {
      JoinTimes(a.memory.seal, b.memory.seal, x, n);
    }
    forall x | x in r ensures r[x].encryptionRef == None {
      JoinTimes(a.memory.seal, b.memory.seal, x, "");
    }
  }

  // In every run, a replica stores no time that was not given to an add or a removal it has seen.
  lemma {:induction false} RunTimes<V(!new)>(nodes: set<string>, actions: seq<Action<V>>, r: Replica<V>)
    requires Held(Run(nodes, actions), r)
    ensures TimesRecorded(Run(nodes, actions).log, r.seen, Sealed(r.memory.seal))
    decreases |actions|, 0
  {
    if actions != [] {
      hide TimesRecorded, Run, Next;
      RunStep(nodes, actions);
      StepTimes(nodes, actions[..|actions| - 1], actions[|actions| - 1], r);
    }
  }

  lemma StepTimes<V(!new)>(nodes: set<string>, before: seq<Action<V>>, a: Action<V>, r: Replica<V>)
    requires Held(Next(Run(nodes, before), a), r)
    ensures TimesRecorded(Next(Run(nodes, before), a).log, r.seen, Sealed(r.memory.seal))
    decreases |before|, 1
  {
    hide TimesRecorded, Run, Next;
    var s := Run(nodes, before);
    NextExtends(s, a);
    NextHeld(s, a, r);
    if Held(s, r) {
      RunTimes(nodes, before, r);
      TimesLater(s.log, Next(s, a).log, r.seen, r.seen, Sealed(r.memory.seal));
    } else {
      assert Held(s, s.replicas[a.node]);
      RunTimes(nodes, before, s.replicas[a.node]);
      if a.Local? {
        LocalTimes(s.log, a.node, a.op, s.replicas[a.node]);
      } else {
        assert Held(s, a.message);
        RunTimes(nodes, before, a.message);
        MergeTimes(s.log, s.replicas[a.node], a.message);
      }
    }
  }

  // ---------- convergence over runs ----------

  // Two states met in a run that the same events have reached show the same memory. For the counts it is
  // enough that none has wrapped. For the registers it is enough that no two nodes write under one id, or
  // that no key's best writes tie. Membership needs nothing.
  lemma EventualConvergence<V(!new)>(nodes: set<string>, actions: seq<Action<V>>, a: Replica<V>, b: Replica<V>)
    requires Held(Run(nodes, actions), a) && Held(Run(nodes, actions), b) && a.seen == b.seen
    ensures NoTopTie(Writes(Run(nodes, actions).log, a.seen)) ==> a.memory.hive == b.memory.hive
    ensures SoleAuthors(Run(nodes, actions).log) ==> a.memory.hive == b.memory.hive
    ensures NoWrap(Ephemeral, Run(nodes, actions).log) ==> a.memory.ephemeral == b.memory.ephemeral
    ensures NoWrap(Clock, Run(nodes, actions).log) ==> a.memory.clock == b.memory.clock
    ensures forall x :: Contains(Sealed(a.memory.seal), x) == Contains(Sealed(b.memory.seal), x)
  {
    var log := Run(nodes, actions).log;
    hide Explains, Counted, Run, NoTopTie, Writes, NoWrap, Contains, Held, SoleAuthors, HoldsFirstWrites;
    RunState(Ephemeral, nodes, actions, a);
    RunState(Ephemeral, nodes, actions, b);
    RunState(Clock, nodes, actions, a);
    RunState(Clock, nodes, actions, b);
    ExplainedAgree(log, a, b);
    if SoleAuthors(log) {
      RunFirstWrites(nodes, actions, a);
      RunFirstWrites(nodes, actions, b);
      FirstWritesAgree(log, a, b);
    }
    if NoWrap(Ephemeral, log) {
      CountsAgree(Ephemeral, log, a, b);
    }
    if NoWrap(Clock, log) {
      CountsAgree(Clock, log, a, b);
    }
  }

  lemma ExplainedAgree<V(!new)>(log: Log<V>, a: Replica<V>, b: Replica<V>)
    requires Explains(log, a) && Explains(log, b) && a.seen == b.seen
    ensures NoTopTie(Writes(log, a.seen)) ==> a.memory.hive == b.memory.hive
    ensures forall x :: Contains(Sealed(a.memory.seal), x) == Contains(Sealed(b.memory.seal), x)
  {
    if NoTopTie(Writes(log, a.seen)) {
      TopsAgree(Writes(log, a.seen));
      PickUnique(Beats<V>, Writes(log, a.seen), a.memory.hive, b.memory.hive);
    }
    SameMembers(Sealed(a.memory.seal), Sealed(b.memory.seal));
  }

  lemma CountsAgree<V>(kind: Kind, log: Log<V>, a: Replica<V>, b: Replica<V>)
    requires Counted(kind, log, a) && Counted(kind, log, b) && a.seen == b.seen
    ensures CountsOf(kind, a.memory) == CountsOf(kind, b.memory)
  {
    var x, y := CountsOf(kind, a.memory), CountsOf(kind, b.memory);
    forall n ensures (n in x <==> n in y) && (n in x ==> x[n] == y[n]) {
      assert Read(x, n) == Read(y, n);
    }
  }

  // A state that knows all events of a node shows the node's own total.
  lemma CompleteReads<V>(kind: Kind, log: Log<V>, n: string, r: Replica<V>)
    requires Closed(log, r.seen) && Counted(kind, log, r) && OwnComplete(log, n, r)
    ensures Read(CountsOf(kind, r.memory), n) == Total(kind, log[n])
  {
    PrefixBounds(log, r.seen, n);
    PrefixIs(log, r.seen, n, |log[n]|);
    assert log[n][..|log[n]|] == log[n];
  }

  // ---------- causality ----------

  ghost function Ticks<V>(log: Log<V>, seen: set<EventId>): set<EventId> {
    set e | e in seen && Known(log, e) && log[e.node][e.index].Tick?
  }

  lemma ClockLeIsSubset<V>(log: Log<V>, a: Replica<V>, b: Replica<V>)
    requires Closed(log, a.seen) && Closed(log, b.seen)
    requires Counted(Clock, log, a) && Counted(Clock, log, b)
    ensures CountsLe(a.memory.clock, b.memory.clock) <==> Ticks(log, a.seen) <= Ticks(log, b.seen)
  {
    if Ticks(log, a.seen) <= Ticks(log, b.seen) {
      forall n ensures Read(a.memory.clock, n) <= Read(b.memory.clock, n) {
        NodeClockLe(log, a.seen, b.seen, n);
        assert Read(CountsOf(Clock, a.memory), n) == Total(Clock, Prefix(log, a.seen, n));
        assert Read(CountsOf(Clock, b.memory), n) == Total(Clock, Prefix(log, b.seen, n));
      }
    }
    if e :| e in Ticks(log, a.seen) && e !in Ticks(log, b.seen) {
      var n := e.node;
      assert e == EventId(n, e.index);
      PrefixBounds(log, a.seen, n);
      PrefixBounds(log, b.seen, n);
      var i, j := |Prefix(log, b.seen, n)|, |Prefix(log, a.seen, n)|;
      TotalMonotone(Clock, log[n], i, j);
      assert i <= e.index < j && Touches(Clock, log[n][e.index]);
      assert Prefix(log, a.seen, n) == log[n][..j] && Prefix(log, b.seen, n) == log[n][..i];
      assert Read(CountsOf(Clock, a.memory), n) > Read(CountsOf(Clock, b.memory), n);
    }
  }

  lemma NodeClockLe<V>(log: Log<V>, s: set<EventId>, t: set<EventId>, n: string)
    requires Closed(log, s) && Closed(log, t) && Ticks(log, s) <= Ticks(log, t)
    ensures Total(Clock, Prefix(log, s, n)) <= Total(Clock, Prefix(log, t, n))
  {
    PrefixBounds(log, s, n);
    PrefixBounds(log, t, n);
    if n in log {
      var i, j := |Prefix(log, t, n)|, |Prefix(log, s, n)|;
      assert Prefix(log, s, n) == log[n][..j] && Prefix(log, t, n) == log[n][..i];
      if i <= j {
        forall k | i <= k < j ensures !Touches(Clock, log[n][k]) {
          assert EventId(n, k) in s && EventId(n, k) !in Ticks(log, t);
        }
        TotalMonotone(Clock, log[n], i, j);
      } else {
        TotalMonotone(Clock, log[n], j, i);
      }
    }
  }

  // `compare` decides how the causal pasts of two states relate.
  lemma CompareIsCausality<V(!new)>(nodes: set<string>, actions: seq<Action<V>>, a: Replica<V>, b: Replica<V>)
    requires Held(Run(nodes, actions), a) && Held(Run(nodes, actions), b)
    requires NoWrap(Clock, Run(nodes, actions).log)
    ensures var past, other := Ticks(Run(nodes, actions).log, a.seen), Ticks(Run(nodes, actions).log, b.seen);
      match Relation(a.memory.clock, b.memory.clock)
      case Equal => past == other
      case HappensBefore => other < past
      case HappensAfter => past < other
      case Concurrent => !(past <= other) && !(other <= past)
  {
    RunInv(nodes, actions);
    RunInvCounts(Clock, nodes, actions);
    ClockLeIsSubset(Run(nodes, actions).log, a, b);
    ClockLeIsSubset(Run(nodes, actions).log, b, a);
  }

  // The clock's limit: a tick moves a replica's clock ahead of what it was exactly when it does not wrap.
  lemma TickAdvancesUntilWrap<V(!new)>(nodes: set<string>, actions: seq<Action<V>>, n: string)
    requires n in nodes && NoWrap(Clock, Run(nodes, actions).log)
    ensures Run(nodes, actions).log.Keys == Run(nodes, actions).replicas.Keys == nodes
    ensures Relation(ApplyOp(n, Tick, Run(nodes, actions).replicas[n].memory).clock,
                     Run(nodes, actions).replicas[n].memory.clock) == HappensBefore
       <==> Total(Clock, Run(nodes, actions).log[n]) + 1 < TWO64
  {
    RunNodes(nodes, actions);
    RunInv(nodes, actions);
    RunInvCounts(Clock, nodes, actions);
    var s := Run(nodes, actions);
    var r := s.replicas[n];
    assert Held(s, r);
    CompleteReads(Clock, s.log, n, r);
    TickMoves(r.memory.clock, n);
  }

  lemma {:induction false} RunNodes<V>(nodes: set<string>, actions: seq<Action<V>>)
    ensures Run(nodes, actions).replicas.Keys == Run(nodes, actions).log.Keys == nodes
  {
    if actions != [] {
      RunNodes(nodes, actions[..|actions| - 1]);
    }
  }

  // ---------- the counter ----------

  // What `GCounter::value` returns for a replica.
  ghost function CounterValue<V>(m: Memory<V>): u64 {
    Sum(m.ephemeral) % TWO64
  }

  ghost function Totals<V>(log: Log<V>): map<string, nat> {
    map n | n in log :: Total(Ephemeral, log[n])
  }

  // All increments of all nodes so far.
  ghost function GrandTotal<V>(log: Log<V>): nat {
    Sum(Totals(log))
  }

  lemma SmallTotalNeverWraps<V>(log: Log<V>)
    requires GrandTotal(log) < TWO64
    ensures NoWrap(Ephemeral, log)
  {
    forall n | n in log ensures Total(Ephemeral, log[n]) < TWO64 {
      SumRemove(Totals(log), n);
    }
  }

  lemma CountsBelowTotals<V>(log: Log<V>, r: Replica<V>)
    requires Closed(log, r.seen) && Counted(Ephemeral, log, r)
    ensures Sum(r.memory.ephemeral) <= GrandTotal(log)
  {
    forall n | n in r.memory.ephemeral ensures r.memory.ephemeral[n] <= Get(Totals(log), n) {
      assert Read(CountsOf(Ephemeral, r.memory), n) == Total(Ephemeral, Prefix(log, r.seen, n));
      assert Touched(Ephemeral, Prefix(log, r.seen, n));
      PrefixBounds(log, r.seen, n);
      TotalMonotone(Ephemeral, log[n], |Prefix(log, r.seen, n)|, |log[n]|);
      assert log[n][..|log[n]|] == log[n];
    }
    SumMonotone(r.memory.ephemeral, Totals(log));
  }

  lemma CounterFits<V>(m: Memory<V>)
    requires Sum(m.ephemeral) < TWO64
    ensures CounterValue(m) == Sum(m.ephemeral)
  {
  }

  // The limit of monotonicity: an increment does not lower an unwrapped value exactly when it still fits.
  lemma IncrementRaisesValueIffItFits<V>(n: string, delta: u64, m: Memory<V>)
    requires Sum(m.ephemeral) < TWO64
    ensures CounterValue(m) <= CounterValue(ApplyOp(n, Increment(delta), m)) <==> CounterValue(m) + delta < TWO64
  {
    var after := ApplyOp(n, Increment(delta), m).ephemeral;
    CounterFits(m);
    SumUpdate(m.ephemeral, n, WrapAdd(Read(m.ephemeral, n), delta));
    if n in m.ephemeral {
      SumRemove(m.ephemeral, n);
    }
    assert Sum(after) == Sum(m.ephemeral) + delta - (if Read(m.ephemeral, n) + delta < TWO64 then 0 else TWO64);
  }

  // No replica ever counts more than was counted in all.
  lemma CounterNeverExceedsTotal<V(!new)>(nodes: set<string>, actions: seq<Action<V>>, r: Replica<V>)
    requires Held(Run(nodes, actions), r)
    ensures CounterValue(r.memory) <= GrandTotal(Run(nodes, actions).log)
  {
    var log := Run(nodes, actions).log;
    if GrandTotal(log) < TWO64 {
      SmallTotalNeverWraps(log);
      RunState(Ephemeral, nodes, actions, r);
      CountsBelowTotals(log, r);
      CounterFits(r.memory);
    }
  }

  // A replica that has merged every node's latest state shows the true total, exactly until it wraps.
  lemma CounterReachesTotal<V(!new)>(nodes: set<string>, actions: seq<Action<V>>, r: Replica<V>)
    requires Held(Run(nodes, actions), r)
    requires forall n :: n in Run(nodes, actions).replicas ==> Run(nodes, actions).replicas[n].seen <= r.seen
    ensures CounterValue(r.memory) == GrandTotal(Run(nodes, actions).log)
      <==> GrandTotal(Run(nodes, actions).log) < TWO64
  {
    var s := Run(nodes, actions);
    if GrandTotal(s.log) < TWO64 {
      SmallTotalNeverWraps(s.log);
      RunState(Ephemeral, nodes, actions, r);
      forall n | n in s.log ensures OwnComplete(s.log, n, r) {
        RunInv(nodes, actions);
        assert OwnComplete(s.log, n, s.replicas[n]);
      }
      AllSeenCountsAll(s.log, r);
      CounterFits(r.memory);
    }
  }

  lemma AllSeenCountsAll<V>(log: Log<V>, r: Replica<V>)
    requires Closed(log, r.seen) && Counted(Ephemeral, log, r)
    requires forall n :: n in log ==> OwnComplete(log, n, r)
    ensures Sum(r.memory.ephemeral) == GrandTotal(log)
  {
    CountsBelowTotals(log, r);
    forall n | n in Totals(log) ensures Totals(log)[n] <= Get(r.memory.ephemeral, n) {
      CompleteReads(Ephemeral, log, n, r);
    }
    SumMonotone(Totals(log), r.memory.ephemeral);
  }

  // While the total fits, no step ever lowers the value a replica shows.
  lemma CounterNeverDecreases<V(!new)>(nodes: set<string>, actions: seq<Action<V>>, a: Action<V>, n: string)
    requires n in nodes && GrandTotal(Run(nodes, actions + [a]).log) < TWO64
    ensures n in Run(nodes, actions).replicas && n in Run(nodes, actions + [a]).replicas
    ensures CounterValue(Run(nodes, actions).replicas[n].memory)
         <= CounterValue(Run(nodes, actions + [a]).replicas[n].memory)
  {
    SmallTotalNeverWraps(Run(nodes, actions + [a]).log);
    StepCountsMore(Ephemeral, nodes, actions, a, n);
    var before, after := Run(nodes, actions).replicas[n], Run(nodes, actions + [a]).replicas[n];
    assert Held(Run(nodes, actions + [a]), after);
    RunState(Ephemeral, nodes, actions + [a], after);
    CountsBelowTotals(Run(nodes, actions + [a]).log, after);
    SumOfSmaller(before.memory.ephemeral, after.memory.ephemeral);
    CounterFits(before.memory);
    CounterFits(after.memory);
  }

  lemma SumOfSmaller(a: Counts, b: Counts)
    requires CountsLe(a, b)
    ensures Sum(a) <= Sum(b)
  {
    forall n | n in a ensures a[n] <= Get(b, n) {
      assert Read(a, n) <= Read(b, n);
    }
    SumMonotone(a, b);
  }

  lemma MoreSeenCountsMore<V>(kind: Kind, log: Log<V>, a: Replica<V>, b: Replica<V>)
    requires Closed(log, a.seen) && Closed(log, b.seen) && a.seen <= b.seen
    requires Counted(kind, log, a) && Counted(kind, log, b)
    ensures CountsLe(CountsOf(kind, a.memory), CountsOf(kind, b.memory))
  {
    forall n ensures Read(CountsOf(kind, a.memory), n) <= Read(CountsOf(kind, b.memory), n) {
      PrefixOfUnion(log, a.seen, b.seen, n);
      assert a.seen + b.seen == b.seen;
      PrefixBounds(log, a.seen, n);
      PrefixBounds(log, b.seen, n);
      var i, j := |Prefix(log, a.seen, n)|, |Prefix(log, b.seen, n)|;
      if n in log {
        TotalMonotone(kind, log[n], i, j);
        assert Prefix(log, a.seen, n) == log[n][..i] && Prefix(log, b.seen, n) == log[n][..j];
      }
    }
  }

  // One step of a run only adds to what a replica counts, as long as nothing wraps.
  lemma StepCountsMore<V(!new)>(kind: Kind, nodes: set<string>, actions: seq<Action<V>>, a: Action<V>, n: string)
    requires n in nodes && NoWrap(kind, Run(nodes, actions + [a]).log)
    ensures n in Run(nodes, actions).replicas && n in Run(nodes, actions + [a]).replicas
    ensures CountsLe(CountsOf(kind, Run(nodes, actions).replicas[n].memory),
      CountsOf(kind, Run(nodes, actions + [a]).replicas[n].memory))
  {
    assert (actions + [a])[..|actions|] == actions;
    var s, s' := Run(nodes, actions), Run(nodes, actions + [a]);
    RunNodes(nodes, actions);
    RunNodes(nodes, actions + [a]);
    var r, r' := s.replicas[n], s'.replicas[n];
    assert Held(s, r) && Held(s', r');
    RunState(kind, nodes, actions + [a], r');
    NextExtends(s, a);
    NoWrapBefore(kind, s.log, s'.log);
    RunState(kind, nodes, actions, r);
    LaterCounts(kind, s.log, s'.log, r);
    MoreSeenCountsMore(kind, s'.log, r, r');
  }

  lemma LaterCounts<V>(kind: Kind, log: Log<V>, later: Log<V>, r: Replica<V>)
    requires Extends(log, later) && Closed(log, r.seen) && Counted(kind, log, r)
    ensures Closed(later, r.seen) && Counted(kind, later, r)
  {
    LaterLogPrefixes(log, later, r.seen);
  }

  // No step ever moves a replica's clock back.
  lemma ClockNeverGoesBack<V(!new)>(nodes: set<string>, actions: seq<Action<V>>, a: Action<V>, n: string)
    requires n in nodes && NoWrap(Clock, Run(nodes, actions + [a]).log)
    ensures n in Run(nodes, actions).replicas && n in Run(nodes, actions + [a]).replicas
    ensures CountsLe(Run(nodes, actions).replicas[n].memory.clock, Run(nodes, actions + [a]).replicas[n].memory.clock)
  {
    StepCountsMore(Clock, nodes, actions, a, n);
  }
}
