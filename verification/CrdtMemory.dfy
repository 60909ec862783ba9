/**
 The replicated memory: a last-writer-wins map, an observed-remove set, a grow-only counter, a vector
 clock and their product. The containers are the mutable objects; a whole memory is the value a replica
 hands over, so `Join` is a function.
 */
module CrdtMemory {
  import opened Machine
  import opened Wrappers
  import opened Text
  import opened Maps

  // ---------- last-writer-wins registers ----------

  datatype Register<V> = Register(value: V, timestamp: u64, nodeId: string)

  function MergeRegister<V>(a: Register<V>, b: Register<V>): Register<V> {
    if a.timestamp > b.timestamp then a
    else if b.timestamp > a.timestamp then b
    else if LexLe(a.nodeId, b.nodeId) then a else b
  }

  // Later timestamp first, then the lexicographically smaller node.
  predicate Beats<V>(a: Register<V>, b: Register<V>) {
    a.timestamp > b.timestamp || (a.timestamp == b.timestamp && LexLe(a.nodeId, b.nodeId))
  }

  // Two registers the merge cannot tell apart although they differ.
  predicate Tie<V(==)>(a: Register<V>, b: Register<V>) {
    a.timestamp == b.timestamp && a.nodeId == b.nodeId && a.value != b.value
  }

  lemma RegisterSelects<V(!new)>()
    ensures Selects(Beats<V>, MergeRegister<V>)
  {
    forall x: Register<V> ensures Beats(x, x) {
      LexTotal(x.nodeId, x.nodeId);
    }
    forall x: Register<V>, y: Register<V>
      ensures (MergeRegister(x, y) == x || MergeRegister(x, y) == y)
           && Beats(MergeRegister(x, y), x) && Beats(MergeRegister(x, y), y)
    {
      LexTotal(x.nodeId, y.nodeId);
      LexTotal(x.nodeId, x.nodeId);
      LexTotal(y.nodeId, y.nodeId);
    }
    forall x: Register<V>, y: Register<V>, z: Register<V> | Beats(x, y) && Beats(y, z)
      ensures Beats(x, z)
    {
      if x.timestamp == y.timestamp == z.timestamp {
        LexTransitive(x.nodeId, y.nodeId, z.nodeId);
      }
    }
  }

  lemma MutualBeatsIsEqualOrTie<V>(a: Register<V>, b: Register<V>)
    requires Beats(a, b) && Beats(b, a)
    ensures a == b || Tie(a, b)
  {
    LexAntisymmetric(a.nodeId, b.nodeId);
  }

  lemma RegisterAssociative<V>(a: Register<V>, b: Register<V>, c: Register<V>)
    ensures MergeRegister(MergeRegister(a, b), c) == MergeRegister(a, MergeRegister(b, c))
  {
    LexTotal(a.nodeId, b.nodeId);
    LexTotal(b.nodeId, c.nodeId);
    LexTotal(a.nodeId, c.nodeId);
    if LexLe(a.nodeId, b.nodeId) && LexLe(b.nodeId, c.nodeId) {
      LexTransitive(a.nodeId, b.nodeId, c.nodeId);
    }
    if LexLe(c.nodeId, b.nodeId) && LexLe(b.nodeId, a.nodeId) {
      LexTransitive(c.nodeId, b.nodeId, a.nodeId);
      if LexLe(a.nodeId, c.nodeId) {
        LexAntisymmetric(a.nodeId, c.nodeId);
        LexAntisymmetric(a.nodeId, b.nodeId);
      }
    }
  }

  // The exact limit of "deterministic tie-breaking": registers commute unless they tie.
  lemma RegisterCommutes<V>(a: Register<V>, b: Register<V>)
    ensures MergeRegister(a, b) == MergeRegister(b, a) <==> !Tie(a, b)
  {
    LexTotal(a.nodeId, b.nodeId);
    if LexLe(a.nodeId, b.nodeId) && LexLe(b.nodeId, a.nodeId) {
      LexAntisymmetric(a.nodeId, b.nodeId);
    }
  }

  class LwwRegisterMap<V> {
    var entries: map<string, Register<V>>

    constructor ()
      ensures entries == map[]
    {
      entries := map[];
    }

    method Join(other: LwwRegisterMap<V>)
      modifies this
      ensures entries == Pointwise(MergeRegister<V>, old(entries), old(other.entries))
    {
      entries := FoldInto(MergeRegister<V>, entries, other.entries);
    }
  }

  // ---------- observed-remove set ----------

  datatype ElementState =
    ElementState(addedBy: map<string, u64>, removedBy: map<string, u64>, encryptionRef: Option<string>)

  type Elements = map<string, ElementState>

  function StateOf(s: Elements, element: string): ElementState {
    if element in s then s[element] else ElementState(map[], map[], None)
  }

  function AddElement(s: Elements, element: string, nodeId: string, timestamp: u64): Elements {
    var state := StateOf(s, element);
    s[element := state.(addedBy := state.addedBy[nodeId := timestamp])]
  }

  // A removal of an element this replica has never seen changes nothing.
  function RemoveElement(s: Elements, element: string, nodeId: string, timestamp: u64): Elements {
    if element in s then s[element := s[element].(removedBy := s[element].removedBy[nodeId := timestamp])] else s
  }

  predicate AddedBy(s: Elements, element: string, node: string) {
    node in StateOf(s, element).addedBy
  }

  predicate RemovedBy(s: Elements, element: string, node: string) {
    node in StateOf(s, element).removedBy
  }

  // Some node added the element and has not itself removed it.
  ghost predicate Contains(s: Elements, element: string) {
    exists n :: AddedBy(s, element, n) && !RemovedBy(s, element, n)
  }

  function MergeElement(a: ElementState, b: ElementState): ElementState {
    ElementState(a.addedBy + b.addedBy, a.removedBy + b.removedBy,
                 if a.encryptionRef.None? then b.encryptionRef else a.encryptionRef)
  }

  // Who added and who removed an element is the union of what both sides know.
  lemma MergeIsUnion(a: Elements, b: Elements, element: string, node: string)
    ensures AddedBy(Pointwise(MergeElement, a, b), element, node)
      <==> AddedBy(a, element, node) || AddedBy(b, element, node)
    ensures RemovedBy(Pointwise(MergeElement, a, b), element, node)
      <==> RemovedBy(a, element, node) || RemovedBy(b, element, node)
  {
  }

  // Membership after a merge: some node's add is known to either side and its removal to neither.
  lemma MergedMembership(a: Elements, b: Elements, element: string)
    ensures Contains(Pointwise(MergeElement, a, b), element)
       <==> exists n :: (AddedBy(a, element, n) || AddedBy(b, element, n))
                     && !RemovedBy(a, element, n) && !RemovedBy(b, element, n)
  {
    var r := Pointwise(MergeElement, a, b);
    forall n ensures (AddedBy(r, element, n) && !RemovedBy(r, element, n))
                <==> && (AddedBy(a, element, n) || AddedBy(b, element, n))
                     && !RemovedBy(a, element, n) && !RemovedBy(b, element, n)
    {
      MergeIsUnion(a, b, element, n);
    }
  }

  class OrSet {
    var elements: Elements

    constructor ()
      ensures elements == map[]
    {
      elements := map[];
    }

    method Add(element: string, nodeId: string, timestamp: u64)
      modifies this
      ensures elements == AddElement(old(elements), element, nodeId, timestamp)
      // The given time is stored, also over an earlier or a later one; nothing else changes.
      ensures element in elements
      ensures elements[element].addedBy == StateOf(old(elements), element).addedBy[nodeId := timestamp]
      ensures elements[element].removedBy == StateOf(old(elements), element).removedBy
      ensures elements[element].encryptionRef == StateOf(old(elements), element).encryptionRef
      ensures forall e :: e != element ==> StateOf(elements, e) == StateOf(old(elements), e)
      // An add is visible unless the same node has removed the element before.
      ensures Contains(elements, element)
        <==> Contains(old(elements), element) || !RemovedBy(old(elements), element, nodeId)
    {
      var entry := StateOf(elements, element);
      elements := elements[element := entry.(addedBy := entry.addedBy[nodeId := timestamp])];
      assert forall n :: AddedBy(elements, element, n) <==> n == nodeId || AddedBy(old(elements), element, n);
      assert forall n :: RemovedBy(elements, element, n) <==> RemovedBy(old(elements), element, n);
    }

    method Remove(element: string, nodeId: string, timestamp: u64)
      modifies this
      ensures elements == RemoveElement(old(elements), element, nodeId, timestamp)
      ensures element in old(elements) ==>
        var before := old(elements)[element];
        elements == old(elements)[element := before.(removedBy := before.removedBy[nodeId := timestamp])]
      ensures forall e :: e != element || e !in old(elements) ==> StateOf(elements, e) == StateOf(old(elements), e)
      // Only the removing node's own add is cancelled.
      ensures Contains(elements, element)
         <==> exists n :: n != nodeId && AddedBy(old(elements), element, n) && !RemovedBy(old(elements), element, n)
    {
      if element in elements {
        var entry := elements[element];
        elements := elements[element := entry.(removedBy := entry.removedBy[nodeId := timestamp])];
      }
      assert forall n :: AddedBy(elements, element, n) <==> AddedBy(old(elements), element, n);
      assert forall n :: RemovedBy(elements, element, n)
                    <==> (n == nodeId && element in old(elements)) || RemovedBy(old(elements), element, n);
    }

    method Has(element: string) returns (found: bool)
      ensures found == Contains(elements, element)
    {
      if element !in elements {
        return false;
      }
      var state := elements[element];
      var rest := state.addedBy.Keys;
      while rest != {}
        invariant rest <= state.addedBy.Keys
        invariant forall n :: n in state.addedBy.Keys - rest ==> RemovedBy(elements, element, n)
      {
        var n :| n in rest;
        if n !in state.removedBy {
          assert AddedBy(elements, element, n) && !RemovedBy(elements, element, n);
          return true;
        }
        rest := rest - {n};
      }
      return false;
    }

    method Merge(other: OrSet)
      modifies this
      ensures elements == Pointwise(MergeElement, old(elements), old(other.elements))
    {
      elements := FoldInto(MergeElement, elements, other.elements);
    }
  }

  // ---------- grow-only counter ----------

  // `v` and what is left to add make up the total, up to the wrap-arounds so far.
  ghost predicate Residue(v: u64, left: nat, total: nat) {
    exists wraps: nat :: v + left + wraps * TWO64 == total
  }

  lemma ResidueStep(v: u64, x: u64, left: nat, total: nat)
    requires Residue(v, x + left, total)
    ensures Residue(WrapAdd(v, x), left, total)
  {
    var wraps: nat :| v + (x + left) + wraps * TWO64 == total;
    var more := if v + x < TWO64 then 0 else 1;
    assert WrapAdd(v, x) + left + (wraps + more) * TWO64 == total;
  }

  lemma ResidueEnd(v: u64, total: nat)
    requires Residue(v, 0, total)
    ensures v == total % TWO64
  {
    var wraps: nat :| v + 0 + wraps * TWO64 == total;
    ModuloShift(v, wraps);
  }

  lemma {:induction false} ModuloShift(a: nat, q: nat)
    ensures (a + q * TWO64) % TWO64 == a % TWO64
  {
    if q > 0 {
      ModuloShift(a, q - 1);
    }
  }

  type Counts = map<string, u64>

  function Read(m: Counts, node: string): u64 {
    if node in m then m[node] else 0
  }

  function Larger(a: u64, b: u64): u64 {
    if a < b then b else a
  }

  ghost predicate CountsLe(a: Counts, b: Counts) {
    forall n :: Read(a, n) <= Read(b, n)
  }

  ghost predicate IsLeastUpperBound(a: Counts, b: Counts, r: Counts) {
    && CountsLe(a, r) && CountsLe(b, r)
    && forall c: Counts :: CountsLe(a, c) && CountsLe(b, c) ==> CountsLe(r, c)
  }

  // Taking the larger count of each node is the join of the pointwise order.
  lemma MergeIsLeastUpperBound(a: Counts, b: Counts)
    ensures IsLeastUpperBound(a, b, Pointwise(Larger, a, b))
  {
    var r := Pointwise(Larger, a, b);
    forall n ensures Read(r, n) == Larger(Read(a, n), Read(b, n)) {
    }
    forall c: Counts | CountsLe(a, c) && CountsLe(b, c) ensures CountsLe(r, c) {
      forall n ensures Read(r, n) <= Read(c, n) {
        assert Read(a, n) <= Read(c, n) && Read(b, n) <= Read(c, n);
      }
    }
  }

  class GCounter {
    var counts: Counts

    constructor ()
      ensures counts == map[]
    {
      counts := map[];
    }

    method Increment(nodeId: string, delta: u64)
      modifies this
      ensures counts == old(counts)[nodeId := WrapAdd(Read(old(counts), nodeId), delta)]
      // The total grows by exactly the increment, unless the node's own count wraps.
      ensures Read(old(counts), nodeId) + delta < TWO64 ==> Sum(counts) == Sum(old(counts)) + delta
    {
      SumUpdate(counts, nodeId, WrapAdd(Read(counts, nodeId), delta));
      if nodeId !in counts {
        counts := counts[nodeId := 0];
      }
      counts := counts[nodeId := WrapAdd(counts[nodeId], delta)];
    }

    method Value() returns (v: u64)
      ensures v == Sum(counts) % TWO64
    {
      v := 0;
      var rest := counts;
      assert v + Sum(rest) + 0 * TWO64 == Sum(counts);
      while rest != map[]
        invariant Residue(v, Sum(rest), Sum(counts))
        decreases |rest|
      {
        var k :| k in rest;
        SumRemove(rest, k);
        ResidueStep(v, rest[k], Sum(rest - {k}), Sum(counts));
        v := WrapAdd(v, rest[k]);
        rest := rest - {k};
      }
      ResidueEnd(v, Sum(counts));
    }

    method Merge(other: GCounter)
      modifies this
      ensures counts == Pointwise(Larger, old(counts), old(other.counts))
      ensures IsLeastUpperBound(old(counts), old(other.counts), counts)
    {
      MergeIsLeastUpperBound(counts, other.counts);
      counts := FoldInto(Larger, counts, other.counts);
    }
  }

  // ---------- vector clock ----------

  datatype Causality = HappensBefore | HappensAfter | Equal | Concurrent

  // `HappensBefore` is reported for the clock that is ahead, as the code has it.
  ghost function Relation(a: Counts, b: Counts): Causality {
    if CountsLe(a, b) then
      if CountsLe(b, a) then Equal else HappensAfter
    else
      if CountsLe(b, a) then HappensBefore else Concurrent
  }

  // The limit of a clock entry: a tick moves the clock ahead of what it was exactly when it does not wrap.
  lemma TickMoves(before: Counts, n: string)
    ensures Relation(before[n := WrapAdd(Read(before, n), 1)], before) == HappensBefore <==> Read(before, n) + 1 < TWO64
  {
    var after := before[n := WrapAdd(Read(before, n), 1)];
    assert forall m :: m != n ==> Read(after, m) == Read(before, m);
    assert Read(after, n) == WrapAdd(Read(before, n), 1);
  }

  class VectorClock {
    var clocks: Counts

    constructor ()
      ensures clocks == map[]
    {
      clocks := map[];
    }

    method Tick(nodeId: string)
      modifies this
      ensures clocks == old(clocks)[nodeId := WrapAdd(Read(old(clocks), nodeId), 1)]
      ensures Relation(clocks, old(clocks)) == HappensBefore <==> Read(old(clocks), nodeId) + 1 < TWO64
    {
      TickMoves(clocks, nodeId);
      if nodeId !in clocks {
        clocks := clocks[nodeId := 0];
      }
      clocks := clocks[nodeId := WrapAdd(clocks[nodeId], 1)];
    }

    method Merge(other: VectorClock)
      modifies this
      ensures clocks == Pointwise(Larger, old(clocks), old(other.clocks))
      ensures IsLeastUpperBound(old(clocks), old(other.clocks), clocks)
    {
      MergeIsLeastUpperBound(clocks, other.clocks);
      clocks := FoldInto(Larger, clocks, other.clocks);
    }

    method Compare(other: VectorClock) returns (c: Causality)
      ensures c == Relation(clocks, other.clocks)
    {
      var selfGreater, otherGreater := false, false;
      var rest := clocks.Keys + other.clocks.Keys;
      while rest != {}
        invariant rest <= clocks.Keys + other.clocks.Keys
        invariant selfGreater
          <==> exists n :: n in clocks.Keys + other.clocks.Keys - rest && Read(clocks, n) > Read(other.clocks, n)
        invariant otherGreater
          <==> exists n :: n in clocks.Keys + other.clocks.Keys - rest && Read(other.clocks, n) > Read(clocks, n)
      {
        var node :| node in rest;
        var a, b := Read(clocks, node), Read(other.clocks, node);
        if a > b {
          selfGreater := true;
        }
        if b > a {
          otherGreater := true;
        }
        rest := rest - {node};
      }
      assert selfGreater <==> !CountsLe(clocks, other.clocks);
      assert otherGreater <==> !CountsLe(other.clocks, clocks);
      c := match (selfGreater, otherGreater)
           case (true, false) => HappensBefore
           case (false, true) => HappensAfter
           case (false, false) => Equal
           case (true, true) => Concurrent;
    }
  }

  // ---------- the whole memory ----------

  datatype Memory<V> = Memory(hive: map<string, Register<V>>, seal: Option<Elements>, ephemeral: Counts, clock: Counts)

  function JoinSeal(a: Option<Elements>, b: Option<Elements>): Option<Elements> {
    match (a, b)
    case (Some(x), Some(y)) => Some(Pointwise(MergeElement, x, y))
    case (Some(_), None) => a
    case (None, _) => b
  }

  function Join<V>(a: Memory<V>, b: Memory<V>): Memory<V> {
    Memory(Pointwise(MergeRegister, a.hive, b.hive),
           JoinSeal(a.seal, b.seal),
           Pointwise(Larger, a.ephemeral, b.ephemeral),
           Pointwise(Larger, a.clock, b.clock))
  }

  function Sealed(seal: Option<Elements>): Elements {
    if seal.None? then map[] else seal.value
  }

  // ---------- the algebra of join ----------

  lemma JoinAssociative<V(!new)>(a: Memory<V>, b: Memory<V>, c: Memory<V>)
    ensures Join(Join(a, b), c) == Join(a, Join(b, c))
  {
    forall x: Register<V>, y: Register<V>, z: Register<V>
      ensures MergeRegister(MergeRegister(x, y), z) == MergeRegister(x, MergeRegister(y, z))
    {
      RegisterAssociative(x, y, z);
    }
    forall x, y, z ensures MergeElement(MergeElement(x, y), z) == MergeElement(x, MergeElement(y, z)) {
      assert x.addedBy + y.addedBy + z.addedBy == x.addedBy + (y.addedBy + z.addedBy);
      assert x.removedBy + y.removedBy + z.removedBy == x.removedBy + (y.removedBy + z.removedBy);
    }
    PointwiseAssociative(MergeRegister<V>, a.hive, b.hive, c.hive);
    PointwiseAssociative(MergeElement, Sealed(a.seal), Sealed(b.seal), Sealed(c.seal));
    PointwiseAssociative(Larger, a.ephemeral, b.ephemeral, c.ephemeral);
    PointwiseAssociative(Larger, a.clock, b.clock, c.clock);
  }

  lemma JoinIdempotent<V(!new)>(a: Memory<V>)
    ensures Join(a, a) == a
  {
    forall x: Register<V> ensures MergeRegister(x, x) == x {
    }
    forall x ensures MergeElement(x, x) == x {
      assert x.addedBy + x.addedBy == x.addedBy && x.removedBy + x.removedBy == x.removedBy;
    }
    PointwiseIdempotent(MergeRegister<V>, a.hive);
    PointwiseIdempotent(MergeElement, Sealed(a.seal));
    PointwiseIdempotent(Larger, a.ephemeral);
    PointwiseIdempotent(Larger, a.clock);
  }

  predicate Agree(a: map<string, u64>, b: map<string, u64>) {
    forall n :: n in a && n in b ==> a[n] == b[n]
  }

  // The states the element merge treats alike in both orders.
  predicate ElementsAgree(a: ElementState, b: ElementState) {
    && Agree(a.addedBy, b.addedBy)
    && Agree(a.removedBy, b.removedBy)
    && (a.encryptionRef.Some? && b.encryptionRef.Some? ==> a.encryptionRef == b.encryptionRef)
  }

  lemma MapUnionCommutes(a: map<string, u64>, b: map<string, u64>)
    ensures a + b == b + a <==> Agree(a, b)
  {
    if a + b == b + a {
      forall n | n in a && n in b ensures a[n] == b[n] {
        assert (a + b)[n] == (b + a)[n];
      }
    }
  }

  // Join commutes exactly when no register ties and no shared element carries two timestamps of one
  // node or two encryption references.
  lemma JoinCommutes<V(!new)>(a: Memory<V>, b: Memory<V>)
    ensures Join(a, b) == Join(b, a)
       <==> && (forall k :: k in a.hive && k in b.hive ==> !Tie(a.hive[k], b.hive[k]))
            && (forall e :: e in Sealed(a.seal) && e in Sealed(b.seal) ==>
              ElementsAgree(Sealed(a.seal)[e], Sealed(b.seal)[e]))
  {
    PointwiseCommutes(MergeRegister<V>, a.hive, b.hive);
    forall k | k in a.hive && k in b.hive
      ensures MergeRegister(a.hive[k], b.hive[k]) == MergeRegister(b.hive[k], a.hive[k]) <==> !Tie(a.hive[k], b.hive[k])
    {
      RegisterCommutes(a.hive[k], b.hive[k]);
    }
    PointwiseCommutes(MergeElement, Sealed(a.seal), Sealed(b.seal));
    forall x, y ensures MergeElement(x, y) == MergeElement(y, x) <==> ElementsAgree(x, y) {
      MapUnionCommutes(x.addedBy, y.addedBy);
      MapUnionCommutes(x.removedBy, y.removedBy);
    }
    PointwiseCommutes(Larger, a.ephemeral, b.ephemeral);
    PointwiseCommutes(Larger, a.clock, b.clock);
  }

  // The law fails: two joins of the same pair that disagree on a value and on a timestamp.
  lemma JoinDoesNotCommute(a: Memory<int>, b: Memory<int>)
    requires a == Memory(map["k" := Register(1, 5, "n")],
                         Some(map["e" := ElementState(map["n" := 1], map[], None)]), map[], map[])
    requires b == Memory(map["k" := Register(2, 5, "n")],
                         Some(map["e" := ElementState(map["n" := 2], map[], None)]), map[], map[])
    ensures Join(a, b).hive["k"].value == 1 && Join(b, a).hive["k"].value == 2
    ensures Sealed(Join(a, b).seal)["e"].addedBy["n"] == 2 && Sealed(Join(b, a).seal)["e"].addedBy["n"] == 1
  {
  }

  // ---------- strong convergence ----------

  // One replica's history of joins: any order, grouping and repetition of the states at the leaves.
  datatype JoinTree<V> = Leaf(state: Memory<V>) | Node(left: JoinTree<V>, right: JoinTree<V>)

  function Eval<V>(t: JoinTree<V>): Memory<V> {
    match t
    case Leaf(m) => m
    case Node(l, r) => Join(Eval(l), Eval(r))
  }

  ghost function Leaves<V>(t: JoinTree<V>): set<Memory<V>> {
    match t
    case Leaf(m) => {m}
    case Node(l, r) => Leaves(l) + Leaves(r)
  }

  ghost function Hives<V>(s: set<Memory<V>>): set<map<string, Register<V>>> { set m | m in s :: m.hive }

  ghost function Ephemerals<V>(s: set<Memory<V>>): set<Counts> { set m | m in s :: m.ephemeral }

  ghost function Clocks<V>(s: set<Memory<V>>): set<Counts> { set m | m in s :: m.clock }

  predicate NotLess(a: u64, b: u64) {
    a >= b
  }

  // What a joined memory must be, given only the set of states that went into it.
  ghost predicate IsJoinOf<V>(s: set<Memory<V>>, r: Memory<V>) {
    && IsPick(Beats<V>, Hives(s), r.hive)
    && IsPick(NotLess, Ephemerals(s), r.ephemeral)
    && IsPick(NotLess, Clocks(s), r.clock)
    && IsSealOf(s, Sealed(r.seal))
  }

  lemma IsJoinOfOne<V(!new)>(m: Memory<V>)
    ensures IsJoinOf({m}, m)
  {
    RegisterSelects<V>();
    PickOne(Beats<V>, MergeRegister<V>, m.hive);
    PickOne(NotLess, Larger, m.ephemeral);
    PickOne(NotLess, Larger, m.clock);
    assert Hives({m}) == {m.hive} && Ephemerals({m}) == {m.ephemeral} && Clocks({m}) == {m.clock};
    assert m in {m};
  }

  lemma IsJoinOfUnion<V(!new)>(s: set<Memory<V>>, a: Memory<V>, t: set<Memory<V>>, b: Memory<V>)
    requires IsJoinOf(s, a) && IsJoinOf(t, b)
    ensures IsJoinOf(s + t, Join(a, b))
  {
    RegisterSelects<V>();
    PickUnion(Beats<V>, MergeRegister<V>, Hives(s), a.hive, Hives(t), b.hive);
    PickUnion(NotLess, Larger, Ephemerals(s), a.ephemeral, Ephemerals(t), b.ephemeral);
    PickUnion(NotLess, Larger, Clocks(s), a.clock, Clocks(t), b.clock);
    assert Hives(s + t) == Hives(s) + Hives(t);
    assert Ephemerals(s + t) == Ephemerals(s) + Ephemerals(t);
    assert Clocks(s + t) == Clocks(s) + Clocks(t);
    SealsUnion(s, a.seal, t, b.seal);
  }

  ghost predicate IsSealOf<V>(s: set<Memory<V>>, r: Elements) {
    && (forall e, n :: AddedBy(r, e, n) <==> exists m :: m in s && AddedBy(Sealed(m.seal), e, n))
    && (forall e, n :: RemovedBy(r, e, n) <==> exists m :: m in s && RemovedBy(Sealed(m.seal), e, n))
  }

  lemma SealsUnion<V>(s: set<Memory<V>>, a: Option<Elements>, t: set<Memory<V>>, b: Option<Elements>)
    requires IsSealOf(s, Sealed(a)) && IsSealOf(t, Sealed(b))
    ensures IsSealOf(s + t, Sealed(JoinSeal(a, b)))
  {
    SealJoinIsUnion(a, b);
    var r := Sealed(JoinSeal(a, b));
    forall e, n ensures AddedBy(r, e, n) <==> exists m :: m in s + t && AddedBy(Sealed(m.seal), e, n) {
      if m :| m in s + t && AddedBy(Sealed(m.seal), e, n) {
        assert m in s || m in t;
      }
    }
    forall e, n ensures RemovedBy(r, e, n) <==> exists m :: m in s + t && RemovedBy(Sealed(m.seal), e, n) {
      if m :| m in s + t && RemovedBy(Sealed(m.seal), e, n) {
        assert m in s || m in t;
      }
    }
  }

  lemma SealJoinIsUnion(a: Option<Elements>, b: Option<Elements>)
    ensures forall e, n ::
      AddedBy(Sealed(JoinSeal(a, b)), e, n) <==> AddedBy(Sealed(a), e, n) || AddedBy(Sealed(b), e, n)
    ensures forall e, n ::
      RemovedBy(Sealed(JoinSeal(a, b)), e, n) <==> RemovedBy(Sealed(a), e, n) || RemovedBy(Sealed(b), e, n)
  {
  }

  lemma {:induction false} EvalIsJoinOfLeaves<V(!new)>(t: JoinTree<V>)
    ensures IsJoinOf(Leaves(t), Eval(t))
  {
    match t
    case Leaf(m) => IsJoinOfOne(m);
    case Node(l, r) =>
      EvalIsJoinOfLeaves(l);
      EvalIsJoinOfLeaves(r);
      IsJoinOfUnion(Leaves(l), Eval(l), Leaves(r), Eval(r));
  }

  // ---------- what the order of joining decides ----------

  // The joined states from left to right.
  ghost function InOrder<V>(t: JoinTree<V>): (s: seq<Elements>)
    ensures s != []
  {
    match t
    case Leaf(m) => [Sealed(m.seal)]
    case Node(l, r) => InOrder(l) + InOrder(r)
  }

  // The first encryption reference of an element, and the last time of a node's add or removal.
  function FirstRef(s: seq<Elements>, element: string): Option<string> {
    if s == [] then None
    else if StateOf(s[0], element).encryptionRef.Some? then StateOf(s[0], element).encryptionRef
    else FirstRef(s[1..], element)
  }

  function Times(state: ElementState, removal: bool): map<string, u64> {
    if removal then state.removedBy else state.addedBy
  }

  function TimeIn(m: map<string, u64>, node: string): Option<u64> {
    if node in m then Some(m[node]) else None
  }

  function LastTime(s: seq<Elements>, element: string, node: string, removal: bool): Option<u64> {
    if s == [] then None
    else
      var time := TimeIn(Times(StateOf(s[|s| - 1], element), removal), node);
      if time.Some? then time else LastTime(s[..|s| - 1], element, node, removal)
  }

  lemma {:induction false} FirstRefConcat(s: seq<Elements>, t: seq<Elements>, element: string)
    ensures FirstRef(s + t, element)
         == if FirstRef(s, element).Some? then FirstRef(s, element) else FirstRef(t, element)
  {
    if s == [] {
      assert s + t == t;
    } else {
      FirstRefConcat(s[1..], t, element);
      assert (s + t)[1..] == s[1..] + t;
    }
  }

  lemma {:induction false} LastTimeConcat(s: seq<Elements>, t: seq<Elements>,
                                          element: string, node: string, removal: bool)
    ensures LastTime(s + t, element, node, removal)
         == if LastTime(t, element, node, removal).Some? then LastTime(t, element, node, removal)
            else LastTime(s, element, node, removal)
  {
    if t == [] {
      assert s + t == s;
    } else {
      LastTimeConcat(s, t[..|t| - 1], element, node, removal);
      assert (s + t)[..|s + t| - 1] == s + t[..|t| - 1];
    }
  }

  lemma JoinSealStates(a: Option<Elements>, b: Option<Elements>, element: string)
    ensures StateOf(Sealed(JoinSeal(a, b)), element)
         == MergeElement(StateOf(Sealed(a), element), StateOf(Sealed(b), element))
  {
    var x, y := StateOf(Sealed(a), element), StateOf(Sealed(b), element);
    assert map[] + y.addedBy == y.addedBy && map[] + y.removedBy == y.removedBy;
    assert x.addedBy + map[] == x.addedBy && x.removedBy + map[] == x.removedBy;
  }

  // Where joins do not commute, this is what they do: the leftmost reference and the rightmost time win.
  lemma {:induction false} OrderOfJoins<V(!new)>(t: JoinTree<V>, element: string)
    ensures StateOf(Sealed(Eval(t).seal), element).encryptionRef == FirstRef(InOrder(t), element)
    ensures forall node, removal ::
      TimeIn(Times(StateOf(Sealed(Eval(t).seal), element), removal), node)
        == LastTime(InOrder(t), element, node, removal)
  {
    match t
    case Leaf(m) =>
    case Node(l, r) =>
      hide StateOf, Sealed, JoinSeal;
      OrderOfJoins(l, element);
      OrderOfJoins(r, element);
      JoinSealStates(Eval(l).seal, Eval(r).seal, element);
      FirstRefConcat(InOrder(l), InOrder(r), element);
      forall node, removal
        ensures TimeIn(Times(StateOf(Sealed(Eval(t).seal), element), removal), node)
             == LastTime(InOrder(t), element, node, removal)
      {
        LastTimeConcat(InOrder(l), InOrder(r), element, node, removal);
      }
  }

  // ---------- agreement ----------

  // What convergence promises: equal public hive, counter and clock, and the same members.
  ghost predicate SameView<V(!new)>(a: Memory<V>, b: Memory<V>) {
    && a.hive == b.hive
    && a.ephemeral == b.ephemeral
    && a.clock == b.clock
    && forall e :: Contains(Sealed(a.seal), e) == Contains(Sealed(b.seal), e)
  }

  lemma TopsAgree<V(!new)>(hives: set<map<string, Register<V>>>)
    requires NoTopTie(hives)
    ensures forall m, n, k | IsTop(Beats<V>, hives, m, k) && IsTop(Beats<V>, hives, n, k) :: m[k] == n[k]
  {
    forall m, n, k | IsTop(Beats<V>, hives, m, k) && IsTop(Beats<V>, hives, n, k)
      ensures m[k] == n[k]
    {
      MutualBeatsIsEqualOrTie(m[k], n[k]);
      assert !TopTie(hives, m, n, k);
    }
  }

  lemma SameMembers(a: Elements, b: Elements)
    requires forall e, n :: AddedBy(a, e, n) <==> AddedBy(b, e, n)
    requires forall e, n :: RemovedBy(a, e, n) <==> RemovedBy(b, e, n)
    ensures forall e :: Contains(a, e) == Contains(b, e)
  {
    forall e ensures Contains(a, e) == Contains(b, e) {
      assert forall n :: AddedBy(a, e, n) == AddedBy(b, e, n);
      assert forall n :: RemovedBy(a, e, n) == RemovedBy(b, e, n);
    }
  }

  lemma JoinOfIsUnique<V(!new)>(s: set<Memory<V>>, a: Memory<V>, b: Memory<V>)
    requires IsJoinOf(s, a) && IsJoinOf(s, b) && NoTopTie(Hives(s))
    ensures SameView(a, b)
  {
    TopsAgree(Hives(s));
    PickUnique(Beats<V>, Hives(s), a.hive, b.hive);
    PickUnique(NotLess, Ephemerals(s), a.ephemeral, b.ephemeral);
    PickUnique(NotLess, Clocks(s), a.clock, b.clock);
    SameMembers(Sealed(a.seal), Sealed(b.seal));
  }

  // A tie that no other register of the key outranks.
  ghost predicate TopTie<V>(hives: set<map<string, Register<V>>>, m: map<string, Register<V>>,
                            n: map<string, Register<V>>, k: string)
  {
    IsTop(Beats<V>, hives, m, k) && n in hives && k in n && Tie(m[k], n[k])
  }

  ghost predicate NoTopTie<V(!new)>(hives: set<map<string, Register<V>>>) {
    forall m, n, k :: !TopTie(hives, m, n, k)
  }

  // Strong convergence, with its exact condition: every way of joining the states under `t` ends in the
  // same view precisely when no key's best registers tie.
  lemma StrongConvergence<V(!new)>(t: JoinTree<V>)
    ensures (forall u :: Leaves(u) == Leaves(t) ==> SameView(Eval(t), Eval(u))) <==> NoTopTie(Hives(Leaves(t)))
  {
    hide IsJoinOf, Join, SameView;
    EvalIsJoinOfLeaves(t);
    if NoTopTie(Hives(Leaves(t))) {
      forall u | Leaves(u) == Leaves(t) ensures SameView(Eval(t), Eval(u)) {
        EvalIsJoinOfLeaves(u);
        JoinOfIsUnique(Leaves(t), Eval(t), Eval(u));
      }
    } else {
      var m, n, k :| TopTie(Hives(Leaves(t)), m, n, k);
      var u := FirstJoined(t, m, k);
      var v := FirstJoined(t, n, k);
      NotSameView(Eval(t), Eval(u), Eval(v));
    }
  }

  lemma NotSameView<V(!new)>(a: Memory<V>, b: Memory<V>, c: Memory<V>)
    requires b.hive != c.hive
    ensures !(SameView(a, b) && SameView(a, c))
  {
  }

  // Joining the state of a top register first makes it win.
  lemma FirstJoined<V(!new)>(t: JoinTree<V>, hive: map<string, Register<V>>, k: string) returns (u: JoinTree<V>)
    requires IsJoinOf(Leaves(t), Eval(t))
    requires IsTop(Beats<V>, Hives(Leaves(t)), hive, k)
    ensures Leaves(u) == Leaves(t)
    ensures k in Eval(u).hive && Eval(u).hive[k] == hive[k]
  {
    hide Beats, MergeRegister, IsTop, IsPick, Pointwise;
    var m :| m in Leaves(t) && m.hive == hive by { TopIsSource(t, hive, k); }
    u := Node(Leaf(m), t);
    assert Eval(u) == Join(m, Eval(t));
    TopSurvives(Hives(Leaves(t)), hive, k, Eval(t).hive);
  }

  lemma TopIsSource<V(!new)>(t: JoinTree<V>, hive: map<string, Register<V>>, k: string)
    requires IsTop(Beats<V>, Hives(Leaves(t)), hive, k)
    ensures exists m :: m in Leaves(t) && m.hive == hive
  {
  }

  lemma TopSurvives<V(!new)>(hives: set<map<string, Register<V>>>, hive: map<string, Register<V>>, k: string,
                             r: map<string, Register<V>>)
    requires IsPick(Beats<V>, hives, r) && IsTop(Beats<V>, hives, hive, k)
    ensures k in Pointwise(MergeRegister, hive, r) && Pointwise(MergeRegister, hive, r)[k] == hive[k]
  {
    var o :| o in hives && k in o && o[k] == r[k];
    BeatenLoses(hive[k], o[k]);
  }

  lemma BeatenLoses<V>(a: Register<V>, b: Register<V>)
    requires Beats(a, b)
    ensures MergeRegister(a, b) == a
  {
  }
}
