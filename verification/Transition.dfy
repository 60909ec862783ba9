/**
 State transitions: applying a diff to the canonical system state, auditing a claimed transition, and
 replaying an event log against an expected trajectory. JSON documents are abstract.
 */
module Transition {
  import opened Machine
  import opened Wrappers

  const MIN64: int := -0x8000_0000_0000_0000

  type i64 = n: int | MIN64 <= n < -MIN64

  // `current + delta` on i64 in a release build.
  function WrapI64(n: int): i64 {
    (n - MIN64) % TWO64 + MIN64
  }

  // ---------- state, diffs and the JSON library ----------

  // The serialized fields of a state; `body` is everything except the version and the hash.
  datatype State<B> = State(body: B, version: u64, stateHash: string)

  datatype DiffOp<Doc> =
    | Add(path: string, value: Doc)
    | Remove(path: string)
    | Replace(path: string, value: Doc)
    | Increment(path: string, delta: i64)
    | Decrement(path: string, delta: i64)
    | Transfer(source: string, target: string, amount: u64)
    | Bless(path: string, agent: string)
    | Curse(path: string, agent: string)
    | Seal(path: string, algorithm: string)

  datatype StateDiff<Doc> = StateDiff(transitionId: nat, inputStateHash: string, ops: seq<DiffOp<Doc>>)

  datatype StateError = HashMismatch | InvalidDiff

  // Conversions that may fail, the patch of one `Add`, reading and writing an integer at a pointer, and
  // the digest of a state's content, in which neither the stored hash nor the cache takes part.
  datatype Json<!Doc, !B> = Json(
    toDoc: State<B> -> Option<Doc>,
    fromDoc: Doc -> Option<State<B>>,
    add: (Doc, string, Doc) -> Option<Doc>,
    readInt: (Doc, string) -> Option<i64>,
    writeInt: (Doc, string, i64) -> Doc,
    digest: (B, u64) -> string)

  // Every operation other than `Add` and `Increment` is accepted and does nothing.
  function ApplyOp<Doc, B>(j: Json<Doc, B>, doc: Doc, op: DiffOp<Doc>): Option<Doc> {
    match op
    case Add(path, value) => j.add(doc, path, value)
    case Increment(path, delta) =>
      (match j.readInt(doc, path)
       case Some(current) => Some(j.writeInt(doc, path, WrapI64(current + delta)))
       case None => Some(doc))
    case _ => Some(doc)
  }

  function ApplyOps<Doc, B>(j: Json<Doc, B>, doc: Doc, ops: seq<DiffOp<Doc>>): Option<Doc> {
    if ops == [] then Some(doc)
    else
      match ApplyOps(j, doc, ops[..|ops| - 1])
      case Some(d) => ApplyOp(j, d, ops[|ops| - 1])
      case None => None
  }

  function Applied<Doc, B>(j: Json<Doc, B>, s: State<B>, diff: StateDiff<Doc>): Result<State<B>, StateError> {
    if s.stateHash != "" && s.stateHash != diff.inputStateHash then Err(HashMismatch)
    else
      match j.toDoc(s)
      case None => Err(InvalidDiff)
      case Some(doc) =>
        match ApplyOps(j, doc, diff.ops)
        case None => Err(InvalidDiff)
        case Some(patched) =>
          match j.fromDoc(patched)
          case None => Err(InvalidDiff)
          case Some(t) =>
            var version := WrapAdd(t.version, 1);
            Ok(State(t.body, version, j.digest(t.body, version)))
  }

  predicate ValidHash<Doc, B>(j: Json<Doc, B>, s: State<B>) {
    s.stateHash == j.digest(s.body, s.version)
  }

  class CanonicalSystemState<Doc, B> {
    var body: B
    var version: u64
    var stateHash: string
    var cache: Option<Doc>

    ghost function Value(): State<B>
      reads this
    {
      State(body, version, stateHash)
    }

    constructor Copy(other: CanonicalSystemState<Doc, B>)
      ensures Value() == other.Value() && cache == other.cache
    {
      body, version, stateHash, cache := other.body, other.version, other.stateHash, other.cache;
    }

    method ValidateHash(j: Json<Doc, B>) returns (ok: bool)
      ensures ok == ValidHash(j, Value())
    {
      ok := stateHash == j.digest(body, version);
    }

    // All or nothing: a diff that fails anywhere leaves the state, cache included, as it was.
    method ApplyDiff(j: Json<Doc, B>, diff: StateDiff<Doc>) returns (r: Result<(), StateError>)
      modifies this
      ensures match Applied(j, old(Value()), diff)
              case Ok(s) => r == Ok(()) && Value() == s && cache == None
              case Err(e) => r == Err(e) && unchanged(this)
    {
      if stateHash != "" && stateHash != diff.inputStateHash {
        return Err(HashMismatch);
      }
      var converted := j.toDoc(State(body, version, stateHash));
      if converted.None? {
        return Err(InvalidDiff);
      }
      var doc := converted.value;
      for i := 0 to |diff.ops|
        invariant ApplyOps(j, converted.value, diff.ops[..i]) == Some(doc)
      {
        assert diff.ops[..i + 1][..i] == diff.ops[..i];
        match diff.ops[i] {
          case Add(path, value) =>
            var patched := j.add(doc, path, value);
            if patched.None? {
              OpsFailForGood(j, converted.value, diff.ops, i + 1);
              return Err(InvalidDiff);
            }
            doc := patched.value;
          case Increment(path, delta) =>
            var current := j.readInt(doc, path);
            if current.Some? {
              doc := j.writeInt(doc, path, WrapI64(current.value + delta));
            }
          case _ =>
        }
      }
      assert diff.ops[..|diff.ops|] == diff.ops;
      var parsed := j.fromDoc(doc);
      if parsed.None? {
        return Err(InvalidDiff);
      }
      body, version, cache := parsed.value.body, WrapAdd(parsed.value.version, 1), None;
      stateHash := j.digest(body, version);
      r := Ok(());
    }
  }

  lemma {:induction false} OpsFailForGood<Doc, B>(j: Json<Doc, B>, doc: Doc, ops: seq<DiffOp<Doc>>, k: nat)
    requires k <= |ops| && ApplyOps(j, doc, ops[..k]) == None
    ensures ApplyOps(j, doc, ops) == None
  {
    if k < |ops| {
      assert ops[..|ops| - 1][..k] == ops[..k];
      OpsFailForGood(j, doc, ops[..|ops| - 1], k);
    } else {
      assert ops[..k] == ops;
    }
  }

  // An applied state always carries its own digest.
  lemma AppliedIsSealed<Doc, B>(j: Json<Doc, B>, s: State<B>, diff: StateDiff<Doc>)
    requires Applied(j, s, diff).Ok?
    ensures ValidHash(j, Applied(j, s, diff).value)
  {
  }

  function Effective<Doc>(ops: seq<DiffOp<Doc>>): seq<DiffOp<Doc>> {
    if ops == [] then []
    else
      var last := ops[|ops| - 1];
      Effective(ops[..|ops| - 1]) + if last.Add? || last.Increment? then [last] else []
  }

  lemma OneMoreOp<Doc, B>(j: Json<Doc, B>, doc: Doc, ops: seq<DiffOp<Doc>>, op: DiffOp<Doc>)
    ensures ApplyOps(j, doc, ops + [op]) == match ApplyOps(j, doc, ops)
      case Some(d) => ApplyOp(j, d, op)
      case None => None
  {
    assert (ops + [op])[..|ops|] == ops;
  }

  lemma {:induction false} OnlyEffectiveOps<Doc, B>(j: Json<Doc, B>, doc: Doc, ops: seq<DiffOp<Doc>>)
    ensures ApplyOps(j, doc, ops) == ApplyOps(j, doc, Effective(ops))
  {
    if ops != [] {
      var last, front := ops[|ops| - 1], ops[..|ops| - 1];
      OnlyEffectiveOps(j, doc, front);
      assert ops == front + [last] && Effective(front) + [] == Effective(front);
      OneMoreOp(j, doc, front, last);
      OneMoreOp(j, doc, Effective(front), last);
      hide ApplyOps;
    }
  }

  // Removals, replacements, decrements, transfers and the three markers have no effect: a diff does what
  // its additions and increments alone would do.
  lemma DiffIsItsEffectiveOps<Doc, B>(j: Json<Doc, B>, s: State<B>, diff: StateDiff<Doc>)
    ensures Applied(j, s, diff) == Applied(j, s, diff.(ops := Effective(diff.ops)))
  {
    if j.toDoc(s).Some? {
      OnlyEffectiveOps(j, j.toDoc(s).value, diff.ops);
    }
  }

  // ---------- what the operations do to the integers of a document ----------

  // Writing an integer over an integer is seen at that pointer and at no other.
  ghost predicate IntegersAreCells<Doc(!new), B(!new)>(j: Json<Doc, B>) {
    && (forall d, p, n: i64 :: j.readInt(d, p).Some? ==> j.readInt(j.writeInt(d, p, n), p) == Some(n))
    && (forall d, p, q, n: i64 :: j.readInt(d, p).Some? && p != q ==>
          j.readInt(j.writeInt(d, p, n), q) == j.readInt(d, q))
  }

  // The sum of the increments at a pointer.
  function DeltaAt<Doc>(ops: seq<DiffOp<Doc>>, path: string): int {
    if ops == [] then 0
    else
      var last := ops[|ops| - 1];
      DeltaAt(ops[..|ops| - 1], path) + if last.Increment? && last.path == path then last.delta else 0
  }

  lemma WrapFits(n: int)
    ensures MIN64 <= n < -MIN64 ==> WrapI64(n) == n
    ensures (WrapI64(n) - n) % TWO64 == 0
  {
    var q := (n - MIN64) / TWO64;
    assert WrapI64(n) - n == -q * TWO64;
    MultipleOfTwo64(-q);
  }

  lemma {:induction false} MultipleOfTwo64(q: int)
    ensures q * TWO64 % TWO64 == 0
    decreases if q < 0 then -q else q
  {
    if q > 0 {
      MultipleOfTwo64(q - 1);
      assert q * TWO64 == (q - 1) * TWO64 + TWO64;
    } else if q < 0 {
      MultipleOfTwo64(q + 1);
      assert q * TWO64 == (q + 1) * TWO64 - TWO64;
    }
  }

  lemma WrapTwice(a: int, b: int)
    ensures WrapI64(WrapI64(a) + b) == WrapI64(a + b)
  {
    WrapFits(a);
    var q := (WrapI64(a) - a) / TWO64;
    assert WrapI64(a) + b - MIN64 == (a + b - MIN64) + q * TWO64;
    SameRemainder(a + b - MIN64, q);
  }

  lemma {:induction false} SameRemainder(a: int, q: int)
    ensures (a + q * TWO64) % TWO64 == a % TWO64
    decreases if q < 0 then -q else q
  {
    if q > 0 {
      SameRemainder(a, q - 1);
      assert a + q * TWO64 == (a + (q - 1) * TWO64) + TWO64;
    } else if q < 0 {
      SameRemainder(a, q + 1);
      assert a + q * TWO64 == (a + (q + 1) * TWO64) - TWO64;
    }
  }

  // An integer after increments that add up to `delta`; anything else stays no integer.
  function Raised(before: Option<i64>, delta: int): Option<i64> {
    match before
    case Some(n) => Some(WrapI64(n + delta))
    case None => None
  }

  lemma OneIncrement<Doc(!new), B(!new)>(j: Json<Doc, B>, doc: Doc, op: DiffOp<Doc>, path: string)
    requires IntegersAreCells(j) && !op.Add?
    ensures ApplyOp(j, doc, op).Some?
    ensures j.readInt(ApplyOp(j, doc, op).value, path)
         == if op.Increment? && op.path == path then Raised(j.readInt(doc, path), op.delta) else j.readInt(doc, path)
  {
    hide WrapI64;
  }

  lemma RaisedTwice(before: Option<i64>, a: int, b: int)
    ensures Raised(Raised(before, a), b) == Raised(before, a + b) && Raised(before, 0) == before
  {
    if before.Some? {
      WrapTwice(before.value + a, b);
      WrapFits(before.value);
    }
  }

  // Operations without an addition never fail. They leave at each pointer to an integer the old value plus
  // the sum of its increments, modulo 2^64, and a pointer to anything else stays one.
  lemma {:induction false} IncrementsAddUp<Doc(!new), B(!new)>(j: Json<Doc, B>, doc: Doc, ops: seq<DiffOp<Doc>>,
                                                               path: string)
    requires IntegersAreCells(j) && forall i :: 0 <= i < |ops| ==> !ops[i].Add?
    ensures ApplyOps(j, doc, ops).Some?
    ensures j.readInt(ApplyOps(j, doc, ops).value, path) == Raised(j.readInt(doc, path), DeltaAt(ops, path))
  {
    hide IntegersAreCells, ApplyOp, Raised;
    RaisedTwice(j.readInt(doc, path), 0, 0);
    if ops != [] {
      var front, last := ops[..|ops| - 1], ops[|ops| - 1];
      assert !last.Add?;
      IncrementsAddUp(j, doc, front, path);
      OneIncrement(j, ApplyOps(j, doc, front).value, last, path);
      if last.Increment? {
        RaisedTwice(j.readInt(doc, path), DeltaAt(front, path), last.delta);
      }
    }
  }

  // An increment where there is no integer changes nothing at all.
  lemma IncrementNeedsInteger<Doc, B>(j: Json<Doc, B>, s: State<B>, diff: StateDiff<Doc>, path: string, delta: i64)
    requires j.toDoc(s).Some? && j.readInt(j.toDoc(s).value, path).None?
    ensures Applied(j, s, diff.(ops := [Increment(path, delta)] + diff.ops)) == Applied(j, s, diff)
  {
    FirstOp(j, j.toDoc(s).value, Increment(path, delta), diff.ops);
  }

  lemma {:induction false} FirstOp<Doc, B>(j: Json<Doc, B>, doc: Doc, op: DiffOp<Doc>, ops: seq<DiffOp<Doc>>)
    ensures ApplyOps(j, doc, [op] + ops) == match ApplyOp(j, doc, op)
      case Some(d) => ApplyOps(j, d, ops)
      case None => None
  {
    if ops == [] {
      assert [op] + ops == [op] && [op][..0] == [];
    } else {
      var front := ops[..|ops| - 1];
      FirstOp(j, doc, op, front);
      assert ([op] + ops)[..|ops|] == [op] + front;
    }
  }

  // A diff that begins with an addition is the patch of that addition, and then the rest.
  lemma AdditionComesFirst<Doc, B>(j: Json<Doc, B>, doc: Doc, path: string, value: Doc, ops: seq<DiffOp<Doc>>)
    ensures ApplyOps(j, doc, [Add(path, value)] + ops) == match j.add(doc, path, value)
      case Some(d) => ApplyOps(j, d, ops)
      case None => None
  {
    FirstOp(j, doc, Add(path, value), ops);
  }

  // The state read back from the patched document, with the next version and a fresh digest.
  ghost predicate ComesFromDoc<Doc, B>(j: Json<Doc, B>, d: Doc, t: State<B>) {
    && j.fromDoc(d).Some?
    && t.body == j.fromDoc(d).value.body
    && t.version == (j.fromDoc(d).value.version + 1) % TWO64
    && t.stateHash == j.digest(t.body, t.version)
  }

  // What an applied diff without additions certifies: every integer of the document it was read back from
  // is the old one plus the increments at its pointer.
  lemma AppliedIncrements<Doc(!new), B(!new)>(j: Json<Doc, B>, s: State<B>, diff: StateDiff<Doc>)
    requires IntegersAreCells(j) && forall i :: 0 <= i < |diff.ops| ==> !diff.ops[i].Add?
    requires Applied(j, s, diff).Ok?
    ensures j.toDoc(s).Some?
    ensures exists d :: ComesFromDoc(j, d, Applied(j, s, diff).value) && Incremented(j, j.toDoc(s).value, d, diff.ops)
  {
    var doc := j.toDoc(s).value;
    var d := ApplyOps(j, doc, diff.ops).value;
    assert ComesFromDoc(j, d, Applied(j, s, diff).value);
    forall path ensures j.readInt(d, path) == Raised(j.readInt(doc, path), DeltaAt(diff.ops, path)) {
      IncrementsAddUp(j, doc, diff.ops, path);
    }
  }

  ghost predicate Incremented<Doc, B>(j: Json<Doc, B>, before: Doc, after: Doc, ops: seq<DiffOp<Doc>>) {
    forall path :: j.readInt(after, path) == Raised(j.readInt(before, path), DeltaAt(ops, path))
  }

  // Which diffs are refused before anything is tried, and that any other failure is an invalid diff.
  lemma RefusedIff<Doc, B>(j: Json<Doc, B>, s: State<B>, diff: StateDiff<Doc>)
    ensures Applied(j, s, diff) == Err(HashMismatch) <==> s.stateHash !in {"", diff.inputStateHash}
    ensures Applied(j, s, diff).Err? && s.stateHash in {"", diff.inputStateHash} ==>
      Applied(j, s, diff) == Err(InvalidDiff)
  {
  }

  // ---------- the auditor ----------

  datatype AuditReport = AuditReport(validator: string, passed: bool)

  datatype AuditSnapshot =
    AuditSnapshot(transitionId: nat, beforeHash: string, afterHash: string, opsCount: nat, reports: seq<AuditReport>,
      integrityVerified: bool)

  predicate AllPassed(reports: seq<AuditReport>) {
    forall i :: 0 <= i < |reports| ==> reports[i].passed
  }

  function Verdict<Doc, B>(j: Json<Doc, B>, before: State<B>, after: State<B>, diff: StateDiff<Doc>,
                           reports: seq<AuditReport>): bool
  {
    && ValidHash(j, after)
    && before.stateHash == diff.inputStateHash
    && Applied(j, before, diff).Ok?
    && Applied(j, before, diff).value.stateHash == after.stateHash
    && AllPassed(reports)
  }

  class ZangbetoAuditor {
    var history: seq<AuditSnapshot>

    constructor ()
      ensures history == []
    {
      history := [];
    }

    method VerifyTransition<Doc, B>(j: Json<Doc, B>, before: CanonicalSystemState<Doc, B>,
                                    after: CanonicalSystemState<Doc, B>,
                                    diff: StateDiff<Doc>, reports: seq<AuditReport>) returns (integrity: bool)
      modifies this
      ensures integrity == Verdict(j, before.Value(), after.Value(), diff, reports)
      ensures history == old(history)
        + [AuditSnapshot(diff.transitionId, before.stateHash, after.stateHash, |diff.ops|, reports, integrity)]
    {
      var valid := after.ValidateHash(j);
      var hashValid := valid && before.stateHash == diff.inputStateHash;
      var replay := new CanonicalSystemState.Copy(before);
      var applied := replay.ApplyDiff(j, diff);
      var replayOk := applied.Ok? && replay.stateHash == after.stateHash;
      var consensusOk := true;
      for i := 0 to |reports|
        invariant consensusOk <==> forall k :: 0 <= k < i ==> reports[k].passed
      {
        consensusOk := consensusOk && reports[i].passed;
      }
      integrity := hashValid && replayOk && consensusOk;
      history := history
        + [AuditSnapshot(diff.transitionId, before.stateHash, after.stateHash, |diff.ops|, reports, integrity)];
    }
  }

  // The transition really is the application of the diff it names, and everyone agreed.
  predicate Honest<Doc, B(==)>(j: Json<Doc, B>, before: State<B>, after: State<B>, diff: StateDiff<Doc>,
                               reports: seq<AuditReport>)
  {
    before.stateHash == diff.inputStateHash && Applied(j, before, diff) == Ok(after) && AllPassed(reports)
  }

  // Two different contents with one digest.
  predicate DigestCollision<Doc, B(==)>(j: Json<Doc, B>, s: State<B>, t: State<B>) {
    (s.body, s.version) != (t.body, t.version) && j.digest(s.body, s.version) == j.digest(t.body, t.version)
  }

  // The auditor accepts exactly the honest transitions, up to a collision of the claimed after-state with
  // the applied state.
  lemma AuditorAcceptsExactlyHonest<Doc, B>(j: Json<Doc, B>, before: State<B>, after: State<B>, diff: StateDiff<Doc>,
                                            reports: seq<AuditReport>)
    ensures Honest(j, before, after, diff, reports) ==> Verdict(j, before, after, diff, reports)
    ensures Verdict(j, before, after, diff, reports) ==>
      Honest(j, before, after, diff, reports) || DigestCollision(j, after, Applied(j, before, diff).value)
  {
  }

  // A before-state without a stored hash takes any diff, but the auditor insists on the named input hash.
  lemma UnhashedStateRefused<Doc, B>(j: Json<Doc, B>, before: State<B>, diff: StateDiff<Doc>, reports: seq<AuditReport>)
    requires Applied(j, before, diff).Ok? && AllPassed(reports)
    ensures Verdict(j, before, Applied(j, before, diff).value, diff, reports)
      <==> before.stateHash != "" || diff.inputStateHash == ""
  {
  }

  // ---------- replay ----------

  datatype RealityEvent<Doc> = RealityEvent(eventId: nat, diff: StateDiff<Doc>)

  datatype FailureType = DiffApplicationFailed | StateMismatch

  datatype DivergencePoint =
    DivergencePoint(eventIndex: nat, eventId: nat, failure: FailureType, stateBefore: string,
      stateAfterReplay: string, expectedStateHash: string)

  // The state after replaying all events, if every diff applies.
  function Replay<Doc, B>(j: Json<Doc, B>, s: State<B>, events: seq<RealityEvent<Doc>>): Option<State<B>> {
    if events == [] then Some(s)
    else
      match Replay(j, s, events[..|events| - 1])
      case None => None
      case Some(t) =>
        match Applied(j, t, events[|events| - 1].diff)
        case Ok(u) => Some(u)
        case Err(_) => None
  }

  lemma NothingReplayed<Doc, B>(j: Json<Doc, B>, s: State<B>, events: seq<RealityEvent<Doc>>)
    ensures Replay(j, s, events[..0]) == Some(s)
  {
  }

  lemma ReplayStep<Doc, B>(j: Json<Doc, B>, s: State<B>, events: seq<RealityEvent<Doc>>, i: nat)
    requires i < |events| && Replay(j, s, events[..i]).Some?
    ensures Replay(j, s, events[..i + 1]) == match Applied(j, Replay(j, s, events[..i]).value, events[i].diff)
      case Ok(t) => Some(t)
      case Err(_) => None
  {
    assert events[..i + 1][..i] == events[..i];
  }

  // The replay of the first i + 1 events exists and has the i-th expected hash.
  predicate AgreesAt<Doc, B>(j: Json<Doc, B>, s: State<B>, events: seq<RealityEvent<Doc>>, expected: seq<string>,
                             i: nat)
    requires i < |events| && i < |expected|
  {
    var t := Replay(j, s, events[..i + 1]);
    t.Some? && t.value.stateHash == expected[i]
  }

  // The point is the least index where replay disagrees, and reports what was seen there.
  predicate IsFirstDivergence<Doc, B>(j: Json<Doc, B>, s: State<B>, events: seq<RealityEvent<Doc>>,
                                      expected: seq<string>, p: DivergencePoint)
  {
    && p.eventIndex < |events| && p.eventIndex < |expected|
    && !AgreesAt(j, s, events, expected, p.eventIndex)
    && (forall i :: 0 <= i < p.eventIndex ==> AgreesAt(j, s, events, expected, i))
    && p.eventId == events[p.eventIndex].eventId
    && p.expectedStateHash == expected[p.eventIndex]
    && var before, after := Replay(j, s, events[..p.eventIndex]), Replay(j, s, events[..p.eventIndex + 1]);
       && before.Some? && p.stateBefore == before.value.stateHash
       && match after
          case None => p.failure == DiffApplicationFailed && p.stateAfterReplay == "ERROR"
          case Some(t) => p.failure == StateMismatch && p.stateAfterReplay == t.stateHash
  }

  class RealityReplayEngine<Doc, B> {
    var eventLog: seq<RealityEvent<Doc>>

    constructor ()
      ensures eventLog == []
    {
      eventLog := [];
    }

    method RecordEvent(event: RealityEvent<Doc>)
      modifies this
      ensures eventLog == old(eventLog) + [event]
    {
      eventLog := eventLog + [event];
    }

    // `expected` lists the predicted state hashes; the shorter of the two sequences ends the search.
    method FindFirstDivergence(j: Json<Doc, B>, initial: CanonicalSystemState<Doc, B>, expected: seq<string>)
      returns (r: Option<DivergencePoint>)
      ensures r.None?
        <==> forall i :: 0 <= i < |eventLog| && i < |expected| ==> AgreesAt(j, initial.Value(), eventLog, expected, i)
      ensures r.Some? ==> IsFirstDivergence(j, initial.Value(), eventLog, expected, r.value)
    {
      hide Applied, Replay;
      NothingReplayed(j, initial.Value(), eventLog);
      var current := new CanonicalSystemState.Copy(initial);
      var idx := 0;
      while idx < |eventLog| && idx < |expected|
        invariant 0 <= idx <= |eventLog| && idx <= |expected|
        invariant fresh(current)
        invariant Replay(j, initial.Value(), eventLog[..idx]) == Some(current.Value())
        invariant forall i :: 0 <= i < idx ==> AgreesAt(j, initial.Value(), eventLog, expected, i)
      {
        ReplayStep(j, initial.Value(), eventLog, idx);
        var event := eventLog[idx];
        var replayed := new CanonicalSystemState.Copy(current);
        var applied := replayed.ApplyDiff(j, event.diff);
        assert applied.Err? || replayed.stateHash != expected[idx] ==>
          !AgreesAt(j, initial.Value(), eventLog, expected, idx);
        if applied.Err? {
          return Some(DivergencePoint(idx, event.eventId, DiffApplicationFailed, current.stateHash, "ERROR",
            expected[idx]));
        }
        if replayed.stateHash != expected[idx] {
          return Some(DivergencePoint(idx, event.eventId, StateMismatch, current.stateHash, replayed.stateHash,
            expected[idx]));
        }
        current := replayed;
        idx := idx + 1;
      }
      r := None;
    }
  }

  // ---------- audit and replay together ----------

  // A history of states in which the auditor accepted every step.
  ghost predicate Audited<Doc, B>(j: Json<Doc, B>, states: seq<State<B>>, events: seq<RealityEvent<Doc>>,
                                  reports: seq<seq<AuditReport>>)
  {
    && |states| == |events| + 1 && |reports| == |events|
    && forall i :: 0 <= i < |events| ==> Verdict(j, states[i], states[i + 1], events[i].diff, reports[i])
  }

  ghost predicate StepCollides<Doc, B>(j: Json<Doc, B>, states: seq<State<B>>, events: seq<RealityEvent<Doc>>, i: nat) {
    && i < |events| && |states| == |events| + 1 && Applied(j, states[i], events[i].diff).Ok?
    && DigestCollision(j, states[i + 1], Applied(j, states[i], events[i].diff).value)
  }

  // Replaying the log from the first state goes through every one of the states.
  ghost predicate ReplaysThrough<Doc, B>(j: Json<Doc, B>, states: seq<State<B>>, events: seq<RealityEvent<Doc>>) {
    |states| == |events| + 1 && forall i :: 0 <= i < |states| ==> Replay(j, states[0], events[..i]) == Some(states[i])
  }

  lemma {:induction false} AuditedReachesState<Doc, B>(j: Json<Doc, B>, states: seq<State<B>>,
                                                       events: seq<RealityEvent<Doc>>, reports: seq<seq<AuditReport>>,
                                                       k: nat)
    requires Audited(j, states, events, reports) && k <= |events|
    ensures Replay(j, states[0], events[..k]) == Some(states[k]) || exists i :: StepCollides(j, states, events, i)
  {
    if k > 0 {
      AuditedReachesState(j, states, events, reports, k - 1);
      assert events[..k][..k - 1] == events[..k - 1];
      AuditorAcceptsExactlyHonest(j, states[k - 1], states[k], events[k - 1].diff, reports[k - 1]);
      if DigestCollision(j, states[k], Applied(j, states[k - 1], events[k - 1].diff).value) {
        assert StepCollides(j, states, events, k - 1);
      }
    }
  }

  // Replaying an audited history reproduces every one of its states, or some accepted state collides
  // with the one it should have been.
  lemma AuditedHistoryReplays<Doc, B>(j: Json<Doc, B>, states: seq<State<B>>, events: seq<RealityEvent<Doc>>,
                                      reports: seq<seq<AuditReport>>)
    requires Audited(j, states, events, reports)
    ensures ReplaysThrough(j, states, events) || exists i :: StepCollides(j, states, events, i)
  {
    if !exists i :: StepCollides(j, states, events, i) {
      forall i | 0 <= i < |states| ensures Replay(j, states[0], events[..i]) == Some(states[i]) {
        AuditedReachesState(j, states, events, reports, i);
      }
    }
  }

  // So the divergence search over an audited history, given its own state hashes, finds nothing.
  lemma AuditedHistoryNeverDiverges<Doc, B>(j: Json<Doc, B>, states: seq<State<B>>, events: seq<RealityEvent<Doc>>,
                                            reports: seq<seq<AuditReport>>, expected: seq<string>)
    requires Audited(j, states, events, reports) && |expected| == |events|
    requires forall i :: 0 <= i < |expected| ==> expected[i] == states[i + 1].stateHash
    ensures || (forall i :: 0 <= i < |events| ==> AgreesAt(j, states[0], events, expected, i))
            || exists i :: StepCollides(j, states, events, i)
  {
    AuditedHistoryReplays(j, states, events, reports);
    if ReplaysThrough(j, states, events) {
      forall i | 0 <= i < |events| ensures AgreesAt(j, states[0], events, expected, i) {
        assert Replay(j, states[0], events[..i + 1]) == Some(states[i + 1]);
      }
    }
  }

  // Conversely, a history the log replays through is audited, provided each diff names the hash it was
  // applied to and the reports passed.
  lemma ReplayedHistoryIsAudited<Doc, B>(j: Json<Doc, B>, states: seq<State<B>>, events: seq<RealityEvent<Doc>>,
                                         reports: seq<seq<AuditReport>>)
    requires ReplaysThrough(j, states, events) && |reports| == |events|
    requires forall i :: 0 <= i < |events| ==>
      events[i].diff.inputStateHash == states[i].stateHash && AllPassed(reports[i])
    ensures Audited(j, states, events, reports)
  {
    hide Applied;
    forall k | 0 <= k < |events| ensures Verdict(j, states[k], states[k + 1], events[k].diff, reports[k]) {
      assert Replay(j, states[0], events[..k]) == Some(states[k]);
      assert Replay(j, states[0], events[..k + 1]) == Some(states[k + 1]);
      assert events[..k + 1][..k] == events[..k];
      AppliedIsSealed(j, states[k], events[k].diff);
    }
  }
}
