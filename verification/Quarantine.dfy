/**
 Quarantine of divergent states: a map of quarantined states, a queue of release candidates and a block
 list of merges. Clock readings are parameters.
 */
module Quarantine {
  import opened Machine
  import opened Wrappers

  datatype Condition =
    | TimeElapsed(minDurationMs: u64)
    | OrishaApproval(required: seq<string>)
    | AnomalyResolved(trace: nat)
    | ManualOverride(authorizedSigners: seq<string>)

  type StateHash = seq<byte>

  datatype Quarantined = Quarantined(stateHash: StateHash, createdAt: u64, conditions: seq<Condition>)

  datatype Candidate = Candidate(id: string, satisfied: set<Condition>, pending: set<Condition>, approvals: set<string>)

  datatype BlockedMerge = BlockedMerge(left: StateHash, right: StateHash, conflictType: string, blockedAt: u64)

  datatype Manager = Manager(states: map<string, Quarantined>, blocklist: set<BlockedMerge>, queue: seq<Candidate>)

  // `Panicked` is an `unwrap` on a missing state.
  datatype ReleaseResult =
    | Released(stateHash: StateHash, duration: u64)
    | Pending(satisfied: nat, remaining: nat)
    | NoProgress
    | NotFound
    | Panicked

  // ---------- the operations as functions of the state ----------

  function ToSet(conditions: seq<Condition>): set<Condition> {
    set c | c in conditions
  }

  function Quarantine(m: Manager, id: string, hash: StateHash, conditions: seq<Condition>, now: u64,
                      blockedAt: u64): Manager
  {
    Manager(m.states[id := Quarantined(hash, now, conditions)],
            m.blocklist + {BlockedMerge(hash, hash, "quarantine_source", blockedAt)},
            m.queue + [Candidate(id, {}, ToSet(conditions), {})])
  }

  // The first candidate of this id, or the length of the queue.
  function Position(queue: seq<Candidate>, id: string): (p: nat)
    ensures p <= |queue|
    ensures p < |queue| ==> queue[p].id == id
    ensures forall i :: 0 <= i < p ==> queue[i].id != id
  {
    if queue == [] then 0 else if queue[0].id == id then 0 else 1 + Position(queue[1..], id)
  }

  predicate Holds(c: Condition, q: Quarantined, approvals: set<string>, now: u64) {
    match c
    case TimeElapsed(ms) => WrapSub(now, q.createdAt) >= ms
    case OrishaApproval(required) => forall o :: o in required ==> o in approvals
    case AnomalyResolved(_) => true
    case ManualOverride(_) => false
  }

  // The candidate after the conditions that hold now have moved over.
  function Progress(cand: Candidate, q: Quarantined, now: u64): (after: Candidate)
    ensures after.id == cand.id && after.approvals == cand.approvals
  {
    var met := set c | c in cand.pending && Holds(c, q, cand.approvals, now);
    cand.(satisfied := cand.satisfied + met, pending := cand.pending - met)
  }

  function Unblock(blocklist: set<BlockedMerge>, hash: StateHash): set<BlockedMerge> {
    set b | b in blocklist && b.left != hash && b.right != hash
  }

  function Evaluate(m: Manager, id: string, now: u64): (Manager, ReleaseResult) {
    var p := Position(m.queue, id);
    if p == |m.queue| then (m, NotFound)
    else if id !in m.states then (m, Panicked)
    else
      var q := m.states[id];
      var cand := Progress(m.queue[p], q, now);
      if cand.pending == {} then
        (Manager(m.states - {id}, Unblock(m.blocklist, q.stateHash), m.queue[..p] + m.queue[p + 1..]),
         Released(q.stateHash, WrapSub(now, q.createdAt)))
      else
        (m.(queue := m.queue[p := cand]),
         if cand.satisfied != {} then Pending(|cand.satisfied|, |cand.pending|) else NoProgress)
  }

  function Approve(m: Manager, id: string, orisha: string): Manager {
    var p := Position(m.queue, id);
    if p == |m.queue| then m
    else m.(queue := m.queue[p := m.queue[p].(approvals := m.queue[p].approvals + {orisha})])
  }

  // ---------- the manager object ----------

  // The two hashes the manager computes: of a memory, and of a memory with its scope and reason.
  datatype Hasher<!M, !S, !R> = Hasher(memory: M -> StateHash, id: (M, S, R) -> string)

  class QuarantineManager<M, S, R> {
    const hasher: Hasher<M, S, R>
    var quarantinedStates: map<string, Quarantined>
    var mergeBlocklist: set<BlockedMerge>
    var releaseQueue: seq<Candidate>

    ghost function Value(): Manager
      reads this
    {
      Manager(quarantinedStates, mergeBlocklist, releaseQueue)
    }

    constructor (hasher: Hasher<M, S, R>)
      ensures Value() == Manager(map[], {}, []) && this.hasher == hasher
    {
      this.hasher := hasher;
      quarantinedStates, mergeBlocklist, releaseQueue := map[], {}, [];
    }

    method QuarantineState(state: M, scope: S, reason: R, conditions: seq<Condition>, now: u64, blockedAt: u64)
      returns (id: string)
      modifies this
      ensures id == hasher.id(state, scope, reason)
      ensures var hash := hasher.memory(state);
        && quarantinedStates == old(quarantinedStates)[id := Quarantined(hash, now, conditions)]
        && mergeBlocklist == old(mergeBlocklist) + {BlockedMerge(hash, hash, "quarantine_source", blockedAt)}
        && releaseQueue == old(releaseQueue) + [Candidate(id, {}, ToSet(conditions), {})]
      ensures Value() == Quarantine(old(Value()), id, hasher.memory(state), conditions, now, blockedAt)
    {
      id := hasher.id(state, scope, reason);
      var hash := hasher.memory(state);
      mergeBlocklist := mergeBlocklist + {BlockedMerge(hash, hash, "quarantine_source", blockedAt)};
      quarantinedStates := quarantinedStates[id := Quarantined(hash, now, conditions)];
      releaseQueue := releaseQueue + [Candidate(id, {}, ToSet(conditions), {})];
    }

    method Find(id: string) returns (p: nat)
      ensures p == Position(releaseQueue, id)
    {
      p := 0;
      while p < |releaseQueue| && releaseQueue[p].id != id
        invariant p <= |releaseQueue|
        invariant Position(releaseQueue, id) == p + Position(releaseQueue[p..], id)
      {
        assert releaseQueue[p..][1..] == releaseQueue[p + 1..];
        p := p + 1;
      }
    }

    method EvaluateRelease(id: string, now: u64) returns (r: ReleaseResult, next: Option<Condition>)
      modifies this
      ensures (Value(), r) == Evaluate(old(Value()), id, now)
      // A pending result names a condition that is still open.
      ensures r.Pending? <==> next.Some?
      ensures next.Some? ==> exists c :: c in releaseQueue && c.id == id && next.value in c.pending
    {
      next := None;
      var idx := Find(id);
      if idx == |releaseQueue| {
        return NotFound, None;
      }
      if id !in quarantinedStates {
        return Panicked, None;
      }
      var quarantined := quarantinedStates[id];
      var candidate := releaseQueue[idx];
      var satisfiedThisTurn: set<Condition> := {};
      var rest := candidate.pending;
      while rest != {}
        invariant rest <= candidate.pending
        invariant satisfiedThisTurn == set c | c in candidate.pending - rest
          && Holds(c, quarantined, candidate.approvals, now)
      {
        var c :| c in rest;
        if Holds(c, quarantined, candidate.approvals, now) {
          satisfiedThisTurn := satisfiedThisTurn + {c};
        }
        rest := rest - {c};
      }
      assert candidate.pending - {} == candidate.pending;
      candidate := candidate.(pending := candidate.pending - satisfiedThisTurn,
                              satisfied := candidate.satisfied + satisfiedThisTurn);
      releaseQueue := releaseQueue[idx := candidate];
      if candidate.pending == {} {
        quarantinedStates := quarantinedStates - {id};
        releaseQueue := releaseQueue[..idx] + releaseQueue[idx + 1..];
        mergeBlocklist := set b | b in mergeBlocklist && b.left != quarantined.stateHash
          && b.right != quarantined.stateHash;
        r := Released(quarantined.stateHash, WrapSub(now, quarantined.createdAt));
      } else if candidate.satisfied != {} {
        var c :| c in candidate.pending;
        assert releaseQueue[idx] in releaseQueue;
        next := Some(c);
        r := Pending(|candidate.satisfied|, |candidate.pending|);
      } else {
        r := NoProgress;
      }
    }

    method RecordOrishaApproval(id: string, orisha: string) returns (found: bool)
      modifies this
      ensures Value() == Approve(old(Value()), id, orisha)
      ensures found <==> Queued(old(releaseQueue), id)
    {
      var idx := Find(id);
      PositionFinds(releaseQueue, id);
      if idx == |releaseQueue| {
        return false;
      }
      releaseQueue := releaseQueue[idx := releaseQueue[idx].(approvals := releaseQueue[idx].approvals + {orisha})];
      found := true;
    }
  }

  // ---------- runs ----------

  datatype Call =
    | DoQuarantine(id: string, hash: StateHash, conditions: seq<Condition>, now: u64, blockedAt: u64)
    | DoEvaluate(id: string, now: u64)
    | DoApprove(id: string, orisha: string)

  function Step(m: Manager, call: Call): Manager {
    match call
    case DoQuarantine(id, hash, conditions, now, blockedAt) => Quarantine(m, id, hash, conditions, now, blockedAt)
    case DoEvaluate(id, now) => Evaluate(m, id, now).0
    case DoApprove(id, orisha) => Approve(m, id, orisha)
  }

  // The manager before the k-th call.
  function Before(calls: seq<Call>, k: nat): Manager
    requires k <= |calls|
  {
    if k == 0 then Manager(map[], {}, []) else Step(Before(calls, k - 1), calls[k - 1])
  }

  // No id is quarantined again while it is live.
  predicate FreshIds(calls: seq<Call>) {
    forall k :: 0 <= k < |calls| && calls[k].DoQuarantine? ==> calls[k].id !in Before(calls, k).states
  }

  // The clock never runs backwards.
  predicate ClockMonotone(calls: seq<Call>) {
    forall i, j :: 0 <= i < j < |calls| && !calls[i].DoApprove? && !calls[j].DoApprove? ==> calls[i].now <= calls[j].now
  }

  // ---------- what every operation keeps ----------

  // One candidate for each state and one state for each candidate; the conditions of a state are split
  // into satisfied and pending; every blocked hash is that of a live quarantine.
  ghost predicate WellKept(m: Manager) {
    OneToOne(m.states, m.queue) && Split(m.states, m.queue) && BlocksLive(m.states, m.blocklist)
  }

  predicate Queued(queue: seq<Candidate>, id: string) {
    exists i :: 0 <= i < |queue| && queue[i].id == id
  }

  ghost predicate OneToOne(states: map<string, Quarantined>, queue: seq<Candidate>) {
    && (forall i, j :: 0 <= i < j < |queue| ==> queue[i].id != queue[j].id)
    && (forall id :: id in states <==> Queued(queue, id))
  }

  ghost predicate Split(states: map<string, Quarantined>, queue: seq<Candidate>) {
    forall i :: 0 <= i < |queue| && queue[i].id in states ==> Partitioned(queue[i], states[queue[i].id])
  }

  ghost predicate BlocksLive(states: map<string, Quarantined>, blocklist: set<BlockedMerge>) {
    forall b :: b in blocklist ==> b.left == b.right && exists id :: id in states && states[id].stateHash == b.left
  }

  ghost predicate Partitioned(cand: Candidate, q: Quarantined) {
    cand.satisfied !! cand.pending && forall c :: c in cand.satisfied + cand.pending <==> c in q.conditions
  }

  lemma PositionFinds(queue: seq<Candidate>, id: string)
    ensures Position(queue, id) < |queue| <==> Queued(queue, id)
  {
    if Position(queue, id) < |queue| {
      assert queue[Position(queue, id)].id == id;
    }
  }

  lemma OneToOneAdd(states: map<string, Quarantined>, queue: seq<Candidate>, q: Quarantined, cand: Candidate)
    requires OneToOne(states, queue) && cand.id !in states
    ensures OneToOne(states[cand.id := q], queue + [cand])
  {
    var after := queue + [cand];
    forall id ensures id in states[cand.id := q] <==> Queued(after, id) {
      if Queued(queue, id) {
        var i :| 0 <= i < |queue| && queue[i].id == id;
        assert after[i].id == id;
      }
      if id == cand.id {
        assert after[|queue|].id == id;
      }
    }
    forall i | 0 <= i < |queue| ensures after[i].id != cand.id {
      assert Queued(queue, queue[i].id);
    }
  }

  lemma OneToOneReplace(states: map<string, Quarantined>, queue: seq<Candidate>, p: nat, cand: Candidate)
    requires OneToOne(states, queue) && p < |queue| && cand.id == queue[p].id
    ensures OneToOne(states, queue[p := cand])
  {
    var after := queue[p := cand];
    forall id ensures Queued(after, id) <==> Queued(queue, id) {
      if i :| 0 <= i < |queue| && queue[i].id == id {
        assert after[i].id == id;
      }
    }
  }

  lemma OneToOneRemove(states: map<string, Quarantined>, queue: seq<Candidate>, p: nat)
    requires OneToOne(states, queue) && p < |queue|
    ensures OneToOne(states - {queue[p].id}, queue[..p] + queue[p + 1..])
  {
    var after := queue[..p] + queue[p + 1..];
    assert forall i :: 0 <= i < |after| ==> after[i] == queue[if i < p then i else i + 1];
    forall id ensures Queued(after, id) <==> id != queue[p].id && Queued(queue, id) {
      if id != queue[p].id && Queued(queue, id) {
        var i :| 0 <= i < |queue| && queue[i].id == id;
        assert after[if i < p then i else i - 1].id == id;
      }
    }
  }

  lemma BlocksAfterRelease(states: map<string, Quarantined>, blocklist: set<BlockedMerge>, id: string)
    requires BlocksLive(states, blocklist) && id in states
    ensures BlocksLive(states - {id}, Unblock(blocklist, states[id].stateHash))
  {
    forall b | b in Unblock(blocklist, states[id].stateHash)
      ensures b.left == b.right && exists x :: x in states - {id} && (states - {id})[x].stateHash == b.left
    {
      var x :| x in states && states[x].stateHash == b.left;
      assert x in states - {id};
    }
  }

  lemma BlocksAfterQuarantine(states: map<string, Quarantined>, blocklist: set<BlockedMerge>, id: string,
                              q: Quarantined, at: u64)
    requires BlocksLive(states, blocklist) && id !in states
    ensures BlocksLive(states[id := q], blocklist + {BlockedMerge(q.stateHash, q.stateHash, "quarantine_source", at)})
  {
    var after := states[id := q];
    forall b | b in blocklist + {BlockedMerge(q.stateHash, q.stateHash, "quarantine_source", at)}
      ensures b.left == b.right && exists x :: x in after && after[x].stateHash == b.left
    {
      if b in blocklist {
        var x :| x in states && states[x].stateHash == b.left;
        assert x in after;
      } else {
        assert id in after;
      }
    }
  }

  lemma QuarantineKeeps(m: Manager, id: string, hash: StateHash, conditions: seq<Condition>, now: u64, blockedAt: u64)
    requires WellKept(m) && id !in m.states
    ensures WellKept(Quarantine(m, id, hash, conditions, now, blockedAt))
  {
    var q, cand := Quarantined(hash, now, conditions), Candidate(id, {}, ToSet(conditions), {});
    OneToOneAdd(m.states, m.queue, q, cand);
    BlocksAfterQuarantine(m.states, m.blocklist, id, q, blockedAt);
    forall i | 0 <= i < |m.queue| ensures m.queue[i].id != id {
      assert Queued(m.queue, m.queue[i].id);
    }
  }

  // Replacing a candidate by one of the same id whose conditions are still partitioned.
  lemma ReplaceKeeps(m: Manager, p: nat, cand: Candidate)
    requires WellKept(m) && p < |m.queue| && cand.id == m.queue[p].id && cand.id in m.states
      && Partitioned(cand, m.states[cand.id])
    ensures WellKept(m.(queue := m.queue[p := cand]))
  {
    OneToOneReplace(m.states, m.queue, p, cand);
  }

  lemma RemoveKeeps(m: Manager, p: nat)
    requires WellKept(m) && p < |m.queue| && m.queue[p].id in m.states
    ensures var q := m.states[m.queue[p].id];
      WellKept(Manager(m.states - {m.queue[p].id}, Unblock(m.blocklist, q.stateHash), m.queue[..p] + m.queue[p + 1..]))
  {
    OneToOneRemove(m.states, m.queue, p);
    BlocksAfterRelease(m.states, m.blocklist, m.queue[p].id);
  }

  lemma StepKeeps(m: Manager, call: Call)
    requires WellKept(m) && (call.DoQuarantine? ==> call.id !in m.states)
    ensures WellKept(Step(m, call))
    ensures call.DoEvaluate? ==> Evaluate(m, call.id, call.now).1 != Panicked
  {
    hide WellKept;
    match call
    case DoQuarantine(id, hash, conditions, now, blockedAt) => QuarantineKeeps(m, id, hash, conditions, now, blockedAt);
    case DoEvaluate(id, now) =>
      var p := Position(m.queue, id);
      if p < |m.queue| {
        CandidateHasState(m, p);
        if Progress(m.queue[p], m.states[id], now).pending == {} {
          RemoveKeeps(m, p);
        } else {
          ReplaceKeeps(m, p, Progress(m.queue[p], m.states[id], now));
        }
      }
    case DoApprove(id, orisha) =>
      var p := Position(m.queue, id);
      if p < |m.queue| {
        CandidateHasState(m, p);
        ReplaceKeeps(m, p, m.queue[p].(approvals := m.queue[p].approvals + {orisha}));
      }
  }

  lemma CandidateHasState(m: Manager, p: nat)
    requires WellKept(m) && p < |m.queue|
    ensures m.queue[p].id in m.states && Partitioned(m.queue[p], m.states[m.queue[p].id])
  {
    assert Queued(m.queue, m.queue[p].id);
  }

  lemma StateHasCandidate(m: Manager, id: string)
    requires WellKept(m) && id in m.states
    ensures Position(m.queue, id) < |m.queue|
  {
    PositionFinds(m.queue, id);
  }

  lemma NothingYet(calls: seq<Call>)
    ensures WellKept(Before(calls, 0)) && AllJustified(calls, 0)
  {
  }

  lemma OneMoreCall(calls: seq<Call>, k: nat)
    requires FreshIds(calls) && k < |calls|
    ensures Before(calls, k + 1) == Step(Before(calls, k), calls[k])
    ensures calls[k].DoQuarantine? ==> calls[k].id !in Before(calls, k).states
  {
  }

  // Over every run without re-quarantining, the bookkeeping is kept and no `unwrap` fails.
  lemma {:induction false} RunKeeps(calls: seq<Call>, k: nat)
    requires FreshIds(calls) && k <= |calls|
    ensures WellKept(Before(calls, k))
    ensures k < |calls| && calls[k].DoEvaluate? ==> Evaluate(Before(calls, k), calls[k].id, calls[k].now).1 != Panicked
  {
    hide *;
    if k == 0 {
      NothingYet(calls);
    } else {
      RunKeeps(calls, k - 1);
      OneMoreCall(calls, k - 1);
      StepKeeps(Before(calls, k - 1), calls[k - 1]);
    }
    if k < |calls| {
      OneMoreCall(calls, k);
      StepKeeps(Before(calls, k), calls[k]);
    }
  }

  // Quarantining a live id leaves two candidates for one state.
  lemma RequarantiningBreaks(m: Manager, id: string, hash: StateHash, conditions: seq<Condition>, now: u64,
                             blockedAt: u64)
    requires OneToOne(m.states, m.queue) && id in m.states
    ensures var after := Quarantine(m, id, hash, conditions, now, blockedAt); !OneToOne(after.states, after.queue)
  {
    var after := Quarantine(m, id, hash, conditions, now, blockedAt);
    var i :| 0 <= i < |m.queue| && m.queue[i].id == id;
    assert after.queue[i].id == after.queue[|m.queue|].id;
  }

  ghost predicate OneToOneAt(calls: seq<Call>, k: nat)
    requires k <= |calls|
  {
    OneToOne(Before(calls, k).states, Before(calls, k).queue)
  }

  lemma RequarantiningBreaksRun(calls: seq<Call>, k: nat)
    requires k < |calls| && calls[k].DoQuarantine? && calls[k].id in Before(calls, k).states
    ensures !OneToOneAt(calls, k) || !OneToOneAt(calls, k + 1)
  {
    hide OneToOne;
    var m, c := Before(calls, k), calls[k];
    if OneToOneAt(calls, k) {
      RequarantiningBreaks(m, c.id, c.hash, c.conditions, c.now, c.blockedAt);
    }
  }

  // The one-to-one correspondence holds throughout a run exactly when no live id is quarantined again.
  lemma OneToOneIffFresh(calls: seq<Call>)
    ensures (forall k: nat :: k <= |calls| ==> OneToOneAt(calls, k)) <==> FreshIds(calls)
  {
    if FreshIds(calls) {
      hide Before, OneToOne;
      forall k: nat | k <= |calls| ensures OneToOneAt(calls, k) {
        RunKeeps(calls, k);
      }
    } else {
      hide Before, OneToOneAt;
      var k :| 0 <= k < |calls| && calls[k].DoQuarantine? && calls[k].id in Before(calls, k).states;
      RequarantiningBreaksRun(calls, k);
    }
  }

  // Once every quarantine is released, nothing is queued and nothing is blocked.
  lemma AllReleasedIsClean(calls: seq<Call>, k: nat)
    requires FreshIds(calls) && k <= |calls| && Before(calls, k).states == map[]
    ensures Before(calls, k) == Manager(map[], {}, [])
  {
    RunKeeps(calls, k);
    var m := Before(calls, k);
    if m.queue != [] {
      CandidateHasState(m, 0);
    }
  }

  // The exact cause of a panic, and a run that meets it: one id quarantined twice, then evaluated twice.
  lemma PanicIffQueuedWithoutState(m: Manager, id: string, now: u64)
    ensures Evaluate(m, id, now).1 == Panicked <==> id !in m.states && Queued(m.queue, id)
  {
    PositionFinds(m.queue, id);
  }

  lemma RequarantiningPanics(id: string, hash: StateHash, now: u64)
    ensures var m := Quarantine(Quarantine(Manager(map[], {}, []), id, hash, [], now, now), id, hash, [], now, now);
      Evaluate(Evaluate(m, id, now).0, id, now).1 == Panicked
  {
    var m := Quarantine(Quarantine(Manager(map[], {}, []), id, hash, [], now, now), id, hash, [], now, now);
    var cand := Candidate(id, {}, {}, {});
    assert ToSet([]) == {};
    assert m.queue == [cand, cand] && Position(m.queue, id) == 0;
    assert Progress(cand, m.states[id], now).pending == {};
    var n := Evaluate(m, id, now).0;
    assert n.queue == m.queue[..0] + m.queue[1..] == [cand];
    assert Position(n.queue, id) == 0 && id !in n.states;
  }

  // A quarantine of a live id takes no account of its own conditions: the older candidate is found first.
  // Whether conditions matter to the next evaluation is exactly whether the id was free.
  lemma NewConditionsIgnoredIffQueued(m: Manager, id: string, hash: StateHash, at: u64, now: u64)
    ensures (forall c, d :: Evaluate(Quarantine(m, id, hash, c, at, at), id, now).1
                         == Evaluate(Quarantine(m, id, hash, d, at, at), id, now).1)
       <==> Queued(m.queue, id)
  {
    PositionFinds(m.queue, id);
    if Queued(m.queue, id) {
      forall c, d ensures Evaluate(Quarantine(m, id, hash, c, at, at), id, now).1
                       == Evaluate(Quarantine(m, id, hash, d, at, at), id, now).1
      {
        LookedAt(m, id, hash, c, d, at, now);
      }
    } else {
      var override := ManualOverride([]);
      assert override in ToSet([override]) && !Holds(override, Quarantined(hash, at, [override]), {}, now);
      assert ToSet([]) == {};
      EvaluateNew(m, id, hash, [], at, now);
      EvaluateNew(m, id, hash, [override], at, now);
    }
  }

  lemma EvaluateNew(m: Manager, id: string, hash: StateHash, c: seq<Condition>, at: u64, now: u64)
    requires !Queued(m.queue, id)
    ensures Evaluate(Quarantine(m, id, hash, c, at, at), id, now).1.Released?
       <==> forall x :: x in ToSet(c) ==> Holds(x, Quarantined(hash, at, c), {}, now)
  {
    var cand := Candidate(id, {}, ToSet(c), {});
    PositionFinds(m.queue, id);
    PositionOfFirst(m.queue, cand);
    var after := Quarantine(m, id, hash, c, at, at);
    assert Position(after.queue, id) == |m.queue| && after.queue[|m.queue|] == cand;
    var pending := Progress(cand, after.states[id], now).pending;
    assert forall x :: x in pending <==> x in ToSet(c) && !Holds(x, after.states[id], {}, now);
  }

  lemma {:induction false} PositionOfFirst(queue: seq<Candidate>, cand: Candidate)
    ensures Position(queue + [cand], cand.id) == Position(queue, cand.id)
  {
    if queue != [] && queue[0].id != cand.id {
      assert (queue + [cand])[1..] == queue[1..] + [cand];
      PositionOfFirst(queue[1..], cand);
    }
  }

  lemma LookedAt(m: Manager, id: string, hash: StateHash, c: seq<Condition>, d: seq<Condition>, at: u64, now: u64)
    requires Position(m.queue, id) < |m.queue|
    ensures Evaluate(Quarantine(m, id, hash, c, at, at), id, now).1
      == Evaluate(Quarantine(m, id, hash, d, at, at), id, now).1
  {
    var p := Position(m.queue, id);
    PositionOfFirst(m.queue, Candidate(id, {}, ToSet(c), {}));
    PositionOfFirst(m.queue, Candidate(id, {}, ToSet(d), {}));
    var x, y := Quarantine(m, id, hash, c, at, at), Quarantine(m, id, hash, d, at, at);
    assert x.queue[p] == m.queue[p] == y.queue[p];
    var approvals := m.queue[p].approvals;
    assert forall e :: Holds(e, x.states[id], approvals, now) <==> Holds(e, y.states[id], approvals, now);
    assert Progress(m.queue[p], x.states[id], now) == Progress(m.queue[p], y.states[id], now);
  }

  // ---------- blocked merges ----------

  predicate Blocked(blocklist: set<BlockedMerge>, hash: StateHash) {
    exists b :: b in blocklist && b.left == hash
  }

  ghost predicate AllLiveBlocked(m: Manager) {
    forall id :: id in m.states ==> Blocked(m.blocklist, m.states[id].stateHash)
  }

  // A release lifts the block of its state hash, also for another live quarantine of the same state: all
  // live quarantines stay blocked exactly when none of the others shares the hash.
  lemma ReleaseUnblocksSharedHash(m: Manager, id: string, now: u64)
    requires WellKept(m) && AllLiveBlocked(m) && Evaluate(m, id, now).1.Released?
    ensures id in m.states
    ensures AllLiveBlocked(Evaluate(m, id, now).0)
       <==> forall x :: x in m.states && x != id ==> m.states[x].stateHash != m.states[id].stateHash
  {
    var after, hash := Evaluate(m, id, now).0, m.states[id].stateHash;
    UnblockBlocks(m.blocklist, hash);
    if AllLiveBlocked(after) {
      forall x | x in m.states && x != id ensures m.states[x].stateHash != hash {
        assert x in after.states;
      }
    }
  }

  lemma UnblockBlocks(blocklist: set<BlockedMerge>, hash: StateHash)
    requires forall b :: b in blocklist ==> b.left == b.right
    ensures forall g :: Blocked(Unblock(blocklist, hash), g) <==> Blocked(blocklist, g) && g != hash
  {
    forall g ensures Blocked(Unblock(blocklist, hash), g) <==> Blocked(blocklist, g) && g != hash {
      if Blocked(blocklist, g) && g != hash {
        var b :| b in blocklist && b.left == g;
        assert b in Unblock(blocklist, hash);
      }
    }
  }

  ghost predicate LiveBlockedAt(calls: seq<Call>, k: nat)
    requires k <= |calls|
  {
    AllLiveBlocked(Before(calls, k))
  }

  // Call `k` releases a quarantine while another live one has the same state hash.
  predicate SharedRelease(calls: seq<Call>, k: nat)
    requires k < |calls|
  {
    var m, c := Before(calls, k), calls[k];
    && c.DoEvaluate? && Evaluate(m, c.id, c.now).1.Released? && c.id in m.states
    && exists x :: x in m.states && x != c.id && m.states[x].stateHash == m.states[c.id].stateHash
  }

  lemma StepBlocks(m: Manager, call: Call)
    requires WellKept(m) && AllLiveBlocked(m)
    requires call.DoEvaluate? ==> !Evaluate(m, call.id, call.now).1.Released?
    ensures AllLiveBlocked(Step(m, call))
  {
    hide Progress, WellKept;
    var after := Step(m, call);
    if call.DoQuarantine? {
      var b := BlockedMerge(call.hash, call.hash, "quarantine_source", call.blockedAt);
      assert b in after.blocklist;
      forall x | x in after.states ensures Blocked(after.blocklist, after.states[x].stateHash) {
        if x != call.id {
          var kept :| kept in m.blocklist && kept.left == m.states[x].stateHash;
          assert kept in after.blocklist;
        }
      }
    }
  }

  // After a call the live quarantines are still all blocked exactly when it was no shared release.
  lemma BlockedStep(calls: seq<Call>, k: nat)
    requires FreshIds(calls) && k < |calls| && LiveBlockedAt(calls, k)
    ensures LiveBlockedAt(calls, k + 1) <==> !SharedRelease(calls, k)
  {
    hide AllLiveBlocked, Evaluate, WellKept, FreshIds;
    var m, c := Before(calls, k), calls[k];
    RunKeeps(calls, k);
    if c.DoEvaluate? && Evaluate(m, c.id, c.now).1.Released? {
      ReleaseUnblocksSharedHash(m, c.id, c.now);
    } else {
      StepBlocks(m, c);
    }
  }

  lemma {:induction false} BlockedUpTo(calls: seq<Call>, k: nat)
    requires FreshIds(calls) && k <= |calls| && forall i :: 0 <= i < k ==> !SharedRelease(calls, i)
    ensures LiveBlockedAt(calls, k)
  {
    hide FreshIds, SharedRelease;
    if k > 0 {
      hide Before, AllLiveBlocked;
      BlockedUpTo(calls, k - 1);
      BlockedStep(calls, k - 1);
    }
  }

  // Every live quarantine stays blocked throughout a run exactly when no release happens while another
  // live quarantine shares the hash.
  lemma LiveStayBlockedIff(calls: seq<Call>)
    requires FreshIds(calls)
    ensures (forall k: nat :: k <= |calls| ==> LiveBlockedAt(calls, k))
       <==> forall k :: 0 <= k < |calls| ==> !SharedRelease(calls, k)
  {
    hide FreshIds, SharedRelease, LiveBlockedAt;
    if forall k :: 0 <= k < |calls| ==> !SharedRelease(calls, k) {
      forall k: nat | k <= |calls| ensures LiveBlockedAt(calls, k) {
        BlockedUpTo(calls, k);
      }
    } else {
      var k :| 0 <= k < |calls| && SharedRelease(calls, k);
      if LiveBlockedAt(calls, k) {
        BlockedStep(calls, k);
      }
    }
  }

  // ---------- release is justified, and happens when it is ----------

  // The index of the last call before `k` that quarantined `id`, or -1.
  function Origin(calls: seq<Call>, k: nat, id: string): (o: int)
    requires k <= |calls|
    ensures -1 <= o < k
    ensures o >= 0 ==> calls[o].DoQuarantine? && calls[o].id == id
  {
    if k == 0 then -1
    else if calls[k - 1].DoQuarantine? && calls[k - 1].id == id then k - 1
    else Origin(calls, k - 1, id)
  }

  ghost predicate ApprovedBetween(calls: seq<Call>, o: int, k: nat, id: string, orisha: string) {
    exists a :: o < a < k && 0 <= a < |calls| && calls[a] == DoApprove(id, orisha)
  }

  // Evaluation `e` found condition `c` of the quarantine made by call `o` to hold.
  ghost predicate MetAt(calls: seq<Call>, o: nat, e: nat, id: string, c: Condition)
    requires o < e < |calls| && calls[o].DoQuarantine?
  {
    && calls[e].DoEvaluate? && calls[e].id == id
    && match c
       case TimeElapsed(ms) => WrapSub(calls[e].now, calls[o].now) >= ms
       case OrishaApproval(required) => forall x :: x in required ==> ApprovedBetween(calls, o, e, id, x)
       case AnomalyResolved(_) => true
       case ManualOverride(_) => false
  }

  ghost predicate MetBetween(calls: seq<Call>, o: nat, k: nat, id: string, c: Condition)
    requires o < k <= |calls| && calls[o].DoQuarantine?
  {
    exists e :: o < e < k && MetAt(calls, o, e, id, c)
  }

  // What a queued candidate and its state say about the calls so far.
  ghost predicate Justified(calls: seq<Call>, k: nat, cand: Candidate, q: Quarantined)
    requires k <= |calls|
  {
    var o := Origin(calls, k, cand.id);
    && o >= 0
    && q == Quarantined(calls[o].hash, calls[o].now, calls[o].conditions)
    && (forall x :: x in cand.approvals <==> ApprovedBetween(calls, o, k, cand.id, x))
    && (forall c :: c in q.conditions ==> (c in cand.satisfied <==> MetBetween(calls, o, k, cand.id, c)))
  }

  ghost predicate AllJustified(calls: seq<Call>, k: nat)
    requires k <= |calls|
  {
    var m := Before(calls, k);
    forall i :: 0 <= i < |m.queue| && m.queue[i].id in m.states ==>
      Justified(calls, k, m.queue[i], m.states[m.queue[i].id])
  }

  lemma HoldsIsMet(calls: seq<Call>, k: nat, cand: Candidate, q: Quarantined, c: Condition)
    requires k < |calls| && calls[k].DoEvaluate? && calls[k].id == cand.id
    requires Justified(calls, k, cand, q)
    ensures Holds(c, q, cand.approvals, calls[k].now) <==> MetAt(calls, Origin(calls, k, cand.id), k, cand.id, c)
  {
  }

  // A call that is not about this candidate leaves its justification alone.
  lemma OthersIrrelevant(calls: seq<Call>, k: nat, cand: Candidate, q: Quarantined)
    requires k < |calls| && Justified(calls, k, cand, q)
    requires calls[k].id != cand.id
    ensures Justified(calls, k + 1, cand, q)
  {
    var o, id := Origin(calls, k, cand.id), cand.id;
    assert Origin(calls, k + 1, id) == o;
    forall x ensures ApprovedBetween(calls, o, k + 1, id, x) <==> ApprovedBetween(calls, o, k, id, x) {
    }
    forall c ensures MetBetween(calls, o, k + 1, id, c) <==> MetBetween(calls, o, k, id, c) {
      if MetBetween(calls, o, k + 1, id, c) {
        var e :| o < e < k + 1 && MetAt(calls, o, e, id, c);
        assert e < k;
      }
    }
  }

  lemma ApprovalJustified(calls: seq<Call>, k: nat, cand: Candidate, q: Quarantined)
    requires k < |calls| && Justified(calls, k, cand, q)
    requires calls[k].DoApprove? && calls[k].id == cand.id
    ensures Justified(calls, k + 1, cand.(approvals := cand.approvals + {calls[k].orisha}), q)
  {
    var o, id := Origin(calls, k, cand.id), cand.id;
    forall x ensures ApprovedBetween(calls, o, k + 1, id, x)
      <==> ApprovedBetween(calls, o, k, id, x) || x == calls[k].orisha
    {
      if x == calls[k].orisha {
        assert calls[k] == DoApprove(id, x);
      }
    }
    forall c ensures MetBetween(calls, o, k + 1, id, c) <==> MetBetween(calls, o, k, id, c) {
      if MetBetween(calls, o, k + 1, id, c) {
        var e :| o < e < k + 1 && MetAt(calls, o, e, id, c);
        assert e < k;
      }
    }
  }

  lemma ProgressJustified(calls: seq<Call>, k: nat, cand: Candidate, q: Quarantined)
    requires k < |calls| && Justified(calls, k, cand, q) && Partitioned(cand, q)
    requires calls[k].DoEvaluate? && calls[k].id == cand.id
    ensures Justified(calls, k + 1, Progress(cand, q, calls[k].now), q)
  {
    var o, id, after := Origin(calls, k, cand.id), cand.id, Progress(cand, q, calls[k].now);
    forall x ensures ApprovedBetween(calls, o, k + 1, id, x) <==> ApprovedBetween(calls, o, k, id, x) {
    }
    forall c | c in q.conditions ensures c in after.satisfied <==> MetBetween(calls, o, k + 1, id, c) {
      HoldsIsMet(calls, k, cand, q, c);
      MetStep(calls, o, k, id, c);
      assert c in cand.satisfied + cand.pending;
    }
  }

  lemma MetStep(calls: seq<Call>, o: nat, k: nat, id: string, c: Condition)
    requires o < k < |calls| && calls[o].DoQuarantine?
    ensures MetBetween(calls, o, k + 1, id, c) <==> MetBetween(calls, o, k, id, c) || MetAt(calls, o, k, id, c)
  {
    if MetBetween(calls, o, k + 1, id, c) {
      var e :| o < e < k + 1 && MetAt(calls, o, e, id, c);
      assert e < k || e == k;
    }
  }

  lemma FreshJustified(calls: seq<Call>, k: nat)
    requires k < |calls| && calls[k].DoQuarantine?
    ensures Justified(calls, k + 1, Candidate(calls[k].id, {}, ToSet(calls[k].conditions), {}),
                      Quarantined(calls[k].hash, calls[k].now, calls[k].conditions))
  {
    assert Origin(calls, k + 1, calls[k].id) == k;
  }

  lemma {:induction false} RunJustified(calls: seq<Call>, k: nat)
    requires FreshIds(calls) && k <= |calls|
    ensures AllJustified(calls, k)
  {
    hide *;
    if k == 0 {
      NothingYet(calls);
    } else {
      RunJustified(calls, k - 1);
      RunKeeps(calls, k - 1);
      AllStepsJustified(calls, k - 1);
    }
  }

  lemma AllStepsJustified(calls: seq<Call>, k: nat)
    requires FreshIds(calls) && k < |calls|
    requires AllJustified(calls, k) && WellKept(Before(calls, k))
    ensures AllJustified(calls, k + 1)
  {
    hide Justified, WellKept, Before;
    var m := Before(calls, k + 1);
    forall i | 0 <= i < |m.queue| && m.queue[i].id in m.states
      ensures Justified(calls, k + 1, m.queue[i], m.states[m.queue[i].id])
    {
      StepJustified(calls, k, i);
    }
  }

  // Where a queued candidate comes from in one step: it is new, the call was about it, or it was there
  // before and the call was about another id.
  datatype Source = New | Touched | Kept(index: nat)

  ghost predicate ComesFrom(m: Manager, call: Call, cand: Candidate, q: Quarantined, source: Source) {
    match source
    case New =>
      && call.DoQuarantine?
      && cand == Candidate(call.id, {}, ToSet(call.conditions), {})
      && q == Quarantined(call.hash, call.now, call.conditions)
    case Touched =>
      var p := Position(m.queue, call.id);
      && p < |m.queue| && call.id in m.states && q == m.states[call.id]
      && (match call
          case DoQuarantine(_, _, _, _, _) => false
          case DoEvaluate(_, now) => cand == Progress(m.queue[p], q, now)
          case DoApprove(_, orisha) => cand == m.queue[p].(approvals := m.queue[p].approvals + {orisha}))
    case Kept(i) =>
      i < |m.queue| && cand == m.queue[i] && cand.id in m.states && q == m.states[cand.id] && call.id != cand.id
  }

  lemma EveryCandidateComesFrom(m: Manager, call: Call, i: nat) returns (source: Source)
    requires WellKept(m) && (call.DoQuarantine? ==> call.id !in m.states)
    requires i < |Step(m, call).queue| && Step(m, call).queue[i].id in Step(m, call).states
    ensures var m' := Step(m, call); ComesFrom(m, call, m'.queue[i], m'.states[m'.queue[i].id], source)
  {
    hide Progress, Unblock, Split, BlocksLive, Partitioned, Queued;
    var m' := Step(m, call);
    var p := Position(m.queue, call.id);
    if call.DoQuarantine? {
      if i == |m.queue| {
        source := New;
      } else {
        CandidateHasState(m, i);
        source := Kept(i);
      }
    } else if p == |m.queue| {
      assert m' == m;
      source := Kept(i);
    } else {
      CandidateHasState(m, p);
      assert call.id in m.states && m.queue[p].id == call.id;
      if |m'.queue| < |m.queue| {
        var index := if i < p then i else i + 1;
        assert m'.queue[i] == m.queue[index];
        CandidateHasState(m, index);
        source := Kept(index);
      } else if i == p {
        source := Touched;
      } else {
        assert m'.queue[i] == m.queue[i] && m.queue[i].id != m.queue[p].id;
        CandidateHasState(m, i);
        source := Kept(i);
      }
    }
  }

  lemma StepJustified(calls: seq<Call>, k: nat, i: nat)
    requires FreshIds(calls) && k < |calls|
    requires AllJustified(calls, k) && WellKept(Before(calls, k))
    requires i < |Before(calls, k + 1).queue| && Before(calls, k + 1).queue[i].id in Before(calls, k + 1).states
    ensures var m' := Before(calls, k + 1); Justified(calls, k + 1, m'.queue[i], m'.states[m'.queue[i].id])
  {
    hide FreshIds, WellKept, Before, Step, Justified, Progress;
    OneMoreCall(calls, k);
    var m, m', call := Before(calls, k), Before(calls, k + 1), calls[k];
    var source := EveryCandidateComesFrom(m, call, i);
    match source
    case New => FreshJustified(calls, k);
    case Kept(j) => OthersIrrelevant(calls, k, m.queue[j], m.states[m.queue[j].id]);
    case Touched =>
      var p := Position(m.queue, call.id);
      if call.DoApprove? {
        ApprovalJustified(calls, k, m.queue[p], m.states[call.id]);
      } else {
        CandidateHasState(m, p);
        ProgressJustified(calls, k, m.queue[p], m.states[call.id]);
      }
  }

  // An evaluation releases a live quarantine exactly when each of its conditions was met at this or some
  // earlier evaluation since it was made: all required approvals recorded before that evaluation, or
  // enough time elapsed by the clock's wrap-around difference. A manual override is never met, so it is
  // never released here.
  lemma ReleasedIffEachConditionMet(calls: seq<Call>, t: nat)
    requires FreshIds(calls)
    requires t < |calls| && calls[t].DoEvaluate? && calls[t].id in Before(calls, t).states
    ensures var o := Origin(calls, t, calls[t].id);
      && o >= 0
      && (Evaluate(Before(calls, t), calls[t].id, calls[t].now).1.Released?
          <==> forall c :: c in calls[o].conditions ==> MetBetween(calls, o, t + 1, calls[t].id, c))
  {
    RunKeeps(calls, t);
    RunJustified(calls, t);
    var m, id := Before(calls, t), calls[t].id;
    var p := Position(m.queue, id);
    StateHasCandidate(m, id);
    CandidateHasState(m, p);
    var cand, q := m.queue[p], m.states[id];
    assert Justified(calls, t, cand, q);
    ProgressJustified(calls, t, cand, q);
    var after := Progress(cand, q, calls[t].now);
    assert after.pending == {} <==> forall c :: c in q.conditions ==> c in after.satisfied by {
      forall c ensures c in after.pending <==> c in q.conditions && c !in after.satisfied {
        assert c in cand.satisfied + cand.pending <==> c in q.conditions;
      }
    }
  }

  // The answer of an evaluation in a run, from the calls alone: released with the hash and the age of the
  // quarantine, or the numbers of conditions met and open, or no progress while none is met.
  lemma AnswerInRuns(calls: seq<Call>, t: nat)
    requires FreshIds(calls)
    requires t < |calls| && calls[t].DoEvaluate? && calls[t].id in Before(calls, t).states
    ensures Origin(calls, t, calls[t].id) >= 0
    ensures var o, id, now := Origin(calls, t, calls[t].id), calls[t].id, calls[t].now;
      var met := set c | c in calls[o].conditions && MetBetween(calls, o, t + 1, id, c);
      var open := set c | c in calls[o].conditions && !MetBetween(calls, o, t + 1, id, c);
      Evaluate(Before(calls, t), id, now).1
        == if open == {} then Released(calls[o].hash, WrapSub(now, calls[o].now))
           else if met != {} then Pending(|met|, |open|)
           else NoProgress
  {
    hide FreshIds, MetBetween, WellKept, Before, ClockMonotone;
    RunKeeps(calls, t);
    RunJustified(calls, t);
    var m, id := Before(calls, t), calls[t].id;
    var p := Position(m.queue, id);
    StateHasCandidate(m, id);
    CandidateHasState(m, p);
    var cand, q := m.queue[p], m.states[id];
    assert Justified(calls, t, cand, q);
    ProgressJustified(calls, t, cand, q);
    ProgressSplits(cand, q, calls[t].now);
    var after, o := Progress(cand, q, calls[t].now), Origin(calls, t, id);
    hide Progress;
    assert Origin(calls, t + 1, id) == o;
    assert after.satisfied == set c | c in calls[o].conditions && MetBetween(calls, o, t + 1, id, c);
    assert after.pending == set c | c in calls[o].conditions && !MetBetween(calls, o, t + 1, id, c);
  }

  lemma ProgressSplits(cand: Candidate, q: Quarantined, now: u64)
    requires Partitioned(cand, q)
    ensures Partitioned(Progress(cand, q, now), q)
  {
    var after := Progress(cand, q, now);
    forall c ensures c in after.satisfied + after.pending <==> c in q.conditions {
      assert c in cand.satisfied + cand.pending <==> c in q.conditions;
    }
  }

  // An id without a live quarantine is not found, and the evaluation changes nothing.
  lemma OthersAreNotFound(calls: seq<Call>, t: nat)
    requires FreshIds(calls)
    requires t < |calls| && calls[t].DoEvaluate? && calls[t].id !in Before(calls, t).states
    ensures Evaluate(Before(calls, t), calls[t].id, calls[t].now) == (Before(calls, t), NotFound)
  {
    RunKeeps(calls, t);
    PositionFinds(Before(calls, t).queue, calls[t].id);
  }

  // Under a clock that never runs backwards, "enough time" is the time that really passed.
  lemma MonotoneClockMeasures(calls: seq<Call>, o: nat, e: nat, id: string, ms: u64)
    requires ClockMonotone(calls) && o < e < |calls| && calls[o].DoQuarantine?
    ensures MetAt(calls, o, e, id, TimeElapsed(ms))
       <==> calls[e].DoEvaluate? && calls[e].id == id && calls[e].now - calls[o].now >= ms
  {
    assert calls[e].DoEvaluate? ==> calls[o].now <= calls[e].now;
  }

  // Otherwise a reading before the creation wraps around, and any duration it exceeds counts as elapsed.
  lemma BackwardClockElapses(q: Quarantined, approvals: set<string>, now: u64, ms: u64)
    requires now < q.createdAt
    ensures Holds(TimeElapsed(ms), q, approvals, now) <==> q.createdAt - now <= TWO64 - ms
  {
  }

  lemma ManualOverrideNeverReleased(calls: seq<Call>, t: nat, signers: seq<string>)
    requires FreshIds(calls)
    requires t < |calls| && calls[t].DoEvaluate? && calls[t].id in Before(calls, t).states
    requires ManualOverride(signers) in Before(calls, t).states[calls[t].id].conditions
    ensures !Evaluate(Before(calls, t), calls[t].id, calls[t].now).1.Released?
  {
    RunKeeps(calls, t);
    var m, id := Before(calls, t), calls[t].id;
    RunJustified(calls, t);
    StateHasCandidate(m, id);
    CandidateHasState(m, Position(m.queue, id));
    ReleasedIffEachConditionMet(calls, t);
    assert Justified(calls, t, m.queue[Position(m.queue, id)], m.states[id]);
  }
}
