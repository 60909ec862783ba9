/**
 Vote collection and quorum certificates. `values().last()` of a hash map is some slot of the map, so
 one call can have several outcomes: `Receives` relates a call to all of them.
 */
module BftConsensus {
  import opened Machine
  import opened Wrappers
  import opened Text

  datatype Vote = Vote(nodeId: string, round: u64, blockHash: string)

  datatype Certificate = Certificate(round: u64, blockHash: string, votes: seq<Vote>)

  type Slots = map<string, seq<Vote>>

  predicate IsQuorum(votes: nat, totalNodes: nat) {
    votes * 3 > totalNodes * 2
  }

  // ---------- slots ----------

  function Key(round: nat, blockHash: string): string {
    Decimal(round) + "/" + blockHash
  }

  // The first slash ends the number.
  lemma KeyShape(r: nat, a: string)
    ensures Key(r, a)[|Decimal(r)|] == '/'
    ensures forall i :: 0 <= i < |Decimal(r)| ==> Key(r, a)[i] != '/'
  {
  }

  // The text key never confuses two (round, hash) pairs, whatever the hash contains.
  lemma KeyInjective(r: nat, a: string, s: nat, b: string)
    requires Key(r, a) == Key(s, b)
    ensures r == s && a == b
  {
    var d, e := Decimal(r), Decimal(s);
    KeyShape(r, a);
    KeyShape(s, b);
    assert |d| == |e|;
    assert d == Key(r, a)[..|d|] == Key(s, b)[..|e|] == e;
    assert a == Key(r, a)[|d| + 1..] == Key(s, b)[|e| + 1..] == b;
    DecimalRoundTrip(r);
    DecimalRoundTrip(s);
  }

  predicate OneVoteEach(votes: seq<Vote>) {
    forall i, j :: 0 <= i < j < |votes| ==> votes[i].nodeId != votes[j].nodeId
  }

  // Each slot is non-empty, holds votes of its own key only, and one per node.
  predicate Valid(slots: Slots) {
    forall k :: k in slots ==>
      && slots[k] != []
      && OneVoteEach(slots[k])
      && forall i :: 0 <= i < |slots[k]| ==> Key(slots[k][i].round, slots[k][i].blockHash) == k
  }

  function SlotOf(slots: Slots, vote: Vote): seq<Vote> {
    var k := Key(vote.round, vote.blockHash);
    if k in slots then slots[k] else []
  }

  predicate Duplicate(slots: Slots, vote: Vote) {
    exists i :: 0 <= i < |SlotOf(slots, vote)| && SlotOf(slots, vote)[i].nodeId == vote.nodeId
  }

  function Stored(slots: Slots, vote: Vote): Slots {
    slots[Key(vote.round, vote.blockHash) := SlotOf(slots, vote) + [vote]]
  }

  // What a look at one slot returns.
  function Answer(slot: seq<Vote>, totalNodes: nat): Option<Certificate>
    requires slot != []
  {
    if IsQuorum(|slot|, totalNodes) then Some(Certificate(slot[0].round, slot[0].blockHash, slot)) else None
  }

  ghost predicate Receives(slots: Slots, vote: Vote, totalNodes: nat, after: Slots, result: Option<Certificate>) {
    if Duplicate(slots, vote) then after == slots && result == None
    else
      && after == Stored(slots, vote)
      && exists k :: k in after && after[k] != [] && result == Answer(after[k], totalNodes)
  }

  lemma StoredValid(slots: Slots, vote: Vote)
    requires Valid(slots) && !Duplicate(slots, vote)
    ensures Valid(Stored(slots, vote))
  {
  }

  class BftNode {
    const id: string
    var round: u64
    var pendingVotes: Slots

    constructor (id: string)
      ensures this.id == id && round == 0 && pendingVotes == map[]
    {
      this.id := id;
      round := 0;
      pendingVotes := map[];
    }

    method ReceiveVote(vote: Vote, totalNodes: nat) returns (result: Option<Certificate>)
      requires Valid(pendingVotes)
      modifies this`pendingVotes
      ensures Valid(pendingVotes)
      ensures Receives(old(pendingVotes), vote, totalNodes, pendingVotes, result)
    {
      var key := Key(vote.round, vote.blockHash);
      var slot := SlotOf(pendingVotes, vote);
      for i := 0 to |slot|
        invariant forall j :: 0 <= j < i ==> slot[j].nodeId != vote.nodeId
      {
        if slot[i].nodeId == vote.nodeId {
          assert Duplicate(pendingVotes, vote);
          return None;
        }
      }
      StoredValid(pendingVotes, vote);
      pendingVotes := pendingVotes[key := slot + [vote]];
      assert key in pendingVotes;
      var last :| last in pendingVotes;
      var slotRef := pendingVotes[last];
      var qc := Certificate(slotRef[0].round, slotRef[0].blockHash, slotRef);
      if IsQuorum(|qc.votes|, totalNodes) {
        result := Some(qc);
      } else {
        result := None;
      }
      assert result == Answer(pendingVotes[last], totalNodes);
    }
  }

  // Whichever slot a call looks at, it answers for the vote's own slot exactly when no other slot exists.
  lemma OwnCertificateIffOnlySlot(slots: Slots, vote: Vote, totalNodes: nat)
    requires Valid(slots) && !Duplicate(slots, vote)
    requires IsQuorum(|SlotOf(slots, vote)| + 1, totalNodes)
    ensures var after, own := Stored(slots, vote), SlotOf(slots, vote) + [vote];
      (forall result :: Receives(slots, vote, totalNodes, after, result) ==> result == Answer(own, totalNodes))
        <==> after.Keys == {Key(vote.round, vote.blockHash)}
  {
    var after, own, key := Stored(slots, vote), SlotOf(slots, vote) + [vote], Key(vote.round, vote.blockHash);
    StoredValid(slots, vote);
    assert after[key] == own;
    if k :| k in after && k != key {
      var result := Answer(after[k], totalNodes);
      assert Receives(slots, vote, totalNodes, after, result);
      assert Key(after[k][0].round, after[k][0].blockHash) == k;
      assert Key(own[0].round, own[0].blockHash) == key;
      assert result != Answer(own, totalNodes);
    }
  }

  // The vote takes its slot over the threshold.
  predicate Crosses(slots: Slots, vote: Vote, totalNodes: nat) {
    && !Duplicate(slots, vote)
    && !IsQuorum(|SlotOf(slots, vote)|, totalNodes)
    && IsQuorum(|SlotOf(slots, vote)| + 1, totalNodes)
  }

  // What the source promises: a certificate the first time a slot crosses the threshold, `None` otherwise.
  function Promised(slots: Slots, vote: Vote, totalNodes: nat): Option<Certificate> {
    if Crosses(slots, vote, totalNodes) then Answer(SlotOf(slots, vote) + [vote], totalNodes) else None
  }

  // Every outcome of a call is the promised one exactly when the vote is a duplicate, or crosses while no
  // other slot exists, or does not cross while no slot at all holds a quorum.
  lemma PromiseKeptIff(slots: Slots, vote: Vote, totalNodes: nat)
    requires Valid(slots)
    ensures (forall after, result :: Receives(slots, vote, totalNodes, after, result) ==>
               result == Promised(slots, vote, totalNodes))
       <==> || Duplicate(slots, vote)
            || (if Crosses(slots, vote, totalNodes)
                then Stored(slots, vote).Keys == {Key(vote.round, vote.blockHash)}
                else NoQuorum(Stored(slots, vote), totalNodes))
  {
    var after := Stored(slots, vote);
    if Duplicate(slots, vote) {
    } else if Crosses(slots, vote, totalNodes) {
      OwnCertificateIffOnlySlot(slots, vote, totalNodes);
    } else if k :| k in after && IsQuorum(|after[k]|, totalNodes) {
      StoredValid(slots, vote);
      assert Receives(slots, vote, totalNodes, after, Answer(after[k], totalNodes));
    }
  }

  predicate NoQuorum(slots: Slots, totalNodes: nat) {
    forall k :: k in slots ==> !IsQuorum(|slots[k]|, totalNodes)
  }

  // ---------- runs ----------

  // The votes one node receives, its slots before, between and after them, and its answers.
  datatype Run = Run(votes: seq<Vote>, states: seq<Slots>, results: seq<Option<Certificate>>)

  ghost predicate IsRun(r: Run, totalNodes: nat) {
    && |r.states| == |r.votes| + 1 && |r.results| == |r.votes|
    && r.states[0] == map[]
    && forall i :: 0 <= i < |r.votes| ==> Receives(r.states[i], r.votes[i], totalNodes, r.states[i + 1], r.results[i])
  }

  ghost predicate VotesFrom(slots: Slots, votes: seq<Vote>) {
    forall k, i :: k in slots && 0 <= i < |slots[k]| ==> slots[k][i] in votes
  }

  lemma {:induction false} RunInvariant(r: Run, totalNodes: nat, i: nat)
    requires IsRun(r, totalNodes) && i <= |r.votes|
    ensures Valid(r.states[i]) && VotesFrom(r.states[i], r.votes)
  {
    if i > 0 {
      RunInvariant(r, totalNodes, i - 1);
      var before, vote := r.states[i - 1], r.votes[i - 1];
      assert Receives(before, vote, totalNodes, r.states[i], r.results[i - 1]);
      if !Duplicate(before, vote) {
        StoredValid(before, vote);
      }
    }
  }

  ghost predicate Holds(slots: Slots, v: Vote) {
    Key(v.round, v.blockHash) in slots && v in slots[Key(v.round, v.blockHash)]
  }

  lemma ReceivesHolds(slots: Slots, vote: Vote, totalNodes: nat, after: Slots, result: Option<Certificate>, v: Vote)
    requires Valid(slots) && Receives(slots, vote, totalNodes, after, result)
    ensures Holds(after, v) <==> Holds(slots, v) || v == vote
  {
    if Duplicate(slots, vote) {
      var i :| 0 <= i < |SlotOf(slots, vote)| && SlotOf(slots, vote)[i].nodeId == vote.nodeId;
      var w := SlotOf(slots, vote)[i];
      KeyInjective(w.round, w.blockHash, vote.round, vote.blockHash);
      assert w == vote;
    } else if Key(v.round, v.blockHash) == Key(vote.round, vote.blockHash) {
      KeyInjective(v.round, v.blockHash, vote.round, vote.blockHash);
    }
  }

  lemma StepOfRun(r: Run, totalNodes: nat, i: nat)
    requires IsRun(r, totalNodes) && 0 < i <= |r.votes|
    ensures |r.states| == |r.votes| + 1 && |r.results| == |r.votes|
    ensures Receives(r.states[i - 1], r.votes[i - 1], totalNodes, r.states[i], r.results[i - 1])
    ensures r.votes[..i] == r.votes[..i - 1] + [r.votes[i - 1]]
  {
  }

  lemma NothingHeld(r: Run, totalNodes: nat, v: Vote)
    requires IsRun(r, totalNodes)
    ensures |r.states| > 0 && !Holds(r.states[0], v)
  {
  }

  // The slots hold exactly the votes received: none is dropped, whatever else its node voted for, and
  // none appears from nowhere.
  lemma {:induction false} SlotsHoldExactly(r: Run, totalNodes: nat, i: nat, v: Vote)
    requires IsRun(r, totalNodes) && i <= |r.votes|
    ensures Holds(r.states[i], v) <==> v in r.votes[..i]
  {
    assert |r.states| == |r.votes| + 1;
    hide *;
    if i == 0 {
      NothingHeld(r, totalNodes, v);
    } else {
      StepOfRun(r, totalNodes, i);
      SlotsHoldExactly(r, totalNodes, i - 1, v);
      RunInvariant(r, totalNodes, i - 1);
      ReceivesHolds(r.states[i - 1], r.votes[i - 1], totalNodes, r.states[i], r.results[i - 1], v);
    }
  }

  // The nodes that have voted for a block in a round.
  function VotersFor(votes: seq<Vote>, round: u64, blockHash: string): set<string> {
    set i | 0 <= i < |votes| && votes[i].round == round && votes[i].blockHash == blockHash :: votes[i].nodeId
  }

  function SizeOf(slots: Slots, round: u64, blockHash: string): nat {
    if Key(round, blockHash) in slots then |slots[Key(round, blockHash)]| else 0
  }

  // A slot counts the nodes that have voted for its block in its round, so it is a quorum exactly when
  // they are.
  lemma SlotCountsVoters(r: Run, totalNodes: nat, i: nat, round: u64, blockHash: string)
    requires IsRun(r, totalNodes) && i <= |r.votes|
    ensures SizeOf(r.states[i], round, blockHash) == |VotersFor(r.votes[..i], round, blockHash)|
  {
    RunInvariant(r, totalNodes, i);
    var slots, k := r.states[i], Key(round, blockHash);
    var slot := if k in slots then slots[k] else [];
    VotersCount(slot);
    var have, want := Voters(slot), VotersFor(r.votes[..i], round, blockHash);
    forall n | n in have ensures n in want {
      var j :| 0 <= j < |slot| && slot[j].nodeId == n;
      KeyInjective(slot[j].round, slot[j].blockHash, round, blockHash);
      assert Holds(slots, slot[j]);
      SlotsHoldExactly(r, totalNodes, i, slot[j]);
    }
    forall n | n in want ensures n in have {
      SlotsHoldExactly(r, totalNodes, i, Vote(n, round, blockHash));
      var j :| 0 <= j < i && r.votes[j].nodeId == n && r.votes[j].round == round && r.votes[j].blockHash == blockHash;
      assert r.votes[..i][j] == Vote(n, round, blockHash);
      assert Vote(n, round, blockHash) in slot;
    }
    assert have == want;
  }

  // Every certificate ever returned: distinct voters, one round, one hash, more than two thirds, real votes.
  lemma CertificateSound(r: Run, totalNodes: nat, i: nat, c: Certificate)
    requires IsRun(r, totalNodes) && i < |r.votes| && r.results[i] == Some(c)
    ensures OneVoteEach(c.votes) && IsQuorum(|c.votes|, totalNodes)
    ensures forall j :: 0 <= j < |c.votes| ==>
      c.votes[j] in r.votes && c.votes[j].round == c.round && c.votes[j].blockHash == c.blockHash
  {
    RunInvariant(r, totalNodes, i);
    RunInvariant(r, totalNodes, i + 1);
    var after := r.states[i + 1];
    assert Receives(r.states[i], r.votes[i], totalNodes, after, r.results[i]);
    var k :| k in after && after[k] != [] && r.results[i] == Answer(after[k], totalNodes);
    forall j | 0 <= j < |c.votes| ensures c.votes[j].round == c.round && c.votes[j].blockHash == c.blockHash {
      KeyInjective(c.votes[j].round, c.votes[j].blockHash, c.round, c.blockHash);
    }
  }

  // ---------- agreement ----------

  function Voters(votes: seq<Vote>): set<string> {
    set i | 0 <= i < |votes| :: votes[i].nodeId
  }

  lemma {:induction false} VotersCount(votes: seq<Vote>)
    requires OneVoteEach(votes)
    ensures |Voters(votes)| == |votes|
  {
    if votes != [] {
      var n := |votes| - 1;
      VotersCount(votes[..n]);
      assert Voters(votes) == Voters(votes[..n]) + {votes[n].nodeId};
    }
  }

  // The smallest number of votes that is a quorum.
  function Threshold(totalNodes: nat): nat {
    totalNodes * 2 / 3 + 1
  }

  // How many nodes two quorums have in common at least.
  function Overlap(totalNodes: nat): nat {
    2 * Threshold(totalNodes) - totalNodes
  }

  lemma TwoQuorumsOverlap(a: set<string>, b: set<string>, nodes: set<string>)
    requires a <= nodes && b <= nodes && IsQuorum(|a|, |nodes|) && IsQuorum(|b|, |nodes|)
    ensures |a * b| >= Overlap(|nodes|)
  {
    assert |a + b| == |a| + |b| - |a * b|;
    CardinalityOfSubset(a + b, nodes);
  }

  lemma {:induction false} CardinalityOfSubset(a: set<string>, b: set<string>)
    requires a <= b
    ensures |a| <= |b|
  {
    if a != {} {
      var x :| x in a;
      CardinalityOfSubset(a - {x}, b - {x});
    }
  }

  // `node` votes for two blocks of one round.
  ghost predicate Equivocates(votes: seq<Vote>, node: string, round: u64) {
    exists v, w :: v in votes && w in votes && v.nodeId == node == w.nodeId && v.round == round == w.round
      && v.blockHash != w.blockHash
  }

  // Two nodes can certify different blocks of one round although only members of `faulty` equivocate in it.
  ghost predicate CanDisagree(nodes: set<string>, faulty: set<string>) {
    exists r, s, i, j :: Disagreement(nodes, faulty, r, s, i, j)
  }

  ghost predicate Disagreement(nodes: set<string>, faulty: set<string>, r: Run, s: Run, i: nat, j: nat) {
    && IsRun(r, |nodes|) && IsRun(s, |nodes|)
    && (forall v :: v in r.votes + s.votes ==> v.nodeId in nodes)
    && i < |r.votes| && j < |s.votes| && r.results[i].Some? && s.results[j].Some?
    && r.results[i].value.round == s.results[j].value.round
    && r.results[i].value.blockHash != s.results[j].value.blockHash
    && forall v :: Equivocates(r.votes + s.votes, v, r.results[i].value.round) ==> v in faulty
  }

  lemma FewFaultyAgree(nodes: set<string>, faulty: set<string>, r: Run, s: Run, i: nat, j: nat)
    requires faulty <= nodes && Disagreement(nodes, faulty, r, s, i, j)
    ensures |faulty| >= Overlap(|nodes|)
  {
    var c, d := r.results[i].value, s.results[j].value;
    CertificateSound(r, |nodes|, i, c);
    CertificateSound(s, |nodes|, j, d);
    VotersCount(c.votes);
    VotersCount(d.votes);
    var both := Voters(c.votes) * Voters(d.votes);
    TwoQuorumsOverlap(Voters(c.votes), Voters(d.votes), nodes);
    forall v | v in both ensures v in faulty {
      var x :| 0 <= x < |c.votes| && c.votes[x].nodeId == v;
      var y :| 0 <= y < |d.votes| && d.votes[y].nodeId == v;
      assert c.votes[x] in r.votes + s.votes && d.votes[y] in r.votes + s.votes;
      assert Equivocates(r.votes + s.votes, v, c.round);
    }
    CardinalityOfSubset(both, faulty);
  }

  // ---------- the bound is exact ----------

  lemma {:induction false} SubsetOfSize(s: set<string>, k: nat) returns (t: set<string>)
    requires k <= |s|
    ensures t <= s && |t| == k
  {
    t := {};
    if k > 0 {
      var x :| x in s;
      t := SubsetOfSize(s - {x}, k - 1);
      t := t + {x};
    }
  }

  lemma {:induction false} Ballots(nodes: set<string>, round: u64, blockHash: string) returns (votes: seq<Vote>)
    ensures OneVoteEach(votes) && |votes| == |nodes|
    ensures forall v :: v in votes ==> v.nodeId in nodes && v.round == round && v.blockHash == blockHash
  {
    votes := [];
    if nodes != {} {
      var x :| x in nodes;
      votes := Ballots(nodes - {x}, round, blockHash);
      votes := votes + [Vote(x, round, blockHash)];
    }
  }

  lemma OneMoreVote(p: Run, vote: Vote, totalNodes: nat, after: Slots, result: Option<Certificate>)
    requires IsRun(p, totalNodes) && Receives(p.states[|p.votes|], vote, totalNodes, after, result)
    ensures IsRun(Run(p.votes + [vote], p.states + [after], p.results + [result]), totalNodes)
  {
    hide Receives;
    var r := Run(p.votes + [vote], p.states + [after], p.results + [result]);
    forall i | 0 <= i < |r.votes| ensures Receives(r.states[i], r.votes[i], totalNodes, r.states[i + 1], r.results[i]) {
      if i < |p.votes| {
        assert Receives(p.states[i], p.votes[i], totalNodes, p.states[i + 1], p.results[i]);
      }
    }
  }

  // The slot that holds the votes, and what a look at it returns.
  function OneSlot(votes: seq<Vote>, round: u64, blockHash: string): Slots {
    if votes == [] then map[] else map[Key(round, blockHash) := votes]
  }

  function AnswerFor(votes: seq<Vote>, totalNodes: nat, round: u64, blockHash: string): Option<Certificate> {
    if IsQuorum(|votes|, totalNodes) then Some(Certificate(round, blockHash, votes)) else None
  }

  lemma SlotGrows(front: seq<Vote>, vote: Vote, totalNodes: nat)
    requires OneVoteEach(front + [vote])
    requires forall v :: v in front ==> v.round == vote.round && v.blockHash == vote.blockHash
    ensures var (r, b) := (vote.round, vote.blockHash);
      Receives(OneSlot(front, r, b), vote, totalNodes,
               OneSlot(front + [vote], r, b), AnswerFor(front + [vote], totalNodes, r, b))
  {
    hide Key;
    var k := Key(vote.round, vote.blockHash);
    var before, votes := OneSlot(front, vote.round, vote.blockHash), front + [vote];
    var after := OneSlot(votes, vote.round, vote.blockHash);
    assert forall i :: 0 <= i < |front| ==> votes[i] == front[i] && votes[|front|] == vote;
    assert SlotOf(before, vote) == front && !Duplicate(before, vote);
    assert after == Stored(before, vote);
    assert votes[0] == vote || votes[0] in front;
    assert k in after && Answer(after[k], totalNodes) == AnswerFor(votes, totalNodes, vote.round, vote.blockHash);
  }

  // A node that is sent votes for one block only, one of each voter, returns a certificate from the first
  // quorum on, with every vote.
  lemma {:induction false} SlotFills(votes: seq<Vote>, totalNodes: nat, round: u64, blockHash: string) returns (r: Run)
    requires OneVoteEach(votes) && forall v :: v in votes ==> v.round == round && v.blockHash == blockHash
    ensures IsRun(r, totalNodes) && r.votes == votes
    ensures forall i :: 0 <= i <= |votes| ==> r.states[i] == OneSlot(votes[..i], round, blockHash)
    ensures forall i :: 0 <= i < |votes| ==> r.results[i] == AnswerFor(votes[..i + 1], totalNodes, round, blockHash)
  {
    if votes == [] {
      r := Run([], [map[]], []);
    } else {
      hide Receives, OneSlot, AnswerFor;
      var n := |votes| - 1;
      var vote := votes[n];
      assert vote in votes && votes == votes[..n] + [vote] && votes[..n + 1] == votes && votes[..n][..n] == votes[..n];
      var p := SlotFills(votes[..n], totalNodes, round, blockHash);
      SlotGrows(votes[..n], vote, totalNodes);
      var after, result := OneSlot(votes, round, blockHash), AnswerFor(votes, totalNodes, round, blockHash);
      OneMoreVote(p, vote, totalNodes, after, result);
      r := Run(votes, p.states + [after], p.results + [result]);
      assert forall i :: 0 <= i <= n ==> votes[..n][..i] == votes[..i];
    }
  }

  // The promise is broken in real runs: of four nodes, the third vote for a block and again the fourth
  // return a certificate.
  lemma CertificateRepeats(a: string, b: string, c: string, d: string, round: u64, blockHash: string) returns (r: Run)
    requires a != b && a != c && a != d && b != c && b != d && c != d
    ensures IsRun(r, 4) && |r.votes| == 4
    ensures r.results[2].Some? && r.results[3].Some?
    ensures Promised(r.states[3], r.votes[3], 4) == None
  {
    var votes :=
      [Vote(a, round, blockHash), Vote(b, round, blockHash), Vote(c, round, blockHash), Vote(d, round, blockHash)];
    r := SlotFills(votes, 4, round, blockHash);
  }

  lemma ManyFaultyDisagree(nodes: set<string>, faulty: set<string>)
    requires faulty <= nodes && |faulty| >= Overlap(|nodes|)
    ensures CanDisagree(nodes, faulty)
  {
    hide IsRun;
    var n := |nodes|;
    CardinalityOfSubset(faulty, nodes);
    var both := SubsetOfSize(faulty, Overlap(n));
    var left := SubsetOfSize(nodes - both, n - Threshold(n));
    var right := nodes - both - left;
    var a := Ballots(both + left, 0, "a");
    var b := Ballots(both + right, 0, "b");
    var r := SlotFills(a, n, 0, "a");
    var s := SlotFills(b, n, 0, "b");
    forall v | Equivocates(r.votes + s.votes, v, 0) ensures v in faulty {
      var x, y :| x in r.votes + s.votes && y in r.votes + s.votes && x.nodeId == v == y.nodeId
        && x.blockHash != y.blockHash;
      assert (x in a || x in b) && (y in a || y in b);
    }
    assert Disagreement(nodes, faulty, r, s, |a| - 1, |b| - 1);
  }

  // Agreement with its exact bound: conflicting certificates are impossible for every run of every two
  // nodes precisely when fewer nodes equivocate than two quorums must share.
  lemma AgreementBound(nodes: set<string>, faulty: set<string>)
    requires faulty <= nodes
    ensures !CanDisagree(nodes, faulty) <==> |faulty| < Overlap(|nodes|)
  {
    if r, s, i, j :| Disagreement(nodes, faulty, r, s, i, j) {
      FewFaultyAgree(nodes, faulty, r, s, i, j);
    }
    if |faulty| >= Overlap(|nodes|) {
      ManyFaultyDisagree(nodes, faulty);
    }
  }

  // The classical bound is within it: up to a third of the nodes may equivocate.
  lemma AgreementUpToOneThird(nodes: set<string>, faulty: set<string>)
    requires faulty <= nodes && 3 * |faulty| <= |nodes|
    ensures !CanDisagree(nodes, faulty)
  {
    AgreementBound(nodes, faulty);
  }
}
