/**
 The on-chain diagnostic ledger with its three secondary indexes, and the reputation ledger that pays
 bounties. A Move abort rolls the transaction back: the methods report it and leave everything unchanged.
 */
module DiagnosticLedger {
  import opened Machine
  import opened Wrappers
  import opened Maps

  type Bytes = seq<byte>

  // An object id, fresh for each object.
  type Id = nat

  datatype Abort = SchemaInvalid | RepairStrategyInvalid | InvalidTransition | ReceiptNotFound | Overflow

  // ---------- receipts ----------

  datatype Status = Pending | Verified | Disputed | Fixed | RiskAccepted

  // The fields no operation of the ledger reads.
  datatype Details = Details(
    birthEpoch: u64, tier: byte, sabbathActive: bool, repairId: Bytes, witnessQuorum: seq<Bytes>,
    constitutionalClass: Bytes, economicImpact: Option<u64>, sealPolicy: Option<Bytes>, sovereignScope: Bytes)

  datatype Submission = Submission(
    code: Bytes, severity: byte, category: bv8, messageHash: Bytes, agentId: Bytes,
    repairStrategy: byte, redTeamRound: Option<u64>, details: Details)

  datatype Receipt = Receipt(submission: Submission, status: Status, fixedAt: Option<u64>, submittedAt: u64)

  // "OMO-ERR-"
  const CODE_PREFIX: Bytes := [79, 77, 79, 45, 69, 82, 82, 45]
  const VALID_CATEGORIES: bv8 := 63

  predicate HasCategory(category: bv8, flag: bv8) {
    category & flag == flag
  }

  predicate ValidateSchema(s: Submission) {
    && CODE_PREFIX <= s.code
    && |s.code| <= 16
    && s.severity <= 2
    && s.category | VALID_CATEGORIES == VALID_CATEGORIES
    && |s.messageHash| == 32
    && |s.agentId| >= 32
  }

  function EmitDiagnostic(s: Submission, epoch: u64): Result<Receipt, Abort> {
    if !ValidateSchema(s) then Err(SchemaInvalid)
    else if !(1 <= s.repairStrategy <= 3) then Err(RepairStrategyInvalid)
    else Ok(Receipt(s, Pending, None, epoch))
  }

  function MarkFixed(r: Receipt, epoch: u64): Result<Receipt, Abort> {
    if r.status == Pending || r.status == Verified then Ok(r.(status := Fixed, fixedAt := Some(epoch)))
    else Err(InvalidTransition)
  }

  function MarkDisputed(r: Receipt): Result<Receipt, Abort> {
    if r.status == Pending then Ok(r.(status := Disputed)) else Err(InvalidTransition)
  }

  datatype Mark = Fix(epoch: u64) | Dispute

  function Marked(r: Receipt, m: Mark): Result<Receipt, Abort> {
    match m
    case Fix(epoch) => MarkFixed(r, epoch)
    case Dispute => MarkDisputed(r)
  }

  // A receipt after a series of calls, of which the refused ones change nothing.
  function AfterMarks(r: Receipt, marks: seq<Mark>): Receipt {
    if marks == [] then r
    else
      var before := AfterMarks(r, marks[..|marks| - 1]);
      match Marked(before, marks[|marks| - 1])
      case Ok(s) => s
      case Err(_) => before
  }

  // A pending receipt is settled by the first call, for good: every later one is refused.
  lemma {:induction false} FirstMarkDecides(r: Receipt, marks: seq<Mark>, late: Mark)
    requires r.status == Pending && marks != []
    ensures AfterMarks(r, marks) == match marks[0]
      case Fix(epoch) => Receipt(r.submission, Fixed, Some(epoch), r.submittedAt)
      case Dispute => Receipt(r.submission, Disputed, r.fixedAt, r.submittedAt)
    ensures Marked(AfterMarks(r, marks), late) == Err(InvalidTransition)
  {
    if |marks| == 1 {
      assert marks[..0] == [];
    } else {
      FirstMarkDecides(r, marks[..|marks| - 1], marks[|marks| - 1]);
    }
  }

  // Who may still be settled: a pending receipt by either call, a verified one by a fix, others never. The
  // first fix of a verified receipt counts, and disputes of it are refused.
  lemma {:induction false} LaterMarksDecide(r: Receipt, marks: seq<Mark>)
    requires r.status != Pending
    ensures AfterMarks(r, marks) == match FirstFix(marks)
      case Some(epoch) => if r.status == Verified then r.(status := Fixed, fixedAt := Some(epoch)) else r
      case None => r
  {
    if marks != [] {
      LaterMarksDecide(r, marks[..|marks| - 1]);
    }
  }

  // The epoch of the earliest fix.
  function FirstFix(marks: seq<Mark>): Option<u64> {
    if marks == [] then None
    else
      match FirstFix(marks[..|marks| - 1])
      case Some(epoch) => Some(epoch)
      case None => if marks[|marks| - 1].Fix? then Some(marks[|marks| - 1].epoch) else None
  }

  // ---------- the schema ----------

  // The flags are the powers of two below 64, and a receipt has a category exactly when that binary digit
  // of its category number is set.
  lemma CategoryDigits(category: bv8, i: nat)
    requires i < 6
    ensures BITS[0] == 1 && BITS[i + 1] == 2 * BITS[i] && BITS[i] < 64
    ensures HasCategory(category, BITS[i]) <==> category / BITS[i] % 2 == 1
  {
    CategoryDigit(category);
    assert i in {0, 1, 2, 3, 4, 5};
  }

  lemma CategoryDigit(c: bv8)
    ensures HasCategory(c, 1) <==> c / 1 % 2 == 1
    ensures HasCategory(c, 2) <==> c / 2 % 2 == 1
    ensures HasCategory(c, 4) <==> c / 4 % 2 == 1
    ensures HasCategory(c, 8) <==> c / 8 % 2 == 1
    ensures HasCategory(c, 16) <==> c / 16 % 2 == 1
    ensures HasCategory(c, 32) <==> c / 32 % 2 == 1
  {
  }

  lemma CategoriesBelow64(c: bv8)
    ensures c | VALID_CATEGORIES == VALID_CATEGORIES <==> c < 64
  {
  }

  predicate Spells(code: Bytes, text: string) {
    |code| == |text| && forall i :: 0 <= i < |text| ==> code[i] as int == text[i] as int
  }

  // A valid submission: a code OMO-ERR- and up to eight more bytes, one of three severities, a category
  // number below 64, a 32-byte message hash and an agent id of 32 bytes or more.
  lemma SchemaMeans(s: Submission)
    ensures ValidateSchema(s) <==>
      && 8 <= |s.code| <= 16 && Spells(s.code[..8], "OMO-ERR-")
      && s.severity in {0, 1, 2}
      && s.category < 64
      && |s.messageHash| == 32
      && |s.agentId| >= 32
  {
    CategoriesBelow64(s.category);
    assert CODE_PREFIX <= s.code <==> |s.code| >= 8 && s.code[..8] == CODE_PREFIX;
    assert Spells(CODE_PREFIX, "OMO-ERR-");
    if |s.code| >= 8 && Spells(s.code[..8], "OMO-ERR-") {
      assert forall i :: 0 <= i < 8 ==> s.code[..8][i] == CODE_PREFIX[i];
    }
  }

  // ---------- what an index must hold ----------

  datatype Query = ByAgent(agentId: Bytes) | ByBit(bit: bv8) | ByRound(round: u64)

  predicate Matches(q: Query, r: Receipt) {
    match q
    case ByAgent(a) => r.submission.agentId == a
    case ByBit(b) => HasCategory(r.submission.category, b)
    case ByRound(n) => r.submission.redTeamRound == Some(n)
  }

  // The scan of the whole table, in submission order.
  function Scan(order: seq<Id>, table: map<Id, Receipt>, q: Query): seq<Id> {
    if order == [] then []
    else
      var last := order[|order| - 1];
      Scan(order[..|order| - 1], table, q) + if last in table && Matches(q, table[last]) then [last] else []
  }

  ghost predicate Distinct(s: seq<Id>) {
    forall i, j :: 0 <= i < j < |s| ==> s[i] != s[j]
  }

  // A scan finds every matching id, no other, each once.
  lemma {:induction false} ScanFindsAll(order: seq<Id>, table: map<Id, Receipt>, q: Query)
    requires Distinct(order) && forall i :: 0 <= i < |order| ==> order[i] in table
    ensures Distinct(Scan(order, table, q))
    ensures forall x :: x in Scan(order, table, q) <==> x in order && Matches(q, table[x])
  {
    if order != [] {
      var n := |order| - 1;
      ScanFindsAll(order[..n], table, q);
      assert order == order[..n] + [order[n]];
      assert order[n] !in order[..n];
    }
  }

  // A scan keeps the order of submission: its entries sit at increasing positions.
  lemma {:induction false} ScanKeepsOrder(order: seq<Id>, table: map<Id, Receipt>, q: Query) returns (at: seq<nat>)
    ensures |at| == |Scan(order, table, q)|
    ensures forall i :: 0 <= i < |at| ==> at[i] < |order| && order[at[i]] == Scan(order, table, q)[i]
    ensures forall i, j :: 0 <= i < j < |at| ==> at[i] < at[j]
  {
    at := [];
    if order != [] {
      var n := |order| - 1;
      at := ScanKeepsOrder(order[..n], table, q);
      if order[n] in table && Matches(q, table[order[n]]) {
        at := at + [n];
      }
    }
  }

  // Only what a query looks at matters to its scan.
  lemma {:induction false} ScanDepends(order: seq<Id>, t: map<Id, Receipt>, u: map<Id, Receipt>, q: Query)
    requires forall i :: 0 <= i < |order| ==>
      order[i] in t && order[i] in u && t[order[i]].submission == u[order[i]].submission
    ensures Scan(order, t, q) == Scan(order, u, q)
  {
    if order != [] {
      ScanDepends(order[..|order| - 1], t, u, q);
    }
  }

  function Listed<K>(index: map<K, seq<Id>>, k: K): seq<Id> {
    if k in index then index[k] else []
  }

  // The six category flags and the value that ends the loop over them.
  const BITS: seq<bv8> := [1, 2, 4, 8, 16, 32, 64]

  // One of the first `k` flags.
  predicate IsFlag(b: bv8, k: nat)
    requires k <= 6
  {
    exists i :: 0 <= i < k && BITS[i] == b
  }

  // The three indexes agree with the table; the category index has no other key than the flags.
  ghost predicate Indexed(order: seq<Id>, table: map<Id, Receipt>,
                          agents: map<Bytes, seq<Id>>, categories: map<bv8, seq<Id>>, rounds: map<u64, seq<Id>>)
  {
    AgentsIndexed(order, table, agents) && CategoriesIndexed(order, table, categories)
      && RoundsIndexed(order, table, rounds)
  }

  ghost predicate AgentsIndexed(order: seq<Id>, table: map<Id, Receipt>, agents: map<Bytes, seq<Id>>) {
    forall a :: Listed(agents, a) == Scan(order, table, ByAgent(a))
  }

  ghost predicate CategoriesIndexed(order: seq<Id>, table: map<Id, Receipt>, categories: map<bv8, seq<Id>>) {
    && (forall i :: 0 <= i < 6 ==> Listed(categories, BITS[i]) == Scan(order, table, ByBit(BITS[i])))
    && (forall b :: b in categories ==> IsFlag(b, 6))
  }

  ghost predicate RoundsIndexed(order: seq<Id>, table: map<Id, Receipt>, rounds: map<u64, seq<Id>>) {
    forall n: u64 :: Listed(rounds, n) == Scan(order, table, ByRound(n))
  }

  lemma ScanAppend(order: seq<Id>, table: map<Id, Receipt>, id: Id, r: Receipt, q: Query)
    requires id !in table && forall x :: x in table <==> x in order
    ensures Scan(order + [id], table[id := r], q) == Scan(order, table, q) + if Matches(q, r) then [id] else []
  {
    assert (order + [id])[..|order|] == order;
    forall i | 0 <= i < |order| ensures order[i] in table && order[i] != id {
      assert order[i] in order;
    }
    ScanDepends(order, table, table[id := r], q);
  }

  // A change of status is invisible to the indexes.
  lemma StatusIndexed(order: seq<Id>, table: map<Id, Receipt>, id: Id, r: Receipt,
                      agents: map<Bytes, seq<Id>>, categories: map<bv8, seq<Id>>, rounds: map<u64, seq<Id>>)
    requires Indexed(order, table, agents, categories, rounds) && forall x :: x in table <==> x in order
    requires id in table && r.submission == table[id].submission
    ensures Indexed(order, table[id := r], agents, categories, rounds)
  {
    forall q ensures Scan(order, table[id := r], q) == Scan(order, table, q) {
      assert forall i :: 0 <= i < |order| ==> order[i] in order;
      ScanDepends(order, table, table[id := r], q);
    }
  }

  // The category index after the first `k` flags have been looked at.
  function Flagged(index: map<bv8, seq<Id>>, category: bv8, id: Id, k: nat): map<bv8, seq<Id>>
    requires k <= 6
  {
    if k == 0 then index
    else
      var m, b := Flagged(index, category, id, k - 1), BITS[k - 1];
      if HasCategory(category, b) then m[b := Listed(m, b) + [id]] else m
  }

  lemma BitsDiffer(i: nat, j: nat)
    requires i < 6 && j < 6
    ensures BITS[i] == BITS[j] <==> i == j
  {
  }

  // The id is appended to the lists of the flags the category has, and to no other list.
  lemma {:induction false} FlaggedLists(index: map<bv8, seq<Id>>, category: bv8, id: Id, k: nat, b: bv8)
    requires k <= 6
    ensures Listed(Flagged(index, category, id, k), b)
         == Listed(index, b) + if IsFlag(b, k) && HasCategory(category, b) then [id] else []
    ensures b in Flagged(index, category, id, k) <==> b in index || (IsFlag(b, k) && HasCategory(category, b))
  {
    if k > 0 {
      hide HasCategory;
      FlaggedLists(index, category, id, k - 1, b);
      assert IsFlag(b, k) <==> IsFlag(b, k - 1) || b == BITS[k - 1];
      assert !IsFlag(BITS[k - 1], k - 1) by {
        forall i | 0 <= i < k - 1 ensures BITS[i] != BITS[k - 1] {
          BitsDiffer(i, k - 1);
        }
      }
    }
  }

  method IndexCategories(index: map<bv8, seq<Id>>, category: bv8, id: Id) returns (r: map<bv8, seq<Id>>)
    ensures r == Flagged(index, category, id, 6)
  {
    r := index;
    var bit: bv8 := 1;
    ghost var k := 0;
    while bit <= 32
      invariant 0 <= k <= 6 && bit == BITS[k]
      invariant r == Flagged(index, category, id, k)
      decreases 6 - k
    {
      if HasCategory(category, bit) {
        r := r[bit := Listed(r, bit) + [id]];
      }
      assert BITS[k] << 1 == BITS[k + 1];
      bit := bit << 1;
      k := k + 1;
    }
  }

  // Pushing a new receipt's id onto the lists it belongs to keeps each index in agreement.
  lemma SubmitAgents(order: seq<Id>, table: map<Id, Receipt>, id: Id, r: Receipt, agents: map<Bytes, seq<Id>>)
    requires AgentsIndexed(order, table, agents) && TableOk(order, table) && id !in table
    ensures AgentsIndexed(order + [id], table[id := r],
      agents[r.submission.agentId := Listed(agents, r.submission.agentId) + [id]])
  {
    forall a ensures Scan(order + [id], table[id := r], ByAgent(a))
      == Scan(order, table, ByAgent(a)) + if r.submission.agentId == a then [id] else []
    {
      ScanAppend(order, table, id, r, ByAgent(a));
    }
  }

  lemma SubmitCategories(order: seq<Id>, table: map<Id, Receipt>, id: Id, r: Receipt, categories: map<bv8, seq<Id>>)
    requires CategoriesIndexed(order, table, categories) && TableOk(order, table) && id !in table
    ensures CategoriesIndexed(order + [id], table[id := r], Flagged(categories, r.submission.category, id, 6))
  {
    forall i | 0 <= i < 6
      ensures Listed(Flagged(categories, r.submission.category, id, 6), BITS[i])
        == Scan(order + [id], table[id := r], ByBit(BITS[i]))
    {
      FlaggedLists(categories, r.submission.category, id, 6, BITS[i]);
      ScanAppend(order, table, id, r, ByBit(BITS[i]));
    }
    forall b | b in Flagged(categories, r.submission.category, id, 6) ensures IsFlag(b, 6) {
      FlaggedLists(categories, r.submission.category, id, 6, b);
    }
  }

  lemma SubmitRounds(order: seq<Id>, table: map<Id, Receipt>, id: Id, r: Receipt, rounds: map<u64, seq<Id>>)
    requires RoundsIndexed(order, table, rounds) && TableOk(order, table) && id !in table
    ensures RoundsIndexed(order + [id], table[id := r], WithRound(rounds, r.submission.redTeamRound, id))
  {
    var after := WithRound(rounds, r.submission.redTeamRound, id);
    forall n: u64 ensures Listed(after, n) == Scan(order + [id], table[id := r], ByRound(n)) {
      ScanAppend(order, table, id, r, ByRound(n));
      WithRoundLists(rounds, r.submission.redTeamRound, id, n);
    }
  }

  lemma WithRoundLists(rounds: map<u64, seq<Id>>, round: Option<u64>, id: Id, n: u64)
    ensures Listed(WithRound(rounds, round, id), n) == Listed(rounds, n) + if round == Some(n) then [id] else []
  {
  }

  function WithRound(rounds: map<u64, seq<Id>>, round: Option<u64>, id: Id): map<u64, seq<Id>> {
    match round
    case Some(n) => rounds[n := Listed(rounds, n) + [id]]
    case None => rounds
  }

  // The table lists each submitted id once, with a schema-valid receipt that is pending or fixed.
  ghost predicate TableOk(order: seq<Id>, table: map<Id, Receipt>) {
    && Distinct(order)
    && (forall x :: x in table <==> x in order)
    && (forall x :: x in table ==>
          && ValidateSchema(table[x].submission)
          && (table[x].status == Pending || (table[x].status == Fixed && table[x].fixedAt.Some?)))
  }

  lemma SubmitTableOk(order: seq<Id>, table: map<Id, Receipt>, id: Id, r: Receipt)
    requires TableOk(order, table) && id !in table && ValidateSchema(r.submission) && r.status == Pending
    ensures TableOk(order + [id], table[id := r])
  {
    assert forall i :: 0 <= i < |order| ==> order[i] in table;
  }

  // ---------- the ledger ----------

  class Ledger {
    var table: map<Id, Receipt>
    var agentIndex: map<Bytes, seq<Id>>
    var categoryIndex: map<bv8, seq<Id>>
    var roundIndex: map<u64, seq<Id>>
    ghost var order: seq<Id>  // all ids, as submitted

    ghost predicate Valid()
      reads this
    {
      && TableOk(order, table)
      && Indexed(order, table, agentIndex, categoryIndex, roundIndex)
    }

    constructor ()
      ensures Valid() && table == map[] && order == []
    {
      table, agentIndex, categoryIndex, roundIndex, order := map[], map[], map[], map[], [];
    }

    // Index the receipt under its agent, its category flags and its round, then add it to the table.
    method Insert(id: Id, receipt: Receipt)
      requires Valid() && id !in table && ValidateSchema(receipt.submission) && receipt.status == Pending
      modifies this
      ensures Valid() && table == old(table)[id := receipt] && order == old(order) + [id]
    {
      hide Scan;
      var s := receipt.submission;
      SubmitAgents(order, table, id, receipt, agentIndex);
      SubmitCategories(order, table, id, receipt, categoryIndex);
      SubmitRounds(order, table, id, receipt, roundIndex);
      SubmitTableOk(order, table, id, receipt);
      agentIndex := agentIndex[s.agentId := Listed(agentIndex, s.agentId) + [id]];
      categoryIndex := IndexCategories(categoryIndex, s.category, id);
      if s.redTeamRound.Some? {
        var round := s.redTeamRound.value;
        roundIndex := roundIndex[round := Listed(roundIndex, round) + [id]];
      }
      table := table[id := receipt];
      order := order + [id];
    }

    method SubmitDiagnostic(s: Submission, epoch: u64, freshId: Id) returns (r: Result<(), Abort>)
      requires Valid() && freshId !in table
      modifies this
      ensures Valid()
      ensures r.Ok? <==> ValidateSchema(s) && 1 <= s.repairStrategy <= 3
      ensures !ValidateSchema(s) ==> r == Err(SchemaInvalid)
      ensures ValidateSchema(s) && !(1 <= s.repairStrategy <= 3) ==> r == Err(RepairStrategyInvalid)
      ensures r.Ok? ==>
        table == old(table)[freshId := Receipt(s, Pending, None, epoch)] && order == old(order) + [freshId]
      ensures r.Err? ==> unchanged(this)
    {
      if !ValidateSchema(s) {
        return Err(SchemaInvalid);
      }
      var emitted := EmitDiagnostic(s, epoch);
      if emitted.Err? {
        return Err(emitted.error);
      }
      Insert(freshId, emitted.value);
      r := Ok(());
    }

    // The `borrow_mut` and `mark_fixed` of a reward call: the entry changes in place, the indexes stay.
    method Fix(receiptId: Id, epoch: u64)
      requires Valid() && receiptId in table && table[receiptId].status == Pending
      modifies this`table
      ensures Valid()
      ensures table == old(table)[receiptId := old(table)[receiptId].(status := Status.Fixed, fixedAt := Some(epoch))]
    {
      var marked := MarkFixed(table[receiptId], epoch).value;
      StatusIndexed(order, table, receiptId, marked, agentIndex, categoryIndex, roundIndex);
      table := table[receiptId := marked];
    }

    // The limit is ignored, as in the source.
    method QueryByAgent(agentId: Bytes, limit: u64) returns (ids: seq<Id>)
      requires Valid()
      ensures ids == Scan(order, table, ByAgent(agentId))
      ensures forall x :: x in ids <==> x in table && table[x].submission.agentId == agentId
      ensures Distinct(ids)
    {
      ScanFindsAll(order, table, ByAgent(agentId));
      if agentId !in agentIndex {
        return [];
      }
      ids := agentIndex[agentId];
    }
  }

  // ---------- reputation and bounties ----------

  datatype Reputation =
    Reputation(birthEpoch: u64, totalReceipts: u64, fixedCount: u64, disputedCount: u64, bountyBalance: u64,
      lastActive: u64)

  // One successful reward call whose fixer was registered.
  datatype Payment = Payment(receipt: Id, fixer: Bytes, amount: u64)

  function Paid(rewards: seq<Payment>): nat {
    if rewards == [] then 0 else Paid(rewards[..|rewards| - 1]) + rewards[|rewards| - 1].amount
  }

  function PaidTo(rewards: seq<Payment>, fixer: Bytes): nat {
    if rewards == [] then 0
    else
      var last := rewards[|rewards| - 1];
      PaidTo(rewards[..|rewards| - 1], fixer) + if last.fixer == fixer then last.amount else 0
  }

  function CountTo(rewards: seq<Payment>, fixer: Bytes): nat {
    if rewards == [] then 0
    else CountTo(rewards[..|rewards| - 1], fixer) + if rewards[|rewards| - 1].fixer == fixer then 1 else 0
  }

  // Each agent's entry is its own share of the payments, and only registered agents were paid.
  ghost predicate Balanced(table: map<Bytes, Reputation>, rewards: seq<Payment>) {
    && (forall a :: a in table ==>
      table[a].bountyBalance == PaidTo(rewards, a) && table[a].fixedCount == CountTo(rewards, a))
    && (forall i :: 0 <= i < |rewards| ==> rewards[i].fixer in table)
  }

  lemma BooksStayBalanced(table: map<Bytes, Reputation>, rewards: seq<Payment>, p: Payment, epoch: u64)
    requires Balanced(table, rewards) && p.fixer in table && Fits(table[p.fixer], p.amount)
    ensures Balanced(table[p.fixer := Rewarded(table[p.fixer], p.amount, epoch)], rewards + [p])
  {
    RewardAppend(rewards, p);
  }

  // The fixer's entry after a payment that fits.
  function Rewarded(entry: Reputation, amount: u64, epoch: u64): Reputation
    requires Fits(entry, amount)
  {
    entry.(fixedCount := entry.fixedCount + 1, bountyBalance := entry.bountyBalance + amount, lastActive := epoch)
  }

  predicate Fits(entry: Reputation, amount: u64) {
    entry.fixedCount + 1 < TWO64 && entry.bountyBalance + amount < TWO64
  }

  class ReputationLedger {
    var table: map<Bytes, Reputation>
    ghost var rewards: seq<Payment>

    ghost predicate Valid()
      reads this
    {
      && Balanced(table, rewards)
      && (forall i, j :: 0 <= i < j < |rewards| ==> rewards[i].receipt != rewards[j].receipt)
    }

    constructor ()
      ensures Valid() && table == map[] && rewards == []
    {
      table, rewards := map[], [];
    }

    method RegisterAgent(agentId: Bytes, birthEpoch: u64, epoch: u64)
      requires Valid()
      modifies this
      ensures Valid() && rewards == old(rewards)
      ensures table == if agentId in old(table) then old(table)
                       else old(table)[agentId := Reputation(birthEpoch, 0, 0, 0, 0, epoch)]
    {
      if agentId !in table {
        NothingPaid(rewards, agentId);
        table := table[agentId := Reputation(birthEpoch, 0, 0, 0, 0, epoch)];
      }
    }

    // The additions to the fixer's entry; either may overflow.
    method Reward(receipt: Id, fixer: Bytes, amount: u64, epoch: u64) returns (ok: bool)
      requires Valid() && fixer in table && forall i :: 0 <= i < |rewards| ==> rewards[i].receipt != receipt
      modifies this
      ensures Valid()
      ensures ok <==> Fits(old(table)[fixer], amount)
      ensures !ok ==> unchanged(this)
      ensures ok ==>
        var before := old(table)[fixer];
        && Fits(before, amount)
        && table == old(table)[fixer := before.(fixedCount := before.fixedCount + 1,
                                                bountyBalance := before.bountyBalance + amount, lastActive := epoch)]
      ensures ok ==> rewards == old(rewards) + [Payment(receipt, fixer, amount)]
    {
      hide Balanced;
      var entry := table[fixer];
      if entry.fixedCount + 1 >= TWO64 || entry.bountyBalance + amount >= TWO64 {
        return false;
      }
      BooksStayBalanced(table, rewards, Payment(receipt, fixer, amount), epoch);
      table := table[fixer := entry.(fixedCount := entry.fixedCount + 1,
                                     bountyBalance := entry.bountyBalance + amount, lastActive := epoch)];
      rewards := rewards + [Payment(receipt, fixer, amount)];
      ok := true;
    }
  }

  lemma {:induction false} NothingPaid(rewards: seq<Payment>, a: Bytes)
    requires forall i :: 0 <= i < |rewards| ==> rewards[i].fixer != a
    ensures PaidTo(rewards, a) == 0 && CountTo(rewards, a) == 0
  {
    if rewards != [] {
      NothingPaid(rewards[..|rewards| - 1], a);
    }
  }

  lemma RewardAppend(rewards: seq<Payment>, r: Payment)
    ensures forall a :: PaidTo(rewards + [r], a) == PaidTo(rewards, a) + (if r.fixer == a then r.amount else 0)
    ensures forall a :: CountTo(rewards + [r], a) == CountTo(rewards, a) + (if r.fixer == a then 1 else 0)
  {
    assert (rewards + [r])[..|rewards|] == rewards;
  }

  ghost function Balances(table: map<Bytes, Reputation>): map<Bytes, nat> {
    map a | a in table :: table[a].bountyBalance
  }

  ghost function Shares(agents: set<Bytes>, rewards: seq<Payment>): map<Bytes, nat> {
    map a | a in agents :: PaidTo(rewards, a)
  }

  lemma {:induction false} SharesAddUp(agents: set<Bytes>, rewards: seq<Payment>)
    requires forall i :: 0 <= i < |rewards| ==> rewards[i].fixer in agents
    ensures Sum(Shares(agents, rewards)) == Paid(rewards)
  {
    if rewards == [] {
      NoShares(agents);
    } else {
      var before, r := rewards[..|rewards| - 1], rewards[|rewards| - 1];
      SharesAddUp(agents, before);
      SumUpdate(Shares(agents, before), r.fixer, PaidTo(rewards, r.fixer));
      assert Shares(agents, rewards) == Shares(agents, before)[r.fixer := PaidTo(rewards, r.fixer)];
    }
  }

  lemma {:induction false} NoShares(agents: set<Bytes>)
    ensures Sum(Shares(agents, [])) == 0
  {
    var m := Shares(agents, []);
    if m != map[] {
      var a :| a in m;
      SumRemove(m, a);
      NoShares(agents - {a});
      assert m - {a} == Shares(agents - {a}, []);
    }
  }

  // Conservation: the balances of a valid ledger add up to what was paid.
  lemma BountyConservation(rep: ReputationLedger)
    requires rep.Valid()
    ensures Sum(Balances(rep.table)) == Paid(rep.rewards)
  {
    SharesAddUp(rep.table.Keys, rep.rewards);
    assert Balances(rep.table) == Shares(rep.table.Keys, rep.rewards);
  }

  // Both ledgers are in order and every reward belongs to a fixed receipt.
  ghost predicate Consistent(ledger: Ledger, rep: ReputationLedger)
    reads ledger, rep
  {
    && ledger.Valid() && rep.Valid()
    && forall i :: 0 <= i < |rep.rewards| ==>
         rep.rewards[i].receipt in ledger.table && ledger.table[rep.rewards[i].receipt].status == Fixed
  }

  method MarkFixedAndReward(ledger: Ledger, rep: ReputationLedger, receiptId: Id, fixer: Bytes, amount: u64, epoch: u64)
    returns (r: Result<(), Abort>)
    requires Consistent(ledger, rep)
    modifies ledger`table, rep
    ensures Consistent(ledger, rep)
    ensures r == Err(ReceiptNotFound) <==> receiptId !in old(ledger.table)
    ensures r == Err(InvalidTransition)
      <==> receiptId in old(ledger.table) && old(ledger.table)[receiptId].status != Pending
    // An addition that overflows is the only other reason to abort.
    ensures r == Err(Overflow)
       <==> && receiptId in old(ledger.table) && old(ledger.table)[receiptId].status == Pending
            && fixer in old(rep.table) && !Fits(old(rep.table)[fixer], amount)
    ensures r.Err? ==> r.error in {ReceiptNotFound, InvalidTransition, Overflow}
    ensures r.Err? ==> unchanged(ledger) && unchanged(rep)
    ensures r.Ok? ==> receiptId in old(ledger.table)
    ensures r.Ok? ==>
      var fixed := old(ledger.table)[receiptId].(status := Fixed, fixedAt := Some(epoch));
      ledger.table == old(ledger.table)[receiptId := fixed]
    ensures r.Ok? && fixer !in old(rep.table) ==> unchanged(rep)
    ensures r.Ok? && fixer in old(rep.table) ==>
      var before := old(rep.table)[fixer];
      && Fits(before, amount)
      && rep.table == old(rep.table)[fixer := before.(fixedCount := before.fixedCount + 1,
                                                      bountyBalance := before.bountyBalance + amount,
                                                      lastActive := epoch)]
      && rep.rewards == old(rep.rewards) + [Payment(receiptId, fixer, amount)]
  {
    if receiptId !in ledger.table {
      return Err(ReceiptNotFound);
    }
    var marked := MarkFixed(ledger.table[receiptId], epoch);
    if marked.Err? {
      return Err(marked.error);
    }
    if fixer in rep.table {
      var paid := rep.Reward(receiptId, fixer, amount, epoch);
      if !paid {
        return Err(Overflow);
      }
    }
    ledger.Fix(receiptId, epoch);
    r := Ok(());
  }
}
