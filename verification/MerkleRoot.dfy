/**
 The root a vault anchors: leaves sorted by canonical id, hashed pairwise level by level with an odd
 leaf promoted.
 */
module MerkleRoot {
  import opened Machine
  import opened Wrappers
  import opened Text
  import opened Hashing

  datatype AuditError = BadCanonicalId | MerkleMismatch(expected: string, computed: string)

  datatype Entry = Entry(id: string, blob: Bytes)

  // ---------- one level and all levels ----------

  function Pair(a: Digest, b: Digest): Bytes {
    var left: Bytes, right: Bytes := a, b;
    left + right
  }

  function NextLevel(h: Hash, level: seq<Digest>): (next: seq<Digest>)
    ensures |next| == (|level| + 1) / 2
  {
    if |level| < 2 then level else [h(Pair(level[0], level[1]))] + NextLevel(h, level[2..])
  }

  function LevelsRoot(h: Hash, level: seq<Digest>): Digest
    requires level != []
    decreases |level|
  {
    if |level| == 1 then level[0] else LevelsRoot(h, NextLevel(h, level))
  }

  lemma NoLevel(h: Hash)
    ensures NextLevel(h, []) == []
  {
  }

  lemma LevelStep(h: Hash, level: seq<Digest>)
    requires level != []
    ensures NextLevel(h, level) ==
      if |level| == 1 then [level[0]] + NextLevel(h, []) else [h(Pair(level[0], level[1]))] + NextLevel(h, level[2..])
  {
  }

  // The loops of the source: `chunks(2)` inside, halving outside.
  method PairUp(h: Hash, level: seq<Digest>) returns (next: seq<Digest>)
    ensures next == NextLevel(h, level)
  {
    hide NextLevel;
    NoLevel(h);
    next := [];
    var i := 0;
    assert level[0..] == level;
    while i < |level|
      invariant i <= |level| + 1
      invariant NextLevel(h, level) == next + NextLevel(h, if i < |level| then level[i..] else [])
    {
      LevelStep(h, level[i..]);
      if i + 1 < |level| {
        next := next + [h(Pair(level[i], level[i + 1]))];
        assert level[i..][2..] == level[i + 2..];
        assert i + 2 == |level| ==> level[i + 2..] == [];
      } else {
        next := next + [level[i]];
      }
      i := i + 2;
    }
  }

  method RootOfLevels(h: Hash, leaves: seq<Digest>) returns (root: Digest)
    requires leaves != []
    ensures root == LevelsRoot(h, leaves)
    ensures root == TreeRoot(h, leaves)
  {
    var level := leaves;
    while |level| > 1
      invariant level != [] && LevelsRoot(h, level) == LevelsRoot(h, leaves)
      decreases |level|
    {
      level := PairUp(h, level);
    }
    root := level[0];
    LevelsAreTree(h, leaves);
  }

  // ---------- the recursive tree of RFC 6962, section 2.1 ----------

  // The largest power of two below `n`.
  function SplitPoint(n: nat): (k: nat)
    requires n > 1
    ensures 0 < k < n <= 2 * k
  {
    if n == 2 then 1 else 2 * SplitPoint((n + 1) / 2)
  }

  predicate PowerOfTwo(n: nat) {
    n == 1 || (n > 1 && n % 2 == 0 && PowerOfTwo(n / 2))
  }

  lemma {:induction false} SplitPointIsPower(n: nat)
    requires n > 1
    ensures PowerOfTwo(SplitPoint(n))
  {
    if n > 2 {
      SplitPointIsPower((n + 1) / 2);
    }
  }

  function TreeRoot(h: Hash, leaves: seq<Digest>): Digest
    requires leaves != []
    decreases |leaves|
  {
    if |leaves| == 1 then leaves[0]
    else
      var k := SplitPoint(|leaves|);
      h(Pair(TreeRoot(h, leaves[..k]), TreeRoot(h, leaves[k..])))
  }

  // An even split of a level is a split of the next one.
  lemma {:induction false} NextLevelSplits(h: Hash, level: seq<Digest>, k: nat)
    requires k <= |level| && k % 2 == 0
    ensures NextLevel(h, level) == NextLevel(h, level[..k]) + NextLevel(h, level[k..])
  {
    hide *;
    if k == 0 {
      NoLevel(h);
      assert level[..0] == [] && level[0..] == level;
    } else {
      var rest, first := level[2..], [h(Pair(level[0], level[1]))];
      NextLevelSplits(h, rest, k - 2);
      DropTwo(level, k);
      LevelStep(h, level);
      LevelStep(h, level[..k]);
      var l, r := NextLevel(h, rest[..k - 2]), NextLevel(h, level[k..]);
      assert first + (l + r) == (first + l) + r;
    }
  }

  lemma DropTwo(s: seq<Digest>, k: nat)
    requires 2 <= k <= |s|
    ensures s[..k][2..] == s[2..][..k - 2] && s[2..][k - 2..] == s[k..]
  {
  }

  lemma {:induction false} TreeOfNextLevel(h: Hash, leaves: seq<Digest>)
    requires |leaves| > 1
    ensures TreeRoot(h, leaves) == TreeRoot(h, NextLevel(h, leaves))
    decreases |leaves|
  {
    var n := |leaves|;
    if n > 2 {
      var k := SplitPoint(n);
      NextLevelSplits(h, leaves, k);
      var next, l, r := NextLevel(h, leaves), NextLevel(h, leaves[..k]), NextLevel(h, leaves[k..]);
      assert SplitPoint(|next|) == k / 2 == |l|;
      assert next[..k / 2] == l && next[k / 2..] == r;
      TreeOfNextLevel(h, leaves[..k]);
      if n - k > 1 {
        TreeOfNextLevel(h, leaves[k..]);
      }
    }
  }

  // The level loop computes the recursive tree, for every number of leaves.
  lemma {:induction false} LevelsAreTree(h: Hash, leaves: seq<Digest>)
    requires leaves != []
    ensures LevelsRoot(h, leaves) == TreeRoot(h, leaves)
    decreases |leaves|
  {
    if |leaves| > 1 {
      TreeOfNextLevel(h, leaves);
      LevelsAreTree(h, NextLevel(h, leaves));
    }
  }

  // ---------- sorting by canonical id ----------

  predicate Sorted(s: seq<Entry>) {
    forall i, j :: 0 <= i < j < |s| ==> LexLe(s[i].id, s[j].id)
  }

  // The stable insertion: `e` goes before the first entry with a strictly larger or equal id to its right.
  function Insert(e: Entry, s: seq<Entry>): seq<Entry> {
    if s == [] then [e]
    else if LexLe(e.id, s[0].id) then [e] + s
    else [s[0]] + Insert(e, s[1..])
  }

  // `sort_by` on the id: a stable sort.
  function SortById(s: seq<Entry>): seq<Entry> {
    if s == [] then [] else Insert(s[0], SortById(s[1..]))
  }

  ghost function WithId(s: seq<Entry>, id: string): seq<Entry> {
    if s == [] then [] else (if s[0].id == id then [s[0]] else []) + WithId(s[1..], id)
  }

  lemma {:induction false} InsertSorted(e: Entry, s: seq<Entry>)
    requires Sorted(s)
    ensures Sorted(Insert(e, s))
    ensures multiset(Insert(e, s)) == multiset{e} + multiset(s)
  {
    if s == [] {
    } else if LexLe(e.id, s[0].id) {
      forall j | 0 <= j < |s| ensures LexLe(e.id, s[j].id) {
        LexTotal(s[0].id, s[0].id);
        LexTransitive(e.id, s[0].id, s[j].id);
      }
    } else {
      InsertSorted(e, s[1..]);
      LexTotal(e.id, s[0].id);
      assert s == [s[0]] + s[1..];
      var t := Insert(e, s[1..]);
      forall j | 0 <= j < |t| ensures LexLe(s[0].id, t[j].id) {
        assert t[j] in multiset(t);
        assert t[j] == e || t[j] in s[1..];
      }
    }
  }

  lemma {:induction false} InsertStable(e: Entry, s: seq<Entry>, id: string)
    requires Sorted(s)
    ensures WithId(Insert(e, s), id) == WithId([e] + s, id)
  {
    if s != [] && !LexLe(e.id, s[0].id) {
      InsertStable(e, s[1..], id);
      assert ([e] + s)[1..] == s && ([e] + s[1..])[1..] == s[1..];
      LexTotal(e.id, e.id);
    }
  }

  // The three facts a stable sort is defined by.
  lemma {:induction false} SortFacts(s: seq<Entry>)
    ensures Sorted(SortById(s))
    ensures multiset(SortById(s)) == multiset(s)
    ensures forall id :: WithId(SortById(s), id) == WithId(s, id)
  {
    if s != [] {
      SortFacts(s[1..]);
      InsertSorted(s[0], SortById(s[1..]));
      assert s == [s[0]] + s[1..];
      forall id ensures WithId(SortById(s), id) == WithId(s, id) {
        InsertStable(s[0], SortById(s[1..]), id);
        assert ([s[0]] + SortById(s[1..]))[1..] == SortById(s[1..]);
      }
    }
  }

  // ---------- the root of a vault ----------

  function IdBytes(e: Entry): Option<Bytes> {
    match HexDecode(e.id)
    case Some(bytes) => if |bytes| == 32 then Some(bytes) else None
    case None => None
  }

  predicate WellFormed(s: seq<Entry>) {
    forall i :: 0 <= i < |s| ==> IdBytes(s[i]).Some?
  }

  function LeafInput(h: Hash, e: Entry): Bytes
    requires IdBytes(e).Some?
  {
    var digest: Bytes := h(e.blob);
    IdBytes(e).value + digest
  }

  function LeavesOf(h: Hash, s: seq<Entry>): (leaves: seq<Digest>)
    requires WellFormed(s)
    ensures |leaves| == |s| && forall i :: 0 <= i < |s| ==> leaves[i] == h(LeafInput(h, s[i]))
  {
    if s == [] then [] else LeavesOf(h, s[..|s| - 1]) + [h(LeafInput(h, s[|s| - 1]))]
  }

  // "GIX1:empty"
  const EMPTY: Bytes := [71, 73, 88, 49, 58, 101, 109, 112, 116, 121]

  function Root(h: Hash, entries: seq<Entry>): Result<string, AuditError> {
    var sorted := SortById(entries);
    if !WellFormed(sorted) then Err(BadCanonicalId)
    else if sorted == [] then Ok(HexEncode(h(EMPTY)))
    else Ok(HexEncode(TreeRoot(h, LeavesOf(h, sorted))))
  }

  method MerkleRoot(h: Hash, entries: seq<Entry>) returns (r: Result<string, AuditError>)
    ensures r == Root(h, entries)
  {
    var sorted := SortById(entries);
    var level: seq<Digest> := [];
    for i := 0 to |sorted|
      invariant |level| == i
      invariant forall k :: 0 <= k < i ==> IdBytes(sorted[k]).Some? && level[k] == h(LeafInput(h, sorted[k]))
    {
      match IdBytes(sorted[i])
      case None =>
        return Err(BadCanonicalId);
      case Some(bytes) =>
        level := level + [h(LeafInput(h, sorted[i]))];
    }
    assert level == LeavesOf(h, sorted);
    if level == [] {
      return Ok(HexEncode(h(EMPTY)));
    }
    var root := RootOfLevels(h, level);
    r := Ok(HexEncode(root));
  }

  method AuditMerkleRoot(h: Hash, entries: seq<Entry>, expectedRootHex: string) returns (r: Result<(), AuditError>)
    ensures r.Ok? <==> Root(h, entries) == Ok(expectedRootHex)
    ensures Root(h, entries).Err? ==> r == Err(BadCanonicalId)
    ensures Root(h, entries).Ok? && Root(h, entries).value != expectedRootHex ==>
      r == Err(MerkleMismatch(expectedRootHex, Root(h, entries).value))
  {
    var computed := MerkleRoot(h, entries);
    if computed.Err? {
      return Err(computed.error);
    }
    if computed.value != expectedRootHex {
      return Err(MerkleMismatch(expectedRootHex, computed.value));
    }
    r := Ok(());
  }

  // ---------- the root binds the contents ----------

  function VaultRoot(h: Hash, s: seq<Entry>): Digest
    requires s != [] && WellFormed(s)
  {
    TreeRoot(h, LeavesOf(h, s))
  }

  // Every pair of digests hashed in the tree.
  ghost function TreeInputs(h: Hash, leaves: seq<Digest>): set<Bytes>
    requires leaves != []
    decreases |leaves|
  {
    if |leaves| == 1 then {}
    else
      var l, r := leaves[..SplitPoint(|leaves|)], leaves[SplitPoint(|leaves|)..];
      {Pair(TreeRoot(h, l), TreeRoot(h, r))} + TreeInputs(h, l) + TreeInputs(h, r)
  }

  // What the loop hashes in one level, and in all of them.
  ghost function LevelInputs(level: seq<Digest>): set<Bytes> {
    if |level| < 2 then {} else {Pair(level[0], level[1])} + LevelInputs(level[2..])
  }

  ghost function LoopInputs(h: Hash, level: seq<Digest>): set<Bytes>
    decreases |level|
  {
    if |level| < 2 then {} else LevelInputs(level) + LoopInputs(h, NextLevel(h, level))
  }

  lemma {:induction false} LevelInputsSplit(level: seq<Digest>, k: nat)
    requires k <= |level| && k % 2 == 0
    ensures LevelInputs(level) == LevelInputs(level[..k]) + LevelInputs(level[k..])
  {
    if k == 0 {
      assert level[0..] == level;
    } else {
      LevelInputsSplit(level[2..], k - 2);
      DropTwo(level, k);
    }
  }

  // How the inputs of a tree are made of those of its halves, split at a given even place.
  lemma TreeInputsStep(h: Hash, leaves: seq<Digest>, k: nat)
    requires |leaves| > 1 && k == SplitPoint(|leaves|)
    ensures TreeInputs(h, leaves)
         == {Pair(TreeRoot(h, leaves[..k]), TreeRoot(h, leaves[k..]))}
          + TreeInputs(h, leaves[..k]) + TreeInputs(h, leaves[k..])
  {
  }

  lemma NoInputs(h: Hash, leaves: seq<Digest>)
    requires |leaves| == 1
    ensures TreeInputs(h, leaves) == LevelInputs(leaves) == {} && NextLevel(h, leaves) == leaves
  {
  }

  lemma TwoInputs(h: Hash, leaves: seq<Digest>)
    requires |leaves| == 2
    ensures TreeInputs(h, leaves) == LevelInputs(leaves) + TreeInputs(h, NextLevel(h, leaves))
  {
    TreeInputsStep(h, leaves, 1);
    NoInputs(h, leaves[..1]);
    NoInputs(h, leaves[1..]);
    LevelStep(h, leaves);
    NoLevel(h);
    assert leaves[2..] == [] && LevelInputs(leaves[2..]) == {};
  }

  // The next level of a split is split at half the place.
  lemma NextLevelHalves(h: Hash, leaves: seq<Digest>, k: nat)
    requires |leaves| > 2 && k == SplitPoint(|leaves|)
    ensures var next := NextLevel(h, leaves);
      && |next| > 1 && SplitPoint(|next|) == k / 2
      && next[..k / 2] == NextLevel(h, leaves[..k]) && next[k / 2..] == NextLevel(h, leaves[k..])
  {
    hide NextLevel;
    NextLevelSplits(h, leaves, k);
    assert |NextLevel(h, leaves[..k])| == k / 2;
  }

  lemma TreeOfNext(h: Hash, leaves: seq<Digest>)
    requires leaves != []
    ensures TreeRoot(h, leaves) == TreeRoot(h, NextLevel(h, leaves))
  {
    if |leaves| > 1 {
      TreeOfNextLevel(h, leaves);
    }
  }

  lemma {:induction false} TreeInputsByLevel(h: Hash, leaves: seq<Digest>)
    requires leaves != []
    ensures TreeInputs(h, leaves) == LevelInputs(leaves) + TreeInputs(h, NextLevel(h, leaves))
    decreases |leaves|
  {
    if |leaves| == 1 {
      NoInputs(h, leaves);
    } else if |leaves| == 2 {
      TwoInputs(h, leaves);
    } else {
      var k, next := SplitPoint(|leaves|), NextLevel(h, leaves);
      var l, r := leaves[..k], leaves[k..];
      hide TreeInputs, LevelInputs, TreeRoot, NextLevel, SplitPoint, Pair;
      SplitPointIsEven(|leaves|);
      NextLevelHalves(h, leaves, k);
      LevelInputsSplit(leaves, k);
      TreeInputsStep(h, leaves, k);
      TreeInputsStep(h, next, k / 2);
      TreeOfNext(h, l);
      TreeOfNext(h, r);
      TreeInputsByLevel(h, l);
      TreeInputsByLevel(h, r);
    }
  }

  lemma SplitPointIsEven(n: nat)
    requires n > 2
    ensures SplitPoint(n) % 2 == 0
  {
  }

  // The loop and the tree hash the same pairs.
  lemma {:induction false} LoopHashesTheTree(h: Hash, leaves: seq<Digest>)
    requires leaves != []
    ensures LoopInputs(h, leaves) == TreeInputs(h, leaves)
    decreases |leaves|
  {
    if |leaves| > 1 {
      TreeInputsByLevel(h, leaves);
      LoopHashesTheTree(h, NextLevel(h, leaves));
    }
  }

  // Everything that is hashed on the way to the root.
  ghost function Hashed(h: Hash, s: seq<Entry>): set<Bytes>
    requires WellFormed(s)
  {
    if s == [] then {EMPTY}
    else Blobs(s) + LeafInputs(h, s) + TreeInputs(h, LeavesOf(h, s))
  }

  ghost function Blobs(s: seq<Entry>): set<Bytes> {
    set i | 0 <= i < |s| :: s[i].blob
  }

  ghost function LeafInputs(h: Hash, s: seq<Entry>): set<Bytes>
    requires WellFormed(s)
  {
    set i | 0 <= i < |s| :: LeafInput(h, s[i])
  }

  // The last input hashed. Leaves and inner nodes are not told apart: both are 64 bytes.
  function RootInput(h: Hash, s: seq<Entry>): Bytes
    requires s != [] && WellFormed(s)
  {
    if |s| == 1 then LeafInput(h, s[0])
    else Pair(VaultRoot(h, s[..SplitPoint(|s|)]), VaultRoot(h, s[SplitPoint(|s|)..]))
  }

  lemma PartInputs(h: Hash, s: seq<Entry>, i: nat, j: nat)
    requires i <= j <= |s| && WellFormed(s)
    ensures WellFormed(s[i..j]) && Blobs(s[i..j]) <= Blobs(s) && LeafInputs(h, s[i..j]) <= LeafInputs(h, s)
  {
    hide IdBytes, LeafInput;
    var part := s[i..j];
    assert forall k :: 0 <= k < j - i ==> part[k] == s[i + k];
  }

  lemma PartLeaves(h: Hash, s: seq<Entry>, i: nat, j: nat)
    requires i <= j <= |s| && WellFormed(s)
    ensures WellFormed(s[i..j]) && LeavesOf(h, s)[i..j] == LeavesOf(h, s[i..j])
  {
    hide IdBytes, LeafInput, LeavesOf;
    var part := s[i..j];
    assert forall k :: 0 <= k < j - i ==> part[k] == s[i + k];
    assert forall k :: 0 <= k < j - i ==> LeavesOf(h, part)[k] == LeavesOf(h, s)[i..j][k];
  }

  lemma TreeInputsHalves(h: Hash, leaves: seq<Digest>)
    requires |leaves| > 1
    ensures var l, r := leaves[..SplitPoint(|leaves|)], leaves[SplitPoint(|leaves|)..];
      && TreeInputs(h, l) <= TreeInputs(h, leaves) && TreeInputs(h, r) <= TreeInputs(h, leaves)
      && Pair(TreeRoot(h, l), TreeRoot(h, r)) in TreeInputs(h, leaves)
  {
  }

  lemma Halves(h: Hash, s: seq<Entry>)
    requires |s| > 1 && WellFormed(s)
    ensures var k := SplitPoint(|s|);
      && WellFormed(s[..k]) && WellFormed(s[k..])
      && LeavesOf(h, s)[..k] == LeavesOf(h, s[..k]) && LeavesOf(h, s)[k..] == LeavesOf(h, s[k..])
      && Hashed(h, s[..k]) <= Hashed(h, s) && Hashed(h, s[k..]) <= Hashed(h, s)
  {
    hide Blobs, LeafInputs, LeavesOf, TreeRoot, TreeInputs, SplitPoint, WellFormed, LeafInput;
    var k, leaves := SplitPoint(|s|), LeavesOf(h, s);
    assert s[0..k] == s[..k] && s[k..|s|] == s[k..] && leaves[0..k] == leaves[..k] && leaves[k..|s|] == leaves[k..];
    PartInputs(h, s, 0, k);
    PartInputs(h, s, k, |s|);
    PartLeaves(h, s, 0, k);
    PartLeaves(h, s, k, |s|);
    TreeInputsHalves(h, leaves);
  }

  lemma RootInputHashed(h: Hash, s: seq<Entry>)
    requires s != [] && WellFormed(s)
    ensures VaultRoot(h, s) == h(RootInput(h, s)) && |RootInput(h, s)| == 64 && RootInput(h, s) in Hashed(h, s)
  {
    if |s| > 1 {
      hide TreeInputs, Blobs, LeafInputs;
      Halves(h, s);
      TreeInputsHalves(h, LeavesOf(h, s));
    } else {
      assert LeafInput(h, s[0]) in LeafInputs(h, s);
    }
  }

  // The id and blob an entry stands for; the id's letter case is not part of it.
  ghost predicate SameContents(s: seq<Entry>, t: seq<Entry>) {
    && |s| == |t|
    && forall i :: 0 <= i < |s| ==> IdBytes(s[i]) == IdBytes(t[i]) && s[i].blob == t[i].blob
  }

  // No blob can be taken for the input of a leaf or of an inner node.
  predicate NoNodeSizedBlob(s: seq<Entry>) {
    forall i :: 0 <= i < |s| ==> |s[i].blob| != 64
  }

  // What a verifier has to look at beside the root.
  predicate Comparable(s: seq<Entry>, t: seq<Entry>) {
    || |s| == |t|
    || (NoNodeSizedBlob(s) && NoNodeSizedBlob(t))
    || (|s| <= 1 && NoNodeSizedBlob(s))
    || (|t| <= 1 && NoNodeSizedBlob(t))
  }

  // One leaf that looks like the root of several: its blob is 64 bytes long or collides.
  lemma LeafAgainstTree(h: Hash, s: seq<Entry>, t: seq<Entry>)
    requires |s| == 1 && |t| > 1 && WellFormed(s) && WellFormed(t)
    requires RootInput(h, s) == RootInput(h, t) && NoNodeSizedBlob(s)
    ensures Collides(h, Hashed(h, s), Hashed(h, t))
  {
    var right := t[SplitPoint(|t|)..];
    Halves(h, t);
    RootInputHashed(h, right);
    assert RootInput(h, s)[32..] == h(s[0].blob) && RootInput(h, t)[32..] == VaultRoot(h, right);
    assert s[0].blob in Blobs(s);
  }

  lemma LeafBinds(h: Hash, s: seq<Entry>, t: seq<Entry>)
    requires |s| == 1 == |t| && WellFormed(s) && WellFormed(t)
    requires RootInput(h, s) == RootInput(h, t)
    ensures SameContents(s, t) || Collides(h, Hashed(h, s), Hashed(h, t))
  {
    var x, y := RootInput(h, s), RootInput(h, t);
    assert x[..32] == IdBytes(s[0]).value && y[..32] == IdBytes(t[0]).value;
    assert x[32..] == h(s[0].blob) && y[32..] == h(t[0].blob);
    assert s[0].blob in Blobs(s);
    assert t[0].blob in Blobs(t);
  }

  lemma SameHalves(s: seq<Entry>, t: seq<Entry>, k: nat, m: nat)
    requires k <= |s| && m <= |t| && SameContents(s[..k], t[..m]) && SameContents(s[k..], t[m..])
    ensures SameContents(s, t)
  {
    assert s == s[..k] + s[k..] && t == t[..m] + t[m..];
  }

  // Trees of entries with one root are the same tree with the same leaves, or hashed inputs collide.
  lemma {:induction false} RootBinds(h: Hash, s: seq<Entry>, t: seq<Entry>)
    requires s != [] && t != [] && WellFormed(s) && WellFormed(t)
    requires VaultRoot(h, s) == VaultRoot(h, t) && Comparable(s, t)
    ensures SameContents(s, t) || Collides(h, Hashed(h, s), Hashed(h, t))
    decreases |s|
  {
    hide Hashed, VaultRoot, LeavesOf, SameContents, IdBytes;
    RootInputHashed(h, s);
    RootInputHashed(h, t);
    if RootInput(h, s) != RootInput(h, t) {
      assert Collides(h, Hashed(h, s), Hashed(h, t));
    } else if |s| == 1 && |t| == 1 {
      LeafBinds(h, s, t);
    } else if |s| == 1 {
      LeafAgainstTree(h, s, t);
    } else if |t| == 1 {
      LeafAgainstTree(h, t, s);
    } else {
      var k, m := SplitPoint(|s|), SplitPoint(|t|);
      Halves(h, s);
      Halves(h, t);
      PairInjective(VaultRoot(h, s[..k]), VaultRoot(h, s[k..]), VaultRoot(h, t[..m]), VaultRoot(h, t[m..]));
      RootBinds(h, s[..k], t[..m]);
      RootBinds(h, s[k..], t[m..]);
      if Collides(h, Hashed(h, s[..k]), Hashed(h, t[..m])) {
        CollidesMore(h, Hashed(h, s[..k]), Hashed(h, t[..m]), Hashed(h, s), Hashed(h, t));
      } else if Collides(h, Hashed(h, s[k..]), Hashed(h, t[m..])) {
        CollidesMore(h, Hashed(h, s[k..]), Hashed(h, t[m..]), Hashed(h, s), Hashed(h, t));
      } else {
        SameHalves(s, t, k, m);
      }
    }
  }

  lemma PairInjective(a: Digest, b: Digest, c: Digest, d: Digest)
    requires Pair(a, b) == Pair(c, d)
    ensures a == c && b == d
  {
    assert a == Pair(a, b)[..32] && b == Pair(a, b)[32..] && c == Pair(c, d)[..32] && d == Pair(c, d)[32..];
  }

  // Binding: two vaults with the same root hold the same ids and blobs, or two inputs that were hashed on
  // the way collide, provided the sizes are compared too or no blob is 64 bytes long.
  lemma RootBindsEntries(h: Hash, a: seq<Entry>, b: seq<Entry>)
    requires Root(h, a).Ok? && Root(h, a) == Root(h, b) && Comparable(a, b)
    ensures WellFormed(SortById(a)) && WellFormed(SortById(b))
    ensures || SameContents(SortById(a), SortById(b))
            || Collides(h, Hashed(h, SortById(a)), Hashed(h, SortById(b)))
  {
    var s, t := SortById(a), SortById(b);
    SortComparable(a, b);
    HexInjective(RootDigest(h, s), RootDigest(h, t));
    if s != [] {
      RootInputHashed(h, s);
    }
    if t != [] {
      RootInputHashed(h, t);
    }
    if s != [] && t != [] {
      RootBinds(h, s, t);
    } else if s != [] || t != [] {
      var x, y := if s == [] then EMPTY else RootInput(h, s), if t == [] then EMPTY else RootInput(h, t);
      assert x in Hashed(h, s) && y in Hashed(h, t) && |x| != |y| && h(x) == h(y);
    }
  }

  function RootDigest(h: Hash, s: seq<Entry>): Digest
    requires WellFormed(s)
  {
    if s == [] then h(EMPTY) else VaultRoot(h, s)
  }

  lemma SortComparable(a: seq<Entry>, b: seq<Entry>)
    requires Comparable(a, b)
    ensures Comparable(SortById(a), SortById(b))
  {
    SortKeepsBlobSizes(a);
    SortKeepsBlobSizes(b);
  }

  lemma SortKeepsBlobSizes(a: seq<Entry>)
    ensures |SortById(a)| == |a|
    ensures NoNodeSizedBlob(a) ==> NoNodeSizedBlob(SortById(a))
  {
    SortFacts(a);
    var s := SortById(a);
    assert |multiset(s)| == |multiset(a)|;
    forall i | 0 <= i < |s| ensures s[i] in a {
      assert s[i] in multiset(a);
    }
  }

  // Without either check the root does not bind: for every vault of two or more entries there is a single
  // entry with the same root, whatever the hash function. Its id is the left half of the last input and
  // its blob what is hashed to the right half.
  lemma OneEntryTwin(h: Hash, a: seq<Entry>) returns (g: Entry)
    requires WellFormed(a) && |a| > 1
    ensures WellFormed([g]) && |g.blob| == 64
    ensures Root(h, a).Ok? && Root(h, [g]) == Root(h, a)
    // Nothing is hashed for it that is not hashed for the vault.
    ensures WellFormed(SortById(a)) && Hashed(h, [g]) <= Hashed(h, SortById(a))
  {
    hide LeavesOf, IdBytes, TreeRoot, SortById, HexDecode, HexEncode, Hashed;
    SortWellFormed(a);
    SortKeepsBlobSizes(a);
    var s := SortById(a);
    var l, r := s[..SplitPoint(|s|)], s[SplitPoint(|s|)..];
    g := Entry(HexEncode(VaultRoot(h, l)), RootInput(h, r));
    RootInputHashed(h, s);
    RootInputHashed(h, r);
    EntryOf(h, VaultRoot(h, l), RootInput(h, r));
    SingleEntry(h, g);
    Halves(h, s);
    assert RootInput(h, s) == Pair(VaultRoot(h, l), VaultRoot(h, r));
  }

  lemma SingleEntry(h: Hash, g: Entry)
    requires IdBytes(g).Some?
    ensures Root(h, [g]) == Ok(HexEncode(h(LeafInput(h, g))))
    ensures Root(h, [g]) == Ok(HexEncode(h(IdBytes(g).value + h(g.blob))))
    ensures Hashed(h, [g]) == {g.blob, LeafInput(h, g)} && SortById([g]) == [g]
  {
    assert SortById([g]) == [g];
    assert LeavesOf(h, [g]) == [h(LeafInput(h, [g][0]))];
    assert [g][0].blob in Blobs([g]) && LeafInput(h, [g][0]) in LeafInputs(h, [g]);
  }

  lemma EntryOf(h: Hash, d: Digest, blob: Bytes)
    ensures IdBytes(Entry(HexEncode(d), blob)) == Some(d)
    ensures Root(h, [Entry(HexEncode(d), blob)]) == Ok(HexEncode(h(Pair(d, h(blob)))))
  {
    HexRoundTrip(d);
    SingleEntry(h, Entry(HexEncode(d), blob));
  }

  // The smallest case: two entries in order, and the entry made of their two leaves.
  lemma TwoEntryTwin(h: Hash, x: Entry, y: Entry)
    requires IdBytes(x).Some? && IdBytes(y).Some? && LexLe(x.id, y.id)
    ensures Root(h, [x, y]) == Root(h, [Entry(HexEncode(h(LeafInput(h, x))), LeafInput(h, y))])
  {
    hide LeavesOf, TreeRoot, IdBytes, SortById, LexLe;
    var a := [x, y];
    SortPair(x, y);
    assert a[..1] == [x] && a[1..] == [y];
    RootInputHashed(h, a);
    RootInputHashed(h, [x]);
    RootInputHashed(h, [y]);
    EntryOf(h, h(LeafInput(h, x)), LeafInput(h, y));
  }

  // What the root alone binds: the empty vault, and a single entry unless its blob is 64 bytes long. Any
  // larger vault has a twin that brings no collision the vault does not have by itself.
  lemma RootAloneBinds(h: Hash, a: seq<Entry>)
    requires WellFormed(a)
    ensures WellFormed(SortById(a))
    ensures |a| <= 1 && NoNodeSizedBlob(a) ==> forall b :: Root(h, b) == Root(h, a) ==>
      WellFormed(SortById(b)) && !Mistaken(h, a, b)
    ensures |a| > 1 && !Collides(h, Hashed(h, SortById(a)), Hashed(h, SortById(a))) ==>
      exists b :: Root(h, b) == Root(h, a) && WellFormed(SortById(b)) && Mistaken(h, a, b)
  {
    hide Root, Hashed, SortById, IdBytes;
    SortWellFormed(a);
    WellFormedHasRoot(h, a);
    if |a| <= 1 && NoNodeSizedBlob(a) {
      forall b | Root(h, b) == Root(h, a) ensures WellFormed(SortById(b)) && !Mistaken(h, a, b) {
        RootBindsEntries(h, a, b);
      }
    } else if |a| > 1 && !Collides(h, Hashed(h, SortById(a)), Hashed(h, SortById(a))) {
      var g := OneEntryTwin(h, a);
      assert [g][0] == g;
      SingleEntry(h, g);
      SortKeepsBlobSizes(a);
      CollidesWithin(h, Hashed(h, SortById(a)), Hashed(h, [g]));
      assert Mistaken(h, a, [g]);
    }
  }

  // Different vaults, and no collision to blame.
  ghost predicate Mistaken(h: Hash, a: seq<Entry>, b: seq<Entry>)
    requires WellFormed(SortById(a)) && WellFormed(SortById(b))
  {
    && !SameContents(SortById(a), SortById(b))
    && !Collides(h, Hashed(h, SortById(a)), Hashed(h, SortById(b)))
  }

  function Constant(b: byte): Digest {
    seq(32, _ => b)
  }

  lemma Fresh(a: Digest, b: Digest, c: Digest, d: Digest) returns (e: Digest)
    ensures e != a && e != b && e != c && e != d
  {
    var taken := [a[0], b[0], c[0], d[0]];
    e := Constant(if 0 !in taken then 0
                  else if 1 !in taken then 1
                  else if 2 !in taken then 2
                  else if 3 !in taken then 3
                  else 4);
  }

  const NONE: Bytes := []
  const ONE: Bytes := [0]

  // A single entry with a blob of 64 bytes is not bound for every hash function: the blob can be the leaf
  // of a second entry.
  lemma NodeSizedBlobIsMistaken(e: Entry) returns (h: Hash, b: seq<Entry>)
    requires IdBytes(e).Some? && |e.blob| == 64
    ensures WellFormed(SortById([e])) && WellFormed(SortById(b))
    ensures Root(h, b) == Root(h, [e]) && Mistaken(h, [e], b)
  {
    var id: Digest, left: Digest, right: Digest := IdBytes(e).value, e.blob[..32], e.blob[32..];
    var c := Fresh(id, right, id, right);
    var d := Fresh(id, right, c, c);
    var f := Fresh(id, right, c, d);
    hide *;
    var leaf := Pair(left, c);
    assert e.blob == Pair(left, right) by { Halved(e.blob, left, right); }
    h := x => if x == NONE then c
              else if x == ONE then right
              else if x == leaf then id
              else if x == e.blob then d
              else f;
    PairsDiffer(left, c, left, right);
    PairsDiffer(id, d, left, c);
    PairsDiffer(id, d, left, right);
    b := [Entry(HexEncode(left), NONE), Entry(HexEncode(left), ONE)];
    BlobAsLeaf(h, e, id, left, right);
  }

  lemma Halved(blob: Bytes, left: Digest, right: Digest)
    requires |blob| == 64 && left == blob[..32] && right == blob[32..]
    ensures blob == Pair(left, right)
  {
  }

  lemma PairsDiffer(a: Digest, b: Digest, c: Digest, d: Digest)
    requires b != d
    ensures Pair(a, b) != Pair(c, d) && Pair(a, b) != NONE && Pair(a, b) != ONE && NONE != ONE
  {
    if Pair(a, b) == Pair(c, d) {
      PairInjective(a, b, c, d);
    }
    assert |Pair(a, b)| == 64;
  }

  lemma BlobAsLeaf(h: Hash, e: Entry, id: Digest, left: Digest, right: Digest)
    requires IdBytes(e) == Some(id) && e.blob == Pair(left, right)
    requires h(ONE) == right && h(Pair(left, h(NONE))) == id
    requires e.blob != Pair(left, h(NONE))
    requires h(e.blob) !in {h(NONE), right, id} && h(Pair(id, h(e.blob))) !in {h(NONE), right, id, h(e.blob)}
    ensures var b := [Entry(HexEncode(left), NONE), Entry(HexEncode(left), ONE)];
      && WellFormed(SortById([e])) && WellFormed(SortById(b))
      && Root(h, b) == Root(h, [e]) && Mistaken(h, [e], b)
  {
    hide Root, Hashed, SortById, HexEncode, HexDecode, Pair, WellFormed;
    var x, y := Entry(HexEncode(left), NONE), Entry(HexEncode(left), ONE);
    EntryOf(h, left, NONE);
    EntryOf(h, left, ONE);
    LeafIsPair(h, x, left);
    LeafIsPair(h, y, left);
    LeafIsPair(h, e, id);
    LexTotal(x.id, x.id);
    TwoEntryTwin(h, x, y);
    EntryOf(h, id, e.blob);
    SingleEntry(h, e);
    SortPair(x, y);
    TwoEntriesHashed(h, x, y);
    TwoWellFormed(x, y, e);
  }

  lemma LeafIsPair(h: Hash, e: Entry, id: Digest)
    requires IdBytes(e) == Some(id)
    ensures LeafInput(h, e) == Pair(id, h(e.blob))
  {
  }

  lemma TwoWellFormed(x: Entry, y: Entry, e: Entry)
    requires IdBytes(x).Some? && IdBytes(y).Some? && IdBytes(e).Some?
    ensures WellFormed([x, y]) && WellFormed([e])
  {
  }

  lemma TwoEntriesHashed(h: Hash, x: Entry, y: Entry)
    requires IdBytes(x).Some? && IdBytes(y).Some?
    ensures Hashed(h, [x, y])
         == {x.blob, y.blob, LeafInput(h, x), LeafInput(h, y), Pair(h(LeafInput(h, x)), h(LeafInput(h, y)))}
  {
    hide IdBytes, LeafInput;
    var s, d, e := [x, y], h(LeafInput(h, x)), h(LeafInput(h, y));
    assert s[0] == x && s[1] == y && LeavesOf(h, s) == [d, e];
    assert Blobs(s) == {x.blob, y.blob} && LeafInputs(h, s) == {LeafInput(h, x), LeafInput(h, y)};
    assert [d, e][..1] == [d] && [d, e][1..] == [e];
    TreeInputsStep(h, [d, e], 1);
    NoInputs(h, [d]);
    NoInputs(h, [e]);
  }

  // The smallest roots in full: of nothing, and of two entries. That of one entry is in SingleEntry.
  lemma SmallestRoots(h: Hash, x: Entry, y: Entry)
    requires IdBytes(x).Some? && IdBytes(y).Some? && LexLe(x.id, y.id)
    ensures |EMPTY| == |"GIX1:empty"| && forall i :: 0 <= i < |EMPTY| ==> EMPTY[i] as int == "GIX1:empty"[i] as int
    ensures Root(h, []) == Ok(HexEncode(h(EMPTY)))
    ensures Root(h, [x, y])
         == Ok(HexEncode(h(h(IdBytes(x).value + h(x.blob)) + h(IdBytes(y).value + h(y.blob)))))
  {
    TwoEntryTwin(h, x, y);
    EntryOf(h, h(LeafInput(h, x)), LeafInput(h, y));
  }

  // ---------- the order of the input ----------

  // Two entries claim one id for different blobs.
  predicate Clash(s: seq<Entry>, i: nat, j: nat) {
    i < j < |s| && s[i].id == s[j].id && s[i].blob != s[j].blob
  }

  function Without(t: seq<Entry>, i: nat): seq<Entry>
    requires i < |t|
  {
    t[..i] + t[i + 1..]
  }

  // The first ids of two sorted arrangements agree; the twin of s[0] sits behind entries of its own id.
  lemma FirstTwin(s: seq<Entry>, t: seq<Entry>) returns (i: nat)
    requires Sorted(s) && Sorted(t) && multiset(s) == multiset(t) && s != []
    ensures i < |t| && t[i] == s[0]
    ensures forall k :: 0 <= k <= i ==> t[k].id == s[0].id
  {
    assert s[0] in multiset(t);
    i :| 0 <= i < |t| && t[i] == s[0];
    forall k | 0 <= k <= i ensures t[k].id == s[0].id {
      assert t[k] in multiset(s);
      var j :| 0 <= j < |s| && s[j] == t[k];
      LexTotal(s[0].id, s[0].id);
      LexAntisymmetric(s[0].id, t[k].id);
    }
  }

  lemma WithoutTwin(s: seq<Entry>, t: seq<Entry>, i: nat)
    requires s != [] && i < |t| && t[i] == s[0] && multiset(s) == multiset(t)
    ensures multiset(s[1..]) == multiset(Without(t, i))
  {
    assert t == t[..i] + [t[i]] + t[i + 1..];
    assert s == [s[0]] + s[1..];
    assert multiset(t) == multiset(t[..i]) + multiset{t[i]} + multiset(t[i + 1..]);
    assert multiset(s[1..]) == multiset(s) - multiset{s[0]};
    assert multiset(Without(t, i)) == multiset(t[..i]) + multiset(t[i + 1..]);
  }

  lemma {:induction false} SortedIdsUnique(s: seq<Entry>, t: seq<Entry>)
    requires Sorted(s) && Sorted(t) && multiset(s) == multiset(t)
    ensures |s| == |t| && forall i :: 0 <= i < |s| ==> s[i].id == t[i].id
    decreases |s|
  {
    assert |s| == |multiset(s)| && |t| == |multiset(t)|;
    if s != [] {
      var i := FirstTwin(s, t);
      WithoutTwin(s, t, i);
      SortedIdsUnique(s[1..], Without(t, i));
      forall k | 0 < k < |s| ensures s[k].id == t[k].id {
        assert s[k] == s[1..][k - 1];
        assert Without(t, i)[k - 1] == if k - 1 < i then t[k - 1] else t[k];
      }
    }
  }

  lemma SameSort(a: seq<Entry>, b: seq<Entry>)
    requires multiset(a) == multiset(b)
    requires forall i, j :: !Clash(a, i, j)
    ensures SortById(a) == SortById(b)
    ensures forall h :: Root(h, a) == Root(h, b)
  {
    hide SortById, LexLe, LeavesOf, TreeRoot, WellFormed;
    var s, t := SortById(a), SortById(b);
    SortFacts(a);
    SortFacts(b);
    SortedIdsUnique(s, t);
    forall i | 0 <= i < |s| ensures s[i] == t[i] {
      assert s[i] in multiset(a) && t[i] in multiset(a);
      var j :| 0 <= j < |a| && a[j] == s[i];
      var k :| 0 <= k < |a| && a[k] == t[i];
      assert !Clash(a, j, k) && !Clash(a, k, j);
    }
  }

  lemma {:induction false} WithIdConcat(s: seq<Entry>, t: seq<Entry>, id: string)
    ensures WithId(s + t, id) == WithId(s, id) + WithId(t, id)
  {
    if s == [] {
      assert s + t == t;
    } else {
      WithIdConcat(s[1..], t, id);
      assert (s + t)[1..] == s[1..] + t && (s + t)[0] == s[0];
      var first := if s[0].id == id then [s[0]] else [];
      assert WithId(s, id) == first + WithId(s[1..], id);
      assert first + (WithId(s[1..], id) + WithId(t, id)) == first + WithId(s[1..], id) + WithId(t, id);
    }
  }

  lemma WithIdAt(s: seq<Entry>, i: nat)
    requires i < |s|
    ensures |WithId(s[..i], s[i].id)| < |WithId(s, s[i].id)|
    ensures WithId(s, s[i].id)[|WithId(s[..i], s[i].id)|] == s[i]
  {
    var id := s[i].id;
    assert s == s[..i] + ([s[i]] + s[i + 1..]);
    WithIdConcat(s[..i], [s[i]] + s[i + 1..], id);
    WithIdConcat([s[i]], s[i + 1..], id);
  }

  lemma SwapShows(a: seq<Entry>, i: nat, j: nat)
    requires Clash(a, i, j)
    ensures SortById(a) != SortById(a[i := a[j]][j := a[i]])
  {
    var b := a[i := a[j]][j := a[i]];
    WithIdAt(a, i);
    WithIdAt(b, i);
    assert a[..i] == b[..i];
    SortFacts(a);
    SortFacts(b);
    assert WithId(SortById(a), a[i].id) == WithId(a, a[i].id) != WithId(b, a[i].id) == WithId(SortById(b), a[i].id);
  }

  // Swapping two clashing entries changes the root, or yields a collision.
  lemma ClashSwapShows(h: Hash, a: seq<Entry>, i: nat, j: nat)
    requires Clash(a, i, j) && WellFormed(a)
    ensures WellFormed(SortById(a)) && WellFormed(SortById(a[i := a[j]][j := a[i]]))
    ensures multiset(a[i := a[j]][j := a[i]]) == multiset(a)
    ensures || Root(h, a[i := a[j]][j := a[i]]) != Root(h, a)
            || Collides(h, Hashed(h, SortById(a)), Hashed(h, SortById(a[i := a[j]][j := a[i]])))
  {
    hide Root, TreeRoot, NextLevel, LeavesOf, Hashed, Insert, SortById, WithId;
    var b := a[i := a[j]][j := a[i]];
    var s, t := SortById(a), SortById(b);
    assert multiset(b) == multiset(a);
    SortFacts(a);
    SortFacts(b);
    SortWellFormed(a);
    SortWellFormed(b);
    WellFormedHasRoot(h, a);
    SwapShows(a, i, j);
    if Root(h, a) == Root(h, b) {
      RootBindsEntries(h, a, b);
      SortedIdsUnique(s, t);
      assert SameContents(s, t) ==> s == t;
    }
  }

  lemma WellFormedHasRoot(h: Hash, a: seq<Entry>)
    ensures Root(h, a).Ok? <==> WellFormed(a)
  {
    SortWellFormed(a);
  }

  lemma SortWellFormed(a: seq<Entry>)
    ensures WellFormed(SortById(a)) <==> WellFormed(a)
  {
    SortFacts(a);
    var s := SortById(a);
    if WellFormed(a) {
      forall i | 0 <= i < |s| ensures IdBytes(s[i]).Some? {
        assert s[i] in multiset(a);
      }
    }
    if WellFormed(s) {
      forall i | 0 <= i < |a| ensures IdBytes(a[i]).Some? {
        assert a[i] in multiset(s);
      }
    }
  }

  // The root ignores the order of the input exactly when no two entries clash.
  lemma RootIgnoresOrder(h: Hash, a: seq<Entry>)
    requires WellFormed(a)
    ensures (forall i, j :: !Clash(a, i, j)) ==> forall b :: multiset(b) == multiset(a) ==> Root(h, b) == Root(h, a)
    ensures (exists i, j :: Clash(a, i, j)) ==>
      exists b :: multiset(b) == multiset(a) && WellFormed(SortById(a)) && WellFormed(SortById(b))
               && (Root(h, b) != Root(h, a) || Collides(h, Hashed(h, SortById(a)), Hashed(h, SortById(b))))
  {
    hide Root, Hashed, WellFormed, SortById;
    if i, j :| Clash(a, i, j) {
      ClashSwapShows(h, a, i, j);
    } else {
      forall b | multiset(b) == multiset(a) ensures Root(h, b) == Root(h, a) {
        SameSort(a, b);
      }
    }
  }

  // ---------- what decides the root ----------

  lemma RootOfSortedContents(h: Hash, a: seq<Entry>, b: seq<Entry>)
    requires SameContents(SortById(a), SortById(b))
    ensures Root(h, a) == Root(h, b)
  {
    var s, t := SortById(a), SortById(b);
    if WellFormed(s) {
      assert LeavesOf(h, s) == LeavesOf(h, t);
    } else {
      var i :| 0 <= i < |s| && IdBytes(s[i]).None?;
      assert IdBytes(t[i]).None?;
    }
  }

  // The texts of the ids compare alike, position by position.
  predicate SameOrder(a: seq<Entry>, b: seq<Entry>) {
    && |a| == |b|
    && forall i, j :: 0 <= i < |a| && 0 <= j < |a| ==> (LexLe(a[i].id, a[j].id) <==> LexLe(b[i].id, b[j].id))
  }

  // Where the entries of `s` are in `a`, and those of `t` in `b`.
  predicate Arranges(s: seq<Entry>, a: seq<Entry>, t: seq<Entry>, b: seq<Entry>, p: seq<nat>) {
    && |s| == |t| == |p| && |a| == |b|
    && forall i :: 0 <= i < |p| ==> p[i] < |a| && s[i] == a[p[i]] && t[i] == b[p[i]]
  }

  lemma {:induction false} InsertsAlike(a: seq<Entry>, b: seq<Entry>, s: seq<Entry>, t: seq<Entry>, q: seq<nat>)
    returns (p: seq<nat>)
    requires SameOrder(a, b) && a != [] && Arranges(s, a, t, b, q)
    ensures Arranges(Insert(a[0], s), a, Insert(b[0], t), b, p)
  {
    hide LexLe;
    if s == [] {
      p := [0];
    } else if LexLe(a[0].id, s[0].id) {
      assert LexLe(b[0].id, t[0].id);
      p := [0] + q;
    } else {
      assert !LexLe(b[0].id, t[0].id);
      var rest := InsertsAlike(a, b, s[1..], t[1..], q[1..]);
      p := [q[0]] + rest;
    }
  }

  lemma {:induction false} SortsAlike(a: seq<Entry>, b: seq<Entry>) returns (p: seq<nat>)
    requires SameOrder(a, b)
    ensures Arranges(SortById(a), a, SortById(b), b, p)
  {
    if a == [] {
      p := [];
    } else {
      var q := SortsAlike(a[1..], b[1..]);
      var next := seq(|q|, i requires 0 <= i < |q| => q[i] + 1);
      p := InsertsAlike(a, b, SortById(a[1..]), SortById(b[1..]), next);
    }
  }

  predicate DistinctIds(a: seq<Entry>) {
    forall i, j :: 0 <= i < j < |a| ==> IdBytes(a[i]) != IdBytes(a[j])
  }

  // The place of the i-th entries in two sorted vaults of the same contents.
  lemma SortedPlace(a: seq<Entry>, b: seq<Entry>, i: nat) returns (u: nat)
    requires i < |a| && SameContents(a, b) && DistinctIds(a) && SameContents(SortById(a), SortById(b))
    ensures u < |SortById(a)| && SortById(a)[u] == a[i] && SortById(b)[u] == b[i]
  {
    hide SortById, IdBytes, LexLe;
    var s, t := SortById(a), SortById(b);
    SortFacts(a);
    SortFacts(b);
    assert a[i] in multiset(s);
    u :| 0 <= u < |s| && s[u] == a[i];
    assert t[u] in multiset(b);
    var j :| 0 <= j < |b| && b[j] == t[u];
    assert IdBytes(a[j]) == IdBytes(b[j]) == IdBytes(a[i]);
  }

  lemma SortedOrder(a: seq<Entry>, b: seq<Entry>, i: nat, j: nat)
    requires i < |a| && j < |a| && SameContents(a, b) && DistinctIds(a) && SameContents(SortById(a), SortById(b))
    requires LexLe(a[i].id, a[j].id)
    ensures LexLe(b[i].id, b[j].id)
  {
    hide SortById, IdBytes, LexLe;
    var u := SortedPlace(a, b, i);
    var v := SortedPlace(a, b, j);
    SortFacts(a);
    SortFacts(b);
    if v < u {
      LexAntisymmetric(a[i].id, a[j].id);
      SameTextSameBytes(a[i], a[j]);
      assert i == j;
    }
    LexTotal(b[i].id, b[i].id);
  }

  lemma SameTextSameBytes(x: Entry, y: Entry)
    requires x.id == y.id
    ensures IdBytes(x) == IdBytes(y)
  {
  }

  lemma SameOrderIffSameSorted(a: seq<Entry>, b: seq<Entry>)
    requires SameContents(a, b) && DistinctIds(a)
    ensures SameOrder(a, b) <==> SameContents(SortById(a), SortById(b))
  {
    hide SortById, IdBytes, LexLe;
    if SameOrder(a, b) {
      var p := SortsAlike(a, b);
    }
    if SameContents(SortById(a), SortById(b)) {
      forall i, j | 0 <= i < |a| && 0 <= j < |a| ensures LexLe(a[i].id, a[j].id) <==> LexLe(b[i].id, b[j].id) {
        if LexLe(a[i].id, a[j].id) {
          SortedOrder(a, b, i, j);
        }
        if LexLe(b[i].id, b[j].id) {
          SortedOrder(b, a, i, j);
        }
      }
    }
  }

  // Two writings of the same ids and blobs have the same root when the texts of the ids are in the same
  // order. When they are not, the root differs, or inputs collide.
  lemma OrderOfTextsDecidesRoot(h: Hash, a: seq<Entry>, b: seq<Entry>)
    requires WellFormed(a) && SameContents(a, b) && DistinctIds(a)
    ensures WellFormed(SortById(a)) && WellFormed(SortById(b))
    ensures if SameOrder(a, b) then Root(h, a) == Root(h, b)
            else Root(h, a) != Root(h, b) || Collides(h, Hashed(h, SortById(a)), Hashed(h, SortById(b)))
  {
    hide Root, Hashed, SortById, IdBytes, LexLe, SameOrder, DistinctIds;
    SortWellFormed(a);
    SortWellFormed(b);
    WellFormedHasRoot(h, a);
    SameOrderIffSameSorted(a, b);
    if SameOrder(a, b) {
      RootOfSortedContents(h, a, b);
    } else if Root(h, a) == Root(h, b) {
      RootBindsEntries(h, a, b);
    }
  }

  // ---------- the letter case of ids ----------

  // Written in lower case throughout, or in capitals throughout.
  predicate SingleCase(s: seq<Entry>) {
    || (forall i :: 0 <= i < |s| ==> NoneOf(s[i].id, 'A', 'F'))
    || (forall i :: 0 <= i < |s| ==> NoneOf(s[i].id, 'a', 'f'))
  }

  predicate NoneOf(s: string, first: char, last: char) {
    forall i :: 0 <= i < |s| ==> !(first <= s[i] <= last)
  }

  predicate BytesLe(a: Bytes, b: Bytes) {
    a == [] || (b != [] && (a[0] < b[0] || (a[0] == b[0] && BytesLe(a[1..], b[1..]))))
  }

  lemma HexDecodeStep(s: string)
    requires s != "" && HexDecode(s).Some?
    ensures |s| > 1 && HexValue(s[0]).Some? && HexValue(s[1]).Some? && HexDecode(s[2..]).Some?
    ensures HexDecode(s).value[0] as int == 16 * HexValue(s[0]).value + HexValue(s[1]).value
    ensures HexDecode(s).value[1..] == HexDecode(s[2..]).value
  {
  }

  lemma LexLeTwo(s: string, t: string)
    requires |s| > 1 && |t| > 1
    ensures LexLe(s, t)
       <==> || s[0] < t[0]
            || (s[0] == t[0] && (s[1] < t[1] || (s[1] == t[1] && LexLe(s[2..], t[2..]))))
  {
    assert s[1..][1..] == s[2..] && t[1..][1..] == t[2..];
  }

  // In a single case, texts compare as the bytes they stand for.
  lemma {:induction false} TextsCompareAsBytes(s: string, t: string, first: char, last: char)
    requires HexDecode(s).Some? && HexDecode(t).Some?
    requires (first == 'A' && last == 'F') || (first == 'a' && last == 'f')
    requires NoneOf(s, first, last) && NoneOf(t, first, last)
    ensures LexLe(s, t) <==> BytesLe(HexDecode(s).value, HexDecode(t).value)
  {
    if s != "" && t != "" {
      hide HexDecode, LexLe;
      HexDecodeStep(s);
      HexDecodeStep(t);
      LexLeTwo(s, t);
      TextsCompareAsBytes(s[2..], t[2..], first, last);
      SingleCaseDigits(s[0], t[0], first, last);
      SingleCaseDigits(s[1], t[1], first, last);
    }
  }

  lemma SingleCaseDigits(c: char, d: char, first: char, last: char)
    requires HexValue(c).Some? && HexValue(d).Some?
    requires (first == 'A' && last == 'F') || (first == 'a' && last == 'f')
    requires !(first <= c <= last) && !(first <= d <= last)
    ensures c < d <==> HexValue(c).value < HexValue(d).value
    ensures c == d <==> HexValue(c).value == HexValue(d).value
  {
  }

  lemma SingleCaseOrder(a: seq<Entry>, i: nat, j: nat)
    requires WellFormed(a) && SingleCase(a) && i < |a| && j < |a|
    ensures LexLe(a[i].id, a[j].id) <==> BytesLe(IdBytes(a[i]).value, IdBytes(a[j]).value)
  {
    hide LexLe, HexDecode, BytesLe;
    if forall k :: 0 <= k < |a| ==> NoneOf(a[k].id, 'A', 'F') {
      TextsCompareAsBytes(a[i].id, a[j].id, 'A', 'F');
    } else {
      TextsCompareAsBytes(a[i].id, a[j].id, 'a', 'f');
    }
  }

  // Among vaults each written in a single case, in whichever, the root is a function of ids and blobs.
  lemma SingleCaseRootOfContents(h: Hash, a: seq<Entry>, b: seq<Entry>)
    requires WellFormed(a) && SingleCase(a) && SingleCase(b) && SameContents(a, b)
    ensures Root(h, a) == Root(h, b)
  {
    hide Root, SortById, IdBytes, LexLe, SingleCase, BytesLe;
    forall i, j | 0 <= i < |a| && 0 <= j < |a| ensures LexLe(a[i].id, a[j].id) <==> LexLe(b[i].id, b[j].id) {
      SingleCaseOrder(a, i, j);
      SingleCaseOrder(b, i, j);
    }
    var p := SortsAlike(a, b);
    RootOfSortedContents(h, a, b);
  }

  function Repeated(c: char, n: nat): (s: string)
    ensures |s| == 2 * n && forall i :: 0 <= i < |s| ==> s[i] == c
  {
    if n == 0 then "" else [c, c] + Repeated(c, n - 1)
  }

  lemma {:induction false} DecodeRepeated(c: char, n: nat)
    requires HexValue(c).Some?
    ensures HexDecode(Repeated(c, n)) == Some(seq(n, _ => (17 * HexValue(c).value) as byte))
  {
    if n == 0 {
      assert seq(n, _ => (17 * HexValue(c).value) as byte) == [];
    } else {
      DecodeRepeated(c, n - 1);
      assert Repeated(c, n)[2..] == Repeated(c, n - 1);
      var b := (17 * HexValue(c).value) as byte;
      assert seq(n, _ => b) == [b] + seq(n - 1, _ => b);
    }
  }

  // An entry whose id is one hexadecimal digit throughout.
  function Plain(c: char, blob: Bytes): Entry {
    Entry(Repeated(c, 32), blob)
  }

  lemma PlainIds(x: Bytes, y: Bytes)
    ensures IdBytes(Plain('a', x)).Some? && IdBytes(Plain('b', y)).Some?
    ensures IdBytes(Plain('a', x)) != IdBytes(Plain('b', y)) == IdBytes(Plain('B', y))
    ensures LexLe(Plain('a', x).id, Plain('b', y).id) && !LexLe(Plain('a', x).id, Plain('B', y).id)
  {
    DecodeRepeated('a', 32);
    DecodeRepeated('b', 32);
    DecodeRepeated('B', 32);
    assert IdBytes(Plain('a', x)).value[0] == 170 && IdBytes(Plain('b', y)).value[0] == 187;
  }

  // Upper case sorts before lower case: writing one of two ids in capitals turns the leaves around, and
  // the root of the same contents changes, or inputs collide.
  lemma LetterCaseMatters(h: Hash, x: Bytes, y: Bytes)
    ensures var lower, mixed := [Plain('a', x), Plain('b', y)], [Plain('a', x), Plain('B', y)];
      && SameContents(lower, mixed) && WellFormed(SortById(lower)) && WellFormed(SortById(mixed))
      && (|| Root(h, lower) != Root(h, mixed)
          || Collides(h, Hashed(h, SortById(lower)), Hashed(h, SortById(mixed))))
  {
    hide Root, Hashed, SortById, IdBytes, LexLe;
    var lower, mixed := [Plain('a', x), Plain('b', y)], [Plain('a', x), Plain('B', y)];
    PlainIds(x, y);
    assert LexLe(lower[0].id, lower[1].id) && !LexLe(mixed[0].id, mixed[1].id);
    OrderOfTextsDecidesRoot(h, lower, mixed);
  }

  lemma SortPair(x: Entry, y: Entry)
    ensures SortById([x, y]) == if LexLe(x.id, y.id) then [x, y] else [y, x]
  {
    assert [x, y][1..] == [y] && [y][1..] == [];
    assert SortById([y]) == Insert(y, []) == [y];
    assert SortById([x, y]) == Insert(x, [y]);
    assert Insert(x, []) == [x];
  }
}
