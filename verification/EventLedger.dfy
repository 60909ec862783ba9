/**
 The append-only ledger of reality events: each entry hashes its predecessor's hash, its event and its
 drift report.
 */
module EventLedger {
  import opened Machine
  import opened Wrappers
  import opened Text
  import opened Hashing

  // The two fields `append` reads, and the rest.
  datatype RealityEvent<B> = RealityEvent(postStateHash: string, timestamp: u64, body: B)

  datatype CommitReceipt = CommitReceipt(committedAt: u64, committedBy: string, merkleRoot: string)

  datatype Entry<B, D> =
    Entry(event: RealityEvent<B>, drift: Option<D>, receipt: CommitReceipt, prevHash: string, entryHash: string)

  datatype LedgerError = InvalidHash

  // SHA-256 of a text, and the JSON texts of an event and of an optional drift report.
  datatype Codec<!B, !D> = Codec(sha: string -> Digest, event: RealityEvent<B> -> string, drift: Option<D> -> string)

  // An event is written as a JSON object: it opens with a brace, and no object text is a proper prefix
  // of another. Drift reports have distinct texts.
  ghost predicate Faithful<B(!new), D(!new)>(c: Codec<B, D>) {
    && (forall e :: c.event(e) != "" && c.event(e)[0] == '{')
    && (forall e, f, x, y :: c.event(e) + x == c.event(f) + y ==> e == f)
    && (forall d, f :: c.drift(d) == c.drift(f) ==> d == f)
  }

  const TAG: string := "sha256:"

  function Tagged(d: Digest): string {
    TAG + HexEncode(d)
  }

  function EntryData<B, D>(c: Codec<B, D>, prev: string, event: RealityEvent<B>, drift: Option<D>): string {
    prev + c.event(event) + c.drift(drift)
  }

  function JoinHashes<B, D>(entries: seq<Entry<B, D>>): string {
    if entries == [] then ""
    else if |entries| == 1 then entries[0].entryHash
    else JoinHashes(entries[..|entries| - 1]) + "," + entries[|entries| - 1].entryHash
  }

  function NextEntry<B, D>(c: Codec<B, D>, entries: seq<Entry<B, D>>, tip: string, event: RealityEvent<B>,
                           drift: Option<D>): Entry<B, D>
  {
    Entry(event, drift,
          CommitReceipt(event.timestamp, "zangbeto-coordinator", Tagged(c.sha(JoinHashes(entries)))),
          tip,
          Tagged(c.sha(EntryData(c, tip, event, drift))))
  }

  // ---------- append-built chains ----------

  type Item<B, D> = (RealityEvent<B>, Option<D>)

  datatype Chain<B, D> = Chain(entries: seq<Entry<B, D>>, tip: string)

  // What appending the items one by one to a new ledger leads to.
  function Build<B, D>(c: Codec<B, D>, genesis: string, items: seq<Item<B, D>>): (r: Chain<B, D>)
    ensures |r.entries| == |items|
  {
    if items == [] then Chain([], genesis)
    else
      var n := |items| - 1;
      var before := Build(c, genesis, items[..n]);
      var entry := NextEntry(c, before.entries, before.tip, items[n].0, items[n].1);
      Chain(before.entries + [entry], entry.entryHash)
  }

  class EventLedger<B, D> {
    const codec: Codec<B, D>
    const genesisHash: string
    var events: seq<Entry<B, D>>
    var currentTip: string
    ghost var items: seq<Item<B, D>>

    ghost predicate Valid()
      reads this
    {
      Chain(events, currentTip) == Build(codec, genesisHash, items)
    }

    constructor (codec: Codec<B, D>, genesisStateHash: string)
      ensures Valid() && items == [] && genesisHash == genesisStateHash && this.codec == codec
    {
      this.codec, genesisHash := codec, genesisStateHash;
      events, currentTip, items := [], genesisStateHash, [];
    }

    method Append(event: RealityEvent<B>, drift: Option<D>) returns (r: Result<Entry<B, D>, LedgerError>)
      requires Valid()
      modifies this
      ensures Valid()
      ensures r.Ok? <==> "sha256:" <= event.postStateHash
      ensures r.Err? ==> r == Err(InvalidHash)
      // The entry and the tip, spelled out.
      ensures r.Ok? ==>
        && r.value.event == event && r.value.drift == drift && r.value.prevHash == old(currentTip)
        && r.value.entryHash == currentTip
        && currentTip == "sha256:" + HexEncode(codec.sha(old(currentTip) + codec.event(event) + codec.drift(drift)))
        && r.value.receipt.committedAt == event.timestamp && r.value.receipt.committedBy == "zangbeto-coordinator"
        && r.value.receipt.merkleRoot == "sha256:" + HexEncode(codec.sha(JoinHashes(old(events))))
      ensures r.Ok? ==> items == old(items) + [(event, drift)] && events == old(events) + [r.value]
      ensures r.Err? ==> unchanged(this)
    {
      if !(TAG <= event.postStateHash) {
        return Err(InvalidHash);
      }
      var prevHash := currentTip;
      var entryHash := Tagged(codec.sha(EntryData(codec, prevHash, event, drift)));
      var receipt := CommitReceipt(event.timestamp, "zangbeto-coordinator", Tagged(codec.sha(JoinHashes(events))));
      var entry := Entry(event, drift, receipt, prevHash, entryHash);
      events := events + [entry];
      currentTip := entryHash;
      items := items + [(event, drift)];
      assert items[..|items| - 1] == old(items);
      r := Ok(entry);
    }

    method VerifyChain() returns (ok: bool)
      ensures ok <==> Linked(events, genesisHash, currentTip)
    {
      var prevHash := genesisHash;
      for i := 0 to |events|
        invariant prevHash == TipOf(events[..i], genesisHash)
        invariant forall j :: 0 <= j < i ==> events[j].prevHash == TipOf(events[..j], genesisHash)
      {
        if events[i].prevHash != prevHash {
          return false;
        }
        prevHash := events[i].entryHash;
      }
      assert events[..|events|] == events;
      ok := prevHash == currentTip;
    }
  }

  // ---------- what a commit receipt commits to ----------

  // The joined text of two parts is their joined texts with a comma between.
  lemma {:induction false} JoinSplits<B, D>(s: seq<Entry<B, D>>, t: seq<Entry<B, D>>)
    requires s != [] && t != []
    ensures JoinHashes(s + t) == JoinHashes(s) + "," + JoinHashes(t)
  {
    var n := |t| - 1;
    var front := s + t[..n];
    assert (s + t)[..|s + t| - 1] == front && (s + t)[|s + t| - 1] == t[n];
    if n == 0 {
      assert front == s;
    } else {
      JoinSplits(s, t[..n]);
      assert JoinHashes(s) + "," + JoinHashes(t[..n]) + "," + t[n].entryHash
          == JoinHashes(s) + "," + (JoinHashes(t[..n]) + "," + t[n].entryHash);
    }
  }

  // An entry hash is the tag and 64 hexadecimal digits.
  const HASH_LENGTH: nat := 71

  ghost predicate HashesHaveLength<B, D>(s: seq<Entry<B, D>>) {
    forall i :: 0 <= i < |s| ==> |s[i].entryHash| == HASH_LENGTH
  }

  lemma {:induction false} JoinLength<B, D>(s: seq<Entry<B, D>>)
    requires HashesHaveLength(s)
    ensures |JoinHashes(s)| == if s == [] then 0 else |s| * (HASH_LENGTH + 1) - 1
  {
    if |s| > 1 {
      JoinLength(s[..|s| - 1]);
    }
  }

  ghost predicate SameEntryHashes<B, D>(s: seq<Entry<B, D>>, t: seq<Entry<B, D>>) {
    |s| == |t| && forall i :: 0 <= i < |s| ==> s[i].entryHash == t[i].entryHash
  }

  lemma {:induction false} JoinInjective<B, D>(s: seq<Entry<B, D>>, t: seq<Entry<B, D>>)
    requires HashesHaveLength(s) && HashesHaveLength(t) && JoinHashes(s) == JoinHashes(t)
    ensures SameEntryHashes(s, t)
  {
    JoinLength(s);
    JoinLength(t);
    if |s| > 1 {
      var n := |s| - 1;
      var x, y := JoinHashes(s[..n]), JoinHashes(t[..n]);
      JoinLength(s[..n]);
      JoinLength(t[..n]);
      assert JoinHashes(s)[..|x|] == x && JoinHashes(t)[..|y|] == y;
      assert JoinHashes(s)[|x| + 1..] == s[n].entryHash && JoinHashes(t)[|y| + 1..] == t[n].entryHash;
      JoinInjective(s[..n], t[..n]);
      forall i | 0 <= i < |s| ensures s[i].entryHash == t[i].entryHash {
        if i < n {
          assert s[..n][i].entryHash == t[..n][i].entryHash;
        }
      }
    }
  }

  lemma BuiltHashLengths<B, D>(c: Codec<B, D>, genesis: string, items: seq<Item<B, D>>, k: nat)
    requires k < |items|
    ensures |Build(c, genesis, items).entries[k].entryHash| == HASH_LENGTH
    ensures Build(c, genesis, items).entries[k].receipt.merkleRoot
         == Tagged(c.sha(JoinHashes(Build(c, genesis, items).entries[..k])))
    ensures Build(c, genesis, items).entries[k].receipt.committedAt == items[k].0.timestamp
  {
    hide JoinHashes, HexEncode;
    BuildPrefix(c, genesis, items, k);
    BuildPrefix(c, genesis, items, k + 1);
    BuildStep(c, genesis, items[..k + 1]);
    assert items[..k + 1][..k] == items[..k];
    var before := Build(c, genesis, items[..k]);
    var d := c.sha(EntryData(c, before.tip, items[k].0, items[k].1));
    HexShape(d);
    assert Build(c, genesis, items).entries[..k + 1][k] == Build(c, genesis, items).entries[k];
  }

  // Two receipts of append-built ledgers, of one ledger or of two, with one Merkle root were issued after
  // the same entry hashes in the same order, or the texts joined for them collide.
  lemma ReceiptCommits<B, D>(c: Codec<B, D>, g: string, a: seq<Item<B, D>>, i: nat,
                             h: string, b: seq<Item<B, D>>, k: nat)
    requires i < |a| && k < |b|
    requires Build(c, g, a).entries[i].receipt.merkleRoot == Build(c, h, b).entries[k].receipt.merkleRoot
    ensures var s, t := Build(c, g, a).entries[..i], Build(c, h, b).entries[..k];
      SameEntryHashes(s, t) || (JoinHashes(s) != JoinHashes(t) && c.sha(JoinHashes(s)) == c.sha(JoinHashes(t)))
  {
    hide Build, JoinHashes, Tagged;
    var s, t := Build(c, g, a).entries[..i], Build(c, h, b).entries[..k];
    BuiltHashLengths(c, g, a, i);
    BuiltHashLengths(c, h, b, k);
    TaggedInjective(c.sha(JoinHashes(s)), c.sha(JoinHashes(t)));
    forall n | 0 <= n < |s| ensures |s[n].entryHash| == HASH_LENGTH {
      BuiltHashLengths(c, g, a, n);
    }
    forall n | 0 <= n < |t| ensures |t[n].entryHash| == HASH_LENGTH {
      BuiltHashLengths(c, h, b, n);
    }
    if JoinHashes(s) == JoinHashes(t) {
      JoinInjective(s, t);
    }
  }

  // ---------- what the chain check sees ----------

  function TipOf<B, D>(entries: seq<Entry<B, D>>, genesis: string): string {
    if entries == [] then genesis else entries[|entries| - 1].entryHash
  }

  ghost predicate Linked<B, D>(entries: seq<Entry<B, D>>, genesis: string, tip: string) {
    && tip == TipOf(entries, genesis)
    && forall i :: 0 <= i < |entries| ==> entries[i].prevHash == TipOf(entries[..i], genesis)
  }

  lemma BuildStep<B, D>(c: Codec<B, D>, genesis: string, items: seq<Item<B, D>>)
    requires items != []
    ensures var n := |items| - 1;
      var before, built := Build(c, genesis, items[..n]), Build(c, genesis, items);
      && built.entries == before.entries + [NextEntry(c, before.entries, before.tip, items[n].0, items[n].1)]
      && built.entries[..n] == before.entries
      && built.tip == built.entries[n].entryHash
  {
  }

  lemma {:induction false} BuildPrefix<B, D>(c: Codec<B, D>, genesis: string, items: seq<Item<B, D>>, k: nat)
    requires k <= |items|
    ensures Build(c, genesis, items).entries[..k] == Build(c, genesis, items[..k]).entries
  {
    hide *;
    if k < |items| {
      var n := |items| - 1;
      BuildStep(c, genesis, items);
      BuildPrefix(c, genesis, items[..n], k);
      TakeTwice(items, n, k);
      TakeTwice(Build(c, genesis, items).entries, n, k);
    } else {
      assert items[..k] == items;
    }
  }

  lemma TakeTwice<T>(s: seq<T>, n: nat, k: nat)
    requires k <= n <= |s|
    ensures s[..n][..k] == s[..k]
  {
  }

  lemma LinkedSplits<B, D>(entries: seq<Entry<B, D>>, genesis: string, tip: string)
    requires entries != []
    ensures var n := |entries| - 1;
      Linked(entries, genesis, tip) <==>
        Linked(entries[..n], genesis, TipOf(entries[..n], genesis))
          && entries[n].prevHash == TipOf(entries[..n], genesis)
        && tip == entries[n].entryHash
  {
    var n := |entries| - 1;
    assert forall i :: 0 <= i <= n ==> entries[..n][..i] == entries[..i];
  }

  lemma {:induction false} BuiltIsLinked<B, D>(c: Codec<B, D>, genesis: string, items: seq<Item<B, D>>)
    ensures Linked(Build(c, genesis, items).entries, genesis, Build(c, genesis, items).tip)
  {
    if items != [] {
      var n := |items| - 1;
      BuildStep(c, genesis, items);
      BuiltIsLinked(c, genesis, items[..n]);
      LinkedSplits(Build(c, genesis, items).entries, genesis, Build(c, genesis, items).tip);
    }
  }

  // Every append-built ledger, and every prefix of it with the tip it had then, passes the chain check.
  lemma EveryPrefixIsLinked<B, D>(c: Codec<B, D>, genesis: string, items: seq<Item<B, D>>, k: nat)
    requires k <= |items|
    ensures Linked(Build(c, genesis, items).entries[..k], genesis, Build(c, genesis, items[..k]).tip)
  {
    BuildPrefix(c, genesis, items, k);
    BuiltIsLinked(c, genesis, items[..k]);
  }

  ghost predicate Recomputes<B, D>(c: Codec<B, D>, entries: seq<Entry<B, D>>) {
    forall i :: 0 <= i < |entries| ==>
      entries[i].entryHash == Tagged(c.sha(EntryData(c, entries[i].prevHash, entries[i].event, entries[i].drift)))
  }

  function Items<B, D>(entries: seq<Entry<B, D>>): (items: seq<Item<B, D>>)
    ensures |items| == |entries|
    ensures forall i :: 0 <= i < |items| ==> items[i] == (entries[i].event, entries[i].drift)
  {
    if entries == [] then []
    else
      var last := entries[|entries| - 1];
      Items(entries[..|entries| - 1]) + [(last.event, last.drift)]
  }

  ghost predicate SameHashes<B, D>(s: seq<Entry<B, D>>, t: seq<Entry<B, D>>) {
    |s| == |t| && forall i :: 0 <= i < |s| ==> s[i].prevHash == t[i].prevHash && s[i].entryHash == t[i].entryHash
  }

  // The chain check compares hash fields only: whatever events, reports and receipts are swapped in, it
  // answers the same.
  lemma ChainCheckIgnoresContents<B, D>(s: seq<Entry<B, D>>, t: seq<Entry<B, D>>, genesis: string, tip: string)
    requires SameHashes(s, t)
    ensures Linked(s, genesis, tip) <==> Linked(t, genesis, tip)
  {
    assert forall i :: 0 <= i <= |s| ==> TipOf(s[..i], genesis) == TipOf(t[..i], genesis);
    assert s[..|s|] == s && t[..|t|] == t;
  }

  // What is missing for a full check is recomputing the entry hashes: together they accept exactly the
  // hashes and the tip that appending the recorded events produces.
  lemma {:induction false} LinkedAndRecomputedIffBuilt<B, D>(c: Codec<B, D>, entries: seq<Entry<B, D>>, genesis: string,
                                                             tip: string)
    ensures Linked(entries, genesis, tip) && Recomputes(c, entries)
       <==> && SameHashes(entries, Build(c, genesis, Items(entries)).entries)
            && tip == Build(c, genesis, Items(entries)).tip
  {
    if entries != [] {
      var n := |entries| - 1;
      var front := entries[..n];
      LinkedAndRecomputedIffBuilt(c, front, genesis, TipOf(front, genesis));
      assert Items(entries)[..n] == Items(front);
      BuildStep(c, genesis, Items(entries));
      BuiltIsLinked(c, genesis, Items(front));
      LinkedSplits(entries, genesis, tip);
      hide Build, Linked, Items;
      var before, built := Build(c, genesis, Items(front)), Build(c, genesis, Items(entries));
      SameHashesSplit(entries, built.entries);
      RecomputesSplit(c, entries);
      SameHashesSameTip(front, before.entries, genesis);
      LinkedTip(before.entries, genesis, before.tip);
    }
  }

  lemma LinkedTip<B, D>(entries: seq<Entry<B, D>>, genesis: string, tip: string)
    requires Linked(entries, genesis, tip)
    ensures tip == TipOf(entries, genesis)
  {
  }

  lemma SameHashesSplit<B, D>(s: seq<Entry<B, D>>, t: seq<Entry<B, D>>)
    requires |s| == |t| > 0
    ensures var n := |s| - 1; SameHashes(s, t) <==>
      SameHashes(s[..n], t[..n]) && s[n].prevHash == t[n].prevHash && s[n].entryHash == t[n].entryHash
  {
  }

  lemma SameHashesSameTip<B, D>(s: seq<Entry<B, D>>, t: seq<Entry<B, D>>, genesis: string)
    requires |s| == |t|
    ensures SameHashes(s, t) ==> TipOf(s, genesis) == TipOf(t, genesis)
  {
  }

  lemma RecomputesSplit<B, D>(c: Codec<B, D>, s: seq<Entry<B, D>>)
    requires s != []
    ensures var n := |s| - 1; Recomputes(c, s) <==>
      Recomputes(c, s[..n]) && s[n].entryHash == Tagged(c.sha(EntryData(c, s[n].prevHash, s[n].event, s[n].drift)))
  {
  }

  // ---------- the tip commits to the history ----------

  // Everything hashed into an entry of the chain.
  ghost function Inputs<B, D>(c: Codec<B, D>, genesis: string, items: seq<Item<B, D>>): set<string> {
    if items == [] then {}
    else
      var n := |items| - 1;
      Inputs(c, genesis, items[..n]) + {EntryData(c, Build(c, genesis, items[..n]).tip, items[n].0, items[n].1)}
  }

  // `t` is `s`, or `s` followed by something that opens like an object.
  predicate Continues(s: string, t: string) {
    s <= t && (s == t || t[|s|] == '{')
  }

  // Some entry of the chain has the genesis hash as its own hash, or the beginning of it up to a brace.
  ghost predicate Recurs<B, D>(c: Codec<B, D>, genesis: string, items: seq<Item<B, D>>) {
    exists k :: 0 < k <= |items| && Continues(Build(c, genesis, items[..k]).tip, genesis)
  }

  lemma TipHasNoBrace<B, D>(c: Codec<B, D>, genesis: string, items: seq<Item<B, D>>)
    requires items != []
    ensures '{' !in Build(c, genesis, items).tip
  {
    var n := |items| - 1;
    var d := c.sha(EntryData(c, Build(c, genesis, items[..n]).tip, items[n].0, items[n].1));
    HexShape(d);
    assert Build(c, genesis, items).tip == Tagged(d);
  }

  lemma TaggedInjective(d: Digest, e: Digest)
    requires Tagged(d) == Tagged(e)
    ensures d == e
  {
    assert HexEncode(d) == Tagged(d)[|TAG|..] && HexEncode(e) == Tagged(e)[|TAG|..];
    HexInjective(d, e);
  }

  // The place of the object's brace separates the previous hash from the event, unless one previous hash
  // continues the other.
  lemma SplitAtBrace(p: string, x: string, q: string, y: string)
    requires x != "" && y != "" && x[0] == '{' == y[0]
    requires p + x == q + y && |p| <= |q|
    ensures Continues(p, q)
    ensures p == q ==> x == y
  {
    assert p == (p + x)[..|p|] && q == (q + y)[..|q|] && (p + x)[|p|] == '{';
    assert x == (p + x)[|p|..] && y == (q + y)[|q|..];
  }

  lemma EntryDataInjective<B(!new), D(!new)>(c: Codec<B, D>, p: string, e: RealityEvent<B>, d: Option<D>,
                                             q: string, f: RealityEvent<B>, g: Option<D>)
    requires Faithful(c) && EntryData(c, p, e, d) == EntryData(c, q, f, g)
    ensures if p == q then e == f && d == g else Continues(p, q) || Continues(q, p)
  {
    var x, y := c.event(e) + c.drift(d), c.event(f) + c.drift(g);
    assert p + c.event(e) + c.drift(d) == p + x && q + c.event(f) + c.drift(g) == q + y;
    if |p| <= |q| {
      SplitAtBrace(p, x, q, y);
    } else {
      SplitAtBrace(q, y, p, x);
    }
    if p == q {
      assert c.drift(d) == x[|c.event(e)|..] && c.drift(g) == y[|c.event(f)|..];
    }
  }

  // Only the genesis can continue a tip, and then that tip's entry makes it recur.
  lemma PreviousContinues<B, D>(c: Codec<B, D>, genesis: string, a: seq<Item<B, D>>, b: seq<Item<B, D>>)
    requires var p, q := Build(c, genesis, a).tip, Build(c, genesis, b).tip; p != q && Continues(p, q)
    ensures a != [] && b == [] && Recurs(c, genesis, a)
  {
    var p, q := Build(c, genesis, a).tip, Build(c, genesis, b).tip;
    assert q[|p|] in q;
    if b != [] {
      TipHasNoBrace(c, genesis, b);
    }
    assert a[..|a|] == a;
  }

  // Two hashed inputs collide, or an entry hashes to the genesis hash or to the part of it before some brace.
  ghost predicate Exposed<B, D>(c: Codec<B, D>, genesis: string, a: seq<Item<B, D>>, b: seq<Item<B, D>>) {
    || Collides(c.sha, Inputs(c, genesis, a), Inputs(c, genesis, b))
    || Recurs(c, genesis, a) || Recurs(c, genesis, b)
  }

  // Two append-built ledgers with one genesis and one tip hold the same events and reports in the same
  // order, or are exposed.
  lemma {:induction false} TipCommitsToHistory<B(!new), D(!new)>(c: Codec<B, D>, genesis: string,
                                                                 a: seq<Item<B, D>>, b: seq<Item<B, D>>)
    requires Faithful(c)
    requires Build(c, genesis, a).tip == Build(c, genesis, b).tip
    ensures a == b || Exposed(c, genesis, a, b)
    decreases |a|
  {
    hide *;
    if a == [] || b == [] {
      OneIsEmpty(c, genesis, a, b);
    } else {
      LastItem(c, genesis, a, b);
      var front, before := a[..|a| - 1], b[..|b| - 1];
      if !Exposed(c, genesis, a, b) {
        TipCommitsToHistory(c, genesis, front, before);
        ExposedLater(c, genesis, a, b);
        SameFrontAndLast(a, b);
      }
    }
  }

  lemma SameFrontAndLast<T>(a: seq<T>, b: seq<T>)
    requires a != [] && b != [] && a[..|a| - 1] == b[..|b| - 1] && a[|a| - 1] == b[|b| - 1]
    ensures a == b
  {
    assert a == a[..|a| - 1] + [a[|a| - 1]] && b == b[..|b| - 1] + [b[|b| - 1]];
  }

  lemma OneIsEmpty<B, D>(c: Codec<B, D>, genesis: string, a: seq<Item<B, D>>, b: seq<Item<B, D>>)
    requires a == [] || b == []
    requires Build(c, genesis, a).tip == Build(c, genesis, b).tip
    ensures a == b || Exposed(c, genesis, a, b)
  {
    if a != [] {
      TipAtGenesisRecurs(c, genesis, a);
    } else if b != [] {
      TipAtGenesisRecurs(c, genesis, b);
    }
  }

  // One tip means the same last item on top of one previous tip.
  lemma LastItem<B(!new), D(!new)>(c: Codec<B, D>, genesis: string, a: seq<Item<B, D>>, b: seq<Item<B, D>>)
    requires Faithful(c) && a != [] && b != []
    requires Build(c, genesis, a).tip == Build(c, genesis, b).tip
    ensures var n, m := |a| - 1, |b| - 1;
      || Exposed(c, genesis, a, b)
      || (a[n] == b[m] && Build(c, genesis, a[..n]).tip == Build(c, genesis, b[..m]).tip)
  {
    hide Faithful, EntryData, Inputs, Tagged, Continues, Build, Recurs;
    var n, m := |a| - 1, |b| - 1;
    var p, q := Build(c, genesis, a[..n]).tip, Build(c, genesis, b[..m]).tip;
    var x, y := EntryData(c, p, a[n].0, a[n].1), EntryData(c, q, b[m].0, b[m].1);
    BuildStep(c, genesis, a);
    BuildStep(c, genesis, b);
    TaggedInjective(c.sha(x), c.sha(y));
    LiftDisjuncts(c, genesis, a);
    LiftDisjuncts(c, genesis, b);
    if x == y {
      EntryDataInjective(c, p, a[n].0, a[n].1, q, b[m].0, b[m].1);
      if p != q {
        if Continues(p, q) {
          PreviousContinues(c, genesis, a[..n], b[..m]);
        } else {
          PreviousContinues(c, genesis, b[..m], a[..n]);
        }
      }
    }
  }

  lemma ExposedLater<B, D>(c: Codec<B, D>, genesis: string, a: seq<Item<B, D>>, b: seq<Item<B, D>>)
    requires a != [] && b != []
    ensures Exposed(c, genesis, a[..|a| - 1], b[..|b| - 1]) ==> Exposed(c, genesis, a, b)
  {
    hide Inputs, Recurs, Collides, Build, EntryData;
    var front, before := a[..|a| - 1], b[..|b| - 1];
    LiftDisjuncts(c, genesis, a);
    LiftDisjuncts(c, genesis, b);
    if Collides(c.sha, Inputs(c, genesis, front), Inputs(c, genesis, before)) {
      CollidesMore(c.sha, Inputs(c, genesis, front), Inputs(c, genesis, before), Inputs(c, genesis, a),
        Inputs(c, genesis, b));
    }
  }

  lemma TipAtGenesisRecurs<B, D>(c: Codec<B, D>, genesis: string, a: seq<Item<B, D>>)
    requires a != [] && Build(c, genesis, a).tip == genesis
    ensures Recurs(c, genesis, a)
  {
    assert a[..|a|] == a;
  }

  lemma LiftDisjuncts<B, D>(c: Codec<B, D>, genesis: string, a: seq<Item<B, D>>)
    requires a != []
    ensures Inputs(c, genesis, a[..|a| - 1]) <= Inputs(c, genesis, a)
    ensures EntryData(c, Build(c, genesis, a[..|a| - 1]).tip, a[|a| - 1].0, a[|a| - 1].1) in Inputs(c, genesis, a)
    ensures Recurs(c, genesis, a[..|a| - 1]) ==> Recurs(c, genesis, a)
  {
    var front := a[..|a| - 1];
    if k :| 0 < k <= |front| && Continues(Build(c, genesis, front[..k]).tip, genesis) {
      assert front[..k] == a[..k];
    }
  }
}
