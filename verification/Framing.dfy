/**
 The request framing of the enforcement bridge: two read loops that grow one buffer until the header
 block and then the declared body are in it. A connection is the sequence of its chunks; a read of zero
 bytes is the end of that sequence.
 */
module Framing {
  import opened Machine
  import opened Wrappers
  import opened Text
  import opened HeaderField

  type Bytes = seq<byte>

  const MAX_REQUEST_BYTES: nat := 64 * 1024
  const READ_SIZE: nat := 4096

  // "\r\n\r\n"
  const BLANK_LINE: Bytes := [13, 10, 13, 10]

  // ---------- searching the header end ----------

  // The position of the first occurrence.
  function FindSubslice(haystack: Bytes, needle: Bytes): Option<nat> {
    if |haystack| < |needle| then None
    else if haystack[..|needle|] == needle then Some(0)
    else if haystack == [] then None
    else
      match FindSubslice(haystack[1..], needle)
      case Some(p) => Some(p + 1)
      case None => None
  }

  predicate OccursAt(haystack: Bytes, needle: Bytes, i: nat) {
    i + |needle| <= |haystack| && haystack[i..i + |needle|] == needle
  }

  lemma {:induction false} FoundIsFirst(haystack: Bytes, needle: Bytes)
    ensures match FindSubslice(haystack, needle)
      case Some(p) => OccursAt(haystack, needle, p) && forall i: nat :: i < p ==> !OccursAt(haystack, needle, i)
      case None => forall i: nat :: !OccursAt(haystack, needle, i)
  {
    if |needle| <= |haystack| && haystack[..|needle|] != needle && haystack != [] {
      FoundIsFirst(haystack[1..], needle);
      forall i: nat ensures OccursAt(haystack, needle, i) <==> i > 0 && OccursAt(haystack[1..], needle, i - 1) {
        OccursShift(haystack, needle, i);
      }
    }
  }

  lemma OccursShift(haystack: Bytes, needle: Bytes, i: nat)
    requires haystack != []
    ensures i > 0 ==> (OccursAt(haystack, needle, i) <==> OccursAt(haystack[1..], needle, i - 1))
  {
    if i > 0 && i + |needle| <= |haystack| {
      var tail, m := haystack[1..], i + |needle|;
      assert forall k :: 0 <= k < |needle| ==>
        haystack[i..m][k] == haystack[i + k] == tail[i - 1 + k] == tail[i - 1..m - 1][k];
      assert haystack[i..m] == tail[i - 1..m - 1];
    }
  }

  function HeaderEnd(buf: Bytes): Option<nat> {
    match FindSubslice(buf, BLANK_LINE)
    case Some(p) => Some(p + 4)
    case None => None
  }

  // A prefix of the stream contains the header end exactly when it is long enough, and then the same one.
  lemma HeaderEndOfPrefix(stream: Bytes, n: nat)
    requires n <= |stream|
    ensures HeaderEnd(stream[..n]) == match HeaderEnd(stream)
      case Some(e) => if e <= n then Some(e) else None
      case None => None
    ensures HeaderEnd(stream).Some? ==> 4 <= HeaderEnd(stream).value <= |stream|
  {
    FoundIsFirst(stream, BLANK_LINE);
    FoundIsFirst(stream[..n], BLANK_LINE);
    forall i: nat ensures OccursAt(stream[..n], BLANK_LINE, i) <==> i + 4 <= n && OccursAt(stream, BLANK_LINE, i) {
      if i + 4 <= n {
        assert stream[..n][i..i + 4] == stream[i..i + 4];
      }
    }
    assert FindSubslice(stream, BLANK_LINE).Some? ==>
      OccursAt(stream, BLANK_LINE, FindSubslice(stream, BLANK_LINE).value);
    assert FindSubslice(stream[..n], BLANK_LINE).Some? ==>
      OccursAt(stream[..n], BLANK_LINE, FindSubslice(stream[..n], BLANK_LINE).value);
  }

  // ---------- reads ----------

  function Flatten(chunks: seq<Bytes>): Bytes {
    if chunks == [] then [] else Flatten(chunks[..|chunks| - 1]) + chunks[|chunks| - 1]
  }

  // A way the network may cut the stream into reads.
  ghost predicate Cuts(chunks: seq<Bytes>, stream: Bytes) {
    Flatten(chunks) == stream && forall i :: 0 <= i < |chunks| ==> 0 < |chunks[i]| <= READ_SIZE
  }

  lemma {:induction false} FlattenPrefix(chunks: seq<Bytes>, i: nat, j: nat)
    requires i <= j <= |chunks|
    ensures Flatten(chunks[..i]) <= Flatten(chunks[..j])
    decreases j
  {
    if i < j {
      assert chunks[..j][..j - 1] == chunks[..j - 1];
      FlattenPrefix(chunks, i, j - 1);
    }
  }

  lemma NothingRead(chunks: seq<Bytes>)
    ensures Flatten(chunks[..0]) == []
  {
  }

  lemma FlattenStep(chunks: seq<Bytes>, i: nat)
    requires i < |chunks|
    ensures Flatten(chunks[..i + 1]) == Flatten(chunks[..i]) + chunks[i]
  {
    assert chunks[..i + 1][..i] == chunks[..i];
  }

  lemma {:induction false} FlattenConcat(a: seq<Bytes>, b: seq<Bytes>)
    ensures Flatten(a + b) == Flatten(a) + Flatten(b)
  {
    if b == [] {
      assert a + b == a;
    } else {
      assert (a + b)[..|a + b| - 1] == a + b[..|b| - 1];
      FlattenConcat(a, b[..|b| - 1]);
    }
  }

  // ---------- the connection handler ----------

  datatype Outcome = Closed | TooLarge | Panicked | Routed(head: Bytes, body: Bytes)

  // How many reads have been made when the first loop stops.
  function HeadStop(chunks: seq<Bytes>, i: nat): (j: nat)
    requires i <= |chunks|
    ensures i <= j <= |chunks|
    decreases |chunks| - i
  {
    var buf := Flatten(chunks[..i]);
    if HeaderEnd(buf).Some? || |buf| > MAX_REQUEST_BYTES || i == |chunks| then i else HeadStop(chunks, i + 1)
  }

  // And when the second loop stops.
  function BodyStop(chunks: seq<Bytes>, i: nat, want: nat): (j: nat)
    requires i <= |chunks|
    ensures i <= j <= |chunks|
    decreases |chunks| - i
  {
    var buf := Flatten(chunks[..i]);
    if |buf| >= want || |buf| > MAX_REQUEST_BYTES || i == |chunks| then i else BodyStop(chunks, i + 1, want)
  }

  function Min(a: nat, b: nat): nat {
    if a < b then a else b
  }

  // `header_end + content_length` on a 64-bit usize. Where it wraps, the body slice ends before it starts.
  function Served(length: Bytes -> u64, chunks: seq<Bytes>): Outcome {
    var j := HeadStop(chunks, 0);
    var buf := Flatten(chunks[..j]);
    match HeaderEnd(buf)
    case None => if |buf| > MAX_REQUEST_BYTES then TooLarge else Closed
    case Some(e) =>
      HeaderEndOfPrefix(buf, |buf|);
      var want := (e + length(buf[..e])) % TWO64;
      var k := BodyStop(chunks, j, want);
      var all := Flatten(chunks[..k]);
      if want < e || |all| < e then Panicked else Routed(buf[..e], all[e..Min(want, |all|)])
  }

  method HandleConn(length: Bytes -> u64, chunks: seq<Bytes>) returns (outcome: Outcome, buf: Bytes)
    requires forall i :: 0 <= i < |chunks| ==> 0 < |chunks[i]| <= READ_SIZE
    ensures outcome == Served(length, chunks)
    ensures |buf| <= 64 * 1024 + 4096
  {
    hide HeaderEnd, FindSubslice, Flatten;
    buf := [];
    var i := 0;
    assert Flatten(chunks[..0]) == [] by { NothingRead(chunks); }
    while HeaderEnd(buf).None?
      invariant i <= |chunks| && buf == Flatten(chunks[..i]) && |buf| <= MAX_REQUEST_BYTES + READ_SIZE
      invariant HeadStop(chunks, 0) == HeadStop(chunks, i)
      decreases |chunks| - i
    {
      if |buf| > MAX_REQUEST_BYTES {
        return TooLarge, buf;
      }
      if i == |chunks| {
        return Closed, buf;
      }
      FlattenStep(chunks, i);
      buf := buf + chunks[i];
      i := i + 1;
    }
    var headerEnd := HeaderEnd(buf).value;
    assert buf[..|buf|] == buf;
    HeaderEndOfPrefix(buf, |buf|);
    var head := buf[..headerEnd];
    var want := (headerEnd + length(head)) % TWO64;
    ghost var j := i;
    while |buf| < want && |buf| <= MAX_REQUEST_BYTES
      invariant j <= i <= |chunks| && buf == Flatten(chunks[..i]) && |buf| <= MAX_REQUEST_BYTES + READ_SIZE
      invariant headerEnd <= |buf|
      invariant BodyStop(chunks, j, want) == BodyStop(chunks, i, want)
      decreases |chunks| - i
    {
      if i == |chunks| {
        break;
      }
      FlattenStep(chunks, i);
      buf := buf + chunks[i];
      i := i + 1;
    }
    if want < headerEnd {
      return Panicked, buf;
    }
    outcome := Routed(head, buf[headerEnd..Min(want, |buf|)]);
  }

  // ---------- independence of the cutting ----------

  // What comes out when the stream is looked at as a whole, not as it arrives: a panic where the end of the
  // body overflows, and otherwise the declared body or as much of it as there is.
  function ReadWhole(length: Bytes -> u64, stream: Bytes): Outcome {
    match HeaderEnd(stream)
    case None => if |stream| > MAX_REQUEST_BYTES then TooLarge else Closed
    case Some(e) =>
      HeaderEndOfPrefix(stream, |stream|);
      var want := e + length(stream[..e]);
      if want >= TWO64 then Panicked else Routed(stream[..e], stream[e..Min(want, |stream|)])
  }

  // How much of the stream that takes.
  function Extent(length: Bytes -> u64, stream: Bytes): nat {
    match HeaderEnd(stream)
    case None => 0
    case Some(e) =>
      HeaderEndOfPrefix(stream, |stream|);
      var want := e + length(stream[..e]);
      if want >= TWO64 then e else Min(want, |stream|)
  }

  // Both loops stop at the first read after which they may.
  lemma {:induction false} HeadStops(chunks: seq<Bytes>, i: nat)
    requires i <= |chunks|
    ensures var j := HeadStop(chunks, i); var buf := Flatten(chunks[..j]);
      HeaderEnd(buf).Some? || |buf| > MAX_REQUEST_BYTES || j == |chunks|
    ensures forall t :: i <= t <= |chunks| && |Flatten(chunks[..t])| > MAX_REQUEST_BYTES ==> HeadStop(chunks, i) <= t
    decreases |chunks| - i
  {
    var buf := Flatten(chunks[..i]);
    if !(HeaderEnd(buf).Some? || |buf| > MAX_REQUEST_BYTES || i == |chunks|) {
      HeadStops(chunks, i + 1);
    }
  }

  lemma {:induction false} BodyStops(chunks: seq<Bytes>, i: nat, want: nat)
    requires i <= |chunks|
    ensures var j := BodyStop(chunks, i, want); var buf := Flatten(chunks[..j]);
      |buf| >= want || |buf| > MAX_REQUEST_BYTES || j == |chunks|
    ensures forall t :: i <= t <= |chunks| && |Flatten(chunks[..t])| > MAX_REQUEST_BYTES ==>
      BodyStop(chunks, i, want) <= t
    decreases |chunks| - i
  {
    var buf := Flatten(chunks[..i]);
    if !(|buf| >= want || |buf| > MAX_REQUEST_BYTES || i == |chunks|) {
      BodyStops(chunks, i + 1, want);
    }
  }

  lemma PrefixOfStream(chunks: seq<Bytes>, i: nat)
    requires i <= |chunks|
    ensures Flatten(chunks[..i]) <= Flatten(chunks)
    ensures Flatten(chunks[..i]) == Flatten(chunks)[..|Flatten(chunks[..i])|]
  {
    FlattenPrefix(chunks, i, |chunks|);
    assert chunks[..|chunks|] == chunks;
  }

  lemma SmallRequestReadWhole(length: Bytes -> u64, stream: Bytes, chunks: seq<Bytes>)
    requires Cuts(chunks, stream) && Extent(length, stream) <= MAX_REQUEST_BYTES + 1
    ensures Served(length, chunks) == ReadWhole(length, stream)
  {
    hide FindSubslice, HeaderEnd, HeadStop, BodyStop, Flatten;
    var j := HeadStop(chunks, 0);
    var buf := Flatten(chunks[..j]);
    assert chunks[..|chunks|] == chunks;
    HeadStops(chunks, 0);
    PrefixOfStream(chunks, j);
    HeaderEndOfPrefix(stream, |buf|);
    if HeaderEnd(stream).Some? {
      var e := HeaderEnd(stream).value;
      assert HeaderEnd(buf) == Some(e);
      assert buf[..e] == stream[..e];
      BodyOfSmallRequest(stream, chunks, j, e, length(stream[..e]));
    } else {
      NoHeader(stream, chunks);
    }
  }

  lemma NoHeader(stream: Bytes, chunks: seq<Bytes>)
    requires Cuts(chunks, stream) && HeaderEnd(stream).None?
    ensures |Flatten(chunks[..HeadStop(chunks, 0)])| > MAX_REQUEST_BYTES <==> |stream| > MAX_REQUEST_BYTES
  {
    var j := HeadStop(chunks, 0);
    assert chunks[..|chunks|] == chunks;
    HeadStops(chunks, 0);
    PrefixOfStream(chunks, j);
    HeaderEndOfPrefix(stream, |Flatten(chunks[..j])|);
  }

  lemma BodyOfSmallRequest(stream: Bytes, chunks: seq<Bytes>, j: nat, e: nat, declared: u64)
    requires Cuts(chunks, stream) && j <= |chunks| && e <= |Flatten(chunks[..j])|
    requires e + declared < TWO64 ==> Min(e + declared, |stream|) <= MAX_REQUEST_BYTES + 1
    requires e < TWO64
    ensures var want := (e + declared) % TWO64; var all := Flatten(chunks[..BodyStop(chunks, j, want)]);
      && |all| >= e && e <= |stream|
      && (if e + declared >= TWO64 then want < e
          else want >= e && all[e..Min(want, |all|)] == stream[e..Min(e + declared, |stream|)])
  {
    hide Flatten, BodyStop;
    var want := (e + declared) % TWO64;
    var k := BodyStop(chunks, j, want);
    BodyStops(chunks, j, want);
    FlattenPrefix(chunks, j, k);
    PrefixOfStream(chunks, k);
    assert chunks[..|chunks|] == chunks;
  }

  // ---------- the exact limit ----------

  function Slice(s: Bytes): (chunks: seq<Bytes>)
    ensures forall i :: 0 <= i < |chunks| ==> 0 < |chunks[i]| <= READ_SIZE
    decreases |s|
  {
    if s == [] then [] else if |s| <= READ_SIZE then [s] else [s[..READ_SIZE]] + Slice(s[READ_SIZE..])
  }

  lemma {:induction false} SliceFlattens(s: Bytes)
    ensures Flatten(Slice(s)) == s
    decreases |s|
  {
    if |s| > READ_SIZE {
      SliceFlattens(s[READ_SIZE..]);
      FlattenConcat([s[..READ_SIZE]], Slice(s[READ_SIZE..]));
      assert Flatten([s[..READ_SIZE]]) == [] + s[..READ_SIZE] by { assert [s[..READ_SIZE]][..0] == []; }
    } else if s != [] {
      assert [s][..0] == [] && Flatten([s]) == [] + s;
    }
  }

  // Reads one of which ends exactly at byte `n`, and the next takes as much as it can.
  lemma CutAt(stream: Bytes, n: nat) returns (chunks: seq<Bytes>, t: nat)
    requires n < |stream|
    ensures Cuts(chunks, stream) && t < |chunks| && |Flatten(chunks[..t])| == n
    ensures |Flatten(chunks[..t + 1])| == Min(n + READ_SIZE, |stream|)
  {
    var a, b := Slice(stream[..n]), Slice(stream[n..]);
    SliceFlattens(stream[..n]);
    SliceFlattens(stream[n..]);
    FlattenConcat(a, b);
    chunks, t := a + b, |a|;
    assert chunks[..t] == a && stream[..n] + stream[n..] == stream && b != [];
    assert |b[0]| == Min(READ_SIZE, |stream| - n);
    FlattenStep(chunks, t);
  }

  // The body is cut short, or the head refused, when a read ends one byte past the limit.
  lemma CutPastLimit(length: Bytes -> u64, stream: Bytes, chunks: seq<Bytes>, t: nat)
    requires Cuts(chunks, stream) && t <= |chunks| && |Flatten(chunks[..t])| == MAX_REQUEST_BYTES + 1
    requires Extent(length, stream) > MAX_REQUEST_BYTES + 1
    ensures HeaderEnd(stream).Some?
    ensures match Served(length, chunks)
      case Routed(_, body) => HeaderEnd(stream).value + |body| <= MAX_REQUEST_BYTES + 1
      case TooLarge => HeaderEnd(stream).value > MAX_REQUEST_BYTES + 1
      case _ => false
  {
    hide FindSubslice, HeaderEnd, HeadStop, BodyStop, Flatten;
    assert HeaderEnd(stream).Some?;
    var j, e := HeadStop(chunks, 0), HeaderEnd(stream).value;
    var buf := Flatten(chunks[..j]);
    HeadStops(chunks, 0);
    FlattenPrefix(chunks, j, t);
    PrefixOfStream(chunks, j);
    HeaderEndOfPrefix(stream, |stream|);
    HeaderEndOfPrefix(stream, |buf|);
    assert chunks[..|chunks|] == chunks;
    if e <= |buf| {
      assert buf[..e] == stream[..e];
      var want := e + length(stream[..e]);
      assert want < TWO64 && want % TWO64 == want;
      BodyStops(chunks, j, want);
      FlattenPrefix(chunks, j, BodyStop(chunks, j, want));
      FlattenPrefix(chunks, BodyStop(chunks, j, want), t);
    }
  }

  lemma LargeRequestIsCut(length: Bytes -> u64, stream: Bytes)
    requires Extent(length, stream) > MAX_REQUEST_BYTES + 1
    ensures exists chunks :: Cuts(chunks, stream) && Served(length, chunks) != ReadWhole(length, stream)
  {
    hide FindSubslice, HeaderEnd, Flatten, Served;
    HeaderEndOfPrefix(stream, |stream|);
    var chunks, t := CutAt(stream, MAX_REQUEST_BYTES + 1);
    CutPastLimit(length, stream, chunks, t);
    var e := HeaderEnd(stream).value;
    assert ReadWhole(length, stream) == Panicked
        || (ReadWhole(length, stream).Routed? && e + |ReadWhole(length, stream).body| == Extent(length, stream));
  }

  // The stream is served as if it were read whole, however it is cut, exactly when what that takes of it
  // is at most one byte more than the limit.
  lemma ServedAsReadWholeIffSmall(length: Bytes -> u64, stream: Bytes)
    ensures (forall chunks :: Cuts(chunks, stream) ==> Served(length, chunks) == ReadWhole(length, stream))
       <==> Extent(length, stream) <= MAX_REQUEST_BYTES + 1
  {
    if Extent(length, stream) <= MAX_REQUEST_BYTES + 1 {
      forall chunks | Cuts(chunks, stream) ensures Served(length, chunks) == ReadWhole(length, stream) {
        SmallRequestReadWhole(length, stream, chunks);
      }
    } else {
      LargeRequestIsCut(length, stream);
    }
  }

  // When a read ends at the limit, the next one brings the whole head, if that is possible at all.
  lemma CutAtLimit(length: Bytes -> u64, stream: Bytes, chunks: seq<Bytes>, t: nat)
    requires Cuts(chunks, stream) && t < |chunks| && |Flatten(chunks[..t])| == MAX_REQUEST_BYTES
    requires |Flatten(chunks[..t + 1])| == Min(MAX_REQUEST_BYTES + READ_SIZE, |stream|)
    requires Extent(length, stream) > MAX_REQUEST_BYTES + 1
    requires HeaderEnd(stream).Some? && HeaderEnd(stream).value <= MAX_REQUEST_BYTES + READ_SIZE
    ensures HeaderEnd(stream).value <= |stream|
    ensures match Served(length, chunks)
      case Routed(_, body) =>
        && HeaderEnd(stream).value + |body| > MAX_REQUEST_BYTES + 1
        && HeaderEnd(stream).value + length(stream[..HeaderEnd(stream).value]) < TWO64
      case Panicked => HeaderEnd(stream).value > MAX_REQUEST_BYTES + 1
      case _ => false
  {
    hide FindSubslice, HeaderEnd, HeadStop, BodyStop, Flatten;
    HeaderEndOfPrefix(stream, |stream|);
    var j, e := HeadStop(chunks, 0), HeaderEnd(stream).value;
    var buf := Flatten(chunks[..j]);
    HeadStops(chunks, 0);
    PastLimit(chunks, t, j);
    PrefixOfStream(chunks, j);
    HeaderEndOfPrefix(stream, |buf|);
    assert chunks[..|chunks|] == chunks;
    assert e <= |buf| && buf[..e] == stream[..e];
    var want := (e + length(stream[..e])) % TWO64;
    var k := BodyStop(chunks, j, want);
    BodyStops(chunks, j, want);
    FlattenPrefix(chunks, j, k);
    PastLimit(chunks, t, k);
    PrefixOfStream(chunks, k);
  }

  lemma PastLimit(chunks: seq<Bytes>, t: nat, j: nat)
    requires t < |chunks| && j <= |chunks| && |Flatten(chunks[..t])| <= MAX_REQUEST_BYTES
    ensures |Flatten(chunks[..j])| > MAX_REQUEST_BYTES ==> |Flatten(chunks[..j])| >= |Flatten(chunks[..t + 1])|
  {
    if j <= t {
      FlattenPrefix(chunks, j, t);
    } else {
      FlattenPrefix(chunks, t + 1, j);
    }
  }

  // A head that no read can complete in time is refused in any case.
  lemma EndlessHeadIsTooLarge(length: Bytes -> u64, stream: Bytes, chunks: seq<Bytes>)
    requires Cuts(chunks, stream)
    requires HeaderEnd(stream).Some? && HeaderEnd(stream).value > MAX_REQUEST_BYTES + READ_SIZE
    ensures Served(length, chunks) == TooLarge
  {
    hide FindSubslice, HeaderEnd, HeadStop, BodyStop, Flatten;
    HeaderEndOfPrefix(stream, |stream|);
    var j := HeadStop(chunks, 0);
    HeadStops(chunks, 0);
    NothingRead(chunks);
    HeadBounded(chunks, 0);
    PrefixOfStream(chunks, j);
    HeaderEndOfPrefix(stream, |Flatten(chunks[..j])|);
    assert chunks[..|chunks|] == chunks;
  }

  lemma {:induction false} HeadBounded(chunks: seq<Bytes>, i: nat)
    requires i <= |chunks| && forall t :: 0 <= t < |chunks| ==> |chunks[t]| <= READ_SIZE
    requires |Flatten(chunks[..i])| <= MAX_REQUEST_BYTES + READ_SIZE
    ensures |Flatten(chunks[..HeadStop(chunks, i)])| <= MAX_REQUEST_BYTES + READ_SIZE
    decreases |chunks| - i
  {
    var buf := Flatten(chunks[..i]);
    if !(HeaderEnd(buf).Some? || |buf| > MAX_REQUEST_BYTES || i == |chunks|) {
      FlattenStep(chunks, i);
      HeadBounded(chunks, i + 1);
    }
  }

  // ---------- when the body is delivered ----------

  // Every cutting delivers the whole declared body, and nothing but it, exactly when the stream holds it
  // and head and body take at most one byte more than the limit.
  lemma BodyDeliveredIff(length: Bytes -> u64, stream: Bytes, e: nat)
    requires HeaderEnd(stream) == Some(e)
    ensures e <= |stream|
    ensures var end := e + length(stream[..e]);
      (end <= |stream| &&
       forall chunks :: Cuts(chunks, stream) ==> Served(length, chunks) == Routed(stream[..e], stream[e..end]))
        <==> end <= Min(|stream|, 64 * 1024 + 1)
  {
    hide FindSubslice, HeaderEnd, Flatten, Served;
    HeaderEndOfPrefix(stream, |stream|);
    var end := e + length(stream[..e]);
    if end <= Min(|stream|, MAX_REQUEST_BYTES + 1) {
      forall chunks | Cuts(chunks, stream) ensures Served(length, chunks) == Routed(stream[..e], stream[e..end]) {
        SmallRequestReadWhole(length, stream, chunks);
      }
    } else if end <= |stream| {
      var chunks := OtherwiseServed(length, stream, e);
      assert Served(length, chunks) != Routed(stream[..e], stream[e..end]);
    }
  }

  lemma OtherwiseServed(length: Bytes -> u64, stream: Bytes, e: nat) returns (chunks: seq<Bytes>)
    requires HeaderEnd(stream) == Some(e) && e <= |stream|
    requires MAX_REQUEST_BYTES + 1 < e + length(stream[..e]) <= |stream|
    ensures Cuts(chunks, stream)
    ensures match Served(length, chunks)
      case Routed(_, body) => |body| != length(stream[..e])
      case _ => true
  {
    hide FindSubslice, HeaderEnd, Flatten, Served;
    if Extent(length, stream) <= MAX_REQUEST_BYTES + 1 {
      chunks := Slice(stream);
      SliceFlattens(stream);
      SmallRequestReadWhole(length, stream, chunks);
    } else {
      var t;
      chunks, t := CutAt(stream, MAX_REQUEST_BYTES + 1);
      CutPastLimit(length, stream, chunks, t);
    }
  }

  // A stream without a blank line is refused when it is longer than the limit, and else dropped in silence.
  lemma NoBlankLine(length: Bytes -> u64, stream: Bytes, chunks: seq<Bytes>)
    requires Cuts(chunks, stream) && forall i: nat :: !OccursAt(stream, [13, 10, 13, 10], i)
    ensures Served(length, chunks) == if |stream| > 64 * 1024 then TooLarge else Closed
  {
    FoundIsFirst(stream, BLANK_LINE);
    NoHeader(stream, chunks);
    SmallRequestReadWhole(length, stream, chunks);
  }

  // The head ends with the first blank line, and includes it.
  lemma HeadEndsAtBlankLine(stream: Bytes, e: nat)
    ensures HeaderEnd(stream) == Some(e)
       <==> && e >= 4 && OccursAt(stream, [13, 10, 13, 10], e - 4)
            && forall i: nat :: i < e - 4 ==> !OccursAt(stream, [13, 10, 13, 10], i)
  {
    FoundIsFirst(stream, BLANK_LINE);
    if FindSubslice(stream, BLANK_LINE).Some? && e >= 4 {
      var p := FindSubslice(stream, BLANK_LINE).value;
      assert p < e - 4 || p == e - 4 || p > e - 4;
    }
  }

  // A stream that ends before its declared body does is routed all the same, with what there is.
  lemma IncompleteIsRouted(length: Bytes -> u64, stream: Bytes, e: nat, chunks: seq<Bytes>)
    requires HeaderEnd(stream) == Some(e) && e <= |stream| <= MAX_REQUEST_BYTES + 1 && Cuts(chunks, stream)
    requires |stream| < e + length(stream[..e]) < TWO64
    ensures Served(length, chunks) == Routed(stream[..e], stream[e..])
  {
    SmallRequestReadWhole(length, stream, chunks);
  }

  // The body slice can panic exactly when the end of the body overflows behind a head that can be read.
  lemma PanicsIffLengthOverflows(length: Bytes -> u64, stream: Bytes)
    ensures HeaderEnd(stream).Some? ==> HeaderEnd(stream).value <= |stream|
    ensures (exists chunks :: Cuts(chunks, stream) && Served(length, chunks) == Panicked)
       <==> && HeaderEnd(stream).Some?
            && HeaderEnd(stream).value <= 64 * 1024 + 4096
            && HeaderEnd(stream).value + length(stream[..HeaderEnd(stream).value]) >= TWO64
  {
    hide FindSubslice, HeaderEnd, Flatten, Served;
    HeaderEndOfPrefix(stream, |stream|);
    if chunks :| Cuts(chunks, stream) && Served(length, chunks) == Panicked {
      PanicMeansOverflow(length, stream, chunks);
    } else if HeaderEnd(stream).Some? {
      var e := HeaderEnd(stream).value;
      if e <= MAX_REQUEST_BYTES + READ_SIZE && e + length(stream[..e]) >= TWO64 {
        var chunks := OverflowPanics(length, stream, e);
      }
    }
  }

  lemma PanicMeansOverflow(length: Bytes -> u64, stream: Bytes, chunks: seq<Bytes>)
    requires Cuts(chunks, stream) && Served(length, chunks) == Panicked
    ensures HeaderEnd(stream).Some? && HeaderEnd(stream).value <= MAX_REQUEST_BYTES + READ_SIZE
    ensures HeaderEnd(stream).value <= |stream|
    ensures HeaderEnd(stream).value + length(stream[..HeaderEnd(stream).value]) >= TWO64
  {
    hide FindSubslice, HeaderEnd, HeadStop, BodyStop, Flatten;
    var j := HeadStop(chunks, 0);
    var buf := Flatten(chunks[..j]);
    PrefixOfStream(chunks, j);
    HeaderEndOfPrefix(stream, |buf|);
    var e := HeaderEnd(stream).value;
    assert HeaderEnd(buf) == Some(e) && buf[..e] == stream[..e];
    var want := (e + length(stream[..e])) % TWO64;
    FlattenPrefix(chunks, j, BodyStop(chunks, j, want));
    if e > MAX_REQUEST_BYTES + READ_SIZE {
      EndlessHeadIsTooLarge(length, stream, chunks);
    }
  }

  lemma OverflowPanics(length: Bytes -> u64, stream: Bytes, e: nat) returns (chunks: seq<Bytes>)
    requires HeaderEnd(stream) == Some(e) && e <= MAX_REQUEST_BYTES + READ_SIZE && e <= |stream|
    requires e + length(stream[..e]) >= TWO64
    ensures Cuts(chunks, stream) && Served(length, chunks) == Panicked
  {
    hide FindSubslice, HeaderEnd, Flatten, Served;
    if e <= MAX_REQUEST_BYTES + 1 {
      chunks := Slice(stream);
      SliceFlattens(stream);
      SmallRequestReadWhole(length, stream, chunks);
    } else {
      var t;
      chunks, t := CutAt(stream, MAX_REQUEST_BYTES);
      CutAtLimit(length, stream, chunks, t);
    }
  }

  // ---------- when the outcome is independent of the reads ----------

  ghost predicate Independent(length: Bytes -> u64, stream: Bytes) {
    forall c, d :: Cuts(c, stream) && Cuts(d, stream) ==> Served(length, c) == Served(length, d)
  }

  // The outcome does not depend on how the stream is cut into reads exactly when header and body take at
  // most one byte more than the limit, or the header is too long for any cutting.
  lemma FramingIndependentOfReads(length: Bytes -> u64, stream: Bytes)
    ensures Independent(length, stream)
       <==> || Extent(length, stream) <= 64 * 1024 + 1
            || (HeaderEnd(stream).Some? && HeaderEnd(stream).value > 64 * 1024 + 4096)
  {
    hide FindSubslice, HeaderEnd, Flatten, Served;
    if Extent(length, stream) <= MAX_REQUEST_BYTES + 1 {
      ServedAsReadWholeIffSmall(length, stream);
    } else if HeaderEnd(stream).value > MAX_REQUEST_BYTES + READ_SIZE {
      forall chunks | Cuts(chunks, stream) ensures Served(length, chunks) == TooLarge {
        EndlessHeadIsTooLarge(length, stream, chunks);
      }
    } else {
      HeaderEndOfPrefix(stream, |stream|);
      var c, t := CutAt(stream, MAX_REQUEST_BYTES + 1);
      var d, u := CutAt(stream, MAX_REQUEST_BYTES);
      CutPastLimit(length, stream, c, t);
      CutAtLimit(length, stream, d, u);
      assert Served(length, c) != Served(length, d);
    }
  }

  // ---------- a rendered request is read back ----------

  // The request line and the header lines, each ended, and the blank line.
  function RenderHead(lines: seq<string>): string {
    if lines == [] then CRLF else lines[0] + CRLF + RenderHead(lines[1..])
  }

  predicate PlainLine(line: string) {
    line != "" && forall i :: 0 <= i < |line| ==> line[i] != '\r' && line[i] != '\n' && line[i] as int < 128
  }

  predicate PlainLines(lines: seq<string>) {
    forall i :: 0 <= i < |lines| ==> PlainLine(lines[i])
  }

  predicate IsAscii(s: string) {
    forall i :: 0 <= i < |s| ==> s[i] as int < 128
  }

  function Ascii(s: string): (b: Bytes)
    requires IsAscii(s)
    ensures |b| == |s| && forall i :: 0 <= i < |s| ==> b[i] as int == s[i] as int
  {
    seq(|s|, i requires 0 <= i < |s| => s[i] as int as byte)
  }

  lemma {:induction false} HeadIsAscii(lines: seq<string>)
    requires PlainLines(lines)
    ensures IsAscii(RenderHead(lines))
    ensures |RenderHead(lines)| >= 2
  {
    if lines != [] {
      HeadIsAscii(lines[1..]);
      assert PlainLine(lines[0]);
    }
  }

  lemma {:induction false} RenderedLines(lines: seq<string>)
    requires PlainLines(lines)
    ensures Lines(RenderHead(lines)) == lines + [""]
  {
    if lines == [] {
      LineSplits("", "");
      assert "" + CRLF + "" == CRLF;
    } else {
      hide Lines;
      RenderedLines(lines[1..]);
      assert PlainLine(lines[0]);
      LineSplits(lines[0], RenderHead(lines[1..]));
    }
  }

  // Bytes other than a carriage return cannot begin the blank line.
  lemma {:induction false} SkipLine(line: Bytes, rest: Bytes)
    requires forall i :: 0 <= i < |line| ==> line[i] != 13
    ensures FindSubslice(line + rest, BLANK_LINE) == match FindSubslice(rest, BLANK_LINE)
      case Some(p) => Some(|line| + p)
      case None => None
  {
    if line == [] {
      assert line + rest == rest;
    } else {
      hide FindSubslice;
      SkipLine(line[1..], rest);
      var all := line + rest;
      assert all[1..] == line[1..] + rest;
      assert |all| >= 4 ==> all[..4][0] == line[0];
      NextPosition(all);
    }
  }

  // The first blank line of a rendered request is the one that ends its head.
  lemma {:induction false} HeadEndFound(lines: seq<string>, body: Bytes)
    requires PlainLines(lines) && lines != []
    ensures IsAscii(RenderHead(lines)) && |RenderHead(lines)| >= 4
    ensures FindSubslice(Ascii(RenderHead(lines)) + body, BLANK_LINE) == Some(|RenderHead(lines)| - 4)
    decreases |lines|
  {
    HeadIsAscii(lines);
    HeadIsAscii(lines[1..]);
    assert PlainLine(lines[0]);
    assert IsAscii(lines[0]);
    var line, rest := Ascii(lines[0]), Ascii(RenderHead(lines[1..])) + body;
    var tail: Bytes := [13, 10] + rest;
    assert Ascii(RenderHead(lines)) + body == line + tail;
    SkipLine(line, tail);
    if |lines| == 1 {
      assert RenderHead(lines[1..]) == CRLF;
      assert rest[0] == 13 && rest[1] == 10;
      assert tail[..4] == BLANK_LINE;
    } else {
      HeadEndFound(lines[1..], body);
      assert PlainLine(lines[1]);
      assert RenderHead(lines[1..])[0] == lines[1][0];
      assert tail[2] != 13;
      NotBlankYet(rest);
    }
  }

  // Nor does a line end that another line follows.
  lemma NotBlankYet(rest: Bytes)
    requires |rest| >= 2 && rest[0] != 13
    ensures FindSubslice([13, 10] + rest, BLANK_LINE) == match FindSubslice(rest, BLANK_LINE)
      case Some(p) => Some(2 + p)
      case None => None
  {
    hide FindSubslice;
    var all: Bytes := [13, 10] + rest;
    var tail := all[1..];
    assert all[..4] != BLANK_LINE by { assert all[..4][2] == rest[0]; }
    NextPosition(all);
    assert tail == [10] + rest;
    assert |tail| >= 4 ==> tail[..4][0] == 10;
    NextPosition(tail);
    assert tail[1..] == rest;
  }

  lemma NextPosition(all: Bytes)
    requires all != [] && (|all| < 4 || all[..4] != BLANK_LINE)
    ensures FindSubslice(all, BLANK_LINE) == match FindSubslice(all[1..], BLANK_LINE)
      case Some(p) => Some(1 + p)
      case None => None
  {
  }

  // The handler's head is text decoded from bytes; on ASCII, decoding is reading each byte as its character.
  ghost predicate DecodesAscii(decode: Bytes -> string) {
    forall s :: IsAscii(s) ==> decode(Ascii(s)) == s
  }

  lemma BlankLineDeclaresNothing(lines: seq<string>, n: u64)
    requires DeclaresLength(lines, n)
    ensures FirstDeclared(lines + [""]) == n
  {
    hide DeclaresNumber;
    var all := lines + [""];
    assert !IsField("");
    assert forall k :: 0 <= k < |lines| ==> all[k] == lines[k];
    if i :| 0 <= i < |lines| && DeclaresNumber(lines[i], n) && forall k :: 0 <= k < i ==> !IsField(lines[k]) {
      assert DeclaresNumber(all[i], n);
    }
    LengthOfLines(all, n);
  }

  // End to end: a request whose header lines declare the length of its body is routed with exactly that
  // body, however the connection delivers it, and whatever follows it.
  lemma RequestRoundTrip(decode: Bytes -> string, length: Bytes -> u64, lines: seq<string>, body: Bytes, more: Bytes,
                         chunks: seq<Bytes>)
    requires DecodesAscii(decode) && forall b :: length(b) == ContentLength(decode(b))
    requires PlainLines(lines) && lines != [] && |body| < TWO64 && DeclaresLength(lines, |body|)
    requires IsAscii(RenderHead(lines)) && |RenderHead(lines)| + |body| <= MAX_REQUEST_BYTES + 1
    requires Cuts(chunks, Ascii(RenderHead(lines)) + body + more)
    ensures Served(length, chunks) == Routed(Ascii(RenderHead(lines)), body)
  {
    hide FindSubslice, RenderHead, Served, ReadWhole, Extent, ContentLength, FirstDeclared, Cuts;
    HeadEndFound(lines, body + more);
    BlankLineDeclaresNothing(lines, |body|);
    DeclaredLength(decode, length, lines);
    RequestReadWhole(length, Ascii(RenderHead(lines)), body, more);
    SmallRequestReadWhole(length, Ascii(RenderHead(lines)) + body + more, chunks);
  }

  // A request that panics under every cutting: its length field declares 18446744073709551615, the largest
  // number that parses.
  lemma LargestLengthPanics(decode: Bytes -> string, length: Bytes -> u64, more: Bytes, chunks: seq<Bytes>)
    requires DecodesAscii(decode) && forall b :: length(b) == ContentLength(decode(b))
    ensures IsAscii(RenderHead(LARGEST))
    ensures Cuts(chunks, Ascii(RenderHead(LARGEST)) + more) ==> Served(length, chunks) == Panicked
  {
    hide FindSubslice, RenderHead, Served, ContentLength, FirstDeclared, Cuts, Lines;
    LargestLines();
    HeadEndFound(LARGEST, more);
    DeclaredLength(decode, length, LARGEST);
    var head := Ascii(RenderHead(LARGEST));
    assert (head + more)[..|head|] == head;
    if Cuts(chunks, head + more) {
      SmallRequestReadWhole(length, head + more, chunks);
    }
  }

  const LARGEST: seq<string> := ["POST / HTTP/1.1", "Content-Length: " + Decimal(TWO64 - 1)]

  function Pow10(k: nat): nat {
    if k == 0 then 1 else 10 * Pow10(k - 1)
  }

  lemma {:induction false} DecimalLength(n: nat, k: nat)
    requires k > 0 && n < Pow10(k)
    ensures |Decimal(n)| <= k
  {
    if n >= 10 {
      DecimalLength(n / 10, k - 1);
    }
  }

  lemma LargestNumber()
    ensures |Decimal(TWO64 - 1)| <= 20
  {
    assert Pow10(5) == 100000;
    assert Pow10(10) == Pow10(5) * 100000;
    assert Pow10(15) == Pow10(10) * 100000;
    assert Pow10(20) == Pow10(15) * 100000 > TWO64;
    DecimalLength(TWO64 - 1, 20);
  }

  lemma LargestLines()
    ensures PlainLines(LARGEST) && 4 <= |RenderHead(LARGEST)| <= MAX_REQUEST_BYTES
    ensures FirstDeclared(LARGEST + [""]) == TWO64 - 1
  {
    hide Decimal, DeclaredBy, PlainLine;
    LargestNumber();
    LargestIsPlain();
    LengthFieldDeclares(TWO64 - 1);
    RequestLineDeclaresNothing();
    var lines := LARGEST + [""];
    assert lines[1..][0] == LARGEST[1] && FirstDeclared(lines[1..]) == TWO64 - 1;
    assert LARGEST[1..] == [LARGEST[1]] && LARGEST[1..][1..] == [];
    assert |RenderHead(LARGEST[1..])| == |LARGEST[1]| + 4;
  }

  lemma LargestIsPlain()
    ensures PlainLine(LARGEST[0]) && PlainLine(LARGEST[1])
  {
    var field := "Content-Length: ";
    assert forall i :: 0 <= i < |LARGEST[1]| ==>
      LARGEST[1][i] == if i < |field| then field[i] else Decimal(TWO64 - 1)[i - |field|];
  }

  lemma RequestLineDeclaresNothing()
    ensures DeclaredBy(LARGEST[0]) == None
  {
    assert LowerCase(LARGEST[0])[0] == 'p' != FIELD[0];
  }

  lemma DeclaredLength(decode: Bytes -> string, length: Bytes -> u64, lines: seq<string>)
    requires DecodesAscii(decode) && forall b :: length(b) == ContentLength(decode(b))
    requires PlainLines(lines) && IsAscii(RenderHead(lines))
    ensures length(Ascii(RenderHead(lines))) == FirstDeclared(lines + [""])
  {
    RenderedLines(lines);
    assert decode(Ascii(RenderHead(lines))) == RenderHead(lines);
  }

  lemma RequestReadWhole(length: Bytes -> u64, head: Bytes, body: Bytes, more: Bytes)
    requires |head| >= 4 && FindSubslice(head + (body + more), BLANK_LINE) == Some(|head| - 4)
    requires length(head) == |body| && |head| + |body| <= MAX_REQUEST_BYTES + 1
    ensures ReadWhole(length, head + body + more) == Routed(head, body)
    ensures Extent(length, head + body + more) == |head| + |body|
  {
    hide FindSubslice;
    var stream := head + body + more;
    assert stream == head + (body + more);
    assert HeaderEnd(stream) == Some(|head|);
    assert stream[..|head|] == head && stream[|head|..|head| + |body|] == body;
  }
}
