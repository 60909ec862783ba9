/** GIX-FOLD-v1: a digest as one displayable character. And the structural check of a GIX1 envelope. */
module GlyphFold {
  import opened Machine
  import opened Wrappers
  import opened Text
  import opened Hashing

  const START: seq<nat> := [0x0020, 0xE000, 0xFDF0]
  const COUNT: seq<nat> := [0xD7FF - 0x0020 + 1, 0xFDCF - 0xE000 + 1, 0xFFFD - 0xFDF0 + 1]
  const TOTAL: nat := 63422

  // The digest read as one big-endian number.
  function BigEndian(s: Bytes): nat {
    if s == [] then 0 else BigEndian(s[..|s| - 1]) * 256 + s[|s| - 1] as nat
  }

  predicate Displayable(codePoint: nat) {
    || 0x0020 <= codePoint <= 0xD7FF
    || 0xE000 <= codePoint <= 0xFDCF
    || 0xFDF0 <= codePoint <= 0xFFFD
  }

  // The index-th displayable code point.
  function PointAt(index: nat): (codePoint: nat)
    requires index < TOTAL
    ensures Displayable(codePoint)
  {
    if index < COUNT[0] then START[0] + index
    else if index < COUNT[0] + COUNT[1] then START[1] + (index - COUNT[0])
    else START[2] + (index - COUNT[0] - COUNT[1])
  }

  function IndexOf(codePoint: nat): (index: nat)
    requires Displayable(codePoint)
    ensures index < TOTAL && PointAt(index) == codePoint
  {
    if codePoint <= 0xD7FF then codePoint - START[0]
    else if codePoint <= 0xFDCF then codePoint - START[1] + COUNT[0]
    else codePoint - START[2] + COUNT[0] + COUNT[1]
  }

  // The points are indexed in increasing order.
  lemma PointAtIncreases(i: nat, j: nat)
    requires i < j < TOTAL
    ensures PointAt(i) < PointAt(j)
  {
  }

  lemma PointAtInjective(i: nat, j: nat)
    requires i < TOTAL && j < TOTAL && PointAt(i) == PointAt(j)
    ensures i == j
  {
  }

  // ---------- `rem << 8 | byte` ----------

  function ShiftLeft8(a: u64): u64 {
    a * 256 % TWO64
  }

  function BitOr(a: nat, b: nat): nat {
    if a == 0 && b == 0 then 0 else 2 * BitOr(a / 2, b / 2) + if a % 2 == 1 || b % 2 == 1 then 1 else 0
  }

  function Pow2(k: nat): nat {
    if k == 0 then 1 else 2 * Pow2(k - 1)
  }

  lemma {:induction false} OrNothing(a: nat)
    ensures BitOr(a, 0) == a
  {
    if a > 0 {
      OrNothing(a / 2);
    }
  }

  // Where no bits overlap, or is addition.
  lemma {:induction false} OrIsSum(a: nat, b: nat, k: nat)
    requires b < Pow2(k)
    ensures BitOr(a * Pow2(k), b) == a * Pow2(k) + b
  {
    if k == 0 {
      OrNothing(a);
    } else {
      var half := a * Pow2(k - 1);
      assert a * Pow2(k) == 2 * half;
      OrIsSum(a, b / 2, k - 1);
      assert BitOr(2 * half, b) == 2 * BitOr(half, b / 2) + b % 2;
    }
  }

  // On a reduced remainder, shifting a byte in is multiplying and adding: no bit overlaps or falls out.
  lemma ShiftIn(rem: u64, b: byte)
    requires rem < TOTAL
    ensures BitOr(ShiftLeft8(rem), b as int) == rem * 256 + b as int < TWO64
  {
    hide BitOr, Pow2, ShiftLeft8;
    PowersOfTwo();
    OrIsSum(rem, b as int, 8);
    NothingFallsOut(rem);
  }

  lemma NothingFallsOut(rem: u64)
    requires rem < TOTAL
    ensures ShiftLeft8(rem) == rem * 256
  {
  }

  lemma PowersOfTwo()
    ensures Pow2(8) == 256
  {
    assert Pow2(4) == 16;
    assert Pow2(8) == 16 * Pow2(4);
  }

  // GIX-FOLD-v1: the number modulo the count of displayable points, as a point.
  function Fold(digest: Bytes): (codePoint: nat)
    ensures Displayable(codePoint)
  {
    PointAt(BigEndian(digest) % TOTAL)
  }

  lemma {:induction false} HornerStep(n: nat, b: nat)
    ensures (n % TOTAL * 256 + b) % TOTAL == (n * 256 + b) % TOTAL
  {
    var q := n / TOTAL;
    assert n * 256 + b == (n % TOTAL * 256 + b) + q * 256 * TOTAL;
    DropMultiple(n % TOTAL * 256 + b, q * 256);
  }

  lemma {:induction false} DropMultiple(a: nat, q: nat)
    ensures (a + q * TOTAL) % TOTAL == a % TOTAL
  {
    if q > 0 {
      DropMultiple(a, q - 1);
    }
  }

  method GlyphFold(digest: Digest) returns (codePoint: nat)
    ensures codePoint == Fold(digest)
  {
    var rem: u64 := 0;
    for i := 0 to 32
      invariant rem == BigEndian(digest[..i]) % TOTAL
    {
      ShiftIn(rem, digest[i]);
      var shifted: u64 := BitOr(ShiftLeft8(rem), digest[i] as int);
      HornerStep(BigEndian(digest[..i]), digest[i] as nat);
      assert digest[..i + 1][..i] == digest[..i];
      rem := shifted % TOTAL;
    }
    assert digest[..32] == digest;
    var idx: nat := rem;
    for r := 0 to 3
      invariant idx
        == rem - (if r > 0 then COUNT[0] else 0) - (if r > 1 then COUNT[1] else 0) - (if r > 2 then COUNT[2] else 0)
    {
      if idx < COUNT[r] {
        return START[r] + idx;
      }
      idx := idx - COUNT[r];
    }
    assert false;  // the `unreachable!` of the source
  }

  // Two digests show the same glyph exactly when they agree modulo the number of points.
  lemma SameGlyph(a: Bytes, b: Bytes)
    ensures Fold(a) == Fold(b) <==> BigEndian(a) % TOTAL == BigEndian(b) % TOTAL
  {
    if Fold(a) == Fold(b) {
      PointAtInjective(BigEndian(a) % TOTAL, BigEndian(b) % TOTAL);
    }
  }

  function Power256(n: nat): nat {
    if n == 0 then 1 else 256 * Power256(n - 1)
  }

  // The first byte that differs is smaller in `a`.
  ghost predicate Precedes(a: Bytes, b: Bytes)
    requires |a| == |b|
  {
    exists i :: 0 <= i < |a| && a[..i] == b[..i] && a[i] < b[i]
  }

  lemma PrecedesStep(a: Bytes, b: Bytes)
    requires |a| == |b| > 0
    ensures var n := |a| - 1; Precedes(a, b) <==> Precedes(a[..n], b[..n]) || (a[..n] == b[..n] && a[n] < b[n])
  {
    var n := |a| - 1;
    if i :| 0 <= i < n && a[..n][..i] == b[..n][..i] && a[..n][i] < b[..n][i] {
      assert a[..i] == a[..n][..i] && b[..i] == b[..n][..i];
      assert a[..i] == b[..i] && a[i] < b[i];
    }
    if i :| 0 <= i < |a| && a[..i] == b[..i] && a[i] < b[i] {
      if i < n {
        assert a[..i] == a[..n][..i] && b[..i] == b[..n][..i];
        assert a[..n][..i] == b[..n][..i] && a[..n][i] < b[..n][i];
      }
    }
  }

  // The number orders digests as their bytes do, first byte first, and n bytes give the numbers below 256^n.
  lemma {:induction false} BigEndianOrder(a: Bytes, b: Bytes)
    requires |a| == |b|
    ensures BigEndian(a) < Power256(|a|)
    ensures BigEndian(a) < BigEndian(b) <==> Precedes(a, b)
  {
    if a != [] {
      var n := |a| - 1;
      BigEndianOrder(a[..n], b[..n]);
      BigEndianInjective(a[..n], b[..n]);
      PrecedesStep(a, b);
      hide Precedes;
    }
  }

  lemma {:induction false} BigEndianInjective(a: Bytes, b: Bytes)
    requires |a| == |b|
    ensures BigEndian(a) == BigEndian(b) <==> a == b
  {
    if a != [] {
      var n := |a| - 1;
      BigEndianInjective(a[..n], b[..n]);
      assert a == a[..n] + [a[n]] && b == b[..n] + [b[n]];
    }
  }

  lemma {:induction false} BigEndianZeros(n: nat)
    ensures BigEndian(seq(n, _ => 0)) == 0
  {
    if n > 0 {
      var zeros: Bytes := seq(n, _ => 0);
      assert zeros[..n - 1] == seq(n - 1, _ => 0);
      BigEndianZeros(n - 1);
    }
  }

  lemma BigEndianAppend(s: Bytes, b: byte)
    ensures BigEndian(s + [b]) == BigEndian(s) * 256 + b as nat
  {
    assert (s + [b])[..|s|] == s;
  }

  // Every displayable point is the glyph of some digest.
  lemma EveryPointAttained(codePoint: nat) returns (digest: Digest)
    requires Displayable(codePoint)
    ensures Fold(digest) == codePoint
  {
    var index := IndexOf(codePoint);
    hide BigEndian, PointAt;
    var hi, lo := TwoBytes(index);
    var zeros: Bytes := seq(30, _ => 0);
    BigEndianZeros(30);
    BigEndianAppend(zeros, hi);
    BigEndianAppend(zeros + [hi], lo);
    digest := zeros + [hi] + [lo];
    SmallIsItsRemainder(index);
  }

  lemma TwoBytes(n: nat) returns (hi: byte, lo: byte)
    requires n < 0x1_0000
    ensures hi as nat * 256 + lo as nat == n
  {
    hi, lo := (n / 256) as byte, (n % 256) as byte;
  }

  lemma SmallIsItsRemainder(n: nat)
    requires n < TOTAL
    ensures n % TOTAL == n
  {
  }

  datatype NameError = BadCanonicalId | GlyphSpoofed

  method AuditGlyphName(glyph: nat, canonicalIdHex: string) returns (r: Result<(), NameError>)
    ensures r.Ok? <==> exists digest: Digest :: HexDecode(canonicalIdHex) == Some(digest) && Fold(digest) == glyph
    ensures r == Err(BadCanonicalId) <==> forall bytes :: HexDecode(canonicalIdHex) == Some(bytes) ==> |bytes| != 32
  {
    match HexDecode(canonicalIdHex)
    case None =>
      return Err(BadCanonicalId);
    case Some(bytes) =>
      if |bytes| != 32 {
        return Err(BadCanonicalId);
      }
      var digest: Digest := bytes;
      var folded := GlyphFold(digest);
      if folded != glyph {
        return Err(GlyphSpoofed);
      }
      assert HexDecode(canonicalIdHex) == Some(digest);
      return Ok(());
  }

  // ---------- the GIX1 envelope ----------

  datatype Envelope = Envelope(version: byte, flags: byte, nonce: Bytes, ciphertext: Bytes, tag: Bytes)

  datatype EnvelopeError = TooShort(length: nat) | BadMagic | BadVersion(version: byte) | UnknownFlags(flags: byte)

  const MAGIC: Bytes := [0x47, 0x49, 0x58, 0x31]

  function ParseGix1(blob: Bytes): Result<Envelope, EnvelopeError> {
    if |blob| < 4 + 2 + 12 + 16 then Err(TooShort(|blob|))
    else if blob[..4] != MAGIC then Err(BadMagic)
    else if blob[4] != 1 then Err(BadVersion(blob[4]))
    else if blob[5] / 2 != 0 then Err(UnknownFlags(blob[5]))
    else Ok(Envelope(blob[4], blob[5], blob[6..18], blob[18..|blob| - 16], blob[|blob| - 16..]))
  }

  // The four magic bytes, one byte each for the version and the flags, twelve of nonce, the ciphertext and
  // sixteen of tag.
  function Render(e: Envelope): Bytes {
    MAGIC + [e.version, e.flags] + e.nonce + e.ciphertext + e.tag
  }

  predicate WellFormed(e: Envelope) {
    e.version == 1 && e.flags <= 1 && |e.nonce| == 12 && |e.tag| == 16
  }

  // What the parser says of a rendering with a wrong version or unknown flags, and of anything else.
  lemma ParserErrors(blob: Bytes, e: Envelope)
    requires |e.nonce| == 12 && |e.tag| == 16
    ensures ParseGix1(Render(e)) == if e.version != 1 then Err(BadVersion(e.version))
                                    else if e.flags > 1 then Err(UnknownFlags(e.flags))
                                    else Ok(e)
    ensures |blob| < 34 <==> ParseGix1(blob) == Err(TooShort(|blob|))
    ensures |blob| >= 34 && !([71, 73, 88, 49] <= blob) <==> ParseGix1(blob) == Err(BadMagic)
  {
    var blob' := Render(e);
    var n := |blob'|;
    assert blob'[..4] == MAGIC && blob'[4] == e.version && blob'[5] == e.flags;
    assert blob'[6..18] == e.nonce && blob'[18..n - 16] == e.ciphertext && blob'[n - 16..] == e.tag;
    assert |blob| >= 4 ==> (blob[..4] == MAGIC <==> MAGIC <= blob);
  }

  // The parser accepts exactly the rendered well-formed envelopes, and gives back what was rendered.
  lemma ParseIffRendered(blob: Bytes, e: Envelope)
    ensures ParseGix1(blob) == Ok(e) <==> WellFormed(e) && blob == Render(e)
  {
    if ParseGix1(blob) == Ok(e) {
      var n := |blob|;
      assert blob == blob[..4] + [blob[4], blob[5]] + blob[6..18] + blob[18..n - 16] + blob[n - 16..];
    }
    if WellFormed(e) && blob == Render(e) {
      var n := |blob|;
      assert blob[..4] == MAGIC && blob[4] == e.version && blob[5] == e.flags;
      assert blob[6..18] == e.nonce && blob[18..n - 16] == e.ciphertext && blob[n - 16..] == e.tag;
    }
  }
}
