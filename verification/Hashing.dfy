/**
 SHA-256 as a parameter: any total function to 32 bytes. Collisions exist by counting, so "there is a
 collision" says nothing; the results name two inputs that were really hashed.
 */
module Hashing {
  import opened Machine

  type Bytes = seq<byte>

  type Digest = d: seq<byte> | |d| == 32 witness seq(32, _ => 0)

  type Hash = Bytes -> Digest

  ghost predicate Collides<X>(h: X -> Digest, a: set<X>, b: set<X>) {
    exists x, y :: x in a && y in b && x != y && h(x) == h(y)
  }

  lemma CollidesMore<X>(h: X -> Digest, a: set<X>, b: set<X>, a': set<X>, b': set<X>)
    requires Collides(h, a, b) && a <= a' && b <= b'
    ensures Collides(h, a', b')
  {
    var x, y :| x in a && y in b && x != y && h(x) == h(y);
    assert x in a' && y in b';
  }

  lemma CollidesWithin<X>(h: X -> Digest, a: set<X>, b: set<X>)
    requires b <= a
    ensures Collides(h, a, b) ==> Collides(h, a, a)
  {
    if Collides(h, a, b) {
      CollidesMore(h, a, b, a, a);
    }
  }
}
