/** Two constructions on finite maps: the sum of the values, and a key-by-key combination. */
module Maps {
  // What `*m.get(k).unwrap_or(&0)` reads.
  function Get<K>(m: map<K, nat>, k: K): nat {
    if k in m then m[k] else 0
  }

  ghost function Sum<K>(m: map<K, nat>): nat {
    if m == map[] then 0
    else
      var k :| k in m;
      m[k] + Sum(m - {k})
  }

  lemma {:induction false} SumRemove<K>(m: map<K, nat>, k: K)
    requires k in m
    ensures Sum(m) == m[k] + Sum(m - {k})
    decreases |m|
  {
    var j :| j in m && Sum(m) == m[j] + Sum(m - {j});
    if j != k {
      SumRemove(m - {j}, k);
      SumRemove(m - {k}, j);
      assert m - {j} - {k} == m - {k} - {j};
    }
  }

  lemma {:induction false} SumMonotone<K>(a: map<K, nat>, b: map<K, nat>)
    requires forall k :: k in a ==> a[k] <= Get(b, k)
    ensures Sum(a) <= Sum(b)
    decreases |a|
  {
    if a != map[] {
      var k :| k in a && Sum(a) == a[k] + Sum(a - {k});
      if k in b {
        SumRemove(b, k);
        SumMonotone(a - {k}, b - {k});
      } else {
        SumMonotone(a - {k}, b);
      }
    }
  }

  lemma SumUpdate<K>(m: map<K, nat>, k: K, v: nat)
    ensures Sum(m[k := v]) == Sum(m) - Get(m, k) + v
  {
    SumRemove(m[k := v], k);
    if k in m {
      SumRemove(m, k);
      assert m[k := v] - {k} == m - {k};
    } else {
      assert m[k := v] - {k} == m;
    }
  }

  // The entries of both maps; `f` combines the entries of a key both maps have.
  function Pointwise<K, V>(f: (V, V) -> V, a: map<K, V>, b: map<K, V>): map<K, V> {
    map k | k in a.Keys + b.Keys ::
      if k !in b then a[k] else if k !in a then b[k] else f(a[k], b[k])
  }

  // The loop all four merges of the source share: the entries of `b` are folded into `a` one by one.
  method FoldInto<K(==), V>(f: (V, V) -> V, a: map<K, V>, b: map<K, V>) returns (r: map<K, V>)
    ensures r == Pointwise(f, a, b)
  {
    r := a;
    var rest := b.Keys;
    while rest != {}
      invariant rest <= b.Keys
      invariant r == Pointwise(f, a, map k | k in b.Keys - rest :: b[k])
    {
      var k :| k in rest;
      if k in r {
        r := r[k := f(r[k], b[k])];
      } else {
        r := r[k := b[k]];
      }
      rest := rest - {k};
    }
    assert b == map k | k in b.Keys - rest :: b[k];
  }

  lemma PointwiseAssociative<K, V(!new)>(f: (V, V) -> V, a: map<K, V>, b: map<K, V>, c: map<K, V>)
    requires forall x, y, z :: f(f(x, y), z) == f(x, f(y, z))
    ensures Pointwise(f, Pointwise(f, a, b), c) == Pointwise(f, a, Pointwise(f, b, c))
  {
    var l, r := Pointwise(f, Pointwise(f, a, b), c), Pointwise(f, a, Pointwise(f, b, c));
    assert l.Keys == r.Keys;
    forall k | k in l ensures l[k] == r[k] {
    }
  }

  lemma PointwiseIdempotent<K, V(!new)>(f: (V, V) -> V, a: map<K, V>)
    requires forall x :: f(x, x) == x
    ensures Pointwise(f, a, a) == a
  {
  }

  // Two maps commute under Pointwise exactly when they commute on every key they share.
  lemma PointwiseCommutes<K, V>(f: (V, V) -> V, a: map<K, V>, b: map<K, V>)
    ensures Pointwise(f, a, b) == Pointwise(f, b, a)
       <==> forall k :: k in a && k in b ==> f(a[k], b[k]) == f(b[k], a[k])
  {
    var l, r := Pointwise(f, a, b), Pointwise(f, b, a);
    assert l.Keys == r.Keys;
    if l == r {
      forall k | k in a && k in b ensures f(a[k], b[k]) == f(b[k], a[k]) {
        assert l[k] == r[k];
      }
    }
  }

  // ---------- picking a best value per key ----------

  // `f` picks one of its arguments, and the pick beats both.
  ghost predicate Selects<V(!new)>(beats: (V, V) -> bool, f: (V, V) -> V) {
    && (forall x :: beats(x, x))
    && (forall x, y :: (f(x, y) == x || f(x, y) == y) && beats(f(x, y), x) && beats(f(x, y), y))
    && (forall x, y, z :: beats(x, y) && beats(y, z) ==> beats(x, z))
  }

  // `r` holds, for every key of a map in `sources`, one of their values, and it beats all of them.
  ghost predicate IsPick<K, V>(beats: (V, V) -> bool, sources: set<map<K, V>>, r: map<K, V>) {
    && (forall m, k :: m in sources && k in m ==> k in r && beats(r[k], m[k]))
    && (forall k :: k in r ==> exists m :: m in sources && k in m && m[k] == r[k])
  }

  // `m` holds a best value of key `k`.
  ghost predicate IsTop<K, V>(beats: (V, V) -> bool, sources: set<map<K, V>>, m: map<K, V>, k: K) {
    m in sources && k in m && forall o :: o in sources && k in o ==> beats(m[k], o[k])
  }

  lemma PickBeats<K, V>(beats: (V, V) -> bool, sources: set<map<K, V>>, r: map<K, V>, m: map<K, V>, k: K)
    requires IsPick(beats, sources, r) && m in sources && k in m
    ensures k in r && beats(r[k], m[k])
  {
  }

  lemma PickOne<K, V(!new)>(beats: (V, V) -> bool, f: (V, V) -> V, m: map<K, V>)
    requires Selects(beats, f)
    ensures IsPick(beats, {m}, m)
  {
    assert m in {m};
  }

  lemma PickUnion<K, V(!new)>(beats: (V, V) -> bool, f: (V, V) -> V,
                              s: set<map<K, V>>, a: map<K, V>, t: set<map<K, V>>, b: map<K, V>)
    requires Selects(beats, f) && IsPick(beats, s, a) && IsPick(beats, t, b)
    ensures IsPick(beats, s + t, Pointwise(f, a, b))
  {
    var r := Pointwise(f, a, b);
    forall k | k in r ensures exists m :: m in s + t && k in m && m[k] == r[k] {
      if k in a && r[k] == a[k] {
        var m :| m in s && k in m && m[k] == a[k];
        assert m in s + t;
      } else {
        var m :| m in t && k in m && m[k] == b[k];
        assert m in s + t;
      }
    }
  }

  // Where the best values of each key coincide, the pick is determined by the set of sources.
  lemma PickUnique<K, V>(beats: (V, V) -> bool, s: set<map<K, V>>, a: map<K, V>, b: map<K, V>)
    requires IsPick(beats, s, a) && IsPick(beats, s, b)
    requires forall m, n, k | IsTop(beats, s, m, k) && IsTop(beats, s, n, k) :: m[k] == n[k]
    ensures a == b
  {
    assert a.Keys == b.Keys;
    forall k | k in a ensures a[k] == b[k] {
      var m :| m in s && k in m && m[k] == a[k];
      var n :| n in s && k in n && n[k] == b[k];
      assert IsTop(beats, s, m, k) && IsTop(beats, s, n, k);
    }
  }
}
