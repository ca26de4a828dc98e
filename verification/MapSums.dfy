/** Sums over the values of a finite map, whatever order they are visited in. */
module MapSums {
  ghost function Pick<K, V>(m: map<K, V>): (k: K)
    requires m != map[]
    ensures k in m
  {
    var k :| k in m; k
  }

  ghost function Sum<K, V>(m: map<K, V>, f: V -> nat): nat
    decreases |m|
  {
    if m == map[] then 0
    else
      var k := Pick(m);
      Shrinks(m, k);
      f(m[k]) + Sum(m - {k}, f)
  }

  lemma {:induction false} Shrinks<K, V>(m: map<K, V>, k: K)
    requires k in m
    ensures |m - {k}| == |m| - 1
  {
    assert (m - {k}).Keys == m.Keys - {k};
  }

  /** Any key can be taken out first. */
  lemma {:induction false} TakeOut<K, V>(m: map<K, V>, f: V -> nat, k: K)
    requires k in m
    ensures Sum(m, f) == f(m[k]) + Sum(m - {k}, f)
    decreases |m|
  {
    var first := Pick(m);
    if first != k {
      Shrinks(m, first);
      Shrinks(m, k);
      TakeOut(m - {first}, f, k);
      TakeOut(m - {k}, f, first);
      assert m - {first} - {k} == m - {k} - {first};
    }
  }

  /** A new key adds its value. */
  lemma {:induction false} PutIn<K, V>(m: map<K, V>, f: V -> nat, k: K, v: V)
    requires k !in m
    ensures Sum(m[k := v], f) == f(v) + Sum(m, f)
  {
    TakeOut(m[k := v], f, k);
    assert m[k := v] - {k} == m;
  }

  /** Dropping keys cannot increase a sum. */
  lemma {:induction false} SumOfPart<K, V>(m: map<K, V>, f: V -> nat, ks: set<K>)
    ensures Sum(m - ks, f) <= Sum(m, f)
    decreases |m|
  {
    if exists k :: k in m && k in ks {
      var k :| k in m && k in ks;
      TakeOut(m, f, k);
      Shrinks(m, k);
      SumOfPart(m - {k}, f, ks);
      assert m - {k} - ks == m - ks;
    } else {
      assert m - ks == m;
    }
  }

  /** Summing by iteration, in whatever order the keys come. */
  method SumValues<K(==), V(==)>(m: map<K, V>, f: V -> nat) returns (total: nat)
    ensures total == Sum(m, f)
  {
    total := 0;
    var rest := m;
    while rest != map[]
      invariant total + Sum(rest, f) == Sum(m, f)
      decreases |rest|
    {
      var k :| k in rest;
      TakeOut(rest, f, k);
      Shrinks(rest, k);
      total := total + f(rest[k]);
      rest := rest - {k};
    }
  }
}
