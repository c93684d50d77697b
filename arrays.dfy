/**
 * PHP arrays with string keys: ordered sequences of key/value entries. Reading
 * `$a[k]` finds the entry for `k`; writing `$a[k] = v` overwrites that entry in
 * place or appends a new one at the end.
 */
module Arrays {
  import opened Wrappers

  type Entries<V> = seq<(string, V)>

  /** `array_keys`. */
  function Keys<V>(a: Entries<V>): (ks: seq<string>)
    ensures |ks| == |a| && forall i :: 0 <= i < |a| ==> ks[i] == a[i].0
    decreases |a|
  {
    if |a| == 0 then [] else [a[0].0] + Keys(a[1..])
  }

  /** `array_key_exists`. */
  predicate HasKey<V>(a: Entries<V>, k: string) {
    k in Keys(a)
  }

  /** Every key occurs once, as in every PHP array. */
  predicate DistinctKeys<V>(a: Entries<V>) {
    forall i, j :: 0 <= i < j < |a| ==> a[i].0 != a[j].0
  }

  /** `$a[k]`: the value stored under `k`, None when the key is undefined. */
  function Lookup<V>(a: Entries<V>, k: string): (r: Option<V>)
    ensures r.Some? <==> HasKey(a, k)
    ensures r.Some? ==> (k, r.value) in a
    decreases |a|
  {
    if |a| == 0 then None
    else if a[0].0 == k then Some(a[0].1)
    else Lookup(a[1..], k)
  }

  /** `$a[k] = v`. */
  function Put<V>(a: Entries<V>, k: string, v: V): Entries<V>
    decreases |a|
  {
    if |a| == 0 then [(k, v)]
    else if a[0].0 == k then [(k, v)] + a[1..]
    else [a[0]] + Put(a[1..], k, v)
  }

  /** After `$a[k] = v`, `$a[k]` is `v` and every other key reads as before. */
  lemma {:induction false} LookupPut<V>(a: Entries<V>, k: string, v: V, k': string)
    ensures Lookup(Put(a, k, v), k') == if k' == k then Some(v) else Lookup(a, k')
    decreases |a|
  {
    if |a| > 0 && a[0].0 != k {
      LookupPut(a[1..], k, v, k');
      assert Put(a, k, v)[1..] == Put(a[1..], k, v);
    }
  }

  /** Writing keeps the key order: an existing key stays where it was, a new one goes last. */
  lemma {:induction false} KeysPut<V>(a: Entries<V>, k: string, v: V)
    ensures Keys(Put(a, k, v)) == if HasKey(a, k) then Keys(a) else Keys(a) + [k]
    decreases |a|
  {
    if |a| > 0 && a[0].0 != k {
      KeysPut(a[1..], k, v);
      assert Keys(a) == [a[0].0] + Keys(a[1..]);
      assert HasKey(a, k) == HasKey(a[1..], k);
    }
  }

  /** Writing keeps the keys distinct. */
  lemma PutDistinct<V>(a: Entries<V>, k: string, v: V)
    requires DistinctKeys(a)
    ensures DistinctKeys(Put(a, k, v))
  {
    var b := Put(a, k, v);
    KeysPut(a, k, v);
    assert forall i :: 0 <= i < |b| ==> b[i].0 == Keys(b)[i];
    if !HasKey(a, k) {
      assert forall i :: 0 <= i < |a| ==> Keys(a)[i] != k;
    }
  }

  /**
   * `array_intersect_key(a, array_flip(array_filter(array_keys(a), keep)))`:
   * the entries whose key satisfies `keep`.
   */
  function FilterKeys<V(!new)>(a: Entries<V>, keep: string -> bool): (r: Entries<V>)
    ensures forall e :: e in r <==> e in a && keep(e.0)
    decreases |a|
  {
    if |a| == 0 then []
    else if keep(a[0].0) then [a[0]] + FilterKeys(a[1..], keep)
    else FilterKeys(a[1..], keep)
  }

  /** Reading a filtered array: kept keys read as before, the others are undefined. */
  lemma {:induction false} LookupFilterKeys<V(!new)>(a: Entries<V>, keep: string -> bool, k: string)
    ensures Lookup(FilterKeys(a, keep), k) == if keep(k) then Lookup(a, k) else None
    decreases |a|
  {
    if |a| > 0 {
      LookupFilterKeys(a[1..], keep, k);
    }
  }

  /** Filtering keeps the keys distinct. */
  lemma {:induction false} FilterKeysDistinct<V(!new)>(a: Entries<V>, keep: string -> bool)
    requires DistinctKeys(a)
    ensures DistinctKeys(FilterKeys(a, keep))
    decreases |a|
  {
    if |a| > 0 {
      var rest := a[1..];
      assert DistinctKeys(rest) by {
        forall i, j | 0 <= i < j < |rest|
          ensures rest[i].0 != rest[j].0
        {
          assert rest[i] == a[i + 1] && rest[j] == a[j + 1];
        }
      }
      FilterKeysDistinct(rest, keep);
      var f := FilterKeys(rest, keep);
      forall e | e in f
        ensures e.0 != a[0].0
      {
        var j :| 0 <= j < |rest| && rest[j] == e;
        assert a[j + 1] == e;
      }
      if keep(a[0].0) {
        var r := [a[0]] + f;
        forall i, j | 0 <= i < j < |r|
          ensures r[i].0 != r[j].0
        {
          if i > 0 {
            assert r[i] == f[i - 1] && r[j] == f[j - 1];
          } else {
            assert r[j] == f[j - 1];
            assert r[j] in f;
          }
        }
      }
    }
  }
}
