/**
 * PHP associative arrays with string keys: ordered maps whose keys are
 * distinct. Position matters (iteration order), so an array is a sequence of
 * key/value pairs rather than a Dafny `map`.
 */
module PhpArrays {
  import opened Wrappers

  predicate DistinctKeys<K(==), V>(s: seq<(K, V)>) {
    forall i, j :: 0 <= i < j < |s| ==> s[i].0 != s[j].0
  }

  type PhpArray<K(==), V> = s: seq<(K, V)> | DistinctKeys(s) witness []

  function Keys<K(==), V>(a: seq<(K, V)>): set<K> {
    set i | 0 <= i < |a| :: a[i].0
  }

  lemma KeysCons<K, V>(x: (K, V), s: seq<(K, V)>)
    ensures Keys([x] + s) == {x.0} + Keys(s)
  {
    var c := [x] + s;
    assert c[0].0 == x.0;
    forall k | k in Keys(c) ensures k in {x.0} + Keys(s) {
      var i :| 0 <= i < |c| && c[i].0 == k;
      if i > 0 { assert s[i - 1].0 == k; }
    }
    forall k | k in Keys(s) ensures k in Keys(c) {
      var i :| 0 <= i < |s| && s[i].0 == k;
      assert c[i + 1].0 == k;
    }
  }

  /** `$a[$k] ?? null`: the value stored under `k`. */
  function Lookup<K(==), V>(a: seq<(K, V)>, k: K): (r: Option<V>)
    ensures r.None? <==> k !in Keys(a)
    ensures r.Some? ==> exists i :: 0 <= i < |a| && a[i] == (k, r.value)
  {
    if a == [] then None
    else if a[0].0 == k then Some(a[0].1)
    else
      var r := Lookup(a[1..], k);
      KeysCons(a[0], a[1..]);
      assert a == [a[0]] + a[1..];
      assert r.Some? ==> exists i :: 0 <= i < |a| && a[i] == (k, r.value) by {
        if r.Some? {
          var i :| 0 <= i < |a[1..]| && a[1..][i] == (k, r.value);
          assert a[i + 1] == (k, r.value);
        }
      }
      r
  }

  /** In an array with distinct keys every entry is what a lookup of its key finds. */
  lemma {:induction false} LookupEntry<K, V>(a: PhpArray<K, V>, i: nat)
    requires i < |a|
    ensures Lookup(a, a[i].0) == Some(a[i].1)
  {
    if i > 0 {
      var t: PhpArray<K, V> := a[1..];
      LookupEntry(t, i - 1);
    }
  }

  /** Position of key `k` in `a`. */
  function KeyIndex<K(==), V>(a: seq<(K, V)>, k: K): (r: Option<nat>)
    ensures r.None? <==> k !in Keys(a)
    ensures r.Some? ==> r.value < |a| && a[r.value].0 == k
  {
    if a == [] then None
    else if a[0].0 == k then Some(0)
    else
      KeysCons(a[0], a[1..]);
      assert a == [a[0]] + a[1..];
      match KeyIndex(a[1..], k)
      case None => None
      case Some(i) => Some(i + 1)
  }

  /** Overwriting the value of an existing entry changes only that key's lookup. */
  lemma ReplaceFacts<K(!new), V>(a: PhpArray<K, V>, i: nat, v: V)
    requires i < |a|
    ensures DistinctKeys(a[i := (a[i].0, v)])
    ensures Keys(a[i := (a[i].0, v)]) == Keys(a)
    ensures forall k' :: Lookup(a[i := (a[i].0, v)], k') == if k' == a[i].0 then Some(v) else Lookup(a, k')
  {
    var k := a[i].0;
    var r := a[i := (k, v)];
    assert forall j :: 0 <= j < |a| ==> r[j].0 == a[j].0;
    assert Keys(r) == Keys(a);
    var r': PhpArray<K, V> := r;
    LookupEntry(r', i);
    forall k' ensures Lookup(r, k') == if k' == k then Some(v) else Lookup(a, k') {
      if k' != k && k' in Keys(a) {
        var j :| 0 <= j < |a| && a[j].0 == k';
        LookupEntry(a, j);
        LookupEntry(r', j);
      }
    }
  }

  /** Appending a new key leaves every other lookup as it was. */
  lemma AppendFacts<K(!new), V>(a: PhpArray<K, V>, k: K, v: V)
    requires k !in Keys(a)
    ensures DistinctKeys(a + [(k, v)])
    ensures Keys(a + [(k, v)]) == Keys(a) + {k}
    ensures forall k' :: Lookup(a + [(k, v)], k') == if k' == k then Some(v) else Lookup(a, k')
  {
    var r := a + [(k, v)];
    assert forall j :: 0 <= j < |a| ==> r[j] == a[j];
    assert forall j :: 0 <= j < |a| ==> a[j].0 in Keys(a);
    assert r[|a|].0 == k;
    assert Keys(r) == Keys(a) + {k};
    var r': PhpArray<K, V> := r;
    LookupEntry(r', |a|);
    forall k' ensures Lookup(r, k') == if k' == k then Some(v) else Lookup(a, k') {
      if k' != k && k' in Keys(a) {
        var j :| 0 <= j < |a| && a[j].0 == k';
        LookupEntry(a, j);
        LookupEntry(r', j);
      }
    }
  }

  /**
   * `$a[$k] = $v`: an existing key keeps its position and takes the new value;
   * a new key is appended.
   */
  function Set<K(==,!new), V>(a: PhpArray<K, V>, k: K, v: V): (r: PhpArray<K, V>)
    ensures Lookup(r, k) == Some(v)
    ensures forall k' :: k' != k ==> Lookup(r, k') == Lookup(a, k')
    ensures Keys(r) == Keys(a) + {k}
    ensures |a| <= |r| <= |a| + 1 && forall i :: 0 <= i < |a| ==> r[i].0 == a[i].0
    ensures k !in Keys(a) ==> r == a + [(k, v)]
  {
    match KeyIndex(a, k)
    case Some(i) =>
      ReplaceFacts(a, i, v);
      a[i := (k, v)]
    case None =>
      AppendFacts(a, k, v);
      a + [(k, v)]
  }

  /**
   * `array_merge($a, $b)` for string keys: the keys of `a` in their order with
   * `b`'s value wherever `b` has the key, then `b`'s other keys (their relative
   * order is not stated).
   */
  function Merge<K(==,!new), V>(a: PhpArray<K, V>, b: PhpArray<K, V>): (r: PhpArray<K, V>)
    ensures forall k :: Lookup(r, k) == if k in Keys(b) then Lookup(b, k) else Lookup(a, k)
    ensures Keys(r) == Keys(a) + Keys(b)
    ensures |a| <= |r| <= |a| + |b| && forall i :: 0 <= i < |a| ==> r[i].0 == a[i].0
    decreases |b|
  {
    if b == [] then a
    else
      var t: PhpArray<K, V> := b[1..];
      KeysCons(b[0], t);
      assert b == [b[0]] + t;
      assert b[0].0 !in Keys(t);
      LookupEntry(b, 0);
      forall k | k != b[0].0 ensures Lookup(b, k) == Lookup(t, k) { }
      Merge(Set(a, b[0].0, b[0].1), t)
  }
}
